# Video card: name hash and like counter

This project models the one piece of self-contained logic in the short-video
web app's `VideoCard` component (`src/components/video-card.tsx`). It has two parts.

- **`simpleHash`**: a 32-bit polynomial string hash, the same recurrence as
  Java's `String.hashCode`. It walks the UTF-16 code units of a creator's name.
  On each turn it computes `(hash << 5) - hash + char` and wraps the result to a
  signed 32-bit integer with `hash |= 0`. At the end it returns
  `Math.abs(hash)`. The card uses the result `h` as the seed of the avatar
  image and `h + 1` as the seed of the video thumbnail.
- **The card's view state**: `likes`, `comments` and `isLiked`. The first render
  shows 0, 0 and not liked. A mount effect then replaces both counters with
  random whole numbers below 5000 and 500. The like button runs `handleLike`,
  which flips `isLiked` and moves `likes` by one.

The model has two modules.

- `JsNumber` (JsNumber.dfy) holds the ECMAScript integer operations the hash
  uses, on unbounded integers: `ToInt32` (what `x | 0` gives), `ShiftLeft` (`<<`)
  and `Abs` (`Math.abs`). All intermediate values of the hash stay below
  2^32 + 2^16 in magnitude (`VideoCard.HashStepExact`). That is well inside
  the range a double represents exactly, so double arithmetic agrees with
  integer arithmetic there.
- `VideoCard` (VideoCard.dfy) holds the following:
  - `SimpleHash`, the loop as a method, proved against the recursive
    specification `Wrapped` and against the unwrapped polynomial `Polynomial`.
  - `CardSeeds`, the seed derivation, which `Card.Seeds` applies to the
    card's creator name, as the source does on every render.
  - The like toggle, as a pure state machine (`LikeState`, `Toggle`).
  - The `Card` class, whose fields the `Mount` and `Like` methods update in
    place.

A string is a sequence of `CodeUnit`s, integers in [0, 65536). This is the range
`charCodeAt` yields. `Math.random` is not modelled as a number generator:
`Mount` takes the two initial counts as parameters, constrained to the ranges
`Math.floor(Math.random() * 5000)` and `Math.floor(Math.random() * 500)` can
produce.

`Mount` does not touch `isLiked`, as in the source. A card stays valid (no
negative count, a liked card shows at least one like) when it is mounted while
not liked, for example before any press or after an even number of presses.
If it is mounted while liked (after an odd number of presses), it stays valid
only when the random count is at least one. Otherwise a later press takes the
count to -1. In the source this happens when a press lands before the mount
effect: the effect's new count is applied after the press's update.
`Card.Mount`'s contract states both cases.

## Model

| member | source | states |
|---|---|---|
| `JsNumber.ToInt32` | src/components/video-card.tsx:19 | `hash \|= 0` yields a value in [-2^31, 2^31) that is congruent to its operand modulo 2^32 |
| `JsNumber.ToInt32Canonical` | src/components/video-card.tsx:19 | two integers wrap to the same signed 32-bit value if and only if they agree modulo 2^32 |
| `JsNumber.ToInt32OfInt32` | src/components/video-card.tsx:18-19 | wrapping a value already in the signed 32-bit range leaves it unchanged, so converting `hash` before the shift changes nothing |
| `JsNumber.ShiftLeft` | src/components/video-card.tsx:18 | `hash << 5` is a signed 32-bit value congruent to 32·hash modulo 2^32 |
| `JsNumber.Abs` | src/components/video-card.tsx:21 | `Math.abs` returns a non-negative value equal to its argument or to its negation |
| `VideoCard.HashStep` | src/components/video-card.tsx:17-19 | one loop turn leaves `hash` in the signed 32-bit range, whatever value it had before |
| `VideoCard.HashStepExact` | src/components/video-card.tsx:18 | from a signed 32-bit hash, the unwrapped value of `(hash << 5) - hash + char` lies in (-2^32, 2^32 + 2^16), where double arithmetic is exact |
| `VideoCard.HashStepIsTimes31` | src/components/video-card.tsx:18-19 | the shift-and-subtract turn equals int32-wrap(31·hash + code) |
| `VideoCard.Wrapped` | src/components/video-card.tsx:15-20 | the hash after any prefix of the string lies in [-2^31, 2^31) |
| `VideoCard.WrappedSnoc` | src/components/video-card.tsx:16-20 | consuming one more code unit takes the hash to int32-wrap(31·previous + code) |
| `VideoCard.PolynomialSnoc` | src/components/video-card.tsx:16-20 | Java's unwrapped hash polynomial sum of s[i]·31^(n-1-i) grows by the same recurrence as the loop |
| `VideoCard.WrappedIsPolynomial` | src/components/video-card.tsx:14-22 | the loop's wrapped hash equals the unwrapped polynomial reduced to a signed 32-bit value, so wrapping on every turn equals wrapping once at the end |
| `VideoCard.Hash` | src/components/video-card.tsx:21 | the returned value lies in [0, 2^31]; it is 2^31 exactly when the wrapped hash is -2^31; the empty string hashes to 0 |
| `VideoCard.HashReachesTwoTo31` | src/components/video-card.tsx:21 | the bound 2^31, outside the signed 32-bit range, is reached: the name "aAgaAXq" wraps to -2^31 |
| `VideoCard.SimpleHash` | src/components/video-card.tsx:14-22 | the loop returns the absolute value of the int32-reduced polynomial, which lies in [0, 2^31] |
| `VideoCard.CardSeeds` | src/components/video-card.tsx:35-37 | the avatar seed is the name's hash, a function of the name alone; the video seed is the avatar seed + 1; both lie in [0, 2^31 + 1] |
| `VideoCard.Toggle` | src/components/video-card.tsx:39-42 | a press flips `isLiked`, moves `likes` by one, and keeps the count of other viewers' likes |
| `VideoCard.TogglePreservesConsistent` | src/components/video-card.tsx:39-42 | a state is consistent if and only if the other viewers' count is non-negative; a press keeps consistency in both directions |
| `VideoCard.ToggleTwice` | src/components/video-card.tsx:39-42 | two presses restore the original (`likes`, `isLiked`) pair |
| `VideoCard.TogglesFromUnliked` | src/components/video-card.tsx:25-32 | from a mounted card (n likes, not liked), after any number of presses the state is (n, not liked) or (n + 1, liked), by parity; it is consistent when n >= 0 |
| `VideoCard.TogglesPreserveConsistent` | src/components/video-card.tsx:39-42 | any number of presses from a consistent state gives a consistent state with the same count of other viewers' likes |
| `VideoCard.Card.constructor` | src/components/video-card.tsx:25-27 | the first render has 0 likes, 0 comments and is not liked |
| `VideoCard.Card.Seeds` | src/components/video-card.tsx:35-37 | a card's avatar seed is the hash of its creator's name and its video seed is one more |
| `VideoCard.Card.Mount` | src/components/video-card.tsx:29-32 | the mount effect sets the counters to the given values below 5000 and 500 and leaves `isLiked` alone; the card is valid afterwards if it was not liked or the new count is positive |
| `VideoCard.Card.Like` | src/components/video-card.tsx:39-42 | `handleLike` sets `likes` to one less if liked, one more otherwise; it negates `isLiked`, leaves `comments` unchanged, keeps validity and is `Toggle` on the state |

## Left out

- The random number generator: `Math.random` and `Math.floor` on doubles are replaced by parameters of `Card.Mount` in the ranges they can produce.
- React's state updates and their batching are not modelled. `handleLike` reads `isLiked` from the render that created it. Each `Card.Like` call here sees the state left by the previous one, as happens when every press is followed by a re-render.
- Letter case and locale: `toUpperCase` for the creator's initial and `toLocaleString` for the displayed counts are library calls.
- The image URLs are not modelled as text. Only the two numeric seeds formatted into them are.
- All JSX rendering, the Follow and Share buttons, and the comment button are left out. They have no behaviour: `comments` is only displayed.
