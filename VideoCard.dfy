/** The logic of the video card component: the string hash that turns a
    creator's name into deterministic placeholder-image seeds, and the card's
    like/comment counters with the like toggle. */
module VideoCard {
  import opened JsNumber

  /** A UTF-16 code unit, as String.prototype.charCodeAt returns it. */
  type CodeUnit = c: int | 0 <= c < 0x1_0000

  // ---------------------------------------------------------------------------
  // The name hash
  // ---------------------------------------------------------------------------

  /** One turn of the hash loop: shift hash left by five bits, subtract hash,
      add the code unit, then wrap with `| 0`. Whatever hash comes in, a
      signed 32-bit value comes out. */
  function HashStep(hash: int, code: CodeUnit): (r: int)
    ensures IsInt32(r)
  {
    ToInt32(ShiftLeft(hash, 5) - hash + code)
  }

  /** The value of `hash` once the loop has consumed the code units of s, in
      order; the loop starts from 0. */
  function Wrapped(s: seq<CodeUnit>): (r: int)
    ensures IsInt32(r)
    decreases |s|
  {
    if s == [] then 0 else HashStep(Wrapped(s[..|s| - 1]), s[|s| - 1])
  }

  /** Java's String.hashCode polynomial without any wrap-around:
      s[0]*31^(n-1) + s[1]*31^(n-2) + ... + s[n-1]. */
  function Polynomial(s: seq<CodeUnit>): int
    decreases |s|
  {
    if s == [] then 0 else s[0] * Pow(31, |s| - 1) + Polynomial(s[1..])
  }

  /** What simpleHash returns for s: Math.abs of the wrapped hash. It lies in
      [0, 2^31], and 2^31 (one past the largest signed 32-bit value) is
      returned exactly when the wrapped hash is -2^31. */
  function Hash(s: seq<CodeUnit>): (r: nat)
    ensures r <= TwoTo31
    ensures r == TwoTo31 <==> Wrapped(s) == -TwoTo31
    ensures s == [] ==> r == 0
  {
    Abs(Wrapped(s))
  }

  /** The unwrapped value of one loop turn, before `| 0`, stays below 2^32 +
      2^16 in magnitude, far inside the range where double arithmetic on
      integers is exact, so computing it on unbounded integers is faithful. */
  lemma HashStepExact(hash: int, code: CodeUnit)
    requires IsInt32(hash)
    ensures -TwoTo32 < ShiftLeft(hash, 5) - hash + code < TwoTo32 + 0x1_0000
  {
  }

  /** The shift-and-subtract in the loop is multiplication by 31 modulo 2^32. */
  lemma {:induction false} HashStepIsTimes31(hash: int, code: CodeUnit)
    ensures HashStep(hash, code) == ToInt32(31 * hash + code)
  {
    var shifted := ShiftLeft(hash, 5);
    assert Pow(2, 5) == 32;
    assert Congruent(shifted, 32 * hash);
    CongruentShift(shifted, 32 * hash, code - hash);
    ToInt32Canonical(shifted - hash + code, 31 * hash + code);
  }

  /** Appending a code unit performs one more loop turn. */
  lemma WrappedSnoc(s: seq<CodeUnit>, c: CodeUnit)
    ensures Wrapped(s + [c]) == ToInt32(31 * Wrapped(s) + c)
  {
    assert (s + [c])[..|s|] == s;
    HashStepIsTimes31(Wrapped(s), c);
  }

  /** Appending a code unit multiplies the polynomial by 31 and adds the unit. */
  lemma {:induction false} PolynomialSnoc(s: seq<CodeUnit>, c: CodeUnit)
    ensures Polynomial(s + [c]) == 31 * Polynomial(s) + c
    decreases |s|
  {
    if s == [] {
      assert Polynomial([c]) == c * Pow(31, 0) + Polynomial([]);
    } else {
      var t := s + [c];
      assert t[1..] == s[1..] + [c];
      PolynomialSnoc(s[1..], c);
      assert Pow(31, |s|) == 31 * Pow(31, |s| - 1);
      calc {
        Polynomial(t);
        s[0] * Pow(31, |s|) + Polynomial(s[1..] + [c]);
        s[0] * (31 * Pow(31, |s| - 1)) + 31 * Polynomial(s[1..]) + c;
        { assert s[0] * (31 * Pow(31, |s| - 1)) == 31 * (s[0] * Pow(31, |s| - 1)); }
        31 * (s[0] * Pow(31, |s| - 1) + Polynomial(s[1..])) + c;
        31 * Polynomial(s) + c;
      }
    }
  }

  /** The loop computes Java's hashCode polynomial reduced to a signed 32-bit
      value: wrapping on every turn gives the same result as wrapping once at
      the end. */
  lemma {:induction false} WrappedIsPolynomial(s: seq<CodeUnit>)
    ensures Wrapped(s) == ToInt32(Polynomial(s))
    decreases |s|
  {
    if s != [] {
      var init, c := s[..|s| - 1], s[|s| - 1];
      assert s == init + [c];
      WrappedIsPolynomial(init);
      WrappedSnoc(init, c);
      PolynomialSnoc(init, c);
      // Wrapped(init) is congruent to Polynomial(init), so one more turn keeps it so.
      CongruentSym(Polynomial(init), Wrapped(init));
      CongruentScale(Wrapped(init), Polynomial(init), 31);
      CongruentShift(31 * Wrapped(init), 31 * Polynomial(init), c);
      ToInt32Canonical(31 * Wrapped(init) + c, Polynomial(s));
    }
  }

  /** The upper bound 2^31 is reached: the seven-letter name "aAgaAXq" wraps to
      -2^31, so its hash is 2^31, which is not a signed 32-bit value. */
  lemma {:induction false} HashReachesTwoTo31()
    ensures Hash([97, 65, 103, 97, 65, 88, 113]) == TwoTo31
  {
    var s1 := WitnessStep([], 0, 97, 97, 0);
    var s2 := WitnessStep(s1, 97, 65, 3072, 0);
    var s3 := WitnessStep(s2, 3072, 103, 95335, 0);
    var s4 := WitnessStep(s3, 95335, 97, 2955482, 0);
    var s5 := WitnessStep(s4, 2955482, 65, 91620007, 0);
    var s6 := WitnessStep(s5, 91620007, 88, -1454746991, 1);
    var s7 := WitnessStep(s6, -1454746991, 113, -TwoTo31, -10);
    assert s7 == [97, 65, 103, 97, 65, 88, 113];
  }

  /** One turn of the loop on known values, for HashReachesTwoTo31: the new
      hash is 31 * before + c less wraps multiples of 2^32. */
  lemma WitnessStep(s: seq<CodeUnit>, before: int, c: CodeUnit, after: int, wraps: int)
    returns (t: seq<CodeUnit>)
    requires Wrapped(s) == before
    requires IsInt32(after) && 31 * before + c - after == TwoTo32 * wraps
    ensures t == s + [c] && Wrapped(t) == after
  {
    t := s + [c];
    WrappedSnoc(s, c);
    CongruentByMultiple(31 * before + c, after, wraps);
    ToInt32Canonical(31 * before + c, after);
    ToInt32OfInt32(after);
  }

  /** simpleHash: walks the code units of str, keeping hash a signed 32-bit
      value after every turn, and returns its absolute value. */
  method SimpleHash(str: seq<CodeUnit>) returns (h: nat)
    ensures h == Hash(str)
    ensures h == Abs(ToInt32(Polynomial(str)))
    ensures h <= TwoTo31
  {
    var hash := 0;
    for i := 0 to |str|
      invariant IsInt32(hash)
      invariant hash == Wrapped(str[..i])
    {
      var code := str[i];
      ghost var prev := hash;
      hash := ShiftLeft(hash, 5) - hash + code;
      hash := ToInt32(hash);
      assert hash == HashStep(prev, code);
      assert str[..i + 1][..i] == str[..i];
    }
    assert str[..|str|] == str;
    WrappedIsPolynomial(str);
    h := Abs(hash);
  }

  /** The two placeholder-image seeds a card derives from its creator's name. */
  datatype ImageSeeds = ImageSeeds(avatar: nat, video: nat)

  /** The avatar seed is the name's hash and the video seed is one more, so
      both depend on the name alone and never coincide. */
  method CardSeeds(creatorName: seq<CodeUnit>) returns (seeds: ImageSeeds)
    ensures seeds.avatar == Hash(creatorName)
    ensures seeds.video == seeds.avatar + 1
    ensures seeds.avatar <= TwoTo31 && 1 <= seeds.video <= TwoTo31 + 1
  {
    var creatorHash := SimpleHash(creatorName);
    seeds := ImageSeeds(creatorHash, creatorHash + 1);
  }

  // ---------------------------------------------------------------------------
  // The like toggle
  // ---------------------------------------------------------------------------

  /** The part of the card's state that the like button touches. */
  datatype LikeState = LikeState(likes: int, isLiked: bool)

  /** The count of likes from other viewers: the displayed count without the
      viewer's own like. */
  function OthersLikes(s: LikeState): int {
    if s.isLiked then s.likes - 1 else s.likes
  }

  /** A state the card can show: no negative count, and a liked card counts at
      least the viewer's own like. */
  predicate Consistent(s: LikeState) {
    s.likes >= 0 && (s.isLiked ==> s.likes >= 1)
  }

  /** The like handler on pure state: it flips isLiked and keeps the count of
      other viewers' likes, so the displayed count moves by exactly one. */
  function Toggle(s: LikeState): (r: LikeState)
    ensures r.isLiked == !s.isLiked
    ensures OthersLikes(r) == OthersLikes(s)
    ensures r.likes == s.likes + 1 || r.likes == s.likes - 1
  {
    LikeState(if s.isLiked then s.likes - 1 else s.likes + 1, !s.isLiked)
  }

  /** The state after n presses of the like button. */
  function Toggles(s: LikeState, n: nat): LikeState {
    if n == 0 then s else Toggle(Toggles(s, n - 1))
  }

  /** A state is consistent exactly when the other viewers' count is not
      negative; since Toggle keeps that count, it keeps consistency both ways. */
  lemma {:induction false} TogglePreservesConsistent(s: LikeState)
    ensures Consistent(s) <==> OthersLikes(s) >= 0
    ensures Consistent(Toggle(s)) <==> Consistent(s)
  {
  }

  /** Pressing the like button twice restores the state. */
  lemma {:induction false} ToggleTwice(s: LikeState)
    ensures Toggle(Toggle(s)) == s
  {
  }

  /** From the state the card mounts in (not liked, some count n), the presses
      alternate between exactly two states: (n, not liked) after an even
      number of presses and (n + 1, liked) after an odd number. Both are
      consistent when n is not negative. */
  lemma {:induction false} TogglesFromUnliked(likes: int, n: nat)
    ensures Toggles(LikeState(likes, false), n)
         == if n % 2 == 0 then LikeState(likes, false) else LikeState(likes + 1, true)
    ensures likes >= 0 ==> Consistent(Toggles(LikeState(likes, false), n))
  {
    if n > 0 {
      TogglesFromUnliked(likes, n - 1);
    }
  }

  /** Any number of presses from a consistent state leads to a consistent
      state. */
  lemma {:induction false} TogglesPreserveConsistent(s: LikeState, n: nat)
    requires Consistent(s)
    ensures Consistent(Toggles(s, n))
    ensures OthersLikes(Toggles(s, n)) == OthersLikes(s)
  {
    if n > 0 {
      TogglesPreserveConsistent(s, n - 1);
    }
  }

  /** Exclusive upper bounds of the random whole numbers a card's like and
      comment counters are mounted with. */
  const LikesBound: nat := 5000
  const CommentsBound: nat := 500

  /** A rendered video card: its creator's name, and the three pieces of view
      state the component keeps. */
  class Card {
    const creatorName: seq<CodeUnit>
    var likes: int
    var comments: int
    var isLiked: bool

    function State(): LikeState
      reads this
    {
      LikeState(likes, isLiked)
    }

    ghost predicate Valid()
      reads this
    {
      Consistent(State()) && comments >= 0
    }

    /** The first render: both counters start at 0 and the card is not liked. */
    constructor (creatorName: seq<CodeUnit>)
      ensures this.creatorName == creatorName
      ensures likes == 0 && comments == 0 && !isLiked
      ensures Valid()
    {
      this.creatorName := creatorName;
      likes, comments, isLiked := 0, 0, false;
    }

    /** The image seeds this card renders with, recomputed from its
        creator's name on every render. */
    method Seeds() returns (seeds: ImageSeeds)
      ensures seeds.avatar == Hash(creatorName)
      ensures seeds.video == seeds.avatar + 1
    {
      seeds := CardSeeds(creatorName);
    }

    /** The mount effect: the counters are replaced by random whole numbers
        below 5000 and 500, passed in here. isLiked is left as it is, so the
        card stays valid when it is mounted while not liked, or when the new
        count is at least one. */
    method Mount(initialLikes: nat, initialComments: nat)
      requires initialLikes < LikesBound && initialComments < CommentsBound
      modifies this
      ensures likes == initialLikes && comments == initialComments
      ensures isLiked == old(isLiked)
      ensures !old(isLiked) ==> State() == LikeState(initialLikes, false) && Valid()
      ensures initialLikes >= 1 ==> Valid()
    {
      likes := initialLikes;
      comments := initialComments;
    }

    /** handleLike: one less like if the card was liked, one more otherwise,
        and isLiked flips. The comment count is untouched and validity is
        kept. */
    method Like()
      modifies this
      ensures likes == (if old(isLiked) then old(likes) - 1 else old(likes) + 1)
      ensures isLiked == !old(isLiked)
      ensures comments == old(comments)
      ensures State() == Toggle(old(State()))
      ensures OthersLikes(State()) == OthersLikes(old(State()))
      ensures old(Valid()) ==> Valid()
    {
      likes := if isLiked then likes - 1 else likes + 1;
      isLiked := !isLiked;
    }
  }
}
