/** The ECMAScript integer operations the video card's hash relies on, stated
    on unbounded integers: the ToInt32 conversion behind `|` and `<<`, the
    left shift itself, and Math.abs. Every value they are applied to in the
    card is an integral Number well below 2^53, so double arithmetic on it is
    exact and these integer definitions agree with the engine's
    (VideoCard.HashStepExact states the bound for the hash loop). */
module JsNumber {

  const TwoTo31: int := 0x8000_0000
  const TwoTo32: int := 0x1_0000_0000

  /** The signed 32-bit range, [-2^31, 2^31). */
  predicate IsInt32(x: int) {
    -TwoTo31 <= x < TwoTo31
  }

  /** a and b are equal modulo 2^32. */
  predicate Congruent(a: int, b: int) {
    (a - b) % TwoTo32 == 0
  }

  function Pow(base: int, exp: nat): int {
    if exp == 0 then 1 else base * Pow(base, exp - 1)
  }

  /** ToInt32 on an integral Number: the unique signed 32-bit value congruent
      to x modulo 2^32. This is what `x | 0` evaluates to. */
  function ToInt32(x: int): (r: int)
    ensures IsInt32(r)
    ensures Congruent(x, r)
  {
    var m := x % TwoTo32;
    assert x == TwoTo32 * (x / TwoTo32) + m;
    if m < TwoTo31 then m else m - TwoTo32
  }

  lemma CongruentByMultiple(a: int, b: int, q: int)
    requires a - b == TwoTo32 * q
    ensures Congruent(a, b)
  {
  }

  lemma CongruentWitness(a: int, b: int) returns (q: int)
    requires Congruent(a, b)
    ensures a - b == TwoTo32 * q
  {
    q := (a - b) / TwoTo32;
  }

  /** Congruence survives multiplying both sides by the same integer. */
  lemma CongruentScale(a: int, b: int, k: int)
    requires Congruent(a, b)
    ensures Congruent(a * k, b * k)
  {
    var q := CongruentWitness(a, b);
    calc {
      a * k - b * k;
      (a - b) * k;
      TwoTo32 * q * k;
    }
    CongruentByMultiple(a * k, b * k, q * k);
  }

  /** Congruence survives adding the same integer to both sides. */
  lemma CongruentShift(a: int, b: int, d: int)
    requires Congruent(a, b)
    ensures Congruent(a + d, b + d)
  {
  }

  lemma CongruentTrans(a: int, b: int, c: int)
    requires Congruent(a, b) && Congruent(b, c)
    ensures Congruent(a, c)
  {
  }

  lemma CongruentSym(a: int, b: int)
    requires Congruent(a, b)
    ensures Congruent(b, a)
  {
  }

  /** ToInt32 identifies exactly the integers that agree modulo 2^32: it is the
      canonical representative of each residue class. */
  lemma {:induction false} ToInt32Canonical(x: int, y: int)
    ensures ToInt32(x) == ToInt32(y) <==> Congruent(x, y)
  {
    var rx, ry := ToInt32(x), ToInt32(y);
    if Congruent(x, y) {
      CongruentSym(x, rx);
      CongruentTrans(rx, x, y);
      CongruentTrans(rx, y, ry);
      var q := CongruentWitness(rx, ry);
      assert -TwoTo32 < rx - ry < TwoTo32;
      assert q == 0;
    }
    if rx == ry {
      CongruentSym(y, ry);
      CongruentTrans(x, rx, y);
    }
  }

  /** ToInt32 leaves a value that is already a signed 32-bit integer alone, so
      the second `| 0` of a pair changes nothing. */
  lemma ToInt32OfInt32(x: int)
    requires IsInt32(x)
    ensures ToInt32(x) == x
  {
  }

  /** `x << count`: ToInt32 of the left operand, multiplied by 2 to the shift
      count taken modulo 32, and converted back to a signed 32-bit value. */
  function ShiftLeft(x: int, count: nat): (r: int)
    ensures IsInt32(r)
    ensures Congruent(r, x * Pow(2, count % 32))
  {
    var k := Pow(2, count % 32);
    var r := ToInt32(ToInt32(x) * k);
    CongruentSym(x, ToInt32(x));
    CongruentScale(ToInt32(x), x, k);
    CongruentSym(ToInt32(x) * k, r);
    CongruentTrans(r, ToInt32(x) * k, x * k);
    r
  }

  /** Math.abs on an integral Number. */
  function Abs(x: int): (r: nat)
    ensures r == x || r == -x
  {
    if x < 0 then -x else x
  }
}
