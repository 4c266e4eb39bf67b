/** Go's fixed-width integer conversions and its truncating integer division. */
module GoInts {

  const Two31: int := 0x8000_0000
  const Two32: int := 0x1_0000_0000
  const Two63: int := 0x8000_0000_0000_0000
  const Two64: int := 0x1_0000_0000_0000_0000

  /** The conversion int32(x): keeps x modulo 2^32, read as a two's-complement value. */
  function Int32(x: int): (r: int)
    ensures -Two31 <= r < Two31
    ensures (x - r) % Two32 == 0
    ensures 0 <= x < Two31 ==> r == x
  {
    var m := x % Two32;
    if m < Two31 then m else m - Two32
  }

  /** A product in int64 arithmetic: the exact value modulo 2^64, read as two's complement. */
  function Int64(x: int): (r: int)
    ensures -Two63 <= r < Two63
    ensures (x - r) % Two64 == 0
    ensures -Two63 <= x < Two63 ==> r == x
  {
    var m := x % Two64;
    if m < Two63 then m else m - Two64
  }

  function Abs(x: int): nat { if x < 0 then -x else x }

  /** Go's a / b on integers: the quotient truncated toward zero. */
  function Quot(a: int, b: int): (q: int)
    requires b != 0
    ensures Abs(a - q * b) < Abs(b)
    ensures a >= 0 ==> 0 <= a - q * b
    ensures a <= 0 ==> a - q * b <= 0
  {
    var q0 := Abs(a) / Abs(b);
    var q := if (a < 0) == (b < 0) then q0 else -q0;
    TruncatedRemainder(a, b, q0, q);
    q
  }

  /** The remainder left by the truncated quotient is |a| mod |b| with the sign of a. */
  lemma TruncatedRemainder(a: int, b: int, q0: int, q: int)
    requires b != 0 && q0 == Abs(a) / Abs(b)
    requires q == if (a < 0) == (b < 0) then q0 else -q0
    ensures Abs(a - q * b) < Abs(b)
    ensures a >= 0 ==> 0 <= a - q * b
    ensures a <= 0 ==> a - q * b <= 0
  {
    var x: int, y: int := Abs(a), Abs(b);
    var r := x - q0 * y;
    DivisionRemainder(x, y);
    NegMul(q0, y);
    if a >= 0 && b > 0 {
      assert a - q * b == r;
    } else if a >= 0 {
      assert q * b == (-q0) * (-y);
      assert a - q * b == r;
    } else if b < 0 {
      assert q * b == q0 * (-y);
      assert a - q * b == -r;
    } else {
      assert q * b == (-q0) * y;
      assert a - q * b == -r;
    }
  }

  lemma NegMul(x: int, y: int)
    ensures (-x) * y == -(x * y) && x * (-y) == -(x * y) && (-x) * (-y) == x * y
  {
  }

  /** Euclidean division of naturals leaves a remainder below the divisor. */
  lemma DivisionRemainder(x: nat, y: nat)
    requires y > 0
    ensures 0 <= x - (x / y) * y < y
  {
  }
}
