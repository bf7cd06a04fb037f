/**
 The parts of the JavaScript runtime that the avatar and mouse-tracker code
 relies on: optional values, the 32-bit integer conversions that the bitwise
 operators apply (section 7.1.6 of ECMA-262, ToInt32 and ToUint32), the
 operators `<<` and `&` on int32 values, `Math.abs`, and the UTF-16 code
 units that `String.prototype.length` and `charCodeAt` expose.

 A JavaScript string is modelled as a Dafny `string`, a sequence of Unicode
 scalar values; its UTF-16 code units are given by `CodeUnits`.
 */
module JsRuntime {

  /** An optional value: `None` stands for an `undefined` field of an `AvatarConfig`, whose
      destructuring default then applies, and for the `null` of a not yet known user id. */
  datatype Option<T> = None | Some(value: T) {
    function GetOr(default: T): (r: T)
      ensures Some? ==> r == value
      ensures None? ==> r == default
    {
      match this
      case Some(v) => v
      case None => default
    }
  }

  const TWO_31: int := 0x8000_0000
  const TWO_32: int := 0x1_0000_0000

  predicate IsInt32(x: int) {
    -TWO_31 <= x < TWO_31
  }

  /** ToInt32 on an integral number: the unique int32 congruent to `x` modulo 2^32. */
  function ToInt32(x: int): (r: int)
    ensures IsInt32(r)
    ensures (x - r) % TWO_32 == 0
    ensures IsInt32(x) ==> r == x
  {
    var m := x % TWO_32;
    if m >= TWO_31 then m - TWO_32 else m
  }

  /** ToUint32 on an integral number: the unique value in [0, 2^32) congruent to `x`. */
  function ToUint32(x: int): (r: int)
    ensures 0 <= r < TWO_32
    ensures (x - r) % TWO_32 == 0
  {
    x % TWO_32
  }

  /** Numbers that differ by a multiple of 2^32 have the same ToInt32. */
  lemma ToInt32Congruent(a: int, b: int)
    requires (a - b) % TWO_32 == 0
    ensures ToInt32(a) == ToInt32(b)
  {
    var k := (a - b) / TWO_32;
    assert a == b + k * TWO_32;
    ModShift(b, k);
  }

  lemma ModShift(b: int, k: int)
    ensures (b + k * TWO_32) % TWO_32 == b % TWO_32
  {
    var q := b / TWO_32;
    assert b == q * TWO_32 + b % TWO_32;
    assert b + k * TWO_32 == (q + k) * TWO_32 + b % TWO_32;
  }

  /** Reads an unsigned 32-bit pattern as a signed (two's complement) integer. */
  function FromUint32(u: int): (r: int)
    requires 0 <= u < TWO_32
    ensures IsInt32(r)
    ensures (u - r) % TWO_32 == 0
  {
    if u >= TWO_31 then u - TWO_32 else u
  }

  /** `a << 5`: the left operand is converted by ToInt32 and the shifted bits are read back as an int32. */
  function ShiftLeft5(a: int): (r: int)
    ensures IsInt32(r)
    ensures (32 * a - r) % TWO_32 == 0
  {
    var r := ToInt32(ToInt32(a) * 32);
    ghost var k := (a - ToInt32(a)) / TWO_32;
    assert a == ToInt32(a) + k * TWO_32;
    assert 32 * a - ToInt32(a) * 32 == (32 * k) * TWO_32;
    ModShift(0, 32 * k);
    assert (32 * a - ToInt32(a) * 32) % TWO_32 == 0;
    Congruence3(32 * a, ToInt32(a) * 32, r);
    r
  }

  lemma Congruence3(a: int, b: int, c: int)
    requires (a - b) % TWO_32 == 0 && (b - c) % TWO_32 == 0
    ensures (a - c) % TWO_32 == 0
  {
    var k1 := (a - b) / TWO_32;
    var k2 := (b - c) / TWO_32;
    assert a - c == (k1 + k2) * TWO_32;
    ModShift(0, k1 + k2);
  }

  function Pow2(n: nat): (r: nat)
    ensures r >= 1
  {
    if n == 0 then 1 else 2 * Pow2(n - 1)
  }

  /** The low `n` bits of the bitwise AND of two non-negative integers, computed bit by bit. */
  function AndBits(a: nat, b: nat, n: nat): (r: nat)
    ensures r < Pow2(n)
  {
    if n == 0 then 0
    else 2 * AndBits(a / 2, b / 2, n - 1) + (if a % 2 == 1 && b % 2 == 1 then 1 else 0)
  }

  /** `a & b`: both operands are converted to 32 bits, combined bit by bit and read back as an int32. */
  function BitAnd(a: int, b: int): (r: int)
    ensures IsInt32(r)
  {
    Pow2Is32();
    FromUint32(AndBits(ToUint32(a), ToUint32(b), 32))
  }

  lemma {:induction false} Pow2Add(a: nat, b: nat)
    ensures Pow2(a + b) == Pow2(a) * Pow2(b)
  {
    if a > 0 {
      Pow2Add(a - 1, b);
    }
  }

  lemma Pow2Is32()
    ensures Pow2(32) == TWO_32
  {
    assert Pow2(8) == 256;
    Pow2Add(8, 8);
    Pow2Add(16, 16);
  }

  lemma ModUnique(a: int, m: int, t: int, s: int)
    requires m > 0 && 0 <= s < m && a == m * t + s
    ensures a % m == s
  {
    var q := a / m;
    assert a == m * q + a % m;
    if q > t {
      MulLe(m, t + 1, q);
      assert false;
    } else if q < t {
      MulLe(m, q + 1, t);
      assert false;
    }
  }

  lemma MulLe(m: int, x: int, y: int)
    requires m >= 0 && x <= y
    ensures m * x <= m * y
  {
    assert m * y - m * x == m * (y - x);
  }

  /** Splitting off the lowest bit: `a mod 2p` is twice `(a div 2) mod p` plus the low bit. */
  lemma ModDouble(a: nat, p: nat)
    requires p >= 1
    ensures a % (2 * p) == 2 * ((a / 2) % p) + a % 2
  {
    var t, s := (a / 2) / p, (a / 2) % p;
    assert a / 2 == p * t + s;
    assert a == 2 * (a / 2) + a % 2;
    assert a == (2 * p) * t + (2 * s + a % 2);
    ModUnique(a, 2 * p, t, 2 * s + a % 2);
  }

  /** ANDing the low `n` bits of a number with themselves keeps them unchanged. */
  lemma {:induction false} AndBitsSelf(a: nat, n: nat)
    ensures AndBits(a, a, n) == a % Pow2(n)
  {
    if n > 0 {
      AndBitsSelf(a / 2, n - 1);
      ModDouble(a, Pow2(n - 1));
    }
  }

  /** `x & x` truncates `x` to a signed 32-bit integer. */
  lemma BitAndSelf(x: int)
    ensures BitAnd(x, x) == ToInt32(x)
  {
    var u := ToUint32(x);
    assert AndBits(u, u, 32) == u by {
      Pow2Is32();
      AndBitsSelf(u, 32);
      ModUnique(u, TWO_32, 0, u);
    }
    var r := FromUint32(u);
    assert BitAnd(x, x) == r;
    assert (x - r) % TWO_32 == 0 by {
      Congruence3(x, u, r);
    }
    ToInt32Congruent(x, r);
  }

  /** `Math.abs` on an integral number; no overflow, so `Math.abs(-2^31)` is 2^31. */
  function Abs(x: int): (r: nat)
    ensures r == x || r == -x
    ensures x < 0 ==> r > 0
  {
    if x < 0 then -x else x
  }

  /** A UTF-16 code unit, the value `String.prototype.charCodeAt` returns. */
  newtype CodeUnit = x: int | 0 <= x < 0x1_0000

  /** The UTF-16 encoding of one Unicode scalar value: one unit, or a surrogate pair. */
  function Utf16(c: char): (units: seq<CodeUnit>)
    ensures c as int < 0x1_0000 ==> units == [c as int as CodeUnit]
    ensures c as int >= 0x1_0000 ==>
      |units| == 2 && 0xD800 <= units[0] < 0xDC00 && 0xDC00 <= units[1] < 0xE000 &&
      (units[0] as int - 0xD800) * 0x400 + (units[1] as int - 0xDC00) + 0x1_0000 == c as int
  {
    var n := c as int;
    if n < 0x1_0000 then [n as CodeUnit]
    else
      var m := n - 0x1_0000;
      [(0xD800 + m / 0x400) as CodeUnit, (0xDC00 + m % 0x400) as CodeUnit]
  }

  /** The code units of a JavaScript string: what `str.length` counts and `str.charCodeAt(i)` reads. */
  function CodeUnits(s: string): (units: seq<CodeUnit>)
    ensures |units| >= |s|
    ensures (forall i :: 0 <= i < |s| ==> s[i] as int < 0x1_0000) ==>
      |units| == |s| && forall i :: 0 <= i < |s| ==> units[i] as int == s[i] as int
  {
    if s == [] then [] else Utf16(s[0]) + CodeUnits(s[1..])
  }
}
