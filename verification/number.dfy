/**
 * Model of number/number.go: Go's integer conversions `int16(i)`,
 * `int32(i)` and `int64(i)` from `int`. Go's `int` is 64 bits wide on the
 * platforms the repository targets; a narrowing conversion keeps the low
 * bits, i.e. it wraps around modulo 2^16 or 2^32 into the signed range.
 */
module Number {

  newtype int16 = x: int | -0x8000 <= x < 0x8000
  newtype int32 = x: int | -0x8000_0000 <= x < 0x8000_0000
  newtype int64 = x: int | -0x8000_0000_0000_0000 <= x < 0x8000_0000_0000_0000

  /** Go's `int` (64 bits). */
  type GoInt = int64

  /** Two's-complement wrap-around of an unbounded integer into int64 (Go's overflow behaviour). */
  function WrapInt64(x: int): (r: int64)
    ensures (x - r as int) % 0x1_0000_0000_0000_0000 == 0
    ensures -0x8000_0000_0000_0000 <= x < 0x8000_0000_0000_0000 ==> r as int == x
  {
    ((x + 0x8000_0000_0000_0000) % 0x1_0000_0000_0000_0000 - 0x8000_0000_0000_0000) as int64
  }

  /** IntToInt16: keeps the low 16 bits, read as a signed number. */
  function IntToInt16(i: GoInt): (r: int16)
    ensures (i as int - r as int) % 0x1_0000 == 0
    ensures -0x8000 <= i as int < 0x8000 ==> r as int == i as int
  {
    ((i as int + 0x8000) % 0x1_0000 - 0x8000) as int16
  }

  /** IntToInt32: keeps the low 32 bits, read as a signed number. */
  function IntToInt32(i: GoInt): (r: int32)
    ensures (i as int - r as int) % 0x1_0000_0000 == 0
    ensures -0x8000_0000 <= i as int < 0x8000_0000 ==> r as int == i as int
  {
    ((i as int + 0x8000_0000) % 0x1_0000_0000 - 0x8000_0000) as int32
  }

  /** IntToInt64: `int` and `int64` have the same width, so nothing changes. */
  function IntToInt64(i: GoInt): (r: int64)
    ensures r as int == i as int
  {
    i as int as int64
  }

  /** Two numbers congruent modulo `m` and both in a window of width `m` are equal. */
  lemma CongruentInWindow(a: int, b: int, lo: int, m: int)
    requires m > 0 && lo <= a < lo + m && lo <= b < lo + m
    requires (a - b) % m == 0
    ensures a == b
  {
    var q := (a - b) / m;
    assert a - b == q * m;
  }

  /** The 16-bit result is the only int16 congruent to the input modulo 2^16. */
  lemma IntToInt16Unique(i: GoInt, r: int16)
    requires (i as int - r as int) % 0x1_0000 == 0
    ensures r == IntToInt16(i)
  {
    var t := IntToInt16(i);
    assert ((r as int) - (t as int)) % 0x1_0000 == 0;
    CongruentInWindow(r as int, t as int, -0x8000, 0x1_0000);
  }

  /** The 32-bit result is the only int32 congruent to the input modulo 2^32. */
  lemma IntToInt32Unique(i: GoInt, r: int32)
    requires (i as int - r as int) % 0x1_0000_0000 == 0
    ensures r == IntToInt32(i)
  {
    var t := IntToInt32(i);
    assert ((r as int) - (t as int)) % 0x1_0000_0000 == 0;
    CongruentInWindow(r as int, t as int, -0x8000_0000, 0x1_0000_0000);
  }

  /** Narrowing in two steps (`int16(int32(i))`) is narrowing in one. */
  lemma NarrowingComposes(i: GoInt)
    ensures IntToInt16(IntToInt32(i) as int as GoInt) == IntToInt16(i)
  {
    var m := IntToInt32(i);
    var t := IntToInt16(m as int as GoInt);
    CongruenceComposes(i as int, m as int, t as int);
    IntToInt16Unique(i, t);
  }

  /** Congruence modulo 2^32 implies congruence modulo 2^16, and congruence modulo 2^16 is transitive. */
  lemma CongruenceComposes(i: int, m: int, t: int)
    requires (i - m) % 0x1_0000_0000 == 0 && (m - t) % 0x1_0000 == 0
    ensures (i - t) % 0x1_0000 == 0
  {
    var k := (i - m) / 0x1_0000_0000;
    var d := (m - t) / 0x1_0000;
    assert i - t == (k * 0x1_0000 + d) * 0x1_0000;
  }
}
