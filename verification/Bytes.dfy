/** Bytes and the little-endian integers that the wire format is made of. */
module Bytes {
  type Byte = b: int | 0 <= b < 256

  const U16: nat := 0x1_0000
  const U32: nat := 0x1_0000_0000
  const U64: nat := 0x1_0000_0000_0000_0000

  datatype Option<+T> = None | Some(value: T)

  function Pow256(n: nat): (r: nat)
    ensures r > 0
  {
    if n == 0 then 1 else 256 * Pow256(n - 1)
  }

  /** Byte number i of v, counting from the least significant one. */
  function ByteOf(v: nat, i: nat): Byte
    decreases i
  {
    if i == 0 then v % 256 else ByteOf(v / 256, i - 1)
  }

  /** The n low-order bytes of v, least significant first. */
  function LE(v: nat, n: nat): (s: seq<Byte>)
    ensures |s| == n
  {
    seq(n, i requires 0 <= i < n => ByteOf(v, i))
  }

  lemma LEstep(v: nat, n: nat)
    requires n > 0
    ensures LE(v, n) == [v % 256] + LE(v / 256, n - 1)
  {
  }

  /** Byte i counts 256 to the power of i. */
  lemma {:induction false} LEAt(v: nat, n: nat, i: nat)
    requires i < n
    ensures LE(v, n)[i] == v / Pow256(i) % 256
    decreases i
  {
    if i > 0 {
      LEAt(v / 256, n - 1, i - 1);
      DivTwice(v, Pow256(i - 1));
    }
  }

  lemma DivTwice(v: nat, b: nat)
    requires b > 0
    ensures v / (256 * b) == v / 256 / b
  {
    var q, t := v / 256, v / 256 / b;
    assert q == b * t + q % b;
    assert (256 * b) * t == 256 * (b * t);
    var d, m := 256 * b, 256 * (q % b) + v % 256;
    ModUnique(v, d, t, m);
    assert v == d * (v / d) + v % d;
    assert d * (v / d - t) == 0;
  }

  function FromLE(s: seq<Byte>): (v: nat)
    ensures v < Pow256(|s|)
  {
    if s == [] then 0 else s[0] + 256 * FromLE(s[1..])
  }

  lemma PowValues()
    ensures Pow256(1) == 256 && Pow256(2) == U16 && Pow256(4) == U32 && Pow256(8) == U64
  {
    assert Pow256(2) == 256 * Pow256(1);
    assert Pow256(4) == 256 * Pow256(3) && Pow256(3) == 256 * Pow256(2);
    assert Pow256(6) == 256 * Pow256(5) && Pow256(5) == 256 * Pow256(4);
    assert Pow256(8) == 256 * Pow256(7) && Pow256(7) == 256 * Pow256(6);
  }

  /** Reading back what was written gives the number that was written. */
  lemma {:induction false} FromLEofLE(v: nat, n: nat)
    requires v < Pow256(n)
    ensures FromLE(LE(v, n)) == v
    decreases n
  {
    if n > 0 {
      FromLEofLE(v / 256, n - 1);
      LEstep(v, n);
    }
  }

  /** Every byte string is the encoding of exactly the number read from it. */
  lemma {:induction false} LEofFromLE(s: seq<Byte>)
    ensures LE(FromLE(s), |s|) == s
  {
    if s != [] {
      LEofFromLE(s[1..]);
      LEstep(FromLE(s), |s|);
      assert s == [s[0]] + s[1..];
    }
  }

  function Zeros(n: nat): (s: seq<Byte>)
    ensures |s| == n && forall i :: 0 <= i < n ==> s[i] == 0
  {
    seq(n, _ => 0)
  }

  /** How many padding bytes follow position n to reach the next multiple of 8. */
  function Pad8(n: nat): (p: nat)
    ensures p < 8 && (n + p) % 8 == 0
  {
    if n % 8 == 0 then 0 else 8 - n % 8
  }

  lemma ModShift(a: nat, n: nat)
    requires a % 8 == 0
    ensures (a + n) % 8 == n % 8
  {
    var k := a / 8;
    assert a == 8 * k;
  }

  lemma Pad8Shift(a: nat, n: nat)
    requires a % 8 == 0
    ensures Pad8(a + n) == Pad8(n)
  {
    ModShift(a, n);
  }

  /** n rounded up to a multiple of 8. */
  function Up8(n: nat): (r: nat)
    ensures n <= r < n + 8 && r % 8 == 0
  {
    n + Pad8(n)
  }

  /** At most size bytes of memory from position at on. */
  function Window(mem: seq<Byte>, at: nat, size: nat): (w: seq<Byte>)
    ensures |w| <= size
  {
    if at >= |mem| then [] else if at + size <= |mem| then mem[at..at + size] else mem[at..]
  }

  /** All of them, if there are so many. */
  lemma WindowExact(mem: seq<Byte>, at: nat, size: nat)
    ensures var w := Window(mem, at, size);
            && (|w| == size || |w| == if at < |mem| then |mem| - at else 0)
            && (w != [] ==> at + |w| <= |mem| && w == mem[at..at + |w|])
  {
  }

  lemma ModUnique(n: nat, h: nat, q: nat, m: nat)
    requires h > 0 && n == q * h + m && m < h
    ensures n % h == m
  {
    var d := n / h - q;
    assert d * h == m - n % h;
    if d > 0 {
      AtLeastOnce(d, h);
    } else if d < 0 {
      AtLeastOnce(-d, h);
    }
  }

  lemma AtLeastOnce(d: nat, h: nat)
    requires d > 0
    ensures d * h >= h
  {
  }

  /** The first multiple of h after a. */
  lemma NextMultiple(a: nat, h: nat) returns (m: nat)
    requires h > 0
    ensures a < m <= a + h && m % h == 0
  {
    var q := a / h;
    m := (q + 1) * h;
    assert a == q * h + a % h && m == q * h + h;
    ModUnique(m, h, q + 1, 0);
  }
}
