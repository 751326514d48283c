/**
 The pvAccess wire codec on fixed buffers: scalars, sizes, strings, status, arrays and the message header, in both byte
 orders, with the sticky fault of the buffer. (Data encoding chapter of the pvAccess Protocol Specification.)
 */
module PvaWire {
  import opened Bytes

  const NULL_SIZE: nat := U64 - 1

  // ---------------------------------------------------------------- byte order

  function Rev(s: seq<Byte>): (r: seq<Byte>)
    ensures |r| == |s|
  {
    seq(|s|, i requires 0 <= i < |s| => s[|s| - 1 - i])
  }

  lemma RevRev(s: seq<Byte>)
    ensures Rev(Rev(s)) == s
  {
  }

  /** Memory in host order as it goes on the wire, and back. */
  function Ordered(mem: seq<Byte>, reverse: bool): (r: seq<Byte>)
    ensures |r| == |mem|
  {
    if reverse then Rev(mem) else mem
  }

  /** A number on the wire, or in the memory of a host with that byte order: most significant byte first if be. */
  function Wire(v: nat, n: nat, be: bool): (s: seq<Byte>)
    ensures |s| == n
  {
    Ordered(LE(v, n), be)
  }

  function FromWire(s: seq<Byte>, be: bool): (v: nat)
    ensures v < Pow256(|s|)
  {
    FromLE(Ordered(s, be))
  }

  lemma WireRoundTrip(v: nat, n: nat, be: bool)
    requires v < Pow256(n)
    ensures FromWire(Wire(v, n, be), be) == v
  {
    RevRev(LE(v, n));
    FromLEofLE(v, n);
  }

  /** Swapping on a mismatch of byte orders gives the wire form, whatever the host. */
  lemma HostToWire(v: nat, n: nat, be: bool, hostBE: bool)
    ensures Ordered(Wire(v, n, hostBE), be != hostBE) == Wire(v, n, be)
  {
    RevRev(LE(v, n));
  }

  // ---------------------------------------------------------------- what goes on the wire

  function SizeBytes(v: nat, be: bool): Option<seq<Byte>> {
    if v < 254 then Some([v])
    else if v <= 0xFFFF_FFFF then Some([254] + Wire(v, 4, be))
    else if v == NULL_SIZE then Some([255])
    else None
  }

  /** A string up to its first NUL, which is all that strlen sees of it. */
  function CString(s: seq<Byte>): (c: seq<Byte>)
    ensures c <= s && 0 !in c
    ensures 0 !in s ==> c == s
  {
    if s == [] || s[0] == 0 then [] else [s[0]] + CString(s[1..])
  }

  lemma {:induction false} CStringEnds(s: seq<Byte>, n: nat)
    requires n <= |s| && (forall j :: 0 <= j < n ==> s[j] != 0) && (n == |s| || s[n] == 0)
    ensures CString(s) == s[..n]
    decreases n
  {
    if n > 0 {
      CStringEnds(s[1..], n - 1);
      assert s[..n] == [s[0]] + s[1..][..n - 1];
    }
  }

  /** strlen of a string that ends with a NUL behind its last byte. */
  method StrLen(s: seq<Byte>) returns (n: nat)
    ensures n <= |s| && s[..n] == CString(s)
  {
    n := 0;
    while n < |s| && s[n] != 0
      invariant n <= |s| && forall j :: 0 <= j < n ==> s[j] != 0
    {
      n := n + 1;
    }
    CStringEnds(s, n);
  }

  function Append(a: Option<seq<Byte>>, b: Option<seq<Byte>>): Option<seq<Byte>> {
    if a.Some? && b.Some? then Some(a.value + b.value) else None
  }

  function StringBytes(s: seq<Byte>, be: bool): Option<seq<Byte>> {
    Append(SizeBytes(|CString(s)|, be), Some(CString(s)))
  }

  datatype Status = Status(code: nat, msg: seq<Byte>, trace: seq<Byte>)

  ghost predicate StatusOk(st: Status) {
    st.code <= 3 && 0 !in st.msg && 0 !in st.trace && |st.msg| <= 0xFFFF_FFFF && |st.trace| <= 0xFFFF_FFFF
  }

  function StatusBytes(st: Status, be: bool): Option<seq<Byte>>
    requires st.code < 256
  {
    if st.code == 0 && st.msg == [] && st.trace == [] then Some([255])
    else Append(Some([st.code]), Append(StringBytes(st.msg, be), StringBytes(st.trace, be)))
  }

  datatype Header = Header(cmd: Byte, flags: Byte, version: Byte, len: nat)

  predicate Msb(flags: Byte) { flags >= 128 }

  function WithMsb(flags: Byte, be: bool): Byte {
    if be && !Msb(flags) then flags + 128 else flags
  }

  function HeaderBytes(h: Header, be: bool): (s: seq<Byte>)
    ensures |s| == 8
  {
    [0xCA, 2, WithMsb(h.flags, be), h.cmd] + Wire(h.len, 4, be)
  }

  /** Blocks of sz bytes, each reversed. */
  function SwapBlocks(s: seq<Byte>, sz: nat): (r: seq<Byte>)
    requires sz > 0
    decreases |s|
  {
    if |s| < sz then [] else Rev(s[..sz]) + SwapBlocks(s[sz..], sz)
  }

  function Blocks(s: seq<Byte>, sz: nat, reverse: bool): seq<Byte>
    requires sz > 0
  {
    if reverse then SwapBlocks(s, sz) else s
  }

  lemma SameBlocks(s: seq<Byte>, sz: nat, reverse: bool)
    requires sz > 0
    ensures Blocks(s, sz, reverse) == if reverse then SwapBlocks(s, sz) else s
  {
  }

  /** The two nested loops that swap the bytes of each element, when an array is written and when it is read. */
  method TurnBlocks(src: seq<Byte>, sz: nat, ghost q: nat) returns (dest: seq<Byte>)
    requires sz > 0 && |src| == q * sz
    ensures dest == SwapBlocks(src, sz)
  {
    hide SwapBlocks;
    var rest := src;
    dest := [];
    ghost var m, out := q, SwapBlocks(src, sz);
    while rest != []
      invariant |rest| == m * sz && dest + SwapBlocks(rest, sz) == out
      decreases |rest|
    {
      AtLeastOneBlock(m, sz);
      OneBlockLess(m, sz, |rest|);
      SwapFirst(rest, sz);
      var block := [];
      for n := 0 to sz
        invariant |block| == n && forall j :: 0 <= j < n ==> block[j] == rest[sz - 1 - j]
      {
        block := block + [rest[sz - 1 - n]];
      }
      assert block == Rev(rest[..sz]);
      assert dest + (block + SwapBlocks(rest[sz..], sz)) == (dest + block) + SwapBlocks(rest[sz..], sz);
      dest, rest := dest + block, rest[sz..];
      m := m - 1;
    }
    BlocksOfNone(sz);
    SameBlocks([], sz, true);
    assert dest + [] == dest;
  }

  /** Element-by-element encoding of an array whose elements are given in host order. */
  function EncodeEach(elems: seq<seq<Byte>>, reverse: bool): seq<Byte> {
    if elems == [] then [] else Ordered(elems[0], reverse) + EncodeEach(elems[1..], reverse)
  }

  function Flat(elems: seq<seq<Byte>>): seq<Byte> {
    if elems == [] then [] else elems[0] + Flat(elems[1..])
  }

  ghost predicate AllOfSize(elems: seq<seq<Byte>>, sz: nat) {
    forall i :: 0 <= i < |elems| ==> |elems[i]| == sz
  }

  lemma {:induction false} FlatSize(elems: seq<seq<Byte>>, sz: nat)
    requires AllOfSize(elems, sz)
    ensures |Flat(elems)| == |elems| * sz
  {
    if elems != [] {
      FlatSize(elems[1..], sz);
      assert |elems| * sz == (|elems| - 1) * sz + sz;
    }
  }

  /** The array form, a run over the whole memory in blocks, is the element-by-element form. */
  lemma {:induction false} BlocksAreElements(elems: seq<seq<Byte>>, sz: nat, reverse: bool)
    requires sz > 0 && AllOfSize(elems, sz)
    ensures Blocks(Flat(elems), sz, reverse) == EncodeEach(elems, reverse)
  {
    if elems != [] {
      BlocksAreElements(elems[1..], sz, reverse);
      var s := Flat(elems);
      assert s[..sz] == elems[0] && s[sz..] == Flat(elems[1..]);
    }
  }

  lemma SwapFirst(s: seq<Byte>, sz: nat)
    requires 0 < sz <= |s|
    ensures SwapBlocks(s, sz) == Rev(s[..sz]) + SwapBlocks(s[sz..], sz)
  {
  }

  lemma SlicesOfSlice(s: seq<Byte>, sz: nat, c: nat)
    requires c + sz <= |s|
    ensures var t := s[sz..]; s[..c + sz][..sz] == s[..sz] && s[..c + sz][sz..] == t[..c] && t[c..] == s[c + sz..]
  {
  }

  lemma OneBlockLess(q: nat, sz: nat, c: nat)
    requires q > 0 && c == q * sz
    ensures c >= sz && c - sz == (q - 1) * sz
  {
  }

  lemma SwapCutStep(s: seq<Byte>, sz: nat, c: nat)
    requires 0 < sz <= c <= |s|
    requires var t := s[sz..];
             && SwapBlocks(t, sz) == SwapBlocks(t[..c - sz], sz) + SwapBlocks(t[c - sz..], sz)
             && |SwapBlocks(t[..c - sz], sz)| == c - sz
    ensures SwapBlocks(s, sz) == SwapBlocks(s[..c], sz) + SwapBlocks(s[c..], sz) && |SwapBlocks(s[..c], sz)| == c
  {
    hide SwapBlocks;
    SwapFirst(s, sz);
    SwapFirst(s[..c], sz);
    SlicesOfSlice(s, sz, c - sz);
    var first, a, b := Rev(s[..sz]), SwapBlocks(s[sz..][..c - sz], sz), SwapBlocks(s[c..], sz);
    assert first + (a + b) == (first + a) + b;
  }

  lemma {:induction false} SwapCut(s: seq<Byte>, sz: nat, q: nat, c: nat)
    requires sz > 0 && c == q * sz && c <= |s|
    ensures SwapBlocks(s, sz) == SwapBlocks(s[..c], sz) + SwapBlocks(s[c..], sz)
    ensures |SwapBlocks(s[..c], sz)| == c
    decreases q
  {
    if q == 0 {
      assert s[..0] == [] && s[0..] == s;
    } else {
      OneBlockLess(q, sz, c);
      SwapCut(s[sz..], sz, q - 1, c - sz);
      SwapCutStep(s, sz, c);
    }
  }

  /** Cutting at a multiple of the block size changes nothing: this is why the chunked loop is right. */
  lemma SwapInChunks(s: seq<Byte>, sz: nat, q: nat)
    requires sz > 0 && q * sz <= |s|
    ensures SwapBlocks(s, sz) == SwapBlocks(s[..q * sz], sz) + SwapBlocks(s[q * sz..], sz)
    ensures |SwapBlocks(s[..q * sz], sz)| == q * sz
  {
    SwapCut(s, sz, q, q * sz);
  }

  lemma SwapSwapStep(s: seq<Byte>, sz: nat)
    requires 0 < sz <= |s|
    requires var t := s[sz..]; |SwapBlocks(t, sz)| == |t| && SwapBlocks(SwapBlocks(t, sz), sz) == t
    ensures |SwapBlocks(s, sz)| == |s| && SwapBlocks(SwapBlocks(s, sz), sz) == s
  {
    hide SwapBlocks;
    var first, r, rest := Rev(s[..sz]), SwapBlocks(s, sz), SwapBlocks(s[sz..], sz);
    SwapFirst(s, sz);
    assert r[..sz] == first && r[sz..] == rest;
    SwapFirst(r, sz);
    RevRev(s[..sz]);
    assert s[..sz] + s[sz..] == s;
  }

  /** Swapping twice gives the memory back. */
  lemma {:induction false} SwapSwap(s: seq<Byte>, sz: nat, q: nat)
    requires sz > 0 && |s| == q * sz
    ensures |SwapBlocks(s, sz)| == |s| && SwapBlocks(SwapBlocks(s, sz), sz) == s
    decreases q
  {
    if q > 0 {
      OneBlockLess(q, sz, |s|);
      SwapSwap(s[sz..], sz, q - 1);
      SwapSwapStep(s, sz);
    }
  }

  // ---------------------------------------------------------------- what is read back

  /** A value and the number of bytes that it took; None is a fault. */
  datatype Read<+T> = Read(value: T, used: nat) | Fault

  function ReadUint(s: seq<Byte>, n: nat, be: bool): Read<nat> {
    if |s| < n then Fault else Read(FromWire(s[..n], be), n)
  }

  function ReadSize(s: seq<Byte>, be: bool): Read<nat> {
    if s == [] then Fault
    else if s[0] < 254 then Read(s[0], 1)
    else if s[0] == 255 then Read(NULL_SIZE, 1)
    else
      var r := ReadUint(s[1..], 4, be);
      if r.Read? then Read(r.value, 5) else Fault
  }

  function ReadString(s: seq<Byte>, be: bool): Read<seq<Byte>> {
    var r := ReadSize(s, be);
    if r.Fault? then Fault
    else if r.value == NULL_SIZE then Read([], r.used)
    else if r.used + r.value <= |s| then Read(s[r.used..r.used + r.value], r.used + r.value)
    else Fault
  }

  function ReadStatus(s: seq<Byte>, be: bool): Read<Status> {
    if s == [] then Fault
    else if s[0] == 255 then Read(Status(0, [], []), 1)
    else
      var m := ReadString(s[1..], be);
      if m.Fault? || 1 + m.used > |s| then Fault
      else
        var t := ReadString(s[1 + m.used..], be);
        if t.Fault? then Fault else Read(Status(s[0], m.value, t.value), 1 + m.used + t.used)
  }

  /** The reader takes over the byte order that the flags announce, whatever its own was. */
  function ReadHeader(s: seq<Byte>): Read<Header> {
    if |s| < 8 || s[0] != 0xCA || s[1] == 0 then Fault
    else Read(Header(s[3], s[2], s[1], FromWire(s[4..8], Msb(s[2]))), 8)
  }

  lemma SizeRoundTrip(v: nat, be: bool, rest: seq<Byte>)
    requires SizeBytes(v, be).Some?
    ensures var b := SizeBytes(v, be).value; ReadSize(b + rest, be) == Read(v, |b|)
  {
    var b := SizeBytes(v, be).value;
    if 254 <= v <= 0xFFFF_FFFF {
      PowValues();
      assert (b + rest)[1..][..4] == Wire(v, 4, be);
      WireRoundTrip(v, 4, be);
    }
  }

  /** A string comes back up to its first NUL. */
  lemma StringRoundTrip(s: seq<Byte>, be: bool, rest: seq<Byte>)
    requires |CString(s)| <= 0xFFFF_FFFF
    ensures StringBytes(s, be).Some?
    ensures var b := StringBytes(s, be).value; ReadString(b + rest, be) == Read(CString(s), |b|)
  {
    var c := CString(s);
    var n := SizeBytes(|c|, be).value;
    SizeRoundTrip(|c|, be, c + rest);
    assert n + c + rest == n + (c + rest);
    assert (n + c + rest)[|n|..|n| + |c|] == c;
  }

  /** So it comes back whole exactly when it holds no NUL. */
  lemma StringWholeIff(s: seq<Byte>, be: bool, rest: seq<Byte>)
    requires |CString(s)| <= 0xFFFF_FFFF
    ensures StringBytes(s, be).Some?
    ensures var b := StringBytes(s, be).value;
            ReadString(b + rest, be) == Read(s, |b|) <==> 0 !in s
  {
    StringRoundTrip(s, be, rest);
  }

  lemma StatusRoundTrip(st: Status, be: bool, rest: seq<Byte>)
    requires StatusOk(st)
    ensures StatusBytes(st, be).Some?
    ensures var b := StatusBytes(st, be).value; ReadStatus(b + rest, be) == Read(st, |b|)
  {
    hide StringBytes, ReadString;
    if !(st.code == 0 && st.msg == [] && st.trace == []) {
      StringRoundTrip(st.msg, be, []);
      StringRoundTrip(st.trace, be, []);
      var m, t := StringBytes(st.msg, be).value, StringBytes(st.trace, be).value;
      StringRoundTrip(st.msg, be, t + rest);
      StringRoundTrip(st.trace, be, rest);
      var s := [st.code] + (m + t) + rest;
      assert s[1..] == m + (t + rest) && s[1 + |m|..] == t + rest;
    }
  }

  /**
   The message header comes back as it was, up to the byte order flag that the writer adds, exactly when its flags did
   not already claim an order that the writer does not use.
   */
  lemma HeaderRoundTripIff(h: Header, be: bool, rest: seq<Byte>)
    requires h.len < U32
    ensures var r := ReadHeader(HeaderBytes(h, be) + rest);
            && r.Read? && r.used == 8 && r.value.cmd == h.cmd && r.value.flags == WithMsb(h.flags, be)
            && r.value.version == 2
            && ((forall n :: 0 <= n < U32 ==>
                   ReadHeader(HeaderBytes(h.(len := n), be) + rest).value.len == n)
                <==> (be || !Msb(h.flags)))
  {
    PowValues();
    forall n: nat | n < U32
      ensures ReadHeader(HeaderBytes(h.(len := n), be) + rest).Read?
      ensures ReadHeader(HeaderBytes(h.(len := n), be) + rest).value.len == FromWire(Wire(n, 4, be), be || Msb(h.flags))
    {
      var s := HeaderBytes(h.(len := n), be) + rest;
      assert s[4..8] == Wire(n, 4, be);
      WireRoundTrip(n, 4, be);
    }
    if be || !Msb(h.flags) {
      forall n: nat | n < U32 ensures ReadHeader(HeaderBytes(h.(len := n), be) + rest).value.len == n {
        WireRoundTrip(n, 4, be);
      }
    } else {
      LengthOneSwapped();
      assert ReadHeader(HeaderBytes(h.(len := 1), be) + rest).value.len != 1;
    }
  }

  lemma LengthOneSwapped()
    ensures FromWire(Wire(1, 4, false), true) != 1
  {
    var s := LE(1, 4);
    assert s[0] == 1 && s[1] == 0 && s[2] == 0 && s[3] == 0;
    var r := Rev(s);
    assert r[0] == 0;
    assert FromLE(r) == r[0] + 256 * FromLE(r[1..]);
  }

  // ---------------------------------------------------------------- byte by byte

  /** Byte i of the n bytes of a number: a big-endian one begins with its most significant byte. */
  function WireByte(v: nat, n: nat, be: bool, i: nat): (b: Byte)
    requires i < n
  {
    if be then v / Pow256(n - 1 - i) % 256 else v / Pow256(i) % 256
  }

  lemma WireBytes(v: nat, n: nat, be: bool, i: nat)
    requires i < n
    ensures Wire(v, n, be)[i] == WireByte(v, n, be, i)
  {
    LEAt(v, n, if be then n - 1 - i else i);
  }

  ghost predicate NumberAt(s: seq<Byte>, at: nat, v: nat, n: nat, be: bool) {
    at + n <= |s| && forall i: nat :: i < n ==> s[at + i] == WireByte(v, n, be, i)
  }

  lemma WireStands(s: seq<Byte>, at: nat, v: nat, n: nat, be: bool)
    requires at + n <= |s| && s[at..at + n] == Wire(v, n, be)
    ensures NumberAt(s, at, v, n, be)
  {
    hide WireByte, Wire;
    forall i: nat | i < n
      ensures s[at + i] == WireByte(v, n, be, i)
    {
      WireBytes(v, n, be, i);
      assert s[at + i] == s[at..at + n][i];
    }
  }

  /** A size takes one byte below 254, which stands in front of four bytes; 255 is no size at all. */
  lemma SizeForm(v: nat, be: bool)
    ensures var b := SizeBytes(v, be);
            && (v < 0xFE ==> b == Some([v]))
            && (0xFE <= v < 0x1_0000_0000 ==> b.Some? && |b.value| == 5 && b.value[0] == 0xFE
                                              && NumberAt(b.value, 1, v, 4, be))
            && (v == 0xFFFF_FFFF_FFFF_FFFF ==> b == Some([0xFF]))
            && (v >= 0x1_0000_0000 && v != 0xFFFF_FFFF_FFFF_FFFF ==> b == None)
  {
    if 0xFE <= v < 0x1_0000_0000 {
      WireStands(SizeBytes(v, be).value, 1, v, 4, be);
    }
  }

  /** Plain success takes one byte; anything else its code and both strings. */
  lemma StatusForm(st: Status, be: bool)
    requires StatusOk(st)
    ensures var b, m, t := StatusBytes(st, be), SizeBytes(|st.msg|, be), SizeBytes(|st.trace|, be);
            && b.Some? && m.Some? && t.Some?
            && if st == Status(0, [], []) then b.value == [0xFF]
               else b.value == [st.code] + m.value + st.msg + t.value + st.trace
  {
    hide SizeBytes;
    SizeForm(|st.msg|, be);
    SizeForm(|st.trace|, be);
    if st != Status(0, [], []) {
      var m, t := SizeBytes(|st.msg|, be).value, SizeBytes(|st.trace|, be).value;
      assert [st.code] + ((m + st.msg) + (t + st.trace)) == [st.code] + m + st.msg + t + st.trace;
    }
  }

  /** The flags are as given but for the highest bit, which says that the length is big-endian. */
  lemma HeaderForm(h: Header, be: bool)
    ensures var s := HeaderBytes(h, be);
            && s[0] == 0xCA && s[1] == 2 && s[3] == h.cmd && NumberAt(s, 4, h.len, 4, be)
            && s[2] % 128 == h.flags % 128 && (s[2] >= 128 <==> be || h.flags >= 128)
  {
    WireStands(HeaderBytes(h, be), 4, h.len, 4, be);
  }

  lemma NumberRead(s: seq<Byte>, at: nat, n: nat, be: bool)
    requires at + n <= |s|
    ensures NumberAt(s, at, FromWire(s[at..at + n], be), n, be)
  {
    var bytes := s[at..at + n];
    LEofFromLE(Ordered(bytes, be));
    RevRev(bytes);
    WireStands(s, at, FromWire(bytes, be), n, be);
  }

  /** Any bytes read as a size: 254 announces four bytes, 255 stands for no size at all. */
  lemma ReadSizeForm(s: seq<Byte>, be: bool)
    ensures var r := ReadSize(s, be);
            && (r.Fault? <==> s == [] || (s[0] == 0xFE && |s| < 5))
            && (r.Read? && s[0] < 0xFE ==> r == Read(s[0], 1))
            && (r.Read? && s[0] == 0xFE ==> r.used == 5 && NumberAt(s, 1, r.value, 4, be) && r.value < 0x1_0000_0000)
            && (r.Read? && s[0] == 0xFF ==> r == Read(0xFFFF_FFFF_FFFF_FFFF, 1))
  {
    if s != [] && s[0] == 0xFE && |s| >= 5 {
      PowValues();
      assert s[1..][..4] == s[1..5];
      NumberRead(s, 1, 4, be);
    }
  }

  /** Any bytes read as a string: no size makes an empty one, and one longer than what is there is a fault. */
  lemma ReadStringForm(s: seq<Byte>, be: bool)
    ensures var n, r := ReadSize(s, be), ReadString(s, be);
            && (r.Read? <==> n.Read? && (s[0] == 0xFF || n.used + n.value <= |s|))
            && (r.Read? ==> r.used <= |s| && r.value == s[n.used..r.used]
                            && |r.value| == if s[0] == 0xFF then 0 else n.value)
  {
    hide ReadSize;
    ReadSizeForm(s, be);
  }

  /** Any bytes read as a header: it is refused iff it is too short, has another magic byte, or version 0. */
  lemma ReadHeaderForm(s: seq<Byte>)
    ensures var r := ReadHeader(s);
            && (r.Read? <==> |s| >= 8 && s[0] == 0xCA && s[1] != 0)
            && (r.Read? ==> var h := r.value;
                  && r.used == 8 && h.version == s[1] && h.flags == s[2] && h.cmd == s[3]
                  && h.len < U32 && NumberAt(s, 4, h.len, 4, s[2] >= 128))
  {
    if |s| >= 8 {
      PowValues();
      NumberRead(s, 4, 4, s[2] >= 128);
    }
  }

  // ---------------------------------------------------------------- the buffer

  class FixedBuf {
    const buf: array<Byte>
    const limit: nat
    const hostBE: bool
    var pos: nat
    var err: bool
    var be: bool

    ghost predicate Valid()
      reads this
    {
      pos <= limit <= buf.Length
    }

    constructor (buf: array<Byte>, be: bool, hostBE: bool)
      ensures Valid() && this.buf == buf && limit == buf.Length && this.hostBE == hostBE
      ensures pos == 0 && !err && this.be == be
    {
      this.buf, limit, this.hostBE := buf, buf.Length, hostBE;
      pos, err, this.be := 0, false, be;
    }

    /** What can still be read. */
    function Rest(): seq<Byte>
      requires Valid()
      reads this, buf
    {
      buf[pos..limit]
    }

    predicate Ensure(i: nat)
      requires Valid()
      reads this
    {
      !err && i <= limit - pos
    }

    method Fault()
      modifies this`err
      ensures err
    {
      err := true;
    }

    /** Bytes that the caller has made room for. */
    method Push(data: seq<Byte>)
      requires Valid() && |data| <= limit - pos
      modifies this`pos, buf
      ensures Valid() && pos == old(pos) + |data|
      ensures buf[..pos] == old(buf[..pos]) + data
    {
      forall i | 0 <= i < |data| {
        buf[pos + i] := data[i];
      }
      pos := pos + |data|;
    }

    /** The two loops of _to_wire. */
    method Store(mem: seq<Byte>, reverse: bool)
      requires Valid() && |mem| <= limit - pos
      modifies buf
      ensures buf[..pos] == old(buf[..pos]) && buf[pos..pos + |mem|] == Ordered(mem, reverse)
    {
      if reverse {
        for i := 0 to |mem|
          invariant buf[..pos] == old(buf[..pos])
          invariant forall j :: 0 <= j < i ==> buf[pos + |mem| - 1 - j] == mem[j]
        {
          buf[pos + |mem| - 1 - i] := mem[i];
        }
      } else {
        for i := 0 to |mem|
          invariant buf[..pos] == old(buf[..pos]) && buf[pos..pos + i] == mem[..i]
        {
          buf[pos + i] := mem[i];
        }
      }
    }

    /** _to_wire: a scalar in host order, byte by byte, reversed on a mismatch. */
    method PutScalar(mem: seq<Byte>)
      requires Valid()
      modifies this`pos, this`err, buf
      ensures Valid() && err == (old(err) || |mem| > limit - old(pos))
      ensures !err ==> pos == old(pos) + |mem| && buf[..pos] == old(buf[..pos]) + Ordered(mem, be != hostBE)
    {
      hide Ordered;
      if !Ensure(|mem|) {
        Fault();
      } else {
        Store(mem, be != hostBE);
        assert buf[..pos + |mem|] == buf[..pos] + buf[pos..pos + |mem|];
        pos := pos + |mem|;
      }
    }

    method PutSize(v: nat)
      requires Valid()
      modifies this`pos, this`err, buf
      ensures Valid()
      ensures var b := SizeBytes(v, be);
              && err == (old(err) || b == None || |b.value| > limit - old(pos))
              && (!err ==> pos == old(pos) + |b.value| && buf[..pos] == old(buf[..pos]) + b.value)
    {
      if !Ensure(1) {
        Fault();
      } else if v < 254 {
        Push([v]);
      } else if v <= 0xFFFF_FFFF {
        Push([254]);
        HostToWire(v, 4, be, hostBE);
        PutScalar(Wire(v, 4, hostBE));
      } else if v == NULL_SIZE {
        Push([255]);
      } else {
        Fault();
      }
    }

    method PutString(s: seq<Byte>)
      requires Valid()
      modifies this`pos, this`err, buf
      ensures Valid()
      ensures var b := StringBytes(s, be);
              && err == (old(err) || b == None || |b.value| > limit - old(pos))
              && (!err ==> pos == old(pos) + |b.value| && buf[..pos] == old(buf[..pos]) + b.value)
    {
      hide SizeBytes, CString;
      var n := StrLen(s);
      PutSize(n);
      if !Ensure(n) {
        Fault();
      } else {
        ghost var before, start := buf[..pos], pos;
        for i := 0 to n
          invariant Valid() && pos == start + i && limit - start >= n && buf[..pos] == before + s[..i] && !err
        {
          assert (before + s[..i]) + [s[i]] == before + s[..i + 1];
          Push([s[i]]);
        }
      }
    }

    method PutStatus(st: Status)
      requires Valid() && st.code < 256
      modifies this`pos, this`err, buf
      ensures Valid()
      ensures var b := StatusBytes(st, be);
              && err == (old(err) || b == None || |b.value| > limit - old(pos))
              && (!err ==> pos == old(pos) + |b.value| && buf[..pos] == old(buf[..pos]) + b.value)
    {
      hide StringBytes;
      if !Ensure(1) {
        SomeStatusByte(st, be);
        Fault();
      } else if st.code == 0 && st.msg == [] && st.trace == [] {
        Push([255]);
      } else {
        Push([st.code]);
        PutString(st.msg);
        PutString(st.trace);
      }
    }

    /** A message header; its length is written in the byte order of the buffer. */
    method PutHeader(h: Header)
      requires Valid()
      modifies this`pos, this`err, buf
      ensures Valid() && err == (old(err) || 8 > limit - old(pos))
      ensures !err ==> pos == old(pos) + 8 && buf[..pos] == old(buf[..pos]) + HeaderBytes(h, be)
    {
      if !Ensure(8) {
        Fault();
      } else {
        Push([0xCA, 2, WithMsb(h.flags, be), h.cmd]);
        HostToWire(h.len, 4, be, hostBE);
        PutScalar(Wire(h.len, 4, hostBE));
      }
    }

    /**
     The elements of an array of fixed-size elements, in chunks that are rounded down to whole elements. A buffer that
     is too small ends with the fault set, whatever part of the array it could take.
     */
    method PutElements(src: seq<Byte>, sz: nat, ghost n: nat)
      requires Valid() && sz > 0 && |src| == n * sz
      modifies this`pos, this`err, buf
      ensures Valid() && err == (old(err) || |src| > limit - old(pos))
      ensures !err ==> pos == old(pos) + |src| && buf[..pos] == old(buf[..pos]) + Blocks(src, sz, be != hostBE)
    {
      hide Blocks;
      var rest := src;
      ghost var swap, out := be != hostBE, Blocks(src, sz, be != hostBE);
      ghost var done, m, before, start := [], n, buf[..pos], pos;
      BlocksOfNone(sz);
      while rest != []
        invariant Valid() && |rest| == m * sz && err == old(err)
        invariant pos == start + |done| && |done| + |rest| == |src|
        invariant buf[..pos] == before + done
        invariant done + Blocks(rest, sz, swap) == out
        decreases |rest|
      {
        if !Ensure(sz) {
          AtLeastOneBlock(m, sz);
          Fault();
          return;
        }
        var nbytes, q := PutChunk(rest, sz, m);
        TakeChunk(rest, sz, q, m, swap);
        ghost var chunk, more := Blocks(rest[..nbytes], sz, swap), Blocks(rest[nbytes..], sz, swap);
        assert done + (chunk + more) == (done + chunk) + more && before + (done + chunk) == (before + done) + chunk;
        done := done + chunk;
        rest := rest[nbytes..];
        m := m - q;
      }
    }

    /** One chunk: as many whole elements as there is room for. */
    method PutChunk(rest: seq<Byte>, sz: nat, ghost m: nat) returns (nbytes: nat, ghost q: nat)
      requires Valid() && !err && 0 < sz <= limit - pos && rest != [] && |rest| == m * sz
      modifies this`pos, buf
      ensures Valid() && q > 0 && 0 < nbytes == q * sz <= |rest|
      ensures pos == old(pos) + nbytes
      ensures buf[..pos] == old(buf[..pos]) + Blocks(rest[..nbytes], sz, be != hostBE)
    {
      hide Blocks;
      AtLeastOneBlock(m, sz);
      var avail := if limit - pos <= |rest| then limit - pos else |rest|;
      var count := avail / sz;
      nbytes, q := count * sz, count;
      RoundDown(avail, sz, q);
      ghost var chunk := Blocks(rest[..nbytes], sz, be != hostBE);
      TakeChunk(rest, sz, q, m, be != hostBE);
      PushBlocks(rest[..nbytes], sz, q, chunk);
    }

    method PushBlocks(src: seq<Byte>, sz: nat, ghost q: nat, ghost out: seq<Byte>)
      requires Valid() && sz > 0 && |src| == q * sz && |src| <= limit - pos
      requires out == Blocks(src, sz, be != hostBE) && |out| == |src|
      modifies this`pos, buf
      ensures Valid() && pos == old(pos) + |out| && buf[..pos] == old(buf[..pos]) + out
    {
      if be == hostBE {
        Push(src);
      } else {
        var swapped := TurnBlocks(src, sz, q);
        Push(swapped);
      }
    }

    // -------------------------------------------------------------- reading

    /** The two loops of _from_wire. */
    method Fetch(n: nat, reverse: bool) returns (mem: seq<Byte>)
      requires Valid() && n <= limit - pos
      ensures mem == Ordered(buf[pos..pos + n], reverse)
    {
      mem := [];
      if reverse {
        for i := 0 to n
          invariant |mem| == i && forall j :: 0 <= j < i ==> mem[j] == buf[pos + n - 1 - j]
        {
          mem := mem + [buf[pos + n - 1 - i]];
        }
      } else {
        for i := 0 to n
          invariant |mem| == i && forall j :: 0 <= j < i ==> mem[j] == buf[pos + j]
        {
          mem := mem + [buf[pos + i]];
        }
      }
    }

    method GetScalar(n: nat) returns (mem: seq<Byte>)
      requires Valid()
      modifies this`pos, this`err
      ensures Valid() && err == (old(err) || n > limit - old(pos))
      ensures !err ==> pos == old(pos) + n && |mem| == n && mem == Ordered(old(Rest())[..n], be != hostBE)
    {
      mem := [];
      if !Ensure(n) {
        Fault();
      } else {
        mem := Fetch(n, be != hostBE);
        assert buf[pos..pos + n] == Rest()[..n];
        pos := pos + n;
      }
    }

    method GetUint(n: nat) returns (v: nat)
      requires Valid()
      modifies this`pos, this`err
      ensures Valid()
      ensures var r := ReadUint(old(Rest()), n, be);
              && err == (old(err) || r.Fault?)
              && (!err ==> v == r.value && pos == old(pos) + r.used)
    {
      v := 0;
      var mem := GetScalar(n);
      if !err {
        HostFromWire(old(Rest())[..n], be, hostBE);
        v := FromLE(Ordered(mem, hostBE));
      }
    }

    method GetSize() returns (v: nat)
      requires Valid()
      modifies this`pos, this`err
      ensures Valid()
      ensures var r := ReadSize(old(Rest()), be);
              && err == (old(err) || r.Fault?)
              && (!err ==> v == r.value && pos == old(pos) + r.used)
    {
      v := 0;
      if !Ensure(1) {
        Fault();
        return;
      }
      var s := buf[pos];
      assert Rest()[0] == s;
      pos := pos + 1;
      if s < 254 {
        v := s;
      } else if s == 255 {
        v := NULL_SIZE;
      } else {
        assert Rest() == old(Rest())[1..];
        v := GetUint(4);
      }
    }

    method GetString() returns (s: seq<Byte>)
      requires Valid()
      modifies this`pos, this`err
      ensures Valid()
      ensures var r := ReadString(old(Rest()), be);
              && err == (old(err) || r.Fault?)
              && (!err ==> s == r.value && pos == old(pos) + r.used)
    {
      hide ReadSize;
      s := [];
      ghost var all, start := Rest(), pos;
      var n := GetSize();
      if err || n == NULL_SIZE {
      } else if !Ensure(n) {
        Fault();
      } else {
        s := buf[pos..pos + n];
        ghost var used := pos - start;
        InsideRest(buf[..], start, limit, used, n);
        pos := pos + n;
      }
    }

    method GetStatus() returns (st: Status)
      requires Valid()
      modifies this`pos, this`err
      ensures Valid()
      ensures var r := ReadStatus(old(Rest()), be);
              && err == (old(err) || r.Fault?)
              && (!err ==> st == r.value && pos == old(pos) + r.used)
    {
      hide ReadString;
      st := Status(0, [], []);
      if !Ensure(1) {
        Fault();
      } else if buf[pos] == 255 {
        assert Rest()[0] == 255;
        pos := pos + 1;
      } else {
        var code := buf[pos];
        assert Rest()[0] == code;
        pos := pos + 1;
        assert Rest() == old(Rest())[1..];
        var msg := GetString();
        if !err {
          assert Rest() == old(Rest())[pos - old(pos)..];
        }
        var trace := GetString();
        st := Status(code, msg, trace);
      }
    }

    /** The elements of an array of n elements, in chunks of whole elements; dest is the memory of the array. */
    method GetElements(n: nat, sz: nat) returns (dest: seq<Byte>)
      requires Valid() && sz > 0
      modifies this`pos, this`err
      ensures Valid() && err == (old(err) || n * sz > limit - old(pos))
      ensures !err ==> pos == old(pos) + n * sz && n * sz <= |old(Rest())|
                       && dest == Blocks(old(Rest())[..n * sz], sz, be != hostBE)
    {
      hide Blocks;
      dest := [];
      var remain := n * sz;
      ghost var all, swap, start, k, m := Rest(), be != hostBE, pos, 0, n;
      BlocksOfNone(sz);
      assert all[..0] == [];
      while remain > 0
        invariant Valid() && err == old(err) && start <= pos && remain >= 0
        invariant k + m == n && pos - start == k * sz && remain == m * sz && k * sz + m * sz == n * sz
        invariant dest == Blocks(all[..pos - start], sz, swap)
        decreases remain
      {
        AtLeastOneBlock(m, sz);
        if !Ensure(sz) {
          Fault();
          return;
        }
        var chunk, q := GetChunk(remain, sz);
        var nbytes := |chunk|;
        LessBlocks(m, q, sz);
        MoreBlocks(all, sz, k, q, swap);
        var part := chunk;
        if be != hostBE {
          part := TurnBlocks(chunk, sz, q);
        }
        assert part == Blocks(chunk, sz, swap) by {
          SameBlocks(chunk, sz, swap);
        }
        dest := dest + part;
        assert chunk == all[k * sz..k * sz + nbytes];
        remain := remain - nbytes;
        k, m := k + q, m - q;
      }
    }

    /** One chunk: as many whole elements as there are in the buffer. */
    method GetChunk(remain: nat, sz: nat) returns (chunk: seq<Byte>, ghost q: nat)
      requires Valid() && !err && 0 < sz <= limit - pos && sz <= remain
      modifies this`pos
      ensures Valid() && q > 0 && 0 < |chunk| == q * sz <= remain
      ensures pos == old(pos) + |chunk| && chunk == buf[old(pos)..pos]
    {
      var avail := if limit - pos <= remain then limit - pos else remain;
      var count := avail / sz;
      q := count;
      RoundDown(avail, sz, q);
      chunk := buf[pos..pos + count * sz];
      pos := pos + count * sz;
    }

    /** The byte order of the buffer follows the header, so what is read does not depend on what it was before. */
    method GetHeader() returns (h: Header)
      requires Valid()
      modifies this`pos, this`err, this`be
      ensures Valid()
      ensures var r := ReadHeader(old(Rest()));
              && err == (old(err) || r.Fault?)
              && (!err ==> h == r.value && pos == old(pos) + r.used && be == Msb(h.flags))
    {
      h := Header(0, 0, 0, 0);
      if !Ensure(8) {
        Fault();
        return;
      }
      var head := buf[pos..pos + 4];
      assert Rest()[..4] == head;
      assert Rest()[0] == head[0] && Rest()[1] == head[1] && Rest()[2] == head[2] && Rest()[3] == head[3];
      if head[0] != 0xCA || head[1] == 0 {
        Fault();
      } else {
        be := Msb(head[2]);
        pos := pos + 4;
        assert Rest() == old(Rest())[4..];
        assert Rest()[..4] == old(Rest())[4..8];
        var len := GetUint(4);
        h := Header(head[3], head[2], head[1], len);
      }
    }
  }

  /** An array on the wire: its length, then its elements. */
  method PutArray(b: FixedBuf, elems: seq<seq<Byte>>, sz: nat)
    requires b.Valid() && sz > 0 && AllOfSize(elems, sz) && |elems| <= 0xFFFF_FFFF
    modifies b, b.buf
    ensures b.Valid() && b.be == old(b.be)
    ensures var n := SizeBytes(|elems|, b.be).value;
            var all := n + EncodeEach(elems, b.be != b.hostBE);
            && b.err == (old(b.err) || |all| > b.limit - old(b.pos))
            && (!b.err ==> b.pos == old(b.pos) + |all| && b.buf[..b.pos] == old(b.buf[..b.pos]) + all)
  {
    hide Flat, EncodeEach, Blocks;
    b.PutSize(|elems|);
    FlatSize(elems, sz);
    BlocksAreElements(elems, sz, b.be != b.hostBE);
    EncodedSize(elems, sz, b.be != b.hostBE);
    b.PutElements(Flat(elems), sz, |elems|);
  }

  lemma {:induction false} EncodedSize(elems: seq<seq<Byte>>, sz: nat, reverse: bool)
    requires AllOfSize(elems, sz)
    ensures |EncodeEach(elems, reverse)| == |Flat(elems)|
  {
    if elems != [] {
      EncodedSize(elems[1..], sz, reverse);
    }
  }

  /** Reading the elements back in blocks, with the same swap, gives the memory of the array. */
  lemma {:induction false} ArrayRoundTrip(elems: seq<seq<Byte>>, sz: nat, reverse: bool)
    requires sz > 0 && AllOfSize(elems, sz)
    ensures Blocks(EncodeEach(elems, reverse), sz, reverse) == Flat(elems)
  {
    FlatSize(elems, sz);
    BlocksAreElements(elems, sz, reverse);
    SwapSwap(Flat(elems), sz, |elems|);
  }

  /** An array as it is read: its length, then its elements in one run over the memory. */
  function ReadArray(s: seq<Byte>, be: bool, sz: nat, reverse: bool): (r: Read<seq<Byte>>)
    requires sz > 0
    ensures r.Read? ==> r.used <= |s|
  {
    var n := ReadSize(s, be);
    if n.Fault? || n.value * sz > |s| - n.used then Fault
    else
      var all := n.used + n.value * sz;
      Read(Blocks(s[n.used..all], sz, reverse), all)
  }

  /**
   The memory of an array that is read. For the length that stands for "no array" the source tries to make one of
   2^64 - 1 elements, which throws; here this is a fault like that of any other array that the buffer does not hold.
   */
  method GetArray(b: FixedBuf, sz: nat) returns (mem: seq<Byte>)
    requires b.Valid() && sz > 0
    modifies b
    ensures b.Valid() && b.be == old(b.be)
    ensures var r := ReadArray(old(b.Rest()), b.be, sz, b.be != b.hostBE);
            && b.err == (old(b.err) || r.Fault?)
            && (!b.err ==> mem == r.value && b.pos == old(b.pos) + r.used)
  {
    hide ReadSize, Blocks;
    mem := [];
    ghost var start, all := b.pos, b.Rest();
    var n := b.GetSize();
    if !b.err {
      ghost var used := b.pos - start;
      assert b.Rest() == all[used..];
      mem := b.GetElements(n, sz);
      if !b.err {
        assert all[used..][..n * sz] == all[used..used + n * sz];
      }
    }
  }

  /** The numbers of an array in the memory of a host. */
  function Memory(vs: seq<nat>, sz: nat, hostBE: bool): (elems: seq<seq<Byte>>)
    ensures |elems| == |vs| && AllOfSize(elems, sz)
  {
    seq(|vs|, i requires 0 <= i < |vs| => Wire(vs[i], sz, hostBE))
  }

  /** Encoding the memory of any host element by element gives the numbers in the order of the wire. */
  lemma {:induction false} EncodedMemory(vs: seq<nat>, sz: nat, be: bool, hostBE: bool)
    ensures EncodeEach(Memory(vs, sz, hostBE), be != hostBE) == Flat(Memory(vs, sz, be))
  {
    if vs != [] {
      EncodedMemory(vs[1..], sz, be, hostBE);
      HostToWire(vs[0], sz, be, hostBE);
      assert Memory(vs, sz, hostBE)[1..] == Memory(vs[1..], sz, hostBE);
      assert Memory(vs, sz, be)[1..] == Memory(vs[1..], sz, be);
    }
  }

  /**
   From host to host: the array that one host puts on the wire is read as the same numbers by every host, whatever the
   byte orders of the two hosts and of the wire are, and exactly what was written is consumed.
   */
  lemma ArrayTransfer(vs: seq<nat>, sz: nat, be: bool, fromBE: bool, toBE: bool, rest: seq<Byte>)
    requires sz > 0 && |vs| <= 0xFFFF_FFFF
    ensures SizeBytes(|vs|, be).Some?
    ensures var all := SizeBytes(|vs|, be).value + EncodeEach(Memory(vs, sz, fromBE), be != fromBE);
            ReadArray(all + rest, be, sz, be != toBE) == Read(Flat(Memory(vs, sz, toBE)), |all|)
  {
    hide ReadSize, SizeBytes, Blocks, Flat, EncodeEach, Memory;
    SizeInRange(|vs|, be);
    var head, body := SizeBytes(|vs|, be).value, Flat(Memory(vs, sz, be));
    EncodedMemory(vs, sz, be, fromBE);
    FlatSize(Memory(vs, sz, be), sz);
    SizeRoundTrip(|vs|, be, body + rest);
    assert head + body + rest == head + (body + rest);
    assert (head + body + rest)[|head|..|head| + |body|] == body;
    BlocksAreElements(Memory(vs, sz, be), sz, be != toBE);
    EncodedMemory(vs, sz, toBE, be);
  }

  lemma SizeInRange(v: nat, be: bool)
    requires v <= 0xFFFF_FFFF
    ensures SizeBytes(v, be).Some?
  {
  }

  lemma SomeStatusByte(st: Status, be: bool)
    requires st.code < 256
    ensures StatusBytes(st, be).Some? ==> |StatusBytes(st, be).value| >= 1
  {
  }

  lemma HostFromWire(s: seq<Byte>, be: bool, hostBE: bool)
    ensures Ordered(Ordered(s, be != hostBE), hostBE) == Ordered(s, be)
  {
    RevRev(s);
  }

  lemma InsideRest(s: seq<Byte>, start: nat, limit: nat, used: nat, n: nat)
    requires start + used + n <= limit <= |s|
    ensures s[start..limit][used..used + n] == s[start + used..start + used + n]
  {
    var a, b := s[start..limit][used..used + n], s[start + used..start + used + n];
    forall i | 0 <= i < n
      ensures a[i] == b[i]
    {
      assert a[i] == s[start..limit][used + i] == s[start + (used + i)];
    }
  }

  lemma BlocksOfNone(sz: nat)
    requires sz > 0
    ensures Blocks([], sz, true) == [] && Blocks([], sz, false) == []
  {
  }

  lemma AtLeastOneBlock(m: nat, sz: nat)
    requires m > 0 || m * sz > 0
    ensures m > 0 && m * sz >= sz
  {
  }

  lemma RoundDown(avail: nat, sz: nat, q: nat)
    requires 0 < sz <= avail && q == avail / sz
    ensures 0 < q * sz <= avail && q > 0
  {
    assert avail == q * sz + avail % sz;
    if q > 0 {
      AtLeastOneBlock(q, sz);
    }
  }

  lemma LessBlocks(m: nat, q: nat, sz: nat)
    requires sz > 0 && q * sz <= m * sz
    ensures q <= m && (m - q) * sz == m * sz - q * sz
  {
    if q > m {
      assert (q - m) * sz == q * sz - m * sz;
      AtLeastOneBlock(q - m, sz);
    }
  }

  /** q more blocks after the first k. */
  lemma MoreBlocks(s: seq<Byte>, sz: nat, k: nat, q: nat, reverse: bool)
    requires sz > 0 && k * sz + q * sz <= |s|
    ensures k * sz + q * sz == (k + q) * sz
    ensures Blocks(s[..k * sz + q * sz], sz, reverse)
            == Blocks(s[..k * sz], sz, reverse) + Blocks(s[k * sz..k * sz + q * sz], sz, reverse)
  {
    var t := s[..k * sz + q * sz];
    SwapInChunks(t, sz, k);
    assert t[..k * sz] == s[..k * sz] && t[k * sz..] == s[k * sz..k * sz + q * sz];
  }

  lemma TakeChunk(rest: seq<Byte>, sz: nat, q: nat, m: nat, reverse: bool)
    requires sz > 0 && q > 0 && q * sz <= |rest| == m * sz
    ensures q <= m && |rest[q * sz..]| == (m - q) * sz
    ensures Blocks(rest, sz, reverse) == Blocks(rest[..q * sz], sz, reverse) + Blocks(rest[q * sz..], sz, reverse)
    ensures |Blocks(rest[..q * sz], sz, reverse)| == q * sz
  {
    SwapInChunks(rest, sz, q);
    if q > m {
      assert (q - m) * sz == q * sz - m * sz;
      AtLeastOneBlock(q - m, sz);
    }
    assert (m - q) * sz == m * sz - q * sz;
  }
}
