/**
 The diode wire format: message sizes, the byte layout of each message, and the Serializer cursor that the
 sender writes packets with and the receiver reads them with.
 */
module Protocol {
  import opened Bytes

  const HEADER_SIZE: nat := 24
  const SUBMESSAGE_HEADER_SIZE: nat := 4
  const ALIGNMENT: nat := 8
  const DATA_MESSAGE_SIZE: nat := 4
  const CHANNEL_DATA_SIZE: nat := 8
  const FRAG_MESSAGE_SIZE: nat := 16
  const MAX_MESSAGE_SIZE: nat := 65504

  /** The largest value that a data message can carry. */
  const MAX_DATA_SIZE: nat :=
    MAX_MESSAGE_SIZE - HEADER_SIZE - SUBMESSAGE_HEADER_SIZE - DATA_MESSAGE_SIZE - CHANNEL_DATA_SIZE

  /** The room for channel updates in an empty data packet. */
  const DATA_ROOM: nat := MAX_MESSAGE_SIZE - HEADER_SIZE - SUBMESSAGE_HEADER_SIZE - DATA_MESSAGE_SIZE

  /** The room for value bytes in a fragment packet. */
  const FRAGMENT_ROOM: nat := MAX_MESSAGE_SIZE - HEADER_SIZE - SUBMESSAGE_HEADER_SIZE - FRAG_MESSAGE_SIZE

  /** Where the first message of a packet begins, and the update count, the updates and the fragment bytes in it. */
  const MESSAGE_START: nat := HEADER_SIZE + SUBMESSAGE_HEADER_SIZE
  const COUNT_START: nat := MESSAGE_START + 2
  const ITEMS_START: nat := MESSAGE_START + DATA_MESSAGE_SIZE
  const FRAGMENT_START: nat := MESSAGE_START + FRAG_MESSAGE_SIZE

  const CA_DATA_MESSAGE: Byte := 16
  const CA_FRAG_DATA_MESSAGE: Byte := 17
  const LITTLE_ENDIAN: Byte := 1
  const VERSION: Byte := 1
  const MAGIC: seq<Byte> := [0x70, 0x76, 0x41, 0x43]

  /** Both as "disconnected" count of a channel update and as "no active fragment set". */
  const MINUS_ONE_16: nat := 0xFFFF
  const MINUS_ONE_32: nat := 0xFFFF_FFFF

  datatype Header = Header(magic: seq<Byte>, version: Byte, startup: nat, hash: nat)

  /** One channel update of a data message, as it stands on the wire. */
  datatype Item = Item(id: nat, count: nat, typ: nat, value: seq<Byte>)

  /** The fields of a fragment message, without its bytes. */
  datatype FragInfo = FragInfo(seqNo: nat, fragNo: nat, id: nat, count: nat, typ: nat, size: nat)

  ghost predicate ItemFits(it: Item) {
    it.id < U32 && it.count < U16 && it.typ < U16
  }

  ghost predicate FragFits(f: FragInfo) {
    f.seqNo < U16 && f.fragNo < U16 && f.id < U32 && f.count < U32 && f.typ < U16 && f.size < U16
  }

  // ---------------------------------------------------------------- byte layouts

  function HeaderBytes(startup: nat, hash: nat): (s: seq<Byte>)
    ensures |s| == HEADER_SIZE
  {
    MAGIC + [VERSION] + Zeros(3) + LE(startup, 8) + LE(hash, 8)
  }

  function SubheaderBytes(id: Byte): (s: seq<Byte>)
    ensures |s| == SUBMESSAGE_HEADER_SIZE
  {
    [id, LITTLE_ENDIAN] + LE(0, 2)
  }

  function ChannelDataBytes(it: Item): (s: seq<Byte>)
    ensures |s| == CHANNEL_DATA_SIZE
  {
    LE(it.id, 4) + LE(it.count, 2) + LE(it.typ, 2)
  }

  function ItemBytes(it: Item): (s: seq<Byte>)
    ensures |s| == Up8(CHANNEL_DATA_SIZE + |it.value|)
    ensures |s| % ALIGNMENT == 0 && |s| >= CHANNEL_DATA_SIZE + |it.value|
  {
    ChannelDataBytes(it) + it.value + Zeros(Pad8(|it.value|))
  }

  function ItemsBytes(items: seq<Item>): (s: seq<Byte>)
    ensures |s| % ALIGNMENT == 0
    ensures |s| >= CHANNEL_DATA_SIZE * |items|
  {
    if items == [] then [] else ItemBytes(items[0]) + ItemsBytes(items[1..])
  }

  lemma {:induction false} ItemsBytesConcat(a: seq<Item>, b: seq<Item>)
    ensures ItemsBytes(a + b) == ItemsBytes(a) + ItemsBytes(b)
  {
    if a == [] {
      assert a + b == b;
    } else {
      calc {
        ItemsBytes(a + b);
        { assert (a + b)[0] == a[0] && (a + b)[1..] == a[1..] + b; }
        ItemBytes(a[0]) + ItemsBytes(a[1..] + b);
        { ItemsBytesConcat(a[1..], b); }
        ItemBytes(a[0]) + (ItemsBytes(a[1..]) + ItemsBytes(b));
        ItemBytes(a[0]) + ItemsBytes(a[1..]) + ItemsBytes(b);
      }
    }
  }

  lemma ItemsBytesOneMore(items: seq<Item>, it: Item)
    ensures ItemsBytes(items + [it]) == ItemsBytes(items) + ItemBytes(it)
  {
    ItemsBytesConcat(items, [it]);
    assert [it][1..] == [];
    assert ItemBytes(it) + [] == ItemBytes(it);
  }

  /** Everything of a data packet that precedes its channel updates. */
  function DataPrefix(hdr: seq<Byte>, seqNo: nat, count: nat): (s: seq<Byte>)
    ensures |s| == |hdr| + SUBMESSAGE_HEADER_SIZE + DATA_MESSAGE_SIZE
  {
    hdr + SubheaderBytes(CA_DATA_MESSAGE) + LE(seqNo, 2) + LE(count, 2)
  }

  function DataPacket(hdr: seq<Byte>, seqNo: nat, items: seq<Item>): (s: seq<Byte>) {
    DataPrefix(hdr, seqNo, |items|) + ItemsBytes(items)
  }

  function FragInfoBytes(f: FragInfo): (s: seq<Byte>)
    ensures |s| == FRAG_MESSAGE_SIZE
  {
    LE(f.seqNo, 2) + LE(f.fragNo, 2) + LE(f.id, 4) + LE(f.count, 4) + LE(f.typ, 2) + LE(f.size, 2)
  }

  function FragPacket(hdr: seq<Byte>, f: FragInfo, data: seq<Byte>): (s: seq<Byte>) {
    var body := hdr + SubheaderBytes(CA_FRAG_DATA_MESSAGE) + FragInfoBytes(f) + data;
    body + Zeros(Pad8(|body|))
  }

  // ---------------------------------------------------------------- byte by byte

  /** The n low-order bytes of v stand at a position, least significant byte first. */
  ghost predicate NumberAt(s: seq<Byte>, at: nat, v: nat, n: nat) {
    at + n <= |s| && forall i: nat :: i < n ==> s[at + i] == v / Pow256(i) % 256
  }

  lemma LEStands(s: seq<Byte>, pre: seq<Byte>, v: nat, n: nat, post: seq<Byte>)
    requires s == pre + LE(v, n) + post
    ensures NumberAt(s, |pre|, v, n)
  {
    forall i: nat | i < n
      ensures s[|pre| + i] == v / Pow256(i) % 256
    {
      LEAt(v, n, i);
    }
  }

  lemma HeaderLayout(startup: nat, hash: nat)
    ensures var s := HeaderBytes(startup, hash);
            && s[..8] == [0x70, 0x76, 0x41, 0x43, 1, 0, 0, 0]
            && NumberAt(s, 8, startup, 8) && NumberAt(s, 16, hash, 8)
  {
    var s, front := HeaderBytes(startup, hash), MAGIC + [VERSION] + Zeros(3);
    assert s == front + LE(startup, 8) + LE(hash, 8);
    LEStands(s, front, startup, 8, LE(hash, 8));
    assert s == (front + LE(startup, 8)) + LE(hash, 8) + [];
    LEStands(s, front + LE(startup, 8), hash, 8, []);
  }

  /** What precedes the channel updates of a data packet. */
  lemma DataLayout(hdr: seq<Byte>, seqNo: nat, items: seq<Item>)
    requires |hdr| == HEADER_SIZE
    ensures var p := DataPacket(hdr, seqNo, items);
            && |p| >= 32 && p[..24] == hdr && p[24..28] == [16, 1, 0, 0]
            && NumberAt(p, 28, seqNo, 2) && NumberAt(p, 30, |items|, 2) && |ItemsBytes(items[..0])| == 0
  {
    var p, front := DataPacket(hdr, seqNo, items), hdr + SubheaderBytes(CA_DATA_MESSAGE);
    LEAt(0, 2, 0);
    LEAt(0, 2, 1);
    assert p[24..28] == SubheaderBytes(CA_DATA_MESSAGE);
    assert p == front + LE(seqNo, 2) + (LE(|items|, 2) + ItemsBytes(items));
    LEStands(p, front, seqNo, 2, LE(|items|, 2) + ItemsBytes(items));
    LEStands(p, front + LE(seqNo, 2), |items|, 2, ItemsBytes(items));
  }

  /** An update stands at a position of a packet, with zero bytes up to the next multiple of 8. */
  ghost predicate UpdateAt(p: seq<Byte>, at: nat, it: Item) {
    && NumberAt(p, at, it.id, 4) && NumberAt(p, at + 4, it.count, 2) && NumberAt(p, at + 6, it.typ, 2)
    && Up8(at + 8 + |it.value|) <= |p| && p[at + 8..at + 8 + |it.value|] == it.value
    && forall j :: at + 8 + |it.value| <= j < Up8(at + 8 + |it.value|) ==> p[j] == 0
  }

  lemma UpdateStands(p: seq<Byte>, pre: seq<Byte>, it: Item, post: seq<Byte>)
    requires p == pre + ItemBytes(it) + post && |pre| % 8 == 0
    ensures UpdateAt(p, |pre|, it)
  {
    var a, b, c := LE(it.id, 4), LE(it.count, 2), LE(it.typ, 2);
    var rest := it.value + Zeros(Pad8(|it.value|)) + post;
    assert p == pre + a + (b + c + rest);
    LEStands(p, pre, it.id, 4, b + c + rest);
    assert p == (pre + a) + b + (c + rest);
    LEStands(p, pre + a, it.count, 2, c + rest);
    assert p == (pre + a + b) + c + rest;
    LEStands(p, pre + a + b, it.typ, 2, rest);
    Pad8Shift(|pre|, 8 + |it.value|);
    Pad8Shift(8, |it.value|);
    assert p == (pre + a + b + c) + rest;
  }

  lemma UpdateSplit(items: seq<Item>, k: nat)
    requires k < |items|
    ensures ItemsBytes(items) == ItemsBytes(items[..k]) + ItemBytes(items[k]) + ItemsBytes(items[k + 1..])
    ensures |ItemsBytes(items[..k + 1])| == |ItemsBytes(items[..k])| + |ItemBytes(items[k])|
  {
    hide ItemBytes, ItemsBytes;
    assert items[..k + 1] == items[..k] + [items[k]] && items == items[..k + 1] + items[k + 1..];
    ItemsBytesOneMore(items[..k], items[k]);
    ItemsBytesConcat(items[..k + 1], items[k + 1..]);
  }

  /** The updates stand one after the other: the first at 32, each other one where that before it ends. */
  lemma UpdateLayout(hdr: seq<Byte>, seqNo: nat, items: seq<Item>, k: nat)
    requires |hdr| == HEADER_SIZE && k < |items|
    ensures |ItemsBytes(items[..k + 1])| == Up8(|ItemsBytes(items[..k])| + 8 + |items[k].value|)
    ensures UpdateAt(DataPacket(hdr, seqNo, items), 32 + |ItemsBytes(items[..k])|, items[k])
  {
    hide ItemBytes, ItemsBytes, UpdateAt, DataPrefix;
    var pre, one, post := ItemsBytes(items[..k]), ItemBytes(items[k]), ItemsBytes(items[k + 1..]);
    var prefix, p := DataPrefix(hdr, seqNo, |items|), DataPacket(hdr, seqNo, items);
    UpdateSplit(items, k);
    Pad8Shift(|pre|, 8 + |items[k].value|);
    assert p == (prefix + pre) + one + post;
    UpdateStands(p, prefix + pre, items[k], post);
  }

  /** The one fragment that a packet carries. */
  lemma FragmentLayout(hdr: seq<Byte>, f: FragInfo, data: seq<Byte>)
    requires |hdr| == HEADER_SIZE
    ensures var p := FragPacket(hdr, f, data);
            && |p| == Up8(44 + |data|) && p[..24] == hdr && p[24..28] == [17, 1, 0, 0]
            && NumberAt(p, 28, f.seqNo, 2) && NumberAt(p, 30, f.fragNo, 2) && NumberAt(p, 32, f.id, 4)
            && NumberAt(p, 36, f.count, 4) && NumberAt(p, 40, f.typ, 2) && NumberAt(p, 42, f.size, 2)
            && p[44..44 + |data|] == data && forall j :: 44 + |data| <= j < |p| ==> p[j] == 0
  {
    hide NumberAt;
    var p, h := FragPacket(hdr, f, data), hdr + SubheaderBytes(CA_FRAG_DATA_MESSAGE);
    LEAt(0, 2, 0);
    LEAt(0, 2, 1);
    assert p[24..28] == SubheaderBytes(CA_FRAG_DATA_MESSAGE);
    var a, b, c, d, e, g := LE(f.seqNo, 2), LE(f.fragNo, 2), LE(f.id, 4), LE(f.count, 4), LE(f.typ, 2), LE(f.size, 2);
    var rest := data + Zeros(Pad8(44 + |data|));
    var front := h + a + b;
    assert p == front + (c + d + e + g + rest);
    assert p == h + a + (b + (c + d + e + g + rest));
    LEStands(p, h, f.seqNo, 2, b + (c + d + e + g + rest));
    LEStands(p, h + a, f.fragNo, 2, c + d + e + g + rest);
    assert p == front + c + (d + e + g + rest);
    LEStands(p, front, f.id, 4, d + e + g + rest);
    assert p == (front + c) + d + (e + g + rest);
    LEStands(p, front + c, f.count, 4, e + g + rest);
    assert p == (front + c + d) + e + (g + rest);
    LEStands(p, front + c + d, f.typ, 2, g + rest);
    assert p == (front + c + d + e) + g + rest;
    LEStands(p, front + c + d + e, f.size, 2, rest);
    assert p == (front + c + d + e + g) + rest;
  }

  // ---------------------------------------------------------------- reading back

  function UintAt(mem: seq<Byte>, at: nat, n: nat): (v: nat)
    requires at + n <= |mem|
    ensures v < Pow256(n)
  {
    FromLE(mem[at..at + n])
  }

  function HeaderAt(mem: seq<Byte>, at: nat): Header
    requires at + HEADER_SIZE <= |mem|
  {
    Header(mem[at..at + 4], mem[at + 4], UintAt(mem, at + 8, 8), UintAt(mem, at + 16, 8))
  }

  function ChannelDataAt(mem: seq<Byte>, at: nat): Item
    requires at + CHANNEL_DATA_SIZE <= |mem|
  {
    Item(UintAt(mem, at, 4), UintAt(mem, at + 4, 2), UintAt(mem, at + 6, 2), [])
  }

  function FragInfoAt(mem: seq<Byte>, at: nat): FragInfo
    requires at + FRAG_MESSAGE_SIZE <= |mem|
  {
    FragInfo(UintAt(mem, at, 2), UintAt(mem, at + 2, 2), UintAt(mem, at + 4, 4), UintAt(mem, at + 8, 4),
             UintAt(mem, at + 12, 2), UintAt(mem, at + 14, 2))
  }

  /** A number found in memory where its encoding lies. */
  lemma UintRoundTrip(mem: seq<Byte>, at: nat, v: nat, n: nat)
    requires at + n <= |mem| && mem[at..at + n] == LE(v, n) && v < Pow256(n)
    ensures UintAt(mem, at, n) == v
  {
    FromLEofLE(v, n);
  }

  /** Memory that holds a then b holds each of them in its place. */
  lemma SplitMemory(mem: seq<Byte>, at: nat, a: seq<Byte>, b: seq<Byte>)
    requires at + |a| + |b| <= |mem| && mem[at..at + |a| + |b|] == a + b
    ensures mem[at..at + |a|] == a && mem[at + |a|..at + |a| + |b|] == b
  {
    var m := mem[at..at + |a| + |b|];
    assert mem[at..at + |a|] == m[..|a|];
    assert mem[at + |a|..at + |a| + |b|] == m[|a|..];
  }

  lemma HeaderParts(mem: seq<Byte>, startup: seq<Byte>, hash: seq<Byte>)
    requires HEADER_SIZE <= |mem| && |startup| == |hash| == 8
    requires mem[..HEADER_SIZE] == MAGIC + [VERSION] + Zeros(3) + startup + hash
    ensures mem[0..4] == MAGIC && mem[4] == VERSION && mem[8..16] == startup && mem[16..24] == hash
  {
    var a := MAGIC + [VERSION] + Zeros(3);
    assert mem[0..24] == mem[..24];
    SplitMemory(mem, 0, a + startup, hash);
    SplitMemory(mem, 0, a, startup);
    assert mem[0..4] == mem[0..8][..4];
    assert mem[4] == mem[0..8][4];
  }

  lemma HeaderRoundTrip(mem: seq<Byte>, startup: nat, hash: nat)
    requires HEADER_SIZE <= |mem| && mem[..HEADER_SIZE] == HeaderBytes(startup, hash)
    requires startup < U64 && hash < U64
    ensures HeaderAt(mem, 0) == Header(MAGIC, VERSION, startup, hash)
  {
    PowValues();
    HeaderParts(mem, LE(startup, 8), LE(hash, 8));
    UintRoundTrip(mem, 8, startup, 8);
    UintRoundTrip(mem, 16, hash, 8);
  }

  lemma ChannelDataRoundTrip(mem: seq<Byte>, at: nat, it: Item)
    requires at + CHANNEL_DATA_SIZE <= |mem| && mem[at..at + CHANNEL_DATA_SIZE] == ChannelDataBytes(it)
    requires ItemFits(it)
    ensures ChannelDataAt(mem, at) == it.(value := [])
  {
    PowValues();
    SplitMemory(mem, at, LE(it.id, 4) + LE(it.count, 2), LE(it.typ, 2));
    SplitMemory(mem, at, LE(it.id, 4), LE(it.count, 2));
    UintRoundTrip(mem, at, it.id, 4);
    UintRoundTrip(mem, at + 4, it.count, 2);
    UintRoundTrip(mem, at + 6, it.typ, 2);
  }

  lemma FragInfoRoundTrip(mem: seq<Byte>, at: nat, f: FragInfo)
    requires at + FRAG_MESSAGE_SIZE <= |mem| && mem[at..at + FRAG_MESSAGE_SIZE] == FragInfoBytes(f)
    requires FragFits(f)
    ensures FragInfoAt(mem, at) == f
  {
    PowValues();
    var a, b := LE(f.seqNo, 2) + LE(f.fragNo, 2) + LE(f.id, 4), LE(f.count, 4);
    SplitMemory(mem, at, a + b + LE(f.typ, 2), LE(f.size, 2));
    SplitMemory(mem, at, a + b, LE(f.typ, 2));
    SplitMemory(mem, at, a, b);
    SplitMemory(mem, at, LE(f.seqNo, 2) + LE(f.fragNo, 2), LE(f.id, 4));
    SplitMemory(mem, at, LE(f.seqNo, 2), LE(f.fragNo, 2));
    UintRoundTrip(mem, at, f.seqNo, 2);
    UintRoundTrip(mem, at + 2, f.fragNo, 2);
    UintRoundTrip(mem, at + 4, f.id, 4);
    UintRoundTrip(mem, at + 8, f.count, 4);
    UintRoundTrip(mem, at + 12, f.typ, 2);
    UintRoundTrip(mem, at + 14, f.size, 2);
  }

  // ---------------------------------------------------------------- the cursor

  /**
   A cursor over buf[..limit]. The number of bytes left is an unsigned 64-bit difference: once the cursor has
   been moved past the limit it is huge, and Ensure succeeds again. The flag good is sticky.
   */
  class Serializer {
    const buf: array<Byte>
    const limit: nat
    var pos: nat
    var good: bool

    constructor (buf: array<Byte>, size: nat)
      requires size <= buf.Length
      ensures this.buf == buf && limit == size && pos == 0 && good
    {
      this.buf, limit, pos, good := buf, size, 0, true;
    }

    function Remaining(): (r: nat)
      reads this
      ensures pos <= limit < U64 ==> r == limit - pos
    {
      (limit - pos) % U64
    }

    method Ensure(n: nat) returns (ok: bool)
      modifies this`good
      ensures good == (old(good) && n <= Remaining())
      ensures ok == good
    {
      good := good && n <= Remaining();
      ok := good;
    }

    method Advance(n: nat)
      modifies this`pos
      ensures pos == old(pos) + n
    {
      pos := pos + n;
    }

    method SetPosition(newPos: nat)
      requires newPos <= limit
      modifies this`pos
      ensures pos == newPos
    {
      pos := newPos;
    }

    method Write(data: seq<Byte>)
      requires pos + |data| <= buf.Length
      modifies this`pos, buf
      ensures pos == old(pos) + |data|
      ensures buf[..pos] == old(buf[..pos]) + data
      ensures forall i :: pos <= i < buf.Length ==> buf[i] == old(buf[i])
    {
      forall i | 0 <= i < |data| {
        buf[pos + i] := data[i];
      }
      pos := pos + |data|;
    }

    method Read(n: nat) returns (data: seq<Byte>)
      requires pos + n <= buf.Length
      modifies this`pos
      ensures pos == old(pos) + n
      ensures data == buf[old(pos)..pos]
    {
      data := buf[pos..pos + n];
      pos := pos + n;
    }

    method WriteUint(v: nat, n: nat)
      requires pos + n <= buf.Length
      modifies this`pos, buf
      ensures pos == old(pos) + n
      ensures buf[..pos] == old(buf[..pos]) + LE(v, n)
      ensures forall i :: pos <= i < buf.Length ==> buf[i] == old(buf[i])
    {
      Write(LE(v, n));
    }

    method ReadUint(n: nat) returns (v: nat)
      requires pos + n <= buf.Length
      modifies this`pos
      ensures pos == old(pos) + n
      ensures v == UintAt(buf[..], old(pos), n)
    {
      var data := Read(n);
      assert buf[..][old(pos)..old(pos) + n] == data;
      v := FromLE(data);
    }

    /** Writes zero bytes up to the next multiple of 8. */
    method PadAlign()
      requires Up8(pos) <= buf.Length
      modifies this`pos, buf
      ensures pos == Up8(old(pos))
      ensures buf[..pos] == old(buf[..pos]) + Zeros(Pad8(old(pos)))
      ensures forall i :: pos <= i < buf.Length ==> buf[i] == old(buf[i])
    {
      ghost var start := pos;
      var n := pos % ALIGNMENT;
      if n > 0 {
        while n < ALIGNMENT
          invariant n <= ALIGNMENT && start <= pos && pos - start == n - start % ALIGNMENT
          invariant pos <= Up8(start)
          invariant buf[..pos] == old(buf[..pos]) + Zeros(pos - start)
          invariant forall i :: pos <= i < buf.Length ==> buf[i] == old(buf[i])
        {
          buf[pos] := 0;
          pos := pos + 1;
          n := n + 1;
        }
      }
    }

    /** Moves to the next multiple of 8. */
    method PosAlign()
      modifies this`pos
      ensures pos == Up8(old(pos))
    {
      var n := pos % ALIGNMENT;
      if n > 0 {
        pos := pos + (ALIGNMENT - n);
      }
    }

    // -------------------------------------------------------------- messages

    method PutHeader(startup: nat, hash: nat)
      requires pos <= limit <= buf.Length && limit < U64
      modifies this, buf
      ensures good == (old(good) && HEADER_SIZE <= limit - old(pos))
      ensures good ==>
                && pos == old(pos) + HEADER_SIZE
                && buf[..pos] == old(buf[..pos]) + (MAGIC + [VERSION] + old(buf[pos + 5..pos + 8])
                                                    + LE(startup, 8) + LE(hash, 8))
                && forall i :: pos <= i < buf.Length ==> buf[i] == old(buf[i])
      ensures !good ==> pos == old(pos) && buf[..] == old(buf[..])
    {
      hide LE;
      var ok := Ensure(HEADER_SIZE);
      if ok {
        Write(MAGIC);
        Write([VERSION]);
        Advance(3);
        assert buf[pos - 3..pos] == old(buf[pos + 5..pos + 8]);
        assert buf[..pos] == buf[..pos - 3] + buf[pos - 3..pos];
        assert buf[..pos] == old(buf[..pos]) + (MAGIC + [VERSION] + old(buf[pos + 5..pos + 8]));
        WriteUint(startup, 8);
        WriteUint(hash, 8);
      }
    }

    method PutSubheader(id: Byte)
      requires pos <= limit <= buf.Length && limit < U64
      modifies this, buf
      ensures good == (old(good) && SUBMESSAGE_HEADER_SIZE <= limit - old(pos))
      ensures good ==>
                && pos == old(pos) + SUBMESSAGE_HEADER_SIZE
                && buf[..pos] == old(buf[..pos]) + SubheaderBytes(id)
                && forall i :: pos <= i < buf.Length ==> buf[i] == old(buf[i])
      ensures !good ==> pos == old(pos) && buf[..] == old(buf[..])
    {
      var ok := Ensure(SUBMESSAGE_HEADER_SIZE);
      if ok {
        Write([id]);
        Write([LITTLE_ENDIAN]);
        WriteUint(0, 2);
      }
    }

    method PutDataMessage(seqNo: nat, count: nat)
      requires pos <= limit <= buf.Length && limit < U64
      modifies this, buf
      ensures good == (old(good) && DATA_MESSAGE_SIZE <= limit - old(pos))
      ensures good ==>
                && pos == old(pos) + DATA_MESSAGE_SIZE
                && buf[..pos] == old(buf[..pos]) + (LE(seqNo, 2) + LE(count, 2))
                && forall i :: pos <= i < buf.Length ==> buf[i] == old(buf[i])
      ensures !good ==> pos == old(pos) && buf[..] == old(buf[..])
    {
      var ok := Ensure(DATA_MESSAGE_SIZE);
      if ok {
        WriteUint(seqNo, 2);
        WriteUint(count, 2);
      }
    }

    /**
     The check made here is for the size of a data message, which is too little: with 4 to 7 bytes left the header goes
     past the limit, into whatever memory lies there. The callers reserve more.
     */
    method PutChannelData(it: Item)
      requires pos <= limit && pos + CHANNEL_DATA_SIZE <= buf.Length && limit < U64
      modifies this, buf
      ensures good == (old(good) && DATA_MESSAGE_SIZE <= limit - old(pos))
      ensures good ==>
                && pos == old(pos) + CHANNEL_DATA_SIZE
                && buf[..pos] == old(buf[..pos]) + ChannelDataBytes(it)
                && forall i :: pos <= i < buf.Length ==> buf[i] == old(buf[i])
      ensures !good ==> pos == old(pos) && buf[..] == old(buf[..])
    {
      hide LE;
      var ok := Ensure(DATA_MESSAGE_SIZE);
      if ok {
        WriteUint(it.id, 4);
        WriteUint(it.count, 2);
        WriteUint(it.typ, 2);
      }
    }

    method PutFragInfo(f: FragInfo)
      requires pos <= limit <= buf.Length && limit < U64
      modifies this, buf
      ensures good == (old(good) && FRAG_MESSAGE_SIZE <= limit - old(pos))
      ensures good ==>
                && pos == old(pos) + FRAG_MESSAGE_SIZE
                && buf[..pos] == old(buf[..pos]) + FragInfoBytes(f)
                && forall i :: pos <= i < buf.Length ==> buf[i] == old(buf[i])
      ensures !good ==> pos == old(pos) && buf[..] == old(buf[..])
    {
      hide LE;
      var ok := Ensure(FRAG_MESSAGE_SIZE);
      if ok {
        WriteUint(f.seqNo, 2);
        WriteUint(f.fragNo, 2);
        WriteUint(f.id, 4);
        WriteUint(f.count, 4);
        WriteUint(f.typ, 2);
        WriteUint(f.size, 2);
      }
    }
  }
}
