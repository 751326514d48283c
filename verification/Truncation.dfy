/**
 Truncated packets. The cursor checks headers but not values, and its count of remaining bytes wraps once it has been
 moved past the end, so whether a cut packet is harmless depends on where it is cut.
 */
module Truncation {
  import opened Bytes
  import opened Protocol
  import opened Packing
  import opened Receiver
  import opened EndToEnd

  /**
   Cutting a list of updates that begins at position at after t bytes is harmless: the cut falls into the header of an
   update, or into the padding behind the last one.
   */
  predicate SafeCut(items: seq<Item>, at: nat, t: nat)
    decreases |items|
  {
    || items == []
    || t < at + CHANNEL_DATA_SIZE
    || (if |items| == 1 then t >= at + CHANNEL_DATA_SIZE + |items[0].value|
        else t >= at + |ItemBytes(items[0])| && SafeCut(items[1..], at + |ItemBytes(items[0])|, t))
  }

  /** The first byte after the cut that the receiver uses although it was not received. */
  function Misread(items: seq<Item>, at: nat, t: nat): nat
    requires !SafeCut(items, at, t)
    decreases |items|
  {
    var end := at + |ItemBytes(items[0])|;
    if |items| > 1 && t >= end then Misread(items[1..], end, t)
    else if t < at + CHANNEL_DATA_SIZE + |items[0].value| then t
    else end + 6
  }

  lemma {:induction false} MisreadInside(items: seq<Item>, at: nat, t: nat)
    requires !SafeCut(items, at, t)
    ensures t <= Misread(items, at, t) < at + |ItemsBytes(items)| && items != [] && at <= t
    decreases |items|
  {
    hide ItemBytes;
    var end := at + |ItemBytes(items[0])|;
    if |items| > 1 && t >= end {
      MisreadInside(items[1..], end, t);
    } else if |items| > 1 {
      assert |ItemsBytes(items[1..])| >= CHANNEL_DATA_SIZE;
    }
  }

  // ---------------------------------------------------------------- harmless cuts

  /** An update whose header and value have been received is reported as it was sent. */
  lemma WholeUpdate(cfg: Config, st: State, mem: seq<Byte>, at: nat, it: Item)
    requires at % 8 == 0 && WireOk(cfg.size, it) && it.id < |st.channels|
    requires at + CHANNEL_DATA_SIZE + |it.value| <= |mem|
    requires mem[at..at + CHANNEL_DATA_SIZE + |it.value|] == ChannelDataBytes(it) + it.value
    ensures var it' := ChannelDataAt(mem, at);
            && it' == it.(value := [])
            && Up8(at + CHANNEL_DATA_SIZE + DataSize(cfg, it')) == at + |ItemBytes(it)|
            && Apply(cfg, st, it', mem, at + CHANNEL_DATA_SIZE)
               == (st.(channels := st.channels[it.id := Channel(it.count == MINUS_ONE_16, st.now)]), [Delivered(it)])
  {
    hide ChannelDataBytes, ChannelDataAt, ItemBytes;
    SplitMemory(mem, at, ChannelDataBytes(it), it.value);
    ChannelDataRoundTrip(mem, at, it);
    Up8Shift(at, CHANNEL_DATA_SIZE + |it.value|);
  }

  /** The bytes that were received are those of the updates, as far as they go. */
  ghost predicate Received(items: seq<Item>, at: nat, t: nat, mem: seq<Byte>) {
    var all := ItemsBytes(items);
    at % 8 == 0 && at <= t <= at + |all| <= |mem| && t < U64 && mem[at..t] == all[..t - at]
  }

  /** Where the first update and the others lie in the bytes of all. */
  lemma Places(items: seq<Item>)
    requires items != []
    ensures var it, all, n := items[0], ItemsBytes(items), |ItemBytes(items[0])|;
            && n <= |all| && all[n..] == ItemsBytes(items[1..])
            && n >= CHANNEL_DATA_SIZE + |it.value|
            && all[..CHANNEL_DATA_SIZE] == ChannelDataBytes(it)
            && all[CHANNEL_DATA_SIZE..CHANNEL_DATA_SIZE + |it.value|] == it.value
            && all[..CHANNEL_DATA_SIZE + |it.value|] == ChannelDataBytes(it) + it.value
  {
    hide ChannelDataBytes, Pad8;
    var it, all, rest := items[0], ItemsBytes(items), ItemsBytes(items[1..]);
    var head, pad := ChannelDataBytes(it), Zeros(Pad8(|it.value|));
    assert all == ItemBytes(it) + rest == head + it.value + pad + rest;
    hide ItemsBytes, ItemBytes;
    assert all[0..|all|] == all;
    SplitMemory(all, 0, head + it.value + pad, rest);
    SplitMemory(all, 0, head + it.value, pad);
    SplitMemory(all, 0, head, it.value);
  }

  /** A window of what was received is the same window of what was sent. */
  lemma SamePart(mem: seq<Byte>, all: seq<Byte>, at: nat, t: nat, i: nat, j: nat)
    requires at <= t <= |mem| && t - at <= |all| && mem[at..t] == all[..t - at] && i <= j <= t - at
    ensures mem[at + i..at + j] == all[i..j]
  {
    forall x | i <= x < j
      ensures mem[at + x] == all[x]
    {
      assert mem[at + x] == mem[at..t][x] == all[..t - at][x];
    }
    assert forall y {:trigger all[i..j][y]} :: 0 <= y < j - i ==> mem[at + (i + y)] == all[i..j][y];
  }

  lemma FirstReceived(items: seq<Item>, at: nat, t: nat, mem: seq<Byte>)
    requires items != [] && Received(items, at, t, mem)
    ensures var it, head := items[0], ChannelDataBytes(items[0]);
            && (t >= at + CHANNEL_DATA_SIZE ==> mem[at..at + CHANNEL_DATA_SIZE] == head)
            && (t >= at + CHANNEL_DATA_SIZE + |it.value| ==>
                  mem[at..at + CHANNEL_DATA_SIZE + |it.value|] == head + it.value)
  {
    var all, whole := ItemsBytes(items), CHANNEL_DATA_SIZE + |items[0].value|;
    var head := ChannelDataBytes(items[0]);
    assert all[..CHANNEL_DATA_SIZE] == head && all[..whole] == head + items[0].value by {
      Places(items);
    }
    hide ItemsBytes, ItemBytes, ChannelDataBytes;
    if t >= at + CHANNEL_DATA_SIZE {
      SamePart(mem, all, at, t, 0, CHANNEL_DATA_SIZE);
    }
    if t >= at + whole {
      SamePart(mem, all, at, t, 0, whole);
    }
  }

  lemma RestReceived(items: seq<Item>, at: nat, t: nat, mem: seq<Byte>)
    requires items != [] && Received(items, at, t, mem) && t >= at + |ItemBytes(items[0])|
    ensures Received(items[1..], at + |ItemBytes(items[0])|, t, mem)
  {
    var all, rest, n := ItemsBytes(items), ItemsBytes(items[1..]), |ItemBytes(items[0])|;
    assert n <= |all| && all[n..] == rest by {
      Places(items);
    }
    hide ItemsBytes, ItemBytes;
    ModShift(at, n);
    SamePart(mem, all, at, t, n, t - at);
    assert all[n..][..t - at - n] == all[n..t - at];
  }

  lemma {:induction false} SafeArrives(cfg: Config, st: State, mem: seq<Byte>, t: nat, at: nat, items: seq<Item>)
    requires AllOk(cfg, |st.channels|, items) && Received(items, at, t, mem) && SafeCut(items, at, t)
    ensures Items(cfg, st, mem, t, Cursor(at, true), |items|).events <= DeliveredAll(items)
    decreases |items|
  {
    hide ItemBytes, ChannelDataBytes, ChannelDataAt, Apply, DataSize, Items, DeliveredAll, WireOk, Received;
    DeliveredStep(items);
    if items == [] {
      ItemsEnd(cfg, st, mem, t, Cursor(at, true));
    } else {
      var it := items[0];
      ReceivedBounds(items, at, t, mem);
      ItemsStep(cfg, st, mem, t, Cursor(at, true), |items|, []);
      var o := Items(cfg, st, mem, t, Cursor(at, true), |items|);
      assert Prepend([], o) == o;
      if t < at + CHANNEL_DATA_SIZE {
        BadCursor(cfg, st, mem, t, at, |items| - 1);
      } else {
        FirstReceived(items, at, t, mem);
        WholeUpdate(cfg, st, mem, at, it);
        var end := at + |ItemBytes(it)|;
        var st1 := st.(channels := st.channels[it.id := Channel(it.count == MINUS_ONE_16, st.now)]);
        assert [] + [Delivered(it)] == [Delivered(it)];
        if |items| == 1 {
          ItemsEnd(cfg, st1, mem, t, Cursor(end, true));
        } else {
          RestReceived(items, at, t, mem);
          SafeArrives(cfg, st1, mem, t, end, items[1..]);
        }
      }
    }
  }

  lemma ReceivedBounds(items: seq<Item>, at: nat, t: nat, mem: seq<Byte>)
    requires Received(items, at, t, mem)
    ensures at % 8 == 0 && at <= t <= |mem| && t < U64 && at + |ItemsBytes(items)| <= |mem|
  {
  }

  /** Once the flag is cleared nothing more is reported. */
  lemma BadCursor(cfg: Config, st: State, mem: seq<Byte>, t: nat, at: nat, k: nat)
    ensures Items(cfg, st, mem, t, Cursor(at, false), k).events == []
  {
  }

  // ---------------------------------------------------------------- harmful cuts

  /** Memory that holds the bytes except for a single wrong one. */
  ghost predicate WrongByte(all: seq<Byte>, at: nat, mem: seq<Byte>, pos: nat) {
    && at <= pos < at + |all| <= |mem| && mem[pos] != all[pos - at]
    && forall i :: at <= i < at + |all| && i != pos ==> mem[i] == all[i - at]
  }

  /** Memory that holds the updates except for a single wrong byte. */
  ghost predicate WrongAt(items: seq<Item>, at: nat, mem: seq<Byte>, pos: nat) {
    at % 8 == 0 && WrongByte(ItemsBytes(items), at, mem, pos)
  }

  lemma WrongInTail(all: seq<Byte>, at: nat, mem: seq<Byte>, pos: nat, n: nat)
    requires WrongByte(all, at, mem, pos) && n <= |all| && pos >= at + n
    ensures WrongByte(all[n..], at + n, mem, pos)
  {
    var rest := all[n..];
    assert forall i :: 0 <= i < |rest| ==> rest[i] == all[n + i];
  }

  /** What is right before the wrong byte. */
  lemma RightBefore(items: seq<Item>, at: nat, mem: seq<Byte>, pos: nat, n: nat)
    requires WrongAt(items, at, mem, pos) && n <= |ItemsBytes(items)| && at + n <= pos
    ensures mem[at..at + n] == ItemsBytes(items)[..n]
  {
    hide ItemsBytes;
  }

  lemma WrongInRest(items: seq<Item>, at: nat, mem: seq<Byte>, pos: nat)
    requires items != [] && WrongAt(items, at, mem, pos) && pos >= at + |ItemBytes(items[0])|
    ensures WrongAt(items[1..], at + |ItemBytes(items[0])|, mem, pos)
  {
    var all, rest, n := ItemsBytes(items), ItemsBytes(items[1..]), |ItemBytes(items[0])|;
    assert n <= |all| && all[n..] == rest by {
      Places(items);
    }
    hide ItemsBytes, ItemBytes, WrongByte;
    ModShift(at, n);
    WrongInTail(all, at, mem, pos, n);
  }

  lemma WrongInValue(items: seq<Item>, at: nat, mem: seq<Byte>, pos: nat)
    requires items != [] && WrongAt(items, at, mem, pos)
    requires at + CHANNEL_DATA_SIZE <= pos < at + CHANNEL_DATA_SIZE + |items[0].value|
    ensures mem[pos] != items[0].value[pos - at - CHANNEL_DATA_SIZE]
  {
    Places(items);
    hide ItemsBytes;
    var all, v := ItemsBytes(items), items[0].value;
    assert all[CHANNEL_DATA_SIZE..CHANNEL_DATA_SIZE + |v|][pos - at - CHANNEL_DATA_SIZE] == all[pos - at];
  }

  /** A header whose type is wrong in its low byte still names its channel. */
  lemma WrongType(mem: seq<Byte>, at: nat, it: Item)
    requires at + CHANNEL_DATA_SIZE <= |mem| && ItemFits(it)
    requires mem[at..at + 6] == ChannelDataBytes(it)[..6] && mem[at + 6] != ChannelDataBytes(it)[6]
    ensures ChannelDataAt(mem, at).id == it.id && ChannelDataAt(mem, at).typ != it.typ
  {
    PowValues();
    var a, b := LE(it.id, 4), LE(it.count, 2);
    assert mem[at..at + 6] == a + b;
    SplitMemory(mem, at, a, b);
    UintRoundTrip(mem, at, it.id, 4);
    var low := mem[at + 6..at + 8];
    LEofFromLE(low);
    assert ChannelDataBytes(it)[6] == LE(it.typ, 2)[0];
  }

  lemma WrongTypeApplied(cfg: Config, st: State, mem: seq<Byte>, at: nat, it: Item)
    requires at + CHANNEL_DATA_SIZE <= |mem| && it.id < |st.channels|
    requires ChannelDataAt(mem, at).id == it.id && ChannelDataAt(mem, at).typ != it.typ
    ensures var events := Apply(cfg, st, ChannelDataAt(mem, at), mem, at + CHANNEL_DATA_SIZE).1;
            |events| == 1 && events[0] != Delivered(it)
  {
    hide ChannelDataAt;
  }

  /** A value that was cut is reported with a byte that was never received. */
  lemma WrongValueApplied(cfg: Config, st: State, mem: seq<Byte>, at: nat, it: Item, pos: nat)
    requires WireOk(cfg.size, it) && it.id < |st.channels|
    requires at + CHANNEL_DATA_SIZE <= pos < at + CHANNEL_DATA_SIZE + |it.value| <= |mem|
    requires ChannelDataAt(mem, at) == it.(value := []) && mem[pos] != it.value[pos - at - CHANNEL_DATA_SIZE]
    ensures var events := Apply(cfg, st, ChannelDataAt(mem, at), mem, at + CHANNEL_DATA_SIZE).1;
            |events| == 1 && events[0] != Delivered(it)
  {
    hide ChannelDataAt;
    var w := Window(mem, at + CHANNEL_DATA_SIZE, |it.value|);
    assert w[pos - at - CHANNEL_DATA_SIZE] == mem[pos];
  }

  /** A list of callbacks that begins with a wrong one. */
  lemma WrongFirst(es: seq<Event>, more: seq<Event>, items: seq<Item>)
    requires items != [] && |es| == 1 && es[0] != Delivered(items[0])
    ensures !(es + more <= DeliveredAll(items))
  {
    assert (es + more)[0] == es[0] && DeliveredAll(items)[0] == Delivered(items[0]);
  }

  /** The callbacks of one update and of those after it. */
  lemma FirstEvents(cfg: Config, st: State, mem: seq<Byte>, limit: nat, at: nat, k: nat)
    requires k > 0 && CHANNEL_DATA_SIZE <= (limit - at) % U64 && at + CHANNEL_DATA_SIZE <= |mem|
    ensures var it := ChannelDataAt(mem, at);
            var (st1, events) := Apply(cfg, st, it, mem, at + CHANNEL_DATA_SIZE);
            var next := Up8(at + CHANNEL_DATA_SIZE + DataSize(cfg, it));
            Items(cfg, st, mem, limit, Cursor(at, true), k).events
            == events + Items(cfg, st1, mem, limit, Cursor(next, true), k - 1).events
  {
    hide ChannelDataAt, Apply, DataSize;
  }

  /** The next update is looked for past the end, where the wrapped count of remaining bytes lets everything pass. */
  lemma PastTheEnd(cfg: Config, st: State, mem: seq<Byte>, t: nat, at: nat, items: seq<Item>)
    requires items != [] && AllOk(cfg, |st.channels|, items) && |mem| == MAX_MESSAGE_SIZE
    requires t < at && WrongAt(items, at, mem, at + 6)
    ensures !(Items(cfg, st, mem, t, Cursor(at, true), |items|).events <= DeliveredAll(items))
  {
    hide ItemBytes, ChannelDataBytes, ChannelDataAt, Apply, DataSize, Items, DeliveredAll, WireOk, WrongAt, Up8;
    var it := items[0];
    WrongBounds(items, at, mem, at + 6);
    NextHeaderWrong(items, at, mem);
    HeaderFits(cfg, it, |st.channels|);
    WrongType(mem, at, it);
    WrongTypeApplied(cfg, st, mem, at, it);
    FirstEvents(cfg, st, mem, t, at, |items|);
    var it' := ChannelDataAt(mem, at);
    var (st1, events) := Apply(cfg, st, it', mem, at + CHANNEL_DATA_SIZE);
    var next := Up8(at + CHANNEL_DATA_SIZE + DataSize(cfg, it'));
    WrongFirst(events, Items(cfg, st1, mem, t, Cursor(next, true), |items| - 1).events, items);
  }

  /** The update that the cut goes through is reported, with a byte that was not received. */
  lemma InTheValue(cfg: Config, st: State, mem: seq<Byte>, t: nat, at: nat, items: seq<Item>)
    requires items != [] && AllOk(cfg, |st.channels|, items) && |mem| == MAX_MESSAGE_SIZE
    requires at + CHANNEL_DATA_SIZE <= t < at + CHANNEL_DATA_SIZE + |items[0].value| && WrongAt(items, at, mem, t)
    ensures !(Items(cfg, st, mem, t, Cursor(at, true), |items|).events <= DeliveredAll(items))
  {
    hide ItemBytes, ChannelDataBytes, ChannelDataAt, Apply, DataSize, Items, DeliveredAll, WireOk, WrongAt, Up8;
    var it := items[0];
    WrongBounds(items, at, mem, t);
    ValueInside(items);
    HeaderFits(cfg, it, |st.channels|);
    assert ChannelDataAt(mem, at) == it.(value := []) by {
      Places(items);
      RightBefore(items, at, mem, t, CHANNEL_DATA_SIZE);
      ChannelDataRoundTrip(mem, at, it);
    }
    WrongInValue(items, at, mem, t);
    WrongValueApplied(cfg, st, mem, at, it, t);
    FirstEvents(cfg, st, mem, t, at, |items|);
    var it' := ChannelDataAt(mem, at);
    var (st1, events) := Apply(cfg, st, it', mem, at + CHANNEL_DATA_SIZE);
    var next := Up8(at + CHANNEL_DATA_SIZE + DataSize(cfg, it'));
    WrongFirst(events, Items(cfg, st1, mem, t, Cursor(next, true), |items| - 1).events, items);
  }

  lemma {:induction false} UnsafeArrives(cfg: Config, st: State, mem: seq<Byte>, t: nat, at: nat, items: seq<Item>)
    requires AllOk(cfg, |st.channels|, items) && !SafeCut(items, at, t) && |mem| == MAX_MESSAGE_SIZE
    requires WrongAt(items, at, mem, Misread(items, at, t))
    ensures !(Items(cfg, st, mem, t, Cursor(at, true), |items|).events <= DeliveredAll(items))
    decreases |items|
  {
    hide ItemBytes, ChannelDataBytes, ChannelDataAt, Apply, DataSize, Items, DeliveredAll, WireOk, WrongAt, Up8;
    var it, pos, end := items[0], Misread(items, at, t), at + |ItemBytes(items[0])|;
    MisreadInside(items, at, t);
    if t < at + CHANNEL_DATA_SIZE + |it.value| {
      Places(items);
      InTheValue(cfg, st, mem, t, at, items);
    } else {
      WrongBounds(items, at, mem, pos);
      Places(items);
      RightBefore(items, at, mem, pos, CHANNEL_DATA_SIZE + |it.value|);
      WrongInRest(items, at, mem, pos);
      WholeUpdate(cfg, st, mem, at, it);
      var st1 := st.(channels := st.channels[it.id := Channel(it.count == MINUS_ONE_16, st.now)]);
      if t >= end {
        UnsafeArrives(cfg, st1, mem, t, end, items[1..]);
      } else {
        PastTheEnd(cfg, st1, mem, t, end, items[1..]);
      }
      FirstEvents(cfg, st, mem, t, at, |items|);
      DeliveredStep(items);
      var more := Items(cfg, st1, mem, t, Cursor(end, true), |items| - 1).events;
      NotPrefix(Delivered(it), more, DeliveredAll(items[1..]));
    }
  }

  lemma NotPrefix(e: Event, a: seq<Event>, b: seq<Event>)
    requires !(a <= b)
    ensures !([e] + a <= [e] + b)
  {
    var a', b' := [e] + a, [e] + b;
    assert a == a'[1..] && b == b'[1..];
    if |a| <= |b| {
      assert b'[..|a'|][1..] == b[..|a|];
    }
  }

  lemma HeaderFits(cfg: Config, it: Item, channels: nat)
    requires WireOk(cfg.size, it)
    ensures ItemFits(it)
  {
  }

  lemma ValueInside(items: seq<Item>)
    requires items != []
    ensures CHANNEL_DATA_SIZE + |items[0].value| <= |ItemsBytes(items)|
  {
    Places(items);
  }

  lemma WrongBounds(items: seq<Item>, at: nat, mem: seq<Byte>, pos: nat)
    requires WrongAt(items, at, mem, pos)
    ensures at % 8 == 0 && at <= pos < at + |ItemsBytes(items)| <= |mem|
  {
  }

  lemma NextHeaderWrong(items: seq<Item>, at: nat, mem: seq<Byte>)
    requires items != [] && WrongAt(items, at, mem, at + 6)
    ensures mem[at..at + 6] == ChannelDataBytes(items[0])[..6] && mem[at + 6] != ChannelDataBytes(items[0])[6]
  {
    hide ChannelDataBytes;
    var all := ItemsBytes(items);
    assert all[..CHANNEL_DATA_SIZE] == ChannelDataBytes(items[0]);
    assert mem[at..at + 6] == all[..6];
  }

  // ---------------------------------------------------------------- whole packets

  /** A data packet of which only the first t bytes were received, wherever the rest of the buffer comes from. */
  ghost predicate CutPacket(p: Packet, t: nat, mem: seq<Byte>) {
    t <= |p| <= |mem| == MAX_MESSAGE_SIZE && mem[..t] == p[..t]
  }

  /** Up to the first update a cut data packet is parsed like a whole one. */
  lemma CutHeader(cfg: Config, st: State, mem: seq<Byte>, startup: nat, seqNo: nat, items: seq<Item>, t: nat)
    requires seqNo < U16 && |items| < U16 && st.startup <= startup < U64 && cfg.hash < U64
    requires CutPacket(DataPacket(HeaderBytes(startup, cfg.hash), seqNo, items), t, mem) && t >= ITEMS_START
    requires InWindow(seqNo, FromSender(st, startup).0.lastSeq)
    ensures Receive(cfg, st, mem, t)
            == Items(cfg, FromSender(st, startup).0.(lastSeq := seqNo), mem, t, Cursor(ITEMS_START, true), |items|)
    ensures ITEMS_START + |ItemsBytes(items)| <= |mem| && t - ITEMS_START <= |ItemsBytes(items)|
    ensures mem[ITEMS_START..t] == ItemsBytes(items)[..t - ITEMS_START]
  {
    hide HeaderBytes, ItemsBytes, SubheaderBytes, LE, Submessages, Receive, Items, InWindow;
    var hdr := HeaderBytes(startup, cfg.hash);
    var p := DataPacket(hdr, seqNo, items);
    var sub, a, b := SubheaderBytes(CA_DATA_MESSAGE), LE(seqNo, 2), LE(|items|, 2);
    assert mem[0..ITEMS_START] == mem[..t][..ITEMS_START] == p[..ITEMS_START] == hdr + sub + a + b;
    assert mem[ITEMS_START..t] == mem[..t][ITEMS_START..] == p[ITEMS_START..t];
    assert p[ITEMS_START..] == ItemsBytes(items);
    assert p[ITEMS_START..t] == ItemsBytes(items)[..t - ITEMS_START];
    SplitMemory(mem, 0, hdr + sub + a, b);
    SplitMemory(mem, 0, hdr + sub, a);
    SplitMemory(mem, 0, hdr, sub);
    assert mem[..HEADER_SIZE] == mem[0..HEADER_SIZE];
    HeaderAccepted(cfg, st, mem, t, startup);
    LastSubmessage(cfg, FromSender(st, startup).0, mem, t, HEADER_SIZE, CA_DATA_MESSAGE);
    PowValues();
    UintRoundTrip(mem, MESSAGE_START, seqNo, 2);
    UintRoundTrip(mem, COUNT_START, |items|, 2);
  }

  /** The packet followed by old bytes, with one byte changed. */
  function Spoiled(p: Packet, pos: nat): (mem: seq<Byte>)
    requires pos < |p| <= MAX_MESSAGE_SIZE
    ensures |mem| == MAX_MESSAGE_SIZE
  {
    var b: int := p[pos];
    (p + Zeros(MAX_MESSAGE_SIZE - |p|))[pos := (b + 1) % 256]
  }

  lemma SpoiledIsWrong(hdr: seq<Byte>, seqNo: nat, items: seq<Item>, t: nat, pos: nat)
    requires |hdr| == HEADER_SIZE && |DataPacket(hdr, seqNo, items)| <= MAX_MESSAGE_SIZE
    requires ITEMS_START <= t <= pos < |DataPacket(hdr, seqNo, items)|
    ensures var p := DataPacket(hdr, seqNo, items);
            CutPacket(p, t, Spoiled(p, pos)) && WrongAt(items, ITEMS_START, Spoiled(p, pos), pos)
  {
    hide ItemsBytes, LE, SubheaderBytes;
    var p := DataPacket(hdr, seqNo, items);
    var all, mem := ItemsBytes(items), Spoiled(p, pos);
    assert p[ITEMS_START..] == all;
    forall i | ITEMS_START <= i < |p| && i != pos ensures mem[i] == all[i - ITEMS_START] {
      assert p[ITEMS_START..][i - ITEMS_START] == p[i];
    }
    assert p[ITEMS_START..][pos - ITEMS_START] == p[pos];
    assert mem[..t] == p[..t];
  }

  /**
   A data packet cut after t bytes, t past its message header: the receiver reports a prefix of the updates that were
   sent, and nothing else, whatever its buffer held before, exactly when the cut is in the header of an update or in
   the padding behind the last update. In all other places it reports something that was never received.
   */
  lemma CutIsHarmlessIff(cfg: Config, st: State, startup: nat, seqNo: nat, items: seq<Item>, t: nat)
    requires AllOk(cfg, |st.channels|, items) && |items| < U16 && seqNo < U16
    requires st.startup <= startup < U64 && cfg.hash < U64 && InWindow(seqNo, FromSender(st, startup).0.lastSeq)
    requires var p := DataPacket(HeaderBytes(startup, cfg.hash), seqNo, items);
             ITEMS_START <= t < |p| <= MAX_MESSAGE_SIZE
    ensures (forall mem :: CutPacket(DataPacket(HeaderBytes(startup, cfg.hash), seqNo, items), t, mem) ==>
               Receive(cfg, st, mem, t).events <= DeliveredAll(items))
            <==> SafeCut(items, ITEMS_START, t)
  {
    hide HeaderBytes, ItemsBytes, Receive, DataPacket, DeliveredAll, SafeCut, InWindow, AllOk;
    var hdr := HeaderBytes(startup, cfg.hash);
    var p := DataPacket(hdr, seqNo, items);
    var st1 := FromSender(st, startup).0.(lastSeq := seqNo);
    SizeOfData(hdr, seqNo, items);
    if SafeCut(items, ITEMS_START, t) {
      forall mem | CutPacket(p, t, mem) ensures Receive(cfg, st, mem, t).events <= DeliveredAll(items) {
        CutHeader(cfg, st, mem, startup, seqNo, items, t);
        SafeArrives(cfg, st1, mem, t, ITEMS_START, items);
      }
    } else {
      var mem := UnsafeCut(cfg, st, startup, seqNo, items, t);
    }
  }

  lemma UnsafeCut(cfg: Config, st: State, startup: nat, seqNo: nat, items: seq<Item>, t: nat) returns (mem: seq<Byte>)
    requires AllOk(cfg, |st.channels|, items) && |items| < U16 && seqNo < U16
    requires st.startup <= startup < U64 && cfg.hash < U64 && InWindow(seqNo, FromSender(st, startup).0.lastSeq)
    requires var p := DataPacket(HeaderBytes(startup, cfg.hash), seqNo, items);
             ITEMS_START <= t < |p| <= MAX_MESSAGE_SIZE
    requires !SafeCut(items, ITEMS_START, t)
    ensures CutPacket(DataPacket(HeaderBytes(startup, cfg.hash), seqNo, items), t, mem)
    ensures !(Receive(cfg, st, mem, t).events <= DeliveredAll(items))
  {
    hide HeaderBytes, ItemsBytes, Receive, DataPacket, DeliveredAll, SafeCut, InWindow, AllOk, WrongAt, Spoiled, Items;
    var hdr := HeaderBytes(startup, cfg.hash);
    var p := DataPacket(hdr, seqNo, items);
    SizeOfData(hdr, seqNo, items);
    MisreadInside(items, ITEMS_START, t);
    var pos := Misread(items, ITEMS_START, t);
    mem := Spoiled(p, pos);
    SpoiledIsWrong(hdr, seqNo, items, t, pos);
    CutHeader(cfg, st, mem, startup, seqNo, items, t);
    UnsafeArrives(cfg, FromSender(st, startup).0.(lastSeq := seqNo), mem, t, ITEMS_START, items);
  }

  // ---------------------------------------------------------------- fragments

  /** What the receiver makes of a fragment whose bytes are data. */
  function FragmentOutcome(cfg: Config, st: State, startup: nat, f: FragInfo, data: seq<Byte>): Outcome {
    var (st1, ok) := FragOrdered(FromSender(st, startup).0, f.seqNo, f.fragNo);
    var (st2, events) := if ok then TakeFragment(cfg, st1, f, data) else (st1, []);
    Outcome(st2, Cursor(FRAGMENT_START, true), events, false)
  }

  /** A cut fragment is taken for a whole one: its announced number of bytes comes from the buffer, received or not. */
  lemma CutFragment(cfg: Config, st: State, mem: seq<Byte>, startup: nat, f: FragInfo, data: seq<Byte>, t: nat)
    requires FragFits(f) && |data| == f.size && st.startup <= startup < U64 && cfg.hash < U64 && t >= FRAGMENT_START
    requires CutPacket(FragPacket(HeaderBytes(startup, cfg.hash), f, data), t, mem)
    ensures FRAGMENT_START + f.size <= |mem|
    ensures Receive(cfg, st, mem, t)
         == FragmentOutcome(cfg, st, startup, f, mem[FRAGMENT_START..FRAGMENT_START + f.size])
  {
    hide HeaderBytes, SubheaderBytes, FragInfoBytes, FragInfoAt, FragOrdered, StartSet, Submessages, Receive;
    var hdr := HeaderBytes(startup, cfg.hash);
    var p := FragPacket(hdr, f, data);
    var sub, info := SubheaderBytes(CA_FRAG_DATA_MESSAGE), FragInfoBytes(f);
    assert mem[0..FRAGMENT_START] == mem[..t][..FRAGMENT_START] == p[..FRAGMENT_START] == hdr + sub + info;
    SplitMemory(mem, 0, hdr + sub, info);
    SplitMemory(mem, 0, hdr, sub);
    assert mem[..HEADER_SIZE] == mem[0..HEADER_SIZE];
    HeaderAccepted(cfg, st, mem, t, startup);
    LastSubmessage(cfg, FromSender(st, startup).0, mem, t, HEADER_SIZE, CA_FRAG_DATA_MESSAGE);
    FragInfoRoundTrip(mem, MESSAGE_START, f);
  }

  /** The fragment is next in order, and there is room for it in the value. */
  predicate Wanted(cfg: Config, st: State, f: FragInfo) {
    var (st1, ok) := FragOrdered(st, f.seqNo, f.fragNo);
    ok && if f.fragNo == 0 then f.size <= cfg.size(f.typ, f.count) else |st1.fragData| + f.size <= st1.fragTotal
  }

  lemma OtherBytesOtherState(cfg: Config, st: State, startup: nat, f: FragInfo, a: seq<Byte>, b: seq<Byte>)
    requires Wanted(cfg, FromSender(st, startup).0, f) && |a| == |b| == f.size && a != b
    ensures FragmentOutcome(cfg, st, startup, f, a) != FragmentOutcome(cfg, st, startup, f, b)
  {
    hide FragOrdered;
    var (st1, ok) := FragOrdered(FromSender(st, startup).0, f.seqNo, f.fragNo);
    var front := if f.fragNo == 0 then [] else st1.fragData;
    assert (front + a)[|front|..] == a && (front + b)[|front|..] == b;
  }

  lemma SpoiledFragment(hdr: seq<Byte>, f: FragInfo, data: seq<Byte>, t: nat)
    requires |hdr| == HEADER_SIZE && |data| == f.size && |FragPacket(hdr, f, data)| <= MAX_MESSAGE_SIZE
    requires FRAGMENT_START <= t < FRAGMENT_START + f.size
    ensures var p := FragPacket(hdr, f, data);
            && CutPacket(p, t, Spoiled(p, t))
            && Spoiled(p, t)[FRAGMENT_START..FRAGMENT_START + f.size] != data
  {
    hide SubheaderBytes, FragInfoBytes;
    var p := FragPacket(hdr, f, data);
    var mem := Spoiled(p, t);
    assert mem[..t] == p[..t];
    assert p[t] == data[t - FRAGMENT_START];
    assert mem[FRAGMENT_START..FRAGMENT_START + f.size][t - FRAGMENT_START] == mem[t];
  }

  /**
   A fragment that is wanted, cut after its message header, is taken as it was sent, whatever the buffer held before,
   exactly when only its padding was cut off.
   */
  lemma CutFragmentIsHarmlessIff(cfg: Config, st: State, startup: nat, f: FragInfo, data: seq<Byte>, t: nat)
    requires FragFits(f) && |data| == f.size && st.startup <= startup < U64 && cfg.hash < U64
    requires Wanted(cfg, FromSender(st, startup).0, f)
    requires FRAGMENT_START <= t < |FragPacket(HeaderBytes(startup, cfg.hash), f, data)| <= MAX_MESSAGE_SIZE
    ensures (forall mem :: CutPacket(FragPacket(HeaderBytes(startup, cfg.hash), f, data), t, mem) ==>
               Receive(cfg, st, mem, t) == FragmentOutcome(cfg, st, startup, f, data))
            <==> t >= FRAGMENT_START + f.size
  {
    hide HeaderBytes, Receive, FragPacket, Wanted, FragmentOutcome, FragFits;
    var hdr := HeaderBytes(startup, cfg.hash);
    var p := FragPacket(hdr, f, data);
    if t >= FRAGMENT_START + f.size {
      forall mem | CutPacket(p, t, mem) ensures Receive(cfg, st, mem, t) == FragmentOutcome(cfg, st, startup, f, data) {
        CutFragment(cfg, st, mem, startup, f, data, t);
        BytesReceived(hdr, f, data, t, mem);
      }
    } else {
      var mem := Spoiled(p, t);
      SpoiledFragment(hdr, f, data, t);
      CutFragment(cfg, st, mem, startup, f, data, t);
      OtherBytesOtherState(cfg, st, startup, f, mem[FRAGMENT_START..FRAGMENT_START + f.size], data);
    }
  }

  lemma BytesReceived(hdr: seq<Byte>, f: FragInfo, data: seq<Byte>, t: nat, mem: seq<Byte>)
    requires |hdr| == HEADER_SIZE && |data| == f.size && CutPacket(FragPacket(hdr, f, data), t, mem)
    requires t >= FRAGMENT_START + f.size
    ensures mem[FRAGMENT_START..FRAGMENT_START + f.size] == data
  {
    hide SubheaderBytes, FragInfoBytes;
    var p, n := FragPacket(hdr, f, data), FRAGMENT_START + f.size;
    assert mem[..t][FRAGMENT_START..n] == mem[FRAGMENT_START..n];
    assert p[..t][FRAGMENT_START..n] == p[FRAGMENT_START..n] == data;
  }

  // ---------------------------------------------------------------- short packets

  /** Parsing with a cleared flag, or at the very end, reports nothing. */
  lemma NothingLeft(cfg: Config, st: State, mem: seq<Byte>, n: nat, cur: Cursor)
    requires !cur.good || n - SUBMESSAGE_HEADER_SIZE < cur.pos <= n
    ensures Submessages(cfg, st, mem, n, cur).events == []
  {
    hide Message;
  }

  lemma NoRoomForMessage(cfg: Config, st: State, mem: seq<Byte>, n: nat, cur: Cursor, id: Byte)
    requires cur.pos <= n < cur.pos + DATA_MESSAGE_SIZE
    ensures var o := Message(cfg, st, mem, n, cur, id);
            o.events == [] && o.cur.pos == cur.pos && !o.wild
  {
    hide Items, FragInfoAt;
  }

  /** A packet of any content that is too short for a message header causes no callback at all. */
  lemma TooShort(cfg: Config, st: State, mem: seq<Byte>, n: nat)
    requires n < HEADER_SIZE + SUBMESSAGE_HEADER_SIZE + DATA_MESSAGE_SIZE && n <= |mem|
    ensures Receive(cfg, st, mem, n).events == []
  {
    hide HeaderAt, Message, Submessages;
    if n >= HEADER_SIZE {
      var st1, cur := FromSender(st, HeaderAt(mem, 0).startup).0, Cursor(HEADER_SIZE, true);
      if n < HEADER_SIZE + SUBMESSAGE_HEADER_SIZE {
        NothingLeft(cfg, st1, mem, n, cur);
      } else {
        var next := Cursor(HEADER_SIZE + SUBMESSAGE_HEADER_SIZE, true);
        NoRoomForMessage(cfg, st1, mem, n, next, mem[HEADER_SIZE]);
        SubmessagesStep(cfg, st1, mem, n, cur, []);
        var o := Message(cfg, st1, mem, n, next, mem[HEADER_SIZE]);
        NothingLeft(cfg, o.st, mem, n, o.cur);
        var all := Submessages(cfg, st1, mem, n, cur);
        assert Prepend([], all) == all;
      }
    }
  }

  /** A packet that begins with a fragment message and is too short for its header causes none either. */
  lemma TooShortForFragment(cfg: Config, st: State, mem: seq<Byte>, n: nat)
    requires MESSAGE_START <= n < FRAGMENT_START && n <= |mem| && mem[HEADER_SIZE] == CA_FRAG_DATA_MESSAGE
    ensures Receive(cfg, st, mem, n).events == []
  {
    hide HeaderAt, Message, Submessages;
    var st1, cur := FromSender(st, HeaderAt(mem, 0).startup).0, Cursor(HEADER_SIZE, true);
    var next := Cursor(MESSAGE_START, true);
    NoRoomForFragment(cfg, st1, mem, n, next);
    SubmessagesStep(cfg, st1, mem, n, cur, []);
    var o := Message(cfg, st1, mem, n, next, CA_FRAG_DATA_MESSAGE);
    NothingLeft(cfg, o.st, mem, n, o.cur);
    var all := Submessages(cfg, st1, mem, n, cur);
    assert Prepend([], all) == all;
  }

  lemma NoRoomForFragment(cfg: Config, st: State, mem: seq<Byte>, n: nat, cur: Cursor)
    requires cur.pos <= n < cur.pos + FRAG_MESSAGE_SIZE
    ensures Message(cfg, st, mem, n, cur, CA_FRAG_DATA_MESSAGE) == Outcome(st, Cursor(cur.pos, false), [], false)
  {
  }
}
