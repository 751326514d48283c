/**
 From queue to callbacks: the packets that the sender makes of its queue, fed to the receiver in order, call back once
 for every update, in queue order, with the bytes that the channels hold.
 */
module EndToEnd {
  import opened Bytes
  import opened Protocol
  import Layout
  import SenderQueue
  import opened Packing
  import opened Receiver

  // ---------------------------------------------------------------- what should arrive

  /** A channel update that carries what its type and count announce. */
  ghost predicate WireOk(size: SizeOf, it: Item) {
    && ItemFits(it)
    && (if it.count == MINUS_ONE_16 then it.value == [] else |it.value| == size(it.typ, it.count))
  }

  function Delivered(it: Item): Event {
    Update(it.id, it.typ, if it.count == MINUS_ONE_16 then MINUS_ONE_32 else it.count, it.value)
  }

  function DeliveredAll(items: seq<Item>): (events: seq<Event>)
    ensures |events| == |items|
  {
    seq(|items|, i requires 0 <= i < |items| => Delivered(items[i]))
  }

  /** The receiver's channels after some updates at time now. */
  function Touched(channels: seq<Channel>, items: seq<Item>, now: int): (r: seq<Channel>)
    requires forall i :: 0 <= i < |items| ==> items[i].id < |channels|
    ensures |r| == |channels|
    decreases |items|
  {
    if items == [] then channels
    else
      Touched(channels[items[0].id := Channel(items[0].count == MINUS_ONE_16, now)], items[1..], now)
  }

  ghost predicate AllOk(cfg: Config, channels: nat, items: seq<Item>) {
    forall i :: 0 <= i < |items| ==> WireOk(cfg.size, items[i]) && items[i].id < channels
  }

  // ---------------------------------------------------------------- data packets

  /** One update found in memory where its encoding lies. */
  lemma ItemInMemory(cfg: Config, st: State, mem: seq<Byte>, at: nat, it: Item)
    requires at % 8 == 0 && at + |ItemBytes(it)| <= |mem| && mem[at..at + |ItemBytes(it)|] == ItemBytes(it)
    requires WireOk(cfg.size, it) && it.id < |st.channels|
    ensures var it' := ChannelDataAt(mem, at);
            && it' == it.(value := [])
            && Up8(at + CHANNEL_DATA_SIZE + DataSize(cfg, it')) == at + |ItemBytes(it)|
            && Apply(cfg, st, it', mem, at + CHANNEL_DATA_SIZE)
               == (st.(channels := st.channels[it.id := Channel(it.count == MINUS_ONE_16, st.now)]), [Delivered(it)])
  {
    hide ChannelDataBytes, ChannelDataAt, LE;
    var pad := Zeros(Pad8(|it.value|));
    SplitMemory(mem, at, ChannelDataBytes(it) + it.value, pad);
    SplitMemory(mem, at, ChannelDataBytes(it), it.value);
    ChannelDataRoundTrip(mem, at, it);
    Up8Shift(at, CHANNEL_DATA_SIZE + |it.value|);
  }

  /** Every update of a data message arrives once, in order, whole and at an 8-byte boundary. */
  lemma {:induction false} ItemsArrive(cfg: Config, st: State, mem: seq<Byte>, limit: nat, at: nat, items: seq<Item>)
    requires AllOk(cfg, |st.channels|, items)
    requires at % 8 == 0 && at + |ItemsBytes(items)| == limit <= |mem| && limit < U64
    requires mem[at..limit] == ItemsBytes(items)
    ensures Items(cfg, st, mem, limit, Cursor(at, true), |items|)
            == Outcome(st.(channels := Touched(st.channels, items, st.now)), Cursor(limit, true),
                       DeliveredAll(items), false)
    decreases |items|
  {
    hide ItemBytes, ChannelDataAt, Apply, DataSize, Items, DeliveredAll, Touched, WireOk;
    DeliveredStep(items);
    if items != [] {
      var it, rest := items[0], items[1..];
      TouchedStep(st.channels, items, st.now);
      SplitMemory(mem, at, ItemBytes(it), ItemsBytes(rest));
      ItemInMemory(cfg, st, mem, at, it);
      var at1 := at + |ItemBytes(it)|;
      var st1 := st.(channels := st.channels[it.id := Channel(it.count == MINUS_ONE_16, st.now)]);
      ItemsArrive(cfg, st1, mem, limit, at1, rest);
      ItemsStep(cfg, st, mem, limit, Cursor(at, true), |items|, []);
      var o := Items(cfg, st, mem, limit, Cursor(at, true), |items|);
      assert Prepend([], o) == o && [] + [Delivered(it)] == [Delivered(it)];
    } else {
      TouchedNone(st.channels, st.now);
      ItemsEnd(cfg, st, mem, limit, Cursor(at, true));
    }
  }

  lemma DeliveredStep(items: seq<Item>)
    ensures DeliveredAll(items) == if items == [] then [] else [Delivered(items[0])] + DeliveredAll(items[1..])
  {
  }

  lemma TouchedStep(channels: seq<Channel>, items: seq<Item>, now: int)
    requires items != [] && forall i :: 0 <= i < |items| ==> items[i].id < |channels|
    ensures Touched(channels, items, now)
            == Touched(channels[items[0].id := Channel(items[0].count == MINUS_ONE_16, now)], items[1..], now)
  {
  }

  lemma TouchedNone(channels: seq<Channel>, now: int)
    ensures Touched(channels, [], now) == channels
  {
  }

  /** The sender that the receiver listens to, or a newer one, announces itself. */
  lemma HeaderAccepted(cfg: Config, st: State, mem: seq<Byte>, n: nat, startup: nat)
    requires HEADER_SIZE <= n <= |mem| && mem[..HEADER_SIZE] == HeaderBytes(startup, cfg.hash)
    requires st.startup <= startup < U64 && cfg.hash < U64
    ensures Receive(cfg, st, mem, n) == Submessages(cfg, FromSender(st, startup).0, mem, n, Cursor(HEADER_SIZE, true))
  {
    hide Submessages, HeaderBytes, HeaderAt;
    HeaderRoundTrip(mem, startup, cfg.hash);
  }

  /** The header of a submessage that extends to the end of its packet. */
  lemma SubheaderFound(mem: seq<Byte>, at: nat, id: Byte)
    requires at + SUBMESSAGE_HEADER_SIZE <= |mem| && mem[at..at + SUBMESSAGE_HEADER_SIZE] == SubheaderBytes(id)
    ensures mem[at] == id && mem[at + 1] == LITTLE_ENDIAN && UintAt(mem, at + 2, 2) == 0
  {
    SplitMemory(mem, at, [id, LITTLE_ENDIAN], LE(0, 2));
    assert mem[at] == mem[at..at + 2][0] && mem[at + 1] == mem[at..at + 2][1];
    PowValues();
    UintRoundTrip(mem, at + 2, 0, 2);
  }

  /** A submessage that extends to the end of its packet, wherever it begins. */
  lemma LastSubmessage(cfg: Config, st: State, mem: seq<Byte>, limit: nat, at: nat, id: Byte)
    requires at + SUBMESSAGE_HEADER_SIZE <= limit <= |mem| && limit < U64
    requires mem[at..at + SUBMESSAGE_HEADER_SIZE] == SubheaderBytes(id)
    ensures Submessages(cfg, st, mem, limit, Cursor(at, true))
            == Message(cfg, st, mem, limit, Cursor(at + SUBMESSAGE_HEADER_SIZE, true), id)
  {
    hide Message;
    SubheaderFound(mem, at, id);
  }

  /** A data packet at the front of the receive buffer: accepted by its number, all of its updates arrive. */
  lemma DataArrives(cfg: Config, st: State, mem: seq<Byte>, startup: nat, seqNo: nat, items: seq<Item>)
    requires AllOk(cfg, |st.channels|, items) && |items| < U16 && seqNo < U16
    requires st.startup <= startup < U64 && cfg.hash < U64
    requires var p := DataPacket(HeaderBytes(startup, cfg.hash), seqNo, items);
             |p| <= |mem| && |p| < U64 && mem[..|p|] == p
    ensures var p := DataPacket(HeaderBytes(startup, cfg.hash), seqNo, items);
            var st1 := FromSender(st, startup).0;
            Receive(cfg, st, mem, |p|) ==
            if InWindow(seqNo, st1.lastSeq) then
              Outcome(st1.(lastSeq := seqNo, channels := Touched(st.channels, items, st.now)),
                      Cursor(|p|, true), DeliveredAll(items), false)
            else Outcome(st1.(lastSeq := seqNo), Cursor(ITEMS_START, true), [], false)
  {
    hide HeaderBytes, ItemsBytes, SubheaderBytes, LE, Submessages, Receive, Items, Touched, DeliveredAll;
    var hdr := HeaderBytes(startup, cfg.hash);
    var p := DataPacket(hdr, seqNo, items);
    var sub, a, b := SubheaderBytes(CA_DATA_MESSAGE), LE(seqNo, 2), LE(|items|, 2);
    assert mem[0..|p|] == mem[..|p|];
    SplitMemory(mem, 0, hdr + sub + a + b, ItemsBytes(items));
    SplitMemory(mem, 0, hdr + sub + a, b);
    SplitMemory(mem, 0, hdr + sub, a);
    SplitMemory(mem, 0, hdr, sub);
    assert mem[..HEADER_SIZE] == mem[0..HEADER_SIZE];
    HeaderAccepted(cfg, st, mem, |p|, startup);
    var st1 := FromSender(st, startup).0;
    LastSubmessage(cfg, st1, mem, |p|, HEADER_SIZE, CA_DATA_MESSAGE);
    PowValues();
    UintRoundTrip(mem, MESSAGE_START, seqNo, 2);
    UintRoundTrip(mem, COUNT_START, |items|, 2);
    ItemsArrive(cfg, st1.(lastSeq := seqNo), mem, |p|, ITEMS_START, items);
  }

  // ---------------------------------------------------------------- fragment packets

  /** A fragment packet at the front of the receive buffer: order check and reassembly see exactly what was sent. */
  lemma FragmentArrives(cfg: Config, st: State, mem: seq<Byte>, startup: nat, f: FragInfo, data: seq<Byte>)
    requires FragFits(f) && |data| == f.size && st.startup <= startup < U64 && cfg.hash < U64
    requires var p := FragPacket(HeaderBytes(startup, cfg.hash), f, data);
             |p| <= |mem| && |p| < U64 && mem[..|p|] == p
    ensures var p := FragPacket(HeaderBytes(startup, cfg.hash), f, data);
            var (st1, ok) := FragOrdered(FromSender(st, startup).0, f.seqNo, f.fragNo);
            var (st2, events) := if ok then TakeFragment(cfg, st1, f, data) else (st1, []);
            Receive(cfg, st, mem, |p|) == Outcome(st2, Cursor(FRAGMENT_START, true), events, false)
  {
    hide HeaderBytes, SubheaderBytes, FragInfoBytes, FragInfoAt, FragOrdered, StartSet, Submessages, Receive;
    var hdr := HeaderBytes(startup, cfg.hash);
    var p := FragPacket(hdr, f, data);
    var sub, info := SubheaderBytes(CA_FRAG_DATA_MESSAGE), FragInfoBytes(f);
    var pad := Zeros(Pad8(|hdr + sub + info + data|));
    assert mem[0..|p|] == mem[..|p|];
    SplitMemory(mem, 0, hdr + sub + info + data, pad);
    SplitMemory(mem, 0, hdr + sub + info, data);
    SplitMemory(mem, 0, hdr + sub, info);
    SplitMemory(mem, 0, hdr, sub);
    assert mem[..HEADER_SIZE] == mem[0..HEADER_SIZE];
    HeaderAccepted(cfg, st, mem, |p|, startup);
    LastSubmessage(cfg, FromSender(st, startup).0, mem, |p|, HEADER_SIZE, CA_FRAG_DATA_MESSAGE);
    FragInfoRoundTrip(mem, MESSAGE_START, f);
  }

  // ---------------------------------------------------------------- streams of packets

  /** The receive buffer after a datagram: what it does not overwrite stays from before. */
  function Load(mem: seq<Byte>, p: Packet): (r: seq<Byte>)
    requires |p| <= |mem|
    ensures |r| == |mem| && r[..|p|] == p
  {
    p + mem[|p|..]
  }

  ghost predicate Fit(packets: seq<Packet>, n: nat) {
    forall k :: 0 <= k < |packets| ==> |packets[k]| <= n
  }

  datatype Fed = Fed(st: State, mem: seq<Byte>, events: seq<Event>, wild: bool)

  /** The receiver fed with packets one after another. */
  ghost function Feed(cfg: Config, st: State, mem: seq<Byte>, packets: seq<Packet>): (r: Fed)
    requires Fit(packets, |mem|)
    ensures |r.mem| == |mem|
    decreases |packets|
  {
    if packets == [] then Fed(st, mem, [], false)
    else
      var m := Load(mem, packets[0]);
      var o := Receive(cfg, st, m, |packets[0]|);
      if o.wild then Fed(o.st, m, o.events, true)
      else
        var r := Feed(cfg, o.st, m, packets[1..]);
        r.(events := o.events + r.events)
  }

  lemma {:induction false} FeedConcat(cfg: Config, st: State, mem: seq<Byte>, a: seq<Packet>, b: seq<Packet>)
    requires Fit(a, |mem|) && Fit(b, |mem|) && !Feed(cfg, st, mem, a).wild
    ensures Fit(a + b, |mem|)
    ensures var x := Feed(cfg, st, mem, a);
            var y := Feed(cfg, x.st, x.mem, b);
            Feed(cfg, st, mem, a + b) == y.(events := x.events + y.events)
    decreases |a|
  {
    hide Receive, Load;
    if a == [] {
      assert a + b == b;
      assert [] + Feed(cfg, st, mem, b).events == Feed(cfg, st, mem, b).events;
    } else {
      var m := Load(mem, a[0]);
      var o := Receive(cfg, st, m, |a[0]|);
      FeedConcat(cfg, o.st, m, a[1..], b);
      assert (a + b)[0] == a[0] && (a + b)[1..] == a[1..] + b;
    }
  }

  lemma FeedOne(cfg: Config, st: State, mem: seq<Byte>, p: Packet, rest: seq<Packet>)
    requires |p| <= |mem| && Fit(rest, |mem|)
    ensures Fit([p] + rest, |mem|)
    ensures var m := Load(mem, p);
            var o := Receive(cfg, st, m, |p|);
            !o.wild ==>
              var r := Feed(cfg, o.st, m, rest);
              Feed(cfg, st, mem, [p] + rest) == r.(events := o.events + r.events)
  {
    hide Receive, Load;
    assert ([p] + rest)[1..] == rest;
  }

  // ---------------------------------------------------------------- fragment sets

  function FragInfoOf(c: Layout.Channel, seqNo: nat, k: nat, n: nat): FragInfo {
    FragInfo(seqNo, k % U16, c.index % U32, c.count % U32, c.typ % U16, n)
  }

  function FragEvent(c: Layout.Channel): Event {
    Update(c.index % U32, c.typ % U16, c.count % U32, c.value)
  }

  lemma {:induction false} FragmentsFit(hdr: seq<Byte>, c: Layout.Channel, seqNo: nat, k: nat, rest: seq<Byte>)
    requires |hdr| == HEADER_SIZE
    ensures Fit(Fragments(hdr, c, seqNo, k, rest), MAX_MESSAGE_SIZE)
    decreases |rest|
  {
    if rest != [] {
      var n := if |rest| <= FRAGMENT_ROOM then |rest| else FRAGMENT_ROOM;
      FragmentsFit(hdr, c, seqNo, k + 1, rest[n..]);
    }
  }

  /** What the receiver is like after a set has been reassembled. */
  ghost predicate SameBut(st: State, st': State, seqNo: nat) {
    st'.startup == st.startup && st'.channels == st.channels && st'.now == st.now && st'.lastSeq == seqNo
  }

  /** One fragment taken off a set: what the receiver makes of it, and what is left to be fed. */
  lemma OneFragment(cfg: Config, st: State, mem: seq<Byte>, c: Layout.Channel, seqNo: nat, k: nat, rest: seq<Byte>)
    returns (n: nat, m: seq<Byte>)
    requires st.startup < U64 && cfg.hash < U64 && seqNo < U16 && |mem| == MAX_MESSAGE_SIZE && rest != []
    ensures n == (if |rest| <= FRAGMENT_ROOM then |rest| else FRAGMENT_ROOM) && |m| == |mem|
    ensures var hdr := HeaderBytes(st.startup, cfg.hash);
            var f, more := FragInfoOf(c, seqNo, k, n), Fragments(hdr, c, seqNo, k + 1, rest[n..]);
            var (st1, ok) := FragOrdered(st, f.seqNo, f.fragNo);
            var (st2, events) := if ok then TakeFragment(cfg, st1, f, rest[..n]) else (st1, []);
            && Fit(Fragments(hdr, c, seqNo, k, rest), |mem|) && Fit(more, |m|)
            && var r := Feed(cfg, st2, m, more);
               Feed(cfg, st, mem, Fragments(hdr, c, seqNo, k, rest)) == r.(events := events + r.events)
  {
    hide Receive, Load, FragPacket, HeaderBytes, Feed, FragOrdered, TakeFragment;
    var hdr := HeaderBytes(st.startup, cfg.hash);
    n := if |rest| <= FRAGMENT_ROOM then |rest| else FRAGMENT_ROOM;
    var f, data, more := FragInfoOf(c, seqNo, k, n), rest[..n], Fragments(hdr, c, seqNo, k + 1, rest[n..]);
    var p := FragPacket(hdr, f, data);
    FragmentsFit(hdr, c, seqNo, k, rest);
    FragmentsFit(hdr, c, seqNo, k + 1, rest[n..]);
    assert Fragments(hdr, c, seqNo, k, rest) == [p] + more;
    assert |([p] + more)[0]| <= |mem|;
    m := Load(mem, p);
    LoadFront(mem, p);
    FragmentArrives(cfg, st, m, st.startup, f, data);
    FeedOne(cfg, st, mem, p, more);
  }

  lemma NoMoreFragments(cfg: Config, st: State, mem: seq<Byte>, hdr: seq<Byte>, c: Layout.Channel, seqNo: nat, k: nat)
    ensures Feed(cfg, st, mem, Fragments(hdr, c, seqNo, k, [])) == Fed(st, mem, [], false)
  {
  }

  /** The rest of a fragment set, when the receiver is in the middle of it. */
  lemma {:induction false} RestArrives(cfg: Config, st: State, mem: seq<Byte>, c: Layout.Channel, seqNo: nat, k: nat,
                                       rest: seq<Byte>)
    requires st.startup < U64 && cfg.hash < U64 && seqNo < U16 && |mem| == MAX_MESSAGE_SIZE
    requires 0 < k && rest != [] && |rest| <= (U16 - k) * FRAGMENT_ROOM
    requires st.active == seqNo && st.lastFrag == k - 1 && st.fragData + rest == c.value && st.fragTotal == |c.value|
    ensures var packets := Fragments(HeaderBytes(st.startup, cfg.hash), c, seqNo, k, rest);
            && Fit(packets, |mem|)
            && var r := Feed(cfg, st, mem, packets);
               !r.wild && r.events == [FragEvent(c)] && SameBut(st, r.st, st.lastSeq)
    decreases |rest|
  {
    hide HeaderBytes, Feed, Fragments;
    var n, m := OneFragment(cfg, st, mem, c, seqNo, k, rest);
    var st1 := st.(lastFrag := k, fragData := st.fragData + rest[..n]);
    assert st.fragData + rest == st1.fragData + rest[n..];
    if n < |rest| {
      RestArrives(cfg, st1, m, c, seqNo, k + 1, rest[n..]);
    } else {
      assert rest[n..] == [] && rest[..n] == rest;
      NoMoreFragments(cfg, st1, m, HeaderBytes(st.startup, cfg.hash), c, seqNo, k + 1);
    }
  }

  lemma LoadFront(mem: seq<Byte>, p: Packet)
    requires |p| <= |mem|
    ensures |Load(mem, p)| == |mem| && Load(mem, p)[..|p|] == p
  {
  }

  lemma FeedNone(cfg: Config, st: State, mem: seq<Byte>)
    ensures Feed(cfg, st, mem, []) == Fed(st, mem, [], false)
  {
  }

  /**
   Fragment round trip: the packets of one oversized value, in order and none lost, make one callback with exactly its
   bytes, for every value that needs no more than 65536 fragments.
   */
  lemma SetArrives(cfg: Config, st: State, mem: seq<Byte>, c: Layout.Channel, seqNo: nat)
    requires st.startup < U64 && cfg.hash < U64 && seqNo < U16 && |mem| == MAX_MESSAGE_SIZE
    requires InWindow(seqNo, st.lastSeq)
    requires c.value != [] && |c.value| <= U16 * FRAGMENT_ROOM && cfg.size(c.typ % U16, c.count % U32) == |c.value|
    ensures var packets := Fragments(HeaderBytes(st.startup, cfg.hash), c, seqNo, 0, c.value);
            && Fit(packets, |mem|)
            && var r := Feed(cfg, st, mem, packets);
               !r.wild && r.events == [FragEvent(c)] && SameBut(st, r.st, seqNo)
  {
    hide HeaderBytes, Feed, Fragments;
    var rest := c.value;
    var n, m := OneFragment(cfg, st, mem, c, seqNo, 0, rest);
    var st1 := st.(lastSeq := seqNo, active := seqNo, lastFrag := 0, fragData := rest[..n], fragTotal := |c.value|);
    assert [] + rest[..n] == rest[..n] && rest[..n] + rest[n..] == rest;
    if n < |rest| {
      RestArrives(cfg, st1, m, c, seqNo, 1, rest[n..]);
    } else {
      assert rest[n..] == [] && rest[..n] == rest;
      NoMoreFragments(cfg, st1, m, HeaderBytes(st.startup, cfg.hash), c, seqNo, 1);
    }
  }

  // ---------------------------------------------------------------- whole drains

  /** dbr_size_n never says less than one byte for each element, nor nothing at all. */
  ghost predicate SizesOk(size: SizeOf) {
    forall t: nat, n: nat :: size(t, n) >= 1 && size(t, n) >= n
  }

  /** A channel is disconnected and empty, or holds a value of the size that its type and count announce. */
  ghost predicate ChannelOk(size: SizeOf, c: Layout.Channel) {
    || (c.count == -1 && c.value == [])
    || (0 <= c.count < U32 && |c.value| == size(c.typ % U16, c.count) && |c.value| <= U16 * FRAGMENT_ROOM)
  }

  ghost predicate ChannelsOk(size: SizeOf, ch: seq<Layout.Channel>) {
    forall i :: 0 <= i < |ch| ==> ChannelOk(size, ch[i])
  }

  /** The callbacks that one queued record is good for. */
  function RecordEvents(ch: seq<Layout.Channel>, r: nat): seq<Event>
    requires r < |ch|
  {
    if Oversized(ch[r]) then [FragEvent(ch[r])] else DeliveredAll(GroupItems(Group(ch, r)))
  }

  function QueueEvents(ch: seq<Layout.Channel>, q: seq<nat>): seq<Event>
    requires Queued(ch, q)
  {
    if q == [] then [] else RecordEvents(ch, q[0]) + QueueEvents(ch, q[1..])
  }

  lemma {:induction false} QueueEventsSplit(ch: seq<Layout.Channel>, q: seq<nat>, n: nat)
    requires Queued(ch, q) && n <= |q|
    ensures Queued(ch, q[..n]) && Queued(ch, q[n..])
    ensures QueueEvents(ch, q) == QueueEvents(ch, q[..n]) + QueueEvents(ch, q[n..])
  {
    hide RecordEvents;
    if n == 0 {
      assert q[..0] == [] && q[0..] == q;
    } else {
      QueueEventsSplit(ch, q[1..], n - 1);
      assert q[..n][1..] == q[1..][..n - 1] && q[n..] == q[1..][n - 1..];
    }
  }

  /** The count of a connected value that travels unfragmented is never the disconnect code. */
  lemma WireItemOk(cfg: Config, c: Layout.Channel)
    requires SizesOk(cfg.size) && ChannelOk(cfg.size, c) && !Oversized(c)
    ensures WireOk(cfg.size, WireItem(c))
    ensures WireItem(c).count == MINUS_ONE_16 <==> c.count == -1
  {
    if c.count != -1 {
      assert cfg.size(c.typ % U16, c.count) >= c.count;
    }
  }

  lemma {:induction false} ValueSizeAtLeast(g: seq<Layout.Channel>, i: nat)
    requires i < |g|
    ensures ValueSize(g) >= |g[i].value|
  {
    if i < |g| - 1 {
      ValueSizeAtLeast(g[..|g| - 1], i);
    }
  }

  /** A group that is not too large travels as updates that are all in order. */
  lemma GroupOk(cfg: Config, ch: seq<Layout.Channel>, r: nat)
    requires SizesOk(cfg.size) && ChannelsOk(cfg.size, ch) && Layout.WellLaid(ch) && |ch| <= U32
    requires r < |ch| && ValueSize(Group(ch, r)) <= MAX_DATA_SIZE
    ensures AllOk(cfg, |ch|, GroupItems(Group(ch, r))) && !Oversized(ch[r])
  {
    var g := Group(ch, r);
    forall i: nat | i < |g| ensures WireOk(cfg.size, WireItem(g[i])) && WireItem(g[i]).id < |ch| {
      assert g[i] == ch[r + i];
      assert Layout.LaidAt(ch, r + i);
      ValueSizeAtLeast(g, i);
      WireItemOk(cfg, g[i]);
    }
    ValueSizeAtLeast(g, 0);
  }

  /** The updates of a data packet: in order, within the room, and the callbacks of the groups that it carries. */
  lemma {:induction false} FilledOk(cfg: Config, ch: seq<Layout.Channel>, q: seq<nat>, room: nat)
    requires SizesOk(cfg.size) && ChannelsOk(cfg.size, ch) && |ch| <= U32 && Queued(ch, q)
    ensures var n := Fill(ch, q, room);
            && Queued(ch, q[..n])
            && var items := QueueItems(ch, q[..n]);
               && AllOk(cfg, |ch|, items) && |ItemsBytes(items)| <= room
               && DeliveredAll(items) == QueueEvents(ch, q[..n])
    decreases |q|
  {
    hide GroupItems, ItemsBytes, AlignedSize, ValueSize, Group;
    var n := Fill(ch, q, room);
    if n == 0 {
      assert q[..0] == [];
      NoItems();
    } else {
      var g := Group(ch, q[0]);
      var size := AlignedSize(g);
      var first, rest := GroupItems(g), QueueItems(ch, q[1..][..n - 1]);
      FilledOk(cfg, ch, q[1..], room - size);
      GroupOk(cfg, ch, q[0]);
      ReservedIsWritten(g);
      ItemsBytesConcat(first, rest);
      assert q[..n][1..] == q[1..][..n - 1];
      assert QueueItems(ch, q[..n]) == first + rest;
      DeliveredConcat(first, rest);
    }
  }

  lemma NoItems()
    ensures ItemsBytes([]) == [] && DeliveredAll([]) == []
  {
  }

  lemma DeliveredConcat(a: seq<Item>, b: seq<Item>)
    ensures DeliveredAll(a + b) == DeliveredAll(a) + DeliveredAll(b)
  {
  }

  lemma NextInWindow(s: nat)
    ensures Next(s) < U16 && (s < U16 ==> InWindow(Next(s), s))
  {
  }

  /** What a lossless stretch of a session leaves behind: the receiver is ready for the sender's next number. */
  ghost predicate InStep(st: State, st': State, startup: nat, seqNo: nat) {
    && st'.startup == startup && |st'.channels| == |st.channels| && st'.now == st.now
    && seqNo < U16 && InWindow(seqNo, st'.lastSeq)
  }

  /** Everything that the sender promises about its channels and the receiver about its configuration. */
  ghost predicate Agree(cfg: Config, ch: seq<Layout.Channel>, q: seq<nat>) {
    SizesOk(cfg.size) && ChannelsOk(cfg.size, ch) && |ch| <= U32 && cfg.hash < U64 && Queued(ch, q)
  }

  lemma OversizedOk(cfg: Config, ch: seq<Layout.Channel>, r: nat)
    requires SizesOk(cfg.size) && ChannelsOk(cfg.size, ch) && r < |ch| && Oversized(ch[r])
    ensures ch[r].value != [] && |ch[r].value| <= U16 * FRAGMENT_ROOM
    ensures cfg.size(ch[r].typ % U16, ch[r].count % U32) == |ch[r].value|
  {
    assert ChannelOk(cfg.size, ch[r]);
  }

  lemma {:induction false} SetsArrive(cfg: Config, st: State, mem: seq<Byte>, ch: seq<Layout.Channel>, q: seq<nat>,
                                      seqNo: nat)
    requires Agree(cfg, ch, q) && |mem| == MAX_MESSAGE_SIZE && st.startup < U64
    requires seqNo < U16 && InWindow(seqNo, st.lastSeq)
    requires forall k :: 0 <= k < |q| ==> Oversized(ch[q[k]])
    ensures var packets := FragmentSets(HeaderBytes(st.startup, cfg.hash), ch, q, seqNo);
            && Fit(packets, |mem|)
            && var r := Feed(cfg, st, mem, packets);
               && !r.wild && r.events == QueueEvents(ch, q)
               && InStep(st, r.st, st.startup, Later(seqNo, |q|))
    decreases |q|
  {
    hide HeaderBytes, Fragments, InWindow, SizesOk, ChannelsOk, Next, Feed, FragEvent, Later;
    LaterSteps(seqNo, 0);
    if q == [] {
      FeedNone(cfg, st, mem);
    } else {
      LaterSteps(seqNo, |q| - 1);
      var hdr, c := HeaderBytes(st.startup, cfg.hash), ch[q[0]];
      OversizedOk(cfg, ch, q[0]);
      SetArrives(cfg, st, mem, c, seqNo);
      var a := Fragments(hdr, c, seqNo, 0, c.value);
      var x := Feed(cfg, st, mem, a);
      NextInWindow(seqNo);
      SetsArrive(cfg, x.st, x.mem, ch, q[1..], Next(seqNo));
      FeedConcat(cfg, st, mem, a, FragmentSets(hdr, ch, q[1..], Next(seqNo)));
    }
  }

  /** The data packet of a pass, followed by any other packets. */
  lemma DataPart(cfg: Config, st: State, mem: seq<Byte>, startup: nat, ch: seq<Layout.Channel>, q: seq<nat>,
                 seqNo: nat, rest: seq<Packet>) returns (m: seq<Byte>, st1: State)
    requires Agree(cfg, ch, q) && |mem| == MAX_MESSAGE_SIZE && |ch| == |st.channels| && Fit(rest, |mem|)
    requires st.startup <= startup < U64 && seqNo < U16 && InWindow(seqNo, FromSender(st, startup).0.lastSeq)
    ensures |m| == |mem| && st1.startup == startup && st1.lastSeq == seqNo
    ensures |st1.channels| == |st.channels| && st1.now == st.now
    ensures var n := Fill(ch, q, DATA_ROOM);
            && Queued(ch, q[..n])
            && var p := DataPacket(HeaderBytes(startup, cfg.hash), seqNo, QueueItems(ch, q[..n]));
               && Fit([p] + rest, |mem|)
               && var r := Feed(cfg, st1, m, rest);
                  Feed(cfg, st, mem, [p] + rest) == r.(events := QueueEvents(ch, q[..n]) + r.events)
  {
    hide HeaderBytes, ItemsBytes, QueueItems, QueueEvents, Fill, Feed, Receive, DeliveredAll,
         InWindow, SizesOk, ChannelsOk, Touched, Load, AllOk, DataPacket;
    var hdr := HeaderBytes(startup, cfg.hash);
    FilledOk(cfg, ch, q, DATA_ROOM);
    var items := QueueItems(ch, q[..Fill(ch, q, DATA_ROOM)]);
    SizeOfData(hdr, seqNo, items);
    var p := DataPacket(hdr, seqNo, items);
    m := Load(mem, p);
    LoadFront(mem, p);
    DataArrives(cfg, st, m, startup, seqNo, items);
    TouchedSize(cfg, st, items);
    st1 := Receive(cfg, st, m, |p|).st;
    FeedOne(cfg, st, mem, p, rest);
  }

  lemma TouchedSize(cfg: Config, st: State, items: seq<Item>)
    requires AllOk(cfg, |st.channels|, items)
    ensures |Touched(st.channels, items, st.now)| == |st.channels|
  {
  }

  /** One pass of send_updates: the callbacks of exactly the records that it takes off the queue. */
  lemma PassArrives(cfg: Config, st: State, mem: seq<Byte>, startup: nat, ch: seq<Layout.Channel>, q: seq<nat>,
                    seqNo: nat)
    requires Agree(cfg, ch, q) && |mem| == MAX_MESSAGE_SIZE && |ch| == |st.channels|
    requires st.startup <= startup < U64 && seqNo < U16 && InWindow(seqNo, FromSender(st, startup).0.lastSeq)
    ensures var packets := PassPackets(HeaderBytes(startup, cfg.hash), ch, q, seqNo);
            && Fit(packets, |mem|)
            && var r := Feed(cfg, st, mem, packets);
               && !r.wild && r.events == QueueEvents(ch, q[..PassCount(ch, q)])
               && InStep(st, r.st, startup, PassSeqNo(ch, q, seqNo))
  {
    hide HeaderBytes, QueueItems, QueueEvents, Fill, Feed, FragRun, StopsForFragments,
         InWindow, FragmentSets, Next, DataPacket, Oversized, PassCount, PassSeqNo, Fit, Queued, Agree, InStep, Later;
    FragmentedAreOversized(cfg, ch, q);
    var hdr, n, k := HeaderBytes(startup, cfg.hash), Fill(ch, q, DATA_ROOM), PassCount(ch, q);
    NextInWindow(seqNo);
    SetsFit(hdr, ch, q[n..k], Next(seqNo));
    var sets := FragmentSets(hdr, ch, q[n..k], Next(seqNo));
    var m, st1 := DataPart(cfg, st, mem, startup, ch, q, seqNo, sets);
    SetsArrive(cfg, st1, m, ch, q[n..k], Next(seqNo));
    QueueEventsSplit(ch, q[..k], n);
    assert q[..k][..n] == q[..n] && q[..k][n..] == q[n..k];
    PassSeqNoSum(ch, q, seqNo);
    InStepVia(st, st1, Feed(cfg, st1, m, sets).st, startup, PassSeqNo(ch, q, seqNo));
  }

  lemma InStepVia(st: State, st1: State, st': State, startup: nat, seqNo: nat)
    requires InStep(st1, st', startup, seqNo) && |st1.channels| == |st.channels| && st1.now == st.now
    ensures InStep(st, st', startup, seqNo)
  {
  }

  lemma PassSeqNoSum(ch: seq<Layout.Channel>, q: seq<nat>, seqNo: nat)
    requires Queued(ch, q)
    ensures var n, k := Fill(ch, q, DATA_ROOM), PassCount(ch, q);
            n <= k && PassSeqNo(ch, q, seqNo) == Later(Next(seqNo), |q[n..k]|)
  {
    hide Fill, FragRun, StopsForFragments, Queued;
    LaterSteps(seqNo, PassCount(ch, q) - Fill(ch, q, DATA_ROOM));
  }

  lemma {:induction false} SetsFit(hdr: seq<Byte>, ch: seq<Layout.Channel>, q: seq<nat>, seqNo: nat)
    requires Queued(ch, q) && |hdr| == HEADER_SIZE
    ensures Fit(FragmentSets(hdr, ch, q, seqNo), MAX_MESSAGE_SIZE)
    decreases |q|
  {
    hide Fragments;
    if q != [] {
      FragmentsFit(hdr, ch[q[0]], seqNo, 0, ch[q[0]].value);
      SetsFit(hdr, ch, q[1..], Next(seqNo));
    }
  }

  lemma SizeOfData(hdr: seq<Byte>, seqNo: nat, items: seq<Item>)
    requires |hdr| == HEADER_SIZE
    ensures |DataPacket(hdr, seqNo, items)| == HEADER_SIZE + 8 + |ItemsBytes(items)|
    ensures |ItemsBytes(items)| >= CHANNEL_DATA_SIZE * |items|
  {
  }

  /** The records of a pass that are sent as fragments are exactly those that are oversized. */
  lemma FragmentedAreOversized(cfg: Config, ch: seq<Layout.Channel>, q: seq<nat>)
    requires Agree(cfg, ch, q)
    ensures Queued(ch, q)
    ensures var n, k := Fill(ch, q, DATA_ROOM), PassCount(ch, q);
            && n <= k <= |q|
            && Agree(cfg, ch, q[n..k]) && Queued(ch, q[n..k]) && Queued(ch, q[..k]) && Queued(ch, q[..n])
            && forall i :: 0 <= i < k - n ==> q[n..k][i] < |ch| && Oversized(ch[q[n..k][i]])
  {
    hide Fill, FragRun, StopsForFragments, Oversized;
    var n, k := Fill(ch, q, DATA_ROOM), PassCount(ch, q);
    FragmentedAreSendable(ch, q[n..]);
    forall i | 0 <= i < k - n ensures Oversized(ch[q[n..k][i]]) {
      assert q[n..k][i] == q[n..][i];
    }
  }

  /**
   The law of the repository: whatever is queued, if every group can be sent, then the packets of send_updates call the
   receiver back exactly for the queued records, in queue order, each with its newest count, type and bytes and with
   all of its fields, or with its own value alone where it had to be fragmented.
   */
  lemma {:induction false} DrainArrives(cfg: Config, st: State, mem: seq<Byte>, startup: nat, ch: seq<Layout.Channel>,
                                        q: seq<nat>, seqNo: nat)
    requires Agree(cfg, ch, q) && AllSendable(ch, q) && |mem| == MAX_MESSAGE_SIZE && |ch| == |st.channels|
    requires st.startup <= startup < U64 && seqNo < U16 && InWindow(seqNo, FromSender(st, startup).0.lastSeq)
    ensures var d := Drain(HeaderBytes(startup, cfg.hash), ch, q, seqNo);
            && d.rest == [] && Fit(d.packets, |mem|)
            && var r := Feed(cfg, st, mem, d.packets);
               && !r.wild && r.events == QueueEvents(ch, q)
               && (if q == [] then r.st == st && d.seqNo == seqNo else InStep(st, r.st, startup, d.seqNo))
    decreases |q|
  {
    hide HeaderBytes, PassPackets, PassCount, PassSeqNo, InWindow, Feed, Sendable;
    if q == [] {
      FeedNone(cfg, st, mem);
    } else {
      var hdr := HeaderBytes(startup, cfg.hash);
      PassProgress(ch, q);
      var n, s := PassCount(ch, q), PassSeqNo(ch, q, seqNo);
      var a := PassPackets(hdr, ch, q, seqNo);
      PassArrives(cfg, st, mem, startup, ch, q, seqNo);
      var x := Feed(cfg, st, mem, a);
      DrainArrives(cfg, x.st, x.mem, startup, ch, q[n..], s);
      FeedConcat(cfg, st, mem, a, Drain(hdr, ch, q[n..], s).packets);
      QueueEventsSplit(ch, q, n);
    }
  }

  // ---------------------------------------------------------------- from Channel Access to the callbacks

  /** Channel Access delivers values of the type subscribed to, and connects only what was not connected. */
  ghost predicate EventOk(size: SizeOf, ch: seq<Layout.Channel>, e: SenderQueue.CaEvent) {
    && e.i < |ch|
    && match e
       case Value(i, count, data) =>
         count < U32 && |data| == size(ch[i].typ % U16, count) && |data| <= U16 * FRAGMENT_ROOM
       case Down(_) => true
       case Up(i, _) => ch[i].count == -1 && ch[i].value == []
  }

  lemma EventsKeepChannelsOk(size: SizeOf, hash: SenderQueue.Hash, st: SenderQueue.State, e: SenderQueue.CaEvent)
    requires SenderQueue.WellFormed(st) && ChannelsOk(size, st.channels) && EventOk(size, st.channels, e)
    ensures ChannelsOk(size, SenderQueue.Handle(hash, st, e).channels)
  {
    var c := SenderQueue.ChannelAfter(hash, st.channels[e.i], e).0;
    assert ChannelOk(size, st.channels[e.i]);
    assert ChannelOk(size, c);
  }

  /** Every one of these events finds the channels as it should. */
  ghost predicate EventsOk(size: SizeOf, hash: SenderQueue.Hash, st: SenderQueue.State, es: seq<SenderQueue.CaEvent>)
    requires SenderQueue.WellFormed(st) && SenderQueue.EventsFit(es, |st.channels|)
    decreases |es|
  {
    es != [] ==>
      var n := |es| - 1;
      EventsOk(size, hash, st, es[..n]) && EventOk(size, SenderQueue.HandleAll(hash, st, es[..n]).channels, es[n])
  }

  lemma {:induction false} AllEventsKeepChannelsOk(size: SizeOf, hash: SenderQueue.Hash, st: SenderQueue.State,
                                                   es: seq<SenderQueue.CaEvent>)
    requires SenderQueue.WellFormed(st) && ChannelsOk(size, st.channels) && SenderQueue.EventsFit(es, |st.channels|)
    requires EventsOk(size, hash, st, es)
    ensures ChannelsOk(size, SenderQueue.HandleAll(hash, st, es).channels)
    decreases |es|
  {
    hide ChannelsOk;
    if es != [] {
      var n := |es| - 1;
      AllEventsKeepChannelsOk(size, hash, st, es[..n]);
      EventsKeepChannelsOk(size, hash, SenderQueue.HandleAll(hash, st, es[..n]), es[n]);
    }
  }

  /** The records that some events mark, each once, in order of first marking. */
  function MarkedOnce(hash: SenderQueue.Hash, ch: seq<Layout.Channel>, es: seq<SenderQueue.CaEvent>): (q: seq<nat>)
    requires SenderQueue.EventsFit(es, |ch|)
  {
    SenderQueue.FirstOccurrences(SenderQueue.Marked(hash, ch, es), [])
  }

  /**
   Channel Access to callbacks: after any events, a drain calls back once for each record that they marked, in order of
   first marking, and channel i is then reported with the count, the bytes and the type of its newest events.
   */
  lemma NewestArrives(cfg: Config, hash: SenderQueue.Hash, sender: SenderQueue.State, es: seq<SenderQueue.CaEvent>,
                      st: State, mem: seq<Byte>, startup: nat, seqNo: nat)
    requires SenderQueue.QueueInv(sender) && sender.queue == [] && SenderQueue.EventsFit(es, |sender.channels|)
    requires SizesOk(cfg.size) && ChannelsOk(cfg.size, sender.channels) && EventsOk(cfg.size, hash, sender, es)
    requires |sender.channels| == |st.channels| <= U32 && cfg.hash < U64 && |mem| == MAX_MESSAGE_SIZE
    requires st.startup <= startup < U64 && seqNo < U16 && InWindow(seqNo, FromSender(st, startup).0.lastSeq)
    ensures var ready := SenderQueue.HandleAll(hash, sender, es);
            var ch, q := ready.channels, MarkedOnce(hash, sender.channels, es);
            && Queued(ch, q)
            && (AllSendable(ch, q) ==>
                  var d := Drain(HeaderBytes(startup, cfg.hash), ch, q, seqNo);
                  && Fit(d.packets, |mem|)
                  && Feed(cfg, st, mem, d.packets).events == QueueEvents(ch, q))
            && forall i: nat :: i < |ch| ==>
                 && (ch[i].count, ch[i].value) == SenderQueue.Newest(es, i, sender.channels[i])
                 && ch[i].typ == SenderQueue.NewestType(es, i, sender.channels[i])
  {
    hide SenderQueue.HandleAll, SenderQueue.Marked, SenderQueue.FirstOccurrences, SenderQueue.Newest, Drain, Feed,
         QueueEvents, ChannelsOk, EventsOk, HeaderBytes, InWindow;
    var ready := SenderQueue.HandleAll(hash, sender, es);
    var ch, q := ready.channels, ready.queue;
    SenderQueue.HandleAllKeepsInv(hash, sender, es);
    SenderQueue.QueueIsFirstMarkings(hash, sender, es);
    assert q == MarkedOnce(hash, sender.channels, es);
    AllEventsKeepChannelsOk(cfg.size, hash, sender, es);
    forall i: nat | i < |ch|
      ensures (ch[i].count, ch[i].value) == SenderQueue.Newest(es, i, sender.channels[i])
      ensures ch[i].typ == SenderQueue.NewestType(es, i, sender.channels[i])
    {
      SenderQueue.ChannelsHoldNewest(hash, sender, es, i);
    }
    if AllSendable(ch, q) {
      DrainArrives(cfg, st, mem, startup, ch, q, seqNo);
    }
  }
}
