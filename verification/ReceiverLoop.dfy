/**
 The loop of the receiver: passes that take datagrams from the socket and then look at the clock. It is a loop as
 Timeouts has it, and on a network that loses nothing the heartbeat of the sender keeps it from reporting anything.
 */
module ReceiverLoop {
  import opened Bytes
  import opened Protocol
  import Layout
  import SenderQueue
  import opened Packing
  import opened Receiver
  import opened EndToEnd
  import opened Replication
  import Sender
  import LastCallback
  import Timeouts

  /** The most datagrams that one pass takes. */
  const MAX_PACKETS: nat := 100

  /** What waits in the socket in one pass, and the clock that is read after it. */
  datatype Input = Input(grams: seq<Packet>, clock: int) {
    function Taken(): (ps: seq<Packet>)
      ensures ps <= grams && (ps == grams || |ps| == 100 < |grams|)
    {
      if |grams| <= MAX_PACKETS then grams else grams[..MAX_PACKETS]
    }
  }

  /** The receiver between two passes. */
  datatype Loop = Loop(st: State, mem: seq<Byte>, lastHeartbeat: int)

  /** The loop after one pass, its callbacks, and the channels that it reports as silent. */
  datatype Passed = Passed(loop: Loop, events: seq<Event>, timedOut: seq<nat>, wild: bool)

  ghost function AfterPass(cfg: Config, heartbeat: real, l: Loop, x: Input): (p: Passed)
    requires Fit(x.Taken(), |l.mem|)
    ensures |p.loop.mem| == |l.mem|
  {
    var f := Feed(cfg, l.st, l.mem, x.Taken());
    if f.wild then Passed(Loop(f.st, f.mem, l.lastHeartbeat), f.events, [], true)
    else if Elapsed(x.clock, l.lastHeartbeat, heartbeat) then
      var st := f.st.(now := x.clock, channels := Marked(f.st.channels, x.clock, heartbeat));
      Passed(Loop(st, f.mem, x.clock), f.events, SilentIds(f.st.channels, x.clock, heartbeat), false)
    else Passed(Loop(f.st.(now := x.clock), f.mem, l.lastHeartbeat), f.events, [], false)
  }

  /** A run of the loop that never leaves the receive buffer. */
  ghost predicate IsLoopRun(cfg: Config, heartbeat: real, ls: seq<Loop>, xs: seq<Input>) {
    |ls| == |xs| + 1 && forall i: nat :: i < |xs| ==> LoopRunStep(cfg, heartbeat, ls[i], xs[i], ls[i + 1])
  }

  ghost predicate LoopRunStep(cfg: Config, heartbeat: real, l: Loop, x: Input, l': Loop) {
    Fit(x.Taken(), |l.mem|) && var p := AfterPass(cfg, heartbeat, l, x); !p.wild && p.loop == l'
  }

  /** A pass that makes these callbacks and reports these channels. */
  ghost predicate PassMakes(cfg: Config, heartbeat: real, l: Loop, x: Input, events: seq<Event>, timedOut: seq<nat>,
                            l': Loop)
  {
    Fit(x.Taken(), |l.mem|) && AfterPass(cfg, heartbeat, l, x) == Passed(l', events, timedOut, false)
  }

  // ---------------------------------------------------------------- the updates that a pass accepts

  /** The updates that a data message has for channels of the receiver, without their bytes. */
  function ItemsTaken(cfg: Config, channels: nat, mem: seq<Byte>, limit: nat, cur: Cursor, k: nat): (items: seq<Item>)
    ensures forall j :: 0 <= j < |items| ==> items[j].id < channels
    decreases k
  {
    var c := cur.Ensure(CHANNEL_DATA_SIZE, limit);
    if k == 0 || !c.good || c.pos + CHANNEL_DATA_SIZE > |mem| then []
    else
      var it := ChannelDataAt(mem, c.pos);
      var next := Up8(c.pos + CHANNEL_DATA_SIZE + DataSize(cfg, it));
      (if it.id < channels then [it] else []) + ItemsTaken(cfg, channels, mem, limit, Cursor(next, true), k - 1)
  }

  function MessageItems(cfg: Config, st: State, mem: seq<Byte>, limit: nat, cur: Cursor, id: Byte): (items: seq<Item>)
    ensures forall j :: 0 <= j < |items| ==> items[j].id < |st.channels|
  {
    var c := cur.Ensure(DATA_MESSAGE_SIZE, limit);
    if id != CA_DATA_MESSAGE || !c.good || c.pos + DATA_MESSAGE_SIZE > |mem| then []
    else if !InWindow(UintAt(mem, c.pos, 2), st.lastSeq) then []
    else
      ItemsTaken(cfg, |st.channels|, mem, limit, Cursor(c.pos + DATA_MESSAGE_SIZE, true), UintAt(mem, c.pos + 2, 2))
  }

  function SubmessagesItems(cfg: Config, st: State, mem: seq<Byte>, limit: nat, cur: Cursor): (items: seq<Item>)
    decreases |mem| - cur.pos
  {
    var c := cur.Ensure(SUBMESSAGE_HEADER_SIZE, limit);
    if !c.good || c.pos + SUBMESSAGE_HEADER_SIZE > |mem| || mem[c.pos + 1] % 2 == 0 then []
    else
      var id, toNext, payload := mem[c.pos], UintAt(mem, c.pos + 2, 2), c.pos + SUBMESSAGE_HEADER_SIZE;
      var o := Message(cfg, st, mem, limit, Cursor(payload, true), id);
      MessageItems(cfg, st, mem, limit, Cursor(payload, true), id)
      + if o.wild || toNext == 0 || payload + toNext <= limit then []
        else SubmessagesItems(cfg, o.st, mem, limit, o.cur)
  }

  /** The updates that receive_updates accepts. */
  function ReceivedItems(cfg: Config, st: State, mem: seq<Byte>, n: nat): (items: seq<Item>)
    requires n <= |mem|
  {
    if n < HEADER_SIZE || HeaderAt(mem, 0).magic != MAGIC || HeaderAt(mem, 0).hash != cfg.hash then []
    else
      var (st1, ok) := FromSender(st, HeaderAt(mem, 0).startup);
      if ok then SubmessagesItems(cfg, st1, mem, n, Cursor(HEADER_SIZE, true)) else []
  }

  ghost function FeedItems(cfg: Config, st: State, mem: seq<Byte>, packets: seq<Packet>): (items: seq<Item>)
    requires Fit(packets, |mem|)
    decreases |packets|
  {
    if packets == [] then []
    else
      var m := Load(mem, packets[0]);
      var o := Receive(cfg, st, m, |packets[0]|);
      ReceivedItems(cfg, st, m, |packets[0]|) + if o.wild then [] else FeedItems(cfg, o.st, m, packets[1..])
  }

  ghost predicate InRange(items: seq<Item>, n: nat) {
    forall j :: 0 <= j < |items| ==> items[j].id < n
  }

  lemma {:induction false} TouchedConcat(channels: seq<Channel>, a: seq<Item>, b: seq<Item>, now: int)
    requires InRange(a, |channels|) && InRange(b, |channels|)
    ensures InRange(a + b, |channels|)
    ensures Touched(channels, a + b, now) == Touched(Touched(channels, a, now), b, now)
    decreases |a|
  {
    if a == [] {
      assert a + b == b;
    } else {
      TouchedConcat(channels[a[0].id := Channel(a[0].count == MINUS_ONE_16, now)], a[1..], b, now);
      assert (a + b)[0] == a[0] && (a + b)[1..] == a[1..] + b;
    }
  }

  /** The channels after some parsing are those that the accepted updates touch. */
  ghost predicate TouchedBy(st: State, items: seq<Item>, st': State) {
    && InRange(items, |st.channels|) && st'.now == st.now
    && st'.channels == Touched(st.channels, items, st.now)
  }

  lemma TouchedTwice(a: State, x: seq<Item>, b: State, y: seq<Item>, c: State)
    requires TouchedBy(a, x, b) && TouchedBy(b, y, c)
    ensures TouchedBy(a, x + y, c)
  {
    TouchedConcat(a.channels, x, y, a.now);
  }

  lemma ApplyTouches(cfg: Config, st: State, it: Item, mem: seq<Byte>, at: nat)
    ensures TouchedBy(st, if it.id < |st.channels| then [it] else [], Apply(cfg, st, it, mem, at).0)
  {
    TouchedNone(st.channels, st.now);
    if it.id < |st.channels| {
      TouchedStep(st.channels, [it], st.now);
      TouchedNone(st.channels[it.id := Channel(it.count == MINUS_ONE_16, st.now)], st.now);
    }
  }

  lemma {:induction false} ItemsTouch(cfg: Config, st: State, mem: seq<Byte>, limit: nat, cur: Cursor, k: nat)
    ensures TouchedBy(st, ItemsTaken(cfg, |st.channels|, mem, limit, cur, k), Items(cfg, st, mem, limit, cur, k).st)
    decreases k
  {
    hide ChannelDataAt, DataSize;
    if k > 0 {
      var c := cur.Ensure(CHANNEL_DATA_SIZE, limit);
      if c.good && c.pos + CHANNEL_DATA_SIZE <= |mem| {
        var it, at := ChannelDataAt(mem, c.pos), c.pos + CHANNEL_DATA_SIZE;
        var (st1, events) := Apply(cfg, st, it, mem, at);
        var next := Cursor(Up8(at + DataSize(cfg, it)), true);
        ItemsTouch(cfg, st1, mem, limit, next, k - 1);
        var first := if it.id < |st.channels| then [it] else [];
        ApplyTouches(cfg, st, it, mem, at);
        hide TouchedBy, Apply;
        TouchedTwice(st, first, st1, ItemsTaken(cfg, |st.channels|, mem, limit, next, k - 1),
                     Items(cfg, st1, mem, limit, next, k - 1).st);
      }
    }
  }

  lemma MessageTouches(cfg: Config, st: State, mem: seq<Byte>, limit: nat, cur: Cursor, id: Byte)
    ensures TouchedBy(st, MessageItems(cfg, st, mem, limit, cur, id), Message(cfg, st, mem, limit, cur, id).st)
  {
    hide Items, ItemsTaken, FragInfoAt;
    var c := cur.Ensure(DATA_MESSAGE_SIZE, limit);
    if id == CA_DATA_MESSAGE && c.good && c.pos + DATA_MESSAGE_SIZE <= |mem| {
      var (st1, ok) := Ordered(st, UintAt(mem, c.pos, 2));
      ItemsTouch(cfg, st1, mem, limit, Cursor(c.pos + DATA_MESSAGE_SIZE, true), UintAt(mem, c.pos + 2, 2));
    }
  }

  lemma {:induction false} SubmessagesTouch(cfg: Config, st: State, mem: seq<Byte>, limit: nat, cur: Cursor)
    ensures TouchedBy(st, SubmessagesItems(cfg, st, mem, limit, cur), Submessages(cfg, st, mem, limit, cur).st)
    decreases |mem| - cur.pos
  {
    hide Message, MessageItems, UintAt;
    var c := cur.Ensure(SUBMESSAGE_HEADER_SIZE, limit);
    if c.good && c.pos + SUBMESSAGE_HEADER_SIZE <= |mem| && mem[c.pos + 1] % 2 == 1 {
      var payload := Cursor(c.pos + SUBMESSAGE_HEADER_SIZE, true);
      var o := Message(cfg, st, mem, limit, payload, mem[c.pos]);
      var first := MessageItems(cfg, st, mem, limit, payload, mem[c.pos]);
      MessageTouches(cfg, st, mem, limit, payload, mem[c.pos]);
      SubmessagesTouch(cfg, o.st, mem, limit, o.cur);
      assert first + [] == first;
      TouchedTwice(st, first, o.st, SubmessagesItems(cfg, o.st, mem, limit, o.cur),
                   Submessages(cfg, o.st, mem, limit, o.cur).st);
    }
  }

  lemma ReceiveTouches(cfg: Config, st: State, mem: seq<Byte>, n: nat)
    requires n <= |mem|
    ensures TouchedBy(st, ReceivedItems(cfg, st, mem, n), Receive(cfg, st, mem, n).st)
  {
    hide Submessages, SubmessagesItems, HeaderAt;
    if n >= HEADER_SIZE {
      SubmessagesTouch(cfg, FromSender(st, HeaderAt(mem, 0).startup).0, mem, n, Cursor(HEADER_SIZE, true));
    }
  }

  lemma {:induction false} FeedTouches(cfg: Config, st: State, mem: seq<Byte>, packets: seq<Packet>)
    requires Fit(packets, |mem|)
    ensures TouchedBy(st, FeedItems(cfg, st, mem, packets), Feed(cfg, st, mem, packets).st)
    decreases |packets|
  {
    hide Receive, ReceivedItems, Load;
    if packets != [] {
      var m := Load(mem, packets[0]);
      var o, first := Receive(cfg, st, m, |packets[0]|), ReceivedItems(cfg, st, m, |packets[0]|);
      ReceiveTouches(cfg, st, m, |packets[0]|);
      assert first + [] == first;
      if !o.wild {
        FeedTouches(cfg, o.st, m, packets[1..]);
        TouchedTwice(st, first, o.st, FeedItems(cfg, o.st, m, packets[1..]), Feed(cfg, o.st, m, packets[1..]).st);
      }
    }
  }

  // ---------------------------------------------------------------- this is the loop of Timeouts

  function WatchOf(l: Loop): (w: Timeouts.Watch) {
    Timeouts.Watch(l.st.channels, l.st.now, l.lastHeartbeat)
  }

  ghost function PassOf(cfg: Config, l: Loop, x: Input): (p: Timeouts.Pass)
    requires Fit(x.Taken(), |l.mem|)
  {
    Timeouts.Pass(FeedItems(cfg, l.st, l.mem, x.Taken()), x.clock)
  }

  /** One pass does to the channels what Timeouts says, with the updates that it accepts. */
  lemma PassIsPass(cfg: Config, heartbeat: real, l: Loop, x: Input, l': Loop)
    requires LoopRunStep(cfg, heartbeat, l, x, l')
    ensures var w, p := WatchOf(l), PassOf(cfg, l, x);
            Timeouts.PassFits(|w.channels|, p) && WatchOf(l') == Timeouts.After(heartbeat, w, p)
  {
    hide Feed, FeedItems;
    FeedTouches(cfg, l.st, l.mem, x.Taken());
  }

  /** A pass reports exactly the channels that have been silent, each of them once and in their order. */
  lemma PassReports(cfg: Config, heartbeat: real, l: Loop, x: Input, events: seq<Event>, timedOut: seq<nat>, l': Loop)
    requires PassMakes(cfg, heartbeat, l, x, events, timedOut, l')
    ensures Timeouts.Ascending(timedOut, |l'.st.channels|)
    ensures var w, p := WatchOf(l), PassOf(cfg, l, x);
            && Timeouts.PassFits(|w.channels|, p)
            && forall c: nat :: c in timedOut <==> c < |w.channels| && Timeouts.Fires(heartbeat, w, p, c)
  {
    hide Feed, FeedItems;
    FeedTouches(cfg, l.st, l.mem, x.Taken());
    var channels := Feed(cfg, l.st, l.mem, x.Taken()).st.channels;
    Timeouts.ReportedOnce(channels, x.clock, heartbeat);
    forall c: nat
      ensures c in SilentIds(channels, x.clock, heartbeat)
              <==> c < |channels| && Silent(channels[c], x.clock, heartbeat)
    {
      Timeouts.FiresIsReported(channels, x.clock, heartbeat, c);
    }
  }

  /** The clocks of a run never go back. */
  ghost predicate ClocksRise(l: Loop, xs: seq<Input>) {
    && (xs != [] ==> l.st.now <= xs[0].clock && l.lastHeartbeat <= xs[0].clock)
    && forall i :: 0 < i < |xs| ==> xs[i - 1].clock <= xs[i].clock
  }

  ghost function Watches(ls: seq<Loop>): (ws: seq<Timeouts.Watch>)
    ensures |ws| == |ls|
  {
    seq(|ls|, i requires 0 <= i < |ls| => WatchOf(ls[i]))
  }

  ghost function Passes(cfg: Config, heartbeat: real, ls: seq<Loop>, xs: seq<Input>): (ps: seq<Timeouts.Pass>)
    requires IsLoopRun(cfg, heartbeat, ls, xs)
    ensures |ps| == |xs|
  {
    seq(|xs|, i requires 0 <= i < |xs| && LoopRunStep(cfg, heartbeat, ls[i], xs[i], ls[i + 1]) =>
      PassOf(cfg, ls[i], xs[i]))
  }

  lemma {:induction false} ClockAt(cfg: Config, heartbeat: real, ls: seq<Loop>, xs: seq<Input>, i: nat)
    requires IsLoopRun(cfg, heartbeat, ls, xs) && ClocksRise(ls[0], xs) && i < |xs|
    ensures ls[i].st.now <= xs[i].clock && ls[i].lastHeartbeat <= xs[i].clock
  {
    if i > 0 {
      ClockAt(cfg, heartbeat, ls, xs, i - 1);
      assert LoopRunStep(cfg, heartbeat, ls[i - 1], xs[i - 1], ls[i - 1 + 1]);
    }
  }

  /** So every law of Timeouts holds for the runs of the receiver, from its creation on. */
  lemma RunIsLoop(cfg: Config, heartbeat: real, ls: seq<Loop>, xs: seq<Input>)
    requires IsLoopRun(cfg, heartbeat, ls, xs) && ClocksRise(ls[0], xs)
    requires ls[0].st.now == 0 <= ls[0].lastHeartbeat
    ensures Timeouts.IsLoop(heartbeat, Watches(ls), Passes(cfg, heartbeat, ls, xs))
  {
    hide FeedItems;
    var ws, ps := Watches(ls), Passes(cfg, heartbeat, ls, xs);
    forall i: nat | i < |ps|
      ensures Timeouts.LoopStep(heartbeat, ws, ps, i)
    {
      assert LoopRunStep(cfg, heartbeat, ls[i], xs[i], ls[i + 1]);
      PassIsPass(cfg, heartbeat, ls[i], xs[i], ls[i + 1]);
      ClockAt(cfg, heartbeat, ls, xs, i);
    }
  }

  // ---------------------------------------------------------------- what the packets of a drain touch

  /** Updates as they are found in memory, before their bytes are looked at. */
  function Bare(items: seq<Item>): (r: seq<Item>)
    ensures |r| == |items|
  {
    seq(|items|, i requires 0 <= i < |items| => items[i].(value := []))
  }

  ghost predicate Has(items: seq<Item>, c: nat) {
    exists k :: 0 <= k < |items| && items[k].id == c
  }

  lemma HasIn(a: seq<Item>, items: seq<Item>, b: seq<Item>, c: nat)
    requires Has(items, c)
    ensures Has(a + items + b, c)
  {
    var k :| 0 <= k < |items| && items[k].id == c;
    assert (a + items + b)[|a| + k] == items[k];
  }

  lemma BareOnce(items: seq<Item>)
    ensures Bare(items) == if items == [] then [] else [items[0].(value := [])] + Bare(items[1..])
  {
  }

  lemma ItemsTakenOnce(cfg: Config, channels: nat, mem: seq<Byte>, limit: nat, cur: Cursor, k: nat)
    ensures var c := cur.Ensure(CHANNEL_DATA_SIZE, limit);
            ItemsTaken(cfg, channels, mem, limit, cur, k)
            == if k == 0 || !c.good || c.pos + CHANNEL_DATA_SIZE > |mem| then []
               else
                 var it := ChannelDataAt(mem, c.pos);
                 var next := Up8(c.pos + CHANNEL_DATA_SIZE + DataSize(cfg, it));
                 (if it.id < channels then [it] else [])
                 + ItemsTaken(cfg, channels, mem, limit, Cursor(next, true), k - 1)
  {
  }

  lemma {:induction false} ItemsTakenArrive(cfg: Config, st: State, mem: seq<Byte>, limit: nat, at: nat,
                                            items: seq<Item>)
    requires AllOk(cfg, |st.channels|, items)
    requires at % 8 == 0 && at + |ItemsBytes(items)| == limit <= |mem| && limit < U64
    requires mem[at..limit] == ItemsBytes(items)
    ensures ItemsTaken(cfg, |st.channels|, mem, limit, Cursor(at, true), |items|) == Bare(items)
    decreases |items|
  {
    hide ItemBytes, ChannelDataAt, Apply, DataSize, WireOk, ItemsTaken, Bare;
    ItemsTakenOnce(cfg, |st.channels|, mem, limit, Cursor(at, true), |items|);
    BareOnce(items);
    if items != [] {
      var it, rest := items[0], items[1..];
      SplitMemory(mem, at, ItemBytes(it), ItemsBytes(rest));
      ItemInMemory(cfg, st, mem, at, it);
      ItemsTakenArrive(cfg, st, mem, limit, at + |ItemBytes(it)|, rest);
    }
  }

  /** The updates that an accepted data packet touches are its own. */
  lemma DataItems(cfg: Config, st: State, mem: seq<Byte>, startup: nat, seqNo: nat, items: seq<Item>)
    requires AllOk(cfg, |st.channels|, items) && |items| < U16 && seqNo < U16
    requires st.startup <= startup < U64 && cfg.hash < U64 && InWindow(seqNo, FromSender(st, startup).0.lastSeq)
    requires var p := DataPacket(HeaderBytes(startup, cfg.hash), seqNo, items);
             |p| <= |mem| && |p| < U64 && mem[..|p|] == p
    ensures ReceivedItems(cfg, st, mem, |DataPacket(HeaderBytes(startup, cfg.hash), seqNo, items)|) == Bare(items)
  {
    hide HeaderBytes, ItemsBytes, SubheaderBytes, LE, ItemsTaken, Bare, HeaderAt, InWindow, UintAt, Message;
    var hdr := HeaderBytes(startup, cfg.hash);
    var p := DataPacket(hdr, seqNo, items);
    var sub, a, b := SubheaderBytes(CA_DATA_MESSAGE), LE(seqNo, 2), LE(|items|, 2);
    assert mem[0..|p|] == mem[..|p|];
    SplitMemory(mem, 0, hdr + sub + a + b, ItemsBytes(items));
    SplitMemory(mem, 0, hdr + sub + a, b);
    SplitMemory(mem, 0, hdr + sub, a);
    SplitMemory(mem, 0, hdr, sub);
    assert mem[..HEADER_SIZE] == mem[0..HEADER_SIZE];
    HeaderRoundTrip(mem, startup, cfg.hash);
    SubheaderFound(mem, HEADER_SIZE, CA_DATA_MESSAGE);
    PowValues();
    UintRoundTrip(mem, MESSAGE_START, seqNo, 2);
    UintRoundTrip(mem, COUNT_START, |items|, 2);
    var st1 := FromSender(st, startup).0;
    ItemsTakenArrive(cfg, st1, mem, |p|, ITEMS_START, items);
    var taken := MessageItems(cfg, st1, mem, |p|, Cursor(MESSAGE_START, true), CA_DATA_MESSAGE);
    assert taken + [] == taken;
  }

  lemma {:induction false} FeedItemsConcat(cfg: Config, st: State, mem: seq<Byte>, a: seq<Packet>, b: seq<Packet>)
    requires Fit(a, |mem|) && Fit(b, |mem|) && !Feed(cfg, st, mem, a).wild
    ensures Fit(a + b, |mem|)
    ensures var x := Feed(cfg, st, mem, a);
            FeedItems(cfg, st, mem, a + b) == FeedItems(cfg, st, mem, a) + FeedItems(cfg, x.st, x.mem, b)
    decreases |a|
  {
    hide Receive, Load, ReceivedItems;
    if a == [] {
      assert a + b == b;
    } else {
      var m := Load(mem, a[0]);
      var o := Receive(cfg, st, m, |a[0]|);
      FeedItemsConcat(cfg, o.st, m, a[1..], b);
      assert (a + b)[0] == a[0] && (a + b)[1..] == a[1..] + b;
    }
  }

  /** The updates of the queued records include those of all their fields. */
  lemma {:induction false} QueueItemsHave(ch: seq<Layout.Channel>, q: seq<nat>, r: nat, c: nat)
    requires Queued(ch, q) && |ch| <= U32 && r in q && c < |ch| && ch[c].parent == r
    ensures Has(QueueItems(ch, q), c)
    decreases |q|
  {
    if q[0] == r {
      Layout.GroupExact(ch, r, c);
      var g := Group(ch, r);
      assert g[c - r] == ch[c] && Layout.LaidAt(ch, c);
      assert GroupItems(g)[c - r].id == c;
      assert Has(GroupItems(g), c);
      HasIn([], GroupItems(g), QueueItems(ch, q[1..]), c);
      assert [] + GroupItems(g) == GroupItems(g);
    } else {
      QueueItemsHave(ch, q[1..], r, c);
      HasIn(GroupItems(Group(ch, q[0])), QueueItems(ch, q[1..]), [], c);
      assert QueueItems(ch, q) + [] == QueueItems(ch, q);
    }
  }

  lemma BareHas(items: seq<Item>, c: nat)
    requires Has(items, c)
    ensures Has(Bare(items), c)
  {
    var k :| 0 <= k < |items| && items[k].id == c;
    assert Bare(items)[k].id == c;
  }

  /** A pass of send_updates touches the channels of every record that it takes into its data packet. */
  lemma PassTouches(cfg: Config, st: State, mem: seq<Byte>, startup: nat, ch: seq<Layout.Channel>, q: seq<nat>,
                    seqNo: nat, r: nat, c: nat)
    requires Agree(cfg, ch, q) && |mem| == MAX_MESSAGE_SIZE && |ch| == |st.channels|
    requires st.startup <= startup < U64 && seqNo < U16 && InWindow(seqNo, FromSender(st, startup).0.lastSeq)
    requires r in q[..PassCount(ch, q)] && !Oversized(ch[r]) && c < |ch| && ch[c].parent == r
    ensures var packets := PassPackets(HeaderBytes(startup, cfg.hash), ch, q, seqNo);
            Fit(packets, |mem|) && Has(FeedItems(cfg, st, mem, packets), c)
  {
    hide HeaderBytes, Fill, Receive, ReceivedItems, InWindow, FragmentSets, DataPacket, Oversized, PassCount, Has,
         ChannelsOk, SizesOk, QueueItems, ItemsBytes;
    var hdr, n, k := HeaderBytes(startup, cfg.hash), Fill(ch, q, DATA_ROOM), PassCount(ch, q);
    PassArrives(cfg, st, mem, startup, ch, q, seqNo);
    FragmentedAreOversized(cfg, ch, q);
    forall i | 0 <= i < k - n
      ensures q[n..k][i] != r
    {
      assert Oversized(ch[q[n..k][i]]);
    }
    assert q[..k] == q[..n] + q[n..k];
    FilledOk(cfg, ch, q, DATA_ROOM);
    var items := QueueItems(ch, q[..n]);
    var p, packets := DataPacket(hdr, seqNo, items), PassPackets(hdr, ch, q, seqNo);
    SizeOfData(hdr, seqNo, items);
    assert packets[0] == p;
    LoadFront(mem, p);
    DataItems(cfg, st, Load(mem, p), startup, seqNo, items);
    QueueItemsHave(ch, q[..n], r, c);
    BareHas(items, c);
    FirstItems(cfg, st, mem, packets, c);
  }

  lemma FirstItems(cfg: Config, st: State, mem: seq<Byte>, packets: seq<Packet>, c: nat)
    requires Fit(packets, |mem|) && packets != []
    requires Has(ReceivedItems(cfg, st, Load(mem, packets[0]), |packets[0]|), c)
    ensures Has(FeedItems(cfg, st, mem, packets), c)
  {
    hide Receive, ReceivedItems;
    var m := Load(mem, packets[0]);
    var first, o := ReceivedItems(cfg, st, m, |packets[0]|), Receive(cfg, st, m, |packets[0]|);
    var rest := if o.wild then [] else FeedItems(cfg, o.st, m, packets[1..]);
    HasIn([], first, rest, c);
    assert [] + first == first;
  }

  /** The packets of a drain touch every channel of every queued record that is not sent as fragments. */
  lemma {:induction false} DrainTouches(cfg: Config, st: State, mem: seq<Byte>, startup: nat, ch: seq<Layout.Channel>,
                                        q: seq<nat>, seqNo: nat, r: nat, c: nat)
    requires Agree(cfg, ch, q) && AllSendable(ch, q) && |mem| == MAX_MESSAGE_SIZE && |ch| == |st.channels|
    requires st.startup <= startup < U64 && seqNo < U16 && InWindow(seqNo, FromSender(st, startup).0.lastSeq)
    requires r in q && r < |ch| && !Oversized(ch[r]) && c < |ch| && ch[c].parent == r
    ensures var d := Drain(HeaderBytes(startup, cfg.hash), ch, q, seqNo);
            Fit(d.packets, |mem|) && Has(FeedItems(cfg, st, mem, d.packets), c)
    decreases |q|
  {
    hide HeaderBytes, PassPackets, PassCount, PassSeqNo, InWindow, Feed, FeedItems, Sendable, Has, Oversized, Drain;
    var n := PassCount(ch, q);
    var x, first, more := DrainItemsSplit(cfg, st, mem, startup, ch, q, seqNo);
    assert [] + first + more == first + more && first + more + [] == first + more;
    assert q == q[..n] + q[n..];
    if r in q[..n] {
      PassTouches(cfg, st, mem, startup, ch, q, seqNo, r, c);
      HasIn([], first, more, c);
    } else {
      DrainTouches(cfg, x.st, x.mem, startup, ch, q[n..], PassSeqNo(ch, q, seqNo), r, c);
      HasIn(first, more, [], c);
    }
  }

  /** The updates of a drain are those of its first pass and of the drain that follows. */
  lemma DrainItemsSplit(cfg: Config, st: State, mem: seq<Byte>, startup: nat, ch: seq<Layout.Channel>, q: seq<nat>,
                        seqNo: nat)
    returns (x: Fed, first: seq<Item>, more: seq<Item>)
    requires Agree(cfg, ch, q) && AllSendable(ch, q) && |mem| == MAX_MESSAGE_SIZE && |ch| == |st.channels|
    requires st.startup <= startup < U64 && seqNo < U16 && InWindow(seqNo, FromSender(st, startup).0.lastSeq)
    requires q != []
    ensures var hdr, n, s := HeaderBytes(startup, cfg.hash), PassCount(ch, q), PassSeqNo(ch, q, seqNo);
            && 0 < n <= |q| && Agree(cfg, ch, q[n..]) && AllSendable(ch, q[n..])
            && |x.mem| == |mem| && |ch| == |x.st.channels|
            && x.st.startup <= startup && s < U16 && InWindow(s, FromSender(x.st, startup).0.lastSeq)
            && var a, b := PassPackets(hdr, ch, q, seqNo), Drain(hdr, ch, q[n..], s).packets;
               && Fit(a, |mem|) && first == FeedItems(cfg, st, mem, a)
               && Fit(b, |mem|) && more == FeedItems(cfg, x.st, x.mem, b)
               && var d := Drain(hdr, ch, q, seqNo);
                  Fit(d.packets, |mem|) && FeedItems(cfg, st, mem, d.packets) == first + more
  {
    hide HeaderBytes, PassPackets, PassCount, PassSeqNo, InWindow, Feed, FeedItems, Sendable;
    var hdr := HeaderBytes(startup, cfg.hash);
    PassProgress(ch, q);
    var n, s, a := PassCount(ch, q), PassSeqNo(ch, q, seqNo), PassPackets(hdr, ch, q, seqNo);
    PassArrives(cfg, st, mem, startup, ch, q, seqNo);
    x := Feed(cfg, st, mem, a);
    var b := Drain(hdr, ch, q[n..], s).packets;
    DrainArrives(cfg, x.st, x.mem, startup, ch, q[n..], s);
    FeedItemsConcat(cfg, st, mem, a, b);
    first, more := FeedItems(cfg, st, mem, a), FeedItems(cfg, x.st, x.mem, b);
  }

  // ---------------------------------------------------------------- no false timeouts

  /** The packets of iteration t reach the receiver in this pass, and it is ready for them. */
  ghost predicate ArrivesIn(s: Setup, h: Sender.History, t: nat, l: Loop, x: Input)
    requires 0 < t < |h.packets| && |h.seqNos| == |h.packets|
  {
    exists before, after :: x.Taken() == before + h.packets[t] + after && ArrivesBehind(s, h, t, l, before)
  }

  ghost predicate ArrivesBehind(s: Setup, h: Sender.History, t: nat, l: Loop, before: seq<Packet>)
    requires 0 < t < |h.packets| && |h.seqNos| == |h.packets|
  {
    && Fit(before, |l.mem|)
    && var f := Feed(s.cfg, l.st, l.mem, before);
       !f.wild && Linked(s, |h.run.start.channels|, Link(h.seqNos[t - 1], f.st, f.mem))
  }

  /** That pass touches channel c, if the iteration transmits its record, and not as fragments. */
  lemma ArrivalTouches(s: Setup, h: Sender.History, t: nat, l: Loop, x: Input, r: nat, c: nat)
    requires Sender.OnWire(HeaderBytes(s.startup, s.cfg.hash), h) && GoodRun(s, h.run, h.states, h.records)
    requires 0 < t <= |h.run.inputs| && ArrivesIn(s, h, t, l, x) && Fit(x.Taken(), |l.mem|)
    requires r in h.records[t] && r < |h.states[t].channels| && !Oversized(h.states[t].channels[r])
    requires c < |h.states[t].channels| && h.states[t].channels[c].parent == r
    ensures Timeouts.Touches(PassOf(s.cfg, l, x), c)
  {
    hide Feed, FeedItems, Drain, HeaderBytes, InWindow, AllSendable, GoodAt, ChannelsOk, SizesOk, Queued;
    var before, after :| x.Taken() == before + h.packets[t] + after && ArrivesBehind(s, h, t, l, before);
    var f, ch, q := Feed(s.cfg, l.st, l.mem, before), h.states[t].channels, h.records[t];
    LastCallback.ReadyAgrees(s, h.run, h.states, h.records, t);
    assert Sender.WireStep(HeaderBytes(s.startup, s.cfg.hash), ch, q, h.seqNos[t - 1], h.packets[t], h.seqNos[t]);
    SenderQueue.RunKeepsInv(h.run, h.states, h.records, t);
    DrainTouches(s.cfg, f.st, f.mem, s.startup, ch, q, h.seqNos[t - 1], r, c);
    DrainArrives(s.cfg, f.st, f.mem, s.startup, ch, q, h.seqNos[t - 1]);
    PartTouches(s.cfg, l, before, h.packets[t], after, c);
  }

  lemma PartTouches(cfg: Config, l: Loop, before: seq<Packet>, part: seq<Packet>, after: seq<Packet>, c: nat)
    requires Fit(before, |l.mem|) && Fit(part, |l.mem|) && Fit(before + part + after, |l.mem|)
    requires var f := Feed(cfg, l.st, l.mem, before);
             !f.wild && Has(FeedItems(cfg, f.st, f.mem, part), c) && !Feed(cfg, f.st, f.mem, part).wild
    ensures Has(FeedItems(cfg, l.st, l.mem, before + part + after), c)
  {
    hide Feed, FeedItems, Has;
    var f := Feed(cfg, l.st, l.mem, before);
    var g := Feed(cfg, f.st, f.mem, part);
    assert Fit(after, |l.mem|) by {
      forall k | 0 <= k < |after|
        ensures |after[k]| <= |l.mem|
      {
        assert after[k] == (before + part + after)[|before + part| + k];
      }
    }
    FeedItemsConcat(cfg, l.st, l.mem, before, part);
    FeedConcat(cfg, l.st, l.mem, before, part);
    FeedItemsConcat(cfg, l.st, l.mem, before + part, after);
    var first, rest := FeedItems(cfg, l.st, l.mem, before), FeedItems(cfg, g.st, g.mem, after);
    HasIn(first, FeedItems(cfg, f.st, f.mem, part), rest, c);
  }

  /** A channel belongs to the same record through a whole run. */
  lemma {:induction false} ParentStays(s: Setup, h: Sender.History, t: nat, c: nat)
    requires GoodRun(s, h.run, h.states, h.records) && t <= |h.run.inputs| && c < |h.run.start.channels|
    ensures |h.states[t].channels| == |h.run.start.channels|
    ensures h.states[t].channels[c].parent == h.run.start.channels[c].parent
  {
    hide GoodAt, ChannelsOk;
    if t > 0 {
      ParentStays(s, h, t - 1, c);
      LastCallback.NotSentIsAlike(s, h.run, h.states, h.records, t, c);
    }
  }

  /** The iterations of the sender arrive in passes of the receiver, one after another. */
  ghost predicate Schedule(s: Setup, h: Sender.History, ls: seq<Loop>, xs: seq<Input>, at: seq<nat>)
    requires |ls| == |xs| + 1
  {
    && |h.seqNos| == |h.packets| == |h.run.inputs| + 1 == |at|
    && (forall t, u :: 0 <= t <= u < |at| ==> at[t] <= at[u])
    && (forall t :: 0 <= t < |at| ==> at[t] < |xs|)
    && forall t: nat :: 0 < t < |at| ==> ArrivesIn(s, h, t, ls[at[t]], xs[at[t]])
  }

  /** The loop clock shows less than two heartbeats of the receiver until 2 * heartbeat - 1 iterations have arrived. */
  ghost predicate Prompt(heartbeat: real, h: Sender.History, ls: seq<Loop>, xs: seq<Input>, at: seq<nat>)
    requires |ls| == |xs| + 1
  {
    forall t: nat, u: nat, i: nat ::
      t <= u < |at| && u <= t + 2 * h.run.heartbeat - 1 && at[t] <= i < at[u] && i < |xs| ==>
        (xs[i].clock - ls[at[t]].st.now) as real < 2.0 * heartbeat * NS_PER_SECOND as real
  }

  /** The last iteration that transmits record r and arrives by pass m. */
  lemma {:induction false} LastArrival(h: Sender.History, at: seq<nat>, r: nat, m: nat, u0: nat, n: nat)
    returns (u: nat)
    requires |h.records| == |at| && u0 <= n < |at| && r in h.records[u0] && at[u0] <= m
    ensures u0 <= u <= n && r in h.records[u] && at[u] <= m
    ensures forall v: nat :: u < v <= n && r in h.records[v] ==> at[v] > m
    decreases n
  {
    if r in h.records[n] && at[n] <= m {
      u := n;
    } else {
      u := LastArrival(h, at, r, m, u0, n - 1);
    }
  }

  /**
   The heartbeat does what it is for: on a network that loses nothing, as long as the packets of 2 * heartbeat - 1
   iterations arrive before the loop clock shows two heartbeats, no timeout of a channel fires between the first
   heartbeats and the last iteration, even if Channel Access reports nothing at all. This is for the channels of records
   that are not sent as fragments; for others Timeouts.UntouchedFiresIff holds.
   */
  lemma NoFalseTimeouts(s: Setup, heartbeat: real, h: Sender.History, ls: seq<Loop>, xs: seq<Input>, at: seq<nat>,
                        c: nat, m: nat)
    requires Sender.OnWire(HeaderBytes(s.startup, s.cfg.hash), h) && GoodRun(s, h.run, h.states, h.records)
    requires IsLoopRun(s.cfg, heartbeat, ls, xs) && ClocksRise(ls[0], xs)
    requires ls[0].st.now == 0 <= ls[0].lastHeartbeat && |ls[0].st.channels| == |h.run.start.channels|
    requires Schedule(s, h, ls, xs, at) && Prompt(heartbeat, h, ls, xs, at) && c < |h.run.start.channels|
    requires forall t: nat :: t < |at| && h.run.start.channels[c].parent < |h.states[t].channels| ==>
               !Oversized(h.states[t].channels[h.run.start.channels[c].parent])
    requires 2 * h.run.heartbeat - 1 < |at| && at[2 * h.run.heartbeat - 1] <= m < at[|at| - 1]
    ensures var ws, ps := Watches(ls), Passes(s.cfg, heartbeat, ls, xs);
            && c < |ws[m].channels| && Timeouts.PassFits(|ws[m].channels|, ps[m])
            && !Timeouts.Fires(heartbeat, ws[m], ps[m], c)
  {
    hide GoodAt, LoopRunStep, ArrivesIn, Sender.OnWire, PassOf, Timeouts.Fires, Timeouts.Touches, ChannelsOk, Oversized,
         Passes, Watches, SenderQueue.IsRun;
    var u, v := RecentArrival(s, h, at, c, m);
    ParentStays(s, h, u, c);
    TouchedInPass(s, heartbeat, h, ls, xs, at, u, c);
    RunIsLoop(s.cfg, heartbeat, ls, xs);
    ShowsFresh(s.cfg, heartbeat, ls, xs, c, at[u], m);
  }

  lemma ShowsFresh(cfg: Config, heartbeat: real, ls: seq<Loop>, xs: seq<Input>, c: nat, j: nat, m: nat)
    requires IsLoopRun(cfg, heartbeat, ls, xs) && j <= m < |xs| && c < |ls[0].st.channels|
    requires Timeouts.IsLoop(heartbeat, Watches(ls), Passes(cfg, heartbeat, ls, xs))
    requires Timeouts.Touches(Passes(cfg, heartbeat, ls, xs)[j], c)
    requires (xs[m].clock - ls[j].st.now) as real < 2.0 * heartbeat * NS_PER_SECOND as real
    ensures var ws, ps := Watches(ls), Passes(cfg, heartbeat, ls, xs);
            && c < |ws[m].channels| && Timeouts.PassFits(|ws[m].channels|, ps[m])
            && !Timeouts.Fires(heartbeat, ws[m], ps[m], c)
  {
    hide Timeouts.Fires, Timeouts.Touches, Timeouts.IsLoop, FeedItems;
    assert LoopRunStep(cfg, heartbeat, ls[m], xs[m], ls[m + 1]);
    Timeouts.NotWhileFresh(heartbeat, Watches(ls), Passes(cfg, heartbeat, ls, xs), c, j, m);
  }

  /** The last iteration u that carries channel c and arrives by pass m; it is followed by one that arrives later. */
  lemma RecentArrival(s: Setup, h: Sender.History, at: seq<nat>, c: nat, m: nat) returns (u: nat, v: nat)
    requires GoodRun(s, h.run, h.states, h.records) && c < |h.run.start.channels| && |at| == |h.run.inputs| + 1
    requires forall t, w :: 0 <= t <= w < |at| ==> at[t] <= at[w]
    requires 2 * h.run.heartbeat - 1 < |at| && at[2 * h.run.heartbeat - 1] <= m < at[|at| - 1]
    ensures 0 < u <= v < |at| && v <= u + 2 * h.run.heartbeat - 1 && at[u] <= m < at[v]
    ensures h.run.start.channels[c].parent in h.records[u]
    ensures h.run.start.channels[c].parent < |h.run.start.channels|
  {
    hide GoodAt, ChannelsOk;
    var r, n, k := h.run.start.channels[c].parent, |at| - 1, 2 * h.run.heartbeat - 1;
    SenderQueue.RunKeepsInv(h.run, h.states, h.records, 0);
    Layout.ParentIsRecord(h.run.start.channels, c);
    SenderQueue.HeartbeatBound(h.run, h.states, h.records, r, 0);
    var u0: nat :| 0 < u0 <= k && r in h.records[u0];
    u := LastArrival(h, at, r, m, u0, n);
    v := if u + k <= n then u + k else n;
    if u + k <= n {
      SenderQueue.HeartbeatBound(h.run, h.states, h.records, r, u);
      var w: nat :| u < w <= u + k && r in h.records[w];
    }
  }

  lemma TouchedInPass(s: Setup, heartbeat: real, h: Sender.History, ls: seq<Loop>, xs: seq<Input>, at: seq<nat>,
                      u: nat, c: nat)
    requires Sender.OnWire(HeaderBytes(s.startup, s.cfg.hash), h) && GoodRun(s, h.run, h.states, h.records)
    requires IsLoopRun(s.cfg, heartbeat, ls, xs) && Schedule(s, h, ls, xs, at) && 0 < u < |at|
    requires c < |h.states[u].channels| && h.states[u].channels[c].parent in h.records[u]
    requires h.states[u].channels[c].parent < |h.states[u].channels|
    requires !Oversized(h.states[u].channels[h.states[u].channels[c].parent])
    ensures Timeouts.Touches(Passes(s.cfg, heartbeat, ls, xs)[at[u]], c)
  {
    hide GoodAt, ArrivesIn, Sender.OnWire;
    var i := at[u];
    assert LoopRunStep(s.cfg, heartbeat, ls[i], xs[i], ls[i + 1]);
    ArrivalTouches(s, h, u, ls[i], xs[i], h.states[u].channels[c].parent, c);
  }

  // ---------------------------------------------------------------- the object

  ghost function LoopOf(r: Receiver): (l: Loop)
    requires r.Valid()
    reads r, r.receiveBuffer, r.fragmentBuffer
  {
    Loop(r.St(), r.receiveBuffer[..], r.lastHeartbeatTime)
  }

  lemma FeedStep(cfg: Config, st: State, mem: seq<Byte>, ps: seq<Packet>, k: nat, before: seq<Event>)
    requires Fit(ps, |mem|) && k < |ps|
    ensures Fit(ps[k..], |mem|)
    ensures var m := Load(mem, ps[k]);
            var o := Receive(cfg, st, m, |ps[k]|);
            && Fit(ps[k + 1..], |m|)
            && var f, g := Feed(cfg, st, mem, ps[k..]), Feed(cfg, o.st, m, ps[k + 1..]);
               f.(events := before + f.events)
               == if o.wild then Fed(o.st, m, before + o.events, true)
                  else g.(events := (before + o.events) + g.events)
  {
    hide Receive, Load;
    var rest, m := ps[k..], Load(mem, ps[k]);
    assert rest[0] == ps[k] && rest[1..] == ps[k + 1..];
    var o := Receive(cfg, st, m, |ps[k]|);
    if !o.wild {
      var g := Feed(cfg, o.st, m, ps[k + 1..]);
      assert before + (o.events + g.events) == (before + o.events) + g.events;
    }
  }

  lemma FeedEnd(cfg: Config, st: State, mem: seq<Byte>, ps: seq<Packet>, before: seq<Event>)
    ensures Fit(ps[|ps|..], |mem|)
    ensures var f := Feed(cfg, st, mem, ps[|ps|..]);
            f.(events := before + f.events) == Fed(st, mem, before, false)
  {
    FeedNone(cfg, st, mem);
    assert ps[|ps|..] == [] && before + [] == before;
  }

  /** A datagram put into the receive buffer by the socket; the bytes behind it stay. */
  method Deliver(buf: array<Byte>, gram: Packet)
    requires |gram| <= buf.Length
    modifies buf
    ensures buf[..] == Load(old(buf[..]), gram)
  {
    forall i | 0 <= i < |gram| {
      buf[i] := gram[i];
    }
  }

  /** One pass of the loop of run: at most 100 datagrams, then the clock and the check for silent channels. */
  method ReceivePass(r: Receiver, x: Input) returns (events: seq<Event>, timedOut: seq<nat>, wild: bool)
    requires r.Valid() && Fit(x.Taken(), r.receiveBuffer.Length)
    modifies r, r.receiveBuffer, r.fragmentBuffer
    ensures r.Valid() && (r.fragmentBuffer == old(r.fragmentBuffer) || fresh(r.fragmentBuffer))
    ensures Passed(LoopOf(r), events, timedOut, wild) == AfterPass(r.cfg, r.heartbeatPeriod, old(LoopOf(r)), x)
  {
    hide Receive, Load, Feed;
    events, timedOut, wild := [], [], false;
    var k := 0;
    ghost var all, whole := x.Taken(), Feed(r.cfg, r.St(), r.receiveBuffer[..], x.Taken());
    assert all[0..] == all && [] + whole.events == whole.events;
    while k < |x.grams| && k < MAX_PACKETS
      invariant r.Valid() && !wild && k <= |all| && r.lastHeartbeatTime == old(r.lastHeartbeatTime)
      invariant r.fragmentBuffer == old(r.fragmentBuffer) || fresh(r.fragmentBuffer)
      invariant Fit(all[k..], r.receiveBuffer.Length)
      invariant var f := Feed(r.cfg, r.St(), r.receiveBuffer[..], all[k..]);
                f.(events := events + f.events) == whole
    {
      FeedStep(r.cfg, r.St(), r.receiveBuffer[..], all, k, events);
      var gram := x.grams[k];
      assert gram == all[k];
      ghost var st := r.St();
      Deliver(r.receiveBuffer, gram);
      assert r.St() == st;
      var more, w := r.ReceiveUpdates(|gram|);
      events, wild, k := events + more, w, k + 1;
      if wild {
        return;
      }
    }
    FeedEnd(r.cfg, r.St(), r.receiveBuffer[..], all, events);
    r.currentUpdateTime := x.clock;
    timedOut := r.CheckNoUpdates();
  }

  /**
   run, with what the socket and the clock deliver in its passes: it ends when the runtime, if it is positive, is over,
   or with the last of these inputs.
   */
  method Run(r: Receiver, runtime: real, start: int, xs: seq<Input>)
    returns (k: nat, events: seq<seq<Event>>, timedOut: seq<seq<nat>>, wild: bool, ghost ls: seq<Loop>)
    requires r.Valid() && forall i :: 0 <= i < |xs| ==> Fit(xs[i].Taken(), r.receiveBuffer.Length)
    modifies r, r.receiveBuffer, r.fragmentBuffer
    ensures r.Valid() && k <= |xs|
    ensures !wild ==>
              && |ls| == k + 1 && |events| == |timedOut| == k && ls[0] == old(LoopOf(r)) && ls[k] == LoopOf(r)
              && (forall i: nat :: i < k ==>
                    PassMakes(r.cfg, r.heartbeatPeriod, ls[i], xs[i], events[i], timedOut[i], ls[i + 1]))
              && (k < |xs| ==> k > 0 && runtime > 0.0 && Elapsed(xs[k - 1].clock, start, runtime))
              && forall j :: 0 <= j < k - 1 && runtime > 0.0 ==> !Elapsed(xs[j].clock, start, runtime)
  {
    hide AfterPass, Elapsed;
    k, events, timedOut, wild, ls := 0, [], [], false, [LoopOf(r)];
    var done := false;
    while k < |xs| && !done
      invariant r.Valid() && k <= |xs| && !wild && |ls| == k + 1 && |events| == |timedOut| == k
      invariant r.fragmentBuffer == old(r.fragmentBuffer) || fresh(r.fragmentBuffer)
      invariant ls[0] == old(LoopOf(r)) && ls[k] == LoopOf(r)
      invariant forall i: nat :: i < k ==>
                  PassMakes(r.cfg, r.heartbeatPeriod, ls[i], xs[i], events[i], timedOut[i], ls[i + 1])
      invariant done ==> k > 0 && runtime > 0.0 && Elapsed(xs[k - 1].clock, start, runtime)
      invariant forall j :: 0 <= j < k && (j < k - 1 || !done) && runtime > 0.0 ==>
                  !Elapsed(xs[j].clock, start, runtime)
      decreases |xs| - k, !done
    {
      var x := xs[k];
      var e, t, w := ReceivePass(r, x);
      events, timedOut, wild, k := events + [e], timedOut + [t], w, k + 1;
      if wild {
        return;
      }
      ls := ls + [LoopOf(r)];
      done := runtime > 0.0 && Elapsed(x.clock, start, runtime);
    }
  }

  /** The passes of the object are a run of the loop. */
  lemma PassesAreRun(cfg: Config, heartbeat: real, ls: seq<Loop>, xs: seq<Input>, events: seq<seq<Event>>,
                     timedOut: seq<seq<nat>>)
    requires |ls| == |xs| + 1 && |events| == |timedOut| == |xs|
    requires forall i: nat :: i < |xs| ==>
               PassMakes(cfg, heartbeat, ls[i], xs[i], events[i], timedOut[i], ls[i + 1])
    ensures IsLoopRun(cfg, heartbeat, ls, xs)
  {
    hide AfterPass;
    forall i: nat | i < |xs|
      ensures LoopRunStep(cfg, heartbeat, ls[i], xs[i], ls[i + 1])
    {
      assert PassMakes(cfg, heartbeat, ls[i], xs[i], events[i], timedOut[i], ls[i + 1]);
    }
  }
}
