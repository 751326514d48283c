/**
 What the receiver's client knows: the last callback for each channel, over whole runs on a network that delivers every
 packet in order.
 */
module LastCallback {
  import opened Bytes
  import opened Protocol
  import Layout
  import SenderQueue
  import opened Packing
  import opened Receiver
  import opened EndToEnd
  import opened Replication

  /** The last callback for channel i. */
  function LastFor(events: seq<Event>, i: nat): (e: Option<Event>) {
    if events == [] then None
    else
      var n := |events| - 1;
      if events[n].id == i then Some(events[n]) else LastFor(events[..n], i)
  }

  lemma {:induction false} LastConcat(a: seq<Event>, b: seq<Event>, i: nat)
    ensures LastFor(a + b, i) == if LastFor(b, i).Some? then LastFor(b, i) else LastFor(a, i)
    decreases |b|
  {
    if b == [] {
      assert a + b == a;
    } else {
      var n := |b| - 1;
      LastConcat(a, b[..n], i);
      assert (a + b)[..|a + b| - 1] == a + b[..n];
    }
  }

  /** In a list of callbacks for channels one after another, each has its own. */
  lemma {:induction false} LastInList(events: seq<Event>, first: nat, i: nat)
    requires forall k :: 0 <= k < |events| ==> events[k].id == first + k
    ensures LastFor(events, i) == if first <= i < first + |events| then Some(events[i - first]) else None
  {
    if events != [] {
      LastInList(events[..|events| - 1], first, i);
    }
  }

  // ---------------------------------------------------------------- one iteration

  /** The callback tells the state of the channel: not connected, or its type, count and bytes. */
  predicate Reports(e: Event, c: Layout.Channel) {
    && e.id == c.index && e.data == c.value
    && if c.count == -1 then e.count == MINUS_ONE_32 else e.count == c.count && e.typ == c.typ % U16
  }

  /** Channel i, or the record that it is a field of, is transmitted as an update of its own. */
  predicate Carried(ch: seq<Layout.Channel>, i: nat)
    requires i < |ch| && ch[i].parent < |ch|
  {
    i == ch[i].parent || !Oversized(ch[ch[i].parent])
  }

  /** A member of a group that is sent in one piece. */
  lemma MemberReports(cfg: Config, ch: seq<Layout.Channel>, r: nat, i: nat)
    requires SizesOk(cfg.size) && ChannelsOk(cfg.size, ch) && |ch| <= U32 && Layout.WellLaid(ch) && r < |ch|
    requires ValueSize(Group(ch, r)) <= MAX_DATA_SIZE && r <= i <= Layout.GroupEnd(ch, r)
    ensures Reports(Delivered(WireItem(ch[i])), ch[i]) && WireItem(ch[i]).id == i
  {
    var g := Group(ch, r);
    assert g[i - r] == ch[i] && Layout.LaidAt(ch, i) && ChannelOk(cfg.size, ch[i]);
    ValueSizeAtLeast(g, i - r);
    hide Group, ValueSize, ChannelsOk;
    WireItemOk(cfg, ch[i]);
  }

  /** The callbacks of a record that is sent in one piece with its fields. */
  lemma LastOfGroup(cfg: Config, ch: seq<Layout.Channel>, r: nat, i: nat)
    requires SizesOk(cfg.size) && ChannelsOk(cfg.size, ch) && |ch| <= U32 && Layout.WellLaid(ch) && r < |ch|
    requires ValueSize(Group(ch, r)) <= MAX_DATA_SIZE
    ensures var last := LastFor(DeliveredAll(GroupItems(Group(ch, r))), i);
            if r <= i <= Layout.GroupEnd(ch, r) then last.Some? && Reports(last.value, ch[i]) else last == None
  {
    hide ValueSize, Reports, ChannelsOk, SizesOk;
    var es := DeliveredAll(GroupItems(Group(ch, r)));
    forall k | 0 <= k < |es|
      ensures es[k].id == r + k
    {
      MemberReports(cfg, ch, r, r + k);
    }
    LastInList(es, r, i);
    if r <= i <= Layout.GroupEnd(ch, r) {
      MemberReports(cfg, ch, r, i);
    }
  }

  /** The callbacks of the record of channel i tell its state, those of another record do not touch it. */
  lemma LastOfRecord(cfg: Config, ch: seq<Layout.Channel>, r: nat, i: nat)
    requires Agree(cfg, ch, [r]) && AllSendable(ch, [r]) && i < |ch| && Layout.IsRecord(ch, r)
    ensures var last := LastFor(RecordEvents(ch, r), i);
            if ch[i].parent == r && Carried(ch, i) then last.Some? && Reports(last.value, ch[i]) else last == None
  {
    hide ValueSize, AlignedSize, Group, GroupItems;
    Layout.GroupExact(ch, r, i);
    if Oversized(ch[r]) {
      assert Layout.LaidAt(ch, r) && ChannelOk(cfg.size, ch[r]);
      LastInList([FragEvent(ch[r])], r, i);
    } else {
      assert Sendable(ch, [r][0]);
      LastOfGroup(cfg, ch, r, i);
    }
  }

  lemma {:induction false} LastOfQueue(cfg: Config, ch: seq<Layout.Channel>, q: seq<nat>, i: nat)
    requires Agree(cfg, ch, q) && AllSendable(ch, q) && i < |ch|
    ensures ch[i].parent < |ch|
    ensures var last := LastFor(QueueEvents(ch, q), i);
            if ch[i].parent in q && Carried(ch, i) then last.Some? && Reports(last.value, ch[i]) else last == None
    decreases |q|
  {
    hide RecordEvents, Reports, Carried, ChannelsOk, SizesOk, Sendable;
    Layout.ParentIsRecord(ch, i);
    if q != [] {
      var n := |q| - 1;
      assert q[..n] + [q[n]] == q;
      assert AllSendable(ch, [q[n]]) && AllSendable(ch, q[..n]);
      QueueEventsSplit(ch, q, n);
      assert q[n..] == [q[n]];
      assert QueueEvents(ch, q[n..]) == RecordEvents(ch, q[n]) by {
        assert RecordEvents(ch, q[n]) + [] == RecordEvents(ch, q[n]);
      }
      LastOfQueue(cfg, ch, q[..n], i);
      LastOfRecord(cfg, ch, q[n], i);
      LastConcat(QueueEvents(ch, q[..n]), RecordEvents(ch, q[n]), i);
    }
  }

  // ---------------------------------------------------------------- what is not transmitted has not changed

  /** What never changes about a channel. */
  predicate SamePlace(a: Layout.Channel, b: Layout.Channel) {
    a.index == b.index && a.parent == b.parent && a.polled == b.polled
  }

  /** The same as far as a callback can tell: the type of a channel that is not connected is not told. */
  predicate Alike(a: Layout.Channel, b: Layout.Channel) {
    a.index == b.index && a.count == b.count && a.value == b.value && (a.count != -1 ==> a.typ == b.typ)
  }

  /** The hash tells any two values of one size apart. */
  ghost predicate TellsApart(hash: SenderQueue.Hash) {
    forall a: seq<Byte>, b: seq<Byte> :: |a| == |b| && hash(a) == hash(b) ==> a == b
  }

  /** A polled channel that is connected keeps the hash of its value. */
  predicate HashKept(hash: SenderQueue.Hash, c: Layout.Channel) {
    c.polled && c.count != -1 ==> c.hash == Some(hash(c.value))
  }

  /** The same value; only the count may differ, where dbr_size_n does not tell the two apart. */
  predicate SameValue(size: SizeOf, a: Layout.Channel, b: Layout.Channel) {
    && a.index == b.index && a.value == b.value && (a.count == -1 <==> b.count == -1)
    && (a.count >= 0 && b.count >= 0 ==> a.typ == b.typ && size(a.typ % U16, a.count) == size(b.typ % U16, b.count))
  }

  /** One event leaves a channel as it is, or marks its record; for a polled channel this takes a hash that tells. */
  lemma UnmarkedOnce(size: SizeOf, hash: SenderQueue.Hash, st: Sending, e: SenderQueue.CaEvent, i: nat)
    requires SenderQueue.QueueInv(st) && EventOk(size, st.channels, e) && i < |st.channels|
    requires SizesOk(size) && ChannelOk(size, st.channels[i])
    ensures var st' := SenderQueue.Handle(hash, st, e);
            && |st'.channels| == |st.channels| && SamePlace(st.channels[i], st'.channels[i])
            && var c, c' := st.channels[i], st'.channels[i];
               && (HashKept(hash, c) ==> HashKept(hash, c'))
               && (c.parent !in st'.queue ==>
                     && c.parent !in st.queue
                     && (!c.polled ==> Alike(c, c'))
                     && (TellsApart(hash) && HashKept(hash, c) ==> SameValue(size, c, c')))
  {
    var mark := SenderQueue.ChannelAfter(hash, st.channels[e.i], e).1;
    SenderQueue.HandleQueue(hash, st, e, mark);
    if e.i == i && e.Value? && !mark {
      assert |st.channels[i].value| == |e.data| >= 1;
    }
  }

  /**
   A channel that is not polled, and whose record no event has marked, is as it was. So is a polled one, if the hash
   tells values of one size apart, but for a count that does not change the size.
   */
  lemma {:induction false} UnmarkedIsAlike(size: SizeOf, hash: SenderQueue.Hash, st: Sending,
                                           es: seq<SenderQueue.CaEvent>, i: nat)
    requires SenderQueue.QueueInv(st) && SenderQueue.EventsFit(es, |st.channels|) && EventsOk(size, hash, st, es)
    requires i < |st.channels| && SizesOk(size) && ChannelsOk(size, st.channels)
    ensures var st' := SenderQueue.HandleAll(hash, st, es);
            && |st'.channels| == |st.channels| && SamePlace(st.channels[i], st'.channels[i])
            && var c, c' := st.channels[i], st'.channels[i];
               && (HashKept(hash, c) ==> HashKept(hash, c'))
               && (c.parent !in st'.queue ==>
                     && (!c.polled ==> Alike(c, c'))
                     && (TellsApart(hash) && HashKept(hash, c) ==> SameValue(size, c, c')))
    decreases |es|
  {
    if es != [] {
      var n := |es| - 1;
      var st1 := SenderQueue.HandleAll(hash, st, es[..n]);
      UnmarkedIsAlike(size, hash, st, es[..n], i);
      SenderQueue.HandleAllKeepsInv(hash, st, es[..n]);
      AllEventsKeepChannelsOk(size, hash, st, es[..n]);
      hide TellsApart, HashKept;
      UnmarkedOnce(size, hash, st1, es[n], i);
    }
  }

  // ---------------------------------------------------------------- whole runs

  /** All callbacks up to iteration t. */
  function CallbacksUpTo(events: seq<seq<Event>>, t: nat): (all: seq<Event>)
    requires t < |events|
  {
    if t == 0 then [] else CallbacksUpTo(events, t - 1) + events[t]
  }

  /** The record of channel i was transmitted by iteration t or before. */
  ghost predicate SentBy(sent: seq<seq<nat>>, r: nat, t: nat)
    requires t < |sent|
  {
    exists u: nat :: 0 < u <= t && r in sent[u]
  }

  /** One iteration: if it does not transmit the record of channel i, the channel stays as it is. */
  lemma NotSentIsAlike(s: Setup, run: Run, states: seq<Sending>, sent: seq<seq<nat>>, t: nat, i: nat)
    requires GoodRun(s, run, states, sent) && 0 < t <= |run.inputs|
    requires i < |states[t - 1].channels|
    ensures |states[t].channels| == |states[t - 1].channels|
    ensures SamePlace(states[t - 1].channels[i], states[t].channels[i])
    ensures var c, c' := states[t - 1].channels[i], states[t].channels[i];
            && (HashKept(run.hash, c) ==> HashKept(run.hash, c'))
            && (c'.parent !in sent[t] ==>
                  && (!c'.polled ==> Alike(c, c'))
                  && (TellsApart(run.hash) && HashKept(run.hash, c) ==> SameValue(s.cfg.size, c, c')))
  {
    hide AllSendable, EventsOk, ChannelsOk, Alike, SameValue, HashKept, TellsApart, SizesOk;
    ChannelsStayOk(s, run, states, sent, t - 1);
    var st, es := states[t - 1], run.inputs[t - 1];
    SenderQueue.RunKeepsInv(run, states, sent, t - 1);
    assert GoodAt(s, run, states, sent, t);
    assert SenderQueue.Iteration(run, t, st, sent[t], states[t]);
    var ready := ReadyAt(run, states, sent, t);
    var r := st.channels[i].parent;
    UnmarkedIsAlike(s.cfg.size, run.hash, st, es, i);
    var st1 := SenderQueue.HandleAll(run.hash, st, es);
    SenderQueue.HandleAllKeepsInv(run.hash, st, es);
    Layout.ParentIsRecord(st.channels, i);
    assert r in st1.queue ==> r in sent[t] by {
      if t % run.heartbeat == 0 {
        SenderQueue.HeartbeatExact(st1, r);
      }
    }
  }

  /** What a client of the receiver has been told about channel i. */
  ghost predicate Told(events: seq<seq<Event>>, ch: seq<Layout.Channel>, t: nat, i: nat)
    requires t < |events| && i < |ch|
  {
    var last := LastFor(CallbacksUpTo(events, t), i);
    last.Some? && Reports(last.value, ch[i])
  }

  /** The last iteration up to number t that carried channel i; 0 if there is none. */
  function LastCarried(states: seq<Sending>, sent: seq<seq<nat>>, t: nat, i: nat): (u: nat)
    requires t < |states| && t < |sent|
    ensures u <= t
  {
    if t == 0 then 0
    else
      var ch := states[t].channels;
      if i < |ch| && ch[i].parent < |ch| && ch[i].parent in sent[t] && Carried(ch, i) then t
      else LastCarried(states, sent, t - 1, i)
  }

  /** The last callback for a channel is that of the last iteration that carried it, and tells its state then. */
  lemma {:induction false} LastIsCarried(s: Setup, run: Run, states: seq<Sending>, sent: seq<seq<nat>>,
                                         links: seq<Link>, events: seq<seq<Event>>, t: nat, i: nat)
    requires IsSession(s, run, states, sent, links, events) && t <= |run.inputs| && i < |run.start.channels|
    ensures var u, last := LastCarried(states, sent, t, i), LastFor(CallbacksUpTo(events, t), i);
            && i < |states[u].channels|
            && if u > 0 then last.Some? && Reports(last.value, states[u].channels[i]) else last == None
  {
    hide GoodAt, SessionStep, QueueEvents, Linked, AllSendable, ChannelsOk, Reports, SizesOk, Queued, Carried;
    SenderQueue.RunKeepsInv(run, states, sent, t);
    if t > 0 {
      LastIsCarried(s, run, states, sent, links, events, t - 1, i);
      RunArrives(s, run, states, sent, links, events, t);
      ReadyAgrees(s, run, states, sent, t);
      LastOfQueue(s.cfg, states[t].channels, sent[t], i);
      LastConcat(CallbacksUpTo(events, t - 1), events[t], i);
    }
  }

  /** A callback that tells the state a also tells the state b. */
  predicate TellsSame(a: Layout.Channel, b: Layout.Channel) {
    a.index == b.index && a.value == b.value && a.count == b.count && (a.count == -1 || a.typ % U16 == b.typ % U16)
  }

  lemma ReportsBothIff(cfg: Config, e: Event, a: Layout.Channel, b: Layout.Channel)
    requires SizesOk(cfg.size) && ChannelOk(cfg.size, a) && ChannelOk(cfg.size, b) && Reports(e, a)
    ensures Reports(e, b) <==> TellsSame(a, b)
  {
  }

  /**
   Exactly what the client knows, for every channel of every run: the last callback for it tells the state that it has
   at the sender if and only if some iteration has carried it, and what a callback tells of it is the same as it was
   then. So polled fields, and the fields of records that are sent as fragments, are known as long as they do not
   change.
   */
  lemma ToldIff(s: Setup, run: Run, states: seq<Sending>, sent: seq<seq<nat>>, links: seq<Link>,
                events: seq<seq<Event>>, t: nat, i: nat)
    requires IsSession(s, run, states, sent, links, events) && t <= |run.inputs| && i < |run.start.channels|
    ensures var u := LastCarried(states, sent, t, i);
            && i < |states[u].channels| && i < |states[t].channels|
            && (Told(events, states[t].channels, t, i)
                <==> u > 0 && TellsSame(states[u].channels[i], states[t].channels[i]))
  {
    hide GoodAt, SessionStep, Linked, Reports, TellsSame;
    var u := LastCarried(states, sent, t, i);
    LastIsCarried(s, run, states, sent, links, events, t, i);
    SenderQueue.RunKeepsInv(run, states, sent, t);
    ChannelsStayOk(s, run, states, sent, t);
    ChannelsStayOk(s, run, states, sent, u);
    if u > 0 {
      var last := LastFor(CallbacksUpTo(events, t), i);
      ReportsBothIff(s.cfg, last.value, states[u].channels[i], states[t].channels[i]);
    }
  }

  /**
   Replication: after every iteration of every run, the last callback for a channel tells the state that the channel has
   at the sender, once its record has been transmitted. This holds for all channels that are not polled, except for the
   fields of a record whose value is so large that it is sent as fragments, without its fields.
   */
  lemma {:induction false} ClientKnows(s: Setup, run: Run, states: seq<Sending>, sent: seq<seq<nat>>, links: seq<Link>,
                                       events: seq<seq<Event>>, t: nat, i: nat)
    requires IsSession(s, run, states, sent, links, events) && t <= |run.inputs| && i < |run.start.channels|
    ensures var ch := states[t].channels;
            && i < |ch| && ch[i].parent < |ch|
            && (SentBy(sent, ch[i].parent, t) && !ch[i].polled && !ch[ch[i].parent].polled && Carried(ch, i) ==>
                  Told(events, ch, t, i))
  {
    hide GoodAt, SessionStep, QueueEvents, Linked, AllSendable, ChannelsOk, Reports, SizesOk, Queued;
    SenderQueue.RunKeepsInv(run, states, sent, t);
    Layout.ParentIsRecord(states[t].channels, i);
    if t > 0 {
      var ch, r := states[t].channels, states[t].channels[i].parent;
      SenderQueue.RunKeepsInv(run, states, sent, t - 1);
      ClientKnows(s, run, states, sent, links, events, t - 1, i);
      RunArrives(s, run, states, sent, links, events, t);
      ReadyAgrees(s, run, states, sent, t);
      LastOfQueue(s.cfg, ch, sent[t], i);
      LastConcat(CallbacksUpTo(events, t - 1), events[t], i);
      NotSentIsAlike(s, run, states, sent, t, i);
      NotSentIsAlike(s, run, states, sent, t, r);
      if r !in sent[t] && SentBy(sent, r, t) && !ch[i].polled && !ch[r].polled && Carried(ch, i) {
        assert SentBy(sent, r, t - 1);
        var last := LastFor(CallbacksUpTo(events, t - 1), i);
        AlikeReports(last.value, states[t - 1].channels[i], ch[i]);
      }
    }
  }

  /** The callback tells the bytes and the type of a channel, or that it is not connected. */
  predicate ReportsValue(e: Event, c: Layout.Channel) {
    && e.id == c.index && e.data == c.value
    && if c.count == -1 then e.count == MINUS_ONE_32 else e.typ == c.typ % U16
  }

  lemma ReportsValueOf(cfg: Config, e: Event, a: Layout.Channel, b: Layout.Channel)
    requires SizesOk(cfg.size) && ChannelOk(cfg.size, a) && ChannelOk(cfg.size, b) && SameValue(cfg.size, a, b)
    ensures ReportsValue(e, a) ==> ReportsValue(e, b)
    ensures Reports(e, b) ==> ReportsValue(e, b)
  {
  }

  /** Polled channels keep the hash of what they hold. */
  ghost predicate HashesKept(hash: SenderQueue.Hash, ch: seq<Layout.Channel>) {
    forall i :: 0 <= i < |ch| ==> HashKept(hash, ch[i])
  }

  lemma {:induction false} HashesStay(s: Setup, run: Run, states: seq<Sending>, sent: seq<seq<nat>>, t: nat, i: nat)
    requires GoodRun(s, run, states, sent) && t <= |run.inputs| && i < |run.start.channels|
    requires HashesKept(run.hash, run.start.channels)
    ensures i < |states[t].channels| && HashKept(run.hash, states[t].channels[i])
  {
    hide HashKept, GoodAt, ChannelsOk;
    if t > 0 {
      HashesStay(s, run, states, sent, t - 1, i);
      NotSentIsAlike(s, run, states, sent, t, i);
    }
  }

  /**
   Replication with polled channels: if the hash tells values of one size apart, the last callback for any channel,
   polled or not, tells its type and its bytes, once its record has been transmitted. Only a count may be old, of a
   polled channel whose value goes from no element to one with the same bytes.
   */
  lemma {:induction false} ClientKnowsValue(s: Setup, run: Run, states: seq<Sending>, sent: seq<seq<nat>>,
                                            links: seq<Link>, events: seq<seq<Event>>, t: nat, i: nat)
    requires IsSession(s, run, states, sent, links, events) && t <= |run.inputs| && i < |run.start.channels|
    requires TellsApart(run.hash) && HashesKept(run.hash, run.start.channels)
    ensures var ch, last := states[t].channels, LastFor(CallbacksUpTo(events, t), i);
            && i < |ch| && ch[i].parent < |ch|
            && (SentBy(sent, ch[i].parent, t) && Carried(ch, i) ==> last.Some? && ReportsValue(last.value, ch[i]))
  {
    hide GoodAt, SessionStep, QueueEvents, Linked, AllSendable, ChannelsOk, Reports, ReportsValue, SizesOk, Queued,
         HashKept, HashesKept, TellsApart;
    SenderQueue.RunKeepsInv(run, states, sent, t);
    Layout.ParentIsRecord(states[t].channels, i);
    if t > 0 {
      var ch, r := states[t].channels, states[t].channels[i].parent;
      SenderQueue.RunKeepsInv(run, states, sent, t - 1);
      ClientKnowsValue(s, run, states, sent, links, events, t - 1, i);
      RunArrives(s, run, states, sent, links, events, t);
      ReadyAgrees(s, run, states, sent, t);
      LastOfQueue(s.cfg, ch, sent[t], i);
      LastConcat(CallbacksUpTo(events, t - 1), events[t], i);
      HashesStay(s, run, states, sent, t - 1, i);
      HashesStay(s, run, states, sent, t - 1, r);
      NotSentIsAlike(s, run, states, sent, t, i);
      NotSentIsAlike(s, run, states, sent, t, r);
      ValueStillTold(s, run, states, sent, t, i, LastFor(CallbacksUpTo(events, t), i));
      if r !in sent[t] && SentBy(sent, r, t) && Carried(ch, i) {
        assert SentBy(sent, r, t - 1);
      }
    }
  }

  lemma ValueStillTold(s: Setup, run: Run, states: seq<Sending>, sent: seq<seq<nat>>, t: nat, i: nat, e: Option<Event>)
    requires GoodRun(s, run, states, sent) && 0 < t <= |run.inputs|
    requires i < |states[t].channels| && |states[t].channels| == |states[t - 1].channels|
    ensures var c, c' := states[t - 1].channels[i], states[t].channels[i];
            && (e.Some? && ReportsValue(e.value, c) && SameValue(s.cfg.size, c, c') ==> ReportsValue(e.value, c'))
            && (e.Some? && Reports(e.value, c') ==> ReportsValue(e.value, c'))
  {
    hide GoodAt, SameValue;
    ChannelsStayOk(s, run, states, sent, t - 1);
    ChannelsStayOk(s, run, states, sent, t);
    if e.Some? && SameValue(s.cfg.size, states[t - 1].channels[i], states[t].channels[i]) {
      ReportsValueOf(s.cfg, e.value, states[t - 1].channels[i], states[t].channels[i]);
    }
  }

  lemma AlikeReports(e: Event, a: Layout.Channel, b: Layout.Channel)
    requires Alike(a, b) && Reports(e, a)
    ensures Reports(e, b)
  {
  }

  lemma ReadyAgrees(s: Setup, run: Run, states: seq<Sending>, sent: seq<seq<nat>>, t: nat)
    requires GoodRun(s, run, states, sent) && 0 < t <= |run.inputs|
    ensures Agree(s.cfg, states[t].channels, sent[t]) && AllSendable(states[t].channels, sent[t])
  {
    hide AllSendable, EventsOk, ChannelsOk, SizesOk, Queued;
    ChannelsStayOk(s, run, states, sent, t);
    assert GoodAt(s, run, states, sent, t);
    var ready := ReadyAt(run, states, sent, t);
  }

  /** From iteration 2 * heartbeat - 1 on, this holds for the channels of all records. */
  lemma ClientKnowsAll(s: Setup, run: Run, states: seq<Sending>, sent: seq<seq<nat>>, links: seq<Link>,
                       events: seq<seq<Event>>, t: nat, i: nat)
    requires IsSession(s, run, states, sent, links, events) && i < |run.start.channels|
    requires 2 * run.heartbeat - 1 <= t <= |run.inputs|
    ensures var ch := states[t].channels;
            && i < |ch| && ch[i].parent < |ch|
            && (!ch[i].polled && !ch[ch[i].parent].polled && Carried(ch, i) ==> Told(events, ch, t, i))
  {
    hide SessionStep, GoodAt, Linked, Told, Carried;
    ClientKnows(s, run, states, sent, links, events, t, i);
    SenderQueue.RunKeepsInv(run, states, sent, t);
    Layout.ParentIsRecord(states[t].channels, i);
    var r := states[t].channels[i].parent;
    SenderQueue.HeartbeatBound(run, states, sent, r, 0);
    var u: nat :| 0 < u <= 2 * run.heartbeat - 1 && r in sent[u];
  }
}
