/** Whole runs of a sender and a receiver over a network that delivers every packet in order. */
module Replication {
  import opened Bytes
  import opened Protocol
  import Layout
  import SenderQueue
  import opened Packing
  import opened Receiver
  import opened EndToEnd
  import Sender

  /** The sender's next number, the receiver and its receive buffer between two iterations of the sender. */
  datatype Link = Link(seqNo: nat, st: State, mem: seq<Byte>)

  /** What both sides are configured with. */
  datatype Setup = Setup(cfg: Config, startup: nat)

  ghost predicate SetupOk(s: Setup) {
    SizesOk(s.cfg.size) && s.cfg.hash < U64 && s.startup < U64
  }

  /** The receiver is ready for the sender's next number. */
  ghost predicate Linked(s: Setup, channels: nat, l: Link) {
    && |l.mem| == MAX_MESSAGE_SIZE && |l.st.channels| == channels && l.seqNo < U16
    && l.st.startup <= s.startup && InWindow(l.seqNo, FromSender(l.st, s.startup).0.lastSeq)
  }

  /** A receiver that has heard no sender as young as this one is ready for its first number. */
  lemma FirstContact(s: Setup, st: State, mem: seq<Byte>)
    requires st.startup < s.startup && |mem| == MAX_MESSAGE_SIZE
    ensures Linked(s, |st.channels|, Link(0, st, mem))
  {
  }

  /**
   One iteration seen from the wire: the packets of the drain are received; the clock of the receiver goes on, and its
   own timeouts may change the flags of its channels.
   */
  ghost predicate LinkStep(s: Setup, ch: seq<Layout.Channel>, q: seq<nat>, l: Link, events: seq<Event>, l': Link)
    requires Queued(ch, q)
  {
    var d := Drain(HeaderBytes(s.startup, s.cfg.hash), ch, q, l.seqNo);
    && Fit(d.packets, |l.mem|) && l'.seqNo == d.seqNo
    && var r := Feed(s.cfg, l.st, l.mem, d.packets);
       && events == r.events && l'.mem == r.mem && |l'.st.channels| == |r.st.channels|
       && l'.st == r.st.(channels := l'.st.channels, now := l'.st.now)
  }

  /** One iteration: exactly the callbacks of the queue, and both sides are ready for the next one. */
  lemma StepArrives(s: Setup, ch: seq<Layout.Channel>, q: seq<nat>, l: Link, events: seq<Event>, l': Link)
    requires SetupOk(s) && Agree(s.cfg, ch, q) && AllSendable(ch, q) && Linked(s, |ch|, l)
    requires LinkStep(s, ch, q, l, events, l')
    ensures events == QueueEvents(ch, q) && Linked(s, |ch|, l')
  {
    hide Drain, Feed, HeaderBytes, QueueEvents, InWindow, AllSendable;
    DrainArrives(s.cfg, l.st, l.mem, s.startup, ch, q, l.seqNo);
  }

  /** The wire never gets stuck: every iteration of a sender whose groups can all be sent has a step. */
  lemma StepExists(s: Setup, ch: seq<Layout.Channel>, q: seq<nat>, l: Link) returns (events: seq<Event>, l': Link)
    requires SetupOk(s) && Agree(s.cfg, ch, q) && AllSendable(ch, q) && Linked(s, |ch|, l)
    ensures LinkStep(s, ch, q, l, events, l')
  {
    hide Drain, Feed, HeaderBytes, QueueEvents, InWindow, AllSendable;
    DrainArrives(s.cfg, l.st, l.mem, s.startup, ch, q, l.seqNo);
    var d := Drain(HeaderBytes(s.startup, s.cfg.hash), ch, q, l.seqNo);
    var r := Feed(s.cfg, l.st, l.mem, d.packets);
    events, l' := r.events, Link(d.seqNo, r.st, r.mem);
  }

  // ---------------------------------------------------------------- whole runs

  type Run = SenderQueue.Run
  type Sending = SenderQueue.State

  /** The state in which iteration t of a run sends. */
  ghost function ReadyAt(run: Run, states: seq<Sending>, sent: seq<seq<nat>>, t: nat): (ready: Sending)
    requires SenderQueue.IsRun(run, states, sent) && 0 < t <= |run.inputs|
    ensures SenderQueue.QueueInv(ready) && |ready.channels| == |run.start.channels| && ready.queue == sent[t]
    ensures ready.channels == states[t].channels
         == SenderQueue.HandleAll(run.hash, states[t - 1], run.inputs[t - 1]).channels
    ensures Queued(ready.channels, ready.queue)
  {
    SenderQueue.RunKeepsInv(run, states, sent, t - 1);
    assert SenderQueue.Iteration(run, t, states[t - 1], sent[t], states[t]);
    SenderQueue.Ready(run, states[t - 1], t)
  }

  /** What Channel Access delivers in iteration t is in order, and every group that is then queued can be sent. */
  ghost predicate GoodAt(s: Setup, run: Run, states: seq<Sending>, sent: seq<seq<nat>>, t: nat)
    requires SenderQueue.IsRun(run, states, sent) && 0 < t <= |run.inputs|
  {
    SenderQueue.RunKeepsInv(run, states, sent, t - 1);
    var ready := ReadyAt(run, states, sent, t);
    EventsOk(s.cfg.size, run.hash, states[t - 1], run.inputs[t - 1]) && AllSendable(ready.channels, ready.queue)
  }

  ghost predicate GoodRun(s: Setup, run: Run, states: seq<Sending>, sent: seq<seq<nat>>) {
    && SetupOk(s) && SenderQueue.IsRun(run, states, sent)
    && |run.start.channels| <= U32 && ChannelsOk(s.cfg.size, run.start.channels)
    && forall t: nat :: 0 < t <= |run.inputs| ==> GoodAt(s, run, states, sent, t)
  }

  /** The wire and the callbacks of every iteration of a run. */
  ghost predicate IsSession(s: Setup, run: Run, states: seq<Sending>, sent: seq<seq<nat>>, links: seq<Link>,
                            events: seq<seq<Event>>)
  {
    && GoodRun(s, run, states, sent) && |links| == |events| == |run.inputs| + 1
    && Linked(s, |run.start.channels|, links[0])
    && forall t: nat :: 0 < t <= |run.inputs| ==>
         SessionStep(s, run, states, sent, links[t - 1], events[t], links[t], t)
  }

  ghost predicate SessionStep(s: Setup, run: Run, states: seq<Sending>, sent: seq<seq<nat>>, l: Link,
                              events: seq<Event>, l': Link, t: nat)
    requires GoodRun(s, run, states, sent) && 0 < t <= |run.inputs|
  {
    var ready := ReadyAt(run, states, sent, t);
    LinkStep(s, ready.channels, ready.queue, l, events, l')
  }

  lemma {:induction false} ChannelsStayOk(s: Setup, run: Run, states: seq<Sending>, sent: seq<seq<nat>>, t: nat)
    requires GoodRun(s, run, states, sent) && t <= |run.inputs|
    ensures ChannelsOk(s.cfg.size, states[t].channels)
  {
    hide ChannelsOk, EventsOk, AllSendable;
    if t > 0 {
      ChannelsStayOk(s, run, states, sent, t - 1);
      SenderQueue.RunKeepsInv(run, states, sent, t - 1);
      assert GoodAt(s, run, states, sent, t);
      var ready := ReadyAt(run, states, sent, t);
      AllEventsKeepChannelsOk(s.cfg.size, run.hash, states[t - 1], run.inputs[t - 1]);
    }
  }

  /** Over whole runs: every iteration calls back for exactly the records that it transmits, in queue order. */
  lemma {:induction false} RunArrives(s: Setup, run: Run, states: seq<Sending>, sent: seq<seq<nat>>, links: seq<Link>,
                                      events: seq<seq<Event>>, t: nat)
    requires IsSession(s, run, states, sent, links, events) && t <= |run.inputs|
    ensures Linked(s, |run.start.channels|, links[t])
    ensures t > 0 ==> Queued(states[t].channels, sent[t]) && events[t] == QueueEvents(states[t].channels, sent[t])
  {
    hide ChannelsOk, EventsOk, AllSendable, LinkStep, QueueEvents, Linked;
    if t > 0 {
      RunArrives(s, run, states, sent, links, events, t - 1);
      ChannelsStayOk(s, run, states, sent, t);
      assert GoodAt(s, run, states, sent, t) && SessionStep(s, run, states, sent, links[t - 1], events[t], links[t], t);
      var ready := ReadyAt(run, states, sent, t);
      StepArrives(s, ready.channels, ready.queue, links[t - 1], events[t], links[t]);
    }
  }

  // ---------------------------------------------------------------- the sender object on the wire

  /** These packets, fed to the receiver, make these callbacks; the sender goes on with number seqNo. */
  ghost predicate WireFed(s: Setup, packets: seq<Packet>, l: Link, events: seq<Event>, l': Link, seqNo: nat) {
    Fit(packets, |l.mem|) && Feed(s.cfg, l.st, l.mem, packets).events == events && l'.seqNo == seqNo
  }

  ghost predicate ObjectStep(s: Setup, h: Sender.History, l: Link, events: seq<Event>, l': Link, t: nat)
    requires GoodRun(s, h.run, h.states, h.records) && |h.seqNos| == |h.packets| == |h.run.inputs| + 1
    requires 0 < t <= |h.run.inputs|
  {
    && SessionStep(s, h.run, h.states, h.records, l, events, l', t)
    && WireFed(s, h.packets[t], l, events, l', h.seqNos[t])
  }

  ghost predicate ReadyFor(s: Setup, h: Sender.History, l: Link, t: nat)
    requires |h.seqNos| > t
  {
    Linked(s, |h.run.start.channels|, l) && l.seqNo == h.seqNos[t]
  }

  lemma OnWireStep(s: Setup, h: Sender.History, l: Link, t: nat) returns (events: seq<Event>, l': Link)
    requires Sender.OnWire(HeaderBytes(s.startup, s.cfg.hash), h) && GoodRun(s, h.run, h.states, h.records)
    requires 0 < t <= |h.run.inputs| && ReadyFor(s, h, l, t - 1)
    ensures ObjectStep(s, h, l, events, l', t) && ReadyFor(s, h, l', t)
  {
    hide Linked, Drain, Feed, HeaderBytes, ChannelsOk, EventsOk;
    var ready := ReadyAt(h.run, h.states, h.records, t);
    ChannelsStayOk(s, h.run, h.states, h.records, t);
    assert GoodAt(s, h.run, h.states, h.records, t);
    assert Sender.WireStep(HeaderBytes(s.startup, s.cfg.hash), h.states[t].channels, h.records[t], h.seqNos[t - 1],
                           h.packets[t], h.seqNos[t]);
    events, l' := StepExists(s, ready.channels, ready.queue, l);
    StepArrives(s, ready.channels, ready.queue, l, events, l');
  }

  lemma {:induction false} SessionUpTo(s: Setup, h: Sender.History, l: Link, n: nat)
    returns (links: seq<Link>, events: seq<seq<Event>>)
    requires Sender.OnWire(HeaderBytes(s.startup, s.cfg.hash), h) && GoodRun(s, h.run, h.states, h.records)
    requires n <= |h.run.inputs| && ReadyFor(s, h, l, 0)
    ensures |links| == |events| == n + 1 && links[0] == l && ReadyFor(s, h, links[n], n)
    ensures forall t: nat :: 0 < t <= n ==> ObjectStep(s, h, links[t - 1], events[t], links[t], t)
  {
    hide ObjectStep, ReadyFor, GoodAt, ChannelsOk;
    if n == 0 {
      links, events := [l], [[]];
    } else {
      var links0, events0 := SessionUpTo(s, h, l, n - 1);
      var more, next := OnWireStep(s, h, links0[n - 1], n);
      links, events := links0 + [next], events0 + [more];
      forall t: nat | 0 < t <= n
        ensures ObjectStep(s, h, links[t - 1], events[t], links[t], t)
      {
        if t < n {
          assert ObjectStep(s, h, links0[t - 1], events0[t], links0[t], t);
        }
      }
    }
  }

  /**
   What a sender object has put on the wire, over any number of calls of its run method, is the wire of such a session
   with every receiver that is ready for its first number.
   */
  lemma SessionOf(s: Setup, h: Sender.History, l: Link) returns (links: seq<Link>, events: seq<seq<Event>>)
    requires Sender.OnWire(HeaderBytes(s.startup, s.cfg.hash), h) && GoodRun(s, h.run, h.states, h.records)
    requires ReadyFor(s, h, l, 0)
    ensures IsSession(s, h.run, h.states, h.records, links, events) && links[0] == l
    ensures forall t: nat :: 0 < t <= |h.run.inputs| ==>
              WireFed(s, h.packets[t], links[t - 1], events[t], links[t], h.seqNos[t])
  {
    hide GoodAt, SessionStep, WireFed, ChannelsOk, Linked;
    links, events := SessionUpTo(s, h, l, |h.run.inputs|);
    forall t: nat | 0 < t <= |h.run.inputs|
      ensures SessionStep(s, h.run, h.states, h.records, links[t - 1], events[t], links[t], t)
      ensures WireFed(s, h.packets[t], links[t - 1], events[t], links[t], h.seqNos[t])
    {
      assert ObjectStep(s, h, links[t - 1], events[t], links[t], t);
    }
  }

  // ---------------------------------------------------------------- how fresh the receiver is

  /** All events up to iteration t. */
  function EventsUpTo(inputs: seq<seq<SenderQueue.CaEvent>>, t: nat): (es: seq<SenderQueue.CaEvent>)
    requires t <= |inputs|
  {
    if t == 0 then [] else EventsUpTo(inputs, t - 1) + inputs[t - 1]
  }

  lemma {:induction false} NewestConcat(a: seq<SenderQueue.CaEvent>, b: seq<SenderQueue.CaEvent>, i: nat,
                                        c: Layout.Channel, c1: Layout.Channel, now: Layout.Channel)
    requires SenderQueue.HoldsNewest(a, i, c, c1)
    ensures SenderQueue.HoldsNewest(a + b, i, c, now) <==> SenderQueue.HoldsNewest(b, i, c1, now)
    decreases |b|
  {
    SameNewest(a, b, i, c, c1);
  }

  lemma {:induction false} SameNewest(a: seq<SenderQueue.CaEvent>, b: seq<SenderQueue.CaEvent>, i: nat,
                                      c: Layout.Channel, c1: Layout.Channel)
    requires SenderQueue.HoldsNewest(a, i, c, c1)
    ensures SenderQueue.Newest(a + b, i, c) == SenderQueue.Newest(b, i, c1)
    ensures SenderQueue.NewestType(a + b, i, c) == SenderQueue.NewestType(b, i, c1)
    decreases |b|
  {
    if b == [] {
      assert a + b == a;
    } else {
      var n := |b| - 1;
      SameNewest(a, b[..n], i, c, c1);
      assert (a + b)[..|a + b| - 1] == a + b[..n];
    }
  }

  /** Every channel has the count, value and type that Channel Access reported last, up to iteration t. */
  ghost predicate UpToDate(run: Run, ch: seq<Layout.Channel>, t: nat)
    requires t <= |run.inputs|
  {
    && |ch| == |run.start.channels|
    && forall i: nat :: i < |ch| ==>
         SenderQueue.HoldsNewest(EventsUpTo(run.inputs, t), i, run.start.channels[i], ch[i])
  }

  /** The sender always holds what Channel Access reported last, over the whole run. */
  lemma {:induction false} SenderHoldsNewest(run: Run, states: seq<Sending>, sent: seq<seq<nat>>, t: nat)
    requires SenderQueue.IsRun(run, states, sent) && t <= |run.inputs|
    ensures UpToDate(run, states[t].channels, t)
  {
    hide SenderQueue.HoldsNewest;
    var ch, ch0 := states[t].channels, run.start.channels;
    if t == 0 {
      forall i: nat | i < |ch|
        ensures SenderQueue.HoldsNewest(EventsUpTo(run.inputs, 0), i, ch0[i], ch[i])
      {
        NothingNew(i, ch0[i]);
      }
    } else {
      SenderHoldsNewest(run, states, sent, t - 1);
      SenderQueue.RunKeepsInv(run, states, sent, t - 1);
      var ready := ReadyAt(run, states, sent, t);
      assert SenderQueue.Iteration(run, t, states[t - 1], sent[t], states[t]);
      var es, before := EventsUpTo(run.inputs, t - 1), states[t - 1].channels;
      forall i: nat | i < |ch|
        ensures SenderQueue.HoldsNewest(EventsUpTo(run.inputs, t), i, ch0[i], ch[i])
      {
        HeldAfter(run.hash, states[t - 1], run.inputs[t - 1], i);
        NewestConcat(es, run.inputs[t - 1], i, ch0[i], before[i], ch[i]);
      }
    }
  }

  lemma HeldAfter(hash: SenderQueue.Hash, st: Sending, es: seq<SenderQueue.CaEvent>, i: nat)
    requires SenderQueue.WellFormed(st) && i < |st.channels| && SenderQueue.EventsFit(es, |st.channels|)
    ensures SenderQueue.HoldsNewest(es, i, st.channels[i], SenderQueue.HandleAll(hash, st, es).channels[i])
  {
    SenderQueue.ChannelsHoldNewest(hash, st, es, i);
  }

  lemma NothingNew(i: nat, c: Layout.Channel)
    ensures SenderQueue.HoldsNewest([], i, c, c)
  {
  }

  /** The part stands in one piece among the events. */
  ghost predicate Contains(events: seq<Event>, part: seq<Event>) {
    exists before, after :: events == before + part + after
  }

  lemma QueuedIsContained(ch: seq<Layout.Channel>, q: seq<nat>, n: nat)
    requires Queued(ch, q) && n < |q|
    ensures Contains(QueueEvents(ch, q), RecordEvents(ch, q[n]))
  {
    hide RecordEvents;
    QueueEventsSplit(ch, q, n);
    var front, part, rest := QueueEvents(ch, q[..n]), RecordEvents(ch, q[n]), QueueEvents(ch, q[n..][1..]);
    assert front + (part + rest) == front + part + rest;
  }

  /**
   Freshness: whatever Channel Access reports, in any stretch of 2 * heartbeat - 1 iterations there is one that calls
   back for record r, in one piece, with all its fields unless it is sent as fragments, and every channel of the sender
   is then as Channel Access has reported it last.
   */
  lemma Fresh(s: Setup, run: Run, states: seq<Sending>, sent: seq<seq<nat>>, links: seq<Link>, events: seq<seq<Event>>,
              r: nat, a: nat)
    returns (t: nat)
    requires IsSession(s, run, states, sent, links, events) && Layout.IsRecord(run.start.channels, r)
    requires a + 2 * run.heartbeat - 1 <= |run.inputs|
    ensures a < t <= a + 2 * run.heartbeat - 1 && r < |states[t].channels|
    ensures Contains(events[t], RecordEvents(states[t].channels, r))
    ensures UpToDate(run, states[t].channels, t)
  {
    hide GoodAt, RecordEvents, SenderQueue.Newest, QueueEvents, Contains, Linked, SessionStep;
    SenderQueue.HeartbeatBound(run, states, sent, r, a);
    t :| a < t <= a + 2 * run.heartbeat - 1 && r in sent[t];
    RunArrives(s, run, states, sent, links, events, t);
    var n: nat :| n < |sent[t]| && sent[t][n] == r;
    QueuedIsContained(states[t].channels, sent[t], n);
    SenderHoldsNewest(run, states, sent, t);
  }
}
