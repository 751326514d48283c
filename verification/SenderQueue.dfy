/**
 The sender's pending-update queue: marking by Channel Access events and by heartbeats, and what that means for
 whole runs of the sender loop.
 */
module SenderQueue {
  import opened Bytes
  import opened Layout

  /** The update bookkeeping of one channel; only records ever use it. */
  datatype Mark = Mark(pending: bool, updates: nat)

  datatype State = State(channels: seq<Channel>, marks: seq<Mark>, queue: seq<nat>)

  /** What Channel Access reports; Value is an event with status ECA_NORMAL, Up gives the type to subscribe with. */
  datatype CaEvent =
    | Value(i: nat, count: nat, data: seq<Byte>)
    | Down(i: nat)
    | Up(i: nat, typ: int)

  type Hash = seq<Byte> -> nat

  ghost predicate Distinct(q: seq<nat>) {
    forall a, b :: 0 <= a < b < |q| ==> q[a] != q[b]
  }

  ghost predicate WellFormed(st: State) {
    WellLaid(st.channels) && |st.marks| == |st.channels|
  }

  /** Only records are queued, none twice, and a record is queued exactly while its pending flag is set. */
  ghost predicate QueueInv(st: State) {
    && WellFormed(st)
    && Distinct(st.queue)
    && (forall r :: r in st.queue ==> IsRecord(st.channels, r))
    && (forall i: nat :: i < |st.marks| ==> (st.marks[i].pending <==> i in st.queue))
  }

  /** Every event concerns one of n channels. */
  ghost predicate EventsFit(es: seq<CaEvent>, n: nat) {
    forall k :: 0 <= k < |es| ==> es[k].i < n
  }

  // ---------------------------------------------------------------- marking

  function MarkUpdate(st: State, i: nat): (st': State)
    requires WellFormed(st) && i < |st.channels|
    ensures WellFormed(st') && st'.channels == st.channels
  {
    ParentIsRecord(st.channels, i);
    var p := st.channels[i].parent;
    if st.marks[p].pending then st
    else st.(marks := st.marks[p := Mark(true, st.marks[p].updates + 1)], queue := st.queue + [p])
  }

  function MarkHeartbeat(st: State, i: nat): (st': State)
    requires WellFormed(st) && i < |st.channels|
    ensures WellFormed(st') && st'.channels == st.channels
  {
    ParentIsRecord(st.channels, i);
    var p := st.channels[i].parent;
    var st1 := if st.marks[p].updates == 0 then MarkUpdate(st, p) else st;
    st1.(marks := st1.marks[p := st1.marks[p].(updates := 0)])
  }

  /** The heartbeat check of the first n channels, in index order. */
  function MarkHeartbeats(st: State, n: nat): (st': State)
    requires WellFormed(st) && n <= |st.channels|
    ensures WellFormed(st') && st'.channels == st.channels
  {
    if n == 0 then st else MarkHeartbeat(MarkHeartbeats(st, n - 1), n - 1)
  }

  function ClearUpdate(st: State): (st': State)
    requires QueueInv(st) && st.queue != []
    ensures WellFormed(st') && st'.channels == st.channels && st'.queue == st.queue[1..]
  {
    var r := st.queue[0];
    assert IsRecord(st.channels, r);
    st.(marks := st.marks[r := st.marks[r].(pending := false)], queue := st.queue[1..])
  }

  lemma MarkUpdateKeepsInv(st: State, i: nat)
    requires QueueInv(st) && i < |st.channels|
    ensures QueueInv(MarkUpdate(st, i))
    ensures st.channels[i].parent in MarkUpdate(st, i).queue
  {
    ParentIsRecord(st.channels, i);
    var p := st.channels[i].parent;
    if !st.marks[p].pending {
      var q' := st.queue + [p];
      assert q'[|st.queue|] == p;
      forall r | r in q' ensures r in st.queue || r == p {}
    }
  }

  lemma MarkHeartbeatKeepsInv(st: State, i: nat)
    requires QueueInv(st) && i < |st.channels|
    ensures QueueInv(MarkHeartbeat(st, i))
  {
    ParentIsRecord(st.channels, i);
    MarkUpdateKeepsInv(st, st.channels[i].parent);
  }

  lemma ClearUpdateKeepsInv(st: State)
    requires QueueInv(st) && st.queue != []
    ensures QueueInv(ClearUpdate(st))
  {
    var q := st.queue;
    forall r: nat ensures r in q[1..] <==> r in q && r != q[0] {
      if r in q && r != q[0] {
        var a :| 0 <= a < |q| && q[a] == r;
        assert q[1..][a - 1] == r;
      }
    }
  }

  /** n updates cleared from the front of the queue. */
  function ClearUpdates(st: State, n: nat): (st': State)
    requires QueueInv(st) && n <= |st.queue|
    ensures QueueInv(st') && st'.channels == st.channels && st'.queue == st.queue[n..]
    ensures forall i :: 0 <= i < |st.marks| ==> st'.marks[i].updates == st.marks[i].updates
    decreases n
  {
    if n == 0 then st
    else
      var st1 := ClearUpdates(st, n - 1);
      ClearUpdateKeepsInv(st1);
      ClearUpdate(st1)
  }

  // ---------------------------------------------------------------- heartbeats

  predicate HasField(ch: seq<Channel>, r: nat) {
    r + 1 < |ch| && ch[r + 1].parent == r
  }

  /** What the check of the first n channels has done to record r. */
  ghost predicate CheckedUpTo(st: State, st': State, n: nat, r: nat)
    requires WellFormed(st) && WellFormed(st') && st'.channels == st.channels && IsRecord(st.channels, r)
  {
    if r < n then
      && st'.marks[r].updates == 0
      && (r in st'.queue <==> r in st.queue || st.marks[r].updates == 0 || (r + 1 < n && HasField(st.channels, r)))
    else
      st'.marks[r] == st.marks[r] && (r in st'.queue <==> r in st.queue)
  }

  /** The effect of one step of the check on record r. */
  lemma CheckStep(st: State, i: nat, r: nat)
    requires QueueInv(st) && i < |st.channels| && IsRecord(st.channels, r)
    ensures QueueInv(MarkHeartbeat(st, i))
    ensures var st' := MarkHeartbeat(st, i);
            if st.channels[i].parent == r then
              st'.marks[r].updates == 0 && (r in st'.queue <==> r in st.queue || st.marks[r].updates == 0)
            else
              st'.marks[r] == st.marks[r] && (r in st'.queue <==> r in st.queue)
  {
    ParentIsRecord(st.channels, i);
    MarkHeartbeatKeepsInv(st, i);
    MarkUpdateKeepsInv(st, st.channels[i].parent);
  }

  /** A field of r comes after r, and then so does the first field of r. */
  lemma FirstField(ch: seq<Channel>, i: nat, r: nat)
    requires WellLaid(ch) && i < |ch| && IsRecord(ch, r)
    ensures ch[i].parent == r ==> r <= i && (r < i ==> HasField(ch, r))
    ensures i == r + 1 ==> (ch[i].parent == r <==> HasField(ch, r))
  {
    ParentIsRecord(ch, i);
    if ch[i].parent == r && r < i {
      assert LaidAt(ch, r + 1);
      ParentsAscend(ch, r + 1, i);
    }
  }

  lemma {:induction false} CheckOf(st: State, n: nat, r: nat)
    requires QueueInv(st) && n <= |st.channels| && IsRecord(st.channels, r)
    ensures QueueInv(MarkHeartbeats(st, n))
    ensures CheckedUpTo(st, MarkHeartbeats(st, n), n, r)
  {
    if n > 0 {
      CheckOf(st, n - 1, r);
      CheckStep(MarkHeartbeats(st, n - 1), n - 1, r);
      FirstField(st.channels, n - 1, r);
    }
  }

  /**
   What a heartbeat check queues: a record is queued afterwards exactly when it already was, or had no update since
   the previous check, or has a field. So a record with a field is sent on every heartbeat, updated or not: the
   check of the field finds the counter that the check of the record has just reset.
   */
  lemma HeartbeatExact(st: State, r: nat)
    requires QueueInv(st) && IsRecord(st.channels, r)
    ensures var st' := MarkHeartbeats(st, |st.channels|);
            && QueueInv(st')
            && st'.marks[r].updates == 0
            && (r in st'.queue <==> r in st.queue || st.marks[r].updates == 0 || HasField(st.channels, r))
  {
    CheckOf(st, |st.channels|, r);
  }

  // ---------------------------------------------------------------- Channel Access events

  /** The channel after an event, and whether the event marks it for an update. */
  function ChannelAfter(hash: Hash, c: Channel, e: CaEvent): (Channel, bool) {
    match e
    case Value(_, count, data) =>
      var c1 := c.(count := count, value := data);
      if !c.polled then (c1, true)
      else if c.hash == None || |c.value| != |data| || c.hash != Some(hash(data)) then
        (c1.(hash := Some(hash(data))), true)
      else (c1, false)
    case Down(_) => (c.(count := -1, value := []), true)
    case Up(_, typ) => (c.(typ := typ), false)
  }

  function Handle(hash: Hash, st: State, e: CaEvent): (st': State)
    requires WellFormed(st) && e.i < |st.channels|
    ensures WellFormed(st') && |st'.channels| == |st.channels|
  {
    var (c, mark) := ChannelAfter(hash, st.channels[e.i], e);
    var st1 := st.(channels := st.channels[e.i := c]);
    SameLayout(st, e.i, c);
    if mark then MarkUpdate(st1, e.i) else st1
  }

  lemma SameLayout(st: State, i: nat, c: Channel)
    requires WellFormed(st) && i < |st.channels|
    requires c.index == st.channels[i].index && c.parent == st.channels[i].parent
    ensures WellFormed(st.(channels := st.channels[i := c]))
  {
    var ch := st.channels[i := c];
    forall j: nat | j < |ch| ensures LaidAt(ch, j) {
      assert LaidAt(st.channels, j);
    }
  }

  /** The state after a stretch of events. */
  function HandleAll(hash: Hash, st: State, es: seq<CaEvent>): (st': State)
    requires WellFormed(st) && EventsFit(es, |st.channels|)
    ensures WellFormed(st') && |st'.channels| == |st.channels|
    decreases |es|
  {
    if es == [] then st
    else
      var n := |es| - 1;
      Handle(hash, HandleAll(hash, st, es[..n]), es[n])
  }

  lemma HandleKeepsInv(hash: Hash, st: State, e: CaEvent)
    requires QueueInv(st) && e.i < |st.channels|
    ensures QueueInv(Handle(hash, st, e))
    ensures forall r :: IsRecord(Handle(hash, st, e).channels, r) <==> IsRecord(st.channels, r)
  {
    var (c, mark) := ChannelAfter(hash, st.channels[e.i], e);
    var st1 := st.(channels := st.channels[e.i := c]);
    SameLayout(st, e.i, c);
    if mark { MarkUpdateKeepsInv(st1, e.i); }
  }

  lemma {:induction false} HandleAllKeepsInv(hash: Hash, st: State, es: seq<CaEvent>)
    requires QueueInv(st) && EventsFit(es, |st.channels|)
    ensures QueueInv(HandleAll(hash, st, es))
    ensures forall r :: IsRecord(HandleAll(hash, st, es).channels, r) <==> IsRecord(st.channels, r)
    decreases |es|
  {
    if es != [] {
      var n := |es| - 1;
      HandleAllKeepsInv(hash, st, es[..n]);
      HandleKeepsInv(hash, HandleAll(hash, st, es[..n]), es[n]);
    }
  }

  // ---------------------------------------------------------------- what the history of events says

  /** The count and value that channel i has after some events, if it had those of c before. */
  function Newest(es: seq<CaEvent>, i: nat, c: Channel): (int, seq<Byte>) {
    if es == [] then (c.count, c.value)
    else
      var last := es[|es| - 1];
      match last
      case Value(j, count, data) => if i == j then (count, data) else Newest(es[..|es| - 1], i, c)
      case Down(j) => if i == j then (-1, []) else Newest(es[..|es| - 1], i, c)
      case Up(_, _) => Newest(es[..|es| - 1], i, c)
  }

  /** The type of its newest connection. */
  function NewestType(es: seq<CaEvent>, i: nat, c: Channel): (typ: int) {
    if es == [] then c.typ
    else
      var last := es[|es| - 1];
      if last.Up? && last.i == i then last.typ else NewestType(es[..|es| - 1], i, c)
  }

  /** The channel has the count, value and type of its newest events, and those of c before there were any. */
  predicate HoldsNewest(es: seq<CaEvent>, i: nat, c: Channel, now: Channel) {
    (now.count, now.value) == Newest(es, i, c) && now.typ == NewestType(es, i, c)
  }

  /** The data of its newest value event, whether or not the channel was disconnected since. */
  function NewestData(es: seq<CaEvent>, i: nat): (data: Option<seq<Byte>>) {
    if es == [] then None
    else
      var last := es[|es| - 1];
      if last.Value? && last.i == i then Some(last.data) else NewestData(es[..|es| - 1], i)
  }

  /** The hash that a polled channel keeps is that of the data of its newest value event. */
  function NewestHash(hash: Hash, es: seq<CaEvent>, i: nat, c: Channel): (h: Option<nat>) {
    if !c.polled || NewestData(es, i) == None then c.hash else Some(hash(NewestData(es, i).value))
  }

  /** Whatever was coalesced, every channel holds the count, value, type and hash of its newest events. */
  lemma {:induction false} ChannelsHoldNewest(hash: Hash, st: State, es: seq<CaEvent>, i: nat)
    requires WellFormed(st) && i < |st.channels| && EventsFit(es, |st.channels|)
    ensures var c, (count, value) := st.channels[i], Newest(es, i, st.channels[i]);
            HandleAll(hash, st, es).channels[i]
            == c.(count := count, value := value, typ := NewestType(es, i, c), hash := NewestHash(hash, es, i, c))
    decreases |es|
  {
    if es != [] {
      ChannelsHoldNewest(hash, st, es[..|es| - 1], i);
    }
  }

  /**
   Event k marks its record for an update: a disconnect always does, and so does a value of a channel that is not
   polled. A value of a polled channel does unless the newest value before it has the same hash, and the channel holds a
   value of the same size; a channel that has been disconnected since holds none.
   */
  predicate Marks(hash: Hash, ch: seq<Channel>, es: seq<CaEvent>, k: nat)
    requires k < |es| && EventsFit(es, |ch|)
  {
    var i, before := es[k].i, es[..k];
    match es[k]
    case Value(_, _, data) =>
      !(ch[i].polled && NewestHash(hash, before, i, ch[i]) == Some(hash(data))
        && |Newest(before, i, ch[i]).1| == |data|)
    case Down(_) => true
    case Up(_, _) => false
  }

  /** The records that a stretch of events marks, in order and with repetitions. */
  function Marked(hash: Hash, ch: seq<Channel>, es: seq<CaEvent>): (rs: seq<nat>)
    requires EventsFit(es, |ch|)
    decreases |es|
  {
    if es == [] then []
    else
      var n := |es| - 1;
      Marked(hash, ch, es[..n]) + if Marks(hash, ch, es, n) then [ch[es[n].i].parent] else []
  }

  /** The elements of s that are new, each once, in order of first occurrence. */
  function FirstOccurrences(s: seq<nat>, seen: seq<nat>): (r: seq<nat>) {
    if s == [] then []
    else
      var n := |s| - 1;
      FirstOccurrences(s[..n], seen) + if s[n] in seen || s[n] in s[..n] then [] else [s[n]]
  }

  lemma {:induction false} OccurrencesExact(s: seq<nat>, seen: seq<nat>, r: nat)
    ensures r in FirstOccurrences(s, seen) <==> r in s && r !in seen
  {
    if s != [] {
      var n := |s| - 1;
      OccurrencesExact(s[..n], seen, r);
      assert s == s[..n] + [s[n]];
    }
  }

  lemma OneMoreOccurrence(s: seq<nat>, r: nat, seen: seq<nat>)
    ensures var q, q' := seen + FirstOccurrences(s, seen), seen + FirstOccurrences(s + [r], seen);
            q' == if r in q then q else q + [r]
  {
    OccurrencesExact(s, seen, r);
    assert (s + [r])[..|s|] == s;
  }

  /** Coalescing: the queue grows by each newly marked record, once, in order of first marking. */
  lemma {:induction false} QueueIsFirstMarkings(hash: Hash, st: State, es: seq<CaEvent>)
    requires QueueInv(st) && EventsFit(es, |st.channels|)
    ensures HandleAll(hash, st, es).queue == st.queue + FirstOccurrences(Marked(hash, st.channels, es), st.queue)
    decreases |es|
  {
    if es != [] {
      var n := |es| - 1;
      var front, last, st1 := es[..n], es[n], HandleAll(hash, st, es[..n]);
      QueueIsFirstMarkings(hash, st, front);
      HandleAllKeepsInv(hash, st, front);
      ChannelsHoldNewest(hash, st, front, last.i);
      hide HandleAll, QueueInv, Handle, FirstOccurrences, NewestHash, Newest;
      var before, p := Marked(hash, st.channels, front), st.channels[last.i].parent;
      HandleQueue(hash, st1, last, Marks(hash, st.channels, es, n));
      OneMoreOccurrence(before, p, st.queue);
      QueueOfLast(hash, st, es);
      assert before + [] == before;
    }
  }

  lemma QueueOfLast(hash: Hash, st: State, es: seq<CaEvent>)
    requires WellFormed(st) && EventsFit(es, |st.channels|) && es != []
    ensures var n := |es| - 1;
            HandleAll(hash, st, es) == Handle(hash, HandleAll(hash, st, es[..n]), es[n])
  {
  }

  /** One event: the queue grows by the record exactly if the event marks it and it is not queued yet. */
  lemma HandleQueue(hash: Hash, st: State, e: CaEvent, mark: bool)
    requires QueueInv(st) && e.i < |st.channels|
    requires mark <==> match e
                       case Value(_, _, data) =>
                         !(st.channels[e.i].polled && st.channels[e.i].hash == Some(hash(data))
                           && |st.channels[e.i].value| == |data|)
                       case Down(_) => true
                       case Up(_, _) => false
    ensures var p := st.channels[e.i].parent;
            Handle(hash, st, e).queue == if !mark || p in st.queue then st.queue else st.queue + [p]
  {
    ParentIsRecord(st.channels, e.i);
  }

  /** So a record is queued exactly if it was, or some event has marked it. */
  lemma QueuedIffMarked(hash: Hash, st: State, es: seq<CaEvent>, r: nat)
    requires QueueInv(st) && EventsFit(es, |st.channels|)
    ensures r in HandleAll(hash, st, es).queue <==> r in st.queue || r in Marked(hash, st.channels, es)
    ensures r in Marked(hash, st.channels, es)
            <==> exists k: nat :: k < |es| && st.channels[es[k].i].parent == r && Marks(hash, st.channels, es, k)
  {
    QueueIsFirstMarkings(hash, st, es);
    OccurrencesExact(Marked(hash, st.channels, es), st.queue, r);
    MarkedExact(hash, st.channels, es, r);
  }

  lemma {:induction false} MarkedExact(hash: Hash, ch: seq<Channel>, es: seq<CaEvent>, r: nat)
    requires EventsFit(es, |ch|)
    ensures r in Marked(hash, ch, es)
            <==> exists k: nat :: k < |es| && ch[es[k].i].parent == r && Marks(hash, ch, es, k)
    decreases |es|
  {
    if es != [] {
      var n := |es| - 1;
      MarkedExact(hash, ch, es[..n], r);
      forall k: nat | k < n
        ensures Marks(hash, ch, es[..n], k) <==> Marks(hash, ch, es, k)
      {
        assert es[..n][..k] == es[..k];
      }
      if r in Marked(hash, ch, es[..n]) {
        var k: nat :| k < n && ch[es[..n][k].i].parent == r && Marks(hash, ch, es[..n], k);
        assert Marks(hash, ch, es, k);
      }
      if k: nat :| k < |es| && ch[es[k].i].parent == r && Marks(hash, ch, es, k) && k < n {
        assert Marks(hash, ch, es[..n], k);
      }
    }
  }

  // ---------------------------------------------------------------- runs of the sender loop

  /** The parameters of a run: the value hash, the heartbeat interval and the events before each iteration. */
  datatype Run = Run(hash: Hash, heartbeat: nat, start: State, inputs: seq<seq<CaEvent>>)

  ghost predicate RunFits(run: Run) {
    && run.heartbeat > 0
    && QueueInv(run.start) && run.start.queue == []
    && (forall i :: 0 <= i < |run.start.marks| ==> run.start.marks[i].updates == 0)
    && forall t :: 0 <= t < |run.inputs| ==> EventsFit(run.inputs[t], |run.start.channels|)
  }

  /** The state in which iteration number t sends, when iteration t - 1 ended in st. */
  ghost function Ready(run: Run, st: State, t: nat): (st': State)
    requires run.heartbeat > 0 && 0 < t <= |run.inputs|
    requires QueueInv(st) && EventsFit(run.inputs[t - 1], |st.channels|)
    ensures QueueInv(st') && |st'.channels| == |st.channels|
    ensures forall r :: IsRecord(st'.channels, r) <==> IsRecord(st.channels, r)
  {
    var st1 := HandleAll(run.hash, st, run.inputs[t - 1]);
    HandleAllKeepsInv(run.hash, st, run.inputs[t - 1]);
    if t % run.heartbeat == 0 then
      AllChecked(st1);
      MarkHeartbeats(st1, |st1.channels|)
    else st1
  }

  lemma AllChecked(st: State)
    requires QueueInv(st)
    ensures QueueInv(MarkHeartbeats(st, |st.channels|))
  {
    if st.channels == [] {
    } else {
      ParentIsRecord(st.channels, 0);
      HeartbeatExact(st, 0);
    }
  }

  /** Iteration number t: it sends all that is queued and ends with an empty queue. */
  ghost predicate Iteration(run: Run, t: nat, st: State, sent: seq<nat>, st': State)
    requires run.heartbeat > 0 && 0 < t <= |run.inputs|
  {
    && QueueInv(st) && st.queue == [] && EventsFit(run.inputs[t - 1], |st.channels|)
    && var ready := Ready(run, st, t);
       sent == ready.queue && st' == ClearUpdates(ready, |ready.queue|)
  }

  /** A whole run: the state after each iteration, and the records that each iteration transmits. */
  ghost predicate IsRun(run: Run, states: seq<State>, sent: seq<seq<nat>>) {
    && RunFits(run)
    && |states| == |sent| == |run.inputs| + 1 && states[0] == run.start
    && forall t: nat :: 0 < t <= |run.inputs| ==> Iteration(run, t, states[t - 1], sent[t], states[t])
  }

  ghost predicate SameRecords(a: State, b: State) {
    |a.channels| == |b.channels| && forall r :: IsRecord(a.channels, r) <==> IsRecord(b.channels, r)
  }

  /** Queue invariant over whole runs: it holds between any two iterations, and the queue is then empty. */
  lemma {:induction false} RunKeepsInv(run: Run, states: seq<State>, sent: seq<seq<nat>>, t: nat)
    requires IsRun(run, states, sent) && t <= |run.inputs|
    ensures QueueInv(states[t]) && states[t].queue == [] && SameRecords(states[t], run.start)
  {
    if t > 0 {
      RunKeepsInv(run, states, sent, t - 1);
      assert Iteration(run, t, states[t - 1], sent[t], states[t]);
    }
  }

  /** Whatever Channel Access reports, there is a run. */
  lemma {:induction false} RunExists(run: Run, n: nat) returns (states: seq<State>, sent: seq<seq<nat>>)
    requires RunFits(run) && n <= |run.inputs|
    ensures IsRun(run.(inputs := run.inputs[..n]), states, sent)
    ensures QueueInv(states[n]) && states[n].queue == [] && |states[n].channels| == |run.start.channels|
  {
    if n == 0 {
      states, sent := [run.start], [[]];
    } else {
      var prefix := run.(inputs := run.inputs[..n - 1]);
      var states0, sent0 := RunExists(run, n - 1);
      var run1 := run.(inputs := run.inputs[..n]);
      var ready := Ready(run1, states0[n - 1], n);
      states, sent := states0 + [ClearUpdates(ready, |ready.queue|)], sent0 + [ready.queue];
      forall t: nat | 0 < t <= n ensures Iteration(run1, t, states[t - 1], sent[t], states[t]) {
        if t < n {
          assert Iteration(prefix, t, states0[t - 1], sent0[t], states0[t]);
          assert run1.inputs[t - 1] == prefix.inputs[t - 1];
        }
      }
    }
  }

  /** The counter of a record that is not queued before some events: it moves exactly if they mark the record. */
  lemma {:induction false} CounterOfEvents(hash: Hash, st: State, es: seq<CaEvent>, r: nat)
    requires QueueInv(st) && IsRecord(st.channels, r) && EventsFit(es, |st.channels|) && r !in st.queue
    ensures var st' := HandleAll(hash, st, es);
            && |st'.marks| == |st.marks| && r < |st.marks|
            && st'.marks[r].updates == st.marks[r].updates + if r in st'.queue then 1 else 0
    decreases |es|
  {
    if es != [] {
      var n := |es| - 1;
      CounterOfEvents(hash, st, es[..n], r);
      HandleAllKeepsInv(hash, st, es[..n]);
      CounterOfEvent(hash, HandleAll(hash, st, es[..n]), es[n], r);
    }
  }

  lemma CounterOfEvent(hash: Hash, st: State, e: CaEvent, r: nat)
    requires QueueInv(st) && IsRecord(st.channels, r) && e.i < |st.channels|
    ensures var st' := Handle(hash, st, e);
            && |st'.marks| == |st.marks| && r < |st.marks| && (r in st.queue ==> r in st'.queue)
            && st'.marks[r].updates == st.marks[r].updates + if r in st'.queue && r !in st.queue then 1 else 0
  {
    ParentIsRecord(st.channels, e.i);
    HandleKeepsInv(hash, st, e);
  }

  /** The last heartbeat tick up to iteration t. */
  function LastTick(t: nat, heartbeat: nat): (tick: nat)
    requires heartbeat > 0
    ensures tick <= t < tick + heartbeat
  {
    t - t % heartbeat
  }

  lemma TickStep(t: nat, h: nat)
    requires h > 0
    ensures t + 1 < h ==> (t + 1) % h != 0
    ensures (t + 1) % h == 0 ==> t + 1 >= h && LastTick(t, h) == t + 1 - h
    ensures (t + 1) % h != 0 ==> LastTick(t + 1, h) == LastTick(t, h)
  {
    var q, m := t / h, t % h;
    assert t == q * h + m;
    if m == h - 1 {
      assert t + 1 == (q + 1) * h;
      ModUnique(t + 1, h, q + 1, 0);
    } else {
      ModUnique(t + 1, h, q, m + 1);
    }
  }

  /** What one iteration does to the counter of record r, and exactly when it transmits r. */
  lemma CounterStep(run: Run, t: nat, st: State, sent: seq<nat>, st': State, r: nat)
    requires run.heartbeat > 0 && 0 < t <= |run.inputs| && Iteration(run, t, st, sent, st')
    requires IsRecord(st.channels, r)
    ensures |st'.marks| == |st.marks| && r < |st.marks|
    ensures var marked, tick := r in Marked(run.hash, st.channels, run.inputs[t - 1]), t % run.heartbeat == 0;
            && st'.marks[r].updates == (if tick then 0 else st.marks[r].updates + if marked then 1 else 0)
            && (r in sent <==> marked || (tick && (HasField(st'.channels, r) || st.marks[r].updates == 0)))
  {
    var es := run.inputs[t - 1];
    var st1 := HandleAll(run.hash, st, es);
    HandleAllKeepsInv(run.hash, st, es);
    CounterOfEvents(run.hash, st, es, r);
    QueuedIffMarked(run.hash, st, es, r);
    if t % run.heartbeat == 0 {
      HeartbeatExact(st1, r);
    }
  }

  /** The counter of one record after each iteration, and whether each iteration transmits it. */
  ghost predicate Counting(h: nat, counter: seq<nat>, sent: seq<bool>) {
    && h > 0 && |counter| == |sent| > 0 && counter[0] == 0
    && forall t: nat :: 0 < t < |sent| ==> CountingAt(h, counter, sent, t)
  }

  ghost predicate CountingAt(h: nat, counter: seq<nat>, sent: seq<bool>, t: nat)
    requires h > 0 && |counter| == |sent| && 0 < t < |sent|
  {
    if t % h == 0 then counter[t] == 0 && (counter[t - 1] == 0 ==> sent[t])
    else counter[t] == counter[t - 1] + if sent[t] then 1 else 0
  }

  ghost predicate AnyWithin(sent: seq<bool>, a: nat, b: nat)
    requires b < |sent|
  {
    exists t: nat :: a < t <= b && sent[t]
  }

  /** The counter is positive exactly after a transmission since the last tick; so every window has one. */
  lemma {:induction false} CounterMeansSent(h: nat, counter: seq<nat>, sent: seq<bool>, t: nat)
    requires Counting(h, counter, sent) && t < |sent|
    ensures counter[t] > 0 <==> AnyWithin(sent, LastTick(t, h), t)
    ensures t > 0 && t % h == 0 ==> t >= h && AnyWithin(sent, t - h, t)
  {
    if t > 0 {
      CounterMeansSent(h, counter, sent, t - 1);
      TickStep(t - 1, h);
      assert CountingAt(h, counter, sent, t);
      if counter[t - 1] > 0 {
        var u: nat :| LastTick(t - 1, h) < u <= t - 1 && sent[u];
      }
      if u: nat :| LastTick(t, h) < u <= t && sent[u] && u < t {
        assert AnyWithin(sent, LastTick(t - 1, h), t - 1);
      }
    }
  }

  /** From a on, a whole window between two ticks fits into 2 * h - 1 iterations. */
  lemma NextWindow(a: nat, h: nat) returns (tick: nat)
    requires h > 0
    ensures tick % h == 0 && a + h <= tick <= a + 2 * h - 1
  {
    var q, m := a / h, a % h;
    assert a == q * h + m;
    if m == 0 {
      tick := a + h;
      assert tick == (q + 1) * h;
      ModUnique(tick, h, q + 1, 0);
    } else {
      tick := a - m + 2 * h;
      assert tick == (q + 2) * h;
      ModUnique(tick, h, q + 2, 0);
    }
  }

  /** The counter of record r over a run, and the iterations that transmit r. */
  lemma RunCounts(run: Run, states: seq<State>, sent: seq<seq<nat>>, r: nat)
    returns (counter: seq<nat>, hits: seq<bool>)
    requires IsRun(run, states, sent) && IsRecord(run.start.channels, r)
    ensures Counting(run.heartbeat, counter, hits) && |hits| == |sent| == |states|
    ensures forall t: nat :: 0 < t < |hits| ==> hits[t] == (r in sent[t])
    ensures forall t: nat :: t < |states| ==> r < |states[t].marks| && counter[t] == states[t].marks[r].updates
  {
    forall t: nat | t < |states| ensures IsRecord(states[t].channels, r) && |states[t].marks| > r {
      RunKeepsInv(run, states, sent, t);
    }
    counter := seq(|states|, t requires 0 <= t < |states| => states[t].marks[r].updates);
    hits := seq(|states|, t requires 0 <= t < |states| => r in sent[t]);
    forall t: nat | 0 < t < |hits| ensures CountingAt(run.heartbeat, counter, hits, t) {
      CounterStep(run, t, states[t - 1], sent[t], states[t], r);
    }
  }

  /** Record r is transmitted by some iteration after number a, up to number b. */
  ghost predicate SentWithin(sent: seq<seq<nat>>, r: nat, a: nat, b: nat)
    requires b < |sent|
  {
    exists t: nat :: a < t <= b && r in sent[t]
  }

  /**
   The heartbeat bound over whole runs: in any stretch of 2 * heartbeat - 1 iterations every record is transmitted,
   whatever Channel Access reports, even nothing.
   */
  lemma HeartbeatBound(run: Run, states: seq<State>, sent: seq<seq<nat>>, r: nat, a: nat)
    requires IsRun(run, states, sent) && IsRecord(run.start.channels, r)
    requires a + 2 * run.heartbeat - 1 <= |run.inputs|
    ensures SentWithin(sent, r, a, a + 2 * run.heartbeat - 1)
  {
    var counter, hits := RunCounts(run, states, sent, r);
    var tick := NextWindow(a, run.heartbeat);
    CounterMeansSent(run.heartbeat, counter, hits, tick);
    var u: nat :| tick - run.heartbeat < u <= tick && hits[u];
    assert r in sent[u];
  }

  /** Two consecutive transmissions of a record are at most 2 * heartbeat - 1 iterations apart. */
  lemma TransmissionGap(run: Run, states: seq<State>, sent: seq<seq<nat>>, r: nat, a: nat, b: nat)
    requires IsRun(run, states, sent) && IsRecord(run.start.channels, r)
    requires a < b <= |run.inputs|
    requires forall t: nat :: a < t < b ==> r !in sent[t]
    ensures b - a <= 2 * run.heartbeat - 1
  {
    if b - a > 2 * run.heartbeat - 1 {
      HeartbeatBound(run, states, sent, r, a);
    }
  }

  /** Over whole runs: the counter is positive exactly if the record was transmitted since the last heartbeat tick. */
  lemma CounterIff(run: Run, states: seq<State>, sent: seq<seq<nat>>, r: nat, t: nat)
    requires IsRun(run, states, sent) && IsRecord(run.start.channels, r) && t <= |run.inputs|
    ensures r < |states[t].marks|
    ensures states[t].marks[r].updates > 0 <==> SentWithin(sent, r, LastTick(t, run.heartbeat), t)
    ensures t > 0 && t % run.heartbeat == 0 ==> t >= run.heartbeat
  {
    var counter, hits := RunCounts(run, states, sent, r);
    CounterMeansSent(run.heartbeat, counter, hits, t);
    var a := LastTick(t, run.heartbeat);
    if SentWithin(sent, r, a, t) {
      var u: nat :| a < u <= t && r in sent[u];
      assert hits[u];
    }
    if AnyWithin(hits, a, t) {
      var u: nat :| a < u <= t && hits[u];
      assert r in sent[u];
    }
  }

  /**
   Exactly when a record is transmitted, over whole runs: by the iteration in which an event marks it, and by a
   heartbeat tick if it has a field, or if no iteration since the last tick has transmitted it.
   */
  lemma TransmittedIff(run: Run, states: seq<State>, sent: seq<seq<nat>>, r: nat, t: nat)
    requires IsRun(run, states, sent) && IsRecord(run.start.channels, r) && 0 < t <= |run.inputs|
    ensures EventsFit(run.inputs[t - 1], |states[t - 1].channels|)
    ensures t % run.heartbeat == 0 ==> t >= run.heartbeat
    ensures r in sent[t]
            <==> || r in Marked(run.hash, states[t - 1].channels, run.inputs[t - 1])
                 || (t % run.heartbeat == 0
                     && (HasField(states[t].channels, r) || !SentWithin(sent, r, t - run.heartbeat, t - 1)))
  {
    RunKeepsInv(run, states, sent, t - 1);
    assert Iteration(run, t, states[t - 1], sent[t], states[t]);
    CounterStep(run, t, states[t - 1], sent[t], states[t], r);
    CounterIff(run, states, sent, r, t);
    CounterIff(run, states, sent, r, t - 1);
    TickStep(t - 1, run.heartbeat);
  }
}
