/**
 Delta replication of pvAccess values: the sender merges deltas and marks what changed, updates are full or partial, and
 the receiver rebuilds the sender's value from whatever updates reach it.
 */
module PvaDelta {
  import opened Bytes

  type Data = seq<Byte>

  /** A structure type, depth first: for each node the number of nodes of its subtree, itself included. */
  type Desc = seq<nat>

  datatype Value = Value(store: seq<Data>, valid: seq<bool>)

  datatype UpdateType = Disconnected | Partial | Full

  ghost predicate WellFormed(desc: Desc) {
    && (forall a :: 0 <= a < |desc| ==> 1 <= desc[a] <= |desc| - a)
    && (forall a, b :: 0 <= a < b < |desc| && b < a + desc[a] ==> b + desc[b] <= a + desc[a])
  }

  ghost predicate Fits(desc: Desc, v: Value) {
    |v.store| == |v.valid| == |desc|
  }

  predicate Leaf(desc: Desc, i: nat)
    requires i < |desc|
  {
    desc[i] == 1
  }

  // ---------------------------------------------------------------- merging

  /** What merge copies and marks from node bit on. A marked sub-structure is skipped; it has no storage of its own. */
  function MergeFrom(desc: Desc, store: seq<Data>, mask: seq<bool>, src: Value, bit: nat): (seq<Data>, seq<bool>)
    requires WellFormed(desc) && Fits(desc, src) && |store| == |mask| == |desc| && bit <= |desc|
    decreases |desc| - bit
  {
    if bit == |desc| then (store, mask)
    else if src.valid[bit] then
      var store1 := if desc[bit] == 1 then store[bit := src.store[bit]] else store;
      MergeFrom(desc, store1, mask[bit := true], src, bit + desc[bit])
    else MergeFrom(desc, store, mask, src, bit + 1)
  }

  /** The delta marks leaves only, not whole sub-structures. */
  ghost predicate MarksLeaves(desc: Desc, src: Value)
    requires Fits(desc, src)
  {
    forall i :: 0 <= i < |desc| && src.valid[i] ==> Leaf(desc, i)
  }

  /** Node i is marked, or lies in a sub-structure that is. */
  ghost predicate Covered(desc: Desc, src: Value, i: nat)
    requires Fits(desc, src) && i < |desc|
  {
    exists a :: 0 <= a <= i && src.valid[a] && i < a + desc[a]
  }

  /** The store that a merge ought to give: every leaf that the delta covers is taken over, the others stay. */
  ghost predicate Intended(desc: Desc, before: seq<Data>, src: Value, after: seq<Data>)
    requires Fits(desc, src) && |before| == |after| == |desc|
  {
    forall i :: 0 <= i < |desc| && Leaf(desc, i) ==>
      after[i] == if Covered(desc, src, i) then src.store[i] else before[i]
  }

  /** Up to the first marked sub-structure, merge goes through the nodes one by one. */
  lemma {:induction false} MergeLeaves(desc: Desc, store: seq<Data>, mask: seq<bool>, src: Value, bit: nat)
    requires WellFormed(desc) && Fits(desc, src) && |store| == |mask| == |desc| && bit <= |desc|
    requires MarksLeaves(desc, src)
    ensures var (s, m) := MergeFrom(desc, store, mask, src, bit);
            && |s| == |m| == |desc|
            && (forall i :: 0 <= i < |desc| ==>
                  s[i] == (if bit <= i && src.valid[i] then src.store[i] else store[i])
                  && m[i] == (mask[i] || (bit <= i && src.valid[i])))
    decreases |desc| - bit
  {
    if bit < |desc| {
      if src.valid[bit] {
        assert Leaf(desc, bit);
        MergeLeaves(desc, store[bit := src.store[bit]], mask[bit := true], src, bit + 1);
      } else {
        MergeLeaves(desc, store, mask, src, bit + 1);
      }
    }
  }

  lemma CoveredLeaf(desc: Desc, src: Value, i: nat)
    requires WellFormed(desc) && Fits(desc, src) && i < |desc| && MarksLeaves(desc, src)
    ensures Covered(desc, src, i) <==> src.valid[i]
  {
    if a :| 0 <= a <= i && src.valid[a] && i < a + desc[a] {
      assert Leaf(desc, a);
    }
    if src.valid[i] {
      assert i < i + desc[i];
    }
  }

  /** Node i is marked, and lies in no sub-structure from node bit on that is. */
  ghost predicate Top(desc: Desc, src: Value, bit: nat, i: nat)
    requires Fits(desc, src) && i < |desc|
  {
    bit <= i && src.valid[i] && forall a :: bit <= a < i && src.valid[a] ==> a + desc[a] <= i
  }

  /** Exactly what merge does, for every delta: it marks the topmost marked nodes, and copies those that are leaves. */
  lemma {:induction false} MergeExact(desc: Desc, store: seq<Data>, mask: seq<bool>, src: Value, bit: nat)
    requires WellFormed(desc) && Fits(desc, src) && |store| == |mask| == |desc| && bit <= |desc|
    ensures var (s, m) := MergeFrom(desc, store, mask, src, bit);
            && |s| == |m| == |desc|
            && forall i :: 0 <= i < |desc| ==>
                 && s[i] == (if Top(desc, src, bit, i) && Leaf(desc, i) then src.store[i] else store[i])
                 && m[i] == (mask[i] || Top(desc, src, bit, i))
    decreases |desc| - bit
  {
    if bit < |desc| {
      var next := if src.valid[bit] then bit + desc[bit] else bit + 1;
      forall i | 0 <= i < |desc|
        ensures Top(desc, src, bit, i) <==> Top(desc, src, next, i) || (i == bit && src.valid[bit])
      {
        if Top(desc, src, next, i) {
          forall a | bit <= a < i && src.valid[a]
            ensures a + desc[a] <= i
          {
          }
        }
      }
      var store1 := if src.valid[bit] && desc[bit] == 1 then store[bit := src.store[bit]] else store;
      MergeExact(desc, store1, if src.valid[bit] then mask[bit := true] else mask, src, next);
    }
  }

  /** A marked sub-structure hides its nodes from merge: their storage stays. */
  lemma {:induction false} MergeSkips(desc: Desc, store: seq<Data>, mask: seq<bool>, src: Value, bit: nat, a: nat,
                                      l: nat)
    requires WellFormed(desc) && Fits(desc, src) && |store| == |mask| == |desc|
    requires a < |desc| && bit <= a < l < a + desc[a] && src.valid[a]
    requires forall i :: bit <= i < a && src.valid[i] ==> Leaf(desc, i)
    ensures |MergeFrom(desc, store, mask, src, bit).0| == |desc|
    ensures MergeFrom(desc, store, mask, src, bit).0[l] == store[l]
    decreases |desc| - bit
  {
    if bit == a {
      MergeBehind(desc, store, mask[bit := true], src, bit + desc[bit], l);
    } else if src.valid[bit] {
      assert Leaf(desc, bit);
      MergeSkips(desc, store[bit := src.store[bit]], mask[bit := true], src, bit + 1, a, l);
    } else {
      MergeSkips(desc, store, mask, src, bit + 1, a, l);
    }
  }

  lemma {:induction false} MergeBehind(desc: Desc, store: seq<Data>, mask: seq<bool>, src: Value, bit: nat, l: nat)
    requires WellFormed(desc) && Fits(desc, src) && |store| == |mask| == |desc| && l < bit <= |desc|
    ensures |MergeFrom(desc, store, mask, src, bit).0| == |desc|
    ensures MergeFrom(desc, store, mask, src, bit).0[l] == store[l]
    decreases |desc| - bit
  {
    if bit < |desc| {
      if src.valid[bit] {
        var store1 := if desc[bit] == 1 then store[bit := src.store[bit]] else store;
        MergeBehind(desc, store1, mask[bit := true], src, bit + desc[bit], l);
      } else {
        MergeBehind(desc, store, mask, src, bit + 1, l);
      }
    }
  }

  /** The last node of a subtree is a leaf. */
  lemma LastIsLeaf(desc: Desc, a: nat)
    requires WellFormed(desc) && a < |desc| && desc[a] > 1
    ensures a < a + desc[a] - 1 < |desc| && Leaf(desc, a + desc[a] - 1)
  {
  }

  lemma FirstMarkedStructure(desc: Desc, src: Value, n: nat) returns (a: nat)
    requires WellFormed(desc) && Fits(desc, src) && n < |desc| && src.valid[n] && !Leaf(desc, n)
    ensures a < |desc| && src.valid[a] && !Leaf(desc, a)
    ensures forall i :: 0 <= i < a && src.valid[i] ==> Leaf(desc, i)
  {
    if i :| 0 <= i < n && src.valid[i] && !Leaf(desc, i) {
      a := FirstMarkedStructure(desc, src, i);
    } else {
      a := n;
    }
  }

  /**
   merge takes a delta over as it should, whatever the value was before, exactly when the delta marks leaves only: a
   marked sub-structure is passed on as changed, but nothing in it is copied.
   */
  lemma MergeCorrectIff(desc: Desc, src: Value)
    requires WellFormed(desc) && Fits(desc, src)
    ensures (forall store, mask :: |store| == |mask| == |desc| ==>
               && |MergeFrom(desc, store, mask, src, 0).0| == |desc|
               && Intended(desc, store, src, MergeFrom(desc, store, mask, src, 0).0))
            <==> MarksLeaves(desc, src)
  {
    if MarksLeaves(desc, src) {
      forall store, mask | |store| == |mask| == |desc|
        ensures |MergeFrom(desc, store, mask, src, 0).0| == |desc|
        ensures Intended(desc, store, src, MergeFrom(desc, store, mask, src, 0).0)
      {
        MergeLeaves(desc, store, mask, src, 0);
        forall i: nat | i < |desc| ensures Covered(desc, src, i) <==> src.valid[i] {
          CoveredLeaf(desc, src, i);
        }
      }
    } else {
      var n :| 0 <= n < |desc| && src.valid[n] && !Leaf(desc, n);
      var a := FirstMarkedStructure(desc, src, n);
      var l := a + desc[a] - 1;
      LastIsLeaf(desc, a);
      var other: Data := if src.store[l] == [] then [0] else [];
      var store, mask := src.store[l := other], src.valid;
      MergeSkips(desc, store, mask, src, 0, a, l);
      assert Covered(desc, src, l);
      assert !Intended(desc, store, src, MergeFrom(desc, store, mask, src, 0).0);
    }
  }

  // ---------------------------------------------------------------- the sender's channel

  /** A channel of the sender during one connection; pending None and Disconnected are the same number in the source. */
  datatype Chan = Chan(value: Value, mask: seq<bool>, pending: UpdateType, seqNo: nat)

  /** One serialized update: its full number, kind and the marked valid fields; and the sender's store at that time. */
  datatype Sent = Sent(kind: UpdateType, payload: seq<Option<Data>>, store: seq<Data>)

  datatype Input = Delta(v: Value) | Heartbeat | Disconnect | Send

  function MarkUpdate(c: Chan, kind: UpdateType): Chan
    requires kind != Disconnected
  {
    if c.pending == Disconnected then c.(pending := kind, mask := if kind == Full then c.value.valid else c.mask)
    else if kind == Full && c.pending != Full then c.(pending := kind, mask := c.value.valid)
    else c
  }

  function ClearUpdate(c: Chan): Chan {
    c.(mask := seq(|c.mask|, _ => false), pending := Disconnected)
  }

  /** to_wire_valid: the fields that are both valid and marked. */
  function Payload(v: Value, mask: seq<bool>): (p: seq<Option<Data>>)
    requires |v.store| == |v.valid| == |mask|
    ensures |p| == |v.store|
  {
    seq(|v.store|, i requires 0 <= i < |v.store| => if v.valid[i] && mask[i] then Some(v.store[i]) else None)
  }

  /** The first value of a connection. */
  function Connect(v: Value): Chan {
    MarkUpdate(Chan(v, seq(|v.store|, _ => false), Disconnected, 0), Full)
  }

  function Step(desc: Desc, c: Chan, input: Input): (r: (Chan, Option<Sent>))
    requires WellFormed(desc) && Fits(desc, c.value) && |c.mask| == |desc|
    requires input.Delta? ==> Fits(desc, input.v)
  {
    match input
    case Delta(v) =>
      var (store, mask) := MergeFrom(desc, c.value.store, c.mask, v, 0);
      (MarkUpdate(c.(value := c.value.(store := store), mask := mask), Partial), None)
    case Heartbeat => (MarkUpdate(c, Full), None)
    case Disconnect => (MarkUpdate(c, Partial), None)
    case Send =>
      if c.pending == Disconnected then (c, None)
      else
        (ClearUpdate(c).(seqNo := (c.seqNo + 1) % U16),
         Some(Sent(c.pending, Payload(c.value, c.mask), c.value.store)))
  }

  /** The updates of one connection, in order: the state and the log of what was serialized. */
  ghost predicate IsRun(desc: Desc, first: Value, inputs: seq<Input>, chans: seq<Chan>, logs: seq<seq<Sent>>) {
    && WellFormed(desc) && Fits(desc, first)
    && |chans| == |logs| == |inputs| + 1 && chans[0] == Connect(first) && logs[0] == []
    && forall t: nat :: t < |inputs| ==> RunStep(desc, inputs, chans, logs, t)
  }

  ghost predicate RunStep(desc: Desc, inputs: seq<Input>, chans: seq<Chan>, logs: seq<seq<Sent>>, t: nat)
    requires WellFormed(desc) && |chans| == |logs| == |inputs| + 1 && t < |inputs|
  {
    && Fits(desc, chans[t].value) && |chans[t].mask| == |desc|
    && (inputs[t].Delta? ==> Fits(desc, inputs[t].v) && MarksLeaves(desc, inputs[t].v))
    && var (c, sent) := Step(desc, chans[t], inputs[t]);
       chans[t + 1] == c && logs[t + 1] == logs[t] + (if sent.Some? then [sent.value] else [])
  }

  ghost predicate LeavesValid(desc: Desc, v: Value)
    requires Fits(desc, v)
  {
    forall i :: 0 <= i < |desc| && Leaf(desc, i) ==> v.valid[i]
  }

  /** The store that the last serialized update left behind; before the first one, anything. */
  ghost predicate Unchanged(desc: Desc, c: Chan, last: seq<Data>)
    requires Fits(desc, c.value) && |c.mask| == |last| == |desc|
  {
    forall i :: 0 <= i < |desc| && Leaf(desc, i) && !c.mask[i] ==> c.value.store[i] == last[i]
  }

  /** An entry of the log: a full update has all leaves, a partial one all leaves that differ from the entry before. */
  ghost predicate EntryOk(desc: Desc, log: seq<Sent>, k: nat)
    requires k < |log|
  {
    && |log[k].payload| == |log[k].store| == |desc|
    && log[k].kind != Disconnected
    && (log[k].kind == Partial ==> k > 0 && |log[k - 1].store| == |desc|)
    && forall i :: 0 <= i < |desc| && Leaf(desc, i) ==>
         || log[k].payload[i] == Some(log[k].store[i])
         || (log[k].kind == Partial && log[k].payload[i] == None && log[k].store[i] == log[k - 1].store[i])
  }

  ghost predicate LogOk(desc: Desc, log: seq<Sent>) {
    forall k: nat :: k < |log| ==> EntryOk(desc, log, k)
  }

  /** What holds between any two inputs. */
  ghost predicate ChanInv(desc: Desc, c: Chan, log: seq<Sent>) {
    && Fits(desc, c.value) && |c.mask| == |desc| && LeavesValid(desc, c.value)
    && c.seqNo == |log| % U16
    && (log == [] ==> c.pending == Full)
    && (c.pending == Full ==> forall i :: 0 <= i < |desc| && Leaf(desc, i) ==> c.mask[i])
    && (log != [] ==> |log[|log| - 1].store| == |desc| && Unchanged(desc, c, log[|log| - 1].store))
  }

  lemma DeltaStep(desc: Desc, c: Chan, log: seq<Sent>, v: Value)
    requires WellFormed(desc) && ChanInv(desc, c, log) && Fits(desc, v) && MarksLeaves(desc, v)
    ensures ChanInv(desc, Step(desc, c, Delta(v)).0, log)
  {
    MergeLeaves(desc, c.value.store, c.mask, v, 0);
  }

  lemma SendStep(desc: Desc, c: Chan, log: seq<Sent>)
    requires WellFormed(desc) && ChanInv(desc, c, log) && LogOk(desc, log) && c.pending != Disconnected
    ensures var (c', sent) := Step(desc, c, Send);
            sent.Some? && ChanInv(desc, c', log + [sent.value]) && LogOk(desc, log + [sent.value])
  {
    var entry := Step(desc, c, Send).1.value;
    var log' := log + [entry];
    forall k: nat | k < |log'| ensures EntryOk(desc, log', k) {
      if k < |log| {
        assert EntryOk(desc, log, k);
        assert log'[k] == log[k] && (k > 0 ==> log'[k - 1] == log[k - 1]);
      } else {
        assert log'[k] == entry && (k > 0 ==> log'[k - 1] == log[|log| - 1]);
      }
    }
    assert log'[|log'| - 1] == entry;
  }

  /** Over every run of a connection whose first value is complete and whose deltas mark leaves, the log is in order. */
  lemma {:induction false} RunKeepsLog(desc: Desc, first: Value, inputs: seq<Input>, chans: seq<Chan>,
                                       logs: seq<seq<Sent>>, t: nat)
    requires IsRun(desc, first, inputs, chans, logs) && LeavesValid(desc, first) && t <= |inputs|
    ensures ChanInv(desc, chans[t], logs[t]) && LogOk(desc, logs[t])
  {
    hide ChanInv, LogOk, Step, MarksLeaves, LeavesValid;
    if t == 0 {
      StartOk(desc, first);
    } else {
      RunKeepsLog(desc, first, inputs, chans, logs, t - 1);
      assert RunStep(desc, inputs, chans, logs, t - 1);
      var c, log := chans[t - 1], logs[t - 1];
      match inputs[t - 1] {
        case Delta(v) =>
          DeltaStep(desc, c, log, v);
          NothingSent(desc, c, inputs[t - 1]);
        case Heartbeat =>
          MarkStep(desc, c, log);
          NothingSent(desc, c, inputs[t - 1]);
        case Disconnect =>
          MarkStep(desc, c, log);
          NothingSent(desc, c, inputs[t - 1]);
        case Send =>
          if c.pending == Disconnected {
            NothingSent(desc, c, inputs[t - 1]);
          } else {
            SendStep(desc, c, log);
          }
      }
      assert log + [] == log;
    }
  }

  lemma StartOk(desc: Desc, first: Value)
    requires WellFormed(desc) && Fits(desc, first) && LeavesValid(desc, first)
    ensures ChanInv(desc, Connect(first), []) && LogOk(desc, [])
  {
  }

  lemma MarkStep(desc: Desc, c: Chan, log: seq<Sent>)
    requires WellFormed(desc) && ChanInv(desc, c, log)
    ensures ChanInv(desc, Step(desc, c, Heartbeat).0, log)
    ensures ChanInv(desc, Step(desc, c, Disconnect).0, log)
  {
  }

  lemma NothingSent(desc: Desc, c: Chan, input: Input)
    requires WellFormed(desc) && Fits(desc, c.value) && |c.mask| == |desc|
    requires input.Delta? ==> Fits(desc, input.v)
    requires input.Send? ==> c.pending == Disconnected
    ensures Step(desc, c, input).1 == None
    ensures input.Send? ==> Step(desc, c, input).0 == c
  {
  }

  /**
   The first value must be complete: an update is in order as soon as it is sent exactly when all leaves of the first
   value are valid, because no later delta makes a field valid.
   */
  lemma FirstMustBeComplete(desc: Desc, first: Value)
    requires WellFormed(desc) && Fits(desc, first)
    ensures LogOk(desc, [Step(desc, Connect(first), Send).1.value]) <==> LeavesValid(desc, first)
  {
    var log := [Step(desc, Connect(first), Send).1.value];
    if LeavesValid(desc, first) {
      StartOk(desc, first);
      SendStep(desc, Connect(first), []);
      assert [] + log == log;
    } else {
      var i :| 0 <= i < |desc| && Leaf(desc, i) && !first.valid[i];
      assert log[0].payload[i] == None;
      assert !EntryOk(desc, log, 0);
    }
  }

  lemma {:induction false} MissingIsNeverSent(desc: Desc, first: Value, inputs: seq<Input>, chans: seq<Chan>,
                                              logs: seq<seq<Sent>>, t: nat, i: nat)
    requires IsRun(desc, first, inputs, chans, logs) && t <= |inputs| && i < |desc| && !first.valid[i]
    ensures |chans[t].value.valid| == |desc| && !chans[t].value.valid[i]
    ensures forall k :: 0 <= k < |logs[t]| ==> |logs[t][k].payload| == |desc| && logs[t][k].payload[i] == None
  {
    hide MergeFrom;
    if t > 0 {
      MissingIsNeverSent(desc, first, inputs, chans, logs, t - 1, i);
      assert RunStep(desc, inputs, chans, logs, t - 1);
    }
  }

  // ---------------------------------------------------------------- what is sent, in terms of the inputs

  /** An input of this kind came, and no Send since. */
  ghost predicate HeartbeatSince(inputs: seq<Input>, t: nat)
    requires t <= |inputs|
  {
    exists i: nat :: i < t && inputs[i] == Heartbeat && NoSend(inputs, i + 1, t)
  }

  ghost predicate NoSend(inputs: seq<Input>, a: nat, b: nat)
    requires b <= |inputs|
  {
    forall j: nat :: a <= j < b ==> inputs[j] != Send
  }

  /** A delta that marks node n came, and no Send since. */
  ghost predicate TouchedSince(inputs: seq<Input>, t: nat, n: nat)
    requires t <= |inputs|
  {
    exists i: nat :: i < t && Marks(inputs[i], n) && NoSend(inputs, i + 1, t)
  }

  predicate Marks(input: Input, n: nat) {
    input.Delta? && n < |input.v.valid| && input.v.valid[n]
  }

  /** The kind of update that is due before input t. */
  ghost function Due(inputs: seq<Input>, t: nat, sentSome: bool): (kind: UpdateType)
    requires t <= |inputs|
  {
    if !sentSome || HeartbeatSince(inputs, t) then Full
    else if t > 0 && inputs[t - 1] != Send then Partial
    else Disconnected
  }

  lemma SinceStep(inputs: seq<Input>, t: nat, n: nat)
    requires t < |inputs|
    ensures HeartbeatSince(inputs, t + 1)
            <==> inputs[t] == Heartbeat || (inputs[t] != Send && HeartbeatSince(inputs, t))
    ensures TouchedSince(inputs, t + 1, n)
            <==> Marks(inputs[t], n) || (inputs[t] != Send && TouchedSince(inputs, t, n))
  {
    if HeartbeatSince(inputs, t) && inputs[t] != Send {
      var i: nat :| i < t && inputs[i] == Heartbeat && NoSend(inputs, i + 1, t);
      assert NoSend(inputs, i + 1, t + 1);
    }
    if TouchedSince(inputs, t, n) && inputs[t] != Send {
      var i: nat :| i < t && Marks(inputs[i], n) && NoSend(inputs, i + 1, t);
      assert NoSend(inputs, i + 1, t + 1);
    }
    assert NoSend(inputs, t + 1, t + 1);
    if HeartbeatSince(inputs, t + 1) && inputs[t] != Heartbeat {
      var i: nat :| i < t + 1 && inputs[i] == Heartbeat && NoSend(inputs, i + 1, t + 1);
      assert NoSend(inputs, i + 1, t);
    }
    if TouchedSince(inputs, t + 1, n) && !Marks(inputs[t], n) {
      var i: nat :| i < t + 1 && Marks(inputs[i], n) && NoSend(inputs, i + 1, t + 1);
      assert NoSend(inputs, i + 1, t);
    }
  }

  /** The data of the newest delta that marks node n. */
  function NewestData(inputs: seq<Input>, t: nat, n: nat, start: Data): (d: Data)
    requires t <= |inputs|
  {
    if t == 0 then start
    else if Marks(inputs[t - 1], n) && n < |inputs[t - 1].v.store| then inputs[t - 1].v.store[n]
    else NewestData(inputs, t - 1, n, start)
  }

  /** What a channel holds for node n before input t. */
  ghost predicate NodeExact(desc: Desc, first: Value, inputs: seq<Input>, c: Chan, sentSome: bool, t: nat, n: nat)
    requires Fits(desc, first) && Fits(desc, c.value) && |c.mask| == |desc| && t <= |inputs| && n < |desc|
  {
    && c.value.valid[n] == first.valid[n] && c.value.store[n] == NewestData(inputs, t, n, first.store[n])
    && if Due(inputs, t, sentSome) == Full then first.valid[n] ==> c.mask[n]
       else c.mask[n] <==> TouchedSince(inputs, t, n)
  }

  lemma NodeStep(desc: Desc, first: Value, inputs: seq<Input>, chans: seq<Chan>, logs: seq<seq<Sent>>, t: nat, n: nat)
    requires IsRun(desc, first, inputs, chans, logs) && t < |inputs| && n < |desc|
    requires Fits(desc, chans[t].value) && |chans[t].mask| == |desc|
    requires chans[t].pending == Due(inputs, t, logs[t] != [])
    requires NodeExact(desc, first, inputs, chans[t], logs[t] != [], t, n)
    ensures Fits(desc, chans[t + 1].value) && |chans[t + 1].mask| == |desc|
    ensures chans[t + 1].pending == Due(inputs, t + 1, logs[t + 1] != [])
    ensures NodeExact(desc, first, inputs, chans[t + 1], logs[t + 1] != [], t + 1, n)
  {
    hide HeartbeatSince, TouchedSince, MergeFrom;
    assert RunStep(desc, inputs, chans, logs, t);
    SinceStep(inputs, t, n);
    if t > 0 {
      SinceStep(inputs, t - 1, n);
    }
    if inputs[t].Delta? {
      MergeLeaves(desc, chans[t].value.store, chans[t].mask, inputs[t].v, 0);
    }
  }

  /** Over every run, what the channel holds follows from the inputs alone. */
  lemma {:induction false} ChannelExact(desc: Desc, first: Value, inputs: seq<Input>, chans: seq<Chan>,
                                        logs: seq<seq<Sent>>, t: nat, n: nat)
    requires IsRun(desc, first, inputs, chans, logs) && t <= |inputs| && n < |desc|
    ensures Fits(desc, chans[t].value) && |chans[t].mask| == |desc|
    ensures chans[t].pending == Due(inputs, t, logs[t] != [])
    ensures NodeExact(desc, first, inputs, chans[t], logs[t] != [], t, n)
  {
    hide NodeExact, Due;
    if t == 0 {
      NodeStart(desc, first, inputs, n);
    } else {
      ChannelExact(desc, first, inputs, chans, logs, t - 1, n);
      NodeStep(desc, first, inputs, chans, logs, t - 1, n);
    }
  }

  lemma NodeStart(desc: Desc, first: Value, inputs: seq<Input>, n: nat)
    requires Fits(desc, first) && n < |desc|
    ensures var c := Connect(first);
            && Fits(desc, c.value) && |c.mask| == |desc| && c.pending == Due(inputs, 0, false)
            && NodeExact(desc, first, inputs, c, false, 0, n)
  {
  }

  /**
   Exactly what a Send puts into the log. It is a full update, with every valid node, if it is the first one of the
   connection or a heartbeat came since the Send before it; a partial one, with the valid nodes that deltas have marked
   since then, if anything else came; and nothing otherwise. All nodes have the data of their newest delta.
   */
  lemma SentExactly(desc: Desc, first: Value, inputs: seq<Input>, chans: seq<Chan>, logs: seq<seq<Sent>>, t: nat,
                    n: nat)
    requires IsRun(desc, first, inputs, chans, logs) && t < |inputs| && inputs[t] == Send && n < |desc|
    ensures if logs[t] != [] && t > 0 && inputs[t - 1] == Send then logs[t + 1] == logs[t]
            else
              && |logs[t + 1]| == |logs[t]| + 1 && logs[t] == logs[t + 1][..|logs[t]|]
              && var e := logs[t + 1][|logs[t]|];
                 && (e.kind == Full <==> logs[t] == [] || HeartbeatSince(inputs, t))
                 && (e.kind == Full || e.kind == Partial) && |e.payload| == |e.store| == |desc|
                 && e.store[n] == NewestData(inputs, t, n, first.store[n])
                 && e.payload[n] == if first.valid[n] && (e.kind == Full || TouchedSince(inputs, t, n))
                                    then Some(e.store[n]) else None
  {
    hide MergeFrom, TouchedSince;
    assert RunStep(desc, inputs, chans, logs, t);
    ChannelExact(desc, first, inputs, chans, logs, t, n);
    if t > 0 {
      SinceStep(inputs, t - 1, n);
    }
  }

  // ---------------------------------------------------------------- how soon a lost update is made good

  /** The iterations of the sender: each ends with a Send, and every h-th one has a heartbeat right before it. */
  ghost predicate InIterations(inputs: seq<Input>, h: nat, ends: seq<nat>) {
    && h > 0 && ends != [] && ends[0] == 0
    && forall t: nat :: 0 < t < |ends| ==> IterationEnds(inputs, h, ends, t)
  }

  ghost predicate IterationEnds(inputs: seq<Input>, h: nat, ends: seq<nat>, t: nat)
    requires h > 0 && 0 < t < |ends|
  {
    && ends[t - 1] < ends[t] <= |inputs| && inputs[ends[t] - 1] == Send
    && (t % h == 0 ==> ends[t] - ends[t - 1] >= 2 && inputs[ends[t] - 2] == Heartbeat)
  }

  /** In any h iterations one sends a full update, whatever else is pending. */
  lemma FullWithin(desc: Desc, first: Value, inputs: seq<Input>, chans: seq<Chan>, logs: seq<seq<Sent>>, h: nat,
                   ends: seq<nat>, a: nat)
    returns (t: nat)
    requires IsRun(desc, first, inputs, chans, logs) && InIterations(inputs, h, ends) && a + h < |ends| && |desc| > 0
    ensures a < t <= a + h && 0 < ends[t] <= |inputs|
    ensures var before, after := logs[ends[t] - 1], logs[ends[t]];
            |after| == |before| + 1 && after[|before|].kind == Full
  {
    t := NextMultiple(a, h);
    assert IterationEnds(inputs, h, ends, t);
    var s := ends[t] - 1;
    assert NoSend(inputs, s, s);
    assert HeartbeatSince(inputs, s);
    SentExactly(desc, first, inputs, chans, logs, s, 0);
  }

  // ---------------------------------------------------------------- the receiver's channel

  datatype Mirror = Mirror(value: Option<seq<Data>>, lastSeqNo: nat)

  function Overlay(base: seq<Data>, payload: seq<Option<Data>>): (r: seq<Data>)
    requires |base| == |payload|
    ensures |r| == |base|
  {
    seq(|base|, i requires 0 <= i < |base| => if payload[i].Some? then payload[i].value else base[i])
  }

  /** One update at the receiver; empty is a value of the announced type, if that type is known. */
  function Receive(m: Mirror, empty: Option<seq<Data>>, seqNo: nat, kind: UpdateType, payload: seq<Option<Data>>)
    : (r: (Mirror, bool))
    requires empty.Some? ==> |empty.value| == |payload|
    requires m.value.Some? ==> |m.value.value| == |payload|
    ensures r.0.value.Some? && kind != Disconnected ==> |r.0.value.value| == |payload|
  {
    match kind
    case Disconnected => (Mirror(None, seqNo), true)
    case Partial =>
      if m.value.Some? && seqNo == (m.lastSeqNo + 1) % U16 then
        (Mirror(Some(Overlay(m.value.value, payload)), seqNo), true)
      else (m, false)
    case Full =>
      if empty == None then (m, false)
      else
        var base := if m.value.Some? then m.value.value else empty.value;
        (Mirror(Some(Overlay(base, payload)), seqNo), true)
  }

  /** The mirror shows the sender's value at the time of log entry k. */
  ghost predicate Shows(desc: Desc, m: Mirror, log: seq<Sent>, k: nat)
    requires k < |log|
  {
    && m.value.Some? && |m.value.value| == |log[k].store| == |desc| && m.lastSeqNo == k % U16
    && forall i :: 0 <= i < |desc| && Leaf(desc, i) ==> m.value.value[i] == log[k].store[i]
  }

  /** Nothing accepted yet, so the mirror is as it was before; or it shows the entry accepted last. */
  ghost predicate MirrorOk(desc: Desc, start: Mirror, m: Mirror, log: seq<Sent>, last: Option<nat>) {
    match last
    case None => m == start
    case Some(j) => j < |log| && Shows(desc, m, log, j)
  }

  /** Entry k, a partial update, has the number that the mirror expects next. */
  predicate Expected(start: Mirror, log: seq<Sent>, k: nat)
    requires k < |log|
  {
    log[k].kind == Partial && start.value.Some? && k % U16 == (start.lastSeqNo + 1) % U16
  }

  /**
   What the receiver has left over from a former connection or session does no harm: a partial update that it would take
   for the next one carries every leaf that is different.
   */
  ghost predicate LeftOverOk(desc: Desc, log: seq<Sent>, start: Mirror) {
    && (start.value.Some? ==> |start.value.value| == |desc|)
    && forall k: nat :: k < |log| && Expected(start, log, k) ==> Covers(desc, log, start, k)
  }

  ghost predicate Covers(desc: Desc, log: seq<Sent>, start: Mirror, k: nat)
    requires k < |log| && start.value.Some? && |start.value.value| == |desc|
  {
    && |log[k].payload| == |log[k].store| == |desc|
    && forall i :: 0 <= i < |desc| && Leaf(desc, i) && log[k].payload[i] == None ==>
         start.value.value[i] == log[k].store[i]
  }

  /** Update k arrives while entry last was the last one accepted, not so far away that their numbers coincide. */
  ghost predicate NotAliased(last: Option<nat>, k: nat) {
    last.Some? ==> last.value + 1 - U16 < k < last.value + 1 + U16
  }

  /** One arrival, of any entry at any time: what is accepted shows that entry, what is dropped changes nothing. */
  lemma ArrivalStep(desc: Desc, start: Mirror, log: seq<Sent>, m: Mirror, last: Option<nat>, k: nat,
                    empty: Option<seq<Data>>)
    requires LogOk(desc, log) && k < |log| && MirrorOk(desc, start, m, log, last) && NotAliased(last, k)
    requires LeftOverOk(desc, log, start) && (empty.Some? ==> |empty.value| == |desc|)
    ensures |log[k].payload| == |desc| && (m.value.Some? ==> |m.value.value| == |desc|)
    ensures var (m', ok) := Receive(m, empty, k % U16, log[k].kind, log[k].payload);
            && (ok <==> if log[k].kind == Full then empty.Some?
                        else if last.Some? then k == last.value + 1 else Expected(start, log, k))
            && (if ok then Shows(desc, m', log, k) else m' == m)
  {
    assert EntryOk(desc, log, k);
    if last.Some? {
      var j := last.value;
      if k % U16 == (j % U16 + 1) % U16 {
        SameNumber(j, k);
      }
    } else if Expected(start, log, k) {
      assert Covers(desc, log, start, k);
    }
  }

  lemma SameNumber(j: nat, k: nat)
    requires k % U16 == (j % U16 + 1) % U16 && j + 1 - U16 < k < j + 1 + U16
    ensures k == j + 1
  {
    assert (k - (j + 1)) % U16 == 0;
  }

  /** A full update of a known type makes good whatever was lost: it shows the sender's value to every receiver. */
  lemma FullRestores(desc: Desc, log: seq<Sent>, m: Mirror, empty: seq<Data>, k: nat)
    requires LogOk(desc, log) && k < |log| && log[k].kind == Full && |empty| == |desc|
    requires m.value.Some? ==> |m.value.value| == |desc|
    ensures |log[k].payload| == |desc|
    ensures var (m', ok) := Receive(m, Some(empty), k % U16, Full, log[k].payload);
            ok && Shows(desc, m', log, k)
  {
    assert EntryOk(desc, log, k);
  }

  /** So in any h iterations there is an update that makes a receiver show the sender's value, whatever it has lost. */
  lemma RecoversWithin(desc: Desc, first: Value, inputs: seq<Input>, chans: seq<Chan>, logs: seq<seq<Sent>>, h: nat,
                       ends: seq<nat>, a: nat, m: Mirror, empty: seq<Data>)
    returns (t: nat, k: nat)
    requires IsRun(desc, first, inputs, chans, logs) && LeavesValid(desc, first) && |desc| > 0
    requires InIterations(inputs, h, ends) && a + h < |ends|
    requires |empty| == |desc| && (m.value.Some? ==> |m.value.value| == |desc|)
    ensures a < t <= a + h && ends[t] <= |inputs| && |logs[ends[t]]| == k + 1
    ensures var log := logs[ends[t]];
            && |log[k].payload| == |desc|
            && var (m', ok) := Receive(m, Some(empty), k % U16, log[k].kind, log[k].payload);
               ok && Shows(desc, m', log, k)
  {
    hide InIterations, LogOk, Receive, Shows, LeavesValid, RunStep;
    t := FullWithin(desc, first, inputs, chans, logs, h, ends, a);
    k := |logs[ends[t]]| - 1;
    LogAt(desc, first, inputs, chans, logs, ends[t]);
    FullRestores(desc, logs[ends[t]], m, empty, k);
  }

  lemma LogAt(desc: Desc, first: Value, inputs: seq<Input>, chans: seq<Chan>, logs: seq<seq<Sent>>, t: nat)
    requires IsRun(desc, first, inputs, chans, logs) && LeavesValid(desc, first) && t <= |inputs|
    ensures LogOk(desc, logs[t])
  {
    RunKeepsLog(desc, first, inputs, chans, logs, t);
  }

  /** A disconnect is always accepted and forgets the value, so that only a full update can follow it. */
  lemma DisconnectForgets(m: Mirror, empty: Option<seq<Data>>, s: nat, s': nat, p: seq<Option<Data>>)
    requires (empty.Some? ==> |empty.value| == |p|) && (m.value.Some? ==> |m.value.value| == |p|)
    ensures var (m', ok) := Receive(m, empty, s, Disconnected, p);
            ok && m'.value == None && m'.lastSeqNo == s && !Receive(m', empty, s', Partial, p).1
  {
  }

  // ---------------------------------------------------------------- 65536 updates further on

  /**
   The proviso is needed. A partial update with the number of the expected one is accepted, whichever it is, and the
   receiver then shows the sender's value exactly if every leaf that the update does not carry is as it was in the one
   accepted last.
   */
  lemma AliasShowsIff(desc: Desc, log: seq<Sent>, m: Mirror, empty: Option<seq<Data>>, j: nat, k: nat)
    requires LogOk(desc, log) && j < |log| && k < |log| && Shows(desc, m, log, j)
    requires log[k].kind == Partial && k % U16 == (j + 1) % U16 && (empty.Some? ==> |empty.value| == |desc|)
    ensures |log[k].payload| == |log[k].store| == |log[j].store| == |desc| && m.value.Some? && |m.value.value| == |desc|
    ensures var (m', ok) := Receive(m, empty, k % U16, log[k].kind, log[k].payload);
            && ok
            && (Shows(desc, m', log, k)
                <==> forall i :: 0 <= i < |desc| && Leaf(desc, i) && log[k].payload[i] == None ==>
                       log[j].store[i] == log[k].store[i])
  {
    assert EntryOk(desc, log, k) && EntryOk(desc, log, j);
    assert (j % U16 + 1) % U16 == (j + 1) % U16;
  }

  /** A structure with two leaves. */
  const PAIR: Desc := [3, 1, 1]

  function PairDelta(first: bool): (v: Value)
    ensures |v.store| == |v.valid| == |PAIR|
  {
    Value([[], [1], [1]], [false, first, !first])
  }

  function PairPayload(first: bool): (p: seq<Option<Data>>) {
    [None, if first then Some([1]) else None, if first then None else Some([1])]
  }

  const PAIR_START: Value := Value([[], [0], [0]], [false, true, true])

  /** After an update of the second leaf and n updates of the first one: nothing is pending. */
  ghost predicate PairAt(c: Chan, log: seq<Sent>, n: nat) {
    && c.pending == Disconnected && c.mask == [false, false, false] && c.value.valid == PAIR_START.valid
    && c.value.store == [[], if n > 0 then [1] else [0], [1]]
    && |log| == n + 2 && log[0].kind == Full && log[0].store == PAIR_START.store
    && log[n + 1].kind == Partial && log[n + 1].store == c.value.store
    && (n > 0 ==> log[n + 1].payload == [None, Some([1]), None])
  }

  lemma PairWellFormed()
    ensures WellFormed(PAIR) && MarksLeaves(PAIR, PairDelta(true)) && MarksLeaves(PAIR, PairDelta(false))
    ensures Leaf(PAIR, 1) && Leaf(PAIR, 2)
  {
  }

  /** A delta of one leaf, and its update. */
  lemma PairStep(c: Chan, first: bool)
    requires WellFormed(PAIR) && |c.value.store| == 3 && c.value.valid == [false, true, true]
    requires c.mask == [false, false, false] && c.pending == Disconnected
    ensures var c1 := Step(PAIR, c, Delta(PairDelta(first))).0;
            && Fits(PAIR, c1.value) && |c1.mask| == 3
            && var (c2, sent) := Step(PAIR, c1, Send);
               && c2.pending == Disconnected && c2.mask == [false, false, false] && c2.value.valid == c.value.valid
               && c2.value.store == c.value.store[(if first then 1 else 2) := [1]]
               && sent == Some(Sent(Partial, PairPayload(first), c2.value.store))
  {
    var v := PairDelta(first);
    var leaf := if first then 1 else 2;
    assert MarksLeaves(PAIR, v);
    MergeLeaves(PAIR, c.value.store, c.mask, v, 0);
    var (store, mask) := MergeFrom(PAIR, c.value.store, c.mask, v, 0);
    assert mask == c.mask[leaf := true];
    assert store == c.value.store[leaf := [1]];
    var c1 := Step(PAIR, c, Delta(v)).0;
    assert c1.mask == mask && c1.value.store == store && c1.pending == Partial;
    assert ClearUpdate(c1).mask == [false, false, false];
    assert Payload(c1.value, mask) == PairPayload(first);
  }

  lemma RunOneMore(desc: Desc, first: Value, inputs: seq<Input>, chans: seq<Chan>, logs: seq<seq<Sent>>, input: Input)
    returns (inputs': seq<Input>, chans': seq<Chan>, logs': seq<seq<Sent>>)
    requires IsRun(desc, first, inputs, chans, logs)
    requires Fits(desc, chans[|inputs|].value) && |chans[|inputs|].mask| == |desc|
    requires input.Delta? ==> Fits(desc, input.v) && MarksLeaves(desc, input.v)
    ensures inputs' == inputs + [input] && IsRun(desc, first, inputs', chans', logs')
    ensures var n := |inputs|;
            var (c, sent) := Step(desc, chans[n], input);
            chans'[n + 1] == c && logs'[n + 1] == logs[n] + (if sent.Some? then [sent.value] else [])
  {
    var n := |inputs|;
    var (c, sent) := Step(desc, chans[n], input);
    inputs', chans' := inputs + [input], chans + [c];
    logs' := logs + [logs[n] + (if sent.Some? then [sent.value] else [])];
    forall t: nat | t < |inputs'|
      ensures RunStep(desc, inputs', chans', logs', t)
    {
      if t < n {
        assert RunStep(desc, inputs, chans, logs, t);
      }
    }
  }

  /** A delta of one leaf and its update, at the end of a run. */
  lemma PairOneMore(inputs: seq<Input>, chans: seq<Chan>, logs: seq<seq<Sent>>, first: bool)
    returns (inputs': seq<Input>, chans': seq<Chan>, logs': seq<seq<Sent>>)
    requires IsRun(PAIR, PAIR_START, inputs, chans, logs)
    requires var c := chans[|inputs|];
             && |c.value.store| == 3 && c.value.valid == PAIR_START.valid
             && c.mask == [false, false, false] && c.pending == Disconnected
    ensures IsRun(PAIR, PAIR_START, inputs', chans', logs')
    ensures var c, c' := chans[|inputs|], chans'[|inputs'|];
            && c'.pending == Disconnected && c'.mask == c.mask && c'.value.valid == c.value.valid
            && c'.value.store == c.value.store[(if first then 1 else 2) := [1]]
            && logs'[|inputs'|]
               == logs[|inputs|] + [Sent(Partial, PairPayload(first), c'.value.store)]
  {
    PairWellFormed();
    PairStep(chans[|inputs|], first);
    DeltaSendsNothing(PAIR, chans[|inputs|], PairDelta(first));
    hide Step, MarksLeaves;
    var i1, c1, l1 := RunOneMore(PAIR, PAIR_START, inputs, chans, logs, Delta(PairDelta(first)));
    inputs', chans', logs' := RunOneMore(PAIR, PAIR_START, i1, c1, l1, Send);
    assert logs[|inputs|] + [] == logs[|inputs|];
  }

  lemma DeltaSendsNothing(desc: Desc, c: Chan, v: Value)
    requires WellFormed(desc) && Fits(desc, c.value) && |c.mask| == |desc| && Fits(desc, v)
    ensures Step(desc, c, Delta(v)).1 == None
  {
  }

  lemma {:induction false} PairRun(n: nat) returns (inputs: seq<Input>, chans: seq<Chan>, logs: seq<seq<Sent>>)
    ensures IsRun(PAIR, PAIR_START, inputs, chans, logs) && PairAt(chans[|inputs|], logs[|inputs|], n)
  {
    if n == 0 {
      PairWellFormed();
      var c := Connect(PAIR_START);
      assert c.mask == PAIR_START.valid;
      inputs, chans, logs := RunOneMore(PAIR, PAIR_START, [], [c], [[]], Send);
      assert ClearUpdate(c).mask == [false, false, false];
      inputs, chans, logs := PairOneMore(inputs, chans, logs, false);
    } else {
      inputs, chans, logs := PairRun(n - 1);
      inputs, chans, logs := PairOneMore(inputs, chans, logs, true);
    }
  }

  /** A run with 65538 updates: accepted after the first one, the last one leaves the receiver with a wrong value. */
  lemma AliasShowsWrong(m: Mirror)
    returns (inputs: seq<Input>, chans: seq<Chan>, logs: seq<seq<Sent>>, m1: Mirror, m2: Mirror)
    requires m.value == None
    ensures IsRun(PAIR, PAIR_START, inputs, chans, logs) && LeavesValid(PAIR, PAIR_START)
    ensures var log := logs[|inputs|];
            && |log| == U16 + 2 && |log[0].payload| == |log[U16 + 1].payload| == |PAIR|
            && (m1.value.Some? ==> |m1.value.value| == |PAIR|)
            && (m1, true) == Receive(m, Some(PAIR_START.store), 0, log[0].kind, log[0].payload)
            && (m2, true) == Receive(m1, None, (U16 + 1) % U16, log[U16 + 1].kind, log[U16 + 1].payload)
            && Shows(PAIR, m1, log, 0) && !Shows(PAIR, m2, log, U16 + 1)
  {
    inputs, chans, logs := PairRun(U16);
    PairWellFormed();
    var log, k := logs[|inputs|], U16 + 1;
    RunKeepsLog(PAIR, PAIR_START, inputs, chans, logs, |inputs|);
    assert EntryOk(PAIR, log, 0) && EntryOk(PAIR, log, k);
    m1 := Receive(m, Some(PAIR_START.store), 0, log[0].kind, log[0].payload).0;
    m2 := Receive(m1, None, k % U16, log[k].kind, log[k].payload).0;
    assert Shows(PAIR, m1, log, 0);
    AliasShowsIff(PAIR, log, m1, None, 0, k);
    assert Leaf(PAIR, 2) && log[k].payload[2] == None && log[0].store[2] != log[k].store[2];
  }

  // ---------------------------------------------------------------- whole traces

  /** Arrivals of log entries, in any order and with losses and repetitions, and what is known of the type then. */
  datatype Arrival = Arrival(k: nat, empty: Option<seq<Data>>)

  ghost predicate IsTrace(desc: Desc, start: Mirror, log: seq<Sent>, arrivals: seq<Arrival>, mirrors: seq<Mirror>,
                          lasts: seq<Option<nat>>)
  {
    && |mirrors| == |lasts| == |arrivals| + 1 && mirrors[0] == start && lasts[0] == None
    && forall t: nat :: t < |arrivals| ==> TraceStep(desc, log, arrivals, mirrors, lasts, t)
  }

  ghost predicate TraceStep(desc: Desc, log: seq<Sent>, arrivals: seq<Arrival>, mirrors: seq<Mirror>,
                            lasts: seq<Option<nat>>, t: nat)
    requires |mirrors| == |lasts| == |arrivals| + 1 && t < |arrivals|
  {
    var a, m := arrivals[t], mirrors[t];
    && a.k < |log| && |log[a.k].payload| == |desc|
    && (a.empty.Some? ==> |a.empty.value| == |desc|) && (m.value.Some? ==> |m.value.value| == |desc|)
    && NotAliased(lasts[t], a.k)
    && var (m', ok) := Receive(m, a.empty, a.k % U16, log[a.k].kind, log[a.k].payload);
       mirrors[t + 1] == m' && lasts[t + 1] == if ok then Some(a.k) else lasts[t]
  }

  /**
   Delta replication: over any loss, repetition and reordering of the updates of one connection, as long as no update is
   65536 or more away from the one accepted last, the receiver's value after every accepted update is the sender's value
   when that update was serialized; and between accepted updates it stays. What the receiver held before may be nothing,
   or a value that is left over and does no harm.
   */
  lemma {:induction false} MirrorFollows(desc: Desc, start: Mirror, log: seq<Sent>, arrivals: seq<Arrival>,
                                         mirrors: seq<Mirror>, lasts: seq<Option<nat>>, t: nat)
    requires LogOk(desc, log) && LeftOverOk(desc, log, start)
    requires IsTrace(desc, start, log, arrivals, mirrors, lasts) && t <= |arrivals|
    ensures MirrorOk(desc, start, mirrors[t], log, lasts[t])
  {
    hide LogOk, Receive, NotAliased, Shows, LeftOverOk;
    if t > 0 {
      MirrorFollows(desc, start, log, arrivals, mirrors, lasts, t - 1);
      assert TraceStep(desc, log, arrivals, mirrors, lasts, t - 1);
      ArrivalStep(desc, start, log, mirrors[t - 1], lasts[t - 1], arrivals[t - 1].k, arrivals[t - 1].empty);
    }
  }

  /** Sender and receiver together. */
  lemma Replicates(desc: Desc, start: Mirror, first: Value, inputs: seq<Input>, chans: seq<Chan>,
                   logs: seq<seq<Sent>>, arrivals: seq<Arrival>, mirrors: seq<Mirror>, lasts: seq<Option<nat>>, t: nat)
    requires IsRun(desc, first, inputs, chans, logs) && LeavesValid(desc, first)
    requires LeftOverOk(desc, logs[|inputs|], start)
    requires IsTrace(desc, start, logs[|inputs|], arrivals, mirrors, lasts) && t <= |arrivals|
    ensures MirrorOk(desc, start, mirrors[t], logs[|inputs|], lasts[t])
  {
    hide LogOk, IsTrace, MirrorOk, LeftOverOk;
    RunKeepsLog(desc, first, inputs, chans, logs, |inputs|);
    MirrorFollows(desc, start, logs[|inputs|], arrivals, mirrors, lasts, t);
  }

  /**
   The exact condition after a restart of the sender or a reconnection, whose numbers begin at 0 again while the
   receiver forgets nothing: every accepted update shows the sender's value, in every order of arrival, if and only if
   what is left over does no harm. A receiver without a value always meets it.
   */
  lemma FollowsIff(desc: Desc, start: Mirror, log: seq<Sent>)
    requires LogOk(desc, log) && (start.value.Some? ==> |start.value.value| == |desc|)
    ensures (forall arrivals: seq<Arrival>, mirrors: seq<Mirror>, lasts: seq<Option<nat>>, t: nat ::
               IsTrace(desc, start, log, arrivals, mirrors, lasts) && t <= |arrivals| ==>
                 MirrorOk(desc, start, mirrors[t], log, lasts[t]))
            <==> LeftOverOk(desc, log, start)
    ensures start.value.None? ==> LeftOverOk(desc, log, start)
  {
    hide LogOk, TraceStep, MirrorOk, Covers;
    if LeftOverOk(desc, log, start) {
      forall arrivals: seq<Arrival>, mirrors: seq<Mirror>, lasts: seq<Option<nat>>, t: nat
        | IsTrace(desc, start, log, arrivals, mirrors, lasts) && t <= |arrivals|
        ensures MirrorOk(desc, start, mirrors[t], log, lasts[t])
      {
        MirrorFollows(desc, start, log, arrivals, mirrors, lasts, t);
      }
    } else {
      var k: nat :| k < |log| && Expected(start, log, k) && !Covers(desc, log, start, k);
      var arrivals, mirrors, lasts := LeftOverMisleads(desc, start, log, k);
      assert !MirrorOk(desc, start, mirrors[1], log, lasts[1]);
    }
  }

  lemma LeftOverMisleads(desc: Desc, start: Mirror, log: seq<Sent>, k: nat)
    returns (arrivals: seq<Arrival>, mirrors: seq<Mirror>, lasts: seq<Option<nat>>)
    requires LogOk(desc, log) && (start.value.Some? ==> |start.value.value| == |desc|)
    requires k < |log| && Expected(start, log, k) && !Covers(desc, log, start, k)
    ensures IsTrace(desc, start, log, arrivals, mirrors, lasts) && |arrivals| == 1
    ensures !MirrorOk(desc, start, mirrors[1], log, lasts[1])
  {
    assert EntryOk(desc, log, k);
    hide LogOk, EntryOk;
    var (m, ok) := Receive(start, None, k % U16, log[k].kind, log[k].payload);
    arrivals, mirrors, lasts := [Arrival(k, None)], [start, m], [None, Some(k)];
    assert !Shows(desc, m, log, k);
    hide Shows, Covers;
    assert TraceStep(desc, log, arrivals, mirrors, lasts, 0);
  }

  /** After a gap, partial updates are dropped until a full one arrives. */
  lemma {:induction false} DroppedUntilFull(desc: Desc, start: Mirror, log: seq<Sent>, arrivals: seq<Arrival>,
                                            mirrors: seq<Mirror>, lasts: seq<Option<nat>>, s: nat, t: nat)
    requires LogOk(desc, log) && LeftOverOk(desc, log, start)
    requires IsTrace(desc, start, log, arrivals, mirrors, lasts) && s <= t <= |arrivals|
    requires forall u :: s <= u < t ==>
               && arrivals[u].k < |log| && log[arrivals[u].k].kind == Partial
               && if lasts[s].Some? then arrivals[u].k != lasts[s].value + 1
                  else !Expected(start, log, arrivals[u].k)
    ensures mirrors[t] == mirrors[s] && lasts[t] == lasts[s]
    decreases t
  {
    hide LogOk, Receive, NotAliased, MirrorOk, LeftOverOk, Expected;
    if s < t {
      DroppedUntilFull(desc, start, log, arrivals, mirrors, lasts, s, t - 1);
      MirrorFollows(desc, start, log, arrivals, mirrors, lasts, t - 1);
      assert TraceStep(desc, log, arrivals, mirrors, lasts, t - 1);
      ArrivalStep(desc, start, log, mirrors[t - 1], lasts[t - 1], arrivals[t - 1].k, arrivals[t - 1].empty);
    }
  }

  // ---------------------------------------------------------------- the objects

  class SenderChannel {
    const desc: Desc
    var store: seq<Data>
    var valid: seq<bool>
    var changedMask: seq<bool>
    var pendingUpdate: UpdateType
    var updateSeqNo: nat

    ghost predicate Valid()
      reads this
    {
      WellFormed(desc) && |store| == |valid| == |changedMask| == |desc| && updateSeqNo < U16
    }

    ghost function C(): Chan
      reads this
    {
      Chan(Value(store, valid), changedMask, pendingUpdate, updateSeqNo)
    }

    constructor (desc: Desc, first: Value)
      requires WellFormed(desc) && Fits(desc, first)
      ensures Valid() && this.desc == desc && C() == Connect(first)
    {
      this.desc := desc;
      store, valid, changedMask := first.store, first.valid, seq(|first.store|, _ => false);
      pendingUpdate, updateSeqNo := Disconnected, 0;
      new;
      Mark(Full);
    }

    /** merge */
    method Merge(src: Value)
      requires Valid() && Fits(desc, src)
      modifies this`store, this`changedMask
      ensures Valid() && (store, changedMask) == MergeFrom(desc, old(store), old(changedMask), src, 0)
    {
      var bit := 0;
      while bit < |desc|
        invariant bit <= |desc| && Valid()
        invariant MergeFrom(desc, store, changedMask, src, bit)
                  == MergeFrom(desc, old(store), old(changedMask), src, 0)
        decreases |desc| - bit
      {
        if src.valid[bit] {
          if desc[bit] == 1 {
            store := store[bit := src.store[bit]];
          }
          changedMask := changedMask[bit := true];
          bit := bit + desc[bit];
        } else {
          bit := bit + 1;
        }
      }
    }

    /** valid_to_mask */
    method ValidToMask()
      requires Valid()
      modifies this`changedMask
      ensures Valid() && changedMask == valid
    {
      for bit := 0 to |desc|
        invariant Valid() && changedMask[..bit] == valid[..bit]
      {
        changedMask := changedMask[bit := valid[bit]];
      }
      assert changedMask[..|desc|] == changedMask && valid[..|desc|] == valid;
    }

    /** mark_update */
    method Mark(kind: UpdateType)
      requires Valid() && kind != Disconnected
      modifies this`pendingUpdate, this`changedMask
      ensures Valid() && C() == MarkUpdate(old(C()), kind)
    {
      if pendingUpdate == Disconnected {
        pendingUpdate := kind;
        if kind == Full {
          ValidToMask();
        }
      } else if kind == Full && pendingUpdate != Full {
        pendingUpdate := kind;
        ValidToMask();
      }
    }

    /** The update of one iteration of send_updates: serialize, count, clear. */
    method Serialize() returns (seqNo: nat, sent: Option<Sent>)
      requires Valid()
      modifies this`changedMask, this`pendingUpdate, this`updateSeqNo
      ensures Valid() && seqNo == old(updateSeqNo) && (C(), sent) == Step(desc, old(C()), Send)
    {
      seqNo, sent := updateSeqNo, None;
      if pendingUpdate != Disconnected {
        sent := Some(Sent(pendingUpdate, Payload(Value(store, valid), changedMask), store));
        updateSeqNo := (updateSeqNo + 1) % U16;
        changedMask := seq(|changedMask|, _ => false);
        pendingUpdate := Disconnected;
      }
    }

    /** A monitor event of the connected channel. */
    method Update(v: Value)
      requires Valid() && Fits(desc, v)
      modifies this`store, this`changedMask, this`pendingUpdate
      ensures Valid() && C() == Step(desc, old(C()), Delta(v)).0
    {
      Merge(v);
      Mark(Partial);
    }
  }

  class ReceiverChannel {
    var lastValue: Option<seq<Data>>
    var lastUpdateSeqNo: nat
    var disconnected: bool

    ghost function M(): Mirror
      reads this
    {
      Mirror(lastValue, lastUpdateSeqNo)
    }

    constructor ()
      ensures M() == Mirror(None, 0) && !disconnected
    {
      lastValue, lastUpdateSeqNo, disconnected := None, 0, false;
    }

    /** The body of the loop over channel updates; the callback is made exactly when it returns true. */
    method ReceiveUpdate(empty: Option<seq<Data>>, seqNo: nat, kind: UpdateType, payload: seq<Option<Data>>)
      returns (accepted: bool)
      requires empty.Some? ==> |empty.value| == |payload|
      requires lastValue.Some? ==> |lastValue.value| == |payload|
      modifies this
      ensures (M(), accepted) == Receive(old(M()), empty, seqNo, kind, payload)
      ensures disconnected == (kind == Disconnected)
    {
      accepted := true;
      disconnected := kind == Disconnected;
      if !disconnected {
        if kind == Partial {
          var expected := (lastUpdateSeqNo + 1) % U16;
          accepted := lastValue.Some? && expected == seqNo;
        } else if empty.Some? {
          if lastValue == None {
            lastValue := empty;
          }
        } else {
          accepted := false;
        }
        if accepted {
          lastValue := Some(Overlay(lastValue.value, payload));
        }
      } else {
        lastValue := None;
      }
      if accepted {
        lastUpdateSeqNo := seqNo;
      }
    }
  }
}
