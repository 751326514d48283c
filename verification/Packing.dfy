/**
 How send_updates turns the queue into packets: groups packed into data packets in queue order, oversized records cut
 into fragments, and the groups that it can never send.
 */
module Packing {
  import opened Bytes
  import opened Protocol
  import opened Layout

  type Packet = seq<Byte>

  ghost predicate Queued(ch: seq<Channel>, q: seq<nat>) {
    WellLaid(ch) && forall k :: 0 <= k < |q| ==> IsRecord(ch, q[k])
  }

  // ---------------------------------------------------------------- groups

  function Group(ch: seq<Channel>, r: nat): (g: seq<Channel>)
    requires r < |ch|
    ensures g != [] && g[0] == ch[r]
  {
    ch[r..GroupEnd(ch, r) + 1]
  }

  function ValueSize(g: seq<Channel>): nat {
    if g == [] then 0 else ValueSize(g[..|g| - 1]) + |g[|g| - 1].value|
  }

  /** The bytes to reserve for a group, padding after each member. */
  function AlignedSize(g: seq<Channel>): nat {
    if g == [] then 0 else Up8(AlignedSize(g[..|g| - 1]) + (CHANNEL_DATA_SIZE + |g[|g| - 1].value|))
  }

  /** A channel as it goes on the wire: count and type are cut to 16 bits, so count -1 becomes 0xFFFF. */
  function WireItem(c: Channel): Item {
    Item(c.index % U32, c.count % U16, c.typ % U16, c.value)
  }

  function GroupItems(g: seq<Channel>): (items: seq<Item>)
    ensures |items| == |g|
  {
    seq(|g|, i requires 0 <= i < |g| => WireItem(g[i]))
  }

  /** The updates of all groups of a queue, in queue order. */
  function QueueItems(ch: seq<Channel>, q: seq<nat>): seq<Item>
    requires Queued(ch, q)
  {
    if q == [] then [] else GroupItems(Group(ch, q[0])) + QueueItems(ch, q[1..])
  }

  lemma {:induction false} QueueItemsAppend(ch: seq<Channel>, q: seq<nat>, r: nat)
    requires Queued(ch, q + [r]) && Queued(ch, q) && r < |ch|
    ensures QueueItems(ch, q + [r]) == QueueItems(ch, q) + GroupItems(Group(ch, r))
  {
    if q != [] {
      assert (q + [r])[1..] == q[1..] + [r];
      QueueItemsAppend(ch, q[1..], r);
    } else {
      assert QueueItems(ch, ([r])[1..]) == [];
    }
  }

  lemma GroupBytesOneMore(front: seq<Channel>, c: Channel)
    ensures |ItemsBytes(GroupItems(front + [c]))|
         == |ItemsBytes(GroupItems(front))| + Up8(CHANNEL_DATA_SIZE + |c.value|)
  {
    assert GroupItems(front + [c]) == GroupItems(front) + [WireItem(c)];
    ItemsBytesOneMore(GroupItems(front), WireItem(c));
  }

  /** The sum of the padded sizes of a group's members. */
  function PaddedSum(g: seq<Channel>): (n: nat)
    ensures n % 8 == 0
  {
    if g == [] then 0
    else
      var front, size := PaddedSum(g[..|g| - 1]), Up8(CHANNEL_DATA_SIZE + |g[|g| - 1].value|);
      ModShift(front, size);
      front + size
  }

  lemma {:induction false} WrittenIsPaddedSum(g: seq<Channel>)
    ensures |ItemsBytes(GroupItems(g))| == PaddedSum(g)
  {
    if g != [] {
      var front, c := g[..|g| - 1], g[|g| - 1];
      WrittenIsPaddedSum(front);
      assert g == front + [c];
      GroupBytesOneMore(front, c);
    }
  }

  lemma {:induction false} ReservedIsPaddedSum(g: seq<Channel>)
    ensures AlignedSize(g) == PaddedSum(g)
  {
    if g != [] {
      ReservedIsPaddedSum(g[..|g| - 1]);
      Up8Shift(PaddedSum(g[..|g| - 1]), CHANNEL_DATA_SIZE + |g[|g| - 1].value|);
    }
  }

  /** The space reserved for a group is exactly the space that its updates take. */
  lemma ReservedIsWritten(g: seq<Channel>)
    ensures AlignedSize(g) == |ItemsBytes(GroupItems(g))|
    ensures AlignedSize(g) % ALIGNMENT == 0
  {
    ReservedIsPaddedSum(g);
    WrittenIsPaddedSum(g);
  }

  lemma Up8Shift(a: nat, n: nat)
    requires a % 8 == 0
    ensures Up8(a + n) == a + Up8(n)
  {
    Pad8Shift(a, n);
  }

  /** ChannelGroup::value_size and ChannelGroup::value_size_aligned */
  method GroupSizes(ch: seq<Channel>, start: nat, end: nat) returns (size: nat, aligned: nat)
    requires start <= end < |ch|
    ensures size == ValueSize(ch[start..end + 1]) && aligned == AlignedSize(ch[start..end + 1])
  {
    size, aligned := 0, 0;
    for i := start to end + 1
      invariant size == ValueSize(ch[start..i]) && aligned == AlignedSize(ch[start..i])
    {
      assert ch[start..i + 1][..i - start] == ch[start..i];
      size := size + |ch[i].value|;
      aligned := aligned + (CHANNEL_DATA_SIZE + |ch[i].value|);
      var n := aligned % ALIGNMENT;
      if n > 0 {
        aligned := aligned + (ALIGNMENT - n);
      }
    }
  }

  // ---------------------------------------------------------------- one pass of send_updates

  /** How many groups from the front of the queue go into a data packet that has room bytes left. */
  function Fill(ch: seq<Channel>, q: seq<nat>, room: nat): (n: nat)
    requires Queued(ch, q)
    ensures n <= |q|
  {
    if q == [] then 0
    else
      var g := Group(ch, q[0]);
      if ValueSize(g) > MAX_DATA_SIZE || AlignedSize(g) > room then 0
      else 1 + Fill(ch, q[1..], room - AlignedSize(g))
  }

  predicate Oversized(c: Channel) {
    |c.value| > MAX_DATA_SIZE
  }

  /** How many records from the front of the queue are sent as fragments. */
  function FragRun(ch: seq<Channel>, q: seq<nat>): (n: nat)
    requires Queued(ch, q)
    ensures n <= |q|
  {
    if q == [] || !Oversized(ch[q[0]]) then 0 else 1 + FragRun(ch, q[1..])
  }

  /** The queue stopped at a group too large for any data packet. */
  predicate StopsForFragments(ch: seq<Channel>, q: seq<nat>)
    requires Queued(ch, q)
  {
    q != [] && ValueSize(Group(ch, q[0])) > MAX_DATA_SIZE
  }

  /** How many records one pass of send_updates takes off the queue. */
  function PassCount(ch: seq<Channel>, q: seq<nat>): (n: nat)
    requires Queued(ch, q)
    ensures n <= |q|
  {
    var n := Fill(ch, q, DATA_ROOM);
    n + if StopsForFragments(ch, q[n..]) then FragRun(ch, q[n..]) else 0
  }

  function Next(seqNo: nat): nat { (seqNo + 1) % U16 }

  /** The sequence number n messages later. */
  function Later(seqNo: nat, n: nat): nat { (seqNo + n) % U16 }

  lemma LaterSteps(seqNo: nat, n: nat)
    ensures Later(Next(seqNo), n) == Later(seqNo, n + 1) == Next(Later(seqNo, n))
    ensures Next(seqNo) < U16 && Later(seqNo, n) < U16 && (seqNo < U16 ==> Later(seqNo, 0) == seqNo)
  {
    AddMod(seqNo + 1, n);
    AddMod(seqNo + n, 1);
  }

  lemma AddMod(a: nat, n: nat)
    ensures (a % U16 + n) % U16 == (a + n) % U16
  {
    var q, k := a / U16, (a % U16 + n) / U16;
    assert a + n == U16 * (q + k) + (a % U16 + n) % U16;
  }

  /** The fragment packets for the bytes rest of channel c, from fragment number k on. */
  function Fragments(hdr: seq<Byte>, c: Channel, seqNo: nat, k: nat, rest: seq<Byte>): seq<Packet>
    decreases |rest|
  {
    if rest == [] then []
    else
      var n := if |rest| <= FRAGMENT_ROOM then |rest| else FRAGMENT_ROOM;
      [FragPacket(hdr, FragInfo(seqNo, k % U16, c.index % U32, c.count % U32, c.typ % U16, n), rest[..n])]
      + Fragments(hdr, c, seqNo, k + 1, rest[n..])
  }

  function FragmentSets(hdr: seq<Byte>, ch: seq<Channel>, q: seq<nat>, seqNo: nat): seq<Packet>
    requires Queued(ch, q)
  {
    if q == [] then []
    else Fragments(hdr, ch[q[0]], seqNo, 0, ch[q[0]].value) + FragmentSets(hdr, ch, q[1..], Next(seqNo))
  }

  /** The packets of one pass: one data packet, even if it is empty, then the fragment sets. */
  function PassPackets(hdr: seq<Byte>, ch: seq<Channel>, q: seq<nat>, seqNo: nat): seq<Packet>
    requires Queued(ch, q)
  {
    var n := Fill(ch, q, DATA_ROOM);
    [DataPacket(hdr, seqNo, QueueItems(ch, q[..n]))]
    + FragmentSets(hdr, ch, q[n..PassCount(ch, q)], Next(seqNo))
  }

  function PassSeqNo(ch: seq<Channel>, q: seq<nat>, seqNo: nat): nat
    requires Queued(ch, q)
  {
    Later(seqNo, 1 + PassCount(ch, q) - Fill(ch, q, DATA_ROOM))
  }

  // ---------------------------------------------------------------- whole drains

  datatype Drained = Drained(packets: seq<Packet>, rest: seq<nat>, seqNo: nat)

  /**
   The passes of send_updates until the queue is empty, or up to and including the first pass that takes nothing off
   the queue.
   */
  function Drain(hdr: seq<Byte>, ch: seq<Channel>, q: seq<nat>, seqNo: nat): Drained
    requires Queued(ch, q)
    decreases |q|
  {
    if q == [] then Drained([], [], seqNo)
    else
      var n, s := PassCount(ch, q), PassSeqNo(ch, q, seqNo);
      if n == 0 then Drained(PassPackets(hdr, ch, q, seqNo), q, s)
      else
        var d := Drain(hdr, ch, q[n..], s);
        d.(packets := PassPackets(hdr, ch, q, seqNo) + d.packets)
  }

  /** The queue after n passes of the loop of send_updates. */
  function QueueAfterPasses(ch: seq<Channel>, q: seq<nat>, n: nat): (p: seq<nat>)
    requires Queued(ch, q)
    ensures Queued(ch, p)
    decreases n
  {
    if n == 0 then q
    else
      var p := QueueAfterPasses(ch, q, n - 1);
      if p == [] then p else p[PassCount(ch, p)..]
  }

  /** A group fits into an empty data packet, or its record is large enough to be sent as fragments. */
  predicate Sendable(ch: seq<Channel>, r: nat)
    requires r < |ch|
  {
    || (ValueSize(Group(ch, r)) <= MAX_DATA_SIZE && AlignedSize(Group(ch, r)) <= DATA_ROOM)
    || Oversized(ch[r])
  }

  ghost predicate AllSendable(ch: seq<Channel>, q: seq<nat>)
    requires Queued(ch, q)
  {
    forall k :: 0 <= k < |q| ==> Sendable(ch, q[k])
  }

  lemma {:induction false} ValueSizeAtLeastFirst(g: seq<Channel>)
    requires g != []
    ensures ValueSize(g) >= |g[0].value|
  {
    if |g| > 1 {
      ValueSizeAtLeastFirst(g[..|g| - 1]);
    }
  }

  lemma {:induction false} FilledAreSendable(ch: seq<Channel>, q: seq<nat>, room: nat)
    requires Queued(ch, q) && room <= DATA_ROOM
    ensures forall k :: 0 <= k < Fill(ch, q, room) ==> Sendable(ch, q[k])
  {
    if Fill(ch, q, room) > 0 {
      FilledAreSendable(ch, q[1..], room - AlignedSize(Group(ch, q[0])));
    }
  }

  lemma {:induction false} FragmentedAreSendable(ch: seq<Channel>, q: seq<nat>)
    requires Queued(ch, q)
    ensures forall k :: 0 <= k < FragRun(ch, q) ==> Oversized(ch[q[k]])
  {
    if FragRun(ch, q) > 0 {
      FragmentedAreSendable(ch, q[1..]);
    }
  }

  /** A pass takes sendable groups only, and takes none exactly when the first group cannot be sent. */
  lemma PassProgress(ch: seq<Channel>, q: seq<nat>)
    requires Queued(ch, q) && q != []
    ensures forall k :: 0 <= k < PassCount(ch, q) ==> Sendable(ch, q[k])
    ensures PassCount(ch, q) == 0 <==> !Sendable(ch, q[0])
  {
    var n := Fill(ch, q, DATA_ROOM);
    FilledAreSendable(ch, q, DATA_ROOM);
    FragmentedAreSendable(ch, q[n..]);
    ValueSizeAtLeastFirst(Group(ch, q[0]));
    if n == 0 {
      assert q[n..] == q;
    }
  }

  /** The queue from its first group on that cannot be sent. */
  function Blocked(ch: seq<Channel>, q: seq<nat>): (rest: seq<nat>)
    requires Queued(ch, q)
    ensures rest == [] <==> AllSendable(ch, q)
    ensures |rest| <= |q|
  {
    if q == [] || !Sendable(ch, q[0]) then q
    else
      var rest := Blocked(ch, q[1..]);
      assert rest != [] ==> exists k :: 0 <= k < |q[1..]| && !Sendable(ch, q[1..][k]) && q[1 + k] == q[1..][k];
      rest
  }

  lemma {:induction false} BlockedBehind(ch: seq<Channel>, q: seq<nat>, n: nat)
    requires Queued(ch, q) && n <= |q| && forall k :: 0 <= k < n ==> Sendable(ch, q[k])
    ensures Blocked(ch, q) == Blocked(ch, q[n..])
  {
    if n > 0 {
      BlockedBehind(ch, q[1..], n - 1);
      assert q[1..][n - 1..] == q[n..];
    } else {
      assert q[0..] == q;
    }
  }

  /** Where a drain ends: everything before the first group that cannot be sent has been taken off. */
  lemma {:induction false} DrainStops(hdr: seq<Byte>, ch: seq<Channel>, q: seq<nat>, seqNo: nat)
    requires Queued(ch, q)
    ensures Drain(hdr, ch, q, seqNo).rest == Blocked(ch, q)
    decreases |q|
  {
    if q != [] {
      PassProgress(ch, q);
      var n := PassCount(ch, q);
      if n > 0 {
        BlockedBehind(ch, q, n);
        DrainStops(hdr, ch, q[n..], PassSeqNo(ch, q, seqNo));
      }
    }
  }

  /** A blocked queue stays as it is, however often the loop comes round. */
  lemma {:induction false} BlockedForever(ch: seq<Channel>, q: seq<nat>, n: nat)
    requires Queued(ch, q) && q != [] && !Sendable(ch, q[0])
    ensures QueueAfterPasses(ch, q, n) == q
  {
    if n > 0 {
      PassProgress(ch, q);
      assert q[0..] == q;
      BlockedForever(ch, q, n - 1);
    }
  }

  lemma PassTowardsBlocked(ch: seq<Channel>, p: seq<nat>, p': seq<nat>)
    requires Queued(ch, p) && p != [] && p' == p[PassCount(ch, p)..]
    ensures Queued(ch, p') && Blocked(ch, p') == Blocked(ch, p)
    ensures if p == Blocked(ch, p) then p' == p else |p'| < |p|
  {
    PassProgress(ch, p);
    BlockedBehind(ch, p, PassCount(ch, p));
  }

  /** Every pass makes progress until only a blocked queue, or nothing, is left. */
  lemma {:induction false} PassesReach(ch: seq<Channel>, q: seq<nat>, n: nat)
    requires Queued(ch, q)
    ensures var p := QueueAfterPasses(ch, q, n);
            Blocked(ch, p) == Blocked(ch, q) && (p == Blocked(ch, q) || |p| + n <= |q|)
  {
    hide Queued, Blocked, AllSendable, PassCount;
    if n > 0 {
      PassesReach(ch, q, n - 1);
      var p := QueueAfterPasses(ch, q, n - 1);
      if p != [] {
        PassTowardsBlocked(ch, p, QueueAfterPasses(ch, q, n));
      }
    }
  }

  /**
   Termination of send_updates: its loop ends after some number of passes exactly when every queued group is
   sendable; otherwise every pass leaves a non-empty queue and the loop goes on for ever.
   */
  lemma LoopEndsIffAllSendable(ch: seq<Channel>, q: seq<nat>)
    requires Queued(ch, q)
    ensures (exists n: nat :: QueueAfterPasses(ch, q, n) == []) <==> AllSendable(ch, q)
  {
    PassesReach(ch, q, |q|);
    if n: nat :| QueueAfterPasses(ch, q, n) == [] {
      PassesReach(ch, q, n);
    }
  }

  /** A record without fields can always be sent. */
  lemma SingleIsSendable(ch: seq<Channel>, r: nat)
    requires WellLaid(ch) && IsRecord(ch, r) && GroupEnd(ch, r) == r
    ensures Sendable(ch, r)
  {
    var g := Group(ch, r);
    assert g == [ch[r]] && g[..0] == [];
    assert ValueSize(g) == |ch[r].value| && AlignedSize(g) == Up8(CHANNEL_DATA_SIZE + |ch[r].value|);
  }

  /** Two members of 32732 bytes fit by value but not with their headers: such a group blocks the queue. */
  lemma SomeGroupBlocks() returns (ch: seq<Channel>)
    ensures |ch| == 2 && Queued(ch, [0]) && !Sendable(ch, 0)
    ensures ValueSize(Group(ch, 0)) == MAX_DATA_SIZE
    ensures forall n: nat :: QueueAfterPasses(ch, [0], n) == [0]
  {
    var c := NewChannel(0, 0, false).(value := Zeros(32732));
    var f := NewChannel(1, 0, false).(value := Zeros(32732));
    ch := [c, f];
    var g := Group(ch, 0);
    assert GroupEnd(ch, 1) == 1 && GroupEnd(ch, 0) == 1;
    assert g == [c, f] && g[..1] == [c] && [c][..0] == [];
    assert ValueSize([]) == 0 && AlignedSize([]) == 0;
    assert ValueSize([c]) == 32732 && AlignedSize([c]) == 32744;
    assert ValueSize(g) == 65464 && AlignedSize(g) == 65488;
    forall n: nat ensures QueueAfterPasses(ch, [0], n) == [0] {
      BlockedForever(ch, [0], n);
    }
  }
}
