/** What the sender puts on the wire, message by message: how full its packets are, and how they are numbered. */
module Packets {
  import opened Bytes
  import opened Protocol
  import opened Layout
  import SenderQueue
  import opened Packing
  import opened Sender

  /** A channel that was never connected goes on the wire as a disconnected one. */
  lemma NewIsDisconnected(index: nat, parent: nat, polled: bool)
    ensures WireItem(NewChannel(index, parent, polled)) == Item(index % U32, 0xFFFF, 0xFFFF, [])
  {
  }

  /** The first value of a channel marks its record, also that of a polled field. */
  lemma {:induction false} FirstValueMarks(hash: SenderQueue.Hash, ch: seq<Channel>, es: seq<SenderQueue.CaEvent>,
                                           k: nat, index: nat, parent: nat, polled: bool)
    requires k < |es| && SenderQueue.EventsFit(es, |ch|) && es[k].Value?
    requires ch[es[k].i] == NewChannel(index, parent, polled)
    requires forall j :: 0 <= j < k && es[j].Value? ==> es[j].i != es[k].i
    ensures SenderQueue.Marks(hash, ch, es, k)
  {
    NoDataBefore(es, es[k].i, k);
  }

  lemma {:induction false} NoDataBefore(es: seq<SenderQueue.CaEvent>, i: nat, k: nat)
    requires k <= |es| && forall j :: 0 <= j < k && es[j].Value? ==> es[j].i != i
    ensures SenderQueue.NewestData(es[..k], i) == None
    decreases k
  {
    if k > 0 {
      NoDataBefore(es, i, k - 1);
      assert es[..k][..k - 1] == es[..k - 1];
    }
  }

  // ---------------------------------------------------------------- how far a pass gets

  /** The bytes that the groups of a queue take in a data packet. */
  function Written(ch: seq<Channel>, q: seq<nat>): (n: nat)
    requires Queued(ch, q)
  {
    |ItemsBytes(QueueItems(ch, q))|
  }

  /** Groups go into a data packet while they fit: a group that stays out is too large for any or for what is left. */
  lemma {:induction false} FillExact(ch: seq<Channel>, q: seq<nat>, room: nat)
    requires Queued(ch, q)
    ensures var n := Fill(ch, q, room);
            && Queued(ch, q[..n]) && Written(ch, q[..n]) <= room
            && (forall k :: 0 <= k < n ==> IsRecord(ch, q[k]) && ValueSize(Group(ch, q[k])) <= MAX_DATA_SIZE)
            && (n < |q| ==> IsRecord(ch, q[n])
                            && (ValueSize(Group(ch, q[n])) > MAX_DATA_SIZE || Written(ch, q[..n + 1]) > room))
  {
    hide ItemsBytes, ValueSize, AlignedSize;
    FillStart(ch, q);
    if q != [] {
      var g := Group(ch, q[0]);
      ReservedIsWritten(g);
      if ValueSize(g) <= MAX_DATA_SIZE && AlignedSize(g) <= room {
        FillExact(ch, q[1..], room - AlignedSize(g));
        var n := Fill(ch, q, room);
        FirstWritten(ch, q, n);
        if n < |q| {
          FirstWritten(ch, q, n + 1);
        }
      } else {
        FirstWritten(ch, q, 1);
        FillStart(ch, q[1..]);
      }
    }
  }

  lemma FillStart(ch: seq<Channel>, q: seq<nat>)
    requires Queued(ch, q)
    ensures Queued(ch, q[..0]) && Written(ch, q[..0]) == 0
  {
  }

  lemma FirstWritten(ch: seq<Channel>, q: seq<nat>, n: nat)
    requires Queued(ch, q) && 0 < n <= |q|
    ensures IsRecord(ch, q[0]) && Queued(ch, q[..n]) && Queued(ch, q[1..][..n - 1])
    ensures Written(ch, q[..n]) == AlignedSize(Group(ch, q[0])) + Written(ch, q[1..][..n - 1])
  {
    hide ItemsBytes, AlignedSize;
    var g := Group(ch, q[0]);
    ReservedIsWritten(g);
    assert q[..n][1..] == q[1..][..n - 1];
    ItemsBytesConcat(GroupItems(g), QueueItems(ch, q[1..][..n - 1]));
  }

  lemma {:induction false} FragRunExact(ch: seq<Channel>, q: seq<nat>)
    requires Queued(ch, q)
    ensures var n := FragRun(ch, q);
            && (forall k :: 0 <= k < n ==> IsRecord(ch, q[k]) && Oversized(ch[q[k]]))
            && (n < |q| ==> IsRecord(ch, q[n]) && !Oversized(ch[q[n]]))
  {
    if q != [] && Oversized(ch[q[0]]) {
      FragRunExact(ch, q[1..]);
    }
  }

  /**
   One pass: the groups that fit into one data packet; then, if the next one is too large for any, the records behind
   them that are sent as fragments, up to the first one that is not.
   */
  lemma PassTakes(ch: seq<Channel>, q: seq<nat>)
    requires Queued(ch, q)
    ensures var n, k := Fill(ch, q, DATA_ROOM), PassCount(ch, q);
            && n <= k
            && (forall j :: n <= j < k ==> IsRecord(ch, q[j]) && Oversized(ch[q[j]]))
            && (n < k ==> ValueSize(Group(ch, q[n])) > MAX_DATA_SIZE)
            && (k < |q| ==> IsRecord(ch, q[n]) && IsRecord(ch, q[k])
                            && (if ValueSize(Group(ch, q[n])) > MAX_DATA_SIZE then !Oversized(ch[q[k]]) else k == n))
  {
    var n := Fill(ch, q, DATA_ROOM);
    var rest := q[n..];
    FragRunExact(ch, rest);
    forall j | n <= j < |q|
      ensures q[j] == rest[j - n] && IsRecord(ch, q[j])
    {
    }
  }

  // ---------------------------------------------------------------- the numbers of the messages

  /** A data message in one packet, or the fragments of one value in their order; all packets have the same number. */
  ghost predicate Numbered(m: seq<Packet>, number: nat) {
    && m != []
    && (forall p <- m :: |p| >= 32 && NumberAt(p, 28, number, 2))
    && if m[0][24] == 16 then |m| == 1
       else forall j :: 0 <= j < |m| ==> m[j][24] == 17 && NumberAt(m[j], 30, j, 2)
  }

  /** The packets are these messages, numbered from seqNo on; the number of the next one follows. */
  ghost predicate AreMessages(packets: seq<Packet>, seqNo: nat, msgs: seq<seq<Packet>>, next: nat) {
    && packets == AllPackets(msgs) && next % U16 == (seqNo + |msgs|) % U16
    && forall i: nat :: i < |msgs| ==> Numbered(msgs[i], seqNo + i)
  }

  lemma TwoBytes(a: nat)
    ensures a % 256 == a % U16 % 256 && a / 256 % 256 == a % U16 / 256
  {
    var k, r := a / U16, a % U16;
    var q, b := r / 256, r % 256;
    ModUnique(a, 256, 256 * k + q, b);
    assert a / 256 == 256 * k + q;
    ModUnique(256 * k + q, 256, k, q);
  }

  lemma SameNumber(p: Packet, at: nat, a: nat, b: nat)
    requires NumberAt(p, at, a, 2) && a % U16 == b % U16
    ensures NumberAt(p, at, b, 2)
  {
    TwoBytes(a);
    TwoBytes(b);
    PowValues();
    assert Pow256(0) == 1;
    assert p[at + 0] == a / Pow256(0) % 256 && p[at + 1] == a / Pow256(1) % 256;
    forall i: nat | i < 2
      ensures p[at + i] == b / Pow256(i) % 256
    {
      if i == 0 {
        assert b / 1 == b && a / 1 == a;
      }
    }
  }

  lemma SameMessage(m: seq<Packet>, a: nat, b: nat)
    requires Numbered(m, a) && a % U16 == b % U16
    ensures Numbered(m, b)
  {
    hide NumberAt;
    forall p <- m
      ensures NumberAt(p, 28, b, 2)
    {
      SameNumber(p, 28, a, b);
    }
  }

  lemma {:induction false} AllConcat(a: seq<seq<Packet>>, b: seq<seq<Packet>>)
    ensures AllPackets(a + b) == AllPackets(a) + AllPackets(b)
  {
    if b == [] {
      assert a + b == a;
    } else {
      AllConcat(a, b[..|b| - 1]);
      assert (a + b)[..|a + b| - 1] == a + b[..|b| - 1];
    }
  }

  lemma MoreMessages(x: seq<Packet>, a: nat, m: seq<seq<Packet>>, b: nat, y: seq<Packet>, n: seq<seq<Packet>>, c: nat)
    requires AreMessages(x, a, m, b) && AreMessages(y, b, n, c)
    ensures AreMessages(x + y, a, m + n, c)
  {
    hide Numbered;
    AllConcat(m, n);
    AddMod(b, |n|);
    AddMod(a + |m|, |n|);
    forall i: nat | i < |m + n|
      ensures Numbered((m + n)[i], a + i)
    {
      if i >= |m| {
        AddMod(b, i - |m|);
        AddMod(a + |m|, i - |m|);
        SameMessage(n[i - |m|], b + (i - |m|), a + i);
      }
    }
  }

  lemma OneMessage(m: seq<Packet>, seqNo: nat)
    requires Numbered(m, seqNo)
    ensures AreMessages(m, seqNo, [m], seqNo + 1)
  {
    hide Numbered;
    assert [m][..0] == [] && AllPackets([]) == [] && [] + m == m;
    assert forall i: nat :: i < |[m]| ==> i == 0 && Numbered([m][i], seqNo + i);
  }

  /** The fragments of one value: numbered alike, and counted from k on. */
  lemma {:induction false} FragmentsNumbered(hdr: seq<Byte>, c: Channel, seqNo: nat, k: nat, rest: seq<Byte>)
    requires |hdr| == HEADER_SIZE
    ensures var m := Fragments(hdr, c, seqNo, k, rest);
            && (rest != [] ==> m != [])
            && forall j: nat :: j < |m| ==>
                 |m[j]| >= 44 && m[j][24] == 17 && NumberAt(m[j], 28, seqNo, 2) && NumberAt(m[j], 30, k + j, 2)
    decreases |rest|
  {
    hide NumberAt, FragPacket;
    if rest != [] {
      var n := if |rest| <= FRAGMENT_ROOM then |rest| else FRAGMENT_ROOM;
      var info := FragInfo(seqNo, k % U16, c.index % U32, c.count % U32, c.typ % U16, n);
      var p, m := FragPacket(hdr, info, rest[..n]), Fragments(hdr, c, seqNo, k, rest);
      FragmentLayout(hdr, info, rest[..n]);
      assert p[24] == p[24..28][0];
      SameNumber(p, 30, k % U16, k);
      FragmentsNumbered(hdr, c, seqNo, k + 1, rest[n..]);
      var more := Fragments(hdr, c, seqNo, k + 1, rest[n..]);
      forall j: nat | j < |m|
        ensures |m[j]| >= 44 && m[j][24] == 17 && NumberAt(m[j], 28, seqNo, 2) && NumberAt(m[j], 30, k + j, 2)
      {
        if j > 0 {
          assert m[j] == more[j - 1] && k + 1 + (j - 1) == k + j;
        }
      }
    }
  }

  lemma {:induction false} SetsNumbered(hdr: seq<Byte>, ch: seq<Channel>, q: seq<nat>, seqNo: nat)
    returns (msgs: seq<seq<Packet>>)
    requires |hdr| == HEADER_SIZE && Queued(ch, q) && forall k :: 0 <= k < |q| ==> Oversized(ch[q[k]])
    ensures |msgs| == |q| && AreMessages(FragmentSets(hdr, ch, q, seqNo), seqNo, msgs, seqNo + |q|)
  {
    hide Numbered, Fragments;
    msgs := [];
    if q != [] {
      var first, s := Fragments(hdr, ch[q[0]], seqNo, 0, ch[q[0]].value), Next(seqNo);
      SetNumbered(hdr, ch[q[0]], seqNo);
      OneMessage(first, seqNo);
      assert AreMessages(first, seqNo, [first], s);
      var more := SetsNumbered(hdr, ch, q[1..], s);
      var sets := FragmentSets(hdr, ch, q[1..], s);
      MoreMessages(first, seqNo, [first], s, sets, more, s + |q[1..]|);
      msgs := [first] + more;
      AddMod(seqNo + 1, |q| - 1);
      assert AreMessages(FragmentSets(hdr, ch, q, seqNo), seqNo, msgs, s + |q[1..]|);
    }
  }

  lemma SetNumbered(hdr: seq<Byte>, c: Channel, seqNo: nat)
    requires |hdr| == HEADER_SIZE && Oversized(c)
    ensures Numbered(Fragments(hdr, c, seqNo, 0, c.value), seqNo)
  {
    hide NumberAt, Fragments;
    FragmentsNumbered(hdr, c, seqNo, 0, c.value);
    var m := Fragments(hdr, c, seqNo, 0, c.value);
    forall j: nat | j < |m|
      ensures m[j][24] == 17 && NumberAt(m[j], 30, j, 2)
    {
      assert 0 + j == j;
    }
  }

  lemma PassNumbered(hdr: seq<Byte>, ch: seq<Channel>, q: seq<nat>, seqNo: nat) returns (msgs: seq<seq<Packet>>)
    requires |hdr| == HEADER_SIZE && Queued(ch, q)
    ensures |msgs| == 1 + PassCount(ch, q) - Fill(ch, q, DATA_ROOM)
    ensures AreMessages(PassPackets(hdr, ch, q, seqNo), seqNo, msgs, PassSeqNo(ch, q, seqNo))
  {
    hide Numbered, NumberAt, FragmentSets, DataPacket, AreMessages, Fill, FragRun;
    PassTakes(ch, q);
    var n, k, s := Fill(ch, q, DATA_ROOM), PassCount(ch, q), Next(seqNo);
    var data, sets := DataPacket(hdr, seqNo, QueueItems(ch, q[..n])), q[n..k];
    forall j | 0 <= j < |sets|
      ensures Oversized(ch[sets[j]])
    {
      assert sets[j] == q[n + j];
    }
    DataNumbered(hdr, seqNo, QueueItems(ch, q[..n]));
    OneMessage([data], seqNo);
    SameNext([data], seqNo, [[data]], seqNo + 1, s);
    var more := SetsNumbered(hdr, ch, sets, s);
    MoreMessages([data], seqNo, [[data]], s, FragmentSets(hdr, ch, sets, s), more, s + |sets|);
    msgs := [[data]] + more;
    AddMod(seqNo + 1, |sets|);
    AddMod(PassSeqNo(ch, q, seqNo), 0);
    SameNext(PassPackets(hdr, ch, q, seqNo), seqNo, msgs, s + |sets|, PassSeqNo(ch, q, seqNo));
  }

  lemma DataNumbered(hdr: seq<Byte>, seqNo: nat, items: seq<Item>)
    requires |hdr| == HEADER_SIZE
    ensures Numbered([DataPacket(hdr, seqNo, items)], seqNo)
  {
    hide NumberAt;
    DataLayout(hdr, seqNo, items);
    assert DataPacket(hdr, seqNo, items)[24] == DataPacket(hdr, seqNo, items)[24..28][0];
  }

  lemma SameNext(x: seq<Packet>, a: nat, m: seq<seq<Packet>>, b: nat, b': nat)
    requires AreMessages(x, a, m, b) && b % U16 == b' % U16
    ensures AreMessages(x, a, m, b')
  {
    hide Numbered;
  }

  /** The messages of a drain are numbered one after the other. */
  lemma {:induction false} DrainNumbered(hdr: seq<Byte>, ch: seq<Channel>, q: seq<nat>, seqNo: nat)
    returns (msgs: seq<seq<Packet>>)
    requires |hdr| == HEADER_SIZE && Queued(ch, q)
    ensures var d := Drain(hdr, ch, q, seqNo);
            AreMessages(d.packets, seqNo, msgs, d.seqNo)
    decreases |q|
  {
    hide Numbered, PassPackets, PassCount, PassSeqNo;
    msgs := [];
    if q != [] {
      var n, s := PassCount(ch, q), PassSeqNo(ch, q, seqNo);
      msgs := PassNumbered(hdr, ch, q, seqNo);
      if n > 0 {
        var more := DrainNumbered(hdr, ch, q[n..], s);
        var d := Drain(hdr, ch, q[n..], s);
        MoreMessages(PassPackets(hdr, ch, q, seqNo), seqNo, msgs, s, d.packets, more, d.seqNo);
        msgs := msgs + more;
      }
    }
  }

  /** And so are all the messages of a run, whatever its iterations send. */
  lemma {:induction false} RunNumbered(hdr: seq<Byte>, h: History, t: nat) returns (msgs: seq<seq<Packet>>)
    requires |hdr| == HEADER_SIZE && OnWire(hdr, h) && t <= |h.run.inputs|
    ensures AreMessages(AllPackets(h.packets[..t + 1]), h.seqNos[0], msgs, h.seqNos[t])
    decreases t
  {
    hide Numbered, Drain;
    assert h.packets[..t + 1][..t] == h.packets[..t];
    if t == 0 {
      msgs := [];
      assert AllPackets(h.packets[..0]) == [];
    } else {
      var before := RunNumbered(hdr, h, t - 1);
      assert WireStep(hdr, h.states[t].channels, h.records[t], h.seqNos[t - 1], h.packets[t], h.seqNos[t]);
      var more := DrainNumbered(hdr, h.states[t].channels, h.records[t], h.seqNos[t - 1]);
      MoreMessages(AllPackets(h.packets[..t]), h.seqNos[0], before, h.seqNos[t - 1], h.packets[t], more, h.seqNos[t]);
      msgs := before + more;
    }
  }
}
