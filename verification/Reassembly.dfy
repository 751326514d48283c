/**
 Fragment reassembly under loss, repetition and reordering within one session: what the receiver delivers is always the
 complete value of one sent set, unless it takes a fragment for the continuation of a set that is not open. This happens
 with the number 65535, which doubles as its "no set" marker, and with the number of a set that a former sender has left
 unfinished.
 */
module Reassembly {
  import opened Bytes
  import opened Protocol
  import Layout
  import opened Packing
  import opened Receiver
  import opened EndToEnd

  /** What the sender has put on the wire as fragments: one value for each sequence number. */
  type Stream = map<nat, Layout.Channel>

  /** A packet of the sender: a data message, or fragment k of the set with number seqNo. */
  datatype Msg = DataMsg(seqNo: nat, items: seq<Item>) | FragMsg(seqNo: nat, k: nat)

  ghost predicate StreamOk(cfg: Config, sent: Stream) {
    forall s :: s in sent ==>
      && s < U16 && 0 < |sent[s].value| <= U16 * FRAGMENT_ROOM
      && cfg.size(sent[s].typ % U16, sent[s].count % U32) == |sent[s].value|
  }

  function Min(a: nat, b: nat): nat { if a <= b then a else b }

  /** The bytes of fragment k, and all bytes up to and including it. */
  function Piece(v: seq<Byte>, k: nat): (p: seq<Byte>)
    requires k * FRAGMENT_ROOM < |v|
    ensures 0 < |p| <= FRAGMENT_ROOM
  {
    v[k * FRAGMENT_ROOM..Min((k + 1) * FRAGMENT_ROOM, |v|)]
  }

  function UpTo(v: seq<Byte>, k: nat): seq<Byte> {
    v[..Min((k + 1) * FRAGMENT_ROOM, |v|)]
  }

  ghost predicate MsgOk(cfg: Config, sent: Stream, channels: nat, m: Msg) {
    match m
    case DataMsg(s, items) =>
      s < U16 && |items| < U16 && AllOk(cfg, channels, items) && |ItemsBytes(items)| <= DATA_ROOM
    case FragMsg(s, k) => s in sent && k * FRAGMENT_ROOM < |sent[s].value|
  }

  function InfoOf(c: Layout.Channel, seqNo: nat, k: nat): FragInfo
    requires k * FRAGMENT_ROOM < |c.value|
  {
    FragInfoOf(c, seqNo, k, |Piece(c.value, k)|)
  }

  ghost function PacketOf(cfg: Config, startup: nat, sent: Stream, channels: nat, m: Msg): Packet
    requires MsgOk(cfg, sent, channels, m)
  {
    var hdr := HeaderBytes(startup, cfg.hash);
    match m
    case DataMsg(s, items) => DataPacket(hdr, s, items)
    case FragMsg(s, k) => FragPacket(hdr, InfoOf(sent[s], s, k), Piece(sent[s].value, k))
  }

  /** The bytes from piece k on. */
  function From(v: seq<Byte>, k: nat): (rest: seq<Byte>) {
    if k * FRAGMENT_ROOM <= |v| then v[k * FRAGMENT_ROOM..] else []
  }

  /** Taking one fragment off them. */
  lemma PieceOff(v: seq<Byte>, k: nat)
    requires k * FRAGMENT_ROOM < |v|
    ensures var rest := From(v, k);
            var n := if |rest| <= FRAGMENT_ROOM then |rest| else FRAGMENT_ROOM;
            rest != [] && n == |Piece(v, k)| && rest[..n] == Piece(v, k) && rest[n..] == From(v, k + 1)
  {
  }

  lemma FragmentsOnce(hdr: seq<Byte>, c: Layout.Channel, seqNo: nat, k: nat)
    ensures Fragments(hdr, c, seqNo, k, From(c.value, k))
         == if k * FRAGMENT_ROOM >= |c.value| then []
            else [FragPacket(hdr, InfoOf(c, seqNo, k), Piece(c.value, k))]
                 + Fragments(hdr, c, seqNo, k + 1, From(c.value, k + 1))
  {
    hide FragPacket;
    if k * FRAGMENT_ROOM < |c.value| {
      PieceOff(c.value, k);
      hide Piece, From;
    }
  }

  /** These are the packets that send_fragmented_update makes: number k holds piece k, up to the last piece. */
  lemma {:induction false} PiecesAreSent(hdr: seq<Byte>, c: Layout.Channel, seqNo: nat, k: nat, i: nat)
    ensures var fs := Fragments(hdr, c, seqNo, k, From(c.value, k));
            && (i < |fs| <==> (k + i) * FRAGMENT_ROOM < |c.value|)
            && (i < |fs| ==> fs[i] == FragPacket(hdr, InfoOf(c, seqNo, k + i), Piece(c.value, k + i)))
    decreases i
  {
    hide FragPacket, Piece, From, Fragments;
    FragmentsOnce(hdr, c, seqNo, k);
    if i > 0 {
      PiecesAreSent(hdr, c, seqNo, k + 1, i - 1);
    }
  }

  // ---------------------------------------------------------------- the invariant

  /**
   What reassembly knows when a set of this session is open: the bytes so far are the pieces 0 to lastFrag of the one
   value that was sent with the active number.
   */
  ghost predicate Assembling(sent: Stream, st: State, open: bool) {
    open ==>
      && st.active in sent
      && var v := sent[st.active].value;
         st.lastFrag * FRAGMENT_ROOM < |v| && st.fragData == UpTo(v, st.lastFrag) && st.fragTotal == |v|
  }

  /** The receiver takes this fragment for the continuation of a set although no set of this session is open. */
  ghost predicate Confused(st: State, open: bool, seqNo: nat, fragNo: nat) {
    !open && seqNo == st.active && fragNo != 0 && fragNo == (st.lastFrag + 1) % U16
  }

  /** Whether a set is open after a fragment, going by what has really happened. */
  ghost function OpenAfter(st: State, open: bool, seqNo: nat, fragNo: nat): bool {
    if fragNo == 0 then open || InWindow(seqNo, st.lastSeq)
    else open && st.active == seqNo && fragNo == (st.lastFrag + 1) % U16
  }

  /** The receiver as it would be with a proper marker for "no set". */
  function FragOrderedProper(st: State, open: bool, seqNo: nat, fragNo: nat): bool {
    if fragNo == 0 then InWindow(seqNo, st.lastSeq)
    else open && st.active == seqNo && fragNo == (st.lastFrag + 1) % U16
  }

  /** The marker, and what a former sender has left, mislead the receiver in exactly one situation. */
  lemma MisledIffConfused(st: State, open: bool, seqNo: nat, fragNo: nat)
    ensures FragOrdered(st, seqNo, fragNo).1 == FragOrderedProper(st, open, seqNo, fragNo)
            <==> !Confused(st, open, seqNo, fragNo)
  {
  }

  lemma NextPiece(v: seq<Byte>, k: nat)
    requires (k + 1) * FRAGMENT_ROOM < |v|
    ensures k * FRAGMENT_ROOM < |v| && UpTo(v, k) + Piece(v, k + 1) == UpTo(v, k + 1)
    ensures |UpTo(v, k + 1)| <= |v|
  {
  }

  /** What becomes of the state and which callbacks are made when piece k of the value sent with number s arrives. */
  ghost predicate StepIsSafe(cfg: Config, sent: Stream, st: State, open: bool, s: nat, k: nat)
    requires StreamOk(cfg, sent) && s in sent && k * FRAGMENT_ROOM < |sent[s].value|
  {
    var f, data := InfoOf(sent[s], s, k), Piece(sent[s].value, k);
    var (st1, ok) := FragOrdered(st, s, k);
    var (st2, events) := if ok then TakeFragment(cfg, st1, f, data) else (st1, []);
    && Assembling(sent, st2, OpenAfter(st, open, s, k))
    && (events == [] || events == [FragEvent(sent[s])])
    && st2.startup == st.startup && st2.channels == st.channels
  }

  lemma FirstFragment(cfg: Config, sent: Stream, st: State, open: bool, s: nat)
    requires StreamOk(cfg, sent) && Assembling(sent, st, open) && s in sent && 0 < |sent[s].value|
    ensures StepIsSafe(cfg, sent, st, open, s, 0)
  {
    hide InWindow;
    var v := sent[s].value;
    assert |UpTo(v, 0)| == |v| ==> UpTo(v, 0) == v;
    assert [] + Piece(v, 0) == UpTo(v, 0);
  }

  lemma RefusedFragment(cfg: Config, sent: Stream, st: State, open: bool, s: nat, k: nat)
    requires StreamOk(cfg, sent) && Assembling(sent, st, open) && k > 0
    requires s in sent && k * FRAGMENT_ROOM < |sent[s].value| && !Confused(st, open, s, k)
    requires !(open && st.active == s && k == (st.lastFrag + 1) % U16)
    ensures StepIsSafe(cfg, sent, st, open, s, k)
  {
    hide InWindow, UpTo, Piece, TakeFragment;
  }

  lemma NextFragment(cfg: Config, sent: Stream, st: State, s: nat, k: nat)
    requires StreamOk(cfg, sent) && Assembling(sent, st, true) && k > 0
    requires s in sent && k * FRAGMENT_ROOM < |sent[s].value| && st.active == s && k == (st.lastFrag + 1) % U16
    ensures StepIsSafe(cfg, sent, st, true, s, k)
  {
    var v := sent[s].value;
    assert k == st.lastFrag + 1;
    assert |UpTo(v, k)| == |v| ==> UpTo(v, k) == v;
    NextPiece(v, st.lastFrag);
    hide InWindow, UpTo, Piece;
  }

  /** One fragment, however late or repeated: the invariant stays, and a callback carries one whole sent value. */
  lemma FragmentStep(cfg: Config, sent: Stream, st: State, open: bool, s: nat, k: nat)
    requires StreamOk(cfg, sent) && Assembling(sent, st, open)
    requires s in sent && k * FRAGMENT_ROOM < |sent[s].value| && !Confused(st, open, s, k)
    ensures StepIsSafe(cfg, sent, st, open, s, k)
  {
    hide StepIsSafe;
    if k == 0 {
      FirstFragment(cfg, sent, st, open, s);
    } else if open && st.active == s && k == (st.lastFrag + 1) % U16 {
      NextFragment(cfg, sent, st, s, k);
    } else {
      RefusedFragment(cfg, sent, st, open, s, k);
    }
  }

  // ---------------------------------------------------------------- whole traces

  /** A callback that reports something that was really sent. */
  ghost predicate Genuine(sent: Stream, items: set<Item>, e: Event) {
    (exists s :: s in sent && e == FragEvent(sent[s])) || (exists it :: it in items && e == Delivered(it))
  }

  ghost predicate AllGenuine(sent: Stream, items: set<Item>, events: seq<Event>) {
    forall i :: 0 <= i < |events| ==> Genuine(sent, items, events[i])
  }

  /** The updates of all data messages of a trace. */
  ghost function ItemsOf(msgs: seq<Msg>): set<Item> {
    set i, j | 0 <= i < |msgs| && msgs[i].DataMsg? && 0 <= j < |msgs[i].items| :: msgs[i].items[j]
  }

  ghost predicate MsgsOk(cfg: Config, sent: Stream, channels: nat, msgs: seq<Msg>) {
    forall i :: 0 <= i < |msgs| ==> MsgOk(cfg, sent, channels, msgs[i])
  }

  ghost function PacketsOf(cfg: Config, startup: nat, sent: Stream, channels: nat, msgs: seq<Msg>): (ps: seq<Packet>)
    requires MsgsOk(cfg, sent, channels, msgs)
    ensures |ps| == |msgs|
  {
    seq(|msgs|, i requires 0 <= i < |msgs| => PacketOf(cfg, startup, sent, channels, msgs[i]))
  }

  lemma PacketFits(cfg: Config, startup: nat, sent: Stream, channels: nat, m: Msg)
    requires MsgOk(cfg, sent, channels, m)
    ensures |PacketOf(cfg, startup, sent, channels, m)| <= MAX_MESSAGE_SIZE
  {
  }

  lemma PacketsFit(cfg: Config, startup: nat, sent: Stream, channels: nat, msgs: seq<Msg>)
    requires MsgsOk(cfg, sent, channels, msgs)
    ensures Fit(PacketsOf(cfg, startup, sent, channels, msgs), MAX_MESSAGE_SIZE)
  {
    hide PacketOf;
    forall i | 0 <= i < |msgs| ensures |PacketOf(cfg, startup, sent, channels, msgs[i])| <= MAX_MESSAGE_SIZE {
      PacketFits(cfg, startup, sent, channels, msgs[i]);
    }
  }

  /** One packet of the sender, whichever and whenever. */
  lemma MsgStep(cfg: Config, sent: Stream, st: State, open: bool, mem: seq<Byte>, m: Msg, items: set<Item>)
    requires StreamOk(cfg, sent) && Assembling(sent, st, open) && MsgOk(cfg, sent, |st.channels|, m)
    requires st.startup < U64 && cfg.hash < U64 && |mem| == MAX_MESSAGE_SIZE
    requires m.DataMsg? ==> forall j :: 0 <= j < |m.items| ==> m.items[j] in items
    requires m.FragMsg? ==> !Confused(st, open, m.seqNo, m.k)
    requires var p := PacketOf(cfg, st.startup, sent, |st.channels|, m);
             |p| <= |mem| && mem[..|p|] == p
    ensures var p := PacketOf(cfg, st.startup, sent, |st.channels|, m);
            var o := Receive(cfg, st, mem, |p|);
            && !o.wild && AllGenuine(sent, items, o.events)
            && Assembling(sent, o.st, if m.FragMsg? then OpenAfter(st, open, m.seqNo, m.k) else open)
            && o.st.startup == st.startup && |o.st.channels| == |st.channels|
  {
    hide Receive, DataPacket, FragPacket, HeaderBytes, InWindow, OpenAfter, FragOrdered, TakeFragment, Confused;
    match m {
      case DataMsg(s, its) =>
        SizeOfData(HeaderBytes(st.startup, cfg.hash), s, its);
        DataArrives(cfg, st, mem, st.startup, s, its);
        forall i | 0 <= i < |its| ensures Genuine(sent, items, DeliveredAll(its)[i]) {
          assert its[i] in items;
        }
      case FragMsg(s, k) =>
        var f, data := InfoOf(sent[s], s, k), Piece(sent[s].value, k);
        assert k % U16 == k;
        FragmentArrives(cfg, st, mem, st.startup, f, data);
        FragmentStep(cfg, sent, st, open, s, k);
    }
  }

  /** No fragment of the trace, fed to a receiver in state st, finds it confused. */
  ghost predicate NeverConfused(cfg: Config, sent: Stream, st: State, open: bool, mem: seq<Byte>, msgs: seq<Msg>)
    requires MsgsOk(cfg, sent, |st.channels|, msgs) && |mem| == MAX_MESSAGE_SIZE
    decreases |msgs|
  {
    msgs == [] ||
    (var m := msgs[0];
     PacketFits(cfg, st.startup, sent, |st.channels|, m);
     var p := PacketOf(cfg, st.startup, sent, |st.channels|, m);
     var o := Receive(cfg, st, Load(mem, p), |p|);
     && (m.FragMsg? ==> !Confused(st, open, m.seqNo, m.k))
     && (|o.st.channels| == |st.channels| ==>
           NeverConfused(cfg, sent, o.st, if m.FragMsg? then OpenAfter(st, open, m.seqNo, m.k) else open,
                         Load(mem, p), msgs[1..])))
  }

  /**
   Reassembly safety: however the network loses, repeats and reorders the packets of one sender, every callback reports
   either an update of a data message or the complete bytes of one sent value, never a mixture and never a gap, unless
   the receiver is confused.
   */
  lemma {:induction false} OnlyWholeValues(cfg: Config, sent: Stream, st: State, open: bool, mem: seq<Byte>,
                                           msgs: seq<Msg>, items: set<Item>)
    requires StreamOk(cfg, sent) && Assembling(sent, st, open) && MsgsOk(cfg, sent, |st.channels|, msgs)
    requires st.startup < U64 && cfg.hash < U64 && |mem| == MAX_MESSAGE_SIZE
    requires ItemsOf(msgs) <= items && NeverConfused(cfg, sent, st, open, mem, msgs)
    ensures var ps := PacketsOf(cfg, st.startup, sent, |st.channels|, msgs);
            && Fit(ps, |mem|)
            && var r := Feed(cfg, st, mem, ps);
               !r.wild && AllGenuine(sent, items, r.events)
    decreases |msgs|
  {
    hide Receive, PacketOf, Assembling, Confused, OpenAfter, Genuine, StreamOk, MsgOk, Load, Feed;
    var ps := PacketsOf(cfg, st.startup, sent, |st.channels|, msgs);
    PacketsFit(cfg, st.startup, sent, |st.channels|, msgs);
    if msgs == [] {
      assert ps == [];
      FeedNone(cfg, st, mem);
    } else {
      var m, rest := msgs[0], msgs[1..];
      PacketFits(cfg, st.startup, sent, |st.channels|, m);
      var p := PacketOf(cfg, st.startup, sent, |st.channels|, m);
      var mem1 := Load(mem, p);
      LoadFront(mem, p);
      MsgStep(cfg, sent, st, open, mem1, m, items);
      var o := Receive(cfg, st, mem1, |p|);
      ItemsOfRest(msgs);
      var open1 := if m.FragMsg? then OpenAfter(st, open, m.seqNo, m.k) else open;
      OnlyWholeValues(cfg, sent, o.st, open1, mem1, rest, items);
      var ps1 := PacketsOf(cfg, st.startup, sent, |st.channels|, rest);
      assert ps == [p] + ps1;
      FeedOne(cfg, st, mem, p, ps1);
    }
  }

  lemma ItemsOfRest(msgs: seq<Msg>)
    requires msgs != []
    ensures ItemsOf(msgs[1..]) <= ItemsOf(msgs)
    ensures msgs[0].DataMsg? ==> forall j :: 0 <= j < |msgs[0].items| ==> msgs[0].items[j] in ItemsOf(msgs)
  {
    forall it | it in ItemsOf(msgs[1..]) ensures it in ItemsOf(msgs) {
      var i, j :| 0 <= i < |msgs[1..]| && msgs[1..][i].DataMsg? && 0 <= j < |msgs[1..][i].items|
                  && msgs[1..][i].items[j] == it;
      assert msgs[i + 1].items[j] == it;
    }
  }

  // ---------------------------------------------------------------- when the receiver is never confused

  /** The fragment that would continue the receiver's set, whoever began it, is one of this stream. */
  ghost predicate Continuable(sent: Stream, st: State) {
    var next := (st.lastFrag + 1) % U16;
    st.active in sent && next != 0 && next * FRAGMENT_ROOM < |sent[st.active].value|
  }

  /** If the stream uses the number 65535 at all, then for a value that is a single fragment. */
  ghost predicate MarkerIsShort(sent: Stream) {
    MINUS_ONE_16 in sent ==> |sent[MINUS_ONE_16].value| <= FRAGMENT_ROOM
  }

  /** Once there is nothing to continue, that stays so until a set of this session is open. */
  lemma StaleStep(cfg: Config, sent: Stream, st: State, open: bool, mem: seq<Byte>, m: Msg)
    requires StreamOk(cfg, sent) && MarkerIsShort(sent) && MsgOk(cfg, sent, |st.channels|, m)
    requires st.startup < U64 && cfg.hash < U64 && |mem| == MAX_MESSAGE_SIZE && (open || !Continuable(sent, st))
    requires var p := PacketOf(cfg, st.startup, sent, |st.channels|, m);
             |p| <= |mem| && mem[..|p|] == p
    ensures m.FragMsg? ==> !Confused(st, open, m.seqNo, m.k)
    ensures var p := PacketOf(cfg, st.startup, sent, |st.channels|, m);
            var o := Receive(cfg, st, mem, |p|);
            && o.st.startup == st.startup
            && ((if m.FragMsg? then OpenAfter(st, open, m.seqNo, m.k) else open) || !Continuable(sent, o.st))
  {
    hide Receive, DataPacket, FragPacket, HeaderBytes, InWindow;
    match m {
      case DataMsg(s, its) =>
        SizeOfData(HeaderBytes(st.startup, cfg.hash), s, its);
        DataArrives(cfg, st, mem, st.startup, s, its);
      case FragMsg(s, k) =>
        assert k % U16 == k;
        FragmentArrives(cfg, st, mem, st.startup, InfoOf(sent[s], s, k), Piece(sent[s].value, k));
    }
  }

  lemma {:induction false} StaleNeverConfuses(cfg: Config, sent: Stream, st: State, open: bool, mem: seq<Byte>,
                                              msgs: seq<Msg>)
    requires StreamOk(cfg, sent) && MarkerIsShort(sent) && MsgsOk(cfg, sent, |st.channels|, msgs)
    requires st.startup < U64 && cfg.hash < U64 && |mem| == MAX_MESSAGE_SIZE && (open || !Continuable(sent, st))
    ensures NeverConfused(cfg, sent, st, open, mem, msgs)
    decreases |msgs|
  {
    hide Receive, PacketOf, OpenAfter, Load, StreamOk, Continuable, Confused, MsgOk;
    if msgs != [] {
      var m := msgs[0];
      PacketFits(cfg, st.startup, sent, |st.channels|, m);
      var p := PacketOf(cfg, st.startup, sent, |st.channels|, m);
      LoadFront(mem, p);
      StaleStep(cfg, sent, st, open, Load(mem, p), m);
      var o := Receive(cfg, st, Load(mem, p), |p|);
      if |o.st.channels| == |st.channels| {
        StaleNeverConfuses(cfg, sent, o.st, if m.FragMsg? then OpenAfter(st, open, m.seqNo, m.k) else open,
                           Load(mem, p), msgs[1..]);
      }
    }
  }

  /**
   Fragment 1 of the value with the number 65535, again and again: the first one sets the marker, each one that is
   refused moves the number of the last fragment on, until one is taken for the continuation of a set.
   */
  lemma {:induction false} MarkerConfuses(cfg: Config, sent: Stream, st: State, mem: seq<Byte>)
    returns (msgs: seq<Msg>)
    requires StreamOk(cfg, sent) && !MarkerIsShort(sent) && st.startup < U64 && cfg.hash < U64
    requires |mem| == MAX_MESSAGE_SIZE
    ensures MsgsOk(cfg, sent, |st.channels|, msgs) && !NeverConfused(cfg, sent, st, false, mem, msgs)
    decreases if st.active != MINUS_ONE_16 then U16 + 1 else (U16 - st.lastFrag % U16) % U16
  {
    hide Receive, FragPacket, HeaderBytes, Load, StreamOk;
    var m, c := FragMsg(MINUS_ONE_16, 1), sent[MINUS_ONE_16];
    msgs := [m];
    if !Confused(st, false, MINUS_ONE_16, 1) {
      PacketFits(cfg, st.startup, sent, |st.channels|, m);
      var p := PacketOf(cfg, st.startup, sent, |st.channels|, m);
      LoadFront(mem, p);
      MarkerRefused(cfg, sent, st, Load(mem, p));
      var o := Receive(cfg, st, Load(mem, p), |p|);
      var rest := MarkerConfuses(cfg, sent, o.st, Load(mem, p));
      msgs := [m] + rest;
      assert msgs[1..] == rest;
    }
  }

  lemma MarkerRefused(cfg: Config, sent: Stream, st: State, mem: seq<Byte>)
    requires StreamOk(cfg, sent) && !MarkerIsShort(sent) && st.startup < U64 && cfg.hash < U64
    requires !Confused(st, false, MINUS_ONE_16, 1)
    requires var p := PacketOf(cfg, st.startup, sent, |st.channels|, FragMsg(MINUS_ONE_16, 1));
             |p| <= |mem| <= MAX_MESSAGE_SIZE && mem[..|p|] == p
    ensures var p := PacketOf(cfg, st.startup, sent, |st.channels|, FragMsg(MINUS_ONE_16, 1));
            Receive(cfg, st, mem, |p|).st
            == st.(active := MINUS_ONE_16,
                   lastFrag := if st.active == MINUS_ONE_16 then (st.lastFrag + 1) % U16 else st.lastFrag)
  {
    hide Receive, FragPacket, HeaderBytes;
    var c := sent[MINUS_ONE_16];
    FragmentArrives(cfg, st, mem, st.startup, InfoOf(c, MINUS_ONE_16, 1), Piece(c.value, 1));
  }

  /**
   The exact condition at the beginning of a session, when no set of it is open yet: no order of arrival confuses the
   receiver if and only if the set that is left over from before, if there is any, cannot be continued by a fragment of
   the new stream, and the number 65535 is not used, or for a single fragment only.
   */
  lemma NeverConfusedIff(cfg: Config, sent: Stream, st: State)
    requires StreamOk(cfg, sent) && st.startup < U64 && cfg.hash < U64
    ensures (forall mem: seq<Byte>, msgs: seq<Msg> ::
               |mem| == MAX_MESSAGE_SIZE && MsgsOk(cfg, sent, |st.channels|, msgs) ==>
                 NeverConfused(cfg, sent, st, false, mem, msgs))
            <==> !Continuable(sent, st) && MarkerIsShort(sent)
  {
    if Continuable(sent, st) {
      var mem, msgs := Zeros(MAX_MESSAGE_SIZE), [FragMsg(st.active, (st.lastFrag + 1) % U16)];
      assert MsgsOk(cfg, sent, |st.channels|, msgs);
      assert Confused(st, false, st.active, (st.lastFrag + 1) % U16);
      assert !NeverConfused(cfg, sent, st, false, mem, msgs);
    } else if !MarkerIsShort(sent) {
      var msgs := MarkerConfuses(cfg, sent, st, Zeros(MAX_MESSAGE_SIZE));
    } else {
      forall mem: seq<Byte>, msgs: seq<Msg> | |mem| == MAX_MESSAGE_SIZE && MsgsOk(cfg, sent, |st.channels|, msgs)
        ensures NeverConfused(cfg, sent, st, false, mem, msgs)
      {
        StaleNeverConfuses(cfg, sent, st, false, mem, msgs);
      }
    }
  }

  /** The first packet of a newer sender makes the receiver forget sequence numbers, but not a set that is left over. */
  lemma TakeOver(cfg: Config, st: State, startup: nat, mem: seq<Byte>, p: Packet)
    requires HEADER_SIZE <= |p| <= |mem| && mem[..|p|] == p && p[..HEADER_SIZE] == HeaderBytes(startup, cfg.hash)
    requires st.startup <= startup < U64 && cfg.hash < U64
    ensures Receive(cfg, st, mem, |p|) == Receive(cfg, FromSender(st, startup).0, mem, |p|)
  {
    hide Submessages, HeaderBytes;
    assert mem[..HEADER_SIZE] == mem[..|p|][..HEADER_SIZE];
    HeaderAccepted(cfg, st, mem, |p|, startup);
    HeaderAccepted(cfg, FromSender(st, startup).0, mem, |p|, startup);
  }

  lemma FeedTakeOver(cfg: Config, st: State, startup: nat, mem: seq<Byte>, ps: seq<Packet>)
    requires Fit(ps, |mem|) && st.startup <= startup < U64 && cfg.hash < U64 && ps != []
    requires |ps[0]| >= HEADER_SIZE && ps[0][..HEADER_SIZE] == HeaderBytes(startup, cfg.hash)
    ensures Feed(cfg, st, mem, ps) == Feed(cfg, FromSender(st, startup).0, mem, ps)
  {
    hide Receive, HeaderBytes;
    TakeOver(cfg, st, startup, Load(mem, ps[0]), ps[0]);
  }

  /**
   Reassembly safety under that condition, for every receiver, new or with a set left over, that hears a sender for the
   first time.
   */
  lemma NewSessionSafe(cfg: Config, sent: Stream, st: State, startup: nat, mem: seq<Byte>, msgs: seq<Msg>)
    requires StreamOk(cfg, sent) && MarkerIsShort(sent) && !Continuable(sent, st)
    requires MsgsOk(cfg, sent, |st.channels|, msgs)
    requires st.startup <= startup < U64 && cfg.hash < U64 && |mem| == MAX_MESSAGE_SIZE
    ensures var ps := PacketsOf(cfg, startup, sent, |st.channels|, msgs);
            Fit(ps, |mem|) && AllGenuine(sent, ItemsOf(msgs), Feed(cfg, st, mem, ps).events)
  {
    hide NeverConfused, Feed, MsgOk, Genuine, StreamOk, PacketOf, HeaderBytes;
    var st1, ps := FromSender(st, startup).0, PacketsOf(cfg, startup, sent, |st.channels|, msgs);
    StaleNeverConfuses(cfg, sent, st1, false, mem, msgs);
    OnlyWholeValues(cfg, sent, st1, false, mem, msgs, ItemsOf(msgs));
    if msgs == [] {
      FeedNone(cfg, st, mem);
    } else {
      PacketBegins(cfg, startup, sent, |st.channels|, msgs[0]);
      FeedTakeOver(cfg, st, startup, mem, ps);
    }
  }

  lemma PacketBegins(cfg: Config, startup: nat, sent: Stream, channels: nat, m: Msg)
    requires MsgOk(cfg, sent, channels, m)
    ensures var p := PacketOf(cfg, startup, sent, channels, m);
            |p| >= HEADER_SIZE && p[..HEADER_SIZE] == HeaderBytes(startup, cfg.hash)
  {
  }

  // ---------------------------------------------------------------- where it fails

  /** Fragments differ only by what they carry, so a value can be swapped for one with the same rest. */
  lemma {:induction false} SameFragments(hdr: seq<Byte>, a: Layout.Channel, b: Layout.Channel, seqNo: nat, k: nat,
                                         rest: seq<Byte>)
    requires a.index == b.index && a.count == b.count && a.typ == b.typ
    ensures Fragments(hdr, a, seqNo, k, rest) == Fragments(hdr, b, seqNo, k, rest)
    decreases |rest|
  {
    hide FragPacket;
    if rest != [] {
      var n := if |rest| <= FRAGMENT_ROOM then |rest| else FRAGMENT_ROOM;
      SameFragments(hdr, a, b, seqNo, k + 1, rest[n..]);
    }
  }

  /**
   With the number 65535 reassembly does mix values. For any two oversized values of the same length, a sent with some
   other number and b with 65535: after the first fragment of a, the second fragment of b closes the set, and when it
   is repeated and the rest of b follows, the receiver reports the front of a with the rest of b.
   */
  lemma MarkerMixes(cfg: Config, st: State, mem: seq<Byte>, a: Layout.Channel, b: Layout.Channel, seqNo: nat)
    requires st.startup < U64 && cfg.hash < U64 && |mem| == MAX_MESSAGE_SIZE
    requires seqNo < MINUS_ONE_16 && InWindow(seqNo, st.lastSeq)
    requires FRAGMENT_ROOM < |a.value| == |b.value| <= U16 * FRAGMENT_ROOM
    requires cfg.size(a.typ % U16, a.count % U32) == |a.value|
    ensures var hdr := HeaderBytes(st.startup, cfg.hash);
            var fa, fb := Fragments(hdr, a, seqNo, 0, a.value),
                          Fragments(hdr, b, MINUS_ONE_16, 1, b.value[FRAGMENT_ROOM..]);
            && |fa| > 0 && |fb| > 0 && Fit([fa[0], fb[0]] + fb, |mem|)
            && Feed(cfg, st, mem, [fa[0], fb[0]] + fb).events
               == [FragEvent(b.(value := a.value[..FRAGMENT_ROOM] + b.value[FRAGMENT_ROOM..]))]
  {
    hide HeaderBytes, FragPacket, Feed, Receive, Load, InWindow, FragInfoAt;
    var hdr, front, rest := HeaderBytes(st.startup, cfg.hash), a.value[..FRAGMENT_ROOM], b.value[FRAGMENT_ROOM..];
    var fa, fb := Fragments(hdr, a, seqNo, 0, a.value), Fragments(hdr, b, MINUS_ONE_16, 1, rest);
    var n := Min(|rest|, FRAGMENT_ROOM);
    var ia, ib := FragInfoOf(a, seqNo, 0, FRAGMENT_ROOM), FragInfoOf(b, MINUS_ONE_16, 1, n);
    assert fa[0] == FragPacket(hdr, ia, front) && fb[0] == FragPacket(hdr, ib, rest[..n]);
    FragmentsFit(hdr, a, seqNo, 0, a.value);
    FragmentsFit(hdr, b, MINUS_ONE_16, 1, rest);
    var m1 := Load(mem, fa[0]);
    LoadFront(mem, fa[0]);
    FragmentArrives(cfg, st, m1, st.startup, ia, front);
    assert [] + front == front;
    var st1 := st.(lastSeq := seqNo, active := seqNo, lastFrag := 0, fragData := front, fragTotal := |a.value|);
    var m2 := Load(m1, fb[0]);
    LoadFront(m1, fb[0]);
    FragmentArrives(cfg, st1, m2, st.startup, ib, rest[..n]);
    var st2 := st1.(active := MINUS_ONE_16);
    var mixed := b.(value := front + rest);
    SameFragments(hdr, b, mixed, MINUS_ONE_16, 1, rest);
    RestArrives(cfg, st2, m2, mixed, MINUS_ONE_16, 1, rest);
    FeedOne(cfg, st1, m1, fb[0], fb);
    FeedOne(cfg, st, mem, fa[0], [fb[0]] + fb);
    assert [fa[0], fb[0]] + fb == [fa[0]] + ([fb[0]] + fb);
  }

  /**
   A set that a former sender has left unfinished does mix values: when a newer sender uses its number for a value of
   the same length, the rest of the new value completes the old one. The receiver reports the front of the old value
   with the rest of the new one.
   */
  lemma TakeOverMixes(cfg: Config, st: State, startup: nat, mem: seq<Byte>, b: Layout.Channel)
    requires st.startup < startup < U64 && cfg.hash < U64 && |mem| == MAX_MESSAGE_SIZE
    requires st.active < U16 && st.lastFrag + 1 < U16 && |b.value| <= U16 * FRAGMENT_ROOM
    requires |st.fragData| == (st.lastFrag + 1) * FRAGMENT_ROOM < st.fragTotal == |b.value|
    ensures var k := st.lastFrag + 1;
            var ps := Fragments(HeaderBytes(startup, cfg.hash), b, st.active, k, b.value[k * FRAGMENT_ROOM..]);
            && Fit(ps, |mem|)
            && Feed(cfg, st, mem, ps).events
               == [FragEvent(b.(value := st.fragData + b.value[k * FRAGMENT_ROOM..]))]
  {
    hide HeaderBytes, Feed, Fragments;
    var k := st.lastFrag + 1;
    var hdr, rest := HeaderBytes(startup, cfg.hash), b.value[k * FRAGMENT_ROOM..];
    var ps, mixed := Fragments(hdr, b, st.active, k, rest), b.(value := st.fragData + rest);
    SameFragments(hdr, b, mixed, st.active, k, rest);
    RestArrives(cfg, FromSender(st, startup).0, mem, mixed, st.active, k, rest);
    FragmentsBegin(hdr, b, st.active, k, rest);
    FeedTakeOver(cfg, st, startup, mem, ps);
  }

  lemma FragmentsBegin(hdr: seq<Byte>, c: Layout.Channel, seqNo: nat, k: nat, rest: seq<Byte>)
    requires |hdr| == HEADER_SIZE && rest != []
    ensures var ps := Fragments(hdr, c, seqNo, k, rest);
            ps != [] && |ps[0]| >= HEADER_SIZE && ps[0][..HEADER_SIZE] == hdr
  {
  }
}
