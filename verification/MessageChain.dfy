/**
 Packets with several submessages. The protocol lets a packet carry any number of them and has a receiver skip those
 that it does not know; the receiver's test for the next one is the wrong way round. Here is what it does instead, for
 every packet, and when that makes no difference.
 */
module MessageChain {
  import opened Bytes
  import opened Protocol
  import opened Packing
  import opened Receiver
  import opened EndToEnd
  import opened Session

  /** What a stretch of parsing has done; where it left the cursor does not matter to anyone. */
  datatype Effect = Effect(st: State, events: seq<Event>, wild: bool)

  function EffectOf(o: Outcome): Effect {
    Effect(o.st, o.events, o.wild)
  }

  /** The loop would read a submessage header here. */
  predicate HeaderAhead(mem: seq<Byte>, limit: nat, cur: Cursor) {
    cur.Ensure(SUBMESSAGE_HEADER_SIZE, limit).good && cur.pos + SUBMESSAGE_HEADER_SIZE <= |mem|
  }

  /** And handle the submessage, because it is little-endian. */
  predicate MessageAhead(mem: seq<Byte>, limit: nat, cur: Cursor) {
    HeaderAhead(mem, limit, cur) && mem[cur.pos + 1] % 2 == 1
  }

  /** The distance from the payload of a submessage to the next header, as it is announced. */
  function Distance(mem: seq<Byte>, at: nat): (d: nat)
    requires at + SUBMESSAGE_HEADER_SIZE <= |mem|
  {
    UintAt(mem, at + 2, 2)
  }

  /** Where the next header is announced to be; 0 means that there is none. */
  function NextHeader(mem: seq<Byte>, at: nat): (next: nat)
    requires at + SUBMESSAGE_HEADER_SIZE <= |mem|
  {
    if Distance(mem, at) == 0 then 0 else at + SUBMESSAGE_HEADER_SIZE + Distance(mem, at)
  }

  /** The message of the submessage at a position. */
  function MessageAt(cfg: Config, st: State, mem: seq<Byte>, limit: nat, at: nat): (o: Outcome)
    requires at + SUBMESSAGE_HEADER_SIZE <= |mem|
  {
    Message(cfg, st, mem, limit, Cursor(at + SUBMESSAGE_HEADER_SIZE, true), mem[at])
  }

  // ---------------------------------------------------------------- the protocol's reading

  /** The loop with its test the right way round: on to the next header, unless that is out of bounds. */
  function Intended(cfg: Config, st: State, mem: seq<Byte>, limit: nat, cur: Cursor): (o: Outcome)
    decreases |mem| - cur.pos
  {
    if !HeaderAhead(mem, limit, cur) then
      Outcome(st, cur, [], cur.Ensure(SUBMESSAGE_HEADER_SIZE, limit).good)
    else if mem[cur.pos + 1] % 2 == 0 then Outcome(st, cur, [], false)
    else
      var o, next := MessageAt(cfg, st, mem, limit, cur.pos), NextHeader(mem, cur.pos);
      if o.wild || next == 0 || next > limit then o
      else Prepend(o.events, Intended(cfg, o.st, mem, limit, Cursor(next, o.cur.good)))
  }

  function ReceiveIntended(cfg: Config, st: State, mem: seq<Byte>, n: nat): (o: Outcome)
    requires n <= |mem|
  {
    if !Heard(cfg, st, mem, n) then Outcome(st, Cursor(0, false), [], false)
    else Intended(cfg, FromSender(st, HeaderAt(mem, 0).startup).0, mem, n, Cursor(HEADER_SIZE, true))
  }

  lemma IntendedOnce(cfg: Config, st: State, mem: seq<Byte>, limit: nat, cur: Cursor)
    requires MessageAhead(mem, limit, cur)
    ensures var o, next := MessageAt(cfg, st, mem, limit, cur.pos), NextHeader(mem, cur.pos);
            Intended(cfg, st, mem, limit, cur)
            == if o.wild || next == 0 || next > limit then o
               else Prepend(o.events, Intended(cfg, o.st, mem, limit, Cursor(next, o.cur.good)))
  {
  }

  /** The messages at these positions in turn, up to one that clears the flag or leaves the buffer. */
  function InTurn(cfg: Config, st: State, mem: seq<Byte>, limit: nat, starts: seq<nat>): (e: Effect)
    requires forall k :: 0 <= k < |starts| ==> starts[k] + SUBMESSAGE_HEADER_SIZE <= |mem|
    decreases |starts|
  {
    if starts == [] then Effect(st, [], false)
    else
      var o := MessageAt(cfg, st, mem, limit, starts[0]);
      if o.wild || !o.cur.good then EffectOf(o)
      else
        var e := InTurn(cfg, o.st, mem, limit, starts[1..]);
        e.(events := o.events + e.events)
  }

  /** The state and the callbacks stay as they are. */
  predicate Nothing(st: State, e: Effect) {
    e == Effect(st, [], false)
  }

  // ---------------------------------------------------------------- what the receiver does

  lemma SubmessagesOnce(cfg: Config, st: State, mem: seq<Byte>, limit: nat, cur: Cursor)
    requires MessageAhead(mem, limit, cur)
    ensures var o, next := MessageAt(cfg, st, mem, limit, cur.pos), NextHeader(mem, cur.pos);
            Submessages(cfg, st, mem, limit, cur)
            == if !o.wild && next > limit then Prepend(o.events, Submessages(cfg, o.st, mem, limit, o.cur)) else o
  {
    hide Message, Submessages, UintAt;
    SubmessagesStep(cfg, st, mem, limit, cur, []);
    var o := MessageAt(cfg, st, mem, limit, cur.pos);
    PrependNothing(o);
    PrependNothing(Submessages(cfg, st, mem, limit, cur));
    assert [] + o.events == o.events;
  }

  lemma PrependNothing(o: Outcome)
    ensures Prepend([], o) == o
  {
    assert [] + o.events == o.events;
  }

  lemma HeardIsParsed(cfg: Config, st: State, mem: seq<Byte>, n: nat)
    requires n <= |mem|
    ensures if Heard(cfg, st, mem, n) then
              Receive(cfg, st, mem, n)
              == Submessages(cfg, FromSender(st, HeaderAt(mem, 0).startup).0, mem, n, Cursor(HEADER_SIZE, true))
            else EffectOf(Receive(cfg, st, mem, n)) == Effect(st, [], false)
  {
    hide Submessages, HeaderAt;
  }

  /** A first submessage that announces a next one inside the packet is the only one that is ever handled. */
  lemma FirstIsAll(cfg: Config, st: State, mem: seq<Byte>, n: nat)
    requires n <= |mem| && Heard(cfg, st, mem, n) && MessageAhead(mem, n, Cursor(HEADER_SIZE, true))
    requires 0 < NextHeader(mem, HEADER_SIZE) <= n
    ensures Receive(cfg, st, mem, n)
         == MessageAt(cfg, FromSender(st, HeaderAt(mem, 0).startup).0, mem, n, HEADER_SIZE)
  {
    hide Message, HeaderAt, Submessages, Receive;
    HeardIsParsed(cfg, st, mem, n);
    SubmessagesOnce(cfg, FromSender(st, HeaderAt(mem, 0).startup).0, mem, n, Cursor(HEADER_SIZE, true));
  }

  /** Where the submessages begin that the loop handles. */
  function Handled(cfg: Config, st: State, mem: seq<Byte>, limit: nat, cur: Cursor): (starts: seq<nat>)
    ensures forall k :: 0 <= k < |starts| ==> starts[k] + SUBMESSAGE_HEADER_SIZE <= |mem|
    decreases |mem| - cur.pos
  {
    if !MessageAhead(mem, limit, cur) then []
    else
      var o := MessageAt(cfg, st, mem, limit, cur.pos);
      [cur.pos] + if o.wild || NextHeader(mem, cur.pos) <= limit then [] else Handled(cfg, o.st, mem, limit, o.cur)
  }

  /** The parser goes on exactly when the next header is announced outside the packet; it looks behind the message. */
  lemma GoesOnIff(cfg: Config, st: State, mem: seq<Byte>, limit: nat, cur: Cursor)
    requires MessageAhead(mem, limit, cur)
    ensures var o := MessageAt(cfg, st, mem, limit, cur.pos);
            && (|Handled(cfg, st, mem, limit, cur)| > 1
                <==> !o.wild && NextHeader(mem, cur.pos) > limit && MessageAhead(mem, limit, o.cur))
            && (|Handled(cfg, st, mem, limit, cur)| > 1 ==> Handled(cfg, st, mem, limit, cur)[1] == o.cur.pos)
  {
    hide Message;
  }

  /** Where no message is ahead nothing happens, unless the header itself is read from behind the buffer. */
  lemma NothingAhead(cfg: Config, st: State, mem: seq<Byte>, limit: nat, cur: Cursor)
    requires !MessageAhead(mem, limit, cur)
    ensures var e := EffectOf(Submessages(cfg, st, mem, limit, cur));
            && e.st == st && e.events == []
            && (e.wild <==> cur.Ensure(SUBMESSAGE_HEADER_SIZE, limit).good
                            && cur.pos + SUBMESSAGE_HEADER_SIZE > |mem|)
  {
    hide Message, UintAt;
  }

  /** These messages in turn are all that the loop does. */
  lemma {:induction false} HandledInTurn(cfg: Config, st: State, mem: seq<Byte>, limit: nat, cur: Cursor)
    ensures var o := Submessages(cfg, st, mem, limit, cur);
            var e := InTurn(cfg, st, mem, limit, Handled(cfg, st, mem, limit, cur));
            o.st == e.st && o.events == e.events && (e.wild ==> o.wild)
    decreases |mem| - cur.pos
  {
    hide Message, Submessages, UintAt;
    if MessageAhead(mem, limit, cur) {
      var o, starts := MessageAt(cfg, st, mem, limit, cur.pos), Handled(cfg, st, mem, limit, cur);
      SubmessagesOnce(cfg, st, mem, limit, cur);
      assert o.events + [] == o.events;
      if !o.wild && NextHeader(mem, cur.pos) > limit {
        HandledInTurn(cfg, o.st, mem, limit, o.cur);
        NothingBehind(cfg, o.st, mem, limit, o.cur);
      }
    } else {
      NothingAhead(cfg, st, mem, limit, cur);
    }
  }

  /** Once the flag is cleared, nothing is ahead. */
  lemma NothingBehind(cfg: Config, st: State, mem: seq<Byte>, limit: nat, cur: Cursor)
    ensures !cur.good ==> !MessageAhead(mem, limit, cur) && Handled(cfg, st, mem, limit, cur) == []
    ensures Handled(cfg, st, mem, limit, cur) == [] ==> InTurn(cfg, st, mem, limit, []) == Effect(st, [], false)
  {
  }

  // ---------------------------------------------------------------- when it makes no difference

  /**
   For every packet that is heard: the receiver does what the protocol says exactly when the first submessage announces
   no next one, or what would come next has no effect, where the protocol looks for it or where the receiver does.
   */
  lemma AsIntendedIff(cfg: Config, st: State, mem: seq<Byte>, n: nat)
    requires n <= |mem| && Heard(cfg, st, mem, n) && MessageAhead(mem, n, Cursor(HEADER_SIZE, true))
    ensures var st1, next := FromSender(st, HeaderAt(mem, 0).startup).0, NextHeader(mem, HEADER_SIZE);
            var o := MessageAt(cfg, st1, mem, n, HEADER_SIZE);
            EffectOf(Receive(cfg, st, mem, n)) == EffectOf(ReceiveIntended(cfg, st, mem, n))
            <==>
            || o.wild || next == 0
            || Nothing(o.st, EffectOf(if next <= n then Intended(cfg, o.st, mem, n, Cursor(next, o.cur.good))
                                      else Submessages(cfg, o.st, mem, n, o.cur)))
  {
    hide Message, HeaderAt, Submessages, Receive;
    HeardIsParsed(cfg, st, mem, n);
    SubmessagesOnce(cfg, FromSender(st, HeaderAt(mem, 0).startup).0, mem, n, Cursor(HEADER_SIZE, true));
  }

  /** A packet of well-formed submessages: each begins where the one before it says, and the last ends the packet. */
  ghost predicate Chain(mem: seq<Byte>, n: nat, starts: seq<nat>) {
    && starts != []
    && (forall k :: 0 <= k < |starts| ==> MessageAhead(mem, n, Cursor(starts[k], true)) && starts[k] <= n)
    && (forall k :: 0 < k < |starts| ==> NextHeader(mem, starts[k - 1]) == starts[k] > 0)
    && var next := NextHeader(mem, starts[|starts| - 1]); next == 0 || next == n
  }

  /** The protocol handles all the submessages of such a packet in turn. */
  lemma {:induction false} ChainIsInTurn(cfg: Config, st: State, mem: seq<Byte>, n: nat, starts: seq<nat>)
    requires Chain(mem, n, starts) && n <= |mem|
    ensures EffectOf(Intended(cfg, st, mem, n, Cursor(starts[0], true))) == InTurn(cfg, st, mem, n, starts)
    decreases |starts|
  {
    hide MessageAt, NextHeader;
    var o, next := MessageAt(cfg, st, mem, n, starts[0]), NextHeader(mem, starts[0]);
    assert o.events + [] == o.events;
    assert MessageAhead(mem, n, Cursor(starts[0], true));
    if |starts| == 1 {
      assert starts[1..] == [];
    } else {
      assert NextHeader(mem, starts[1 - 1]) == starts[1];
      ChainTail(mem, n, starts);
      if !o.wild && o.cur.good {
        ChainIsInTurn(cfg, o.st, mem, n, starts[1..]);
      }
    }
  }

  lemma ChainTail(mem: seq<Byte>, n: nat, starts: seq<nat>)
    requires Chain(mem, n, starts) && |starts| > 1
    ensures Chain(mem, n, starts[1..])
  {
    var rest := starts[1..];
    forall k | 0 < k < |rest|
      ensures NextHeader(mem, rest[k - 1]) == rest[k] > 0
    {
      assert NextHeader(mem, starts[k + 1 - 1]) == starts[k + 1];
    }
  }

  /**
   Such a packet is processed whole exactly when it has a single submessage, or handling ends with the first one anyhow,
   or the later ones cause nothing.
   */
  lemma ProcessedWholeIff(cfg: Config, st: State, mem: seq<Byte>, n: nat, starts: seq<nat>)
    requires n <= |mem| && Heard(cfg, st, mem, n) && Chain(mem, n, starts) && starts[0] == HEADER_SIZE
    ensures var st1 := FromSender(st, HeaderAt(mem, 0).startup).0;
            var o := MessageAt(cfg, st1, mem, n, HEADER_SIZE);
            EffectOf(Receive(cfg, st, mem, n)) == InTurn(cfg, st1, mem, n, starts)
            <==> |starts| == 1 || o.wild || !o.cur.good || Nothing(o.st, InTurn(cfg, o.st, mem, n, starts[1..]))
  {
    hide Message, HeaderAt, Submessages, Receive;
    HeardIsParsed(cfg, st, mem, n);
    SubmessagesOnce(cfg, FromSender(st, HeaderAt(mem, 0).startup).0, mem, n, Cursor(HEADER_SIZE, true));
    if |starts| > 1 {
      assert NextHeader(mem, starts[1 - 1]) == starts[1];
    } else {
      assert starts[1..] == [];
    }
  }

  // ---------------------------------------------------------------- an unknown submessage

  /** A submessage of a kind that the receiver does not know, with 4 bytes of payload, and a data message behind it. */
  function NewerPacket(hdr: seq<Byte>, id: Byte, seqNo: nat, items: seq<Item>): (p: Packet) {
    hdr + [id, LITTLE_ENDIAN] + LE(4, 2) + Zeros(4)
    + SubheaderBytes(CA_DATA_MESSAGE) + LE(seqNo, 2) + LE(|items|, 2) + ItemsBytes(items)
  }

  /** Where the two headers and the updates are in it. */
  lemma NewerPacketParts(hdr: seq<Byte>, id: Byte, seqNo: nat, items: seq<Item>, mem: seq<Byte>)
    requires |hdr| == HEADER_SIZE && seqNo < U16 && |items| < U16
    requires var p := NewerPacket(hdr, id, seqNo, items); |p| <= |mem| && mem[..|p|] == p
    ensures |NewerPacket(hdr, id, seqNo, items)| == HEADER_SIZE + 16 + |ItemsBytes(items)|
    ensures mem[..HEADER_SIZE] == hdr && mem[HEADER_SIZE] == id && mem[HEADER_SIZE + 1] == LITTLE_ENDIAN
    ensures NextHeader(mem, HEADER_SIZE) == HEADER_SIZE + 8
    ensures mem[HEADER_SIZE + 8..HEADER_SIZE + 12] == SubheaderBytes(CA_DATA_MESSAGE)
    ensures UintAt(mem, HEADER_SIZE + 12, 2) == seqNo && UintAt(mem, HEADER_SIZE + 14, 2) == |items|
    ensures mem[HEADER_SIZE + 16..HEADER_SIZE + 16 + |ItemsBytes(items)|] == ItemsBytes(items)
  {
    hide ItemsBytes, SubheaderBytes, LE;
    var p, sub, all := NewerPacket(hdr, id, seqNo, items), SubheaderBytes(CA_DATA_MESSAGE), ItemsBytes(items);
    var first, d, a, b := [id, LITTLE_ENDIAN], LE(4, 2), LE(seqNo, 2), LE(|items|, 2);
    assert mem[0..|p|] == mem[..|p|];
    SplitMemory(mem, 0, hdr + first + d + Zeros(4) + sub + a + b, all);
    SplitMemory(mem, 0, hdr + first + d + Zeros(4) + sub + a, b);
    SplitMemory(mem, 0, hdr + first + d + Zeros(4) + sub, a);
    SplitMemory(mem, 0, hdr + first + d + Zeros(4), sub);
    SplitMemory(mem, 0, hdr + first + d, Zeros(4));
    SplitMemory(mem, 0, hdr + first, d);
    SplitMemory(mem, 0, hdr, first);
    assert mem[..HEADER_SIZE] == mem[0..HEADER_SIZE];
    assert mem[HEADER_SIZE] == mem[HEADER_SIZE..HEADER_SIZE + 2][0];
    assert mem[HEADER_SIZE + 1] == mem[HEADER_SIZE..HEADER_SIZE + 2][1];
    PowValues();
    UintRoundTrip(mem, HEADER_SIZE + 2, 4, 2);
    UintRoundTrip(mem, HEADER_SIZE + 12, seqNo, 2);
    UintRoundTrip(mem, HEADER_SIZE + 14, |items|, 2);
  }

  /**
   The promise that new kinds of submessages do not break older receivers does not hold: for every unknown kind and all
   updates, the protocol has the updates behind it delivered, and the receiver delivers none of them.
   */
  lemma UnknownHidesRest(cfg: Config, st: State, mem: seq<Byte>, startup: nat, id: Byte, seqNo: nat, items: seq<Item>)
    requires id != CA_DATA_MESSAGE && id != CA_FRAG_DATA_MESSAGE
    requires AllOk(cfg, |st.channels|, items) && |items| < U16 && seqNo < U16
    requires st.startup <= startup < U64 && cfg.hash < U64 && InWindow(seqNo, FromSender(st, startup).0.lastSeq)
    requires var p := NewerPacket(HeaderBytes(startup, cfg.hash), id, seqNo, items);
             |p| <= |mem| && |p| < U64 && mem[..|p|] == p
    ensures var n := |NewerPacket(HeaderBytes(startup, cfg.hash), id, seqNo, items)|;
            && Receive(cfg, st, mem, n).events == []
            && ReceiveIntended(cfg, st, mem, n).events == DeliveredAll(items)
  {
    hide HeaderBytes, ItemsBytes, SubheaderBytes, LE, Submessages, Receive, Items, Touched, DeliveredAll, NewerPacket,
         HeaderAt, InWindow, UintAt, AllOk, Intended;
    var hdr := HeaderBytes(startup, cfg.hash);
    var n, at := |NewerPacket(hdr, id, seqNo, items)|, HEADER_SIZE + 8;
    NewerPacketParts(hdr, id, seqNo, items, mem);
    HeaderRoundTrip(mem, startup, cfg.hash);
    var st1 := FromSender(st, startup).0;
    FirstIsAll(cfg, st, mem, n);
    SubheaderFound(mem, at, CA_DATA_MESSAGE);
    ItemsArrive(cfg, st1.(lastSeq := seqNo), mem, n, at + 8, items);
    IntendedOnce(cfg, st1, mem, n, Cursor(HEADER_SIZE, true));
    IntendedOnce(cfg, st1, mem, n, Cursor(at, true));
    var o := MessageAt(cfg, st1, mem, n, at);
    PrependNothing(o);
  }
}
