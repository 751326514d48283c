/** The type-id cache of the pvAccess diode, which sender and receiver fill separately and must agree on. */
module TypeCache {
  import opened Bytes
  import opened Protocol

  /** A structure type, as its serialized description. */
  type TypeDesc = seq<Byte>

  /** The room for type definitions in an empty packet. */
  const TYPEDEF_ROOM: nat := MAX_MESSAGE_SIZE - HEADER_SIZE - SUBMESSAGE_HEADER_SIZE - 4

  ghost predicate Distinct(cache: seq<TypeDesc>) {
    forall i, j :: 0 <= i < j < |cache| ==> cache[i] != cache[j]
  }

  // ---------------------------------------------------------------- the sender's cache

  /** cacheType: the id of a type, which is added at the end if it is new. */
  method CacheType(cache: seq<TypeDesc>, t: TypeDesc) returns (cache': seq<TypeDesc>, id: nat)
    ensures cache' == (if t in cache then cache else cache + [t])
    ensures Distinct(cache) ==> Distinct(cache')
    ensures |cache| < U16 ==> id < |cache'| && cache'[id] == t && (t in cache ==> t !in cache[..id])
  {
    cache', id := cache, 0;
    for i := 0 to |cache|
      invariant id == i % U16 && t !in cache[..i]
    {
      if t == cache[i] {
        return;
      }
      assert cache[..i + 1] == cache[..i] + [cache[i]];
      id := (id + 1) % U16;
    }
    assert cache[..|cache|] == cache;
    cache' := cache + [t];
  }

  /** The caches of a session, each extended by a type that was looked up. */
  ghost predicate IsSession(caches: seq<seq<TypeDesc>>, types: seq<TypeDesc>) {
    && |caches| == |types| + 1 && Distinct(caches[0])
    && forall n :: 0 <= n < |types| ==>
         caches[n + 1] == if types[n] in caches[n] then caches[n] else caches[n] + [types[n]]
  }

  /** Within a session an id never changes its meaning, and no type ever gets a second id. */
  lemma {:induction false} IdsNeverChange(caches: seq<seq<TypeDesc>>, types: seq<TypeDesc>, m: nat, n: nat)
    requires IsSession(caches, types) && m <= n <= |types|
    ensures caches[m] <= caches[n] && Distinct(caches[n])
    decreases n
  {
    if n > 0 {
      if m < n {
        IdsNeverChange(caches, types, m, n - 1);
      } else {
        IdsNeverChange(caches, types, n - 1, n - 1);
      }
      var before := caches[n - 1];
      assert caches[n - 1 + 1] == if types[n - 1] in before then before else before + [types[n - 1]];
      assert caches[n - 1] <= caches[n];
    }
  }

  // ---------------------------------------------------------------- announcing types

  datatype TypeDefs = TypeDefs(start: nat, types: seq<TypeDesc>)

  /** The room that some types take. */
  function TypesSize(types: seq<TypeDesc>, size: TypeDesc -> nat): (n: nat) {
    if types == [] then 0 else TypesSize(types[..|types| - 1], size) + size(types[|types| - 1])
  }

  /** Packets that announce the types from id on, each id exactly once and in order. */
  ghost predicate Announce(packets: seq<TypeDefs>, cache: seq<TypeDesc>, id: nat, end: nat)
    decreases |packets|
  {
    if packets == [] then id == end
    else
      var n := |packets| - 1;
      var p := packets[n];
      && id <= p.start <= end <= |cache| && p.start + |p.types| == end
      && p.types == cache[p.start..end]
      && Announce(packets[..n], cache, id, p.start)
  }

  /** A packet holds as many types from its first one on as fit into it: they fit, and the next one would not. */
  ghost predicate Maximal(p: TypeDefs, cache: seq<TypeDesc>, size: TypeDesc -> nat) {
    var next := p.start + |p.types|;
    && next <= |cache| && p.types == cache[p.start..next] && TypesSize(p.types, size) <= TYPEDEF_ROOM
    && (next < |cache| ==> TypesSize(p.types, size) + size(cache[next]) > TYPEDEF_ROOM)
  }

  /**
   send_typedef_updates. The loop of the source repeats a packet that can take no type for ever; here it ends then and
   reports it. It ends with everything announced exactly when every type fits into an empty packet. Every packet is
   filled as far as possible.
   */
  method SendTypedefs(cache: seq<TypeDesc>, size: TypeDesc -> nat, builtin: nat)
    returns (packets: seq<TypeDefs>, done: bool)
    requires builtin <= |cache| < U16
    ensures done <==> forall i :: builtin <= i < |cache| ==> size(cache[i]) <= TYPEDEF_ROOM
    ensures done ==> Announce(packets, cache, builtin, |cache|)
    ensures done ==> forall k :: 0 <= k < |packets| ==> packets[k].types != []
    ensures Follow(packets, cache, size, builtin)
  {
    hide Maximal, Follow;
    var id := builtin;
    packets, done := [], true;
    NoPackets(cache, size, builtin);
    while id < |cache| && done
      invariant builtin <= id <= |cache|
      invariant forall i :: builtin <= i < id ==> size(cache[i]) <= TYPEDEF_ROOM
      invariant done ==> Announce(packets, cache, builtin, id)
      invariant done ==> forall k :: 0 <= k < |packets| ==> packets[k].types != []
      invariant !done ==> id < |cache| && size(cache[id]) > TYPEDEF_ROOM
      invariant Follow(packets, cache, size, builtin)
      invariant id == if packets == [] then builtin else End(packets[|packets| - 1])
      decreases |cache| - id, done
    {
      var start := id;
      id := FillTypes(cache, size, start);
      done := id > start;
      ghost var before := packets;
      packets := packets + [TypeDefs(start, cache[start..id])];
      assert packets[..|before|] == before && End(packets[|before|]) == id;
      FollowStep(before, packets, cache, size, builtin);
    }
  }

  /** The inner loop: types go into an empty packet while they fit. */
  method FillTypes(cache: seq<TypeDesc>, size: TypeDesc -> nat, start: nat) returns (end: nat)
    requires start < |cache|
    ensures start <= end <= |cache| && Maximal(TypeDefs(start, cache[start..end]), cache, size)
    ensures end > start <==> size(cache[start]) <= TYPEDEF_ROOM
    ensures forall i :: start <= i < end ==> size(cache[i]) <= TYPEDEF_ROOM
  {
    var room := TYPEDEF_ROOM;
    end := start;
    assert cache[start..start] == [];
    while end < |cache| && size(cache[end]) <= room
      invariant start <= end <= |cache| && 0 <= room <= TYPEDEF_ROOM && (end == start ==> room == TYPEDEF_ROOM)
      invariant forall i :: start <= i < end ==> size(cache[i]) <= TYPEDEF_ROOM
      invariant TypesSize(cache[start..end], size) + room == TYPEDEF_ROOM
    {
      assert cache[start..end + 1][..end - start] == cache[start..end];
      room := room - size(cache[end]);
      end := end + 1;
    }
  }

  lemma NoPackets(cache: seq<TypeDesc>, size: TypeDesc -> nat, id: nat)
    ensures Follow([], cache, size, id)
  {
  }

  lemma FollowStep(before: seq<TypeDefs>, packets: seq<TypeDefs>, cache: seq<TypeDesc>, size: TypeDesc -> nat, id: nat)
    requires Follow(before, cache, size, id) && |packets| == |before| + 1 && packets[..|before|] == before
    requires var p := packets[|before|];
             p.start == (if before == [] then id else End(before[|before| - 1])) && Maximal(p, cache, size)
    ensures Follow(packets, cache, size, id)
  {
    hide Maximal;
    forall k: nat | k < |packets|
      ensures FollowAt(packets, cache, size, id, k)
    {
      if k < |before| {
        assert FollowAt(before, cache, size, id, k);
        assert packets[k] == packets[..|before|][k] == before[k];
      }
      if k > 0 {
        assert packets[k - 1] == packets[..|before|][k - 1] == before[k - 1];
      }
    }
  }

  function End(p: TypeDefs): (next: nat) {
    p.start + |p.types|
  }

  /** The first packet begins with this id, each other one where the one before it ends, and all are filled. */
  ghost predicate Follow(packets: seq<TypeDefs>, cache: seq<TypeDesc>, size: TypeDesc -> nat, id: nat) {
    forall k: nat :: k < |packets| ==> FollowAt(packets, cache, size, id, k)
  }

  ghost predicate FollowAt(packets: seq<TypeDefs>, cache: seq<TypeDesc>, size: TypeDesc -> nat, id: nat, k: nat)
    requires k < |packets|
  {
    packets[k].start == (if k == 0 then id else End(packets[k - 1])) && Maximal(packets[k], cache, size)
  }

  // ---------------------------------------------------------------- whether announcing ends

  /** The 16-bit id after a packet that starts with id and has room bytes left. */
  function IdAfterPacket(cache: seq<TypeDesc>, size: TypeDesc -> nat, id: nat, room: nat): (next: nat)
    requires forall t :: size(t) > 0
    decreases room
  {
    if id < |cache| && size(cache[id]) <= room then
      IdAfterPacket(cache, size, (id + 1) % U16, room - size(cache[id]))
    else id
  }

  /** The id when the outer loop of send_typedef_updates has come round n times. */
  function IdAfter(cache: seq<TypeDesc>, size: TypeDesc -> nat, builtin: nat, n: nat): (id: nat)
    requires forall t :: size(t) > 0
  {
    if n == 0 then builtin % U16
    else
      var id := IdAfter(cache, size, builtin, n - 1);
      if id < |cache| then IdAfterPacket(cache, size, id, TYPEDEF_ROOM) else id
  }

  lemma {:induction false} PacketAdvances(cache: seq<TypeDesc>, size: TypeDesc -> nat, id: nat, room: nat)
    requires (forall t :: size(t) > 0) && id <= |cache| < U16
    ensures var next := IdAfterPacket(cache, size, id, room);
            && id <= next <= |cache| && (forall i :: id <= i < next ==> size(cache[i]) <= room)
            && (next == id <==> id == |cache| || size(cache[id]) > room)
    decreases room
  {
    if id < |cache| && size(cache[id]) <= room {
      PacketAdvances(cache, size, id + 1, room - size(cache[id]));
    }
  }

  /** While everything fits, every round announces at least one type; nothing that does not fit is ever passed. */
  lemma {:induction false} RoundsAdvance(cache: seq<TypeDesc>, size: TypeDesc -> nat, builtin: nat, n: nat)
    requires (forall t :: size(t) > 0) && builtin <= |cache| < U16
    ensures var id := IdAfter(cache, size, builtin, n);
            && builtin <= id <= |cache| && (forall i :: builtin <= i < id ==> size(cache[i]) <= TYPEDEF_ROOM)
            && ((forall i :: builtin <= i < |cache| ==> size(cache[i]) <= TYPEDEF_ROOM) ==>
                  id == |cache| || id >= builtin + n)
  {
    if n > 0 {
      RoundsAdvance(cache, size, builtin, n - 1);
      PacketAdvances(cache, size, IdAfter(cache, size, builtin, n - 1), TYPEDEF_ROOM);
    }
  }

  lemma {:induction false} IdStaysShort(cache: seq<TypeDesc>, size: TypeDesc -> nat, id: nat, room: nat)
    requires (forall t :: size(t) > 0) && id < U16
    ensures IdAfterPacket(cache, size, id, room) < U16
    decreases room
  {
    if id < |cache| && size(cache[id]) <= room {
      IdStaysShort(cache, size, (id + 1) % U16, room - size(cache[id]));
    }
  }

  lemma {:induction false} RoundsStayShort(cache: seq<TypeDesc>, size: TypeDesc -> nat, builtin: nat, n: nat)
    requires forall t :: size(t) > 0
    ensures IdAfter(cache, size, builtin, n) < U16
  {
    if n > 0 {
      RoundsStayShort(cache, size, builtin, n - 1);
      IdStaysShort(cache, size, IdAfter(cache, size, builtin, n - 1), TYPEDEF_ROOM);
    }
  }

  /**
   Termination of send_typedef_updates: the loop ends after some number of packets exactly when there are fewer than
   65536 types and each of them, but for the built-in ones, fits into an empty packet.
   */
  lemma {:induction false} AnnouncingEndsIff(cache: seq<TypeDesc>, size: TypeDesc -> nat, builtin: nat)
    requires (forall t :: size(t) > 0) && builtin <= |cache| && builtin < U16
    ensures (exists n: nat :: IdAfter(cache, size, builtin, n) >= |cache|)
            <==> |cache| < U16 && forall i :: builtin <= i < |cache| ==> size(cache[i]) <= TYPEDEF_ROOM
  {
    if |cache| < U16 {
      RoundsAdvance(cache, size, builtin, |cache|);
      if n: nat :| IdAfter(cache, size, builtin, n) >= |cache| {
        RoundsAdvance(cache, size, builtin, n);
      }
    } else if n: nat :| IdAfter(cache, size, builtin, n) >= |cache| {
      RoundsStayShort(cache, size, builtin, n);
      assert false;
    }
  }

  lemma {:induction false} SizeConcat(a: seq<TypeDesc>, b: seq<TypeDesc>, size: TypeDesc -> nat)
    ensures TypesSize(a + b, size) == TypesSize(a, size) + TypesSize(b, size)
    decreases |b|
  {
    if b == [] {
      assert a + b == a;
    } else {
      assert (a + b)[..|a + b| - 1] == a + b[..|b| - 1];
      SizeConcat(a, b[..|b| - 1], size);
    }
  }

  lemma SizeOfOne(t: TypeDesc, size: TypeDesc -> nat)
    ensures TypesSize([t], size) == size(t)
  {
    var none: seq<TypeDesc> := [];
    assert [t][..0] == none;
  }

  /** A filled packet ends where the loop with the 16-bit id ends its packet. */
  lemma {:induction false} MaximalEnds(cache: seq<TypeDesc>, size: TypeDesc -> nat, id: nat, next: nat, room: nat)
    requires (forall t :: size(t) > 0) && id <= next <= |cache| < U16 && TypesSize(cache[id..next], size) <= room
    requires next < |cache| ==> TypesSize(cache[id..next], size) + size(cache[next]) > room
    ensures IdAfterPacket(cache, size, id, room) == next
    decreases next - id
  {
    if id < next {
      assert cache[id..next] == [cache[id]] + cache[id + 1..next];
      SizeConcat([cache[id]], cache[id + 1..next], size);
      SizeOfOne(cache[id], size);
      MaximalEnds(cache, size, id + 1, next, room - size(cache[id]));
    } else {
      assert cache[id..next] == [];
    }
  }

  /** Packet k of send_typedef_updates begins with the id that the loop has after k rounds. */
  lemma {:induction false} PacketsAreRounds(packets: seq<TypeDefs>, cache: seq<TypeDesc>, size: TypeDesc -> nat,
                                            builtin: nat, k: nat)
    requires (forall t :: size(t) > 0) && builtin <= |cache| < U16 && Follow(packets, cache, size, builtin)
    requires k < |packets|
    ensures packets[k].start == IdAfter(cache, size, builtin, k)
  {
    if k == 0 {
      assert FollowAt(packets, cache, size, builtin, 0);
    } else {
      PacketsAreRounds(packets, cache, size, builtin, k - 1);
      var p := packets[k - 1];
      assert FollowAt(packets, cache, size, builtin, k - 1) && FollowAt(packets, cache, size, builtin, k);
      MaximalEnds(cache, size, p.start, End(p), TYPEDEF_ROOM);
    }
  }

  // ---------------------------------------------------------------- the receiver's cache

  /** The slot of one announced type: a slot that is already filled is left alone. */
  function Put(slots: seq<Option<TypeDesc>>, index: nat, t: TypeDesc): (r: seq<Option<TypeDesc>>)
    ensures |r| >= |slots| && index < |r| && r[index].Some?
  {
    var s := if index < |slots| then slots else slots + seq(index + 1 - |slots|, _ => None);
    if s[index].Some? then s else s[index := Some(t)]
  }

  function PutAll(slots: seq<Option<TypeDesc>>, p: TypeDefs): seq<Option<TypeDesc>>
    decreases |p.types|
  {
    if p.types == [] then slots
    else
      var n := |p.types| - 1;
      Put(PutAll(slots, p.(types := p.types[..n])), (p.start + n) % U16, p.types[n])
  }

  /** The PVA_TYPEDEF_MESSAGE branch of receive_updates. */
  method ReceiveTypedefs(slots: seq<Option<TypeDesc>>, p: TypeDefs) returns (slots': seq<Option<TypeDesc>>)
    ensures slots' == PutAll(slots, p)
  {
    slots' := slots;
    for i := 0 to |p.types|
      invariant slots' == PutAll(slots, p.(types := p.types[..i]))
    {
      assert p.types[..i + 1][..i] == p.types[..i];
      var index := (p.start + i) % U16;
      if index >= |slots'| {
        slots' := slots' + seq(index + 1 - |slots'|, _ => None);
      }
      if slots'[index] == None {
        slots' := slots'[index := Some(p.types[i])];
      }
    }
    assert p.types[..|p.types|] == p.types;
  }

  /** Every slot is empty or holds the sender's type of that id. */
  ghost predicate Agrees(slots: seq<Option<TypeDesc>>, cache: seq<TypeDesc>) {
    forall i :: 0 <= i < |slots| && slots[i].Some? ==> i < |cache| && slots[i].value == cache[i]
  }

  /** A packet of the session: a stretch of the cache as it was when the packet was made. */
  ghost predicate FromSession(p: TypeDefs, cache: seq<TypeDesc>) {
    p.start + |p.types| <= |cache| && p.types == cache[p.start..p.start + |p.types|]
  }

  lemma PutAgrees(slots: seq<Option<TypeDesc>>, index: nat, cache: seq<TypeDesc>, i: nat)
    requires Agrees(slots, cache) && index < |cache|
    ensures var r := Put(slots, index, cache[index]);
            Agrees(r, cache) && (i < |slots| && slots[i].Some? ==> r[i] == slots[i])
  {
  }

  lemma {:induction false} PutAllAgrees(slots: seq<Option<TypeDesc>>, p: TypeDefs, cache: seq<TypeDesc>, i: nat)
    requires Agrees(slots, cache) && FromSession(p, cache) && |cache| < U16
    ensures var r := PutAll(slots, p);
            && Agrees(r, cache) && |r| >= |slots|
            && (i < |slots| && slots[i].Some? ==> r[i] == slots[i])
            && (p.start <= i < p.start + |p.types| ==> i < |r| && r[i].Some?)
    decreases |p.types|
  {
    hide Put, Agrees;
    if p.types != [] {
      var n := |p.types| - 1;
      var front := p.(types := p.types[..n]);
      assert front.types == cache[p.start..p.start + n];
      PutAllAgrees(slots, front, cache, i);
      assert (p.start + n) % U16 == p.start + n && p.types[n] == cache[p.start + n];
      PutAgrees(PutAll(slots, front), p.start + n, cache, i);
    }
  }

  lemma {:induction false} FilledStays(slots: seq<Option<TypeDesc>>, p: TypeDefs, i: nat)
    ensures var r := PutAll(slots, p);
            |r| >= |slots| && (i < |slots| && slots[i].Some? ==> r[i] == slots[i])
    decreases |p.types|
  {
    if p.types != [] {
      FilledStays(slots, p.(types := p.types[..|p.types| - 1]), i);
    }
  }

  predicate Filled(slots: seq<Option<TypeDesc>>, i: nat) {
    i < |slots| && slots[i].Some?
  }

  /** The slot of type k of a packet: ids have 16 bits. */
  function SlotOf(p: TypeDefs, k: nat): (i: nat) {
    (p.start + k) % 0x1_0000
  }

  lemma {:induction false} NotAnnounced(slots: seq<Option<TypeDesc>>, p: TypeDefs, i: nat)
    requires forall k: nat :: k < |p.types| ==> SlotOf(p, k) != i
    ensures var r := PutAll(slots, p);
            if i < |slots| then i < |r| && r[i] == slots[i] else !Filled(r, i)
    decreases |p.types|
  {
    if p.types != [] {
      var n := |p.types| - 1;
      var front := p.(types := p.types[..n]);
      assert forall k: nat :: SlotOf(front, k) == SlotOf(p, k);
      NotAnnounced(slots, front, i);
      assert SlotOf(p, n) != i;
    }
  }

  /** A packet of any sender: each of its types gets its slot if that was empty; NotAnnounced says the rest. */
  lemma {:induction false} EmptyIsFilled(slots: seq<Option<TypeDesc>>, p: TypeDefs, k: nat)
    requires k < |p.types| <= U16 && !Filled(slots, SlotOf(p, k))
    ensures var r := PutAll(slots, p);
            SlotOf(p, k) < |r| && r[SlotOf(p, k)] == Some(p.types[k])
    decreases |p.types|
  {
    hide Put;
    var n := |p.types| - 1;
    var front := p.(types := p.types[..n]);
    var before := PutAll(slots, front);
    if k == n {
      forall j: nat | j < n
        ensures SlotOf(front, j) != SlotOf(p, n)
      {
        assert (n - j) % U16 != 0;
      }
      NotAnnounced(slots, front, SlotOf(p, n));
    } else {
      EmptyIsFilled(slots, front, k);
    }
    PutOne(before, SlotOf(p, n), p.types[n], SlotOf(p, k));
  }

  lemma PutOne(slots: seq<Option<TypeDesc>>, index: nat, t: TypeDesc, i: nat)
    ensures var r := Put(slots, index, t);
            && (Filled(slots, i) ==> i < |r| && r[i] == slots[i])
            && (i == index && !Filled(slots, i) ==> i < |r| && r[i] == Some(t))
  {
  }

  lemma PacketAgreesIff(slots: seq<Option<TypeDesc>>, p: TypeDefs, cache: seq<TypeDesc>)
    requires FromSession(p, cache) && |cache| < U16
    ensures Agrees(PutAll(slots, p), cache) <==> Agrees(slots, cache)
  {
    hide PutAll, FromSession;
    var r := PutAll(slots, p);
    if Agrees(slots, cache) {
      PutAllAgrees(slots, p, cache, 0);
    } else if Agrees(r, cache) {
      forall i: nat | i < |slots| && slots[i].Some?
        ensures i < |cache| && slots[i].value == cache[i]
      {
        FilledStays(slots, p, i);
        assert r[i] == slots[i];
      }
      assert false;
    }
  }

  /** The receiver's cache while packets of a session arrive, in whatever state it was before. */
  ghost predicate IsTrace(slots: seq<seq<Option<TypeDesc>>>, packets: seq<TypeDefs>, cache: seq<TypeDesc>) {
    && |slots| == |packets| + 1 && |cache| < U16
    && forall k :: 0 <= k < |packets| ==> FromSession(packets[k], cache) && slots[k + 1] == PutAll(slots[k], packets[k])
  }

  /**
   Type cache agreement: after any loss, repetition and reordering of the packets of a session, no slot contradicts the
   sender exactly if none did when the session began. A receiver that starts with an empty cache always agrees; one that
   was filled by an earlier sender keeps what it has, since nothing is overwritten and nothing is cleared.
   */
  lemma {:induction false} AgreesIff(slots: seq<seq<Option<TypeDesc>>>, packets: seq<TypeDefs>, cache: seq<TypeDesc>,
                                     n: nat)
    requires IsTrace(slots, packets, cache) && n <= |packets|
    ensures Agrees(slots[n], cache) <==> Agrees(slots[0], cache)
  {
    if n > 0 {
      AgreesIff(slots, packets, cache, n - 1);
      assert slots[n - 1 + 1] == PutAll(slots[n - 1], packets[n - 1]);
      PacketAgreesIff(slots[n - 1], packets[n - 1], cache);
    }
  }

  /** Over a restart: the cache is right for the new session exactly if the types that the old one left in it are. */
  lemma RestartAgreesIff(former: seq<TypeDesc>, slots: seq<seq<Option<TypeDesc>>>, packets: seq<TypeDefs>,
                         cache: seq<TypeDesc>, n: nat)
    requires IsTrace(slots, packets, cache) && n <= |packets| && Agrees(slots[0], former)
    ensures Agrees(slots[n], cache)
            <==> forall i :: 0 <= i < |slots[0]| && slots[0][i].Some? ==> i < |cache| && former[i] == cache[i]
  {
    AgreesIff(slots, packets, cache, n);
  }

  /** A packet made earlier in the session is a packet of the cache as it is now. */
  lemma EarlierPacket(p: TypeDefs, earlier: seq<TypeDesc>, cache: seq<TypeDesc>)
    requires FromSession(p, earlier) && earlier <= cache
    ensures FromSession(p, cache)
  {
  }

  /** When all packets of send_typedef_updates arrive, in whatever order among others, every announced id is known. */
  lemma {:induction false} AnnouncedIsKnown(packets: seq<TypeDefs>, cache: seq<TypeDesc>, id: nat, end: nat, i: nat)
    returns (k: nat)
    requires Announce(packets, cache, id, end) && id <= i < end
    ensures k < |packets| && FromSession(packets[k], cache)
    ensures packets[k].start <= i < packets[k].start + |packets[k].types|
    decreases |packets|
  {
    var n := |packets| - 1;
    if i >= packets[n].start {
      k := n;
    } else {
      k := AnnouncedIsKnown(packets[..n], cache, id, packets[n].start, i);
    }
  }
}
