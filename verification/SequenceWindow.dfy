/**
 The 16-bit sequence window, in terms of the true, unbounded numbers of the messages: what it accepts through any
 number of wrap-arounds, and where it lets an old message pass.
 */
module SequenceWindow {
  import opened Bytes
  import opened Receiver

  /** How far a message may be from the last one processed for the window to tell new from old. */
  predicate Near(last: nat, next: nat) {
    last - 32769 <= next <= last + 32766
  }

  /** Within reach, the window accepts exactly what is not older than the last message processed. */
  lemma WindowExact(last: nat, next: nat)
    requires Near(last, next)
    ensures InWindow(next % U16, last % U16) <==> next >= last
  {
    assert (next % U16 - last % U16) % U16 == (next - last) % U16;
  }

  /** The reach is exact on both sides. */
  lemma WindowIsTight(last: nat)
    ensures !InWindow((last + 32767) % U16, last % U16)
    ensures last >= 32770 ==> InWindow((last - 32770) % U16, last % U16)
  {
    assert ((last + 32767) % U16 - last % U16) % U16 == 32767;
    if last >= 32770 {
      assert ((last - 32770) % U16 - last % U16) % U16 == 32766;
    }
  }

  /** Which messages of a trace are accepted; every one, accepted or not, is the last one for the next. */
  function Accepted(last: nat, arrivals: seq<nat>): (ok: seq<bool>)
    ensures |ok| == |arrivals|
    decreases |arrivals|
  {
    if arrivals == [] then []
    else [InWindow(arrivals[0] % U16, last)] + Accepted(arrivals[0] % U16, arrivals[1..])
  }

  /** This is what the receiver's order check does, message after message. */
  lemma {:induction false} AcceptedIsOrdered(st: State, arrivals: seq<nat>, i: nat) returns (before: State)
    requires i < |arrivals|
    ensures before == st.(lastSeq := if i == 0 then st.lastSeq else arrivals[i - 1] % U16)
    ensures Ordered(before, arrivals[i] % U16).1 == Accepted(st.lastSeq, arrivals)[i]
    decreases i
  {
    if i == 0 {
      before := st;
    } else {
      before := AcceptedIsOrdered(Ordered(st, arrivals[0] % U16).0, arrivals[1..], i - 1);
    }
  }

  /** Each pair of consecutive arrivals is within reach of each other. */
  ghost predicate Reachable(arrivals: seq<nat>) {
    forall i :: 0 < i < |arrivals| ==> Near(arrivals[i - 1], arrivals[i])
  }

  /** Through any number of wrap-arounds, a message is accepted exactly when it is not older than its predecessor. */
  lemma {:induction false} AcceptedExact(last: nat, arrivals: seq<nat>, i: nat)
    requires Reachable(arrivals) && 0 < i < |arrivals|
    ensures Accepted(last, arrivals)[i] <==> arrivals[i] >= arrivals[i - 1]
    decreases i
  {
    if i == 1 {
      WindowExact(arrivals[0], arrivals[1]);
    } else {
      forall j | 0 < j < |arrivals[1..]| ensures Near(arrivals[1..][j - 1], arrivals[1..][j]) {
        assert Near(arrivals[j + 1 - 1], arrivals[j + 1]);
      }
      AcceptedExact(arrivals[0] % U16, arrivals[1..], i - 1);
    }
  }

  /** So a stream in order, with gaps below 32767 messages, is accepted from its second message on. */
  lemma InOrderAccepted(last: nat, arrivals: seq<nat>)
    requires forall i :: 0 < i < |arrivals| ==> 0 <= arrivals[i] - arrivals[i - 1] < 32767
    ensures forall i :: 0 < i < |arrivals| ==> Accepted(last, arrivals)[i]
  {
    forall i | 0 < i < |arrivals| ensures Accepted(last, arrivals)[i] {
      AcceptedExact(last, arrivals, i);
    }
  }

  // ---------------------------------------------------------------- old messages

  function Newest(arrivals: seq<nat>): nat
    requires arrivals != []
  {
    if |arrivals| == 1 then arrivals[0]
    else
      var m := Newest(arrivals[..|arrivals| - 1]);
      if arrivals[|arrivals| - 1] > m then arrivals[|arrivals| - 1] else m
  }

  /** Message i is processed although a newer one arrived before it. */
  predicate Stale(last: nat, arrivals: seq<nat>, i: nat)
    requires 0 < i < |arrivals|
  {
    Accepted(last, arrivals)[i] && arrivals[i] < Newest(arrivals[..i])
  }

  /**
   Old messages are not always ignored. No old message is processed exactly when a late arrival is never followed at
   once by another one that is at least as new as itself but still late.
   */
  lemma NeverStaleIff(last: nat, arrivals: seq<nat>)
    requires Reachable(arrivals)
    ensures (forall i :: 0 < i < |arrivals| ==> !Stale(last, arrivals, i))
            <==> (forall i :: 0 < i < |arrivals| ==>
                    !(arrivals[i - 1] <= arrivals[i] < Newest(arrivals[..i])))
  {
    forall i | 0 < i < |arrivals|
      ensures Stale(last, arrivals, i) <==> arrivals[i - 1] <= arrivals[i] < Newest(arrivals[..i])
    {
      AcceptedExact(last, arrivals, i);
    }
  }

  /** For instance, a late message is rejected, but its successor, just as late, is then processed. */
  lemma LateThenNext(last: nat, n: nat, late: nat)
    requires 2 <= late <= 32769 && late <= n
    ensures var a := [n, n - late, n - late + 1];
            !Accepted(last, a)[1] && Accepted(last, a)[2] && a[2] < a[0]
  {
    var a := [n, n - late, n - late + 1];
    assert Near(a[0], a[1]) && Near(a[1], a[2]);
    AcceptedExact(last, a, 1);
    AcceptedExact(last, a, 2);
  }

  // ---------------------------------------------------------------- repeated messages

  /** Message i is processed although it has already arrived. */
  predicate Repeated(last: nat, arrivals: seq<nat>, i: nat)
    requires 0 < i < |arrivals|
  {
    Accepted(last, arrivals)[i] && arrivals[i] in arrivals[..i]
  }

  /** Message i has already arrived, and is not older than the one right before it. */
  predicate ComesAgain(arrivals: seq<nat>, i: nat)
    requires 0 < i < |arrivals|
  {
    arrivals[i - 1] <= arrivals[i] && arrivals[i] in arrivals[..i]
  }

  /** No message is processed twice exactly when none arrives again right behind itself or an older one. */
  lemma NeverRepeatedIff(last: nat, arrivals: seq<nat>)
    requires Reachable(arrivals)
    ensures (forall i :: 0 < i < |arrivals| ==> !Repeated(last, arrivals, i))
            <==> (forall i :: 0 < i < |arrivals| ==> !ComesAgain(arrivals, i))
  {
    forall i | 0 < i < |arrivals|
      ensures Repeated(last, arrivals, i) <==> ComesAgain(arrivals, i)
    {
      AcceptedExact(last, arrivals, i);
    }
  }

  /** A message that arrives twice in a row is processed twice, whatever was there before. */
  lemma ImmediateRepeat(last: nat, n: nat)
    ensures Repeated(last, [n, n], 1)
  {
    AcceptedExact(last, [n, n], 1);
  }

  lemma {:induction false} NewestIsNewest(arrivals: seq<nat>, i: nat)
    requires i < |arrivals|
    ensures arrivals[i] <= Newest(arrivals)
  {
    if i < |arrivals| - 1 {
      NewestIsNewest(arrivals[..|arrivals| - 1], i);
    }
  }

  /** The protocol: out-of-order and duplicate messages are ignored, all others are processed. */
  ghost predicate ByProtocol(last: nat, arrivals: seq<nat>) {
    forall i :: 0 < i < |arrivals| ==> (Accepted(last, arrivals)[i] <==> arrivals[i] > Newest(arrivals[..i]))
  }

  /** The order check follows the protocol exactly when no message that is not new comes behind one no newer. */
  lemma ByProtocolIff(last: nat, arrivals: seq<nat>)
    requires Reachable(arrivals)
    ensures ByProtocol(last, arrivals)
            <==> forall i :: 0 < i < |arrivals| ==> !(arrivals[i - 1] <= arrivals[i] <= Newest(arrivals[..i]))
  {
    forall i | 0 < i < |arrivals|
      ensures (Accepted(last, arrivals)[i] <==> arrivals[i] > Newest(arrivals[..i]))
              <==> !(arrivals[i - 1] <= arrivals[i] <= Newest(arrivals[..i]))
    {
      AcceptedExact(last, arrivals, i);
      NewestIsNewest(arrivals[..i], i - 1);
    }
  }
}
