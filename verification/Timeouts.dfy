/** Silence timeouts over whole runs of the receiver loop. */
module Timeouts {
  import opened Bytes
  import opened Protocol
  import opened Packing
  import opened Receiver
  import opened EndToEnd

  /** The part of the receiver that timeouts depend on. */
  datatype Watch = Watch(channels: seq<Channel>, now: int, lastHeartbeat: int)

  /** One pass of the loop: the accepted updates, in order, and the clock that is read after them. */
  datatype Pass = Pass(updates: seq<Item>, clock: int)

  ghost predicate PassFits(n: nat, p: Pass) {
    forall k :: 0 <= k < |p.updates| ==> p.updates[k].id < n
  }

  /** The channels when the check of a pass is made: updates carry the clock of the pass before. */
  function Before(w: Watch, p: Pass): (channels: seq<Channel>)
    requires forall k :: 0 <= k < |p.updates| ==> p.updates[k].id < |w.channels|
    ensures |channels| == |w.channels|
  {
    Touched(w.channels, p.updates, w.now)
  }

  function After(heartbeat: real, w: Watch, p: Pass): (w': Watch)
    requires forall k :: 0 <= k < |p.updates| ==> p.updates[k].id < |w.channels|
    ensures |w'.channels| == |w.channels|
  {
    if Elapsed(p.clock, w.lastHeartbeat, heartbeat) then
      Watch(Marked(Before(w, p), p.clock, heartbeat), p.clock, p.clock)
    else Watch(Before(w, p), p.clock, w.lastHeartbeat)
  }

  /** The pass reports channel c as disconnected because it was silent. */
  predicate Fires(heartbeat: real, w: Watch, p: Pass, c: nat)
    requires c < |w.channels| && forall k :: 0 <= k < |p.updates| ==> p.updates[k].id < |w.channels|
  {
    Elapsed(p.clock, w.lastHeartbeat, heartbeat) && Silent(Before(w, p)[c], p.clock, heartbeat)
  }

  /** Fires says what check_no_updates reports. */
  lemma {:induction false} FiresIsReported(channels: seq<Channel>, now: int, heartbeat: real, c: nat)
    ensures c in SilentIds(channels, now, heartbeat) <==> c < |channels| && Silent(channels[c], now, heartbeat)
  {
    if channels != [] {
      var n := |channels| - 1;
      FiresIsReported(channels[..n], now, heartbeat, c);
    }
  }

  /** Numbers below n, each once and in their order. */
  ghost predicate Ascending(ids: seq<nat>, n: nat) {
    && (forall i :: 0 <= i < |ids| ==> ids[i] < n)
    && forall i, j :: 0 <= i < j < |ids| ==> ids[i] < ids[j]
  }

  /** A check reports a channel once, and the channels in their order. */
  lemma {:induction false} ReportedOnce(channels: seq<Channel>, now: int, heartbeat: real)
    ensures Ascending(SilentIds(channels, now, heartbeat), |channels|)
  {
    if channels != [] {
      ReportedOnce(channels[..|channels| - 1], now, heartbeat);
    }
  }

  /** A run of the loop with a clock that never goes back; it starts where the receiver was created. */
  ghost predicate IsLoop(heartbeat: real, ws: seq<Watch>, ps: seq<Pass>) {
    && |ws| == |ps| + 1 && ws[0].now == 0 <= ws[0].lastHeartbeat
    && forall i: nat :: i < |ps| ==> LoopStep(heartbeat, ws, ps, i)
  }

  ghost predicate LoopStep(heartbeat: real, ws: seq<Watch>, ps: seq<Pass>, i: nat)
    requires |ws| == |ps| + 1 && i < |ps|
  {
    && PassFits(|ws[i].channels|, ps[i])
    && ps[i].clock >= ws[i].now && ps[i].clock >= ws[i].lastHeartbeat
    && ws[i + 1] == After(heartbeat, ws[i], ps[i])
  }

  ghost predicate Touches(p: Pass, c: nat) {
    exists k :: 0 <= k < |p.updates| && p.updates[k].id == c
  }

  // ---------------------------------------------------------------- one pass

  lemma {:induction false} TouchedChannel(channels: seq<Channel>, items: seq<Item>, now: int, c: nat)
    requires c < |channels| && forall k :: 0 <= k < |items| ==> items[k].id < |channels|
    ensures var r := Touched(channels, items, now)[c];
            if exists k :: 0 <= k < |items| && items[k].id == c then r.lastUpdate == now else r == channels[c]
    decreases |items|
  {
    if items != [] {
      var ch := channels[items[0].id := Channel(items[0].count == MINUS_ONE_16, now)];
      TouchedChannel(ch, items[1..], now, c);
      if exists k :: 0 <= k < |items[1..]| && items[1..][k].id == c {
        var k :| 0 <= k < |items[1..]| && items[1..][k].id == c;
        assert items[k + 1].id == c;
      }
      if k :| 0 <= k < |items| && items[k].id == c && k > 0 {
        assert items[1..][k - 1].id == c;
      }
    }
  }

  lemma PassChannel(heartbeat: real, w: Watch, p: Pass, c: nat)
    requires PassFits(|w.channels|, p) && c < |w.channels|
    ensures var b, a := Before(w, p)[c], After(heartbeat, w, p).channels[c];
            && (if Touches(p, c) then b.lastUpdate == w.now else b == w.channels[c])
            && a == (if Fires(heartbeat, w, p, c) then b.(disconnected := true) else b)
  {
    TouchedChannel(w.channels, p.updates, w.now, c);
  }

  lemma {:induction false} SameCount(heartbeat: real, ws: seq<Watch>, ps: seq<Pass>, i: nat)
    requires IsLoop(heartbeat, ws, ps) && i <= |ps|
    ensures |ws[i].channels| == |ws[0].channels|
    ensures i > 0 ==> ws[i].lastHeartbeat <= ws[i].now
  {
    if i > 0 {
      SameCount(heartbeat, ws, ps, i - 1);
      assert LoopStep(heartbeat, ws, ps, i - 1);
    }
  }

  // ---------------------------------------------------------------- whole runs

  /** Channel c is updated in pass j and in no later pass up to m. */
  ghost predicate LastTouched(ps: seq<Pass>, c: nat, j: nat, m: nat)
    requires j <= m < |ps|
  {
    Touches(ps[j], c) && forall i :: j < i <= m ==> !Touches(ps[i], c)
  }

  lemma {:induction false} StampAt(heartbeat: real, ws: seq<Watch>, ps: seq<Pass>, c: nat, j: nat, m: nat)
    requires IsLoop(heartbeat, ws, ps) && j <= m < |ps| && c < |ws[0].channels| && LastTouched(ps, c, j, m)
    ensures c < |ws[m].channels| && PassFits(|ws[m].channels|, ps[m])
    ensures Before(ws[m], ps[m])[c].lastUpdate == ws[j].now
    decreases m
  {
    SameCount(heartbeat, ws, ps, m);
    assert LoopStep(heartbeat, ws, ps, m);
    PassChannel(heartbeat, ws[m], ps[m], c);
    if m > j {
      StampAt(heartbeat, ws, ps, c, j, m - 1);
      assert LoopStep(heartbeat, ws, ps, m - 1);
      PassChannel(heartbeat, ws[m - 1], ps[m - 1], c);
    }
  }

  /** A timeout fires only when the loop clock shows two heartbeats since the last accepted update. */
  lemma FiresOnlyAfterSilence(heartbeat: real, ws: seq<Watch>, ps: seq<Pass>, c: nat, j: nat, m: nat)
    requires IsLoop(heartbeat, ws, ps) && j <= m < |ps| && c < |ws[0].channels| && LastTouched(ps, c, j, m)
    requires c < |ws[m].channels| && PassFits(|ws[m].channels|, ps[m]) && Fires(heartbeat, ws[m], ps[m], c)
    ensures (ps[m].clock - ws[j].now) as real >= 2.0 * heartbeat * NS_PER_SECOND as real
  {
    StampAt(heartbeat, ws, ps, c, j, m);
    ClockMonotone(heartbeat, ws, ps, j, m);
    assert LoopStep(heartbeat, ws, ps, j);
    var d := ps[m].clock - ws[j].now;
    assert d >= (d / NS_PER_SECOND) * NS_PER_SECOND;
    assert (d / NS_PER_SECOND) as real >= 2.0 * heartbeat;
    RealScale((d / NS_PER_SECOND) as real, 2.0 * heartbeat, NS_PER_SECOND as real);
  }

  lemma RealScale(a: real, b: real, k: real)
    requires a >= b && k >= 0.0
    ensures a * k >= b * k
  {
  }

  /** As long as the clock shows less than that since some update, no timeout fires. */
  lemma NotWhileFresh(heartbeat: real, ws: seq<Watch>, ps: seq<Pass>, c: nat, j: nat, m: nat)
    requires IsLoop(heartbeat, ws, ps) && j <= m < |ps| && c < |ws[0].channels| && Touches(ps[j], c)
    requires (ps[m].clock - ws[j].now) as real < 2.0 * heartbeat * NS_PER_SECOND as real
    ensures c < |ws[m].channels| && PassFits(|ws[m].channels|, ps[m]) && !Fires(heartbeat, ws[m], ps[m], c)
  {
    hide Fires;
    SameCount(heartbeat, ws, ps, m);
    assert LoopStep(heartbeat, ws, ps, m);
    if Fires(heartbeat, ws[m], ps[m], c) {
      var last := LastTouch(ps, c, j, m);
      FiresOnlyAfterSilence(heartbeat, ws, ps, c, last, m);
      NowMonotone(heartbeat, ws, ps, j, last);
    }
  }

  lemma {:induction false} LastTouch(ps: seq<Pass>, c: nat, j: nat, m: nat) returns (last: nat)
    requires j <= m < |ps| && Touches(ps[j], c)
    ensures j <= last <= m && LastTouched(ps, c, last, m)
    decreases m
  {
    hide Touches;
    if Touches(ps[m], c) {
      last := m;
    } else {
      last := LastTouch(ps, c, j, m - 1);
    }
  }

  lemma {:induction false} NowMonotone(heartbeat: real, ws: seq<Watch>, ps: seq<Pass>, i: nat, j: nat)
    requires IsLoop(heartbeat, ws, ps) && i <= j <= |ps|
    ensures ws[i].now <= ws[j].now
    decreases j
  {
    if i < j {
      NowMonotone(heartbeat, ws, ps, i, j - 1);
      assert LoopStep(heartbeat, ws, ps, j - 1);
    }
  }

  /** A channel is never reported twice without an accepted update in between. */
  lemma {:induction false} StaysReported(heartbeat: real, ws: seq<Watch>, ps: seq<Pass>, c: nat, i: nat, m: nat)
    requires IsLoop(heartbeat, ws, ps) && i < m <= |ps| && c < |ws[0].channels|
    requires c < |ws[i].channels| && PassFits(|ws[i].channels|, ps[i]) && Fires(heartbeat, ws[i], ps[i], c)
    requires forall k :: i < k < m ==> !Touches(ps[k], c)
    ensures c < |ws[m].channels| && ws[m].channels[c].disconnected
    decreases m
  {
    SameCount(heartbeat, ws, ps, m);
    SameCount(heartbeat, ws, ps, m - 1);
    assert LoopStep(heartbeat, ws, ps, m - 1);
    PassChannel(heartbeat, ws[m - 1], ps[m - 1], c);
    if m - 1 > i {
      StaysReported(heartbeat, ws, ps, c, i, m - 1);
    }
  }

  lemma NeverTwice(heartbeat: real, ws: seq<Watch>, ps: seq<Pass>, c: nat, i: nat, m: nat)
    requires IsLoop(heartbeat, ws, ps) && i < m < |ps| && c < |ws[0].channels|
    requires c < |ws[i].channels| && PassFits(|ws[i].channels|, ps[i]) && Fires(heartbeat, ws[i], ps[i], c)
    requires c < |ws[m].channels| && PassFits(|ws[m].channels|, ps[m]) && Fires(heartbeat, ws[m], ps[m], c)
    ensures exists k :: i < k <= m && Touches(ps[k], c)
  {
    if forall k :: i < k <= m ==> !Touches(ps[k], c) {
      StaysReported(heartbeat, ws, ps, c, i, m);
      PassChannel(heartbeat, ws[m], ps[m], c);
    }
  }

  // ---------------------------------------------------------------- no later than

  /** Seconds that are not over do not count, whichever way the clock went. */
  lemma SecsTruncates(d: int)
    ensures d >= 0 ==> Secs(d) * NS_PER_SECOND <= d < (Secs(d) + 1) * NS_PER_SECOND
    ensures d <= 0 ==> (Secs(d) - 1) * NS_PER_SECOND < d <= Secs(d) * NS_PER_SECOND
  {
  }

  function Ceil(r: real): int {
    if r.Floor as real == r then r.Floor else r.Floor + 1
  }

  lemma ElapsedExact(now: int, since: int, period: real)
    requires now >= since
    ensures Elapsed(now, since, period) <==> now - since >= Ceil(period) * NS_PER_SECOND
  {
    var d := now - since;
    var s := d / NS_PER_SECOND;
    assert s as real >= period <==> s >= Ceil(period);
  }

  /** Until it fires, the last heartbeat check was made too early to notice the silence. */
  lemma {:induction false} NotYetFired(heartbeat: real, ws: seq<Watch>, ps: seq<Pass>, c: nat, j: nat, m: nat)
    requires IsLoop(heartbeat, ws, ps) && 0 < j <= m < |ps| && c < |ws[0].channels| && LastTouched(ps, c, j, m)
    requires c < |ws[j].channels| && PassFits(|ws[j].channels|, ps[j]) && !Before(ws[j], ps[j])[c].disconnected
    requires forall i: nat :: j <= i <= m ==>
               c < |ws[i].channels| && PassFits(|ws[i].channels|, ps[i]) && !Fires(heartbeat, ws[i], ps[i], c)
    requires Ceil(2.0 * heartbeat) > 0
    ensures c < |ws[m + 1].channels| && !ws[m + 1].channels[c].disconnected
    ensures ws[m + 1].lastHeartbeat < ws[j].now + Ceil(2.0 * heartbeat) * NS_PER_SECOND
    ensures ws[j].now <= ws[m].now
    decreases m
  {
    SameCount(heartbeat, ws, ps, m);
    SameCount(heartbeat, ws, ps, m + 1);
    assert LoopStep(heartbeat, ws, ps, m);
    PassChannel(heartbeat, ws[m], ps[m], c);
    StampAt(heartbeat, ws, ps, c, j, m);
    if m > j {
      NotYetFired(heartbeat, ws, ps, c, j, m - 1);
      assert LoopStep(heartbeat, ws, ps, m - 1);
    }
    ElapsedExact(ps[m].clock, ws[j].now, 2.0 * heartbeat);
  }

  /**
   Timeouts come in time: from the second pass on, a channel that was updated in pass j and then falls silent is
   reported by the first pass whose clock is ceil(2h) + ceil(h) seconds past the clock of that update, or before; with
   passes at most gap apart this is no later than ceil(2h) + ceil(h) + gap.
   */
  lemma FiresInTime(heartbeat: real, ws: seq<Watch>, ps: seq<Pass>, c: nat, j: nat, m: nat, gap: int)
    requires IsLoop(heartbeat, ws, ps) && 0 < j < m < |ps| && c < |ws[0].channels| && LastTouched(ps, c, j, m)
    requires c < |ws[j].channels| && PassFits(|ws[j].channels|, ps[j]) && !Before(ws[j], ps[j])[c].disconnected
    requires heartbeat > 0.0
    requires var late := ws[j].now + (Ceil(2.0 * heartbeat) + Ceil(heartbeat)) * NS_PER_SECOND;
             ps[m - 1].clock < late <= ps[m].clock <= ps[m - 1].clock + gap
    ensures exists i: nat ::
              && j <= i <= m && c < |ws[i].channels| && PassFits(|ws[i].channels|, ps[i])
              && Fires(heartbeat, ws[i], ps[i], c)
              && ps[i].clock < ws[j].now + (Ceil(2.0 * heartbeat) + Ceil(heartbeat)) * NS_PER_SECOND + gap
  {
    hide Fires, Before, Elapsed, Silent;
    forall i: nat | j <= i <= m ensures c < |ws[i].channels| && PassFits(|ws[i].channels|, ps[i]) {
      SameCount(heartbeat, ws, ps, i);
      assert LoopStep(heartbeat, ws, ps, i);
    }
    if i: nat :| j <= i < m && Fires(heartbeat, ws[i], ps[i], c) {
      ClockMonotone(heartbeat, ws, ps, i, m - 1);
    } else {
      NotYetFired(heartbeat, ws, ps, c, j, m - 1);
      LastFires(heartbeat, ws, ps, c, j, m);
    }
  }

  lemma {:induction false} ClockMonotone(heartbeat: real, ws: seq<Watch>, ps: seq<Pass>, i: nat, m: nat)
    requires IsLoop(heartbeat, ws, ps) && i <= m < |ps|
    ensures ps[i].clock <= ps[m].clock
    decreases m
  {
    if i < m {
      ClockMonotone(heartbeat, ws, ps, i, m - 1);
      assert LoopStep(heartbeat, ws, ps, m - 1) && LoopStep(heartbeat, ws, ps, m);
    }
  }

  lemma LastFires(heartbeat: real, ws: seq<Watch>, ps: seq<Pass>, c: nat, j: nat, m: nat)
    requires IsLoop(heartbeat, ws, ps) && 0 < j < m < |ps| && c < |ws[0].channels| && LastTouched(ps, c, j, m)
    requires c < |ws[m].channels| && !ws[m].channels[c].disconnected && PassFits(|ws[m].channels|, ps[m])
    requires ws[m].lastHeartbeat < ws[j].now + Ceil(2.0 * heartbeat) * NS_PER_SECOND
    requires ps[m].clock >= ws[j].now + (Ceil(2.0 * heartbeat) + Ceil(heartbeat)) * NS_PER_SECOND
    requires heartbeat > 0.0
    ensures Fires(heartbeat, ws[m], ps[m], c)
  {
    assert LoopStep(heartbeat, ws, ps, m);
    StampAt(heartbeat, ws, ps, c, j, m);
    PassChannel(heartbeat, ws[m], ps[m], c);
    ElapsedExact(ps[m].clock, ws[m].lastHeartbeat, heartbeat);
    ElapsedExact(ps[m].clock, ws[j].now, 2.0 * heartbeat);
  }

  // ---------------------------------------------------------------- fragments

  // ---------------------------------------------------------------- channels without updates in data messages

  /** The check of pass i is made, and finds no update for two heartbeats after the stamp of the channel at pass s. */
  ghost predicate Due(heartbeat: real, ws: seq<Watch>, ps: seq<Pass>, c: nat, s: nat, i: nat)
    requires s < |ws| && c < |ws[s].channels| && i < |ps| < |ws|
  {
    && Elapsed(ps[i].clock, ws[i].lastHeartbeat, heartbeat)
    && Elapsed(ps[i].clock, ws[s].channels[c].lastUpdate, 2.0 * heartbeat)
  }

  lemma {:induction false} UntouchedState(heartbeat: real, ws: seq<Watch>, ps: seq<Pass>, c: nat, s: nat, m: nat)
    requires IsLoop(heartbeat, ws, ps) && s <= m <= |ps| && c < |ws[s].channels| && !ws[s].channels[c].disconnected
    requires forall i: nat :: s <= i < m ==> !Touches(ps[i], c)
    ensures c < |ws[m].channels|
    ensures ws[m].channels[c]
         == ws[s].channels[c].(disconnected := exists i: nat :: s <= i < m && Due(heartbeat, ws, ps, c, s, i))
    decreases m
  {
    if m > s {
      var n := m - 1;
      UntouchedState(heartbeat, ws, ps, c, s, n);
      SameCount(heartbeat, ws, ps, n);
      SameCount(heartbeat, ws, ps, s);
      assert LoopStep(heartbeat, ws, ps, n);
      PassChannel(heartbeat, ws[n], ps[n], c);
      assert Fires(heartbeat, ws[n], ps[n], c) <==>
             Due(heartbeat, ws, ps, c, s, n) && !ws[n].channels[c].disconnected;
    }
  }

  /**
   A channel that no data message updates from pass s on is reported by one pass only, the first one whose check is
   made two heartbeats after the stamp that the channel had before. Fragments make no difference: a channel whose
   updates all come as fragments is reported however alive it is, and if it falls silent later, that is never reported.
   */
  lemma UntouchedFiresIff(heartbeat: real, ws: seq<Watch>, ps: seq<Pass>, c: nat, s: nat, m: nat)
    requires IsLoop(heartbeat, ws, ps) && s <= m < |ps| && c < |ws[s].channels| && !ws[s].channels[c].disconnected
    requires forall i: nat :: s <= i <= m ==> !Touches(ps[i], c)
    ensures c < |ws[m].channels| && PassFits(|ws[m].channels|, ps[m])
    ensures Fires(heartbeat, ws[m], ps[m], c)
            <==> && Due(heartbeat, ws, ps, c, s, m)
                 && forall i: nat :: s <= i < m ==> !Due(heartbeat, ws, ps, c, s, i)
  {
    UntouchedState(heartbeat, ws, ps, c, s, m);
    assert LoopStep(heartbeat, ws, ps, m);
    PassChannel(heartbeat, ws[m], ps[m], c);
  }

  /** Fragments, complete or not, leave all channels as silent as they were. */
  lemma FragmentsDoNotCount(cfg: Config, st: State, mem: seq<Byte>, startup: nat, f: FragInfo, data: seq<Byte>)
    requires FragFits(f) && |data| == f.size && st.startup <= startup < U64 && cfg.hash < U64
    requires var p := FragPacket(HeaderBytes(startup, cfg.hash), f, data);
             |p| <= |mem| && |p| < U64 && mem[..|p|] == p
    ensures Receive(cfg, st, mem, |FragPacket(HeaderBytes(startup, cfg.hash), f, data)|).st.channels == st.channels
  {
    hide Receive, FragPacket, HeaderBytes;
    FragmentArrives(cfg, st, mem, startup, f, data);
  }
}
