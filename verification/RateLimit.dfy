/** The rate limit of the UDP transport, in nanoseconds of its steady clock. */
module RateLimit {

  const NS_PER_US: nat := 1000

  /** What one sendto did: it failed, or it took that many bytes; spent is the time it took. */
  datatype Attempt = Failed(spent: nat) | Sent(bytes: nat, spent: nat)

  /** One call of send: the time before it, how much longer than asked it slept, one attempt for each destination. */
  datatype Call = Call(idle: nat, overslept: nat, attempts: seq<Attempt>)

  /** The bytes and the time of the last successful sendto, and the clock. */
  datatype Meter = Meter(lastBytes: nat, lastTime: nat, clock: nat)

  predicate Sane(m: Meter) { m.lastTime <= m.clock }

  /** How long send sleeps, in microseconds; a limit of zero is no limit. */
  function SleepUs(rate: nat, lastBytes: nat, elapsed: nat): (us: nat) {
    if rate == 0 || lastBytes / rate <= elapsed / NS_PER_US then 0
    else lastBytes / rate - elapsed / NS_PER_US
  }

  /** The meter after the attempts, made in the order of the destinations. */
  function Attempted(m: Meter, attempts: seq<Attempt>): (m': Meter)
    ensures m.clock <= m'.clock && (Sane(m) ==> Sane(m'))
  {
    if attempts == [] then m
    else
      var before := Attempted(m, attempts[..|attempts| - 1]);
      match attempts[|attempts| - 1]
      case Failed(spent) => before.(clock := before.clock + spent)
      case Sent(bytes, spent) => Meter(bytes, before.clock + spent, before.clock + spent)
  }

  /** The clock when the first sendto of a call is made. */
  function Awake(rate: nat, m: Meter, c: Call): (t: nat)
    requires Sane(m)
    ensures t >= m.clock
  {
    m.clock + c.idle + NS_PER_US * SleepUs(rate, m.lastBytes, m.clock + c.idle - m.lastTime) + c.overslept
  }

  function After(rate: nat, m: Meter, c: Call): (m': Meter)
    requires Sane(m)
    ensures Sane(m')
  {
    Attempted(m.(clock := Awake(rate, m, c)), c.attempts)
  }

  predicate Succeeds(c: Call) {
    exists k :: 0 <= k < |c.attempts| && c.attempts[k].Sent?
  }

  /** The bytes that all destinations were sent. */
  function Volume(attempts: seq<Attempt>): (n: nat) {
    if attempts == [] then 0
    else Volume(attempts[..|attempts| - 1])
         + (match attempts[|attempts| - 1] case Failed(_) => 0 case Sent(bytes, _) => bytes)
  }

  /** A datagram is taken whole or not at all, so all the destinations of a call get as many bytes. */
  predicate WholeDatagrams(c: Call) {
    forall i, j :: 0 <= i < j < |c.attempts| && c.attempts[i].Sent? && c.attempts[j].Sent?
                   ==> c.attempts[i].bytes == c.attempts[j].bytes
  }

  function TotalBytes(cs: seq<Call>): (n: nat) {
    if cs == [] then 0 else TotalBytes(cs[..|cs| - 1]) + Volume(cs[|cs| - 1].attempts)
  }

  function Successes(cs: seq<Call>): (n: nat) {
    if cs == [] then 0 else Successes(cs[..|cs| - 1]) + (if Succeeds(cs[|cs| - 1]) then 1 else 0)
  }

  /** A run of a sender with at most k destinations. */
  ghost predicate IsRun(rate: nat, k: nat, ms: seq<Meter>, cs: seq<Call>) {
    && |ms| == |cs| + 1 && Sane(ms[0])
    && (forall i: nat :: i < |cs| ==> |cs[i].attempts| <= k && WholeDatagrams(cs[i]))
    && (forall i: nat :: i < |cs| ==> Sane(ms[i]) && ms[i + 1] == After(rate, ms[i], cs[i]))
  }

  // ------------------------------------------------------------------ one call

  /** The sleep is the shortest whole number of microseconds after which the period of the last datagram is over. */
  lemma SleepIsLeast(rate: nat, lastBytes: nat, elapsed: nat, us: nat)
    requires rate > 0
    ensures us >= SleepUs(rate, lastBytes, elapsed) <==> elapsed + NS_PER_US * us >= NS_PER_US * (lastBytes / rate)
  {
    var e, p := elapsed / NS_PER_US, lastBytes / rate;
    assert elapsed == NS_PER_US * e + elapsed % NS_PER_US;
  }

  /**
   The first sendto of a call is made after the least whole number of microseconds at which the period of the last
   datagram is over, and at once if it is over when the call is made or if there is no limit.
   */
  lemma AwakeExact(rate: nat, m: Meter, c: Call)
    requires Sane(m)
    ensures var now, awake := m.clock + c.idle, Awake(rate, m, c) - c.overslept;
            && (rate == 0 ==> awake == now)
            && (rate > 0 && now - m.lastTime >= NS_PER_US * (m.lastBytes / rate) ==> awake == now)
            && (rate > 0 ==> awake - m.lastTime >= NS_PER_US * (m.lastBytes / rate))
            && (rate > 0 && awake > now ==> awake - NS_PER_US - m.lastTime < NS_PER_US * (m.lastBytes / rate))
            && (awake - now) % NS_PER_US == 0
  {
    if rate > 0 {
      var elapsed := m.clock + c.idle - m.lastTime;
      var us := SleepUs(rate, m.lastBytes, elapsed);
      SleepIsLeast(rate, m.lastBytes, elapsed, us);
      SleepIsLeast(rate, m.lastBytes, elapsed, 0);
      if us > 0 {
        SleepIsLeast(rate, m.lastBytes, elapsed, us - 1);
      }
    }
  }

  /** The time that the attempts take. */
  function Spent(attempts: seq<Attempt>): (t: nat) {
    if attempts == [] then 0 else attempts[0].spent + Spent(attempts[1..])
  }

  lemma {:induction false} SpentOneMore(attempts: seq<Attempt>, a: Attempt)
    ensures Spent(attempts + [a]) == Spent(attempts) + a.spent
  {
    if attempts != [] {
      SpentOneMore(attempts[1..], a);
      assert (attempts + [a])[1..] == attempts[1..] + [a];
    }
  }

  /** The meter keeps the bytes of attempt k, and the clock after it. */
  ghost predicate KeptFrom(m: Meter, attempts: seq<Attempt>, m': Meter, k: nat) {
    && k < |attempts| && attempts[k].Sent? && m'.lastBytes == attempts[k].bytes
    && m'.lastTime == m.clock + Spent(attempts[..k + 1])
    && forall j :: k < j < |attempts| ==> attempts[j].Failed?
  }

  /** The meter keeps the last sendto that succeeded. */
  lemma {:induction false} AttemptsExact(m: Meter, attempts: seq<Attempt>)
    ensures var m' := Attempted(m, attempts);
            && m'.clock == m.clock + Spent(attempts)
            && if exists k :: 0 <= k < |attempts| && attempts[k].Sent? then exists k :: KeptFrom(m, attempts, m', k)
               else m'.lastBytes == m.lastBytes && m'.lastTime == m.lastTime && Volume(attempts) == 0
  {
    if attempts != [] {
      var n := |attempts| - 1;
      var front, m' := attempts[..n], Attempted(m, attempts);
      AttemptsExact(m, front);
      SpentOneMore(front, attempts[n]);
      assert front + [attempts[n]] == attempts == attempts[..n + 1];
      if attempts[n].Sent? {
        assert KeptFrom(m, attempts, m', n);
      } else if k :| 0 <= k < |attempts| && attempts[k].Sent? {
        assert front[k].Sent?;
        var last :| KeptFrom(m, front, Attempted(m, front), last);
        assert front[..last + 1] == attempts[..last + 1];
        assert KeptFrom(m, attempts, m', last);
      }
    }
  }

  lemma {:induction false} VolumeBound(attempts: seq<Attempt>, bytes: nat)
    requires forall i :: 0 <= i < |attempts| && attempts[i].Sent? ==> attempts[i].bytes == bytes
    ensures Volume(attempts) <= |attempts| * bytes
  {
    if attempts != [] {
      VolumeBound(attempts[..|attempts| - 1], bytes);
    }
  }

  /** The destinations of a successful call got at most k times what the meter keeps of it. */
  lemma CallVolume(rate: nat, m: Meter, c: Call, k: nat)
    requires Sane(m) && |c.attempts| <= k && WholeDatagrams(c)
    ensures Volume(c.attempts) <= if Succeeds(c) then k * After(rate, m, c).lastBytes else 0
  {
    AttemptsExact(m.(clock := Awake(rate, m, c)), c.attempts);
    if Succeeds(c) {
      var bytes := After(rate, m, c).lastBytes;
      forall i | 0 <= i < |c.attempts| && c.attempts[i].Sent?
        ensures c.attempts[i].bytes == bytes
      {
      }
      VolumeBound(c.attempts, bytes);
      Scale(|c.attempts|, k, bytes);
    }
  }

  lemma Scale(a: nat, b: nat, x: nat)
    requires a <= b
    ensures a * x <= b * x
  {
  }

  /** A successful call pays for the datagram before it, but for less than one microsecond. */
  lemma CallPays(rate: nat, m: Meter, c: Call)
    requires rate > 0 && Sane(m) && Succeeds(c)
    ensures rate * (After(rate, m, c).lastTime - m.lastTime) + NS_PER_US * (rate - 1) >= NS_PER_US * m.lastBytes
  {
    var awake := Awake(rate, m, c);
    var elapsed := m.clock + c.idle - m.lastTime;
    SleepIsLeast(rate, m.lastBytes, elapsed, SleepUs(rate, m.lastBytes, elapsed));
    AttemptsExact(m.(clock := awake), c.attempts);
    PeriodPays(rate, m.lastBytes, After(rate, m, c).lastTime - m.lastTime);
  }

  lemma PeriodPays(rate: nat, bytes: nat, gap: nat)
    requires rate > 0 && gap >= NS_PER_US * (bytes / rate)
    ensures rate * gap + NS_PER_US * (rate - 1) >= NS_PER_US * bytes
  {
    var p := bytes / rate;
    assert bytes == rate * p + bytes % rate;
    Scale(NS_PER_US * p, gap, rate);
    assert NS_PER_US * p * rate == NS_PER_US * (rate * p);
  }

  // ------------------------------------------------------------------ whole runs

  lemma RunPrefix(rate: nat, k: nat, ms: seq<Meter>, cs: seq<Call>)
    requires IsRun(rate, k, ms, cs) && cs != []
    ensures IsRun(rate, k, ms[..|cs|], cs[..|cs| - 1])
  {
  }

  /** Credit and debt of one call: k * x on both sides. */
  lemma Pays(k: nat, rate: nat, gap: nat, bytes: nat)
    requires rate > 0 && rate * gap + NS_PER_US * (rate - 1) >= NS_PER_US * bytes
    ensures k * (rate * gap) + NS_PER_US * (k * (rate - 1)) >= NS_PER_US * (k * bytes)
  {
    Scale(NS_PER_US * bytes, rate * gap + NS_PER_US * (rate - 1), k);
  }

  /** k destinations together were sent `total` bytes in n calls; the last of them is not paid for yet. */
  predicate Paid(rate: nat, k: nat, first: Meter, last: Meter, total: nat, n: nat) {
    && rate > 0 && first.lastTime <= last.lastTime
    && NS_PER_US * (k * first.lastBytes + total)
       <= k * (rate * (last.lastTime - first.lastTime)) + NS_PER_US * (n * (k * (rate - 1)))
          + NS_PER_US * (k * last.lastBytes)
  }

  lemma Distribute(a: int, x: int, y: int)
    ensures a * (x + y) == a * x + a * y && (x + y) * a == x * a + y * a
  {
  }

  lemma PaidTwice(rate: nat, k: nat, m0: Meter, m1: Meter, m2: Meter, total: nat, n: nat, total': nat, n': nat)
    requires Paid(rate, k, m0, m1, total, n) && Paid(rate, k, m1, m2, total', n')
    ensures Paid(rate, k, m0, m2, total + total', n + n')
  {
    var t0, t1, t2, a := m0.lastTime, m1.lastTime, m2.lastTime, k * (rate - 1);
    Distribute(rate, t2 - t1, t1 - t0);
    Distribute(k, rate * (t2 - t1), rate * (t1 - t0));
    Distribute(a, n, n');
  }

  lemma {:induction false} RunPays(rate: nat, k: nat, ms: seq<Meter>, cs: seq<Call>)
    requires rate > 0 && IsRun(rate, k, ms, cs)
    ensures Paid(rate, k, ms[0], ms[|cs|], TotalBytes(cs), Successes(cs))
    decreases |cs|
  {
    if cs != [] {
      hide Paid;
      var n := |cs| - 1;
      RunPrefix(rate, k, ms, cs);
      RunPays(rate, k, ms[..|cs|], cs[..n]);
      CreditStep(rate, k, ms[n], cs[n]);
      PaidTwice(rate, k, ms[0], ms[n], ms[n + 1], TotalBytes(cs[..n]), Successes(cs[..n]),
                Volume(cs[n].attempts), if Succeeds(cs[n]) then 1 else 0);
    }
  }

  lemma CreditStep(rate: nat, k: nat, m: Meter, c: Call)
    requires rate > 0 && Sane(m) && |c.attempts| <= k && WholeDatagrams(c)
    ensures Paid(rate, k, m, After(rate, m, c), Volume(c.attempts), if Succeeds(c) then 1 else 0)
  {
    CallVolume(rate, m, c, k);
    AttemptsExact(m.(clock := Awake(rate, m, c)), c.attempts);
    var m' := After(rate, m, c);
    if Succeeds(c) {
      CallPays(rate, m, c);
      Pays(k, rate, m'.lastTime - m.lastTime, m.lastBytes);
    }
  }

  /**
   The rate bound, for every part of every run that begins and ends with a successful call: the n successful
   calls before the last one sent the k destinations together at most k * (rate * T + n * (rate - 1)) bytes,
   where T is the time from the end of the first one to the end of the last one.
   */
  lemma {:induction false} RateBound(rate: nat, k: nat, ms: seq<Meter>, cs: seq<Call>)
    requires rate > 0 && IsRun(rate, k, ms, cs) && |cs| >= 2 && Succeeds(cs[0]) && Succeeds(cs[|cs| - 1])
    ensures var last, n := |cs| - 1, Successes(cs) - 1;
            && ms[1].lastTime <= ms[|cs|].lastTime
            && NS_PER_US * TotalBytes(cs[..last])
               <= k * (rate * (ms[|cs|].lastTime - ms[1].lastTime)) + NS_PER_US * (n * (k * (rate - 1)))
  {
    var n := |cs| - 1;
    var mid, states := cs[1..n], ms[1..|cs|];
    assert |states| == |mid| + 1;
    forall i: nat | i < |mid|
      ensures |mid[i].attempts| <= k && WholeDatagrams(mid[i])
              && Sane(states[i]) && states[i + 1] == After(rate, states[i], mid[i])
    {
      assert mid[i] == cs[i + 1] && states[i] == ms[i + 1] && states[i + 1] == ms[i + 1 + 1];
    }
    assert Sane(states[0]);
    RunPays(rate, k, states, mid);
    assert states[|mid|] == ms[n] && states[0] == ms[1];
    CallVolume(rate, ms[0], cs[0], k);
    LastPays(rate, k, ms[n], cs[n]);
    var closed := ms[n + 1].(lastBytes := 0);
    PaidTwice(rate, k, ms[1], ms[n], closed, TotalBytes(mid), Successes(mid), 0, 1);
    FirstAndRest(cs, n);
    assert cs[..n + 1] == cs;
    assert Successes(cs) == Successes(mid) + 2;
  }

  /** A last successful call that is not counted itself. */
  lemma LastPays(rate: nat, k: nat, m: Meter, c: Call)
    requires rate > 0 && Sane(m) && Succeeds(c)
    ensures Paid(rate, k, m, After(rate, m, c).(lastBytes := 0), 0, 1)
  {
    CallPays(rate, m, c);
    AttemptsExact(m.(clock := Awake(rate, m, c)), c.attempts);
    Pays(k, rate, After(rate, m, c).lastTime - m.lastTime, m.lastBytes);
  }

  lemma {:induction false} FirstAndRest(cs: seq<Call>, n: nat)
    requires 1 <= n < |cs|
    ensures TotalBytes(cs[..n]) == Volume(cs[0].attempts) + TotalBytes(cs[1..n])
    ensures Successes(cs[..n]) == (if Succeeds(cs[0]) then 1 else 0) + Successes(cs[1..n])
    decreases n
  {
    if n == 1 {
      assert cs[..1][..0] == [];
    } else {
      FirstAndRest(cs, n - 1);
      assert cs[..n][..n - 1] == cs[..n - 1];
      assert cs[1..n][..n - 2] == cs[1..n - 1];
    }
  }

  /** One destination: the bound the limit is for. No assumption about partial datagrams is left. */
  lemma {:induction false} RateBoundOneDestination(rate: nat, ms: seq<Meter>, cs: seq<Call>)
    requires rate > 0 && IsRun(rate, 1, ms, cs) && |cs| >= 2 && Succeeds(cs[0]) && Succeeds(cs[|cs| - 1])
    ensures var last, n := |cs| - 1, Successes(cs) - 1;
            NS_PER_US * TotalBytes(cs[..last])
            <= rate * (ms[|cs|].lastTime - ms[1].lastTime) + NS_PER_US * (n * (rate - 1))
  {
    RateBound(rate, 1, ms, cs);
    var a := rate * (ms[|cs|].lastTime - ms[1].lastTime);
    assert 1 * a == a && 1 * (rate - 1) == rate - 1;
  }

  // ------------------------------------------------------------------ the bound is reached

  /** A call that sends k destinations the longest datagram of period p, as soon as it may. */
  function Busy(rate: nat, k: nat, p: nat): (c: Call)
    requires rate > 0
  {
    Call(0, 0, seq(k, _ => Sent(rate * p + rate - 1, 0)))
  }

  function BusyMeter(rate: nat, p: nat, i: nat): (m: Meter)
    requires rate > 0
  {
    if i == 0 then Meter(0, 0, 0)
    else Meter(rate * p + rate - 1, NS_PER_US * ((i - 1) * p), NS_PER_US * ((i - 1) * p))
  }

  lemma {:induction false} BusyAttempts(m: Meter, attempts: seq<Attempt>, bytes: nat)
    requires forall i :: 0 <= i < |attempts| ==> attempts[i] == Sent(bytes, 0)
    ensures Volume(attempts) == |attempts| * bytes
    ensures Attempted(m, attempts) == if attempts == [] then m else Meter(bytes, m.clock, m.clock)
  {
    if attempts != [] {
      BusyAttempts(m, attempts[..|attempts| - 1], bytes);
    }
  }

  lemma BusyStep(rate: nat, k: nat, p: nat, i: nat)
    requires rate > 0 && k > 0
    ensures Sane(BusyMeter(rate, p, i))
    ensures After(rate, BusyMeter(rate, p, i), Busy(rate, k, p)) == BusyMeter(rate, p, i + 1)
  {
    var m, c := BusyMeter(rate, p, i), Busy(rate, k, p);
    var period := (rate * p + rate - 1) / rate;
    assert period == p by { Quotient(rate, p); }
    assert i > 0 ==> (i - 1) * p + p == i * p;
    BusyAttempts(m.(clock := Awake(rate, m, c)), c.attempts, rate * p + rate - 1);
  }

  lemma Quotient(rate: nat, p: nat)
    requires rate > 0
    ensures (rate * p + rate - 1) / rate == p
  {
    var n := rate * p + rate - 1;
    assert n == rate * (n / rate) + n % rate;
    if n / rate < p {
      Scale(n / rate + 1, p, rate);
    } else if n / rate > p {
      Scale(p + 1, n / rate, rate);
    }
  }

  lemma OneMore(n: nat, a: nat)
    ensures n * a + a == (n + 1) * a
  {
  }

  lemma {:induction false} BusyTotal(rate: nat, k: nat, p: nat, n: nat)
    requires rate > 0
    ensures TotalBytes(seq(n, _ => Busy(rate, k, p))) == n * (k * (rate * p + rate - 1))
  {
    var cs := seq(n, _ => Busy(rate, k, p));
    if n > 0 {
      BusyTotal(rate, k, p, n - 1);
      assert cs[..n - 1] == seq(n - 1, _ => Busy(rate, k, p));
      BusyAttempts(Meter(0, 0, 0), Busy(rate, k, p).attempts, rate * p + rate - 1);
      var a := k * (rate * p + rate - 1);
      OneMore(n - 1, a);
      hide Busy, Volume;
    }
  }

  /** For every limit, number of destinations, period and length, a run that sends exactly what the bound allows. */
  lemma BoundIsReached(rate: nat, k: nat, p: nat, n: nat)
    requires rate > 0 && k > 0
    ensures var cs, ms := seq(n + 1, _ => Busy(rate, k, p)), seq(n + 2, i requires i >= 0 => BusyMeter(rate, p, i));
            && IsRun(rate, k, ms, cs) && (forall i :: 0 <= i <= n ==> Succeeds(cs[i]))
            && NS_PER_US * TotalBytes(cs[..n])
               == k * (rate * (ms[n + 1].lastTime - ms[1].lastTime)) + NS_PER_US * (n * (k * (rate - 1)))
  {
    var c := Busy(rate, k, p);
    var cs, ms := seq(n + 1, _ => c), seq(n + 2, i requires i >= 0 => BusyMeter(rate, p, i));
    assert c.attempts[0].Sent?;
    forall i: nat | i < |cs|
      ensures Sane(ms[i]) && ms[i + 1] == After(rate, ms[i], cs[i])
    {
      BusyStep(rate, k, p, i);
    }
    assert cs[..n] == seq(n, _ => c);
    BusyTotal(rate, k, p, n);
    var time := NS_PER_US * (n * p);
    assert ms[n + 1].lastTime - ms[1].lastTime == time;
    Ledger(rate, k, p, n);
  }

  lemma Ledger(rate: nat, k: nat, p: nat, n: nat)
    requires rate > 0
    ensures NS_PER_US * (n * (k * (rate * p + rate - 1)))
         == k * (rate * (NS_PER_US * (n * p))) + NS_PER_US * (n * (k * (rate - 1)))
  {
    var a, b := rate * p, rate - 1;
    assert k * (a + b) == k * a + k * b;
    assert n * (k * a + k * b) == n * (k * a) + n * (k * b);
    assert n * (k * a) == k * (rate * (n * p));
    assert k * (rate * (NS_PER_US * (n * p))) == NS_PER_US * (k * (rate * (n * p)));
  }

  // ------------------------------------------------------------------ the object

  class UDPSender {
    const rateLimit: nat
    var lastSentBytes: nat
    var lastSentTime: nat

    ghost function MeterAt(clock: nat): (m: Meter)
      reads this
    {
      Meter(lastSentBytes, lastSentTime, clock)
    }

    constructor (rateLimit: nat)
      ensures this.rateLimit == rateLimit && MeterAt(0) == Meter(0, 0, 0)
    {
      this.rateLimit := rateLimit;
      lastSentBytes, lastSentTime := 0, 0;
    }

    /** One call at clock `before`; done is the clock when it returns. */
    method Send(before: nat, c: Call) returns (done: nat)
      requires lastSentTime <= before
      modifies this
      ensures MeterAt(done) == After(rateLimit, old(MeterAt(before)), c)
    {
      var clock: nat := before + c.idle;
      if rateLimit > 0 {
        var periodUs := lastSentBytes / rateLimit;
        var elapsedUs := (clock - lastSentTime) / NS_PER_US;
        var diff := periodUs - elapsedUs;
        if diff > 0 {
          clock := clock + NS_PER_US * diff;
        }
      }
      clock := clock + c.overslept;
      ghost var awake := MeterAt(clock);
      for i := 0 to |c.attempts|
        invariant MeterAt(clock) == Attempted(awake, c.attempts[..i])
      {
        assert c.attempts[..i + 1][..i] == c.attempts[..i];
        match c.attempts[i]
        case Failed(spent) =>
          clock := clock + spent;
        case Sent(bytes, spent) =>
          clock := clock + spent;
          lastSentBytes, lastSentTime := bytes, clock;
      }
      assert c.attempts[..|c.attempts|] == c.attempts;
      done := clock;
    }
  }
}
