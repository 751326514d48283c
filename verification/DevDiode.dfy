/** The device support of the receiving IOC: an update is put into its record only when it looks changed. */
module DevDiode {
  import opened Bytes

  const DISCONNECTED: nat := 0xFFFF_FFFF
  const UDF_ALARM: int := 17
  const INVALID_ALARM: int := 3

  /** Time stamp and alarm of a value; only channels of a DBR_TIME type have them. */
  datatype Meta = Meta(stamp: nat, status: int, severity: int)

  /** What dbPut is given. */
  datatype Value = Value(typ: nat, count: nat, bytes: seq<Byte>)

  datatype Update = Update(value: Value, meta: Option<Meta>, hash: nat)

  /** The alarm fields of a record: stat and sevr are what clients see, nsta and nsev what comes next. */
  datatype Alarms = Alarms(time: nat, stat: int, sevr: int, nsta: int, nsev: int)

  /** One channel: its entry in the look-up table, the field it addresses, and the alarms of the record. */
  datatype Point = Point(count: nat, hash: nat, field: Option<Value>, alarms: Alarms)

  /**
   What may happen to a channel and its record: an update, with the outcome that dbPut has for it, and disconnects. A
   sibling is another field of the same record.
   */
  datatype Event = Updated(u: Update, putOk: bool) | Disconnected | SiblingDisconnected

  /** recGblResetAlarms */
  function Reset(a: Alarms): (r: Alarms) {
    a.(stat := a.nsta, sevr := a.nsev, nsta := 0, nsev := 0)
  }

  function Down(a: Alarms): (r: Alarms) {
    Reset(a.(nsta := UDF_ALARM, nsev := INVALID_ALARM))
  }

  predicate Changed(p: Point, u: Update) {
    || (u.meta.Some? && (u.meta.value.stamp != p.alarms.time || u.meta.value.status != p.alarms.nsta
                         || u.meta.value.severity != p.alarms.nsev))
    || p.count != u.value.count || p.hash != u.hash
  }

  /** diode_value_update, with the outcome of dbPut: count and hash are kept even of a value that dbPut refused. */
  function AfterUpdate(p: Point, u: Update, putOk: bool): (p': Point) {
    var alarms :=
      if !Changed(p, u) || u.meta.None? then p.alarms
      else Reset(p.alarms.(time := u.meta.value.stamp, nsta := u.meta.value.status, nsev := u.meta.value.severity));
    Point(u.value.count, u.hash, if Changed(p, u) && putOk then Some(u.value) else p.field, alarms)
  }

  function After(p: Point, e: Event): (p': Point) {
    match e
    case Updated(u, putOk) => AfterUpdate(p, u, putOk)
    case Disconnected => p.(count := DISCONNECTED, alarms := Down(p.alarms))
    case SiblingDisconnected => p.(alarms := Down(p.alarms))
  }

  /** The record shows the update: its value, and its time and alarm if it has any. */
  predicate Shows(p: Point, u: Update) {
    && p.field == Some(u.value)
    && (u.meta.Some? ==> && p.alarms.time == u.meta.value.stamp && p.alarms.stat == u.meta.value.status
                         && p.alarms.sevr == u.meta.value.severity)
  }

  // ------------------------------------------------------------------ runs

  /** A channel is of a DBR_TIME type or of a plain one, and a count of DISCONNECTED is never an update. */
  predicate EventOk(timed: bool, e: Event) {
    e.Updated? ==> e.u.meta.Some? == timed && e.u.value.count != DISCONNECTED
  }

  /** A run from a newly assigned entry; the record may be in any state. */
  ghost predicate IsRun(timed: bool, ps: seq<Point>, es: seq<Event>) {
    && |ps| == |es| + 1 && ps[0].count == DISCONNECTED
    && (forall i: nat :: i < |es| ==> EventOk(timed, es[i]))
    && (forall i: nat :: i < |es| ==> ps[i + 1] == After(ps[i], es[i]))
  }

  /**
   What the events so far say: the last update unless the channel was disconnected since, whether a sibling was, and the
   value of the most recent update, or what the field held before the run.
   */
  datatype Seen = Seen(last: Option<Update>, siblingDown: bool, recent: Option<Value>)

  function SeenAfter(before: Option<Value>, es: seq<Event>): (s: Seen) {
    if es == [] then Seen(None, false, before)
    else
      var s := SeenAfter(before, es[..|es| - 1]);
      match es[|es| - 1]
      case Updated(u, _) => Seen(Some(u), false, Some(u.value))
      case Disconnected => s.(last := None, siblingDown := false)
      case SiblingDisconnected => s.(siblingDown := true)
  }

  /** Nothing that diode_value_update compares tells the update from the last one. */
  predicate LooksSame(last: Update, u: Update) {
    && u.value.count == last.value.count && u.hash == last.hash
    && (u.meta.Some? ==> u.meta.value.status == 0 && u.meta.value.severity == 0
                         && last.meta.Some? && u.meta.value.stamp == last.meta.value.stamp)
  }

  /** The last update of a timed channel had an alarm. */
  predicate Alarmed(last: Update) {
    last.meta.Some? && (last.meta.value.status != 0 || last.meta.value.severity != 0)
  }

  /**
   The update is lost: it looks the same as the last one and has another value or ends an alarm, or it does not look the
   same, and dbPut refuses a value that is new.
   */
  predicate Lost(s: Seen, u: Update, putOk: bool) {
    if s.last.Some? && LooksSame(s.last.value, u) then
      u.value != s.last.value.value || (u.meta.Some? && (s.siblingDown || Alarmed(s.last.value)))
    else !putOk && s.recent != Some(u.value)
  }

  /** Every update among the first n events is shown by the record at once. */
  ghost predicate AllShown(ps: seq<Point>, es: seq<Event>, n: nat)
    requires n <= |es| < |ps|
  {
    forall i: nat :: i < n && es[i].Updated? ==> Shows(ps[i + 1], es[i].u)
  }

  ghost predicate NoneLost(before: Option<Value>, es: seq<Event>, n: nat)
    requires n <= |es|
  {
    forall i: nat :: i < n && es[i].Updated? ==> !Lost(SeenAfter(before, es[..i]), es[i].u, es[i].putOk)
  }

  /** What the entry and the record keep of the events. */
  predicate Remembers(timed: bool, p: Point, s: Seen) {
    match s.last
    case None => p.count == DISCONNECTED
    case Some(u) =>
      && p.count == u.value.count != DISCONNECTED && p.hash == u.hash && u.meta.Some? == timed
      && s.recent == Some(u.value)
      && (timed ==> p.alarms.time == u.meta.value.stamp && p.alarms.nsta == 0 && p.alarms.nsev == 0)
  }

  /** What it also keeps while no update was lost. */
  predicate Follows(timed: bool, p: Point, s: Seen) {
    && p.field == s.recent
    && match s.last
       case None => true
       case Some(u) =>
         timed && u.meta.Some? ==>
           if s.siblingDown then p.alarms.stat == UDF_ALARM && p.alarms.sevr == INVALID_ALARM
           else p.alarms.stat == u.meta.value.status && p.alarms.sevr == u.meta.value.severity
  }

  lemma {:induction false} RunRemembers(timed: bool, ps: seq<Point>, es: seq<Event>, n: nat)
    requires IsRun(timed, ps, es) && n <= |es|
    ensures Remembers(timed, ps[n], SeenAfter(ps[0].field, es[..n]))
    decreases n
  {
    if n > 0 {
      RunRemembers(timed, ps, es, n - 1);
      assert es[..n][..n - 1] == es[..n - 1];
      assert EventOk(timed, es[n - 1]) && ps[n - 1 + 1] == After(ps[n - 1], es[n - 1]);
    }
  }

  /** One update: it is shown exactly if it is not lost. */
  lemma ShownIff(timed: bool, p: Point, s: Seen, u: Update, putOk: bool)
    requires Remembers(timed, p, s) && Follows(timed, p, s) && EventOk(timed, Updated(u, putOk))
    ensures Shows(AfterUpdate(p, u, putOk), u) <==> !Lost(s, u, putOk)
  {
    if s.last.Some? {
      assert LooksSame(s.last.value, u) <==> !Changed(p, u);
    }
  }

  /**
   The record shows every update of a run at once if and only if no update of the run looks the same as the last one
   while it has another value or ends an alarm, and none has a new value that dbPut refuses. Only the events decide.
   */
  lemma {:induction false} ShowsAllIff(timed: bool, ps: seq<Point>, es: seq<Event>, n: nat)
    requires IsRun(timed, ps, es) && n <= |es|
    ensures AllShown(ps, es, n) <==> NoneLost(ps[0].field, es, n)
    ensures AllShown(ps, es, n) ==> Follows(timed, ps[n], SeenAfter(ps[0].field, es[..n]))
    decreases n
  {
    if n > 0 {
      var m := n - 1;
      ShowsAllIff(timed, ps, es, m);
      RunRemembers(timed, ps, es, m);
      assert es[..n][..m] == es[..m];
      assert EventOk(timed, es[m]) && ps[m + 1] == After(ps[m], es[m]);
      hide Remembers, Lost;
      if es[m].Updated? && AllShown(ps, es, m) {
        ShownIff(timed, ps[m], SeenAfter(ps[0].field, es[..m]), es[m].u, es[m].putOk);
      }
    }
  }

  /** After a disconnect, and at the start, the next update is put, and shown if dbPut takes it. */
  lemma ShownAfterDisconnect(timed: bool, ps: seq<Point>, es: seq<Event>, i: nat)
    requires IsRun(timed, ps, es) && i < |es| && es[i].Updated? && es[i].putOk
    requires SeenAfter(ps[0].field, es[..i]).last.None?
    ensures Shows(ps[i + 1], es[i].u)
  {
    RunRemembers(timed, ps, es, i);
    assert EventOk(timed, es[i]) && ps[i + 1] == After(ps[i], es[i]);
  }

  // ------------------------------------------------------------------ the alarms and the field over runs

  /** The update does not look the same as the last one since the channel was connected. */
  predicate LooksNew(s: Seen, u: Update) {
    s.last.None? || !LooksSame(s.last.value, u)
  }

  /** Event i gives the record another time or alarm: a disconnect, or a timed update that looks new. */
  ghost predicate SetsAlarm(before: Option<Value>, es: seq<Event>, i: nat)
    requires i < |es|
  {
    es[i].Updated? ==> es[i].u.meta.Some? && LooksNew(SeenAfter(before, es[..i]), es[i].u)
  }

  /** Event i gives the field a value. */
  ghost predicate SetsField(before: Option<Value>, es: seq<Event>, i: nat)
    requires i < |es|
  {
    es[i].Updated? && es[i].putOk && LooksNew(SeenAfter(before, es[..i]), es[i].u)
  }

  lemma StaysStep(timed: bool, ps: seq<Point>, es: seq<Event>, i: nat)
    requires IsRun(timed, ps, es) && i < |es|
    ensures !SetsAlarm(ps[0].field, es, i) ==> ps[i + 1].alarms == ps[i].alarms
    ensures !SetsField(ps[0].field, es, i) ==> ps[i + 1].field == ps[i].field
    ensures !es[i].Updated? ==> ps[i + 1].alarms == Alarms(ps[i].alarms.time, UDF_ALARM, INVALID_ALARM, 0, 0)
  {
    RunRemembers(timed, ps, es, i);
    assert EventOk(timed, es[i]) && ps[i + 1] == After(ps[i], es[i]);
  }

  /** What the record shows stays from one event that sets it to the next. */
  lemma {:induction false} Stays(timed: bool, ps: seq<Point>, es: seq<Event>, i: nat, m: nat)
    requires IsRun(timed, ps, es) && i <= m <= |es|
    ensures (forall j: nat :: i <= j < m ==> !SetsAlarm(ps[0].field, es, j)) ==> ps[m].alarms == ps[i].alarms
    ensures (forall j: nat :: i <= j < m ==> !SetsField(ps[0].field, es, j)) ==> ps[m].field == ps[i].field
    decreases m
  {
    if i < m {
      Stays(timed, ps, es, i, m - 1);
      StaysStep(timed, ps, es, m - 1);
    }
  }

  /**
   A disconnect of the channel or of a sibling puts the record into alarm, with its time as before; this stays until
   the next timed update that looks new. The value in the field stays until the next update that is put.
   */
  lemma {:induction false} DownUntilTaken(timed: bool, ps: seq<Point>, es: seq<Event>, i: nat, m: nat)
    requires IsRun(timed, ps, es) && i < m <= |es| && !es[i].Updated?
    ensures (forall j: nat :: i < j < m && es[j].Updated? ==> !SetsAlarm(ps[0].field, es, j)) ==>
              ps[m].alarms == Alarms(ps[i].alarms.time, UDF_ALARM, INVALID_ALARM, 0, 0)
    ensures (forall j: nat :: i < j < m ==> !SetsField(ps[0].field, es, j)) ==> ps[m].field == ps[i].field
    decreases m
  {
    StaysStep(timed, ps, es, m - 1);
    if i < m - 1 {
      DownUntilTaken(timed, ps, es, i, m - 1);
    }
  }

  /** A timed update that looks new gives the record its time and alarm, with nothing pending, until the next one. */
  lemma TakenUntilSet(timed: bool, ps: seq<Point>, es: seq<Event>, i: nat, m: nat)
    requires IsRun(timed, ps, es) && i < m <= |es| && es[i].Updated?
    ensures SetsAlarm(ps[0].field, es, i) && (forall j: nat :: i < j < m ==> !SetsAlarm(ps[0].field, es, j)) ==>
              var meta := es[i].u.meta.value;
              ps[m].alarms == Alarms(meta.stamp, meta.status, meta.severity, 0, 0)
    ensures SetsField(ps[0].field, es, i) && (forall j: nat :: i < j < m ==> !SetsField(ps[0].field, es, j)) ==>
              ps[m].field == Some(es[i].u.value)
  {
    RunRemembers(timed, ps, es, i);
    assert EventOk(timed, es[i]) && ps[i + 1] == After(ps[i], es[i]);
    Stays(timed, ps, es, i + 1, m);
  }

  // ------------------------------------------------------------------ the hash

  /** value_hash on a little-endian host; memHash stands for epicsMemHash. */
  function ValueHash(memHash: seq<Byte> -> nat, bytes: seq<Byte>): (h: nat) {
    if |bytes| <= 8 then FromLE(bytes + Zeros(8 - |bytes|)) else memHash(bytes)
  }

  /** Of values of the same size the hash of up to 8 bytes loses nothing. */
  lemma SmallHashIsExact(memHash: seq<Byte> -> nat, a: seq<Byte>, b: seq<Byte>)
    requires |a| == |b| <= 8
    ensures ValueHash(memHash, a) == ValueHash(memHash, b) <==> a == b
  {
    var z := Zeros(8 - |a|);
    LEofFromLE(a + z);
    LEofFromLE(b + z);
    if ValueHash(memHash, a) == ValueHash(memHash, b) {
      assert a == (a + z)[..|a|] == (b + z)[..|b|] == b;
    }
  }

  /** What the receiver task passes on: one type for the whole run, whole elements and their hash. */
  predicate FromReceiver(memHash: seq<Byte> -> nat, typ: nat, elementSize: nat, u: Update) {
    && u.value.typ == typ && |u.value.bytes| == elementSize * u.value.count
    && u.hash == ValueHash(memHash, u.value.bytes)
  }

  /** A plain channel whose values have at most 8 bytes is followed exactly, whatever happens. */
  lemma SmallPlainFollows(memHash: seq<Byte> -> nat, typ: nat, elementSize: nat, ps: seq<Point>, es: seq<Event>)
    requires IsRun(false, ps, es)
    requires forall i: nat :: i < |es| && es[i].Updated? ==>
               es[i].putOk && FromReceiver(memHash, typ, elementSize, es[i].u) && |es[i].u.value.bytes| <= 8
    ensures AllShown(ps, es, |es|)
  {
    forall i: nat | i < |es| && es[i].Updated?
      ensures !Lost(SeenAfter(ps[0].field, es[..i]), es[i].u, es[i].putOk)
    {
      LastIsEvent(ps[0].field, es, i);
      assert EventOk(false, es[i]);
      var s := SeenAfter(ps[0].field, es[..i]);
      if s.last.Some? && LooksSame(s.last.value, es[i].u) {
        var j: nat :| j < i && es[j].Updated? && es[j].u == s.last.value;
        SmallHashIsExact(memHash, es[j].u.value.bytes, es[i].u.value.bytes);
      }
    }
    ShowsAllIff(false, ps, es, |es|);
  }

  lemma {:induction false} LastIsEvent(before: Option<Value>, es: seq<Event>, n: nat)
    requires n <= |es|
    ensures var s := SeenAfter(before, es[..n]);
            s.last.Some? ==> exists j: nat :: j < n && es[j].Updated? && es[j].u == s.last.value
    decreases n
  {
    if n > 0 {
      LastIsEvent(before, es, n - 1);
      assert es[..n][..n - 1] == es[..n - 1];
    }
  }

  // ------------------------------------------------------------------ what is lost

  /** The type is not compared: the same bytes of another type stay out of the record. */
  lemma OtherTypeIsLost(p: Point, u: Update, typ: nat)
    requires u.meta.None? && u.value.count != DISCONNECTED && typ != u.value.typ
    ensures var u' := u.(value := u.value.(typ := typ));
            var p' := After(After(p, Updated(u, true)), Updated(u', true));
            p.count == DISCONNECTED ==> !Shows(p', u') && p'.field == Some(u.value)
  {
  }

  /** The same update n times, with a dbPut that takes it. */
  function Repeat(p: Point, u: Update, n: nat): (p': Point) {
    if n == 0 then p else After(Repeat(p, u, n - 1), Updated(u, true))
  }

  lemma {:induction false} RepeatNothing(p: Point, u: Update, n: nat)
    requires !Changed(p, u)
    ensures Repeat(p, u, n) == p
  {
    if n > 0 {
      RepeatNothing(p, u, n - 1);
    }
  }

  /**
   After a sibling was disconnected, repeating the value, unchanged, ends the alarm that the sibling has set exactly if
   the update has an alarm itself, which then takes its place.
   */
  lemma {:induction false} AlarmStaysIff(p: Point, u: Update)
    requires u.meta.Some? && p.count == DISCONNECTED != u.value.count
    ensures var p' := After(After(p, Updated(u, true)), SiblingDisconnected);
            (exists n: nat :: Shows(Repeat(p', u, n), u))
            <==> u.meta.value.status != 0 || u.meta.value.severity != 0
  {
    var p' := After(After(p, Updated(u, true)), SiblingDisconnected);
    if u.meta.value.status == 0 && u.meta.value.severity == 0 {
      forall n: nat
        ensures !Shows(Repeat(p', u, n), u)
      {
        RepeatNothing(p', u, n);
      }
    } else {
      assert Repeat(p', u, 0) == p';
      assert Shows(Repeat(p', u, 1), u);
    }
  }

  /**
   A new value that dbPut has refused is put again when the update is repeated exactly if the update has an alarm; if it
   has none, or the channel is a plain one, no number of repetitions brings it into the record.
   */
  lemma {:induction false} RetriedIff(p: Point, u: Update)
    requires p.count == DISCONNECTED != u.value.count && p.field != Some(u.value)
    ensures (exists n: nat :: Repeat(AfterUpdate(p, u, false), u, n).field == Some(u.value))
            <==> u.meta.Some? && (u.meta.value.status != 0 || u.meta.value.severity != 0)
  {
    var p' := AfterUpdate(p, u, false);
    if u.meta.Some? && (u.meta.value.status != 0 || u.meta.value.severity != 0) {
      assert Repeat(p', u, 0) == p';
      assert Repeat(p', u, 1).field == Some(u.value);
    } else {
      forall n: nat
        ensures Repeat(p', u, n).field != Some(u.value)
      {
        RepeatNothing(p', u, n);
      }
    }
  }

  // ------------------------------------------------------------------ the look-up table

  const LUT_SIZE: nat := 100000

  class Record {
    var alarms: Alarms

    constructor (alarms: Alarms)
      ensures this.alarms == alarms
    {
      this.alarms := alarms;
    }
  }

  /** An entry of the table; rec is the record of its field. */
  class Entry {
    const rec: Record
    var count: nat
    var hash: nat
    var field: Option<Value>

    constructor (rec: Record, field: Option<Value>)
      ensures this.rec == rec && State() == Point(DISCONNECTED, 0, field, rec.alarms)
    {
      this.rec, this.field, count, hash := rec, field, DISCONNECTED, 0;
    }

    ghost function State(): (p: Point)
      reads this, rec
    {
      Point(count, hash, field, rec.alarms)
    }
  }

  /** The entry that a call is for, if there is one: the table may not be there, be too short or have a hole. */
  function Lookup(lut: Option<seq<Entry?>>, index: nat): (e: Entry?)
    ensures lut.Some? && index < LUT_SIZE && index < |lut.value| ==> e == lut.value[index]
    ensures e != null ==> lut.Some? && index < LUT_SIZE && index < |lut.value|
  {
    if lut.None? || index >= LUT_SIZE || index >= |lut.value| then null else lut.value[index]
  }

  method ValueUpdate(lut: Option<seq<Entry?>>, index: nat, u: Update, putOk: bool) returns (status: int)
    modifies var e := Lookup(lut, index); if e == null then {} else {e, e.rec}
    ensures var e := Lookup(lut, index);
            if e == null then status == -1
            else e.State() == AfterUpdate(old(e.State()), u, putOk)
                 && (status == 0 <==> putOk || !Changed(old(e.State()), u))
  {
    var e := Lookup(lut, index);
    if e == null {
      return -1;
    }
    status := 0;
    var a := e.rec.alarms;
    var changed := u.meta.Some? && (u.meta.value.stamp != a.time || u.meta.value.status != a.nsta
                                    || u.meta.value.severity != a.nsev);
    if !changed && (e.count != u.value.count || e.hash != u.hash) {
      changed := true;
    }
    if changed {
      if u.meta.Some? {
        var m := u.meta.value;
        e.rec.alarms := Reset(a.(time := m.stamp, nsta := m.status, nsev := m.severity));
      }
      if putOk {
        e.field := Some(u.value);
      } else {
        status := 1;
      }
    }
    e.count, e.hash := u.value.count, u.hash;
  }

  method Disconnect(lut: Option<seq<Entry?>>, index: nat) returns (status: int)
    modifies var e := Lookup(lut, index); if e == null then {} else {e, e.rec}
    ensures var e := Lookup(lut, index);
            if e == null then status == -1
            else status == 0 && e.State() == After(old(e.State()), Disconnected)
  {
    var e := Lookup(lut, index);
    if e == null {
      return -1;
    }
    e.rec.alarms := Down(e.rec.alarms);
    e.count := DISCONNECTED;
    status := 0;
  }
}
