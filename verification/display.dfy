/**
 * The student-facing display (src/app/page.tsx). It listens for card-reader
 * messages, keeps a roster of check-ins without duplicate student ids, newest
 * first, writes the roster to the session store after every change, shows
 * present / total / rate figures, and counts down to the end time the teacher
 * page stored.
 *
 * `DisplayState` is the page's state as a value and `Mount`, `Handle` and
 * `Refresh` are its transitions; the class `AttendanceDisplay` holds the same
 * state in fields and its methods are proved to make those transitions.
 */
module Display {
  import opened Wrappers
  import opened Js
  import opened Clock
  import opened Store
  import opened Records

  /** The class size the page shows; it does not read the stored head count. */
  const Seats: int := 50

  datatype Stats = Stats(present: int, total: int, rate: int)

  datatype DisplayState = DisplayState(
    store: Store,
    roster: seq<Student>,
    stats: Stats,
    currentClass: string,
    remaining: Num)

  /** The stats effect, run after every roster change. */
  function StatsOf(roster: seq<Student>): (s: Stats)
    ensures s.present == |roster| && s.total == Seats
    ensures s.rate == 2 * |roster|
  {
    Stats(|roster|, Seats, RoundRate(|roster|, Seats))
  }

  /** The handler's own update of the stats: one more present, rate recomputed. */
  function Bump(s: Stats): Stats
    requires s.total > 0
  {
    s.(present := s.present + 1, rate := RoundRate(s.present + 1, s.total))
  }

  /** A successful "present" attendance message. */
  predicate IsPresent(ev: AttendanceEvent)
  {
    ev.kind == "attendance" && ev.success && ev.status == "present"
  }

  /** A successful "present" attendance message that carries a student. */
  predicate Admits(ev: AttendanceEvent)
  {
    IsPresent(ev) && ev.student.Some?
  }

  /** The record a message would add: the student's fields, the message's timestamp. */
  function NewRecord(ev: AttendanceEvent): Student
    requires ev.student.Some?
  {
    var info := ev.student.value;
    Student(info.id, info.name, info.year, info.department, ev.timestamp)
  }

  /**
   * The roster after one message: a new record in front when the message
   * admits a student not yet on the roster; otherwise the same roster.
   */
  function Receive(roster: seq<Student>, ev: AttendanceEvent): (r: seq<Student>)
    ensures |r| == |roster| || |r| == |roster| + 1
    ensures r[|r| - |roster|..] == roster
    ensures |r| == |roster| + 1 <==> Admits(ev) && ev.student.value.id !in Ids(roster)
    ensures |r| == |roster| + 1 ==> r[0] == NewRecord(ev)
  {
    if Admits(ev) && ev.student.value.id !in Ids(roster) then [NewRecord(ev)] + roster else roster
  }

  /** The roster after a run of messages, in arrival order. */
  function ReceiveAll(roster: seq<Student>, evs: seq<AttendanceEvent>): seq<Student>
    decreases |evs|
  {
    if evs == [] then roster else ReceiveAll(Receive(roster, evs[0]), evs[1..])
  }

  /** A message never introduces a second record for an id. */
  lemma ReceiveKeepsDistinct(roster: seq<Student>, ev: AttendanceEvent)
    requires DistinctIds(roster)
    ensures DistinctIds(Receive(roster, ev))
  {
    var r := Receive(roster, ev);
    if |r| == |roster| + 1 {
      forall i, j | 0 <= i < j < |r|
        ensures r[i].id != r[j].id
      {
        if i == 0 {
          assert r[j] == roster[j - 1];
          assert Ids(roster)[j - 1] == roster[j - 1].id;
        } else {
          assert r[i] == roster[i - 1] && r[j] == roster[j - 1];
        }
      }
    }
  }

  /** However many duplicates arrive, the roster keeps at most one record per id. */
  lemma {:induction false} ReceiveAllKeepsDistinct(roster: seq<Student>, evs: seq<AttendanceEvent>)
    requires DistinctIds(roster)
    ensures DistinctIds(ReceiveAll(roster, evs))
    decreases |evs|
  {
    if evs != [] {
      ReceiveKeepsDistinct(roster, evs[0]);
      ReceiveAllKeepsDistinct(Receive(roster, evs[0]), evs[1..]);
    }
  }

  /**
   * Records already on the roster stay, unchanged and in order, at its end:
   * the first check-in for an id is the one kept.
   */
  lemma {:induction false} ReceiveAllKeepsOld(roster: seq<Student>, evs: seq<AttendanceEvent>)
    ensures var r := ReceiveAll(roster, evs); |r| >= |roster| && r[|r| - |roster|..] == roster
    decreases |evs|
  {
    if evs != [] {
      var mid := Receive(roster, evs[0]);
      ReceiveAllKeepsOld(mid, evs[1..]);
      var r := ReceiveAll(mid, evs[1..]);
      assert r[|r| - |roster|..] == r[|r| - |mid|..][|mid| - |roster|..];
    }
  }

  /** Some message of the run admits the student `id`. */
  predicate SomeAdmits(evs: seq<AttendanceEvent>, id: string)
  {
    exists k :: 0 <= k < |evs| && Admits(evs[k]) && evs[k].student.value.id == id
  }

  lemma SomeAdmitsSplit(evs: seq<AttendanceEvent>, id: string)
    requires evs != []
    ensures SomeAdmits(evs, id) <==>
      (Admits(evs[0]) && evs[0].student.value.id == id) || SomeAdmits(evs[1..], id)
  {
    if SomeAdmits(evs[1..], id) {
      var k :| 0 <= k < |evs[1..]| && Admits(evs[1..][k]) && evs[1..][k].student.value.id == id;
      assert evs[k + 1] == evs[1..][k];
    }
    if SomeAdmits(evs, id) {
      var k :| 0 <= k < |evs| && Admits(evs[k]) && evs[k].student.value.id == id;
      if k > 0 {
        assert evs[1..][k - 1] == evs[k];
      }
    }
  }

  /** After one message an id is on the roster when it was before or the message admitted it. */
  lemma ReceiveIds(roster: seq<Student>, ev: AttendanceEvent, id: string)
    ensures id in Ids(Receive(roster, ev)) <==> id in Ids(roster) || (Admits(ev) && ev.student.value.id == id)
  {
    if Admits(ev) && ev.student.value.id !in Ids(roster) {
      IdsCons(NewRecord(ev), roster);
    }
  }

  /** An id is on the roster exactly when it was there before or some message admitted it. */
  lemma {:induction false} ReceiveAllIds(roster: seq<Student>, evs: seq<AttendanceEvent>, id: string)
    ensures id in Ids(ReceiveAll(roster, evs)) <==> id in Ids(roster) || SomeAdmits(evs, id)
    decreases |evs|
  {
    if evs != [] {
      ReceiveIds(roster, evs[0], id);
      ReceiveAllIds(Receive(roster, evs[0]), evs[1..], id);
      SomeAdmitsSplit(evs, id);
    }
  }

  /** Roster read from the store at mount; absent, empty or unreadable text gives []. */
  function Hydrate(st: Store): seq<Student>
  {
    if Truthy(st, RosterKey) then
      match DecodeRoster(st[RosterKey])
      case Some(r) => r
      case None => []
    else []
  }

  /** `updateRemaining`: seconds to the stored end time, 0 when there is none. */
  function RemainingOf(st: Store, nowMs: int): Num
  {
    if Truthy(st, EndKey) then CountdownNum(ParseInt(st[EndKey]), nowMs) else Int(0)
  }

  /** The page after mounting and running its effects once. */
  function Mount(st: Store, nowMs: int): (d: DisplayState)
    ensures d.stats.total == Seats
  {
    var roster := Hydrate(st);
    DisplayState(
      st[RosterKey := EncodeRoster(roster)],
      roster,
      StatsOf(roster),
      if Truthy(st, TitleKey) then st[TitleKey] else "Unknown",
      RemainingOf(st, nowMs))
  }

  /**
   * `handleMessage` followed by the effects a roster change triggers: the
   * stats are recomputed and the roster is written back. When the roster
   * does not change, a successful "present" message still bumps the count.
   */
  function Handle(d: DisplayState, ev: AttendanceEvent): (e: DisplayState)
    requires d.stats.total > 0
    ensures e.stats.total > 0
    ensures e.currentClass == d.currentClass && e.remaining == d.remaining
  {
    if ev.kind != "attendance" then d
    else
      var roster := Receive(d.roster, ev);
      if roster != d.roster then
        d.(roster := roster, stats := StatsOf(roster), store := d.store[RosterKey := EncodeRoster(roster)])
      else if IsPresent(ev) then d.(stats := Bump(d.stats))
      else d
  }

  /** One run of the countdown interval. */
  function Refresh(d: DisplayState, nowMs: int): DisplayState
  {
    d.(remaining := RemainingOf(d.store, nowMs))
  }

  /**
   * What holds of the page between messages: the stored roster is the shown
   * roster, the total is 50, the count is at least the roster's length, and
   * the rate is the count's percentage of 50.
   */
  predicate Consistent(d: DisplayState)
  {
    RosterKey in d.store && d.store[RosterKey] == EncodeRoster(d.roster) &&
    d.stats.total == Seats && d.stats.present >= |d.roster| && d.stats.rate == 2 * d.stats.present
  }

  lemma MountConsistent(st: Store, nowMs: int)
    ensures Consistent(Mount(st, nowMs))
    ensures Mount(st, nowMs).stats == StatsOf(Mount(st, nowMs).roster)
  {
  }

  /** A roster written at mount is read back unchanged by the next mount. */
  lemma MountRereadsRoster(st: Store, nowMs: int, laterMs: int)
    ensures Mount(Mount(st, nowMs).store, laterMs).roster == Mount(st, nowMs).roster
  {
    var r := Hydrate(st);
    assert Mount(st, nowMs).store == st[RosterKey := EncodeRoster(r)];
    HydrateWritten(st, r);
  }

  /** Whatever roster was written, hydrating reads it back. */
  lemma HydrateWritten(st: Store, r: seq<Student>)
    ensures Hydrate(st[RosterKey := EncodeRoster(r)]) == r
  {
    RosterRoundTrip(r);
  }

  lemma HandleConsistent(d: DisplayState, ev: AttendanceEvent)
    requires Consistent(d)
    ensures Consistent(Handle(d, ev))
  {
  }

  /**
   * The roster after a message is `Receive`'s; the stats are recomputed when
   * the roster changed, and otherwise go up by one exactly for a successful
   * "present" message: a duplicate check-in, or one with no student, still
   * counts, so the count can run ahead of the roster.
   */
  lemma HandleEffect(d: DisplayState, ev: AttendanceEvent)
    requires Consistent(d)
    ensures var e := Handle(d, ev);
      e.roster == Receive(d.roster, ev) &&
      (e.roster != d.roster ==> e.stats == StatsOf(e.roster) && e.store == d.store[RosterKey := EncodeRoster(e.roster)]) &&
      (e.roster == d.roster ==>
         e.store == d.store && e.stats.present == d.stats.present + (if IsPresent(ev) then 1 else 0))
  {
  }

  /** The page as an object, with the state hooks as fields. */
  class AttendanceDisplay {
    var store: Store
    var roster: seq<Student>
    var stats: Stats
    var currentClass: string
    var remaining: Num

    function State(): DisplayState
      reads this
    {
      DisplayState(store, roster, stats, currentClass, remaining)
    }

    predicate Valid()
      reads this
    {
      Consistent(State())
    }

    /** Mounting the page: hydrate the roster, persist it, read the title and the countdown. */
    constructor (st: Store, nowMs: int)
      ensures Valid()
      ensures State() == Mount(st, nowMs)
    {
      var hydrated: seq<Student> := [];
      if Truthy(st, RosterKey) {
        match DecodeRoster(st[RosterKey]) {
          case Some(r) => hydrated := r;
          case None =>
        }
      }
      roster := hydrated;
      stats := StatsOf(hydrated);
      store := st[RosterKey := EncodeRoster(hydrated)];
      currentClass := if Truthy(st, TitleKey) then st[TitleKey] else "Unknown";
      remaining := RemainingOf(st, nowMs);
    }

    /** `registeredStudents.some(s => s.id === id)`. */
    method IsRegistered(id: string) returns (found: bool)
      ensures found <==> id in Ids(roster)
    {
      found := false;
      var k := 0;
      while k < |roster| && !found
        invariant 0 <= k <= |roster|
        invariant !found ==> forall j :: 0 <= j < k ==> roster[j].id != id
        invariant found ==> 0 < k && roster[k - 1].id == id
      {
        found := roster[k].id == id;
        k := k + 1;
      }
      ghost var ids := Ids(roster);
      if found {
        assert ids[k - 1] == id;
      } else {
        assert forall j :: 0 <= j < |ids| ==> ids[j] != id;
      }
    }

    /** One inbound message event. */
    method OnMessage(ev: AttendanceEvent)
      requires Valid()
      modifies this
      ensures Valid()
      ensures State() == Handle(old(State()), ev)
    {
      ghost var d := State();
      if ev.kind == "attendance" {
        var changed := false;
        if ev.success && ev.status == "present" && ev.student.Some? {
          var record := NewRecord(ev);
          var already := IsRegistered(record.id);
          if !already {
            roster := [record] + roster;
            changed := true;
          }
        }
        assert changed <==> Receive(d.roster, ev) != d.roster;
        assert roster == Receive(d.roster, ev);
        if ev.success && ev.status == "present" {
          stats := Bump(stats);
        }
        if changed {
          stats := StatsOf(roster);
          store := store[RosterKey := EncodeRoster(roster)];
        }
      }
      assert State() == Handle(d, ev);
      HandleConsistent(d, ev);
    }

    /** One run of the countdown interval at time `nowMs`. */
    method UpdateRemaining(nowMs: int)
      requires Valid()
      modifies this
      ensures Valid()
      ensures State() == Refresh(old(State()), nowMs)
    {
      if Truthy(store, EndKey) {
        remaining := CountdownNum(ParseInt(store[EndKey]), nowMs);
      } else {
        remaining := Int(0);
      }
    }
  }
}
