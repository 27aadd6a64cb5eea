/**
 * The teacher-facing controller (src/app/admin/page.tsx). The teacher sets a
 * class title, a length in minutes and a head count, starts the session
 * (which stores an absolute end time), watches a countdown recomputed every
 * second from that stored end time, and ends the session by hand or when the
 * countdown reaches zero; ending snapshots the ids on the stored roster and
 * clears the session keys. After that the teacher can download the roster
 * as CSV text under a dated file name.
 *
 * `TeacherState` is the page's state as a value; `MountSession`,
 * `StartSession`, `TickSession`, `EndSession` and the edit functions are its
 * transitions, and the class `TeacherPage` holds the same state in fields
 * and is proved to make them.
 */
module Teacher {
  import opened Wrappers
  import opened Js
  import opened Clock
  import opened Store
  import opened Records
  import opened Table

  datatype TeacherState = TeacherState(
    store: Store,
    classTitle: string,
    timer: Num,
    totalStudents: Num,
    started: bool,
    ended: bool,
    studentIds: seq<string>,
    remaining: Option<Num>)

  /** The keys `handleEnd` removes; the roster and everything else stay. */
  const SessionKeys: set<string> := {EndKey, FlagKey, TotalKey, TitleKey, TimerKey}

  /** `Date.now() + timer * 60 * 1000`. */
  function EndTime(nowMs: int, timer: Num): Num
  {
    match timer
    case Int(m) => Int(nowMs + m * 60 * 1000)
    case NaN => NaN
  }

  /** `timer * 60`. */
  function Seconds(timer: Num): Num
  {
    match timer
    case Int(m) => Int(m * 60)
    case NaN => NaN
  }

  /** The ids `handleEnd` snapshots: those of the stored roster, in stored order, or none. */
  function Snapshot(st: Store): seq<string>
  {
    if Truthy(st, RosterKey) then
      match DecodeRoster(st[RosterKey])
      case Some(r) => Ids(r)
      case None => []
    else []
  }

  /** `handleEnd`. */
  function EndSession(t: TeacherState): TeacherState
  {
    t.(studentIds := Snapshot(t.store), ended := true, started := false, remaining := None,
       store := t.store - SessionKeys)
  }

  /** `handleStart` at time `nowMs`. */
  function StartSession(t: TeacherState, nowMs: int): TeacherState
  {
    t.(started := true,
       store := t.store[TitleKey := t.classTitle]
                       [TimerKey := NumToString(t.timer)]
                       [TotalKey := NumToString(t.totalStudents)]
                       [EndKey := NumToString(EndTime(nowMs, t.timer))]
                       [FlagKey := "1"],
       remaining := Some(Seconds(t.timer)))
  }

  /**
   * The shared step of the restore effect and the interval: recompute the
   * seconds left from the stored end time and end the session when none are.
   */
  function Recount(t: TeacherState, nowMs: int): TeacherState
    requires Truthy(t.store, EndKey)
  {
    var diff := CountdownNum(ParseInt(t.store[EndKey]), nowMs);
    var u := t.(remaining := Some(diff));
    if Expired(diff) then EndSession(u) else u
  }

  /** One run of the interval installed while the session runs. */
  function TickSession(t: TeacherState, nowMs: int): TeacherState
  {
    if Truthy(t.store, EndKey) then Recount(t, nowMs) else t
  }

  /**
   * Mounting the page over the store `st` at time `nowMs` and running its
   * effects in order: read the head count, restore title and length and
   * resume a stored running session (ending it at once if its time is up),
   * and store the head count, which puts it back after an end during the
   * restore.
   */
  function MountSession(st: Store, nowMs: int): TeacherState
  {
    StoreTotal(RestoreSession(ReadTotal(Initial(st)), nowMs))
  }

  /** The page's initial state: no title, 30 minutes, no head count, nothing started. */
  function Initial(st: Store): TeacherState
  {
    TeacherState(st, "", Int(30), Int(0), false, false, [], None)
  }

  /** The effect that reads the stored head count: `Number(stored)` when it is set. */
  function ReadTotal(t: TeacherState): TeacherState
  {
    if Truthy(t.store, TotalKey) then t.(totalStudents := ToNumber(t.store[TotalKey])) else t
  }

  /**
   * The restore effect: title and length when stored, then the running
   * session when both its end time and its running flag are stored.
   */
  function RestoreSession(t: TeacherState, nowMs: int): TeacherState
  {
    var t2 := RestoreInputs(t);
    if Truthy(t.store, EndKey) && Get(t.store, FlagKey) == Some("1") && !t.ended then
      Recount(t2.(started := true), nowMs)
    else t2
  }

  /** The first half of the restore effect: the stored title and length, when set. */
  function RestoreInputs(t: TeacherState): (u: TeacherState)
    ensures u.store == t.store && u.totalStudents == t.totalStudents && u.studentIds == t.studentIds
    ensures u.started == t.started && u.ended == t.ended && u.remaining == t.remaining
    ensures u.classTitle == (if Truthy(t.store, TitleKey) then t.store[TitleKey] else t.classTitle)
    ensures u.timer == (if Truthy(t.store, TimerKey) then ToNumber(t.store[TimerKey]) else t.timer)
  {
    var t1 := if Truthy(t.store, TitleKey) then t.(classTitle := t.store[TitleKey]) else t;
    if Truthy(t.store, TimerKey) then t1.(timer := ToNumber(t.store[TimerKey])) else t1
  }

  /** The effect that stores the head count. */
  function StoreTotal(t: TeacherState): TeacherState
  {
    t.(store := t.store[TotalKey := NumToString(t.totalStudents)])
  }

  /** The title input. */
  function WithTitle(t: TeacherState, title: string): TeacherState
  {
    t.(classTitle := title)
  }

  /** The minutes input: `Number(value)`. */
  function WithTimer(t: TeacherState, value: string): TeacherState
  {
    t.(timer := ToNumber(value))
  }

  /** The head-count input, and the effect that stores the head count when it changes. */
  function WithTotal(t: TeacherState, value: string): TeacherState
  {
    var n := ToNumber(value);
    if n == t.totalStudents then t
    else t.(totalStudents := n, store := t.store[TotalKey := NumToString(n)])
  }

  /**
   * The lifecycle invariant: a running session has its end time and running
   * flag stored and a countdown shown; an ended one has neither stored and
   * shows none.
   */
  predicate PhaseInv(t: TeacherState)
  {
    (t.started ==> !t.ended && Truthy(t.store, EndKey) && Get(t.store, FlagKey) == Some("1")) &&
    (t.ended ==> EndKey !in t.store && FlagKey !in t.store) &&
    (t.remaining.Some? <==> t.started)
  }

  /** Storing the head count does not touch the lifecycle keys. */
  lemma WriteTotalKeepsPhaseInv(t: TeacherState, v: string)
    requires PhaseInv(t)
    ensures PhaseInv(t.(store := t.store[TotalKey := v]))
  {
    assert TotalKey != EndKey && TotalKey != FlagKey;
  }

  lemma MountKeepsPhaseInv(st: Store, nowMs: int)
    ensures PhaseInv(MountSession(st, nowMs))
  {
    var r := ReadTotal(Initial(st));
    assert PhaseInv(r) && !r.started && !r.ended;
    RestoreKeepsPhaseInv(r, nowMs);
    var u := RestoreSession(r, nowMs);
    WriteTotalKeepsPhaseInv(u, NumToString(u.totalStudents));
  }

  lemma RestoreKeepsPhaseInv(t: TeacherState, nowMs: int)
    requires PhaseInv(t) && !t.started
    ensures PhaseInv(RestoreSession(t, nowMs))
  {
    var t2 := RestoreInputs(t);
    if Truthy(t.store, EndKey) && Get(t.store, FlagKey) == Some("1") && !t.ended {
      var u := t2.(started := true);
      var diff := CountdownNum(ParseInt(u.store[EndKey]), nowMs);
      if Expired(diff) {
        EndKeepsPhaseInv(u.(remaining := Some(diff)));
      }
    }
  }

  lemma StartKeepsPhaseInv(t: TeacherState, nowMs: int)
    requires PhaseInv(t) && !t.started && !t.ended
    ensures PhaseInv(StartSession(t, nowMs))
  {
    assert NumToString(EndTime(nowMs, t.timer)) != [] by {
      if t.timer.Int? {
        assert |IntToString(nowMs + t.timer.value * 60 * 1000)| >= 1;
      }
    }
  }

  lemma TickKeepsPhaseInv(t: TeacherState, nowMs: int)
    requires PhaseInv(t) && t.started
    ensures PhaseInv(TickSession(t, nowMs))
  {
  }

  lemma EndKeepsPhaseInv(t: TeacherState)
    ensures PhaseInv(EndSession(t))
  {
  }

  lemma EditKeepsPhaseInv(t: TeacherState, title: string, value: string)
    requires PhaseInv(t)
    ensures PhaseInv(WithTitle(t, title)) && PhaseInv(WithTimer(t, value)) && PhaseInv(WithTotal(t, value))
  {
  }

  /**
   * Ending removes exactly the five session keys and keeps every other stored
   * value, the roster among them; it leaves the title, length and head count
   * on the page; and ending twice is ending once.
   */
  lemma EndSessionEffect(t: TeacherState)
    ensures var e := EndSession(t);
      e.store.Keys == t.store.Keys - SessionKeys &&
      (forall k :: k in e.store ==> e.store[k] == t.store[k]) &&
      (RosterKey in t.store ==> RosterKey in e.store && e.store[RosterKey] == t.store[RosterKey]) &&
      e.classTitle == t.classTitle && e.timer == t.timer && e.totalStudents == t.totalStudents &&
      EndSession(e) == e
  {
  }

  /** Removing the session keys one by one, in the page's order, removes them all. */
  lemma RemoveSessionKeys(st: Store)
    ensures st - {EndKey} - {FlagKey} - {TotalKey} - {TitleKey} - {TimerKey} == st - SessionKeys
  {
  }

  /** The snapshot of a roster written by the student page is the list of its ids, newest first. */
  lemma SnapshotOfWrittenRoster(st: Store, roster: seq<Student>)
    ensures Snapshot(st[RosterKey := EncodeRoster(roster)]) == Ids(roster)
  {
    RosterRoundTrip(roster);
  }

  /**
   * After a start with a whole, non-negative number of minutes, every later
   * tick reads the end time back exactly: it shows the countdown to
   * `now + minutes * 60000`, which at the start instant equals the
   * `minutes * 60` the start showed, and it ends the session exactly when
   * that countdown is 0.
   */
  lemma StartThenTick(t: TeacherState, nowMs: int, laterMs: int, minutes: nat)
    requires t.timer == Int(minutes)
    ensures var s := StartSession(t, nowMs);
      var u := TickSession(s, laterMs);
      var left := Countdown(nowMs + minutes * 60 * 1000, laterMs);
      (left > 0 ==> u == s.(remaining := Some(Int(left)))) &&
      (left == 0 ==> u.ended && !u.started && u.remaining == None && u.studentIds == Snapshot(t.store)) &&
      (laterMs == nowMs ==> Some(Int(left)) == s.remaining)
  {
    var s := StartSession(t, nowMs);
    var e := nowMs + minutes * 60 * 1000;
    StartStores(t, nowMs, minutes);
    TickReads(s, laterMs, e);
    CountdownFromStart(nowMs, minutes);
  }

  /** What a start with a whole number of minutes leaves in the store. */
  lemma StartStores(t: TeacherState, nowMs: int, minutes: nat)
    requires t.timer == Int(minutes)
    ensures var s := StartSession(t, nowMs);
      Truthy(s.store, EndKey) && ParseInt(s.store[EndKey]) == Int(nowMs + minutes * 60 * 1000) &&
      Snapshot(s.store) == Snapshot(t.store)
  {
    var s := StartSession(t, nowMs);
    var e := nowMs + minutes * 60 * 1000;
    assert s.store[EndKey] == IntToString(e);
    ParseIntRoundTrip(e);
    StartKeepsRoster(t, nowMs);
  }

  /** A start does not touch the stored roster. */
  lemma StartKeepsRoster(t: TeacherState, nowMs: int)
    ensures Snapshot(StartSession(t, nowMs).store) == Snapshot(t.store)
  {
    var st := StartSession(t, nowMs).store;
    KeysDistinct();
    assert RosterKey in st <==> RosterKey in t.store;
    assert RosterKey in t.store ==> st[RosterKey] == t.store[RosterKey];
  }

  /** A tick over a stored end time that reads as `endMs`. */
  lemma TickReads(t: TeacherState, nowMs: int, endMs: int)
    requires Truthy(t.store, EndKey) && ParseInt(t.store[EndKey]) == Int(endMs)
    ensures var left := Countdown(endMs, nowMs);
      (left > 0 ==> TickSession(t, nowMs) == t.(remaining := Some(Int(left)))) &&
      (left == 0 ==> TickSession(t, nowMs) == EndSession(t.(remaining := Some(Int(0)))))
  {
  }

  /**
   * A tick only depends on the stored end time and the clock: repeating it
   * at the same instant changes nothing while the session still runs.
   */
  lemma TickRepeats(t: TeacherState, nowMs: int)
    requires PhaseInv(t) && t.started
    ensures var u := TickSession(t, nowMs); u.started ==> TickSession(u, nowMs) == u
  {
  }

  /**
   * However many ticks were missed, the first tick with less than a second
   * left before the stored end time, or after it, ends the session and
   * snapshots the stored roster.
   */
  lemma TickAfterEnd(t: TeacherState, nowMs: int, endMs: int)
    requires PhaseInv(t) && t.started
    requires ParseInt(t.store[EndKey]) == Int(endMs) && endMs - nowMs < 1000
    ensures var u := TickSession(t, nowMs);
      u.ended && !u.started && u.remaining == None && u.studentIds == Snapshot(t.store) &&
      u.store == t.store - SessionKeys
  {
    assert Countdown(endMs, nowMs) == 0;
  }

  /**
   * Mounting over a store whose running session has less than a second
   * left, or whose end time has passed, ends it at once with the stored roster's ids, restores the title and length,
   * and keeps the stored roster; the head count is written back.
   */
  lemma MountAfterEnd(st: Store, nowMs: int, endMs: int)
    requires Truthy(st, EndKey) && Get(st, FlagKey) == Some("1")
    requires ParseInt(st[EndKey]) == Int(endMs) && endMs - nowMs < 1000
    ensures var t := MountSession(st, nowMs);
      t.ended && !t.started && t.remaining == None && t.studentIds == Snapshot(st) &&
      (Truthy(st, TitleKey) ==> t.classTitle == st[TitleKey]) &&
      EndKey !in t.store && FlagKey !in t.store &&
      (RosterKey in st ==> RosterKey in t.store && t.store[RosterKey] == st[RosterKey]) &&
      TotalKey in t.store && t.store[TotalKey] == NumToString(t.totalStudents) &&
      (Truthy(st, TotalKey) ==> t.totalStudents == ToNumber(st[TotalKey]))
  {
    var r := ReadTotal(Initial(st));
    assert r.store == st && !r.ended;
    var u := RestoreInputs(r).(started := true, remaining := Some(Int(0)));
    RestoreAfterEnd(r, nowMs, endMs);
    EndSessionEffect(u);
    var e := EndSession(u);
    assert MountSession(st, nowMs) == e.(store := e.store[TotalKey := NumToString(e.totalStudents)]);
    KeysDistinct();
  }

  /** The restore effect over a running session with less than a second left ends it. */
  lemma RestoreAfterEnd(t: TeacherState, nowMs: int, endMs: int)
    requires Truthy(t.store, EndKey) && Get(t.store, FlagKey) == Some("1") && !t.ended
    requires ParseInt(t.store[EndKey]) == Int(endMs) && endMs - nowMs < 1000
    ensures RestoreSession(t, nowMs) == EndSession(RestoreInputs(t).(started := true, remaining := Some(Int(0))))
  {
    assert Countdown(endMs, nowMs) == 0;
  }

  /** Mounting over a store whose running session has time left resumes it. */
  lemma MountBeforeEnd(st: Store, nowMs: int, endMs: int)
    requires Truthy(st, EndKey) && Get(st, FlagKey) == Some("1")
    requires ParseInt(st[EndKey]) == Int(endMs) && endMs - nowMs >= 1000
    ensures var t := MountSession(st, nowMs);
      t.started && !t.ended && t.remaining == Some(Int(Countdown(endMs, nowMs))) &&
      t.store == st[TotalKey := NumToString(t.totalStudents)]
  {
    var r := ReadTotal(Initial(st));
    assert r.store == st && !r.ended;
    var t2 := RestoreInputs(r);
    var u := RestoreSession(r, nowMs);
    assert u == t2.(started := true, remaining := Some(Int(Countdown(endMs, nowMs))));
  }

  /** Without both the end time and the running flag, mounting does not start anything. */
  lemma MountWithoutSession(st: Store, nowMs: int)
    requires !(Truthy(st, EndKey) && Get(st, FlagKey) == Some("1"))
    ensures var t := MountSession(st, nowMs);
      !t.started && !t.ended && t.remaining == None && t.studentIds == []
  {
  }

  // ----- the download -----

  /** `totalStudents > 0 ? Math.round((present / totalStudents) * 100) : 0`. */
  function Rate(present: int, total: Num): (r: int)
    ensures total.Int? && total.value > 0 ==>
      2 * total.value * r - total.value <= 200 * present < 2 * total.value * r + total.value
    ensures !(total.Int? && total.value > 0) ==> r == 0
    ensures 0 <= present ==> 0 <= r
  {
    if total.Int? && total.value > 0 then RoundRate(present, total.value) else 0
  }

  const Header: string := "クラス名,総人数,出席率,学籍番号\n"

  /** The lines after the first data line: each only the id, in the last column. */
  function MoreRows(ids: seq<string>): string
  {
    if ids == [] then "" else ",,," + ids[0] + "\n" + MoreRows(ids[1..])
  }

  lemma {:induction false} MoreRowsSnoc(ids: seq<string>, id: string)
    ensures MoreRows(ids + [id]) == MoreRows(ids) + (",,," + id + "\n")
  {
    if ids == [] {
      assert ids + [id] == [id];
    } else {
      assert (ids + [id])[1..] == ids[1..] + [id];
      MoreRowsSnoc(ids[1..], id);
    }
  }

  lemma AppendAssoc(a: string, b: string, c: string)
    ensures a + b + c == a + (b + c)
  {
  }

  /** The CSV text `downloadCSV` builds (no quoting). */
  function CsvText(title: string, total: Num, ids: seq<string>): string
  {
    var rate := Rate(|ids|, total);
    if |ids| > 0 then
      Header + title + "," + NumToString(total) + "人," + IntToString(rate) + "%," + ids[0] + "\n" + MoreRows(ids[1..])
    else
      Header + title + "," + NumToString(total) + "," + IntToString(rate) + ",\n"
  }

  /**
   * The table the CSV text stands for: a header row, then either a first row
   * with title, head count, rate and the first id followed by one row per
   * further id holding only that id, or, with no ids, a single row with no id.
   */
  function CsvRows(title: string, total: Num, ids: seq<string>): (rows: seq<seq<string>>)
    ensures |rows| == 1 + (if |ids| > 0 then |ids| else 1)
    ensures forall i :: 0 <= i < |rows| ==> |rows[i]| == 4
  {
    var rate := Rate(|ids|, total);
    [HeaderRow] +
    (if |ids| > 0 then [[title, NumToString(total) + "人", IntToString(rate) + "%", ids[0]]] + IdRows(ids[1..])
     else [[title, NumToString(total), IntToString(rate), ""]])
  }

  /** One row per id, the id in the last column. */
  function IdRows(ids: seq<string>): (rows: seq<seq<string>>)
    ensures |rows| == |ids|
    ensures forall i :: 0 <= i < |rows| ==> rows[i] == ["", "", "", ids[i]]
  {
    if ids == [] then [] else [["", "", "", ids[0]]] + IdRows(ids[1..])
  }

  lemma {:induction false} MoreRowsTable(ids: seq<string>)
    ensures MoreRows(ids) == TableText(IdRows(ids))
  {
    if ids != [] {
      MoreRowsTable(ids[1..]);
      assert Line(["", "", "", ids[0]]) == ",,," + ids[0];
    }
  }

  /** The CSV text is the table of `CsvRows`, one line per row. */
  lemma CsvIsTable(title: string, total: Num, ids: seq<string>)
    ensures CsvText(title, total, ids) == TableText(CsvRows(title, total, ids))
  {
    if |ids| > 0 {
      CsvIsTableWithIds(title, total, ids);
    } else {
      CsvIsTableWithoutIds(title, total);
    }
  }

  lemma CsvIsTableWithIds(title: string, total: Num, ids: seq<string>)
    requires |ids| > 0
    ensures CsvText(title, total, ids) == TableText(CsvRows(title, total, ids))
  {
    var first := [title, NumToString(total) + "人", IntToString(Rate(|ids|, total)) + "%", ids[0]];
    CsvTextWithIds(title, total, ids, first);
    CsvRowsWithIds(title, total, ids, first);
    MoreRowsTable(ids[1..]);
  }

  lemma CsvTextWithIds(title: string, total: Num, ids: seq<string>, first: seq<string>)
    requires |ids| > 0
    requires first == [title, NumToString(total) + "人", IntToString(Rate(|ids|, total)) + "%", ids[0]]
    ensures CsvText(title, total, ids) == Header + (Line(first) + "\n") + MoreRows(ids[1..])
  {
    FirstLine(title, NumToString(total), IntToString(Rate(|ids|, total)), ids[0]);
  }

  lemma CsvRowsWithIds(title: string, total: Num, ids: seq<string>, first: seq<string>)
    requires |ids| > 0
    requires first == [title, NumToString(total) + "人", IntToString(Rate(|ids|, total)) + "%", ids[0]]
    ensures TableText(CsvRows(title, total, ids)) == Header + (Line(first) + "\n") + TableText(IdRows(ids[1..]))
  {
    var more := IdRows(ids[1..]);
    assert CsvRows(title, total, ids) == [HeaderRow] + ([first] + more);
    HeaderIsLine();
    TableTextCons(HeaderRow, [first] + more);
    TableTextCons(first, more);
    AppendAssoc(Header, Line(first) + "\n", TableText(more));
  }

  lemma CsvIsTableWithoutIds(title: string, total: Num)
    ensures CsvText(title, total, []) == TableText(CsvRows(title, total, []))
  {
    var t, r := NumToString(total), IntToString(Rate(0, total));
    var only := [title, t, r, ""];
    var x := Line(only) + "\n";
    assert CsvText(title, total, []) == Header + x by {
      OnlyLine(title, t, r);
    }
    assert TableText(CsvRows(title, total, [])) == Header + (x + TableText([])) by {
      assert CsvRows(title, total, []) == [HeaderRow] + [only];
      HeaderIsLine();
      TableTextCons(HeaderRow, [only]);
      TableTextCons(only, []);
    }
    assert x + TableText([]) == x;
  }

  lemma OnlyLine(title: string, t: string, r: string)
    ensures Header + title + "," + t + "," + r + ",\n" == Header + (Line([title, t, r, ""]) + "\n")
  {
  }

  lemma FirstLine(title: string, t: string, r: string, id: string)
    ensures Header + title + "," + t + "人," + r + "%," + id + "\n" == Header + (Line([title, t + "人", r + "%", id]) + "\n")
  {
  }

  const HeaderRow: seq<string> := ["クラス名", "総人数", "出席率", "学籍番号"]

  lemma HeaderIsLine()
    ensures Header == Line(HeaderRow) + "\n"
  {
  }

  lemma TableTextCons(row: seq<string>, rows: seq<seq<string>>)
    requires |row| == 4 && forall i :: 0 <= i < |rows| ==> |rows[i]| == 4
    ensures TableText([row] + rows) == Line(row) + "\n" + TableText(rows)
  {
    assert ([row] + rows)[1..] == rows;
  }

  lemma NumberTextClean(n: Num, i: int)
    ensures Clean(NumToString(n)) && Clean(NumToString(n) + "人")
    ensures Clean(IntToString(i)) && Clean(IntToString(i) + "%")
  {
    assert Clean(IntToString(i)) by {
      if i < 0 {
        assert IntToString(i) == "-" + NatToString(-i);
      }
    }
    assert Clean(NumToString(n));
  }

  /**
   * When neither the title nor any id holds a comma or a line break, the
   * downloaded text reads back: split into lines it has one line per row of
   * `CsvRows` and an empty remainder after the last line break, and each
   * line split on commas is that row.
   */
  lemma CsvReadsBack(title: string, total: Num, ids: seq<string>)
    requires Clean(title)
    requires forall i :: 0 <= i < |ids| ==> Clean(ids[i])
    ensures var rows := CsvRows(title, total, ids);
      var ls := Split(CsvText(title, total, ids), '\n');
      |ls| == |rows| + 1 && ls[|rows|] == "" &&
      forall i :: 0 <= i < |rows| ==> Split(ls[i], ',') == rows[i]
  {
    CsvRowsClean(title, total, ids);
    CsvIsTable(title, total, ids);
    TableReadsBack(CsvRows(title, total, ids));
  }

  /** With a clean title and clean ids, every cell of the table is clean. */
  lemma CsvRowsClean(title: string, total: Num, ids: seq<string>)
    requires Clean(title)
    requires forall i :: 0 <= i < |ids| ==> Clean(ids[i])
    ensures var rows := CsvRows(title, total, ids);
      forall i :: 0 <= i < |rows| ==> |rows[i]| == 4 && CleanRow(rows[i])
  {
    var t, r := NumToString(total), IntToString(Rate(|ids|, total));
    NumberTextClean(total, Rate(|ids|, total));
    HeaderRowClean();
    if |ids| > 0 {
      var first := [title, t + "人", r + "%", ids[0]];
      assert CleanRow(first);
      IdRowsClean(ids[1..]);
      CsvRowsWithIdsClean(title, total, ids, first, IdRows(ids[1..]));
    } else {
      var only := [title, t, r, ""];
      assert CleanRow(only);
      CleanRowsCons(only, []);
      CleanRowsCons(HeaderRow, [only] + []);
      assert CsvRows(title, total, ids) == [HeaderRow] + ([only] + []);
    }
  }

  lemma CsvRowsWithIdsClean(title: string, total: Num, ids: seq<string>, first: seq<string>, more: seq<seq<string>>)
    requires |ids| > 0
    requires first == [title, NumToString(total) + "人", IntToString(Rate(|ids|, total)) + "%", ids[0]]
    requires more == IdRows(ids[1..])
    requires CleanRow(first) && CleanRow(HeaderRow)
    requires forall i :: 0 <= i < |more| ==> |more[i]| == 4 && CleanRow(more[i])
    ensures var rows := CsvRows(title, total, ids);
      forall i :: 0 <= i < |rows| ==> |rows[i]| == 4 && CleanRow(rows[i])
  {
    CleanRowsCons(first, more);
    CleanRowsCons(HeaderRow, [first] + more);
    assert CsvRows(title, total, ids) == [HeaderRow] + ([first] + more);
  }

  lemma IdRowsClean(ids: seq<string>)
    requires forall i :: 0 <= i < |ids| ==> Clean(ids[i])
    ensures var rows := IdRows(ids); forall i :: 0 <= i < |rows| ==> |rows[i]| == 4 && CleanRow(rows[i])
  {
    var rows := IdRows(ids);
    forall i | 0 <= i < |rows|
      ensures CleanRow(rows[i])
    {
      assert rows[i] == ["", "", "", ids[i]];
    }
  }

  lemma HeaderRowClean()
    ensures CleanRow(HeaderRow)
  {
  }

  /** The characters the file-name sanitiser keeps. */
  predicate SafeChar(c: char)
  {
    ('a' <= c <= 'z') || ('A' <= c <= 'Z') || ('0' <= c <= '9') ||
    ('一' <= c <= '龠') || ('ぁ' <= c <= 'ん') || ('ァ' <= c <= 'ン') ||
    c == 'ー' || c == '_' || c == '-'
  }

  /** The title with every character the sanitiser rejects removed. */
  function Sanitize(s: string): (r: string)
    ensures |r| <= |s|
    ensures forall i :: 0 <= i < |r| ==> SafeChar(r[i])
    ensures forall c :: c in r <==> c in s && SafeChar(c)
  {
    if s == [] then [] else (if SafeChar(s[0]) then [s[0]] else []) + Sanitize(s[1..])
  }

  /** Sanitising keeps order: it works piece by piece. */
  lemma {:induction false} SanitizeAppend(a: string, b: string)
    ensures Sanitize(a + b) == Sanitize(a) + Sanitize(b)
  {
    if a != [] {
      assert (a + b)[1..] == a[1..] + b;
      SanitizeAppend(a[1..], b);
    } else {
      assert a + b == b;
    }
  }

  /** A title made only of kept characters is left as it is. */
  lemma {:induction false} SanitizeSafe(s: string)
    requires forall i :: 0 <= i < |s| ==> SafeChar(s[i])
    ensures Sanitize(s) == s
  {
    if s != [] {
      SanitizeSafe(s[1..]);
    }
  }

  /** Sanitising twice is sanitising once. */
  lemma SanitizeIdempotent(s: string)
    ensures Sanitize(Sanitize(s)) == Sanitize(s)
  {
    SanitizeSafe(Sanitize(s));
  }

  /** `${y}${m}${d}_${safeClassTitle}_attendance.csv`, month and day padded to two digits. */
  function FileName(year: int, month: int, day: int, title: string): string
    requires 1 <= month <= 12 && 1 <= day <= 31
  {
    IntToString(year) + Pad2(IntToString(month)) + Pad2(IntToString(day)) + "_" + Sanitize(title) + "_attendance.csv"
  }

  lemma FourDigits(n: nat)
    requires 1000 <= n <= 9999
    ensures |NatToString(n)| == 4
  {
    assert |NatToString(n / 10)| == 3 by {
      assert |NatToString(n / 100)| == 2 by {
        assert |NatToString(n / 1000)| == 1;
      }
    }
  }

  /**
   * For a four-digit year the name is eight digits spelling the year, month
   * and day, an underscore, the sanitised title and `_attendance.csv`.
   */
  lemma FileNameLayout(year: int, month: int, day: int, title: string)
    requires 1000 <= year <= 9999 && 1 <= month <= 12 && 1 <= day <= 31
    ensures |FileName(year, month, day, title)| == 8 + 1 + |Sanitize(title)| + 15
    ensures var f := FileName(year, month, day, title);
      var k := |Sanitize(title)|;
      AllDigits(f[..8]) && AllDigits(f[..4]) && AllDigits(f[4..6]) && AllDigits(f[6..8]) &&
      DigitsValue(f[..4]) == year && DigitsValue(f[4..6]) == month && DigitsValue(f[6..8]) == day &&
      f[8] == '_' && f[9..9 + k] == Sanitize(title) && f[9 + k..] == "_attendance.csv"
  {
    var y, m, d := NatToString(year), Pad2(NatToString(month)), Pad2(NatToString(day));
    FourDigits(year);
    NatToStringValue(year);
    Pad2Digits(month);
    Pad2Digits(day);
    assert FileName(year, month, day, title) == y + m + d + "_" + Sanitize(title) + "_attendance.csv";
    FileNameParts(y, m, d, Sanitize(title));
  }

  /** Where the parts of a name built from a 4-character year and 2-character month and day lie. */
  lemma FileNameParts(y: string, m: string, d: string, s: string)
    requires |y| == 4 && |m| == 2 && |d| == 2
    requires AllDigits(y) && AllDigits(m) && AllDigits(d)
    ensures var f := y + m + d + "_" + s + "_attendance.csv";
      |f| == 8 + 1 + |s| + 15 && AllDigits(f[..8]) &&
      f[..4] == y && f[4..6] == m && f[6..8] == d &&
      f[8] == '_' && f[9..9 + |s|] == s && f[9 + |s|..] == "_attendance.csv"
  {
    var f := y + m + d + "_" + s + "_attendance.csv";
    assert f[..8] == y + m + d;
    assert forall i :: 0 <= i < 8 ==> f[i] == (if i < 4 then y[i] else if i < 6 then m[i - 4] else d[i - 6]);
  }

  /** The page as an object, with the state hooks as fields. */
  class TeacherPage {
    var store: Store
    var classTitle: string
    var timer: Num
    var totalStudents: Num
    var started: bool
    var ended: bool
    var studentIds: seq<string>
    var remaining: Option<Num>

    function State(): TeacherState
      reads this
    {
      TeacherState(store, classTitle, timer, totalStudents, started, ended, studentIds, remaining)
    }

    predicate Valid()
      reads this
    {
      PhaseInv(State())
    }

    /** `handleEnd`. */
    method End()
      modifies this
      ensures Valid()
      ensures State() == EndSession(old(State()))
    {
      var ids: seq<string> := [];
      if Truthy(store, RosterKey) {
        match DecodeRoster(store[RosterKey]) {
          case Some(r) => ids := Ids(r);
          case None =>
        }
      }
      assert ids == Snapshot(store);
      studentIds := ids;
      ended := true;
      started := false;
      remaining := None;
      RemoveSessionKeys(store);
      store := store - {EndKey};
      store := store - {FlagKey};
      store := store - {TotalKey};
      store := store - {TitleKey};
      store := store - {TimerKey};
    }

    /** Recompute the seconds left from the stored end time; end when none are left. */
    method RecountFromStore(nowMs: int)
      requires started && !ended && Truthy(store, EndKey) && Get(store, FlagKey) == Some("1")
      modifies this
      ensures Valid()
      ensures State() == Recount(old(State()), nowMs)
    {
      var endTime := ParseInt(store[EndKey]);
      var diff := CountdownNum(endTime, nowMs);
      remaining := Some(diff);
      if Expired(diff) {
        End();
      }
    }

    /** Mounting the page over the store `st` at time `nowMs`, effects included. */
    constructor (st: Store, nowMs: int)
      ensures Valid()
      ensures State() == MountSession(st, nowMs)
    {
      store := st;
      classTitle := "";
      timer := Int(30);
      totalStudents := Int(0);
      started := false;
      ended := false;
      studentIds := [];
      remaining := None;
      new;
      LoadTotal();
      Restore(nowMs);
      SaveTotal();
    }

    /** The effect that reads the stored head count. */
    method LoadTotal()
      requires Valid()
      modifies this
      ensures Valid()
      ensures State() == ReadTotal(old(State()))
    {
      if Truthy(store, TotalKey) {
        totalStudents := ToNumber(store[TotalKey]);
      }
    }

    /** The restore effect, which runs once, before anything has started. */
    method Restore(nowMs: int)
      requires Valid() && !started
      modifies this
      ensures Valid()
      ensures State() == RestoreSession(old(State()), nowMs)
    {
      var end := Get(store, EndKey);
      var startedFlag := Get(store, FlagKey);
      var savedTitle := Get(store, TitleKey);
      var savedTimer := Get(store, TimerKey);
      ghost var t := old(State());
      if savedTitle.Some? && savedTitle.value != "" {
        classTitle := savedTitle.value;
      }
      ghost var t1 := if Truthy(t.store, TitleKey) then t.(classTitle := t.store[TitleKey]) else t;
      assert State() == t1;
      if savedTimer.Some? && savedTimer.value != "" {
        timer := ToNumber(savedTimer.value);
      }
      ghost var t2 := RestoreInputs(t);
      assert State() == t2;
      if end.Some? && end.value != "" && startedFlag == Some("1") && !ended {
        started := true;
        assert State() == t2.(started := true);
        RecountFromStore(nowMs);
      }
    }

    /** The effect that stores the head count. */
    method SaveTotal()
      requires Valid()
      modifies this
      ensures Valid()
      ensures State() == StoreTotal(old(State()))
    {
      WriteTotalKeepsPhaseInv(State(), NumToString(totalStudents));
      store := store[TotalKey := NumToString(totalStudents)];
    }

    method EditTitle(title: string)
      requires Valid() && !started && !ended
      modifies this
      ensures Valid()
      ensures State() == WithTitle(old(State()), title)
    {
      classTitle := title;
    }

    method EditTimer(value: string)
      requires Valid() && !started && !ended
      modifies this
      ensures Valid()
      ensures State() == WithTimer(old(State()), value)
    {
      timer := ToNumber(value);
    }

    method EditTotal(value: string)
      requires Valid() && !started && !ended
      modifies this
      ensures Valid()
      ensures State() == WithTotal(old(State()), value)
    {
      var n := ToNumber(value);
      if n != totalStudents {
        totalStudents := n;
        store := store[TotalKey := NumToString(n)];
      }
    }

    /** `handleStart`, offered only while a title is set and no session has started or ended. */
    method Start(nowMs: int)
      requires Valid() && classTitle != "" && !started && !ended
      modifies this
      ensures Valid()
      ensures State() == StartSession(old(State()), nowMs)
    {
      started := true;
      store := store[TitleKey := classTitle];
      store := store[TimerKey := NumToString(timer)];
      store := store[TotalKey := NumToString(totalStudents)];
      var endTime := EndTime(nowMs, timer);
      store := store[EndKey := NumToString(endTime)];
      store := store[FlagKey := "1"];
      remaining := Some(Seconds(timer));
      StartKeepsPhaseInv(old(State()), nowMs);
    }

    /** One run of the interval, which only runs while the session runs. */
    method Tick(nowMs: int)
      requires Valid() && started && !ended
      modifies this
      ensures Valid()
      ensures State() == TickSession(old(State()), nowMs)
    {
      if Truthy(store, EndKey) {
        RecountFromStore(nowMs);
      }
    }

    /** `downloadCSV`: the CSV text and the file name for the date `year`-`month`-`day`. */
    method DownloadCsv(year: int, month: int, day: int) returns (csv: string, fileName: string)
      requires 1 <= month <= 12 && 1 <= day <= 31
      ensures csv == CsvText(classTitle, totalStudents, studentIds)
      ensures fileName == FileName(year, month, day, classTitle)
    {
      var present := |studentIds|;
      var rate := Rate(present, totalStudents);
      csv := Header;
      if |studentIds| > 0 {
        csv := csv + classTitle + "," + NumToString(totalStudents) + "人," + IntToString(rate) + "%," + studentIds[0] + "\n";
        ghost var first := csv;
        for i := 1 to |studentIds|
          invariant csv == first + MoreRows(studentIds[1..i])
        {
          var line := ",,," + studentIds[i] + "\n";
          MoreRowsSnoc(studentIds[1..i], studentIds[i]);
          assert studentIds[1..i + 1] == studentIds[1..i] + [studentIds[i]];
          AppendAssoc(first, MoreRows(studentIds[1..i]), line);
          csv := csv + line;
        }
        assert studentIds[1..|studentIds|] == studentIds[1..];
      } else {
        csv := csv + classTitle + "," + NumToString(totalStudents) + "," + IntToString(rate) + ",\n";
      }
      var y := IntToString(year);
      var m := Pad2(IntToString(month));
      var d := Pad2(IntToString(day));
      var safe := Sanitize(classTitle);
      fileName := y + m + d + "_" + safe + "_attendance.csv";
    }
  }
}
