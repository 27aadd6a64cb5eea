/**
 * Whole-class runs through both pages over one shared store: the teacher
 * starts a session, the student page mounts over the store the teacher left
 * and receives check-ins, and the teacher ends the session over the store
 * the student page left.
 */
module Scenario {
  import opened Wrappers
  import opened Js
  import opened Clock
  import opened Store
  import opened Records
  import opened Display
  import opened Teacher

  /** A successful "present" check-in of student `id` at `timestamp`. */
  function CheckIn(id: string, timestamp: string): AttendanceEvent
  {
    AttendanceEvent("attendance", true, "present", Some(StudentInfo(id, "", "", "")), timestamp, "")
  }

  /**
   * "Intro to CS", 30 minutes, two expected: after check-ins from A1, A2 and
   * A1 again, the roster holds A2 then A1; the student page's count shows 3
   * of 50 because the repeated check-in still counts; ending the session
   * snapshots A2, A1, and the download reports 2 of 2, 100%.
   */
  lemma IntroToCs(t: TeacherState, nowMs: int, s: TeacherState, d0: DisplayState, d: DisplayState, e: TeacherState)
    requires t.classTitle == "Intro to CS" && t.timer == Int(30) && t.totalStudents == Int(2)
    requires !t.started && !t.ended && RosterKey !in t.store
    requires s == StartSession(t, nowMs)
    requires d0 == Display.Mount(s.store, nowMs)
    requires d == Handle(Handle(Handle(d0, CheckIn("A1", "t1")), CheckIn("A2", "t2")), CheckIn("A1", "t3"))
    requires e == EndSession(s.(store := d.store))
    ensures d0.currentClass == "Intro to CS" && d0.remaining == Int(1800)
    ensures Ids(d.roster) == ["A2", "A1"] && d.roster[1].timestamp == "t1"
    ensures d.stats == Display.Stats(3, 50, 6)
    ensures e.studentIds == ["A2", "A1"]
    ensures CsvText(e.classTitle, e.totalStudents, e.studentIds) == Header + "Intro to CS,2人,100%,A2\n,,,A1\n"
  {
    IntroMount(t, nowMs);
    IntroCheckIns(d0);
    assert e.studentIds == Snapshot(d.store);
    assert d.store == d0.store[RosterKey := EncodeRoster(d.roster)];
    SnapshotOfWrittenRoster(d0.store, d.roster);
    assert e.classTitle == "Intro to CS" && e.totalStudents == Int(2);
    IntroCsv();
  }

  lemma IntroMount(t: TeacherState, nowMs: int)
    requires t.classTitle == "Intro to CS" && t.timer == Int(30)
    requires !t.started && !t.ended && RosterKey !in t.store
    ensures var d0 := Display.Mount(StartSession(t, nowMs).store, nowMs);
      d0.currentClass == "Intro to CS" && d0.remaining == Int(1800) &&
      d0.roster == [] && Consistent(d0)
  {
    var s := StartSession(t, nowMs);
    KeysDistinct();
    assert s.store[TitleKey] == "Intro to CS" && RosterKey !in s.store;
    assert Hydrate(s.store) == [];
    assert RemainingOf(s.store, nowMs) == Int(1800) by {
      StartStores(t, nowMs, 30);
      CountdownFromStart(nowMs, 30);
    }
    MountConsistent(s.store, nowMs);
  }

  lemma IntroCheckIns(d0: DisplayState)
    requires d0.roster == [] && Consistent(d0)
    ensures var d := Handle(Handle(Handle(d0, CheckIn("A1", "t1")), CheckIn("A2", "t2")), CheckIn("A1", "t3"));
      Ids(d.roster) == ["A2", "A1"] && d.roster[1].timestamp == "t1" &&
      d.stats == Display.Stats(3, 50, 6) && d.store == d0.store[RosterKey := EncodeRoster(d.roster)]
  {
    var a1 := Student("A1", "", "", "", "t1");
    var a2 := Student("A2", "", "", "", "t2");
    assert Receive([], CheckIn("A1", "t1")) == [a1];
    var d1 := Handle(d0, CheckIn("A1", "t1"));
    assert d1 == d0.(roster := [a1], stats := StatsOf([a1]), store := d0.store[RosterKey := EncodeRoster([a1])]);
    assert Ids([a1]) == ["A1"];
    assert Receive([a1], CheckIn("A2", "t2")) == [a2, a1];
    var d2 := Handle(d1, CheckIn("A2", "t2"));
    assert d2 == d0.(roster := [a2, a1], stats := StatsOf([a2, a1]), store := d0.store[RosterKey := EncodeRoster([a2, a1])]);
    assert Ids([a2, a1]) == ["A2", "A1"] by {
      IdsCons(a2, [a1]);
    }
    assert Receive([a2, a1], CheckIn("A1", "t3")) == [a2, a1];
    assert Handle(d2, CheckIn("A1", "t3")) == d2.(stats := Bump(Display.Stats(2, 50, 4)));
    assert Bump(Display.Stats(2, 50, 4)) == Display.Stats(3, 50, 6);
  }

  lemma IntroCsv()
    ensures CsvText("Intro to CS", Int(2), ["A2", "A1"]) == Header + "Intro to CS,2人,100%,A2\n,,,A1\n"
  {
    CsvOfTwo("Intro to CS", Int(2), "A2", "A1");
    TwoOfTwo();
  }

  lemma TwoOfTwo()
    ensures Rate(2, Int(2)) == 100 && IntToString(100) == "100" && NumToString(Int(2)) == "2"
  {
    assert NatToString(10) == "10";
  }

  lemma TwoOfThree()
    ensures Rate(2, Int(3)) == 67 && IntToString(67) == "67" && NumToString(Int(3)) == "3"
  {
  }

  /** The download of two ids: the first row, then the second id alone. */
  lemma CsvOfTwo(title: string, total: Num, a: string, b: string)
    ensures CsvText(title, total, [a, b]) ==
      Header + title + "," + NumToString(total) + "人," + IntToString(Rate(2, total)) + "%," + a + "\n" + (",,," + b + "\n")
  {
    assert [a, b][1..] == [b];
    assert MoreRows([b]) == ",,," + b + "\n" by {
      assert MoreRows([b]) == ",,," + b + "\n" + MoreRows([]);
    }
  }

  /** Title 数学, three expected, S1 and S2 present: 67%. */
  lemma ExportOfTwoOfThree()
    ensures CsvText("数学", Int(3), ["S1", "S2"]) == Header + "数学,3人,67%,S1\n,,,S2\n"
  {
    CsvOfTwo("数学", Int(3), "S1", "S2");
    TwoOfThree();
  }

  /**
   * A one-minute session and a single tick 61 seconds after the start: the
   * session has ended with the roster as stored at that moment.
   */
  lemma OneMinuteThenLateTick(t: TeacherState, nowMs: int)
    requires t.timer == Int(1) && !t.started && !t.ended
    ensures var u := TickSession(StartSession(t, nowMs), nowMs + 61000);
      u.ended && !u.started && u.studentIds == Snapshot(t.store)
  {
    StartThenTick(t, nowMs, nowMs + 61000, 1);
  }
}
