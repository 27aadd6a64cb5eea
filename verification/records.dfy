/**
 * Attendance records, the inbound card-reader events, and the text form the
 * roster takes in the session store. The pages use `JSON.stringify` and
 * `JSON.parse` for that text; here it is a length-prefixed encoding whose
 * decoder may fail, and what the pages rely on is the round trip.
 */
module Records {
  import opened Wrappers
  import opened Js

  /** The `student` payload of a card-reader event. */
  datatype StudentInfo = StudentInfo(id: string, name: string, year: string, department: string)

  /** One check-in on the roster. */
  datatype Student = Student(id: string, name: string, year: string, department: string, timestamp: string)

  /** A message event's `data`: `type`, `success`, `status`, optional `student`, `timestamp`, `message`. */
  datatype AttendanceEvent = AttendanceEvent(
    kind: string, success: bool, status: string, student: Option<StudentInfo>, timestamp: string, message: string)

  /** `roster.map(s => s.id)`. */
  function Ids(roster: seq<Student>): (ids: seq<string>)
    ensures |ids| == |roster|
    ensures forall k :: 0 <= k < |roster| ==> ids[k] == roster[k].id
  {
    if roster == [] then [] else [roster[0].id] + Ids(roster[1..])
  }

  lemma IdsCons(x: Student, roster: seq<Student>)
    ensures Ids([x] + roster) == [x.id] + Ids(roster)
  {
    assert ([x] + roster)[1..] == roster;
  }

  /** No two records share a student id. */
  predicate DistinctIds(roster: seq<Student>)
  {
    forall i, j :: 0 <= i < j < |roster| ==> roster[i].id != roster[j].id
  }

  /** Reads a decimal count followed by ':'; gives the count and what follows. */
  function ReadCount(s: string): (r: Option<(nat, string)>)
    ensures r.Some? ==> |r.value.1| < |s|
  {
    var d := DigitPrefix(s);
    if d == [] || |d| == |s| || s[|d|] != ':' then None
    else Some((DigitsValue(d), s[|d| + 1..]))
  }

  lemma ReadCountOf(n: nat, rest: string)
    ensures ReadCount(NatToString(n) + ":" + rest) == Some((n, rest))
  {
    var d := NatToString(n);
    var s := d + ":" + rest;
    assert s == d + (":" + rest);
    DigitPrefixOf(d, ":" + rest);
    NatToStringValue(n);
    assert s[|d| + 1..] == rest;
  }

  function EncodeText(t: string): string
  {
    NatToString(|t|) + ":" + t
  }

  function DecodeText(s: string): (r: Option<(string, string)>)
    ensures r.Some? ==> |r.value.1| < |s|
  {
    match ReadCount(s)
    case None => None
    case Some((n, body)) => if n <= |body| then Some((body[..n], body[n..])) else None
  }

  lemma DecodeEncodeText(t: string, rest: string)
    ensures DecodeText(EncodeText(t) + rest) == Some((t, rest))
  {
    assert EncodeText(t) + rest == NatToString(|t|) + ":" + (t + rest);
    ReadCountOf(|t|, t + rest);
    assert (t + rest)[..|t|] == t && (t + rest)[|t|..] == rest;
  }

  /** A run of texts, each with its length in front. */
  function EncodeFields(fields: seq<string>): string
  {
    if fields == [] then "" else EncodeText(fields[0]) + EncodeFields(fields[1..])
  }

  function DecodeFields(n: nat, s: string): (r: Option<(seq<string>, string)>)
    ensures r.Some? ==> |r.value.0| == n && |r.value.1| <= |s| - n
    decreases n
  {
    if n == 0 then Some(([], s))
    else
      match DecodeText(s)
      case None => None
      case Some((f, s1)) =>
        match DecodeFields(n - 1, s1)
        case None => None
        case Some((fs, s2)) => Some(([f] + fs, s2))
  }

  lemma {:induction false} DecodeEncodeFields(fields: seq<string>, rest: string)
    ensures DecodeFields(|fields|, EncodeFields(fields) + rest) == Some((fields, rest))
  {
    if fields != [] {
      var tail := EncodeFields(fields[1..]) + rest;
      assert EncodeFields(fields) + rest == EncodeText(fields[0]) + tail;
      DecodeEncodeText(fields[0], tail);
      DecodeEncodeFields(fields[1..], rest);
      assert [fields[0]] + fields[1..] == fields;
    } else {
      assert EncodeFields(fields) + rest == rest;
    }
  }

  function Fields(x: Student): seq<string>
  {
    [x.id, x.name, x.year, x.department, x.timestamp]
  }

  /** All the roster's fields, record after record. */
  function Flatten(roster: seq<Student>): (fs: seq<string>)
    ensures |fs| == 5 * |roster|
  {
    if roster == [] then [] else Fields(roster[0]) + Flatten(roster[1..])
  }

  /** Groups a run of fields back into records of five. */
  function Group(fs: seq<string>): seq<Student>
    requires |fs| % 5 == 0
  {
    if fs == [] then [] else [Student(fs[0], fs[1], fs[2], fs[3], fs[4])] + Group(fs[5..])
  }

  lemma {:induction false} GroupFlatten(roster: seq<Student>)
    ensures Group(Flatten(roster)) == roster
  {
    if roster != [] {
      var fs := Flatten(roster);
      assert fs[5..] == Flatten(roster[1..]);
      GroupFlatten(roster[1..]);
      assert [roster[0]] + roster[1..] == roster;
    }
  }

  /** The roster as stored text (`JSON.stringify(roster)`); never the empty string. */
  function EncodeRoster(roster: seq<Student>): (s: string)
    ensures s != []
  {
    NatToString(|roster|) + ":" + EncodeFields(Flatten(roster))
  }

  /** Stored text back to a roster (`JSON.parse`); None when the text is not a roster. */
  function DecodeRoster(s: string): Option<seq<Student>>
  {
    match ReadCount(s)
    case None => None
    case Some((n, body)) =>
      match DecodeFields(5 * n, body)
      case None => None
      case Some((fs, rest)) => if rest == [] then Some(Group(fs)) else None
  }

  /** Whatever roster is written, reading it back gives the same roster. */
  lemma RosterRoundTrip(roster: seq<Student>)
    ensures DecodeRoster(EncodeRoster(roster)) == Some(roster)
  {
    var fs := Flatten(roster);
    ReadCountOf(|roster|, EncodeFields(fs));
    DecodeEncodeFields(fs, []);
    assert EncodeFields(fs) + [] == EncodeFields(fs);
    GroupFlatten(roster);
  }
}
