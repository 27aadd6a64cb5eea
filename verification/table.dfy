/**
 * Reading comma-separated text back: splitting on a separator character,
 * and a table of four-column rows written one line per row. The download
 * writes such a table without quoting, so it reads back whenever no cell
 * holds a comma or a line break.
 */
module Table {
  /** The pieces of `s` between occurrences of `sep`; always at least one. */
  function Split(s: string, sep: char): (parts: seq<string>)
    ensures |parts| >= 1
  {
    if s == [] then [""]
    else if s[0] == sep then [""] + Split(s[1..], sep)
    else
      var r := Split(s[1..], sep);
      [[s[0]] + r[0]] + r[1..]
  }

  /** Text without the separator is one piece. */
  lemma {:induction false} SplitPlain(p: string, sep: char)
    requires sep !in p
    ensures Split(p, sep) == [p]
  {
    if p != [] {
      SplitPlain(p[1..], sep);
      assert [p[0]] + p[1..] == p;
    }
  }

  /** A separator-free piece followed by the separator is split off first. */
  lemma {:induction false} SplitJoin(p: string, q: string, sep: char)
    requires sep !in p
    ensures Split(p + [sep] + q, sep) == [p] + Split(q, sep)
  {
    if p == [] {
      assert p + [sep] + q == [sep] + q;
      assert ([sep] + q)[1..] == q;
    } else {
      var s := p + [sep] + q;
      assert s[0] == p[0] && s[1..] == p[1..] + [sep] + q;
      SplitJoin(p[1..], q, sep);
      assert [p[0]] + p[1..] == p;
    }
  }

  /** A cell that needs no quoting. */
  predicate Clean(c: string)
  {
    ',' !in c && '\n' !in c
  }

  predicate CleanRow(row: seq<string>)
  {
    |row| == 4 && forall k :: 0 <= k < 4 ==> Clean(row[k])
  }

  /** Putting a clean row in front of clean rows keeps every row clean. */
  lemma CleanRowsCons(row: seq<string>, rows: seq<seq<string>>)
    requires CleanRow(row)
    requires forall i :: 0 <= i < |rows| ==> |rows[i]| == 4 && CleanRow(rows[i])
    ensures var all := [row] + rows; forall i :: 0 <= i < |all| ==> |all[i]| == 4 && CleanRow(all[i])
  {
    var all := [row] + rows;
    forall i | 0 <= i < |all|
      ensures CleanRow(all[i])
    {
      if i > 0 {
        assert all[i] == rows[i - 1];
      }
    }
  }

  /** One row as a line of text, cells joined by commas. */
  function Line(row: seq<string>): string
    requires |row| == 4
  {
    row[0] + "," + row[1] + "," + row[2] + "," + row[3]
  }

  /** Rows as text, each line ended by a line break. */
  function TableText(rows: seq<seq<string>>): string
    requires forall i :: 0 <= i < |rows| ==> |rows[i]| == 4
  {
    if rows == [] then "" else Line(rows[0]) + "\n" + TableText(rows[1..])
  }

  /** A line of clean cells holds no line break and splits on commas into those cells. */
  lemma LineReadsBack(row: seq<string>)
    requires CleanRow(row)
    ensures '\n' !in Line(row)
    ensures Split(Line(row), ',') == row
  {
    assert Clean(row[0]) && Clean(row[1]) && Clean(row[2]) && Clean(row[3]);
    var c := row[2] + [','] + row[3];
    var b := row[1] + [','] + c;
    var a := row[0] + [','] + b;
    assert Line(row) == a;
    SplitPlain(row[3], ',');
    SplitJoin(row[2], row[3], ',');
    SplitJoin(row[1], c, ',');
    SplitJoin(row[0], b, ',');
    assert Split(a, ',') == [row[0], row[1], row[2], row[3]];
  }

  /**
   * A table of clean rows splits on line breaks into one line per row and a
   * final empty piece, and each line splits on commas into its row.
   */
  lemma {:induction false} TableReadsBack(rows: seq<seq<string>>)
    requires forall i :: 0 <= i < |rows| ==> |rows[i]| == 4 && CleanRow(rows[i])
    ensures var ls := Split(TableText(rows), '\n');
      |ls| == |rows| + 1 && ls[|rows|] == "" &&
      forall i :: 0 <= i < |rows| ==> Split(ls[i], ',') == rows[i]
  {
    if rows == [] {
    } else {
      LineReadsBack(rows[0]);
      TableReadsBack(rows[1..]);
      SplitJoin(Line(rows[0]), TableText(rows[1..]), '\n');
      assert TableText(rows) == Line(rows[0]) + ['\n'] + TableText(rows[1..]);
      var ls := Split(TableText(rows), '\n');
      var tail := Split(TableText(rows[1..]), '\n');
      assert ls == [Line(rows[0])] + tail;
      forall i | 0 <= i < |rows|
        ensures Split(ls[i], ',') == rows[i]
      {
        if i > 0 {
          assert ls[i] == tail[i - 1];
          assert rows[i] == rows[1..][i - 1];
        }
      }
    }
  }
}
