/** The single-course query: normalise the number asked for, look it up, and print the course
    with each of its prerequisites resolved against the same table. */
module Lookup {
  import opened Normalize
  import opened Courses
  import opened Loader

  const NotFoundLine := "Course does not exist."
  const NoPrereqsLine := "Prerequisites: None"
  const PrereqsPrefix := "Prerequisites: "

  /** The text printed for one prerequisite as written in the file: the stored number and name
      of the course its key finds, or the text as written followed by `(Unknown)`. */
  function ItemText(table: map<string, Course>, prereq: string): string {
    var k := Key(prereq);
    if k in table then table[k].courseNum + " (" + table[k].courseName + ")"
    else prereq + "(Unknown)"
  }

  /** The prerequisites printed in order, a comma and a space before all but the first. */
  function PrereqText(table: map<string, Course>, ps: seq<string>): string
    decreases |ps|
  {
    if ps == [] then ""
    else
      var n := |ps| - 1;
      PrereqText(table, ps[..n]) + (if n == 0 then "" else ", ") + ItemText(table, ps[n])
  }

  /** Everything `findCourse` prints for the query `query`, one string per line. */
  function Lookup(table: map<string, Course>, query: string): seq<string> {
    var k := Key(query);
    if k !in table then [NotFoundLine]
    else
      var c := table[k];
      [c.courseNum + ", " + c.courseName,
       if c.prereq == [] then NoPrereqsLine else PrereqsPrefix + PrereqText(table, c.prereq)]
  }

  /** `findCourse`: normalises the query and looks it up; for a found course prints the stored
      number and name, then the prerequisite line. The table is only read. */
  method FindCourse(courseTable: CourseTable, courseNum: string) returns (output: seq<string>)
    ensures output == Lookup(courseTable.entries, courseNum)
  {
    var table := courseTable.entries;
    var key := CheckCaseSensitive(courseNum);
    if key in table {
      var course := table[key];
      output := [course.courseNum + ", " + course.courseName];
      if course.prereq == [] {
        output := output + [NoPrereqsLine];
      } else {
        var text := PrereqLine(table, course.prereq);
        output := output + [PrereqsPrefix + text];
      }
    } else {
      output := [NotFoundLine];
    }
  }

  /** The loop of `findCourse` over the prerequisites, with the flag `first` deciding whether a
      separator goes before the next item. */
  method PrereqLine(table: map<string, Course>, prereqs: seq<string>) returns (text: string)
    ensures text == PrereqText(table, prereqs)
  {
    text := "";
    var first := true;
    for i := 0 to |prereqs|
      invariant first <==> i == 0
      invariant text == PrereqText(table, prereqs[..i])
    {
      if !first {
        text := text + ", ";
      }
      var item := PrereqItem(table, prereqs[i]);
      PrereqTextStep(table, prereqs, i, text, item);
      text := text + item;
      first := false;
    }
    assert prereqs[..|prereqs|] == prereqs;
  }

  /** The body of that loop for one prerequisite: normalise it, look it up, and print the
      stored number and name, or the text as written followed by `(Unknown)`. */
  method PrereqItem(table: map<string, Course>, prereq: string) returns (item: string)
    ensures item == ItemText(table, prereq)
  {
    var prereqKey := CheckCaseSensitive(prereq);
    if prereqKey in table {
      var found := table[prereqKey];
      item := found.courseNum + " (" + found.courseName + ")";
    } else {
      item := prereq + "(Unknown)";
    }
  }

  // ---------------------------------------------------------------------------
  // What the output says.

  /** One more item: the text printed so far, its separator and the next item make the text of
      one more prerequisite. */
  lemma PrereqTextStep(table: map<string, Course>, ps: seq<string>, i: int, text: string, item: string)
    requires 0 <= i < |ps|
    requires text == PrereqText(table, ps[..i]) + (if i == 0 then "" else ", ")
    requires item == ItemText(table, ps[i])
    ensures text + item == PrereqText(table, ps[..i + 1])
  {
    assert ps[..i + 1][..i] == ps[..i];
  }

  /** A non-empty prerequisite line ends with `)`, so it is never the word `None`. */
  lemma {:induction false} PrereqTextEndsWithParen(table: map<string, Course>, ps: seq<string>)
    requires ps != []
    ensures var t := PrereqText(table, ps); |t| > 0 && t[|t| - 1] == ')'
    decreases |ps|
  {
    var n := |ps| - 1;
    var item := ItemText(table, ps[n]);
    assert |item| > 0 && item[|item| - 1] == ')';
    var t := PrereqText(table, ps);
    assert t == PrereqText(table, ps[..n]) + (if n == 0 then "" else ", ") + item;
    assert t[|t| - 1] == item[|item| - 1];
  }

  /** The three outcomes of a query: the course is missing exactly when the only line says
      so; a found course prints its stored number and name, then `None` exactly when it has no
      prerequisites. */
  lemma LookupOutcomes(table: map<string, Course>, query: string)
    ensures Key(query) !in table <==> Lookup(table, query) == [NotFoundLine]
    ensures Key(query) in table ==>
      var c := table[Key(query)];
      && |Lookup(table, query)| == 2
      && Lookup(table, query)[0] == c.courseNum + ", " + c.courseName
      && (Lookup(table, query)[1] == NoPrereqsLine <==> c.prereq == [])
  {
    var k := Key(query);
    if k in table && table[k].prereq != [] {
      var t := PrereqText(table, table[k].prereq);
      PrereqTextEndsWithParen(table, table[k].prereq);
      var line := PrereqsPrefix + t;
      assert line[|line| - 1] == ')';
      assert NoPrereqsLine[|NoPrereqsLine| - 1] == 'e';
    }
  }

  /** The query is matched without regard to surrounding whitespace or ASCII letter case. */
  lemma LookupIgnoresCase(table: map<string, Course>, q1: string, q2: string)
    requires SameIgnoringCase(Trim(q1), Trim(q2))
    ensures Lookup(table, q1) == Lookup(table, q2)
  {
    KeyEqualIff(q1, q2);
  }

  /** After loading, a query finds the course of the last accepted line with that key. */
  lemma LookupAfterLoad(lines: seq<string>, i: int, query: string)
    requires 0 <= i < |lines| && LineKey(lines[i]) == Some(Key(query))
    requires forall j :: i < j < |lines| ==> LineKey(lines[j]) != Some(Key(query))
    ensures var c := ParseLine(lines[i]).value;
      Lookup(LoadAll(lines), query)[0] == c.courseNum + ", " + c.courseName
  {
    LastWriteWins(lines, i, Key(query));
  }

  /** After loading, a query whose key no accepted line has reports that the course does not
      exist. */
  lemma LookupAfterLoadMissing(lines: seq<string>, query: string)
    requires forall j :: 0 <= j < |lines| ==> LineKey(lines[j]) != Some(Key(query))
    ensures Lookup(LoadAll(lines), query) == [NotFoundLine]
  {
    LoadAllKeys(lines, Key(query));
  }

  /** A course with one prerequisite prints that prerequisite alone: resolved to the stored
      number and name when its key is in the table, otherwise as written with `(Unknown)`. */
  lemma LookupSinglePrereq(table: map<string, Course>, query: string, prereq: string)
    requires Key(query) in table && table[Key(query)].prereq == [prereq]
    ensures var k := Key(prereq);
      Lookup(table, query)[1] == PrereqsPrefix +
        if k in table then table[k].courseNum + " (" + table[k].courseName + ")"
        else prereq + "(Unknown)"
  {
    var ps := table[Key(query)].prereq;
    assert ps[..0] == [] && ps[..1] == ps;
    PrereqTextStep(table, ps, 0, "", ItemText(table, prereq));
    assert "" + ItemText(table, prereq) == ItemText(table, prereq);
  }
}
