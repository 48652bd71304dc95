/** The record loader: each line of the course file is split on commas, its fields trimmed, and
    a line with at least two fields becomes a course stored under its normalised number. */
module Loader {
  import opened Normalize
  import opened Courses

  /** Index of the first comma of `s`, or `|s|` when there is none. */
  function FirstComma(s: string): (i: nat)
    ensures i <= |s|
    ensures i < |s| ==> s[i] == ','
    decreases |s|
  {
    if s == [] || s[0] == ',' then 0 else 1 + FirstComma(s[1..])
  }

  /** No comma stands before `FirstComma(s)`. */
  lemma {:induction false} FirstCommaIsFirst(s: string)
    ensures forall j :: 0 <= j < FirstComma(s) ==> s[j] != ','
    decreases |s|
  {
    if s != [] && s[0] != ',' {
      FirstCommaIsFirst(s[1..]);
      assert forall j :: 1 <= j < |s| ==> s[j] == s[1..][j - 1];
    }
  }

  /** The pieces that repeated `getline(ss, token, ',')` extracts from `s`: each call takes the
      text up to the next comma and consumes the comma; a call that finds the stream exhausted
      fails. So an empty line gives no piece, interior empty pieces are kept, and a final comma
      produces no trailing empty piece. */
  function Pieces(s: string): seq<string>
    decreases |s|
  {
    if s == [] then []
    else
      var i := FirstComma(s);
      if i == |s| then [s] else [s[..i]] + Pieces(s[i + 1..])
  }

  /** The pieces put back together with the comma between them (the partner of `Pieces`). */
  function Join(ps: seq<string>): string
    decreases |ps|
  {
    if |ps| == 0 then ""
    else if |ps| == 1 then ps[0]
    else ps[0] + "," + Join(ps[1..])
  }

  /** Every piece trimmed with `trimLine`. */
  function TrimAll(ps: seq<string>): seq<string> {
    seq(|ps|, i requires 0 <= i < |ps| => Trim(ps[i]))
  }

  /** The `tokens` vector `loadCourses` builds for one line. */
  function Tokens(line: string): seq<string> {
    TrimAll(Pieces(line))
  }

  /** The course one line of the file yields, if any: an empty line, or one with fewer than two
      tokens, is skipped; otherwise token 0 is the number, token 1 the name and the rest are
      the prerequisites, in file order and with their original letter case. */
  function ParseLine(line: string): Option<Course> {
    if line == [] then None
    else
      var tokens := Tokens(line);
      if |tokens| < 2 then None
      else Some(Course(tokens[1], tokens[0], tokens[2..]))
  }

  /** What one line contributes to the table: the key `checkCaseSensitve(courseNum)` and the
      course stored under it, if the line yields a course. */
  function LineEntry(line: string): Option<(string, Course)> {
    match ParseLine(line)
    case None => None
    case Some(c) => Some((Key(c.courseNum), c))
  }

  /** The entries of all lines, in file order. */
  function Entries(lines: seq<string>): seq<Option<(string, Course)>> {
    seq(|lines|, i requires 0 <= i < |lines| => LineEntry(lines[i]))
  }

  /** The table after the given entries, in order, starting from the cleared table; a later
      entry overwrites an earlier one with the same key. */
  function Build(es: seq<Option<(string, Course)>>): map<string, Course>
    decreases |es|
  {
    if es == [] then map[]
    else
      var m := Build(es[..|es| - 1]);
      match es[|es| - 1]
      case None => m
      case Some(e) => m[e.0 := e.1]
  }

  /** The table a successful load builds from the file's lines. */
  function LoadAll(lines: seq<string>): map<string, Course> {
    Build(Entries(lines))
  }

  /** Entry `i` stores a course under key `k`. */
  ghost predicate KeyedAt(es: seq<Option<(string, Course)>>, i: int, k: string) {
    0 <= i < |es| && es[i].Some? && es[i].value.0 == k
  }

  /** Number of entries that store a course. */
  function StoredCount(es: seq<Option<(string, Course)>>): nat
    decreases |es|
  {
    if es == [] then 0 else StoredCount(es[..|es| - 1]) + (if es[|es| - 1].Some? then 1 else 0)
  }

  // ---------------------------------------------------------------------------
  // The implementations.

  lemma TrimAllAppend(a: seq<string>, b: seq<string>)
    ensures TrimAll(a + b) == TrimAll(a) + TrimAll(b)
  {
  }

  /** The stream position after one `getline(ss, token, ',')`: past the comma, or at the end. */
  function AfterPiece(s: string): string
    requires s != []
  {
    var i := FirstComma(s);
    if i < |s| then s[i + 1..] else []
  }

  /** One `getline` call: the first token is the trimmed text up to the first comma, and the
      remaining tokens are those of the rest of the stream. */
  lemma TokensStep(s: string)
    requires s != []
    ensures |AfterPiece(s)| < |s|
    ensures Tokens(s) == [Trim(s[..FirstComma(s)])] + Tokens(AfterPiece(s))
  {
    var i := FirstComma(s);
    if i == |s| {
      assert s[..i] == s;
    }
    assert Pieces(s) == [s[..i]] + Pieces(AfterPiece(s));
    TrimAllAppend([s[..i]], Pieces(AfterPiece(s)));
  }

  /** The scan `getline` makes for the next delimiter. */
  method ScanToComma(s: string) returns (i: nat)
    ensures i == FirstComma(s)
  {
    i := 0;
    while i < |s| && s[i] != ','
      invariant 0 <= i <= |s|
      invariant forall j :: 0 <= j < i ==> s[j] != ','
    {
      i := i + 1;
    }
    FirstCommaIsFirst(s);
  }

  /** The token loop of `loadCourses`: `getline(ss, token, ',')` until it fails, pushing the
      trimmed token each time. */
  method SplitTokens(line: string) returns (tokens: seq<string>)
    ensures tokens == Tokens(line)
  {
    tokens := [];
    var rest := line;
    while rest != []
      invariant Tokens(line) == tokens + Tokens(rest)
      decreases |rest|
    {
      var i := ScanToComma(rest);
      var token := TrimLine(rest[..i]);
      TokensStep(rest);
      ghost var next := AfterPiece(rest);
      assert tokens + Tokens(rest) == (tokens + [token]) + Tokens(next);
      tokens := tokens + [token];
      rest := if i < |rest| then rest[i + 1..] else [];
      assert rest == next;
    }
  }

  /** `loadCourses`: when the file cannot be opened, report failure and leave the table alone;
      otherwise clear the table and store the course of every accepted line, a later line
      overwriting an earlier one with the same key. */
  method LoadCourses(table: CourseTable, fileOpened: bool, lines: seq<string>) returns (ok: bool)
    modifies table
    ensures ok == fileOpened
    ensures table.entries == if fileOpened then LoadAll(lines) else old(table.entries)
  {
    if !fileOpened {
      return false;
    }
    table.entries := map[];
    for n := 0 to |lines|
      invariant table.entries == LoadAll(lines[..n])
    {
      var line := lines[n];
      LoadAllStep(lines, n);
      if line == [] {
        continue;
      }
      var tokens := SplitTokens(line);
      if |tokens| < 2 {
        continue;
      }
      var prereq := CopyPrerequisites(tokens);
      assert prereq == tokens[2..];
      var course := Course(tokens[1], tokens[0], prereq);
      var key := CheckCaseSensitive(course.courseNum);
      table.entries := table.entries[key := course];
    }
    assert lines[..|lines|] == lines;
    return true;
  }

  /** The prerequisite loop of `loadCourses`: every token after the number and the name, in
      order. */
  method CopyPrerequisites(tokens: seq<string>) returns (prereq: seq<string>)
    requires |tokens| >= 2
    ensures |prereq| == |tokens| - 2
    ensures forall j :: 0 <= j < |prereq| ==> prereq[j] == tokens[j + 2]
  {
    prereq := [];
    for i := 2 to |tokens|
      invariant |prereq| == i - 2
      invariant forall j :: 0 <= j < |prereq| ==> prereq[j] == tokens[j + 2]
    {
      prereq := prereq + [tokens[i]];
    }
  }

  /** One more line: the table after line `n` is the table before it, with that line's entry
      stored if it has one. */
  lemma LoadAllStep(lines: seq<string>, n: int)
    requires 0 <= n < |lines|
    ensures LoadAll(lines[..n + 1]) ==
      match LineEntry(lines[n])
      case None => LoadAll(lines[..n])
      case Some(e) => LoadAll(lines[..n])[e.0 := e.1]
  {
    assert Entries(lines[..n + 1]) == Entries(lines[..n]) + [LineEntry(lines[n])];
    assert (Entries(lines[..n]) + [LineEntry(lines[n])])[..n] == Entries(lines[..n]);
  }

  // ---------------------------------------------------------------------------
  // Splitting.

  /** A string without a comma is a single piece. */
  lemma PiecesWhole(s: string)
    requires s != [] && FirstComma(s) == |s|
    ensures Pieces(s) == [s]
    ensures ',' !in s && s[|s| - 1] != ','
  {
    FirstCommaIsFirst(s);
  }

  /** A string with a comma is the piece before its first comma, then the pieces after it. */
  lemma PiecesSplit(s: string)
    requires FirstComma(s) < |s|
    ensures var i := FirstComma(s);
      && Pieces(s) == [s[..i]] + Pieces(s[i + 1..])
      && s == s[..i] + "," + s[i + 1..]
  {
    CommaSplit(s, FirstComma(s));
  }

  /** A string is the text before a comma, the comma, and the text after it. */
  lemma CommaSplit(s: string, i: int)
    requires 0 <= i < |s| && s[i] == ','
    ensures s == s[..i] + "," + s[i + 1..]
  {
    assert s[i..] == [s[i]] + s[i + 1..];
    assert s == s[..i] + s[i..];
  }

  lemma JoinCons(first: string, ps: seq<string>)
    requires ps != []
    ensures Join([first] + ps) == first + "," + Join(ps)
  {
    assert ([first] + ps)[0] == first && ([first] + ps)[1..] == ps;
  }

  /** No piece holds a comma. */
  lemma {:induction false} PiecesHaveNoComma(s: string)
    ensures forall p :: p in Pieces(s) ==> ',' !in p
    decreases |s|
  {
    if s != [] {
      if FirstComma(s) < |s| {
        PiecesSplit(s);
        FirstCommaIsFirst(s);
        assert ',' !in s[..FirstComma(s)];
        PiecesHaveNoComma(s[FirstComma(s) + 1..]);
      } else {
        PiecesWhole(s);
      }
    }
  }

  /** The suffix a final comma leaves behind, which `Pieces` drops. */
  function FinalComma(s: string): string {
    if s != [] && s[|s| - 1] == ',' then "," else ""
  }

  /** Joining the pieces gives back the line, less a final comma. */
  lemma {:induction false} PiecesJoinBack(s: string)
    ensures Join(Pieces(s)) + FinalComma(s) == s
    decreases |s|
  {
    if s != [] {
      var i := FirstComma(s);
      if i == |s| {
        PiecesWhole(s);
        assert s + "" == s;
      } else {
        PiecesSplit(s);
        var first, rest := s[..i], s[i + 1..];
        if rest == [] {
          assert Pieces(s) == [first];
        } else {
          PiecesJoinBack(rest);
          assert Pieces(rest) != [];
          JoinStep(first, rest, Pieces(rest));
        }
      }
    }
  }

  /** The induction step of `PiecesJoinBack`: a non-empty rest after the first comma. */
  lemma JoinStep(first: string, rest: string, ps: seq<string>)
    requires rest != [] && ps != [] && Join(ps) + FinalComma(rest) == rest
    ensures Join([first] + ps) + FinalComma(first + "," + rest) == first + "," + rest
  {
    JoinCons(first, ps);
    var s := first + "," + rest;
    assert s[|s| - 1] == rest[|rest| - 1];
    assert FinalComma(s) == FinalComma(rest);
  }

  /** One direction of the inverse: no piece holds a comma, and joining the pieces gives the
      string back up to the final comma that `getline` consumes without producing a piece. */
  lemma PiecesJoin(s: string)
    ensures forall p :: p in Pieces(s) ==> ',' !in p
    ensures Join(Pieces(s)) + FinalComma(s) == s
  {
    PiecesHaveNoComma(s);
    PiecesJoinBack(s);
  }

  /** A string without a comma has its first comma at the end. */
  lemma {:induction false} FirstCommaOfNoComma(s: string)
    requires ',' !in s
    ensures FirstComma(s) == |s|
    decreases |s|
  {
    if s != [] {
      assert s[0] in s;
      assert forall c :: c in s[1..] ==> c in s;
      FirstCommaOfNoComma(s[1..]);
    }
  }

  /** The first comma of `f + "," + r`, for a comma-free `f`, is the one after `f`. */
  lemma {:induction false} FirstCommaAfter(f: string, r: string)
    requires ',' !in f
    ensures FirstComma(f + "," + r) == |f|
    decreases |f|
  {
    var s := f + "," + r;
    if f == [] {
      assert s[0] == ',';
    } else {
      assert f[0] in f;
      assert forall c :: c in f[1..] ==> c in f;
      assert s[0] == f[0] && s[1..] == f[1..] + "," + r;
      FirstCommaAfter(f[1..], r);
    }
  }

  /** The other direction: splitting the join of comma-free pieces whose last piece is not
      empty gives the pieces back. (A final empty piece is what `getline` never yields.) */
  lemma {:induction false} PiecesOfJoin(ps: seq<string>)
    requires forall p :: p in ps ==> ',' !in p
    requires ps == [] || ps[|ps| - 1] != []
    ensures Pieces(Join(ps)) == ps
    decreases |ps|
  {
    if |ps| == 1 {
      assert ps[0] in ps;
      FirstCommaOfNoComma(ps[0]);
    } else if |ps| >= 2 {
      var f, rest := ps[0], ps[1..];
      assert f in ps;
      assert forall p :: p in rest ==> p in ps;
      assert rest[|rest| - 1] == ps[|ps| - 1];
      var s := f + "," + Join(rest);
      FirstCommaAfter(f, Join(rest));
      assert s[..|f|] == f && s[|f| + 1..] == Join(rest);
      PiecesOfJoin(rest);
      assert ps == [f] + rest;
    }
  }

  /** A line has at least two pieces exactly when a comma stands before its last character. */
  lemma {:induction false} PiecesAtLeastTwo(s: string)
    ensures |Pieces(s)| >= 2 <==> exists i :: 0 <= i < |s| - 1 && s[i] == ','
  {
    if s != [] {
      var i := FirstComma(s);
      FirstCommaIsFirst(s);
      if i < |s| {
        var rest := s[i + 1..];
        assert rest != [] ==> Pieces(rest) != [];
        if i < |s| - 1 {
          assert s[i] == ',';
        }
      }
    }
  }

  // ---------------------------------------------------------------------------
  // Line acceptance.

  /** A line yields a course exactly when it holds a comma before its last character (pieces
      that trim to nothing still count), and then the course is made of its trimmed pieces. */
  lemma LineAcceptance(line: string)
    ensures ParseLine(line).Some? <==> exists i :: 0 <= i < |line| - 1 && line[i] == ','
    ensures ParseLine(line).Some? ==>
      var ps := Pieces(line);
      var c := ParseLine(line).value;
      && |ps| >= 2
      && c.courseNum == Trim(ps[0])
      && c.courseName == Trim(ps[1])
      && |c.prereq| == |ps| - 2
      && forall j :: 0 <= j < |c.prereq| ==> c.prereq[j] == Trim(ps[j + 2])
  {
    PiecesAtLeastTwo(line);
  }

  /** A line that starts with a comma is accepted with an empty course number; a line whose only
      comma is its last character is skipped. */
  lemma LineExamples()
    ensures ParseLine(",x") == Some(Course("x", "", []))
    ensures ParseLine("CS101,") == None
  {
    assert FirstComma(",x") == 0;
    assert ",x"[1..] == "x";
    assert FirstComma("x") == 1;
    assert Pieces(",x") == ["", "x"];
    assert Trim("x") == "x" by {
      assert "x" == [] + "x" + [];
      TrimUnique([], "x", []);
    }
    assert Trim("") == "";
    assert Tokens(",x") == ["", "x"];
    assert |Tokens(",x")| == 2 && Tokens(",x")[2..] == [];
    PiecesAtLeastTwo("CS101,");
    assert forall i :: 0 <= i < 5 ==> "CS101,"[i] != ',';
    assert |Pieces("CS101,")| < 2;
  }

  // ---------------------------------------------------------------------------
  // Building the table.

  /** A key is in the table exactly when some entry stores under it. */
  lemma {:induction false} BuildKeys(es: seq<Option<(string, Course)>>, k: string)
    ensures k in Build(es) <==> exists i :: KeyedAt(es, i, k)
    decreases |es|
  {
    if es != [] {
      var init := es[..|es| - 1];
      BuildKeys(init, k);
      assert k in Build(es) <==> k in Build(init) || KeyedAt(es, |es| - 1, k);
      if exists i :: KeyedAt(init, i, k) {
        var i :| KeyedAt(init, i, k);
        assert KeyedAt(es, i, k);
      }
      if exists i :: KeyedAt(es, i, k) {
        var i :| KeyedAt(es, i, k);
        if i < |init| {
          assert KeyedAt(init, i, k);
        }
      }
    }
  }

  /** The course under a key is the one of the last entry that stores under it. */
  lemma {:induction false} BuildLastWins(es: seq<Option<(string, Course)>>, i: int, k: string)
    requires KeyedAt(es, i, k)
    requires forall j :: i < j < |es| ==> !KeyedAt(es, j, k)
    ensures k in Build(es) && Build(es)[k] == es[i].value.1
    decreases |es|
  {
    var init := es[..|es| - 1];
    if i < |es| - 1 {
      assert !KeyedAt(es, |es| - 1, k);
      assert KeyedAt(init, i, k);
      forall j | i < j < |init| ensures !KeyedAt(init, j, k) {
        assert !KeyedAt(es, j, k);
      }
      BuildLastWins(init, i, k);
    }
  }

  /** Every course stored is stored under the key its entry names with it. */
  lemma {:induction false} BuildWellKeyed(es: seq<Option<(string, Course)>>)
    requires forall i :: 0 <= i < |es| && es[i].Some? ==> es[i].value.0 == Key(es[i].value.1.courseNum)
    ensures WellKeyed(Build(es))
    decreases |es|
  {
    if es != [] {
      var init := es[..|es| - 1];
      forall i | 0 <= i < |init| && init[i].Some?
        ensures init[i].value.0 == Key(init[i].value.1.courseNum)
      {
        assert init[i] == es[i];
      }
      BuildWellKeyed(init);
    }
  }

  /** The table never holds more entries than were stored, and exactly as many when the stored
      keys are pairwise different. */
  lemma {:induction false} BuildSize(es: seq<Option<(string, Course)>>)
    ensures |Build(es)| <= StoredCount(es)
    ensures (forall i, j, k :: i < j && KeyedAt(es, i, k) ==> !KeyedAt(es, j, k))
      ==> |Build(es)| == StoredCount(es)
    decreases |es|
  {
    if es != [] {
      var init := es[..|es| - 1];
      BuildSize(init);
      if forall i, j, k :: i < j && KeyedAt(es, i, k) ==> !KeyedAt(es, j, k) {
        forall i, j, k | i < j && KeyedAt(init, i, k) ensures !KeyedAt(init, j, k) {
          assert KeyedAt(es, i, k);
          assert KeyedAt(init, j, k) ==> KeyedAt(es, j, k);
        }
        if es[|es| - 1].Some? {
          var k := es[|es| - 1].value.0;
          BuildKeys(init, k);
          if k in Build(init) {
            var i :| KeyedAt(init, i, k);
            assert KeyedAt(es, i, k) && KeyedAt(es, |es| - 1, k);
          }
        }
      }
    }
  }

  // ---------------------------------------------------------------------------
  // The loaded table.

  /** The key of a line that yields a course, if any. */
  function LineKey(line: string): Option<string> {
    match LineEntry(line)
    case None => None
    case Some(e) => Some(e.0)
  }

  lemma KeyedAtLine(lines: seq<string>, i: int, k: string)
    requires 0 <= i < |lines|
    ensures KeyedAt(Entries(lines), i, k) <==> LineKey(lines[i]) == Some(k)
  {
  }

  /** After a load every key is the normalised number of the course stored under it, so no two
      entries share a course number. */
  lemma LoadAllWellKeyed(lines: seq<string>)
    ensures WellKeyed(LoadAll(lines))
  {
    BuildWellKeyed(Entries(lines));
  }

  /** A key is in the loaded table exactly when some line yields a course with that key. */
  lemma LoadAllKeys(lines: seq<string>, k: string)
    ensures k in LoadAll(lines) <==> exists i :: 0 <= i < |lines| && LineKey(lines[i]) == Some(k)
  {
    var es := Entries(lines);
    BuildKeys(es, k);
    if exists i :: KeyedAt(es, i, k) {
      var i :| KeyedAt(es, i, k);
      KeyedAtLine(lines, i, k);
    }
    if exists i :: 0 <= i < |lines| && LineKey(lines[i]) == Some(k) {
      var i :| 0 <= i < |lines| && LineKey(lines[i]) == Some(k);
      KeyedAtLine(lines, i, k);
    }
  }

  /** Last write wins: the entry under a key is the course of the last line with that key. */
  lemma LastWriteWins(lines: seq<string>, i: int, k: string)
    requires 0 <= i < |lines| && LineKey(lines[i]) == Some(k)
    requires forall j :: i < j < |lines| ==> LineKey(lines[j]) != Some(k)
    ensures k in LoadAll(lines) && LoadAll(lines)[k] == ParseLine(lines[i]).value
  {
    var es := Entries(lines);
    KeyedAtLine(lines, i, k);
    forall j | i < j < |es| ensures !KeyedAt(es, j, k) {
      KeyedAtLine(lines, j, k);
    }
    BuildLastWins(es, i, k);
  }

  /** A file with N accepted lines whose keys are pairwise different gives exactly N entries;
      repeated keys can only make the table smaller. */
  lemma LoadAllSize(lines: seq<string>)
    ensures |LoadAll(lines)| <= StoredCount(Entries(lines))
    ensures (forall i, j :: 0 <= i < j < |lines| && LineKey(lines[i]).Some? ==> LineKey(lines[i]) != LineKey(lines[j]))
      ==> |LoadAll(lines)| == StoredCount(Entries(lines))
  {
    var es := Entries(lines);
    BuildSize(es);
    if forall i, j :: 0 <= i < j < |lines| && LineKey(lines[i]).Some? ==> LineKey(lines[i]) != LineKey(lines[j]) {
      forall i, j, k | i < j && KeyedAt(es, i, k) ensures !KeyedAt(es, j, k) {
        KeyedAtLine(lines, i, k);
        if 0 <= j < |lines| { KeyedAtLine(lines, j, k); }
      }
    }
  }
}
