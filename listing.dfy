/** The full listing: the table's courses are copied into a vector in the hash map's iteration
    order, bubble-sorted in place by course number, and printed one "number, name" line each. */
module Listing {
  import opened StringOrder
  import opened Normalize
  import opened Courses

  /** `x` may stand before `y`: `x.courseNum > y.courseNum` does not hold. */
  predicate InOrder(x: Course, y: Course) {
    !Less(y.courseNum, x.courseNum)
  }

  /** Non-decreasing by course number. */
  ghost predicate Sorted(s: seq<Course>) {
    forall i, j :: 0 <= i < j < |s| ==> InOrder(s[i], s[j])
  }

  /** The courses of `s` numbered `num`, in their order in `s`. */
  function WithNum(s: seq<Course>, num: string): seq<Course>
    decreases |s|
  {
    if s == [] then [] else (if s[0].courseNum == num then [s[0]] else []) + WithNum(s[1..], num)
  }

  /** `t` holds, for every course number, the same courses in the same relative order as `s`. */
  ghost predicate SameRuns(s: seq<Course>, t: seq<Course>) {
    forall num :: WithNum(s, num) == WithNum(t, num)
  }

  /** No two positions of `s` hold the same course number. */
  ghost predicate DistinctNums(s: seq<Course>) {
    forall i, j :: 0 <= i < |s| && 0 <= j < |s| && s[i].courseNum == s[j].courseNum ==> i == j
  }

  /** Every course number occurs at most once in `s`. */
  ghost predicate ShortRuns(s: seq<Course>) {
    forall num :: |WithNum(s, num)| <= 1
  }

  // ---------------------------------------------------------------------------
  // The order on courses.

  lemma InOrderReflexive(x: Course)
    ensures InOrder(x, x)
  {
    LessIrreflexive(x.courseNum);
  }

  lemma InOrderTransitive(x: Course, y: Course, z: Course)
    requires InOrder(x, y) && InOrder(y, z)
    ensures InOrder(x, z)
  {
    LessTotal(z.courseNum, y.courseNum);
    if Less(z.courseNum, x.courseNum) && Less(y.courseNum, z.courseNum) {
      LessTransitive(y.courseNum, z.courseNum, x.courseNum);
    }
  }

  /** Courses in order both ways have the same number. */
  lemma InOrderAntisymmetric(x: Course, y: Course)
    requires InOrder(x, y) && InOrder(y, x)
    ensures x.courseNum == y.courseNum
  {
    LessTotal(x.courseNum, y.courseNum);
  }

  // ---------------------------------------------------------------------------
  // Runs of equal numbers.

  lemma {:induction false} WithNumAppend(a: seq<Course>, b: seq<Course>, num: string)
    ensures WithNum(a + b, num) == WithNum(a, num) + WithNum(b, num)
    decreases |a|
  {
    if a != [] {
      assert (a + b)[0] == a[0];
      assert (a + b)[1..] == a[1..] + b;
      WithNumAppend(a[1..], b, num);
    } else {
      assert a + b == b;
    }
  }

  /** Two courses with different numbers contribute the same run in either order. */
  lemma PairRuns(x: Course, y: Course, num: string)
    requires x.courseNum != y.courseNum
    ensures WithNum([x, y], num) == WithNum([y, x], num)
  {
    assert [x, y][1..] == [y] && [y, x][1..] == [x];
    assert [x][1..] == [] && [y][1..] == [];
  }

  /** Exchanging two neighbours with different numbers keeps every run. */
  lemma SwapKeepsRuns(s: seq<Course>, j: int, t: seq<Course>)
    requires 0 <= j < |s| - 1 && s[j].courseNum != s[j + 1].courseNum
    requires SameRuns(s, t)
    ensures SameRuns(s[j := s[j + 1]][j + 1 := s[j]], t)
  {
    var u := s[j := s[j + 1]][j + 1 := s[j]];
    var x, y := s[j], s[j + 1];
    var front, back := s[..j], s[j + 2..];
    assert s == front + ([x, y] + back);
    assert u == front + ([y, x] + back);
    forall num ensures WithNum(u, num) == WithNum(t, num) {
      WithNumAppend(front, [x, y] + back, num);
      WithNumAppend(front, [y, x] + back, num);
      WithNumAppend([x, y], back, num);
      WithNumAppend([y, x], back, num);
      PairRuns(x, y, num);
    }
  }

  lemma {:induction false} WithNumEmpty(s: seq<Course>, num: string)
    ensures WithNum(s, num) == [] <==> forall i :: 0 <= i < |s| ==> s[i].courseNum != num
    decreases |s|
  {
    if s != [] {
      WithNumEmpty(s[1..], num);
      assert forall i :: 1 <= i < |s| ==> s[i] == s[1..][i - 1];
    }
  }

  lemma {:induction false} DistinctNumsShortRuns(s: seq<Course>, num: string)
    requires DistinctNums(s)
    ensures |WithNum(s, num)| <= 1
    decreases |s|
  {
    if s != [] {
      var x, r := s[0], s[1..];
      assert DistinctNums(r) by {
        forall i, j | 0 <= i < |r| && 0 <= j < |r| && r[i].courseNum == r[j].courseNum ensures i == j {
          assert s[i + 1] == r[i] && s[j + 1] == r[j];
        }
      }
      DistinctNumsShortRuns(r, num);
      WithNumEmpty(r, x.courseNum);
      assert forall i :: 0 <= i < |r| ==> s[i + 1] == r[i];
    }
  }

  lemma {:induction false} ShortRunsDistinctNums(s: seq<Course>)
    requires ShortRuns(s)
    ensures DistinctNums(s)
    decreases |s|
  {
    if s != [] {
      var x, r := s[0], s[1..];
      forall num ensures |WithNum(r, num)| <= 1 {
        assert |WithNum(s, num)| <= 1;
      }
      ShortRunsDistinctNums(r);
      WithNumEmpty(r, x.courseNum);
      assert |WithNum(s, x.courseNum)| <= 1;
      assert WithNum(r, x.courseNum) == [];
      forall i, j | 0 <= i < |s| && 0 <= j < |s| && s[i].courseNum == s[j].courseNum ensures i == j {
        assert i == 0 || s[i].courseNum == r[i - 1].courseNum;
        assert j == 0 || s[j].courseNum == r[j - 1].courseNum;
      }
    }
  }

  /** Distinct numbers are exactly runs of length at most one. */
  lemma DistinctNumsIffShortRuns(s: seq<Course>)
    ensures DistinctNums(s) <==> ShortRuns(s)
  {
    if DistinctNums(s) {
      forall num ensures |WithNum(s, num)| <= 1 {
        DistinctNumsShortRuns(s, num);
      }
    }
    if ShortRuns(s) {
      ShortRunsDistinctNums(s);
    }
  }

  // ---------------------------------------------------------------------------
  // abcSort.

  /** Positions `b..` are in order. */
  ghost predicate SortedFrom(s: seq<Course>, b: int) {
    forall p, q :: 0 <= p && b <= p < q < |s| ==> InOrder(s[p], s[q])
  }

  /** Every course before position `b` may stand before every course from `b` on. */
  ghost predicate Below(s: seq<Course>, b: int) {
    forall p, q :: 0 <= p < b <= q < |s| ==> InOrder(s[p], s[q])
  }

  /** Position `j` holds a greatest course of `s[..j + 1]`. */
  ghost predicate MaxAt(s: seq<Course>, j: int) {
    0 <= j < |s| && forall p :: 0 <= p <= j ==> InOrder(s[p], s[j])
  }

  /** `s` with positions `j` and `j + 1` exchanged. */
  function Swapped(s: seq<Course>, j: int): seq<Course>
    requires 0 <= j < |s| - 1
  {
    s[j := s[j + 1]][j + 1 := s[j]]
  }

  /** The state inside a pass: a greatest course of `..j + 1` at `j`, the part from `b` on
      in order and above the rest, and the courses and runs of `orig` kept. */
  ghost predicate Passing(s: seq<Course>, j: int, b: int, orig: seq<Course>) {
    && MaxAt(s, j) && SortedFrom(s, b) && Below(s, b)
    && multiset(s) == multiset(orig) && SameRuns(s, orig)
  }

  /** The state between passes: the part from `b` on in order and above the rest, and the
      courses and runs of `orig` kept. */
  ghost predicate Settled(s: seq<Course>, b: int, orig: seq<Course>) {
    SortedFrom(s, b) && Below(s, b) && multiset(s) == multiset(orig) && SameRuns(s, orig)
  }

  /** The step of the inner loop: exchanging `j` and `j + 1` when the left number is strictly
      greater moves a greatest course of `..j + 2` to `j + 1`, keeps the part from `b` on in
      order and above the rest, and keeps the courses and every run of equal numbers. */
  lemma BubbleStep(s: seq<Course>, j: int, b: int, orig: seq<Course>)
    requires 0 <= j && j + 1 < b <= |s|
    requires Passing(s, j, b, orig)
    ensures Passing(if Less(s[j + 1].courseNum, s[j].courseNum) then Swapped(s, j) else s,
                    j + 1, b, orig)
  {
    if Less(s[j + 1].courseNum, s[j].courseNum) {
      var t := Swapped(s, j);
      LessIrreflexive(s[j].courseNum);
      LessAsymmetric(s[j + 1].courseNum, s[j].courseNum);
      SwapKeepsRuns(s, j, orig);
      InOrderReflexive(s[j]);
      assert forall p :: 0 <= p < j ==> t[p] == s[p];
      assert t[j] == s[j + 1] && t[j + 1] == s[j];
      assert forall q :: b <= q < |s| ==> t[q] == s[q];
    } else {
      forall p | 0 <= p <= j ensures InOrder(s[p], s[j + 1]) {
        InOrderTransitive(s[p], s[j], s[j + 1]);
      }
      InOrderReflexive(s[j + 1]);
    }
  }

  /** The end of one pass: the greatest course of `..b` sits at `b - 1`, so the ordered part
      grows by one position. */
  lemma PassEnd(s: seq<Course>, b: int, orig: seq<Course>)
    requires 1 <= b <= |s|
    requires Passing(s, b - 1, b, orig)
    ensures Settled(s, b - 1, orig)
  {
  }

  /** `std::swap` of two neighbouring elements. */
  method Swap(a: array<Course>, j: int)
    requires 0 <= j < a.Length - 1
    modifies a
    ensures a[..] == Swapped(old(a[..]), j)
  {
    a[j], a[j + 1] := a[j + 1], a[j];
  }

  /** One pass of the inner loop of `abcSort` over `..b`: carries a greatest course of `..b`
      to `b - 1`, so the ordered part grows by one position. */
  method BubblePass(courses: array<Course>, b: int, ghost orig: seq<Course>)
    requires 2 <= b <= courses.Length
    requires Settled(courses[..], b, orig)
    modifies courses
    ensures Settled(courses[..], b - 1, orig)
  {
    InOrderReflexive(courses[0]);
    for j := 0 to b - 1
      invariant Passing(courses[..], j, b, orig)
    {
      ghost var before := courses[..];
      BubbleStep(before, j, b, orig);
      if Less(courses[j + 1].courseNum, courses[j].courseNum) {
        Swap(courses, j);
      }
    }
    PassEnd(courses[..], b, orig);
  }

  /** `abcSort`: bubble sort in place, exchanging neighbours only when the left number is
      strictly greater, so the result is sorted, a permutation of the input, and stable. */
  method AbcSort(courses: array<Course>)
    modifies courses
    ensures Sorted(courses[..])
    ensures multiset(courses[..]) == multiset(old(courses[..]))
    ensures SameRuns(courses[..], old(courses[..]))
  {
    var n := courses.Length;
    // Fix: as written, `courses.size() - 1` wraps around for an empty vector and the loops
    // then read past its end. An empty vector is already sorted, so return it unchanged.
    if n == 0 {
      return;
    }
    for i := 0 to n - 1
      invariant Settled(courses[..], n - i, old(courses[..]))
    {
      BubblePass(courses, n - i, old(courses[..]));
    }
    assert Settled(courses[..], 1, old(courses[..]));
  }

  // ---------------------------------------------------------------------------
  // The source's loop bounds, as written, for an empty vector.

  /** One more than the largest `size_t`. */
  const SizeModulus: int := 0x1_0000_0000_0000_0000

  /** `a - b` on `size_t`: wraps around modulo 2^64. */
  function SizeSub(a: nat, b: nat): nat
    requires a < SizeModulus && b < SizeModulus
  {
    (a - b) % SizeModulus
  }

  /** The outer test of `abcSort` as written: `i < courses.size() - 1`. */
  predicate OuterEntersAsWritten(n: nat, i: nat)
    requires n < SizeModulus && i < SizeModulus
  {
    i < SizeSub(n, 1)
  }

  /** The inner test of `abcSort` as written: `j < courses.size() - i - 1`. */
  predicate InnerEntersAsWritten(n: nat, i: nat, j: nat)
    requires n < SizeModulus && i < SizeModulus && j < SizeModulus
  {
    j < SizeSub(SizeSub(n, i), 1)
  }

  /** For an empty vector both loops as written are entered with `i == j == 0`, so the
      comparison reads `courses[0]` and `courses[1]` of a vector of length 0. */
  lemma EmptyVectorIsReadPastItsEnd()
    ensures OuterEntersAsWritten(0, 0)
    ensures InnerEntersAsWritten(0, 0, 0)
    ensures SizeSub(0, 1) == SizeModulus - 1
  {
  }

  /** For a non-empty vector the bounds as written are the ones `AbcSort` uses. */
  lemma AsWrittenBoundsAgreeWhenNonEmpty(n: nat, i: nat, j: nat)
    requires 1 <= n < SizeModulus && i < n && j < n
    ensures OuterEntersAsWritten(n, i) <==> i < n - 1
    ensures InnerEntersAsWritten(n, i, j) <==> j < n - i - 1
  {
    assert SizeSub(n, 1) == n - 1;
    assert SizeSub(n, i) == n - i;
    assert SizeSub(n - i, 1) == n - i - 1;
  }

  // ---------------------------------------------------------------------------
  // printAllCourses.

  /** The line printed for one course. */
  function CourseLine(c: Course): string {
    c.courseNum + ", " + c.courseName
  }

  function CourseLines(s: seq<Course>): seq<string> {
    seq(|s|, i requires 0 <= i < |s| => CourseLine(s[i]))
  }

  /** `m` is a course of `S` that may stand before every course of `S`. */
  ghost predicate IsFirst(m: Course, S: set<Course>) {
    m in S && forall x :: x in S ==> InOrder(m, x)
  }

  lemma {:induction false} FirstExists(S: set<Course>)
    requires S != {}
    ensures exists m :: IsFirst(m, S)
    decreases S
  {
    var y :| y in S;
    if S - {y} == {} {
      assert S == {y};
      InOrderReflexive(y);
      assert IsFirst(y, S);
    } else {
      FirstExists(S - {y});
      var m :| IsFirst(m, S - {y});
      if InOrder(y, m) {
        forall x | x in S ensures InOrder(y, x) {
          if x != y { InOrderTransitive(y, m, x); } else { InOrderReflexive(y); }
        }
        assert IsFirst(y, S);
      } else {
        LessTotal(y.courseNum, m.courseNum);
        LessAsymmetric(m.courseNum, y.courseNum);
        assert IsFirst(m, S);
      }
    }
  }

  /** The courses of a set listed in order, each once. */
  ghost function SortedOf(S: set<Course>): (r: seq<Course>)
    ensures forall x :: x in r <==> x in S
    ensures forall i, j :: 0 <= i < j < |r| ==> r[i] != r[j]
    ensures Sorted(r)
    decreases S
  {
    if S == {} then []
    else
      FirstExists(S);
      var m :| IsFirst(m, S);
      [m] + SortedOf(S - {m})
  }

  /** The listing a table determines on its own, whatever order its hash map iterates in. */
  ghost function Catalogue(table: map<string, Course>): seq<Course> {
    SortedOf(table.Values)
  }

  /** Two sorted sequences with the same courses, all numbers different, are equal. */
  lemma {:induction false} SortedUnique(s: seq<Course>, t: seq<Course>)
    requires Sorted(s) && Sorted(t) && DistinctNums(s)
    requires forall i, j :: 0 <= i < j < |t| ==> t[i] != t[j]
    requires forall x :: x in s <==> x in t
    ensures s == t
    decreases |s|
  {
    if s != [] {
      HeadsAgree(s, t);
      TailsAgree(s, t);
      assert Sorted(s[1..]) && Sorted(t[1..]) && DistinctNums(s[1..]) by {
        assert forall i :: 0 <= i < |s| - 1 ==> s[1..][i] == s[i + 1];
        assert forall i :: 0 <= i < |t| - 1 ==> t[1..][i] == t[i + 1];
      }
      SortedUnique(s[1..], t[1..]);
      assert s == [s[0]] + s[1..] && t == [t[0]] + t[1..];
    } else {
      HeadIsElement(t);
    }
  }

  /** A non-empty sequence holds its first element. Stated as a lemma so that the empty case of
      `SortedUnique` needs no index into `t`. */
  lemma HeadIsElement(t: seq<Course>)
    ensures t != [] ==> t[0] in t
  {
  }

  /** Two sorted sequences with the same courses, all numbers in the first different, start with
      the same course. */
  lemma HeadsAgree(s: seq<Course>, t: seq<Course>)
    requires s != [] && Sorted(s) && Sorted(t) && DistinctNums(s)
    requires forall x :: x in s <==> x in t
    ensures t != [] && s[0] == t[0]
  {
    assert s[0] in s;
    var b :| 0 <= b < |t| && t[b] == s[0];
    assert t[0] in t;
    var a :| 0 <= a < |s| && s[a] == t[0];
    if b != 0 { assert InOrder(t[0], t[b]); } else { InOrderReflexive(t[0]); }
    if a != 0 { assert InOrder(s[0], s[a]); } else { InOrderReflexive(s[0]); }
    InOrderAntisymmetric(s[0], t[0]);
  }

  /** With equal first courses, the rests hold the same courses. */
  lemma TailsAgree(s: seq<Course>, t: seq<Course>)
    requires s != [] && t != [] && s[0] == t[0] && DistinctNums(s)
    requires forall i, j :: 0 <= i < j < |t| ==> t[i] != t[j]
    requires forall x :: x in s <==> x in t
    ensures forall x :: x in s[1..] <==> x in t[1..]
  {
    forall x ensures x in s[1..] <==> x in t[1..] {
      if x in s[1..] {
        var p :| 0 <= p < |s[1..]| && s[1..][p] == x;
        assert s[p + 1] == x;
        assert x in t;
        var q :| 0 <= q < |t| && t[q] == x;
        assert q != 0;
        assert t[1..][q - 1] == x;
      }
      if x in t[1..] {
        var p :| 0 <= p < |t[1..]| && t[1..][p] == x;
        assert t[p + 1] == x;
        assert x in s;
        var q :| 0 <= q < |s| && s[q] == x;
        assert q != 0;
        assert s[1..][q - 1] == x;
      }
    }
  }

  /** Two different courses of a well-keyed table have different numbers, so one in order
      before the other has the strictly smaller number. */
  lemma DistinctEntriesOrdered(table: map<string, Course>, x: Course, y: Course)
    requires WellKeyed(table) && x in table.Values && y in table.Values && x != y
    requires InOrder(x, y)
    ensures Less(x.courseNum, y.courseNum)
  {
    var kx :| kx in table && table[kx] == x;
    var ky :| ky in table && table[ky] == y;
    WellKeyedNumbersDistinct(table, kx, ky);
    LessTotal(x.courseNum, y.courseNum);
  }

  /** Every course listed is an entry of the table. */
  lemma CatalogueFromTable(table: map<string, Course>)
    ensures var s := Catalogue(table);
      forall i :: 0 <= i < |s| ==> exists k :: k in table && table[k] == s[i]
  {
    var s := Catalogue(table);
    forall i | 0 <= i < |s| ensures exists k :: k in table && table[k] == s[i] {
      assert s[i] in table.Values;
    }
  }

  /** Every entry of the table is listed. */
  lemma CatalogueCoversTable(table: map<string, Course>)
    ensures var s := Catalogue(table);
      forall k :: k in table ==> exists i :: 0 <= i < |s| && s[i] == table[k]
  {
    var s := Catalogue(table);
    forall k | k in table ensures exists i :: 0 <= i < |s| && s[i] == table[k] {
      assert table[k] in table.Values;
      assert table[k] in s;
    }
  }

  /** The listing of a well-keyed table is strictly increasing by course number. */
  lemma CatalogueIncreasing(table: map<string, Course>)
    requires WellKeyed(table)
    ensures var s := Catalogue(table);
      forall i, j :: 0 <= i < j < |s| ==> Less(s[i].courseNum, s[j].courseNum)
  {
    var s := Catalogue(table);
    forall i, j | 0 <= i < j < |s| ensures Less(s[i].courseNum, s[j].courseNum) {
      DistinctEntriesOrdered(table, s[i], s[j]);
    }
  }

  /** The table's listing has each entry of a well-keyed table exactly once, and nothing else,
      in strictly increasing order of course number. */
  lemma CatalogueContents(table: map<string, Course>)
    requires WellKeyed(table)
    ensures var s := Catalogue(table);
      && (forall i :: 0 <= i < |s| ==> exists k :: k in table && table[k] == s[i])
      && (forall k :: k in table ==> exists i :: 0 <= i < |s| && s[i] == table[k])
      && (forall i, j :: 0 <= i < |s| && 0 <= j < |s| && s[i] == s[j] ==> i == j)
      && (forall i, j :: 0 <= i < j < |s| ==> Less(s[i].courseNum, s[j].courseNum))
  {
    CatalogueFromTable(table);
    CatalogueCoversTable(table);
    CatalogueIncreasing(table);
  }

  /** `printAllCourses`: copy the table's courses into a vector in `order` (the hash map's
      iteration order, each key once), sort the vector with `abcSort`, and return the line
      printed for each course. The table is a value parameter and is not changed. */
  method PrintAllCourses(courseTable: map<string, Course>, order: seq<string>) returns (lines: seq<string>)
    requires forall k :: k in order <==> k in courseTable
    requires forall i, j :: 0 <= i < j < |order| ==> order[i] != order[j]
    ensures |lines| == |order|
    ensures WellKeyed(courseTable) ==> lines == CourseLines(Catalogue(courseTable))
  {
    var vectorOfCourses: seq<Course> := [];
    for i := 0 to |order|
      invariant |vectorOfCourses| == i
      invariant forall p :: 0 <= p < i ==> vectorOfCourses[p] == courseTable[order[p]]
    {
      vectorOfCourses := vectorOfCourses + [courseTable[order[i]]];
    }
    var courses := new Course[|vectorOfCourses|](p requires 0 <= p < |vectorOfCourses| => vectorOfCourses[p]);
    assert courses[..] == vectorOfCourses;
    AbcSort(courses);
    lines := [];
    for i := 0 to courses.Length
      invariant lines == CourseLines(courses[..i])
    {
      assert courses[..i + 1] == courses[..i] + [courses[i]];
      lines := lines + [CourseLine(courses[i])];
    }
    assert courses[..courses.Length] == courses[..];
    if WellKeyed(courseTable) {
      SortedListingIsCatalogue(courseTable, order, vectorOfCourses, courses[..]);
    }
  }

  /** The proof obligation of `PrintAllCourses`: whatever the iteration order, the sorted
      vector is the table's listing. */
  lemma SortedListingIsCatalogue(table: map<string, Course>, order: seq<string>, vec: seq<Course>, sorted: seq<Course>)
    requires WellKeyed(table)
    requires forall k :: k in order <==> k in table
    requires forall i, j :: 0 <= i < j < |order| ==> order[i] != order[j]
    requires |vec| == |order| && forall p :: 0 <= p < |order| ==> vec[p] == table[order[p]]
    requires Sorted(sorted) && multiset(sorted) == multiset(vec) && SameRuns(sorted, vec)
    ensures sorted == Catalogue(table)
  {
    assert DistinctNums(vec) by {
      forall i, j | 0 <= i < |vec| && 0 <= j < |vec| && vec[i].courseNum == vec[j].courseNum ensures i == j {
        assert order[i] == Key(vec[i].courseNum) && order[j] == Key(vec[j].courseNum);
      }
    }
    DistinctNumsIffShortRuns(vec);
    DistinctNumsIffShortRuns(sorted);
    assert ShortRuns(sorted) by {
      forall num ensures |WithNum(sorted, num)| <= 1 {
        assert WithNum(sorted, num) == WithNum(vec, num);
      }
    }
    forall x ensures x in sorted <==> x in table.Values {
      assert x in sorted <==> x in multiset(sorted);
      assert x in vec <==> x in multiset(vec);
      if x in vec {
        var p :| 0 <= p < |vec| && vec[p] == x;
        assert order[p] in order;
      }
      if x in table.Values {
        var k :| k in table && table[k] == x;
        assert k in order;
        var p :| 0 <= p < |order| && order[p] == k;
        assert vec[p] == x;
      }
    }
    SortedUnique(sorted, Catalogue(table));
  }
}
