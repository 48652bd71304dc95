/** The normaliser: trimming of C-locale whitespace and ASCII upper-casing,
    which together produce the key under which a course is stored and found. */
module Normalize {

  /** `isspace` in the C locale: space, tab, newline, vertical tab, form feed, carriage return. */
  predicate IsSpace(c: char) {
    c == ' ' || 9 <= c as int <= 13
  }

  predicate AllSpace(s: string) {
    forall i :: 0 <= i < |s| ==> IsSpace(s[i])
  }

  predicate IsLower(c: char) {
    'a' <= c <= 'z'
  }

  /** `toupper` in the C locale: only `a`..`z` change. */
  function UpperChar(c: char): char {
    if IsLower(c) then (c as int - 32) as char else c
  }

  /** Upper-cases every character; nothing else changes. */
  function Upper(s: string): string
    decreases |s|
  {
    if s == [] then [] else [UpperChar(s[0])] + Upper(s[1..])
  }

  /** Drops leading whitespace. */
  function TrimLeft(s: string): string
    decreases |s|
  {
    if s != [] && IsSpace(s[0]) then TrimLeft(s[1..]) else s
  }

  /** Drops trailing whitespace. */
  function TrimRight(s: string): string
    decreases |s|
  {
    if s != [] && IsSpace(s[|s| - 1]) then TrimRight(s[..|s| - 1]) else s
  }

  /** What `trimLine` returns: the leading run is removed first, then the trailing run. */
  function Trim(s: string): string {
    TrimRight(TrimLeft(s))
  }

  /** What `checkCaseSensitve` returns: the table key of a course number. */
  function Key(s: string): string {
    Upper(Trim(s))
  }

  /** Neither end of `s` is whitespace (or it is empty). */
  predicate Tight(s: string) {
    s == [] || (!IsSpace(s[0]) && !IsSpace(s[|s| - 1]))
  }

  /** Two strings that are equal once ASCII letter case is ignored. */
  predicate SameIgnoringCase(a: string, b: string) {
    |a| == |b| && forall i :: 0 <= i < |a| ==> UpperChar(a[i]) == UpperChar(b[i])
  }

  // ---------------------------------------------------------------------------
  // The implementations, as the source writes them: index loops and an in-place map.

  /** `trimLine`: advance `beginning` over leading whitespace, retreat `end` over trailing
      whitespace, return the substring between them. */
  method TrimLine(line: string) returns (r: string)
    ensures r == Trim(line)
  {
    var beginning := 0;
    var end := |line|;
    while beginning < end && IsSpace(line[beginning])
      invariant 0 <= beginning <= end == |line|
      invariant TrimLeft(line[beginning..]) == TrimLeft(line)
    {
      TrimLeftStep(line, beginning);
      beginning := beginning + 1;
    }
    TrimLeftStops(line, beginning);
    while end > beginning && IsSpace(line[end - 1])
      invariant beginning <= end <= |line|
      invariant TrimRight(line[beginning..end]) == Trim(line)
    {
      TrimRightStep(line, beginning, end);
      end := end - 1;
    }
    r := line[beginning..end];
  }

  /** `checkCaseSensitve`: trim, then upper-case the copy character by character. */
  method CheckCaseSensitive(line: string) returns (data: string)
    ensures data == Key(line)
  {
    data := TrimLine(line);
    ghost var trimmed := data;
    var i := 0;
    while i < |data|
      invariant 0 <= i <= |data| == |trimmed|
      invariant forall j :: 0 <= j < i ==> data[j] == UpperChar(trimmed[j])
      invariant forall j :: i <= j < |data| ==> data[j] == trimmed[j]
    {
      data := data[i := UpperChar(data[i])];
      i := i + 1;
    }
    UpperShape(trimmed);
  }

  // ---------------------------------------------------------------------------
  // Trimming.

  /** One step of the first loop of `trimLine`. */
  lemma TrimLeftStep(s: string, b: int)
    requires 0 <= b < |s| && IsSpace(s[b])
    ensures TrimLeft(s[b..]) == TrimLeft(s[b + 1..])
  {
    assert s[b..][1..] == s[b + 1..];
  }

  /** Where the first loop of `trimLine` stops, nothing more is trimmed on the left. */
  lemma TrimLeftStops(s: string, b: int)
    requires 0 <= b <= |s| && (b == |s| || !IsSpace(s[b]))
    requires TrimLeft(s[b..]) == TrimLeft(s)
    ensures TrimRight(s[b..|s|]) == Trim(s)
  {
    assert s[b..|s|] == s[b..];
  }

  /** One step of the second loop of `trimLine`. */
  lemma TrimRightStep(s: string, b: int, e: int)
    requires 0 <= b < e <= |s| && IsSpace(s[e - 1])
    ensures TrimRight(s[b..e]) == TrimRight(s[b..e - 1])
  {
    assert s[b..e][..e - 1 - b] == s[b..e - 1];
  }

  lemma {:induction false} TrimLeftIsSuffix(s: string)
    ensures |TrimLeft(s)| <= |s|
    ensures TrimLeft(s) == s[|s| - |TrimLeft(s)|..]
    ensures AllSpace(s[..|s| - |TrimLeft(s)|])
    ensures TrimLeft(s) == [] || !IsSpace(TrimLeft(s)[0])
    decreases |s|
  {
    if s != [] && IsSpace(s[0]) {
      TrimLeftIsSuffix(s[1..]);
      var n := |s| - |TrimLeft(s)|;
      assert s[..n] == [s[0]] + s[1..][..n - 1];
    }
  }

  lemma {:induction false} TrimRightIsPrefix(s: string)
    ensures |TrimRight(s)| <= |s|
    ensures TrimRight(s) == s[..|TrimRight(s)|]
    ensures AllSpace(s[|TrimRight(s)|..])
    ensures TrimRight(s) == [] || !IsSpace(TrimRight(s)[|TrimRight(s)| - 1])
    decreases |s|
  {
    if s != [] && IsSpace(s[|s| - 1]) {
      var t := s[..|s| - 1];
      TrimRightIsPrefix(t);
      var n := |TrimRight(s)|;
      assert s[n..] == t[n..] + [s[|s| - 1]];
    }
  }

  /** The trimmed text is the contiguous piece `s[b..b + |Trim(s)|]`, every character removed on
      either side is whitespace, and neither end of what is kept is whitespace. */
  lemma TrimIsInfix(s: string)
    ensures var b := |s| - |TrimLeft(s)|;
      && 0 <= b && b + |Trim(s)| <= |s|
      && Trim(s) == s[b..b + |Trim(s)|]
      && AllSpace(s[..b])
      && AllSpace(s[b + |Trim(s)|..])
    ensures Tight(Trim(s))
  {
    TrimLeftIsSuffix(s);
    var l := TrimLeft(s);
    TrimRightIsPrefix(l);
    var b := |s| - |l|;
    var r := Trim(s);
    assert s[b..b + |r|] == l[..|r|];
    assert s[b + |r|..] == l[|r|..];
  }

  lemma {:induction false} TrimLeftSkips(p: string, t: string)
    requires AllSpace(p)
    requires t == [] || !IsSpace(t[0])
    ensures TrimLeft(p + t) == t
    decreases |p|
  {
    if p != [] {
      assert (p + t)[1..] == p[1..] + t;
      TrimLeftSkips(p[1..], t);
    }
  }

  lemma {:induction false} TrimRightSkips(t: string, q: string)
    requires AllSpace(q)
    requires t == [] || !IsSpace(t[|t| - 1])
    ensures TrimRight(t + q) == t
    decreases |q|
  {
    if q != [] {
      assert (t + q)[..|t + q| - 1] == t + q[..|q| - 1];
      TrimRightSkips(t, q[..|q| - 1]);
    }
  }

  /** Any split of `s` into whitespace, a piece with non-whitespace ends, and whitespace
      determines the trimmed text: it is that piece. */
  lemma TrimUnique(p: string, m: string, q: string)
    requires AllSpace(p) && AllSpace(q) && Tight(m)
    ensures Trim(p + m + q) == m
  {
    if m == [] {
      assert p + m + q == p + q + [];
      TrimLeftSkips(p + q, []);
    } else {
      assert p + m + q == p + (m + q);
      TrimLeftSkips(p, m + q);
      TrimRightSkips(m, q);
    }
  }

  lemma TrimIdempotent(s: string)
    ensures Trim(Trim(s)) == Trim(s)
  {
    TrimIsInfix(s);
    assert Trim(s) == [] + Trim(s) + [];
    TrimUnique([], Trim(s), []);
  }

  /** Whitespace added around a string does not change its trimmed text. */
  lemma TrimIgnoresSurroundingSpace(p: string, s: string, q: string)
    requires AllSpace(p) && AllSpace(q)
    ensures Trim(p + s + q) == Trim(s)
  {
    TrimIsInfix(s);
    var b := |s| - |TrimLeft(s)|;
    var r := Trim(s);
    var e := b + |r|;
    assert s == s[..b] + r + s[e..];
    assert p + s + q == (p + s[..b]) + r + (s[e..] + q);
    TrimUnique(p + s[..b], r, s[e..] + q);
  }

  // ---------------------------------------------------------------------------
  // Keys.

  /** Upper-casing maps each character by itself: the length and which characters are
      whitespace are kept, and no lower-case letter is left. */
  lemma {:induction false} UpperShape(s: string)
    ensures |Upper(s)| == |s|
    ensures forall i :: 0 <= i < |s| ==> Upper(s)[i] == UpperChar(s[i])
    ensures forall i :: 0 <= i < |s| ==> !IsLower(Upper(s)[i])
    ensures forall i :: 0 <= i < |s| ==> (IsSpace(Upper(s)[i]) <==> IsSpace(s[i]))
    ensures SameIgnoringCase(Upper(s), s)
    decreases |s|
  {
    if s != [] {
      UpperShape(s[1..]);
      assert forall i :: 1 <= i < |s| ==> Upper(s)[i] == Upper(s[1..])[i - 1] && s[i] == s[1..][i - 1];
    }
  }

  /** The key is the upper-cased trimmed text, of the same length, with no lower-case letter. */
  lemma KeyShape(s: string)
    ensures |Key(s)| == |Trim(s)|
    ensures SameIgnoringCase(Key(s), Trim(s))
    ensures forall i :: 0 <= i < |Key(s)| ==> !IsLower(Key(s)[i])
  {
    UpperShape(Trim(s));
  }

  lemma UpperIdempotent(s: string)
    ensures Upper(Upper(s)) == Upper(s)
  {
    UpperShape(s);
    UpperShape(Upper(s));
  }

  lemma KeyIdempotent(s: string)
    ensures Key(Key(s)) == Key(s)
  {
    var t := Trim(s);
    TrimIsInfix(s);
    UpperShape(t);
    assert Tight(Upper(t));
    assert Upper(t) == [] + Upper(t) + [];
    TrimUnique([], Upper(t), []);
    UpperIdempotent(t);
  }

  /** Two strings get the same key exactly when their trimmed texts differ at most in ASCII
      letter case. */
  lemma KeyEqualIff(a: string, b: string)
    ensures Key(a) == Key(b) <==> SameIgnoringCase(Trim(a), Trim(b))
  {
    var ta, tb := Trim(a), Trim(b);
    UpperShape(ta);
    UpperShape(tb);
    if Key(a) == Key(b) {
      assert |ta| == |tb|;
      forall i | 0 <= i < |ta| ensures UpperChar(ta[i]) == UpperChar(tb[i]) {
        assert Key(a)[i] == Key(b)[i];
      }
    }
  }

  /** Whitespace around a string does not change its key. */
  lemma KeyIgnoresSurroundingSpace(p: string, s: string, q: string)
    requires AllSpace(p) && AllSpace(q)
    ensures Key(p + s + q) == Key(s)
  {
    TrimIgnoresSurroundingSpace(p, s, q);
  }

  /** A course entered as "cs101" is found by the query "  Cs101 ". */
  lemma KeyExample()
    ensures Key("cs101") == Key("  Cs101 ")
  {
    assert AllSpace("  ") && AllSpace(" ");
    assert "  Cs101 " == "  " + "Cs101" + " ";
    TrimIgnoresSurroundingSpace("  ", "Cs101", " ");
    assert Tight("cs101") && Tight("Cs101");
    assert "cs101" == [] + "cs101" + [];
    assert "Cs101" == [] + "Cs101" + [];
    TrimUnique([], "cs101", []);
    TrimUnique([], "Cs101", []);
    assert SameIgnoringCase("cs101", "Cs101");
    KeyEqualIff("cs101", "  Cs101 ");
  }
}
