/** The ordering `std::string` uses for `<` and `>`: lexicographic by character code, a proper
    prefix ordered before the longer string. */
module StringOrder {

  /** `s < t` on `std::string`. */
  predicate Less(s: string, t: string)
    decreases |s|
  {
    if s == [] then t != []
    else if t == [] then false
    else if s[0] != t[0] then s[0] < t[0]
    else Less(s[1..], t[1..])
  }

  /** The first position where the two strings differ holds the smaller character in `s`. */
  ghost predicate DiffersFirstAt(s: string, t: string, k: int) {
    0 <= k < |s| && k < |t| && s[..k] == t[..k] && s[k] < t[k]
  }

  lemma {:induction false} LessIrreflexive(s: string)
    ensures !Less(s, s)
    decreases |s|
  {
    if s != [] {
      LessIrreflexive(s[1..]);
    }
  }

  lemma {:induction false} LessAsymmetric(s: string, t: string)
    ensures Less(s, t) ==> !Less(t, s)
    decreases |s|
  {
    if s != [] && t != [] && s[0] == t[0] {
      LessAsymmetric(s[1..], t[1..]);
    }
  }

  lemma {:induction false} LessTransitive(a: string, b: string, c: string)
    requires Less(a, b) && Less(b, c)
    ensures Less(a, c)
    decreases |a|
  {
    if a != [] && a[0] == b[0] && b[0] == c[0] {
      LessTransitive(a[1..], b[1..], c[1..]);
    }
  }

  /** Any two different strings are ordered one way or the other. */
  lemma {:induction false} LessTotal(s: string, t: string)
    ensures s == t || Less(s, t) || Less(t, s)
    decreases |s|
  {
    if s != [] && t != [] && s[0] == t[0] {
      LessTotal(s[1..], t[1..]);
      if s[1..] == t[1..] {
        assert s == [s[0]] + s[1..] && t == [t[0]] + t[1..];
      }
    }
  }

  /** `Less` agrees with the textbook definition of lexicographic order: `s` is a proper prefix of
      `t`, or at the first position where they differ `s` has the smaller character. */
  lemma {:induction false} LessIffFirstDifference(s: string, t: string)
    ensures Less(s, t) <==> (|s| < |t| && s == t[..|s|]) || exists k :: DiffersFirstAt(s, t, k)
    decreases |s|
  {
    if s == [] {
      assert forall k :: !DiffersFirstAt(s, t, k);
    } else if t == [] {
      assert forall k :: !DiffersFirstAt(s, t, k);
    } else if s[0] != t[0] {
      if s[0] < t[0] { assert DiffersFirstAt(s, t, 0); }
      if |s| < |t| { assert t[..|s|][0] == t[0]; }
    } else {
      var s', t' := s[1..], t[1..];
      LessIffFirstDifference(s', t');
      if exists k :: DiffersFirstAt(s', t', k) {
        var k :| DiffersFirstAt(s', t', k);
        assert s[..k + 1] == [s[0]] + s'[..k];
        assert t[..k + 1] == [t[0]] + t'[..k];
        assert DiffersFirstAt(s, t, k + 1);
      }
      if exists k :: DiffersFirstAt(s, t, k) {
        var k :| DiffersFirstAt(s, t, k);
        assert k != 0;
        assert s'[..k - 1] == s[1..k] && t'[..k - 1] == t[1..k];
        assert s[1..k] == s[..k][1..] && t[1..k] == t[..k][1..];
        assert DiffersFirstAt(s', t', k - 1);
      }
      if |s| < |t| {
        assert t[..|s|] == [t[0]] + t'[..|s'|];
        assert s == [s[0]] + s';
      }
    }
  }

  /** The three orderings of `std::string` comparison used in this program, for one example. */
  lemma LessExample()
    ensures Less("CS101", "CS201") && Less("CS", "CS101") && !Less("cs101", "CS101")
  {
    assert "CS101"[1..] == "S101" && "CS201"[1..] == "S201";
    assert "S101"[1..] == "101" && "S201"[1..] == "201";
    assert "CS"[1..] == "S" && "CS101"[1..] == "S101" && "S"[1..] == [];
  }
}
