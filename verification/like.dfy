/** SQL `LIKE` pattern matching, as `select_entries_like` and
    `select_entries_containing` use it: `%` matches any run of characters
    (possibly empty), `_` matches exactly one character, and every other
    character matches itself. Matching here is case-sensitive and has no
    escape character. */
module Like {
  import opened Seqs

  const AnyRun: char := '%'
  const AnyOne: char := '_'

  /** `s LIKE p`. */
  predicate Match(p: string, s: string)
    decreases |p| + |s|
  {
    if |p| == 0 then |s| == 0
    else if p[0] == AnyRun then Match(p[1..], s) || (|s| > 0 && Match(p, s[1..]))
    else |s| > 0 && (p[0] == AnyOne || p[0] == s[0]) && Match(p[1..], s[1..])
  }

  /** A pattern that is a plain string: no `%` and no `_`. */
  predicate NoWildcards(q: string) {
    forall i :: 0 <= i < |q| ==> q[i] != AnyRun && q[i] != AnyOne
  }

  /** The pattern `%q%` that `select_entries_containing` builds from its key. */
  function ContainsPattern(q: string): (p: string)
    ensures |p| == |q| + 2 && p[0] == AnyRun && p[|p| - 1] == AnyRun
    ensures p[1..] == q + [AnyRun]
  {
    [AnyRun] + q + [AnyRun]
  }

  /** A lone `%` matches every string. */
  lemma {:induction false} AnyRunMatchesAll(s: string)
    ensures Match([AnyRun], s)
    decreases |s|
  {
    if |s| > 0 {
      AnyRunMatchesAll(s[1..]);
    }
  }

  /** A leading `%` may skip any prefix of the subject. */
  lemma {:induction false} AnyRunSkips(r: string, s: string, i: nat)
    requires i <= |s| && Match(r, s[i..])
    ensures Match([AnyRun] + r, s)
    decreases i
  {
    var p := [AnyRun] + r;
    assert p[1..] == r;
    if i > 0 {
      assert s[1..][i - 1..] == s[i..];
      AnyRunSkips(r, s[1..], i - 1);
    }
  }

  /** A leading `%` skips some prefix of the subject and nothing else. */
  lemma {:induction false} AnyRunSplits(r: string, s: string)
    requires Match([AnyRun] + r, s)
    ensures exists i: nat :: i <= |s| && Match(r, s[i..])
    decreases |s|
  {
    var p := [AnyRun] + r;
    assert p[1..] == r;
    if Match(r, s) {
      assert s[0..] == s;
    } else {
      AnyRunSplits(r, s[1..]);
      var i: nat :| i <= |s[1..]| && Match(r, s[1..][i..]);
      assert s[1..][i..] == s[i + 1..];
    }
  }

  /** A pattern matches a subject that starts with the pattern's own text:
      `%` matches the literal `%` and `_` the literal `_`. */
  lemma {:induction false} TextMatchesItself(q: string, r: string, s: string)
    requires IsPrefix(q, s) && Match(r, s[|q|..])
    ensures Match(q + r, s)
    decreases |q|
  {
    if |q| > 0 {
      var p := q + r;
      assert p[0] == q[0] && p[1..] == q[1..] + r;
      assert s[0] == q[0];
      assert s[1..][..|q| - 1] == q[1..];
      assert s[1..][|q| - 1..] == s[|q|..];
      TextMatchesItself(q[1..], r, s[1..]);
      assert Match(p[1..], s[1..]);
      if q[0] == AnyRun {
        assert Match(p, s[1..]);
        assert Match(p, s);
      } else {
        assert p[0] == AnyOne || p[0] == s[0];
      }
    } else {
      assert q + r == r && s[|q|..] == s;
    }
  }

  /** A wildcard-free pattern followed by `r` matches exactly the subjects
      that start with that text and continue with something `r` matches. */
  lemma {:induction false} LiteralPrefix(q: string, r: string, s: string)
    requires NoWildcards(q)
    ensures Match(q + r, s) <==> IsPrefix(q, s) && Match(r, s[|q|..])
    decreases |q|
  {
    if |q| == 0 {
      assert q + r == r;
      assert s[|q|..] == s;
    } else {
      var p := q + r;
      assert p[1..] == q[1..] + r;
      assert p[0] == q[0];
      if |s| > 0 {
        assert NoWildcards(q[1..]) by {
          assert forall i :: 0 <= i < |q| - 1 ==> q[1..][i] == q[i + 1];
        }
        LiteralPrefix(q[1..], r, s[1..]);
        if |q| <= |s| {
          assert s[1..][|q| - 1..] == s[|q|..];
        }
        if IsPrefix(q, s) {
          assert s[1..][..|q| - 1] == q[1..];
        }
        if s[0] == q[0] && IsPrefix(q[1..], s[1..]) {
          assert s[..|q|] == [s[0]] + s[1..][..|q| - 1];
        }
      }
    }
  }

  /** `key like '%q%'` holds for every key containing `q`, and for a
      wildcard-free `q` it holds for no other key: the containment test the
      pattern stands for. */
  lemma ContainsPatternIsSubstring(q: string, k: string)
    ensures IsSubstring(q, k) ==> Match(ContainsPattern(q), k)
    ensures NoWildcards(q) ==> (Match(ContainsPattern(q), k) <==> IsSubstring(q, k))
  {
    var p := ContainsPattern(q);
    assert p == [AnyRun] + (q + [AnyRun]);
    if IsSubstring(q, k) {
      var i: nat :| i <= |k| && OccursAt(q, k, i);
      assert k[i..][..|q|] == q;
      assert k[i..][|q|..] == k[i + |q|..];
      AnyRunMatchesAll(k[i + |q|..]);
      TextMatchesItself(q, [AnyRun], k[i..]);
      AnyRunSkips(q + [AnyRun], k, i);
    }
    if NoWildcards(q) && Match(p, k) {
      AnyRunSplits(q + [AnyRun], k);
      var i: nat :| i <= |k| && Match(q + [AnyRun], k[i..]);
      LiteralPrefix(q, [AnyRun], k[i..]);
      assert k[i..i + |q|] == k[i..][..|q|];
      assert OccursAt(q, k, i);
    }
  }

  /** Every string matches itself used as a pattern. */
  lemma MatchSelf(q: string)
    ensures Match(q, q)
  {
    assert q + [] == q;
    assert q[|q|..] == [];
    TextMatchesItself(q, [], q);
  }

  /** `_` is not a literal: the containment pattern `%a_%` built from the
      query `a_` matches `ab`, which does not contain `a_`. */
  lemma AnyOneIsAWildcard()
    ensures Match(ContainsPattern("a_"), "ab")
    ensures !IsSubstring("a_", "ab")
  {
    AnyRunMatchesAll("");
    assert Match("_%", "b");
    assert Match("a_%", "ab");
    assert ContainsPattern("a_") == "%a_%";
    assert Match("%a_%", "ab");
    assert "ab"[0..2][1] != "a_"[1];
    assert !OccursAt("a_", "ab", 1);
    assert !OccursAt("a_", "ab", 2);
  }
}
