/** N-gram tokenisation (`_gen_ngrams`): every contiguous substring of a fixed
    length, in order of position, with repeats kept. */
module Ngrams {
  import opened Seqs

  /** The n-grams starting at positions `i`, `i + 1`, ... of `s`. */
  function NgramsFrom(s: string, n: nat, i: nat): (r: seq<string>)
    requires i + n <= |s| + 1
    ensures |r| == |s| - n + 1 - i
    ensures forall j :: 0 <= j < |r| ==> OccursAt(r[j], s, i + j) && |r[j]| == n
    decreases |s| - i
  {
    if i + n > |s| then []
    else [s[i..i + n]] + NgramsFrom(s, n, i + 1)
  }

  /** `_gen_ngrams(s, n)`: empty when `s` is shorter than `n`, otherwise the
      `|s| - n + 1` substrings `s[i..i + n]` in order. */
  function GenNgrams(s: string, n: nat): (r: seq<string>)
    ensures |s| < n ==> r == []
    ensures |s| >= n ==> |r| == |s| - n + 1
    ensures forall i :: 0 <= i < |r| ==> r[i] == s[i..i + n]
  {
    if |s| >= n then NgramsFrom(s, n, 0) else []
  }

  /** A string is an n-gram of `s` exactly when it has length `n` and occurs in `s`. */
  lemma NgramMembership(g: string, s: string, n: nat)
    ensures g in GenNgrams(s, n) <==> |g| == n && IsSubstring(g, s)
  {
    var r := GenNgrams(s, n);
    if |g| == n && IsSubstring(g, s) {
      var i: nat :| i <= |s| && OccursAt(g, s, i);
      assert r[i] == g;
    }
  }

  /** A substring occurring inside a substring occurs in the whole string. */
  lemma SubstringTransitive(a: string, b: string, c: string)
    requires IsSubstring(a, b) && IsSubstring(b, c)
    ensures IsSubstring(a, c)
  {
    var i: nat :| i <= |b| && OccursAt(a, b, i);
    var j: nat :| j <= |c| && OccursAt(b, c, j);
    assert b == c[j..j + |b|];
    assert forall k :: 0 <= k < |a| ==> c[j + i + k] == b[i + k] == a[k];
    assert c[j + i..j + i + |a|] == a;
    assert OccursAt(a, c, j + i);
  }

  /** Every n-gram of `q` is an n-gram of any string containing `q`: the fact
      that makes n-gram retrieval complete. */
  lemma NgramsOfSubstring(q: string, s: string, n: nat)
    requires IsSubstring(q, s)
    ensures forall g :: g in GenNgrams(q, n) ==> g in GenNgrams(s, n)
  {
    forall g | g in GenNgrams(q, n)
      ensures g in GenNgrams(s, n)
    {
      NgramMembership(g, q, n);
      SubstringTransitive(g, q, s);
      NgramMembership(g, s, n);
    }
  }

  /** The first n-gram of a query long enough to have one. */
  lemma FirstNgram(q: string, n: nat)
    requires |q| >= n
    ensures |GenNgrams(q, n)| >= 1 && GenNgrams(q, n)[0] == q[..n]
  {
  }
}
