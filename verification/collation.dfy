/** The ordering SQLite's default BINARY collation puts on the `key` column:
    keys are stored as UTF-8 and compared byte by byte, which orders them
    exactly as their sequences of code points are ordered lexicographically.
    The prefix search replaces `key LIKE p || '%'` with the half-open range
    `p <= key < p || U+3134A`; this module states when the two agree. */
module Collation {
  import opened Seqs

  /** The high code point appended to a prefix to close the range (decimal 201546). */
  const Sentinel: char := '\U{3134A}'

  /** `a < b` in code-point lexicographic order; a proper prefix sorts first. */
  predicate Less(a: string, b: string)
    decreases |a|
  {
    if |a| == 0 then |b| > 0
    else if |b| == 0 then false
    else if a[0] != b[0] then a[0] < b[0]
    else Less(a[1..], b[1..])
  }

  /** SQL `k >= p`. */
  predicate AtLeast(k: string, p: string) {
    !Less(k, p)
  }

  /** The WHERE condition of the prefix query: `key >= p and key < p + U+3134A`. */
  predicate InSentinelRange(k: string, p: string) {
    AtLeast(k, p) && Less(k, p + [Sentinel])
  }

  /** Exactly the keys that start with `p` and either end there or continue
      with a character below the sentinel fall inside the range. */
  lemma {:induction false} SentinelRange(k: string, p: string)
    ensures InSentinelRange(k, p) <==> IsPrefix(p, k) && (|k| == |p| || k[|p|] < Sentinel)
    decreases |p|
  {
    if |p| == 0 {
      assert p + [Sentinel] == [Sentinel];
      if |k| > 0 {
        assert Less(k, [Sentinel]) <==> k[0] < Sentinel;
      }
    } else if |k| == 0 {
      assert Less(k, p);
    } else if k[0] == p[0] {
      assert (p + [Sentinel])[1..] == p[1..] + [Sentinel];
      SentinelRange(k[1..], p[1..]);
      assert IsPrefix(p, k) <==> IsPrefix(p[1..], k[1..]) by {
        if IsPrefix(p[1..], k[1..]) {
          assert k[..|p|] == [k[0]] + k[1..][..|p| - 1];
          assert p == [p[0]] + p[1..];
        }
        if IsPrefix(p, k) {
          assert k[1..][..|p| - 1] == k[..|p|][1..];
        }
      }
    }
  }

  /** Every key in the range starts with the prefix. */
  lemma RangeImpliesPrefix(k: string, p: string)
    requires InSentinelRange(k, p)
    ensures IsPrefix(p, k)
  {
    SentinelRange(k, p);
  }

  /** When every character of a key sorts below the sentinel, the range is
      exactly the prefix test — the assumption the range trick rests on. */
  lemma RangeIsPrefixBelowSentinel(k: string, p: string)
    requires forall i :: 0 <= i < |k| ==> k[i] < Sentinel
    ensures InSentinelRange(k, p) <==> IsPrefix(p, k)
  {
    SentinelRange(k, p);
  }

  /** The approximation is real: a key that continues the prefix with a code
      point at or above U+3134A starts with the prefix but is not found. */
  lemma SentinelMissesHighCharacters(p: string)
    ensures IsPrefix(p, p + ['\U{3134B}'])
    ensures !InSentinelRange(p + ['\U{3134B}'], p)
  {
    var k := p + ['\U{3134B}'];
    assert k[..|p|] == p;
    SentinelRange(k, p);
  }
}
