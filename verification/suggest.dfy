/** The suggestion queries: the headwords of the entries in a set of
    dictionaries whose keys begin with one of several prefixes, contain a
    string, are among a list of keys, or match a LIKE pattern. All but the
    last skip the words the caller has already found and shrink the limit by
    their number. Each single query returns distinct words; the prefix
    query concatenates one query per prefix, so a word reached through two
    prefixes appears twice.

    Each query is `select distinct word ... limit ?`. The model keeps the
    table order of the words and leaves the `order by key` out. */
module Suggest {
  import opened Seqs
  import opened Collation
  import opened Like
  import opened Entries

  // ---------------------------------------------------------------- one query

  /** SQLite's `LIMIT n`: at most `n` rows, and no bound at all when `n` is negative. */
  function SqlLimit<T(!new)>(xs: seq<T>, limit: int): (r: seq<T>)
    ensures r <= xs
    ensures |r| == if 0 <= limit < |xs| then limit else |xs|
  {
    if limit < 0 then xs else Take(xs, limit)
  }

  /** The WHERE clause shared by the suggestion queries: the query's own key
      condition, `dictionary_name in (...)` and `word not in (...)`. */
  function Selects(cond: Row -> bool, dictionaryNames: seq<string>, found: seq<string>): Row -> bool {
    (row: Row) => cond(row) && row.dictionaryName in dictionaryNames && row.word !in found
  }

  /** `select distinct word from entries where ...` before the LIMIT. */
  function Selected(t: Table, cond: Row -> bool, dictionaryNames: seq<string>, found: seq<string>): (r: seq<string>)
    ensures Distinct(r)
    ensures forall w :: w in r <==>
      exists row :: row in t && cond(row) && row.dictionaryName in dictionaryNames && row.word !in found && row.word == w
  {
    var rows := Filter(t, Selects(cond, dictionaryNames, found));
    MapImage(rows, WordOf);
    Dedup(Map(rows, WordOf))
  }

  /** `key >= p and key < p || U+3134A`. */
  function KeyInRange(p: string): Row -> bool {
    (row: Row) => InSentinelRange(row.key, p)
  }

  /** `key like pattern`. */
  function KeyLike(pattern: string): Row -> bool {
    (row: Row) => Match(pattern, row.key)
  }

  /** `key in (...)`. */
  function KeyAmong(keys: seq<string>): Row -> bool {
    (row: Row) => row.key in keys
  }

  // ---------------------------------------------------------------- containing, with keys, like

  /** `select_entries_containing(key, names, found, limit)`: the pattern is
      `%key%` and the limit is `limit - len(found)`. */
  function SelectEntriesContaining(t: Table, key: string, dictionaryNames: seq<string>, found: seq<string>, limit: int): (r: seq<string>)
    ensures Distinct(r)
    ensures forall w :: w in r ==> w !in found
    ensures |found| <= limit ==> |r| <= limit - |found|
  {
    var r := SqlLimit(Selected(t, KeyLike(ContainsPattern(key)), dictionaryNames, found), limit - |found|);
    assert forall w :: w in r ==> w in Selected(t, KeyLike(ContainsPattern(key)), dictionaryNames, found);
    r
  }

  /** `select_entries_with_keys(keys, names, found, limit)`. */
  function SelectEntriesWithKeys(t: Table, keys: seq<string>, dictionaryNames: seq<string>, found: seq<string>, limit: int): (r: seq<string>)
    ensures Distinct(r)
    ensures forall w :: w in r ==> w !in found
    ensures |found| <= limit ==> |r| <= limit - |found|
  {
    var r := SqlLimit(Selected(t, KeyAmong(keys), dictionaryNames, found), limit - |found|);
    assert forall w :: w in r ==> w in Selected(t, KeyAmong(keys), dictionaryNames, found);
    r
  }

  /** `select_entries_like(pattern, names, limit)`: nothing is excluded and the limit is used as given. */
  function SelectEntriesLike(t: Table, pattern: string, dictionaryNames: seq<string>, limit: int): (r: seq<string>)
    ensures Distinct(r)
    ensures limit >= 0 ==> |r| <= limit
  {
    var r := SqlLimit(Selected(t, KeyLike(pattern), dictionaryNames, []), limit);
    assert forall w :: w in r ==> w in Selected(t, KeyLike(pattern), dictionaryNames, []);
    r
  }

  /** A capped distinct selection is exactly the words selected, as far as
      the cap allows: sound always, complete when the words fit. */
  lemma CappedSelection(xs: seq<string>, limit: int)
    requires Distinct(xs)
    ensures var r := SqlLimit(xs, limit);
      && Distinct(r)
      && (forall w :: w in r ==> w in xs)
      && (limit < 0 || |xs| <= limit ==> r == xs)
  {
    if limit >= 0 {
      TakeDistinct(xs, limit);
    }
  }

  /** The words `select_entries_containing` returns come from entries of the
      named dictionaries whose key matches `%key%` and that were not already
      found. For a query without `%` or `_` that is a key containing the
      query. Every key containing the query matches, so when all such words
      fit under the limit, all of them are returned; for a query without
      wildcards, exactly those. */
  lemma ContainingExact(t: Table, key: string, dictionaryNames: seq<string>, found: seq<string>, limit: int, w: string)
    ensures var r := SelectEntriesContaining(t, key, dictionaryNames, found, limit);
      && (w in r ==> exists row :: (row in t && Match(ContainsPattern(key), row.key)
                       && row.dictionaryName in dictionaryNames && row.word !in found && row.word == w))
      && (NoWildcards(key) && w in r ==> exists row :: (row in t && IsSubstring(key, row.key)
                       && row.dictionaryName in dictionaryNames && row.word !in found && row.word == w))
      && (|Selected(t, KeyLike(ContainsPattern(key)), dictionaryNames, found)| <= limit - |found| ==>
            ((exists row :: (row in t && IsSubstring(key, row.key)
                && row.dictionaryName in dictionaryNames && row.word !in found && row.word == w)) ==> w in r))
      && (NoWildcards(key) && |Selected(t, KeyLike(ContainsPattern(key)), dictionaryNames, found)| <= limit - |found| ==>
            (w in r <==> exists row :: (row in t && IsSubstring(key, row.key)
                           && row.dictionaryName in dictionaryNames && row.word !in found && row.word == w)))
  {
    var xs := Selected(t, KeyLike(ContainsPattern(key)), dictionaryNames, found);
    CappedSelection(xs, limit - |found|);
    forall row | row in t
      ensures IsSubstring(key, row.key) ==> KeyLike(ContainsPattern(key))(row)
      ensures NoWildcards(key) ==> (KeyLike(ContainsPattern(key))(row) <==> IsSubstring(key, row.key))
    {
      ContainsPatternIsSubstring(key, row.key);
    }
  }

  /** The words `select_entries_with_keys` returns come from entries of the
      named dictionaries whose key is listed and that were not already
      found; when they fit under the limit, all of them are returned. */
  lemma WithKeysExact(t: Table, keys: seq<string>, dictionaryNames: seq<string>, found: seq<string>, limit: int, w: string)
    ensures var r := SelectEntriesWithKeys(t, keys, dictionaryNames, found, limit);
      && (w in r ==> exists row :: row in t && row.key in keys
                       && row.dictionaryName in dictionaryNames && row.word !in found && row.word == w)
      && (|Selected(t, KeyAmong(keys), dictionaryNames, found)| <= limit - |found| ==>
            (w in r <==> exists row :: row in t && row.key in keys
                           && row.dictionaryName in dictionaryNames && row.word !in found && row.word == w))
  {
    CappedSelection(Selected(t, KeyAmong(keys), dictionaryNames, found), limit - |found|);
  }

  /** The words `select_entries_like` returns come from entries of the named
      dictionaries whose key matches the pattern; when they fit under the
      limit, all of them are returned. */
  lemma LikeExact(t: Table, pattern: string, dictionaryNames: seq<string>, limit: int, w: string)
    ensures var r := SelectEntriesLike(t, pattern, dictionaryNames, limit);
      && (w in r ==> exists row :: row in t && Match(pattern, row.key)
                       && row.dictionaryName in dictionaryNames && row.word == w)
      && (|Selected(t, KeyLike(pattern), dictionaryNames, [])| <= limit ==>
            (w in r <==> exists row :: row in t && Match(pattern, row.key)
                           && row.dictionaryName in dictionaryNames && row.word == w))
  {
    CappedSelection(Selected(t, KeyLike(pattern), dictionaryNames, []), limit);
  }

  /** A key used as its own pattern finds itself: when the matching words fit
      under the limit, `select_entries_like(k)` returns the word of every row
      of a named dictionary keyed `k`. */
  lemma {:induction false} LikeFindsExactKey(t: Table, row: Row, dictionaryNames: seq<string>, limit: int)
    requires row in t && row.dictionaryName in dictionaryNames
    requires |Selected(t, KeyLike(row.key), dictionaryNames, [])| <= limit
    ensures row.word in SelectEntriesLike(t, row.key, dictionaryNames, limit)
  {
    MatchSelf(row.key);
    LikeExact(t, row.key, dictionaryNames, limit, row.word);
  }

  /** With nothing already found, the containing query is the like query on
      the pattern `%key%`. */
  lemma ContainingIsLike(t: Table, key: string, dictionaryNames: seq<string>, limit: int)
    ensures SelectEntriesContaining(t, key, dictionaryNames, [], limit)
         == SelectEntriesLike(t, ContainsPattern(key), dictionaryNames, limit)
  {
    var none: seq<string> := [];
    assert |none| == 0;
  }

  /** The query is put into the pattern unescaped: the query `a_` finds the
      entry keyed `ab`, whose key does not contain `a_`. */
  lemma ContainingUnescaped()
    ensures "W" in SelectEntriesContaining([Row(1, "ab", "d", "W", 0, 0)], "a_", ["d"], [], 10)
    ensures !IsSubstring("a_", "ab")
  {
    var row := Row(1, "ab", "d", "W", 0, 0);
    AnyOneIsAWildcard();
    ContainingExact([row], "a_", ["d"], [], 10, "W");
    assert row in [row];
  }

  // ---------------------------------------------------------------- beginning with

  /** The state of the loop over the candidate prefixes: the words gathered,
      the running limit, and whether the loop has broken off. */
  datatype Scan = Scan(result: seq<string>, limit: int, stopped: bool)

  /** One pass of the loop of `select_entries_beginning_with`, as written:
      the prefix's query under the running limit is appended, then the limit
      drops by the length of the whole result so far, and the loop breaks
      once it is no longer positive. */
  function StepAsWritten(rows: seq<string>, st: Scan): Scan {
    var result := st.result + SqlLimit(rows, st.limit);
    var limit := st.limit - |result|;
    Scan(result, limit, limit <= 0)
  }

  /** The same pass with the limit dropping by the number of words this query returned. */
  function StepCorrected(rows: seq<string>, st: Scan): Scan {
    var added := SqlLimit(rows, st.limit);
    var limit := st.limit - |added|;
    Scan(st.result + added, limit, limit <= 0)
  }

  /** The loop over the per-prefix query results (`hits`, before their LIMIT), as written. */
  function ScanAsWritten(hits: seq<seq<string>>, st: Scan): Scan
    decreases |hits|
  {
    if |hits| == 0 || st.stopped then st
    else ScanAsWritten(hits[1..], StepAsWritten(hits[0], st))
  }

  /** The loop with the corrected pass. */
  function ScanCorrected(hits: seq<seq<string>>, st: Scan): Scan
    decreases |hits|
  {
    if |hits| == 0 || st.stopped then st
    else ScanCorrected(hits[1..], StepCorrected(hits[0], st))
  }

  /** The query for one prefix, before its LIMIT. */
  function PrefixHits(t: Table, p: string, dictionaryNames: seq<string>, found: seq<string>): seq<string> {
    Selected(t, KeyInRange(p), dictionaryNames, found)
  }

  function HitsFor(t: Table, dictionaryNames: seq<string>, found: seq<string>): string -> seq<string> {
    (p: string) => PrefixHits(t, p, dictionaryNames, found)
  }

  /** The per-prefix query results, one per candidate prefix in order. */
  function PrefixHitLists(t: Table, keys: seq<string>, dictionaryNames: seq<string>, found: seq<string>): seq<seq<string>> {
    Map(keys, HitsFor(t, dictionaryNames, found))
  }

  /** `select_entries_beginning_with(keys, names, found, limit)`, as written:
      never more than `limit - len(found)` words when that is not negative. */
  function SelectEntriesBeginningWith(t: Table, keys: seq<string>, dictionaryNames: seq<string>, found: seq<string>, limit: int): (r: seq<string>)
    ensures |found| <= limit ==> |r| <= limit - |found|
  {
    var st := Scan([], limit - |found|, false);
    var r := ScanAsWritten(PrefixHitLists(t, keys, dictionaryNames, found), st).result;
    if |found| <= limit then ScanBound(PrefixHitLists(t, keys, dictionaryNames, found), st, limit - |found|); r else r
  }

  /** `select_entries_beginning_with` with the limit reduced by each query's
      own result: never more than `limit - len(found)` words either. */
  function SelectEntriesBeginningWithCorrected(t: Table, keys: seq<string>, dictionaryNames: seq<string>, found: seq<string>, limit: int): (r: seq<string>)
    ensures |found| <= limit ==> |r| <= limit - |found|
  {
    var st := Scan([], limit - |found|, false);
    var r := ScanCorrected(PrefixHitLists(t, keys, dictionaryNames, found), st).result;
    if |found| <= limit then ScanCorrectedFills(PrefixHitLists(t, keys, dictionaryNames, found), st); r else r
  }

  /** Every word the walk adds comes from one of the per-prefix results. */
  lemma {:induction false} ScanSound(hits: seq<seq<string>>, st: Scan, w: string)
    requires w in ScanAsWritten(hits, st).result
    ensures w in st.result || exists i :: 0 <= i < |hits| && w in hits[i]
    decreases |hits|
  {
    if |hits| > 0 && !st.stopped {
      ScanSound(hits[1..], StepAsWritten(hits[0], st), w);
      if exists i :: 0 <= i < |hits[1..]| && w in hits[1..][i] {
        var i :| 0 <= i < |hits[1..]| && w in hits[1..][i];
        assert w in hits[i + 1];
      }
    }
  }

  lemma {:induction false} ScanCorrectedSound(hits: seq<seq<string>>, st: Scan, w: string)
    requires w in ScanCorrected(hits, st).result
    ensures w in st.result || exists i :: 0 <= i < |hits| && w in hits[i]
    decreases |hits|
  {
    if |hits| > 0 && !st.stopped {
      ScanCorrectedSound(hits[1..], StepCorrected(hits[0], st), w);
      if exists i :: 0 <= i < |hits[1..]| && w in hits[1..][i] {
        var i :| 0 <= i < |hits[1..]| && w in hits[1..][i];
        assert w in hits[i + 1];
      }
    }
  }

  /** The walk's budget: never more than `budget` words, and while the walk
      goes on the running limit is a share of the budget not yet spent. */
  predicate WithinBudget(st: Scan, budget: int) {
    |st.result| <= budget && (!st.stopped ==> 0 <= st.limit && |st.result| + st.limit <= budget)
  }

  /** The walk as written keeps within its budget. */
  lemma {:induction false} ScanBound(hits: seq<seq<string>>, st: Scan, budget: int)
    requires WithinBudget(st, budget)
    ensures WithinBudget(ScanAsWritten(hits, st), budget)
    decreases |hits|
  {
    if |hits| > 0 && !st.stopped {
      ScanBound(hits[1..], StepAsWritten(hits[0], st), budget);
    }
  }

  /** Once the walk has broken off, later prefixes are never queried. */
  lemma {:induction false} ScanStops(hits: seq<seq<string>>, more: seq<seq<string>>, st: Scan)
    requires ScanAsWritten(hits, st).stopped
    ensures ScanAsWritten(hits + more, st) == ScanAsWritten(hits, st)
    decreases |hits|
  {
    if |hits| > 0 && !st.stopped {
      assert (hits + more)[0] == hits[0];
      assert (hits + more)[1..] == hits[1..] + more;
      ScanStops(hits[1..], more, StepAsWritten(hits[0], st));
    }
  }

  /** The number of words the per-prefix queries could return without a limit. */
  function Total(hits: seq<seq<string>>): nat
    decreases |hits|
  {
    if |hits| == 0 then 0 else |hits[0]| + Total(hits[1..])
  }

  function Min(a: int, b: int): int {
    if a <= b then a else b
  }

  /** The per-prefix results one after another, as the loop would gather
      them with no limit at all. */
  function Concat(hits: seq<seq<string>>): (r: seq<string>)
    ensures |r| == Total(hits)
    ensures forall i, w :: 0 <= i < |hits| && w in hits[i] ==> w in r
    decreases |hits|
  {
    if |hits| == 0 then []
    else
      var r := hits[0] + Concat(hits[1..]);
      assert forall i :: 0 < i < |hits| ==> hits[i] == hits[1..][i - 1];
      r
  }

  /** The corrected walk fills the limit: it gathers exactly as many words as
      the limit allows or the queries have, whichever is fewer. */
  lemma {:induction false} ScanCorrectedFills(hits: seq<seq<string>>, st: Scan)
    requires !st.stopped && st.limit >= 0
    ensures |ScanCorrected(hits, st).result| == |st.result| + Min(st.limit, Total(hits))
    decreases |hits|
  {
    if |hits| > 0 {
      var next := StepCorrected(hits[0], st);
      if !next.stopped {
        ScanCorrectedFills(hits[1..], next);
      }
    }
  }

  /** A word one prefix query yields is the headword of an entry of a named
      dictionary, not already found, whose key lies in the prefix's range
      and therefore starts with the prefix. */
  lemma PrefixHitSound(t: Table, p: string, dictionaryNames: seq<string>, found: seq<string>, w: string)
    requires w in PrefixHits(t, p, dictionaryNames, found)
    ensures exists row :: (row in t && InSentinelRange(row.key, p) && IsPrefix(p, row.key)
                           && row.dictionaryName in dictionaryNames && row.word !in found && row.word == w)
  {
    var row :| row in t && KeyInRange(p)(row) && row.dictionaryName in dictionaryNames
      && row.word !in found && row.word == w;
    RangeImpliesPrefix(row.key, p);
  }

  /** Every word `select_entries_beginning_with` returns comes from the
      query of one of the candidate prefixes. */
  lemma BeginningWithSound(t: Table, keys: seq<string>, dictionaryNames: seq<string>, found: seq<string>, limit: int, w: string)
    requires w in SelectEntriesBeginningWith(t, keys, dictionaryNames, found, limit)
    ensures exists p :: p in keys && w in PrefixHits(t, p, dictionaryNames, found)
  {
    var hits := PrefixHitLists(t, keys, dictionaryNames, found);
    ScanSound(hits, Scan([], limit - |found|, false), w);
    var i :| 0 <= i < |hits| && w in hits[i];
    assert hits[i] == PrefixHits(t, keys[i], dictionaryNames, found);
  }

  /** Once the loop breaks off, any further candidate prefixes change nothing. */
  lemma BeginningWithEarlyStop(t: Table, keys: seq<string>, more: seq<string>, dictionaryNames: seq<string>, found: seq<string>, limit: int)
    requires ScanAsWritten(PrefixHitLists(t, keys, dictionaryNames, found), Scan([], limit - |found|, false)).stopped
    ensures SelectEntriesBeginningWith(t, keys + more, dictionaryNames, found, limit)
         == SelectEntriesBeginningWith(t, keys, dictionaryNames, found, limit)
  {
    var f := HitsFor(t, dictionaryNames, found);
    MapAppend(keys, more, f);
    ScanStops(Map(keys, f), Map(more, f), Scan([], limit - |found|, false));
  }

  /** Every word the corrected query returns comes from the query of one of
      the candidate prefixes. */
  lemma BeginningWithCorrectedSound(t: Table, keys: seq<string>, dictionaryNames: seq<string>, found: seq<string>, limit: int, w: string)
    requires w in SelectEntriesBeginningWithCorrected(t, keys, dictionaryNames, found, limit)
    ensures exists p :: p in keys && w in PrefixHits(t, p, dictionaryNames, found)
  {
    var hits := PrefixHitLists(t, keys, dictionaryNames, found);
    ScanCorrectedSound(hits, Scan([], limit - |found|, false), w);
    var i :| 0 <= i < |hits| && w in hits[i];
    assert hits[i] == PrefixHits(t, keys[i], dictionaryNames, found);
  }

  /** The corrected query fills its limit: it returns exactly
      `min(limit - len(found), available)` words. */
  lemma BeginningWithCorrectedExact(t: Table, keys: seq<string>, dictionaryNames: seq<string>, found: seq<string>, limit: int)
    requires |found| <= limit
    ensures |SelectEntriesBeginningWithCorrected(t, keys, dictionaryNames, found, limit)|
         == Min(limit - |found|, Total(PrefixHitLists(t, keys, dictionaryNames, found)))
  {
    ScanCorrectedFills(PrefixHitLists(t, keys, dictionaryNames, found), Scan([], limit - |found|, false));
  }

  /** When everything the queries have fits under the limit, the corrected
      walk gathers all of it, prefix after prefix. */
  lemma {:induction false} ScanCorrectedGathersAll(hits: seq<seq<string>>, st: Scan)
    requires !st.stopped && Total(hits) <= st.limit
    ensures ScanCorrected(hits, st).result == st.result + Concat(hits)
    decreases |hits|
  {
    if |hits| == 0 {
      assert st.result + [] == st.result;
    } else {
      var next := StepCorrected(hits[0], st);
      assert SqlLimit(hits[0], st.limit) == hits[0];
      assert next.result == st.result + hits[0];
      if next.stopped {
        assert |Concat(hits[1..])| == 0;
        assert Concat(hits) == hits[0];
      } else {
        ScanCorrectedGathersAll(hits[1..], next);
        assert st.result + hits[0] + Concat(hits[1..]) == st.result + (hits[0] + Concat(hits[1..]));
      }
    }
  }

  /** For one prefix whose matching words fit under `limit - len(found)`,
      the query as written returns exactly those words. */
  lemma BeginningWithOnePrefix(t: Table, p: string, dictionaryNames: seq<string>, found: seq<string>, limit: int)
    requires |PrefixHits(t, p, dictionaryNames, found)| <= limit - |found|
    ensures SelectEntriesBeginningWith(t, [p], dictionaryNames, found, limit) == PrefixHits(t, p, dictionaryNames, found)
  {
    var hits := PrefixHitLists(t, [p], dictionaryNames, found);
    var st := Scan([], limit - |found|, false);
    assert hits == [PrefixHits(t, p, dictionaryNames, found)];
    var next := StepAsWritten(hits[0], st);
    assert SqlLimit(hits[0], st.limit) == hits[0];
    assert next.result == hits[0];
    assert ScanAsWritten(hits, st) == ScanAsWritten(hits[1..], next);
    assert hits[1..] == [];
  }

  /** Under the same condition every word the prefix should find is
      returned: the word of each row of a named dictionary, not already
      found, whose key starts with the prefix and stays below U+3134A. */
  lemma BeginningWithFindsPrefixed(t: Table, p: string, dictionaryNames: seq<string>, found: seq<string>, limit: int, row: Row)
    requires |PrefixHits(t, p, dictionaryNames, found)| <= limit - |found|
    requires row in t && row.dictionaryName in dictionaryNames && row.word !in found
    requires IsPrefix(p, row.key) && forall i :: 0 <= i < |row.key| ==> row.key[i] < Sentinel
    ensures row.word in SelectEntriesBeginningWith(t, [p], dictionaryNames, found, limit)
  {
    RangeIsPrefixBelowSentinel(row.key, p);
    assert KeyInRange(p)(row);
    BeginningWithOnePrefix(t, p, dictionaryNames, found, limit);
  }

  /** When all the candidate prefixes' words fit under `limit - len(found)`,
      the corrected query returns the word of every row of a named
      dictionary, not already found, whose key starts with one of the
      prefixes and stays below U+3134A. */
  lemma BeginningWithCorrectedComplete(t: Table, keys: seq<string>, dictionaryNames: seq<string>, found: seq<string>, limit: int,
                                       p: string, row: Row)
    requires Total(PrefixHitLists(t, keys, dictionaryNames, found)) <= limit - |found|
    requires p in keys
    requires row in t && row.dictionaryName in dictionaryNames && row.word !in found
    requires IsPrefix(p, row.key) && forall i :: 0 <= i < |row.key| ==> row.key[i] < Sentinel
    ensures row.word in SelectEntriesBeginningWithCorrected(t, keys, dictionaryNames, found, limit)
  {
    var hits := PrefixHitLists(t, keys, dictionaryNames, found);
    var st := Scan([], limit - |found|, false);
    RangeIsPrefixBelowSentinel(row.key, p);
    assert KeyInRange(p)(row);
    var i :| 0 <= i < |keys| && keys[i] == p;
    assert hits[i] == PrefixHits(t, p, dictionaryNames, found);
    ScanCorrectedGathersAll(hits, st);
    assert st.result + Concat(hits) == Concat(hits);
  }

  /** Three prefixes whose queries yield one, one and three words. */
  function UnderfillHits(): seq<seq<string>> {
    [["a"], ["b"], ["c", "d", "e"]]
  }

  /** The walk as written under-fills: with a budget of four and five words
      available it stops at three, because after the second prefix the limit
      drops by the two words gathered so far instead of the one just added. */
  lemma AsWrittenUnderfills()
    ensures ScanAsWritten(UnderfillHits(), Scan([], 4, false)).result == ["a", "b", "c"]
    ensures Total(UnderfillHits()) == 5
  {
    var hits := UnderfillHits();
    var rest := [["b"], ["c", "d", "e"]];
    var last := [["c", "d", "e"]];
    assert hits[1..] == rest && rest[1..] == last;
    // the running limit goes 4, 3 (4 - 1), 1 (3 - 2), -2 (1 - 3)
    assert StepAsWritten(["a"], Scan([], 4, false)) == Scan(["a"], 3, false);
    assert StepAsWritten(["b"], Scan(["a"], 3, false)) == Scan(["a", "b"], 1, false);
    assert SqlLimit(["c", "d", "e"], 1) == ["c"];
    assert StepAsWritten(["c", "d", "e"], Scan(["a", "b"], 1, false)) == Scan(["a", "b", "c"], -2, true);
  }

  /** On the same prefixes the corrected walk returns all four words the budget allows. */
  lemma CorrectedFillsExample()
    ensures |ScanCorrected(UnderfillHits(), Scan([], 4, false)).result| == 4
  {
    var hits := UnderfillHits();
    assert Total(hits) == 5 by {
      assert hits[1..] == [["b"], ["c", "d", "e"]];
      assert hits[1..][1..] == [["c", "d", "e"]];
    }
    ScanCorrectedFills(hits, Scan([], 4, false));
  }
}
