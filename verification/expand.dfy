/** `expand_key`: n-gram retrieval of the keys containing a query string.
    The query is cut into n-grams and the postings of those n-grams are
    fetched. In key mode the posted keys are united, re-checked for true
    containment and then capped; in row mode the posted rowid lists are
    intersected, capped, turned back into keys through the entries table,
    and only then re-checked. */
module Expand {
  import opened Wrappers
  import opened Seqs
  import opened Text
  import opened Ngrams
  import opened Entries
  import opened NgramTable

  function InNgrams(grams: seq<string>): NgramRow -> bool {
    (nr: NgramRow) => nr.ngram in grams
  }

  function IdxsOf(nr: NgramRow): string {
    nr.idxs
  }

  function Containing(q: string): string -> bool {
    (k: string) => IsSubstring(q, k)
  }

  /** `select idxs from ngrams where ngram in (...)`: the posting rows of the query's n-grams. */
  function MatchedRows(ix: Index, grams: seq<string>): (m: seq<NgramRow>)
    ensures forall nr :: nr in m <==> nr in ix.rows && nr.ngram in grams
  {
    Filter(ix.rows, InNgrams(grams))
  }

  function InAllPostings(matched: seq<NgramRow>): string -> bool {
    (id: string) => forall j :: 0 <= j < |matched| ==> id in Split(matched[j].idxs)
  }

  /** The intersection of the rowid lists of the matched rows (empty when no row matched). */
  function Intersection(matched: seq<NgramRow>): (ids: seq<string>)
    ensures Distinct(ids)
    ensures forall id :: id in ids <==>
      |matched| > 0 && forall j :: 0 <= j < |matched| ==> id in Split(matched[j].idxs)
  {
    if |matched| == 0 then []
    else
      var first := Dedup(Split(matched[0].idxs));
      FilterDistinct(first, InAllPostings(matched));
      Filter(first, InAllPostings(matched))
  }

  /** `int(idx)` over the capped candidates; pieces that are not numerals are dropped. */
  function ParsedIds(ids: seq<string>): (r: set<nat>)
    ensures forall id :: id in r <==> exists s :: s in ids && ParseNat(s) == Some(id)
  {
    set s | s in ids && ParseNat(s).Some? :: ParseNat(s).value
  }

  function RowidIn(ids: set<nat>): Row -> bool {
    (row: Row) => row.rowid in ids
  }

  /** `select key from entries where rowid in (...)`. */
  function KeysOfRowids(t: Table, ids: set<nat>): (keys: seq<string>)
    ensures forall k :: k in keys <==> exists row :: row in t && row.rowid in ids && row.key == k
  {
    var rows := Filter(t, RowidIn(ids));
    MapImage(rows, KeyOf);
    Map(rows, KeyOf)
  }

  /** Key mode before the cut: the distinct posted keys of the query's
      n-grams that really contain the query. */
  function KeyHits(settings: Settings, ix: Index, q: string): seq<string> {
    var keys := Dedup(Map(MatchedRows(ix, GenNgrams(q, settings.ngramLen)), IdxsOf));
    Filter(keys, Containing(q))
  }

  /** Row mode before the cut: the rowids posted under every matched n-gram. */
  function RowCandidates(settings: Settings, ix: Index, q: string): seq<string> {
    Intersection(MatchedRows(ix, GenNgrams(q, settings.ngramLen)))
  }

  /** `expand_key(q, stores_keys)` against the entries table `t` and the n-gram table `ix`. */
  function ExpandKey(settings: Settings, t: Table, ix: Index, q: string): (r: seq<string>)
    ensures |q| < settings.ngramLen ==> r == []
    ensures forall k :: k in r ==> IsSubstring(q, k)
    ensures ix.mode.RowPostings? && |RowCandidates(settings, ix, q)| == 0 ==> r == []
  {
    if |GenNgrams(q, settings.ngramLen)| == 0 then []
    else
      match ix.mode
      case KeyPostings =>
        Take(KeyHits(settings, ix, q), settings.variableLimit)
      case RowPostings =>
        var ids := RowCandidates(settings, ix, q);
        if |ids| == 0 then []
        else
          var capped := Take(ids, settings.variableLimit);
          var keys := KeysOfRowids(t, ParsedIds(capped));
          Filter(keys, Containing(q))
  }

  // ---------------------------------------------------------------- result size

  lemma {:induction false} ParsedIdsBound(ids: seq<string>)
    ensures |ParsedIds(ids)| <= |ids|
    decreases |ids|
  {
    if |ids| > 0 {
      var init := ids[..|ids| - 1];
      var last := ids[|ids| - 1];
      ParsedIdsBound(init);
      assert forall s :: s in ids <==> s in init || s == last;
      var extra: set<nat> := if ParseNat(last).Some? then {ParseNat(last).value} else {};
      assert ParsedIds(ids) <= ParsedIds(init) + extra;
      assert |ParsedIds(ids)| <= |ParsedIds(init) + extra| by {
        var a := ParsedIds(ids);
        var b := ParsedIds(init) + extra;
        assert b == a + (b - a);
      }
    }
  }

  /** The rowid as it is written into a posting (`str(rowid)`). */
  function RowidText(row: Row): string {
    NatToString(row.rowid)
  }

  function RowidOf(row: Row): nat {
    row.rowid
  }

  /** In a well-formed table, a set of rowids selects at most that many rows. */
  lemma RowsOfRowidsBound(t: Table, ids: set<nat>)
    requires WellFormed(t)
    ensures |Filter(t, RowidIn(ids))| <= |ids|
  {
    var rows := Filter(t, RowidIn(ids));
    FilterKeepsOrder(t, RowidIn(ids));
    var rowids := Map(rows, RowidOf);
    assert Distinct(rowids);
    forall i | 0 <= i < |rowids|
      ensures rowids[i] in ids
    {
      assert rows[i] in rows;
    }
    DistinctWithin(rowids, ids);
  }

  /** `expand_key` never returns more than `SQLITE_LIMIT_VARIABLE_NUMBER` keys:
      in key mode the filtered keys are cut to the cap, in row mode the
      rowids are, and each rowid names at most one entry. */
  lemma ExpandBound(settings: Settings, t: Table, ix: Index, q: string)
    requires WellFormed(t)
    ensures |ExpandKey(settings, t, ix, q)| <= settings.variableLimit
  {
    var grams := GenNgrams(q, settings.ngramLen);
    if |grams| > 0 && ix.mode.RowPostings? {
      var ids := Intersection(MatchedRows(ix, grams));
      if |ids| > 0 {
        var capped := Take(ids, settings.variableLimit);
        ParsedIdsBound(capped);
        RowsOfRowidsBound(t, ParsedIds(capped));
      }
    }
  }

  // ---------------------------------------------------------------- key mode

  /** The distinct keys of `t` that contain `q`. */
  function ContainingKeys(t: Table, q: string): set<string> {
    set row | row in t && IsSubstring(q, row.key) :: row.key
  }

  lemma ContainerIsLonger(q: string, k: string)
    requires IsSubstring(q, k)
    ensures |q| <= |k|
  {
    var i: nat :| i <= |k| && OccursAt(q, k, i);
  }

  /** A key of `t` containing the query is among the key-mode hits: it is
      posted under the query's first n-gram. */
  lemma KeyHitComplete(settings: Settings, t: Table, q: string, e: Row)
    requires settings.Valid() && |q| >= settings.ngramLen
    requires e in t && IsSubstring(q, e.key)
    ensures e.key in KeyHits(settings, CreateNgramTable(t, KeyPostings, settings), q)
  {
    var n := settings.ngramLen;
    var ix := CreateNgramTable(t, KeyPostings, settings);
    var grams := GenNgrams(q, n);
    FirstNgram(q, n);
    var g := grams[0];
    NgramsOfSubstring(q, e.key, n);
    ContainerIsLonger(q, e.key);
    KeyPostingsExact(t, settings, g, e.key);
    var nr := NgramRow(g, e.key);
    var matched := MatchedRows(ix, grams);
    assert nr in matched;
    MapImage(matched, IdxsOf);
    assert IdxsOf(nr) == e.key;
  }

  /** Every key-mode hit is a key of `t` containing the query. */
  lemma KeyHitSound(settings: Settings, t: Table, q: string, k: string)
    requires k in KeyHits(settings, CreateNgramTable(t, KeyPostings, settings), q)
    ensures k in ContainingKeys(t, q)
  {
    var n := settings.ngramLen;
    var ix := CreateNgramTable(t, KeyPostings, settings);
    var matched := MatchedRows(ix, GenNgrams(q, n));
    MapImage(matched, IdxsOf);
    var nr :| nr in matched && IdxsOf(nr) == k;
    assert nr == NgramRow(nr.ngram, k);
    KeyPostingsExact(t, settings, nr.ngram, k);
    var e :| e in t && e.key == k;
    assert IsSubstring(q, k);
  }

  /** Key mode against a table freshly built from `t`: the keys returned are
      distinct keys of `t` that contain `q`, there are exactly as many as the
      cap allows (the containment filter runs before the cut), and when the
      matching keys fit under the cap every one of them is returned. */
  lemma KeyModeExact(settings: Settings, t: Table, q: string)
    requires settings.Valid() && |q| >= settings.ngramLen
    ensures var r := ExpandKey(settings, t, CreateNgramTable(t, KeyPostings, settings), q);
      && Distinct(r)
      && (forall k :: k in r ==> k in ContainingKeys(t, q))
      && |r| == (if |ContainingKeys(t, q)| <= settings.variableLimit then |ContainingKeys(t, q)| else settings.variableLimit)
      && (|ContainingKeys(t, q)| <= settings.variableLimit ==> forall k :: k in ContainingKeys(t, q) ==> k in r)
  {
    var ix := CreateNgramTable(t, KeyPostings, settings);
    var hits := KeyHits(settings, ix, q);
    FirstNgram(q, settings.ngramLen);
    assert ExpandKey(settings, t, ix, q) == Take(hits, settings.variableLimit);
    forall k | k in hits
      ensures k in ContainingKeys(t, q)
    {
      KeyHitSound(settings, t, q, k);
    }
    forall k | k in ContainingKeys(t, q)
      ensures k in hits
    {
      var e :| e in t && IsSubstring(q, e.key) && e.key == k;
      KeyHitComplete(settings, t, q, e);
    }
    var keys := Dedup(Map(MatchedRows(ix, GenNgrams(q, settings.ngramLen)), IdxsOf));
    FilterDistinct(keys, Containing(q));
    DistinctCardinality(hits);
    assert (set k | k in hits) == ContainingKeys(t, q);
    TakeDistinct(hits, settings.variableLimit);
  }

  // ---------------------------------------------------------------- row mode

  function HasNgrams(grams: seq<string>, n: nat): Row -> bool {
    (row: Row) => forall g :: g in grams ==> g in GenNgrams(row.key, n)
  }

  /** The entries whose key has every n-gram of `q`: the candidates the
      intersection can produce. */
  function RowsWithNgramsOf(t: Table, q: string, n: nat): seq<Row> {
    Filter(t, HasNgrams(GenNgrams(q, n), n))
  }

  /** Every n-gram of a query contained in an entry's key has a posting row
      listing that entry's rowid, and that row is among the matched rows. */
  lemma EntryPostedUnderQueryNgrams(settings: Settings, t: Table, q: string, e: Row, g: string)
    requires settings.Valid() && |q| >= settings.ngramLen
    requires e in t && IsSubstring(q, e.key)
    requires g in GenNgrams(q, settings.ngramLen)
    ensures var ix := CreateNgramTable(t, RowPostings, settings);
      exists i :: 0 <= i < |ix.rows| && ix.rows[i].ngram == g && RowidText(e) in Split(ix.rows[i].idxs)
        && ix.rows[i] in MatchedRows(ix, GenNgrams(q, settings.ngramLen))
  {
    var n := settings.ngramLen;
    var ix := CreateNgramTable(t, RowPostings, settings);
    NgramsOfSubstring(q, e.key, n);
    ContainerIsLonger(q, e.key);
    RowPostingsExact(t, settings, g, RowidText(e));
    var i :| 0 <= i < |ix.rows| && ix.rows[i].ngram == g && RowidText(e) in Split(ix.rows[i].idxs);
    assert ix.rows[i] in MatchedRows(ix, GenNgrams(q, n));
  }

  /** An entry whose key contains the query survives the intersection:
      since there is one row per n-gram, every matched row is the posting
      row of its n-gram, which lists the entry. */
  lemma EntryInIntersection(settings: Settings, t: Table, q: string, e: Row)
    requires settings.Valid() && |q| >= settings.ngramLen
    requires e in t && IsSubstring(q, e.key)
    ensures RowidText(e) in RowCandidates(settings, CreateNgramTable(t, RowPostings, settings), q)
  {
    var n := settings.ngramLen;
    var ix := CreateNgramTable(t, RowPostings, settings);
    var grams := GenNgrams(q, n);
    var matched := MatchedRows(ix, grams);
    var id := RowidText(e);
    RowPostingsExact(t, settings, "", "");
    FirstNgram(q, n);
    EntryPostedUnderQueryNgrams(settings, t, q, e, grams[0]);
    forall j | 0 <= j < |matched|
      ensures id in Split(matched[j].idxs)
    {
      var g := matched[j].ngram;
      assert matched[j] in ix.rows;
      EntryPostedUnderQueryNgrams(settings, t, q, e, g);
      var i :| 0 <= i < |ix.rows| && ix.rows[i].ngram == g && id in Split(ix.rows[i].idxs);
      var i' :| 0 <= i' < |ix.rows| && ix.rows[i'] == matched[j];
      assert i == i';
    }
  }

  /** An id posted under the n-gram `g` is the rowid of an entry having `g`. */
  lemma PostedIdOwner(settings: Settings, t: Table, nr: NgramRow, x: string)
    requires nr in CreateNgramTable(t, RowPostings, settings).rows
    requires x in Split(nr.idxs)
    ensures exists f :: f in t && nr.ngram in GenNgrams(f.key, settings.ngramLen) && x == RowidText(f)
  {
    RowPostingsExact(t, settings, nr.ngram, x);
  }

  /** When some entry contains the query, an id in the intersection is the
      rowid of an entry having any given n-gram of the query: that n-gram's
      posting row is among the matched rows, so it lists the id. */
  lemma CandidateHasNgram(settings: Settings, t: Table, q: string, e: Row, x: string, g: string)
    requires settings.Valid() && |q| >= settings.ngramLen
    requires e in t && IsSubstring(q, e.key)
    requires x in RowCandidates(settings, CreateNgramTable(t, RowPostings, settings), q)
    requires g in GenNgrams(q, settings.ngramLen)
    ensures exists h :: h in t && g in GenNgrams(h.key, settings.ngramLen) && x == RowidText(h)
  {
    var n := settings.ngramLen;
    var ix := CreateNgramTable(t, RowPostings, settings);
    var matched := MatchedRows(ix, GenNgrams(q, n));
    EntryPostedUnderQueryNgrams(settings, t, q, e, g);
    var i :| 0 <= i < |ix.rows| && ix.rows[i].ngram == g && ix.rows[i] in matched;
    var j :| 0 <= j < |matched| && matched[j] == ix.rows[i];
    assert x in Split(matched[j].idxs);
    PostedIdOwner(settings, t, matched[j], x);
  }

  /** When some entry contains the query, every id in the intersection is
      the rowid of an entry whose key has every n-gram of the query. */
  lemma IntersectionWithinCandidates(settings: Settings, t: Table, q: string, e: Row, x: string)
    requires settings.Valid() && WellFormed(t) && |q| >= settings.ngramLen
    requires e in t && IsSubstring(q, e.key)
    requires x in RowCandidates(settings, CreateNgramTable(t, RowPostings, settings), q)
    ensures exists f :: f in RowsWithNgramsOf(t, q, settings.ngramLen) && x == RowidText(f)
  {
    var n := settings.ngramLen;
    var grams := GenNgrams(q, n);
    FirstNgram(q, n);
    CandidateHasNgram(settings, t, q, e, x, grams[0]);
    var f :| f in t && grams[0] in GenNgrams(f.key, n) && x == RowidText(f);
    forall g | g in grams
      ensures g in GenNgrams(f.key, n)
    {
      CandidateHasNgram(settings, t, q, e, x, g);
      var h :| h in t && g in GenNgrams(h.key, n) && x == RowidText(h);
      RenderInjective(f.rowid, h.rowid);
      RowidIdentifies(t, f, h);
    }
    assert HasNgrams(grams, n)(f);
  }

  /** The rowids of `rows`, as they are written into postings. */
  function RowidTexts(rows: seq<Row>): set<string> {
    Image(rows, RowidText)
  }

  /** When some entry contains the query, every id in the intersection is
      the posted rowid of one of those candidate entries. */
  lemma CandidateInRowidTexts(settings: Settings, t: Table, q: string, e: Row, x: string)
    requires settings.Valid() && WellFormed(t) && |q| >= settings.ngramLen
    requires e in t && IsSubstring(q, e.key)
    requires x in RowCandidates(settings, CreateNgramTable(t, RowPostings, settings), q)
    ensures x in RowidTexts(RowsWithNgramsOf(t, q, settings.ngramLen))
  {
    var cands := RowsWithNgramsOf(t, q, settings.ngramLen);
    IntersectionWithinCandidates(settings, t, q, e, x);
    var f :| f in cands && x == RowidText(f);
    assert RowidText(f) in Image(cands, RowidText);
  }

  /** Distinct ids drawn from the rowids of `rows` are no more than the rows. */
  lemma IdsWithinRowidTexts(ids: seq<string>, rows: seq<Row>)
    requires Distinct(ids)
    requires forall x :: x in ids ==> x in RowidTexts(rows)
    ensures |ids| <= |rows|
  {
    forall i | 0 <= i < |ids|
      ensures ids[i] in RowidTexts(rows)
    {
      assert ids[i] in ids;
    }
    DistinctWithin(ids, RowidTexts(rows));
    ImageCardinality(rows, RowidText);
  }

  /** When some entry contains the query, the intersection holds no more
      ids than there are entries having every n-gram of the query. */
  lemma CandidatesBound(settings: Settings, t: Table, q: string, e: Row)
    requires settings.Valid() && WellFormed(t) && |q| >= settings.ngramLen
    requires e in t && IsSubstring(q, e.key)
    ensures |RowCandidates(settings, CreateNgramTable(t, RowPostings, settings), q)|
      <= |RowsWithNgramsOf(t, q, settings.ngramLen)|
  {
    var ids := RowCandidates(settings, CreateNgramTable(t, RowPostings, settings), q);
    var cands := RowsWithNgramsOf(t, q, settings.ngramLen);
    forall x | x in ids
      ensures x in RowidTexts(cands)
    {
      CandidateInRowidTexts(settings, t, q, e, x);
    }
    IdsWithinRowidTexts(ids, cands);
  }

  /** Row-mode completeness against a table freshly built from `t`: when
      the entries having every n-gram of `q` fit under the cap, every entry
      whose key contains `q` has its key returned. */
  lemma RowModeComplete(settings: Settings, t: Table, q: string, e: Row)
    requires settings.Valid() && WellFormed(t) && |q| >= settings.ngramLen
    requires |RowsWithNgramsOf(t, q, settings.ngramLen)| <= settings.variableLimit
    requires e in t && IsSubstring(q, e.key)
    ensures e.key in ExpandKey(settings, t, CreateNgramTable(t, RowPostings, settings), q)
  {
    var n := settings.ngramLen;
    var ix := CreateNgramTable(t, RowPostings, settings);
    FirstNgram(q, n);
    var ids := RowCandidates(settings, ix, q);
    EntryInIntersection(settings, t, q, e);
    CandidatesBound(settings, t, q, e);
    var capped := Take(ids, settings.variableLimit);
    assert capped == ids;
    ParseRendered(e.rowid);
    assert RowidText(e) in capped;
    assert e.rowid in ParsedIds(capped);
    var keys := KeysOfRowids(t, ParsedIds(capped));
    assert e.key in keys;
    assert ExpandKey(settings, t, ix, q) == Filter(keys, Containing(q));
  }

  /** Row mode never invents keys: whatever the n-gram table holds, every
      key returned is the key of an entry of `t`. */
  lemma RowModeKeysExist(settings: Settings, t: Table, ix: Index, q: string)
    requires ix.mode.RowPostings?
    ensures forall k :: k in ExpandKey(settings, t, ix, q) ==> exists row :: row in t && row.key == k
  {
  }
}
