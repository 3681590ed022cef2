/** `create_ngram_table`: the inverted index from n-grams to the keys or
    rowids of the entries that contain them. The table is rebuilt from
    scratch on every call, in one of two encodings chosen at build time:

    - key postings: one row `(ngram, key)` per n-gram occurrence in every
      distinct key;
    - row postings: one row per distinct n-gram whose `idxs` column is the
      comma-separated list of the rowids of the entries containing it,
      extended by read-modify-write as the entries are walked. */
module NgramTable {
  import opened Wrappers
  import opened Seqs
  import opened Text
  import opened Ngrams
  import opened Entries

  /** The two tunable constants of the engine: the n-gram length
      (`NGRAM_LEN`) and the cap on the candidates of one retrieval
      (`SQLITE_LIMIT_VARIABLE_NUMBER`, SQLite's bound on bound parameters). */
  datatype Settings = Settings(ngramLen: nat, variableLimit: nat) {
    predicate Valid() {
      ngramLen >= 1
    }
  }

  datatype Mode = KeyPostings | RowPostings

  /** A row of the `ngrams` table. In key mode `idxs` holds one key; in row
      mode it holds comma-separated decimal rowids. */
  datatype NgramRow = NgramRow(ngram: string, idxs: string)

  /** One generation of the n-gram table, tagged with the encoding it was built in. */
  datatype Index = Index(mode: Mode, rows: seq<NgramRow>)

  function KeyOf(row: Row): string {
    row.key
  }

  /** `select distinct key from entries`. */
  function DistinctKeys(t: Table): (keys: seq<string>)
    ensures Distinct(keys)
    ensures forall k :: k in keys <==> exists row :: row in t && row.key == k
  {
    MapImage(t, KeyOf);
    Dedup(Map(t, KeyOf))
  }

  // ---------------------------------------------------------------- key postings

  /** The rows inserted for one key: `(g, key)` for each of its n-grams, none when it is too short. */
  function KeyPostingsOf(key: string, n: nat): (r: seq<NgramRow>)
    ensures forall nr :: nr in r <==> nr.idxs == key && |key| >= n && nr.ngram in GenNgrams(key, n)
  {
    if |key| >= n then
      var r := Map(GenNgrams(key, n), (g: string) => NgramRow(g, key));
      MapImage(GenNgrams(key, n), (g: string) => NgramRow(g, key));
      r
    else []
  }

  /** The key-postings build loop over the distinct keys. */
  function BuildKeyPostings(keys: seq<string>, n: nat): (r: seq<NgramRow>)
    ensures forall nr :: nr in r <==>
      nr.idxs in keys && |nr.idxs| >= n && nr.ngram in GenNgrams(nr.idxs, n)
    decreases |keys|
  {
    if |keys| == 0 then []
    else
      var r := KeyPostingsOf(keys[0], n) + BuildKeyPostings(keys[1..], n);
      assert forall k :: k in keys <==> k == keys[0] || k in keys[1..];
      r
  }

  // ---------------------------------------------------------------- row postings

  /** The first row holding n-gram `g`, as `select idxs from ngrams where ngram = ?` fetches it. */
  function FindNgram(rows: seq<NgramRow>, g: string): (r: Option<nat>)
    ensures r.None? ==> forall i :: 0 <= i < |rows| ==> rows[i].ngram != g
    ensures r.Some? ==> r.value < |rows| && rows[r.value].ngram == g
    ensures r.Some? ==> forall i :: 0 <= i < r.value ==> rows[i].ngram != g
    decreases |rows|
  {
    if |rows| == 0 then None
    else if rows[0].ngram == g then Some(0)
    else match FindNgram(rows[1..], g)
      case None => None
      case Some(i) => Some(i + 1)
  }

  /** Posting one rowid under one n-gram: append `"," + rowid` to the
      existing row (updating every row with that n-gram, as the UPDATE does)
      or insert a new row holding just the rowid. */
  function Upsert(rows: seq<NgramRow>, g: string, id: string): (r: seq<NgramRow>)
  {
    match FindNgram(rows, g)
    case None => rows + [NgramRow(g, id)]
    case Some(i) =>
      var idxs := rows[i].idxs + [Comma] + id;
      seq(|rows|, j requires 0 <= j < |rows| => if rows[j].ngram == g then NgramRow(g, idxs) else rows[j])
  }

  /** Posting one entry's rowid under each of the n-grams of its key, in order. */
  function PostNgrams(rows: seq<NgramRow>, grams: seq<string>, id: string): seq<NgramRow>
    decreases |grams|
  {
    if |grams| == 0 then rows
    else PostNgrams(Upsert(rows, grams[0], id), grams[1..], id)
  }

  /** The row-postings build loop: `select key, rowid from entries`, then
      every n-gram of every key long enough. */
  function PostEntries(rows: seq<NgramRow>, entries: Table, n: nat): seq<NgramRow>
    decreases |entries|
  {
    if |entries| == 0 then rows
    else
      var e := entries[0];
      var rows' := if |e.key| >= n then PostNgrams(rows, GenNgrams(e.key, n), NatToString(e.rowid)) else rows;
      PostEntries(rows', entries[1..], n)
  }

  /** `create_ngram_table(stores_keys)`: drops any previous table and builds a fresh one from `t`. */
  function CreateNgramTable(t: Table, mode: Mode, settings: Settings): (ix: Index)
    ensures ix.mode == mode
    ensures mode.KeyPostings? ==> forall nr :: nr in ix.rows <==>
      (exists e :: e in t && e.key == nr.idxs) && |nr.idxs| >= settings.ngramLen
      && nr.ngram in GenNgrams(nr.idxs, settings.ngramLen)
    ensures mode.RowPostings? ==> UniqueNgrams(ix.rows)
  {
    match mode
    case KeyPostings => Index(mode, BuildKeyPostings(DistinctKeys(t), settings.ngramLen))
    case RowPostings =>
      PostEntriesPosts([], t, settings.ngramLen);
      Index(mode, PostEntries([], t, settings.ngramLen))
  }

  // ---------------------------------------------------------------- properties

  /** At most one row per n-gram. */
  predicate UniqueNgrams(rows: seq<NgramRow>) {
    forall i, j :: 0 <= i < j < |rows| ==> rows[i].ngram != rows[j].ngram
  }

  /** The posting of n-gram `g` lists `id`. */
  predicate Posted(rows: seq<NgramRow>, g: string, id: string) {
    exists i :: 0 <= i < |rows| && rows[i].ngram == g && id in Split(rows[i].idxs)
  }

  /** Upsert keeps one row per n-gram, adds `id` to the posting of `g`, and
      changes no other posting: the row for `g` reads back as its old ids
      followed by `id`. */
  lemma UpsertPosts(rows: seq<NgramRow>, g: string, id: nat)
    requires UniqueNgrams(rows)
    ensures var r := Upsert(rows, g, NatToString(id));
      && UniqueNgrams(r)
      && Posted(r, g, NatToString(id))
      && (forall g', x :: Posted(rows, g', x) ==> Posted(r, g', x))
      && (forall g', x :: Posted(r, g', x) ==> Posted(rows, g', x) || (g' == g && x == NatToString(id)))
  {
    var s := NatToString(id);
    var r := Upsert(rows, g, s);
    match FindNgram(rows, g)
    case None =>
      SingleRowid(id);
      assert r[|rows|] == NgramRow(g, s);
      forall g', x | Posted(rows, g', x)
        ensures Posted(r, g', x)
      {
        var i :| 0 <= i < |rows| && rows[i].ngram == g' && x in Split(rows[i].idxs);
        assert r[i] == rows[i];
      }
      forall g', x | Posted(r, g', x)
        ensures Posted(rows, g', x) || (g' == g && x == s)
      {
        var i :| 0 <= i < |r| && r[i].ngram == g' && x in Split(r[i].idxs);
        if i < |rows| {
          assert r[i] == rows[i];
        }
      }
    case Some(k) =>
      var idxs := rows[k].idxs + [Comma] + s;
      AppendRowid(rows[k].idxs, id);
      assert r[k] == NgramRow(g, idxs);
      assert Split(idxs) == Split(rows[k].idxs) + [s];
      forall j | 0 <= j < |rows| && j != k
        ensures r[j] == rows[j]
      {
      }
      forall g', x | Posted(rows, g', x)
        ensures Posted(r, g', x)
      {
        var i :| 0 <= i < |rows| && rows[i].ngram == g' && x in Split(rows[i].idxs);
        if i == k {
          assert x in Split(r[k].idxs);
        } else {
          assert r[i] == rows[i];
        }
      }
      forall g', x | Posted(r, g', x)
        ensures Posted(rows, g', x) || (g' == g && x == s)
      {
        var i :| 0 <= i < |r| && r[i].ngram == g' && x in Split(r[i].idxs);
        if i != k {
          assert r[i] == rows[i];
        }
      }
  }

  /** Posting one rowid under a list of n-grams posts it under each of them and nothing else. */
  lemma {:induction false} PostNgramsPosts(rows: seq<NgramRow>, grams: seq<string>, id: nat)
    requires UniqueNgrams(rows)
    ensures var r := PostNgrams(rows, grams, NatToString(id));
      && UniqueNgrams(r)
      && (forall g :: g in grams ==> Posted(r, g, NatToString(id)))
      && (forall g', x :: Posted(rows, g', x) ==> Posted(r, g', x))
      && (forall g', x :: Posted(r, g', x) ==> Posted(rows, g', x) || (g' in grams && x == NatToString(id)))
    decreases |grams|
  {
    if |grams| > 0 {
      var s := NatToString(id);
      var u := Upsert(rows, grams[0], s);
      UpsertPosts(rows, grams[0], id);
      PostNgramsPosts(u, grams[1..], id);
      assert forall g :: g in grams ==> g == grams[0] || g in grams[1..];
    }
  }

  /** What the row-postings walk adds: the rowid of every entry long enough
      under every n-gram of its key, and nothing else. */
  lemma {:induction false} PostEntriesPosts(rows: seq<NgramRow>, entries: Table, n: nat)
    requires UniqueNgrams(rows)
    ensures var r := PostEntries(rows, entries, n);
      && UniqueNgrams(r)
      && (forall g', x :: Posted(rows, g', x) ==> Posted(r, g', x))
      && (forall g', x :: Posted(r, g', x) <==>
            (Posted(rows, g', x) ||
             exists e :: e in entries && |e.key| >= n && g' in GenNgrams(e.key, n) && x == NatToString(e.rowid)))
    decreases |entries|
  {
    if |entries| > 0 {
      var e := entries[0];
      var s := NatToString(e.rowid);
      var rows' := if |e.key| >= n then PostNgrams(rows, GenNgrams(e.key, n), s) else rows;
      if |e.key| >= n {
        PostNgramsPosts(rows, GenNgrams(e.key, n), e.rowid);
      }
      PostEntriesPosts(rows', entries[1..], n);
      assert forall f :: f in entries <==> f == e || f in entries[1..];
    }
  }

  /** Row-postings completeness and soundness: after the build there is at
      most one row per n-gram, and the posting of `g` lists the rowid of an
      entry exactly when the entry's key is long enough and has `g` among its
      n-grams. Keys shorter than the n-gram length contribute nothing. */
  lemma RowPostingsExact(t: Table, settings: Settings, g: string, id: string)
    ensures var ix := CreateNgramTable(t, RowPostings, settings);
      && UniqueNgrams(ix.rows)
      && (Posted(ix.rows, g, id) <==>
            exists e :: e in t && |e.key| >= settings.ngramLen && g in GenNgrams(e.key, settings.ngramLen)
                        && id == NatToString(e.rowid))
  {
    PostEntriesPosts([], t, settings.ngramLen);
  }

  /** Key-postings completeness and soundness: the table holds the row
      `(g, k)` exactly when `k` is the key of some entry, is long enough, and
      has `g` among its n-grams. */
  lemma KeyPostingsExact(t: Table, settings: Settings, g: string, k: string)
    ensures NgramRow(g, k) in CreateNgramTable(t, KeyPostings, settings).rows <==>
      (exists e :: e in t && e.key == k) && |k| >= settings.ngramLen && g in GenNgrams(k, settings.ngramLen)
  {
  }
}
