/** The `entries` table and the operations over it that involve no n-grams:
    insertion, deletion of a dictionary, exact and headword lookup,
    per-dictionary enumeration and the existence checks.

    The table is an immutable sequence of rows in insertion order. Each row
    carries its SQLite rowid: a new row gets one more than the largest rowid
    present (1 in an empty table), and deleting rows never renumbers the
    survivors. */
module Entries {
  import opened Seqs

  /** One occurrence of a headword in one dictionary. */
  datatype Row = Row(
    rowid: nat,
    key: string,             // the headword normalised for search
    dictionaryName: string,
    word: string,            // the headword as the dictionary writes it
    offset: int,             // where the article starts in the dictionary's data file
    size: int                // the article's length in bytes
  )

  type Table = seq<Row>

  /** Rowids are positive and strictly increasing in table order, hence unique. */
  predicate WellFormed(t: Table) {
    && (forall i :: 0 <= i < |t| ==> t[i].rowid >= 1)
    && (forall i, j :: 0 <= i < j < |t| ==> t[i].rowid < t[j].rowid)
  }

  /** The largest rowid in use, 0 for an empty table. */
  function MaxRowid(t: Table): (m: nat)
    ensures forall i :: 0 <= i < |t| ==> t[i].rowid <= m
    ensures |t| == 0 ==> m == 0
    ensures |t| > 0 ==> exists i :: 0 <= i < |t| && t[i].rowid == m
  {
    if |t| == 0 then 0
    else
      var m := MaxRowid(t[..|t| - 1]);
      var last := t[|t| - 1].rowid;
      assert forall i :: 0 <= i < |t| - 1 ==> t[i] == t[..|t| - 1][i];
      if m < last then last else m
  }

  // The WHERE conditions and SELECT lists of the queries, named once.

  function InDictionary(dictionaryName: string): Row -> bool {
    (row: Row) => row.dictionaryName == dictionaryName
  }

  function OutsideDictionary(dictionaryName: string): Row -> bool {
    (row: Row) => row.dictionaryName != dictionaryName
  }

  function KeyInDictionary(key: string, dictionaryName: string): Row -> bool {
    (row: Row) => row.key == key && row.dictionaryName == dictionaryName
  }

  function HeadwordInDictionary(word: string, dictionaryName: string): Row -> bool {
    (row: Row) => row.word == word && row.dictionaryName == dictionaryName
  }

  /** `word, offset, size` */
  function Location(row: Row): (string, int, int) {
    (row.word, row.offset, row.size)
  }

  /** `offset, size` */
  function Extent(row: Row): (int, int) {
    (row.offset, row.size)
  }

  function WordOf(row: Row): string {
    row.word
  }

  /** `add_entry`: appends one row, with no uniqueness check. */
  function AddEntry(t: Table, key: string, dictionaryName: string, word: string, offset: int, size: int): (r: Table)
    ensures |r| == |t| + 1 && r[..|t|] == t
    ensures var n := r[|t|];
      n.key == key && n.dictionaryName == dictionaryName && n.word == word && n.offset == offset && n.size == size
    ensures forall i :: 0 <= i < |t| ==> t[i].rowid < r[|t|].rowid
    ensures WellFormed(t) ==> WellFormed(r)
  {
    t + [Row(MaxRowid(t) + 1, key, dictionaryName, word, offset, size)]
  }

  /** `delete_dictionary`: removes the rows of one dictionary and keeps the others in order. */
  function DeleteDictionary(t: Table, dictionaryName: string): (r: Table)
    ensures forall row :: row in r <==> row in t && row.dictionaryName != dictionaryName
    ensures WellFormed(t) ==> WellFormed(r)
  {
    var r := Filter(t, OutsideDictionary(dictionaryName));
    FilterKeepsOrder(t, OutsideDictionary(dictionaryName));
    r
  }

  /** Filtering a well-formed table leaves it well-formed: the kept rows stay in rowid order. */
  lemma {:induction false} FilterKeepsOrder(t: Table, p: Row -> bool)
    ensures WellFormed(t) ==> WellFormed(Filter(t, p))
    decreases |t|
  {
    if |t| > 0 && WellFormed(t) {
      FilterKeepsOrder(t[1..], p);
      var rest := Filter(t[1..], p);
      assert forall row :: row in rest ==> row in t[1..];
      assert forall j :: 0 <= j < |rest| ==> t[0].rowid < rest[j].rowid by {
        forall j | 0 <= j < |rest|
          ensures t[0].rowid < rest[j].rowid
        {
          assert rest[j] in t[1..];
          var k :| 0 <= k < |t[1..]| && t[1..][k] == rest[j];
          assert t[k + 1] == rest[j];
        }
      }
    }
  }

  /** In a well-formed table a rowid identifies at most one row. */
  lemma RowidIdentifies(t: Table, a: Row, b: Row)
    requires WellFormed(t) && a in t && b in t && a.rowid == b.rowid
    ensures a == b
  {
    var i :| 0 <= i < |t| && t[i] == a;
    var j :| 0 <= j < |t| && t[j] == b;
  }

  /** The rows of one key in one dictionary. */
  function RowsWithKey(t: Table, key: string, dictionaryName: string): seq<Row> {
    Filter(t, KeyInDictionary(key, dictionaryName))
  }

  /** `get_entries`: the `(word, offset, size)` of every row with this key in this dictionary. */
  function GetEntries(t: Table, key: string, dictionaryName: string): (r: seq<(string, int, int)>)
    ensures forall e :: e in r <==>
      exists row :: row in t && row.key == key && row.dictionaryName == dictionaryName
                    && e == (row.word, row.offset, row.size)
  {
    var rows := RowsWithKey(t, key, dictionaryName);
    MapImage(rows, Location);
    Map(rows, Location)
  }

  /** `get_entries_with_headword`: the `(offset, size)` of every row with this headword in this dictionary. */
  function GetEntriesWithHeadword(t: Table, word: string, dictionaryName: string): (r: seq<(int, int)>)
    ensures forall e :: e in r <==>
      exists row :: row in t && row.word == word && row.dictionaryName == dictionaryName
                    && e == (row.offset, row.size)
  {
    var rows := Filter(t, HeadwordInDictionary(word, dictionaryName));
    MapImage(rows, Extent);
    Map(rows, Extent)
  }

  /** The rows of one dictionary, in table order. */
  function RowsOf(t: Table, dictionaryName: string): seq<Row> {
    Filter(t, InDictionary(dictionaryName))
  }

  /** A line of `get_entries_all`: `(key, word, offset, size)`. */
  type Listing = (string, string, int, int)

  function ListingOf(row: Row): Listing {
    (row.key, row.word, row.offset, row.size)
  }

  predicate SortedByOffset(s: seq<Listing>) {
    forall i, j :: 0 <= i < j < |s| ==> s[i].2 <= s[j].2
  }

  /** Inserts `x` into an offset-sorted sequence in front of the first line with a larger offset. */
  function InsertByOffset(x: Listing, s: seq<Listing>): (r: seq<Listing>)
    requires SortedByOffset(s)
    ensures SortedByOffset(r)
    ensures multiset(r) == multiset(s) + multiset{x}
    decreases |s|
  {
    if |s| == 0 then [x]
    else if x.2 <= s[0].2 then [x] + s
    else
      var rest := InsertByOffset(x, s[1..]);
      assert s == [s[0]] + s[1..];
      InsertKeepsBound(s[0].2, x, s[1..], rest);
      [s[0]] + rest
  }

  /** A lower bound on the offsets of `x` and of `s` is one on their merge. */
  lemma InsertKeepsBound(b: int, x: Listing, s: seq<Listing>, r: seq<Listing>)
    requires b <= x.2
    requires forall i :: 0 <= i < |s| ==> b <= s[i].2
    requires multiset(r) == multiset(s) + multiset{x}
    ensures forall i :: 0 <= i < |r| ==> b <= r[i].2
  {
    forall i | 0 <= i < |r|
      ensures b <= r[i].2
    {
      assert r[i] in multiset(r);
      if r[i] != x {
        assert r[i] in multiset(s);
        assert r[i] in s;
      }
    }
  }

  /** The lines reordered by ascending offset (`order by offset`); lines with
      equal offsets may come in any order, as in SQLite. */
  function SortByOffset(s: seq<Listing>): (r: seq<Listing>)
    ensures SortedByOffset(r)
    ensures multiset(r) == multiset(s)
    decreases |s|
  {
    if |s| == 0 then []
    else
      assert s == [s[0]] + s[1..];
      InsertByOffset(s[0], SortByOffset(s[1..]))
  }

  /** `get_entries_all`: `(key, word, offset, size)` of every row of a dictionary,
      by ascending offset; each row gives exactly one line. */
  function GetEntriesAll(t: Table, dictionaryName: string): (r: seq<Listing>)
    ensures SortedByOffset(r)
    ensures multiset(r) == multiset(Map(RowsOf(t, dictionaryName), ListingOf))
    ensures forall e :: e in r <==> exists row :: row in t && row.dictionaryName == dictionaryName && e == ListingOf(row)
  {
    var lines := Map(RowsOf(t, dictionaryName), ListingOf);
    var r := SortByOffset(lines);
    MapImage(RowsOf(t, dictionaryName), ListingOf);
    assert forall e :: e in r <==> e in lines by {
      forall e
        ensures e in r <==> e in lines
      {
        assert e in r <==> e in multiset(r);
        assert e in lines <==> e in multiset(lines);
      }
    }
    r
  }

  /** `headword_count_of_dictionary`: the number of rows of a dictionary. */
  function HeadwordCount(t: Table, dictionaryName: string): (n: nat)
    ensures n <= |t|
    ensures n == 0 <==> forall row :: row in t ==> row.dictionaryName != dictionaryName
  {
    var rows := RowsOf(t, dictionaryName);
    if |rows| == 0 then 0
    else
      assert rows[0] in rows;
      |rows|
  }

  /** `select_words_of_dictionary`: the distinct headwords of a dictionary. */
  function SelectWordsOfDictionary(t: Table, dictionaryName: string): (r: seq<string>)
    ensures Distinct(r)
    ensures forall w :: w in r <==> exists row :: row in t && row.dictionaryName == dictionaryName && row.word == w
  {
    var rows := RowsOf(t, dictionaryName);
    MapImage(rows, WordOf);
    Dedup(Map(rows, WordOf))
  }

  /** A `select ... limit 1` whose `fetchone()` is not `None`: some row satisfies `p`. */
  function AnyRow(t: Table, p: Row -> bool): (b: bool)
    ensures b <==> exists row :: row in t && p(row)
  {
    var first := Take(Filter(t, p), 1);
    if |first| == 1 then
      assert first[0] in Filter(t, p);
      true
    else
      false
  }

  /** `dictionary_exists`. */
  function DictionaryExists(t: Table, dictionaryName: string): (b: bool)
    ensures b <==> exists row :: row in t && row.dictionaryName == dictionaryName
  {
    AnyRow(t, InDictionary(dictionaryName))
  }

  /** `entry_exists_in_dictionary`. */
  function EntryExistsInDictionary(t: Table, key: string, dictionaryName: string): (b: bool)
    ensures b <==> exists row :: row in t && row.key == key && row.dictionaryName == dictionaryName
  {
    AnyRow(t, KeyInDictionary(key, dictionaryName))
  }

  /** `entry_exists_in_dictionaries`: `dictionary_name in (...)` over a list of names. */
  function EntryExistsInDictionaries(t: Table, key: string, dictionaryNames: seq<string>): (b: bool)
    ensures b <==> exists row :: row in t && row.key == key && row.dictionaryName in dictionaryNames
  {
    AnyRow(t, (row: Row) => row.key == key && row.dictionaryName in dictionaryNames)
  }

  /** `headword_exists_in_dictionary`. */
  function HeadwordExistsInDictionary(t: Table, word: string, dictionaryName: string): (b: bool)
    ensures b <==> exists row :: row in t && row.word == word && row.dictionaryName == dictionaryName
  {
    AnyRow(t, HeadwordInDictionary(word, dictionaryName))
  }

  /** Round trip of `add_entry` and `get_entries`: the new row's
      `(word, offset, size)` is appended to the lookup of its own key and
      dictionary, and every other lookup is unchanged. */
  lemma {:induction false} AddThenGet(t: Table, key: string, dictionaryName: string, word: string, offset: int, size: int,
                                      key': string, dictionaryName': string)
    ensures GetEntries(AddEntry(t, key, dictionaryName, word, offset, size), key', dictionaryName')
         == if key' == key && dictionaryName' == dictionaryName
            then GetEntries(t, key', dictionaryName') + [(word, offset, size)]
            else GetEntries(t, key', dictionaryName')
  {
    var r := AddEntry(t, key, dictionaryName, word, offset, size);
    var p := KeyInDictionary(key', dictionaryName');
    var row := r[|t|];
    assert r == t + [row];
    FilterAppend(t, [row], p);
    var added := Filter([row], p);
    assert added == if p(row) then [row] else [] by {
      assert [row][1..] == [];
    }
    MapAppend(Filter(t, p), added, Location);
    assert Map(added, Location) == if p(row) then [(word, offset, size)] else [];
  }

  /** After `add_entry(k, d, w, o, s)`, `get_entries_with_headword(w, d)`
      returns its old pairs followed by `(o, s)`, one per row, and every other
      headword lookup is unchanged. */
  lemma {:induction false} AddThenGetWithHeadword(t: Table, key: string, dictionaryName: string, word: string, offset: int, size: int,
                                                  word': string, dictionaryName': string)
    ensures GetEntriesWithHeadword(AddEntry(t, key, dictionaryName, word, offset, size), word', dictionaryName')
         == if word' == word && dictionaryName' == dictionaryName
            then GetEntriesWithHeadword(t, word', dictionaryName') + [(offset, size)]
            else GetEntriesWithHeadword(t, word', dictionaryName')
  {
    var r := AddEntry(t, key, dictionaryName, word, offset, size);
    var p := HeadwordInDictionary(word', dictionaryName');
    var row := r[|t|];
    assert r == t + [row];
    FilterAppend(t, [row], p);
    var added := Filter([row], p);
    assert added == if p(row) then [row] else [] by {
      assert [row][1..] == [];
    }
    MapAppend(Filter(t, p), added, Extent);
    assert Map(added, Extent) == if p(row) then [(offset, size)] else [];
  }

  /** After `delete_dictionary(d)` the dictionary is gone: it no longer
      exists, has no headwords and no key is found in it; exactly its rows were
      removed; and every other dictionary keeps exactly the rows it had, in order. */
  lemma DeleteThenQuery(t: Table, dictionaryName: string, other: string, key: string)
    requires other != dictionaryName
    ensures var r := DeleteDictionary(t, dictionaryName);
      && !DictionaryExists(r, dictionaryName)
      && HeadwordCount(r, dictionaryName) == 0
      && GetEntries(r, key, dictionaryName) == []
      && |r| == |t| - HeadwordCount(t, dictionaryName)
      && RowsOf(r, other) == RowsOf(t, other)
      && GetEntries(r, key, other) == GetEntries(t, key, other)
  {
    var keep := OutsideDictionary(dictionaryName);
    var r := DeleteDictionary(t, dictionaryName);
    FilterFilter(t, keep, InDictionary(other));
    FilterFilter(t, keep, KeyInDictionary(key, other));
    FilterSplitsLength(t, keep, InDictionary(dictionaryName));
    FilterNone(r, KeyInDictionary(key, dictionaryName));
  }

  /** `add_entry` makes its dictionary exist and raises its headword count by one. */
  lemma {:induction false} AddThenCount(t: Table, key: string, dictionaryName: string, word: string, offset: int, size: int,
                                        other: string)
    ensures var r := AddEntry(t, key, dictionaryName, word, offset, size);
      && DictionaryExists(r, dictionaryName)
      && HeadwordCount(r, other) == HeadwordCount(t, other) + (if other == dictionaryName then 1 else 0)
  {
    var r := AddEntry(t, key, dictionaryName, word, offset, size);
    var p := InDictionary(other);
    assert r == t + [r[|t|]];
    assert r[|t|] in r;
    FilterAppend(t, [r[|t|]], p);
    assert Filter([r[|t|]], p) == if p(r[|t|]) then [r[|t|]] else [] by {
      assert [r[|t|]][1..] == [];
    }
  }

  /** Rowid `i + 1` at position `i`: the numbering of a table only ever appended to. */
  predicate Dense(t: Table) {
    forall i :: 0 <= i < |t| ==> t[i].rowid == i + 1
  }

  /** Appending to a densely numbered table keeps it dense, so a table loaded
      by `add_entry` alone has rowid = position + 1. */
  lemma {:induction false} AddKeepsDense(t: Table, key: string, dictionaryName: string, word: string, offset: int, size: int)
    requires Dense(t)
    ensures Dense(AddEntry(t, key, dictionaryName, word, offset, size))
  {
    if |t| > 0 {
      assert MaxRowid(t) == |t| by {
        var i :| 0 <= i < |t| && t[i].rowid == MaxRowid(t);
        assert t[|t| - 1].rowid == |t|;
      }
    }
  }
}
