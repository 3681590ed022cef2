/** The textual encoding of a row-postings list: rowids written in decimal
    (Python's `str(rowid)`), joined with commas when a posting is extended
    (`idxs += "," + rowid`), and read back with `idxs.split(',')` and
    `int(idx)`. */
module Text {
  import opened Wrappers

  const Comma: char := ','

  predicate IsDigit(c: char) {
    '0' <= c <= '9'
  }

  function DigitChar(d: nat): (c: char)
    requires d < 10
    ensures IsDigit(c)
    ensures c as int - '0' as int == d
  {
    ('0' as int + d) as char
  }

  function DigitValue(c: char): (d: nat)
    requires IsDigit(c)
    ensures d < 10
    ensures DigitChar(d) == c
    ensures forall e :: 0 <= e < 10 && DigitChar(e) == c ==> e == d
  {
    (c as int - '0' as int) as nat
  }

  /** Decimal rendering of a natural number without leading zeros (`str(n)`). */
  function NatToString(n: nat): (s: string)
    ensures |s| >= 1
    ensures forall i :: 0 <= i < |s| ==> IsDigit(s[i])
    ensures |s| > 1 ==> s[0] != '0'
  {
    if n < 10 then [DigitChar(n)]
    else NatToString(n / 10) + [DigitChar(n % 10)]
  }

  /** The value of a nonempty string of digits, most significant first. */
  function DigitsValue(s: string): nat
    requires forall i :: 0 <= i < |s| ==> IsDigit(s[i])
  {
    if |s| == 0 then 0
    else DigitsValue(s[..|s| - 1]) * 10 + DigitValue(s[|s| - 1])
  }

  /** `int(s)` on a decimal numeral: `None` on anything but a non-empty
      string of ASCII digits. Python's `int()` also accepts a sign,
      surrounding whitespace, underscores and other Unicode digits, none of
      which `create_ngram_table` ever writes. */
  function ParseNat(s: string): (r: Option<nat>)
    ensures r.Some? <==> |s| >= 1 && forall i :: 0 <= i < |s| ==> IsDigit(s[i])
  {
    if |s| >= 1 && forall i :: 0 <= i < |s| ==> IsDigit(s[i]) then Some(DigitsValue(s))
    else None
  }

  /** Reading back a rendered rowid gives the rowid: `int(str(n)) == n`. */
  lemma {:induction false} ParseRendered(n: nat)
    ensures ParseNat(NatToString(n)) == Some(n)
    ensures DigitsValue(NatToString(n)) == n
    decreases n
  {
    var s := NatToString(n);
    if n >= 10 {
      ParseRendered(n / 10);
      assert s[..|s| - 1] == NatToString(n / 10);
    }
    assert DigitsValue(s) == n;
  }

  /** Distinct rowids render to distinct strings. */
  lemma RenderInjective(m: nat, n: nat)
    ensures NatToString(m) == NatToString(n) ==> m == n
  {
    ParseRendered(m);
    ParseRendered(n);
  }

  /** Python's `s.split(',')`: the pieces between commas, always at least one. */
  function Split(s: string): (r: seq<string>)
    ensures |r| >= 1
    decreases |s|
  {
    if |s| == 0 then [""]
    else
      var rest := Split(s[1..]);
      if s[0] == Comma then [""] + rest
      else [[s[0]] + rest[0]] + rest[1..]
  }

  /** A string without a comma splits into itself alone. */
  lemma {:induction false} SplitNoComma(s: string)
    requires Comma !in s
    ensures Split(s) == [s]
    decreases |s|
  {
    if |s| > 0 {
      SplitNoComma(s[1..]);
      assert [s[0]] + s[1..] == s;
    }
  }

  /** Splitting at a comma concatenates the splits of both sides: the
      posting list written as `a + "," + b` reads back as the pieces of `a`
      followed by the pieces of `b`. */
  lemma {:induction false} SplitJoin(a: string, b: string)
    ensures Split(a + [Comma] + b) == Split(a) + Split(b)
    decreases |a|
  {
    if |a| == 0 {
      assert a + [Comma] + b == [Comma] + b;
      assert ([Comma] + b)[1..] == b;
    } else {
      var s := a + [Comma] + b;
      assert s[0] == a[0];
      assert s[1..] == a[1..] + [Comma] + b;
      SplitJoin(a[1..], b);
    }
  }

  /** Appending `"," + rendered rowid` to a posting adds exactly that rowid as the last piece. */
  lemma AppendRowid(idxs: string, n: nat)
    ensures Split(idxs + [Comma] + NatToString(n)) == Split(idxs) + [NatToString(n)]
  {
    SplitJoin(idxs, NatToString(n));
    var d := NatToString(n);
    SplitNoComma(d);
  }

  /** A fresh posting holding one rendered rowid reads back as that rowid alone. */
  lemma SingleRowid(n: nat)
    ensures Split(NatToString(n)) == [NatToString(n)]
  {
    var d := NatToString(n);
    SplitNoComma(d);
  }
}
