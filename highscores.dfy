/**
  The high-score list: one `name,score` text line per record, read back by splitting on
  ',' and parsing the score as an i32, and the submit rule (push, stable sort by score,
  highest first, keep ten).
*/
module HighScores {
  import opened Wrappers

  /** One record: the player's name and the score (an `i32` in the source). */
  datatype Entry = Entry(name: string, score: int)

  const I32_MIN: int := -0x8000_0000
  const I32_MAX: int := 0x7fff_ffff

  predicate InI32(n: int) {
    I32_MIN <= n <= I32_MAX
  }

  /** The list keeps at most this many records after a submit. */
  const MAX_HIGH_SCORES: nat := 10

  // ---------------------------------------------------------------------------
  // Decimal text of an integer, as `{}` formatting writes it and `parse::<i32>` reads it
  // ---------------------------------------------------------------------------

  predicate IsDigit(c: char) {
    '0' <= c <= '9'
  }

  predicate AllDigits(s: string) {
    forall i :: 0 <= i < |s| ==> IsDigit(s[i])
  }

  function DigitChar(d: nat): char
    requires d < 10
  {
    ('0' as int + d) as char
  }

  function DigitValue(c: char): nat
    requires IsDigit(c)
  {
    c as int - '0' as int
  }

  /** The decimal digits of n, most significant first, without leading zeros. */
  function NatToString(n: nat): string
    decreases n
  {
    if n < 10 then [DigitChar(n)] else NatToString(n / 10) + [DigitChar(n % 10)]
  }

  /** The text `{}` writes for an integer: a '-' before the digits of a negative value. */
  function IntToString(n: int): string {
    if n < 0 then "-" + NatToString(-n) else NatToString(n)
  }

  /** The value of a string of decimal digits. */
  function DigitsValue(s: string): nat
    requires AllDigits(s)
  {
    if s == [] then 0 else DigitsValue(s[..|s| - 1]) * 10 + DigitValue(s[|s| - 1])
  }

  /**
    `str::parse::<i32>`: an optional '+' or '-', then at least one decimal digit and
    nothing else, with the value in the i32 range; anything else fails.
  */
  function ParseI32(s: string): (r: Option<int>)
    ensures r.Some? ==> InI32(r.value)
  {
    if s == [] then None
    else
      var digits := if s[0] == '+' || s[0] == '-' then s[1..] else s;
      if digits == [] || !AllDigits(digits) then None
      else
        var n: int := DigitsValue(digits);
        var v := if s[0] == '-' then -n else n;
        if InI32(v) then Some(v) else None
  }

  // ---------------------------------------------------------------------------
  // One record line
  // ---------------------------------------------------------------------------

  /** `line.split(',')`: the pieces between commas, always at least one. */
  function Split(s: string): (parts: seq<string>)
    ensures |parts| >= 1
  {
    if s == [] then [""]
    else
      var rest := Split(s[1..]);
      if s[0] == ',' then [""] + rest else [[s[0]] + rest[0]] + rest[1..]
  }

  function CommaCount(s: string): nat {
    if s == [] then 0 else (if s[0] == ',' then 1 else 0) + CommaCount(s[1..])
  }

  /** The line `save_high_scores` writes for a record (without its newline). */
  function FormatLine(e: Entry): string {
    e.name + "," + IntToString(e.score)
  }

  /** The record `load_high_scores` reads from a line, if any: exactly two parts and an i32 score. */
  function ParseLine(line: string): (r: Option<Entry>)
    ensures r.Some? ==> InI32(r.value.score)
  {
    var parts := Split(line);
    if |parts| == 2 then
      match ParseI32(parts[1])
      case Some(v) => Some(Entry(parts[0], v))
      case None => None
    else None
  }

  /** The list `load_high_scores` builds from the file's lines: unreadable lines are skipped. */
  function LoadHighScores(lines: seq<string>): seq<Entry> {
    if lines == [] then []
    else
      (match ParseLine(lines[0]) case Some(e) => [e] case None => []) + LoadHighScores(lines[1..])
  }

  /** The lines `save_high_scores` writes, one per record in list order. */
  function SaveHighScores(list: seq<Entry>): seq<string> {
    seq(|list|, i requires 0 <= i < |list| => FormatLine(list[i]))
  }

  /** A record the text format can carry: no ',' in the name and an i32 score. */
  predicate Storable(e: Entry) {
    ',' !in e.name && InI32(e.score)
  }

  // ---------------------------------------------------------------------------
  // Submitting a score
  // ---------------------------------------------------------------------------

  predicate SortedByScore(s: seq<Entry>) {
    forall i, j :: 0 <= i < j < |s| ==> s[i].score >= s[j].score
  }

  /** Places e after every record whose score is at least e's. */
  function InsertByScore(e: Entry, s: seq<Entry>): seq<Entry> {
    if s == [] then [e]
    else if s[0].score >= e.score then [s[0]] + InsertByScore(e, s[1..])
    else [e] + s
  }

  /**
    `sort_by(|a, b| b.1.cmp(&a.1))`: highest score first, records with equal scores in
    their original order (Rust's `sort_by` is stable).
  */
  function SortByScore(s: seq<Entry>): seq<Entry> {
    if s == [] then [] else InsertByScore(s[|s| - 1], SortByScore(s[..|s| - 1]))
  }

  /** `truncate(n)`: the first n records, or all when there are fewer. */
  function Truncate(s: seq<Entry>, n: nat): seq<Entry> {
    if |s| <= n then s else s[..n]
  }

  /** The list after submitting e: push, sort, keep ten. */
  function SubmitEntry(list: seq<Entry>, e: Entry): seq<Entry> {
    Truncate(SortByScore(list + [e]), MAX_HIGH_SCORES)
  }

  /** The records with score v, in list order. */
  function WithScore(s: seq<Entry>, v: int): seq<Entry> {
    if s == [] then [] else (if s[0].score == v then [s[0]] else []) + WithScore(s[1..], v)
  }

  /** The number of records whose score is at least v. */
  function CountAtLeast(s: seq<Entry>, v: int): nat {
    if s == [] then 0 else (if s[0].score >= v then 1 else 0) + CountAtLeast(s[1..], v)
  }

  // ---------------------------------------------------------------------------
  // Properties of the text format
  // ---------------------------------------------------------------------------

  lemma {:induction false} NatToStringValue(n: nat)
    ensures NatToString(n) != [] && AllDigits(NatToString(n))
    ensures DigitsValue(NatToString(n)) == n
    decreases n
  {
    if n >= 10 {
      NatToStringValue(n / 10);
      var s := NatToString(n);
      assert s[..|s| - 1] == NatToString(n / 10);
    }
  }

  /** Parsing the written text of an integer gives it back exactly when it is an i32. */
  lemma ParseIntToString(n: int)
    ensures ParseI32(IntToString(n)) == if InI32(n) then Some(n) else None
    ensures ',' !in IntToString(n)
  {
    var s := IntToString(n);
    if n < 0 {
      NatToStringValue(-n);
      assert s[1..] == NatToString(-n);
    } else {
      NatToStringValue(n);
    }
  }

  /** Text without a ',' is a single part. */
  lemma {:induction false} SplitNoComma(s: string)
    requires ',' !in s
    ensures Split(s) == [s]
  {
    if s != [] {
      assert s == [s[0]] + s[1..];
      SplitNoComma(s[1..]);
    }
  }

  /** The first comma ends the first part. */
  lemma {:induction false} SplitAtComma(a: string, b: string)
    requires ',' !in a
    ensures Split(a + "," + b) == [a] + Split(b)
  {
    if a == [] {
      assert a + "," + b == [','] + b;
      assert ([','] + b)[1..] == b;
    } else {
      assert (a + "," + b)[1..] == a[1..] + "," + b;
      SplitAtComma(a[1..], b);
      assert [a[0]] + a[1..] == a;
    }
  }

  /** A line splits into one more part than it has commas. */
  lemma {:induction false} SplitLength(s: string)
    ensures |Split(s)| == CommaCount(s) + 1
  {
    if s != [] {
      SplitLength(s[1..]);
    }
  }

  /** A written record reads back as itself when its name has no ',' and its score is an i32. */
  lemma FormatParseRoundTrip(e: Entry)
    requires Storable(e)
    ensures ParseLine(FormatLine(e)) == Some(e)
  {
    ParseIntToString(e.score);
    SplitAtComma(e.name, IntToString(e.score));
    SplitNoComma(IntToString(e.score));
  }

  /** A line without exactly one ',' (two parts) is skipped. */
  lemma ParseLineNeedsOneComma(line: string)
    requires CommaCount(line) != 1
    ensures ParseLine(line) == None
  {
    SplitLength(line);
  }

  /** A line `name,tail` whose tail is not an i32 is skipped. */
  lemma ParseLineNeedsI32(name: string, tail: string)
    requires ',' !in name && ',' !in tail && ParseI32(tail) == None
    ensures ParseLine(name + "," + tail) == None
  {
    SplitAtComma(name, tail);
    SplitNoComma(tail);
  }

  /** A line `name,tail` with one comma and an i32 tail is read as that record. */
  lemma ParseLineAccepts(name: string, tail: string)
    requires ',' !in name && ',' !in tail && ParseI32(tail).Some?
    ensures ParseLine(name + "," + tail) == Some(Entry(name, ParseI32(tail).value))
  {
    SplitAtComma(name, tail);
    SplitNoComma(tail);
  }

  /** Every record read from a file can be written and read back unchanged. */
  lemma {:induction false} LoadedAreStorable(line: string)
    ensures ParseLine(line).Some? ==> Storable(ParseLine(line).value)
  {
    if ParseLine(line).Some? {
      SplitLength(line);
      var parts := Split(line);
      SplitPrefixNoComma(line);
    }
  }

  /** When the line has a comma, the first part of the split contains none. */
  lemma {:induction false} SplitPrefixNoComma(s: string)
    ensures ',' !in Split(s)[0]
  {
    if s != [] {
      SplitPrefixNoComma(s[1..]);
    }
  }

  /** Saving a list of storable records and loading the lines gives the list back. */
  lemma {:induction false} LoadSaveRoundTrip(list: seq<Entry>)
    requires forall i :: 0 <= i < |list| ==> Storable(list[i])
    ensures LoadHighScores(SaveHighScores(list)) == list
  {
    if list != [] {
      FormatParseRoundTrip(list[0]);
      assert SaveHighScores(list)[1..] == SaveHighScores(list[1..]);
      LoadSaveRoundTrip(list[1..]);
    }
  }

  /** Every loaded record is storable, so a loaded list survives a save and a load. */
  lemma {:induction false} LoadedListStorable(lines: seq<string>)
    ensures forall i :: 0 <= i < |LoadHighScores(lines)| ==> Storable(LoadHighScores(lines)[i])
  {
    if lines != [] {
      LoadedAreStorable(lines[0]);
      LoadedListStorable(lines[1..]);
    }
  }

  /** A name containing ',' is written but not read back: that record is dropped on the next load. */
  lemma CommaInNameIsLost(e: Entry)
    requires ',' in e.name
    ensures ParseLine(FormatLine(e)) == None
  {
    CommaCountAppend(e.name, ",");
    CommaCountAppend(e.name + ",", IntToString(e.score));
    CommaCountPositive(e.name);
    assert CommaCount(",") == 1 by {
      assert ","[1..] == [];
    }
    ParseLineNeedsOneComma(FormatLine(e));
  }

  lemma {:induction false} CommaCountAppend(a: string, b: string)
    ensures CommaCount(a + b) == CommaCount(a) + CommaCount(b)
  {
    if a == [] {
      assert a + b == b;
    } else {
      assert (a + b)[0] == a[0] && (a + b)[1..] == a[1..] + b;
      CommaCountAppend(a[1..], b);
    }
  }

  lemma {:induction false} CommaCountPositive(s: string)
    requires ',' in s
    ensures CommaCount(s) >= 1
  {
    if s[0] != ',' {
      assert s == [s[0]] + s[1..];
      CommaCountPositive(s[1..]);
    }
  }

  // ---------------------------------------------------------------------------
  // Properties of the submit rule
  // ---------------------------------------------------------------------------

  /** A record scoring at least as high as every record of a sorted list heads a sorted list. */
  lemma SortedCons(h: Entry, r: seq<Entry>)
    requires SortedByScore(r)
    requires forall x | x in r :: h.score >= x.score
    ensures SortedByScore([h] + r)
  {
    var t := [h] + r;
    forall i, j | 0 <= i < j < |t| ensures t[i].score >= t[j].score {
      assert t[j] == r[j - 1];
      if i > 0 {
        assert t[i] == r[i - 1];
      }
    }
  }

  /** Inserting adds exactly the one record. */
  lemma {:induction false} InsertMultiset(e: Entry, s: seq<Entry>)
    ensures multiset(InsertByScore(e, s)) == multiset(s) + multiset{e}
    ensures |InsertByScore(e, s)| == |s| + 1
  {
    if s != [] && s[0].score >= e.score {
      InsertMultiset(e, s[1..]);
      assert s == [s[0]] + s[1..];
    }
  }

  /** The tail of a sorted list is sorted and scores no higher than the head. */
  lemma SortedTail(s: seq<Entry>)
    requires SortedByScore(s) && s != []
    ensures SortedByScore(s[1..])
    ensures forall x | x in s[1..] :: s[0].score >= x.score
  {
    var t := s[1..];
    forall i, j | 0 <= i < j < |t| ensures t[i].score >= t[j].score {
      assert t[i] == s[i + 1] && t[j] == s[j + 1];
    }
    forall x | x in t ensures s[0].score >= x.score {
      var k :| 0 <= k < |t| && t[k] == x;
      assert s[k + 1] == x;
    }
  }

  /** Inserting into a sorted list keeps it sorted. */
  lemma {:induction false} InsertSorted(e: Entry, s: seq<Entry>)
    requires SortedByScore(s)
    ensures SortedByScore(InsertByScore(e, s))
  {
    if s == [] {
    } else if s[0].score >= e.score {
      var t := s[1..];
      SortedTail(s);
      InsertSorted(e, t);
      InsertMultiset(e, t);
      var r := InsertByScore(e, t);
      forall x | x in r ensures s[0].score >= x.score {
        assert x in multiset(t) + multiset{e} by {
          assert x in multiset(r);
        }
      }
      assert InsertByScore(e, s) == [s[0]] + r;
      SortedCons(s[0], r);
    } else {
      SortedTail(s);
      assert s == [s[0]] + s[1..];
      assert forall x | x in s :: x == s[0] || x in s[1..];
      SortedCons(e, s);
    }
  }

  lemma InsertFacts(e: Entry, s: seq<Entry>)
    requires SortedByScore(s)
    ensures SortedByScore(InsertByScore(e, s))
    ensures multiset(InsertByScore(e, s)) == multiset(s) + multiset{e}
    ensures |InsertByScore(e, s)| == |s| + 1
  {
    InsertSorted(e, s);
    InsertMultiset(e, s);
  }

  /** The sort yields the same records, highest score first. */
  lemma SortByScoreCorrect(s: seq<Entry>)
    ensures SortedByScore(SortByScore(s))
    ensures multiset(SortByScore(s)) == multiset(s)
    ensures |SortByScore(s)| == |s|
  {
    SortByScoreSorted(s);
    SortByScorePermutes(s);
  }

  lemma {:induction false} SortByScoreSorted(s: seq<Entry>)
    ensures SortedByScore(SortByScore(s))
  {
    if s != [] {
      SortByScoreSorted(s[..|s| - 1]);
      InsertSorted(s[|s| - 1], SortByScore(s[..|s| - 1]));
    }
  }

  lemma {:induction false} SortByScorePermutes(s: seq<Entry>)
    ensures multiset(SortByScore(s)) == multiset(s)
    ensures |SortByScore(s)| == |s|
  {
    if s != [] {
      var init, last := s[..|s| - 1], s[|s| - 1];
      SortByScorePermutes(init);
      InsertMultiset(last, SortByScore(init));
      assert SortByScore(s) == InsertByScore(last, SortByScore(init));
      assert multiset(s) == multiset(init) + multiset{last} by {
        assert s == init + [last];
      }
    }
  }

  lemma WithScoreCons(h: Entry, t: seq<Entry>, v: int)
    ensures WithScore([h] + t, v) == (if h.score == v then [h] else []) + WithScore(t, v)
  {
    assert ([h] + t)[0] == h && ([h] + t)[1..] == t;
  }

  lemma {:induction false} WithScoreAppend(a: seq<Entry>, b: seq<Entry>, v: int)
    ensures WithScore(a + b, v) == WithScore(a, v) + WithScore(b, v)
  {
    if a == [] {
      assert a + b == b;
    } else {
      var h := if a[0].score == v then [a[0]] else [];
      var wa, wb := WithScore(a[1..], v), WithScore(b, v);
      assert a + b == [a[0]] + (a[1..] + b);
      WithScoreCons(a[0], a[1..] + b, v);
      WithScoreAppend(a[1..], b, v);
      assert a == [a[0]] + a[1..];
      WithScoreCons(a[0], a[1..], v);
      assert h + (wa + wb) == (h + wa) + wb;
    }
  }

  lemma {:induction false} NoneAtLeastAboveHead(s: seq<Entry>, v: int)
    requires SortedByScore(s) && s != [] && s[0].score < v
    ensures WithScore(s, v) == [] && CountAtLeast(s, v) == 0
  {
    if |s| > 1 {
      NoneAtLeastAboveHead(s[1..], v);
    }
  }

  lemma {:induction false} InsertByScoreStable(e: Entry, s: seq<Entry>, v: int)
    requires SortedByScore(s)
    ensures WithScore(InsertByScore(e, s), v) == WithScore(s, v) + (if e.score == v then [e] else [])
  {
    var tail := if e.score == v then [e] else [];
    if s == [] {
      assert InsertByScore(e, s) == [e] + [];
      WithScoreCons(e, [], v);
    } else if s[0].score >= e.score {
      var t := s[1..];
      var h := if s[0].score == v then [s[0]] else [];
      SortedTail(s);
      InsertByScoreStable(e, t, v);
      assert InsertByScore(e, s) == [s[0]] + InsertByScore(e, t);
      WithScoreCons(s[0], InsertByScore(e, t), v);
      assert s == [s[0]] + t;
      WithScoreCons(s[0], t, v);
      assert h + (WithScore(t, v) + tail) == (h + WithScore(t, v)) + tail;
    } else {
      assert InsertByScore(e, s) == [e] + s;
      WithScoreCons(e, s, v);
      if e.score == v {
        NoneAtLeastAboveHead(s, v);
      }
    }
  }

  /**
    The sort is stable: for every score, the records with that score keep their
    relative order.
  */
  lemma {:induction false} SortByScoreStable(s: seq<Entry>, v: int)
    ensures WithScore(SortByScore(s), v) == WithScore(s, v)
  {
    if s != [] {
      var init, last := s[..|s| - 1], s[|s| - 1];
      SortByScoreCorrect(init);
      assert s == init + [last];
      calc {
        WithScore(SortByScore(s), v);
        WithScore(InsertByScore(last, SortByScore(init)), v);
        { InsertByScoreStable(last, SortByScore(init), v); }
        WithScore(SortByScore(init), v) + (if last.score == v then [last] else []);
        { SortByScoreStable(init, v); }
        WithScore(init, v) + WithScore([last], v);
        { WithScoreAppend(init, [last], v); }
        WithScore(s, v);
      }
    }
  }

  lemma {:induction false} InsertByScoreRank(e: Entry, s: seq<Entry>)
    requires SortedByScore(s)
    ensures CountAtLeast(s, e.score) < |InsertByScore(e, s)|
    ensures InsertByScore(e, s)[CountAtLeast(s, e.score)] == e
    ensures forall v :: CountAtLeast(InsertByScore(e, s), v) == CountAtLeast(s, v) + (if e.score >= v then 1 else 0)
  {
    if s == [] {
    } else if s[0].score >= e.score {
      InsertByScoreRank(e, s[1..]);
    } else {
      NoneAtLeastAboveHead(s, e.score);
    }
  }

  lemma CountAtLeastCons(h: Entry, t: seq<Entry>, v: int)
    ensures CountAtLeast([h] + t, v) == (if h.score >= v then 1 else 0) + CountAtLeast(t, v)
  {
    assert ([h] + t)[0] == h && ([h] + t)[1..] == t;
  }

  lemma {:induction false} CountAtLeastAppend(a: seq<Entry>, b: seq<Entry>, v: int)
    ensures CountAtLeast(a + b, v) == CountAtLeast(a, v) + CountAtLeast(b, v)
  {
    if a == [] {
      assert a + b == b;
    } else {
      assert a + b == [a[0]] + (a[1..] + b);
      CountAtLeastCons(a[0], a[1..] + b, v);
      CountAtLeastAppend(a[1..], b, v);
      assert a == [a[0]] + a[1..];
      CountAtLeastCons(a[0], a[1..], v);
    }
  }

  lemma {:induction false} SortByScoreCount(s: seq<Entry>, v: int)
    ensures CountAtLeast(SortByScore(s), v) == CountAtLeast(s, v)
  {
    if s != [] {
      var init, last := s[..|s| - 1], s[|s| - 1];
      SortByScoreCount(init, v);
      SortByScoreCorrect(init);
      InsertByScoreRank(last, SortByScore(init));
      assert CountAtLeast(InsertByScore(last, SortByScore(init)), v)
          == CountAtLeast(SortByScore(init), v) + (if last.score >= v then 1 else 0);
      assert s == init + [last];
      assert SortByScore(s) == InsertByScore(last, SortByScore(init));
      CountAtLeastAppend(init, [last], v);
      CountAtLeastCons(last, [], v);
      assert [last] + [] == [last];
    }
  }

  /** No more records score at least v than the list has. */
  lemma {:induction false} CountAtLeastBound(s: seq<Entry>, v: int)
    ensures CountAtLeast(s, v) <= |s|
  {
    if s != [] {
      CountAtLeastBound(s[1..], v);
    }
  }

  /** In a sorted list no record at or after a low-scoring one reaches v. */
  lemma CountBelowIndex(s: seq<Entry>, v: int, i: nat)
    requires SortedByScore(s) && i < |s|
    ensures s[i].score < v ==> CountAtLeast(s, v) <= i
  {
    if s[i].score < v {
      var tail := s[i..];
      forall a, b | 0 <= a < b < |tail| ensures tail[a].score >= tail[b].score {
        assert tail[a] == s[i + a] && tail[b] == s[i + b];
      }
      NoneAtLeastAboveHead(tail, v);
      assert s == s[..i] + tail;
      CountAtLeastAppend(s[..i], tail, v);
      CountAtLeastBound(s[..i], v);
    }
  }

  /** In a sorted list the records scoring at least v come first. */
  lemma SortedCountPrefix(s: seq<Entry>, v: int, k: nat)
    requires SortedByScore(s) && k <= CountAtLeast(s, v)
    ensures k <= |s| && forall i | 0 <= i < k :: s[i].score >= v
  {
    CountAtLeastBound(s, v);
    forall i | 0 <= i < k ensures s[i].score >= v {
      CountBelowIndex(s, v, i);
    }
  }

  /** Inserting leaves in place a leading run of records that score at least as high. */
  lemma {:induction false} InsertByScorePrefix(e: Entry, s: seq<Entry>, k: nat)
    requires k <= |s| && forall i | 0 <= i < k :: s[i].score >= e.score
    ensures k < |InsertByScore(e, s)| && InsertByScore(e, s)[..k] == s[..k]
  {
    InsertMultiset(e, s);
    if k > 0 {
      var t := s[1..];
      assert forall i | 0 <= i < k - 1 :: t[i] == s[i + 1];
      InsertByScorePrefix(e, t, k - 1);
      var r := InsertByScore(e, t);
      assert InsertByScore(e, s) == [s[0]] + r;
      assert ([s[0]] + r)[..k] == [s[0]] + r[..k - 1];
      assert s[..k] == [s[0]] + t[..k - 1];
    }
  }

  /** A record with at least ten records scoring as high ahead of it leaves the old top ten unchanged. */
  lemma SubmitPastTen(list: seq<Entry>, e: Entry)
    requires CountAtLeast(list, e.score) >= MAX_HIGH_SCORES
    ensures SubmitEntry(list, e) == Truncate(SortByScore(list), MAX_HIGH_SCORES)
  {
    var sorted := SortByScore(list);
    SortByScoreCorrect(list);
    SortByScoreCount(list, e.score);
    assert (list + [e])[..|list + [e]| - 1] == list;
    assert SortByScore(list + [e]) == InsertByScore(e, sorted);
    SortedCountPrefix(sorted, e.score, MAX_HIGH_SCORES);
    InsertByScorePrefix(e, sorted, MAX_HIGH_SCORES);
    if |sorted| == MAX_HIGH_SCORES {
      assert sorted[..MAX_HIGH_SCORES] == sorted;
    }
  }

  /**
    The submitted record is placed right after every earlier record whose score is at
    least as high. It is kept there when fewer than ten of them exist; otherwise the list
    stays the old top ten.
  */
  lemma SubmitRank(list: seq<Entry>, e: Entry)
    ensures var rank := CountAtLeast(list, e.score);
      rank < |SortByScore(list + [e])| && SortByScore(list + [e])[rank] == e
      && (rank < MAX_HIGH_SCORES ==> SubmitEntry(list, e)[rank] == e)
      && (rank >= MAX_HIGH_SCORES ==> SubmitEntry(list, e) == Truncate(SortByScore(list), MAX_HIGH_SCORES))
  {
    SortByScoreCorrect(list);
    SortByScoreCount(list, e.score);
    InsertByScoreRank(e, SortByScore(list));
    assert (list + [e])[..|list + [e]| - 1] == list;
    if CountAtLeast(list, e.score) >= MAX_HIGH_SCORES {
      SubmitPastTen(list, e);
    }
  }

  /**
    After a submit the list holds at most ten records, highest score first, all taken
    from the old list and the new record, and none it dropped scores above one it kept.
  */
  lemma SubmitEntryFacts(list: seq<Entry>, e: Entry)
    ensures var r := SubmitEntry(list, e);
      && |r| == (if |list| + 1 <= MAX_HIGH_SCORES then |list| + 1 else MAX_HIGH_SCORES)
      && SortedByScore(r)
      && multiset(r) <= multiset(list) + multiset{e}
      && r == SortByScore(list + [e])[..|r|]
      && forall i, j :: 0 <= i < |r| <= j < |SortByScore(list + [e])| ==>
           SortByScore(list + [e])[j].score <= r[i].score
  {
    var full := SortByScore(list + [e]);
    SortByScoreCorrect(list + [e]);
    var r := SubmitEntry(list, e);
    if |full| > MAX_HIGH_SCORES {
      assert full == r + full[|r|..];
      assert multiset(full) == multiset(r) + multiset(full[|r|..]);
    }
  }
}
