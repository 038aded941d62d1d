/**
 * Reading, merging and saving article statistics (src/connectors/ga4Service.ts).
 */
module Ga4 {
  import opened Common
  import opened Ga4Paths

  /* ----- paging ----- */

  datatype ReportRow = ReportRow(path: string, totalUsers: int)

  const PAGE_SIZE: nat := 10000

  function Page(report: seq<ReportRow>, offset: nat): seq<ReportRow> {
    if offset >= |report| then []
    else if offset + PAGE_SIZE <= |report| then report[offset..offset + PAGE_SIZE]
    else report[offset..]
  }

  /** The offsets the loop asks for: multiples of the page size up to the length of the report. */
  predicate IsAsked(report: seq<ReportRow>, offset: nat) {
    offset % PAGE_SIZE == 0 && offset <= |report|
  }

  /**
   * Fetches page after page until one is not full. `lost` are the offsets at which
   * no response arrives. The result is the whole report, unless a page that is
   * needed is lost; a last page that is full costs one more request.
   */
  method FetchGA4Data(report: seq<ReportRow>, lost: set<nat>) returns (result: Result<seq<ReportRow>, ()>, requests: nat)
    ensures result == Ok(report) || result == Err(())
    ensures result.Ok? <==> forall offset <- lost :: !IsAsked(report, offset)
    ensures result.Ok? ==> requests == |report| / 10000 + 1
  {
    var offset, rows := 0, [];
    requests := 0;
    while true
      invariant offset == requests * PAGE_SIZE
      invariant offset <= |report| && rows == report[..offset]
      invariant forall o: nat | IsAsked(report, o) && o < offset :: o !in lost
      decreases |report| - offset
    {
      requests := requests + 1;
      if offset in lost {
        assert offset % PAGE_SIZE == 0;
        return Err(()), requests;
      }
      var res := Page(report, offset);
      rows := rows + res;
      offset := offset + PAGE_SIZE;
      if |res| < PAGE_SIZE {
        assert rows == report;
        break;
      }
    }
    forall o | o in lost
      ensures !IsAsked(report, o)
    {
      if IsAsked(report, o) {
        BelowNextPage(o, requests, |report|);
      }
    }
    return Ok(rows), requests;
  }

  lemma BelowNextPage(o: nat, requests: nat, length: nat)
    requires o % PAGE_SIZE == 0 && o <= length < requests * PAGE_SIZE
    ensures o / PAGE_SIZE < requests
  {
  }

  /* ----- merging ----- */

  /** A row whose path has been resolved to an article id, or to none. */
  datatype Converted = Converted(id: Option<string>, totalUsers: int)

  /** The number that a string of digits, with a minus sign or not, denotes. */
  function NumberOf(id: string): Option<int> {
    if id != "" && id[0] == '-' then
      var n := DigitsOf(id[1..]);
      if n.Some? then Some(-n.value) else None
    else
      DigitsOf(id)
  }

  function DigitsOf(s: string): Option<int> {
    if s == "" then None
    else
      var last := s[|s| - 1];
      if !('0' <= last <= '9') then None
      else if |s| == 1 then Some((last - '0') as int)
      else
        var n := DigitsOf(s[..|s| - 1]);
        if n.Some? then Some(10 * n.value + (last - '0') as int) else None
  }

  /* ----- what number a text denotes ----- */

  const DIGITS := "0123456789"

  /** The decimal numeral of a number, without leading zeros. */
  function Numeral(n: nat): (s: string)
    ensures s != ""
  {
    if n < 10 then [DIGITS[n]] else Numeral(n / 10) + [DIGITS[n % 10]]
  }

  function Zeros(k: nat): (s: string)
    ensures |s| == k && forall c <- s :: c == '0'
  {
    if k == 0 then "" else Zeros(k - 1) + "0"
  }

  lemma DigitIs(n: nat)
    requires n < 10
    ensures '0' <= DIGITS[n] <= '9' && (DIGITS[n] - '0') as int == n
  {
    assert DIGITS[0] == '0' && DIGITS[1] == '1' && DIGITS[2] == '2' && DIGITS[3] == '3' && DIGITS[4] == '4';
    assert DIGITS[5] == '5' && DIGITS[6] == '6' && DIGITS[7] == '7' && DIGITS[8] == '8' && DIGITS[9] == '9';
  }

  lemma DigitsNext(s: string, d: nat)
    requires d < 10
    ensures DigitsOf(s + [DIGITS[d]]) ==
            if s == "" then Some(d)
            else if DigitsOf(s).Some? then Some(10 * DigitsOf(s).value + d)
            else None
  {
    DigitIs(d);
    assert (s + [DIGITS[d]])[..|s|] == s;
  }

  lemma {:induction false} ZerosDenote(k: nat)
    ensures k > 0 ==> DigitsOf(Zeros(k)) == Some(0)
  {
    if k > 0 {
      ZerosDenote(k - 1);
      DigitsNext(Zeros(k - 1), 0);
      assert Zeros(k) == Zeros(k - 1) + [DIGITS[0]];
    }
  }

  lemma TenTimes(n: nat, d: nat)
    requires d < 10
    ensures (10 * n + d) / 10 == n && (10 * n + d) % 10 == d
  {
  }

  lemma NumeralEnds(m: nat, n: nat, d: nat)
    requires m >= 10 && n == m / 10 && d == m % 10
    ensures Numeral(m) == Numeral(n) + [DIGITS[d]]
  {
  }

  /** The numeral of a number of several digits is that of all but the last, and the last. */
  lemma NumeralNext(k: nat, n: nat, d: nat)
    requires n > 0 && d < 10
    ensures Zeros(k) + Numeral(10 * n + d) == (Zeros(k) + Numeral(n)) + [DIGITS[d]]
  {
    TenTimes(n, d);
    NumeralEnds(10 * n + d, n, d);
    AddLast(Zeros(k), Numeral(n), DIGITS[d], Numeral(10 * n + d));
  }

  lemma AddLast(u: string, v: string, c: char, w: string)
    requires w == v + [c]
    ensures u + w == (u + v) + [c]
  {
  }

  lemma {:induction false} NumeralDenotes(k: nat, n: nat)
    ensures DigitsOf(Zeros(k) + Numeral(n)) == Some(n)
    decreases n
  {
    if n < 10 {
      ZerosDenote(k);
      DigitsNext(Zeros(k), n);
    } else {
      var m, d := n / 10, n % 10;
      NumeralDenotes(k, m);
      OneDigitMore(k, m, d);
      assert 10 * m + d == n;
    }
  }

  lemma OneDigitMore(k: nat, m: nat, d: nat)
    requires m > 0 && d < 10 && DigitsOf(Zeros(k) + Numeral(m)) == Some(m)
    ensures DigitsOf(Zeros(k) + Numeral(10 * m + d)) == Some(10 * m + d)
  {
    NumeralNext(k, m, d);
    DigitsNext(Zeros(k) + Numeral(m), d);
  }

  lemma DigitOfChar(c: char)
    requires '0' <= c <= '9'
    ensures (c - '0') as int < 10 && c == DIGITS[(c - '0') as int]
  {
    DigitIs((c - '0') as int);
  }

  lemma LastDigit(s: string) returns (d: nat)
    requires DigitsOf(s).Some?
    ensures d < 10 && s != "" && s == s[..|s| - 1] + [DIGITS[d]]
    ensures |s| == 1 ==> DigitsOf(s) == Some(d)
    ensures |s| > 1 ==> DigitsOf(s[..|s| - 1]).Some? && DigitsOf(s) == Some(10 * DigitsOf(s[..|s| - 1]).value + d)
  {
    var c := s[|s| - 1];
    DigitOfChar(c);
    d := (c - '0') as int;
  }

  lemma ZeroAndDigit(k: nat, d: nat)
    requires d < 10
    ensures (Zeros(k) + Numeral(0)) + [DIGITS[d]] == Zeros(k + 1) + Numeral(d)
  {
    DigitIs(0);
    assert Numeral(0) == "0";
  }

  /** A digit behind zeros and a numeral makes some zeros and a numeral. */
  lemma DigitBehind(k: nat, n: nat, d: nat) returns (k': nat)
    requires d < 10
    ensures (Zeros(k) + Numeral(n)) + [DIGITS[d]] == Zeros(k') + Numeral(10 * n + d)
  {
    if n == 0 {
      ZeroAndDigit(k, d);
      k' := k + 1;
    } else {
      NumeralNext(k, n, d);
      k' := k;
    }
  }

  lemma OneDigit(d: nat)
    requires d < 10
    ensures [DIGITS[d]] == Zeros(0) + Numeral(d)
  {
  }

  /** A text of digits is some zeros and the numeral of what it denotes. */
  lemma {:induction false} DigitsAreNumeral(s: string) returns (k: nat)
    requires DigitsOf(s).Some?
    ensures DigitsOf(s).value >= 0 && s == Zeros(k) + Numeral(DigitsOf(s).value)
    decreases |s|
  {
    var d := LastDigit(s);
    var rest := s[..|s| - 1];
    if |s| == 1 {
      k := 0;
      assert rest == [];
      OneDigit(d);
    } else {
      k := DigitsAreNumeral(rest);
      k := DigitBehind(k, DigitsOf(rest).value, d);
    }
  }

  ghost predicate IsNumeralOf(s: string, n: nat) {
    exists k: nat :: s == Zeros(k) + Numeral(n)
  }

  lemma DigitsOfMeaning(s: string, n: int)
    ensures DigitsOf(s) == Some(n) <==> n >= 0 && IsNumeralOf(s, n)
  {
    if DigitsOf(s) == Some(n) {
      var k := DigitsAreNumeral(s);
    }
    if n >= 0 && IsNumeralOf(s, n) {
      var k: nat :| s == Zeros(k) + Numeral(n);
      NumeralDenotes(k, n);
    }
  }

  lemma NumeralHasNoSign(s: string, n: nat)
    requires IsNumeralOf(s, n)
    ensures s != "" && s[0] != '-'
  {
    var k: nat :| s == Zeros(k) + Numeral(n);
    FirstIsDigit(k, n);
  }

  /**
   * A text denotes a number exactly when it is the decimal numeral of its absolute value,
   * with any leading zeros, and a minus sign for a negative one (which zero may have).
   */
  lemma NumberOfMeaning(s: string, n: int)
    ensures NumberOf(s) == Some(n)
       <==> || (n >= 0 && IsNumeralOf(s, n))
            || (n <= 0 && s != "" && s[0] == '-' && IsNumeralOf(s[1..], -n))
  {
    DigitsOfMeaning(s, n);
    if s != "" && s[0] == '-' {
      DigitsOfMeaning(s[1..], -n);
    }
    if n >= 0 && IsNumeralOf(s, n) {
      NumeralHasNoSign(s, n);
    }
  }

  /** A piece of a path is a numeral exactly when it denotes a number. */
  lemma PathNumerals(s: string)
    ensures IsNumeral(s) <==> exists n: nat :: IsNumeralOf(s, n)
  {
    NumeralHasValue(s);
    if DigitsOf(s).Some? {
      var k := DigitsAreNumeral(s);
      assert IsNumeralOf(s, DigitsOf(s).value);
    }
    if n: nat :| IsNumeralOf(s, n) {
      DigitsOfMeaning(s, n);
    }
  }

  lemma NumeralWithout(s: string)
    requires |s| > 1
    ensures IsNumeral(s) <==> IsNumeral(s[..|s| - 1]) && '0' <= s[|s| - 1] <= '9'
  {
    var t := s[..|s| - 1];
    assert s == t + [s[|s| - 1]] && t != "";
    assert s[|s| - 1] in s && forall c <- t :: c in s;
    if IsNumeral(t) && '0' <= s[|s| - 1] <= '9' {
      forall c | c in s
        ensures '0' <= c <= '9'
      {
        assert c in t || c == s[|s| - 1];
      }
    }
  }

  lemma {:induction false} NumeralHasValue(s: string)
    ensures IsNumeral(s) <==> DigitsOf(s).Some?
  {
    if |s| == 1 {
      assert s[0] in s && forall c <- s :: c == s[0];
    } else if s != "" {
      NumeralWithout(s);
      NumeralHasValue(s[..|s| - 1]);
    }
  }

  lemma {:induction false} FirstIsDigit(k: nat, n: nat)
    ensures Zeros(k) + Numeral(n) != "" && (Zeros(k) + Numeral(n))[0] != '-'
    decreases n
  {
    if k > 0 {
      assert (Zeros(k) + Numeral(n))[0] == Zeros(k)[0] && Zeros(k)[0] in Zeros(k);
    } else if n < 10 {
      DigitIs(n);
      assert (Zeros(0) + Numeral(n))[0] == DIGITS[n];
    } else {
      FirstIsDigit(0, n / 10);
      assert (Zeros(0) + Numeral(n))[0] == (Zeros(0) + Numeral(n / 10))[0];
    }
  }

  /** Without any article the maximum is null, and no id is legal. */
  predicate IsLegal(id: string, maxId: Option<int>) {
    NumberOf(id).Some? && maxId.Some? && NumberOf(id).value <= maxId.value
  }

  predicate Counts(row: Converted, maxId: Option<int>) {
    row.id.Some? && IsLegal(row.id.value, maxId)
  }

  function Total(rows: seq<Converted>, id: string): int {
    if rows == [] then 0
    else Total(rows[..|rows| - 1], id) + if rows[|rows| - 1].id == Some(id) then rows[|rows| - 1].totalUsers else 0
  }

  /** `res` has every legal id of the rows, and the sum of its rows. */
  ghost predicate IsMerge(rows: seq<Converted>, maxId: Option<int>, res: map<string, int>) {
    && (forall id :: id in res <==> IsLegal(id, maxId) && exists row <- rows :: row.id == Some(id))
    && (forall id <- res :: res[id] == Total(rows, id))
  }

  /** The rows with their paths resolved. */
  function Resolved(hashes: Hashes, report: seq<ReportRow>): (rows: seq<Converted>)
    ensures |rows| == |report|
  {
    seq(|report|, i requires 0 <= i < |report| => Converted(PathToId(hashes, report[i].path), report[i].totalUsers))
  }

  method ConvertAndMerge(hashes: Hashes, report: seq<ReportRow>, maxId: Option<int>) returns (res: map<string, int>)
    ensures IsMerge(Resolved(hashes, report), maxId, res)
    ensures SumOver(res) == LegalTotal(Resolved(hashes, report), maxId)
  {
    var rows := Resolved(hashes, report);
    res := map[];
    for k := 0 to |rows|
      invariant IsMerge(rows[..k], maxId, res)
    {
      var row := rows[k];
      assert rows[..k + 1] == rows[..k] + [row];
      MergeNext(rows[..k], row, maxId, res);
      if row.id.Some? && row.id.value in res {
        res := res[row.id.value := res[row.id.value] + row.totalUsers];
      } else if row.id.Some? && IsLegal(row.id.value, maxId) {
        res := res[row.id.value := row.totalUsers];
      }
    }
    assert rows[..|rows|] == rows;
    MergeConserves(rows, maxId, res);
  }

  /** One more row is added to its entry, or starts one if its id is legal. */
  lemma MergeNext(rows: seq<Converted>, row: Converted, maxId: Option<int>, res: map<string, int>)
    requires IsMerge(rows, maxId, res)
    ensures IsMerge(rows + [row], maxId,
                    if row.id.Some? && row.id.value in res then res[row.id.value := res[row.id.value] + row.totalUsers]
                    else if Counts(row, maxId) then res[row.id.value := row.totalUsers]
                    else res)
  {
    assert (rows + [row])[..|rows|] == rows;
    if row.id.Some? && row.id.value !in res && Counts(row, maxId) {
      NoneYet(rows, row.id.value);
    }
  }

  lemma {:induction false} NoneYet(rows: seq<Converted>, id: string)
    requires forall row <- rows :: row.id != Some(id)
    ensures Total(rows, id) == 0
  {
    if rows != [] {
      NoneYet(rows[..|rows| - 1], id);
    }
  }

  /**
   * The rows of an article's number, with any leading zeros, are merged exactly when the
   * number is at most the maximum id, and then under their own spelling.
   */
  lemma MergedUpToMaximum(rows: seq<Converted>, maxId: Option<int>, res: map<string, int>, k: nat, n: nat)
    requires IsMerge(rows, maxId, res)
    ensures Zeros(k) + Numeral(n) in res
       <==> (exists row <- rows :: row.id == Some(Zeros(k) + Numeral(n))) && maxId.Some? && n <= maxId.value
  {
    assert IsNumeralOf(Zeros(k) + Numeral(n), n);
    NumberOfMeaning(Zeros(k) + Numeral(n), n);
  }

  /* ----- the order of the rows does not matter, and nothing is lost ----- */

  lemma {:induction false} TotalOfBoth(a: seq<Converted>, b: seq<Converted>, id: string)
    ensures Total(a + b, id) == Total(a, id) + Total(b, id)
    decreases |b|
  {
    if b == [] {
      assert a + b == a;
    } else {
      var last := |b| - 1;
      assert (a + b)[..|a + b| - 1] == a + b[..last];
      TotalOfBoth(a, b[..last], id);
    }
  }

  lemma {:induction false} TotalOfPermutation(a: seq<Converted>, b: seq<Converted>, id: string)
    requires multiset(a) == multiset(b)
    ensures Total(a, id) == Total(b, id)
    decreases |a|
  {
    if a == [] {
      assert multiset(b) == multiset{};
      assert b == [];
    } else {
      var last := |a| - 1;
      assert a == a[..last] + [a[last]];
      assert a[last] in multiset(b);
      var i :| 0 <= i < |b| && b[i] == a[last];
      TakenOut(a, last, id);
      TakenOut(b, i, id);
      assert a[..last] + a[last + 1..] == a[..last];
      TotalOfPermutation(a[..last], b[..i] + b[i + 1..], id);
    }
  }

  lemma TakenOut(rows: seq<Converted>, i: nat, id: string)
    requires i < |rows|
    ensures multiset(rows[..i] + rows[i + 1..]) == multiset(rows) - multiset{rows[i]}
    ensures Total(rows, id) == Total(rows[..i] + rows[i + 1..], id) + Total([rows[i]], id)
  {
    assert rows == rows[..i] + [rows[i]] + rows[i + 1..];
    TotalOfBoth(rows[..i] + [rows[i]], rows[i + 1..], id);
    TotalOfBoth(rows[..i], [rows[i]], id);
    TotalOfBoth(rows[..i], rows[i + 1..], id);
  }

  /** The same rows in another order merge to the same data. */
  lemma MergeIgnoresOrder(a: seq<Converted>, b: seq<Converted>, maxId: Option<int>, ra: map<string, int>, rb: map<string, int>)
    requires multiset(a) == multiset(b)
    requires IsMerge(a, maxId, ra) && IsMerge(b, maxId, rb)
    ensures ra == rb
  {
    assert forall row :: row in a <==> row in multiset(a);
    assert forall row :: row in b <==> row in multiset(b);
    forall id
      ensures id in ra <==> id in rb
      ensures Total(a, id) == Total(b, id)
    {
      TotalOfPermutation(a, b, id);
    }
  }

  function LegalTotal(rows: seq<Converted>, maxId: Option<int>): int {
    if rows == [] then 0
    else
      var last := rows[|rows| - 1];
      LegalTotal(rows[..|rows| - 1], maxId) + if Counts(last, maxId) then last.totalUsers else 0
  }

  ghost function SumOver(m: map<string, int>): int {
    if m == map[] then 0
    else
      var id :| id in m;
      m[id] + SumOver(m - {id})
  }

  lemma {:induction false} SumOverWithout(m: map<string, int>, id: string)
    requires id in m
    ensures SumOver(m) == m[id] + SumOver(m - {id})
    decreases |m|
  {
    var first: string :| first in m && SumOver(m) == m[first] + SumOver(m - {first});
    if first != id {
      SumOverWithout(m - {first}, id);
      SumOverWithout(m - {id}, first);
      assert (m - {first}) - {id} == (m - {id}) - {first};
    }
  }

  /** What the merge is after the rows without the last. */
  function MergeBefore(rows: seq<Converted>, res: map<string, int>): map<string, int>
    requires rows != []
  {
    var last := |rows| - 1;
    map id <- res | exists row <- rows[..last] :: row.id == Some(id) :: Total(rows[..last], id)
  }

  /** The merged totals add up to all rows of legal ids. */
  lemma {:induction false} MergeConserves(rows: seq<Converted>, maxId: Option<int>, res: map<string, int>)
    requires IsMerge(rows, maxId, res)
    ensures SumOver(res) == LegalTotal(rows, maxId)
    decreases |rows|
  {
    if rows == [] {
      assert res == map[];
    } else {
      MergeBeforeIsMerge(rows, maxId, res);
      MergeConserves(rows[..|rows| - 1], maxId, MergeBefore(rows, res));
      LastAdds(rows, maxId, res);
    }
  }

  /** The last row adds its users to the merged data if its id is legal. */
  lemma LastAdds(rows: seq<Converted>, maxId: Option<int>, res: map<string, int>)
    requires rows != [] && IsMerge(rows, maxId, res)
    ensures var row := rows[|rows| - 1];
            SumOver(res) == SumOver(MergeBefore(rows, res)) + if Counts(row, maxId) then row.totalUsers else 0
  {
    var row, before := rows[|rows| - 1], MergeBefore(rows, res);
    if Counts(row, maxId) {
      var id := row.id.value;
      LastCounts(rows, maxId, res, id);
      SumOverWithout(res, id);
      if id in before {
        SumOverWithout(before, id);
      } else {
        assert before - {id} == before;
      }
    } else {
      LastDoesNotCount(rows, maxId, res);
    }
  }

  lemma LastDoesNotCount(rows: seq<Converted>, maxId: Option<int>, res: map<string, int>)
    requires rows != [] && IsMerge(rows, maxId, res) && !Counts(rows[|rows| - 1], maxId)
    ensures res == MergeBefore(rows, res)
  {
    assert rows == rows[..|rows| - 1] + [rows[|rows| - 1]];
  }

  lemma MergeBeforeIsMerge(rows: seq<Converted>, maxId: Option<int>, res: map<string, int>)
    requires rows != [] && IsMerge(rows, maxId, res)
    ensures IsMerge(rows[..|rows| - 1], maxId, MergeBefore(rows, res))
  {
    assert rows == rows[..|rows| - 1] + [rows[|rows| - 1]];
  }

  lemma LastCounts(rows: seq<Converted>, maxId: Option<int>, res: map<string, int>, id: string)
    requires rows != [] && IsMerge(rows, maxId, res)
    requires rows[|rows| - 1].id == Some(id) && IsLegal(id, maxId)
    ensures var last, before := |rows| - 1, MergeBefore(rows, res);
            && id in res && res - {id} == before - {id}
            && res[id] == rows[last].totalUsers + if id in before then before[id] else 0
  {
    var last := |rows| - 1;
    assert rows == rows[..last] + [rows[last]];
    if id !in MergeBefore(rows, res) {
      NoneYet(rows[..last], id);
    }
  }

  /* ----- saving ----- */

  /** An inclusive range of days. */
  datatype DayRange = DayRange(start: int, length: nat)

  predicate Overlap(a: DayRange, b: DayRange) {
    a.start <= b.start + b.length && b.start <= a.start + a.length
  }

  /** The row of an article and range: the exclusion constraint allows only one. */
  datatype Slot = Slot(article: int, range: DayRange)

  type Table = map<Slot, int>

  ghost predicate IsExclusive(table: Table) {
    forall s, t | s in table && t in table && s.article == t.article && Overlap(s.range, t.range) :: s == t
  }

  /** An entry of the merged data; different keys, such as "1" and "01", can name one article. */
  datatype Entry = Entry(article: int, totalUsers: int)

  function Missing(table: Table, entries: seq<Entry>, range: DayRange): seq<Entry> {
    if entries == [] then []
    else
      var last := |entries| - 1;
      Missing(table, entries[..last], range)
      + if Slot(entries[last].article, range) in table then [] else [entries[last]]
  }

  /** The updates of the rows that were read with another value. */
  function Updated(read: Table, entries: seq<Entry>, range: DayRange): Table {
    if entries == [] then read
    else
      var last := |entries| - 1;
      var before := Updated(read, entries[..last], range);
      var slot := Slot(entries[last].article, range);
      if slot in read && read[slot] != entries[last].totalUsers then before[slot := entries[last].totalUsers] else before
  }

  function CountUpdates(read: Table, entries: seq<Entry>, range: DayRange): nat {
    if entries == [] then 0
    else
      var last := |entries| - 1;
      var slot := Slot(entries[last].article, range);
      CountUpdates(read, entries[..last], range)
      + if slot in read && read[slot] != entries[last].totalUsers then 1 else 0
  }

  predicate AreDistinct(rows: seq<Entry>) {
    forall i, j | 0 <= i < j < |rows| :: rows[i].article != rows[j].article
  }

  /** The database takes the new rows, all or none: articles exist and no ranges of an article overlap. */
  predicate IsInsertable(table: Table, articles: set<int>, rows: seq<Entry>, range: DayRange) {
    && (forall e <- rows :: e.article in articles)
    && AreDistinct(rows)
    && (forall e <- rows, s <- table :: s.article == e.article ==> !Overlap(s.range, range))
  }

  function Inserted(table: Table, rows: seq<Entry>, range: DayRange): Table {
    if rows == [] then table
    else Inserted(table, rows[..|rows| - 1], range)[Slot(rows[|rows| - 1].article, range) := rows[|rows| - 1].totalUsers]
  }

  /** Entries for the same article agree. */
  predicate IsConsistent(entries: seq<Entry>) {
    forall e, f | e in entries && f in entries && e.article == f.article :: e.totalUsers == f.totalUsers
  }

  ghost predicate IsStored(table: Table, entries: seq<Entry>, range: DayRange) {
    forall e <- entries :: Slot(e.article, range) in table && table[Slot(e.article, range)] == e.totalUsers
  }

  lemma {:induction false} MissingMeaning(table: Table, entries: seq<Entry>, range: DayRange)
    ensures forall e :: e in Missing(table, entries, range) <==> e in entries && Slot(e.article, range) !in table
  {
    if entries != [] {
      MissingMeaning(table, entries[..|entries| - 1], range);
      assert entries == entries[..|entries| - 1] + [entries[|entries| - 1]];
    }
  }

  lemma {:induction false} UpdatedMeaning(read: Table, entries: seq<Entry>, range: DayRange)
    ensures Updated(read, entries, range).Keys == read.Keys
    ensures forall s <- read | s.range != range || forall e <- entries :: e.article != s.article ::
              Updated(read, entries, range)[s] == read[s]
    ensures IsConsistent(entries) ==>
              forall e <- entries | Slot(e.article, range) in read ::
                Updated(read, entries, range)[Slot(e.article, range)] == e.totalUsers
  {
    if entries != [] {
      var last := |entries| - 1;
      UpdatedMeaning(read, entries[..last], range);
      assert entries == entries[..last] + [entries[last]];
      var slot := Slot(entries[last].article, range);
      if slot in read {
        UpdatedOrRead(read, entries[..last], range, slot);
      }
    }
  }

  /** A row holds what was read or what one of its entries says. */
  lemma {:induction false} UpdatedOrRead(read: Table, entries: seq<Entry>, range: DayRange, s: Slot)
    requires s in read
    ensures s in Updated(read, entries, range)
    ensures || Updated(read, entries, range)[s] == read[s]
            || exists e <- entries :: Slot(e.article, range) == s && Updated(read, entries, range)[s] == e.totalUsers
  {
    if entries != [] {
      var last := |entries| - 1;
      UpdatedOrRead(read, entries[..last], range, s);
      assert entries == entries[..last] + [entries[last]];
    }
  }

  lemma {:induction false} InsertedMeaning(table: Table, rows: seq<Entry>, range: DayRange)
    requires AreDistinct(rows)
    requires forall e <- rows :: Slot(e.article, range) !in table
    ensures var after := Inserted(table, rows, range);
            && (forall s :: s in after <==> s in table || exists e <- rows :: s == Slot(e.article, range))
            && (forall s <- table :: after[s] == table[s])
            && (forall e <- rows :: after[Slot(e.article, range)] == e.totalUsers)
  {
    if rows != [] {
      var last := |rows| - 1;
      InsertedMeaning(table, rows[..last], range);
      assert rows == rows[..last] + [rows[last]];
      assert forall i | 0 <= i < last :: rows[..last][i].article != rows[last].article;
    }
  }

  datatype SaveResult = Saved(updates: nat, inserts: nat) | InsertFailed(updates: nat)

  class StatisticsTable {
    var rows: Table
    /** The ids of all articles, for the foreign key. */
    var articles: set<int>

    /**
     * Reads the row of every entry, then updates the ones that differ and inserts
     * the missing ones in one statement.
     */
    method SaveGA4Data(entries: seq<Entry>, range: DayRange) returns (r: SaveResult)
      modifies this`rows
      ensures var missing, updated := Missing(old(rows), entries, range), Updated(old(rows), entries, range);
              if IsInsertable(old(rows), articles, missing, range)
              then r == Saved(CountUpdates(old(rows), entries, range), |missing|) && rows == Inserted(updated, missing, range)
              else r == InsertFailed(CountUpdates(old(rows), entries, range)) && rows == updated
      ensures r.Saved? ==> (IsStored(rows, entries, range) <==> IsConsistent(entries))
      ensures forall s <- old(rows) | s.range != range || forall e <- entries :: e.article != s.article ::
                s in rows && rows[s] == old(rows)[s]
    {
      var updateRows, insertRows := ReadRows(entries, range);
      UpdateEach(rows, entries, range);
      UpdateRows(updateRows, range);
      if !IsInsertable(rows, articles, insertRows, range) {
        AfterUpdates(old(rows), articles, entries, range);
        return InsertFailed(|updateRows|);
      }
      rows := Inserted(rows, insertRows, range);
      AfterUpdates(old(rows), articles, entries, range);
      AfterInsert(old(rows), articles, entries, range);
      return Saved(|updateRows|, |insertRows|);
    }

    method ReadRows(entries: seq<Entry>, range: DayRange) returns (updateRows: seq<Entry>, insertRows: seq<Entry>)
      ensures updateRows == Differing(rows, entries, range)
      ensures insertRows == Missing(rows, entries, range)
    {
      updateRows, insertRows := [], [];
      for k := 0 to |entries|
        invariant updateRows == Differing(rows, entries[..k], range)
        invariant insertRows == Missing(rows, entries[..k], range)
      {
        assert entries[..k + 1][..k] == entries[..k];
        var slot := Slot(entries[k].article, range);
        if slot in rows {
          if rows[slot] != entries[k].totalUsers {
            updateRows := updateRows + [entries[k]];
          }
        } else {
          insertRows := insertRows + [entries[k]];
        }
      }
      assert entries[..|entries|] == entries;
    }

    method UpdateRows(updateRows: seq<Entry>, range: DayRange)
      modifies this`rows
      ensures rows == Written(old(rows), updateRows, range)
    {
      for k := 0 to |updateRows|
        invariant rows == Written(old(rows), updateRows[..k], range)
      {
        assert updateRows[..k + 1][..k] == updateRows[..k];
        rows := rows[Slot(updateRows[k].article, range) := updateRows[k].totalUsers];
      }
      assert updateRows[..|updateRows|] == updateRows;
    }
  }

  lemma AfterUpdates(read: Table, articles: set<int>, entries: seq<Entry>, range: DayRange)
    ensures var missing, updated := Missing(read, entries, range), Updated(read, entries, range);
            && (IsInsertable(read, articles, missing, range) <==> IsInsertable(updated, articles, missing, range))
            && (forall s <- read | s.range != range || forall e <- entries :: e.article != s.article ::
                  s in updated && updated[s] == read[s])
  {
    UpdatedMeaning(read, entries, range);
    SameKeysInsertable(read, Updated(read, entries, range), articles, Missing(read, entries, range), range);
  }

  lemma AfterInsert(read: Table, articles: set<int>, entries: seq<Entry>, range: DayRange)
    requires var missing, updated := Missing(read, entries, range), Updated(read, entries, range);
             IsInsertable(updated, articles, missing, range)
    ensures var missing, updated := Missing(read, entries, range), Updated(read, entries, range);
            var after := Inserted(updated, missing, range);
            && (IsStored(after, entries, range) <==> IsConsistent(entries))
            && (forall s <- updated :: s in after && after[s] == updated[s])
  {
    var missing, updated := Missing(read, entries, range), Updated(read, entries, range);
    NoSlotTaken(updated, articles, missing, range);
    InsertedMeaning(updated, missing, range);
    StoredWhenConsistent(read, Inserted(updated, missing, range), entries, range);
  }

  /** The entries whose rows were read with another value. */
  function Differing(read: Table, entries: seq<Entry>, range: DayRange): seq<Entry> {
    if entries == [] then []
    else
      var e := entries[|entries| - 1];
      var slot := Slot(e.article, range);
      Differing(read, entries[..|entries| - 1], range) + if slot in read && read[slot] != e.totalUsers then [e] else []
  }

  /** The table after updating the rows of the entries one by one. */
  function Written(table: Table, rows: seq<Entry>, range: DayRange): Table {
    if rows == [] then table
    else Written(table, rows[..|rows| - 1], range)[Slot(rows[|rows| - 1].article, range) := rows[|rows| - 1].totalUsers]
  }

  lemma {:induction false} UpdateEach(read: Table, entries: seq<Entry>, range: DayRange)
    ensures Written(read, Differing(read, entries, range), range) == Updated(read, entries, range)
    ensures |Differing(read, entries, range)| == CountUpdates(read, entries, range)
  {
    if entries != [] {
      var last := |entries| - 1;
      UpdateEach(read, entries[..last], range);
      var before := Differing(read, entries[..last], range);
      assert (before + [entries[last]])[..|before|] == before;
      assert before + [] == before;
    }
  }

  lemma SameKeysInsertable(a: Table, b: Table, articles: set<int>, rows: seq<Entry>, range: DayRange)
    requires a.Keys == b.Keys
    ensures IsInsertable(a, articles, rows, range) <==> IsInsertable(b, articles, rows, range)
  {
    assert forall s :: s in a <==> s in b;
  }

  lemma NoSlotTaken(table: Table, articles: set<int>, rows: seq<Entry>, range: DayRange)
    requires IsInsertable(table, articles, rows, range)
    ensures forall e <- rows :: Slot(e.article, range) !in table
  {
    forall e | e in rows
      ensures Slot(e.article, range) !in table
    {
      assert Overlap(range, range);
      assert Slot(e.article, range).article == e.article;
    }
  }

  /** Once every entry has its row, the table stores the data exactly if entries for one article agree. */
  lemma StoredWhenConsistent(read: Table, after: Table, entries: seq<Entry>, range: DayRange)
    requires var missing, updated := Missing(read, entries, range), Updated(read, entries, range);
             && AreDistinct(missing)
             && after == Inserted(updated, missing, range)
    ensures IsStored(after, entries, range) <==> IsConsistent(entries)
  {
    var missing, updated := Missing(read, entries, range), Updated(read, entries, range);
    MissingMeaning(read, entries, range);
    UpdatedMeaning(read, entries, range);
    InsertedMeaning(updated, missing, range);
    if IsConsistent(entries) {
      forall e | e in entries
        ensures Slot(e.article, range) in after && after[Slot(e.article, range)] == e.totalUsers
      {
        if Slot(e.article, range) !in read {
          assert e in missing;
        } else {
          assert Slot(e.article, range) in updated;
        }
      }
    }
    if IsStored(after, entries, range) {
      forall e, f | e in entries && f in entries && e.article == f.article
        ensures e.totalUsers == f.totalUsers
      {
        assert after[Slot(e.article, range)] == e.totalUsers;
        assert after[Slot(f.article, range)] == f.totalUsers;
      }
    }
  }

  /** Saving data that is stored already writes nothing. */
  lemma {:induction false} SecondSaveWritesNothing(table: Table, entries: seq<Entry>, range: DayRange)
    requires IsStored(table, entries, range)
    ensures Missing(table, entries, range) == [] && CountUpdates(table, entries, range) == 0
    ensures Updated(table, entries, range) == table
    ensures forall articles :: IsInsertable(table, articles, Missing(table, entries, range), range)
  {
    if entries != [] {
      var last := |entries| - 1;
      assert entries[last] in entries;
      SecondSaveWritesNothing(table, entries[..last], range);
    }
  }

  /** An insertion that the database takes keeps the ranges of every article apart. */
  lemma InsertKeepsExclusive(table: Table, articles: set<int>, rows: seq<Entry>, range: DayRange)
    requires IsExclusive(table) && IsInsertable(table, articles, rows, range)
    ensures IsExclusive(Inserted(table, rows, range))
  {
    NoSlotTaken(table, articles, rows, range);
    InsertedMeaning(table, rows, range);
    assert forall e <- rows, s <- table :: s.article == e.article ==> !Overlap(s.range, range);
  }

  /* ----- merging and saving together ----- */

  /** The merged data as entries to save, in some order of its keys. */
  ghost predicate AreEntries(data: map<string, int>, keys: seq<string>, entries: seq<Entry>) {
    && |keys| == |entries|
    && (forall id :: id in keys <==> id in data)
    && (forall j, k | 0 <= j < k < |keys| :: keys[j] != keys[k])
    && forall k | 0 <= k < |keys| && keys[k] in data ::
         NumberOf(keys[k]) == Some(entries[k].article) && entries[k].totalUsers == data[keys[k]]
  }

  /** The id has no row for the range yet. */
  predicate IsUnstored(table: Table, range: DayRange, id: string) {
    NumberOf(id).Some? && Slot(NumberOf(id).value, range) !in table
  }

  /** Two ids without a row that are written differently name one article. */
  ghost predicate HasAliases(table: Table, range: DayRange, data: map<string, int>) {
    exists a, b :: a in data && b in data && a != b && NumberOf(a) == NumberOf(b)
                   && IsUnstored(table, range, a) && IsUnstored(table, range, b)
  }

  /** No two entries without a row are for the same article. */
  ghost predicate NoTwins(table: Table, entries: seq<Entry>, range: DayRange) {
    forall i, j | 0 <= i < j < |entries| && Slot(entries[i].article, range) !in table :: entries[i].article != entries[j].article
  }

  predicate HasEntry(rows: seq<Entry>, article: int) {
    exists e <- rows :: e.article == article
  }

  lemma DistinctNext(rows: seq<Entry>, e: Entry)
    ensures AreDistinct(rows + [e]) <==> AreDistinct(rows) && !HasEntry(rows, e.article)
  {
    var all := rows + [e];
    if AreDistinct(all) {
      forall f | f in rows
        ensures f.article != e.article
      {
        var i :| 0 <= i < |rows| && rows[i] == f;
        assert all[i].article != all[|rows|].article;
      }
      assert forall i | 0 <= i < |rows| :: rows[i] == all[i];
    }
  }

  lemma NoTwinsNext(table: Table, rows: seq<Entry>, e: Entry, range: DayRange)
    ensures NoTwins(table, rows + [e], range)
       <==> NoTwins(table, rows, range) && (Slot(e.article, range) !in table ==> !HasEntry(rows, e.article))
  {
    var all := rows + [e];
    if NoTwins(table, all, range) {
      forall f | f in rows && Slot(e.article, range) !in table
        ensures f.article != e.article
      {
        var i :| 0 <= i < |rows| && rows[i] == f;
        assert all[i] == f && all[|rows|] == e;
      }
      forall i, j | 0 <= i < j < |rows| && Slot(rows[i].article, range) !in table
        ensures rows[i].article != rows[j].article
      {
        assert all[i] == rows[i] && all[j] == rows[j];
      }
    }
  }

  lemma {:induction false} MissingTwins(table: Table, entries: seq<Entry>, range: DayRange)
    ensures AreDistinct(Missing(table, entries, range)) <==> NoTwins(table, entries, range)
  {
    if entries != [] {
      var last := |entries| - 1;
      var before, e := Missing(table, entries[..last], range), entries[last];
      MissingTwins(table, entries[..last], range);
      MissingMeaning(table, entries[..last], range);
      DistinctNext(before, e);
      NoTwinsNext(table, entries[..last], e, range);
      assert entries == entries[..last] + [e];
      assert before + [] == before;
    }
  }

  lemma TwinsAreAliases(table: Table, range: DayRange, data: map<string, int>, keys: seq<string>, entries: seq<Entry>)
    requires AreEntries(data, keys, entries)
    ensures NoTwins(table, entries, range) <==> !HasAliases(table, range, data)
  {
    if a, b :| a in data && b in data && a != b && NumberOf(a) == NumberOf(b)
               && IsUnstored(table, range, a) && IsUnstored(table, range, b) {
      var i :| 0 <= i < |keys| && keys[i] == a;
      var j :| 0 <= j < |keys| && keys[j] == b;
      assert i < j || j < i;
    }
    if i, j :| 0 <= i < j < |entries| && Slot(entries[i].article, range) !in table && entries[i].article == entries[j].article {
      assert keys[i] in data && keys[j] in data && keys[i] != keys[j];
      assert IsUnstored(table, range, keys[i]) && IsUnstored(table, range, keys[j]);
    }
  }

  /**
   * Merged data can be inserted exactly when every id without a row names an article,
   * none of them has a stored range that overlaps, and no two of them are aliases:
   * merging keeps apart what is written differently.
   */
  lemma InsertableUnlessAliased(data: map<string, int>, keys: seq<string>, entries: seq<Entry>,
                                table: Table, articles: set<int>, range: DayRange)
    requires AreEntries(data, keys, entries)
    ensures IsInsertable(table, articles, Missing(table, entries, range), range)
       <==> && (forall id <- data | IsUnstored(table, range, id) :: NumberOf(id).value in articles)
            && (forall id, s | id in data && IsUnstored(table, range, id) && s in table && s.article == NumberOf(id).value ::
                  !Overlap(s.range, range))
            && !HasAliases(table, range, data)
  {
    MissingTwins(table, entries, range);
    TwinsAreAliases(table, range, data, keys, entries);
    MissingArticles(data, keys, entries, table, range);
    ArticlesAreFree(table, articles, Missing(table, entries, range), range);
    IdsAreFree(data, table, articles, range, UnstoredArticles(table, range, data));
  }

  /** The articles that the ids without a row name. */
  ghost function UnstoredArticles(table: Table, range: DayRange, data: map<string, int>): set<int> {
    set id <- data | IsUnstored(table, range, id) :: NumberOf(id).value
  }

  ghost predicate AreFree(table: Table, articles: set<int>, range: DayRange, named: set<int>) {
    named <= articles && forall s <- table | s.article in named :: !Overlap(s.range, range)
  }

  lemma MissingArticles(data: map<string, int>, keys: seq<string>, entries: seq<Entry>, table: Table, range: DayRange)
    requires AreEntries(data, keys, entries)
    ensures (set e <- Missing(table, entries, range) :: e.article) == UnstoredArticles(table, range, data)
  {
    MissingMeaning(table, entries, range);
    forall id | id in data && IsUnstored(table, range, id)
      ensures HasEntry(Missing(table, entries, range), NumberOf(id).value)
    {
      var k :| 0 <= k < |keys| && keys[k] == id;
      assert entries[k] in Missing(table, entries, range);
    }
    forall e | e in Missing(table, entries, range)
      ensures e.article in UnstoredArticles(table, range, data)
    {
      var k :| 0 <= k < |entries| && entries[k] == e;
      assert keys[k] in data;
      assert IsUnstored(table, range, keys[k]);
    }
  }

  lemma ArticlesAreFree(table: Table, articles: set<int>, rows: seq<Entry>, range: DayRange)
    ensures IsInsertable(table, articles, rows, range)
       <==> AreDistinct(rows) && AreFree(table, articles, range, set e <- rows :: e.article)
  {
    var named := set e <- rows :: e.article;
    assert forall e <- rows :: e.article in named;
  }

  lemma IdsAreFree(data: map<string, int>, table: Table, articles: set<int>, range: DayRange, named: set<int>)
    requires named == UnstoredArticles(table, range, data)
    ensures AreFree(table, articles, range, named)
       <==> && (forall id <- data | IsUnstored(table, range, id) :: NumberOf(id).value in articles)
            && (forall id, s | id in data && IsUnstored(table, range, id) && s in table && s.article == NumberOf(id).value ::
                  !Overlap(s.range, range))
  {
    assert forall id <- data | IsUnstored(table, range, id) :: NumberOf(id).value in named;
  }

  /**
   * Two rows for one article, written "1" and "01", merge to data that the database
   * cannot take unless the article has a row for the range already.
   */
  lemma AliasedIdsCannotBeInserted(a: int, b: int, maxId: int, table: Table, articles: set<int>, range: DayRange)
    requires maxId >= 1
    ensures var rows := [Converted(Some("1"), a), Converted(Some("01"), b)];
            var data, entries := map["1" := a, "01" := b], [Entry(1, a), Entry(1, b)];
            && IsMerge(rows, Some(maxId), data) && AreEntries(data, ["1", "01"], entries)
            && (IsInsertable(table, articles, Missing(table, entries, range), range) <==> Slot(1, range) in table)
  {
    var data, entries := map["1" := a, "01" := b], [Entry(1, a), Entry(1, b)];
    OneAndZeroOne();
    AliasedIdsMerge(a, b, maxId);
    InsertableUnlessAliased(data, ["1", "01"], entries, table, articles, range);
    if Slot(1, range) !in table {
      assert IsUnstored(table, range, "1") && IsUnstored(table, range, "01");
    }
  }

  lemma AliasedIdsMerge(a: int, b: int, maxId: int)
    requires maxId >= 1
    ensures IsMerge([Converted(Some("1"), a), Converted(Some("01"), b)], Some(maxId), map["1" := a, "01" := b])
  {
    var rows := [Converted(Some("1"), a), Converted(Some("01"), b)];
    OneAndZeroOne();
    assert rows[..1] == [rows[0]] && rows[..1][..0] == [];
    assert Total([], "1") == 0 && Total([], "01") == 0;
    assert Total(rows[..1], "1") == a && Total(rows[..1], "01") == 0;
    assert Total(rows, "1") == a && Total(rows, "01") == b;
    assert rows[0] in rows && rows[1] in rows;
  }

  lemma OneAndZeroOne()
    ensures NumberOf("1") == Some(1) && NumberOf("01") == Some(1) && "1" != "01"
  {
    assert "01"[..1] == "0";
  }

  /* ----- from the rows of the report to the stored sums ----- */

  /** The row counts, and its id names the article. */
  predicate Names(row: Converted, maxId: Option<int>, article: int) {
    Counts(row, maxId) && NumberOf(row.id.value) == Some(article)
  }

  /** The users of all rows that name the article. */
  function ArticleTotal(rows: seq<Converted>, maxId: Option<int>, article: int): int {
    if rows == [] then 0
    else
      var row := rows[|rows| - 1];
      ArticleTotal(rows[..|rows| - 1], maxId, article) + if Names(row, maxId, article) then row.totalUsers else 0
  }

  function Naming(rows: seq<Converted>, maxId: Option<int>, article: int): seq<Converted> {
    if rows == [] then []
    else
      var row := rows[|rows| - 1];
      Naming(rows[..|rows| - 1], maxId, article) + if Names(row, maxId, article) then [row] else []
  }

  /** The merged entries of the ids that name the article. */
  function OfArticle(data: map<string, int>, article: int): map<string, int> {
    map id <- data | NumberOf(id) == Some(article) :: data[id]
  }

  lemma {:induction false} NamingMeaning(rows: seq<Converted>, maxId: Option<int>, article: int)
    ensures forall row :: row in Naming(rows, maxId, article) <==> row in rows && Names(row, maxId, article)
    ensures LegalTotal(Naming(rows, maxId, article), maxId) == ArticleTotal(rows, maxId, article)
  {
    if rows != [] {
      var last, row := |rows| - 1, rows[|rows| - 1];
      NamingMeaning(rows[..last], maxId, article);
      assert rows == rows[..last] + [row];
      if Names(row, maxId, article) {
        assert (Naming(rows[..last], maxId, article) + [row])[..|Naming(rows, maxId, article)| - 1] == Naming(rows[..last], maxId, article);
      } else {
        assert Naming(rows, maxId, article) == Naming(rows[..last], maxId, article);
      }
    }
  }

  lemma {:induction false} NamingTotal(rows: seq<Converted>, maxId: Option<int>, article: int, id: string)
    requires IsLegal(id, maxId) && NumberOf(id) == Some(article)
    ensures Total(Naming(rows, maxId, article), id) == Total(rows, id)
  {
    if rows != [] {
      var last, row := |rows| - 1, rows[|rows| - 1];
      NamingTotal(rows[..last], maxId, article, id);
      var before := Naming(rows[..last], maxId, article);
      if Names(row, maxId, article) {
        assert (before + [row])[..|before|] == before;
      } else {
        assert before + [] == before;
      }
    }
  }

  /** The entries of the ids that name an article add up to all rows that name it. */
  lemma MergedTotal(rows: seq<Converted>, maxId: Option<int>, data: map<string, int>, article: int)
    requires IsMerge(rows, maxId, data)
    ensures SumOver(OfArticle(data, article)) == ArticleTotal(rows, maxId, article)
  {
    var naming := Naming(rows, maxId, article);
    NamingMeaning(rows, maxId, article);
    forall id
      ensures id in OfArticle(data, article) <==> IsLegal(id, maxId) && exists row <- naming :: row.id == Some(id)
    {
      NamingIds(rows, maxId, data, article, id);
    }
    forall id | id in OfArticle(data, article)
      ensures OfArticle(data, article)[id] == Total(naming, id)
    {
      NamingTotal(rows, maxId, article, id);
    }
    MergeConserves(naming, maxId, OfArticle(data, article));
  }

  lemma NamingIds(rows: seq<Converted>, maxId: Option<int>, data: map<string, int>, article: int, id: string)
    requires IsMerge(rows, maxId, data)
    ensures id in OfArticle(data, article)
       <==> IsLegal(id, maxId) && exists row <- Naming(rows, maxId, article) :: row.id == Some(id)
  {
    NamingMeaning(rows, maxId, article);
    if id in OfArticle(data, article) {
      var row :| row in rows && row.id == Some(id);
      assert row in Naming(rows, maxId, article);
    }
  }

  function EntriesTotal(entries: seq<Entry>, article: int): int {
    if entries == [] then 0
    else
      var e := entries[|entries| - 1];
      EntriesTotal(entries[..|entries| - 1], article) + if e.article == article then e.totalUsers else 0
  }

  /** The entries to save for an article add up to the merged ones. */
  lemma {:induction false} EntriesSum(data: map<string, int>, keys: seq<string>, entries: seq<Entry>, article: int)
    requires AreEntries(data, keys, entries)
    ensures EntriesTotal(entries, article) == SumOver(OfArticle(data, article))
    decreases |keys|
  {
    if keys == [] {
      assert forall id <- data :: id in keys;
      assert OfArticle(data, article) == map[];
    } else {
      var last := |keys| - 1;
      EntriesBefore(data, keys, entries);
      EntriesSum(data - {keys[last]}, keys[..last], entries[..last], article);
      LastEntry(data, keys, entries);
      SumWithoutId(data, keys[last], article);
    }
  }

  lemma LastEntry(data: map<string, int>, keys: seq<string>, entries: seq<Entry>)
    requires AreEntries(data, keys, entries) && keys != []
    ensures var last := |keys| - 1;
            && keys[last] in data && data[keys[last]] == entries[last].totalUsers
            && NumberOf(keys[last]) == Some(entries[last].article)
  {
    assert keys[|keys| - 1] in keys;
  }

  lemma SumWithoutId(data: map<string, int>, id: string, article: int)
    requires id in data
    ensures SumOver(OfArticle(data, article))
         == SumOver(OfArticle(data - {id}, article)) + if NumberOf(id) == Some(article) then data[id] else 0
  {
    if NumberOf(id) == Some(article) {
      SumOverWithout(OfArticle(data, article), id);
      assert OfArticle(data, article) - {id} == OfArticle(data - {id}, article);
    } else {
      assert OfArticle(data, article) == OfArticle(data - {id}, article);
    }
  }

  lemma EntriesBefore(data: map<string, int>, keys: seq<string>, entries: seq<Entry>)
    requires AreEntries(data, keys, entries) && keys != []
    ensures AreEntries(data - {keys[|keys| - 1]}, keys[..|keys| - 1], entries[..|keys| - 1])
  {
    var last := |keys| - 1;
    forall id
      ensures id in keys[..last] <==> id in data - {keys[last]}
    {
      if id in keys[..last] {
        var k :| 0 <= k < last && keys[..last][k] == id;
        assert keys[k] == id && keys[k] in keys;
      }
      if id in data - {keys[last]} {
        var k :| 0 <= k < |keys| && keys[k] == id;
        assert keys[..last][k] == id;
      }
    }
    assert forall k | 0 <= k < last :: keys[..last][k] == keys[k] && entries[..last][k] == entries[k];
  }

  /* ----- which entry of an article ends up stored ----- */

  /** The stored value of an article is that of one of its entries: the last that differs from what was read, if any does. */
  lemma {:induction false} UpdatedTo(read: Table, entries: seq<Entry>, range: DayRange, k: nat) returns (j: nat)
    requires k < |entries| && Slot(entries[k].article, range) in read
    ensures j < |entries| && entries[j].article == entries[k].article
    ensures Slot(entries[k].article, range) in Updated(read, entries, range)
    ensures Updated(read, entries, range)[Slot(entries[k].article, range)] == entries[j].totalUsers
    decreases |entries|
  {
    var last, slot := |entries| - 1, Slot(entries[k].article, range);
    UpdatedOrRead(read, entries, range, slot);
    if entries[last].article == entries[k].article && read[slot] != entries[last].totalUsers {
      j := last;
    } else if k < last {
      j := UpdatedTo(read, entries[..last], range, k);
    } else {
      j := LastOrUnread(read, entries, range);
    }
  }

  lemma LastOrUnread(read: Table, entries: seq<Entry>, range: DayRange) returns (j: nat)
    requires entries != []
    requires var e := entries[|entries| - 1];
             Slot(e.article, range) in read && read[Slot(e.article, range)] == e.totalUsers
    ensures var slot := Slot(entries[|entries| - 1].article, range);
            && j < |entries| && Slot(entries[j].article, range) == slot
            && slot in Updated(read, entries, range)
            && Updated(read, entries, range)[slot] == entries[j].totalUsers
  {
    var last := |entries| - 1;
    var slot := Slot(entries[last].article, range);
    UpdatedOrRead(read, entries[..last], range, slot);
    if Updated(read, entries[..last], range)[slot] == read[slot] {
      j := last;
    } else {
      var e :| e in entries[..last] && Slot(e.article, range) == slot
               && Updated(read, entries[..last], range)[slot] == e.totalUsers;
      j :| 0 <= j < last && entries[..last][j] == e;
    }
  }

  /** After a save that went through, the row of an article holds the value of one of its entries. */
  lemma SavedTo(read: Table, articles: set<int>, entries: seq<Entry>, range: DayRange, k: nat) returns (j: nat)
    requires k < |entries| && IsInsertable(read, articles, Missing(read, entries, range), range)
    ensures var after := Inserted(Updated(read, entries, range), Missing(read, entries, range), range);
            var slot := Slot(entries[k].article, range);
            && j < |entries| && entries[j].article == entries[k].article
            && slot in after && after[slot] == entries[j].totalUsers
  {
    var missing, updated := Missing(read, entries, range), Updated(read, entries, range);
    UpdatedMeaning(read, entries, range);
    MissingMeaning(read, entries, range);
    SameKeysInsertable(read, updated, articles, missing, range);
    NoSlotTaken(updated, articles, missing, range);
    InsertedMeaning(updated, missing, range);
    if Slot(entries[k].article, range) in read {
      j := UpdatedTo(read, entries, range, k);
    } else {
      assert entries[k] in missing;
      j := k;
    }
  }

  /** The entries of the article other than entry `j`. */
  function OthersTotal(entries: seq<Entry>, article: int, j: nat): int {
    if entries == [] then 0
    else
      var last := |entries| - 1;
      OthersTotal(entries[..last], article, j)
      + if entries[last].article == article && last != j then entries[last].totalUsers else 0
  }

  lemma {:induction false} OneAndOthers(entries: seq<Entry>, article: int, j: nat)
    requires j < |entries| ==> entries[j].article == article
    ensures EntriesTotal(entries, article)
         == OthersTotal(entries, article, j) + if j < |entries| then entries[j].totalUsers else 0
  {
    if entries != [] {
      OneAndOthers(entries[..|entries| - 1], article, j);
    }
  }

  lemma {:induction false} NoOthers(entries: seq<Entry>, article: int, j: nat)
    requires forall i | 0 <= i < |entries| && i != j :: entries[i].article != article
    ensures OthersTotal(entries, article, j) == 0
  {
    if entries != [] {
      NoOthers(entries[..|entries| - 1], article, j);
    }
  }

  lemma {:induction false} OthersArePositive(entries: seq<Entry>, article: int, j: nat)
    requires forall e <- entries :: e.totalUsers > 0
    ensures OthersTotal(entries, article, j) >= 0
    ensures OthersTotal(entries, article, j) == 0 <==> forall i | 0 <= i < |entries| && i != j :: entries[i].article != article
  {
    if entries != [] {
      OthersArePositive(entries[..|entries| - 1], article, j);
      assert entries[|entries| - 1] in entries;
    }
  }

  /** Two ids of the data name the article. */
  ghost predicate IsAliased(data: map<string, int>, article: int) {
    exists a, b :: a in data && b in data && a != b && NumberOf(a) == NumberOf(b) == Some(article)
  }

  lemma AliasedWhen(data: map<string, int>, keys: seq<string>, entries: seq<Entry>, j: nat)
    requires AreEntries(data, keys, entries) && j < |entries|
    ensures IsAliased(data, entries[j].article)
       <==> exists i :: 0 <= i < |entries| && i != j && entries[i].article == entries[j].article
  {
    var n := entries[j].article;
    assert keys[j] in keys;
    if i :| 0 <= i < |entries| && i != j && entries[i].article == n {
      assert keys[i] in keys;
      assert keys[i] != keys[j];
    }
    if a, b :| a in data && b in data && a != b && NumberOf(a) == NumberOf(b) == Some(n) {
      var i :| 0 <= i < |keys| && keys[i] == a;
      var k :| 0 <= k < |keys| && keys[k] == b;
      assert i != j || k != j;
    }
  }

  /**
   * After merging and saving, an article's row holds the value of one of its entries. It
   * is the sum of all rows of the report that name the article exactly when the other
   * entries add up to nothing: so always if one id names the article and, since a report
   * lists no path without users, only then.
   */
  lemma SavedSums(rows: seq<Converted>, maxId: Option<int>, data: map<string, int>, keys: seq<string>, entries: seq<Entry>,
                  read: Table, articles: set<int>, range: DayRange, id: string) returns (j: nat)
    requires IsMerge(rows, maxId, data) && AreEntries(data, keys, entries)
    requires IsInsertable(read, articles, Missing(read, entries, range), range)
    requires id in data
    ensures var article, after := NumberOf(id), Inserted(Updated(read, entries, range), Missing(read, entries, range), range);
            && article.Some? && j < |entries| && entries[j].article == article.value
            && Slot(article.value, range) in after
            && var stored, sum := after[Slot(article.value, range)], ArticleTotal(rows, maxId, article.value);
               && stored == entries[j].totalUsers
               && (stored == sum <==> OthersTotal(entries, article.value, j) == 0)
               && (!IsAliased(data, article.value) ==> stored == sum)
               && ((forall a <- data :: data[a] > 0) ==> (stored == sum <==> !IsAliased(data, article.value)))
  {
    var k :| 0 <= k < |keys| && keys[k] == id;
    var n := entries[k].article;
    j := SavedTo(read, articles, entries, range, k);
    MergedTotal(rows, maxId, data, n);
    EntriesSum(data, keys, entries, n);
    OneAndOthers(entries, n, j);
    AliasedWhen(data, keys, entries, j);
    if !IsAliased(data, n) {
      NoOthers(entries, n, j);
    }
    if forall a <- data :: data[a] > 0 {
      EntriesArePositive(data, keys, entries);
      OthersArePositive(entries, n, j);
    }
  }

  lemma EntriesArePositive(data: map<string, int>, keys: seq<string>, entries: seq<Entry>)
    requires AreEntries(data, keys, entries) && forall a <- data :: data[a] > 0
    ensures forall e <- entries :: e.totalUsers > 0
  {
    forall e | e in entries
      ensures e.totalUsers > 0
    {
      var i :| 0 <= i < |entries| && entries[i] == e;
      assert keys[i] in keys;
    }
  }
}
