/** The batch-range partition check and the triage-table checker, joined. */
module Batches {
  import opened Wrappers
  import opened Sorting

  /** The parameters of one batch node: the number range from..to and the record count. */
  datatype Batch = Batch(first: int, last: int, expected: int)

  function ByFirst(a: Batch, b: Batch): bool {
    a.first <= b.first
  }

  function Ordered(batches: seq<Batch>): seq<Batch> {
    Sort(batches, ByFirst)
  }

  ghost predicate Ascending(ordered: seq<Batch>) {
    forall i, j :: 0 <= i < j < |ordered| ==> ordered[i].first <= ordered[j].first
  }

  /** Every batch starts right after the one before it. */
  ghost predicate Consecutive(ordered: seq<Batch>) {
    forall i, j :: 0 <= i && j == i + 1 && j < |ordered| ==> ordered[j].first == ordered[i].last + 1
  }

  lemma OrderedMeans(batches: seq<Batch>)
    ensures Ascending(Ordered(batches)) && multiset(Ordered(batches)) == multiset(batches)
  {
    SortSorts(batches, ByFirst);
    SortPermutes(batches, ByFirst);
  }

  /** Batch k does not start where batch k - 1 ends: the expected start and the one met. */
  ghost predicate MismatchAt(ordered: seq<Batch>, k: nat, gap: (int, int)) {
    0 < k < |ordered| && gap == (ordered[k - 1].last + 1, ordered[k].first) && gap.0 != gap.1
  }

  /** The mismatches among the first i batches. */
  ghost predicate ListsMismatches(ordered: seq<Batch>, i: nat, gaps: seq<(int, int)>) {
    forall gap :: gap in gaps <==> exists k: nat :: k < i && MismatchAt(ordered, k, gap)
  }

  /** The check at the end of validate_tree: the sorted batches, and the mismatches met while a
      cursor moves over them. */
  method CheckRanges(batches: seq<Batch>) returns (ordered: seq<Batch>, gaps: seq<(int, int)>)
    ensures ordered == Ordered(batches)
    ensures gaps == [] <==> Consecutive(ordered)
    ensures ListsMismatches(ordered, |ordered|, gaps)
  {
    ordered, gaps := Ordered(batches), [];
    hide Ordered, ListsMismatches;
    if |ordered| == 0 {
      NoMismatch(ordered, []);
      return;
    }
    var cursor := ordered[0].first;
    NoMismatch(ordered, []);
    for i := 0 to |ordered|
      invariant cursor == if i == 0 then ordered[0].first else ordered[i - 1].last + 1
      invariant gaps == [] <==> Consecutive(ordered[..i])
      invariant ListsMismatches(ordered, i, gaps)
    {
      MismatchOneMore(ordered, i, gaps, (cursor, ordered[i].first));
      if ordered[i].first != cursor {
        gaps := gaps + [(cursor, ordered[i].first)];
        assert ordered[..i + 1][i - 1] == ordered[i - 1] && ordered[..i + 1][i] == ordered[i];
      } else {
        ConsecutiveOneMore(ordered, i);
      }
      cursor := ordered[i].last + 1;
    }
    assert ordered[..|ordered|] == ordered;
  }

  lemma NoMismatch(ordered: seq<Batch>, none: seq<(int, int)>)
    requires none == []
    ensures ListsMismatches(ordered, 0, none)
  {
  }

  lemma MismatchOneMore(ordered: seq<Batch>, i: nat, gaps: seq<(int, int)>, gap: (int, int))
    requires i < |ordered| && ListsMismatches(ordered, i, gaps)
    requires gap == if i == 0 then (ordered[0].first, ordered[0].first)
                    else (ordered[i - 1].last + 1, ordered[i].first)
    ensures ListsMismatches(ordered, i + 1, if gap.0 != gap.1 then gaps + [gap] else gaps)
  {
    var listed := if gap.0 != gap.1 then gaps + [gap] else gaps;
    assert forall g :: g in listed <==> g in gaps || (g == gap && gap.0 != gap.1);
    forall g
      ensures (exists k: nat :: k < i + 1 && MismatchAt(ordered, k, g)) <==> g in gaps || (g == gap && gap.0 != gap.1)
    {
      if g == gap && gap.0 != gap.1 {
        assert MismatchAt(ordered, i, g);
      }
    }
  }

  lemma ConsecutiveOneMore(ordered: seq<Batch>, i: nat)
    requires i < |ordered| && (i > 0 ==> ordered[i].first == ordered[i - 1].last + 1)
    ensures Consecutive(ordered[..i + 1]) <==> Consecutive(ordered[..i])
  {
    assert forall k :: 0 <= k < i ==> ordered[..i][k] == ordered[..i + 1][k];
  }

  ghost predicate Holds(b: Batch, n: int) {
    b.first <= n <= b.last
  }

  /** n lies in one batch and in no other. */
  ghost predicate InExactlyOne(ordered: seq<Batch>, n: int) {
    exists i :: 0 <= i < |ordered| && Holds(ordered[i], n) &&
      forall j :: 0 <= j < |ordered| && Holds(ordered[j], n) ==> j == i
  }

  ghost predicate Partition(ordered: seq<Batch>) {
    ordered != [] ==>
      forall n :: ordered[0].first <= n <= ordered[|ordered| - 1].last ==> InExactlyOne(ordered, n)
  }

  /** Batches that pass the gap check do not overlap, even ones whose range is empty. */
  lemma ConsecutiveDisjoint(ordered: seq<Batch>, i: nat, j: nat)
    requires Ascending(ordered) && Consecutive(ordered) && i < j < |ordered|
    ensures ordered[i].last < ordered[j].first
  {
    assert ordered[i + 1].first == ordered[i].last + 1;
  }

  lemma {:induction false} ConsecutiveCovers(ordered: seq<Batch>, n: int) returns (i: nat)
    requires ordered != [] && Consecutive(ordered)
    requires ordered[0].first <= n <= ordered[|ordered| - 1].last
    ensures i < |ordered| && Holds(ordered[i], n)
    decreases |ordered|
  {
    if n <= ordered[0].last {
      i := 0;
    } else {
      assert |ordered| > 1 ==> ordered[1].first == ordered[0].last + 1;
      var rest := ordered[1..];
      assert Consecutive(rest) by {
        assert forall k :: 0 <= k < |rest| ==> rest[k] == ordered[k + 1];
        forall a, b | 0 <= a && b == a + 1 && b < |rest|
          ensures rest[b].first == rest[a].last + 1
        {
          assert ordered[b + 1].first == ordered[a + 1].last + 1;
        }
      }
      var k := ConsecutiveCovers(rest, n);
      i := k + 1;
    }
  }

  /** A passed gap check is a partition of first.from .. last.to, with no condition on the single
      ranges. */
  lemma GapCheckPartitions(ordered: seq<Batch>)
    requires Ascending(ordered) && Consecutive(ordered)
    ensures Partition(ordered)
  {
    if ordered != [] {
      forall n | ordered[0].first <= n <= ordered[|ordered| - 1].last
        ensures InExactlyOne(ordered, n)
      {
        var i := ConsecutiveCovers(ordered, n);
        forall j | 0 <= j < |ordered| && Holds(ordered[j], n)
          ensures j == i
        {
          if j < i {
            ConsecutiveDisjoint(ordered, j, i);
          } else if i < j {
            ConsecutiveDisjoint(ordered, i, j);
          }
        }
      }
    }
  }

  /** For non-empty ranges the gap check accepts exactly the partitions. */
  lemma GapCheckExact(ordered: seq<Batch>)
    requires Ascending(ordered)
    requires forall i :: 0 <= i < |ordered| ==> ordered[i].first <= ordered[i].last
    ensures Consecutive(ordered) <==> Partition(ordered)
  {
    if Consecutive(ordered) {
      GapCheckPartitions(ordered);
    }
    if Partition(ordered) {
      forall i, j | 0 <= i && j == i + 1 && j < |ordered|
        ensures ordered[j].first == ordered[i].last + 1
      {
        PartitionHasNoGap(ordered, i);
      }
    }
  }

  lemma PartitionHasNoGap(ordered: seq<Batch>, i: nat)
    requires Ascending(ordered) && Partition(ordered) && i + 1 < |ordered|
    requires forall k :: 0 <= k < |ordered| ==> ordered[k].first <= ordered[k].last
    ensures ordered[i + 1].first == ordered[i].last + 1
  {
    hide InExactlyOne, Holds;
    var a, b, end := ordered[i], ordered[i + 1], ordered[|ordered| - 1];
    assert ordered[0].first <= a.first <= b.first <= end.first <= end.last;
    assert InExactlyOne(ordered, a.first) && InExactlyOne(ordered, b.first);
    if b.first <= a.last {
      HeldByOne(ordered, i, i + 1);
    } else if a.last + 1 < b.first {
      GapUncovered(ordered, i);
    }
  }

  /** A batch does not begin inside another where numbers lie in one batch only. */
  lemma HeldByOne(ordered: seq<Batch>, i: nat, j: nat)
    requires i < |ordered| && j < |ordered| && ordered[i].first <= ordered[j].first <= ordered[j].last
    requires InExactlyOne(ordered, ordered[j].first) && ordered[j].first <= ordered[i].last
    ensures i == j
  {
    assert Holds(ordered[i], ordered[j].first) && Holds(ordered[j], ordered[j].first);
  }

  /** Between two batches that leave a gap, nothing covers the first missing number. */
  lemma GapUncovered(ordered: seq<Batch>, i: nat)
    requires Ascending(ordered) && i + 1 < |ordered| && ordered[i].first <= ordered[i].last
    requires InExactlyOne(ordered, ordered[i].first) && ordered[i].last + 1 < ordered[i + 1].first
    ensures !InExactlyOne(ordered, ordered[i].last + 1)
  {
    forall k | 0 <= k < |ordered|
      ensures !Holds(ordered[k], ordered[i].last + 1)
    {
      assert k < i ==> (Holds(ordered[k], ordered[i].last + 1) ==> Holds(ordered[k], ordered[i].first));
    }
  }

  // ---- One batch's table ----

  const CERT_TYPES := {"witness", "bounded-computation", "self-contained-proof", "deep-theory"}
  const FEASIBILITY := {"high", "medium", "low", "unknown"}

  datatype Record = Record(
    jsp: string, certificateType: string, feasibility: string, pages: Option<int>, notesIsText: bool)

  predicate IsDigit(c: char) {
    '0' <= c <= '9'
  }

  function Number(digits: string): nat {
    if digits == [] || !IsDigit(digits[|digits| - 1]) then 0
    else 10 * Number(digits[..|digits| - 1]) + (digits[|digits| - 1] - '0') as nat
  }

  predicate IsStrictId(jsp: string) {
    |jsp| == 10 && jsp[..4] == "JSP-" && forall i :: 4 <= i < 10 ==> IsDigit(jsp[i])
  }

  /** The pattern `^JSP-(\d{6})$`: its final `$` also matches before one trailing newline. */
  function ParseId(jsp: string): Option<nat> {
    if IsStrictId(jsp) then Some(Number(jsp[4..]))
    else if |jsp| == 11 && jsp[10] == '\n' && IsStrictId(jsp[..10]) then Some(Number(jsp[4..10]))
    else None
  }

  predicate WellFormed(rec: Record) {
    && rec.certificateType in CERT_TYPES && rec.feasibility in FEASIBILITY
    && (rec.pages.Some? ==> rec.pages.value >= 1) && rec.notesIsText
  }

  ghost predicate DistinctIds(records: seq<Record>) {
    forall i, j :: 0 <= i < j < |records| ==> records[i].jsp != records[j].jsp
  }

  predicate NumberWithin(jsp: string, lo: int, hi: int) {
    ParseId(jsp).Some? && lo <= ParseId(jsp).value <= hi
  }

  predicate RowFits(rec: Record, lo: int, hi: int) {
    NumberWithin(rec.jsp, lo, hi) && WellFormed(rec)
  }

  datatype Verdict = Pass | Fail | Invalid

  ghost predicate TableAccepted(b: Batch, records: seq<Record>) {
    && 1 <= b.first <= b.last && b.expected >= 0
    && (forall i :: 0 <= i < |records| ==> RowFits(records[i], b.first, b.last))
    && DistinctIds(records)
    && |records| == b.expected
  }

  ghost predicate RowOk(rows: seq<Record>, i: nat, lo: int, hi: int)
    requires i < |rows|
  {
    RowFits(rows[i], lo, hi) && forall k :: 0 <= k < i ==> rows[k].jsp != rows[i].jsp
  }

  ghost predicate FirstBadRow(rows: seq<Record>, i: nat, lo: int, hi: int) {
    i < |rows| && !RowOk(rows, i, lo, hi) && forall k: nat :: k < i ==> RowOk(rows, k, lo, hi)
  }

  /** The first bad row cannot be judged: its id does not parse, or all that is wrong with it is
      its page count or its notes. */
  ghost predicate Unjudgeable(rows: seq<Record>, i: nat, lo: int, hi: int) {
    && FirstBadRow(rows, i, lo, hi)
    && (ParseId(rows[i].jsp).None? ||
        RowOk(rows[i := rows[i].(pages := None, notesIsText := true)], i, lo, hi))
  }

  /** The triage-table script after parsing; None stands for an absent or non-integer field. */
  method CheckTable(first: Option<int>, last: Option<int>, expected: Option<int>, records: Option<seq<Record>>)
    returns (v: Verdict)
    ensures v.Pass? <==>
      first.Some? && last.Some? && expected.Some? && records.Some? &&
      TableAccepted(Batch(first.value, last.value, expected.value), records.value)
    ensures v.Invalid? <==>
      || first.None? || first.value < 0 || last.None? || last.value < 0 || expected.None? || expected.value < 0
      || (1 <= first.value <= last.value &&
          (records.None? || exists i: nat :: Unjudgeable(records.value, i, first.value, last.value)))
  {
    if first.None? || first.value < 0 || last.None? || last.value < 0 || expected.None? || expected.value < 0 {
      return Invalid;
    }
    var lo, hi := first.value, last.value;
    if lo < 1 || lo > hi {
      return Fail;
    }
    if records.None? {
      return Invalid;
    }
    var rows := records.value;
    hide ParseId;
    var seen: set<string> := {};
    for i := 0 to |rows|
      invariant seen == set k | 0 <= k < i :: rows[k].jsp
      invariant forall k: nat :: k < i ==> RowOk(rows, k, lo, hi)
    {
      var rec := rows[i];
      var number := ParseId(rec.jsp);
      JudgedByFirstBad(rows, i, lo, hi);
      ghost var lenient := rows[i := rec.(pages := None, notesIsText := true)];
      assert lenient[i].jsp == rec.jsp && forall k :: 0 <= k < i ==> lenient[k] == rows[k];
      if number.None? {
        assert Unjudgeable(rows, i, lo, hi);
        return Invalid;
      }
      if !(lo <= number.value <= hi) {
        return Fail;
      }
      if rec.jsp in seen {
        return Fail;
      }
      seen := seen + {rec.jsp};
      if rec.certificateType !in CERT_TYPES || rec.feasibility !in FEASIBILITY {
        return Fail;
      }
      if (rec.pages.Some? && rec.pages.value < 1) || !rec.notesIsText {
        assert Unjudgeable(rows, i, lo, hi);
        return Invalid;
      }
    }
    assert forall i: nat :: i < |rows| ==> RowOk(rows, i, lo, hi);
    forall j | 0 <= j < |rows|
      ensures RowFits(rows[j], lo, hi) && forall i :: 0 <= i < j ==> rows[i].jsp != rows[j].jsp
    {
      assert RowOk(rows, j, lo, hi);
    }
    return if |rows| != expected.value then Fail else Pass;
  }

  /** Another record in the place of one of an accepted table is accepted exactly when its id is that
      of a number of the batch, no other row has it, and its other fields are among what is allowed. */
  lemma EditAcceptedIff(b: Batch, rows: seq<Record>, i: nat, rec: Record)
    requires TableAccepted(b, rows) && i < |rows|
    ensures TableAccepted(b, rows[i := rec]) <==>
            && (exists n: nat :: b.first <= n <= b.last && n < 1000000 && IsIdOf(rec.jsp, n))
            && (forall k :: 0 <= k < |rows| && k != i ==> rows[k].jsp != rec.jsp)
            && rec.certificateType in {"witness", "bounded-computation", "self-contained-proof", "deep-theory"}
            && rec.feasibility in {"high", "medium", "low", "unknown"}
            && (rec.pages.None? || rec.pages.value >= 1) && rec.notesIsText
  {
    WithinIff(rec.jsp, b.first, b.last);
    FitsAfterEdit(b, rows, i, rec);
    DistinctAfterEdit(rows, i, rec);
    assert RowFits(rec, b.first, b.last) <==> NumberWithin(rec.jsp, b.first, b.last) && WellFormed(rec);
    hide NumberWithin, IsIdOf, DistinctIds, RowFits;
  }

  lemma FitsAfterEdit(b: Batch, rows: seq<Record>, i: nat, rec: Record)
    requires i < |rows| && TableAccepted(b, rows)
    ensures TableAccepted(b, rows[i := rec]) <==> RowFits(rec, b.first, b.last) && DistinctIds(rows[i := rec])
  {
    hide RowFits, DistinctIds;
    assert rows[i := rec][i] == rec;
  }

  lemma DistinctAfterEdit(rows: seq<Record>, i: nat, rec: Record)
    requires i < |rows| && DistinctIds(rows)
    ensures DistinctIds(rows[i := rec]) <==> forall k :: 0 <= k < |rows| && k != i ==> rows[k].jsp != rec.jsp
  {
    var edited := rows[i := rec];
    if DistinctIds(edited) {
      forall k | 0 <= k < |rows| && k != i
        ensures rows[k].jsp != rec.jsp
      {
        assert edited[k] == rows[k] && edited[i] == rec;
      }
    }
  }

  lemma WithinIff(jsp: string, lo: int, hi: int)
    requires lo >= 0
    ensures NumberWithin(jsp, lo, hi) <==> exists n: nat :: lo <= n <= hi && n < 1000000 && IsIdOf(jsp, n)
  {
    if ParseId(jsp).Some? {
      ParseIdIff(jsp, ParseId(jsp).value);
      assert ParseId(jsp).value < 1000000 && IsIdOf(jsp, ParseId(jsp).value);
    }
    if n: nat :| lo <= n <= hi && n < 1000000 && IsIdOf(jsp, n) {
      ParseIdIff(jsp, n);
    }
  }

  predicate IsIdOf(jsp: string, n: nat) {
    jsp == JspId(n) || jsp == JspId(n) + "\n"
  }

  lemma JudgedByFirstBad(rows: seq<Record>, i: nat, lo: int, hi: int)
    requires i < |rows| && forall k: nat :: k < i ==> RowOk(rows, k, lo, hi)
    ensures !RowOk(rows, i, lo, hi) ==> forall j: nat :: Unjudgeable(rows, j, lo, hi) ==> j == i
  {
  }

  // ---- Reading ids as numbers ----

  lemma {:induction false} NumberInjective(s: string, t: string)
    requires |s| == |t| && Number(s) == Number(t)
    requires forall i :: 0 <= i < |s| ==> IsDigit(s[i]) && IsDigit(t[i])
    ensures s == t
  {
    if s != [] {
      var a, b := s[..|s| - 1], t[..|t| - 1];
      NumberInjective(a, b);
      assert s == a + [s[|s| - 1]] && t == b + [t[|t| - 1]];
    }
  }

  lemma NumberAppend(s: string, c: char)
    requires IsDigit(c)
    ensures Number(s + [c]) == 10 * Number(s) + (c - '0') as nat
  {
    assert (s + [c])[..|s|] == s;
  }

  /** The last k decimal digits of n. */
  function Digits(n: nat, k: nat): string {
    if k == 0 then "" else Digits(n / 10, k - 1) + ['0' + (n % 10) as char]
  }

  /** The id of a number, as the repository writes it. */
  function JspId(n: nat): string {
    "JSP-" + Digits(n, 6)
  }

  function TenTo(k: nat): nat {
    if k == 0 then 1 else 10 * TenTo(k - 1)
  }

  lemma {:induction false} NumberOfDigits(n: nat, k: nat)
    requires n < TenTo(k)
    ensures |Digits(n, k)| == k && Number(Digits(n, k)) == n
    ensures forall i :: 0 <= i < k ==> IsDigit(Digits(n, k)[i])
  {
    if k > 0 {
      NumberOfDigits(n / 10, k - 1);
      NumberAppend(Digits(n / 10, k - 1), '0' + (n % 10) as char);
    }
  }

  lemma {:induction false} NumberBelow(s: string)
    requires forall i :: 0 <= i < |s| ==> IsDigit(s[i])
    ensures Number(s) < TenTo(|s|)
  {
    if s != [] {
      NumberBelow(s[..|s| - 1]);
    }
  }

  /** The ids that are read as n are the id written for n, with or without a trailing newline. */
  lemma ParseIdIff(s: string, n: nat)
    ensures ParseId(s) == Some(n) <==> n < 1000000 && (s == JspId(n) || s == JspId(n) + "\n")
  {
    assert TenTo(6) == 1000000;
    if n < TenTo(6) {
      NumberOfDigits(n, 6);
      hide Number, Digits, TenTo;
      var id := JspId(n);
      assert id[4..] == Digits(n, 6);
      assert (id + "\n")[..10] == id && (id + "\n")[4..10] == id[4..];
    }
    if ParseId(s) == Some(n) {
      var t := if |s| == 11 then s[..10] else s;
      assert t[4..] == if |s| == 11 then s[4..10] else s[4..];
      NumberBelow(t[4..]);
      NumberInjective(t[4..], Digits(n, 6));
      assert t == t[..4] + t[4..];
      assert |s| == 11 ==> s == t + "\n";
    }
  }

  lemma StrictIdInjective(s: string, t: string)
    requires IsStrictId(s) && IsStrictId(t) && Number(s[4..]) == Number(t[4..])
    ensures s == t
  {
    NumberInjective(s[4..], t[4..]);
    assert s == s[..4] + s[4..] && t == t[..4] + t[4..];
  }

  /** Two accepted ids with the same number are the same id, or one is the other with a newline. */
  lemma SameNumber(s: string, t: string)
    requires ParseId(s).Some? && ParseId(s) == ParseId(t)
    ensures s == t || s == t + "\n" || t == s + "\n"
  {
    var a, b := if |s| == 11 then s[..10] else s, if |t| == 11 then t[..10] else t;
    assert |s| == 11 ==> s == a + "\n" && s[4..10] == a[4..];
    assert |t| == 11 ==> t == b + "\n" && t[4..10] == b[4..];
    StrictIdInjective(a, b);
  }

  lemma TwinHasSameNumber(s: string, t: string)
    requires ParseId(s).Some? && ParseId(t).Some? && t == s + "\n"
    ensures ParseId(s) == ParseId(t)
  {
    assert t[..10] == s && t[4..10] == s[4..];
  }

  // ---- All tables together ----

  datatype Table = Table(batch: Batch, records: seq<Record>)

  function Batches(tables: seq<Table>): seq<Batch> {
    seq(|tables|, i requires 0 <= i < |tables| => tables[i].batch)
  }

  function AllRecords(tables: seq<Table>): seq<Record> {
    if tables == [] then [] else AllRecords(tables[..|tables| - 1]) + tables[|tables| - 1].records
  }

  function ExpectedTotal(tables: seq<Table>): int {
    if tables == [] then 0 else ExpectedTotal(tables[..|tables| - 1]) + tables[|tables| - 1].batch.expected
  }

  ghost predicate AllAccepted(tables: seq<Table>) {
    forall i :: 0 <= i < |tables| ==> TableAccepted(tables[i].batch, tables[i].records)
  }

  /** Some record's id is another record's id followed by a newline. */
  ghost predicate HasTwins(records: seq<Record>) {
    exists i, j :: 0 <= i < |records| && 0 <= j < |records| && records[j].jsp == records[i].jsp + "\n"
  }

  ghost predicate DistinctNumbers(records: seq<Record>) {
    forall i, j :: 0 <= i < j < |records| ==> ParseId(records[i].jsp) != ParseId(records[j].jsp)
  }

  lemma TableWithin(b: Batch, records: seq<Record>, lo: int, hi: int)
    requires TableAccepted(b, records) && lo <= b.first && b.last <= hi
    ensures b.first <= b.last && forall rec :: rec in records ==> NumberWithin(rec.jsp, lo, hi)
  {
    hide ParseId;
  }

  lemma WidenHull(records: seq<Record>, lo: int, hi: int, wider: int)
    requires hi <= wider && forall rec :: rec in records ==> NumberWithin(rec.jsp, lo, hi)
    ensures forall rec :: rec in records ==> NumberWithin(rec.jsp, lo, wider)
  {
    hide ParseId;
  }

  /** Every record of consecutive accepted tables has a number from the first batch's start to the
      last batch's end; so a later table shares no id with the earlier ones. */
  lemma {:induction false} RecordsInHull(tables: seq<Table>)
    requires tables != [] && AllAccepted(tables)
    requires Ascending(Batches(tables)) && Consecutive(Batches(tables))
    ensures forall rec :: rec in AllRecords(tables) ==>
      NumberWithin(rec.jsp, tables[0].batch.first, tables[|tables| - 1].batch.last)
    decreases |tables|
  {
    var n := |tables|;
    var init, last := tables[..n - 1], tables[n - 1];
    var lo := tables[0].batch.first;
    hide TableAccepted, NumberWithin;
    assert Batches(init) == Batches(tables)[..n - 1];
    assert Batches(tables)[0] == tables[0].batch && Batches(tables)[n - 1] == last.batch;
    TableWithin(last.batch, last.records, lo, last.batch.last);
    if n == 1 {
      assert AllRecords(tables) == last.records;
    } else {
      assert Batches(tables)[n - 2] == init[n - 2].batch;
      RecordsInHull(init);
      WidenHull(AllRecords(init), lo, init[n - 2].batch.last, last.batch.last);
    }
  }

  /** In the order of the ranges, the records of all batches together repeat no id and are as many as
      the batches expect. */
  lemma {:induction false} OrderedRecordsDistinct(tables: seq<Table>)
    requires AllAccepted(tables)
    requires Ascending(Batches(tables)) && Consecutive(Batches(tables))
    ensures DistinctIds(AllRecords(tables)) && |AllRecords(tables)| == ExpectedTotal(tables)
    decreases |tables|
  {
    if tables != [] {
      var n := |tables|;
      var init, last := tables[..n - 1], tables[n - 1];
      assert Batches(init) == Batches(tables)[..n - 1];
      OrderedRecordsDistinct(init);
      assert TableAccepted(last.batch, last.records);
      if init != [] {
        RecordsInHull(init);
        assert Batches(tables)[n - 2] == init[n - 2].batch && Batches(tables)[n - 1] == last.batch;
        assert last.batch.first == init[n - 2].batch.last + 1;
      }
      var earlier := AllRecords(init);
      forall i, j | 0 <= i < |earlier| && 0 <= j < |last.records|
        ensures earlier[i].jsp != last.records[j].jsp
      {
      }
    }
  }

  // ---- Tables in any order ----

  function ByBatch(a: Table, b: Table): bool {
    ByFirst(a.batch, b.batch)
  }

  lemma {:induction false} BatchesOfInsert(x: Table, s: seq<Table>)
    ensures Batches(Insert(x, s, ByBatch)) == Insert(x.batch, Batches(s), ByFirst)
  {
    if s != [] {
      assert Batches(s)[0] == s[0].batch && Batches(s)[1..] == Batches(s[1..]);
      if !ByBatch(x, s[0]) {
        BatchesOfInsert(x, s[1..]);
      }
    }
  }

  /** Sorting the tables by range sorts their batches as the draft check does. */
  lemma {:induction false} BatchesOfSort(tables: seq<Table>)
    ensures Batches(Sort(tables, ByBatch)) == Ordered(Batches(tables))
  {
    if tables != [] {
      BatchesOfSort(tables[1..]);
      BatchesOfInsert(tables[0], Sort(tables[1..], ByBatch));
      assert Batches(tables)[0] == tables[0].batch && Batches(tables)[1..] == Batches(tables[1..]);
    }
  }

  /** The records of two lists of tables, and how many are expected, as counted together. */
  ghost predicate SameRecords(a: seq<Table>, b: seq<Table>) {
    multiset(AllRecords(a)) == multiset(AllRecords(b)) && ExpectedTotal(a) == ExpectedTotal(b)
  }

  lemma {:induction false} RecordsFromFront(x: Table, s: seq<Table>)
    ensures AllRecords([x] + s) == x.records + AllRecords(s)
    ensures ExpectedTotal([x] + s) == x.batch.expected + ExpectedTotal(s)
    decreases |s|
  {
    var all := [x] + s;
    if s == [] {
      assert all[..0] == [];
    } else {
      var init, last := s[..|s| - 1], s[|s| - 1];
      RecordsFromFront(x, init);
      assert all[..|all| - 1] == [x] + init && all[|all| - 1] == last;
      assert x.records + (AllRecords(init) + last.records) == x.records + AllRecords(init) + last.records;
    }
  }

  lemma RecordsOfCons(x: Table, s: seq<Table>, all: seq<Table>)
    requires all == [x] + s
    ensures multiset(AllRecords(all)) == multiset(x.records) + multiset(AllRecords(s))
    ensures ExpectedTotal(all) == x.batch.expected + ExpectedTotal(s)
  {
    RecordsFromFront(x, s);
    hide AllRecords, ExpectedTotal;
  }

  lemma {:induction false} InsertKeepsRecords(x: Table, s: seq<Table>)
    ensures SameRecords(Insert(x, s, ByBatch), [x] + s)
  {
    hide AllRecords, ExpectedTotal;
    if s == [] {
      assert [x] + s == [x];
    } else if !ByBatch(x, s[0]) {
      var rest := Insert(x, s[1..], ByBatch);
      InsertKeepsRecords(x, s[1..]);
      RecordsOfCons(s[0], rest, Insert(x, s, ByBatch));
      RecordsOfCons(x, s[1..], [x] + s[1..]);
      RecordsOfCons(x, s, [x] + s);
      RecordsOfCons(s[0], s[1..], s);
    }
  }

  lemma {:induction false} SortKeepsRecords(tables: seq<Table>)
    ensures SameRecords(Sort(tables, ByBatch), tables)
  {
    hide AllRecords, ExpectedTotal;
    if tables != [] {
      var rest := Sort(tables[1..], ByBatch);
      SortKeepsRecords(tables[1..]);
      InsertKeepsRecords(tables[0], rest);
      RecordsOfCons(tables[0], rest, [tables[0]] + rest);
      RecordsOfCons(tables[0], tables[1..], tables);
    }
  }

  /** Whether ids are repeated does not depend on the order of the records. */
  lemma DistinctIdsPermute(a: seq<Record>, b: seq<Record>)
    requires multiset(a) == multiset(b) && DistinctIds(a)
    ensures DistinctIds(b) && |a| == |b|
  {
    assert |multiset(a)| == |multiset(b)|;
    DistinctIffSingle(a);
    DistinctIffSingle(b);
    forall i, j | 0 <= i < j < |b|
      ensures b[i].jsp != b[j].jsp
    {
      assert b[i] in multiset(a) && b[j] in multiset(a);
      var k, l :| 0 <= k < |a| && 0 <= l < |a| && a[k] == b[i] && a[l] == b[j];
    }
  }

  /** Batches whose sorted ranges pass the gap check and whose tables are accepted, in whatever order
      they are listed: the ranges partition the numbers from the first to the last, no record id is
      repeated, and there are as many records as the batches expect together. */
  lemma RecordsDistinct(tables: seq<Table>)
    requires AllAccepted(tables) && Consecutive(Ordered(Batches(tables)))
    ensures Partition(Ordered(Batches(tables)))
    ensures DistinctIds(AllRecords(tables)) && |AllRecords(tables)| == ExpectedTotal(tables)
  {
    var ordered := Sort(tables, ByBatch);
    BatchesOfSort(tables);
    OrderedMeans(Batches(tables));
    GapCheckPartitions(Ordered(Batches(tables)));
    SortMembers(tables, ByBatch);
    forall i | 0 <= i < |ordered|
      ensures TableAccepted(ordered[i].batch, ordered[i].records)
    {
      assert ordered[i] in tables;
    }
    OrderedRecordsDistinct(ordered);
    SortKeepsRecords(tables);
    DistinctIdsPermute(AllRecords(ordered), AllRecords(tables));
  }

  lemma {:induction false} RecordsParse(tables: seq<Table>)
    requires AllAccepted(tables)
    ensures forall rec :: rec in AllRecords(tables) ==> ParseId(rec.jsp).Some?
    decreases |tables|
  {
    if tables != [] {
      var n := |tables|;
      RecordsParse(tables[..n - 1]);
      assert TableAccepted(tables[n - 1].batch, tables[n - 1].records);
    }
  }

  /** Ids are not repeated, but numbers are exactly when an accepted id also occurs with a trailing
      newline, which the pattern lets through and the set of seen ids does not catch. */
  lemma NumbersDistinctIff(tables: seq<Table>)
    requires AllAccepted(tables) && Consecutive(Ordered(Batches(tables)))
    ensures DistinctNumbers(AllRecords(tables)) <==> !HasTwins(AllRecords(tables))
  {
    RecordsDistinct(tables);
    RecordsParse(tables);
    var rows := AllRecords(tables);
    hide ParseId, AllRecords, AllAccepted, Consecutive, Partition;
    if i, j :| 0 <= i < |rows| && 0 <= j < |rows| && rows[j].jsp == rows[i].jsp + "\n" {
      assert |rows[j].jsp| != |rows[i].jsp|;
      TwinHasSameNumber(rows[i].jsp, rows[j].jsp);
    } else {
      forall i, j | 0 <= i < j < |rows|
        ensures ParseId(rows[i].jsp) != ParseId(rows[j].jsp)
      {
        if ParseId(rows[i].jsp) == ParseId(rows[j].jsp) {
          SameNumber(rows[i].jsp, rows[j].jsp);
        }
      }
    }
  }

  lemma {:induction false} NumberOfZeros(s: string)
    requires forall i :: 0 <= i < |s| ==> s[i] == '0'
    ensures Number(s) == 0
  {
    if s != [] {
      NumberOfZeros(s[..|s| - 1]);
    }
  }

  lemma SevenParses()
    ensures ParseId("JSP-000007") == Some(7)
  {
    var digits := "JSP-000007"[4..];
    assert digits == "00000" + ['7'];
    NumberOfZeros("00000");
    NumberAppend("00000", '7');
  }

  /** A table that the checker passes although both of its records are number 7. */
  lemma NewlineTwinPasses()
    ensures exists records :: TableAccepted(Batch(1, 100, 2), records) && !DistinctNumbers(records)
  {
    var a := Record("JSP-000007", "witness", "high", None, true);
    var b := a.(jsp := "JSP-000007" + "\n");
    SevenParses();
    assert (a.jsp + "\n")[..10] == a.jsp && (a.jsp + "\n")[10] == '\n';
    TwinHasSameNumber(a.jsp, b.jsp);
    hide ParseId;
    var records := [a, b];
    assert records[0] == a && records[1] == b && |b.jsp| == |a.jsp| + 1;
    assert TableAccepted(Batch(1, 100, 2), records);
    assert !DistinctNumbers(records);
  }
}
