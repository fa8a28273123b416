/**
 The shard evidence gate: records of complete shards that must partition the current test
 inventory, whatever order they arrive in.
 */
module NodeShards {
  import opened Prelude
  import Orders

  /** Native test counts; `None` is a missing key or a value that is not an integer. */
  datatype Counts = Counts(
    tests: Option<int>, passed: Option<int>, failed: Option<int>,
    cancelled: Option<int>, skipped: Option<int>, todo: Option<int>)

  datatype Shard = Shard(
    coordinate: string, inventory: seq<string>, executedFiles: seq<string>, unexpectedFiles: Option<seq<string>>)

  datatype Coverage = Coverage(
    counts: Counts, unexpectedSkips: Option<seq<string>>, required: seq<string>,
    optionalNotExecuted: seq<string>, shard: Shard)

  /** A decoded record, or one that lacks a key the checks index. */
  datatype Record = Record(sourceCommit: Option<string>, coverage: Coverage) | Broken

  predicate ValidCommit(s: string) {
    |s| == 40 && forall i | 0 <= i < |s| :: '0' <= s[i] <= '9' || 'a' <= s[i] <= 'f'
  }

  function Coordinates(total: int): Option<set<string>> {
    if total == 2 then Some({"1/2", "2/2"})
    else if total == 4 then Some({"1/4", "2/4", "3/4", "4/4"})
    else None
  }

  predicate IsCount(n: Option<int>) {
    n.Some? && n.value >= 0
  }

  predicate CountsValid(c: Counts) {
    && IsCount(c.tests) && IsCount(c.passed) && IsCount(c.failed) && IsCount(c.cancelled) && IsCount(c.skipped) && IsCount(c.todo)
    && c.passed.value != 0 && c.failed.value == 0 && c.cancelled.value == 0 && c.todo.value == 0
    && c.tests.value == c.passed.value + c.skipped.value
  }

  /** The checks of one record, in order. */
  predicate Valid(record: Record, expected: seq<string>, commit: string, total: int) {
    && record.Record? && ValidCommit(commit) && record.sourceCommit == Some(commit)
    && CountsValid(record.coverage.counts)
    && record.coverage.unexpectedSkips == Some([]) && "postgres" in record.coverage.required
    && record.coverage.counts.skipped.value == |record.coverage.optionalNotExecuted|
    && var shard := record.coverage.shard;
       && shard.unexpectedFiles == Some([])
       && Coordinates(total).Some? && shard.coordinate in Coordinates(total).value && shard.inventory == expected
       && shard.executedFiles != [] && shard.executedFiles == Orders.SortedSet(Orders.TEXT_LE, shard.executedFiles)
       && Elements(shard.executedFiles) <= Elements(expected)
  }

  /** A valid record lists its files in strict order, each of them in the inventory. */
  lemma ValidFilesAreStrictlySorted(record: Record, expected: seq<string>, commit: string, total: int)
    requires Valid(record, expected, commit, total)
    ensures Orders.SortedBy(Orders.TEXT_LE, Files(record)) && Distinct(Files(record))
    ensures forall f | f in Files(record) :: f in expected
    ensures |Elements(Files(record))| == |Files(record)| > 0
  {
    Orders.TextIsTotalOrder();
    Orders.EqualsSortedSetIff(Orders.TEXT_LE, Files(record));
    DistinctCount(Files(record));
    forall f | f in Files(record) ensures f in expected {
      assert f in Elements(Files(record));
    }
  }

  function Files(record: Record): seq<string> {
    if record.Broken? then [] else record.coverage.shard.executedFiles
  }

  function CoordinateOf(record: Record): string {
    if record.Broken? then "" else record.coverage.shard.coordinate
  }

  function Passed(record: Record): int {
    if record.Record? && record.coverage.counts.passed.Some? then record.coverage.counts.passed.value else 0
  }

  function Skipped(record: Record): int {
    if record.Record? && record.coverage.counts.skipped.Some? then record.coverage.counts.skipped.value else 0
  }

  // ----- What acceptance means -----

  /** Two records that may stand together: other coordinate, no file in common. */
  predicate Apart(a: Record, b: Record) {
    CoordinateOf(a) != CoordinateOf(b) && Elements(Files(a)) !! Elements(Files(b))
  }

  const APART: (Record, Record) -> bool := (a, b) => Apart(a, b)

  function FilesOf(records: seq<Record>): set<string> {
    if records == [] then {} else FilesOf(records[..|records| - 1]) + Elements(Files(records[|records| - 1]))
  }

  function CoordinatesOf(records: seq<Record>): set<string> {
    if records == [] then {} else CoordinatesOf(records[..|records| - 1]) + {CoordinateOf(records[|records| - 1])}
  }

  /** As many records as shards, each valid, with distinct coordinates, whose executed files partition
      the inventory. */
  ghost predicate Accepted(records: seq<Record>, expected: seq<string>, commit: string, total: int) {
    && Coordinates(total).Some? && |records| == total && ValidCommit(commit)
    && (forall r | r in records :: Valid(r, expected, commit, total))
    && Orders.Pairwise(APART, records)
    && FilesOf(records) == Elements(expected)
  }

  datatype Summary = Summary(commit: string, files: nat, shards: seq<string>, passed: int, omissions: int)

  lemma {:induction false} FilesOfExact(records: seq<Record>, f: string)
    ensures f in FilesOf(records) <==> exists r | r in records :: f in Files(r)
  {
    if records != [] {
      FilesOfExact(records[..|records| - 1], f);
      assert forall r :: r in records <==> r in records[..|records| - 1] || r == records[|records| - 1];
    }
  }

  lemma {:induction false} CoordinatesOfExact(records: seq<Record>, c: string)
    ensures c in CoordinatesOf(records) <==> exists r | r in records :: CoordinateOf(r) == c
  {
    if records != [] {
      CoordinatesOfExact(records[..|records| - 1], c);
      assert forall r :: r in records <==> r in records[..|records| - 1] || r == records[|records| - 1];
    }
  }

  /** Records pairwise apart: their coordinates are as many as they are, and their file counts add up. */
  lemma {:induction false} ApartAddsUp(records: seq<Record>)
    requires Orders.Pairwise(APART, records)
    ensures |CoordinatesOf(records)| == |records|
    ensures |FilesOf(records)| == FileCount(records)
  {
    if records != [] {
      var front, last := records[..|records| - 1], records[|records| - 1];
      ApartAddsUp(front);
      forall r | r in front ensures Apart(r, last) {
        var i :| 0 <= i < |front| && front[i] == r;
        assert APART(records[i], records[|records| - 1]);
      }
      if CoordinateOf(last) in CoordinatesOf(front) {
        CoordinatesOfExact(front, CoordinateOf(last));
      }
      forall f | f in Elements(Files(last)) ensures f !in FilesOf(front) {
        FilesOfExact(front, f);
      }
      assert FilesOf(front) !! Elements(Files(last));
    }
  }

  function FileCount(records: seq<Record>): nat {
    if records == [] then 0 else FileCount(records[..|records| - 1]) + |Elements(Files(records[|records| - 1]))|
  }

  lemma SubsetOfSameSize(a: set<string>, b: set<string>)
    requires a <= b && |a| == |b|
    ensures a == b
  {
    if x :| x in b && x !in a {
      assert a <= b - {x};
      SubsetSize(a, b - {x});
    }
  }

  lemma {:induction false} SubsetSize(a: set<string>, b: set<string>)
    requires a <= b
    ensures |a| <= |b|
  {
    if x :| x in a {
      SubsetSize(a - {x}, b - {x});
    }
  }

  lemma CoordinatesCount(total: int)
    requires Coordinates(total).Some?
    ensures |Coordinates(total).value| == total
  {
    assert "1/2"[0] != "2/2"[0] && "1/4"[0] == '1' && "2/4"[0] == '2' && "3/4"[0] == '3' && "4/4"[0] == '4';
  }

  /** Pigeonhole: as many distinct coordinates as shards are all the coordinates. */
  lemma EveryShardIsThere(records: seq<Record>, expected: seq<string>, commit: string, total: int)
    requires Coordinates(total).Some? && |records| == total
    requires (forall r | r in records :: Valid(r, expected, commit, total)) && Orders.Pairwise(APART, records)
    ensures CoordinatesOf(records) == Coordinates(total).value
  {
    ApartAddsUp(records);
    CoordinatesCount(total);
    forall c | c in CoordinatesOf(records) ensures c in Coordinates(total).value {
      CoordinatesOfExact(records, c);
    }
    SubsetOfSameSize(CoordinatesOf(records), Coordinates(total).value);
  }

  /** Every inventory file was executed, by exactly one shard, and the shard sizes sum to the inventory. */
  lemma AcceptedIsPartition(records: seq<Record>, expected: seq<string>, commit: string, total: int, f: string)
    requires Accepted(records, expected, commit, total)
    ensures FileCount(records) == |Elements(expected)|
    ensures CoordinatesOf(records) == Coordinates(total).value
    ensures f in expected <==> exists r | r in records :: f in Files(r)
    ensures forall i, j | 0 <= i < j < |records| :: !(f in Files(records[i]) && f in Files(records[j]))
  {
    ApartAddsUp(records);
    EveryShardIsThere(records, expected, commit, total);
    FilesOfExact(records, f);
    assert f in expected <==> f in Elements(expected);
    forall i, j | 0 <= i < j < |records| ensures !(f in Files(records[i]) && f in Files(records[j])) {
      assert APART(records[i], records[j]);
      assert f in Elements(Files(records[i])) <==> f in Files(records[i]);
      assert f in Elements(Files(records[j])) <==> f in Files(records[j]);
    }
  }

  // ----- The gate -----

  /** The loop over the records: each valid, each apart from those before it. */
  method Scan(records: seq<Record>, expected: seq<string>, commit: string, total: int)
    returns (ok: bool, seen: set<string>, executed: set<string>)
    ensures ok <==> (forall r | r in records :: Valid(r, expected, commit, total)) && Orders.Pairwise(APART, records)
    ensures ok ==> seen == CoordinatesOf(records) && executed == FilesOf(records)
  {
    seen, executed := {}, {};
    for i := 0 to |records|
      invariant forall r | r in records[..i] :: Valid(r, expected, commit, total)
      invariant Orders.Pairwise(APART, records[..i])
      invariant seen == CoordinatesOf(records[..i]) && executed == FilesOf(records[..i])
    {
      var record := records[i];
      if !Valid(record, expected, commit, total) {
        assert record in records;
        return false, seen, executed;
      }
      var coordinate, files := CoordinateOf(record), Elements(Files(record));
      if coordinate in seen || files * executed != {} {
        NotApart(records, i);
        return false, seen, executed;
      }
      AllApart(records[..i], record);
      assert records[..i + 1] == records[..i] + [record] && records[..i + 1][..i] == records[..i];
      seen := seen + {coordinate};
      executed := executed + files;
    }
    assert records[..|records|] == records;
    return true, seen, executed;
  }

  /** What every admitted record shows: tests passed, none failed, was cancelled or left to do, and as many
      skipped as it lists as optional. */
  ghost predicate RanCleanly(record: Record, commit: string) {
    && record.Record? && record.sourceCommit == Some(commit)
    && var c := record.coverage.counts;
       && c.passed.Some? && c.passed.value > 0 && c.failed == Some(0) && c.cancelled == Some(0) && c.todo == Some(0)
       && c.skipped == Some(|record.coverage.optionalNotExecuted|) && c.tests == Some(c.passed.value + c.skipped.value)
       && record.coverage.unexpectedSkips == Some([]) && record.coverage.shard.unexpectedFiles == Some([])
       && "postgres" in record.coverage.required
  }

  /** A record that may be admitted: it ran cleanly for this commit, names one of the shards, saw the expected
      inventory, and lists the files it executed, at least one, in strict order and all of them expected. */
  ghost predicate MayBeAdmitted(record: Record, expected: seq<string>, commit: string, total: int) {
    && RanCleanly(record, commit) && IsCommit(commit)
    && var shard := record.coverage.shard;
       && (|| (total == 2 && shard.coordinate in {"1/2", "2/2"})
           || (total == 4 && shard.coordinate in {"1/4", "2/4", "3/4", "4/4"}))
       && shard.inventory == expected && shard.executedFiles != []
       && Orders.SortedBy(Orders.TEXT_LE, shard.executedFiles) && Distinct(shard.executedFiles)
       && forall f | f in shard.executedFiles :: f in expected
  }

  ghost predicate IsCommit(s: string) {
    |s| == 40 && forall c | c in s :: c in "0123456789abcdef"
  }

  lemma CommitExact(s: string)
    ensures ValidCommit(s) <==> IsCommit(s)
  {
    forall i | 0 <= i < |s| ensures ('0' <= s[i] <= '9' || 'a' <= s[i] <= 'f') <==> s[i] in "0123456789abcdef" {
      HexExact(s[i]);
    }
    if IsCommit(s) {
      forall i | 0 <= i < |s| ensures '0' <= s[i] <= '9' || 'a' <= s[i] <= 'f' {
        assert s[i] in s;
      }
    }
  }

  lemma HexExact(c: char)
    ensures ('0' <= c <= '9' || 'a' <= c <= 'f') <==> c in "0123456789abcdef"
  {
    var digits := "0123456789abcdef";
    if '0' <= c <= '9' {
      assert digits[c as int - '0' as int] == c;
    } else if 'a' <= c <= 'f' {
      assert digits[10 + c as int - 'a' as int] == c;
    }
  }

  /** The checks of one record, spelled out. */
  lemma ValidExact(record: Record, expected: seq<string>, commit: string, total: int)
    ensures Valid(record, expected, commit, total) <==> MayBeAdmitted(record, expected, commit, total)
  {
    CommitExact(commit);
    if record.Record? {
      CoordinateExact(record.coverage.shard.coordinate, total);
      FilesExact(record.coverage.shard.executedFiles, expected);
    }
  }

  lemma CoordinateExact(coordinate: string, total: int)
    ensures Coordinates(total).Some? && coordinate in Coordinates(total).value <==>
      || (total == 2 && coordinate in {"1/2", "2/2"})
      || (total == 4 && coordinate in {"1/4", "2/4", "3/4", "4/4"})
  {
  }

  lemma FilesExact(files: seq<string>, expected: seq<string>)
    ensures files == Orders.SortedSet(Orders.TEXT_LE, files) && Elements(files) <= Elements(expected) <==>
      Orders.SortedBy(Orders.TEXT_LE, files) && Distinct(files) && forall f | f in files :: f in expected
  {
    Orders.TextIsTotalOrder();
    Orders.EqualsSortedSetIff(Orders.TEXT_LE, files);
    forall f | f in files ensures f in Elements(files) {
    }
  }

  /** The gate on the records themselves: two or four of them, each admissible, no shard and no file twice,
      and every expected file in one of them. */
  lemma AcceptedExact(records: seq<Record>, expected: seq<string>, commit: string, total: int)
    ensures Accepted(records, expected, commit, total) <==>
      && (total == 2 || total == 4) && |records| == total
      && (forall i | 0 <= i < |records| :: MayBeAdmitted(records[i], expected, commit, total))
      && (forall i, j | 0 <= i < j < |records| :: CoordinateOf(records[i]) != CoordinateOf(records[j]))
      && (forall i, j, f | 0 <= i < j < |records| && f in Files(records[i]) :: f !in Files(records[j]))
      && (forall f | f in expected :: exists r | r in records :: f in Files(r))
  {
    forall r | r in records ensures Valid(r, expected, commit, total) <==> MayBeAdmitted(r, expected, commit, total) {
      ValidExact(r, expected, commit, total);
    }
    assert (forall r | r in records :: Valid(r, expected, commit, total)) <==>
           forall i | 0 <= i < |records| :: MayBeAdmitted(records[i], expected, commit, total);
    ApartExact(records);
    if forall i | 0 <= i < |records| :: MayBeAdmitted(records[i], expected, commit, total) {
      UnionExact(records, expected);
      if |records| > 0 {
        assert IsCommit(commit) by {
          assert MayBeAdmitted(records[0], expected, commit, total);
        }
        CommitExact(commit);
      }
    }
  }

  lemma ApartExact(records: seq<Record>)
    ensures Orders.Pairwise(APART, records) <==>
      && (forall i, j | 0 <= i < j < |records| :: CoordinateOf(records[i]) != CoordinateOf(records[j]))
      && (forall i, j, f | 0 <= i < j < |records| && f in Files(records[i]) :: f !in Files(records[j]))
  {
    forall i, j | 0 <= i < j < |records|
      ensures APART(records[i], records[j]) <==>
        (CoordinateOf(records[i]) != CoordinateOf(records[j]) && forall f | f in Files(records[i]) :: f !in Files(records[j]))
    {
      var a, b := Files(records[i]), Files(records[j]);
      assert forall f :: f in Elements(a) <==> f in a;
      assert forall f :: f in Elements(b) <==> f in b;
    }
  }

  lemma UnionExact(records: seq<Record>, expected: seq<string>)
    requires forall i, f | 0 <= i < |records| && f in Files(records[i]) :: f in expected
    ensures FilesOf(records) == Elements(expected) <==> forall f | f in expected :: exists r | r in records :: f in Files(r)
  {
    forall f ensures f in FilesOf(records) <==> exists r | r in records :: f in Files(r) {
      FilesOfExact(records, f);
    }
    assert forall f :: f in Elements(expected) <==> f in expected;
    forall f | f in FilesOf(records) ensures f in Elements(expected) {
      var r :| r in records && f in Files(r);
      var i :| 0 <= i < |records| && records[i] == r;
    }
    if forall f | f in expected :: exists r | r in records :: f in Files(r) {
      assert forall f | f in Elements(expected) :: f in FilesOf(records);
    }
  }

  /** The summary on the records themselves: all files, all shards in order, and the added counts. */
  ghost predicate Summarizes(records: seq<Record>, expected: seq<string>, commit: string, total: int, r: Summary)
    requires |records| == total
  {
    && r.commit == commit && r.files == |Elements(expected)|
    && (total == 2 ==>
          && RanCleanly(records[0], commit) && RanCleanly(records[1], commit)
          && r.shards == ["1/2", "2/2"] && r.passed == PassedBy(records[0]) + PassedBy(records[1])
          && r.omissions == OmittedBy(records[0]) + OmittedBy(records[1]))
    && (total == 4 ==>
          && RanCleanly(records[0], commit) && RanCleanly(records[1], commit)
          && RanCleanly(records[2], commit) && RanCleanly(records[3], commit)
          && r.shards == ["1/4", "2/4", "3/4", "4/4"]
          && r.passed == PassedBy(records[0]) + PassedBy(records[1]) + PassedBy(records[2]) + PassedBy(records[3])
          && r.omissions == OmittedBy(records[0]) + OmittedBy(records[1]) + OmittedBy(records[2]) + OmittedBy(records[3]))
  }

  function PassedBy(record: Record): int
    requires record.Record? && record.coverage.counts.passed.Some?
  {
    record.coverage.counts.passed.value
  }

  function OmittedBy(record: Record): int
    requires record.Record?
  {
    |record.coverage.optionalNotExecuted|
  }

  lemma AcceptedRanCleanly(records: seq<Record>, expected: seq<string>, commit: string, total: int)
    requires Accepted(records, expected, commit, total)
    ensures forall i | 0 <= i < |records| :: RanCleanly(records[i], commit)
  {
    forall i | 0 <= i < |records| ensures RanCleanly(records[i], commit) {
      assert records[i] in records;
    }
  }

  lemma SumOfFour<T>(f: T -> int, s: seq<T>)
    ensures |s| == 2 ==> Orders.SumOf(f, s) == f(s[0]) + f(s[1])
    ensures |s| == 4 ==> Orders.SumOf(f, s) == f(s[0]) + f(s[1]) + f(s[2]) + f(s[3])
  {
    if |s| >= 2 {
      assert s[1..][1..] == s[2..] && s[1..][0] == s[1];
    }
    if |s| == 2 {
      assert s[2..] == [];
    }
    if |s| == 4 {
      assert s[2..][0] == s[2] && s[2..][1..] == s[3..] && s[3..][0] == s[3] && s[3..][1..] == [];
    }
  }

  lemma ShardsInOrder(records: seq<Record>, total: int)
    requires Coordinates(total).Some? && CoordinatesOf(records) == Coordinates(total).value
    ensures Orders.SortedSet(Orders.TEXT_LE, CoordinateList(records)) ==
      if total == 2 then ["1/2", "2/2"] else ["1/4", "2/4", "3/4", "4/4"]
  {
    var list := if total == 2 then ["1/2", "2/2"] else ["1/4", "2/4", "3/4", "4/4"];
    var sorted := Orders.SortedSet(Orders.TEXT_LE, CoordinateList(records));
    Orders.TextIsTotalOrder();
    Orders.SortedSetFacts(Orders.TEXT_LE, CoordinateList(records));
    CoordinateListExact(records);
    forall c ensures c in list <==> c in sorted {
      CoordinatesOfExact(records, c);
      assert c in CoordinateList(records) <==> exists r | r in records :: CoordinateOf(r) == c;
    }
    DigitsInOrder(list);
    Orders.SortedSetIsUnique(Orders.TEXT_LE, list, sorted);
  }

  lemma DigitsInOrder(list: seq<string>)
    requires forall i | 0 <= i < |list| :: list[i] != ""
    requires forall i, j | 0 <= i < j < |list| :: list[i][0] < list[j][0]
    ensures Orders.SortedBy(Orders.TEXT_LE, list) && Distinct(list)
  {
    forall i, j | 0 <= i < j < |list| ensures Orders.TEXT_LE(list[i], list[j]) && list[i] != list[j] {
      assert list[i][0] < list[j][0];
      assert Orders.LexLe(Orders.CHAR_LE, list[i], list[j]);
    }
  }

  lemma SummaryIsExact(records: seq<Record>, expected: seq<string>, commit: string, total: int)
    requires Accepted(records, expected, commit, total) && forall i | 0 <= i < |records| :: RanCleanly(records[i], commit)
    ensures Summarizes(records, expected, commit, total, SummaryOf(records, commit))
  {
    EveryShardIsThere(records, expected, commit, total);
    ShardsInOrder(records, total);
    SumOfFour(Passed, records);
    SumOfFour(Skipped, records);
    forall i | 0 <= i < |records| ensures Passed(records[i]) == PassedBy(records[i]) && Skipped(records[i]) == OmittedBy(records[i]) {
      assert RanCleanly(records[i], commit);
    }
  }

  method Verify(records: seq<Record>, expected: seq<string>, commit: string, total: int) returns (r: Option<Summary>)
    ensures r.Some? <==> Accepted(records, expected, commit, total)
    ensures r.Some? ==> r.value == SummaryOf(records, commit)
    ensures r.Some? ==> forall i | 0 <= i < |records| :: RanCleanly(records[i], commit)
    ensures r.Some? ==> Summarizes(records, expected, commit, total, r.value)
  {
    var required := Coordinates(total);
    if required.None? || |records| != total || !ValidCommit(commit) {
      return None;
    }
    var ok, seen, executed := Scan(records, expected, commit, total);
    if !ok {
      return None;
    }
    EveryShardIsThere(records, expected, commit, total);
    if seen != required.value || executed != Elements(expected) {
      return None;
    }
    AcceptedRanCleanly(records, expected, commit, total);
    SummaryIsExact(records, expected, commit, total);
    return Some(SummaryOf(records, commit));
  }

  lemma NotApart(records: seq<Record>, i: nat)
    requires i < |records|
    requires CoordinateOf(records[i]) in CoordinatesOf(records[..i]) || Elements(Files(records[i])) * FilesOf(records[..i]) != {}
    ensures !Orders.Pairwise(APART, records)
  {
    var front := records[..i];
    if CoordinateOf(records[i]) in CoordinatesOf(front) {
      CoordinatesOfExact(front, CoordinateOf(records[i]));
      var r :| r in front && CoordinateOf(r) == CoordinateOf(records[i]);
      var j :| 0 <= j < i && records[j] == r;
      assert !APART(records[j], records[i]);
    } else {
      var f :| f in Elements(Files(records[i])) * FilesOf(front);
      FilesOfExact(front, f);
      var r :| r in front && f in Files(r);
      var j :| 0 <= j < i && records[j] == r;
      assert f in Elements(Files(records[j]));
      assert !APART(records[j], records[i]);
    }
  }

  lemma AllApart(front: seq<Record>, last: Record)
    requires Orders.Pairwise(APART, front)
    requires CoordinateOf(last) !in CoordinatesOf(front) && Elements(Files(last)) * FilesOf(front) == {}
    ensures Orders.Pairwise(APART, front + [last])
  {
    forall r | r in front ensures APART(r, last) {
      ApartFrom(front, last, r);
    }
    Orders.PairwiseSnoc(APART, front, last);
  }

  lemma ApartFrom(front: seq<Record>, last: Record, r: Record)
    requires r in front
    requires CoordinateOf(last) !in CoordinatesOf(front) && Elements(Files(last)) * FilesOf(front) == {}
    ensures Apart(r, last)
  {
    CoordinatesOfExact(front, CoordinateOf(last));
    var mine, others := Elements(Files(r)), Elements(Files(last));
    forall f | f in mine ensures f !in others {
      FilesOfExact(front, f);
      assert f in FilesOf(front);
      assert f !in others * FilesOf(front);
    }
  }

  function SummaryOf(records: seq<Record>, commit: string): Summary {
    Summary(commit, |FilesOf(records)|, Orders.SortedSet(Orders.TEXT_LE, CoordinateList(records)),
            Orders.SumOf(Passed, records), Orders.SumOf(Skipped, records))
  }

  function CoordinateList(records: seq<Record>): seq<string> {
    seq(|records|, i requires 0 <= i < |records| => CoordinateOf(records[i]))
  }

  /** The verdict and the totals do not depend on the order of the records. */
  lemma OrderDoesNotMatter(a: seq<Record>, b: seq<Record>, expected: seq<string>, commit: string, total: int)
    requires multiset(a) == multiset(b)
    ensures Accepted(a, expected, commit, total) <==> Accepted(b, expected, commit, total)
    ensures SummaryOf(a, commit) == SummaryOf(b, commit)
  {
    assert |multiset(a)| == |multiset(b)|;
    SameElements(a, b);
    if Orders.Pairwise(APART, a) {
      Orders.PairwiseOfPermutation(APART, a, b);
    }
    if Orders.Pairwise(APART, b) {
      Orders.PairwiseOfPermutation(APART, b, a);
    }
    Orders.SumOfPermutation(Passed, a, b);
    Orders.SumOfPermutation(Skipped, a, b);
  }

  lemma SameElements(a: seq<Record>, b: seq<Record>)
    requires multiset(a) == multiset(b)
    ensures forall r :: r in a <==> r in b
    ensures FilesOf(a) == FilesOf(b)
    ensures Orders.SortedSet(Orders.TEXT_LE, CoordinateList(a)) == Orders.SortedSet(Orders.TEXT_LE, CoordinateList(b))
  {
    forall r ensures r in a <==> r in b {
      assert r in a <==> r in multiset(a);
      assert r in b <==> r in multiset(b);
    }
    forall f ensures f in FilesOf(a) <==> f in FilesOf(b) {
      FilesOfExact(a, f);
      FilesOfExact(b, f);
    }
    SameCoordinates(a, b);
  }

  lemma SameCoordinates(a: seq<Record>, b: seq<Record>)
    requires forall r :: r in a <==> r in b
    ensures Orders.SortedSet(Orders.TEXT_LE, CoordinateList(a)) == Orders.SortedSet(Orders.TEXT_LE, CoordinateList(b))
  {
    var x, y := CoordinateList(a), CoordinateList(b);
    CoordinateListExact(a);
    CoordinateListExact(b);
    forall c ensures c in x <==> c in y {
      assert c in x <==> exists r | r in a :: CoordinateOf(r) == c;
      assert c in y <==> exists r | r in b :: CoordinateOf(r) == c;
    }
    Orders.TextIsTotalOrder();
    Orders.SortedSetFacts(Orders.TEXT_LE, x);
    Orders.SortedSetFacts(Orders.TEXT_LE, y);
    Orders.SortedSetIsUnique(Orders.TEXT_LE, Orders.SortedSet(Orders.TEXT_LE, x), Orders.SortedSet(Orders.TEXT_LE, y));
  }

  lemma CoordinateListExact(records: seq<Record>)
    ensures forall c :: c in CoordinateList(records) <==> exists r | r in records :: CoordinateOf(r) == c
  {
    forall c ensures c in CoordinateList(records) <==> exists r | r in records :: CoordinateOf(r) == c {
      if r :| r in records && CoordinateOf(r) == c {
        var i :| 0 <= i < |records| && records[i] == r;
        assert CoordinateList(records)[i] == c;
      }
    }
  }
}
