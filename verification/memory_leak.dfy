/**
  The memory-growth endpoint: every call appends one block of '*'
  characters to a process-wide list that is never pruned, and reports how
  many blocks it holds and an approximate size of 100 MB per block.
  A block is kept only as its length.
 */
module MemoryLeak {

  /** Characters in one appended block: 100 * 1024 * 1024. */
  const BlockChars: nat := 1024 * 1024 * 100

  /** Megabytes the report charges for each stored block. */
  const BlockMb: nat := 100

  /** One block of `length` '*' characters. */
  datatype Block = Stars(length: nat)

  /** The fields of the endpoint's answer that are computed: `stored_items` and `approximate_size_mb`. */
  datatype Report = Report(storedItems: nat, approximateSizeMb: nat)

  /** The list after one call, and that call's report. */
  datatype LeakStep = LeakStep(storage: seq<Block>, report: Report)

  /** One call: append a fresh block, then report the new count and count × 100 MB. */
  function SimulateMemoryLeak(storage: seq<Block>): (r: LeakStep)
    ensures |r.storage| == |storage| + 1
    ensures r.storage[..|storage|] == storage
    ensures r.storage[|storage|] == Stars(BlockChars)
    ensures r.report.storedItems == |storage| + 1
    ensures r.report.approximateSizeMb == 100 * r.report.storedItems
  {
    var grown := storage + [Stars(BlockChars)];
    LeakStep(grown, Report(|grown|, |grown| * BlockMb))
  }

  /** The list after `n` calls, and the reports of those calls in order. */
  datatype LeakRun = LeakRun(storage: seq<Block>, reports: seq<Report>)

  function Repeat(storage: seq<Block>, n: nat): (r: LeakRun)
    ensures |r.storage| == |storage| + n
    ensures |r.reports| == n
    ensures r.storage[..|storage|] == storage
    ensures forall i :: |storage| <= i < |r.storage| ==> r.storage[i] == Stars(BlockChars)
    decreases n
  {
    if n == 0 then LeakRun(storage, [])
    else
      var first := SimulateMemoryLeak(storage);
      var rest := Repeat(first.storage, n - 1);
      LeakRun(rest.storage, [first.report] + rest.reports)
  }

  /** Characters held by the list. */
  function TotalChars(storage: seq<Block>): (r: nat)
  {
    if |storage| == 0 then 0 else TotalChars(storage[..|storage| - 1]) + storage[|storage| - 1].length
  }

  /**
    `n` calls grow the list by exactly `n` blocks; the i-th call reports
    one more block than the call before it, and a size 100 MB larger.
   */
  lemma {:induction false} RepeatCounts(storage: seq<Block>, n: nat)
    ensures forall i :: 0 <= i < n ==>
              && Repeat(storage, n).reports[i].storedItems == |storage| + i + 1
              && Repeat(storage, n).reports[i].approximateSizeMb == 100 * (|storage| + i + 1)
    decreases n
  {
    if n > 0 {
      var first := SimulateMemoryLeak(storage);
      RepeatCounts(first.storage, n - 1);
      var run := Repeat(storage, n);
      var rest := Repeat(first.storage, n - 1);
      forall i | 0 <= i < n
        ensures run.reports[i].storedItems == |storage| + i + 1
        ensures run.reports[i].approximateSizeMb == 100 * (|storage| + i + 1)
      {
        if i > 0 {
          assert run.reports[i] == rest.reports[i - 1];
        }
      }
    }
  }

  /** Starting empty, the reported sizes of successive calls strictly increase. */
  lemma SizesIncrease(n: nat, i: nat, j: nat)
    requires i < j < n
    ensures Repeat([], n).reports[i].approximateSizeMb < Repeat([], n).reports[j].approximateSizeMb
  {
    RepeatCounts([], n);
  }

  /**
    A list made only of blocks appended by the endpoint holds exactly
    `approximate_size_mb` mebibytes of characters: the estimate is exact.
   */
  lemma {:induction false} ReportedSizeIsExact(storage: seq<Block>)
    requires forall i :: 0 <= i < |storage| ==> storage[i] == Stars(BlockChars)
    ensures TotalChars(SimulateMemoryLeak(storage).storage)
            == SimulateMemoryLeak(storage).report.approximateSizeMb * 1024 * 1024
  {
    FreshBlocksChars(SimulateMemoryLeak(storage).storage);
  }

  lemma {:induction false} FreshBlocksChars(storage: seq<Block>)
    requires forall i :: 0 <= i < |storage| ==> storage[i] == Stars(BlockChars)
    ensures TotalChars(storage) == |storage| * BlockChars
  {
    if |storage| > 0 {
      FreshBlocksChars(storage[..|storage| - 1]);
    }
  }
}
