/**
 * `find_large_files`: the files of a walk whose size is strictly above a
 * threshold given in binary megabytes, reported as `(path, size)` pairs in
 * traversal order.
 */
module LargeFiles {
  import opened DirWalk

  /** One reported pair `(str(file_path), size_in_bytes)`. */
  type Report = (string, nat)

  /** `threshold_mb * 1024 * 1024`: binary megabytes, any sign. */
  function ThresholdBytes(thresholdMb: int): int
  {
    thresholdMb * 1024 * 1024
  }

  /** The entry's `stat()` succeeds and its size is strictly above `limit`. */
  predicate IsLarge(e: Entry, limit: int)
  {
    e.file.stat.Some? && e.file.stat.value.size > limit
  }

  function ReportOf(e: Entry): Report
    requires e.file.stat.Some?
  {
    (e.path, e.file.stat.value.size)
  }

  /** The pairs the scan reports for the visited entries `es`, in order. */
  function LargeEntries(es: seq<Entry>, limit: int): (r: seq<Report>)
    ensures |r| <= |es|
    ensures forall k :: 0 <= k < |r| ==> r[k].1 > limit
  {
    if es == [] then []
    else
      var last := es[|es| - 1];
      LargeEntries(es[..|es| - 1], limit) + (if IsLarge(last, limit) then [ReportOf(last)] else [])
  }

  lemma LargeEntriesStep(es: seq<Entry>, e: Entry, limit: int)
    ensures LargeEntries(es + [e], limit) ==
      LargeEntries(es, limit) + (if IsLarge(e, limit) then [ReportOf(e)] else [])
  {
    assert (es + [e])[..|es|] == es;
  }

  /**
   * The scan over a walk: the nested loops over listings and their file
   * names; a file whose `stat()` raises is skipped and the scan goes on.
   */
  method FindLargeFiles(walk: seq<DirListing>, thresholdMb: int) returns (large: seq<Report>)
    ensures large == LargeEntries(Flatten(walk), ThresholdBytes(thresholdMb))
    ensures forall k :: 0 <= k < |large| ==> large[k].1 > ThresholdBytes(thresholdMb)
  {
    var limit := ThresholdBytes(thresholdMb);
    large := [];
    ghost var visited: seq<Entry> := [];
    var i := 0;
    while i < |walk|
      invariant i <= |walk|
      invariant visited == Flatten(walk[..i])
      invariant large == LargeEntries(visited, limit)
    {
      var dir := walk[i];
      var j := 0;
      assert Entries(dir)[..0] == [];
      while j < |dir.files|
        invariant j <= |dir.files|
        invariant visited == Flatten(walk[..i]) + Entries(dir)[..j]
        invariant large == LargeEntries(visited, limit)
      {
        var f := dir.files[j];
        var path := JoinPath(dir.dirpath, f.name);
        if f.stat.Some? {
          var size := f.stat.value.size;
          if size > limit {
            large := large + [(path, size)];
          }
        }
        LargeEntriesStep(visited, Entry(path, f), limit);
        EntriesStep(dir, j);
        visited := visited + [Entry(path, f)];
        j := j + 1;
      }
      FlattenStep(walk, i);
      assert Entries(dir)[..j] == Entries(dir);
      i := i + 1;
    }
    assert walk[..i] == walk;
  }

  /**
   * The report is exactly the large entries, in traversal order, one pair per
   * entry: `idx` picks, strictly increasing, the positions of the reported
   * entries, every large entry's position is picked, and each pair carries its
   * entry's path and size.
   */
  lemma {:induction false} LargeSelection(es: seq<Entry>, limit: int) returns (idx: seq<nat>)
    ensures |idx| == |LargeEntries(es, limit)|
    ensures forall k :: 0 <= k < |idx| ==>
      idx[k] < |es| && IsLarge(es[idx[k]], limit) && LargeEntries(es, limit)[k] == ReportOf(es[idx[k]])
    ensures forall k, l :: 0 <= k < l < |idx| ==> idx[k] < idx[l]
    ensures forall i :: 0 <= i < |es| && IsLarge(es[i], limit) ==> i in idx
  {
    if es == [] {
      idx := [];
    } else {
      var init := es[..|es| - 1];
      var prev := LargeSelection(init, limit);
      assert forall i :: 0 <= i < |init| ==> init[i] == es[i];
      if IsLarge(es[|es| - 1], limit) {
        idx := prev + [|es| - 1];
      } else {
        idx := prev;
      }
    }
  }

  /** Reporting distributes over concatenation of the visited entries. */
  lemma {:induction false} LargeEntriesAppend(a: seq<Entry>, b: seq<Entry>, limit: int)
    ensures LargeEntries(a + b, limit) == LargeEntries(a, limit) + LargeEntries(b, limit)
  {
    if b == [] {
      assert a + b == a;
    } else {
      var init := b[..|b| - 1];
      LargeEntriesAppend(a, init, limit);
      assert (a + b)[..|a + b| - 1] == a + init;
    }
  }

  /** A file whose `stat()` fails is skipped and the files around it are reported as before. */
  lemma FailedStatSkipped(before: seq<Entry>, bad: Entry, after: seq<Entry>, limit: int)
    requires bad.file.stat.None?
    ensures LargeEntries(before + [bad] + after, limit) == LargeEntries(before + after, limit)
  {
    LargeEntriesAppend(before + [bad], after, limit);
    LargeEntriesAppend(before, [bad], limit);
    LargeEntriesAppend(before, after, limit);
    assert [bad][..0] == [];
  }

  /** The comparison is strict: a file of exactly the threshold is left out, one byte more is reported. */
  lemma ThresholdIsStrict(path: string, name: string, executable: bool, mode: nat, thresholdMb: int)
    requires thresholdMb >= 0
    ensures
      var size := thresholdMb * 1048576;
      var atLimit := Entry(path, FileInfo(name, Some(Stat(size, mode)), executable));
      var above := Entry(path, FileInfo(name, Some(Stat(size + 1, mode)), executable));
      LargeEntries([atLimit], ThresholdBytes(thresholdMb)) == [] &&
      LargeEntries([above], ThresholdBytes(thresholdMb)) == [(path, size + 1)]
  {
    var size := thresholdMb * 1048576;
    var atLimit := Entry(path, FileInfo(name, Some(Stat(size, mode)), executable));
    var above := Entry(path, FileInfo(name, Some(Stat(size + 1, mode)), executable));
    LargeEntriesStep([], atLimit, ThresholdBytes(thresholdMb));
    LargeEntriesStep([], above, ThresholdBytes(thresholdMb));
  }

  /** Threshold 0 reports exactly the non-empty files whose `stat()` succeeds. */
  lemma ZeroThresholdReportsNonEmptyFiles(es: seq<Entry>)
    ensures forall r :: r in LargeEntries(es, ThresholdBytes(0)) ==> r.1 > 0
    ensures forall i :: 0 <= i < |es| && es[i].file.stat.Some? && es[i].file.stat.value.size > 0 ==>
      ReportOf(es[i]) in LargeEntries(es, ThresholdBytes(0))
  {
    var idx := LargeSelection(es, 0);
    forall i | 0 <= i < |es| && es[i].file.stat.Some? && es[i].file.stat.value.size > 0
      ensures ReportOf(es[i]) in LargeEntries(es, ThresholdBytes(0))
    {
      assert IsLarge(es[i], 0);
      var k :| 0 <= k < |idx| && idx[k] == i;
    }
  }

  /** The files whose `stat()` succeeds, whatever their size. */
  function Statable(es: seq<Entry>): (r: seq<Report>)
    ensures |r| <= |es|
  {
    if es == [] then []
    else
      var last := es[|es| - 1];
      Statable(es[..|es| - 1]) + (if last.file.stat.Some? then [ReportOf(last)] else [])
  }

  /** A negative threshold reports every file whose `stat()` succeeds. */
  lemma {:induction false} NegativeThresholdReportsAll(es: seq<Entry>, thresholdMb: int)
    requires thresholdMb < 0
    ensures LargeEntries(es, ThresholdBytes(thresholdMb)) == Statable(es)
  {
    if es != [] {
      NegativeThresholdReportsAll(es[..|es| - 1], thresholdMb);
    }
  }

  /** Scanning an empty walk reports nothing. */
  lemma EmptyWalkReportsNothing(thresholdMb: int)
    ensures LargeEntries(Flatten([]), ThresholdBytes(thresholdMb)) == []
  {
  }
}
