/**
 * `find_world_writable_files`: the paths of the files of a walk whose
 * permission bits let any user write them (the bit `stat.S_IWOTH`, 0o002).
 */
module Permissions {
  import opened DirWalk

  /** `stat.S_IWOTH`: write permission for others, octal 0o002. */
  const S_IWOTH: nat := 2

  /** Bit `k` of `x`, counting from the least significant bit. */
  predicate Bit(x: nat, k: nat)
  {
    if k == 0 then x % 2 == 1 else Bit(x / 2, k - 1)
  }

  /** Python's `&` on non-negative integers, one bit at a time. */
  function BitAnd(a: nat, b: nat): (r: nat)
    ensures r <= a && r <= b
  {
    if a == 0 || b == 0 then 0
    else 2 * BitAnd(a / 2, b / 2) + (if a % 2 == 1 && b % 2 == 1 then 1 else 0)
  }

  lemma {:induction false} ZeroHasNoBits(k: nat)
    ensures !Bit(0, k)
  {
    if k > 0 {
      ZeroHasNoBits(k - 1);
    }
  }

  /** `BitAnd` is the bitwise conjunction: each bit of the result is set iff it is set in both. */
  lemma {:induction false} BitAndBits(a: nat, b: nat, k: nat)
    ensures Bit(BitAnd(a, b), k) <==> Bit(a, k) && Bit(b, k)
  {
    if a == 0 || b == 0 {
      ZeroHasNoBits(k);
    } else if k > 0 {
      BitAndBits(a / 2, b / 2, k - 1);
      assert BitAnd(a, b) / 2 == BitAnd(a / 2, b / 2);
    }
  }

  /** The test `mode & stat.S_IWOTH` of the scan, as a truth value. */
  predicate IsWorldWritable(mode: nat)
  {
    BitAnd(mode, S_IWOTH) != 0
  }

  /** `mode & stat.S_IWOTH` keeps bit 1 of the mode and clears every other bit. */
  lemma MaskKeepsOthersWriteBit(mode: nat)
    ensures BitAnd(mode, S_IWOTH) == 2 * ((mode / 2) % 2)
  {
    if mode != 0 {
      assert BitAnd(mode, S_IWOTH) == 2 * BitAnd(mode / 2, 1);
      if mode / 2 != 0 {
        assert BitAnd(mode / 2, 1) == 2 * BitAnd(mode / 4, 0) + (mode / 2) % 2;
      }
    }
  }

  /** Only the others-write bit (bit 1) of the mode decides; every other bit is irrelevant. */
  lemma WorldWritableIsOthersWriteBit(mode: nat)
    ensures IsWorldWritable(mode) <==> Bit(mode, 1)
  {
    MaskKeepsOthersWriteBit(mode);
  }

  /** Two modes that agree on the others-write bit are treated alike, whatever their other bits. */
  lemma OtherBitsIrrelevant(mode1: nat, mode2: nat)
    requires Bit(mode1, 1) == Bit(mode2, 1)
    ensures IsWorldWritable(mode1) == IsWorldWritable(mode2)
  {
    WorldWritableIsOthersWriteBit(mode1);
    WorldWritableIsOthersWriteBit(mode2);
  }

  /** `chmod 777` makes a file world-writable, `chmod 775` does not; the file-type bits do not matter. */
  lemma PermissionExamples()
    ensures IsWorldWritable(0x1FF)      // 0o777
    ensures !IsWorldWritable(0x1FD)     // 0o775
    ensures IsWorldWritable(0x81FF)     // 0o100777, a regular file with mode 777
    ensures !IsWorldWritable(0x81A4)    // 0o100644
  {
    MaskKeepsOthersWriteBit(0x1FF);
    MaskKeepsOthersWriteBit(0x1FD);
    MaskKeepsOthersWriteBit(0x81FF);
    MaskKeepsOthersWriteBit(0x81A4);
  }

  /** The entry's `stat()` succeeds and its mode has the others-write bit. */
  predicate IsReported(e: Entry)
  {
    e.file.stat.Some? && IsWorldWritable(e.file.stat.value.mode)
  }

  /** The paths the scan reports for the visited entries `es`, in order. */
  function WritablePaths(es: seq<Entry>): (r: seq<string>)
    ensures |r| <= |es|
  {
    if es == [] then []
    else
      var last := es[|es| - 1];
      WritablePaths(es[..|es| - 1]) + (if IsReported(last) then [last.path] else [])
  }

  lemma WritablePathsStep(es: seq<Entry>, e: Entry)
    ensures WritablePaths(es + [e]) == WritablePaths(es) + (if IsReported(e) then [e.path] else [])
  {
    assert (es + [e])[..|es|] == es;
  }

  /**
   * The scan over a walk: the nested loops over listings and their file
   * names; a file whose `stat()` raises is skipped and the scan goes on.
   */
  method FindWorldWritableFiles(walk: seq<DirListing>) returns (result: seq<string>)
    ensures result == WritablePaths(Flatten(walk))
  {
    result := [];
    ghost var visited: seq<Entry> := [];
    var i := 0;
    while i < |walk|
      invariant i <= |walk|
      invariant visited == Flatten(walk[..i])
      invariant result == WritablePaths(visited)
    {
      var dir := walk[i];
      var j := 0;
      assert Entries(dir)[..0] == [];
      while j < |dir.files|
        invariant j <= |dir.files|
        invariant visited == Flatten(walk[..i]) + Entries(dir)[..j]
        invariant result == WritablePaths(visited)
      {
        var f := dir.files[j];
        var path := JoinPath(dir.dirpath, f.name);
        if f.stat.Some? {
          var mode := f.stat.value.mode;
          if BitAnd(mode, S_IWOTH) != 0 {
            result := result + [path];
          }
        }
        WritablePathsStep(visited, Entry(path, f));
        EntriesStep(dir, j);
        visited := visited + [Entry(path, f)];
        j := j + 1;
      }
      FlattenStep(walk, i);
      assert Entries(dir)[..j] == Entries(dir);
      i := i + 1;
    }
    assert walk[..i] == walk;
  }

  /**
   * The report is exactly the world-writable entries, in traversal order, one
   * path per entry: `idx` picks, strictly increasing, the positions of the
   * reported entries, and every reported entry's position is picked.
   */
  lemma {:induction false} WritableSelection(es: seq<Entry>) returns (idx: seq<nat>)
    ensures |idx| == |WritablePaths(es)|
    ensures forall k :: 0 <= k < |idx| ==>
      idx[k] < |es| && IsReported(es[idx[k]]) && WritablePaths(es)[k] == es[idx[k]].path
    ensures forall k, l :: 0 <= k < l < |idx| ==> idx[k] < idx[l]
    ensures forall i :: 0 <= i < |es| && IsReported(es[i]) ==> i in idx
  {
    if es == [] {
      idx := [];
    } else {
      var init := es[..|es| - 1];
      var prev := WritableSelection(init);
      assert forall i :: 0 <= i < |init| ==> init[i] == es[i];
      if IsReported(es[|es| - 1]) {
        idx := prev + [|es| - 1];
      } else {
        idx := prev;
      }
    }
  }

  /** Reporting distributes over concatenation of the visited entries. */
  lemma {:induction false} WritablePathsAppend(a: seq<Entry>, b: seq<Entry>)
    ensures WritablePaths(a + b) == WritablePaths(a) + WritablePaths(b)
  {
    if b == [] {
      assert a + b == a;
    } else {
      var init := b[..|b| - 1];
      WritablePathsAppend(a, init);
      assert (a + b)[..|a + b| - 1] == a + init;
    }
  }

  /** A file whose `stat()` fails is skipped and the files around it are reported as before. */
  lemma FailedStatSkipped(before: seq<Entry>, bad: Entry, after: seq<Entry>)
    requires bad.file.stat.None?
    ensures WritablePaths(before + [bad] + after) == WritablePaths(before + after)
  {
    WritablePathsAppend(before + [bad], after);
    WritablePathsAppend(before, [bad]);
    WritablePathsAppend(before, after);
    assert [bad][..0] == [];
  }

  /** Scanning an empty walk reports nothing. */
  lemma EmptyWalkReportsNothing()
    ensures WritablePaths(Flatten([])) == []
  {
  }
}
