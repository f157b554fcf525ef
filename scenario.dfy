/**
 * The sample tree of `create_test_environment`: four files in `test_dir` and
 * one in `test_dir/subdir`, with the sizes their contents give them.
 */
module Scenario {
  import opened DirWalk
  import FileUtils
  import LargeFiles
  import Permissions

  /** `chmod 777` on a regular file. */
  const ScriptMode: nat := 0x81FF   // 0o100777
  /** A regular file created with the default umask. */
  const DefaultMode: nat := 0x81A4  // 0o100644

  function File(name: string, size: nat, mode: nat, executable: bool): FileInfo
  {
    FileInfo(name, Some(Stat(size, mode)), executable)
  }

  const TopLevel: DirListing := DirListing("test_dir", [
    File("text1.txt", 1300000, DefaultMode, false),
    File("image1.jpg", 5242880, DefaultMode, false),
    File("script.sh", 110012, ScriptMode, true),
    File("bigfile.zip", 157286400, DefaultMode, false)
  ])

  const Nested: DirListing := DirListing("test_dir/subdir", [
    File("nested.py", 800000, DefaultMode, false)
  ])

  /** The walk in which `os.walk` lists the top directory first. */
  const TestWalk: seq<DirListing> := [TopLevel, Nested]

  const TextEntry: Entry := Entry("test_dir/text1.txt", TopLevel.files[0])
  const ImageEntry: Entry := Entry("test_dir/image1.jpg", TopLevel.files[1])
  const ScriptEntry: Entry := Entry("test_dir/script.sh", TopLevel.files[2])
  const ArchiveEntry: Entry := Entry("test_dir/bigfile.zip", TopLevel.files[3])
  const NestedEntry: Entry := Entry("test_dir/subdir/nested.py", Nested.files[0])

  /** The scan visits the top directory's files in listing order, then the nested file. */
  lemma TestWalkEntries()
    ensures Flatten(TestWalk) == [TextEntry] + [ImageEntry] + [ScriptEntry] + [ArchiveEntry] + [NestedEntry]
  {
    FlattenStep(TestWalk, 0);
    FlattenStep(TestWalk, 1);
    assert TestWalk[..2] == TestWalk;
    assert TestWalk[..0] == [];
    assert JoinPath("test_dir", "text1.txt") == "test_dir/text1.txt";
    assert JoinPath("test_dir", "image1.jpg") == "test_dir/image1.jpg";
    assert JoinPath("test_dir", "script.sh") == "test_dir/script.sh";
    assert JoinPath("test_dir", "bigfile.zip") == "test_dir/bigfile.zip";
    assert JoinPath("test_dir/subdir", "nested.py") == "test_dir/subdir/nested.py";
    assert Entries(TopLevel) == [TextEntry, ImageEntry, ScriptEntry, ArchiveEntry];
    assert Entries(Nested) == [NestedEntry];
  }

  /** What the size scan reports for one entry. */
  function LargePick(e: Entry, limit: int): seq<LargeFiles.Report>
  {
    if LargeFiles.IsLarge(e, limit) then [LargeFiles.ReportOf(e)] else []
  }

  lemma LargeOfFive(e0: Entry, e1: Entry, e2: Entry, e3: Entry, e4: Entry, limit: int)
    ensures LargeFiles.LargeEntries([e0] + [e1] + [e2] + [e3] + [e4], limit) ==
      LargePick(e0, limit) + LargePick(e1, limit) + LargePick(e2, limit) +
      LargePick(e3, limit) + LargePick(e4, limit)
  {
    LargeFiles.LargeEntriesStep([], e0, limit);
    LargeFiles.LargeEntriesStep([e0], e1, limit);
    LargeFiles.LargeEntriesStep([e0] + [e1], e2, limit);
    LargeFiles.LargeEntriesStep([e0] + [e1] + [e2], e3, limit);
    LargeFiles.LargeEntriesStep([e0] + [e1] + [e2] + [e3], e4, limit);
  }

  /**
   * With a 1 MB threshold the 1.3 MB text file, the 5 MB image and the 150 MB
   * archive are reported, in traversal order; the 800 KB nested file is not.
   */
  lemma OneMegabyteScan()
    ensures LargeFiles.LargeEntries(Flatten(TestWalk), LargeFiles.ThresholdBytes(1)) == [
      ("test_dir/text1.txt", 1300000),
      ("test_dir/image1.jpg", 5242880),
      ("test_dir/bigfile.zip", 157286400)
    ]
  {
    TestWalkEntries();
    LargeOfFive(TextEntry, ImageEntry, ScriptEntry, ArchiveEntry, NestedEntry,
      LargeFiles.ThresholdBytes(1));
  }

  /** What the permission scan reports for one entry. */
  function WritablePick(e: Entry): seq<string>
  {
    if Permissions.IsReported(e) then [e.path] else []
  }

  lemma WritableOfFive(e0: Entry, e1: Entry, e2: Entry, e3: Entry, e4: Entry)
    ensures Permissions.WritablePaths([e0] + [e1] + [e2] + [e3] + [e4]) ==
      WritablePick(e0) + WritablePick(e1) + WritablePick(e2) + WritablePick(e3) + WritablePick(e4)
  {
    Permissions.WritablePathsStep([], e0);
    Permissions.WritablePathsStep([e0], e1);
    Permissions.WritablePathsStep([e0] + [e1], e2);
    Permissions.WritablePathsStep([e0] + [e1] + [e2], e3);
    Permissions.WritablePathsStep([e0] + [e1] + [e2] + [e3], e4);
  }

  /** Only the script made `chmod 777` is reported as world-writable. */
  lemma WorldWritableScan()
    ensures Permissions.WritablePaths(Flatten(TestWalk)) == ["test_dir/script.sh"]
  {
    TestWalkEntries();
    Permissions.PermissionExamples();
    WritableOfFive(TextEntry, ImageEntry, ScriptEntry, ArchiveEntry, NestedEntry);
  }

  /** The categories of the five sample files, by suffix. */
  lemma TextCategory()
    ensures FileUtils.Categorize("text1.txt", false) == FileUtils.Text
  {
    assert FileUtils.LastIndexOf("text1.txt", '.') == 5;
    assert FileUtils.Extension("text1.txt") == ".txt";
    assert FileUtils.CategoryExtensions[0].1[0] == ".txt";
    FileUtils.ClassifyFirstListing(FileUtils.CategoryExtensions, ".txt", false, 0);
  }

  lemma CodeCategory()
    ensures FileUtils.Categorize("nested.py", false) == FileUtils.Code
  {
    assert FileUtils.LastIndexOf("nested.py", '.') == 6;
    assert FileUtils.Extension("nested.py") == ".py";
    assert FileUtils.CategoryExtensions[1].1[0] == ".py";
    assert !FileUtils.ListedAt(FileUtils.CategoryExtensions, ".py", 0);
    FileUtils.ClassifyFirstListing(FileUtils.CategoryExtensions, ".py", false, 1);
  }

  lemma ImageCategory()
    ensures FileUtils.Categorize("image1.jpg", false) == FileUtils.Image
  {
    assert FileUtils.LastIndexOf("image1.jpg", '.') == 6;
    assert FileUtils.Extension("image1.jpg") == ".jpg";
    assert FileUtils.CategoryExtensions[2].1[0] == ".jpg";
    forall j | 0 <= j < 2 ensures !FileUtils.ListedAt(FileUtils.CategoryExtensions, ".jpg", j) {
      if j == 0 {} else {}
    }
    FileUtils.ClassifyFirstListing(FileUtils.CategoryExtensions, ".jpg", false, 2);
  }

  lemma ArchiveCategory()
    ensures FileUtils.Categorize("bigfile.zip", false) == FileUtils.Archive
  {
    assert FileUtils.LastIndexOf("bigfile.zip", '.') == 7;
    assert FileUtils.Extension("bigfile.zip") == ".zip";
    assert FileUtils.CategoryExtensions[5].1[0] == ".zip";
    forall j | 0 <= j < 5 ensures !FileUtils.ListedAt(FileUtils.CategoryExtensions, ".zip", j) {
      if j == 0 {} else if j == 1 {} else if j == 2 {} else if j == 3 {} else {}
    }
    FileUtils.ClassifyFirstListing(FileUtils.CategoryExtensions, ".zip", false, 5);
  }

  /** `.sh` is listed under `Executable` itself, so the file's execute permission is not what decides. */
  lemma ScriptCategory(executable: bool)
    ensures FileUtils.Categorize("script.sh", executable) == FileUtils.Executable
  {
    assert FileUtils.LastIndexOf("script.sh", '.') == 6;
    assert FileUtils.Extension("script.sh") == ".sh";
    assert FileUtils.CategoryExtensions[7].1[2] == ".sh";
    forall j | 0 <= j < 7 ensures !FileUtils.ListedAt(FileUtils.CategoryExtensions, ".sh", j) {
      if j == 0 {} else if j == 1 {} else if j == 2 {} else if j == 3 {} else if j == 4 {} else if j == 5 {} else {}
    }
    FileUtils.ClassifyFirstListing(FileUtils.CategoryExtensions, ".sh", executable, 7);
  }

  /** What the scan learns about each sample file, in traversal order. */
  const SampleVisits: seq<FileUtils.Visit> := [
    FileUtils.Visit(FileUtils.Text, Some(1300000)),
    FileUtils.Visit(FileUtils.Image, Some(5242880)),
    FileUtils.Visit(FileUtils.Executable, Some(110012)),
    FileUtils.Visit(FileUtils.Archive, Some(157286400)),
    FileUtils.Visit(FileUtils.Code, Some(800000))
  ]

  lemma VisitOfEach()
    ensures FileUtils.VisitOf(TextEntry) == SampleVisits[0]
    ensures FileUtils.VisitOf(ImageEntry) == SampleVisits[1]
    ensures FileUtils.VisitOf(ScriptEntry) == SampleVisits[2]
    ensures FileUtils.VisitOf(ArchiveEntry) == SampleVisits[3]
    ensures FileUtils.VisitOf(NestedEntry) == SampleVisits[4]
  {
    TextCategory();
    ImageCategory();
    ScriptCategory(true);
    ArchiveCategory();
    CodeCategory();
  }

  const ExpectedSummary: map<FileUtils.Category, FileUtils.Tally> := map[
    FileUtils.Text := FileUtils.Tally(1, 1300000),
    FileUtils.Image := FileUtils.Tally(1, 5242880),
    FileUtils.Executable := FileUtils.Tally(1, 110012),
    FileUtils.Archive := FileUtils.Tally(1, 157286400),
    FileUtils.Code := FileUtils.Tally(1, 800000)
  ]

  lemma SummaryOfSampleVisits()
    ensures FileUtils.Summarizes(ExpectedSummary, SampleVisits)
  {
    var vs := SampleVisits;
    var s0: map<FileUtils.Category, FileUtils.Tally> := map[];
    assert vs[..0] == [];
    FileUtils.SummarizesStep(s0, vs[..0], vs[0]);
    assert vs[..0] + [vs[0]] == vs[..1];
    var s1 := s0[FileUtils.Text := FileUtils.Tally(1, 1300000)];
    FileUtils.SummarizesStep(s1, vs[..1], vs[1]);
    assert vs[..1] + [vs[1]] == vs[..2];
    var s2 := s1[FileUtils.Image := FileUtils.Tally(1, 5242880)];
    FileUtils.SummarizesStep(s2, vs[..2], vs[2]);
    assert vs[..2] + [vs[2]] == vs[..3];
    var s3 := s2[FileUtils.Executable := FileUtils.Tally(1, 110012)];
    FileUtils.SummarizesStep(s3, vs[..3], vs[3]);
    assert vs[..3] + [vs[3]] == vs[..4];
    var s4 := s3[FileUtils.Archive := FileUtils.Tally(1, 157286400)];
    FileUtils.SummarizesStep(s4, vs[..4], vs[4]);
    assert vs[..4] + [vs[4]] == vs;
    assert s4[FileUtils.Code := FileUtils.Tally(1, 800000)] == ExpectedSummary;
  }

  lemma FiveVisits(e0: Entry, e1: Entry, e2: Entry, e3: Entry, e4: Entry, vs: seq<FileUtils.Visit>)
    requires |vs| == 5
    requires FileUtils.VisitOf(e0) == vs[0] && FileUtils.VisitOf(e1) == vs[1]
    requires FileUtils.VisitOf(e2) == vs[2] && FileUtils.VisitOf(e3) == vs[3]
    requires FileUtils.VisitOf(e4) == vs[4]
    ensures FileUtils.Visits([e0] + [e1] + [e2] + [e3] + [e4]) == vs
  {
  }

  lemma SampleScanVisits()
    ensures FileUtils.Visits(Flatten(TestWalk)) == SampleVisits
  {
    TestWalkEntries();
    VisitOfEach();
    FiveVisits(TextEntry, ImageEntry, ScriptEntry, ArchiveEntry, NestedEntry,
      SampleVisits);
  }

  /**
   * One file in each of Text, Image, Executable, Archive and Code, each with
   * its own size; since the visits determine the summary, this is the summary
   * the scan of the sample tree returns.
   */
  lemma FileTypeScan()
    ensures FileUtils.Summarizes(ExpectedSummary, FileUtils.Visits(Flatten(TestWalk)))
  {
    SampleScanVisits();
    SummaryOfSampleVisits();
  }
}
