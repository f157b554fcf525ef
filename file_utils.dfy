/**
 * File categorisation by suffix (`categorize_file`) and the per-category
 * count/size summary of a walk (`analyze_file_types`).
 */
module FileUtils {
  import opened DirWalk

  /** The keys of the category table, plus the fallback `Other`. */
  datatype Category =
    | Text | Code | Image | Audio | Video | Archive | Document
    | Executable | Database | GeoData | Presentation | Spreadsheet | Other

  type Table = seq<(Category, seq<string>)>

  /** `CATEGORY_EXTENSIONS`, in declaration order; the order decides overlaps. */
  const CategoryExtensions: Table := [
    (Text, [".txt", ".log", ".md", ".csv", ".ini", ".cfg"]),
    (Code, [".py", ".js", ".ts", ".java", ".cpp", ".c", ".cs", ".php", ".html", ".css",
            ".json", ".xml", ".yml", ".yaml", ".ipynb"]),
    (Image, [".jpg", ".jpeg", ".png", ".gif", ".bmp", ".tiff", ".webp", ".svg"]),
    (Audio, [".mp3", ".wav", ".aac", ".flac", ".ogg", ".m4a"]),
    (Video, [".mp4", ".avi", ".mkv", ".mov", ".wmv", ".flv", ".webm"]),
    (Archive, [".zip", ".rar", ".tar", ".gz", ".7z", ".bz2", ".xz", ".iso"]),
    (Document, [".pdf", ".doc", ".docx", ".xls", ".xlsx", ".ppt", ".pptx", ".odt", ".ods"]),
    (Executable, [".exe", ".msi", ".sh", ".bin", ".app", ".bat", ".com", ".run"]),
    (Database, [".db", ".sqlite", ".sql", ".mdb", ".accdb"]),
    (GeoData, [".shp", ".shx", ".dbf", ".gml", ".kml", ".kmz", ".gpkg", ".geojson", ".tif",
               ".tiff", ".vrt", ".nc"]),
    (Presentation, [".key", ".odp"]),
    (Spreadsheet, [".csv", ".xls", ".xlsx", ".ods"])
  ]

  // ---------------------------------------------------------------------
  // Suffix extraction and lower-casing
  // ---------------------------------------------------------------------

  /** `str.rfind`: the last position of `c` in `s`, or -1. */
  function LastIndexOf(s: string, c: char): (i: int)
    ensures -1 <= i < |s|
    ensures i == -1 ==> c !in s
    ensures 0 <= i ==> s[i] == c && c !in s[i + 1..]
  {
    if s == [] then -1
    else if s[|s| - 1] == c then |s| - 1
    else
      assert s == s[..|s| - 1] + [s[|s| - 1]];
      LastIndexOf(s[..|s| - 1], c)
  }

  /**
   * `PurePath.suffix` of a file name: from its last dot to the end, unless
   * that dot opens the name or closes it, in which case there is no suffix.
   */
  function Suffix(name: string): string
  {
    var i := LastIndexOf(name, '.');
    if 0 < i < |name| - 1 then name[i..] else ""
  }

  /**
   * A suffix is a dot and at least one more character, ends the name, holds
   * no other dot and is not the whole name; a name has no suffix exactly
   * when its last dot is missing, opens the name or closes it.
   */
  lemma SuffixShape(name: string)
    ensures var ext := Suffix(name);
      ext != [] ==>
        && 2 <= |ext| < |name|
        && ext == name[|name| - |ext|..]
        && ext[0] == '.'
        && '.' !in ext[1..]
    ensures Suffix(name) == [] <==>
      ('.' !in name || (name[0] == '.' && '.' !in name[1..]) || name[|name| - 1] == '.')
  {
    var i := LastIndexOf(name, '.');
    if '.' in name && name[0] == '.' && '.' !in name[1..] {
      assert i == 0;
    }
  }

  /** `str.lower` on one character, for ASCII letters only. */
  function LowerChar(c: char): char
  {
    if 'A' <= c <= 'Z' then (c as int + 32) as char else c
  }

  function Lower(s: string): string
  {
    seq(|s|, k requires 0 <= k < |s| => LowerChar(s[k]))
  }

  /** `path.suffix.lower()`: the key looked up in the table. */
  function Extension(name: string): string
  {
    Lower(Suffix(name))
  }

  // ---------------------------------------------------------------------
  // First-match lookup and categorisation
  // ---------------------------------------------------------------------

  ghost predicate ListedAt(table: Table, ext: string, i: int)
  {
    0 <= i < |table| && ext in table[i].1
  }

  /** Row `i` is the first row listing `ext`. */
  ghost predicate FirstListedAt(table: Table, ext: string, i: int)
  {
    ListedAt(table, ext, i) && forall j :: 0 <= j < i ==> !ListedAt(table, ext, j)
  }

  /**
   * The decision of `categorize_file` once the suffix is known: the loop
   * over the table rows returns the category of the first row listing the
   * suffix; past the last row, `Executable` when the file may be executed
   * and `Other` when not.
   */
  function Classify(table: Table, ext: string, executable: bool): Category
  {
    if table == [] then (if executable then Executable else Other)
    else if ext in table[0].1 then table[0].0
    else Classify(table[1..], ext, executable)
  }

  /** `categorize_file`: classify the lower-cased suffix of the file name. */
  function Categorize(name: string, executable: bool): Category
  {
    Classify(CategoryExtensions, Extension(name), executable)
  }

  /** The first row that lists the suffix decides, and no later one. */
  lemma {:induction false} ClassifyFirstListing(table: Table, ext: string, executable: bool, i: int)
    requires ListedAt(table, ext, i)
    requires forall j :: 0 <= j < i ==> !ListedAt(table, ext, j)
    ensures Classify(table, ext, executable) == table[i].0
  {
    if i > 0 {
      assert !ListedAt(table, ext, 0);
      forall j | 0 <= j < i - 1 ensures !ListedAt(table[1..], ext, j) {
        assert !ListedAt(table, ext, j + 1);
      }
      ClassifyFirstListing(table[1..], ext, executable, i - 1);
    }
  }

  /** A suffix no row lists falls back on the executable flag. */
  lemma {:induction false} ClassifyUnlisted(table: Table, ext: string, executable: bool)
    requires forall i :: !ListedAt(table, ext, i)
    ensures Classify(table, ext, executable) == (if executable then Executable else Other)
  {
    if table != [] {
      assert !ListedAt(table, ext, 0);
      forall j ensures !ListedAt(table[1..], ext, j) {
        assert !ListedAt(table, ext, j + 1);
      }
      ClassifyUnlisted(table[1..], ext, executable);
    }
  }

  /**
   * A suffix some row lists decides the category whatever the executable
   * flag says: the category is the key of a row listing the suffix.
   */
  lemma {:induction false} ClassifyListedIgnoresExecutable(table: Table, ext: string, i: int)
    requires ListedAt(table, ext, i)
    ensures Classify(table, ext, true) == Classify(table, ext, false)
    ensures exists k :: FirstListedAt(table, ext, k) && Classify(table, ext, true) == table[k].0
  {
    if ext in table[0].1 {
      assert FirstListedAt(table, ext, 0);
    } else {
      ClassifyListedIgnoresExecutable(table[1..], ext, i - 1);
      var k :| FirstListedAt(table[1..], ext, k) && Classify(table[1..], ext, true) == table[1..][k].0;
      forall j | 0 <= j < k + 1 ensures !ListedAt(table, ext, j) {
        if j > 0 {
          assert !ListedAt(table[1..], ext, j - 1);
        }
      }
      assert FirstListedAt(table, ext, k + 1);
    }
  }

  /** Only the last row is keyed `Spreadsheet`. */
  lemma OnlyLastRowIsSpreadsheet()
    ensures forall k :: 0 <= k < |CategoryExtensions| - 1 ==> CategoryExtensions[k].0 != Spreadsheet
  {
  }

  /** No row of the table is keyed `Other`. */
  lemma NoRowIsOther()
    ensures forall i :: 0 <= i < |CategoryExtensions| ==> CategoryExtensions[i].0 != Other
  {
  }

  lemma XlsFamilyNotBeforeDocument(ext: string, j: int)
    requires ext in [".xls", ".xlsx", ".ods"] && 0 <= j < 6
    ensures !ListedAt(CategoryExtensions, ext, j)
  {
    if ext == ".xls" {
      if j == 0 {} else if j == 1 {} else if j == 2 {} else if j == 3 {} else if j == 4 {} else {}
    } else if ext == ".xlsx" {
      if j == 0 {} else if j == 1 {} else if j == 2 {} else if j == 3 {} else if j == 4 {} else {}
    } else {
      if j == 0 {} else if j == 1 {} else if j == 2 {} else if j == 3 {} else if j == 4 {} else {}
    }
  }

  lemma TiffNotBeforeImage(j: int)
    requires 0 <= j < 2
    ensures !ListedAt(CategoryExtensions, ".tiff", j)
  {
  }

  /** Each overlapping suffix resolves to the category declared first. */
  lemma OverlapsResolveInDeclarationOrder(name: string, executable: bool)
    ensures Extension(name) == ".csv" ==> Categorize(name, executable) == Text
    ensures Extension(name) in [".xls", ".xlsx", ".ods"] ==> Categorize(name, executable) == Document
    ensures Extension(name) == ".tiff" ==> Categorize(name, executable) == Image
  {
    var ext := Extension(name);
    if ext == ".csv" {
      assert CategoryExtensions[0].1[3] == ext;
      ClassifyFirstListing(CategoryExtensions, ext, executable, 0);
    } else if ext in [".xls", ".xlsx", ".ods"] {
      assert CategoryExtensions[6].1[3] == ".xls";
      assert CategoryExtensions[6].1[4] == ".xlsx";
      assert CategoryExtensions[6].1[8] == ".ods";
      forall j | 0 <= j < 6 ensures !ListedAt(CategoryExtensions, ext, j) {
        XlsFamilyNotBeforeDocument(ext, j);
      }
      ClassifyFirstListing(CategoryExtensions, ext, executable, 6);
    } else if ext == ".tiff" {
      assert CategoryExtensions[2].1[5] == ext;
      forall j | 0 <= j < 2 ensures !ListedAt(CategoryExtensions, ext, j) {
        TiffNotBeforeImage(j);
      }
      ClassifyFirstListing(CategoryExtensions, ext, executable, 2);
    }
  }

  /** Each suffix of the `Spreadsheet` row is listed under `Text` or `Document` too. */
  lemma SpreadsheetRowListedEarlier(ext: string)
    requires ext in CategoryExtensions[11].1
    ensures ext in CategoryExtensions[0].1 || ext in CategoryExtensions[6].1
  {
    assert CategoryExtensions[11].1 == [".csv", ".xls", ".xlsx", ".ods"];
    if ext == ".csv" {
      assert CategoryExtensions[0].1[3] == ext;
    } else if ext == ".xls" {
      assert CategoryExtensions[6].1[3] == ext;
    } else if ext == ".xlsx" {
      assert CategoryExtensions[6].1[4] == ext;
    } else {
      assert CategoryExtensions[6].1[8] == ext;
    }
  }

  /** Every suffix of the `Spreadsheet` row is listed earlier, so that row never wins. */
  lemma SpreadsheetNeverReturned(name: string, executable: bool)
    ensures Categorize(name, executable) != Spreadsheet
  {
    SpreadsheetNeverClassified(Extension(name), executable);
  }

  lemma SpreadsheetNeverClassified(ext: string, executable: bool)
    ensures Classify(CategoryExtensions, ext, executable) != Spreadsheet
  {
    if exists i :: ListedAt(CategoryExtensions, ext, i) {
      var i :| ListedAt(CategoryExtensions, ext, i);
      ClassifyListedIgnoresExecutable(CategoryExtensions, ext, i);
      var k :| FirstListedAt(CategoryExtensions, ext, k) && Classify(CategoryExtensions, ext, true) == CategoryExtensions[k].0;
      SpreadsheetRowNeverFirst(ext, k);
    } else {
      ClassifyUnlisted(CategoryExtensions, ext, executable);
    }
  }

  lemma SpreadsheetRowNeverFirst(ext: string, k: int)
    requires FirstListedAt(CategoryExtensions, ext, k)
    ensures CategoryExtensions[k].0 != Spreadsheet
  {
    if ListedAt(CategoryExtensions, ext, 11) {
      SpreadsheetRowListedEarlier(ext);
      if ext in CategoryExtensions[0].1 {
        assert ListedAt(CategoryExtensions, ext, 0);
      } else {
        assert ListedAt(CategoryExtensions, ext, 6);
      }
    }
    OnlyLastRowIsSpreadsheet();
  }

  /**
   * A suffix the table lists decides the category whatever the executable
   * flag says, and that category is a table key, never `Other`.
   */
  lemma ListedSuffixIgnoresExecutable(name: string, i: int)
    requires ListedAt(CategoryExtensions, Extension(name), i)
    ensures Categorize(name, true) == Categorize(name, false) != Other
  {
    ClassifyListedIgnoresExecutable(CategoryExtensions, Extension(name), i);
    NoRowIsOther();
  }

  /**
   * The fallback: a file is `Other` exactly when no row lists its suffix and
   * it may not be executed; with no listing, the executable flag alone
   * decides between `Executable` and `Other`.
   */
  lemma UnlistedSuffixFallsBack(name: string, executable: bool)
    ensures Categorize(name, executable) == Other <==>
      (!executable && forall i :: !ListedAt(CategoryExtensions, Extension(name), i))
    ensures (forall i :: !ListedAt(CategoryExtensions, Extension(name), i)) ==>
      Categorize(name, executable) == (if executable then Executable else Other)
  {
    var ext := Extension(name);
    if exists i :: ListedAt(CategoryExtensions, ext, i) {
      var i :| ListedAt(CategoryExtensions, ext, i);
      ListedSuffixIgnoresExecutable(name, i);
    } else {
      ClassifyUnlisted(CategoryExtensions, ext, executable);
    }
  }

  /** Every listed suffix is a dot and at least one more character. */
  lemma ListedSuffixesAreDotted(i: int, ext: string)
    requires ListedAt(CategoryExtensions, ext, i)
    ensures 2 <= |ext| && ext[0] == '.'
  {
  }

  /** A name without a suffix (`README`, `.bashrc`, `notes.`) falls back on the executable flag. */
  lemma NoSuffixFallsBack(name: string, executable: bool)
    requires Suffix(name) == ""
    ensures Categorize(name, executable) == (if executable then Executable else Other)
  {
    assert Extension(name) == "";
    forall i ensures !ListedAt(CategoryExtensions, "", i) {
      if ListedAt(CategoryExtensions, "", i) {
        ListedSuffixesAreDotted(i, "");
      }
    }
    UnlistedSuffixFallsBack(name, executable);
  }

  lemma {:induction false} LastIndexOfLower(s: string)
    ensures LastIndexOf(Lower(s), '.') == LastIndexOf(s, '.')
  {
    if s != [] {
      var n := |s| - 1;
      assert Lower(s)[..n] == Lower(s[..n]);
      LastIndexOfLower(s[..n]);
    }
  }

  /** Lower-casing the name before taking its suffix changes nothing. */
  lemma SuffixOfLower(name: string)
    ensures Suffix(Lower(name)) == Lower(Suffix(name))
  {
    LastIndexOfLower(name);
  }

  lemma ExtensionOfLower(name: string)
    ensures Extension(Lower(name)) == Extension(name)
  {
    SuffixOfLower(name);
    var s := Suffix(name);
    assert Lower(Lower(s)) == Lower(s);
  }

  /** Matching ignores case: a name and its lower-cased form get the same category. */
  lemma CategorizeIgnoresCase(name: string, executable: bool)
    ensures Categorize(Lower(name), executable) == Categorize(name, executable)
  {
    ExtensionOfLower(name);
  }

  // ---------------------------------------------------------------------
  // Per-category summary of a walk
  // ---------------------------------------------------------------------

  /** The `[file_count, total_size_in_bytes]` value of one summary key. */
  datatype Tally = Tally(count: nat, bytes: nat)

  /**
   * What the scan learns about one file: its category, and its size when
   * `stat()` succeeds.
   */
  datatype Visit = Visit(category: Category, size: Option<nat>)

  function CategoryOf(e: Entry): Category
  {
    Categorize(e.file.name, e.file.executable)
  }

  function VisitOf(e: Entry): Visit
  {
    Visit(CategoryOf(e), if e.file.stat.Some? then Some(e.file.stat.value.size) else None)
  }

  /** The visits of `es`, in order. */
  function Visits(es: seq<Entry>): (vs: seq<Visit>)
    ensures |vs| == |es|
    ensures forall k :: 0 <= k < |es| ==> vs[k] == VisitOf(es[k])
  {
    seq(|es|, k requires 0 <= k < |es| => VisitOf(es[k]))
  }

  lemma VisitsStep(es: seq<Entry>, e: Entry)
    ensures Visits(es + [e]) == Visits(es) + [VisitOf(e)]
  {
    assert (es + [e])[..|es|] == es;
  }

  /** The bytes a file adds to its category: its size, or nothing when `stat()` fails. */
  function SizeOrZero(v: Visit): nat
  {
    if v.size.Some? then v.size.value else 0
  }

  /** How many of `vs` fall in category `c`, whether or not their `stat()` succeeded. */
  function Count(vs: seq<Visit>, c: Category): nat
  {
    if vs == [] then 0
    else Count(vs[..|vs| - 1], c) + (if vs[|vs| - 1].category == c then 1 else 0)
  }

  /** The summed sizes of those of `vs` in category `c` whose `stat()` succeeded. */
  function Bytes(vs: seq<Visit>, c: Category): nat
  {
    if vs == [] then 0
    else Bytes(vs[..|vs| - 1], c) + (if vs[|vs| - 1].category == c then SizeOrZero(vs[|vs| - 1]) else 0)
  }

  /** The summed sizes of all of `vs` whose `stat()` succeeded. */
  function TotalSize(vs: seq<Visit>): nat
  {
    if vs == [] then 0 else TotalSize(vs[..|vs| - 1]) + SizeOrZero(vs[|vs| - 1])
  }

  const AllCategories: seq<Category> := [
    Text, Code, Image, Audio, Video, Archive, Document,
    Executable, Database, GeoData, Presentation, Spreadsheet, Other
  ]

  /** The count of a summary key, 0 for a key the summary lacks (as a `defaultdict` reads). */
  function CountIn(summary: map<Category, Tally>, c: Category): nat
  {
    if c in summary then summary[c].count else 0
  }

  function BytesIn(summary: map<Category, Tally>, c: Category): nat
  {
    if c in summary then summary[c].bytes else 0
  }

  /** Summed counts over the categories `cs`. */
  function SummedCounts(summary: map<Category, Tally>, cs: seq<Category>): nat
  {
    if cs == [] then 0 else CountIn(summary, cs[0]) + SummedCounts(summary, cs[1..])
  }

  /** Summed byte totals over the categories `cs`. */
  function SummedBytes(summary: map<Category, Tally>, cs: seq<Category>): nat
  {
    if cs == [] then 0 else BytesIn(summary, cs[0]) + SummedBytes(summary, cs[1..])
  }

  /** The summary a scan that made the visits `vs` builds, key by key. */
  ghost predicate Summarizes(summary: map<Category, Tally>, vs: seq<Visit>)
  {
    && (forall c :: c in summary <==> Count(vs, c) > 0)
    && (forall c :: c in summary ==> summary[c] == Tally(Count(vs, c), Bytes(vs, c)))
  }

  lemma CountBytesStep(vs: seq<Visit>, v: Visit)
    ensures forall c :: Count(vs + [v], c) == Count(vs, c) + (if v.category == c then 1 else 0)
    ensures forall c :: Bytes(vs + [v], c) == Bytes(vs, c) + (if v.category == c then SizeOrZero(v) else 0)
    ensures TotalSize(vs + [v]) == TotalSize(vs) + SizeOrZero(v)
  {
    assert (vs + [v])[..|vs|] == vs;
  }

  /** One more file: its category's count goes up by one and its byte total by the file's size. */
  lemma SummarizesStep(summary: map<Category, Tally>, vs: seq<Visit>, v: Visit)
    requires Summarizes(summary, vs)
    ensures var t := if v.category in summary then summary[v.category] else Tally(0, 0);
      Summarizes(summary[v.category := Tally(t.count + 1, t.bytes + SizeOrZero(v))], vs + [v])
  {
    CountBytesStep(vs, v);
    if v.category !in summary {
      ZeroCountZeroBytes(vs, v.category);
    }
  }

  /** The visits of a scan determine its summary: at most one map summarizes them. */
  lemma SummaryIsDetermined(s1: map<Category, Tally>, s2: map<Category, Tally>, vs: seq<Visit>)
    requires Summarizes(s1, vs) && Summarizes(s2, vs)
    ensures s1 == s2
  {
  }

  /**
   * The body of the inner loop of `analyze_file_types` for one file: bump
   * its category's count, and only then add its size, so that a failing
   * `stat()` leaves the count bumped and the byte total unchanged.
   */
  method RecordFile(summary: map<Category, Tally>, ghost vs: seq<Visit>, path: string, f: FileInfo)
    returns (updated: map<Category, Tally>)
    requires Summarizes(summary, vs)
    ensures Summarizes(updated, vs + [VisitOf(Entry(path, f))])
  {
    var category := Categorize(f.name, f.executable);
    var t := if category in summary then summary[category] else Tally(0, 0);
    updated := summary[category := Tally(t.count + 1, t.bytes)];
    if f.stat.Some? {
      updated := updated[category := Tally(t.count + 1, t.bytes + f.stat.value.size)];
    }
    ghost var v := VisitOf(Entry(path, f));
    assert v == Visit(category, if f.stat.Some? then Some(f.stat.value.size) else None);
    assert updated == summary[v.category := Tally(t.count + 1, t.bytes + SizeOrZero(v))];
    SummarizesStep(summary, vs, v);
  }

  /**
   * `analyze_file_types`: for each visited file, bump its category's count,
   * and only then add its size, so that a failing `stat()` leaves the count
   * bumped and the byte total unchanged.
   */
  method AnalyzeFileTypes(walk: seq<DirListing>) returns (summary: map<Category, Tally>)
    ensures Summarizes(summary, Visits(Flatten(walk)))
    ensures SummedCounts(summary, AllCategories) == |Flatten(walk)|
    ensures SummedBytes(summary, AllCategories) == TotalSize(Visits(Flatten(walk)))
  {
    summary := map[];
    var i := 0;
    while i < |walk|
      invariant i <= |walk|
      invariant Summarizes(summary, Visits(Flatten(walk[..i])))
    {
      summary := RecordDirectory(summary, Flatten(walk[..i]), walk[i]);
      FlattenStep(walk, i);
      i := i + 1;
    }
    assert walk[..i] == walk;
    CountsSumToVisitedFiles(Visits(Flatten(walk)));
    SummaryMatchesSums(summary, Visits(Flatten(walk)), AllCategories);
  }

  /** The inner loop of `analyze_file_types`: every file of one directory listing, in order. */
  method RecordDirectory(summary: map<Category, Tally>, ghost visited: seq<Entry>, dir: DirListing)
    returns (updated: map<Category, Tally>)
    requires Summarizes(summary, Visits(visited))
    ensures Summarizes(updated, Visits(visited + Entries(dir)))
  {
    updated := summary;
    var j := 0;
    ghost var vs := Visits(visited);
    VisitsOfPrefix(visited, dir, 0);
    while j < |dir.files|
      invariant j <= |dir.files|
      invariant vs == Visits(visited + Entries(dir)[..j])
      invariant Summarizes(updated, vs)
    {
      var f := dir.files[j];
      updated := RecordFile(updated, vs, JoinPath(dir.dirpath, f.name), f);
      VisitsOfPrefix(visited, dir, j + 1);
      vs := vs + [VisitOf(Entry(JoinPath(dir.dirpath, f.name), f))];
      j := j + 1;
    }
    assert Entries(dir)[..j] == Entries(dir);
  }

  /** The visits after the first `j` files of `dir`, one file at a time. */
  lemma VisitsOfPrefix(visited: seq<Entry>, dir: DirListing, j: nat)
    requires j <= |dir.files|
    ensures j == 0 ==> Visits(visited + Entries(dir)[..j]) == Visits(visited)
    ensures 0 < j ==>
      (Visits(visited + Entries(dir)[..j]) ==
       Visits(visited + Entries(dir)[..j - 1]) + [VisitOf(Entry(JoinPath(dir.dirpath, dir.files[j - 1].name), dir.files[j - 1]))])
  {
    if j == 0 {
      assert visited + Entries(dir)[..j] == visited;
    } else {
      EntriesStep(dir, j - 1);
      assert visited + Entries(dir)[..j] ==
        (visited + Entries(dir)[..j - 1]) + [Entry(JoinPath(dir.dirpath, dir.files[j - 1].name), dir.files[j - 1])];
      VisitsStep(visited + Entries(dir)[..j - 1], Entry(JoinPath(dir.dirpath, dir.files[j - 1].name), dir.files[j - 1]));
    }
  }

  /** Summed `Count` and `Bytes` over the categories `cs`, straight from the visits. */
  function CountOver(vs: seq<Visit>, cs: seq<Category>): nat
  {
    if cs == [] then 0 else Count(vs, cs[0]) + CountOver(vs, cs[1..])
  }

  function BytesOver(vs: seq<Visit>, cs: seq<Category>): nat
  {
    if cs == [] then 0 else Bytes(vs, cs[0]) + BytesOver(vs, cs[1..])
  }

  ghost predicate Distinct(cs: seq<Category>)
  {
    forall i, j :: 0 <= i < j < |cs| ==> cs[i] != cs[j]
  }

  lemma {:induction false} OverStep(vs: seq<Visit>, v: Visit, cs: seq<Category>)
    requires Distinct(cs)
    ensures CountOver(vs + [v], cs) == CountOver(vs, cs) + (if v.category in cs then 1 else 0)
    ensures BytesOver(vs + [v], cs) == BytesOver(vs, cs) + (if v.category in cs then SizeOrZero(v) else 0)
  {
    CountBytesStep(vs, v);
    if cs != [] {
      assert Distinct(cs[1..]);
      OverStep(vs, v, cs[1..]);
      assert cs == [cs[0]] + cs[1..];
      assert v.category == cs[0] ==> v.category !in cs[1..];
    }
  }

  /** The summary keys cover every category, each once. */
  lemma AllCategoriesListsEachOnce(c: Category)
    ensures Distinct(AllCategories)
    ensures c in AllCategories
  {
    AllCategoriesDistinct();
    match c
    case Text => assert AllCategories[0] == c;
    case Code => assert AllCategories[1] == c;
    case Image => assert AllCategories[2] == c;
    case Audio => assert AllCategories[3] == c;
    case Video => assert AllCategories[4] == c;
    case Archive => assert AllCategories[5] == c;
    case Document => assert AllCategories[6] == c;
    case Executable => assert AllCategories[7] == c;
    case Database => assert AllCategories[8] == c;
    case GeoData => assert AllCategories[9] == c;
    case Presentation => assert AllCategories[10] == c;
    case Spreadsheet => assert AllCategories[11] == c;
    case Other => assert AllCategories[12] == c;
  }

  lemma AllCategoriesDistinct()
    ensures Distinct(AllCategories)
  {
  }

  /**
   * Over all categories, the counts add up to the number of visited files and
   * the byte totals to the sizes of those whose `stat()` succeeded.
   */
  lemma {:induction false} CountsSumToVisitedFiles(vs: seq<Visit>)
    ensures CountOver(vs, AllCategories) == |vs|
    ensures BytesOver(vs, AllCategories) == TotalSize(vs)
  {
    if vs == [] {
      ZeroOver(AllCategories);
    } else {
      var n := |vs| - 1;
      assert vs == vs[..n] + [vs[n]];
      CountsSumToVisitedFiles(vs[..n]);
      AllCategoriesListsEachOnce(vs[n].category);
      OverStep(vs[..n], vs[n], AllCategories);
      CountBytesStep(vs[..n], vs[n]);
    }
  }

  lemma {:induction false} ZeroOver(cs: seq<Category>)
    ensures CountOver([], cs) == 0 && BytesOver([], cs) == 0
  {
    if cs != [] {
      ZeroOver(cs[1..]);
    }
  }

  lemma {:induction false} SummaryMatchesSums(summary: map<Category, Tally>, vs: seq<Visit>, cs: seq<Category>)
    requires Summarizes(summary, vs)
    ensures SummedCounts(summary, cs) == CountOver(vs, cs)
    ensures SummedBytes(summary, cs) == BytesOver(vs, cs)
  {
    if cs != [] {
      SummaryMatchesSums(summary, vs, cs[1..]);
      var c := cs[0];
      if c !in summary {
        assert Count(vs, c) == 0;
        ZeroCountZeroBytes(vs, c);
      }
    }
  }

  /** A category with no files has no bytes. */
  lemma {:induction false} ZeroCountZeroBytes(vs: seq<Visit>, c: Category)
    requires Count(vs, c) == 0
    ensures Bytes(vs, c) == 0
  {
    if vs != [] {
      ZeroCountZeroBytes(vs[..|vs| - 1], c);
    }
  }

  /** Counts and byte totals are additive over consecutive stretches of the walk. */
  lemma {:induction false} CountBytesAppend(a: seq<Visit>, b: seq<Visit>, c: Category)
    ensures Count(a + b, c) == Count(a, c) + Count(b, c)
    ensures Bytes(a + b, c) == Bytes(a, c) + Bytes(b, c)
  {
    if b == [] {
      assert a + b == a;
    } else {
      var n := |b| - 1;
      assert a + b == (a + b[..n]) + [b[n]];
      assert b == b[..n] + [b[n]];
      CountBytesAppend(a, b[..n], c);
      CountBytesStep(a + b[..n], b[n]);
      CountBytesStep(b[..n], b[n]);
    }
  }

  /** Counts and byte totals never decrease as the scan goes on. */
  lemma CountsNeverDecrease(vs: seq<Visit>, i: nat, j: nat, c: Category)
    requires i <= j <= |vs|
    ensures Count(vs[..i], c) <= Count(vs[..j], c)
    ensures Bytes(vs[..i], c) <= Bytes(vs[..j], c)
  {
    assert vs[..j] == vs[..i] + vs[i..j];
    CountBytesAppend(vs[..i], vs[i..j], c);
  }

  /**
   * A file whose `stat()` fails still adds one to its category's count, adds
   * no bytes, and does not stop the files after it from being summarised.
   */
  lemma FailedStatCountsButAddsNoBytes(before: seq<Visit>, bad: Visit, after: seq<Visit>, c: Category)
    requires bad.size.None?
    ensures Count(before + [bad] + after, c) == Count(before + after, c) + (if bad.category == c then 1 else 0)
    ensures Bytes(before + [bad] + after, c) == Bytes(before + after, c)
  {
    CountBytesAppend(before + [bad], after, c);
    CountBytesAppend(before, after, c);
    CountBytesStep(before, bad);
  }
}
