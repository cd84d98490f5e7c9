/** The feature extractor of backend/feature_extractor.py: it turns an uploaded file
    into the vector (file size, byte entropy, secondary signal), where the secondary
    signal is the PE import count for executables, a composite score for zip archives
    and 0 otherwise. Every call into the file system or a parsing library is an input
    of type `Outcome`: either the value the call returned or the exception it raised. */
module FeatureExtractor {
  import opened Wrappers
  import opened Text

  newtype byte = b: int | 0 <= b < 256

  /** What a call into the file system or a library gave back. */
  datatype Outcome<+T> = Returned(value: T) | Raised

  /** The feature vector `[file_size, entropy, imports_count]`. */
  datatype FeatureVector = FeatureVector(fileSize: nat, entropy: real, importsCount: nat)

  /** The vector returned when extraction as a whole fails. */
  const SafeDefault := FeatureVector(0, 0.0, 0)

  // ---------------------------------------------------------------------------
  // calculate_entropy: the byte histogram

  /** The size of each read from the file. */
  const ChunkSize: nat := 8192

  /** The sum of a sequence of counts. */
  function Sum(xs: seq<nat>): nat {
    if xs == [] then 0 else xs[0] + Sum(xs[1..])
  }

  /** The reference histogram: for each byte value, how often it occurs in `s`. */
  function Histogram(s: seq<byte>): (h: seq<nat>)
    ensures |h| == 256
  {
    seq(256, v requires 0 <= v < 256 => multiset(s)[v as byte])
  }

  /** Incrementing one count increments the sum. */
  lemma {:induction false} SumIncrement(xs: seq<nat>, k: nat)
    requires k < |xs|
    ensures Sum(xs[k := xs[k] + 1]) == Sum(xs) + 1
  {
    var ys := xs[k := xs[k] + 1];
    if k == 0 {
      assert ys[1..] == xs[1..];
    } else {
      assert ys[1..] == xs[1..][k - 1 := xs[k] + 1];
      SumIncrement(xs[1..], k - 1);
    }
  }

  /** The counts of a histogram add up to the length of the content. */
  lemma {:induction false} HistogramSum(s: seq<byte>)
    ensures Sum(Histogram(s)) == |s|
    decreases |s|
  {
    if s == [] {
      assert Histogram(s) == seq(256, v => 0);
      ZeroSum(256);
    } else {
      var init, b := s[..|s| - 1], s[|s| - 1];
      assert s == init + [b];
      var h := Histogram(init);
      assert Histogram(s) == h[b as int := h[b as int] + 1];
      HistogramSum(init);
      SumIncrement(h, b as int);
    }
  }

  /** A run of zero counts sums to zero. */
  lemma {:induction false} ZeroSum(n: nat)
    ensures Sum(seq(n, v => 0)) == 0
  {
    if n > 0 {
      assert seq(n, v => 0)[1..] == seq(n - 1, v => 0);
      ZeroSum(n - 1);
    }
  }

  /** The `while True` loop of `calculate_entropy`: reads `content` in chunks of
      `chunkSize` bytes, adding each chunk to the per-byte counts (the `Counter`, as
      256 counts indexed by byte value) and its length to the running total. The
      result is the histogram of the whole content, whatever the chunk size. */
  method CountBytes(content: seq<byte>, chunkSize: nat) returns (counts: seq<nat>, total: nat)
    requires chunkSize > 0
    ensures counts == Histogram(content)
    ensures total == |content|
    ensures Sum(counts) == total
  {
    counts := seq(256, v => 0);
    total := 0;
    while true
      invariant total <= |content|
      invariant |counts| == 256
      invariant forall v :: 0 <= v < 256 ==> counts[v] == multiset(content[..total])[v as byte]
      decreases |content| - total
    {
      var chunk := content[total..if total + chunkSize < |content| then total + chunkSize else |content|];
      if chunk == [] {
        break;
      }
      // byte_counts.update(chunk)
      var i := 0;
      while i < |chunk|
        invariant 0 <= i <= |chunk|
        invariant |counts| == 256
        invariant forall v :: 0 <= v < 256 ==> counts[v] == multiset(content[..total + i])[v as byte]
      {
        var b := chunk[i];
        assert content[..total + i + 1] == content[..total + i] + [b];
        counts := counts[b as int := counts[b as int] + 1];
        i := i + 1;
      }
      total := total + |chunk|;
    }
    assert content[..total] == content;
    HistogramSum(content);
  }

  /** What `calculate_entropy` returns. `shannon` stands for the log2 sum over the
      counts, which is not modelled. */
  function EntropyOf(file: Outcome<seq<byte>>, shannon: (seq<nat>, nat) -> real): real {
    match file
    case Raised => 0.0
    case Returned(content) =>
      if |content| == 0 then 0.0 else shannon(Histogram(content), |content|)
  }

  /** `calculate_entropy`: 0 when the file cannot be read or is empty, otherwise the
      log2 sum applied to the histogram of the whole content and its length. */
  method CalculateEntropy(file: Outcome<seq<byte>>, shannon: (seq<nat>, nat) -> real) returns (entropy: real)
    ensures entropy == EntropyOf(file, shannon)
    ensures file.Raised? || file.value == [] ==> entropy == 0.0
  {
    if file.Raised? {
      return 0.0;
    }
    var counts, total := CountBytes(file.value, ChunkSize);
    if total == 0 {
      return 0.0;
    }
    entropy := shannon(counts, total);
  }

  // ---------------------------------------------------------------------------
  // extract_pe_imports_count

  /** One entry of the PE import directory; `imports` is absent when the entry has
      no `imports` attribute. */
  datatype ImportEntry = ImportEntry(dll: string, imports: Option<seq<string>>)

  /** A parsed PE image; `importDirectory` is absent when the image has no
      `DIRECTORY_ENTRY_IMPORT` attribute. */
  datatype PeImage = PeImage(importDirectory: Option<seq<ImportEntry>>)

  /** The number of imports an entry contributes. */
  function EntryImports(e: ImportEntry): nat {
    if e.imports.Some? then |e.imports.value| else 0
  }

  /** The total number of imports over a list of directory entries. */
  function DirectoryImports(entries: seq<ImportEntry>): nat {
    if entries == [] then 0 else EntryImports(entries[0]) + DirectoryImports(entries[1..])
  }

  /** The import total of two lists of entries is the sum of their totals. */
  lemma {:induction false} DirectoryImportsAppend(a: seq<ImportEntry>, b: seq<ImportEntry>)
    ensures DirectoryImports(a + b) == DirectoryImports(a) + DirectoryImports(b)
  {
    if a != [] {
      assert (a + b)[1..] == a[1..] + b;
      DirectoryImportsAppend(a[1..], b);
    } else {
      assert a + b == b;
    }
  }

  /** Entries without an import list leave the total unchanged. */
  lemma {:induction false} EntriesWithoutImportsAddNothing(a: seq<ImportEntry>, b: seq<ImportEntry>)
    requires forall i :: 0 <= i < |b| ==> b[i].imports.None?
    ensures DirectoryImports(a + b) == DirectoryImports(a)
  {
    DirectoryImportsAppend(a, b);
    NoImports(b);
  }

  /** A list of entries without import lists has no imports. */
  lemma {:induction false} NoImports(b: seq<ImportEntry>)
    requires forall i :: 0 <= i < |b| ==> b[i].imports.None?
    ensures DirectoryImports(b) == 0
  {
    if b != [] {
      assert forall i :: 0 <= i < |b[1..]| ==> b[1..][i] == b[i + 1];
      NoImports(b[1..]);
    }
  }

  /** What `extract_pe_imports_count` returns: 0 without PE support, when parsing
      raises, or when there is no import directory; otherwise the import total. */
  function PeImportsCount(peAvailable: bool, pe: Outcome<PeImage>): nat {
    if !peAvailable then 0
    else match pe
      case Raised => 0
      case Returned(image) =>
        match image.importDirectory
        case None => 0
        case Some(entries) => DirectoryImports(entries)
  }

  /** `extract_pe_imports_count`, with its accumulating loop over the directory. */
  method ExtractPeImportsCount(peAvailable: bool, pe: Outcome<PeImage>) returns (count: nat)
    ensures count == PeImportsCount(peAvailable, pe)
    ensures !peAvailable || pe.Raised? || pe.value.importDirectory.None? ==> count == 0
  {
    if !peAvailable {
      return 0;
    }
    if pe.Raised? {
      return 0;
    }
    count := 0;
    if pe.value.importDirectory.Some? {
      var entries := pe.value.importDirectory.value;
      var i := 0;
      while i < |entries|
        invariant 0 <= i <= |entries|
        invariant count == DirectoryImports(entries[..i])
      {
        assert entries[..i + 1] == entries[..i] + [entries[i]];
        DirectoryImportsAppend(entries[..i], [entries[i]]);
        assert DirectoryImports([entries[i]]) == EntryImports(entries[i]);
        if entries[i].imports.Some? {
          count := count + |entries[i].imports.value|;
        }
        i := i + 1;
      }
      assert entries[..i] == entries;
    }
  }

  // ---------------------------------------------------------------------------
  // extract_zip_features

  /** Entry extensions that mark an archive member as suspicious. */
  const SuspiciousExtensions: seq<string> := [".exe", ".dll", ".bat", ".cmd", ".scr", ".vbs", ".js"]

  /** An archive member is suspicious when its lower-cased extension is listed. */
  predicate IsSuspicious(name: string) {
    Lower(SplitextExt(name)) in SuspiciousExtensions
  }

  /** A member whose final component is not all dots and ends in `.e` is suspicious
      exactly when `.e`, lower-cased, is listed: only the last extension counts
      (`x.exe.txt` is not suspicious) and its case does not matter (`dir/B.EXE` is). */
  lemma SuspiciousByLastExtension(root: string, e: string)
    requires '.' !in e && '/' !in e
    requires LeadingDots(FinalComponent(root)) < |FinalComponent(root)|
    ensures IsSuspicious(root + "." + e) <==> "." + Lower(e) in SuspiciousExtensions
  {
    SplitextOfExtension(root, e);
    assert Lower("." + e) == "." + Lower(e);
  }

  /** A member without an extension is not suspicious: every listed extension is
      non-empty. */
  lemma NoExtensionNotSuspicious(name: string)
    requires SplitextExt(name) == []
    ensures !IsSuspicious(name)
  {
    assert Lower(SplitextExt(name)) == [];
    assert forall x :: x in SuspiciousExtensions ==> |x| > 0;
  }

  /** A member named by a dot and an extension alone (`.exe`, `dir/.exe`) has no
      extension and is never suspicious. */
  lemma DotFileNotSuspicious(dir: string, e: string)
    requires '.' !in e && '/' !in e
    ensures !IsSuspicious("." + e) && !IsSuspicious(dir + "/." + e)
  {
    BareDotFileHasNoExtension(e);
    NoExtensionNotSuspicious("." + e);
    DotFileHasNoExtension(dir, e);
    NoExtensionNotSuspicious(dir + "/." + e);
  }

  /** The number of suspicious members among `names`. */
  function SuspiciousCount(names: seq<string>): (n: nat) {
    if names == [] then 0
    else (if IsSuspicious(names[0]) then 1 else 0) + SuspiciousCount(names[1..])
  }

  /** No more members are suspicious than there are members. */
  lemma {:induction false} SuspiciousCountBound(names: seq<string>)
    ensures SuspiciousCount(names) <= |names|
  {
    if names != [] {
      SuspiciousCountBound(names[1..]);
    }
  }

  /** The suspicious count of two lists of names is the sum of their counts. */
  lemma {:induction false} SuspiciousCountAppend(a: seq<string>, b: seq<string>)
    ensures SuspiciousCount(a + b) == SuspiciousCount(a) + SuspiciousCount(b)
  {
    if a != [] {
      assert (a + b)[1..] == a[1..] + b;
      SuspiciousCountAppend(a[1..], b);
    } else {
      assert a + b == b;
    }
  }

  /** Adding one member adds one to the count exactly when it is suspicious. */
  lemma SuspiciousCountSnoc(a: seq<string>, x: string)
    ensures SuspiciousCount(a + [x]) == SuspiciousCount(a) + (if IsSuspicious(x) then 1 else 0)
  {
    SuspiciousCountAppend(a, [x]);
    assert [x][1..] == [];
  }

  /** What `extract_zip_features` returns: 0 when the archive cannot be read,
      otherwise the member count plus ten per suspicious member. */
  function ZipScore(archive: Outcome<seq<string>>): nat {
    match archive
    case Raised => 0
    case Returned(names) => |names| + 10 * SuspiciousCount(names)
  }

  /** An archive of `n` members scores between `n` and `11 n`; it scores 0 only when
      it is empty. */
  lemma ZipScoreBounds(names: seq<string>)
    ensures |names| <= ZipScore(Returned(names)) <= 11 * |names|
    ensures ZipScore(Returned(names)) == 0 <==> names == []
  {
    SuspiciousCountBound(names);
  }

  /** `extract_zip_features`, with its counting loop over the name list. */
  method ExtractZipFeatures(archive: Outcome<seq<string>>) returns (score: nat)
    ensures score == ZipScore(archive)
    ensures archive.Raised? ==> score == 0
  {
    if archive.Raised? {
      return 0;
    }
    var names := archive.value;
    var fileCount := |names|;
    var suspicious := 0;
    var i := 0;
    while i < |names|
      invariant 0 <= i <= |names|
      invariant suspicious == SuspiciousCount(names[..i])
    {
      assert names[..i + 1] == names[..i] + [names[i]];
      SuspiciousCountSnoc(names[..i], names[i]);
      if IsSuspicious(names[i]) {
        suspicious := suspicious + 1;
      }
      i := i + 1;
    }
    assert names[..i] == names;
    score := fileCount + suspicious * 10;
  }

  // ---------------------------------------------------------------------------
  // extract_string_features

  /** The bytes of an ASCII text, as a `b'...'` literal gives them. */
  function Ascii(s: string): seq<byte> {
    seq(|s|, i requires 0 <= i < |s| => (s[i] as int % 256) as byte)
  }

  /** The eight API names searched for in the content. */
  const SuspiciousStrings: seq<seq<byte>> := [
    Ascii("CreateProcess"), Ascii("WriteProcessMemory"), Ascii("VirtualAlloc"),
    Ascii("GetProcAddress"), Ascii("LoadLibrary"), Ascii("RegOpenKey"),
    Ascii("InternetOpen"), Ascii("HttpSendRequest")]

  /** `bytes.count`: the number of non-overlapping occurrences of `pat` in `s`,
      found from left to right; an empty pattern occurs `|s| + 1` times. */
  function Occurrences(s: seq<byte>, pat: seq<byte>): nat
    decreases |s|
  {
    if |pat| == 0 then |s| + 1
    else if |s| < |pat| then 0
    else if s[..|pat|] == pat then 1 + Occurrences(s[|pat|..], pat)
    else Occurrences(s[1..], pat)
  }

  /** Occurrences do not overlap: together they take no more room than `s`. */
  lemma {:induction false} OccurrencesFit(s: seq<byte>, pat: seq<byte>)
    requires |pat| > 0
    ensures Occurrences(s, pat) * |pat| <= |s|
    decreases |s|
  {
    if |s| >= |pat| {
      if s[..|pat|] == pat {
        OccurrencesFit(s[|pat|..], pat);
      } else {
        OccurrencesFit(s[1..], pat);
      }
    }
  }

  /** `pat` occurs in `s` at position `i`. */
  predicate OccursAt(s: seq<byte>, pat: seq<byte>, i: int) {
    0 <= i <= |s| - |pat| && s[i..i + |pat|] == pat
  }

  /** A non-empty pattern is counted at least once exactly when it occurs. */
  lemma {:induction false} OccurrencesPositive(s: seq<byte>, pat: seq<byte>)
    requires |pat| > 0
    ensures Occurrences(s, pat) > 0 <==> exists i :: OccursAt(s, pat, i)
    decreases |s|
  {
    if |s| < |pat| {
    } else if s[..|pat|] == pat {
      assert OccursAt(s, pat, 0);
    } else {
      OccurrencesPositive(s[1..], pat);
      if exists i :: OccursAt(s, pat, i) {
        var i :| OccursAt(s, pat, i);
        assert i != 0;
        assert s[1..][i - 1..i - 1 + |pat|] == s[i..i + |pat|];
        assert OccursAt(s[1..], pat, i - 1);
      }
      if exists i :: OccursAt(s[1..], pat, i) {
        var i :| OccursAt(s[1..], pat, i);
        assert s[i + 1..i + 1 + |pat|] == s[1..][i..i + |pat|];
        assert OccursAt(s, pat, i + 1);
      }
    }
  }

  /** The summed occurrence counts of several patterns. */
  function TotalOccurrences(s: seq<byte>, pats: seq<seq<byte>>): nat {
    if pats == [] then 0 else Occurrences(s, pats[0]) + TotalOccurrences(s, pats[1..])
  }

  /** The total over two lists of patterns is the sum of their totals. */
  lemma {:induction false} TotalOccurrencesAppend(s: seq<byte>, a: seq<seq<byte>>, b: seq<seq<byte>>)
    ensures TotalOccurrences(s, a + b) == TotalOccurrences(s, a) + TotalOccurrences(s, b)
  {
    if a != [] {
      assert (a + b)[1..] == a[1..] + b;
      TotalOccurrencesAppend(s, a[1..], b);
    } else {
      assert a + b == b;
    }
  }

  /** What `extract_string_features` returns: 0 when the file cannot be read,
      otherwise the occurrence counts of the eight names, summed. */
  function StringScore(file: Outcome<seq<byte>>): nat {
    match file
    case Raised => 0
    case Returned(content) => TotalOccurrences(content, SuspiciousStrings)
  }

  /** `extract_string_features`, with its accumulating loop over the patterns. */
  method ExtractStringFeatures(file: Outcome<seq<byte>>) returns (stringCount: nat)
    ensures stringCount == StringScore(file)
    ensures file.Raised? ==> stringCount == 0
  {
    if file.Raised? {
      return 0;
    }
    var content := file.value;
    stringCount := 0;
    var k := 0;
    while k < |SuspiciousStrings|
      invariant 0 <= k <= |SuspiciousStrings|
      invariant stringCount == TotalOccurrences(content, SuspiciousStrings[..k])
    {
      var pats := SuspiciousStrings;
      assert pats[..k + 1] == pats[..k] + [pats[k]];
      TotalOccurrencesAppend(content, pats[..k], [pats[k]]);
      stringCount := stringCount + Occurrences(content, pats[k]);
      k := k + 1;
    }
    assert SuspiciousStrings[..k] == SuspiciousStrings;
  }

  // ---------------------------------------------------------------------------
  // extract_features

  /** What the pipeline may observe about the file at the given path: its size
      (`os.path.getsize`), its content (`open`/`read`), the PE parse (`pefile.PE`)
      and the archive's name list (`zipfile.ZipFile(...).namelist()`). */
  datatype FileView = FileView(
    size: Outcome<nat>,
    content: Outcome<seq<byte>>,
    pe: Outcome<PeImage>,
    archive: Outcome<seq<string>>)

  /** Extensions whose files are parsed as PE images. */
  const PeExtensions: seq<string> := [".exe", ".dll", ".bin"]

  /** The third feature, chosen by the lower-cased extension of `path`. */
  function SecondarySignal(path: string, file: FileView, peAvailable: bool): nat {
    var ext := Lower(SplitextExt(path));
    if ext in PeExtensions then PeImportsCount(peAvailable, file.pe)
    else if ext == ".zip" then ZipScore(file.archive)
    else 0
  }

  /** What `extract_features` returns: the safe default when the size lookup
      raises, otherwise size, entropy and the secondary signal. */
  function FeaturesOf(path: string, file: FileView, peAvailable: bool,
                      shannon: (seq<nat>, nat) -> real): FeatureVector
  {
    match file.size
    case Raised => SafeDefault
    case Returned(size) =>
      FeatureVector(size, EntropyOf(file.content, shannon), SecondarySignal(path, file, peAvailable))
  }

  /** `extract_features`. */
  method ExtractFeatures(path: string, file: FileView, peAvailable: bool,
                         shannon: (seq<nat>, nat) -> real) returns (features: FeatureVector)
    ensures features == FeaturesOf(path, file, peAvailable, shannon)
    ensures file.size.Raised? ==> features == SafeDefault
  {
    if file.size.Raised? {
      return SafeDefault;
    }
    var fileSize := file.size.value;
    var entropy := CalculateEntropy(file.content, shannon);
    var fileExt := Lower(SplitextExt(path));
    var importsCount: nat;
    if fileExt in PeExtensions {
      importsCount := ExtractPeImportsCount(peAvailable, file.pe);
    } else if fileExt == ".zip" {
      importsCount := ExtractZipFeatures(file.archive);
    } else {
      importsCount := 0;
    }
    features := FeatureVector(fileSize, entropy, importsCount);
  }

  /** A dot in front of a word picks the entry of the dotted list that the word
      picks in the plain list. */
  lemma DotPrefixedIn(x: string, words: seq<string>, dotted: seq<string>)
    requires |dotted| == |words|
    requires forall i :: 0 <= i < |words| ==> dotted[i] == "." + words[i]
    ensures "." + x in dotted <==> x in words
  {
    if "." + x in dotted {
      var i :| 0 <= i < |dotted| && dotted[i] == "." + x;
      assert ("." + x)[1..] == x && ("." + words[i])[1..] == words[i];
    }
    if x in words {
      var i :| 0 <= i < |words| && words[i] == x;
      assert dotted[i] == "." + x;
    }
  }

  /** The dispatch on extensions: for a name whose final component is not all dots
      followed by `.e`, the third feature is the import count when `e` lower-cases to
      exe, dll or bin, the zip score when it lower-cases to zip, and 0 otherwise. */
  lemma DispatchByExtension(root: string, e: string, file: FileView, peAvailable: bool,
                            shannon: (seq<nat>, nat) -> real)
    requires '.' !in e && '/' !in e
    requires LeadingDots(FinalComponent(root)) < |FinalComponent(root)|
    requires file.size.Returned?
    ensures var f := FeaturesOf(root + "." + e, file, peAvailable, shannon);
      && (Lower(e) in ["exe", "dll", "bin"] ==> f.importsCount == PeImportsCount(peAvailable, file.pe))
      && (Lower(e) == "zip" ==> f.importsCount == ZipScore(file.archive))
      && (Lower(e) !in ["exe", "dll", "bin", "zip"] ==> f.importsCount == 0)
  {
    SplitextOfExtension(root, e);
    var x := Lower(e);
    assert Lower("." + e) == "." + x;
    DotPrefixedIn(x, ["exe", "dll", "bin"], PeExtensions);
    DotPrefixedIn(x, ["zip"], [".zip"]);
  }

  /** A file whose name has no extension gets 0 as its third feature. */
  lemma NoExtensionNotInspected(p: string, file: FileView, peAvailable: bool,
                                shannon: (seq<nat>, nat) -> real)
    requires SplitextExt(p) == []
    requires file.size.Returned?
    ensures FeaturesOf(p, file, peAvailable, shannon).importsCount == 0
  {
    assert Lower(SplitextExt(p)) == [];
  }

  /** A file whose final path component has no '.' (`uploads/README`) has no
      extension, so its third feature is 0. */
  lemma NoDotNotInspected(p: string, file: FileView, peAvailable: bool,
                          shannon: (seq<nat>, nat) -> real)
    requires '.' !in FinalComponent(p)
    requires file.size.Returned?
    ensures FeaturesOf(p, file, peAvailable, shannon).importsCount == 0
  {
    NoDotNoExtension(p);
    NoExtensionNotInspected(p, file, peAvailable, shannon);
  }

  /** A file whose name is a dot followed by a known extension (`uploads/.exe`) has
      no extension, so its third feature is 0. */
  lemma DotFileNotInspected(dir: string, e: string, file: FileView, peAvailable: bool,
                            shannon: (seq<nat>, nat) -> real)
    requires '.' !in e && '/' !in e
    requires file.size.Returned?
    ensures FeaturesOf(dir + "/." + e, file, peAvailable, shannon).importsCount == 0
  {
    DotFileHasNoExtension(dir, e);
    NoExtensionNotInspected(dir + "/." + e, file, peAvailable, shannon);
  }
}
