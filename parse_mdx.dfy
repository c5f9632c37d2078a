/** `parseMdxFiles` (lines 46-136 of the script): walk the folder, refuse an
    empty result, sort the paths, write the header and then one block per file,
    and trim the whole text. The file system is the tree of `FileTree`; the
    text that would be written to the output file is the result. */
module ParseMdx {
  import opened Wrappers
  import opened Text
  import opened PathOrder
  import opened FileTree
  import opened PlainText
  import opened ManifestText

  /** Why the whole run fails. */
  datatype Error =
    | FolderNotFound(folder: Path)          // `access` fails on the folder
    | DirectoryReadError(directory: Path)   // `readdir` fails somewhere in the walk
    | NoFilesFound                          // the walk found nothing

  /** The message of the error thrown, where the script writes it itself; the
      message of a failed `readdir` comes from the file system. */
  function Message(e: Error): (m: Option<string>)
    ensures m.Some? <==> !e.DirectoryReadError?
  {
    match e
    case FolderNotFound(folder) => Some("Folder not found: " + folder)
    case DirectoryReadError(_) => None
    case NoFilesFound => Some("No MDX files found in the specified folder or its subfolders")
  }

  /** `path.relative(folder, p)` for a path below `folder`. */
  function Relative(folder: Path, p: Path): (r: string)
    requires folder + "/" <= p
    ensures folder + "/" + r == p
  {
    p[|folder| + 1..]
  }

  function RelativePaths(folder: Path, paths: seq<Path>): (rs: seq<string>)
    requires AllUnder(folder, paths)
    ensures |rs| == |paths|
    ensures forall i :: 0 <= i < |paths| ==> folder + "/" + rs[i] == paths[i]
  {
    seq(|paths|, i requires 0 <= i < |paths| => Relative(folder, paths[i]))
  }

  /** What the loop body appends for one file: a headed block with the
      normalised text, or an error line naming the absolute path. */
  function FileBlock(folder: Path, p: Path, outcome: ReadOutcome): (r: string)
    requires folder + "/" <= p
    ensures |r| > 2 && r[..2] == "\n\n" && !IsSpace(r[2])
    ensures r[|r| - 2..] == "\n\n"
  {
    match outcome
    case Read(text) =>
      BlockShape("\n\n=== File: ", Relative(folder, p), " ===\n\n", Normalize(text));
      "\n\n=== File: " + Relative(folder, p) + " ===\n\n" + Normalize(text) + "\n\n"
    case ReadError(message) =>
      BlockShape("\n\nError processing file ", p, ": ", message);
      "\n\nError processing file " + p + ": " + message + "\n\n"
  }

  /** A text made of a heading that opens with two line feeds and a visible
      character, three more pieces, and two closing line feeds. */
  lemma BlockShape(head: string, a: string, b: string, c: string)
    requires |head| > 2 && head[..2] == "\n\n" && !IsSpace(head[2])
    ensures var r := head + a + b + c + "\n\n";
      |r| > 2 && r[..2] == "\n\n" && !IsSpace(r[2]) && r[|r| - 2..] == "\n\n"
  {
    var r := head + a + b + c + "\n\n";
    assert r[..2] == head[..2] && r[2] == head[2];
  }

  /** The blocks for `paths`, in order, each file read from the entries `es`. */
  function ContentBlocks(folder: Path, es: seq<(Path, Node)>, paths: seq<Path>): (r: string)
    requires AllUnder(folder, paths)
    ensures r == [] <==> paths == []
    ensures paths != [] ==> FileBlock(folder, paths[0], ReadFile(es, paths[0])) <= r
  {
    if paths == [] then ""
    else
      var last := paths[|paths| - 1];
      ContentBlocks(folder, es, paths[..|paths| - 1]) + FileBlock(folder, last, ReadFile(es, last))
  }

  function ManifestOf(folder: Path, generatedAt: string, sorted: seq<Path>): Manifest
    requires AllUnder(folder, sorted)
  {
    Manifest(generatedAt, folder, RelativePaths(folder, sorted))
  }

  /** The text assembled before the final trim. */
  function Assembled(folder: Path, generatedAt: string, es: seq<(Path, Node)>, sorted: seq<Path>): string
    requires AllUnder(folder, sorted)
  {
    Render(ManifestOf(folder, generatedAt, sorted)) + ContentBlocks(folder, es, sorted)
  }

  lemma SortedUnder(folder: Path, dir: Node)
    requires GetAllCodeFiles(folder, dir).Success?
    ensures AllUnder(folder, SortPaths(GetAllCodeFiles(folder, dir).value))
  {
    var paths := GetAllCodeFiles(folder, dir).value;
    var sorted := SortPaths(paths);
    forall i | 0 <= i < |sorted| ensures folder + "/" <= sorted[i] {
      assert sorted[i] in multiset(sorted);
      assert sorted[i] in paths;
    }
  }

  /** The result of the whole run, for the folder `folder` (already made
      absolute), the entry found there (`None` when nothing is) and the
      timestamp text. */
  function Outcome(folder: Path, top: Option<Node>, generatedAt: string): (r: Result<string, Error>)
    ensures r == Failure(FolderNotFound(folder)) <==> top.None?
    ensures r == Failure(NoFilesFound) <==> top.Some? && GetAllCodeFiles(folder, top.value) == Success([])
    ensures r.Failure? && r.error.DirectoryReadError? ==>
      top.Some? && GetAllCodeFiles(folder, top.value) == Failure(r.error.directory) && folder <= r.error.directory
    ensures r.Success? ==> top.Some? && GetAllCodeFiles(folder, top.value).Success?
  {
    if top.None? then Failure(FolderNotFound(folder))
    else
      var walk := GetAllCodeFiles(folder, top.value);
      if walk.Failure? then Failure(DirectoryReadError(walk.error))
      else if walk.value == [] then Failure(NoFilesFound)
      else
        var sorted := SortPaths(walk.value);
        SortedUnder(folder, top.value);
        Success(Trim(Assembled(folder, generatedAt, Entries(folder, top.value.children), sorted)))
  }

  // ---------------------------------------------------------------------------
  // The script, step by step

  /** `parseMdxFiles`: the checks that end the run early, the sort, then the
      header and the content blocks appended to one growing text, which is
      trimmed at the end. */
  method ParseMdxFiles(folder: Path, top: Option<Node>, generatedAt: string)
    returns (r: Result<string, Error>)
    ensures r == Outcome(folder, top, generatedAt)
  {
    if top.None? {
      return Failure(FolderNotFound(folder));
    }
    var walk := GetAllCodeFiles(folder, top.value);
    if walk.Failure? {
      return Failure(DirectoryReadError(walk.error));
    }
    var paths := walk.value;
    if |paths| == 0 {
      return Failure(NoFilesFound);
    }
    paths := SortPaths(paths);
    SortedUnder(folder, top.value);
    var combined := WriteHeader(folder, generatedAt, paths);
    combined := AppendContent(combined, folder, Entries(folder, top.value.children), paths);
    r := Success(Trim(combined));
  }

  /** The header, appended line by line, with a `forEach` over the sorted paths
      for the listing (lines 77-88 of the script). */
  method WriteHeader(folder: Path, generatedAt: string, paths: seq<Path>) returns (combined: string)
    requires AllUnder(folder, paths)
    ensures combined == Render(ManifestOf(folder, generatedAt, paths))
  {
    combined := "";
    combined := combined + Title + "\n";
    combined := combined + GeneratedPrefix + generatedAt + "\n";
    combined := combined + SourcePrefix + folder + "\n";
    combined := combined + CountPrefix + Decimal(|paths|) + "\n";
    combined := combined + ListHeading + "\n";
    var head := Unlines(HeadLines(generatedAt, folder, |paths|));
    assert combined == head by { HeadText(generatedAt, folder, |paths|); }

    var i := 0;
    while i < |paths|
      invariant 0 <= i <= |paths|
      invariant combined == head + Unlines(ListingLines(RelativePaths(folder, paths[..i])))
    {
      ListingStep(folder, paths, i);
      combined := combined + ItemPrefix + Relative(folder, paths[i]) + "\n";
      i := i + 1;
    }
    combined := combined + "\n" + ContentStart + "\n";
    assert paths[..i] == paths;
    RenderSplit(ManifestOf(folder, generatedAt, paths));
  }

  /** The loop over the sorted paths (lines 91-117 of the script): each file is
      read and appended as a block, and a failed read appends an error line
      instead of stopping the loop. */
  method AppendContent(start: string, folder: Path, es: seq<(Path, Node)>, paths: seq<Path>)
    returns (combined: string)
    requires AllUnder(folder, paths)
    ensures combined == start + ContentBlocks(folder, es, paths)
  {
    combined := start;
    var j := 0;
    while j < |paths|
      invariant 0 <= j <= |paths|
      invariant combined == start + ContentBlocks(folder, es, paths[..j])
    {
      var p := paths[j];
      ghost var before := combined;
      var outcome := ReadFile(es, p);
      match outcome {
        case Read(text) =>
          var relativePath := Relative(folder, p);
          combined := combined + "\n\n=== File: " + relativePath + " ===\n\n";
          combined := combined + Normalize(text);
          combined := combined + "\n\n";
        case ReadError(message) =>
          combined := combined + "\n\nError processing file " + p + ": " + message + "\n\n";
      }
      BlockAppended(before, folder, p, outcome);
      BlocksStep(start, folder, es, paths, j);
      j := j + 1;
    }
    assert paths[..j] == paths;
  }

  /** Concatenation regrouped, as one small fact the proofs of the loops cite. */
  lemma Assoc(a: string, b: string, c: string)
    ensures (a + b) + c == a + (b + c)
  {
  }

  /** Appending a block piece by piece, as the loop body does, appends the block. */
  lemma BlockAppended(before: string, folder: Path, p: Path, outcome: ReadOutcome)
    requires folder + "/" <= p
    ensures outcome.Read? ==>
      before + "\n\n=== File: " + Relative(folder, p) + " ===\n\n" + Normalize(outcome.text) + "\n\n"
        == before + FileBlock(folder, p, outcome)
    ensures outcome.ReadError? ==>
      before + "\n\nError processing file " + p + ": " + outcome.message + "\n\n"
        == before + FileBlock(folder, p, outcome)
  {
    if outcome.Read? {
      var x1, rel, x2, n, x3 := "\n\n=== File: ", Relative(folder, p), " ===\n\n", Normalize(outcome.text), "\n\n";
      Assoc(before, x1 + rel + x2 + n, x3);
      Assoc(before, x1 + rel + x2, n);
      Assoc(before, x1 + rel, x2);
      Assoc(before, x1, rel);
    } else {
      var x1, x2, msg, x3 := "\n\nError processing file ", ": ", outcome.message, "\n\n";
      Assoc(before, x1 + p + x2 + msg, x3);
      Assoc(before, x1 + p + x2, msg);
      Assoc(before, x1 + p, x2);
      Assoc(before, x1, p);
    }
  }

  lemma BlocksStep(header: string, folder: Path, es: seq<(Path, Node)>, paths: seq<Path>, j: nat)
    requires AllUnder(folder, paths) && j < |paths|
    ensures header + ContentBlocks(folder, es, paths[..j + 1])
      == header + ContentBlocks(folder, es, paths[..j]) + FileBlock(folder, paths[j], ReadFile(es, paths[j]))
  {
    assert paths[..j + 1][..j] == paths[..j];
    Assoc(header, ContentBlocks(folder, es, paths[..j]), FileBlock(folder, paths[j], ReadFile(es, paths[j])));
  }

  lemma UnlinesFive(a: string, b: string, c: string, d: string, e: string)
    ensures Unlines([a, b, c, d, e]) == a + "\n" + b + "\n" + c + "\n" + d + "\n" + e + "\n"
  {
    var ls := [a, b, c, d, e];
    assert Unlines(ls[4..]) == e + "\n" by { assert ls[4..][1..] == []; }
    assert Unlines(ls[3..]) == d + "\n" + Unlines(ls[4..]) by { assert ls[3..][1..] == ls[4..]; }
    assert Unlines(ls[2..]) == c + "\n" + Unlines(ls[3..]) by { assert ls[2..][1..] == ls[3..]; }
    assert Unlines(ls[1..]) == b + "\n" + Unlines(ls[2..]) by { assert ls[1..][1..] == ls[2..]; }
  }

  lemma HeadText(generatedAt: string, folder: Path, count: nat)
    ensures Unlines(HeadLines(generatedAt, folder, count))
      == "" + Title + "\n" + GeneratedPrefix + generatedAt + "\n" + SourcePrefix + folder + "\n"
         + CountPrefix + Decimal(count) + "\n" + ListHeading + "\n"
  {
    var x1 := "" + Title + "\n";
    var x2 := x1 + GeneratedPrefix + generatedAt + "\n";
    var x3 := x2 + SourcePrefix + folder + "\n";
    var x4 := x3 + CountPrefix + Decimal(count) + "\n";
    UnlinesFive(Title, GeneratedPrefix + generatedAt, SourcePrefix + folder,
                CountPrefix + Decimal(count), ListHeading);
    assert "" + Title == Title;
    Assoc(x1, GeneratedPrefix, generatedAt);
    Assoc(x2, SourcePrefix, folder);
    Assoc(x3, CountPrefix, Decimal(count));
  }

  lemma ListingStep(folder: Path, paths: seq<Path>, i: nat)
    requires AllUnder(folder, paths) && i < |paths|
    ensures Unlines(ListingLines(RelativePaths(folder, paths[..i + 1])))
      == Unlines(ListingLines(RelativePaths(folder, paths[..i]))) + ItemPrefix + Relative(folder, paths[i]) + "\n"
  {
    var rel := Relative(folder, paths[i]);
    assert RelativePaths(folder, paths[..i + 1]) == RelativePaths(folder, paths[..i]) + [rel];
    ListingAppend(RelativePaths(folder, paths[..i]), [rel]);
    assert Unlines(ListingLines([rel])) == ItemPrefix + rel + "\n" by {
      assert ListingLines([rel]) == [ItemPrefix + rel];
      assert [ItemPrefix + rel][1..] == [];
    }
  }

  lemma RenderSplit(m: Manifest)
    ensures Render(m) == Unlines(HeadLines(m.generatedAt, m.sourceFolder, |m.relativePaths|))
      + Unlines(ListingLines(m.relativePaths)) + "\n" + ContentStart + "\n"
  {
    var head := HeadLines(m.generatedAt, m.sourceFolder, |m.relativePaths|);
    var listing := ListingLines(m.relativePaths);
    UnlinesAppend(head, listing);
    UnlinesAppend(head + listing, TailLines);
    assert Unlines(TailLines) == "\n" + ContentStart + "\n" by {
      assert TailLines[1..][1..] == [];
      assert Unlines(TailLines[1..]) == ContentStart + "\n";
    }
  }

  // ---------------------------------------------------------------------------
  // Properties of the run

  /** The run succeeds exactly when the folder exists, is a listable directory
      with no unlistable directory below it, and holds at least one code file;
      what the files contain, and whether they can be read, does not matter. */
  lemma OutcomeSucceedsIff(folder: Path, top: Option<Node>, generatedAt: string)
    ensures Outcome(folder, top, generatedAt).Success? <==>
      && top.Some? && top.value.Directory? && top.value.listable
      && AllListable(Entries(folder, top.value.children))
      && CodePaths(Entries(folder, top.value.children)) != []
  {
    if top.Some? {
      WalkSpec(folder, top.value);
    }
  }

  /** Each way the run can fail, and what it says. */
  lemma OutcomeErrors(folder: Path, top: Option<Node>, generatedAt: string)
    ensures Outcome(folder, top, generatedAt) == Failure(FolderNotFound(folder)) <==> top.None?
    ensures Outcome(folder, top, generatedAt) == Failure(NoFilesFound) <==>
      && top.Some? && top.value.Directory? && top.value.listable
      && AllListable(Entries(folder, top.value.children))
      && CodePaths(Entries(folder, top.value.children)) == []
    ensures top.Some? && Outcome(folder, top, generatedAt).Failure? &&
            Outcome(folder, top, generatedAt).error.DirectoryReadError? ==>
      var d := Outcome(folder, top, generatedAt).error.directory;
      || (d == folder && !(top.value.Directory? && top.value.listable))
      || (top.value.Directory? &&
          var es := Entries(folder, top.value.children);
          exists i :: 0 <= i < |es| && IsUnlistable(es[i]) && es[i].0 == d)
  {
    if top.Some? {
      WalkSpec(folder, top.value);
      if GetAllCodeFiles(folder, top.value).Failure? {
        WalkFailure(folder, top.value);
      }
    }
  }

  /** The content is one block per path, in the order of the paths: the blocks
      of two runs of paths are the blocks of the first followed by those of the
      second. */
  lemma {:induction false} ContentBlocksAppend(folder: Path, es: seq<(Path, Node)>, a: seq<Path>, b: seq<Path>)
    requires AllUnder(folder, a) && AllUnder(folder, b)
    ensures AllUnder(folder, a + b)
    ensures ContentBlocks(folder, es, a + b) == ContentBlocks(folder, es, a) + ContentBlocks(folder, es, b)
    decreases |b|
  {
    AllUnderAppend(folder, a, b);
    if b == [] {
      assert a + b == a;
    } else {
      var init := b[..|b| - 1];
      var last := b[|b| - 1];
      assert AllUnder(folder, init) by {
        forall i | 0 <= i < |init| ensures folder + "/" <= init[i] { assert init[i] == b[i]; }
      }
      assert (a + b)[..|a + b| - 1] == a + init;
      assert (a + b)[|a + b| - 1] == last;
      ContentBlocksAppend(folder, es, a, init);
      Assoc(ContentBlocks(folder, es, a), ContentBlocks(folder, es, init), FileBlock(folder, last, ReadFile(es, last)));
    }
  }

  /** The collected paths after sorting. */
  function SortedCollected(folder: Path, dir: Node): (sorted: seq<Path>)
    requires GetAllCodeFiles(folder, dir).Success?
    ensures AllUnder(folder, sorted)
    ensures Sorted(sorted) && multiset(sorted) == multiset(GetAllCodeFiles(folder, dir).value)
  {
    SortedUnder(folder, dir);
    SortPaths(GetAllCodeFiles(folder, dir).value)
  }

  /** The final trim removes only trailing whitespace and never reaches into the
      header, because every block opens with two line feeds and a visible
      character: the written text still opens with the whole header, and so
      with the title line. */
  lemma OutcomeHeader(folder: Path, top: Option<Node>, generatedAt: string)
    requires Outcome(folder, top, generatedAt).Success?
    ensures var m := ManifestOf(folder, generatedAt, SortedCollected(folder, top.value));
      && Render(m) <= Outcome(folder, top, generatedAt).value
      && Title + "\n" <= Outcome(folder, top, generatedAt).value
  {
    var dir := top.value;
    var sorted := SortedCollected(folder, dir);
    var es := Entries(folder, dir.children);
    var m := ManifestOf(folder, generatedAt, sorted);
    var b := FileBlock(folder, sorted[0], ReadFile(es, sorted[0]));
    assert ContentBlocks(folder, es, sorted)[2] == b[2];
    TrimKeepsHeader(Render(m), ContentBlocks(folder, es, sorted));
  }

  lemma TrimKeepsHeader(header: string, blocks: string)
    requires Title + "\n" <= header
    requires |blocks| > 2 && !IsSpace(blocks[2])
    ensures header <= Trim(header + blocks)
  {
    var s := header + blocks;
    assert s[0] == Title[0];
    assert s[|header| + 2] == blocks[2];
    TrimKeepsPrefix(s, |header| + 2);
    assert header <= s[..|header| + 3];
  }

  /** The header lists the collected files, relative to the folder, in sorted
      order and one each, and its count is their number. */
  lemma ManifestListsCollected(folder: Path, dir: Node, generatedAt: string)
    requires GetAllCodeFiles(folder, dir).Success?
    ensures var paths := GetAllCodeFiles(folder, dir).value;
      var m := ManifestOf(folder, generatedAt, SortedCollected(folder, dir));
      && |m.relativePaths| == |paths|
      && Sorted(m.relativePaths)
      && (forall i :: 0 <= i < |paths| ==> folder + "/" + m.relativePaths[i] == SortedCollected(folder, dir)[i])
      && multiset(SortedCollected(folder, dir)) == multiset(paths)
  {
    var sorted := SortedCollected(folder, dir);
    var paths := GetAllCodeFiles(folder, dir).value;
    assert |sorted| == |multiset(sorted)| == |multiset(paths)| == |paths|;
    RelativesSorted(folder, sorted);
  }

  /** A common folder prefix does not change the order. */
  lemma RelativesSorted(folder: Path, sorted: seq<Path>)
    requires AllUnder(folder, sorted) && Sorted(sorted)
    ensures Sorted(RelativePaths(folder, sorted))
  {
    var rel := RelativePaths(folder, sorted);
    forall i, j | 0 <= i < j < |rel| ensures LexLeq(rel[i], rel[j]) {
      LexLeqCommonPrefix(folder + "/", rel[i], rel[j]);
    }
  }

  /** When no field holds a line feed, the header at the top of the written
      text reads back as the listing of the collected files. */
  lemma ManifestReadsBack(folder: Path, dir: Node, generatedAt: string)
    requires GetAllCodeFiles(folder, dir).Success?
    requires '\n' !in folder && '\n' !in generatedAt
    requires forall p :: p in GetAllCodeFiles(folder, dir).value ==> '\n' !in p
    ensures var m := ManifestOf(folder, generatedAt, SortedCollected(folder, dir));
      Parse(Render(m)) == Some(m)
  {
    var sorted := SortedCollected(folder, dir);
    var m := ManifestOf(folder, generatedAt, sorted);
    forall i | 0 <= i < |sorted| ensures '\n' !in m.relativePaths[i] {
      assert sorted[i] in multiset(sorted);
      assert sorted[i] in GetAllCodeFiles(folder, dir).value;
      assert m.relativePaths[i] == sorted[i][|folder| + 1..];
    }
    ParseRender(m);
  }

  /** The block for a collected file shows its normalised text under its
      relative path when the file could be read, and the absolute path with the
      error message when it could not. */
  lemma BlockOfCollected(folder: Path, dir: Node, p: Path)
    requires GetAllCodeFiles(folder, dir).Success? && p in GetAllCodeFiles(folder, dir).value
    ensures folder + "/" <= p
    ensures var es := Entries(folder, dir.children);
      exists i :: 0 <= i < |es| && es[i].0 == p && IsCodeFile(es[i]) &&
        FileBlock(folder, p, ReadFile(es, p)) ==
          match es[i].1.content
          case Read(text) => "\n\n=== File: " + p[|folder| + 1..] + " ===\n\n" + Normalize(text) + "\n\n"
          case ReadError(message) => "\n\nError processing file " + p + ": " + message + "\n\n"
  {
    WalkSpec(folder, dir);
    ReadCollected(folder, dir.children, p);
  }
}
