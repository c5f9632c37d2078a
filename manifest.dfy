/** The header at the top of the combined text (lines 80-88 of the script):
    a title, three facts about the run, the list of files found and the line
    that opens the content. */
module ManifestText {
  import opened Wrappers
  import opened Text

  const Title := "=== TS/TSX Content Compilation ==="
  const GeneratedPrefix := "Generated on: "
  const SourcePrefix := "Source folder: "
  const CountPrefix := "Total files found: "
  const ListHeading := "Files found in:"
  const ItemPrefix := "- "
  const ContentStart := "=== Content Starts Here ==="

  /** What the header records: the timestamp text, the absolute source folder
      and the files found, relative to that folder, in listing order. */
  datatype Manifest = Manifest(generatedAt: string, sourceFolder: string, relativePaths: seq<string>)

  /** One "- <path>" line per file. */
  function ListingLines(paths: seq<string>): (ls: seq<string>)
    ensures |ls| == |paths|
    ensures forall i :: 0 <= i < |paths| ==> ls[i] == ItemPrefix + paths[i]
  {
    seq(|paths|, i requires 0 <= i < |paths| => ItemPrefix + paths[i])
  }

  /** The listing of two runs of paths is the listing of the first followed by
      that of the second: the `forEach` can append it one line at a time. */
  lemma ListingAppend(a: seq<string>, b: seq<string>)
    ensures Unlines(ListingLines(a + b)) == Unlines(ListingLines(a)) + Unlines(ListingLines(b))
  {
    assert ListingLines(a + b) == ListingLines(a) + ListingLines(b);
    UnlinesAppend(ListingLines(a), ListingLines(b));
  }

  function HeadLines(generatedAt: string, sourceFolder: string, count: nat): seq<string> {
    [Title, GeneratedPrefix + generatedAt, SourcePrefix + sourceFolder,
     CountPrefix + Decimal(count), ListHeading]
  }

  const TailLines: seq<string> := ["", ContentStart]

  function ManifestLines(m: Manifest): seq<string> {
    HeadLines(m.generatedAt, m.sourceFolder, |m.relativePaths|)
      + ListingLines(m.relativePaths) + TailLines
  }

  /** The header text: every line ends with a line feed, so the block that
      follows opens right after the `=== Content Starts Here ===` line. */
  function Render(m: Manifest): (r: string)
    ensures Title + "\n" <= r
    ensures |r| >= |ContentStart| + 2
    ensures r[|r| - |ContentStart| - 2..] == "\n" + ContentStart + "\n"
  {
    var ls := ManifestLines(m);
    var front := HeadLines(m.generatedAt, m.sourceFolder, |m.relativePaths|)
      + ListingLines(m.relativePaths);
    UnlinesAppend(front, TailLines);
    assert ls == front + TailLines;
    assert TailLines[1..] == [ContentStart] && [ContentStart][1..] == [];
    assert Unlines([ContentStart]) == ContentStart + "\n";
    assert Unlines(TailLines) == "\n" + ContentStart + "\n";
    assert Unlines(ls) == Title + "\n" + Unlines(ls[1..]);
    Unlines(ls)
  }

  predicate AllDigits(s: string) {
    forall i :: 0 <= i < |s| ==> IsDigit(s[i])
  }

  /** Reads a header back: the fixed lines must be in place, and the number on
      the count line must equal the number of "- " lines. */
  function Parse(text: string): (r: Option<Manifest>)
    ensures r.Some? ==> |Lines(text)| == 7 + |r.value.relativePaths|
  {
    var ls := Lines(text);
    if |ls| < 7 then None
    else
      var n := |ls| - 7;
      var count := ls[3];
      if ls[0] == Title && GeneratedPrefix <= ls[1] && SourcePrefix <= ls[2]
         && CountPrefix <= count && |count| > |CountPrefix| && AllDigits(count[|CountPrefix|..])
         && DecimalValue(count[|CountPrefix|..]) == n
         && ls[4] == ListHeading && ls[5 + n..] == TailLines
         && (forall i :: 5 <= i < 5 + n ==> ItemPrefix <= ls[i])
      then
        Some(Manifest(ls[1][|GeneratedPrefix|..], ls[2][|SourcePrefix|..],
                      seq(n, i requires 0 <= i < n => ls[5 + i][|ItemPrefix|..])))
      else None
  }

  /** Every field fits on one line. */
  predicate SingleLineFields(m: Manifest) {
    && '\n' !in m.generatedAt && '\n' !in m.sourceFolder
    && forall i :: 0 <= i < |m.relativePaths| ==> '\n' !in m.relativePaths[i]
  }

  lemma NoLineFeedConcat(a: string, b: string)
    requires '\n' !in a && '\n' !in b
    ensures '\n' !in a + b
  {
    assert forall k :: 0 <= k < |a + b| ==> (a + b)[k] == if k < |a| then a[k] else b[k - |a|];
  }

  lemma DigitsHaveNoLineFeed(s: string)
    requires AllDigits(s)
    ensures '\n' !in s
  {
    forall k | 0 <= k < |s| ensures s[k] != '\n' {
      assert IsDigit(s[k]);
    }
  }

  predicate SingleLines(ls: seq<string>) {
    forall i :: 0 <= i < |ls| ==> '\n' !in ls[i]
  }

  lemma SingleLinesConcat(a: seq<string>, b: seq<string>)
    requires SingleLines(a) && SingleLines(b)
    ensures SingleLines(a + b)
  {
    forall i | 0 <= i < |a + b| ensures '\n' !in (a + b)[i] {
      if i < |a| { assert (a + b)[i] == a[i]; } else { assert (a + b)[i] == b[i - |a|]; }
    }
  }

  lemma FixedTextSingleLine()
    ensures '\n' !in Title && '\n' !in ListHeading
    ensures '\n' !in GeneratedPrefix && '\n' !in SourcePrefix && '\n' !in CountPrefix
  {
  }

  lemma HeadSingleLines(generatedAt: string, sourceFolder: string, count: nat)
    requires '\n' !in generatedAt && '\n' !in sourceFolder
    ensures SingleLines(HeadLines(generatedAt, sourceFolder, count))
  {
    var digits := Decimal(count);
    FixedTextSingleLine();
    DigitsHaveNoLineFeed(digits);
    NoLineFeedConcat(GeneratedPrefix, generatedAt);
    NoLineFeedConcat(SourcePrefix, sourceFolder);
    NoLineFeedConcat(CountPrefix, digits);
  }

  lemma ListingSingleLines(paths: seq<string>)
    requires forall i :: 0 <= i < |paths| ==> '\n' !in paths[i]
    ensures SingleLines(ListingLines(paths))
  {
    forall i | 0 <= i < |paths| ensures '\n' !in ListingLines(paths)[i] {
      NoLineFeedConcat(ItemPrefix, paths[i]);
    }
  }

  /** Splitting the rendered header recovers its lines. */
  lemma RenderLines(m: Manifest)
    requires SingleLineFields(m)
    ensures Lines(Render(m)) == ManifestLines(m)
  {
    var head := HeadLines(m.generatedAt, m.sourceFolder, |m.relativePaths|);
    var listing := ListingLines(m.relativePaths);
    HeadSingleLines(m.generatedAt, m.sourceFolder, |m.relativePaths|);
    ListingSingleLines(m.relativePaths);
    assert SingleLines(TailLines);
    SingleLinesConcat(head, listing);
    SingleLinesConcat(head + listing, TailLines);
    LinesOfUnlines(ManifestLines(m));
  }

  /** A header whose fields hold no line feed reads back as exactly what was
      rendered: the count line agrees with the list, and the list gives every
      path once, in order. */
  lemma ParseRender(m: Manifest)
    requires SingleLineFields(m)
    ensures Parse(Render(m)) == Some(m)
  {
    var ls := ManifestLines(m);
    var n := |m.relativePaths|;
    var listing := ListingLines(m.relativePaths);
    RenderLines(m);
    assert |ls| == 7 + n;
    assert ls[3][|CountPrefix|..] == Decimal(n);
    DecimalRoundTrip(n);
    assert ls[5 + n..] == TailLines;
    assert forall i :: 5 <= i < 5 + n ==> ls[i] == listing[i - 5];
    assert ls[1][|GeneratedPrefix|..] == m.generatedAt;
    assert ls[2][|SourcePrefix|..] == m.sourceFolder;
    assert seq(n, i requires 0 <= i < n => ls[5 + i][|ItemPrefix|..]) == m.relativePaths;
  }
}
