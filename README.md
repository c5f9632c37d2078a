# parseNextJs: directory walk and content compilation

This project models the documentation-ingestion script `scripts/parseNextJs.ts`.
The script walks a source folder and collects every regular file whose name ends
in ".ts" or "tsx". It sorts the paths and writes one text. The text opens with a
header that lists the files, followed by one block per file. A block holds the
file's text after a whitespace and markup clean-up, or an error line when the
file could not be read. The whole text is trimmed before it is written.

The file system is a tree value (`FileTree.Node`). A `Directory` has a
`listable` flag (`readdir` throws on it when the flag is false) and its children
in listing order. A `File` carries what `readFile` gives, either its text or an
error message. `Other` stands for any other kind of entry.

Modules, in dependency order:

- `Wrappers`: `Option` and `Result`.
- `Text`: the ECMAScript whitespace and line-terminator sets, line splitting, and decimal numbers.
- `PathOrder`: the default `sort()` order on strings, and a sort proved to give a sorted permutation.
- `FileTree`: `getAllCodeFiles`, with a pre-order enumeration of the tree as its reference definition.
- `PlainText`: the five clean-up steps, each as an explicit string function.
- `ManifestText`: the header, as a value with a `Render`/`Parse` round trip.
- `ParseMdx`: `parseMdxFiles`, as a method with the header and content loops. It is proved equal to the function `Outcome`.

On `"  a\n\nb   <div>x</div>  "` the clean-up gives `"a b x"`: only the tags are
removed and the text between them stays (`PlainText.NormalizeSample`).

Each regular-expression replacement scans its input once and does not rescan
what it leaves behind. Removing `` {`…`} `` spans from `` {{`a`}`x`} `` therefore
leaves `` {`x`} `` (`PlainText.SampleTemplateRejoins`).

The name test `endsWith(".ts") || endsWith("tsx")` also accepts a name such as
"footsx", which has no dot. The model keeps this behaviour (`FileTree.SampleWalk`).

## Model

| member | source | states |
|---|---|---|
| FileTree.GetAllCodeFiles | scripts/parseNextJs.ts:4-39 | Every path the walk returns lies below the starting path, and a failure names the starting path or a path below it. |
| FileTree.CollectEntries | scripts/parseNextJs.ts:11-32 | Every path collected from a directory's entries lies below that directory, and a failure names a path below it. |
| FileTree.IsCodeFileName | scripts/parseNextJs.ts:20 | Names ending in ".ts" or ".tsx" pass. Any other name that passes ends in "tsx" with no dot before it. |
| FileTree.WalkSpec | scripts/parseNextJs.ts:4-39 | The walk succeeds exactly when it starts on a listable directory and no directory below it is unlistable. It then returns the code-file paths below it, in pre-order. Nothing partial is returned. |
| FileTree.CollectEntriesSpec | scripts/parseNextJs.ts:11-32 | Mapping a directory's entries and flattening the results (the `Promise.all` in entry order) succeeds exactly when every directory among the entries' descendants is listable. The result is then the code files of the pre-order enumeration. |
| FileTree.CollectEntriesFailure | scripts/parseNextJs.ts:33-36 | A failed listing of entries names an unlistable directory below them. |
| FileTree.WalkFailure | scripts/parseNextJs.ts:7-8 | A failed walk names the starting path when that entry is not a listable directory. Otherwise it names an unlistable directory below it. |
| FileTree.WalkMembership | scripts/parseNextJs.ts:14-25 | On success, a path is collected exactly when a regular file with that path has a name ending in ".ts" or "tsx". Directories and other entries add no path of their own. |
| FileTree.CodePathsMember | scripts/parseNextJs.ts:18-25 | A path is among the code paths of an enumeration exactly when some code-file entry has that path. |
| FileTree.SampleWalk | scripts/parseNextJs.ts:14-25 | Under any root, "config.ts" and "footsx" are collected and "notes.md" is not. A non-file entry named "link.ts" is skipped. A subdirectory is descended into, even when its file is unreadable. |
| FileTree.Join | scripts/parseNextJs.ts:12 | The joined path is the directory, a "/" separator and the name, recoverable after the separator. |
| FileTree.EntriesUnder | scripts/parseNextJs.ts:12 | Every enumerated path starts with the starting directory and "/". |
| FileTree.EntriesNamed | scripts/parseNextJs.ts:12 | Every enumerated path ends with "/" followed by that entry's name. |
| FileTree.SameBranch | scripts/parseNextJs.ts:12 | A path determines which child of a directory it lies under, when names hold no separator. |
| FileTree.DifferentBranches | scripts/parseNextJs.ts:12 | Paths under two differently named children differ. |
| FileTree.EntriesDistinct | scripts/parseNextJs.ts:11-32 | When entry names hold no separator and siblings are named apart, no two enumerated entries share a path. |
| FileTree.CodePathsDistinct | scripts/parseNextJs.ts:29-32 | Distinct entry paths give a list of code paths without duplicates. |
| FileTree.WalkDistinct | scripts/parseNextJs.ts:4-39 | On a tree with well-formed names, the walk never lists a path twice. |
| FileTree.CodeNameByPath | scripts/parseNextJs.ts:20 | Whether a name passes the suffix test can be read off any path that ends in "/" and that name. |
| FileTree.ReadFile | scripts/parseNextJs.ts:93 | `readFile` returns the outcome stored with a file entry at that path. It is an error when no file entry has that path. |
| FileTree.ReadCollected | scripts/parseNextJs.ts:91-93 | Every collected path is read from a code-file entry at that path, with that entry's stored outcome. |
| PathOrder.LexLeq | scripts/parseNextJs.ts:74 | A prefix of a string sorts no later than the string. |
| PathOrder.LexLeqFirstDifference | scripts/parseNextJs.ts:74 | The order is the dictionary order: one string sorts no later than another exactly when it is a prefix of it, or holds the smaller character at the first position where they differ. |
| PathOrder.LexLeqReflexive | scripts/parseNextJs.ts:74 | The default string order is reflexive. |
| PathOrder.LexLeqTotal | scripts/parseNextJs.ts:74 | The default string order is total. |
| PathOrder.LexLeqAntisymmetric | scripts/parseNextJs.ts:74 | The default string order is antisymmetric. |
| PathOrder.LexLeqTransitive | scripts/parseNextJs.ts:74 | The default string order is transitive. |
| PathOrder.LexLeqCommonPrefix | scripts/parseNextJs.ts:74 | Strings that share a prefix compare as they do without it. |
| PathOrder.Insert | scripts/parseNextJs.ts:74 | Inserting into a sorted list gives a sorted list holding one more copy of the element. |
| PathOrder.SortPaths | scripts/parseNextJs.ts:74 | The sorted list is in order and is a permutation of the input. |
| PathOrder.SortedUnique | scripts/parseNextJs.ts:74 | Two sorted permutations of one collection are equal, so any correct sort gives this result. |
| PathOrder.SortIgnoresWalkOrder | scripts/parseNextJs.ts:63-74 | The sorted list depends only on which paths were collected, not on the order the walk produced them in. |
| Text.IsSpace | scripts/parseNextJs.ts:98-100 | The whitespace class of `trim()` and `\s` includes every line terminator. |
| PlainText.LeadingSpaces | scripts/parseNextJs.ts:98 | Counts the leading whitespace: all of it is whitespace, and the next character is not. |
| PlainText.TrailingSpaces | scripts/parseNextJs.ts:98 | Counts the trailing whitespace: all of it is whitespace, and the character before it is not. |
| PlainText.Trim | scripts/parseNextJs.ts:98 | `trim()` gives the slice between the leading and trailing whitespace. It neither starts nor ends with whitespace, and it is empty only for an all-whitespace input. |
| PlainText.TrimPadded | scripts/parseNextJs.ts:98 | Trimming removes exactly the whitespace padding around a text that starts and ends with a non-space. |
| PlainText.TrimKeepsPrefix | scripts/parseNextJs.ts:128 | Trimming a text that starts with a non-space keeps everything up to any later non-space. |
| PlainText.CollapseSpaces | scripts/parseNextJs.ts:100 | `replace(/\s+/g, " ")` never lengthens the text and leaves only single spaces. It is empty exactly when the input is, and starts with whitespace exactly when the input does. |
| PlainText.Blank | scripts/parseNextJs.ts:100 | Each whitespace character becomes one space and every other character stays. |
| PlainText.Squeeze | scripts/parseNextJs.ts:100 | Squeezing space runs never lengthens the text, keeps its first character, and leaves no two spaces in a row. |
| PlainText.CollapseIsSqueezedBlank | scripts/parseNextJs.ts:100 | `replace(/\s+/g, " ")` equals turning each whitespace character into a space and then squeezing every run of spaces to one. |
| PlainText.WordsStaySeparated | scripts/parseNextJs.ts:100 | A whitespace run between two other characters becomes exactly one space, so the words stay apart. |
| PlainText.CollapseLastChar | scripts/parseNextJs.ts:100 | The collapsed text ends with whitespace exactly when the input does. |
| PlainText.CollapseKeepsText | scripts/parseNextJs.ts:100 | Collapsing keeps every non-whitespace character, in order. |
| PlainText.TrimThenCollapse | scripts/parseNextJs.ts:97-100 | After trimming and collapsing, the text has no whitespace at either end, and every whitespace left is one space between two other characters. |
| PlainText.LazyClose | scripts/parseNextJs.ts:102-105 | A non-greedy match ends where the closing text occurs, at or after the start of the middle part. |
| PlainText.LazyCloseFound | scripts/parseNextJs.ts:102-105 | A non-greedy match ends at the first position where the closing text occurs. Without the `[\s\S]` class, the middle part holds no line terminator. |
| PlainText.LazyCloseMissing | scripts/parseNextJs.ts:102-105 | When a non-greedy match fails, the closing text occurs at no position the middle part can reach. |
| PlainText.StripSpans | scripts/parseNextJs.ts:102-103 | Removing `` {`…`} `` or `<…>` spans never lengthens the text. |
| PlainText.StripSpansKeepsChars | scripts/parseNextJs.ts:102-103 | Span removal only deletes characters: the result is a subsequence of the input. |
| PlainText.SubsequenceDrop | scripts/parseNextJs.ts:102-103 | A subsequence of a suffix is a subsequence of the whole text. |
| PlainText.LazyCloseAtFirst | scripts/parseNextJs.ts:102-103 | A non-greedy match ends at the first occurrence of the closing text when no line terminator comes before it. |
| PlainText.StripSpansRemovesSpan | scripts/parseNextJs.ts:102-103 | A span at the start, whose middle holds no line terminator and no earlier closing text, is removed and the scan goes on after it. |
| PlainText.MiddleAvoidsClose | scripts/parseNextJs.ts:102-103 | A middle part without the closing text's first character holds no occurrence of the closing text. |
| PlainText.SampleTemplateSpan | scripts/parseNextJs.ts:102 | `` a{`x`}b `` becomes `ab`. |
| PlainText.TemplateSpanRejoins | scripts/parseNextJs.ts:102 | Removing a `` {`…`} `` span that follows a "{" can leave a new `` {` `` behind, which the single scan keeps. |
| PlainText.SampleTemplateRejoins | scripts/parseNextJs.ts:102 | `` {{`a`}`x`} `` becomes `` {`x`} ``. |
| PlainText.NoTagLeft | scripts/parseNextJs.ts:103 | In text without line terminators, removing `<…>` spans leaves no `<` with a `>` after it. |
| PlainText.StripSpansTag | scripts/parseNextJs.ts:103 | A tag with no `>` or line terminator inside is removed, and the scan goes on after it. |
| PlainText.TextBetweenTags | scripts/parseNextJs.ts:103 | Text between two tags survives tag removal. |
| PlainText.StripFrontmatter | scripts/parseNextJs.ts:105 | The result is a suffix of the text. The text changes only when it starts with "---", and then exactly the prefix through the first later "---" is removed. A text that starts with "---" is kept only when no later "---" occurs in it. |
| PlainText.Normalize | scripts/parseNextJs.ts:97-105 | The clean-up never lengthens the text and leaves no `<` with a `>` after it. |
| PlainText.NormalizeSample | scripts/parseNextJs.ts:97-105 | `"  a\n\nb   <div>x</div>  "` becomes `"a b x"`. |
| PlainText.SampleTrim | scripts/parseNextJs.ts:98 | The sample's trim removes its outer spaces only. |
| PlainText.SampleCollapse | scripts/parseNextJs.ts:100 | The sample's line feeds and space runs become single spaces. |
| PlainText.SampleTags | scripts/parseNextJs.ts:103 | Tag removal on the sample keeps the text between the tags. |
| Text.LinesOfUnlines | scripts/parseNextJs.ts:80-88 | Splitting text into lines recovers lines that hold no line feed. |
| Text.DecimalRoundTrip | scripts/parseNextJs.ts:83 | The decimal text of a count reads back as that count. |
| ManifestText.ListingAppend | scripts/parseNextJs.ts:85-87 | The listing of two runs of paths is the listing of the first followed by the listing of the second, so the lines can be appended one path at a time. |
| ManifestText.Parse | scripts/parseNextJs.ts:80-88 | A header that reads back has seven fixed lines plus one per listed path. |
| ManifestText.RenderLines | scripts/parseNextJs.ts:80-88 | The rendered header splits back into its lines when no field holds a line feed. |
| ManifestText.ParseRender | scripts/parseNextJs.ts:80-88 | A header whose fields hold no line feed reads back as exactly what was rendered. The count line then agrees with the number of "- " lines. |
| ManifestText.Render | scripts/parseNextJs.ts:80-88 | The header opens with the title line and ends with a line feed, the "=== Content Starts Here ===" line and a line feed. |
| ParseMdx.Message | scripts/parseNextJs.ts:55-68 | The script writes a message for a missing folder and for an empty result. A failed `readdir` carries the file system's own message. |
| ParseMdx.Relative | scripts/parseNextJs.ts:86-94 | The relative path, put after the folder and "/", gives back the absolute path. |
| ParseMdx.RelativePaths | scripts/parseNextJs.ts:85-87 | There is one relative path per absolute path, in order, and each gives back its absolute path. |
| ParseMdx.FileBlock | scripts/parseNextJs.ts:107-115 | Every block, of text or of an error, opens with two line feeds and a visible character and ends with two line feeds. |
| ParseMdx.BlockShape | scripts/parseNextJs.ts:108-115 | A heading opening with two line feeds and a visible character, followed by anything and two line feeds, has that shape. |
| ParseMdx.ContentBlocks | scripts/parseNextJs.ts:91-117 | The content is empty exactly when there are no paths, and otherwise opens with the block of the first path. |
| ParseMdx.Outcome | scripts/parseNextJs.ts:46-136 | A missing folder fails with "Folder not found" exactly when there is no entry. An empty walk fails with the "No MDX files" error exactly when the walk succeeds with no paths. A listing failure names a path at or below the folder and is the walk's own failure. Success needs a successful walk. |
| ParseMdx.ParseMdxFiles | scripts/parseNextJs.ts:46-136 | The run, step by step, returns exactly `Outcome`: the checks that end it early, the sort, the header, the content loop and the final trim. |
| ParseMdx.WriteHeader | scripts/parseNextJs.ts:77-88 | Appending the header lines one by one, with the `forEach` over the sorted paths, gives the rendered header of those paths. |
| ParseMdx.AppendContent | scripts/parseNextJs.ts:91-117 | The content loop appends one block per path, in order. A failed read appends an error line and the loop goes on. |
| ParseMdx.BlockAppended | scripts/parseNextJs.ts:107-115 | Appending a block piece by piece, as the loop body does, appends the whole block. |
| ParseMdx.ContentBlocksAppend | scripts/parseNextJs.ts:91-117 | The content is one block per path, in the order of the paths. |
| ParseMdx.SortedUnder | scripts/parseNextJs.ts:63-74 | Every sorted path lies under the folder. |
| ParseMdx.SortedCollected | scripts/parseNextJs.ts:74 | The list the run works on is sorted, is a permutation of the collected list, and lies under the folder. |
| ParseMdx.OutcomeSucceedsIff | scripts/parseNextJs.ts:50-136 | The run succeeds exactly when the folder exists and is listable, no directory below it is unlistable, and it holds at least one code file. File contents and read errors do not matter. |
| ParseMdx.OutcomeErrors | scripts/parseNextJs.ts:55-69 | A missing folder gives "Folder not found" exactly when there is no entry. An empty result gives the "No MDX files" error, before anything is assembled, exactly when the listable tree holds no code file. A read failure names the folder or an unlistable directory below it. |
| ParseMdx.OutcomeHeader | scripts/parseNextJs.ts:80-128 | The written text, after the final trim, still opens with the whole header, and so with "=== TS/TSX Content Compilation ===". |
| ParseMdx.TrimKeepsHeader | scripts/parseNextJs.ts:128 | Trimming the header and blocks keeps the whole header. |
| ParseMdx.ManifestListsCollected | scripts/parseNextJs.ts:74-88 | The header lists the collected files relative to the folder. They appear in sorted order, one entry per collected path, and the count equals their number. |
| ParseMdx.RelativesSorted | scripts/parseNextJs.ts:74-86 | Sorting the absolute paths also sorts the relative paths. |
| ParseMdx.ManifestReadsBack | scripts/parseNextJs.ts:80-88 | When no field holds a line feed, the header of a run reads back as the listing of the collected files. |
| ParseMdx.BlockOfCollected | scripts/parseNextJs.ts:93-115 | A readable collected file gives a "=== File: <relative path> ===" block with its cleaned-up text. An unreadable one gives "Error processing file <absolute path>: <message>". |

## Left out

- File system calls (`readdir`, `access`, `readFile`, `mkdir`, `writeFile`) are not made. The tree value stands in for the file system. The written text is the result of `ParseMdx.Outcome`.
- The output directory creation at lines 119-125 and the output path are not modelled; they are file-system I/O only.
- Console logging is left out; it does not affect the result.
- `new Date().toISOString()` is not called. The timestamp text is a parameter.
- `path.resolve`, `path.join` and `path.relative` are modelled only as joining names with "/" onto a folder given without a trailing separator. Normalisation of "." and "..", and a folder that is the file-system root, are not modelled.
- ParseMdx.Message: the message of a failed `readdir` comes from the operating system, so `DirectoryReadError` carries only the directory's path.
- FileTree.CollectEntries: when several directories cannot be listed, which rejection `Promise.all` reports depends on timing. The model reports the first in entry order. All the other results are independent of timing.
- Concurrency itself is left out. `Promise.all` keeps index order, so the fan-out is a map and flatten.
- Strings are sequences of characters. JavaScript's UTF-16 code units and `readFile`'s UTF-8 decoding are not modelled.
- PathOrder.LexLeq: compares by code point, while `sort()` compares UTF-16 code units. The two orders differ only when a path holds a character above U+FFFF.
- PathOrder.SortPaths: the built-in sort algorithm is not modelled. An insertion sort stands in for it, and `SortedUnique` shows every correct sort gives the same list.
- FileTree.ReadFile: the model reads a collected file from its tree entry; a file that disappears between the walk and the read is not modelled.
- PlainText.StripSpans: general regular-expression matching is not modelled. Only the five fixed patterns of lines 97-105 are written out.
- `main` (lines 138-150), with its fixed paths, is not modelled.
- The other source files are not part of this model; they hold user-interface, authentication and API wiring.
