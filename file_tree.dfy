/** The directory walk of `getAllCodeFiles`: the file system is a tree of
    entries, listed in the order `readdir` returns them. */
module FileTree {
  import opened Wrappers
  import opened Text

  type Path = string

  /** What `readFile` gives for a regular file: its text, or the message of the
      error it throws. */
  datatype ReadOutcome = Read(text: string) | ReadError(message: string)

  /** One directory entry. A directory may be unlistable (`readdir` throws on it);
      `Other` is any entry that is neither a directory nor a regular file. */
  datatype Node =
    | Directory(name: string, listable: bool, children: seq<Node>)
    | File(name: string, content: ReadOutcome)
    | Other(name: string)

  /** `path.join(dir, name)` for a directory path without a trailing separator
      and an entry name as `readdir` returns it. */
  function Join(dir: Path, name: string): (p: Path)
    ensures dir + "/" <= p && p[|dir| + 1..] == name
  {
    dir + "/" + name
  }

  predicate EndsWith(s: string, suffix: string) {
    |suffix| <= |s| && s[|s| - |suffix|..] == suffix
  }

  /** The name test of the walk: ".ts", or "tsx" with no dot before it. Both
      intended extensions pass, and the only other names that pass end in "tsx"
      without the dot. */
  predicate IsCodeFileName(name: string)
    ensures EndsWith(name, ".ts") || EndsWith(name, ".tsx") ==> IsCodeFileName(name)
    ensures IsCodeFileName(name) && !EndsWith(name, ".ts") && !EndsWith(name, ".tsx")
      ==> EndsWith(name, "tsx") && (|name| == 3 || name[|name| - 4] != '.')
  {
    assert EndsWith(name, ".tsx") ==> name[|name| - 3..] == name[|name| - 4..][1..];
    EndsWith(name, ".ts") || EndsWith(name, "tsx")
  }

  // ---------------------------------------------------------------------------
  // The walk (lines 4-39 of the script)

  /** Every path in `paths` lies below `dir`. */
  predicate AllUnder(dir: Path, paths: seq<Path>) {
    forall i :: 0 <= i < |paths| ==> dir + "/" <= paths[i]
  }

  /** `getAllCodeFiles(dirPath)` where `dir` is the entry found at `dirPath`.
      Listing fails on an entry that is not a listable directory; the failure
      names the directory that could not be listed. Every path returned lies
      below `dirPath`, and a failure names `dirPath` or a path below it. */
  function GetAllCodeFiles(dirPath: Path, dir: Node): (r: Result<seq<Path>, Path>)
    ensures r.Success? ==> AllUnder(dirPath, r.value)
    ensures r.Failure? ==> dirPath <= r.error
    decreases dir
  {
    if !dir.Directory? || !dir.listable then Failure(dirPath)
    else CollectEntries(dirPath, dir.children)
  }

  /** The entries of one directory mapped to their contributions and flattened,
      in entry order; the first failure in entry order is the one reported. */
  function CollectEntries(dirPath: Path, entries: seq<Node>): (r: Result<seq<Path>, Path>)
    ensures r.Success? ==> AllUnder(dirPath, r.value)
    ensures r.Failure? ==> dirPath + "/" <= r.error
    decreases entries
  {
    if entries == [] then Success([])
    else
      var entry := entries[0];
      var fullPath := Join(dirPath, entry.name);
      var first :=
        if entry.Directory? then GetAllCodeFiles(fullPath, entry)
        else if entry.File? && IsCodeFileName(entry.name) then Success([fullPath])
        else Success([]);
      if first.Failure? then
        PrefixTransitive(dirPath + "/", fullPath, first.error);
        first
      else
        assert AllUnder(dirPath, first.value) by {
          if entry.Directory? { AllUnderParent(dirPath, entry.name, first.value); }
        }
        var rest := CollectEntries(dirPath, entries[1..]);
        if rest.Failure? then rest
        else
          AllUnderAppend(dirPath, first.value, rest.value);
          Success(first.value + rest.value)
  }

  lemma PrefixTransitive(a: string, b: string, c: string)
    requires a <= b && b <= c
    ensures a <= c
  {
    assert c[..|a|] == c[..|b|][..|a|];
  }

  lemma AllUnderParent(d: Path, name: string, paths: seq<Path>)
    requires AllUnder(Join(d, name), paths)
    ensures AllUnder(d, paths)
  {
    var p := Join(d, name);
    forall i | 0 <= i < |paths| ensures d + "/" <= paths[i] {
      assert (p + "/")[..|d| + 1] == p[..|d| + 1];
      PrefixTransitive(d + "/", p + "/", paths[i]);
    }
  }

  lemma AllUnderAppend(d: Path, a: seq<Path>, b: seq<Path>)
    requires AllUnder(d, a) && AllUnder(d, b)
    ensures AllUnder(d, a + b)
  {
    forall i | 0 <= i < |a + b| ensures d + "/" <= (a + b)[i] {
      if i < |a| { assert (a + b)[i] == a[i]; } else { assert (a + b)[i] == b[i - |a|]; }
    }
  }

  // ---------------------------------------------------------------------------
  // Reference definitions: every entry below a directory, in pre-order

  /** Every entry below `dirPath` with its full path, each entry followed by the
      entries below it. */
  function Entries(dirPath: Path, entries: seq<Node>): seq<(Path, Node)>
    decreases entries
  {
    if entries == [] then []
    else
      var entry := entries[0];
      var p := Join(dirPath, entry.name);
      [(p, entry)] + (if entry.Directory? then Entries(p, entry.children) else [])
        + Entries(dirPath, entries[1..])
  }

  predicate IsCodeFile(e: (Path, Node)) {
    e.1.File? && IsCodeFileName(e.1.name)
  }

  /** The paths of the code files among `es`, in order. */
  function CodePaths(es: seq<(Path, Node)>): seq<Path> {
    if es == [] then []
    else (if IsCodeFile(es[0]) then [es[0].0] else []) + CodePaths(es[1..])
  }

  predicate IsUnlistable(e: (Path, Node)) {
    e.1.Directory? && !e.1.listable
  }

  /** Every directory among `es` can be listed. */
  predicate AllListable(es: seq<(Path, Node)>) {
    forall i :: 0 <= i < |es| ==> !IsUnlistable(es[i])
  }

  // ---------------------------------------------------------------------------
  // Properties of the walk

  lemma {:induction false} EntriesAppend(dirPath: Path, entries: seq<Node>)
    requires entries != []
    ensures var p := Join(dirPath, entries[0].name);
      Entries(dirPath, entries)
        == [(p, entries[0])] + (if entries[0].Directory? then Entries(p, entries[0].children) else [])
           + Entries(dirPath, entries[1..])
  {
  }

  lemma {:induction false} CodePathsAppend(a: seq<(Path, Node)>, b: seq<(Path, Node)>)
    ensures CodePaths(a + b) == CodePaths(a) + CodePaths(b)
  {
    if a != [] {
      assert (a + b)[1..] == a[1..] + b;
      CodePathsAppend(a[1..], b);
    } else {
      assert a + b == b;
    }
  }

  lemma AllListableAppend(a: seq<(Path, Node)>, b: seq<(Path, Node)>)
    ensures AllListable(a + b) <==> AllListable(a) && AllListable(b)
  {
    if AllListable(a) && AllListable(b) {
      forall i | 0 <= i < |a + b| ensures !IsUnlistable((a + b)[i]) {
        if i < |a| { assert (a + b)[i] == a[i]; } else { assert (a + b)[i] == b[i - |a|]; }
      }
    }
    if AllListable(a + b) {
      forall i | 0 <= i < |a| ensures !IsUnlistable(a[i]) { assert (a + b)[i] == a[i]; }
      forall i | 0 <= i < |b| ensures !IsUnlistable(b[i]) { assert (a + b)[i + |a|] == b[i]; }
    }
  }

  /** The walk of a directory's entries succeeds exactly when no directory below
      it is unlistable, and then yields the code files below it in pre-order. */
  lemma {:induction false} CollectEntriesSpec(dirPath: Path, entries: seq<Node>)
    ensures CollectEntries(dirPath, entries).Success? <==> AllListable(Entries(dirPath, entries))
    ensures CollectEntries(dirPath, entries).Success? ==>
      CollectEntries(dirPath, entries).value == CodePaths(Entries(dirPath, entries))
    decreases entries
  {
    if entries != [] {
      var entry := entries[0];
      var p := Join(dirPath, entry.name);
      var below := if entry.Directory? then Entries(p, entry.children) else [];
      var rest := Entries(dirPath, entries[1..]);
      EntriesAppend(dirPath, entries);
      AllListableAppend([(p, entry)] + below, rest);
      AllListableAppend([(p, entry)], below);
      CodePathsAppend([(p, entry)] + below, rest);
      CodePathsAppend([(p, entry)], below);
      assert CodePaths([(p, entry)]) == if IsCodeFile((p, entry)) then [p] else [];
      CollectEntriesSpec(dirPath, entries[1..]);
      if entry.Directory? {
        CollectEntriesSpec(p, entry.children);
        assert !AllListable([(p, entry)]) <==> !entry.listable by {
          assert [(p, entry)][0] == (p, entry);
        }
      } else {
        assert AllListable([(p, entry)]);
      }
    }
  }

  /** `getAllCodeFiles` succeeds exactly when it is started on a listable
      directory with no unlistable directory anywhere below it, and then returns
      the paths of the code files below it in pre-order: nothing partial is ever
      returned. */
  lemma WalkSpec(dirPath: Path, dir: Node)
    ensures GetAllCodeFiles(dirPath, dir).Success? <==>
      dir.Directory? && dir.listable && AllListable(Entries(dirPath, dir.children))
    ensures GetAllCodeFiles(dirPath, dir).Success? ==>
      GetAllCodeFiles(dirPath, dir).value == CodePaths(Entries(dirPath, dir.children))
  {
    if dir.Directory? {
      CollectEntriesSpec(dirPath, dir.children);
    }
  }

  /** A failed walk names the starting directory or an unlistable directory below it. */
  lemma {:induction false} CollectEntriesFailure(dirPath: Path, entries: seq<Node>)
    requires CollectEntries(dirPath, entries).Failure?
    ensures var es := Entries(dirPath, entries);
      exists i :: 0 <= i < |es| && IsUnlistable(es[i]) && es[i].0 == CollectEntries(dirPath, entries).error
    decreases entries
  {
    var entry := entries[0];
    var p := Join(dirPath, entry.name);
    var below := if entry.Directory? then Entries(p, entry.children) else [];
    var rest := Entries(dirPath, entries[1..]);
    var es := Entries(dirPath, entries);
    var err := CollectEntries(dirPath, entries).error;
    EntriesAppend(dirPath, entries);
    if entry.Directory? && GetAllCodeFiles(p, entry).Failure? {
      if !entry.listable {
        assert es[0] == (p, entry);
      } else {
        CollectEntriesFailure(p, entry.children);
        var i :| 0 <= i < |below| && IsUnlistable(below[i]) && below[i].0 == err;
        assert es[1 + i] == below[i];
      }
    } else {
      CollectEntriesFailure(dirPath, entries[1..]);
      var i :| 0 <= i < |rest| && IsUnlistable(rest[i]) && rest[i].0 == err;
      assert es[1 + |below| + i] == rest[i];
    }
  }

  lemma WalkFailure(dirPath: Path, dir: Node)
    requires GetAllCodeFiles(dirPath, dir).Failure?
    ensures var err := GetAllCodeFiles(dirPath, dir).error;
      || (err == dirPath && !(dir.Directory? && dir.listable))
      || var es := Entries(dirPath, dir.children);
         exists i :: 0 <= i < |es| && IsUnlistable(es[i]) && es[i].0 == err
  {
    if dir.Directory? && dir.listable {
      CollectEntriesFailure(dirPath, dir.children);
    }
  }

  /** A path is collected exactly when it is the path of a code-file entry. */
  lemma {:induction false} CodePathsMember(es: seq<(Path, Node)>, p: Path)
    ensures p in CodePaths(es) <==> exists i :: 0 <= i < |es| && es[i].0 == p && IsCodeFile(es[i])
  {
    if es != [] {
      CodePathsMember(es[1..], p);
      if p in CodePaths(es[1..]) {
        var i :| 0 <= i < |es[1..]| && es[1..][i].0 == p && IsCodeFile(es[1..][i]);
        assert es[i + 1] == es[1..][i];
      }
      if exists i :: 0 <= i < |es| && es[i].0 == p && IsCodeFile(es[i]) {
        var i :| 0 <= i < |es| && es[i].0 == p && IsCodeFile(es[i]);
        if i > 0 { assert es[1..][i - 1] == es[i]; }
      }
    }
  }

  lemma UnderJoin(d: Path, name: string, x: Path)
    requires Under(x, Join(d, name))
    ensures d + "/" <= x
  {
    var p := Join(d, name);
    if x != p {
      assert p <= p + "/";
    }
  }

  /** On success, a path is collected exactly when some regular file below the
      starting directory has that path and a name ending in ".ts" or "tsx";
      directories and other entries contribute no path of their own. */
  lemma WalkMembership(dirPath: Path, dir: Node, p: Path)
    requires GetAllCodeFiles(dirPath, dir).Success?
    ensures var es := Entries(dirPath, dir.children);
      p in GetAllCodeFiles(dirPath, dir).value <==>
        exists i :: 0 <= i < |es| && es[i].0 == p && es[i].1.File? && IsCodeFileName(es[i].1.name)
  {
    WalkSpec(dirPath, dir);
    CodePathsMember(Entries(dirPath, dir.children), p);
  }

  /** A sample tree under any folder: "config.ts" and "footsx" are collected,
      "notes.md" is not, the subdirectory is descended into and the other entry
      is skipped. */
  lemma SampleWalk(root: Path)
    ensures GetAllCodeFiles(root, Directory("r", true, [
        File("config.ts", Read("x")),
        File("footsx", Read("y")),
        File("notes.md", Read("z")),
        Other("link.ts"),
        Directory("sub", true, [File("a.tsx", ReadError("EACCES"))])
      ])) == Success([root + "/" + "config.ts", root + "/" + "footsx", root + "/" + "sub" + "/" + "a.tsx"])
  {
    var sub := Directory("sub", true, [File("a.tsx", ReadError("EACCES"))]);
    var es := [File("config.ts", Read("x")), File("footsx", Read("y")), File("notes.md", Read("z")),
               Other("link.ts"), sub];
    var a := root + "/" + "sub" + "/" + "a.tsx";
    SampleRest(root, es[2..]);
    assert IsCodeFileName("footsx") by { assert "footsx"[3..] == "tsx"; }
    CollectKept(root, es[1..], [a]);
    assert IsCodeFileName("config.ts") by { assert "config.ts"[6..] == ".ts"; }
    CollectKept(root, es, [Join(root, "footsx")] + [a]);
    assert [Join(root, "config.ts")] + ([Join(root, "footsx")] + [a])
        == [Join(root, "config.ts"), Join(root, "footsx"), a];
  }

  lemma SampleRest(root: Path, es: seq<Node>)
    requires es == [File("notes.md", Read("z")), Other("link.ts"),
                    Directory("sub", true, [File("a.tsx", ReadError("EACCES"))])]
    ensures CollectEntries(root, es) == Success([root + "/" + "sub" + "/" + "a.tsx"])
  {
    var a := root + "/" + "sub" + "/" + "a.tsx";
    SampleSub(root, es[2]);
    assert es[2..] == [es[2]];
    CollectSkipped(root, es[1..], [a]);
    assert !IsCodeFileName("notes.md") by {
      assert "notes.md"[5..] != ".ts" && "notes.md"[5..] != "tsx";
    }
    CollectSkipped(root, es, [a]);
  }

  lemma SampleSub(root: Path, sub: Node)
    requires sub == Directory("sub", true, [File("a.tsx", ReadError("EACCES"))])
    ensures CollectEntries(root, [sub]) == Success([root + "/" + "sub" + "/" + "a.tsx"])
  {
    var files := sub.children;
    var p := Join(Join(root, "sub"), "a.tsx");
    assert IsCodeFileName("a.tsx") by { assert "a.tsx"[2..] == "tsx"; }
    assert files[1..] == [];
    assert CollectEntries(Join(root, "sub"), files) == Success([p] + []);
    assert [sub][1..] == [];
    assert [p] + [] == [p];
  }

  /** An entry that is neither a directory nor a code file adds nothing. */
  lemma CollectSkipped(d: Path, es: seq<Node>, ps: seq<Path>)
    requires es != [] && !es[0].Directory? && !(es[0].File? && IsCodeFileName(es[0].name))
    requires CollectEntries(d, es[1..]) == Success(ps)
    ensures CollectEntries(d, es) == Success(ps)
  {
    assert [] + ps == ps;
  }

  /** A code file adds its own path in front of what follows it. */
  lemma CollectKept(d: Path, es: seq<Node>, ps: seq<Path>)
    requires es != [] && es[0].File? && IsCodeFileName(es[0].name)
    requires CollectEntries(d, es[1..]) == Success(ps)
    ensures CollectEntries(d, es) == Success([Join(d, es[0].name)] + ps)
  {
  }

  /** Every entry path lies under the directory the walk started from. */
  lemma {:induction false} EntriesUnder(dirPath: Path, entries: seq<Node>)
    ensures forall i :: 0 <= i < |Entries(dirPath, entries)| ==>
      dirPath + "/" <= Entries(dirPath, entries)[i].0
    decreases entries
  {
    if entries != [] {
      var entry := entries[0];
      var p := Join(dirPath, entry.name);
      var below := if entry.Directory? then Entries(p, entry.children) else [];
      var rest := Entries(dirPath, entries[1..]);
      var es := Entries(dirPath, entries);
      EntriesAppend(dirPath, entries);
      EntriesUnder(dirPath, entries[1..]);
      if entry.Directory? {
        EntriesUnder(p, entry.children);
      }
      forall i | 0 <= i < |es| ensures dirPath + "/" <= es[i].0 {
        if i < 1 + |below| {
          if i > 0 { assert es[i] == below[i - 1]; }
          UnderJoin(dirPath, entry.name, es[i].0);
        } else {
          assert es[i] == rest[i - 1 - |below|];
        }
      }
    }
  }

  // ---------------------------------------------------------------------------
  // No path is collected twice

  /** Entry names contain no separator and sibling names differ, at every level:
      what any real directory listing gives. */
  predicate WellNamed(entries: seq<Node>)
    decreases entries
  {
    && (forall i :: 0 <= i < |entries| ==> '/' !in entries[i].name)
    && (forall i, j :: 0 <= i < j < |entries| ==> entries[i].name != entries[j].name)
    && (forall i :: 0 <= i < |entries| && entries[i].Directory? ==> WellNamed(entries[i].children))
  }

  /** `x` is the path `p` or lies below it. */
  predicate Under(x: Path, p: Path) {
    x == p || p + "/" <= x
  }

  /** The child of `d` that a path lies in is determined by the path: the part
      after `d` up to the next separator. */
  lemma SameBranch(d: Path, a: string, b: string, x: Path)
    requires '/' !in a && '/' !in b
    requires Under(x, Join(d, a)) && Under(x, Join(d, b))
    ensures a == b
  {
    var s := x[|d| + 1..];
    BranchName(s, a);
    BranchName(s, b);
    assert a == s[..IndexOf(s, '/')] == b;
  }

  lemma BranchName(s: string, a: string)
    requires '/' !in a && a <= s && (|s| == |a| || s[|a|] == '/')
    ensures IndexOf(s, '/') == |a| && s[..|a|] == a
  {
    assert forall k :: 0 <= k < |a| ==> s[k] == a[k];
  }

  /** Two paths that go into different children of one directory differ. */
  lemma DifferentBranches(d: Path, a: string, b: string, x: Path, y: Path)
    requires '/' !in a && '/' !in b && a != b
    requires Under(x, Join(d, a)) && Under(y, Join(d, b))
    ensures x != y
  {
    if x == y {
      SameBranch(d, a, b, x);
    }
  }

  /** A path below a child named `a` is not the path of any entry under
      siblings that are all named differently. */
  lemma {:induction false} EntriesAvoid(d: Path, entries: seq<Node>, a: string, x: Path)
    requires '/' !in a && Under(x, Join(d, a))
    requires forall k :: 0 <= k < |entries| ==> '/' !in entries[k].name && entries[k].name != a
    ensures forall i :: 0 <= i < |Entries(d, entries)| ==> Entries(d, entries)[i].0 != x
    decreases entries
  {
    if entries != [] {
      var entry := entries[0];
      var p := Join(d, entry.name);
      var below := if entry.Directory? then Entries(p, entry.children) else [];
      var rest := Entries(d, entries[1..]);
      var es := Entries(d, entries);
      EntriesAppend(d, entries);
      EntriesAvoid(d, entries[1..], a, x);
      if entry.Directory? {
        EntriesUnder(p, entry.children);
      }
      forall i | 0 <= i < |es| ensures es[i].0 != x {
        if i < 1 + |below| {
          assert Under(es[i].0, p) by {
            if i > 0 { assert es[i] == below[i - 1]; }
          }
          DifferentBranches(d, entry.name, a, es[i].0, x);
        } else {
          assert es[i] == rest[i - 1 - |below|];
        }
      }
    }
  }

  predicate DistinctPaths(es: seq<(Path, Node)>) {
    forall i, j :: 0 <= i < j < |es| ==> es[i].0 != es[j].0
  }

  /** The entries of one child never share a path with those of the later
      siblings. */
  lemma FirstBranchApart(d: Path, entries: seq<Node>, x: Path)
    requires WellNamed(entries) && entries != []
    requires Under(x, Join(d, entries[0].name))
    ensures forall i :: 0 <= i < |Entries(d, entries[1..])| ==> Entries(d, entries[1..])[i].0 != x
  {
    assert forall k :: 0 <= k < |entries[1..]| ==> entries[1..][k] == entries[k + 1];
    EntriesAvoid(d, entries[1..], entries[0].name, x);
  }

  lemma WellNamedTail(entries: seq<Node>)
    requires WellNamed(entries) && entries != []
    ensures WellNamed(entries[1..])
  {
    forall i | 0 <= i < |entries| - 1 ensures entries[1..][i] == entries[i + 1] { }
  }

  /** When names are well formed, no two entries share a path. */
  lemma {:induction false} EntriesDistinct(d: Path, entries: seq<Node>)
    requires WellNamed(entries)
    ensures DistinctPaths(Entries(d, entries))
    decreases entries
  {
    if entries != [] {
      var entry := entries[0];
      var p := Join(d, entry.name);
      var below := if entry.Directory? then Entries(p, entry.children) else [];
      var rest := Entries(d, entries[1..]);
      var es := Entries(d, entries);
      EntriesAppend(d, entries);
      WellNamedTail(entries);
      EntriesDistinct(d, entries[1..]);
      if entry.Directory? {
        EntriesDistinct(p, entry.children);
        EntriesUnder(p, entry.children);
      }
      forall i, j | 0 <= i < j < |es| ensures es[i].0 != es[j].0 {
        if j < 1 + |below| {
          assert es[j] == below[j - 1];
          if i > 0 { assert es[i] == below[i - 1]; }
        } else if i >= 1 + |below| {
          assert es[i] == rest[i - 1 - |below|] && es[j] == rest[j - 1 - |below|];
        } else {
          assert Under(es[i].0, p) by {
            if i > 0 { assert es[i] == below[i - 1]; }
          }
          FirstBranchApart(d, entries, es[i].0);
          assert es[j] == rest[j - 1 - |below|];
        }
      }
    }
  }

  /** Distinct entry paths give a list of collected paths without duplicates. */
  lemma {:induction false} CodePathsDistinct(es: seq<(Path, Node)>)
    requires DistinctPaths(es)
    ensures forall i, j :: 0 <= i < j < |CodePaths(es)| ==> CodePaths(es)[i] != CodePaths(es)[j]
  {
    if es != [] {
      var tail := CodePaths(es[1..]);
      assert DistinctPaths(es[1..]) by {
        forall i, j | 0 <= i < j < |es| - 1 ensures es[1..][i].0 != es[1..][j].0 {
          assert es[1..][i] == es[i + 1] && es[1..][j] == es[j + 1];
        }
      }
      CodePathsDistinct(es[1..]);
      if IsCodeFile(es[0]) {
        CodePathsMember(es[1..], es[0].0);
        forall k | 0 <= k < |es[1..]| ensures es[1..][k].0 != es[0].0 {
          assert es[1..][k] == es[k + 1];
        }
        assert es[0].0 !in tail;
      }
    }
  }

  /** On a well-named tree the walk never lists a path twice. */
  lemma WalkDistinct(dirPath: Path, dir: Node)
    requires dir.Directory? && WellNamed(dir.children)
    requires GetAllCodeFiles(dirPath, dir).Success?
    ensures var ps := GetAllCodeFiles(dirPath, dir).value;
      forall i, j :: 0 <= i < j < |ps| ==> ps[i] != ps[j]
  {
    WalkSpec(dirPath, dir);
    EntriesDistinct(dirPath, dir.children);
    CodePathsDistinct(Entries(dirPath, dir.children));
  }

  // ---------------------------------------------------------------------------
  // Reading a collected file (line 93 of the script)

  /** What `readFile(p)` gives: the outcome stored with the first file entry at
      `p`, or a "no such file" error when no file entry has that path. */
  function ReadFile(es: seq<(Path, Node)>, p: Path): (r: ReadOutcome)
    ensures (exists i :: 0 <= i < |es| && es[i].0 == p && es[i].1.File?) ==>
      exists i :: 0 <= i < |es| && es[i].0 == p && es[i].1.File? && r == es[i].1.content
    ensures (forall i :: 0 <= i < |es| && es[i].0 == p ==> !es[i].1.File?) ==> r.ReadError?
  {
    if es == [] then ReadError("ENOENT: no such file or directory, open '" + p + "'")
    else if es[0].0 == p && es[0].1.File? then es[0].1.content
    else
      var r := ReadFile(es[1..], p);
      assert forall i :: 1 <= i < |es| ==> es[i] == es[1..][i - 1];
      r
  }

  /** Whether a name passes the test can be read off any path that ends in
      "/" and that name, since neither suffix contains a separator. */
  lemma CodeNameByPath(p: Path, name: string)
    requires EndsWith(p, "/" + name)
    ensures IsCodeFileName(name) <==> EndsWith(p, ".ts") || EndsWith(p, "tsx")
  {
    var q := p[|p| - |name| - 1..];
    assert q == "/" + name;
    if |name| >= 3 {
      assert p[|p| - 3..] == name[|name| - 3..];
    } else {
      assert p[|p| - |name| - 1] == '/';
      if |p| >= 3 {
        assert p[|p| - 3..][2 - |name|] == '/';
      }
    }
  }

  lemma JoinEndsWithName(d: Path, name: string)
    ensures EndsWith(Join(d, name), "/" + name)
  {
    var p := Join(d, name);
    assert p == d + ("/" + name);
    assert p[|d|..] == "/" + name;
  }

  /** The path of every entry ends in "/" and the entry's name. */
  lemma {:induction false} EntriesNamed(dirPath: Path, entries: seq<Node>)
    ensures forall i :: 0 <= i < |Entries(dirPath, entries)| ==>
      EndsWith(Entries(dirPath, entries)[i].0, "/" + Entries(dirPath, entries)[i].1.name)
    decreases entries
  {
    if entries != [] {
      var entry := entries[0];
      var p := Join(dirPath, entry.name);
      var below := if entry.Directory? then Entries(p, entry.children) else [];
      var rest := Entries(dirPath, entries[1..]);
      var es := Entries(dirPath, entries);
      EntriesAppend(dirPath, entries);
      EntriesNamed(dirPath, entries[1..]);
      if entry.Directory? {
        EntriesNamed(p, entry.children);
      }
      forall i | 0 <= i < |es| ensures EndsWith(es[i].0, "/" + es[i].1.name) {
        if i == 0 {
          JoinEndsWithName(dirPath, entry.name);
        } else if i < 1 + |below| {
          assert es[i] == below[i - 1];
        } else {
          assert es[i] == rest[i - 1 - |below|];
        }
      }
    }
  }

  /** Every collected path is read from a code-file entry at that path. */
  lemma ReadCollected(dirPath: Path, entries: seq<Node>, p: Path)
    requires p in CodePaths(Entries(dirPath, entries))
    ensures var es := Entries(dirPath, entries);
      exists i :: 0 <= i < |es| && es[i].0 == p && IsCodeFile(es[i]) && ReadFile(es, p) == es[i].1.content
  {
    var es := Entries(dirPath, entries);
    CodePathsMember(es, p);
    var i :| 0 <= i < |es| && es[i].0 == p && IsCodeFile(es[i]);
    var j :| 0 <= j < |es| && es[j].0 == p && es[j].1.File? && ReadFile(es, p) == es[j].1.content;
    EntriesNamed(dirPath, entries);
    CodeNameByPath(p, es[i].1.name);
    CodeNameByPath(p, es[j].1.name);
  }
}
