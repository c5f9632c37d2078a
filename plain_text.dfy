/** The text clean-up applied to every file before it goes into the compilation:
    trim, collapse whitespace, drop {`…`} spans, drop <…> spans, drop a leading
    ---…--- block. Each regular-expression replacement is written out as a string
    function with the matching rules of JavaScript regular expressions. */
module PlainText {
  import opened Wrappers
  import opened Text

  // ---------------------------------------------------------------------------
  // Step 1: String.prototype.trim

  /** Number of whitespace characters at the start of `s`. */
  function LeadingSpaces(s: string): (k: nat)
    ensures k <= |s|
    ensures AllSpace(s[..k])
    ensures k < |s| ==> !IsSpace(s[k])
  {
    if s == [] || !IsSpace(s[0]) then 0
    else
      var k := 1 + LeadingSpaces(s[1..]);
      assert forall i :: 1 <= i < k ==> s[..k][i] == s[1..][..k - 1][i - 1];
      k
  }

  /** Number of whitespace characters at the end of `s`. */
  function TrailingSpaces(s: string): (k: nat)
    ensures k <= |s|
    ensures AllSpace(s[|s| - k..])
    ensures k < |s| ==> !IsSpace(s[|s| - k - 1])
  {
    if s == [] || !IsSpace(s[|s| - 1]) then 0
    else
      var k := 1 + TrailingSpaces(s[..|s| - 1]);
      assert s[|s| - k..] == s[..|s| - 1][|s| - k..] + [s[|s| - 1]];
      k
  }

  /** `s` without its leading and trailing whitespace: the result is the slice of
      `s` that starts after the leading whitespace and ends before the trailing
      whitespace, and it neither starts nor ends with whitespace. */
  function Trim(s: string): (r: string)
    ensures var i := LeadingSpaces(s);
      && i + |r| <= |s| && r == s[i..i + |r|]
      && AllSpace(s[..i]) && AllSpace(s[i + |r|..])
    ensures r == [] || (!IsSpace(r[0]) && !IsSpace(r[|r| - 1]))
    ensures r == [] ==> AllSpace(s)
  {
    var i := LeadingSpaces(s);
    var rest := s[i..];
    var t := TrailingSpaces(rest);
    TrimSlices(s, i, t);
    rest[..|rest| - t]
  }

  lemma TrimSlices(s: string, i: nat, t: nat)
    requires i == LeadingSpaces(s) && t == TrailingSpaces(s[i..])
    ensures var r := s[i..][..|s| - i - t];
      && r == s[i..i + |r|] && s[i + |r|..] == s[i..][|s| - i - t..]
      && (r == [] ==> AllSpace(s))
  {
    var rest := s[i..];
    var r := rest[..|rest| - t];
    assert r == s[i..i + |r|];
    assert s[i + |r|..] == rest[|rest| - t..];
    if r == [] {
      // a non-space character after the leading run would end up in `r`
      assert i == |s|;
      assert s[..i] == s;
    }
  }

  lemma SpacesAfter(s: string, a: nat)
    requires a <= |s| && AllSpace(s[a..])
    ensures forall j :: a <= j < |s| ==> IsSpace(s[j])
  {
    forall j | a <= j < |s| ensures IsSpace(s[j]) {
      assert s[a..][j - a] == s[j];
    }
  }

  /** Trimming a text that starts with a non-space keeps everything up to any
      later non-space character. */
  lemma TrimKeepsPrefix(s: string, k: nat)
    requires 0 < |s| && !IsSpace(s[0]) && k < |s| && !IsSpace(s[k])
    ensures s[..k + 1] <= Trim(s)
  {
    var i := LeadingSpaces(s);
    var r := Trim(s);
    assert i == 0;
    SpacesAfter(s, |r|);
    assert s[..k + 1] == r[..k + 1];
  }

  // ---------------------------------------------------------------------------
  // Step 2: replace(/\s+/g, " ")

  /** Every whitespace character is a plain space with no whitespace right after it. */
  predicate SingleSpaced(s: string) {
    forall i :: 0 <= i < |s| && IsSpace(s[i]) ==> s[i] == ' ' && (i + 1 < |s| ==> !IsSpace(s[i + 1]))
  }

  /** Each maximal run of whitespace replaced by one space. */
  function CollapseSpaces(s: string): (r: string)
    ensures |r| <= |s|
    ensures SingleSpaced(r)
    ensures r == [] <==> s == []
    ensures r != [] ==> (IsSpace(r[0]) <==> IsSpace(s[0]))
    decreases |s|
  {
    if s == [] then []
    else if IsSpace(s[0]) then
      var k := LeadingSpaces(s[1..]);
      var rest := s[1 + k..];
      assert rest == s[1..][k..];
      " " + CollapseSpaces(rest)
    else [s[0]] + CollapseSpaces(s[1..])
  }

  /** The collapsed text ends in whitespace exactly when the original does. */
  lemma {:induction false} CollapseLastChar(s: string)
    requires s != []
    ensures var r := CollapseSpaces(s); IsSpace(r[|r| - 1]) <==> IsSpace(s[|s| - 1])
    decreases |s|
  {
    if IsSpace(s[0]) {
      var k := LeadingSpaces(s[1..]);
      var rest := s[1 + k..];
      assert rest == s[1..][k..];
      if rest == [] {
        assert AllSpace(s[1..]);
        assert |s| > 1 ==> s[|s| - 1] == s[1..][|s| - 2];
      } else {
        assert rest[|rest| - 1] == s[|s| - 1];
        CollapseLastChar(rest);
      }
    } else if |s| > 1 {
      assert s[1..][|s| - 2] == s[|s| - 1];
      CollapseLastChar(s[1..]);
    }
  }

  /** The characters of `s` that are not whitespace, in order. */
  function NonSpace(s: string): string {
    if s == [] then []
    else if IsSpace(s[0]) then NonSpace(s[1..])
    else [s[0]] + NonSpace(s[1..])
  }

  lemma {:induction false} NonSpaceOfSpaces(s: string, t: string)
    requires AllSpace(s)
    ensures NonSpace(s + t) == NonSpace(t)
  {
    if s != [] {
      assert (s + t)[1..] == s[1..] + t;
      NonSpaceOfSpaces(s[1..], t);
    } else {
      assert s + t == t;
    }
  }

  /** Collapsing whitespace keeps every other character, in order. */
  lemma {:induction false} CollapseKeepsText(s: string)
    ensures NonSpace(CollapseSpaces(s)) == NonSpace(s)
    decreases |s|
  {
    if s != [] {
      if IsSpace(s[0]) {
        var k := LeadingSpaces(s[1..]);
        var rest := s[1 + k..];
        assert s[1..] == s[1..][..k] + rest;
        NonSpaceOfSpaces(s[1..][..k], rest);
        CollapseKeepsText(rest);
        assert (" " + CollapseSpaces(rest))[1..] == CollapseSpaces(rest);
      } else {
        CollapseKeepsText(s[1..]);
        assert ([s[0]] + CollapseSpaces(s[1..]))[1..] == CollapseSpaces(s[1..]);
      }
    }
  }

  /** After steps 1 and 2 the text has no whitespace at either end and every
      whitespace character left is a single space between two other characters. */
  lemma TrimThenCollapse(s: string)
    ensures var r := CollapseSpaces(Trim(s));
      && (r == [] || (!IsSpace(r[0]) && !IsSpace(r[|r| - 1])))
      && SingleSpaced(r)
      && NonSpace(r) == NonSpace(Trim(s))
  {
    CollapseKeepsText(Trim(s));
    if Trim(s) != [] {
      CollapseLastChar(Trim(s));
    }
  }

  /** Every whitespace character replaced by a plain space, one for one. */
  function Blank(s: string): (r: string)
    ensures |r| == |s|
    ensures forall i :: 0 <= i < |s| ==> r[i] == if IsSpace(s[i]) then ' ' else s[i]
  {
    if s == [] then []
    else [if IsSpace(s[0]) then ' ' else s[0]] + Blank(s[1..])
  }

  /** Every plain space that directly follows another one dropped. */
  function Squeeze(s: string): (r: string)
    ensures |r| <= |s|
    ensures s != [] ==> r != [] && r[0] == s[0]
    ensures forall i :: 0 <= i < |r| - 1 ==> !(r[i] == ' ' && r[i + 1] == ' ')
    decreases |s|
  {
    if |s| <= 1 then s
    else if s[0] == ' ' && s[1] == ' ' then Squeeze(s[1..])
    else [s[0]] + Squeeze(s[1..])
  }

  /** A leading run of `m` whitespace characters, blanked and squeezed, is one space. */
  lemma {:induction false} SqueezeBlankRun(s: string, m: nat)
    requires 0 < m <= |s| && AllSpace(s[..m]) && (m < |s| ==> !IsSpace(s[m]))
    ensures Squeeze(Blank(s)) == " " + Squeeze(Blank(s[m..]))
    decreases m
  {
    var b := Blank(s);
    assert IsSpace(s[0]) by { assert s[..m][0] == s[0]; }
    assert b == [' '] + Blank(s[1..]);
    if m == 1 {
      assert s[1..] == s[m..];
      if |b| > 1 {
        assert b[1] == s[1];
      }
    } else {
      assert IsSpace(s[1]) by { assert s[..m][1] == s[1]; }
      assert b[1] == ' ';
      assert s[1..][..m - 1] == s[1..m];
      var u := s[1..][..m - 1];
      assert AllSpace(u) by {
        forall i | 0 <= i < |u| ensures IsSpace(u[i]) {
          assert u[i] == s[..m][i + 1];
        }
      }
      assert s[1..][m - 1..] == s[m..];
      SqueezeBlankRun(s[1..], m - 1);
    }
  }

  /** `replace(/\s+/g, " ")` equals a reference built from two simpler steps:
      each whitespace character becomes a space, then each run of spaces shrinks
      to one. So a run between two words leaves exactly one space. */
  lemma {:induction false} CollapseIsSqueezedBlank(s: string)
    ensures CollapseSpaces(s) == Squeeze(Blank(s))
    decreases |s|
  {
    if s != [] {
      if IsSpace(s[0]) {
        var k := LeadingSpaces(s[1..]);
        var rest := s[1 + k..];
        assert rest == s[1..][k..];
        var run := s[..1 + k];
        assert AllSpace(run) by {
          forall i | 0 <= i < |run| ensures IsSpace(run[i]) {
            if i > 0 { assert run[i] == s[1..][..k][i - 1]; }
          }
        }
        assert 1 + k < |s| ==> s[1 + k] == s[1..][k];
        SqueezeBlankRun(s, 1 + k);
        CollapseIsSqueezedBlank(rest);
      } else {
        var b := Blank(s);
        assert b == [s[0]] + Blank(s[1..]);
        assert b[1..] == Blank(s[1..]);
        CollapseIsSqueezedBlank(s[1..]);
      }
    }
  }

  /** Two words separated by whitespace stay separated by one space. */
  lemma WordsStaySeparated(a: char, sp: string, b: char)
    requires !IsSpace(a) && !IsSpace(b) && |sp| > 0 && AllSpace(sp)
    ensures CollapseSpaces([a] + sp + [b]) == [a, ' ', b]
  {
    assert [a] + sp + [b] == [a] + (sp + [b]);
    CollapseRun(sp, [b]);
    CollapseCons(a, sp + [b]);
    CollapseKeepsSpaceless([b]);
  }

  // ---------------------------------------------------------------------------
  // Steps 3 to 5: non-greedy span removal

  /** Where a lazy `open.*?close` (or `open[\s\S]*?close` when `dotAll`) that
      starts at the beginning of `s` ends its middle part: the first `j >= from`
      at which `close` occurs, unless `.` must first cross a line terminator. */
  function LazyClose(s: string, from: nat, close: string, dotAll: bool): (r: Option<nat>)
    requires from <= |s| && |close| > 0
    ensures r.Some? ==> from <= r.value && OccursAt(s, r.value, close)
    decreases |s| - from
  {
    if from + |close| > |s| then None
    else if s[from..from + |close|] == close then Some(from)
    else if !dotAll && IsLineTerminator(s[from]) then None
    else LazyClose(s, from + 1, close, dotAll)
  }

  /** When the lazy match ends at `j`, no earlier position closes it, and without
      `dotAll` the skipped middle holds no line terminator. */
  lemma {:induction false} LazyCloseFound(s: string, from: nat, close: string, dotAll: bool)
    requires from <= |s| && |close| > 0 && LazyClose(s, from, close, dotAll).Some?
    ensures var j := LazyClose(s, from, close, dotAll).value;
      && (forall k :: from <= k < j ==> !OccursAt(s, k, close))
      && (!dotAll ==> NoLineTerminator(s[from..j]))
    decreases |s| - from
  {
    var j := LazyClose(s, from, close, dotAll).value;
    if j > from {
      LazyCloseFound(s, from + 1, close, dotAll);
      assert s[from..j] == [s[from]] + s[from + 1..j];
    }
  }

  /** When the lazy match fails, `close` occurs at no position the middle part
      could reach. */
  lemma {:induction false} LazyCloseMissing(s: string, from: nat, close: string, dotAll: bool)
    requires from <= |s| && |close| > 0 && LazyClose(s, from, close, dotAll).None?
    ensures forall j :: from <= j <= |s| && (dotAll || NoLineTerminator(s[from..j]))
                        ==> !OccursAt(s, j, close)
    decreases |s| - from
  {
    if from + |close| > |s| {
    } else if !dotAll && IsLineTerminator(s[from]) {
      forall j | from < j <= |s| ensures s[from..j][0] == s[from] { }
    } else {
      LazyCloseMissing(s, from + 1, close, dotAll);
      forall j | from < j <= |s| ensures s[from..j] == [s[from]] + s[from + 1..j] { }
    }
  }

  /** `s.replace(/open.*?close/g, "")` for literal, non-empty `open` and `close`. */
  function StripSpans(s: string, open: string, close: string): (r: string)
    requires |open| > 0 && |close| > 0
    ensures |r| <= |s|
    decreases |s|
  {
    if s == [] then []
    else if open <= s then
      match LazyClose(s, |open|, close, false)
      case Some(j) => StripSpans(s[j + |close|..], open, close)
      case None => [s[0]] + StripSpans(s[1..], open, close)
    else [s[0]] + StripSpans(s[1..], open, close)
  }

  /** `a` is `b` with some characters deleted: the rest in their order. */
  predicate Subsequence(a: string, b: string)
    decreases |b|
  {
    if a == [] then true
    else if b == [] then false
    else (a[0] == b[0] && Subsequence(a[1..], b[1..])) || Subsequence(a, b[1..])
  }

  lemma {:induction false} SubsequenceDrop(a: string, b: string, k: nat)
    requires k <= |b| && Subsequence(a, b[k..])
    ensures Subsequence(a, b)
    decreases k
  {
    if k > 0 && a != [] {
      assert b[k - 1..][1..] == b[k..];
      SubsequenceDrop(a, b, k - 1);
    } else if k > 0 {
    } else {
      assert b[k..] == b;
    }
  }

  /** Removing spans only deletes characters: what is left is a subsequence of
      the input, and so every character of the result, with its multiplicity,
      comes from the input. */
  lemma {:induction false} StripSpansKeepsChars(s: string, open: string, close: string)
    requires |open| > 0 && |close| > 0
    ensures Subsequence(StripSpans(s, open, close), s)
    ensures multiset(StripSpans(s, open, close)) <= multiset(s)
    decreases |s|
  {
    if s != [] {
      var end := if open <= s then LazyClose(s, |open|, close, false) else None;
      if end.Some? {
        var j := end.value;
        assert s == s[..j + |close|] + s[j + |close|..];
        StripSpansKeepsChars(s[j + |close|..], open, close);
        SubsequenceDrop(StripSpans(s, open, close), s, j + |close|);
      } else {
        var r := StripSpans(s, open, close);
        assert s == [s[0]] + s[1..];
        StripSpansKeepsChars(s[1..], open, close);
        assert r[0] == s[0] && r[1..] == StripSpans(s[1..], open, close);
      }
    }
  }

  /** No `<` in `s` has a `>` anywhere after it. */
  predicate NoTagShape(s: string) {
    forall i, j :: 0 <= i < j < |s| && s[i] == '<' ==> s[j] != '>'
  }

  lemma ConsNoTagShape(c: char, t: string)
    requires NoTagShape(t)
    requires c == '<' ==> '>' !in multiset(t)
    ensures NoTagShape([c] + t)
  {
    var r := [c] + t;
    forall i, j | 0 <= i < j < |r| && r[i] == '<' ensures r[j] != '>' {
      assert r[j] == t[j - 1];
      if i > 0 {
        assert r[i] == t[i - 1];
      } else {
        assert t[j - 1] in multiset(t);
      }
    }
  }

  /** A `<` that opens no span has no `>` after it (in text without line terminators). */
  lemma UnclosedHasNoClose(s: string)
    requires NoLineTerminator(s) && |s| > 0
    requires LazyClose(s, 1, ">", false).None?
    ensures '>' !in s[1..]
  {
    LazyCloseMissing(s, 1, ">", false);
    forall k | 1 <= k < |s| ensures s[k] != '>' {
      NoLineTerminatorSlice(s, 1, k);
      assert !OccursAt(s, k, ">");
      assert s[k..k + 1] == [s[k]];
    }
  }

  /** In text without line terminators, removing `<…>` spans leaves no `<` that
      has a `>` anywhere after it. */
  lemma {:induction false} NoTagLeft(s: string)
    requires NoLineTerminator(s)
    ensures NoTagShape(StripSpans(s, "<", ">"))
    decreases |s|
  {
    if s != [] {
      NoLineTerminatorSlice(s, 1, |s|);
      var close := if "<" <= s then LazyClose(s, 1, ">", false) else None;
      if close.Some? {
        var j := close.value;
        NoLineTerminatorSlice(s, j + 1, |s|);
        NoTagLeft(s[j + 1..]);
      } else {
        var t := StripSpans(s[1..], "<", ">");
        assert StripSpans(s, "<", ">") == [s[0]] + t;
        NoTagLeft(s[1..]);
        if s[0] == '<' {
          UnclosedHasNoClose(s);
          StripSpansKeepsChars(s[1..], "<", ">");
          assert '>' !in multiset(s[1..]);
        }
        ConsNoTagShape(s[0], t);
      }
    }
  }

  /** `s.replace(/^---[\s\S]*?---/, "")`: a leading block that opens with `---`
      is cut up to and including the first later `---`; otherwise `s` is kept. */
  function StripFrontmatter(s: string): (r: string)
    ensures |r| <= |s| && r == s[|s| - |r|..]
    ensures r != s ==> "---" <= s
    ensures r != s ==> var d := |s| - |r|;
      6 <= d && OccursAt(s, d - 3, "---") && forall j :: 3 <= j < d - 3 ==> !OccursAt(s, j, "---")
    ensures r == s && "---" <= s ==> forall j :: 3 <= j ==> !OccursAt(s, j, "---")
  {
    if "---" <= s then
      match LazyClose(s, 3, "---", true)
      case Some(j) =>
        LazyCloseFound(s, 3, "---", true);
        s[j + 3..]
      case None =>
        LazyCloseMissing(s, 3, "---", true);
        s
    else s
  }

  // ---------------------------------------------------------------------------
  // The whole chain (lines 97-105 of the script)

  function Normalize(text: string): (r: string)
    ensures |r| <= |text|
    ensures NoTagShape(r)
  {
    var collapsed := CollapseSpaces(Trim(text));
    var noTemplates := StripSpans(collapsed, "{`", "`}");
    var noTags := StripSpans(noTemplates, "<", ">");
    SingleSpacedHasNoLineTerminator(collapsed);
    StripSpansKeepsChars(collapsed, "{`", "`}");
    NoLineTerminatorSubset(noTemplates, collapsed);
    NoTagLeft(noTemplates);
    var r := StripFrontmatter(noTags);
    NoTagShapeSuffix(noTags, |noTags| - |r|);
    r
  }

  lemma SingleSpacedHasNoLineTerminator(s: string)
    requires SingleSpaced(s)
    ensures NoLineTerminator(s)
  {
    forall k | 0 <= k < |s| ensures !IsLineTerminator(s[k]) {
      assert IsLineTerminator(s[k]) ==> IsSpace(s[k]);
    }
  }

  lemma NoTagShapeSuffix(s: string, d: nat)
    requires NoTagShape(s) && d <= |s|
    ensures NoTagShape(s[d..])
  {
    forall i, j | 0 <= i < j < |s[d..]| && s[d..][i] == '<' ensures s[d..][j] != '>' {
      assert s[d..][i] == s[d + i] && s[d..][j] == s[d + j];
    }
  }

  /** The clean-up of a small sample: whitespace collapses and both tags go, but
      the text between the tags stays. */
  lemma NormalizeSample()
    ensures Normalize("  a\n\nb   <div>x</div>  ") == "a b x"
  {
    SampleTrim();
    SampleCollapse();
    SampleTemplates();
    SampleTags();
    assert StripFrontmatter("a b x") == "a b x";
  }

  lemma {:induction false} LeadingSpacesOf(sp: string, t: string)
    requires AllSpace(sp) && (t == [] || !IsSpace(t[0]))
    ensures LeadingSpaces(sp + t) == |sp|
  {
    if sp != [] {
      assert (sp + t)[1..] == sp[1..] + t;
      LeadingSpacesOf(sp[1..], t);
    } else {
      assert sp + t == t;
    }
  }

  lemma {:induction false} TrailingSpacesOf(t: string, sp: string)
    requires AllSpace(sp) && (t == [] || !IsSpace(t[|t| - 1]))
    ensures TrailingSpaces(t + sp) == |sp|
  {
    if sp != [] {
      assert (t + sp)[..|t + sp| - 1] == t + sp[..|sp| - 1];
      TrailingSpacesOf(t, sp[..|sp| - 1]);
    } else {
      assert t + sp == t;
    }
  }

  /** Trimming removes exactly the whitespace padding around a text that starts
      and ends with a non-space. */
  lemma TrimPadded(sp1: string, t: string, sp2: string)
    requires AllSpace(sp1) && AllSpace(sp2)
    requires |t| > 0 && !IsSpace(t[0]) && !IsSpace(t[|t| - 1])
    ensures Trim(sp1 + t + sp2) == t
  {
    var s := sp1 + t + sp2;
    LeadingSpacesOf(sp1, t + sp2);
    assert s == sp1 + (t + sp2);
    assert s[|sp1|..] == t + sp2;
    TrailingSpacesOf(t, sp2);
    assert (t + sp2)[..|t|] == t;
  }

  lemma SampleTrim()
    ensures Trim("  a\n\nb   <div>x</div>  ") == "a\n\nb   <div>x</div>"
  {
    var t := "a\n\nb   <div>x</div>";
    assert "  a\n\nb   <div>x</div>  " == "  " + t + "  ";
    TrimPadded("  ", t, "  ");
  }

  /** A run of whitespace followed by a non-space becomes one space. */
  lemma CollapseRun(sp: string, t: string)
    requires |sp| > 0 && AllSpace(sp) && (t == [] || !IsSpace(t[0]))
    ensures CollapseSpaces(sp + t) == " " + CollapseSpaces(t)
  {
    LeadingSpacesOf(sp[1..], t);
    assert (sp + t)[1..] == sp[1..] + t;
    assert (sp + t)[1 + |sp| - 1..] == t;
  }

  lemma {:induction false} CollapseKeepsSpaceless(s: string)
    requires forall i :: 0 <= i < |s| ==> !IsSpace(s[i])
    ensures CollapseSpaces(s) == s
  {
    if s != [] {
      CollapseKeepsSpaceless(s[1..]);
    }
  }

  lemma {:induction false} StripSpansKeepsOpenless(s: string, open: string, close: string)
    requires |open| > 0 && |close| > 0
    requires forall i :: 0 <= i < |s| ==> s[i] != open[0]
    ensures StripSpans(s, open, close) == s
  {
    if s != [] {
      StripSpansKeepsOpenless(s[1..], open, close);
    }
  }

  lemma CollapseCons(c: char, t: string)
    requires !IsSpace(c)
    ensures CollapseSpaces([c] + t) == [c] + CollapseSpaces(t)
  {
    assert ([c] + t)[1..] == t;
  }

  lemma CollapseWordRun(b: char, sp: string, rest: string)
    requires !IsSpace(b) && |sp| > 0 && AllSpace(sp)
    requires forall i :: 0 <= i < |rest| ==> !IsSpace(rest[i])
    ensures CollapseSpaces([b] + (sp + rest)) == [b] + (" " + rest)
  {
    CollapseKeepsSpaceless(rest);
    CollapseRun(sp, rest);
    CollapseCons(b, sp + rest);
  }

  lemma CollapseAroundWord(a: char, sp1: string, b: char, sp2: string, rest: string)
    requires !IsSpace(a) && !IsSpace(b)
    requires |sp1| > 0 && AllSpace(sp1) && |sp2| > 0 && AllSpace(sp2)
    requires forall i :: 0 <= i < |rest| ==> !IsSpace(rest[i])
    ensures CollapseSpaces([a] + (sp1 + ([b] + (sp2 + rest)))) == [a] + (" " + ([b] + (" " + rest)))
  {
    var tail := [b] + (sp2 + rest);
    CollapseWordRun(b, sp2, rest);
    CollapseRun(sp1, tail);
    CollapseCons(a, sp1 + tail);
  }

  lemma SampleCollapse()
    ensures CollapseSpaces("a\n\nb   <div>x</div>") == "a b <div>x</div>"
  {
    var tags := "<div>x</div>";
    assert "a\n\nb   <div>x</div>" == ['a'] + ("\n\n" + (['b'] + ("   " + tags)));
    assert "a b <div>x</div>" == ['a'] + (" " + (['b'] + (" " + tags)));
    CollapseAroundWord('a', "\n\n", 'b', "   ", tags);
  }

  lemma SampleTemplates()
    ensures StripSpans("a b <div>x</div>", "{`", "`}") == "a b <div>x</div>"
  {
    StripSpansKeepsOpenless("a b <div>x</div>", "{`", "`}");
  }

  /** The lazy match ends at the first occurrence of `close` when no line
      terminator comes before it. */
  lemma {:induction false} LazyCloseAtFirst(s: string, from: nat, k: nat, close: string)
    requires |close| > 0 && from <= k && OccursAt(s, k, close)
    requires forall m :: from <= m < k ==> !OccursAt(s, m, close) && !IsLineTerminator(s[m])
    ensures LazyClose(s, from, close, false) == Some(k)
    decreases k - from
  {
    if from < k {
      LazyCloseAtFirst(s, from + 1, k, close);
    }
  }

  lemma StripSpansKeep(c: char, t: string, open: string, close: string)
    requires |open| > 0 && |close| > 0 && c != open[0]
    ensures StripSpans([c] + t, open, close) == [c] + StripSpans(t, open, close)
  {
    assert ([c] + t)[1..] == t;
  }

  lemma StripSpansSkip(s: string, open: string, close: string, j: nat)
    requires |open| > 0 && |close| > 0 && open <= s
    requires LazyClose(s, |open|, close, false) == Some(j)
    ensures StripSpans(s, open, close) == StripSpans(s[j + |close|..], open, close)
  {
  }

  /** A span `open w close` whose middle `w` holds no line terminator and no
      earlier `close` is removed, whatever the delimiters. */
  lemma StripSpansRemovesSpan(s: string, open: string, w: string, close: string, t: string)
    requires |open| > 0 && |close| > 0 && NoLineTerminator(w)
    requires s == open + (w + (close + t))
    requires forall m :: |open| <= m < |open| + |w| ==> !OccursAt(s, m, close)
    ensures StripSpans(s, open, close) == StripSpans(t, open, close)
  {
    var k := |open| + |w|;
    assert s[k..k + |close|] == close;
    assert forall m :: |open| <= m < k ==> s[m] == w[m - |open|];
    LazyCloseAtFirst(s, |open|, k, close);
    assert s[..|open|] == open;
    assert s[k + |close|..] == t;
    StripSpansSkip(s, open, close, k);
  }

  /** A middle part that never holds the first character of `close` holds no
      occurrence of `close`. */
  lemma MiddleAvoidsClose(s: string, open: string, w: string, close: string, t: string)
    requires |close| > 0 && s == open + (w + (close + t))
    requires forall m :: 0 <= m < |w| ==> w[m] != close[0]
    ensures forall m :: |open| <= m < |open| + |w| ==> !OccursAt(s, m, close)
  {
    forall m | |open| <= m < |open| + |w| ensures !OccursAt(s, m, close) {
      assert s[m] == w[m - |open|];
      if m + |close| <= |s| {
        assert s[m..m + |close|][0] == s[m];
      }
    }
  }

  /** A tag `<w>` with no `>` or line terminator inside is removed. */
  lemma StripSpansTag(w: string, t: string)
    requires forall m :: 0 <= m < |w| ==> w[m] != '>' && !IsLineTerminator(w[m])
    ensures StripSpans("<" + (w + (">" + t)), "<", ">") == StripSpans(t, "<", ">")
  {
    var s := "<" + (w + (">" + t));
    MiddleAvoidsClose(s, "<", w, ">", t);
    StripSpansRemovesSpan(s, "<", w, ">", t);
  }

  lemma {:induction false} StripSpansKeepPrefix(p: string, t: string, open: string, close: string)
    requires |open| > 0 && |close| > 0
    requires forall m :: 0 <= m < |p| ==> p[m] != open[0]
    ensures StripSpans(p + t, open, close) == p + StripSpans(t, open, close)
  {
    if p == [] {
      assert p + t == t;
    } else {
      assert p + t == [p[0]] + (p[1..] + t);
      StripSpansKeep(p[0], p[1..] + t, open, close);
      StripSpansKeepPrefix(p[1..], t, open, close);
      assert p == [p[0]] + p[1..];
    }
  }

  /** Text between two tags survives the tag removal. */
  lemma TextBetweenTags(w1: string, x: string, w2: string)
    requires forall m :: 0 <= m < |w1| ==> w1[m] != '>' && !IsLineTerminator(w1[m])
    requires forall m :: 0 <= m < |w2| ==> w2[m] != '>' && !IsLineTerminator(w2[m])
    requires forall m :: 0 <= m < |x| ==> x[m] != '<'
    ensures StripSpans("<" + (w1 + (">" + (x + ("<" + (w2 + (">" + "")))))), "<", ">") == x
  {
    var inner := "<" + (w2 + (">" + ""));
    StripSpansTag(w2, "");
    StripSpansKeepPrefix(x, inner, "<", ">");
    assert x + [] == x;
    StripSpansTag(w1, x + inner);
  }

  lemma SampleTags()
    ensures StripSpans("a b <div>x</div>", "<", ">") == "a b x"
  {
    var tags := "<" + ("div" + (">" + ("x" + ("<" + ("/div" + (">" + ""))))));
    assert "a b <div>x</div>" == "a b " + tags;
    TextBetweenTags("div", "x", "/div");
    StripSpansKeepPrefix("a b ", tags, "<", ">");
  }

  /** A template span is removed along with its delimiters. */
  lemma SampleTemplateSpan()
    ensures StripSpans("a{`x`}b", "{`", "`}") == "ab"
  {
    var span := "{`" + ("x" + ("`}" + "b"));
    assert "a{`x`}b" == "a" + span;
    StripSpansKeepPrefix("a", span, "{`", "`}");
    MiddleAvoidsClose(span, "{`", "x", "`}", "b");
    StripSpansRemovesSpan(span, "{`", "x", "`}", "b");
    StripSpansKeepsOpenless("b", "{`", "`}");
  }

  /** With a two-character `open`, removing a span can join a `{` kept before
      it to whatever follows the span: when `rest` opens with a backtick, the
      result opens with a new `` {` `` that is not removed, because the regular
      expression does not rescan its own output. */
  lemma TemplateSpanRejoins(a: string, rest: string)
    requires forall m :: 0 <= m < |a| ==> a[m] != '`' && !IsLineTerminator(a[m])
    requires forall m :: 0 <= m < |rest| ==> rest[m] != '{'
    ensures StripSpans("{" + ("{`" + (a + ("`}" + rest))), "{`", "`}") == "{" + rest
  {
    var span := "{`" + (a + ("`}" + rest));
    MiddleAvoidsClose(span, "{`", a, "`}", rest);
    StripSpansRemovesSpan(span, "{`", a, "`}", rest);
    StripSpansKeepsOpenless(rest, "{`", "`}");
    StripSpansNoOpen('{', span, "{`", "`}");
  }

  /** An instance: `{{`a`}`x`}` leaves `{`x`}`. */
  lemma SampleTemplateRejoins()
    ensures StripSpans("{{`a`}`x`}", "{`", "`}") == "{`x`}"
  {
    TemplateSpanRejoins("a", "`x`}");
    assert "{{`a`}`x`}" == "{" + ("{`" + ("a" + ("`}" + "`x`}")));
    assert "{" + "`x`}" == "{`x`}";
  }

  /** A character whose successor does not continue `open` is kept. */
  lemma StripSpansNoOpen(c: char, t: string, open: string, close: string)
    requires |open| > 1 && |close| > 0 && t != [] && t[0] != open[1]
    ensures StripSpans([c] + t, open, close) == [c] + StripSpans(t, open, close)
  {
    assert ([c] + t)[1] == t[0];
    assert ([c] + t)[1..] == t;
  }
}
