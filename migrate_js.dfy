/**
 * migrate() from migrate_urls.js: the same migration as the Python script, written as a
 * chain of JavaScript String.prototype.replace calls on the page text. The regular
 * expressions built at run time from file names are not escaped, so every `.` in them
 * is a wildcard; the self-link expression has no /g flag and marks the first match only.
 */
module MigrateJs {
  import opened Rx
  import MigratePy

  /** `filesToMigrate`. */
  const Files: seq<string> := [
    "about.html",
    "program.html",
    "team.html",
    "blog.html",
    "contact.html",
    "privacy.html",
    "blog-details.html"
  ]

  /** The list names the Python table's originals, in the same order. */
  lemma FilesArePages()
    ensures |Files| == |MigratePy.Pages|
    ensures forall k :: 0 <= k < |Files| ==> Files[k] == MigratePy.Pages[k].0
  {
  }

  /** Facts about the file names that the rewrite chain relies on. */
  lemma FileShape(k: int)
    requires 0 <= k < |Files|
    ensures Files[k] == MigratePy.Pages[k].1 + ".html"
    ensures '"' !in Files[k] && '#' !in Files[k] && '?' !in Files[k] && Files[k][0] != '.'
    ensures forall i :: 0 <= i < |Files[k]| ==> !IsLineTerminator(Files[k][i])
  {
    FilesArePages();
    MigratePy.PageShape(k);
    FileChars(k);
    var f := Files[k];
    assert '#' !in f && '?' !in f by {
      assert forall i :: 0 <= i < |f| ==> f[i] != '#' && f[i] != '?';
    }
  }

  /** A file name is made of lower-case letters, dashes and dots. */
  lemma FileChars(k: int)
    requires 0 <= k < |Files|
    ensures forall i :: 0 <= i < |Files[k]| ==> 'a' <= Files[k][i] <= 'z' || Files[k][i] in "-."
  {
  }

  /**
   * The five resource replaces of the JavaScript loop, `/href="styles\.css"/g` to
   * `/content="images\//g`: escaped, so literal, and the same five rules as the Python step.
   */
  function Resources(content: string): string {
    var r := MigratePy.ResourceRules;
    var s1 := MigratePy.StrReplace(content, r[0].Pattern(), r[0].Rebased());
    var s2 := MigratePy.StrReplace(s1, r[1].Pattern(), r[1].Rebased());
    var s3 := MigratePy.StrReplace(s2, r[2].Pattern(), r[2].Rebased());
    var s4 := MigratePy.StrReplace(s3, r[3].Pattern(), r[3].Rebased());
    MigratePy.StrReplace(s4, r[4].Pattern(), r[4].Rebased())
  }

  /** Both scripts rebase resources the same way. */
  lemma ResourcesAsPython(content: string)
    ensures Resources(content) == MigratePy.RebaseResources(content)
  {
    var r := MigratePy.ResourceRules;
    var s1 := MigratePy.StrReplace(content, r[0].Pattern(), r[0].Rebased());
    var s2 := MigratePy.StrReplace(s1, r[1].Pattern(), r[1].Rebased());
    var s3 := MigratePy.StrReplace(s2, r[2].Pattern(), r[2].Rebased());
    var s4 := MigratePy.StrReplace(s3, r[3].Pattern(), r[3].Rebased());
    var s5 := MigratePy.StrReplace(s4, r[4].Pattern(), r[4].Rebased());
    assert r[1..] == [r[1], r[2], r[3], r[4]] && r[2..] == [r[2], r[3], r[4]] && r[3..] == [r[3], r[4]];
    assert MigratePy.ApplyRules(s4, r[4..]) == s5 by {
      assert r[4..][1..] == [];
    }
    assert MigratePy.ApplyRules(s3, r[3..]) == MigratePy.ApplyRules(s4, r[4..]);
    assert MigratePy.ApplyRules(s2, r[2..]) == MigratePy.ApplyRules(s3, r[3..]);
    assert MigratePy.ApplyRules(s1, r[1..]) == MigratePy.ApplyRules(s2, r[2..]);
    assert MigratePy.ApplyRules(content, r) == MigratePy.ApplyRules(s1, r[1..]);
  }

  /** Every resource reference of a page gains its `../` where it stands, as in the Python script. */
  lemma ResourcesAround(a: string, k: int, b: string)
    requires 0 <= k < |MigratePy.ResourceRules|
    ensures Resources(a + MigratePy.ResourceRules[k].Pattern() + b)
         == Resources(a) + MigratePy.ResourceRules[k].Rebased() + Resources(b)
  {
    ResourcesAsPython(a + MigratePy.ResourceRules[k].Pattern() + b);
    ResourcesAsPython(a);
    ResourcesAsPython(b);
    MigratePy.RebaseAround(a, k, b);
  }

  /** `f.replace('.html', '')`: a string pattern, so only the first occurrence goes. */
  function BaseName(f: string): string {
    ReplaceFirst(f, Literal(".html"), Const(""))
  }

  /** The name computed for each listed file is its Python folder. */
  lemma BaseNameIsFolder(k: int)
    requires 0 <= k < |Files|
    ensures BaseName(Files[k]) == MigratePy.Pages[k].1
  {
    var f, folder, p := Files[k], MigratePy.Pages[k].1, Literal(".html");
    FileShape(k);
    MigratePy.PageShape(k);
    LiteralMatch(".html", f, |folder|);
    assert f[|folder|..|folder| + 5] == ".html";
    forall i | 0 <= i < |folder| ensures !MatchesAt(p, f, i) {
      assert f[i] == folder[i] != '.';
      assert !Accepts(p[0], f[i]);
    }
    ReplaceFirstSplit(f, p, Const(""), |folder|);
    ConstExpands("", f[|folder|..|folder| + 5]);
    assert f[..|folder|] == folder;
  }

  // ---------------------------------------------------------------------------
  // The rewrite chain (migrate_urls.js:32-69)

  /** `new RegExp('href="' + f + '"', 'g')`. */
  function ExactPattern(f: string): Pattern {
    Source(MigratePy.Href(f))
  }

  function ExactReplacement(f: string): string {
    MigratePy.Href("../" + BaseName(f) + "/")
  }

  /** `new RegExp('href="' + f + '(#|\\?)', 'g')`. */
  function SuffixPattern(f: string): Pattern {
    Source("href=\"" + f) + [OneOf({'#', '?'})]
  }

  /** `'href="../' + fname + '/$1'`: the group is the marker, the pattern's last character. */
  function SuffixTemplate(f: string): Template {
    TextThenLast("href=\"" + "../" + BaseName(f) + "/", |f| + 7)
  }

  /** One pass of the forEach body: the exact link, then the link with a suffix. */
  function LinkStep(s: string, f: string): string {
    var exact := ReplaceAll(s, ExactPattern(f), Const(ExactReplacement(f)));
    ReplaceAll(exact, SuffixPattern(f), SuffixTemplate(f))
  }

  /** The forEach over the entries lo .. hi-1 of filesToMigrate. */
  function LinkSteps(s: string, lo: int, hi: int): string
    requires 0 <= lo <= hi <= |Files|
    decreases hi - lo
  {
    if hi == lo then s else LinkStep(LinkSteps(s, lo, hi - 1), Files[hi - 1])
  }

  /** `/href="index\.html"/g`: the escaped dot is a plain dot. */
  function IndexStep(s: string): string {
    MigratePy.StrReplace(s, MigratePy.Href("index.html"), MigratePy.Href("../"))
  }

  /** The self-link expression: its escaped dots become plain `.` inside the template literal. */
  function SelfPattern(folder: string): Pattern {
    Source(MigratePy.SelfLink(folder))
  }

  /** The self-link replace without /g. */
  function MarkSelf(s: string, folder: string): string {
    ReplaceFirst(s, SelfPattern(folder), Const(MigratePy.Marked(folder)))
  }

  /** The text written to `<name>/index.html` for the page `file`. */
  function Rewrite(content: string, file: string): string {
    var linked := LinkSteps(IndexStep(Resources(content)), 0, |Files|);
    MarkSelf(linked, BaseName(file))
  }

  /** The statements of the loop body that reassign `content`, in order. */
  method RewritePage(content: string, file: string) returns (out: string)
    ensures out == Rewrite(content, file)
  {
    var name := BaseName(file);
    var r := MigratePy.ResourceRules;
    out := MigratePy.StrReplace(content, r[0].Pattern(), r[0].Rebased());
    out := MigratePy.StrReplace(out, r[1].Pattern(), r[1].Rebased());
    out := MigratePy.StrReplace(out, r[2].Pattern(), r[2].Rebased());
    out := MigratePy.StrReplace(out, r[3].Pattern(), r[3].Rebased());
    out := MigratePy.StrReplace(out, r[4].Pattern(), r[4].Rebased());
    out := IndexStep(out);
    ghost var start := out;
    for j := 0 to |Files|
      invariant out == LinkSteps(start, 0, j)
    {
      var f := Files[j];
      out := ReplaceAll(out, ExactPattern(f), Const(ExactReplacement(f)));
      out := ReplaceAll(out, SuffixPattern(f), SuffixTemplate(f));
    }
    out := MarkSelf(out, name);
  }

  // ---------------------------------------------------------------------------
  // Where the run-time patterns can match

  /** A pattern whose sixth atom is the opening quote can match `href="v"` only at its start. */
  lemma HrefOnlyAtStart(p: Pattern, v: string, i: int)
    requires |p| > 6 && p[5] == Char('"') && '"' !in v && MatchesAt(p, MigratePy.Href(v), i)
    ensures i == 0
  {
    var s := MigratePy.Href(v);
    assert Accepts(p[5], s[i + 5]);
  }

  /** Hence one that fails at the start of `href="v"` matches nowhere in it. */
  lemma HrefNoMatch(p: Pattern, v: string)
    requires |p| > 6 && p[5] == Char('"') && '"' !in v && !MatchesAt(p, MigratePy.Href(v), 0)
    ensures NoMatch(MigratePy.Href(v), p)
  {
    forall i | 0 <= i <= |MigratePy.Href(v)| && MatchesAt(p, MigratePy.Href(v), i) ensures false {
      HrefOnlyAtStart(p, v, i);
    }
  }

  /** Such a pattern matches nowhere in text whose only quote is its last character. */
  lemma ClosingQuoteNoMatch(p: Pattern, rest: string)
    requires |p| > 6 && p[5] == Char('"') && '"' !in rest
    ensures NoMatch(rest + "\"", p)
  {
  }

  /** A position at which file j's patterns, wildcards included, cannot read file k. */
  lemma FilesDiffer(j: int, k: int) returns (m: int)
    requires 0 <= j < |Files| && 0 <= k < |Files| && j != k
    ensures 0 <= m < |Files[j]| && m < |Files[k]| && Files[j][m] != '.' && Files[j][m] != Files[k][m]
  {
    var a, b := Files[j], Files[k];
    if a[0] != b[0] {
      m := 0;
    } else if a[2] != b[2] {
      m := 2;
    } else if a[4] != '.' {
      m := 4;
    } else {
      m := 5;
    }
  }

  /**
   * A link whose text differs from a file name f at a position where f has no wildcard is
   * matched by neither of f's patterns.
   */
  lemma DifferAtNoMatch(f: string, v: string, m: int)
    requires 0 <= m < |f| && m < |v| && f[m] != '.' && f[m] != v[m] && '"' !in v
    ensures NoMatch(MigratePy.Href(v), ExactPattern(f))
    ensures NoMatch(MigratePy.Href(v), SuffixPattern(f))
  {
    var s := MigratePy.Href(v);
    assert s[6 + m] == v[m];
    assert MigratePy.Href(f)[6 + m] == f[m] && ("href=\"" + f)[6 + m] == f[m];
    assert !Accepts(ExactPattern(f)[6 + m], s[6 + m]);
    assert !Accepts(SuffixPattern(f)[6 + m], s[6 + m]);
    HrefNoMatch(ExactPattern(f), v);
    HrefNoMatch(SuffixPattern(f), v);
  }

  /** A link that starts with another listed file's name is matched by neither of that file's patterns. */
  lemma OtherFileNoMatch(j: int, k: int, v: string)
    requires 0 <= j < |Files| && 0 <= k < |Files| && j != k
    requires Files[k] <= v && '"' !in v
    ensures NoMatch(MigratePy.Href(v), ExactPattern(Files[j]))
    ensures NoMatch(MigratePy.Href(v), SuffixPattern(Files[j]))
  {
    var m := FilesDiffer(j, k);
    assert v[m] == Files[k][m];
    DifferAtNoMatch(Files[j], v, m);
  }

  /** A rebased link `href="../…"` is matched by neither pattern of a file whose name starts with a letter. */
  lemma RebasedNoMatchFor(f: string, v: string)
    requires f != [] && f[0] != '.' && v != [] && v[0] == '.' && '"' !in v
    ensures NoMatch(MigratePy.Href(v), ExactPattern(f))
    ensures NoMatch(MigratePy.Href(v), SuffixPattern(f))
  {
    DifferAtNoMatch(f, v, 0);
  }

  lemma RebasedNoMatch(j: int, v: string)
    requires 0 <= j < |Files| && v != [] && v[0] == '.' && '"' !in v
    ensures NoMatch(MigratePy.Href(v), ExactPattern(Files[j]))
    ensures NoMatch(MigratePy.Href(v), SuffixPattern(Files[j]))
  {
    FileShape(j);
    RebasedNoMatchFor(Files[j], v);
  }

  /** The forEach over lo .. hi-1 is the forEach over lo .. mid-1 followed by mid .. hi-1. */
  lemma {:induction false} LinkStepsSplit(s: string, lo: int, mid: int, hi: int)
    requires 0 <= lo <= mid <= hi <= |Files|
    ensures LinkSteps(s, lo, hi) == LinkSteps(LinkSteps(s, lo, mid), mid, hi)
    decreases hi - mid
  {
    if mid < hi {
      LinkStepsSplit(s, lo, mid, hi - 1);
    }
  }

  /** Text that none of the files' patterns match goes through the forEach unchanged. */
  lemma {:induction false} LinkStepsNoMatch(s: string, lo: int, hi: int)
    requires 0 <= lo <= hi <= |Files|
    requires forall j :: lo <= j < hi ==> NoMatch(s, ExactPattern(Files[j])) && NoMatch(s, SuffixPattern(Files[j]))
    ensures LinkSteps(s, lo, hi) == s
    decreases hi - lo
  {
    if lo < hi {
      var f := Files[hi - 1];
      LinkStepsNoMatch(s, lo, hi - 1);
      ReplaceAllNoMatch(s, ExactPattern(f), Const(ExactReplacement(f)));
      ReplaceAllNoMatch(s, SuffixPattern(f), SuffixTemplate(f));
    }
  }

  /** A rebased link passes the rest of the forEach unchanged. */
  lemma RebasedPassesRest(v: string, lo: int, hi: int)
    requires 0 <= lo <= hi <= |Files| && v != [] && v[0] == '.' && '"' !in v
    ensures LinkSteps(MigratePy.Href(v), lo, hi) == MigratePy.Href(v)
  {
    forall j | lo <= j < hi
      ensures NoMatch(MigratePy.Href(v), ExactPattern(Files[j])) && NoMatch(MigratePy.Href(v), SuffixPattern(Files[j]))
    {
      RebasedNoMatch(j, v);
    }
    LinkStepsNoMatch(MigratePy.Href(v), lo, hi);
  }

  /** A link naming file k passes the entries before k unchanged. */
  lemma EarlierFilesPass(k: int, v: string, hi: int)
    requires 0 <= hi <= k < |Files| && Files[k] <= v && '"' !in v
    ensures LinkSteps(MigratePy.Href(v), 0, hi) == MigratePy.Href(v)
  {
    forall j | 0 <= j < hi
      ensures NoMatch(MigratePy.Href(v), ExactPattern(Files[j])) && NoMatch(MigratePy.Href(v), SuffixPattern(Files[j]))
    {
      OtherFileNoMatch(j, k, v);
    }
    LinkStepsNoMatch(MigratePy.Href(v), 0, hi);
  }

  // ---------------------------------------------------------------------------
  // What the chain does to links (migrate_urls.js:39-69)

  /** Where the exact pattern of f matches a whole link, the forEach pass for f turns it into the folder link. */
  lemma ExactStepMatches(f: string, name: string, v: string)
    requires f != [] && f[0] != '.' && BaseName(f) == name && '"' !in name
    requires |v| == |f| && MatchesAt(ExactPattern(f), MigratePy.Href(v), 0)
    ensures LinkStep(MigratePy.Href(v), f) == MigratePy.Href("../" + name + "/")
  {
    var w := "../" + name + "/";
    ExactReplaceMatches(f, v);
    RebasedNoMatchFor(f, w);
    ReplaceAllNoMatch(MigratePy.Href(w), SuffixPattern(f), SuffixTemplate(f));
  }

  /** The exact replace alone turns a whole-link match into the folder link. */
  lemma ExactReplaceMatches(f: string, v: string)
    requires |v| == |f| && MatchesAt(ExactPattern(f), MigratePy.Href(v), 0)
    ensures ReplaceAll(MigratePy.Href(v), ExactPattern(f), Const(ExactReplacement(f))) == ExactReplacement(f)
  {
    var s, p := MigratePy.Href(v), ExactPattern(f);
    assert s[|p|..] == [] && s[..|p|] == s;
    NoMatchEmpty(p);
    ReplaceAllLeading(s, p, Const(ExactReplacement(f)));
    ConstExpands(ExactReplacement(f), s);
  }

  lemma NoMatchEmpty(p: Pattern)
    requires p != []
    ensures NoMatch([], p)
  {
  }

  /** The forEach pass for file k turns its exact link into the link to its folder. */
  lemma ExactStepRewrites(k: int)
    requires 0 <= k < |Files|
    ensures LinkStep(MigratePy.Href(Files[k]), Files[k]) == MigratePy.Href("../" + MigratePy.Pages[k].1 + "/")
  {
    var f, folder := Files[k], MigratePy.Pages[k].1;
    var s := MigratePy.Href(f);
    FileShape(k);
    MigratePy.PageShape(k);
    assert NoLineBreak(s);
    SourceMatchesItself(s, s, 0);
    BaseNameIsFolder(k);
    ExactStepMatches(f, folder, f);
  }

  /**
   * The exact `href="<f>"` of a listed file f becomes `href="../<name>/"` at f's pass of the
   * forEach and stays so through the later passes, whichever page is migrated.
   */
  lemma LinksRewriteExact(k: int, hi: int)
    requires 0 <= k < hi <= |Files|
    ensures LinkSteps(MigratePy.Href(Files[k]), 0, hi) == MigratePy.Href("../" + MigratePy.Pages[k].1 + "/")
  {
    var f, folder := Files[k], MigratePy.Pages[k].1;
    var s, v := MigratePy.Href(f), "../" + folder + "/";
    FileShape(k);
    MigratePy.PageShape(k);
    EarlierFilesPass(k, f, k);
    ExactStepRewrites(k);
    assert LinkSteps(s, 0, k + 1) == MigratePy.Href(v);
    RebasedPassesRest(v, k + 1, hi);
    LinkStepsSplit(s, 0, k + 1, hi);
  }

  /** A link with a suffix is not an exact link: the exact pattern wants a quote where the marker is. */
  lemma SuffixNotExact(f: string, c: char, rest: string)
    requires '"' !in f && c != '"' && '"' !in rest
    ensures NoMatch(MigratePy.Href(f + [c] + rest), ExactPattern(f))
  {
    var v := f + [c] + rest;
    var s := MigratePy.Href(v);
    assert s[6 + |f|] == c && MigratePy.Href(f)[6 + |f|] == '"';
    assert !Accepts(ExactPattern(f)[6 + |f|], s[6 + |f|]);
    HrefNoMatch(ExactPattern(f), v);
  }

  /** The suffix pattern matches such a link at its start, and nowhere after its match. */
  lemma SuffixMatches(f: string, c: char, rest: string)
    requires NoLineBreak(f) && c in {'#', '?'} && '"' !in rest
    ensures MatchesAt(SuffixPattern(f), MigratePy.Href(f + [c] + rest), 0)
    ensures MigratePy.Href(f + [c] + rest)[|SuffixPattern(f)|..] == rest + "\""
    ensures NoMatch(rest + "\"", SuffixPattern(f))
  {
    var s := MigratePy.Href(f + [c] + rest);
    var src := "href=\"" + f;
    var p := SuffixPattern(f);
    assert NoLineBreak(src) by {
      forall m | 0 <= m < |src| ensures !IsLineTerminator(src[m]) {
        if m >= 6 {
          assert src[m] == f[m - 6];
        }
      }
    }
    assert s[0..|src|] == src;
    SourceMatchesItself(src, s, 0);
    forall m | 0 <= m < |p| ensures Accepts(p[m], s[m]) {
      if m < |src| {
        assert p[m] == Source(src)[m];
      } else {
        assert p[m] == OneOf({'#', '?'}) && s[m] == c;
      }
    }
    assert s[|p|..] == rest + "\"";
    assert p[5] == Char('"');
    ClosingQuoteNoMatch(p, rest);
  }

  lemma HrefJoin(a: string, b: string, rest: string)
    ensures "href=\"" + a + b + (rest + "\"") == MigratePy.Href(a + b + rest)
  {
  }

  /** The forEach pass for a file f moves `href="<f><c>…"` to its folder and keeps the marker c and all after it. */
  lemma SuffixStepRewrites(f: string, name: string, c: char, rest: string)
    requires '"' !in f && NoLineBreak(f) && BaseName(f) == name
    requires c in {'#', '?'} && '"' !in rest
    ensures LinkStep(MigratePy.Href(f + [c] + rest), f) == MigratePy.Href("../" + name + "/" + [c] + rest)
  {
    var s := MigratePy.Href(f + [c] + rest);
    var p, t := SuffixPattern(f), SuffixTemplate(f);
    SuffixNotExact(f, c, rest);
    ReplaceAllNoMatch(s, ExactPattern(f), Const(ExactReplacement(f)));
    SuffixMatches(f, c, rest);
    ReplaceAllLeading(s, p, t);
    var head := s[..|p|];
    assert head[|head| - 1] == c;
    TextThenLastExpands("href=\"" + "../" + name + "/", head);
    HrefJoin("../" + name + "/", [c], rest);
  }

  /**
   * `href="<f>#…"` or `href="<f>?…"` becomes `href="../<name>/#…"` or `href="../<name>/?…"`
   * at f's pass of the forEach and stays so through the later passes.
   */
  lemma LinksRewriteSuffix(k: int, c: char, rest: string, hi: int)
    requires 0 <= k < hi <= |Files| && c in {'#', '?'} && '"' !in rest
    ensures LinkSteps(MigratePy.Href(Files[k] + [c] + rest), 0, hi) ==
      MigratePy.Href("../" + MigratePy.Pages[k].1 + "/" + [c] + rest)
  {
    var f, folder := Files[k], MigratePy.Pages[k].1;
    var v, w := f + [c] + rest, "../" + folder + "/" + [c] + rest;
    var s := MigratePy.Href(v);
    FileShape(k);
    MigratePy.PageShape(k);
    assert '"' !in v && '"' !in w && f <= v;
    EarlierFilesPass(k, v, k);
    BaseNameIsFolder(k);
    SuffixStepRewrites(f, folder, c, rest);
    assert LinkSteps(s, 0, k + 1) == MigratePy.Href(w);
    RebasedPassesRest(w, k + 1, hi);
    LinkStepsSplit(s, 0, k + 1, hi);
  }

  /**
   * Only the exact `href="index.html"` is rewritten, every occurrence of it; with a fragment
   * the link is left alone, where the Python script moves it to `../#…`.
   */
  lemma IndexStepExactOnly(frag: string)
    requires '"' !in frag && NoMatch("#" + frag, Literal("index.html"))
    ensures IndexStep(MigratePy.Href("index.html") + MigratePy.Href("index.html")) ==
      MigratePy.Href("../") + MigratePy.Href("../")
    ensures IndexStep(MigratePy.Href("index.html#" + frag)) == MigratePy.Href("index.html#" + frag)
    ensures MigratePy.LinkTarget("index.html#" + frag, false) == "../#" + frag
  {
    MigratePy.StrReplaceTwice(MigratePy.Href("index.html"), MigratePy.Href("../"));
    IndexStepKeepsFragment(frag);
    IndexFragmentInPython(frag);
  }

  lemma IndexFragmentInPython(frag: string)
    requires NoMatch("#" + frag, Literal("index.html"))
    ensures MigratePy.LinkTarget("index.html#" + frag, false) == "../#" + frag
  {
    MigratePy.IndexLinkRewritten("#" + frag, false);
    assert "index.html" + ("#" + frag) == "index.html#" + frag;
  }

  /** Every exact `href="index.html"` in a page becomes `href="../"`, wherever it stands. */
  lemma IndexStepAround(a: string, b: string)
    ensures IndexStep(a + MigratePy.Href("index.html") + b) == IndexStep(a) + MigratePy.Href("../") + IndexStep(b)
  {
    MigratePy.HrefNoBorder("index.html");
    MigratePy.StrReplaceAround(a, MigratePy.Href("index.html"), b, MigratePy.Href("../"));
  }

  /** The pattern ends at the closing quote, so `index.html#…` does not match it. */
  lemma IndexStepKeepsFragment(frag: string)
    requires '"' !in frag
    ensures IndexStep(MigratePy.Href("index.html#" + frag)) == MigratePy.Href("index.html#" + frag)
  {
    var v := "index.html#" + frag;
    var p := Literal(MigratePy.Href("index.html"));
    assert |p| == 17 && p[5] == Char('"') && p[16] == Char('"');
    assert MigratePy.Href(v)[16] == '#';
    HrefNoMatch(p, v);
    ReplaceAllNoMatch(MigratePy.Href(v), p, Const(MigratePy.Href("../")));
  }

  /** The exact pattern of f matches a link that differs from f only under f's dots. */
  lemma ExactMatchesUnderDots(f: string, v: string)
    requires |v| == |f|
    requires forall m :: 0 <= m < |f| ==> if f[m] == '.' then !IsLineTerminator(v[m]) else v[m] == f[m]
    ensures MatchesAt(ExactPattern(f), MigratePy.Href(v), 0)
  {
    var src, s := MigratePy.Href(f), MigratePy.Href(v);
    forall m | 0 <= m < |src|
      ensures if src[m] == '.' then !IsLineTerminator(s[m]) else s[m] == src[m]
    {
      if 6 <= m < 6 + |f| {
        assert s[m] == v[m - 6] && src[m] == f[m - 6];
      }
    }
    SourceMatches(src, s, 0);
  }

  /** The Python script keeps a link that is about.html with its dot replaced: it names no page. */
  lemma DotReplacedPythonKeeps(x: char)
    requires x != '.'
    ensures MigratePy.LinkTarget(Files[0][5 := x], false) == Files[0][5 := x]
  {
    var url := Files[0][5 := x];
    assert url[0] == 'a' && url[5] == x && |url| == 10;
    forall k | 0 <= k < |MigratePy.Pages| ensures !MigratePy.PageMatches(url, MigratePy.Pages[k].0) {
      MigratePy.PageShape(k);
      if k == 0 {
        assert MigratePy.Pages[0].0[5] == '.';
      } else {
        assert MigratePy.Pages[k].0[0] != 'a';
      }
    }
    MigratePy.LinkTargetVerbatimIff(url, false);
  }

  /**
   * about.html with its dot replaced by any other character that is not a line break still
   * matches. The character is one UTF-16 code unit, as the wildcard of a regular expression
   * without the u flag reads one code unit.
   */
  lemma DotReplacedMatches(x: char)
    requires !IsLineTerminator(x) && x < '\U{10000}'
    ensures MatchesAt(ExactPattern(Files[0]), MigratePy.Href(Files[0][5 := x]), 0)
  {
    var f, v := Files[0], Files[0][5 := x];
    forall m | 0 <= m < |f| ensures if f[m] == '.' then !IsLineTerminator(v[m]) else v[m] == f[m] {
      if m != 5 {
        assert v[m] == f[m];
      }
    }
    ExactMatchesUnderDots(f, v);
  }

  /**
   * The unescaped dot of `about.html` is a wildcard: a link such as `href="aboutXhtml"` is
   * rewritten as a link to about.html, where the Python script keeps it as it is.
   */
  lemma WildcardDotQuirk(x: char)
    requires x != '.' && !IsLineTerminator(x) && x < '\U{10000}'
    ensures LinkSteps(MigratePy.Href(Files[0][5 := x]), 0, |Files|) == MigratePy.Href("../" + MigratePy.Pages[0].1 + "/")
    ensures MigratePy.LinkTarget(Files[0][5 := x], false) == Files[0][5 := x]
  {
    var f, v, folder := Files[0], Files[0][5 := x], MigratePy.Pages[0].1;
    var s, w := MigratePy.Href(v), "../" + folder + "/";
    FileShape(0);
    MigratePy.PageShape(0);
    DotReplacedMatches(x);
    BaseNameIsFolder(0);
    ExactStepMatches(f, folder, v);
    assert LinkSteps(s, 0, 1) == MigratePy.Href(w);
    RebasedPassesRest(w, 1, |Files|);
    LinkStepsSplit(s, 0, 1, |Files|);
    DotReplacedPythonKeeps(x);
  }

  /** Only the first link to the page's own folder is marked; the Python script marks both of two. */
  lemma MarkSelfFirstOnly(folder: string)
    requires NoLineBreak(folder)
    ensures MarkSelf(MigratePy.SelfLink(folder) + MigratePy.SelfLink(folder), folder) ==
      MigratePy.Marked(folder) + MigratePy.SelfLink(folder)
    ensures MigratePy.MarkActive(MigratePy.SelfLink(folder) + MigratePy.SelfLink(folder), folder) ==
      MigratePy.Marked(folder) + MigratePy.Marked(folder)
  {
    var l := MigratePy.SelfLink(folder);
    var s, p := l + l, SelfPattern(folder);
    var v := "../" + folder + "/";
    forall k | 0 <= k < |l| ensures !IsLineTerminator(l[k]) {
      if 9 <= k < 9 + |folder| {
        assert l[k] == folder[k - 9];
      }
    }
    assert s[0..|l|] == l;
    SourceMatchesItself(l, s, 0);
    ReplaceFirstSplit(s, p, Const(MigratePy.Marked(folder)), 0);
    ConstExpands(MigratePy.Marked(folder), s[0..|p|]);
    assert s[..0] == [] && s[|p|..] == l;
    MigratePy.MarkActiveMarksEvery(folder);
  }

  /** At most one marker is added: the page is unchanged, or its first self link alone is marked. */
  lemma MarkSelfAtMostOnce(s: string, folder: string)
    ensures NoMatch(s, SelfPattern(folder)) ==> MarkSelf(s, folder) == s
    ensures !NoMatch(s, SelfPattern(folder)) ==> exists j ::
      FirstMatchAt(s, SelfPattern(folder), j) &&
      MarkSelf(s, folder) == s[..j] + MigratePy.Marked(folder) + s[j + |SelfPattern(folder)|..]
  {
    var p, t := SelfPattern(folder), Const(MigratePy.Marked(folder));
    if NoMatch(s, p) {
      ReplaceFirstNoMatch(s, p, t);
    } else {
      var j := FirstMatchFrom(s, p, 0);
      ReplaceFirstSplit(s, p, t, j);
      ConstExpands(MigratePy.Marked(folder), s[j..j + |p|]);
    }
  }

  // ---------------------------------------------------------------------------
  // Links inside a page (migrate_urls.js:47-57)

  /** No `h` of v is followed by `r`. */
  predicate NoHr(v: string) {
    forall m :: 0 <= m < |v| - 1 ==> !(v[m] == 'h' && v[m + 1] == 'r')
  }

  /** Nor can a file name's wildcards read `hr`: no `h` or dot of f is followed by `r` or a dot. */
  predicate NoHrUnderDots(f: string) {
    forall m :: 0 <= m < |f| - 1 ==> !(f[m] in "h." && f[m + 1] in "r.")
  }

  lemma FileNoHr(k: int)
    requires 0 <= k < |Files|
    ensures NoHrUnderDots(Files[k]) && NoHr(Files[k])
  {
    var folder := MigratePy.Pages[k].1;
    FileShape(k);
    MigratePy.PageShape(k);
    FolderNoH(k);
    NameNoHr(folder);
  }

  /** A folder name with no `h` and no dot, followed by `.html`. */
  lemma NameNoHr(folder: string)
    requires 'h' !in folder && '.' !in folder
    ensures NoHrUnderDots(folder + ".html") && NoHr(folder + ".html")
  {
    var f := folder + ".html";
    var n := |folder|;
    forall m | 0 <= m < n ensures f[m] !in "h." {
      assert f[m] == folder[m];
    }
  }

  lemma FolderNoH(k: int)
    requires 0 <= k < |Files|
    ensures 'h' !in MigratePy.Pages[k].1
  {
  }

  /** No tail of p can read `hr`, the start of every link. */
  predicate NoHrInside(p: Pattern) {
    forall k :: 0 < k < |p| ==> !Overlaps(p[k..], "hr")
  }

  lemma LinkPatternNoHrInside(f: string, last: Atom)
    requires NoHrUnderDots(f) && !Accepts(last, 'h') && !Accepts(last, 'r')
    ensures NoHrInside(Source("href=\"" + f) + [last])
  {
    var src := "href=\"" + f;
    var p := Source(src) + [last];
    forall k | 0 < k < |p| ensures !Overlaps(p[k..], "hr") {
      assert p[k..][0] == p[k];
      if k < |src| && Accepts(p[k], 'h') {
        assert p[k] == Source(src)[k];
        assert 6 <= k && src[k] == f[k - 6];
        assert p[k..][1] == p[k + 1];
        if k + 1 < |src| {
          assert p[k + 1] == Source(src)[k + 1] && src[k + 1] == f[k - 5];
        }
      }
    }
  }

  lemma PatternsNoHrInside(j: int)
    requires 0 <= j < |Files|
    ensures NoHrInside(ExactPattern(Files[j])) && NoHrInside(SuffixPattern(Files[j]))
  {
    var f := Files[j];
    FileNoHr(j);
    LinkPatternNoHrInside(f, Char('"'));
    LinkPatternNoHrInside(f, OneOf({'#', '?'}));
    assert ExactPattern(f) == Source("href=\"" + f) + [Char('"')];
  }

  /** The atoms both patterns of f begin with: `href="`, then f with its dots as wildcards. */
  lemma PatternHead(q: Pattern, f: string)
    requires q == ExactPattern(f) || q == SuffixPattern(f)
    ensures |q| == |f| + 7 && q[0] == Char('h') && q[1] == Char('r') && q[5] == Char('"')
    ensures forall m :: 0 <= m < |f| ==> q[6 + m] == if f[m] == '.' then Wild else Char(f[m])
  {
    var src := "href=\"" + f;
    forall m | 0 <= m < |f| ensures q[6 + m] == if f[m] == '.' then Wild else Char(f[m]) {
      assert src[6 + m] == f[m] && MigratePy.Href(f)[6 + m] == f[m];
    }
  }

  /** Inside `href="v"`, where v holds no `hr`, neither pattern of f can start after the first character. */
  lemma InsideLinkNoStart(q: Pattern, f: string, v: string, i: int)
    requires (q == ExactPattern(f) || q == SuffixPattern(f)) && '"' !in v && NoHr(v)
    requires 0 < i < |MigratePy.Href(v)|
    ensures !Overlaps(q, MigratePy.Href(v)[i..])
  {
    var s := MigratePy.Href(v);
    PatternHead(q, f);
    assert s[i..][0] == s[i];
    if s[i] == 'h' {
      assert 6 <= i < 6 + |v| && s[i] == v[i - 6];
      assert s[i..][1] == s[i + 1];
      if i - 6 < |v| - 1 {
        assert s[i + 1] == v[i - 5];
      }
    }
  }

  /** A link in which neither pattern of f can start after the first character, nor run past the end from it. */
  lemma LinkEndsWithin(q: Pattern, f: string, v: string)
    requires (q == ExactPattern(f) || q == SuffixPattern(f)) && '"' !in v && NoHr(v)
    requires |q| <= |MigratePy.Href(v)| || !Overlaps(q, MigratePy.Href(v))
    ensures EndsWithin(q, MigratePy.Href(v))
  {
    var s := MigratePy.Href(v);
    forall i | 0 <= i < |s| < i + |q| ensures !Overlaps(q, s[i..]) {
      if i == 0 {
        assert s[0..] == s;
      } else {
        InsideLinkNoStart(q, f, v, i);
      }
    }
  }

  /** A link naming file k: file j's patterns, if longer than it, fail on it at its start. */
  lemma OriginalStart(q: Pattern, j: int, k: int, v: string)
    requires 0 <= j < |Files| && 0 <= k < |Files| && Files[k] <= v
    requires q == ExactPattern(Files[j]) || q == SuffixPattern(Files[j])
    ensures |q| <= |MigratePy.Href(v)| || !Overlaps(q, MigratePy.Href(v))
  {
    PatternHead(q, Files[j]);
    if j != k {
      var m := FilesDiffer(j, k);
      assert MigratePy.Href(v)[6 + m] == v[m] == Files[k][m];
    }
  }

  lemma OriginalEndsWithin(j: int, k: int, v: string)
    requires 0 <= j < |Files| && 0 <= k < |Files| && Files[k] <= v && '"' !in v && NoHr(v)
    ensures EndsWithin(ExactPattern(Files[j]), MigratePy.Href(v))
    ensures EndsWithin(SuffixPattern(Files[j]), MigratePy.Href(v))
  {
    OriginalStart(ExactPattern(Files[j]), j, k, v);
    LinkEndsWithin(ExactPattern(Files[j]), Files[j], v);
    OriginalStart(SuffixPattern(Files[j]), j, k, v);
    LinkEndsWithin(SuffixPattern(Files[j]), Files[j], v);
  }

  lemma RebasedEndsWithin(j: int, v: string)
    requires 0 <= j < |Files| && v != [] && v[0] == '.' && '"' !in v && NoHr(v)
    ensures EndsWithin(ExactPattern(Files[j]), MigratePy.Href(v))
    ensures EndsWithin(SuffixPattern(Files[j]), MigratePy.Href(v))
  {
    var f, s := Files[j], MigratePy.Href(v);
    FileShape(j);
    PatternHead(ExactPattern(f), f);
    PatternHead(SuffixPattern(f), f);
    assert s[6] == '.';
    LinkEndsWithin(ExactPattern(f), f, v);
    LinkEndsWithin(SuffixPattern(f), f, v);
  }

  /**
   * A piece m of a page cuts cleanly for file f's pass: it begins a link, no match of the
   * exact pattern starting in it runs past it, and the same holds of the suffix pattern
   * once the exact replace is done.
   */
  predicate CutsClean(m: string, f: string) {
    var m1 := ReplaceAll(m, ExactPattern(f), Const(ExactReplacement(f)));
    "hr" <= m && EndsWithin(ExactPattern(f), m) && "hr" <= m1 && EndsWithin(SuffixPattern(f), m1)
  }

  /** File j's pass over a + m + b is its pass over each of them, when m cuts cleanly. */
  lemma LinkStepAround(a: string, m: string, b: string, j: int)
    requires 0 <= j < |Files| && CutsClean(m, Files[j])
    ensures LinkStep(a + m + b, Files[j]) == LinkStep(a, Files[j]) + LinkStep(m, Files[j]) + LinkStep(b, Files[j])
  {
    var f := Files[j];
    var pe, te, ps, ts := ExactPattern(f), Const(ExactReplacement(f)), SuffixPattern(f), SuffixTemplate(f);
    PatternsNoHrInside(j);
    assert a + m + b == a + (m + b);
    CutBefore(pe, a, m + b, "hr");
    ReplaceAllConcat(a, m + b, pe, te);
    CutAfter(pe, m, b);
    ReplaceAllConcat(m, b, pe, te);
    var ea, em, eb := ReplaceAll(a, pe, te), ReplaceAll(m, pe, te), ReplaceAll(b, pe, te);
    CutBefore(ps, ea, em + eb, "hr");
    ReplaceAllConcat(ea, em + eb, ps, ts);
    CutAfter(ps, em, eb);
    ReplaceAllConcat(em, eb, ps, ts);
  }

  lemma {:induction false} LinkStepsAround(a: string, m: string, b: string, hi: int)
    requires 0 <= hi <= |Files|
    requires forall j :: 0 <= j < hi ==> CutsClean(LinkSteps(m, 0, j), Files[j])
    ensures LinkSteps(a + m + b, 0, hi) == LinkSteps(a, 0, hi) + LinkSteps(m, 0, hi) + LinkSteps(b, 0, hi)
  {
    if hi > 0 {
      LinkStepsAround(a, m, b, hi - 1);
      LinkStepAround(LinkSteps(a, 0, hi - 1), LinkSteps(m, 0, hi - 1), LinkSteps(b, 0, hi - 1), hi - 1);
    }
  }

  /** A link that file j's exact pattern does not match, and in which j's patterns end, cuts cleanly for j. */
  lemma KeptLinkCutsClean(j: int, v: string)
    requires 0 <= j < |Files| && NoMatch(MigratePy.Href(v), ExactPattern(Files[j]))
    requires EndsWithin(ExactPattern(Files[j]), MigratePy.Href(v))
    requires EndsWithin(SuffixPattern(Files[j]), MigratePy.Href(v))
    ensures CutsClean(MigratePy.Href(v), Files[j])
  {
    var f := Files[j];
    ReplaceAllNoMatch(MigratePy.Href(v), ExactPattern(f), Const(ExactReplacement(f)));
  }

  lemma RebasedCutsClean(j: int, v: string)
    requires 0 <= j < |Files| && v != [] && v[0] == '.' && '"' !in v && NoHr(v)
    ensures CutsClean(MigratePy.Href(v), Files[j])
  {
    RebasedNoMatch(j, v);
    RebasedEndsWithin(j, v);
    KeptLinkCutsClean(j, v);
  }

  lemma FolderLinkNoHr(k: int, tail: string)
    requires 0 <= k < |Files| && NoHr(tail) && (tail != [] ==> tail[0] != 'r')
    ensures NoHr("../" + MigratePy.Pages[k].1 + "/" + tail)
  {
    var v := "../" + MigratePy.Pages[k].1 + "/" + tail;
    FolderNoH(k);
    var n := |MigratePy.Pages[k].1| + 4;
    assert v[..n] == "../" + MigratePy.Pages[k].1 + "/" && v[n..] == tail;
    forall m | 0 <= m < |v| - 1 && v[m] == 'h' ensures v[m + 1] != 'r' {
      assert v[m] in v[..n] || v[m] in v[n..];
    }
  }

  /** The exact link of file k cuts cleanly for every pass: it is kept before k and rebased from k on. */
  lemma ExactLinkCutsClean(k: int, j: int)
    requires 0 <= k < |Files| && 0 <= j < |Files|
    ensures CutsClean(LinkSteps(MigratePy.Href(Files[k]), 0, j), Files[j])
  {
    if j < k {
      ExactLinkBefore(k, j);
    } else if j == k {
      ExactLinkAt(k);
    } else {
      ExactLinkAfter(k, j);
    }
  }

  lemma ExactLinkAfter(k: int, j: int)
    requires 0 <= k < j < |Files|
    ensures CutsClean(LinkSteps(MigratePy.Href(Files[k]), 0, j), Files[j])
  {
    var w := FolderLink(k, "");
    assert w == "../" + MigratePy.Pages[k].1 + "/";
    LinksRewriteExact(k, j);
    RebasedCutsClean(j, w);
  }

  /** The folder link value `../<name>/` of file k, followed by tail. */
  lemma FolderLink(k: int, tail: string) returns (w: string)
    requires 0 <= k < |Files| && NoHr(tail) && (tail != [] ==> tail[0] != 'r') && '"' !in tail
    ensures w == "../" + MigratePy.Pages[k].1 + "/" + tail
    ensures w != [] && w[0] == '.' && '"' !in w && NoHr(w)
  {
    w := "../" + MigratePy.Pages[k].1 + "/" + tail;
    MigratePy.PageShape(k);
    FolderLinkNoHr(k, tail);
  }

  lemma ExactLinkBefore(k: int, j: int)
    requires 0 <= j < k < |Files|
    ensures CutsClean(LinkSteps(MigratePy.Href(Files[k]), 0, j), Files[j])
  {
    var f := Files[k];
    FileShape(k);
    FileNoHr(k);
    EarlierFilesPass(k, f, j);
    OtherFileNoMatch(j, k, f);
    OriginalEndsWithin(j, k, f);
    KeptLinkCutsClean(j, f);
  }

  /** A link that file j's exact replace turns into w cuts cleanly for j when j's patterns end within both. */
  lemma ReplacedCutsClean(j: int, v: string, w: string)
    requires 0 <= j < |Files|
    requires ReplaceAll(MigratePy.Href(v), ExactPattern(Files[j]), Const(ExactReplacement(Files[j]))) == MigratePy.Href(w)
    requires EndsWithin(ExactPattern(Files[j]), MigratePy.Href(v))
    requires EndsWithin(SuffixPattern(Files[j]), MigratePy.Href(w))
    ensures CutsClean(MigratePy.Href(v), Files[j])
  {
  }

  lemma ExactLinkAt(k: int)
    requires 0 <= k < |Files|
    ensures CutsClean(LinkSteps(MigratePy.Href(Files[k]), 0, k), Files[k])
  {
    var f := Files[k];
    var w := FolderLink(k, "");
    FileShape(k);
    FileNoHr(k);
    EarlierFilesPass(k, f, k);
    OriginalEndsWithin(k, k, f);
    ExactLinkReplaced(k);
    assert w == "../" + MigratePy.Pages[k].1 + "/";
    RebasedEndsWithin(k, w);
    ReplacedCutsClean(k, f, w);
  }

  /** The exact replace of file k's pass alone turns its link into the folder link. */
  lemma ExactLinkReplaced(k: int)
    requires 0 <= k < |Files|
    ensures ReplaceAll(MigratePy.Href(Files[k]), ExactPattern(Files[k]), Const(ExactReplacement(Files[k]))) ==
      MigratePy.Href("../" + MigratePy.Pages[k].1 + "/")
  {
    var f := Files[k];
    FileShape(k);
    assert NoLineBreak(MigratePy.Href(f));
    SourceMatchesItself(MigratePy.Href(f), MigratePy.Href(f), 0);
    ExactReplaceMatches(f, f);
    BaseNameIsFolder(k);
  }

  /**
   * An exact link anywhere in a page is rewritten where it stands: the forEach over the page
   * is the forEach over the text before it, the folder link, and the forEach over the text after it.
   */
  lemma ExactLinkInPage(a: string, k: int, b: string)
    requires 0 <= k < |Files|
    ensures LinkSteps(a + MigratePy.Href(Files[k]) + b, 0, |Files|) ==
      LinkSteps(a, 0, |Files|) + MigratePy.Href("../" + MigratePy.Pages[k].1 + "/") + LinkSteps(b, 0, |Files|)
  {
    var m := MigratePy.Href(Files[k]);
    forall j | 0 <= j < |Files| ensures CutsClean(LinkSteps(m, 0, j), Files[j]) {
      ExactLinkCutsClean(k, j);
    }
    LinkStepsAround(a, m, b, |Files|);
    LinksRewriteExact(k, |Files|);
  }

  lemma NoHrJoin(x: string, y: string)
    requires NoHr(x) && NoHr(y) && (x != [] && y != [] ==> !(x[|x| - 1] == 'h' && y[0] == 'r'))
    ensures NoHr(x + y)
  {
    var s := x + y;
    forall m | 0 <= m < |s| - 1 ensures !(s[m] == 'h' && s[m + 1] == 'r') {
      if m + 1 < |x| {
        assert s[m] == x[m] && s[m + 1] == x[m + 1];
      } else if m + 1 == |x| {
        assert s[m] == x[m] && s[m + 1] == y[0];
      } else {
        assert s[m] == y[m - |x|] && s[m + 1] == y[m + 1 - |x|];
      }
    }
  }

  /** The value `<f><c><rest>` of a suffixed link of file k. */
  lemma SuffixValue(k: int, c: char, rest: string) returns (v: string)
    requires 0 <= k < |Files| && c in {'#', '?'} && '"' !in rest && NoHr(rest)
    ensures v == Files[k] + [c] + rest && Files[k] <= v && '"' !in v && NoHr(v)
  {
    v := Files[k] + [c] + rest;
    FileShape(k);
    FileNoHr(k);
    NoHrJoin([c], rest);
    NoHrJoin(Files[k], [c] + rest);
    assert Files[k] + ([c] + rest) == v;
  }

  /** The suffixed link of file k cuts cleanly for every pass, when what follows the marker holds no `hr`. */
  lemma SuffixLinkCutsClean(k: int, c: char, rest: string, j: int)
    requires 0 <= k < |Files| && 0 <= j < |Files| && c in {'#', '?'} && '"' !in rest && NoHr(rest)
    ensures CutsClean(LinkSteps(MigratePy.Href(Files[k] + [c] + rest), 0, j), Files[j])
  {
    if j <= k {
      SuffixLinkUpTo(k, c, rest, j);
    } else {
      SuffixLinkAfter(k, c, rest, j);
    }
  }

  lemma SuffixLinkUpTo(k: int, c: char, rest: string, j: int)
    requires 0 <= j <= k < |Files| && c in {'#', '?'} && '"' !in rest && NoHr(rest)
    ensures CutsClean(LinkSteps(MigratePy.Href(Files[k] + [c] + rest), 0, j), Files[j])
  {
    var v := SuffixValue(k, c, rest);
    FileShape(k);
    EarlierFilesPass(k, v, j);
    if j < k {
      OtherFileNoMatch(j, k, v);
    } else {
      SuffixNotExact(Files[k], c, rest);
    }
    OriginalEndsWithin(j, k, v);
    KeptLinkCutsClean(j, v);
  }

  lemma SuffixLinkAfter(k: int, c: char, rest: string, j: int)
    requires 0 <= k < j < |Files| && c in {'#', '?'} && '"' !in rest && NoHr(rest)
    ensures CutsClean(LinkSteps(MigratePy.Href(Files[k] + [c] + rest), 0, j), Files[j])
  {
    NoHrJoin([c], rest);
    var w := FolderLink(k, [c] + rest);
    assert w == "../" + MigratePy.Pages[k].1 + "/" + [c] + rest;
    LinksRewriteSuffix(k, c, rest, j);
    RebasedCutsClean(j, w);
  }

  /**
   * A suffixed link anywhere in a page is rewritten where it stands, when what follows its
   * marker holds no `hr`: otherwise the exact pattern of a file can start inside the link and
   * read past its closing quote, as in `href="about.html#href="` followed by `about.html"`.
   */
  lemma SuffixLinkInPage(a: string, k: int, c: char, rest: string, b: string)
    requires 0 <= k < |Files| && c in {'#', '?'} && '"' !in rest && NoHr(rest)
    ensures LinkSteps(a + MigratePy.Href(Files[k] + [c] + rest) + b, 0, |Files|) ==
      LinkSteps(a, 0, |Files|) + MigratePy.Href("../" + MigratePy.Pages[k].1 + "/" + [c] + rest) + LinkSteps(b, 0, |Files|)
  {
    var m := MigratePy.Href(Files[k] + [c] + rest);
    forall j | 0 <= j < |Files| ensures CutsClean(LinkSteps(m, 0, j), Files[j]) {
      SuffixLinkCutsClean(k, c, rest, j);
    }
    LinkStepsAround(a, m, b, |Files|);
    LinksRewriteSuffix(k, c, rest, |Files|);
  }

  /** Neither pattern of file j matches anywhere in s. */
  predicate NoLinkOf(s: string, j: int)
    requires 0 <= j < |Files|
  {
    NoMatch(s, ExactPattern(Files[j])) && NoMatch(s, SuffixPattern(Files[j]))
  }

  /** Rebased text `href="../…` keeps apart from both patterns of every listed file. */
  lemma RebasedSeparated(q: Pattern, j: int, w: string)
    requires 0 <= j < |Files| && (q == ExactPattern(Files[j]) || q == SuffixPattern(Files[j]))
    requires w != [] && w[0] == '.' && 'h' !in w
    ensures Separated(q, "href=\"" + w)
  {
    var f, r := Files[j], "href=\"" + w;
    FileShape(j);
    PatternHead(q, f);
    PatternsNoHrInside(j);
    forall i | 0 <= i < |r| ensures !Overlaps(q, r[i..]) {
      assert r[i..][0] == r[i];
      if i == 0 {
        assert r[0..][6] == r[6] == '.';
      } else if i >= 6 {
        assert r[i] == w[i - 6];
      }
    }
    assert r[..2] == "hr";
  }

  /** The text the exact replace of file n puts in. */
  lemma ExactReplacementShape(n: int) returns (w: string)
    requires 0 <= n < |Files|
    ensures ExactReplacement(Files[n]) == "href=\"" + w && w != [] && w[0] == '.' && 'h' !in w
  {
    w := "../" + MigratePy.Pages[n].1 + "/\"";
    BaseNameIsFolder(n);
    FolderNoH(n);
  }

  /** The exact replace of file n's pass leaves no match of a pattern it did not find before, and none of its own. */
  lemma ExactPassLeaves(x: string, n: int, j: int, q: Pattern)
    requires 0 <= n < |Files| && 0 <= j < |Files| && (q == ExactPattern(Files[j]) || q == SuffixPattern(Files[j]))
    requires q == ExactPattern(Files[n]) || NoMatch(x, q)
    ensures NoMatch(ReplaceAll(x, ExactPattern(Files[n]), Const(ExactReplacement(Files[n]))), q)
  {
    var p, r := ExactPattern(Files[n]), ExactReplacement(Files[n]);
    var w := ExactReplacementShape(n);
    RebasedSeparated(q, j, w);
    forall i | MatchesAt(p, x, i) ensures Separated(q, Expand(Const(r), x[i..i + |p|])) {
      ConstExpands(r, x[i..i + |p|]);
    }
    ReplaceAllLeavesNoMatch(x, p, Const(r), q);
  }

  /** The same for the suffix replace of file n's pass. */
  lemma SuffixPassLeaves(x: string, n: int, j: int, q: Pattern)
    requires 0 <= n < |Files| && 0 <= j < |Files| && (q == ExactPattern(Files[j]) || q == SuffixPattern(Files[j]))
    requires q == SuffixPattern(Files[n]) || NoMatch(x, q)
    ensures NoMatch(ReplaceAll(x, SuffixPattern(Files[n]), SuffixTemplate(Files[n])), q)
  {
    var f := Files[n];
    var p, t := SuffixPattern(f), SuffixTemplate(f);
    forall i | MatchesAt(p, x, i) ensures Separated(q, Expand(t, x[i..i + |p|])) {
      SuffixExpansionSeparated(x, n, j, q, i);
    }
    ReplaceAllLeavesNoMatch(x, p, t, q);
  }

  /** What the suffix replace of file n puts in at a match keeps apart from every pattern. */
  lemma SuffixExpansionSeparated(x: string, n: int, j: int, q: Pattern, i: int)
    requires 0 <= n < |Files| && 0 <= j < |Files| && (q == ExactPattern(Files[j]) || q == SuffixPattern(Files[j]))
    requires MatchesAt(SuffixPattern(Files[n]), x, i)
    ensures Separated(q, Expand(SuffixTemplate(Files[n]), x[i..i + |SuffixPattern(Files[n])|]))
  {
    var f := Files[n];
    var p := SuffixPattern(f);
    var m := x[i..i + |p|];
    assert |p| == |f| + 7 && p[|p| - 1] == OneOf({'#', '?'});
    var c := m[|m| - 1];
    assert c == x[i + |p| - 1] && Accepts(p[|p| - 1], c);
    TextThenLastExpands("href=\"" + "../" + BaseName(f) + "/", m);
    var w := SuffixReplacementShape(n, c);
    RebasedSeparated(q, j, w);
  }

  /** The text the suffix replace of file n puts in, with the marker c. */
  lemma SuffixReplacementShape(n: int, c: char) returns (w: string)
    requires 0 <= n < |Files| && c in {'#', '?'}
    ensures "href=\"" + "../" + BaseName(Files[n]) + "/" + [c] == "href=\"" + w
    ensures w != [] && w[0] == '.' && 'h' !in w
  {
    w := "../" + MigratePy.Pages[n].1 + "/" + [c];
    BaseNameIsFolder(n);
    FolderNoH(n);
  }

  /** File n's pass keeps out the links of the files before it and removes its own. */
  lemma LinkStepLeavesNoLink(x: string, n: int)
    requires 0 <= n < |Files| && forall j :: 0 <= j < n ==> NoLinkOf(x, j)
    ensures forall j :: 0 <= j <= n ==> NoLinkOf(LinkStep(x, Files[n]), j)
  {
    var f := Files[n];
    var x1 := ReplaceAll(x, ExactPattern(f), Const(ExactReplacement(f)));
    forall j | 0 <= j <= n ensures NoLinkOf(LinkStep(x, f), j) {
      var pe, ps := ExactPattern(Files[j]), SuffixPattern(Files[j]);
      if j < n {
        assert NoLinkOf(x, j);
        ExactPassLeaves(x, n, j, ps);
      }
      ExactPassLeaves(x, n, j, pe);
      SuffixPassLeaves(x1, n, j, pe);
      SuffixPassLeaves(x1, n, j, ps);
    }
  }

  /**
   * After the forEach over the first hi files, no exact or suffixed link of any of them is
   * left anywhere in the page.
   */
  lemma {:induction false} LinkStepsLeaveNoLink(s: string, hi: int)
    requires 0 <= hi <= |Files|
    ensures forall j :: 0 <= j < hi ==> NoLinkOf(LinkSteps(s, 0, hi), j)
  {
    if hi > 0 {
      LinkStepsLeaveNoLink(s, hi - 1);
      LinkStepLeavesNoLink(LinkSteps(s, 0, hi - 1), hi - 1);
    }
  }
}
