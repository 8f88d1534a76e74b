/**
 * update_content from migrate_urls.py: the text-to-text rewrite of one page of the
 * site when it moves from `<page>.html` to `<folder>/index.html` (subpage mode), or
 * when the root `index.html` stays where it is (root mode).
 *  1. subpage mode only: five resource references gain a `../` prefix (str.replace);
 *  2. every `href="<value>"` token is passed through replace_link (re.sub with a callback);
 *  3. subpage mode only: every link to the page's own new folder gets ` class="active"`.
 */
module MigratePy {
  import opened Options
  import opened Rx

  /** The `pages` dictionary, in its insertion order: original file and the folder it moves to. */
  const Pages: seq<(string, string)> := [
    ("about.html", "about"),
    ("program.html", "program"),
    ("team.html", "team"),
    ("blog.html", "blog"),
    ("contact.html", "contact"),
    ("privacy.html", "privacy"),
    ("blog-details.html", "blog-details")
  ]

  /** Facts about the page table that the link rewrite relies on. */
  lemma PageShape(k: int)
    requires 0 <= k < |Pages|
    ensures Pages[k].0 == Pages[k].1 + ".html"
    ensures '/' !in Pages[k].0 && '"' !in Pages[k].0 && '=' !in Pages[k].1
    ensures '/' !in Pages[k].1 && '.' !in Pages[k].1
    ensures Pages[k].0[0] !in {'h', '#', 'm', 'i', '.'}
  {
    PageFileIsFolder(k);
    PageFileChars(k);
    PageFolderChars(k);
    PageFirstChar(k);
  }

  lemma PageFileIsFolder(k: int)
    requires 0 <= k < |Pages|
    ensures Pages[k].0 == Pages[k].1 + ".html"
  {
  }

  lemma PageFileChars(k: int)
    requires 0 <= k < |Pages|
    ensures '/' !in Pages[k].0 && '"' !in Pages[k].0
  {
  }

  lemma PageFolderChars(k: int)
    requires 0 <= k < |Pages|
    ensures '/' !in Pages[k].1 && '.' !in Pages[k].1 && '=' !in Pages[k].1
  {
  }

  lemma PageFirstChar(k: int)
    requires 0 <= k < |Pages|
    ensures Pages[k].0[0] !in {'h', '#', 'm', 'i', '.'}
  {
  }

  /** No original file name is a prefix of another one. */
  lemma PagesPrefixFree(j: int, k: int)
    requires 0 <= j < |Pages| && 0 <= k < |Pages| && j != k
    ensures !(Pages[j].0 <= Pages[k].0)
  {
    var a, b := Pages[j].0, Pages[k].0;
    assert a[0] != b[0] || a[2] != b[2] || a[4] != b[4];
  }

  /** Python's str.replace(from, to): every leftmost non-overlapping occurrence. */
  function StrReplace(s: string, from: string, to: string): string
    requires from != []
  {
    ReplaceAll(s, Literal(from), Const(to))
  }

  /** Deleting a name from a text that starts with it and holds it nowhere else leaves the rest. */
  lemma StrDeleteLeading(w: string, tail: string)
    requires w != [] && NoMatch(tail, Literal(w))
    ensures StrReplace(w + tail, w, "") == tail
  {
    var s, p := w + tail, Literal(w);
    LiteralMatch(w, s, 0);
    assert s[0..|w|] == w;
    ReplaceAllAfterLeading(w, tail, p, Const(""));
    ConstExpands("", w);
    ReplaceAllNoMatch(tail, p, Const(""));
  }

  /** Deleting a name from a text that starts with it shortens the text by at least the name. */
  lemma StrDeleteLeadingShortens(w: string, tail: string)
    requires w != []
    ensures |StrReplace(w + tail, w, "")| <= |tail|
  {
    var s, p := w + tail, Literal(w);
    LiteralMatch(w, s, 0);
    assert s[0..|w|] == w;
    ReplaceAllSplit(s, p, Const(""), 0);
    ConstExpands("", s[0..|w|]);
    DeleteFromShortens(s, p, |w|);
  }

  // ---------------------------------------------------------------------------
  // 1. Resources (migrate_urls.py:25-29)

  /** A rule `<attr>="<target>` -> `<attr>="../<target>`. */
  datatype ResourceRule = ResourceRule(attr: string, target: string)
  {
    function Pattern(): string { attr + "=\"" + target }
    function Rebased(): string { attr + "=\"../" + target }
  }

  const ResourceRules: seq<ResourceRule> := [
    ResourceRule("href", "styles.css\""),
    ResourceRule("src", "script.js\""),
    ResourceRule("src", "images/"),
    ResourceRule("srcset", "images/"),
    ResourceRule("content", "images/")
  ]

  predicate IsLower(c: char) { 'a' <= c <= 'z' }

  /** The shape every resource rule has: a lower-case attribute, a target free of `=` that does
      not start with `.` and ends with `"` or `/`. */
  predicate WellFormed(r: ResourceRule) {
    (forall i :: 0 <= i < |r.attr| ==> IsLower(r.attr[i])) &&
    '=' !in r.target && r.target != [] && r.target[0] != '.' &&
    r.target[|r.target| - 1] in {'"', '/'}
  }

  lemma ResourceRulesWellFormed()
    ensures forall r :: r in ResourceRules ==> WellFormed(r)
  {
    forall r | r in ResourceRules ensures WellFormed(r) {
      var k :| 0 <= k < |ResourceRules| && ResourceRules[k] == r;
      RuleWellFormed(k);
    }
  }

  lemma RuleWellFormed(k: int)
    requires 0 <= k < |ResourceRules|
    ensures WellFormed(ResourceRules[k])
  {
    var r := ResourceRules[k];
    if k == 0 { assert r == ResourceRule("href", "styles.css\""); }
    else if k == 1 { assert r == ResourceRule("src", "script.js\""); }
    else if k == 2 { assert r == ResourceRule("src", "images/"); }
    else if k == 3 { assert r == ResourceRule("srcset", "images/"); }
    else { assert r == ResourceRule("content", "images/"); }
  }

  /** Literal(w) overlaps t exactly where w and t agree. */
  lemma LiteralOverlaps(w: string, t: string, k: int)
    requires Overlaps(Literal(w), t) && 0 <= k < |w| && k < |t|
    ensures w[k] == t[k]
  {
    assert Accepts(Literal(w)[k], t[k]);
  }

  lemma LiteralOverlapsFrom(w: string, t: string, k: int, m: int)
    requires 0 <= k < |w| && Overlaps(Literal(w)[k..], t) && 0 <= m < |w| - k && m < |t|
    ensures w[k + m] == t[m]
  {
    assert Literal(w)[k..][m] == Literal(w)[k + m];
    assert Accepts(Literal(w)[k..][m], t[m]);
  }

  lemma EqualsAt(a: ResourceRule, m: int)
    requires WellFormed(a) && 0 <= m < |a.Rebased()| && a.Rebased()[m] == '='
    ensures m == |a.attr|
  {
  }

  lemma PatternEqualsAt(b: ResourceRule, m: int)
    requires WellFormed(b) && 0 <= m < |b.Pattern()| && b.Pattern()[m] == '='
    ensures m == |b.attr|
  {
  }

  /**
   * A rebased reference never contains, or runs into, an unrebased pattern: the only `=` of
   * each lines up, and then `..` faces a target that does not start with `.`; otherwise the
   * closing `"` or `/` of one would have to face a letter of the other's attribute.
   */
  lemma RuleSeparated(a: ResourceRule, b: ResourceRule)
    requires WellFormed(a) && WellFormed(b)
    ensures Separated(Literal(b.Pattern()), a.Rebased())
  {
    forall i | 0 <= i < |a.Rebased()| ensures !Overlaps(Literal(b.Pattern()), a.Rebased()[i..]) {
      NoOverlapInside(a, b, i);
    }
    forall k | 0 < k < |b.Pattern()| ensures !Overlaps(Literal(b.Pattern())[k..], a.Rebased()) {
      NoOverlapInto(a, b, k);
    }
  }

  /** A pattern cannot start inside a rebased reference. */
  lemma NoOverlapInside(a: ResourceRule, b: ResourceRule, i: int)
    requires WellFormed(a) && WellFormed(b) && 0 <= i < |a.Rebased()|
    ensures !Overlaps(Literal(b.Pattern()), a.Rebased()[i..])
  {
    var q, r := b.Pattern(), a.Rebased();
    var x' := |b.attr|;
    if Overlaps(Literal(q), r[i..]) {
      if i + x' < |r| {
        assert q[x'] == '=' && q[x' + 2] == b.target[0];
        LiteralOverlaps(q, r[i..], x');
        LiteralOverlaps(q, r[i..], x' + 2);
        EqualsAt(a, i + x');
        assert false;
      } else {
        LiteralOverlaps(q, r[i..], |r| - 1 - i);
        assert false;
      }
    }
  }

  /** A pattern cannot start before a rebased reference and run into it. */
  lemma NoOverlapInto(a: ResourceRule, b: ResourceRule, k: int)
    requires WellFormed(a) && WellFormed(b) && 0 < k < |b.Pattern()|
    ensures !Overlaps(Literal(b.Pattern())[k..], a.Rebased())
  {
    var q, r := b.Pattern(), a.Rebased();
    var x := |a.attr|;
    if Overlaps(Literal(q)[k..], r) {
      if k + x < |q| {
        assert r[x] == '=' && r[x + 2] == '.';
        LiteralOverlapsFrom(q, r, k, x);
        LiteralOverlapsFrom(q, r, k, x + 2);
        PatternEqualsAt(b, k + x);
        assert false;
      } else {
        LiteralOverlapsFrom(q, r, k, |q| - 1 - k);
        assert false;
      }
    }
  }

  /** The resource step: each rule's str.replace, in order. */
  function ApplyRules(s: string, rules: seq<ResourceRule>): string
    decreases |rules|
  {
    if rules == [] then s
    else ApplyRules(StrReplace(s, rules[0].Pattern(), rules[0].Rebased()), rules[1..])
  }

  function RebaseResources(content: string): string {
    ApplyRules(content, ResourceRules)
  }

  /** No unrebased reference of any of the rules occurs in s. */
  predicate NoPattern(s: string, rules: seq<ResourceRule>) {
    forall r :: r in rules ==> NoMatch(s, Literal(r.Pattern()))
  }

  /**
   * After the resource step no unrebased reference is left: every occurrence of every
   * pattern gained its `../`, and no later rule recreated an earlier rule's pattern.
   */
  lemma {:induction false} ApplyRulesNoResidual(s: string, done: seq<ResourceRule>, rules: seq<ResourceRule>)
    requires forall r :: r in done + rules ==> WellFormed(r)
    requires NoPattern(s, done)
    ensures NoPattern(ApplyRules(s, rules), done + rules)
    decreases |rules|
  {
    if rules == [] {
      assert done + rules == done;
    } else {
      var r0 := rules[0];
      var p, t := Literal(r0.Pattern()), Const(r0.Rebased());
      var s1 := StrReplace(s, r0.Pattern(), r0.Rebased());
      forall d | d in done + [r0] ensures NoMatch(s1, Literal(d.Pattern())) {
        var q := Literal(d.Pattern());
        forall i | MatchesAt(p, s, i) ensures Separated(q, Expand(t, s[i..i + |p|])) {
          ConstExpands(r0.Rebased(), s[i..i + |p|]);
          RuleSeparated(r0, d);
        }
        ReplaceAllLeavesNoMatch(s, p, t, q);
      }
      ApplyRulesNoResidual(s1, done + [r0], rules[1..]);
      assert done + [r0] + rules[1..] == done + rules;
    }
  }

  /** Text holding none of the patterns goes through the resource step unchanged. */
  lemma {:induction false} ApplyRulesIdentity(s: string, rules: seq<ResourceRule>)
    requires NoPattern(s, rules)
    ensures ApplyRules(s, rules) == s
    decreases |rules|
  {
    if rules != [] {
      ReplaceAllNoMatch(s, Literal(rules[0].Pattern()), Const(rules[0].Rebased()));
      ApplyRulesIdentity(s, rules[1..]);
    }
  }

  /** Subpage mode leaves no unrebased `href="styles.css"`, `src="script.js"`, `src="images/`, ... behind. */
  lemma RebaseLeavesNoPattern(content: string)
    ensures NoPattern(RebaseResources(content), ResourceRules)
  {
    ResourceRulesWellFormed();
    assert [] + ResourceRules == ResourceRules;
    ApplyRulesNoResidual(content, [], ResourceRules);
  }

  /** The resource step never re-matches its own output: no `../../` on a second run. */
  lemma RebaseIdempotent(content: string)
    ensures RebaseResources(RebaseResources(content)) == RebaseResources(content)
  {
    RebaseLeavesNoPattern(content);
    ApplyRulesIdentity(RebaseResources(content), ResourceRules);
  }

  /**
   * Text whose only resource references are of one kind k gets exactly that rule's str.replace:
   * every occurrence gains its `../`, and no other rule touches the text before or after.
   */
  lemma {:induction false} ApplyRulesOneKind(s: string, rules: seq<ResourceRule>, k: int)
    requires forall r :: r in rules ==> WellFormed(r)
    requires 0 <= k < |rules|
    requires forall j :: 0 <= j < |rules| && j != k ==> NoMatch(s, Literal(rules[j].Pattern()))
    ensures ApplyRules(s, rules) == StrReplace(s, rules[k].Pattern(), rules[k].Rebased())
    decreases |rules|
  {
    var r0 := rules[0];
    var p, t := Literal(r0.Pattern()), Const(r0.Rebased());
    if k == 0 {
      var s1 := StrReplace(s, r0.Pattern(), r0.Rebased());
      forall r | r in rules[1..] ensures NoMatch(s1, Literal(r.Pattern())) {
        var j :| 1 <= j < |rules| && rules[j] == r;
        var q := Literal(r.Pattern());
        forall i | MatchesAt(p, s, i) ensures Separated(q, Expand(t, s[i..i + |p|])) {
          ConstExpands(r0.Rebased(), s[i..i + |p|]);
          RuleSeparated(r0, r);
        }
        ReplaceAllLeavesNoMatch(s, p, t, q);
      }
      ApplyRulesIdentity(s1, rules[1..]);
    } else {
      ReplaceAllNoMatch(s, p, t);
      assert forall j :: 0 <= j < |rules[1..]| ==> rules[1..][j] == rules[j + 1];
      ApplyRulesOneKind(s, rules[1..], k - 1);
    }
  }

  /** In subpage mode a page referring to resources of one kind only gets `../` on every such reference. */
  lemma RebaseOneKind(content: string, k: int)
    requires 0 <= k < |ResourceRules|
    requires forall j :: 0 <= j < |ResourceRules| && j != k ==> NoMatch(content, Literal(ResourceRules[j].Pattern()))
    ensures RebaseResources(content) == StrReplace(content, ResourceRules[k].Pattern(), ResourceRules[k].Rebased())
  {
    ResourceRulesWellFormed();
    ApplyRulesOneKind(content, ResourceRules, k);
  }

  /** r's pattern can meet s's only where r's attribute ends s's and their targets agree. */
  predicate Compatible(r: ResourceRule, s: ResourceRule) {
    |r.attr| <= |s.attr| && s.attr[|s.attr| - |r.attr|..] == r.attr &&
    (r.target <= s.target || s.target <= r.target)
  }

  /** The last two letters of a rule's attribute and the first character of its target. */
  function Signature(r: ResourceRule): (char, char, char)
    requires |r.attr| >= 2 && r.target != []
  {
    (r.attr[|r.attr| - 1], r.attr[|r.attr| - 2], r.target[0])
  }

  /** Compatible rules with attributes of two letters or more have the same signature. */
  lemma CompatibleSignature(r: ResourceRule, s: ResourceRule)
    requires Compatible(r, s) && |r.attr| >= 2 && r.target != [] && s.target != []
    ensures Signature(r) == Signature(s)
  {
    var x, y := |r.attr|, |s.attr|;
    assert s.attr[y - x..][x - 1] == s.attr[y - 1] && s.attr[y - x..][x - 2] == s.attr[y - 2];
    if r.target <= s.target {
      assert s.target[0] == r.target[0];
    }
  }

  const Signatures: seq<(char, char, char)> :=
    [('f', 'e', 's'), ('c', 'r', 's'), ('c', 'r', 'i'), ('t', 'e', 'i'), ('t', 'n', 'i')]

  lemma SignatureAt(k: int)
    requires 0 <= k < |ResourceRules|
    ensures |ResourceRules[k].attr| >= 2 && ResourceRules[k].target != []
    ensures Signature(ResourceRules[k]) == Signatures[k]
  {
    var r := ResourceRules[k];
    if k == 0 { assert r == ResourceRule("href", "styles.css\""); }
    else if k == 1 { assert r == ResourceRule("src", "script.js\""); }
    else if k == 2 { assert r == ResourceRule("src", "images/"); }
    else if k == 3 { assert r == ResourceRule("srcset", "images/"); }
    else { assert r == ResourceRule("content", "images/"); }
  }

  /** No two different rules of the table are compatible. */
  lemma RulesIncompatible(j: int, k: int)
    requires 0 <= j < |ResourceRules| && 0 <= k < |ResourceRules| && j != k
    ensures !Compatible(ResourceRules[j], ResourceRules[k])
  {
    var r, s := ResourceRules[j], ResourceRules[k];
    SignatureAt(j);
    SignatureAt(k);
    SignaturesDistinct(j, k);
    if Compatible(r, s) {
      CompatibleSignature(r, s);
      assert false;
    }
  }

  lemma SignaturesDistinct(j: int, k: int)
    requires 0 <= j < |Signatures| && 0 <= k < |Signatures| && j != k
    ensures Signatures[j] != Signatures[k]
  {
  }

  /**
   * A pattern that overlaps another rule's pattern from offset i on has its `=` on the other's
   * `=`: otherwise the other's closing `"` or `/` would face a letter of its attribute.
   */
  lemma PatternOverlapShape(r: ResourceRule, s: ResourceRule, i: int)
    requires WellFormed(r) && WellFormed(s) && 0 <= i < |s.Pattern()|
    requires Overlaps(Literal(r.Pattern()), s.Pattern()[i..])
    ensures i + |r.attr| == |s.attr| && Compatible(r, s)
  {
    var q, w := r.Pattern(), s.Pattern();
    var x := |r.attr|;
    if i + x < |w| {
      LiteralOverlaps(q, w[i..], x);
      PatternEqualsAt(s, i + x);
      forall m | 0 <= m < x ensures s.attr[i + m] == r.attr[m] {
        LiteralOverlaps(q, w[i..], m);
      }
      assert s.attr[i..] == r.attr;
      var n := if |r.target| <= |s.target| then |r.target| else |s.target|;
      forall m | 0 <= m < n ensures r.target[m] == s.target[m] {
        LiteralOverlaps(q, w[i..], x + 2 + m);
      }
      if |r.target| <= |s.target| {
        assert r.target == s.target[..n];
      } else {
        assert s.target == r.target[..n];
      }
    } else {
      LiteralOverlaps(q, w[i..], |w| - 1 - i);
      assert false;
    }
  }

  /** A tail of a literal overlaps t exactly when t's literal overlaps that tail. */
  lemma LiteralTailOverlaps(w: string, k: int, t: string)
    requires 0 <= k < |w| && Overlaps(Literal(w)[k..], t)
    ensures Overlaps(Literal(t), w[k..])
  {
    forall m | 0 <= m < |t| && m < |w| - k ensures Accepts(Literal(t)[m], w[k..][m]) {
      LiteralOverlapsFrom(w, t, k, m);
    }
  }

  /** No match of w can run into m from before it, nor out of m past its end. */
  predicate Apart(w: string, m: string) {
    (forall k :: 0 < k < |w| ==> !Overlaps(Literal(w)[k..], m)) && EndsWithin(Literal(w), m)
  }

  /** A text separated from w is apart from it and holds no match of it. */
  lemma SeparatedApart(w: string, m: string)
    requires w != [] && Separated(Literal(w), m)
    ensures Apart(w, m) && NoMatch(m, Literal(w))
  {
    forall i | 0 <= i <= |m| ensures !MatchesAt(Literal(w), m, i) {
      if MatchesAt(Literal(w), m, i) {
        assert Overlaps(Literal(w), m[i..]);
      }
    }
  }

  /** A pattern is apart from its own rule's pattern and from every incompatible rule's pattern. */
  lemma PatternsApart(r: ResourceRule, c: ResourceRule)
    requires WellFormed(r) && WellFormed(c)
    requires r == c || (!Compatible(r, c) && !Compatible(c, r))
    ensures Apart(r.Pattern(), c.Pattern())
    ensures !Compatible(r, c) ==> NoMatch(c.Pattern(), Literal(r.Pattern()))
  {
    var q, w := r.Pattern(), c.Pattern();
    forall k | 0 < k < |q| ensures !Overlaps(Literal(q)[k..], w) {
      if Overlaps(Literal(q)[k..], w) {
        LiteralTailOverlaps(q, k, w);
        PatternOverlapShape(c, r, k);
        assert false;
      }
    }
    forall i | 0 <= i < |w| < i + |q| ensures !Overlaps(Literal(q), w[i..]) {
      if Overlaps(Literal(q), w[i..]) {
        PatternOverlapShape(r, c, i);
        assert false;
      }
    }
    if !Compatible(r, c) {
      forall i | 0 <= i <= |w| ensures !MatchesAt(Literal(q), w, i) {
        if MatchesAt(Literal(q), w, i) {
          assert Overlaps(Literal(q), w[i..]);
          PatternOverlapShape(r, c, i);
          assert false;
        }
      }
    }
  }

  /** A replace of a + m + b where no match of w runs into or out of m replaces the three apart. */
  lemma StrReplaceApart(a: string, m: string, b: string, w: string, t: string)
    requires w != [] && Apart(w, m)
    ensures StrReplace(a + m + b, w, t) == StrReplace(a, w, t) + StrReplace(m, w, t) + StrReplace(b, w, t)
  {
    var p, c := Literal(w), Const(t);
    ConstExpands(t, w);
    assert a + m + b == a + (m + b);
    CutBefore(p, a, m + b, m);
    ReplaceAllConcat(a, m + b, p, c);
    CutAfter(p, m, b);
    ReplaceAllConcat(m, b, p, c);
  }

  /** One rule's replace leaves c's reference m apart and in place, or rebases it when the rule is c. */
  lemma MiddleStep(r: ResourceRule, c: ResourceRule, k: int, m: string)
    requires WellFormed(r) && WellFormed(c)
    requires m == (if 0 <= k then c.Pattern() else c.Rebased()) && (k == 0 ==> r == c)
    requires k != 0 ==> !Compatible(r, c) && !Compatible(c, r)
    ensures Apart(r.Pattern(), m)
    ensures StrReplace(m, r.Pattern(), r.Rebased()) == if k == 0 then c.Rebased() else m
  {
    var w, t := r.Pattern(), r.Rebased();
    ConstExpands(t, w);
    if k < 0 {
      RuleSeparated(c, r);
      SeparatedApart(w, m);
      ReplaceAllNoMatch(m, Literal(w), Const(t));
    } else if k == 0 {
      PatternsApart(c, c);
      StrReplaceOnce(w, t);
    } else {
      PatternsApart(r, c);
      ReplaceAllNoMatch(m, Literal(w), Const(t));
    }
  }

  /**
   * The rules go through a + m + b as through a and b apart, where m is c's reference before
   * c's own replace (k >= 0, c at index k) or after it (k < 0), and no other rule is compatible with c.
   */
  lemma {:induction false} ApplyRulesAround(a: string, m: string, b: string, rules: seq<ResourceRule>, c: ResourceRule, k: int)
    requires WellFormed(c) && forall r :: r in rules ==> WellFormed(r)
    requires k < |rules| && (0 <= k ==> rules[k] == c)
    requires m == if 0 <= k then c.Pattern() else c.Rebased()
    requires forall j :: 0 <= j < |rules| && j != k ==> !Compatible(rules[j], c) && !Compatible(c, rules[j])
    ensures ApplyRules(a + m + b, rules) == ApplyRules(a, rules) + c.Rebased() + ApplyRules(b, rules)
    decreases |rules|
  {
    if rules != [] {
      var r0 := rules[0];
      var w, t := r0.Pattern(), r0.Rebased();
      var m1 := if k == 0 then c.Rebased() else m;
      assert r0 in rules;
      assert k != 0 ==> !Compatible(r0, c) && !Compatible(c, r0);
      MiddleStep(r0, c, k, m);
      StrReplaceApart(a, m, b, w, t);
      var a1, b1, rest := StrReplace(a, w, t), StrReplace(b, w, t), rules[1..];
      assert ApplyRules(a + m + b, rules) == ApplyRules(a1 + m1 + b1, rest);
      forall j | 0 <= j < |rest| && j != k - 1 ensures !Compatible(rest[j], c) && !Compatible(c, rest[j]) {
        assert rest[j] == rules[j + 1];
      }
      assert 0 <= k - 1 ==> rest[k - 1] == c;
      ApplyRulesAround(a1, m1, b1, rest, c, k - 1);
    }
  }

  /**
   * In subpage mode every resource reference of a page gains its `../` where it stands, whatever
   * other references surround it: the text on each side is rebased on its own.
   */
  lemma RebaseAround(a: string, k: int, b: string)
    requires 0 <= k < |ResourceRules|
    ensures RebaseResources(a + ResourceRules[k].Pattern() + b)
         == RebaseResources(a) + ResourceRules[k].Rebased() + RebaseResources(b)
  {
    ResourceRulesWellFormed();
    var c := ResourceRules[k];
    forall j | 0 <= j < |ResourceRules| && j != k
      ensures !Compatible(ResourceRules[j], c) && !Compatible(c, ResourceRules[j])
    {
      RulesIncompatible(j, k);
      RulesIncompatible(k, j);
    }
    RuleWellFormed(k);
    ApplyRulesAround(a, c.Pattern(), b, ResourceRules, c, k);
  }

  // ---------------------------------------------------------------------------
  // 2. Links (migrate_urls.py:37-61)

  /** The attribute token `href="<value>"`. */
  function Href(value: string): string {
    "href=\"" + value + "\""
  }

  /** The length of the longest run of characters other than `"` starting at i. */
  function QuoteFreeRun(s: string, i: nat): (n: nat)
    requires i <= |s|
    ensures i + n <= |s|
    decreases |s| - i
  {
    if i == |s| || s[i] == '"' then 0 else 1 + QuoteFreeRun(s, i + 1)
  }

  /** The run stops at the first quote, or at the end of s. */
  lemma {:induction false} QuoteFreeRunStops(s: string, i: nat)
    requires i <= |s|
    ensures var n := QuoteFreeRun(s, i);
      (i + n == |s| || s[i + n] == '"') && forall k :: i <= k < i + n ==> s[k] != '"'
    decreases |s| - i
  {
    if i < |s| && s[i] != '"' {
      QuoteFreeRunStops(s, i + 1);
    }
  }

  /** The match of `href="([^"]+)"` at offset i, as the captured value. */
  function HrefAt(s: string, i: nat): (r: Option<string>)
    requires i <= |s|
    ensures r.Some? ==> i + |Href(r.value)| <= |s|
  {
    if i + 6 <= |s| && s[i..i + 6] == "href=\"" then
      var n := QuoteFreeRun(s, i + 6);
      if n > 0 && i + 6 + n < |s| then Some(s[i + 6..i + 6 + n]) else None
    else None
  }

  /** A recognised token spells out `href="value"` in s. */
  lemma HrefAtSpan(s: string, i: nat, u: string)
    requires i <= |s| && HrefAt(s, i) == Some(u)
    ensures i + |Href(u)| <= |s| && s[i..i + |Href(u)|] == Href(u)
  {
    var n := |u|;
    QuoteFreeRunStops(s, i + 6);
    assert s[i + 6 + n] == '"';
    assert s[i..i + 6] == "href=\"" && s[i + 6..i + 6 + n] == u;
    assert s[i..i + 7 + n] == s[i..i + 6] + s[i + 6..i + 6 + n] + [s[i + 6 + n]];
  }

  /** A spelled-out token with a non-empty, quote-free value is recognised. */
  lemma HrefAtSpelled(s: string, i: nat, u: string)
    requires i <= |s| && Href(u) <= s[i..] && u != [] && '"' !in u
    ensures HrefAt(s, i) == Some(u)
  {
    var n := QuoteFreeRun(s, i + 6);
    QuoteFreeRunStops(s, i + 6);
    assert s[i..][..6] == "href=\"" && s[i..i + 6] == s[i..][..6];
    forall k | 0 <= k < |u| ensures s[i + 6 + k] == u[k] {
      assert s[i..][6 + k] == Href(u)[6 + k];
    }
    assert s[i + 6 + |u|] == s[i..][6 + |u|] == Href(u)[6 + |u|] == '"';
    if n < |u| {
      assert false;
    }
    if n > |u| {
      assert false;
    }
    assert s[i + 6..i + 6 + n] == u;
  }

  /** A token is recognised at i exactly when a non-empty, quote-free value sits between the quotes. */
  lemma HrefAtIff(s: string, i: nat, u: string)
    requires i <= |s|
    ensures HrefAt(s, i) == Some(u) <==> Href(u) <= s[i..] && u != [] && '"' !in u
  {
    if Href(u) <= s[i..] && u != [] && '"' !in u {
      HrefAtSpelled(s, i, u);
    }
    if HrefAt(s, i) == Some(u) {
      QuoteFreeRunStops(s, i + 6);
      HrefAtSpan(s, i, u);
      assert s[i..][..|Href(u)|] == s[i..i + |Href(u)|];
    }
  }

  predicate StartsWith(s: string, prefix: string) {
    prefix <= s
  }

  /** External, fragment-only and mail links, which replace_link leaves alone. */
  predicate Kept(url: string) {
    StartsWith(url, "http") || StartsWith(url, "#") || StartsWith(url, "mailto:")
  }

  predicate IsIndexLink(url: string) {
    url == "index.html" || StartsWith(url, "index.html#")
  }

  predicate PageMatches(url: string, file: string) {
    url == file || StartsWith(url, file + "?") || StartsWith(url, file + "#")
  }

  /** The first entry of the pages table, from k on, that the link names. */
  function FindPage(url: string, k: nat): (r: Option<nat>)
    requires k <= |Pages|
    ensures r.Some? ==> k <= r.value < |Pages| && PageMatches(url, Pages[r.value].0)
    ensures r.Some? ==> forall j :: k <= j < r.value ==> !PageMatches(url, Pages[j].0)
    ensures r.None? <==> forall j :: k <= j < |Pages| ==> !PageMatches(url, Pages[j].0)
    decreases |Pages| - k
  {
    if k == |Pages| then None
    else if PageMatches(url, Pages[k].0) then Some(k)
    else FindPage(url, k + 1)
  }

  /** replace_link: the new value of one href. */
  function LinkTarget(url: string, isRoot: bool): string {
    if Kept(url) then url
    else if IsIndexLink(url) then
      (if isRoot then "./" else "../") + StrReplace(url, "index.html", "")
    else match FindPage(url, 0)
      case None => url
      case Some(k) => (if isRoot then "" else "../") + Pages[k].1 + "/" + StrReplace(url, Pages[k].0, "")
  }

  /** Links that replace_link reproduces verbatim. */
  predicate Verbatim(url: string) {
    Kept(url) || (!IsIndexLink(url) && forall k :: 0 <= k < |Pages| ==> !PageMatches(url, Pages[k].0))
  }

  /** A link is reproduced exactly when it is external, a fragment or mail link, or names no known page. */
  lemma LinkTargetVerbatimIff(url: string, isRoot: bool)
    ensures LinkTarget(url, isRoot) == url <==> Verbatim(url)
  {
    if !Verbatim(url) {
      if IsIndexLink(url) {
        assert url == "index.html" + url[10..];
        StrDeleteLeadingShortens("index.html", url[10..]);
      } else {
        var k := FindPage(url, 0).value;
        var file := Pages[k].0;
        PageShape(k);
        PageNamePrefix(url, file);
        assert url == file + url[|file|..];
        StrDeleteLeadingShortens(file, url[|file|..]);
      }
    }
  }

  /** `index.html` and `index.html#frag` go to `../#frag` from a subpage and `./#frag` from the root. */
  lemma IndexLinkRewritten(tail: string, isRoot: bool)
    requires tail == [] || tail[0] == '#'
    requires NoMatch(tail, Literal("index.html"))
    ensures LinkTarget("index.html" + tail, isRoot) == (if isRoot then "./" else "../") + tail
  {
    var url := "index.html" + tail;
    assert url[0] == 'i';
    if tail != [] {
      assert url[..11] == "index.html#";
    }
    StrDeleteLeading("index.html", tail);
  }

  /** A page link, exact or followed by `?` or `#`, moves to its folder and keeps its suffix. */
  lemma PageLinkRewritten(k: int, tail: string, isRoot: bool)
    requires 0 <= k < |Pages|
    requires tail == [] || tail[0] in {'#', '?'}
    requires NoMatch(tail, Literal(Pages[k].0))
    ensures LinkTarget(Pages[k].0 + tail, isRoot) == (if isRoot then "" else "../") + Pages[k].1 + "/" + tail
  {
    var file := Pages[k].0;
    var url := file + tail;
    if tail != [] {
      assert url[..|file| + 1] == file + [tail[0]];
    }
    PageLinkLookup(k, url);
    StrDeleteLeading(file, tail);
  }

  /** The suffix is the link with every occurrence of the file name removed, not just the leading one. */
  lemma SuffixDropsEveryOccurrence(k: int)
    requires 0 <= k < |Pages|
    ensures LinkTarget(Pages[k].0 + "#" + Pages[k].0, false) == "../" + Pages[k].1 + "/#"
  {
    var file := Pages[k].0;
    var url := file + "#" + file;
    PageShape(k);
    assert url[..|file| + 1] == file + "#";
    PageLinkLookup(k, url);
    StrDeleteAround(file, '#');
  }

  /** str.replace(w, '') on w + c + w, where c does not start w, leaves c. */
  lemma StrDeleteAround(w: string, c: char)
    requires w != [] && w[0] != c
    ensures StrReplace(w + [c] + w, w, "") == [c]
  {
    var rest := [c] + w;
    var p, t := Literal(w), Const("");
    assert w + [c] + w == w + rest;
    LiteralMatch(w, w + rest, 0);
    assert (w + rest)[0..|w|] == w;
    ReplaceAllAfterLeading(w, rest, p, t);
    ConstExpands("", w);
    StrDeleteAfter(w, c);
  }

  lemma StrDeleteAfter(w: string, c: char)
    requires w != [] && w[0] != c
    ensures StrReplace([c] + w, w, "") == [c]
  {
    var rest := [c] + w;
    var p, t := Literal(w), Const("");
    LiteralMatch(w, rest, 1);
    assert rest[1..1 + |w|] == w;
    LiteralMatch(w, rest, 0);
    ReplaceAllSplit(rest, p, t, 1);
    ConstExpands("", rest[1..1 + |w|]);
    assert rest[..1] == [c];
  }

  /** A link naming a page, exactly or followed by `?` or `#`, is looked up as that page. */
  lemma PageLinkLookup(k: int, url: string)
    requires 0 <= k < |Pages| && PageMatches(url, Pages[k].0)
    ensures !Kept(url) && !IsIndexLink(url)
    ensures FindPage(url, 0) == Some(k)
  {
    var file := Pages[k].0;
    PageShape(k);
    PageNamePrefix(url, file);
    assert url[0] == file[0];
    forall j | 0 <= j < |Pages| && j != k ensures !PageMatches(url, Pages[j].0) {
      OnlyOnePageMatches(url, j, k);
    }
  }

  /** A url matches at most one page name, since none is a prefix of another. */
  lemma OnlyOnePageMatches(url: string, j: int, k: int)
    requires 0 <= j < |Pages| && 0 <= k < |Pages| && j != k && PageMatches(url, Pages[k].0)
    ensures !PageMatches(url, Pages[j].0)
  {
    var file, other := Pages[k].0, Pages[j].0;
    if PageMatches(url, other) {
      PageNamePrefix(url, file);
      PageNamePrefix(url, other);
      if |other| <= |file| {
        assert other == url[..|other|] == file[..|other|];
        PagesPrefixFree(j, k);
      } else {
        assert file == url[..|file|] == other[..|file|];
        PagesPrefixFree(k, j);
      }
    }
  }

  lemma PageNamePrefix(url: string, file: string)
    requires PageMatches(url, file)
    ensures file <= url
  {
    if StartsWith(url, file + "?") {
      assert url[..|file|] == (file + "?")[..|file|] == file;
    } else if StartsWith(url, file + "#") {
      assert url[..|file|] == (file + "#")[..|file|] == file;
    }
  }

  /** re.sub(r'href="([^"]+)"', callback, s) from offset i; the callback gets the captured value. */
  function SubHrefFrom(s: string, callback: string -> string, i: nat): string
    requires i <= |s|
    decreases |s| - i
  {
    if i == |s| then []
    else match HrefAt(s, i)
      case Some(u) => callback(u) + SubHrefFrom(s, callback, i + |Href(u)|)
      case None => [s[i]] + SubHrefFrom(s, callback, i + 1)
  }

  /** replace_link: the whole replacement of one token. */
  function ReplaceLink(url: string, isRoot: bool): string {
    Href(LinkTarget(url, isRoot))
  }

  function LinkPass(s: string, isRoot: bool): string {
    SubHrefFrom(s, u => ReplaceLink(u, isRoot), 0)
  }

  lemma SubHrefFromToken(s: string, callback: string -> string, i: nat, u: string)
    requires i <= |s| && HrefAt(s, i) == Some(u)
    ensures SubHrefFrom(s, callback, i) == callback(u) + SubHrefFrom(s, callback, i + |Href(u)|)
  {
  }

  lemma SubHrefFromCopies(s: string, callback: string -> string, i: nat)
    requires i < |s| && HrefAt(s, i).None?
    ensures SubHrefFrom(s, callback, i) == [s[i]] + SubHrefFrom(s, callback, i + 1)
  {
  }

  predicate NoTokenBetween(s: string, i: int, j: int)
    requires 0 <= i && j <= |s|
  {
    forall k :: i <= k < j ==> HrefAt(s, k).None?
  }

  /** Text before the next href token is copied, the token is replaced, the scan resumes after it. */
  lemma {:induction false} SubHrefSplit(s: string, callback: string -> string, i: nat, j: nat, u: string)
    requires i <= j <= |s| && NoTokenBetween(s, i, j) && HrefAt(s, j) == Some(u)
    ensures SubHrefFrom(s, callback, i) == s[i..j] + callback(u) + SubHrefFrom(s, callback, j + |Href(u)|)
    decreases j - i
  {
    if i < j {
      assert HrefAt(s, i).None?;
      SubHrefSplit(s, callback, i + 1, j, u);
      SubHrefSplitStep(s, callback, i, j, callback(u), SubHrefFrom(s, callback, j + |Href(u)|));
    } else {
      SubHrefFromToken(s, callback, j, u);
    }
  }

  lemma SubHrefSplitStep(s: string, callback: string -> string, i: nat, j: nat, e: string, rest: string)
    requires i < j <= |s| && HrefAt(s, i).None?
    requires SubHrefFrom(s, callback, i + 1) == s[i + 1..j] + e + rest
    ensures SubHrefFrom(s, callback, i) == s[i..j] + e + rest
  {
    SubHrefFromCopies(s, callback, i);
    ConsSplit(s, i, j, SubHrefFrom(s, callback, i), SubHrefFrom(s, callback, i + 1), e, rest);
  }

  /** Text without href tokens goes through the substitution unchanged. */
  lemma {:induction false} SubHrefNoToken(s: string, callback: string -> string, i: nat)
    requires i <= |s| && NoTokenBetween(s, i, |s|)
    ensures SubHrefFrom(s, callback, i) == s[i..]
    decreases |s| - i
  {
    if i < |s| {
      SubHrefFromCopies(s, callback, i);
      SubHrefNoToken(s, callback, i + 1);
      assert s[i..] == [s[i]] + s[i + 1..];
    }
  }

  /** The callback gives every href token of s back unchanged. */
  predicate KeepsTokens(s: string, callback: string -> string) {
    forall k :: 0 <= k <= |s| ==> KeepsTokenAt(s, callback, k)
  }

  /** The callback gives the href token at k, if there is one, back unchanged. */
  predicate KeepsTokenAt(s: string, callback: string -> string, k: nat)
    requires k <= |s|
  {
    HrefAt(s, k).Some? ==> callback(HrefAt(s, k).value) == Href(HrefAt(s, k).value)
  }

  /** A callback that gives every token of s back unchanged leaves s unchanged. */
  lemma {:induction false} SubHrefIdentity(s: string, callback: string -> string, i: nat)
    requires i <= |s| && KeepsTokens(s, callback)
    ensures SubHrefFrom(s, callback, i) == s[i..]
    decreases |s| - i
  {
    if i < |s| {
      var next := ScanNext(s, i);
      SubHrefIdentity(s, callback, next);
      SubHrefKeepsText(s, callback, i);
    }
  }

  /** Where the scan resumes after position i: past the token there, or past one character. */
  function ScanNext(s: string, i: nat): (r: nat)
    requires i < |s|
    ensures i < r <= |s|
  {
    match HrefAt(s, i)
      case Some(u) => i + |Href(u)|
      case None => i + 1
  }

  /** One step of the scan leaves the text unchanged when the callback keeps the token there. */
  lemma SubHrefKeepsText(s: string, callback: string -> string, i: nat)
    requires i < |s| && KeepsTokenAt(s, callback, i)
    requires SubHrefFrom(s, callback, ScanNext(s, i)) == s[ScanNext(s, i)..]
    ensures SubHrefFrom(s, callback, i) == s[i..]
  {
    if HrefAt(s, i).Some? {
      SubHrefKeepsToken(s, callback, i);
    } else {
      SubHrefKeepsChar(s, callback, i);
    }
  }

  lemma SubHrefKeepsToken(s: string, callback: string -> string, i: nat)
    requires i < |s| && HrefAt(s, i).Some? && KeepsTokenAt(s, callback, i)
    requires SubHrefFrom(s, callback, ScanNext(s, i)) == s[ScanNext(s, i)..]
    ensures SubHrefFrom(s, callback, i) == s[i..]
  {
    var u := HrefAt(s, i).value;
    var n := |Href(u)|;
    HrefAtSpan(s, i, u);
    SubHrefFromToken(s, callback, i, u);
    JoinAt(s, i, n, SubHrefFrom(s, callback, i), callback(u), SubHrefFrom(s, callback, i + n));
  }

  lemma SubHrefKeepsChar(s: string, callback: string -> string, i: nat)
    requires i < |s| && HrefAt(s, i).None?
    requires SubHrefFrom(s, callback, ScanNext(s, i)) == s[ScanNext(s, i)..]
    ensures SubHrefFrom(s, callback, i) == s[i..]
  {
    SubHrefFromCopies(s, callback, i);
    JoinAt(s, i, 1, SubHrefFrom(s, callback, i), [s[i]], SubHrefFrom(s, callback, i + 1));
  }

  lemma JoinAt(s: string, i: int, n: int, whole: string, a: string, rest: string)
    requires 0 <= i <= i + n <= |s|
    requires whole == a + rest && a == s[i..i + n] && rest == s[i + n..]
    ensures whole == s[i..]
  {
    assert s[i..] == s[i..i + n] + s[i + n..];
  }

  /** Every href token in s holds a link that replace_link reproduces. */
  predicate AllVerbatim(s: string) {
    forall k :: 0 <= k <= |s| && HrefAt(s, k).Some? ==> Verbatim(HrefAt(s, k).value)
  }

  /** When every link is kept as it is, so is the page: the pass touches nothing outside the tokens. */
  lemma LinkPassVerbatim(s: string, isRoot: bool)
    requires AllVerbatim(s)
    ensures LinkPass(s, isRoot) == s
  {
    var callback := u => ReplaceLink(u, isRoot);
    forall k | 0 <= k <= |s| ensures KeepsTokenAt(s, callback, k) {
      if HrefAt(s, k).Some? {
        LinkTargetVerbatimIff(HrefAt(s, k).value, isRoot);
      }
    }
    SubHrefIdentity(s, callback, 0);
  }

  // ---------------------------------------------------------------------------
  // 3. The active marker (migrate_urls.py:68-83) and update_content as a whole

  /** `pages[key]`: the folder of the first entry with that original file, if any. */
  function Lookup(key: string, k: nat): (r: Option<string>)
    requires k <= |Pages|
    ensures r.Some? <==> exists j :: k <= j < |Pages| && Pages[j].0 == key
    ensures r.Some? ==> exists j :: k <= j < |Pages| && Pages[j] == (key, r.value)
    decreases |Pages| - k
  {
    if k == |Pages| then None
    else if Pages[k].0 == key then Some(Pages[k].1)
    else Lookup(key, k + 1)
  }

  /** The rebased link to a folder, `href="../<folder>/"`. */
  function SelfLink(folder: string): string {
    Href("../" + folder + "/")
  }

  function Marked(folder: string): string {
    SelfLink(folder) + " class=\"active\""
  }

  /** re.sub on the escaped self link: every occurrence gets the marker. */
  function MarkActive(s: string, folder: string): string {
    StrReplace(s, SelfLink(folder), Marked(folder))
  }

  /** update_content; None where pages[current_page_name] raises KeyError. */
  function UpdateContent(content: string, current: string, isRoot: bool): Option<string> {
    var rebased := if isRoot then content else RebaseResources(content);
    var linked := LinkPass(rebased, isRoot);
    if !isRoot && current != [] then
      match Lookup(current, 0)
      case None => None
      case Some(folder) => Some(MarkActive(linked, folder))
    else Some(linked)
  }

  /** update_content fails exactly when a subpage names a page the table does not hold. */
  lemma UpdateContentFailsIff(content: string, current: string, isRoot: bool)
    ensures UpdateContent(content, current, isRoot).None? <==>
      !isRoot && current != [] && forall k :: 0 <= k < |Pages| ==> Pages[k].0 != current
  {
  }

  /** A root page with no href token comes back unchanged: no resource prefix, no marker. */
  lemma RootWithoutLinksUnchanged(content: string, current: string)
    requires NoTokenBetween(content, 0, |content|)
    ensures UpdateContent(content, current, true) == Some(content)
  {
    SubHrefNoToken(content, u => ReplaceLink(u, true), 0);
  }

  /** str.replace replaces both of two adjacent occurrences. */
  lemma StrReplaceTwice(w: string, m: string)
    requires w != []
    ensures StrReplace(w + w, w, m) == m + m
  {
    var p, t := Literal(w), Const(m);
    LiteralMatch(w, w + w, 0);
    assert (w + w)[0..|w|] == w;
    ReplaceAllSplit(w + w, p, t, 0);
    ConstExpands(m, w);
    ReplaceAllFromShift(w, w, p, t, 0);
    StrReplaceOnce(w, m);
  }

  lemma StrReplaceOnce(w: string, m: string)
    requires w != []
    ensures StrReplace(w, w, m) == m
  {
    var p, t := Literal(w), Const(m);
    LiteralMatch(w, w, 0);
    assert w[0..|w|] == w;
    ReplaceAllSplit(w, p, t, 0);
    ConstExpands(m, w);
  }

  /** Every self link is marked: two links to the current folder both get the class. */
  lemma MarkActiveMarksEvery(folder: string)
    ensures MarkActive(SelfLink(folder) + SelfLink(folder), folder) == Marked(folder) + Marked(folder)
  {
    StrReplaceTwice(SelfLink(folder), Marked(folder));
  }

  /** No proper tail of w reads a head of w, nor a head a tail: two occurrences of w never overlap. */
  predicate NoBorder(w: string) {
    forall k :: 0 < k < |w| ==> !Overlaps(Literal(w)[k..], w) && !Overlaps(Literal(w), w[k..])
  }

  /** A link `href="v"` overlaps no shifted copy of itself. */
  lemma HrefNoBorder(v: string)
    requires v != [] && '"' !in v && v[|v| - 1] != '='
    ensures NoBorder(Href(v))
  {
    var w := Href(v);
    var p := Literal(w);
    forall k | 0 < k < |w| ensures !Overlaps(p[k..], w) && !Overlaps(p, w[k..]) {
      var j := |w| - 1 - k;
      assert p[k..][j] == Char(w[|w| - 1]) && w[k..][j] == w[|w| - 1] == '"';
      if j == 5 {
        assert p[k..][4] == Char(w[|w| - 2]) && w[k..][4] == w[|w| - 2] == v[|v| - 1];
      } else if j >= 6 {
        assert w[j] == v[j - 6];
      }
    }
  }

  /** A replace of a text around one occurrence of a border-free w replaces it and each side apart. */
  lemma StrReplaceAround(a: string, w: string, b: string, m: string)
    requires w != [] && NoBorder(w)
    ensures StrReplace(a + w + b, w, m) == StrReplace(a, w, m) + m + StrReplace(b, w, m)
  {
    var p, t := Literal(w), Const(m);
    ConstExpands(m, w);
    assert a + w + b == a + (w + b);
    CutBefore(p, a, w + b, w);
    ReplaceAllConcat(a, w + b, p, t);
    assert EndsWithin(p, w);
    CutAfter(p, w, b);
    ReplaceAllConcat(w, b, p, t);
    StrReplaceOnce(w, m);
  }

  /** Every self link in a page is marked, wherever it stands. */
  lemma MarkActiveAround(a: string, folder: string, b: string)
    requires '"' !in folder
    ensures MarkActive(a + SelfLink(folder) + b, folder) == MarkActive(a, folder) + Marked(folder) + MarkActive(b, folder)
  {
    HrefNoBorder("../" + folder + "/");
    StrReplaceAround(a, SelfLink(folder), b, Marked(folder));
  }
}
