/**
 * Fixed-width text patterns and the two substitution disciplines the scripts use:
 *  - ReplaceAll: every leftmost, non-overlapping match; after a match the scan
 *    resumes behind it in the input, so replacement text is never scanned again
 *    (Python's str.replace and re.sub, JavaScript's String.prototype.replace
 *    with a /g regular expression or a /g regular expression built at run time);
 *  - ReplaceFirst: the leftmost match only (JavaScript's replace without /g,
 *    and replace with a plain string pattern).
 * A literal string is the pattern Literal(s); JavaScript's unescaped `.` is Wild.
 */
module Rx {

  /** One position of a pattern. Every pattern the scripts use has a fixed width. */
  datatype Atom =
    | Char(c: char)          // the character itself
    | Wild                   // `.` without the s flag: anything but a line terminator
    | OneOf(cs: set<char>)   // a one-character alternation such as (#|\?)
    | NonDigit               // \D

  predicate IsLineTerminator(c: char) {
    c == '\n' || c == '\r' || c == '\U{2028}' || c == '\U{2029}'
  }

  predicate IsDigit(c: char) {
    '0' <= c <= '9'
  }

  predicate Accepts(a: Atom, c: char) {
    match a
    case Char(d) => c == d
    case Wild => !IsLineTerminator(c)
    case OneOf(cs) => c in cs
    case NonDigit => !IsDigit(c)
  }

  type Pattern = seq<Atom>

  /** The pattern that matches exactly the string s (an escaped regular expression). */
  function Literal(s: string): Pattern {
    seq(|s|, k requires 0 <= k < |s| => Char(s[k]))
  }

  /**
   * The pattern of a regular expression built at run time from text with no escaping:
   * `.` is the wildcard, every other character of the scripts' sources stands for itself.
   */
  function Source(src: string): Pattern {
    seq(|src|, k requires 0 <= k < |src| => if src[k] == '.' then Wild else Char(src[k]))
  }

  /** p matches s at offset i. */
  predicate MatchesAt(p: Pattern, s: string, i: int) {
    0 <= i && i + |p| <= |s| && forall k :: 0 <= k < |p| ==> Accepts(p[k], s[i + k])
  }

  predicate NoMatch(s: string, p: Pattern) {
    forall i :: 0 <= i <= |s| ==> !MatchesAt(p, s, i)
  }

  /** j is the leftmost offset at which p matches s. */
  predicate FirstMatchAt(s: string, p: Pattern, j: int) {
    MatchesAt(p, s, j) && forall i :: 0 <= i < j ==> !MatchesAt(p, s, i)
  }

  /** A replacement: literal text and capture groups, a group being a span of the match. */
  datatype Piece = Text(t: string) | Group(lo: nat, hi: nat)

  type Template = seq<Piece>

  predicate Fits(t: Template, width: nat) {
    forall j :: 0 <= j < |t| ==> t[j].Group? ==> t[j].lo <= t[j].hi <= width
  }

  /** The replacement text produced for the matched text m (JavaScript's $1 is a Group). */
  function Expand(t: Template, m: string): string
    requires Fits(t, |m|)
  {
    if t == [] then []
    else (match t[0] case Text(x) => x case Group(lo, hi) => m[lo..hi]) + Expand(t[1..], m)
  }

  function Const(r: string): Template {
    [Text(r)]
  }

  /** Text followed by the last character of the match, as in a replacement `text$1`. */
  function TextThenLast(x: string, n: nat): Template
    requires n > 0
  {
    [Text(x), Group(n - 1, n)]
  }

  /** The text produced by a global replace scanning s from offset i. */
  function ReplaceAllFrom(s: string, p: Pattern, t: Template, i: nat): string
    requires p != [] && Fits(t, |p|) && i <= |s|
    decreases |s| - i
  {
    if i == |s| then []
    else if MatchesAt(p, s, i) then Expand(t, s[i..i + |p|]) + ReplaceAllFrom(s, p, t, i + |p|)
    else [s[i]] + ReplaceAllFrom(s, p, t, i + 1)
  }

  function ReplaceAll(s: string, p: Pattern, t: Template): string
    requires p != [] && Fits(t, |p|)
  {
    ReplaceAllFrom(s, p, t, 0)
  }

  /** The text produced by a replace of the leftmost match scanning s from offset i. */
  function ReplaceFirstFrom(s: string, p: Pattern, t: Template, i: nat): string
    requires p != [] && Fits(t, |p|) && i <= |s|
    decreases |s| - i
  {
    if i == |s| then []
    else if MatchesAt(p, s, i) then Expand(t, s[i..i + |p|]) + s[i + |p|..]
    else [s[i]] + ReplaceFirstFrom(s, p, t, i + 1)
  }

  function ReplaceFirst(s: string, p: Pattern, t: Template): string
    requires p != [] && Fits(t, |p|)
  {
    ReplaceFirstFrom(s, p, t, 0)
  }

  // ---------------------------------------------------------------------------
  // Matching facts

  lemma ConstExpands(r: string, m: string)
    ensures Fits(Const(r), |m|) && Expand(Const(r), m) == r
  {
    assert Const(r)[1..] == [];
  }

  lemma TextThenLastExpands(x: string, m: string)
    requires |m| > 0
    ensures Fits(TextThenLast(x, |m|), |m|) && Expand(TextThenLast(x, |m|), m) == x + [m[|m| - 1]]
  {
    var n := |m|;
    var g: Template := [Group(n - 1, n)];
    LastGroupExpands(m);
    var t := TextThenLast(x, n);
    assert t[1..] == g;
    assert Expand(t, m) == x + Expand(g, m);
  }

  lemma LastGroupExpands(m: string)
    requires |m| > 0
    ensures Fits([Group(|m| - 1, |m|)], |m|) && Expand([Group(|m| - 1, |m|)], m) == [m[|m| - 1]]
  {
    var n := |m|;
    var g: Template := [Group(n - 1, n)];
    assert Fits(g, n);
    assert g[1..] == [];
    assert Expand(g, m) == m[n - 1..n] + Expand([], m);
    assert m[n - 1..n] == [m[n - 1]];
  }

  predicate NoLineBreak(s: string) {
    forall k :: 0 <= k < |s| ==> !IsLineTerminator(s[k])
  }

  /** A run-time source matches text that agrees with it outside its wildcards. */
  lemma SourceMatches(src: string, s: string, i: int)
    requires 0 <= i && i + |src| <= |s|
    requires forall k :: 0 <= k < |src| ==> if src[k] == '.' then !IsLineTerminator(s[i + k]) else s[i + k] == src[k]
    ensures MatchesAt(Source(src), s, i)
  {
  }

  /** A run-time source matches its own text, the wildcards included, when that holds no line break. */
  lemma SourceMatchesItself(src: string, s: string, i: int)
    requires NoLineBreak(src)
    requires 0 <= i && i + |src| <= |s| && s[i..i + |src|] == src
    ensures MatchesAt(Source(src), s, i)
  {
    forall k | 0 <= k < |src| ensures s[i + k] == src[k] {
      assert s[i..i + |src|][k] == s[i + k];
    }
    SourceMatches(src, s, i);
  }

  /** A literal pattern matches exactly where its text occurs. */
  lemma LiteralMatch(w: string, s: string, i: int)
    requires 0 <= i
    ensures MatchesAt(Literal(w), s, i) <==> i + |w| <= |s| && s[i..i + |w|] == w
  {
    if i + |w| <= |s| && s[i..i + |w|] == w {
      forall k | 0 <= k < |w| ensures Accepts(Literal(w)[k], s[i + k]) {
        assert s[i..i + |w|][k] == s[i + k];
      }
    }
    if MatchesAt(Literal(w), s, i) {
      forall k | 0 <= k < |w| ensures s[i..i + |w|][k] == w[k] {
        assert Accepts(Literal(w)[k], s[i + k]);
      }
    }
  }

  /** Where a match inside a concatenation a + b lies. */
  lemma MatchInConcat(q: Pattern, a: string, b: string, i: int)
    requires MatchesAt(q, a + b, i)
    ensures i + |q| <= |a| ==> MatchesAt(q, a, i)
    ensures i >= |a| ==> MatchesAt(q, b, i - |a|)
    ensures i < |a| < i + |q| ==> Overlaps(q[|a| - i..], b)
    ensures i < |a| ==> Overlaps(q, a[i..])
  {
    var s := a + b;
    if i + |q| <= |a| {
      forall k | 0 <= k < |q| ensures Accepts(q[k], a[i + k]) {
        assert s[i + k] == a[i + k];
      }
    }
    if i >= |a| {
      forall k | 0 <= k < |q| ensures Accepts(q[k], b[i - |a| + k]) {
        assert s[i + k] == b[i - |a| + k];
      }
    }
    if i < |a| < i + |q| {
      var d := |a| - i;
      forall k | 0 <= k < |q| - d && k < |b| ensures Accepts(q[d..][k], b[k]) {
        assert q[d..][k] == q[d + k];
        assert s[i + d + k] == b[k];
      }
    }
    if i < |a| {
      forall k | 0 <= k < |q| && k < |a| - i ensures Accepts(q[k], a[i..][k]) {
        assert s[i + k] == a[i + k];
      }
    }
  }

  // ---------------------------------------------------------------------------
  // ReplaceAll and ReplaceFirst are determined by where the leftmost match is

  /** No match of p starts at an offset in [i, j). */
  predicate NoMatchBetween(s: string, p: Pattern, i: int, j: int) {
    forall k :: i <= k < j ==> !MatchesAt(p, s, k)
  }

  // One step of each scan, stated on its own so that proofs about whole scans stay small.

  lemma ReplaceAllFromCopies(s: string, p: Pattern, t: Template, i: nat)
    requires p != [] && Fits(t, |p|) && i < |s| && !MatchesAt(p, s, i)
    ensures ReplaceAllFrom(s, p, t, i) == [s[i]] + ReplaceAllFrom(s, p, t, i + 1)
  {
  }

  lemma ReplaceAllFromReplaces(s: string, p: Pattern, t: Template, i: nat)
    requires p != [] && Fits(t, |p|) && MatchesAt(p, s, i)
    ensures ReplaceAllFrom(s, p, t, i) == Expand(t, s[i..i + |p|]) + ReplaceAllFrom(s, p, t, i + |p|)
  {
  }

  lemma ReplaceFirstFromCopies(s: string, p: Pattern, t: Template, i: nat)
    requires p != [] && Fits(t, |p|) && i < |s| && !MatchesAt(p, s, i)
    ensures ReplaceFirstFrom(s, p, t, i) == [s[i]] + ReplaceFirstFrom(s, p, t, i + 1)
  {
  }

  lemma ReplaceFirstFromReplaces(s: string, p: Pattern, t: Template, i: nat)
    requires p != [] && Fits(t, |p|) && MatchesAt(p, s, i)
    ensures ReplaceFirstFrom(s, p, t, i) == Expand(t, s[i..i + |p|]) + s[i + |p|..]
  {
  }

  /** Copying s[i] in front of a split of the text that follows it. */
  lemma ConsSplit(s: string, i: int, j: int, whole: string, tail: string, e: string, rest: string)
    requires 0 <= i < j <= |s|
    requires whole == [s[i]] + tail && tail == s[i + 1..j] + e + rest
    ensures whole == s[i..j] + e + rest
  {
    assert s[i..j] == [s[i]] + s[i + 1..j];
  }

  /** Everything before the next match is copied, the match is replaced, the scan resumes after it. */
  lemma {:induction false} ReplaceAllFromSplit(s: string, p: Pattern, t: Template, i: nat, j: int)
    requires p != [] && Fits(t, |p|) && i <= j
    requires MatchesAt(p, s, j) && NoMatchBetween(s, p, i, j)
    ensures ReplaceAllFrom(s, p, t, i) == s[i..j] + Expand(t, s[j..j + |p|]) + ReplaceAllFrom(s, p, t, j + |p|)
    decreases j - i
  {
    if i < j {
      ReplaceAllFromCopies(s, p, t, i);
      ReplaceAllFromSplit(s, p, t, i + 1, j);
      ConsSplit(s, i, j, ReplaceAllFrom(s, p, t, i), ReplaceAllFrom(s, p, t, i + 1),
        Expand(t, s[j..j + |p|]), ReplaceAllFrom(s, p, t, j + |p|));
    } else {
      ReplaceAllFromReplaces(s, p, t, j);
      assert s[i..j] == [];
    }
  }

  /** From offset i on, text in which p does not occur is copied. */
  lemma {:induction false} ReplaceAllFromNoMatch(s: string, p: Pattern, t: Template, i: nat)
    requires p != [] && Fits(t, |p|) && i <= |s| && NoMatchBetween(s, p, i, |s| + 1)
    ensures ReplaceAllFrom(s, p, t, i) == s[i..]
    decreases |s| - i
  {
    if i < |s| {
      ReplaceAllFromCopies(s, p, t, i);
      ReplaceAllFromNoMatch(s, p, t, i + 1);
      assert s[i..] == [s[i]] + s[i + 1..];
    }
  }

  lemma {:induction false} ReplaceFirstFromSplit(s: string, p: Pattern, t: Template, i: nat, j: int)
    requires p != [] && Fits(t, |p|) && i <= j
    requires MatchesAt(p, s, j) && NoMatchBetween(s, p, i, j)
    ensures ReplaceFirstFrom(s, p, t, i) == s[i..j] + Expand(t, s[j..j + |p|]) + s[j + |p|..]
    decreases j - i
  {
    if i < j {
      ReplaceFirstFromCopies(s, p, t, i);
      ReplaceFirstFromSplit(s, p, t, i + 1, j);
      ConsSplit(s, i, j, ReplaceFirstFrom(s, p, t, i), ReplaceFirstFrom(s, p, t, i + 1),
        Expand(t, s[j..j + |p|]), s[j + |p|..]);
    } else {
      ReplaceFirstFromReplaces(s, p, t, j);
      assert s[i..j] == [];
    }
  }

  lemma {:induction false} ReplaceFirstFromNoMatch(s: string, p: Pattern, t: Template, i: nat)
    requires p != [] && Fits(t, |p|) && i <= |s| && NoMatchBetween(s, p, i, |s| + 1)
    ensures ReplaceFirstFrom(s, p, t, i) == s[i..]
    decreases |s| - i
  {
    if i < |s| {
      ReplaceFirstFromCopies(s, p, t, i);
      ReplaceFirstFromNoMatch(s, p, t, i + 1);
      assert s[i..] == [s[i]] + s[i + 1..];
    }
  }

  /** A global replace copies everything before the leftmost match and replaces the match. */
  lemma ReplaceAllSplit(s: string, p: Pattern, t: Template, j: int)
    requires p != [] && Fits(t, |p|) && FirstMatchAt(s, p, j)
    ensures ReplaceAll(s, p, t) == s[..j] + Expand(t, s[j..j + |p|]) + ReplaceAllFrom(s, p, t, j + |p|)
  {
    ReplaceAllFromSplit(s, p, t, 0, j);
  }

  /** Text in which p does not occur is left as it is by a global replace. */
  lemma ReplaceAllNoMatch(s: string, p: Pattern, t: Template)
    requires p != [] && Fits(t, |p|) && NoMatch(s, p)
    ensures ReplaceAll(s, p, t) == s
  {
    ReplaceAllFromNoMatch(s, p, t, 0);
  }

  /** Only the leftmost match is replaced; the rest of the text is copied unscanned. */
  lemma ReplaceFirstSplit(s: string, p: Pattern, t: Template, j: int)
    requires p != [] && Fits(t, |p|) && FirstMatchAt(s, p, j)
    ensures ReplaceFirst(s, p, t) == s[..j] + Expand(t, s[j..j + |p|]) + s[j + |p|..]
  {
    ReplaceFirstFromSplit(s, p, t, 0, j);
  }

  lemma ReplaceFirstNoMatch(s: string, p: Pattern, t: Template)
    requires p != [] && Fits(t, |p|) && NoMatch(s, p)
    ensures ReplaceFirst(s, p, t) == s
  {
    ReplaceFirstFromNoMatch(s, p, t, 0);
  }

  /** A match at the very start and none in what follows: a global replace changes that match only. */
  lemma ReplaceAllLeading(s: string, p: Pattern, t: Template)
    requires p != [] && Fits(t, |p|) && MatchesAt(p, s, 0) && NoMatch(s[|p|..], p)
    ensures ReplaceAll(s, p, t) == Expand(t, s[..|p|]) + s[|p|..]
  {
    ReplaceAllSplit(s, p, t, 0);
    var head, rest := s[..|p|], s[|p|..];
    assert s == head + rest;
    ReplaceAllFromShift(head, rest, p, t, 0);
    ReplaceAllNoMatch(rest, p, t);
  }

  /** Offsets of b inside a + b: a match there is a match in b, and conversely. */
  lemma MatchInRight(p: Pattern, a: string, b: string, k: int)
    requires 0 <= k
    ensures MatchesAt(p, a + b, |a| + k) <==> MatchesAt(p, b, k)
  {
    if MatchesAt(p, b, k) {
      forall m | 0 <= m < |p| ensures Accepts(p[m], (a + b)[|a| + k + m]) {
        assert (a + b)[|a| + k + m] == b[k + m];
      }
    }
    if MatchesAt(p, a + b, |a| + k) {
      MatchInConcat(p, a, b, |a| + k);
    }
  }

  /** Scanning a + b past a is scanning b: what a global replace does to b does not depend on a. */
  lemma {:induction false} ReplaceAllFromShift(a: string, b: string, p: Pattern, t: Template, k: nat)
    requires p != [] && Fits(t, |p|) && k <= |b|
    ensures ReplaceAllFrom(a + b, p, t, |a| + k) == ReplaceAllFrom(b, p, t, k)
    decreases |b| - k
  {
    if k < |b| {
      MatchInRight(p, a, b, k);
      if MatchesAt(p, b, k) {
        ReplaceAllFromShift(a, b, p, t, k + |p|);
        ShiftMatchStep(a, b, p, t, k);
      } else {
        ReplaceAllFromShift(a, b, p, t, k + 1);
        ShiftCopyStep(a, b, p, t, k);
      }
    }
  }

  lemma SliceOfRight(a: string, b: string, x: int, y: int)
    requires 0 <= x <= y <= |b|
    ensures (a + b)[|a| + x..|a| + y] == b[x..y]
  {
    assert (a + b)[|a|..] == b;
  }

  /** A step of the scan of a + b past a at a match, given that the rest of the scans agree. */
  lemma ShiftMatchStep(a: string, b: string, p: Pattern, t: Template, k: nat)
    requires p != [] && Fits(t, |p|) && MatchesAt(p, b, k) && MatchesAt(p, a + b, |a| + k)
    requires ReplaceAllFrom(a + b, p, t, |a| + k + |p|) == ReplaceAllFrom(b, p, t, k + |p|)
    ensures ReplaceAllFrom(a + b, p, t, |a| + k) == ReplaceAllFrom(b, p, t, k)
  {
    ReplaceAllFromReplaces(a + b, p, t, |a| + k);
    ReplaceAllFromReplaces(b, p, t, k);
    SliceOfRight(a, b, k, k + |p|);
  }

  /** A step of the scan of a + b past a off a match, given that the rest of the scans agree. */
  lemma ShiftCopyStep(a: string, b: string, p: Pattern, t: Template, k: nat)
    requires p != [] && Fits(t, |p|) && k < |b| && !MatchesAt(p, b, k) && !MatchesAt(p, a + b, |a| + k)
    requires ReplaceAllFrom(a + b, p, t, |a| + k + 1) == ReplaceAllFrom(b, p, t, k + 1)
    ensures ReplaceAllFrom(a + b, p, t, |a| + k) == ReplaceAllFrom(b, p, t, k)
  {
    ReplaceAllFromCopies(a + b, p, t, |a| + k);
    ReplaceAllFromCopies(b, p, t, k);
    assert (a + b)[|a| + k] == b[k];
  }

  /** A global replace of a + b whose first match is a itself: a's replacement, then b's. */
  lemma ReplaceAllAfterLeading(a: string, b: string, p: Pattern, t: Template)
    requires p != [] && Fits(t, |p|) && |a| == |p| && MatchesAt(p, a + b, 0)
    ensures ReplaceAll(a + b, p, t) == Expand(t, a) + ReplaceAll(b, p, t)
  {
    ReplaceAllFromReplaces(a + b, p, t, 0);
    ReplaceAllFromShift(a, b, p, t, 0);
    assert (a + b)[0..|p|] == a;
  }

  /** A global replace that deletes its matches never lengthens the text. */
  lemma {:induction false} DeleteFromShortens(s: string, p: Pattern, i: nat)
    requires p != [] && i <= |s|
    ensures Fits(Const([]), |p|) && |ReplaceAllFrom(s, p, Const([]), i)| <= |s| - i
    decreases |s| - i
  {
    if i < |s| {
      if MatchesAt(p, s, i) {
        ReplaceAllFromReplaces(s, p, Const([]), i);
        ConstExpands([], s[i..i + |p|]);
        DeleteFromShortens(s, p, i + |p|);
      } else {
        ReplaceAllFromCopies(s, p, Const([]), i);
        DeleteFromShortens(s, p, i + 1);
      }
    }
  }

  // ---------------------------------------------------------------------------
  // Replacement text is never scanned again

  /** q and t agree wherever both are defined. */
  predicate Overlaps(q: Pattern, t: string) {
    forall k :: 0 <= k < |q| && k < |t| ==> Accepts(q[k], t[k])
  }

  /** No match of q can start inside r, nor start before r and run into it. */
  predicate Separated(q: Pattern, r: string) {
    (forall i :: 0 <= i < |r| ==> !Overlaps(q, r[i..])) &&
    (forall k :: 0 < k < |q| ==> !Overlaps(q[k..], r))
  }

  lemma OverlapsPrefix(q: Pattern, a: string, b: string)
    requires Overlaps(q, a + b)
    ensures Overlaps(q, a)
  {
    forall k | 0 <= k < |q| && k < |a| ensures Accepts(q[k], a[k]) {
      assert (a + b)[k] == a[k];
    }
  }

  /** A match inside the slice s[i..j] is a match in s. */
  lemma MatchInSlice(q: Pattern, s: string, i: int, j: int, k: int)
    requires 0 <= i <= j <= |s| && MatchesAt(q, s[i..j], k)
    ensures MatchesAt(q, s, i + k)
  {
    forall m | 0 <= m < |q| ensures Accepts(q[m], s[i + k + m]) {
      assert s[i..j][k + m] == s[i + k + m];
    }
  }

  /** The hypotheses under which a global replace leaves no match of q behind. */
  ghost predicate LeavesNoMatchHyp(s: string, p: Pattern, t: Template, q: Pattern)
    requires p != [] && Fits(t, |p|)
  {
    q != [] &&
    (q == p || NoMatch(s, q)) &&
    forall i :: MatchesAt(p, s, i) ==> Separated(q, Expand(t, s[i..i + |p|]))
  }

  /** A match of q in c + r + o, where q does not match in c or o and r is separated from q, is impossible. */
  lemma NoMatchAcross(q: Pattern, c: string, r: string, o: string)
    requires q != [] && NoMatch(c, q) && NoMatch(o, q) && Separated(q, r)
    ensures NoMatch(c + r + o, q)
  {
    assert c + r + o == c + (r + o);
    forall i | 0 <= i <= |c + (r + o)| ensures !MatchesAt(q, c + (r + o), i) {
      if MatchesAt(q, c + (r + o), i) {
        MatchInConcat(q, c, r + o, i);
        if i < |c| {
          if i + |q| <= |c| {
            assert false;
          } else {
            OverlapsPrefix(q[|c| - i..], r, o);
            assert false;
          }
        } else {
          MatchInConcat(q, r, o, i - |c|);
          if i - |c| < |r| {
            assert false;
          } else {
            assert false;
          }
        }
      }
    }
  }

  /** The copied text s[i..j] before the next match holds no match of q. */
  lemma CopiedNoMatch(s: string, p: Pattern, q: Pattern, i: int, j: int)
    requires 0 <= i <= j <= |s| && q != []
    requires (q == p && NoMatchBetween(s, p, i, j)) || NoMatch(s, q)
    ensures NoMatch(s[i..j], q)
  {
    forall k | 0 <= k <= j - i ensures !MatchesAt(q, s[i..j], k) {
      if MatchesAt(q, s[i..j], k) {
        MatchInSlice(q, s, i, j, k);
      }
    }
  }

  /**
   * After a global replace from offset i, a pattern q that is separated from every
   * replacement text does not match: q may be the replaced pattern itself, or any
   * pattern that did not match the input.
   */
  lemma {:induction false} ReplaceAllFromLeavesNoMatch(s: string, p: Pattern, t: Template, q: Pattern, i: nat)
    requires p != [] && Fits(t, |p|) && i <= |s| && LeavesNoMatchHyp(s, p, t, q)
    ensures NoMatch(ReplaceAllFrom(s, p, t, i), q)
    decreases |s| - i
  {
    if NoMatchBetween(s, p, i, |s| + 1) {
      ReplaceAllFromNoMatch(s, p, t, i);
      CopiedNoMatch(s, p, q, i, |s|);
      assert s[i..|s|] == s[i..];
    } else {
      var j := FirstMatchFrom(s, p, i);
      ReplaceAllFromSplit(s, p, t, i, j);
      ReplaceAllFromLeavesNoMatch(s, p, t, q, j + |p|);
      CopiedNoMatch(s, p, q, i, j);
      NoMatchAcross(q, s[i..j], Expand(t, s[j..j + |p|]), ReplaceAllFrom(s, p, t, j + |p|));
    }
  }

  /** The first match at or after offset i, when there is one. */
  lemma FirstMatchFrom(s: string, p: Pattern, i: int) returns (j: int)
    requires 0 <= i && !NoMatchBetween(s, p, i, |s| + 1)
    ensures i <= j && MatchesAt(p, s, j) && NoMatchBetween(s, p, i, j)
  {
    var k :| i <= k < |s| + 1 && MatchesAt(p, s, k);
    j := LeftmostFrom(s, p, i, k);
  }

  /** Search for the least match position in [i, k]. */
  lemma {:induction false} LeftmostFrom(s: string, p: Pattern, i: int, k: int) returns (j: int)
    requires i <= k && MatchesAt(p, s, k)
    ensures i <= j <= k && MatchesAt(p, s, j) && NoMatchBetween(s, p, i, j)
    decreases k - i
  {
    if MatchesAt(p, s, i) {
      j := i;
    } else {
      j := LeftmostFrom(s, p, i + 1, k);
    }
  }

  lemma ReplaceAllLeavesNoMatch(s: string, p: Pattern, t: Template, q: Pattern)
    requires p != [] && Fits(t, |p|) && LeavesNoMatchHyp(s, p, t, q)
    ensures NoMatch(ReplaceAll(s, p, t), q)
  {
    ReplaceAllFromLeavesNoMatch(s, p, t, q, 0);
  }

  // ---------------------------------------------------------------------------
  // A global replace over a concatenation

  /** A match in x is a match in x + y. */
  lemma MatchInLeft(p: Pattern, x: string, y: string, i: int)
    requires MatchesAt(p, x, i)
    ensures MatchesAt(p, x + y, i)
  {
    forall k | 0 <= k < |p| ensures Accepts(p[k], (x + y)[i + k]) {
      assert (x + y)[i + k] == x[i + k];
    }
  }

  /** No match of p in x + y starts inside x and ends inside y. */
  predicate NoMatchAcrossCut(p: Pattern, x: string, y: string) {
    forall i :: 0 <= i < |x| < i + |p| ==> !MatchesAt(p, x + y, i)
  }

  /** A match in x + y that starts inside x and does not cross the cut is a match in x. */
  lemma MatchBeforeCut(p: Pattern, x: string, y: string, i: int)
    requires 0 <= i < |x| && NoMatchAcrossCut(p, x, y) && MatchesAt(p, x + y, i)
    ensures i + |p| <= |x| && MatchesAt(p, x, i) && (x + y)[i..i + |p|] == x[i..i + |p|]
  {
    MatchInConcat(p, x, y, i);
  }

  lemma ConcatMatchCase(x: string, y: string, p: Pattern, t: Template, i: nat, r: string)
    requires p != [] && Fits(t, |p|) && i + |p| <= |x| && MatchesAt(p, x, i)
    requires (x + y)[i..i + |p|] == x[i..i + |p|] && MatchesAt(p, x + y, i)
    requires ReplaceAllFrom(x + y, p, t, i + |p|) == ReplaceAllFrom(x, p, t, i + |p|) + r
    ensures ReplaceAllFrom(x + y, p, t, i) == ReplaceAllFrom(x, p, t, i) + r
  {
    var e := Expand(t, x[i..i + |p|]);
    ReplaceAllFromReplaces(x + y, p, t, i);
    ReplaceAllFromReplaces(x, p, t, i);
    assert ReplaceAllFrom(x + y, p, t, i) == e + (ReplaceAllFrom(x, p, t, i + |p|) + r);
    assert e + (ReplaceAllFrom(x, p, t, i + |p|) + r) == (e + ReplaceAllFrom(x, p, t, i + |p|)) + r;
  }

  lemma ConcatCopyCase(x: string, y: string, p: Pattern, t: Template, i: nat, r: string)
    requires p != [] && Fits(t, |p|) && i < |x| && !MatchesAt(p, x, i) && !MatchesAt(p, x + y, i)
    requires ReplaceAllFrom(x + y, p, t, i + 1) == ReplaceAllFrom(x, p, t, i + 1) + r
    ensures ReplaceAllFrom(x + y, p, t, i) == ReplaceAllFrom(x, p, t, i) + r
  {
    ReplaceAllFromCopies(x + y, p, t, i);
    ReplaceAllFromCopies(x, p, t, i);
    assert (x + y)[i] == x[i];
  }

  lemma {:induction false} ReplaceAllFromConcat(x: string, y: string, p: Pattern, t: Template, i: nat)
    requires p != [] && Fits(t, |p|) && i <= |x| && NoMatchAcrossCut(p, x, y)
    ensures ReplaceAllFrom(x + y, p, t, i) == ReplaceAllFrom(x, p, t, i) + ReplaceAll(y, p, t)
    decreases |x| - i
  {
    if i == |x| {
      ReplaceAllFromShift(x, y, p, t, 0);
    } else if MatchesAt(p, x + y, i) {
      MatchBeforeCut(p, x, y, i);
      ReplaceAllFromConcat(x, y, p, t, i + |p|);
      ConcatMatchCase(x, y, p, t, i, ReplaceAll(y, p, t));
    } else {
      if MatchesAt(p, x, i) {
        MatchInLeft(p, x, y, i);
      }
      ReplaceAllFromConcat(x, y, p, t, i + 1);
      ConcatCopyCase(x, y, p, t, i, ReplaceAll(y, p, t));
    }
  }

  /** Where no match runs across the cut, a global replace of x + y replaces x and y apart. */
  lemma ReplaceAllConcat(x: string, y: string, p: Pattern, t: Template)
    requires p != [] && Fits(t, |p|) && NoMatchAcrossCut(p, x, y)
    ensures ReplaceAll(x + y, p, t) == ReplaceAll(x, p, t) + ReplaceAll(y, p, t)
  {
    ReplaceAllFromConcat(x, y, p, t, 0);
  }

  /** No match of p that starts inside x can run past the end of x. */
  predicate EndsWithin(p: Pattern, x: string) {
    forall i :: 0 <= i < |x| < i + |p| ==> !Overlaps(p, x[i..])
  }

  lemma CutAfter(p: Pattern, x: string, y: string)
    requires EndsWithin(p, x)
    ensures NoMatchAcrossCut(p, x, y)
  {
    forall i | 0 <= i < |x| < i + |p| && MatchesAt(p, x + y, i) ensures false {
      MatchInConcat(p, x, y, i);
    }
  }

  /** When y begins with w and no tail of p can read w, no match runs across the start of y. */
  lemma CutBefore(p: Pattern, x: string, y: string, w: string)
    requires w <= y && forall k :: 0 < k < |p| ==> !Overlaps(p[k..], w)
    ensures NoMatchAcrossCut(p, x, y)
  {
    forall i | 0 <= i < |x| < i + |p| && MatchesAt(p, x + y, i) ensures false {
      MatchInConcat(p, x, y, i);
    }
  }
}
