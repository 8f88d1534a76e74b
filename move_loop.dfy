/**
 * The loop both migration scripts run over the page table: for each entry (name, folder),
 * a missing original is skipped; otherwise it is read and rewritten, the folder is made,
 * `<folder>/index.html` is written and the original is deleted. A failing file-system call
 * ends the run where it stands. The loop is stated here for any rewrite of the page text,
 * so what it does to files and folders is proved once, whatever the rewrite computes.
 */
module MoveLoop {
  import opened Options
  import opened Site
  import opened MigratePy

  /** The new text for an original's content and file name; None when the rewrite fails. */
  type PageRewrite = (string, string) -> Option<string>

  /** `<folder>/index.html`, the new page of entry k. */
  function Target(k: int): string
    requires 0 <= k < |Pages|
  {
    Pages[k].1 + "/index.html"
  }

  /** Originals, folders, new pages and the root index are all different paths. */
  lemma PathsDistinct(j: int, k: int)
    requires 0 <= j < |Pages| && 0 <= k < |Pages|
    ensures Pages[j].0 != Target(k) && Pages[j].1 != Pages[k].0 && Pages[j].1 != Target(k)
    ensures j != k ==> Pages[j].0 != Pages[k].0 && Target(j) != Target(k)
    ensures "index.html" != Pages[j].0 && "index.html" != Pages[j].1 && "index.html" != Target(j)
  {
    PageShape(j);
    PageShape(k);
    assert Target(k)[|Pages[k].1|] == '/';
    assert Pages[k].0[|Pages[k].1|] == '.';
    if j != k {
      PagesPrefixFree(j, k);
      assert Target(j)[..|Pages[j].1|] == Pages[j].1 && Target(k)[..|Pages[k].1|] == Pages[k].1;
    }
  }

  /** One pass of the loop body for entry k. */
  function Step(t: Tree, k: int, rw: PageRewrite): Outcome
    requires 0 <= k < |Pages|
  {
    var (name, folder) := Pages[k];
    if !Exists(t, name) then Done(t)
    else if name in t.dirs then Crashed(t)
    else match rw(t.files[name], name)
      case None => Crashed(t)
      case Some(text) =>
        if folder in t.files then Crashed(t)
        else
          var t1 := WithDir(t, folder);
          if Target(k) in t1.dirs then Crashed(t1)
          else Done(Remove(Write(t1, Target(k), text), name))
  }

  /** The loop over the entries from k on. */
  function Loop(t: Tree, k: int, rw: PageRewrite): Outcome
    requires 0 <= k <= |Pages|
    decreases |Pages| - k
  {
    if k == |Pages| then Done(t)
    else match Step(t, k, rw)
      case Crashed(t1) => Crashed(t1)
      case Done(t1) => Loop(t1, k + 1, rw)
  }

  /** A rewrite that succeeds on every original of the table. */
  ghost predicate NeverFails(rw: PageRewrite) {
    forall c, j :: 0 <= j < |Pages| ==> rw(c, Pages[j].0).Some?
  }

  /** A missing original is skipped: nothing is created, written or deleted. */
  lemma StepSkipsMissing(t: Tree, k: int, rw: PageRewrite)
    requires 0 <= k < |Pages| && !Exists(t, Pages[k].0)
    ensures Step(t, k, rw) == Done(t)
  {
  }

  /**
   * A present original is rewritten into `<folder>/index.html`, the folder exists
   * afterwards, and the original is gone while the new page survives its removal.
   */
  lemma StepMoves(t: Tree, k: int, rw: PageRewrite)
    requires 0 <= k < |Pages|
    requires Pages[k].0 in t.files && Pages[k].0 !in t.dirs
    requires Pages[k].1 !in t.files && Target(k) !in t.dirs
    requires rw(t.files[Pages[k].0], Pages[k].0).Some?
    ensures Step(t, k, rw).Done?
    ensures var out := Step(t, k, rw).tree;
      out.files == t.files[Target(k) := rw(t.files[Pages[k].0], Pages[k].0).value] - {Pages[k].0} &&
      out.dirs == t.dirs + {Pages[k].1} &&
      Target(k) in out.files && Pages[k].0 !in out.files
  {
    PathsDistinct(k, k);
  }

  /** A failing step has written and deleted nothing: no page text is lost. */
  lemma StepCrashKeepsFiles(t: Tree, k: int, rw: PageRewrite)
    requires 0 <= k < |Pages| && Step(t, k, rw).Crashed?
    ensures Step(t, k, rw).tree.files == t.files && Step(t, k, rw).tree.dirs <= t.dirs + {Pages[k].1}
  {
  }

  /** A completed step for a present original leaves its rewritten text at the new page. */
  lemma StepWrites(t: Tree, k: int, rw: PageRewrite)
    requires 0 <= k < |Pages| && Step(t, k, rw).Done? && Pages[k].0 in t.files
    ensures rw(t.files[Pages[k].0], Pages[k].0).Some?
    ensures var out := Step(t, k, rw).tree;
      Target(k) in out.files && out.files[Target(k)] == rw(t.files[Pages[k].0], Pages[k].0).value
  {
    PathsDistinct(k, k);
  }

  /** A step changes no file other than its own original and new page. */
  lemma StepFrame(t: Tree, k: int, p: string, rw: PageRewrite)
    requires 0 <= k < |Pages| && p != Pages[k].0 && p != Target(k)
    ensures var out := Step(t, k, rw).tree;
      (p in out.files <==> p in t.files) && (p in t.files ==> out.files[p] == t.files[p])
  {
  }

  /** A complete loop from k completed step k and then the loop from k + 1. */
  lemma LoopStep(t: Tree, k: int, rw: PageRewrite)
    requires 0 <= k < |Pages| && Loop(t, k, rw).Done?
    ensures Step(t, k, rw).Done? && Loop(t, k, rw) == Loop(Step(t, k, rw).tree, k + 1, rw)
  {
  }

  /** A path that is neither a folder nor a new page of the entries from k on. */
  predicate NotCreatedFrom(p: string, k: int)
    requires 0 <= k <= |Pages|
  {
    forall j :: k <= j < |Pages| ==> p != Pages[j].1 && p != Target(j)
  }

  /**
   * What the loop does to any other path: it never creates or changes it, it removes it
   * only when it is one of the originals, and it never removes a directory.
   */
  lemma {:induction false} LoopFrame(t: Tree, k: int, p: string, rw: PageRewrite)
    requires 0 <= k <= |Pages| && NotCreatedFrom(p, k)
    ensures var out := Loop(t, k, rw).tree;
      (p in out.files ==> p in t.files && out.files[p] == t.files[p]) &&
      (p in out.dirs <==> p in t.dirs) &&
      ((forall j :: k <= j < |Pages| ==> p != Pages[j].0) && p in t.files ==> p in out.files)
    decreases |Pages| - k
  {
    if k < |Pages| {
      var step := Step(t, k, rw);
      if step.Done? {
        LoopFrame(step.tree, k + 1, p, rw);
      }
    }
  }

  /** No later entry creates, or removes, the original of entry k. */
  lemma OriginalNotCreatedLater(k: int)
    requires 0 <= k < |Pages|
    ensures NotCreatedFrom(Pages[k].0, k + 1)
    ensures forall j :: k < j < |Pages| ==> Pages[k].0 != Pages[j].0
  {
    forall j | k < j < |Pages| ensures Pages[k].0 != Pages[j].1 && Pages[k].0 != Target(j) && Pages[k].0 != Pages[j].0 {
      PathsDistinct(k, j);
    }
  }

  /** No later entry creates, or removes, the new page of entry j. */
  lemma TargetNotCreatedLater(j: int)
    requires 0 <= j < |Pages|
    ensures NotCreatedFrom(Target(j), j + 1)
    ensures forall i :: j < i < |Pages| ==> Target(j) != Pages[i].0
  {
    forall i | j < i < |Pages| ensures Target(j) != Pages[i].1 && Target(j) != Target(i) && Target(j) != Pages[i].0 {
      PathsDistinct(j, i);
      PathsDistinct(i, j);
    }
  }

  /** A step for entry k leaves the original of another entry j as it was. */
  lemma OtherEntryUntouched(t: Tree, k: int, j: int, rw: PageRewrite)
    requires 0 <= k < |Pages| && 0 <= j < |Pages| && j != k
    ensures var out := Step(t, k, rw).tree;
      (Pages[j].0 in out.files <==> Pages[j].0 in t.files) &&
      (Pages[j].0 in t.files ==> out.files[Pages[j].0] == t.files[Pages[j].0])
  {
    PathsDistinct(j, k);
    PathsDistinct(k, j);
    StepFrame(t, k, Pages[j].0, rw);
  }

  /** After a complete loop no original exists any more, as file or as directory. */
  lemma {:induction false} LoopRemovesOriginals(t: Tree, k: int, rw: PageRewrite)
    requires 0 <= k <= |Pages| && Loop(t, k, rw).Done?
    ensures forall j :: k <= j < |Pages| ==> !Exists(Loop(t, k, rw).tree, Pages[j].0)
    decreases |Pages| - k
  {
    if k < |Pages| {
      LoopStep(t, k, rw);
      var t1 := Step(t, k, rw).tree;
      LoopRemovesOriginals(t1, k + 1, rw);
      PathsDistinct(k, k);
      assert !Exists(t1, Pages[k].0);
      OriginalNotCreatedLater(k);
      LoopFrame(t1, k + 1, Pages[k].0, rw);
    }
  }

  /** With no original left, the loop skips every entry and changes nothing. */
  lemma {:induction false} LoopNothingLeft(t: Tree, k: int, rw: PageRewrite)
    requires 0 <= k <= |Pages|
    requires forall j :: k <= j < |Pages| ==> !Exists(t, Pages[j].0)
    ensures Loop(t, k, rw) == Done(t)
    decreases |Pages| - k
  {
    if k < |Pages| {
      StepSkipsMissing(t, k, rw);
      LoopNothingLeft(t, k + 1, rw);
    }
  }

  /** Running the loop again after a complete run, with either rewrite, finds nothing to move. */
  lemma SecondRunSkips(t: Tree, rw: PageRewrite, rw2: PageRewrite)
    requires Loop(t, 0, rw).Done?
    ensures Loop(Loop(t, 0, rw).tree, 0, rw2) == Loop(t, 0, rw)
  {
    LoopRemovesOriginals(t, 0, rw);
    LoopNothingLeft(Loop(t, 0, rw).tree, 0, rw2);
  }

  /**
   * Every original present at the start of a complete loop ends up, rewritten, as its
   * folder's index.html; later entries never overwrite it.
   */
  lemma {:induction false} LoopMovesEvery(t: Tree, k: int, j: int, rw: PageRewrite)
    requires 0 <= k <= j < |Pages| && Loop(t, k, rw).Done?
    requires Pages[j].0 in t.files
    ensures rw(t.files[Pages[j].0], Pages[j].0).Some?
    ensures var out := Loop(t, k, rw).tree;
      Target(j) in out.files && out.files[Target(j)] == rw(t.files[Pages[j].0], Pages[j].0).value
    decreases |Pages| - k
  {
    LoopStep(t, k, rw);
    var t1 := Step(t, k, rw).tree;
    if k == j {
      StepWrites(t, k, rw);
      TargetNotCreatedLater(j);
      LoopFrame(t1, k + 1, Target(j), rw);
    } else {
      OtherEntryUntouched(t, k, j, rw);
      LoopMovesEvery(t1, k + 1, j, rw);
    }
  }

  /** Two directories holding the same file names and folders, whatever the files say. */
  predicate SameShape(a: Tree, b: Tree) {
    a.files.Keys == b.files.Keys && a.dirs == b.dirs
  }

  /**
   * Started from directories of the same shape, steps with two rewrites that never fail end
   * alike and leave directories of the same shape.
   */
  lemma StepSameShape(t: Tree, u: Tree, k: int, rw1: PageRewrite, rw2: PageRewrite)
    requires 0 <= k < |Pages| && SameShape(t, u) && NeverFails(rw1) && NeverFails(rw2)
    ensures Step(t, k, rw1).Done? == Step(u, k, rw2).Done?
    ensures SameShape(Step(t, k, rw1).tree, Step(u, k, rw2).tree)
  {
    var name := Pages[k].0;
    if Exists(t, name) && name !in t.dirs {
      assert rw1(t.files[name], name).Some? && rw2(u.files[name], name).Some?;
    }
  }

  /** So do whole loops: the file-system effect of the loop does not depend on the rewrite. */
  lemma {:induction false} LoopSameShape(t: Tree, u: Tree, k: int, rw1: PageRewrite, rw2: PageRewrite)
    requires 0 <= k <= |Pages| && SameShape(t, u) && NeverFails(rw1) && NeverFails(rw2)
    ensures Loop(t, k, rw1).Done? == Loop(u, k, rw2).Done?
    ensures SameShape(Loop(t, k, rw1).tree, Loop(u, k, rw2).tree)
    decreases |Pages| - k
  {
    if k < |Pages| {
      StepSameShape(t, u, k, rw1, rw2);
      if Step(t, k, rw1).Done? {
        LoopSameShape(Step(t, k, rw1).tree, Step(u, k, rw2).tree, k + 1, rw1, rw2);
      }
    }
  }
}
