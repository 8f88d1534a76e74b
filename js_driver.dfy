/**
 * The loop of migrate() in migrate_urls.js over filesToMigrate: a file that fails the
 * access check is skipped; otherwise it is read, rewritten, its folder is created with
 * any mkdir error swallowed, `<name>/index.html` is written and the original unlinked.
 * A rejected read, write or unlink ends the whole run. The root index.html is not touched.
 */
module JsDriver {
  import opened Options
  import opened Site
  import opened MigrateJs
  import MigratePy
  import opened MoveLoop
  import PyDriver

  /** One pass of the loop for entry k of filesToMigrate. */
  function PageStep(t: Tree, k: int): Outcome
    requires 0 <= k < |Files|
  {
    var file := Files[k];
    var name := BaseName(file);
    var target := name + "/index.html";
    if !Exists(t, file) then Done(t)
    else if file in t.dirs then Crashed(t)
    else if name in t.files then Crashed(t)
    else
      var t1 := WithDir(t, name);
      if target in t1.dirs then Crashed(t1)
      else Done(Remove(Write(t1, target, Rewrite(t.files[file], file)), file))
  }

  /** The loop over the entries from k on. */
  function PagesFrom(t: Tree, k: int): Outcome
    requires 0 <= k <= |Files|
    decreases |Files| - k
  {
    if k == |Files| then Done(t)
    else match PageStep(t, k)
      case Crashed(t1) => Crashed(t1)
      case Done(t1) => PagesFrom(t1, k + 1)
  }

  /** The loop of migrate(), one file-system call at a time, on the directory d. */
  method RunMigration(d: Directory) returns (ok: bool)
    modifies d
    ensures (if ok then Done(d.Snapshot()) else Crashed(d.Snapshot())) == PagesFrom(old(d.Snapshot()), 0)
  {
    ghost var start := d.Snapshot();
    for k := 0 to |Files|
      invariant PagesFrom(start, 0) == PagesFrom(d.Snapshot(), k)
    {
      var moved := MovePage(d, k);
      if !moved {
        return false;
      }
    }
    return true;
  }

  /** One pass of the loop body on the directory d: the calls PageStep describes, in order. */
  method MovePage(d: Directory, k: int) returns (ok: bool)
    requires 0 <= k < |Files|
    modifies d
    ensures (if ok then Done(d.Snapshot()) else Crashed(d.Snapshot())) == PageStep(old(d.Snapshot()), k)
  {
    var file := Files[k];
    if file !in d.files && file !in d.dirs {
      return true;
    }
    if file in d.dirs {
      return false;
    }
    var content := d.files[file];
    var name := BaseName(file);
    content := RewritePage(content, file);
    if name !in d.files {
      d.MakeDir(name);
    }
    var target := name + "/index.html";
    if name in d.files || target in d.dirs {
      return false;
    }
    d.WriteFile(target, content);
    d.RemoveFile(file);
    return true;
  }

  /** A file that fails the access check is skipped: no mkdir, no write, no unlink. */
  lemma PageStepSkipsMissing(t: Tree, k: int)
    requires 0 <= k < |Files| && !Exists(t, Files[k])
    ensures PageStep(t, k) == Done(t)
  {
  }

  /** The loop's rewrite: the replace chain of migrate(), which cannot fail. */
  const Chain: PageRewrite := (content, file) => Some(Rewrite(content, file))

  /**
   * A step of this loop is the table loop's step with the replace chain as its rewrite: the
   * folder is the file name without `.html`, and a swallowed mkdir error over a file of
   * that name ends the run at the write, before anything changed.
   */
  lemma PageStepIsLoopStep(t: Tree, k: int)
    requires 0 <= k < |Files|
    ensures PageStep(t, k) == Step(t, k, Chain)
  {
    BaseNameIsFolder(k);
    FilesArePages();
  }

  lemma {:induction false} PagesFromIsLoop(t: Tree, k: int)
    requires 0 <= k <= |Files|
    ensures PagesFrom(t, k) == Loop(t, k, Chain)
    decreases |Files| - k
  {
    FilesArePages();
    if k < |Files| {
      PageStepIsLoopStep(t, k);
      if PageStep(t, k).Done? {
        PagesFromIsLoop(PageStep(t, k).tree, k + 1);
      }
    }
  }

  /**
   * A present file whose folder name is free is rewritten into `<name>/index.html`, and
   * unlinked only after that write; the new page survives the unlink.
   */
  lemma PageStepMoves(t: Tree, k: int)
    requires 0 <= k < |Files|
    requires Files[k] in t.files && Files[k] !in t.dirs
    requires BaseName(Files[k]) !in t.files && Target(k) !in t.dirs
    ensures PageStep(t, k).Done?
    ensures var out := PageStep(t, k).tree;
      out.files == t.files[Target(k) := Rewrite(t.files[Files[k]], Files[k])] - {Files[k]} &&
      out.dirs == t.dirs + {BaseName(Files[k])} &&
      Target(k) in out.files && Files[k] !in out.files
  {
    BaseNameIsFolder(k);
    FilesArePages();
    PageStepIsLoopStep(t, k);
    StepMoves(t, k, Chain);
  }

  /** A failing step has written and unlinked nothing. */
  lemma PageStepCrashKeepsFiles(t: Tree, k: int)
    requires 0 <= k < |Files| && PageStep(t, k).Crashed?
    ensures PageStep(t, k).tree.files == t.files && PageStep(t, k).tree.dirs <= t.dirs + {BaseName(Files[k])}
  {
    BaseNameIsFolder(k);
    PageStepIsLoopStep(t, k);
    StepCrashKeepsFiles(t, k, Chain);
  }

  /**
   * A complete run leaves every listed file that existed at the start, rewritten, as
   * `<name>/index.html`, and no listed file behind.
   */
  lemma RunMovesFiles(t: Tree, j: int)
    requires PagesFrom(t, 0).Done? && 0 <= j < |Files| && Files[j] in t.files
    ensures var out := PagesFrom(t, 0).tree;
      Target(j) in out.files && out.files[Target(j)] == Rewrite(t.files[Files[j]], Files[j]) &&
      !Exists(out, Files[j])
  {
    FilesArePages();
    PagesFromIsLoop(t, 0);
    LoopMovesEvery(t, 0, j, Chain);
    LoopRemovesOriginals(t, 0, Chain);
  }

  /** Running the script a second time, or the Python script after it, finds nothing to move. */
  lemma RunAgainSkips(t: Tree)
    requires PagesFrom(t, 0).Done?
    ensures PagesFrom(PagesFrom(t, 0).tree, 0) == PagesFrom(t, 0)
    ensures Loop(PagesFrom(t, 0).tree, 0, PyDriver.Subpages) == PagesFrom(t, 0)
  {
    PagesFromIsLoop(t, 0);
    PagesFromIsLoop(PagesFrom(t, 0).tree, 0);
    SecondRunSkips(t, Chain, Chain);
    SecondRunSkips(t, Chain, PyDriver.Subpages);
  }

  /**
   * On the same directory both scripts' page loops finish or stop alike and leave the same
   * files and folders; only the text of the new pages differs.
   */
  lemma LikePython(t: Tree)
    ensures PagesFrom(t, 0).Done? == Loop(t, 0, PyDriver.Subpages).Done?
    ensures SameShape(PagesFrom(t, 0).tree, Loop(t, 0, PyDriver.Subpages).tree)
  {
    PagesFromIsLoop(t, 0);
    PyDriver.SubpagesNeverFail();
    LoopSameShape(t, t, 0, Chain, PyDriver.Subpages);
  }
}
