/**
 * The driver of migrate_urls.py: the page loop over the `pages` table with update_content
 * in subpage mode as its rewrite, then the root `index.html` rewritten in place in root
 * mode. The script handles no error: the first failing file-system call ends the run
 * where it stands, as does the KeyError update_content raises for a name not in the table.
 */
module PyDriver {
  import opened Options
  import opened Site
  import opened MigratePy
  import opened MoveLoop

  /** The loop's rewrite: update_content in subpage mode. */
  const Subpages: PageRewrite := (content, name) => UpdateContent(content, name, false)

  /** The page lookup inside update_content cannot fail for a name the loop passes. */
  lemma SubpagesNeverFail()
    ensures NeverFails(Subpages)
  {
    forall c, j | 0 <= j < |Pages| ensures Subpages(c, Pages[j].0).Some? {
      UpdateContentFailsIff(c, Pages[j].0, false);
    }
  }

  /** The root `index.html`, read and written back in root mode. */
  function RootStep(t: Tree): Outcome {
    if "index.html" in t.dirs || "index.html" !in t.files then Crashed(t)
    else match UpdateContent(t.files["index.html"], "index.html", true)
      case None => Crashed(t)
      case Some(text) => Done(Write(t, "index.html", text))
  }

  /** The whole script. */
  function Migrate(t: Tree): Outcome {
    match Loop(t, 0, Subpages)
    case Crashed(t1) => Crashed(t1)
    case Done(t1) => RootStep(t1)
  }

  /**
   * A complete run leaves every page that existed at the start, rewritten in subpage mode,
   * as its folder's index.html, and no original behind.
   */
  lemma MigrateMovesPages(t: Tree, j: int)
    requires Migrate(t).Done? && 0 <= j < |Pages| && Pages[j].0 in t.files
    ensures var out := Migrate(t).tree;
      Target(j) in out.files && UpdateContent(t.files[Pages[j].0], Pages[j].0, false) == Some(out.files[Target(j)]) &&
      !Exists(out, Pages[j].0)
  {
    LoopMovesEvery(t, 0, j, Subpages);
    LoopRemovesOriginals(t, 0, Subpages);
    PathsDistinct(j, j);
  }

  /**
   * A complete run rewrites the root index in root mode, after the page loop, from the text
   * it had at the start: the loop never touches `index.html`.
   */
  lemma MigrateRewritesRoot(t: Tree)
    requires Migrate(t).Done?
    ensures "index.html" in t.files && UpdateContent(t.files["index.html"], "index.html", true).Some?
    ensures Migrate(t).tree.files["index.html"] == UpdateContent(t.files["index.html"], "index.html", true).value
  {
    forall j | 0 <= j < |Pages| ensures "index.html" != Pages[j].0 && "index.html" != Pages[j].1 && "index.html" != Target(j) {
      PathsDistinct(j, j);
    }
    LoopFrame(t, 0, "index.html", Subpages);
  }

  /** The script, one file-system call at a time, on the directory d. */
  method RunMigration(d: Directory) returns (ok: bool)
    modifies d
    ensures (if ok then Done(d.Snapshot()) else Crashed(d.Snapshot())) == Migrate(old(d.Snapshot()))
  {
    ghost var start := d.Snapshot();
    for k := 0 to |Pages|
      invariant Loop(start, 0, Subpages) == Loop(d.Snapshot(), k, Subpages)
    {
      var moved := MovePage(d, k);
      if !moved {
        return false;
      }
    }
    ok := RewriteRoot(d);
  }

  /** One pass of the page loop on the directory d: the calls Step describes, in order. */
  method MovePage(d: Directory, k: int) returns (ok: bool)
    requires 0 <= k < |Pages|
    modifies d
    ensures (if ok then Done(d.Snapshot()) else Crashed(d.Snapshot())) == Step(old(d.Snapshot()), k, Subpages)
  {
    var (name, folder) := Pages[k];
    if name !in d.files && name !in d.dirs {
      return true;
    }
    if name in d.dirs {
      return false;
    }
    var updated := UpdateContent(d.files[name], name, false);
    if updated.None? {
      return false;
    }
    if folder in d.files {
      return false;
    }
    d.MakeDir(folder);
    var target := folder + "/index.html";
    if target in d.dirs {
      return false;
    }
    d.WriteFile(target, updated.value);
    d.RemoveFile(name);
    return true;
  }

  /** The root index on the directory d: read, rewritten in root mode, written back. */
  method RewriteRoot(d: Directory) returns (ok: bool)
    modifies d
    ensures (if ok then Done(d.Snapshot()) else Crashed(d.Snapshot())) == RootStep(old(d.Snapshot()))
  {
    if "index.html" in d.dirs || "index.html" !in d.files {
      return false;
    }
    var rewritten := UpdateContent(d.files["index.html"], "index.html", true);
    if rewritten.None? {
      return false;
    }
    d.WriteFile("index.html", rewritten.value);
    return true;
  }
}
