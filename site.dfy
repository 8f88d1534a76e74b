/**
 * The working directory both migration scripts act on, abstracted from the real file
 * system: the files that exist, with their text, and the directories that exist.
 * Paths are relative to the site root; `a/b` names b inside the directory a.
 */
module Site {

  /** A snapshot of the directory as a value. */
  datatype Tree = Tree(files: map<string, string>, dirs: set<string>)

  /** How a run ends: normally, or at the first failing call, with the directory as it then is. */
  datatype Outcome = Done(tree: Tree) | Crashed(tree: Tree)

  /** Whether anything, file or directory, exists at the path. */
  predicate Exists(t: Tree, path: string) {
    path in t.files || path in t.dirs
  }

  function Write(t: Tree, path: string, text: string): Tree {
    Tree(t.files[path := text], t.dirs)
  }

  function WithDir(t: Tree, path: string): Tree {
    Tree(t.files, t.dirs + {path})
  }

  function Remove(t: Tree, path: string): Tree {
    Tree(t.files - {path}, t.dirs)
  }

  /** The directory the scripts change in place, one file-system call at a time. */
  class Directory {
    var files: map<string, string>
    var dirs: set<string>

    constructor (files0: map<string, string>, dirs0: set<string>)
      ensures files == files0 && dirs == dirs0
    {
      files := files0;
      dirs := dirs0;
    }

    function Snapshot(): Tree
      reads this
    {
      Tree(files, dirs)
    }

    /** Creates or overwrites a file. */
    method WriteFile(path: string, text: string)
      modifies this
      ensures Snapshot() == Write(old(Snapshot()), path, text)
    {
      files := files[path := text];
    }

    /** Creates a directory; one that already exists stays as it is. */
    method MakeDir(path: string)
      modifies this
      ensures Snapshot() == WithDir(old(Snapshot()), path)
    {
      dirs := dirs + {path};
    }

    /** Deletes a file. */
    method RemoveFile(path: string)
      modifies this
      ensures Snapshot() == Remove(old(Snapshot()), path)
    {
      files := files - {path};
    }
  }
}
