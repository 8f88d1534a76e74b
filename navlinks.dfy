/**
 * setActiveNavLink of script.js: the nav link naming the page being shown gets the
 * `active` class and aria-current="page"; every other link loses both.
 */
module NavLinks {
  import opened Options

  /** The text after the last '/', as `s.split('/').pop()` gives it. */
  function LastSegment(s: string): (r: string)
    ensures '/' !in r
    ensures |r| <= |s| && r == s[|s| - |r|..]
    ensures |r| < |s| ==> s[|s| - |r| - 1] == '/'
  {
    if s == [] || s[|s| - 1] == '/' then []
    else LastSegment(s[..|s| - 1]) + [s[|s| - 1]]
  }

  /** The name of the site's front page. */
  const IndexPage: string := "index.html"

  /** The page being shown: the last path segment, `index.html` when that is empty. */
  function CurrentPage(pathname: string): (r: string)
    ensures r != [] && '/' !in r
    ensures LastSegment(pathname) != [] ==> r == LastSegment(pathname)
  {
    var last := LastSegment(pathname);
    if last == [] then IndexPageShape(); IndexPage else last
  }

  lemma IndexPageShape()
    ensures IndexPage != [] && '/' !in IndexPage
  {
  }

  /** Whether a link with this href (empty when missing) is the current page's link. */
  predicate Marked(href: string, current: string) {
    href != [] &&
    if href[0] == '#' then current == IndexPage else LastSegment(href) == current
  }

  /** The last segment of a path is the name after its final slash, whatever precedes it. */
  lemma {:induction false} LastSegmentOfName(dir: string, name: string)
    requires '/' !in name
    ensures LastSegment(dir + "/" + name) == name
    decreases |name|
  {
    var s := dir + "/" + name;
    if name == [] {
      assert s[|s| - 1] == '/';
    } else {
      var init := name[..|name| - 1];
      assert s[..|s| - 1] == dir + "/" + init;
      assert s[|s| - 1] == name[|name| - 1] != '/';
      LastSegmentOfName(dir, init);
      assert init + [name[|name| - 1]] == name;
    }
  }

  /**
   * A link to a page file is marked on that page, wherever the link or the page sits; a
   * fragment link is marked exactly on the site root.
   */
  lemma PageLinkMarked(linkDir: string, pageDir: string, name: string)
    requires '/' !in name && name != [] && (linkDir == [] || linkDir[0] != '#')
    ensures Marked(linkDir + "/" + name, CurrentPage(pageDir + "/" + name))
    ensures forall frag :: Marked("#" + frag, CurrentPage(pageDir + "/"))
  {
    LastSegmentOfName(linkDir, name);
    LastSegmentOfName(pageDir, name);
    LastSegmentOfName(pageDir, "");
  }

  /**
   * A folder link, as the migration scripts write them (`../about/`), is never marked: its
   * last segment is empty, and the current page name never is.
   */
  lemma FolderLinkNeverMarked(folder: string, pathname: string)
    ensures !Marked("../" + folder + "/", CurrentPage(pathname))
  {
    var href := "../" + folder + "/";
    assert href[0] == '.' && href[|href| - 1] == '/';
  }

  class NavBar {
    /** getAttribute('href') of each `.nav-links a`, empty when missing. */
    const hrefs: seq<string>
    /** Whether each link has the `active` class. */
    const active: array<bool>
    /** aria-current of each link, None when the attribute is absent. */
    const ariaCurrent: array<Option<string>>

    ghost predicate Valid()
      reads this
    {
      active.Length == ariaCurrent.Length == |hrefs|
    }

    constructor (hrefs0: seq<string>)
      ensures Valid() && hrefs == hrefs0 && fresh(active) && fresh(ariaCurrent)
    {
      hrefs := hrefs0;
      active := new bool[|hrefs0|](i => false);
      ariaCurrent := new Option<string>[|hrefs0|](i => None);
    }

    /** Clears every link, then marks those that name the current page. */
    method SetActiveNavLink(pathname: string)
      requires Valid()
      modifies active, ariaCurrent
      ensures forall i :: 0 <= i < |hrefs| ==>
        active[i] == Marked(hrefs[i], CurrentPage(pathname)) &&
        ariaCurrent[i] == (if Marked(hrefs[i], CurrentPage(pathname)) then Some("page") else None)
    {
      var current := LastSegment(pathname);
      if current == [] {
        current := IndexPage;
      }
      assert current == CurrentPage(pathname);
      for i := 0 to |hrefs|
        invariant forall k :: 0 <= k < i ==>
          active[k] == Marked(hrefs[k], current) &&
          ariaCurrent[k] == (if Marked(hrefs[k], current) then Some("page") else None)
      {
        UpdateLink(i, current);
      }
    }

    /** The forEach callback for link i: clear it, then mark it when it names the current page. */
    method UpdateLink(i: int, current: string)
      requires Valid() && 0 <= i < |hrefs|
      modifies active, ariaCurrent
      ensures active[i] == Marked(hrefs[i], current)
      ensures ariaCurrent[i] == (if Marked(hrefs[i], current) then Some("page") else None)
      ensures forall k :: 0 <= k < |hrefs| && k != i ==> active[k] == old(active[k]) && ariaCurrent[k] == old(ariaCurrent[k])
    {
      active[i] := false;
      ariaCurrent[i] := None;
      var href := hrefs[i];
      if href == [] {
        return;
      }
      if href[0] == '#' {
        if current == IndexPage {
          active[i] := true;
          ariaCurrent[i] := Some("page");
        }
        return;
      }
      var targetFile := LastSegment(href);
      if targetFile == current {
        active[i] := true;
        ariaCurrent[i] := Some("page");
      }
    }
  }
}
