/** The navigation highlighter: on load, the page works out which document
    it is from the last segment of its path, and every navigation link that
    points at that document gains the class `active`. */
module Nav {
  import opened Optional
  import opened Strings

  /** The document a bare directory path stands for. */
  const Home := "index.html"

  /** The current document: the text after the last `/` of the path, or the
      home document when there is no such text. */
  function CurrentPath(pathname: string): string
  {
    var raw := AfterLast(pathname, '/');
    if raw != [] then raw else Home
  }

  /** The script computes the current path as
      `location.pathname.split('/').pop()`, with `index.html` standing in when
      that last segment is empty; that is `CurrentPath`. */
  lemma CurrentPathAsWritten(pathname: string)
    ensures var segments := Split(pathname, '/');
      var raw := segments[|segments| - 1];
      CurrentPath(pathname) == if raw != [] then raw else Home
  {
    SplitLast(pathname, '/');
  }

  /** The current path is never empty and never contains `/`. */
  lemma CurrentPathIsFileName(pathname: string)
    ensures CurrentPath(pathname) != [] && '/' !in CurrentPath(pathname)
  {
    assert '/' !in Home;
  }

  /** A path that is empty or ends in `/` (a directory URL) yields
      `index.html`. */
  lemma CurrentPathAtDirectory(pathname: string)
    requires pathname == [] || pathname[|pathname| - 1] == '/'
    ensures CurrentPath(pathname) == Home
  {
    AfterLastFollowsSep(pathname, '/');
  }

  /** Any other path yields its final segment: a suffix that is the whole path
      or follows a `/`. */
  lemma CurrentPathIsFinalSegment(pathname: string)
    requires pathname != [] && pathname[|pathname| - 1] != '/'
    ensures var path := CurrentPath(pathname);
      |path| <= |pathname| && path == pathname[|pathname| - |path|..] &&
      (|path| < |pathname| ==> pathname[|pathname| - |path| - 1] == '/')
  {
    AfterLastFollowsSep(pathname, '/');
    assert CurrentPath(pathname) == AfterLast(pathname, '/');
  }

  /** The target file of a link: its `href` attribute (an absent one reads as
      the empty string) up to its first `#`. */
  function LinkFile(href: Option<string>): string
  {
    BeforeFirst(OrEmpty(href), '#')
  }

  /** The script takes the file as `href.includes('#') ? href.split('#')[0] :
      href`; that is `LinkFile`. */
  lemma LinkFileAsWritten(href: Option<string>)
    ensures var h := OrEmpty(href);
      LinkFile(href) == if '#' in h then Split(h, '#')[0] else h
  {
    var h := OrEmpty(href);
    SplitFirst(h, '#');
    if '#' !in h {
      BeforeFirstWithoutSep(h, '#');
    }
  }

  /** The test a navigation link must pass to be marked active: its file is
      the current path, or it has no file (a pure fragment or an empty href)
      and the current path is the home document. */
  predicate IsActive(href: Option<string>, path: string)
  {
    var file := LinkFile(href);
    (file == [] && path == Home) || file == path
  }

  /** No link whose file has a directory part (`pages/about.html`,
      `/index.html`) is ever active, because the current path has no `/` in
      it. */
  lemma NestedLinkNeverActive(pathname: string, href: Option<string>)
    ensures '/' in LinkFile(href) ==> !IsActive(href, CurrentPath(pathname))
  {
    CurrentPathIsFileName(pathname);
  }

  /** The fragment of a link does not matter: `f#x` is active exactly where
      `f` is. */
  lemma FragmentIgnored(f: string, fragment: string, path: string)
    requires '#' !in f
    ensures IsActive(Some(f + "#" + fragment), path) <==> IsActive(Some(f), path)
  {
    var h := f + "#" + fragment;
    var file := LinkFile(Some(h));
    assert h[|f|] == '#';
    assert h[..|f|] == f;
    assert file == f;
    assert LinkFile(Some(f)) == f;
  }

  /** On the home document, the links to `index.html`, the pure-fragment
      links and the links without an `href` are active. */
  lemma HomeLinksActive(fragment: string)
    ensures IsActive(Some(Home), Home)
    ensures IsActive(Some("#" + fragment), Home)
    ensures IsActive(None, Home)
  {
    FragmentIgnored("", fragment, Home);
    assert "" + "#" + fragment == "#" + fragment;
    assert LinkFile(Some(Home)) == Home by {
      assert '#' !in Home;
    }
  }

  /** A directory URL (`/`, `/site/`) is the home document, so the links of
      `HomeLinksActive` are active there. */
  lemma HomeLinksActiveAtDirectory(pathname: string, fragment: string)
    requires pathname == [] || pathname[|pathname| - 1] == '/'
    ensures IsActive(Some(Home), CurrentPath(pathname))
    ensures IsActive(Some("#" + fragment), CurrentPath(pathname))
    ensures IsActive(None, CurrentPath(pathname))
  {
    CurrentPathAtDirectory(pathname);
    HomeLinksActive(fragment);
  }

  /** A link of the navigation bar: its `href` attribute and its class list. */
  class NavLink {
    const href: Option<string>
    var classes: set<string>

    constructor (href: Option<string>, classes: set<string>)
      ensures this.href == href && this.classes == classes
    {
      this.href := href;
      this.classes := classes;
    }
  }

  /** The load-time pass over `nav a`: every link that passes `IsActive` for
      the current path gains `active`; the loop only adds the class, so every
      other link keeps its classes as they were. A link listed twice is
      treated the same both times. */
  method HighlightNav(pathname: string, links: seq<NavLink>)
    modifies links
    ensures forall a :: a in links ==>
      a.classes ==
        if IsActive(a.href, CurrentPath(pathname))
        then old(a.classes) + {"active"}
        else old(a.classes)
  {
    var path := CurrentPath(pathname);
    ghost var done: set<NavLink> := {};
    var i := 0;
    while i < |links|
      invariant 0 <= i <= |links|
      invariant forall j :: 0 <= j < i ==> links[j] in done
      invariant forall a :: a in links ==>
        a.classes == if a in done && IsActive(a.href, path) then old(a.classes) + {"active"} else old(a.classes)
    {
      var a := links[i];
      if IsActive(a.href, path) {
        a.classes := a.classes + {"active"};
      }
      done := done + {a};
      i := i + 1;
    }
  }
}
