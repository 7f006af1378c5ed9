/** The navigation highlight run once at page load (js/main.js, lines 6-14):
    the current page is the last segment of the location's path, and every
    `.nav-link` whose href equals it gains the class 'active'. */
module Navigation {
  import opened Wrappers

  /** pathname.split('/').pop(): the text after the last '/', or the whole
      path when it has none. It is a '/'-free suffix that starts the path or
      follows a '/'. */
  function LastSegment(path: string): (r: string)
    ensures '/' !in r
    ensures |r| <= |path| && r == path[|path| - |r|..]
    ensures |r| < |path| ==> path[|path| - |r| - 1] == '/'
  {
    if path == [] || path[|path| - 1] == '/' then []
    else LastSegment(path[..|path| - 1]) + [path[|path| - 1]]
  }

  /** Any split of a path into a prefix that is empty or ends in '/' and a
      '/'-free rest finds the last segment. */
  lemma {:induction false} LastSegmentUnique(path: string, p: string, r: string)
    requires path == p + r && '/' !in r && (p == [] || p[|p| - 1] == '/')
    ensures LastSegment(path) == r
    decreases |r|
  {
    if r == [] {
      assert path == p;
    } else {
      var c, r' := r[|r| - 1], r[..|r| - 1];
      assert r == r' + [c];
      assert path == (p + r') + [c];
      assert c in r && '/' !in r';
      LastSegmentUnique(p + r', p, r');
    }
  }

  /** `split('/').pop() || 'index.html'`: an empty last segment (an empty path
      or one ending in '/') names the index page. */
  function CurrentPage(path: string): (page: string)
    ensures page != [] && '/' !in page
    ensures (path == [] || path[|path| - 1] == '/') ==> page == "index.html"
    ensures !(path == [] || path[|path| - 1] == '/') ==>
              |page| <= |path| && page == path[|path| - |page|..]
              && (|page| == |path| || path[|path| - |page| - 1] == '/')
  {
    var last := LastSegment(path);
    if last == [] then "index.html" else last
  }

  /** A navigation link: its href attribute (None when absent, which
      getAttribute reports as null) and its class list. */
  datatype NavLink = NavLink(href: Option<string>, classes: set<string>)

  /** One link of the forEach: 'active' is added when href equals the page. */
  function MarkActive(link: NavLink, page: string): NavLink {
    if link.href == Some(page) then link.(classes := link.classes + {"active"}) else link
  }

  /** The forEach over all `.nav-link` elements. Every link keeps its href and
      its classes, gains 'active' exactly when its href equals the page, and
      gains nothing else. */
  function Highlight(links: seq<NavLink>, page: string): (r: seq<NavLink>)
    ensures |r| == |links|
    ensures forall i :: 0 <= i < |links| ==>
              r[i].href == links[i].href && r[i].classes - {"active"} == links[i].classes - {"active"}
    ensures forall i :: 0 <= i < |links| ==>
              links[i].classes <= r[i].classes
              && ("active" in r[i].classes <==> "active" in links[i].classes || links[i].href == Some(page))
  {
    if links == [] then [] else [MarkActive(links[0], page)] + Highlight(links[1..], page)
  }

  /** The page's behaviour: links pointing at a path's page are the active ones. */
  lemma ActiveForPath(links: seq<NavLink>, path: string, i: nat)
    requires i < |links| && "active" !in links[i].classes
    ensures "active" in Highlight(links, CurrentPage(path))[i].classes <==>
              links[i].href == Some(CurrentPage(path))
  {
  }
}
