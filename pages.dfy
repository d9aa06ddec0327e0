/** Which page a browser path shows. */
module Pages {
  import opened Wrappers
  import opened Text

  datatype Page = Leaderboard | Players | Admin | Login

  function PageName(p: Page): string {
    match p
    case Leaderboard => "Leaderboard"
    case Players => "Players"
    case Admin => "Admin"
    case Login => "Login"
  }

  /** The pages in the order they are searched. */
  const AllPages := [Leaderboard, Players, Admin, Login]

  /** The lower-cased page names. */
  function LowerName(p: Page): string {
    match p
    case Leaderboard => "leaderboard"
    case Players => "players"
    case Admin => "admin"
    case Login => "login"
  }

  lemma LowerNameIsLower(p: Page)
    ensures ToLower(PageName(p)) == LowerName(p)
  {
  }

  /** The part of the path that names the page: one trailing `/` dropped,
      the last `/`-separated segment, cut at its first `?`. */
  function PageSegment(url: string): (r: string)
    ensures '/' !in r && '?' !in r
    ensures var c := if EndsWith(url, "/") then url[..|url| - 1] else url;
      r == FirstSegment(LastSegment(c, '/'), '?')
  {
    var cleanUrl := if EndsWith(url, "/") then url[..|url| - 1] else url;
    var lastPart := LastSegment(cleanUrl, '/');
    if Contains(lastPart, "?") then FirstSegment(lastPart, '?') else
      ContainsChar(lastPart, '?');
      FirstSegmentWhole(lastPart, '?');
      lastPart
  }

  /** `.find` over the pages: the first whose lower-cased name is `key`'s. */
  function FindPage(pages: seq<Page>, key: string): (r: Option<Page>)
    ensures r.Some? ==> r.value in pages && ToLower(PageName(r.value)) == ToLower(key)
    ensures r.None? <==> forall p :: p in pages ==> ToLower(PageName(p)) != ToLower(key)
  {
    if pages == [] then None
    else if ToLower(PageName(pages[0])) == ToLower(key) then Some(pages[0])
    else FindPage(pages[1..], key)
  }

  /** `getCurrentPage`: the page whose name matches the segment ignoring
      letter case, and the leaderboard when none does. */
  function GetCurrentPage(url: string): (r: Page)
    ensures ToLower(PageName(r)) == ToLower(PageSegment(url))
         || (r == Leaderboard && forall p: Page :: ToLower(PageName(p)) != ToLower(PageSegment(url)))
  {
    AllPagesListed();
    match FindPage(AllPages, PageSegment(url))
    case Some(p) => p
    case None => Leaderboard
  }

  lemma AllPagesListed()
    ensures forall p: Page :: p in AllPages
  {
    forall p: Page ensures p in AllPages {
      match p
      case Leaderboard => assert AllPages[0] == p;
      case Players => assert AllPages[1] == p;
      case Admin => assert AllPages[2] == p;
      case Login => assert AllPages[3] == p;
    }
  }

  /** A page is shown for a path exactly when the segment names it. */
  lemma {:induction false} GetCurrentPageMatches(url: string, p: Page)
    requires ToLower(PageSegment(url)) == ToLower(PageName(p))
    ensures GetCurrentPage(url) == p
  {
    var q := GetCurrentPage(url);
    LowerNameIsLower(p);
    LowerNameIsLower(q);
    assert LowerName(q) == LowerName(p);
  }

  /** The site root and the empty path show the leaderboard. */
  lemma RootIsLeaderboard()
    ensures GetCurrentPage("/") == Leaderboard
    ensures GetCurrentPage("") == Leaderboard
  {
    assert PageSegment("/") == [];
    assert PageSegment("") == [];
  }

  /** Only one trailing `/` is dropped: a path ending in `//` has an empty
      last segment and shows the leaderboard. */
  lemma DoubleSlash(url: string)
    ensures GetCurrentPage(url + "//") == Leaderboard
  {
    var u := url + "//";
    assert u[..|u| - 1] == url + "/";
    assert PageSegment(u) == [];
  }

  /** A single trailing `/` does not change the page. */
  lemma TrailingSlash(url: string)
    requires !EndsWith(url, "/")
    ensures GetCurrentPage(url + "/") == GetCurrentPage(url)
  {
    var u := url + "/";
    assert u[..|u| - 1] == url;
  }
}
