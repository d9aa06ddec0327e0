/** The path a page name links to, and its agreement with page selection. */
module PageUrls {
  import opened Text
  import opened Pages

  /** `createPageUrl`: the leaderboard (any letter case, surrounding white
      space ignored) and a blank name link to the root; any other name is
      appended to `/` exactly as given. */
  function CreatePageUrl(name: string): (r: string)
    ensures |r| >= 1 && r[0] == '/'
    ensures r == "/" <==> ToLower(Trim(name)) == "leaderboard" || Trim(name) == ""
    ensures r != "/" ==> r == "/" + name
  {
    var clean := ToLower(Trim(name));
    if clean == "leaderboard" || clean == "" then "/" else "/" + name
  }

  /** A name without `/` or `?` is its own page segment. */
  lemma PlainSegment(name: string)
    requires '/' !in name && '?' !in name
    ensures PageSegment(name) == name
  {
    if |name| >= 1 {
      var c := name[|name| - 1];
      assert c != '/';
      assert name[|name| - 1..] == [c];
    }
    var last := LastSegment(name, '/');
    assert |last| == |name|;
    ContainsChar(name, '?');
  }

  /** Linking to a name and reading the page back gives what the name
      itself selects, for every name without `/` or `?`. */
  lemma UrlRoundTrip(name: string)
    requires '/' !in name && '?' !in name
    ensures GetCurrentPage(CreatePageUrl(name)) == GetCurrentPage(name)
  {
    PlainSegment(name);
    if CreatePageUrl(name) == "/" {
      RootRoundTrip(name);
    } else {
      SlashRoundTrip(name);
    }
  }

  lemma RootRoundTrip(name: string)
    requires PageSegment(name) == name && CreatePageUrl(name) == "/"
    ensures GetCurrentPage(CreatePageUrl(name)) == GetCurrentPage(name)
  {
    RootIsLeaderboard();
    RootNameIsLeaderboard(name);
  }

  lemma SlashRoundTrip(name: string)
    requires '/' !in name && '?' !in name && CreatePageUrl(name) != "/"
    ensures GetCurrentPage(CreatePageUrl(name)) == GetCurrentPage(name)
  {
    TrimEmptyIffBlank(name);
    PlainSegment(name);
    SlashSegment(name);
    SameSegmentSamePage("/" + name, name);
  }

  /** The page depends on the url only through its page segment. */
  lemma SameSegmentSamePage(a: string, b: string)
    requires PageSegment(a) == PageSegment(b)
    ensures GetCurrentPage(a) == GetCurrentPage(b)
  {
  }

  /** A name that links to the root selects the leaderboard by itself too. */
  lemma RootNameIsLeaderboard(name: string)
    requires PageSegment(name) == name
    requires ToLower(Trim(name)) == "leaderboard" || Trim(name) == ""
    ensures GetCurrentPage(name) == Leaderboard
  {
    var q := GetCurrentPage(name);
    if q != Leaderboard {
      LowerNameIsLower(q);
      TrimLower(name);
      TrimLowerName(q);
      assert false;
    }
  }

  /** `"/" + name` has `name` as its page segment. */
  lemma SlashSegment(name: string)
    requires '/' !in name && '?' !in name && name != ""
    ensures PageSegment("/" + name) == name
  {
    var url := "/" + name;
    var c := url[|url| - 1];
    assert c == name[|name| - 1] && c != '/';
    assert url[|url| - 1..] == [c];
    var last := LastSegment(url, '/');
    assert last == url[1..] == name;
    ContainsChar(name, '?');
  }

  lemma TrimLowerName(p: Page)
    ensures Trim(LowerName(p)) == LowerName(p)
  {
    var s := LowerName(p);
    assert forall i :: 0 <= i < |s| ==> 'a' <= s[i] <= 'z';
    TrimNoSpace(s);
  }

  /** Each page's link leads back to that page. */
  lemma PageRoundTrip(p: Page)
    ensures GetCurrentPage(CreatePageUrl(PageName(p))) == p
  {
    var name := PageName(p);
    assert '/' !in name && '?' !in name;
    UrlRoundTrip(name);
    PlainSegment(name);
    GetCurrentPageMatches(name, p);
  }
}
