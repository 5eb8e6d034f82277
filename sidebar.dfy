/** The sidebar of the main layout (src/components/layout/Sidebar.tsx): a
    fixed table of links, and a button that is highlighted when the first
    segment of the current path is its link. */
module Sidebar {
  import opened Wrappers
  import Strings

  datatype SidebarLink = SidebarLink(title: string, href: string)

  /** The `links` table, in display order. */
  const Links: seq<SidebarLink> := [
    SidebarLink("Dashboard", "/"),
    SidebarLink("Decks", "/decks"),
    SidebarLink("Study", "/study"),
    SidebarLink("Community", "/community"),
    SidebarLink("Analysis", "/analysis")
  ]

  /** `"/" + pathname.split("/")[1]`. Indexing past the end of the pieces
      gives `undefined`, which the concatenation spells out. */
  function BaseUrl(pathname: string): (u: string)
    ensures |u| >= 1 && u[0] == '/' && '/' !in u[1..]
  {
    var pieces := Strings.Split(pathname, '/');
    var segment := if |pieces| > 1 then pieces[1] else "undefined";
    assert ("/" + segment)[1..] == segment;
    "/" + segment
  }

  /** For an absolute path, the base URL is "/" and the first segment:
      everything up to the next "/" or the end. */
  lemma BaseUrlIsFirstSegment(segment: string, rest: string)
    requires '/' !in segment
    requires |rest| == 0 || rest[0] == '/'
    ensures BaseUrl("/" + segment + rest) == "/" + segment
  {
    var p := "/" + segment + rest;
    assert p[1..] == segment + rest;
    Strings.SplitFirstPiece(segment, rest, '/');
    assert Strings.Split(p, '/') == [""] + Strings.Split(p[1..], '/');
  }

  lemma BaseUrlExamples()
    ensures BaseUrl("/decks/new") == "/decks"
    ensures BaseUrl("/decks") == "/decks"
    ensures BaseUrl("/") == "/"
  {
    BaseUrlIsFirstSegment("decks", "/new");
    assert "/" + "decks" + "/new" == "/decks/new";
    BaseUrlIsFirstSegment("decks", "");
    assert "/" + "decks" + "" == "/decks";
    BaseUrlIsFirstSegment("", "");
    assert "/" + "" + "" == "/";
  }

  /** `baseUrl == href`: the button's highlight. */
  predicate IsActive(pathname: string, href: Option<string>)
  {
    href == Some(BaseUrl(pathname))
  }

  /** No two links share an href. */
  lemma LinksDistinct()
    ensures forall i, j :: 0 <= i < j < |Links| ==> Links[i].href != Links[j].href
  {
    assert Links[0].href[1..] == "";
    assert Links[1].href[1] == 'd' && Links[2].href[1] == 's';
    assert Links[3].href[1] == 'c' && Links[4].href[1] == 'a';
  }

  /** Whatever the path, at most one sidebar link is highlighted. */
  lemma AtMostOneActive(pathname: string, i: nat, j: nat)
    requires i < |Links| && j < |Links|
    requires IsActive(pathname, Some(Links[i].href)) && IsActive(pathname, Some(Links[j].href))
    ensures i == j
  {
    LinksDistinct();
  }

  /** Every page under "/decks" highlights the Decks link and no other. */
  lemma DecksPagesHighlightDecks(rest: string, k: nat)
    requires |rest| == 0 || rest[0] == '/'
    requires k < |Links|
    ensures IsActive("/decks" + rest, Some(Links[k].href)) <==> k == 1
  {
    BaseUrlIsFirstSegment("decks", rest);
    assert "/" + "decks" + rest == "/decks" + rest;
    var url := BaseUrl("/decks" + rest);
    assert url == "/decks";
    assert Links[1].href == "/decks";
    LinksDistinct();
    if k != 1 {
      assert Links[k].href != Links[1].href by {
        if k < 1 { assert Links[k].href != Links[1].href; } else { assert Links[1].href != Links[k].href; }
      }
    }
  }

  /** `href ? <Link href={href}>{btn}</Link> : btn`: a button is wrapped
      exactly when its href is truthy, which every link of the table is. */
  lemma TableLinksAreWrapped(k: nat)
    requires k < |Links|
    ensures Truthy(Some(Links[k].href))
  {
  }
}
