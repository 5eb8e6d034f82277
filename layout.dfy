/** The breadcrumb bar of the deck pages (src/app/decks/layout.tsx): which
    query parameter names the deck, the request for its crumbs, the reversal
    that puts the root first, and the label that ends the bar on the two
    creation pages. The reply of the backend is a parameter. */
module DeckLayout {
  import opened Wrappers
  import opened AppErrors
  import Strings
  import Decks

  const NewDeckPath: string := "/decks/new"
  const NewQuestionPath: string := "/decks/questions/new"

  /** The three query parameters the layout reads; `None` is a missing one
      (`params.get` gives null). */
  datatype Params = Params(id: Option<string>, parentId: Option<string>, deckId: Option<string>)

  /** The `switch (pathname)` choosing the parameter that names the deck. */
  function CrumbId(pathname: string, params: Params): Option<string>
  {
    if pathname == NewDeckPath then params.parentId
    else if pathname == NewQuestionPath then params.deckId
    else params.id
  }

  /** The creation pages take the deck from their own parameter, every
      other page from `id`, and a parameter the page does not select has no
      influence on the crumbs. */
  lemma CrumbIdSelection(pathname: string, params: Params, other: Params)
    ensures pathname == NewDeckPath ==> CrumbId(pathname, params) == params.parentId
    ensures pathname == NewQuestionPath ==> CrumbId(pathname, params) == params.deckId
    ensures pathname != NewDeckPath && pathname != NewQuestionPath ==> CrumbId(pathname, params) == params.id
    ensures (pathname == NewDeckPath ==> other.parentId == params.parentId)
      && (pathname == NewQuestionPath ==> other.deckId == params.deckId)
      && (pathname != NewDeckPath && pathname != NewQuestionPath ==> other.id == params.id)
      ==> CrumbId(pathname, other) == CrumbId(pathname, params)
  {
    assert NewDeckPath != NewQuestionPath by { assert |NewDeckPath| != |NewQuestionPath|; }
  }

  /** What the effect asks for: an empty crumb list, or the crumbs of the
      id `parseInt` read (`None` when it read NaN). */
  datatype CrumbRequest = ClearCrumbs | FetchCrumbs(deck: Option<int>)

  function CrumbEffect(pathname: string, params: Params): (r: CrumbRequest)
    ensures r.ClearCrumbs? <==> !Truthy(CrumbId(pathname, params))
    ensures CrumbId(pathname, params) == None || CrumbId(pathname, params) == Some("") ==> r == ClearCrumbs
    ensures r.FetchCrumbs? ==> r.deck == Strings.ParseInt(CrumbId(pathname, params).value)
  {
    var crumbId := CrumbId(pathname, params);
    if Truthy(crumbId) then FetchCrumbs(Strings.ParseInt(crumbId.value)) else ClearCrumbs
  }

  /** The pages link to a deck as `/decks?id=${id}`, the id rendered in
      decimal: the crumbs requested are then those of that very deck. */
  lemma CrumbEffectOfRenderedId(pathname: string, params: Params, n: int)
    requires CrumbId(pathname, params) == Some(Strings.IntToString(n))
    ensures CrumbEffect(pathname, params) == FetchCrumbs(Some(n))
  {
    Strings.ParseIntOfIntToString(n);
  }

  /** The backend takes the id as an `i32`; any other number fails to
      deserialise and the call is rejected. */
  predicate IsI32(n: int)
  {
    -0x8000_0000 <= n < 0x8000_0000
  }

  /** `data.reverse()`. */
  function Reversed<T>(s: seq<T>): (r: seq<T>)
    ensures |r| == |s|
    ensures forall i :: 0 <= i < |s| ==> r[i] == s[|s| - 1 - i]
  {
    if |s| == 0 then [] else Reversed(s[1..]) + [s[0]]
  }

  lemma ReversedTwice<T>(s: seq<T>)
    ensures Reversed(Reversed(s)) == s
  {
  }

  /** The crumbs shown once the request settles: none after a clear, the
      reply reversed after a successful fetch, and the previous list when
      the call is rejected (the error only goes to the console). */
  function SettleCrumbs(current: seq<Decks.Crumb>, request: CrumbRequest,
                        reply: AppResult<seq<Decks.Crumb>>): seq<Decks.Crumb>
  {
    match request
    case ClearCrumbs => []
    case FetchCrumbs(deck) =>
      if deck.None? || !IsI32(deck.value) then current
      else
        match reply
        case Ok(cs) => Reversed(cs)
        case Err(_) => current
  }

  /** The crumb list after a navigation, in terms of what the page is and
      what the backend replied: empty when no deck is named, the reply root
      first when it succeeds, and otherwise unchanged. */
  lemma SettleCrumbsCases(current: seq<Decks.Crumb>, pathname: string, params: Params,
                          reply: AppResult<seq<Decks.Crumb>>)
    ensures var request := CrumbEffect(pathname, params);
      var shown := SettleCrumbs(current, request, reply);
      && (!Truthy(CrumbId(pathname, params)) ==> shown == [])
      && (request.FetchCrumbs? && request.deck.Some? && IsI32(request.deck.value) && reply.Ok? ==>
            |shown| == |reply.value|
            && forall i :: 0 <= i < |shown| ==> shown[i] == reply.value[|shown| - 1 - i])
      && (reply.Err? && request.FetchCrumbs? ==> shown == current)
  {
  }

  /** Backend and frontend together: when the backend walks from deck `n`
      to its root, the bar shows the root first, the requested deck last,
      and each deck right after its parent. */
  lemma ShownCrumbsRootFirst(db: Decks.Db, n: int, cs: seq<Decks.Crumb>)
    requires Decks.IsRootChain(db, n, cs)
    ensures var shown := Reversed(cs);
      && |shown| == |cs| > 0
      && shown[0].id in db && db[shown[0].id].parentId.None?
      && shown[|shown| - 1].id == n
      && (forall i :: 0 <= i < |shown| ==> shown[i].id in db && shown[i].name == db[shown[i].id].name)
      && (forall i :: 0 <= i < |shown| - 1 ==> db[shown[i + 1].id].parentId == Some(shown[i].id))
  {
    var shown := Reversed(cs);
    var k := |cs|;
    forall i | 0 <= i < k - 1
      ensures db[shown[i + 1].id].parentId == Some(shown[i].id)
    {
      assert shown[i + 1] == cs[k - 2 - i] && shown[i] == cs[k - 1 - i];
    }
  }

  /** A navigation to a page naming deck `n` in decimal, answered by the
      backend's walk from `n`, leaves the bar showing that walk root first
      and deck `n` last, whatever it showed before. */
  lemma NavigateShowsChain(current: seq<Decks.Crumb>, pathname: string, params: Params,
                           db: Decks.Db, n: int, cs: seq<Decks.Crumb>)
    requires CrumbId(pathname, params) == Some(Strings.IntToString(n))
    requires IsI32(n)
    requires Decks.IsRootChain(db, n, cs)
    ensures var shown := SettleCrumbs(current, CrumbEffect(pathname, params), Ok(cs));
      && shown == Reversed(cs)
      && |shown| > 0 && shown[|shown| - 1].id == n
      && shown[0].id in db && db[shown[0].id].parentId.None?
  {
    CrumbEffectOfRenderedId(pathname, params, n);
    ShownCrumbsRootFirst(db, n, cs);
  }

  /** The extra label that ends the bar. */
  function TrailingLabel(pathname: string): Option<string>
  {
    if pathname == NewDeckPath then Some("New Deck")
    else if pathname == NewQuestionPath then Some("New Question")
    else None
  }

  /** Each label appears on its own page and nowhere else. */
  lemma TrailingLabelOnItsPage(pathname: string)
    ensures TrailingLabel(pathname) == Some("New Deck") <==> pathname == NewDeckPath
    ensures TrailingLabel(pathname) == Some("New Question") <==> pathname == NewQuestionPath
    ensures TrailingLabel(pathname).None? <==> pathname != NewDeckPath && pathname != NewQuestionPath
  {
    assert NewDeckPath != NewQuestionPath by { assert |NewDeckPath| != |NewQuestionPath|; }
  }
}
