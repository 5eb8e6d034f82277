/** The deck commands of the backend (src-tauri/src/decks.rs) that hold
    logic of their own: the cover-image precondition of `new_deck`, the
    parent filter of `get_decks` and the parent-chain walk of
    `get_deck_crumbs`. The deck table is a map from id to row. */
module Decks {
  import opened Wrappers
  import opened AppErrors
  import Strings
  import Image

  /** A row of the `deck` table, as far as these commands read it. */
  datatype DeckRow = DeckRow(
    parentId: Option<int>,
    name: string,
    color: string,
    coverImage: Option<string>,
    archived: bool)

  type Db = map<int, DeckRow>

  // ----- new_deck -----

  /** The `NewDeck` argument the frontend sends. */
  datatype NewDeck = NewDeck(
    parentId: Option<string>,
    name: string,
    description: Option<string>,
    color: string,
    coverImage: Option<seq<Image.Byte>>,
    coverImageType: Option<string>)

  /** The values `new_deck` binds to its INSERT statement (the two
      timestamps aside). */
  datatype DeckInsert = DeckInsert(
    parentId: Option<string>,
    name: string,
    description: Option<string>,
    color: string,
    coverImage: Option<string>)

  /** The outcome of `new_deck` up to the INSERT, with the file system
      after it. */
  datatype Created = Created(result: AppResult<DeckInsert>, files: Image.Files)

  const ImageTypeMissing: string := "Image type not provided"

  /** `new_deck` as far as the INSERT: image bytes without a type are
      refused before anything is stored; with no bytes there is no cover
      whatever the type says; otherwise the image is saved first and its
      failure, if any, is the command's. */
  function NewDeckInsert(deck: NewDeck, files: Image.Files, dataDir: string, uuid: string,
                         writeError: Option<string>): (c: Created)
    ensures deck.coverImage.Some? && deck.coverImageType.None? ==>
      c == Created(Err(Custom("Image type not provided")), files)
    ensures deck.coverImage.None? ==> c.files == files && c.result.Ok? && c.result.value.coverImage.None?
    ensures c.result.Err? ==> c.files == files
    ensures c.result.Ok? ==>
      var row := c.result.value;
      && row.parentId == deck.parentId && row.name == deck.name
      && row.description == deck.description && row.color == deck.color
      && (deck.coverImage.Some? <==> row.coverImage.Some?)
    ensures c.result.Ok? && deck.coverImage.Some? ==>
      && deck.coverImageType.Some?
      && Image.IsValidImageType(deck.coverImageType.value)
      && c.result.value.coverImage == Some(Image.ImagePath(dataDir, uuid, deck.coverImageType.value))
      && c.files == files[c.result.value.coverImage.value := deck.coverImage.value]
    ensures deck.coverImage.Some? && deck.coverImageType.Some? ==>
      var s := Image.SaveImage(files, dataDir, uuid, writeError, deck.coverImage.value, deck.coverImageType.value);
      && c.files == s.files
      && (c.result.Ok? <==> s.result.Ok?)
      && (s.result.Err? ==> c.result.error == s.result.error)
      && (s.result.Ok? ==> c.result.value.coverImage == Some(s.result.value))
  {
    match deck.coverImage
    case None =>
      Created(Ok(DeckInsert(deck.parentId, deck.name, deck.description, deck.color, None)), files)
    case Some(imageData) =>
      match deck.coverImageType
      case None => Created(New(ImageTypeMissing), files)
      case Some(imageType) =>
        var saved := Image.SaveImage(files, dataDir, uuid, writeError, imageData, imageType);
        match saved.result
        case Err(e) => Created(Err(e), files)
        case Ok(path) =>
          Created(Ok(DeckInsert(deck.parentId, deck.name, deck.description, deck.color, Some(path))), saved.files)
  }

  // ----- get_decks -----

  const DecksQueryBase: string := "SELECT id, name, color, cover_image FROM deck WHERE archived = 0"

  /** The parent condition appended to the listing query. */
  function IdFilter(id: Option<int>): string
  {
    match id
    case Some(i) => " AND parent_id = " + Strings.IntToString(i)
    case None => " AND parent_id IS NULL"
  }

  /** The listing query: always restricted to unarchived decks. */
  function DecksQuery(id: Option<int>): (q: string)
    ensures |q| > |DecksQueryBase| && q[..|DecksQueryBase|] == DecksQueryBase
  {
    DecksQueryBase + IdFilter(id)
  }

  /** Different arguments give different queries: the parent condition is
      read back from the text unambiguously. */
  lemma DecksQueryInjective(a: Option<int>, b: Option<int>)
    ensures DecksQuery(a) == DecksQuery(b) ==> a == b
  {
    if DecksQuery(a) == DecksQuery(b) {
      var n := |DecksQueryBase|;
      assert IdFilter(a) == DecksQuery(a)[n..] == DecksQuery(b)[n..] == IdFilter(b);
      var fa, fb := IdFilter(a), IdFilter(b);
      assert fa[15] == (if a.Some? then '=' else 'I');
      assert fb[15] == (if b.Some? then '=' else 'I');
      if a.Some? && b.Some? {
        assert fa[17..] == Strings.IntToString(a.value);
        assert fb[17..] == Strings.IntToString(b.value);
        Strings.IntToStringInjective(a.value, b.value);
      }
    }
  }

  /** What the WHERE clause keeps, read with SQL's rules: `archived = 0`,
      and `parent_id = i` is never true of a NULL parent, while
      `parent_id IS NULL` is true of exactly those. */
  predicate Selects(id: Option<int>, row: DeckRow)
  {
    && !row.archived
    && match id
       case Some(i) => row.parentId.Some? && row.parentId.value == i
       case None => row.parentId.None?
  }

  datatype DeckPreview = DeckPreview(id: int, name: string, color: string, coverImage: Option<string>)

  function Preview(id: int, row: DeckRow): DeckPreview
  {
    DeckPreview(id, row.name, row.color, row.coverImage)
  }

  /** `get_decks(id)`: the unarchived children of deck `id`, or the
      unarchived top-level decks when no id is given. */
  function GetDecks(db: Db, id: Option<int>): (r: set<DeckPreview>)
    ensures forall p :: p in r ==>
      p.id in db && p == Preview(p.id, db[p.id]) && !db[p.id].archived && db[p.id].parentId == id
    ensures forall k :: k in db && !db[k].archived && db[k].parentId == id ==> Preview(k, db[k]) in r
  {
    set k | k in db && Selects(id, db[k]) :: Preview(k, db[k])
  }

  // ----- get_deck_crumbs -----

  datatype Crumb = Crumb(id: int, name: string)

  /** The parent chain from `id` ends within `n` steps: at a deck with no
      parent, or at an id with no row. */
  ghost predicate EndsWithin(db: Db, id: int, n: nat)
    decreases n
  {
    || id !in db
    || db[id].parentId.None?
    || (n > 0 && EndsWithin(db, db[id].parentId.value, n - 1))
  }

  /** The parent chain from `id` is finite, i.e. runs into no cycle. */
  ghost predicate ChainEnds(db: Db, id: int)
  {
    exists n: nat :: EndsWithin(db, id, n)
  }

  /** `cs` walks from `id` up to a root: each crumb names a stored deck by
      its stored name, each is the parent of the one before, and the last
      has no parent. */
  ghost predicate IsRootChain(db: Db, id: int, cs: seq<Crumb>)
  {
    && |cs| > 0
    && cs[0].id == id
    && (forall i :: 0 <= i < |cs| ==> cs[i].id in db && cs[i].name == db[cs[i].id].name)
    && (forall i :: 0 <= i < |cs| - 1 ==> db[cs[i].id].parentId == Some(cs[i + 1].id))
    && db[cs[|cs| - 1].id].parentId.None?
  }

  /** `ids` follows the parent chain from `id` to an id that has no row. */
  ghost predicate IsBrokenChain(db: Db, id: int, ids: seq<int>)
  {
    && |ids| > 0
    && ids[0] == id
    && (forall i :: 0 <= i < |ids| - 1 ==> ids[i] in db && db[ids[i]].parentId == Some(ids[i + 1]))
    && ids[|ids| - 1] !in db
  }

  /** The crumbs collected so far walk from `id`, and `next` is the parent
      of the last of them (or `id` itself before the first). */
  ghost predicate IsWalkPrefix(db: Db, id: int, cs: seq<Crumb>, next: int)
  {
    && (|cs| == 0 ==> next == id)
    && (|cs| > 0 ==>
          && cs[0].id == id
          && (forall i :: 0 <= i < |cs| ==> cs[i].id in db && cs[i].name == db[cs[i].id].name)
          && (forall i :: 0 <= i < |cs| - 1 ==> db[cs[i].id].parentId == Some(cs[i + 1].id))
          && db[cs[|cs| - 1].id].parentId == Some(next))
  }

  function Ids(cs: seq<Crumb>): (ids: seq<int>)
    ensures |ids| == |cs| && forall i :: 0 <= i < |cs| ==> ids[i] == cs[i].id
  {
    seq(|cs|, i requires 0 <= i < |cs| => cs[i].id)
  }

  /** `get_deck_crumbs(id)`: from the requested deck up to its root, one
      crumb per deck; a missing row anywhere on the chain fails the whole
      call. */
  method GetDeckCrumbs(db: Db, id: int) returns (r: AppResult<seq<Crumb>>)
    requires ChainEnds(db, id)
    ensures r.Ok? ==> IsRootChain(db, id, r.value)
    ensures r.Err? ==> r.error == Sqlx(RowNotFound)
    ensures r.Err? <==> exists ids :: IsBrokenChain(db, id, ids)
  {
    ghost var fuel: nat :| EndsWithin(db, id, fuel);
    var currentId := id;
    var atRoot := false;
    var crumbs: seq<Crumb> := [];
    while !atRoot
      invariant atRoot ==> IsRootChain(db, id, crumbs)
      invariant !atRoot ==> EndsWithin(db, currentId, fuel) && IsWalkPrefix(db, id, crumbs, currentId)
      decreases if atRoot then 0 else fuel + 1
    {
      if currentId !in db {
        ghost var ids := Ids(crumbs) + [currentId];
        assert IsBrokenChain(db, id, ids);
        return Err(Sqlx(RowNotFound));
      }
      var deck := db[currentId];
      crumbs := crumbs + [Crumb(currentId, deck.name)];
      currentId := id;
      match deck.parentId {
        case Some(parentId) =>
          currentId := parentId;
          fuel := fuel - 1;
        case None =>
          atRoot := true;
      }
    }
    forall ids | IsBrokenChain(db, id, ids) ensures false {
      RootChainNotBroken(db, id, crumbs, ids);
    }
    return Ok(crumbs);
  }

  /** The chain from a deck is determined by the table: two root chains
      from one id are the same list. */
  lemma {:induction false} RootChainUnique(db: Db, id: int, a: seq<Crumb>, b: seq<Crumb>)
    requires IsRootChain(db, id, a) && IsRootChain(db, id, b)
    ensures a == b
    decreases |a|
  {
    RootChainSingle(db, id, a);
    RootChainSingle(db, id, b);
    if |a| > 1 {
      RootChainSuffix(db, id, a, 1);
      RootChainSuffix(db, id, b, 1);
      assert a[1].id == b[1].id;
      RootChainUnique(db, a[1].id, a[1..], b[1..]);
      assert a == [a[0]] + a[1..] && b == [b[0]] + b[1..];
    }
  }

  /** A root chain is a single crumb exactly when the deck is a root. */
  lemma RootChainSingle(db: Db, id: int, cs: seq<Crumb>)
    requires IsRootChain(db, id, cs)
    ensures |cs| == 1 <==> db[id].parentId.None?
    ensures |cs| > 1 ==> db[id].parentId == Some(cs[1].id)
  {
  }

  /** A chain cannot both reach a root and run into a missing row. */
  lemma {:induction false} RootChainNotBroken(db: Db, id: int, cs: seq<Crumb>, ids: seq<int>)
    requires IsRootChain(db, id, cs)
    ensures !IsBrokenChain(db, id, ids)
    decreases |cs|
  {
    if IsBrokenChain(db, id, ids) {
      assert |ids| > 1;
      assert db[id].parentId == Some(ids[1]);
      assert |cs| > 1;
      assert cs[1].id == ids[1];
      RootChainSuffix(db, id, cs, 1);
      assert IsBrokenChain(db, ids[1], ids[1..]);
      RootChainNotBroken(db, cs[1].id, cs[1..], ids[1..]);
    }
  }

  lemma RootChainSuffix(db: Db, id: int, cs: seq<Crumb>, k: nat)
    requires IsRootChain(db, id, cs) && k < |cs|
    ensures IsRootChain(db, cs[k].id, cs[k..])
  {
  }

  /** On a chain that reaches a root, no deck is visited twice. */
  lemma RootChainDistinct(db: Db, id: int, cs: seq<Crumb>)
    requires IsRootChain(db, id, cs)
    ensures forall i, j :: 0 <= i < j < |cs| ==> cs[i].id != cs[j].id
  {
    forall i, j | 0 <= i < j < |cs| ensures cs[i].id != cs[j].id {
      if cs[i].id == cs[j].id {
        RootChainSuffix(db, id, cs, i);
        RootChainSuffix(db, id, cs, j);
        RootChainUnique(db, cs[i].id, cs[i..], cs[j..]);
        assert false;
      }
    }
  }

  /** A chain that reaches a root meets the walk's precondition. */
  lemma {:induction false} RootChainEnds(db: Db, id: int, cs: seq<Crumb>)
    requires IsRootChain(db, id, cs)
    ensures EndsWithin(db, id, |cs| - 1)
    decreases |cs|
  {
    if |cs| > 1 {
      RootChainSuffix(db, id, cs, 1);
      RootChainEnds(db, cs[1].id, cs[1..]);
    }
  }

  /** A deck that is its own parent sends the walk round forever: the
      precondition excludes exactly such cycles. */
  lemma SelfParentNeverEnds(db: Db, id: int)
    requires id in db && db[id].parentId == Some(id)
    ensures !ChainEnds(db, id)
  {
    forall n: nat ensures !EndsWithin(db, id, n) {
      SelfParentNeverEndsWithin(db, id, n);
    }
  }

  lemma {:induction false} SelfParentNeverEndsWithin(db: Db, id: int, n: nat)
    requires id in db && db[id].parentId == Some(id)
    ensures !EndsWithin(db, id, n)
  {
    if n > 0 {
      SelfParentNeverEndsWithin(db, id, n - 1);
    }
  }
}
