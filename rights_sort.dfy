/** The reconciliation of a game's desired rights with its persisted rights
    (`SortGamesRightsAsync`), stated as functions over the stored games and the
    rights table. `AdminStore.SortGamesRights` in `RightsService` computes it
    with the source's loop. */
module RightsSort {
  import opened Wrappers
  import opened Text
  import opened Seqs
  import opened Domain
  import opened Comparers

  /** `SortedRights`: three optional lists, as the service fills them. */
  datatype SortedRights = SortedRights(
    rightsToCreate: Option<seq<Right>>,
    rightsToUpdate: Option<seq<Right>>,
    rightsToDelete: Option<seq<Right>>)

  /** The rights of `rights` whose name equals `name` ignoring case. */
  function Namesakes(rights: seq<Right>, name: string): (r: seq<Right>)
    ensures forall x :: x in r <==> x in rights && EqualsIgnoreCase(x.name, name)
  {
    Filter(rights, (x: Right) => EqualsIgnoreCase(x.name, name))
  }

  /** Where the loop of the sort puts one desired right. */
  datatype Placement = Create | Update | Unchanged | Ambiguous

  /** `SingleOrDefault` over the namesakes: none creates, more than one throws,
      and a single one updates unless the rights comparer calls them equal. */
  function PlacementOf(d: Right, gameRights: seq<Right>): Placement {
    var same := Namesakes(gameRights, d.name);
    if |same| == 0 then Create
    else if |same| > 1 then Ambiguous
    else if RightsEqual(Some(d), Some(same[0])) then Unchanged
    else Update
  }

  /** The desired rights with placement `p`, in input order. */
  function Placed(desired: seq<Right>, gameRights: seq<Right>, p: Placement): seq<Right> {
    Filter(desired, (d: Right) => PlacementOf(d, gameRights) == p)
  }

  /** Some desired right has the name of a right in `rights`, ignoring case. */
  predicate Desires(desired: seq<Right>, name: string) {
    exists d :: d in desired && EqualsIgnoreCase(d.name, name)
  }

  /** The persisted rights whose name no desired right has, in stored order. */
  function Unmatched(gameRights: seq<Right>, desired: seq<Right>): seq<Right> {
    Filter(gameRights, (r: Right) => !Desires(desired, r.name))
  }

  /** Some desired right has more than one persisted namesake. */
  predicate AnyAmbiguous(desired: seq<Right>, gameRights: seq<Right>) {
    exists d :: d in desired && PlacementOf(d, gameRights) == Ambiguous
  }

  /** The sort once the game's rights are known. */
  function Classify(gameRights: seq<Right>, desired: seq<Right>): Result<SortedRights, Failure> {
    if |gameRights| == 0 then Success(SortedRights(Some(desired), None, None))
    else if AnyAmbiguous(desired, gameRights) then Failure(AmbiguousMatch)
    else Success(SortedRights(
      Some(Placed(desired, gameRights, Create)),
      Some(Placed(desired, gameRights, Update)),
      Some(Unmatched(gameRights, desired))))
  }

  /** The game whose name equals `name` exactly (the store keeps game names unique). */
  function FindGame(games: seq<Game>, name: string): (r: Option<Game>)
    ensures r.Some? ==> r.value in games && r.value.name == name
    ensures r.None? <==> forall g :: g in games ==> g.name != name
  {
    if games == [] then None
    else if games[0].name == name then Some(games[0])
    else FindGame(games[1..], name)
  }

  /** The rows of the table owned by game `gameId`, in table order. */
  function RowsOf(table: seq<Right>, gameId: Guid): (r: seq<Right>)
    ensures forall x :: x in r <==> x in table && x.gameId == gameId
  {
    Filter(table, (x: Right) => x.gameId == gameId)
  }

  /** `GetAllAsync`: a blank game name is an invalid argument, an unknown game is
      not found, otherwise the game's rows. */
  function GamesRights(games: seq<Game>, table: seq<Right>, gameName: string): Result<seq<Right>, Failure> {
    if IsBlank(gameName) then Failure(InvalidArgument)
    else match FindGame(games, gameName)
      case None => Failure(NotFound)
      case Some(g) => Success(RowsOf(table, g.id))
  }

  /** `SortGamesRightsAsync`. */
  function SortedGamesRights(games: seq<Game>, table: seq<Right>, gameName: string, desired: seq<Right>): Result<SortedRights, Failure> {
    if IsBlank(gameName) then Failure(InvalidArgument)
    else if !AreValid(desired) then Failure(ValidationFailure)
    else match GamesRights(games, table, gameName)
      case Failure(e) => Failure(e)
      case Success(gameRights) => Classify(gameRights, desired)
  }

  // ---- properties of the sort ----

  /** The game rights are exactly the table rows of the named game; a blank name
      and an unknown game are the two errors. */
  lemma GamesRightsMeaning(games: seq<Game>, table: seq<Right>, gameName: string)
    ensures GamesRights(games, table, gameName).Success?
      <==> !IsBlank(gameName) && exists g :: g in games && g.name == gameName
    ensures GamesRights(games, table, gameName).Success? ==>
      forall x :: x in GamesRights(games, table, gameName).value
        <==> x in table && exists g :: g in games && g.name == gameName && g.id == x.gameId
    ensures GamesRights(games, table, gameName) == Failure(NotFound)
      <==> !IsBlank(gameName) && forall g :: g in games ==> g.name != gameName
    requires forall i, j :: 0 <= i < j < |games| ==> games[i].name != games[j].name
  {
    var r := FindGame(games, gameName);
    if r.Some? {
      forall g | g in games && g.name == gameName
        ensures g == r.value
      {
        var i :| 0 <= i < |games| && games[i] == g;
        var j :| 0 <= j < |games| && games[j] == r.value;
        assert !(i < j) && !(j < i);
      }
    }
  }

  /** The checks run in the order blank game name, invalid right, unknown game. */
  lemma SortErrorPrecedence(games: seq<Game>, table: seq<Right>, gameName: string, desired: seq<Right>)
    ensures IsBlank(gameName) ==> SortedGamesRights(games, table, gameName, desired) == Failure(InvalidArgument)
    ensures !IsBlank(gameName) && (exists d :: d in desired && !IsValid(d))
      ==> SortedGamesRights(games, table, gameName, desired) == Failure(ValidationFailure)
    ensures !IsBlank(gameName) && AreValid(desired) && FindGame(games, gameName).None?
      ==> SortedGamesRights(games, table, gameName, desired) == Failure(NotFound)
  {
  }

  /** A game without persisted rights creates exactly the input, in input order,
      and leaves the update and delete lists absent. */
  lemma SortFastPath(games: seq<Game>, table: seq<Right>, gameName: string, desired: seq<Right>, g: Game)
    requires !IsBlank(gameName) && AreValid(desired)
    requires FindGame(games, gameName) == Some(g)
    requires forall x :: x in table ==> x.gameId != g.id
    ensures SortedGamesRights(games, table, gameName, desired) == Success(SortedRights(Some(desired), None, None))
  {
  }

  /** Outside the fast path each desired right lands in the create list when no
      persisted right shares its name, in the update list when exactly one does
      and differs, and in neither when that one is equal; no right lands in both,
      and both lists keep input order. */
  lemma SortPartition(gameRights: seq<Right>, desired: seq<Right>, create: seq<Right>, update: seq<Right>, delete: seq<Right>)
    requires Classify(gameRights, desired) == Success(SortedRights(Some(create), Some(update), Some(delete)))
    requires |gameRights| > 0
    ensures forall d :: d in create <==> d in desired && |Namesakes(gameRights, d.name)| == 0
    ensures forall d :: d in update <==> (d in desired && |Namesakes(gameRights, d.name)| == 1
                                          && !RightsEqual(Some(d), Some(Namesakes(gameRights, d.name)[0])))
    ensures forall d :: (d in desired && d !in create && d !in update
                         ==> |Namesakes(gameRights, d.name)| == 1 && RightsEqual(Some(d), Some(Namesakes(gameRights, d.name)[0])))
    ensures forall d :: d in create ==> d !in update
    ensures IsSubsequence(create, desired) && IsSubsequence(update, desired)
  {
    forall d | d in desired
      ensures PlacementOf(d, gameRights) != Ambiguous
    {
    }
    FilterIsSubsequence(desired, (d: Right) => PlacementOf(d, gameRights) == Create);
    FilterIsSubsequence(desired, (d: Right) => PlacementOf(d, gameRights) == Update);
  }

  /** The delete list is exactly the persisted rights whose name no desired right
      has ignoring case, in stored order; so no name is both deleted and created
      or updated. */
  lemma SortDeleteList(gameRights: seq<Right>, desired: seq<Right>, create: seq<Right>, update: seq<Right>, delete: seq<Right>)
    requires Classify(gameRights, desired) == Success(SortedRights(Some(create), Some(update), Some(delete)))
    requires |gameRights| > 0
    ensures forall r :: r in delete <==> r in gameRights && forall d :: d in desired ==> !EqualsIgnoreCase(d.name, r.name)
    ensures IsSubsequence(delete, gameRights)
    ensures forall r, d :: r in delete && (d in create || d in update) ==> !EqualsIgnoreCase(r.name, d.name)
  {
    FilterIsSubsequence(gameRights, (r: Right) => !Desires(desired, r.name));
    forall r, d | r in delete && (d in create || d in update)
      ensures !EqualsIgnoreCase(r.name, d.name)
    {
      assert d in desired;
    }
  }

  /** Every persisted right of the game either is deleted or shares its name with
      a desired right; every desired right either is created or has a persisted
      namesake. */
  lemma SortCoversBothSides(gameRights: seq<Right>, desired: seq<Right>, create: seq<Right>, update: seq<Right>, delete: seq<Right>)
    requires Classify(gameRights, desired) == Success(SortedRights(Some(create), Some(update), Some(delete)))
    requires |gameRights| > 0
    ensures forall r :: r in gameRights && r !in delete ==> exists d :: d in desired && EqualsIgnoreCase(d.name, r.name)
    ensures forall d :: d in desired && d !in create ==> exists r :: r in gameRights && r !in delete && EqualsIgnoreCase(r.name, d.name)
  {
    forall d | d in desired && d !in create
      ensures exists r :: r in gameRights && r !in delete && EqualsIgnoreCase(r.name, d.name)
    {
      var same := Namesakes(gameRights, d.name);
      assert same[0] in same;
      EqualsIgnoreCaseIsEquivalence(same[0].name, d.name, d.name);
      assert Desires(desired, same[0].name);
    }
  }

  /** Two persisted rights of the game whose names differ only in case make the
      sort fail for a desired right of that name (`SingleOrDefault` finds two). */
  lemma SortAmbiguousWhenStoredNamesDifferInCase(a: Right, b: Right, d: Right)
    requires a.name == "r" && b.name == "R" && d.name == "r"
    ensures Classify([a, b], [d]) == Failure(AmbiguousMatch)
  {
    var same := Namesakes([a, b], d.name);
    assert Fold("R") == "R" == Fold("r");
    assert a in same && b in same && a != b;
    assert [a, b][..1] == [a];
    assert |same| == 2;
    assert PlacementOf(d, [a, b]) == Ambiguous;
  }
}
