/** The rights service over an in-memory store: the rights table with its
    operations (`GetAsync`, `GetAllAsync`, `TryDeleteRangeAsync`,
    `AddRangeAsync`, `UpdateRangeAsync`, `SortGamesRightsAsync`,
    `RegisterAsync`) and the two game operations the register flow uses
    (`GamesService.AddAsync`, `GamesService.UpdateAsync`). Each operation is
    specified by a function from the old store to an outcome and a new table;
    the methods of `AdminStore` implement them with the source's steps. */
module RightsService {
  import opened Wrappers
  import opened Text
  import opened Seqs
  import opened Domain
  import opened Comparers
  import opened RightsSort

  // ---- the store's integrity rules ----

  /** Right names are unique across the whole table (the unique index on `Name`). */
  predicate UniqueNames(rights: seq<Right>) {
    forall i, j :: 0 <= i < j < |rights| ==> rights[i].name != rights[j].name
  }

  /** Game names and game ids are unique (the unique index on `Name`, the key). */
  predicate UniqueGames(games: seq<Game>) {
    forall i, j :: 0 <= i < j < |games| ==> games[i].name != games[j].name && games[i].id != games[j].id
  }

  /** Some stored game has id `id`. */
  predicate KnownGame(games: seq<Game>, id: Guid) {
    exists g :: g in games && g.id == id
  }

  /** Every right refers to a stored game (the foreign key on `GameId`). */
  predicate ForeignKeysHold(games: seq<Game>, rights: seq<Right>) {
    forall r :: r in rights ==> KnownGame(games, r.gameId)
  }

  // ---- lookups ----

  /** The names of a list of rights, in order (`Select(right => right.Name)`). */
  function Names(rights: seq<Right>): (r: seq<string>)
    ensures |r| == |rights|
    ensures forall n :: n in r <==> exists x :: x in rights && x.name == n
  {
    var r := seq(|rights|, k requires 0 <= k < |rights| => rights[k].name);
    assert forall x :: x in rights ==> x.name in r by {
      forall x | x in rights
        ensures x.name in r
      {
        var k :| 0 <= k < |rights| && rights[k] == x;
        assert r[k] == x.name;
      }
    }
    r
  }

  /** The rows whose name is exactly one of `names`, in table order. */
  function RowsNamed(table: seq<Right>, names: seq<string>): (r: seq<Right>)
    ensures forall x :: x in r <==> x in table && x.name in names
  {
    Filter(table, (x: Right) => x.name in names)
  }

  /** The rows whose name is none of `names`, in table order. */
  function RowsNotNamed(table: seq<Right>, names: seq<string>): (r: seq<Right>)
    ensures forall x :: x in r <==> x in table && x.name !in names
  {
    Filter(table, (x: Right) => x.name !in names)
  }

  /** `GetAsync(params string[] rightsNames)`: no names is an invalid argument; no
      row with an exactly matching name, in any game, is absent. */
  function RightsNamed(table: seq<Right>, names: seq<string>): Result<Option<seq<Right>>, Failure> {
    if |names| == 0 then Failure(InvalidArgument)
    else
      var found := RowsNamed(table, names);
      if |found| == 0 then Success(None) else Success(Some(found))
  }

  /** An outcome together with the rights table it leaves behind. */
  datatype Applied<T> = Applied(result: Result<T, Failure>, table: seq<Right>)

  // ---- the three phases ----

  /** `TryDeleteRangeAsync`: removes every row whose name is exactly one of the
      names to delete, and reports whether any name resolved. */
  function TryDeleteSpec(table: seq<Right>, toDelete: seq<Right>): Applied<bool> {
    var names := Names(toDelete);
    match RightsNamed(table, names)
    case Failure(e) => Applied(Failure(e), table)
    case Success(None) => Applied(Success(false), table)
    case Success(Some(_)) => Applied(Success(true), RowsNotNamed(table, names))
  }

  /** `AddRangeAsync`: invalid rights are rejected before the insert; an insert
      that breaks a unique name or a foreign key fails as a whole. */
  function AddSpec(games: seq<Game>, table: seq<Right>, toAdd: seq<Right>): Applied<()> {
    if !AreValid(toAdd) then Applied(Failure(ValidationFailure), table)
    else if !UniqueNames(table + toAdd) || !ForeignKeysHold(games, table + toAdd) then Applied(Failure(CreateFailure), table)
    else Applied(Success(()), table + toAdd)
  }

  /** `source.Adapt(target)` for rights: every field is copied, except that the
      target keeps its Id when the source's is empty and keeps its `Game` when the
      source's is absent. */
  function Adapt(source: Right, target: Right): Right {
    Right(
      if source.id == EmptyGuid then target.id else source.id,
      source.name, source.description, source.gameId,
      if source.game.None? then target.game else source.game)
  }

  /** One row after the loop of `UpdateRangeAsync`: a row found by exact name
      takes the fields of the single incoming right with its name ignoring case. */
  function UpdatedRow(row: Right, incoming: seq<Right>): Right {
    var same := Namesakes(incoming, row.name);
    if row.name in Names(incoming) && |same| == 1 then Adapt(same[0], row) else row
  }

  /** The table after that loop. */
  function UpdatedTable(table: seq<Right>, incoming: seq<Right>): seq<Right> {
    seq(|table|, k requires 0 <= k < |table| => UpdatedRow(table[k], incoming))
  }

  /** Every row found by exact name has exactly one incoming namesake, as
      `Single` demands. */
  predicate SingleNamesakes(table: seq<Right>, incoming: seq<Right>) {
    forall row :: row in table && row.name in Names(incoming) ==> |Namesakes(incoming, row.name)| == 1
  }

  /** `UpdateRangeAsync`. */
  function UpdateSpec(games: seq<Game>, table: seq<Right>, incoming: seq<Right>): Applied<()> {
    if !AreValid(incoming) then Applied(Failure(ValidationFailure), table)
    else match RightsNamed(table, Names(incoming))
      case Failure(e) => Applied(Failure(e), table)
      case Success(None) => Applied(Failure(NotFound), table)
      case Success(Some(_)) =>
        if !SingleNamesakes(table, incoming) then Applied(Failure(AmbiguousMatch), table)
        else
          var updated := UpdatedTable(table, incoming);
          if !ForeignKeysHold(games, updated) then Applied(Failure(UpdateFailure), table)
          else Applied(Success(()), updated)
  }

  /** A list of the sort result that is present and not empty. */
  predicate NonEmpty(list: Option<seq<Right>>) {
    list.Some? && |list.value| > 0
  }

  function DeletePhase(table: seq<Right>, sorted: SortedRights): Applied<()> {
    if !NonEmpty(sorted.rightsToDelete) then Applied(Success(()), table)
    else
      var deleted := TryDeleteSpec(table, sorted.rightsToDelete.value);
      match deleted.result
      case Failure(e) => Applied(Failure(e), deleted.table)
      case Success(_) => Applied(Success(()), deleted.table)
  }

  function CreatePhase(games: seq<Game>, table: seq<Right>, sorted: SortedRights): Applied<()> {
    if !NonEmpty(sorted.rightsToCreate) then Applied(Success(()), table)
    else AddSpec(games, table, sorted.rightsToCreate.value)
  }

  function UpdatePhase(games: seq<Game>, table: seq<Right>, sorted: SortedRights): Applied<()> {
    if !NonEmpty(sorted.rightsToUpdate) then Applied(Success(()), table)
    else UpdateSpec(games, table, sorted.rightsToUpdate.value)
  }

  /** Delete, then create, then update; the first failure stops the sequence and
      the phases before it stay applied. */
  function ApplyPhases(games: seq<Game>, table: seq<Right>, sorted: SortedRights): Applied<()> {
    var deleted := DeletePhase(table, sorted);
    if deleted.result.Failure? then deleted
    else
      var created := CreatePhase(games, deleted.table, sorted);
      if created.result.Failure? then created
      else UpdatePhase(games, created.table, sorted)
  }

  /** `RegisterAsync`: `Last()` fails on an empty list, then validation, then the
      sort, all before any change; then the phases. */
  function RegisterSpec(games: seq<Game>, table: seq<Right>, gameName: string, rightsToRegister: seq<Right>): Applied<()> {
    if |rightsToRegister| == 0 then Applied(Failure(NoElements), table)
    else if !AreValid(rightsToRegister) then Applied(Failure(ValidationFailure), table)
    else match SortedGamesRights(games, table, gameName, rightsToRegister)
      case Failure(e) => Applied(Failure(e), table)
      case Success(sorted) => ApplyPhases(games, table, sorted)
  }

  // ---- the game operations used by the register flow ----

  /** A game operation's outcome together with the games it leaves behind. */
  datatype GamesApplied = GamesApplied(result: Result<Game, Failure>, games: seq<Game>)

  /** The position of the game with id `id`. */
  function IndexOfGame(games: seq<Game>, id: Guid): (r: Option<nat>)
    ensures r.Some? ==> r.value < |games| && games[r.value].id == id
    ensures r.None? <==> forall g :: g in games ==> g.id != id
  {
    if games == [] then None
    else if games[0].id == id then Some(0)
    else match IndexOfGame(games[1..], id)
      case None => None
      case Some(i) => Some(i + 1)
  }

  /** `GamesService.AddAsync`: an invalid game is rejected; the key is generated
      (`newId`) when the game's Id is empty; a duplicate name or id fails the insert. */
  function AddGameSpec(games: seq<Game>, game: Game, newId: Guid): GamesApplied {
    if !GameIsValid(game) then GamesApplied(Failure(ValidationFailure), games)
    else
      var created := game.(id := if game.id == EmptyGuid then newId else game.id);
      if !UniqueGames(games + [created]) then GamesApplied(Failure(CreateFailure), games)
      else GamesApplied(Success(created), games + [created])
  }

  /** `GamesService.UpdateAsync`: an invalid game is rejected, an unknown id is not
      found; otherwise the stored game takes the new name and description (and the
      new Id when it is not empty), unless that breaks a unique index or a right's
      foreign key. */
  function UpdateGameSpec(games: seq<Game>, table: seq<Right>, id: Guid, updated: Game): GamesApplied {
    if !GameIsValid(updated) then GamesApplied(Failure(ValidationFailure), games)
    else match IndexOfGame(games, id)
      case None => GamesApplied(Failure(NotFound), games)
      case Some(i) =>
        var adapted := Game(if updated.id == EmptyGuid then games[i].id else updated.id, updated.name, updated.description);
        var after := games[i := adapted];
        if !UniqueGames(after) || !ForeignKeysHold(after, table) then GamesApplied(Failure(UpdateFailure), games)
        else GamesApplied(Success(adapted), after)
  }

  /** The `foreach` of `UpdateRangeAsync` over the rows found by exact name: each
      takes the fields of its single incoming namesake, and `Single` throws
      (absent result) as soon as one row has several. */
  method AdaptFoundRows(table: seq<Right>, incoming: seq<Right>, names: seq<string>) returns (r: Option<seq<Right>>)
    requires names == Names(incoming)
    ensures r.None? <==> !SingleNamesakes(table, incoming)
    ensures r.Some? ==> r.value == UpdatedTable(table, incoming)
  {
    var updated: seq<Right> := [];
    for i := 0 to |table|
      invariant updated == UpdatedTable(table[..i], incoming)
      invariant forall k :: 0 <= k < i && table[k].name in names ==> |Namesakes(incoming, table[k].name)| == 1
    {
      var rightModel := table[i];
      var adapted := rightModel;
      if rightModel.name in names {
        var same := Namesakes(incoming, rightModel.name);
        if |same| != 1 {
          NotSingleNamesake(table, incoming, i);
          return None;
        }
        adapted := Adapt(same[0], rightModel);
      }
      assert adapted == UpdatedRow(rightModel, incoming);
      UpdatedTableStep(table, incoming, i);
      updated := updated + [adapted];
    }
    AllSingleNamesakes(table, incoming);
    assert table[..|table|] == table;
    return Some(updated);
  }

  /** The sorting loop of `SortGamesRightsAsync` once the game's rights are
      known: each desired right goes to the create or update list by its
      namesakes, the first one with several namesakes fails the sort, and the
      game's rights that no desired right names are deleted. */
  method ClassifyRights(gameRights: seq<Right>, rightsToSort: seq<Right>) returns (r: Result<SortedRights, Failure>)
    ensures r == Classify(gameRights, rightsToSort)
  {
    if |gameRights| == 0 {
      return Success(SortedRights(Some(rightsToSort), None, None));
    }
    var create: seq<Right> := [];
    var update: seq<Right> := [];
    for i := 0 to |rightsToSort|
      invariant create == Placed(rightsToSort[..i], gameRights, Create)
      invariant update == Placed(rightsToSort[..i], gameRights, Update)
      invariant !AnyAmbiguous(rightsToSort[..i], gameRights)
    {
      var rightToSort := rightsToSort[i];
      PlacedStep(rightsToSort, i, gameRights);
      var same := Namesakes(gameRights, rightToSort.name);
      if |same| > 1 {
        assert PlacementOf(rightToSort, gameRights) == Ambiguous;
        assert rightToSort in rightsToSort;
        return Failure(AmbiguousMatch);
      }
      if |same| == 0 {
        create := create + [rightToSort];
      } else if !RightsEqual(Some(rightToSort), Some(same[0])) {
        update := update + [rightToSort];
      }
    }
    assert rightsToSort[..|rightsToSort|] == rightsToSort;
    var delete := Unmatched(gameRights, rightsToSort);
    return Success(SortedRights(Some(create), Some(update), Some(delete)));
  }

  // ---- the store ----

  /** The games and rights tables of the database context. */
  class AdminStore {
    var games: seq<Game>
    var rights: seq<Right>

    ghost predicate Valid()
      reads this
    {
      UniqueGames(games) && UniqueNames(rights) && ForeignKeysHold(games, rights)
    }

    constructor (games: seq<Game>, rights: seq<Right>)
      requires UniqueGames(games) && UniqueNames(rights) && ForeignKeysHold(games, rights)
      ensures Valid() && this.games == games && this.rights == rights
    {
      this.games := games;
      this.rights := rights;
    }

    /** `GetAllAsync`. */
    method GetAll(gameName: string) returns (r: Result<seq<Right>, Failure>)
      ensures r == GamesRights(games, rights, gameName)
      ensures r.Success? ==> forall x :: x in r.value ==> x in rights && KnownGame(games, x.gameId)
    {
      if IsBlank(gameName) {
        return Failure(InvalidArgument);
      }
      var game := FindGame(games, gameName);
      if game.None? {
        return Failure(NotFound);
      }
      return Success(RowsOf(rights, game.value.id));
    }

    /** `GetAsync(params string[] rightsNames)`. */
    method Get(names: seq<string>) returns (r: Result<Option<seq<Right>>, Failure>)
      ensures r == RightsNamed(rights, names)
      ensures r.Success? && r.value.Some? ==> |r.value.value| > 0 && forall x :: x in r.value.value ==> x in rights && x.name in names
    {
      if |names| == 0 {
        return Failure(InvalidArgument);
      }
      var found := RowsNamed(rights, names);
      if |found| == 0 {
        return Success(None);
      }
      return Success(Some(found));
    }

    /** `SortGamesRightsAsync`: one pass over the desired rights filling the create
      and update lists, then the delete list. */
    method SortGamesRights(gameName: string, rightsToSort: seq<Right>) returns (r: Result<SortedRights, Failure>)
      ensures r == SortedGamesRights(games, rights, gameName, rightsToSort)
    {
      if IsBlank(gameName) {
        return Failure(InvalidArgument);
      }
      if !AreValid(rightsToSort) {
        return Failure(ValidationFailure);
      }
      var all := GetAll(gameName);
      if all.Failure? {
        return Failure(all.error);
      }
      var gameRights := all.value;
      r := ClassifyRights(gameRights, rightsToSort);
    }

    /** `TryDeleteRangeAsync`. */
    method TryDeleteRange(rightsToDelete: seq<Right>) returns (r: Result<bool, Failure>)
      requires Valid()
      modifies this
      ensures Valid() && games == old(games)
      ensures Applied(r, rights) == TryDeleteSpec(old(rights), rightsToDelete)
    {
      var names := Names(rightsToDelete);
      var found := Get(names);
      if found.Failure? {
        return Failure(found.error);
      }
      if found.value.None? {
        return Success(false);
      }
      FilterKeepsUniqueNames(rights, (x: Right) => x.name !in names);
      rights := RowsNotNamed(rights, names);
      return Success(true);
    }

    /** `AddRangeAsync`. */
    method AddRange(rightsToAdd: seq<Right>) returns (r: Result<(), Failure>)
      requires Valid()
      modifies this
      ensures Valid() && games == old(games)
      ensures Applied(r, rights) == AddSpec(games, old(rights), rightsToAdd)
    {
      if !AreValid(rightsToAdd) {
        return Failure(ValidationFailure);
      }
      var added := rights + rightsToAdd;
      if !UniqueNames(added) || !ForeignKeysHold(games, added) {
        return Failure(CreateFailure);
      }
      rights := added;
      return Success(());
    }

    /** `UpdateRangeAsync`: the rows found by exact name each take the fields of
      their single incoming namesake; nothing is saved unless every row found has
      one. */
    method UpdateRange(rightsToUpdate: seq<Right>) returns (r: Result<(), Failure>)
      requires Valid()
      modifies this
      ensures Valid() && games == old(games)
      ensures Applied(r, rights) == UpdateSpec(games, old(rights), rightsToUpdate)
    {
      if !AreValid(rightsToUpdate) {
        return Failure(ValidationFailure);
      }
      var names := Names(rightsToUpdate);
      var found := Get(names);
      if found.Failure? {
        return Failure(found.error);
      }
      if found.value.None? {
        return Failure(NotFound);
      }
      var adapted := AdaptFoundRows(rights, rightsToUpdate, names);
      if adapted.None? {
        return Failure(AmbiguousMatch);
      }
      var updated := adapted.value;
      if !ForeignKeysHold(games, updated) {
        return Failure(UpdateFailure);
      }
      UpdatedTableKeepsNames(rights, rightsToUpdate);
      rights := updated;
      return Success(());
    }

    /** `RegisterAsync`. */
    method Register(rightsToRegister: seq<Right>, gameName: string) returns (r: Result<(), Failure>)
      requires Valid()
      modifies this
      ensures Valid() && games == old(games)
      ensures Applied(r, rights) == RegisterSpec(games, old(rights), gameName, rightsToRegister)
    {
      if |rightsToRegister| == 0 {
        return Failure(NoElements);
      }
      if !AreValid(rightsToRegister) {
        return Failure(ValidationFailure);
      }
      var sorting := SortGamesRights(gameName, rightsToRegister);
      if sorting.Failure? {
        return Failure(sorting.error);
      }
      var sorted := sorting.value;
      ghost var deleted := DeletePhase(rights, sorted);
      if NonEmpty(sorted.rightsToDelete) {
        var d := TryDeleteRange(sorted.rightsToDelete.value);
        if d.Failure? {
          return Failure(d.error);
        }
      }
      assert rights == deleted.table;
      ghost var created := CreatePhase(games, rights, sorted);
      if NonEmpty(sorted.rightsToCreate) {
        var c := AddRange(sorted.rightsToCreate.value);
        if c.Failure? {
          return c;
        }
      }
      assert rights == created.table;
      if NonEmpty(sorted.rightsToUpdate) {
        r := UpdateRange(sorted.rightsToUpdate.value);
        return r;
      }
      return Success(());
    }

    /** `GamesService.AddAsync`. */
    method AddGame(game: Game, newId: Guid) returns (r: Result<Game, Failure>)
      requires Valid()
      modifies this
      ensures Valid() && rights == old(rights)
      ensures GamesApplied(r, games) == AddGameSpec(old(games), game, newId)
    {
      if !GameIsValid(game) {
        return Failure(ValidationFailure);
      }
      var created := game.(id := if game.id == EmptyGuid then newId else game.id);
      if !UniqueGames(games + [created]) {
        return Failure(CreateFailure);
      }
      games := games + [created];
      return Success(created);
    }

    /** `GamesService.UpdateAsync`. */
    method UpdateGame(id: Guid, updatedGame: Game) returns (r: Result<Game, Failure>)
      requires Valid()
      modifies this
      ensures Valid() && rights == old(rights)
      ensures GamesApplied(r, games) == UpdateGameSpec(old(games), rights, id, updatedGame)
    {
      if !GameIsValid(updatedGame) {
        return Failure(ValidationFailure);
      }
      var index := IndexOfGame(games, id);
      if index.None? {
        return Failure(NotFound);
      }
      var i := index.value;
      var existsGame := Game(if updatedGame.id == EmptyGuid then games[i].id else updatedGame.id, updatedGame.name, updatedGame.description);
      var after := games[i := existsGame];
      if !UniqueGames(after) || !ForeignKeysHold(after, rights) {
        return Failure(UpdateFailure);
      }
      games := after;
      return Success(existsGame);
    }
  }

  // ---- helper lemmas for the store's methods ----

  /** One more desired right extends the placed lists by at most that right. */
  lemma PlacedStep(s: seq<Right>, i: nat, gameRights: seq<Right>)
    requires i < |s|
    ensures forall p :: (Placed(s[..i + 1], gameRights, p)
                         == Placed(s[..i], gameRights, p) + (if PlacementOf(s[i], gameRights) == p then [s[i]] else []))
    ensures AnyAmbiguous(s[..i + 1], gameRights) <==> AnyAmbiguous(s[..i], gameRights) || PlacementOf(s[i], gameRights) == Ambiguous
  {
    assert s[..i + 1] == s[..i] + [s[i]];
    assert s[..i + 1][..i] == s[..i];
  }

  lemma UpdatedTableStep(table: seq<Right>, incoming: seq<Right>, i: nat)
    requires i < |table|
    ensures UpdatedTable(table[..i + 1], incoming) == UpdatedTable(table[..i], incoming) + [UpdatedRow(table[i], incoming)]
  {
  }

  lemma NotSingleNamesake(table: seq<Right>, incoming: seq<Right>, i: nat)
    requires i < |table| && table[i].name in Names(incoming) && |Namesakes(incoming, table[i].name)| != 1
    ensures !SingleNamesakes(table, incoming)
  {
    assert table[i] in table;
  }

  lemma AllSingleNamesakes(table: seq<Right>, incoming: seq<Right>)
    requires forall k :: 0 <= k < |table| && table[k].name in Names(incoming) ==> |Namesakes(incoming, table[k].name)| == 1
    ensures SingleNamesakes(table, incoming)
  {
    forall row | row in table && row.name in Names(incoming)
      ensures |Namesakes(incoming, row.name)| == 1
    {
      var k :| 0 <= k < |table| && table[k] == row;
    }
  }

  /** Filtering keeps right names unique. */
  lemma {:induction false} FilterKeepsUniqueNames(s: seq<Right>, keep: Right -> bool)
    requires UniqueNames(s)
    ensures UniqueNames(Filter(s, keep))
  {
    if s != [] {
      var n := |s| - 1;
      var p := Filter(s[..n], keep);
      FilterKeepsUniqueNames(s[..n], keep);
      if keep(s[n]) {
        var r := p + [s[n]];
        forall i, j | 0 <= i < j < |r|
          ensures r[i].name != r[j].name
        {
          if j == |p| {
            assert p[i] in p;
            var k :| 0 <= k < n && s[k] == p[i];
          }
        }
      }
    }
  }

  /** The update keeps the name of every row; a row it changes takes the fields
      of an incoming right with exactly that name. */
  lemma UpdatedRowKeepsName(row: Right, incoming: seq<Right>)
    ensures UpdatedRow(row, incoming).name == row.name
    ensures UpdatedRow(row, incoming) == row
      || exists x :: x in incoming && x.name == row.name && UpdatedRow(row, incoming) == Adapt(x, row)
  {
    var same := Namesakes(incoming, row.name);
    if row.name in Names(incoming) && |same| == 1 {
      var x :| x in incoming && x.name == row.name;
      EqualsIgnoreCaseIsEquivalence(x.name, row.name, row.name);
      assert x in same;
    }
  }

  lemma UpdatedTableKeepsNames(table: seq<Right>, incoming: seq<Right>)
    ensures Names(UpdatedTable(table, incoming)) == Names(table)
    ensures UniqueNames(table) ==> UniqueNames(UpdatedTable(table, incoming))
  {
    forall k | 0 <= k < |table| {
      UpdatedRowKeepsName(table[k], incoming);
    }
    assert forall k :: 0 <= k < |table| ==> UpdatedTable(table, incoming)[k].name == table[k].name;
  }
}

/** What the phases and the registration guarantee. */
module RightsServiceProperties {
  import opened Wrappers
  import opened Text
  import opened Seqs
  import opened Domain
  import opened Comparers
  import opened RightsSort
  import opened RightsService

  /** `TryDeleteRangeAsync` fails only on an empty list; it returns false and
      removes nothing when no name resolves; otherwise it removes exactly the rows
      whose name is one of the names to delete, in any game, and returns true. */
  lemma TryDeleteMeaning(table: seq<Right>, toDelete: seq<Right>)
    ensures TryDeleteSpec(table, toDelete).result.Failure? <==> |toDelete| == 0
    ensures TryDeleteSpec(table, toDelete).result.Failure? ==> TryDeleteSpec(table, toDelete).table == table
    ensures TryDeleteSpec(table, toDelete).result == Success(false)
      <==> (|toDelete| > 0 && forall x, d :: x in table && d in toDelete ==> x.name != d.name)
    ensures TryDeleteSpec(table, toDelete).result == Success(false) ==> TryDeleteSpec(table, toDelete).table == table
    ensures TryDeleteSpec(table, toDelete).result.Success? ==>
      forall x :: x in TryDeleteSpec(table, toDelete).table
        <==> (x in table && forall d :: d in toDelete ==> d.name != x.name)
  {
    var names := Names(toDelete);
    var found := RowsNamed(table, names);
    if |toDelete| > 0 && |found| == 0 {
      assert forall x, d :: x in table && d in toDelete ==> x.name != d.name;
    }
    if |found| > 0 {
      assert found[0] in found;
    }
  }

  /** `AddRangeAsync` appends the new rights when they are valid, their names are
      new to the table and unique among themselves, and their games exist;
      otherwise nothing changes. */
  lemma AddMeaning(games: seq<Game>, table: seq<Right>, toAdd: seq<Right>)
    ensures AddSpec(games, table, toAdd).result.Success? ==> AddSpec(games, table, toAdd).table == table + toAdd
    ensures AddSpec(games, table, toAdd).result.Failure? ==> AddSpec(games, table, toAdd).table == table
    ensures !AreValid(toAdd) ==> AddSpec(games, table, toAdd).result == Failure(ValidationFailure)
    ensures AreValid(toAdd) && (exists x, y :: x in table && y in toAdd && x.name == y.name)
      ==> AddSpec(games, table, toAdd).result == Failure(CreateFailure)
    ensures AreValid(toAdd) && (exists y :: y in toAdd && !KnownGame(games, y.gameId))
      ==> AddSpec(games, table, toAdd).result == Failure(CreateFailure)
    ensures UniqueNames(table) && ForeignKeysHold(games, table) && AreValid(toAdd) && UniqueNames(toAdd)
      && (forall x, y :: x in table && y in toAdd ==> x.name != y.name)
      && (forall y :: y in toAdd ==> KnownGame(games, y.gameId))
      ==> AddSpec(games, table, toAdd).result.Success?
  {
    if exists x, y :: x in table && y in toAdd && x.name == y.name {
      ClashBreaksUniqueNames(table, toAdd);
    }
    if exists y :: y in toAdd && !KnownGame(games, y.gameId) {
      UnknownGameBreaksForeignKeys(games, table, toAdd);
    }
    if UniqueNames(table) && UniqueNames(toAdd) && (forall x, y :: x in table && y in toAdd ==> x.name != y.name) {
      AppendKeepsUniqueNames(table, toAdd);
    }
  }

  /** A stored name added again breaks the unique name index. */
  lemma ClashBreaksUniqueNames(table: seq<Right>, toAdd: seq<Right>)
    requires exists x, y :: x in table && y in toAdd && x.name == y.name
    ensures !UniqueNames(table + toAdd)
  {
    var t := table + toAdd;
    var x, y :| x in table && y in toAdd && x.name == y.name;
    var i :| 0 <= i < |table| && table[i] == x;
    var j :| 0 <= j < |toAdd| && toAdd[j] == y;
    assert t[i] == x && t[|table| + j] == y;
  }

  /** A right of an unknown game breaks the foreign key. */
  lemma UnknownGameBreaksForeignKeys(games: seq<Game>, table: seq<Right>, toAdd: seq<Right>)
    requires exists y :: y in toAdd && !KnownGame(games, y.gameId)
    ensures !ForeignKeysHold(games, table + toAdd)
  {
    var y :| y in toAdd && !KnownGame(games, y.gameId);
    assert y in table + toAdd;
  }

  /** Two lists with unique names and no name in common append to a list with
      unique names. */
  lemma AppendKeepsUniqueNames(a: seq<Right>, b: seq<Right>)
    requires UniqueNames(a) && UniqueNames(b)
    requires forall x, y :: x in a && y in b ==> x.name != y.name
    ensures UniqueNames(a + b)
  {
    var t := a + b;
    forall i, j | 0 <= i < j < |t|
      ensures t[i].name != t[j].name
    {
      if j >= |a| && i < |a| {
        assert t[i] in a && t[j] == b[j - |a|];
      } else if i >= |a| {
        assert t[i] == b[i - |a|] && t[j] == b[j - |a|];
      }
    }
  }

  /** `after` is `before` under the update: it keeps its name; a row not found by
      exact name is unchanged; a found row takes description and game id of the
      incoming right with its name, and keeps its Id when that right's is empty. */
  predicate RowUpdatedFrom(before: Right, after: Right, incoming: seq<Right>) {
    after.name == before.name
    && (before.name !in Names(incoming) ==> after == before)
    && (before.name in Names(incoming) ==>
          exists x :: (x in incoming && x.name == before.name
                       && after.description == x.description && after.gameId == x.gameId
                       && after.id == (if x.id == EmptyGuid then before.id else x.id)))
  }

  /** One row under the update, when it has a single incoming namesake. */
  lemma UpdatedRowMeaning(row: Right, incoming: seq<Right>)
    requires SingleNamesakes([row], incoming)
    ensures RowUpdatedFrom(row, UpdatedRow(row, incoming), incoming)
  {
    UpdatedRowKeepsName(row, incoming);
    if row.name in Names(incoming) {
      assert row in [row];
      var same := Namesakes(incoming, row.name);
      var x :| x in incoming && x.name == row.name;
      EqualsIgnoreCaseIsEquivalence(x.name, row.name, row.name);
      assert x in same;
      assert same[0] == x;
    }
  }

  /** Every row of the table under the update, given that each row found by
      exact name has a single incoming namesake. */
  lemma UpdatedTableMeaning(table: seq<Right>, incoming: seq<Right>)
    requires SingleNamesakes(table, incoming)
    ensures |UpdatedTable(table, incoming)| == |table|
    ensures forall k :: 0 <= k < |table| ==> RowUpdatedFrom(table[k], UpdatedTable(table, incoming)[k], incoming)
  {
    forall k | 0 <= k < |table|
      ensures RowUpdatedFrom(table[k], UpdatedTable(table, incoming)[k], incoming)
    {
      assert table[k] in table;
      UpdatedRowMeaning(table[k], incoming);
    }
  }

  /** `UpdateRangeAsync`: on failure nothing changes, and no exactly named row is
      not-found; on success every row keeps its place and name, rows not named
      are unchanged, and named rows take the incoming fields (keeping their Id
      when the incoming Id is empty). */
  lemma UpdateMeaning(games: seq<Game>, table: seq<Right>, incoming: seq<Right>)
    ensures UpdateSpec(games, table, incoming).result.Failure? ==> UpdateSpec(games, table, incoming).table == table
    ensures AreValid(incoming) && |incoming| > 0 && (forall x, y :: x in table && y in incoming ==> x.name != y.name)
      ==> UpdateSpec(games, table, incoming).result == Failure(NotFound)
    ensures UpdateSpec(games, table, incoming).result.Success? ==>
      UpdateSpec(games, table, incoming).table == UpdatedTable(table, incoming) && SingleNamesakes(table, incoming)
  {
    var found := RowsNamed(table, Names(incoming));
    if |found| > 0 {
      assert found[0] in found;
    }
  }

  /** The names of a list of rights, ignoring case. */
  function FoldedNames(rights: seq<Right>): set<string> {
    set r | r in rights :: Fold(r.name)
  }

  /** After the delete phase the game keeps only rows that some desired right
      names, and keeps every row that a desired right names. */
  lemma DeletePhaseNames(table: seq<Right>, t1: seq<Right>, gid: Guid, desired: seq<Right>, delete: seq<Right>)
    requires delete == Unmatched(RowsOf(table, gid), desired)
    requires forall r :: r in t1 <==> r in table && forall x :: x in delete ==> x.name != r.name
    ensures FoldedNames(RowsOf(t1, gid)) <= FoldedNames(desired)
  {
    forall n | n in FoldedNames(RowsOf(t1, gid))
      ensures n in FoldedNames(desired)
    {
      var r :| r in RowsOf(t1, gid) && Fold(r.name) == n;
      assert r !in delete;
      var d :| d in desired && EqualsIgnoreCase(d.name, r.name);
    }
  }

  /** The delete phase keeps every row of the game that a desired right names. */
  lemma DeletePhaseKeeps(table: seq<Right>, t1: seq<Right>, gid: Guid, desired: seq<Right>, delete: seq<Right>, r: Right)
    requires delete == Unmatched(RowsOf(table, gid), desired)
    requires forall r :: r in t1 <==> r in table && forall x :: x in delete ==> x.name != r.name
    requires r in RowsOf(table, gid) && Desires(desired, r.name)
    ensures r in RowsOf(t1, gid)
  {
    forall x | x in delete
      ensures x.name != r.name
    {
      assert !Desires(desired, x.name);
    }
  }

  /** The create phase adds the desired rights that had no namesake, so that the
      game then holds exactly the desired names. */
  lemma CreatePhaseNames(t1: seq<Right>, t2: seq<Right>, gid: Guid, desired: seq<Right>, create: seq<Right>)
    requires forall r :: r in t2 <==> r in t1 || r in create
    requires forall d :: d in create ==> d in desired
    requires forall d :: d in desired ==> d.gameId == gid
    requires FoldedNames(RowsOf(t1, gid)) <= FoldedNames(desired)
    requires forall d :: d in desired && d !in create ==> Fold(d.name) in FoldedNames(RowsOf(t1, gid))
    ensures FoldedNames(RowsOf(t2, gid)) == FoldedNames(desired)
  {
    forall n | n in FoldedNames(desired)
      ensures n in FoldedNames(RowsOf(t2, gid))
    {
      var d :| d in desired && Fold(d.name) == n;
      if d in create {
        assert d in RowsOf(t2, gid);
      } else {
        var r :| r in RowsOf(t1, gid) && Fold(r.name) == n;
        assert r in RowsOf(t2, gid);
      }
    }
    forall n | n in FoldedNames(RowsOf(t2, gid))
      ensures n in FoldedNames(desired)
    {
      var r :| r in RowsOf(t2, gid) && Fold(r.name) == n;
      if r in t1 {
        assert n in FoldedNames(RowsOf(t1, gid));
      } else {
        assert r in desired;
      }
    }
  }

  /** The update phase, with incoming rights of game `gid` drawn from the desired
      list, keeps the game holding exactly the desired names. */
  lemma UpdatePhaseNames(table: seq<Right>, after: seq<Right>, gid: Guid, incoming: seq<Right>, desired: seq<Right>)
    requires forall x :: x in incoming ==> x in desired && x.gameId == gid
    requires |after| == |table| && forall k :: 0 <= k < |table| ==> RowUpdatedFrom(table[k], after[k], incoming)
    requires FoldedNames(RowsOf(table, gid)) == FoldedNames(desired)
    ensures FoldedNames(RowsOf(after, gid)) == FoldedNames(desired)
  {
    forall n | n in FoldedNames(RowsOf(after, gid))
      ensures n in FoldedNames(desired)
    {
      var r :| r in RowsOf(after, gid) && Fold(r.name) == n;
      var k :| 0 <= k < |after| && after[k] == r;
      assert RowUpdatedFrom(table[k], after[k], incoming);
      if table[k].name in Names(incoming) {
        var x :| x in incoming && x.name == table[k].name && after[k].gameId == x.gameId;
        assert x in desired;
      } else {
        assert table[k] in RowsOf(table, gid);
      }
    }
    forall n | n in FoldedNames(desired)
      ensures n in FoldedNames(RowsOf(after, gid))
    {
      assert n in FoldedNames(RowsOf(table, gid));
      var r :| r in RowsOf(table, gid) && Fold(r.name) == n;
      var k :| 0 <= k < |table| && table[k] == r;
      assert RowUpdatedFrom(table[k], after[k], incoming);
      assert after[k] in RowsOf(after, gid);
    }
  }

  /** What the registration needs from a successful sort. */
  lemma SortFacts(rows0: seq<Right>, desired: seq<Right>, sorted: SortedRights)
    requires Classify(rows0, desired) == Success(sorted)
    ensures sorted.rightsToCreate.Some?
    ensures forall d :: d in sorted.rightsToCreate.value ==> d in desired
    ensures sorted.rightsToUpdate.Some? ==> forall d :: d in sorted.rightsToUpdate.value ==> d in desired
    ensures sorted.rightsToDelete.Some? ==> sorted.rightsToDelete.value == Unmatched(rows0, desired)
    ensures sorted.rightsToDelete.None? ==> Unmatched(rows0, desired) == []
  {
    if |rows0| > 0 {
      var create, update, delete := sorted.rightsToCreate.value, sorted.rightsToUpdate.value, sorted.rightsToDelete.value;
      SortPartition(rows0, desired, create, update, delete);
    } else {
      assert |Unmatched(rows0, desired)| <= 0;
    }
  }

  /** A desired right left out of the create list has a persisted namesake. */
  lemma SortedNamesake(rows0: seq<Right>, desired: seq<Right>, sorted: SortedRights, d: Right)
    requires Classify(rows0, desired) == Success(sorted)
    requires d in desired && d !in sorted.rightsToCreate.value
    ensures exists r :: r in rows0 && Desires(desired, r.name) && EqualsIgnoreCase(r.name, d.name)
  {
    var same := Namesakes(rows0, d.name);
    assert PlacementOf(d, rows0) != Create;
    assert same[0] in same;
    EqualsIgnoreCaseIsEquivalence(same[0].name, d.name, d.name);
  }

  /** The table after the delete phase, by membership. */
  lemma DeletePhaseMembership(table: seq<Right>, sorted: SortedRights, delete: seq<Right>)
    requires DeletePhase(table, sorted).result.Success?
    requires sorted.rightsToDelete.Some? ==> sorted.rightsToDelete.value == delete
    requires sorted.rightsToDelete.None? ==> delete == []
    ensures forall r :: (r in DeletePhase(table, sorted).table
                         <==> r in table && forall x :: x in delete ==> x.name != r.name)
  {
    if NonEmpty(sorted.rightsToDelete) {
      TryDeleteMeaning(table, delete);
    }
  }

  /** A successful registration is the sort of the game's rows followed by the phases. */
  lemma RegisterSucceedsThroughPhases(games: seq<Game>, table: seq<Right>, gameName: string, desired: seq<Right>, g: Game)
    requires RegisterSpec(games, table, gameName, desired).result.Success?
    requires FindGame(games, gameName) == Some(g)
    ensures Classify(RowsOf(table, g.id), desired).Success?
    ensures RegisterSpec(games, table, gameName, desired) == ApplyPhases(games, table, Classify(RowsOf(table, g.id), desired).value)
  {
    assert GamesRights(games, table, gameName) == Success(RowsOf(table, g.id));
  }

  /** The table after the create phase, by membership. */
  lemma CreatePhaseMembership(games: seq<Game>, table: seq<Right>, sorted: SortedRights)
    requires CreatePhase(games, table, sorted).result.Success?
    requires sorted.rightsToCreate.Some?
    ensures forall r :: (r in CreatePhase(games, table, sorted).table
                         <==> r in table || r in sorted.rightsToCreate.value)
  {
  }

  /** After the delete and create phases of a successful sort the game holds
      exactly the desired names. */
  lemma DeleteAndCreateNames(games: seq<Game>, table: seq<Right>, gid: Guid, desired: seq<Right>, sorted: SortedRights)
    requires Classify(RowsOf(table, gid), desired) == Success(sorted)
    requires DeletePhase(table, sorted).result.Success?
    requires CreatePhase(games, DeletePhase(table, sorted).table, sorted).result.Success?
    requires forall d :: d in desired ==> d.gameId == gid
    ensures FoldedNames(RowsOf(CreatePhase(games, DeletePhase(table, sorted).table, sorted).table, gid)) == FoldedNames(desired)
  {
    var rows0 := RowsOf(table, gid);
    SortFacts(rows0, desired, sorted);
    var delete := Unmatched(rows0, desired);
    var create := sorted.rightsToCreate.value;
    var t1 := DeletePhase(table, sorted).table;
    DeletePhaseMembership(table, sorted, delete);
    DeletePhaseNames(table, t1, gid, desired, delete);
    forall d | d in desired && d !in create
      ensures Fold(d.name) in FoldedNames(RowsOf(t1, gid))
    {
      SortedNamesake(rows0, desired, sorted, d);
      var r :| r in rows0 && Desires(desired, r.name) && EqualsIgnoreCase(r.name, d.name);
      DeletePhaseKeeps(table, t1, gid, desired, delete, r);
    }
    CreatePhaseMembership(games, t1, sorted);
    CreatePhaseNames(t1, CreatePhase(games, t1, sorted).table, gid, desired, create);
  }

  /** After a successful registration the game holds exactly the registered
      names, ignoring case: new ones added, changed and unchanged ones kept,
      omitted ones deleted. */
  lemma RegisteredNames(games: seq<Game>, table: seq<Right>, gameName: string, desired: seq<Right>, g: Game)
    requires RegisterSpec(games, table, gameName, desired).result.Success?
    requires FindGame(games, gameName) == Some(g)
    requires forall d :: d in desired ==> d.gameId == g.id
    ensures FoldedNames(RowsOf(RegisterSpec(games, table, gameName, desired).table, g.id)) == FoldedNames(desired)
  {
    RegisterSucceedsThroughPhases(games, table, gameName, desired, g);
    var sorted := Classify(RowsOf(table, g.id), desired).value;
    var t1 := DeletePhase(table, sorted).table;
    var t2 := CreatePhase(games, t1, sorted).table;
    DeleteAndCreateNames(games, table, g.id, desired, sorted);
    if NonEmpty(sorted.rightsToUpdate) {
      var update := sorted.rightsToUpdate.value;
      SortFacts(RowsOf(table, g.id), desired, sorted);
      UpdateMeaning(games, t2, update);
      UpdatedTableMeaning(t2, update);
      UpdatePhaseNames(t2, UpdatedTable(t2, update), g.id, update, desired);
    }
  }

  /** `RegisterAsync` changes nothing unless the list is non-empty, every right is
      valid and the sort succeeds; the first failing check decides the error. */
  lemma RegisterChecksBeforeChanging(games: seq<Game>, table: seq<Right>, gameName: string, desired: seq<Right>)
    ensures |desired| == 0 ==> RegisterSpec(games, table, gameName, desired) == Applied(Failure(NoElements), table)
    ensures |desired| > 0 && !AreValid(desired)
      ==> RegisterSpec(games, table, gameName, desired) == Applied(Failure(ValidationFailure), table)
    ensures |desired| > 0 && AreValid(desired) && SortedGamesRights(games, table, gameName, desired).Failure?
      ==> RegisterSpec(games, table, gameName, desired)
          == Applied(Failure(SortedGamesRights(games, table, gameName, desired).error), table)
  {
  }

  // ---- the descriptions a registration leaves ----

  /** Two rights of a list with unique names and the same name are the same right. */
  lemma SameNameSameRight(rights: seq<Right>, x: Right, y: Right)
    requires UniqueNames(rights) && x in rights && y in rights && x.name == y.name
    ensures x == y
  {
    var i :| 0 <= i < |rights| && rights[i] == x;
    var j :| 0 <= j < |rights| && rights[j] == y;
    assert !(i < j) && !(j < i);
  }

  /** A stored right of the game with exactly the name of a desired right that
      the sort leaves out of the update list has its description, ignoring case:
      the comparer found the two equal. */
  lemma KeptRowDescription(rows0: seq<Right>, desired: seq<Right>, sorted: SortedRights, r: Right, d: Right)
    requires Classify(rows0, desired) == Success(sorted)
    requires r in rows0 && d in desired && r.name == d.name
    requires sorted.rightsToUpdate.Some? ==> d !in sorted.rightsToUpdate.value
    ensures EqualsIgnoreCase(r.description, d.description)
  {
    assert |rows0| > 0 && !AnyAmbiguous(desired, rows0);
    assert sorted.rightsToUpdate == Some(Placed(desired, rows0, Update));
    assert PlacementOf(d, rows0) != Update;
    SoleNamesakeDescription(rows0, r, d);
  }

  /** A right that is the sole namesake of `d` and not to be updated equals it. */
  lemma SoleNamesakeDescription(rows0: seq<Right>, r: Right, d: Right)
    requires r in rows0 && r.name == d.name
    requires PlacementOf(d, rows0) == Unchanged
    ensures EqualsIgnoreCase(r.description, d.description)
  {
    var same := Namesakes(rows0, d.name);
    assert r in same && |same| == 1;
    assert same[0] == r;
    RightsEqualFields(d, r);
  }

  /** After the delete and create phases, a row of the game with exactly the name
      of a desired right that is not to be updated has that right's description,
      ignoring case: it was created from it, or kept as equal to it. */
  lemma CreatedOrKeptDescription(games: seq<Game>, table: seq<Right>, gid: Guid, desired: seq<Right>, sorted: SortedRights,
                                 r: Right, d: Right)
    requires Classify(RowsOf(table, gid), desired) == Success(sorted)
    requires DeletePhase(table, sorted).result.Success?
    requires CreatePhase(games, DeletePhase(table, sorted).table, sorted).result.Success?
    requires UniqueNames(desired)
    requires r in CreatePhase(games, DeletePhase(table, sorted).table, sorted).table && r.gameId == gid
    requires d in desired && r.name == d.name
    requires sorted.rightsToUpdate.Some? ==> d !in sorted.rightsToUpdate.value
    ensures EqualsIgnoreCase(r.description, d.description)
  {
    var rows0 := RowsOf(table, gid);
    SortFacts(rows0, desired, sorted);
    var t1 := DeletePhase(table, sorted).table;
    DeletePhaseMembership(table, sorted, Unmatched(rows0, desired));
    CreatePhaseMembership(games, t1, sorted);
    if r in sorted.rightsToCreate.value {
      SameNameSameRight(desired, r, d);
    } else {
      KeptRowDescription(rows0, desired, sorted, r, d);
    }
  }

  /** A row after the update phase with exactly the name of a desired right took
      that right's description, or was left as it was and the right is not to be
      updated. */
  lemma UpdatedRowDescription(table: seq<Right>, update: seq<Right>, desired: seq<Right>, r: Right, d: Right)
    requires SingleNamesakes(table, update)
    requires forall x :: x in update ==> x in desired
    requires UniqueNames(desired)
    requires r in UpdatedTable(table, update) && d in desired && r.name == d.name
    ensures r.description == d.description || (r in table && d !in update)
  {
    UpdatedTableMeaning(table, update);
    var after := UpdatedTable(table, update);
    var k :| 0 <= k < |after| && after[k] == r;
    assert RowUpdatedFrom(table[k], after[k], update);
    if table[k].name in Names(update) {
      var x :| x in update && x.name == table[k].name && r.description == x.description;
      SameNameSameRight(desired, x, d);
    }
  }

  /** One row of the game after the phases of a successful sort, against the
      desired right with exactly its name. */
  lemma PhasesRowDescription(games: seq<Game>, table: seq<Right>, gid: Guid, desired: seq<Right>, sorted: SortedRights,
                             r: Right, d: Right)
    requires Classify(RowsOf(table, gid), desired) == Success(sorted)
    requires ApplyPhases(games, table, sorted).result.Success?
    requires UniqueNames(desired)
    requires r in ApplyPhases(games, table, sorted).table && r.gameId == gid
    requires d in desired && r.name == d.name
    ensures EqualsIgnoreCase(r.description, d.description)
  {
    SortFacts(RowsOf(table, gid), desired, sorted);
    var deleted := DeletePhase(table, sorted);
    var created := CreatePhase(games, deleted.table, sorted);
    assert deleted.result.Success? && created.result.Success?;
    if NonEmpty(sorted.rightsToUpdate) {
      var update := sorted.rightsToUpdate.value;
      UpdateMeaning(games, created.table, update);
      UpdatedRowDescription(created.table, update, desired, r, d);
      if r.description != d.description {
        CreatedOrKeptDescription(games, table, gid, desired, sorted, r, d);
      }
    } else {
      CreatedOrKeptDescription(games, table, gid, desired, sorted, r, d);
    }
  }

  /** One row of the game after a successful registration, against the desired
      right with exactly its name. */
  lemma RegisteredRowDescription(games: seq<Game>, table: seq<Right>, gameName: string, desired: seq<Right>, g: Game,
                                 r: Right, d: Right)
    requires RegisterSpec(games, table, gameName, desired).result.Success?
    requires FindGame(games, gameName) == Some(g)
    requires UniqueNames(desired)
    requires r in RegisterSpec(games, table, gameName, desired).table && r.gameId == g.id
    requires d in desired && r.name == d.name
    ensures EqualsIgnoreCase(r.description, d.description)
  {
    RegisterSucceedsThroughPhases(games, table, gameName, desired, g);
    PhasesRowDescription(games, table, g.id, desired, Classify(RowsOf(table, g.id), desired).value, r, d);
  }

  /** After a successful registration of rights with distinct names, every row
      of the game whose name is exactly that of a registered right carries that
      right's description, ignoring case: created and updated rows take it, and
      a kept row already had it. */
  lemma RegisteredDescriptions(games: seq<Game>, table: seq<Right>, gameName: string, desired: seq<Right>, g: Game)
    requires RegisterSpec(games, table, gameName, desired).result.Success?
    requires FindGame(games, gameName) == Some(g)
    requires UniqueNames(desired)
    ensures forall r, d ::
              r in RowsOf(RegisterSpec(games, table, gameName, desired).table, g.id) && d in desired && r.name == d.name
              ==> EqualsIgnoreCase(r.description, d.description)
  {
    forall r, d | r in RowsOf(RegisterSpec(games, table, gameName, desired).table, g.id) && d in desired && r.name == d.name
      ensures EqualsIgnoreCase(r.description, d.description)
    {
      RegisteredRowDescription(games, table, gameName, desired, g, r, d);
    }
  }

  // ---- a failing phase ----

  /** Once the sort succeeds, the delete phase cannot fail; a failing create
      leaves the table as the delete phase left it, without the deleted rows,
      and a failing update leaves it as the create phase left it, with the
      created rights. */
  lemma FailedPhaseKeepsEarlierPhases(games: seq<Game>, table: seq<Right>, gameName: string, desired: seq<Right>, g: Game)
    requires |desired| > 0 && AreValid(desired)
    requires FindGame(games, gameName) == Some(g)
    requires SortedGamesRights(games, table, gameName, desired).Success?
    ensures var sorted := SortedGamesRights(games, table, gameName, desired).value;
      var deleted := DeletePhase(table, sorted);
      var created := CreatePhase(games, deleted.table, sorted);
      var registered := RegisterSpec(games, table, gameName, desired);
      deleted.result.Success?
      && (created.result.Failure? ==>
            registered == created && registered.table == deleted.table
            && forall r :: r in registered.table <==>
                 r in table && forall x :: x in Unmatched(RowsOf(table, g.id), desired) ==> x.name != r.name)
      && (created.result.Success? && registered.result.Failure? ==>
            registered.table == created.table
            && forall r :: r in registered.table <==>
                 (r in table && forall x :: x in Unmatched(RowsOf(table, g.id), desired) ==> x.name != r.name)
                 || r in sorted.rightsToCreate.value)
  {
    var rows0 := RowsOf(table, g.id);
    assert GamesRights(games, table, gameName) == Success(rows0);
    var sorted := SortedGamesRights(games, table, gameName, desired).value;
    SortFacts(rows0, desired, sorted);
    var deleted := DeletePhase(table, sorted);
    if NonEmpty(sorted.rightsToDelete) {
      TryDeleteMeaning(table, sorted.rightsToDelete.value);
    }
    DeletePhaseMembership(table, sorted, Unmatched(rows0, desired));
    var created := CreatePhase(games, deleted.table, sorted);
    if created.result.Success? {
      CreatePhaseMembership(games, deleted.table, sorted);
      if NonEmpty(sorted.rightsToUpdate) {
        UpdateMeaning(games, created.table, sorted.rightsToUpdate.value);
      }
    } else {
      AddMeaning(games, deleted.table, sorted.rightsToCreate.value);
    }
  }
}
