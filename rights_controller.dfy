/** The register endpoint of the rights controller: resolve the posted game
    (create it when no game has its name, update it when the games comparer
    finds it different, keep it otherwise), give every posted right the
    resolved game's id, and hand the rights to the rights service's
    registration under the resolved game's name. */
module RightsController {
  import opened Wrappers
  import opened Text
  import opened Domain
  import opened Comparers
  import opened RightsSort
  import opened RightsService
  import opened RightsServiceProperties

  /** A game as an external service posts it: no id. */
  datatype ExternalGameDto = ExternalGameDto(name: string, description: Option<string>)

  /** A right as an external service posts it: no id and no game. */
  datatype ExternalCreateRightDto = ExternalCreateRightDto(name: string, description: string)

  /** The body of the register request. */
  datatype RegisterRightsDto = RegisterRightsDto(rights: seq<ExternalCreateRightDto>, game: ExternalGameDto)

  /** The mapping of a posted game to a model: the id stays empty. */
  function ToGame(dto: ExternalGameDto): Game {
    Game(EmptyGuid, dto.name, dto.description)
  }

  /** The mapping of a posted right to a model: ids stay empty, no game. */
  function ToRight(dto: ExternalCreateRightDto): Right {
    Right(EmptyGuid, dto.name, dto.description, EmptyGuid, None)
  }

  /** The posted rights mapped to models and owned by game `gameId`. */
  function Stamped(dtos: seq<ExternalCreateRightDto>, gameId: Guid): seq<Right> {
    seq(|dtos|, k requires 0 <= k < |dtos| => ToRight(dtos[k]).(gameId := gameId))
  }

  /** The `foreach` that sets `GameId` on every mapped right. */
  method StampGameId(dtos: seq<ExternalCreateRightDto>, gameId: Guid) returns (rightsModels: seq<Right>)
    ensures rightsModels == Stamped(dtos, gameId)
  {
    rightsModels := [];
    for i := 0 to |dtos|
      invariant rightsModels == Stamped(dtos[..i], gameId)
    {
      var rightsModel := ToRight(dtos[i]);
      rightsModel := rightsModel.(gameId := gameId);
      rightsModels := rightsModels + [rightsModel];
    }
    assert dtos[..|dtos|] == dtos;
  }

  /** Every stamped right belongs to game `gameId` and keeps the posted name and
      description, with an empty id and no game; stamping neither adds nor drops
      rights, and it does not change their validity. */
  lemma StampedMeaning(dtos: seq<ExternalCreateRightDto>, gameId: Guid)
    ensures |Stamped(dtos, gameId)| == |dtos|
    ensures forall r :: r in Stamped(dtos, gameId) ==> r.gameId == gameId && r.id == EmptyGuid && r.game.None?
    ensures forall k :: 0 <= k < |dtos| ==>
      Stamped(dtos, gameId)[k].name == dtos[k].name && Stamped(dtos, gameId)[k].description == dtos[k].description
    ensures forall d :: d in dtos ==> exists r :: r in Stamped(dtos, gameId) && r.name == d.name && r.description == d.description
    ensures AreValid(Stamped(dtos, gameId)) <==> forall d :: d in dtos ==> IsValid(ToRight(d))
  {
    var s := Stamped(dtos, gameId);
    forall d | d in dtos
      ensures exists r :: r in s && r.name == d.name && r.description == d.description
    {
      var k :| 0 <= k < |dtos| && dtos[k] == d;
      assert s[k] in s;
    }
    forall k | 0 <= k < |dtos|
      ensures IsValid(s[k]) == IsValid(ToRight(dtos[k]))
    {
      ValidityIgnoresIdsAndGame(ToRight(dtos[k]), EmptyGuid, gameId, None);
    }
  }

  // ---- the game resolution ----

  /** What the controller does with the posted game. */
  datatype GameAction = CreateGame | UpdateGame | KeepGame

  /** No stored game has the posted name: create it; the stored game differs from
      the posted one by the games comparer: update it; otherwise keep it. The two
      games are distinct objects, so the comparer's reference shortcut never
      applies. */
  function ActionFor(games: seq<Game>, dto: ExternalGameDto): GameAction {
    match FindGame(games, dto.name)
    case None => CreateGame
    case Some(stored) => if GamesEqual(Some(stored), Some(ToGame(dto)), false) then KeepGame else UpdateGame
  }

  /** The game the rights are registered for, and the games afterwards;
      `newGameId` is the key the store generates for a created game. */
  function ResolvedGame(games: seq<Game>, table: seq<Right>, dto: ExternalGameDto, newGameId: Guid): GamesApplied {
    match FindGame(games, dto.name)
    case None => AddGameSpec(games, ToGame(dto), newGameId)
    case Some(stored) =>
      if GamesEqual(Some(stored), Some(ToGame(dto)), false) then GamesApplied(Success(stored), games)
      else UpdateGameSpec(games, table, stored.id, ToGame(dto))
  }

  /** The outcome of a register request with the games and rights it leaves. */
  datatype Outcome = Outcome(result: Result<(), Failure>, games: seq<Game>, table: seq<Right>)

  /** `RegisterAsync` of the controller: a failure while resolving the game stops
      the request before any right changes; otherwise the stamped rights are
      registered under the resolved game's name. */
  function RegisterRightsSpec(games: seq<Game>, table: seq<Right>, dto: RegisterRightsDto, newGameId: Guid): Outcome {
    var resolved := ResolvedGame(games, table, dto.game, newGameId);
    match resolved.result
    case Failure(e) => Outcome(Failure(e), resolved.games, table)
    case Success(game) =>
      var registered := RegisterSpec(resolved.games, table, game.name, Stamped(dto.rights, game.id));
      Outcome(registered.result, resolved.games, registered.table)
  }

  /** The controller action on a store. */
  method RegisterRights(store: AdminStore, dto: RegisterRightsDto, newGameId: Guid) returns (r: Result<(), Failure>)
    requires store.Valid()
    modifies store
    ensures store.Valid()
    ensures Outcome(r, store.games, store.rights) == RegisterRightsSpec(old(store.games), old(store.rights), dto, newGameId)
  {
    var externalGame := ToGame(dto.game);
    var gameModel := FindGame(store.games, dto.game.name);
    var resolved: Game;
    if gameModel.None? {
      var added := store.AddGame(externalGame, newGameId);
      if added.Failure? {
        return Failure(added.error);
      }
      resolved := added.value;
    } else if !GamesEqual(gameModel, Some(externalGame), false) {
      var updated := store.UpdateGame(gameModel.value.id, externalGame);
      if updated.Failure? {
        return Failure(updated.error);
      }
      resolved := updated.value;
    } else {
      resolved := gameModel.value;
    }
    var rightsModels := StampGameId(dto.rights, resolved.id);
    r := store.Register(rightsModels, resolved.name);
  }

  // ---- properties of the game resolution ----

  /** In a store with unique game names, a stored game is the one found by its name. */
  lemma FindGameOfUnique(games: seq<Game>, g: Game)
    requires UniqueGames(games) && g in games
    ensures FindGame(games, g.name) == Some(g)
  {
    var found := FindGame(games, g.name).value;
    var i :| 0 <= i < |games| && games[i] == found;
    var j :| 0 <= j < |games| && games[j] == g;
    assert i == j;
  }

  /** The resolution follows the action: a created game is new under the posted
      name and description with the generated id, an updated game keeps its id
      and takes the posted name and description, and a kept game leaves the
      games as they were. */
  lemma ResolvedGameMeaning(games: seq<Game>, table: seq<Right>, dto: ExternalGameDto, newGameId: Guid)
    requires UniqueGames(games)
    ensures var resolved := ResolvedGame(games, table, dto, newGameId);
      match ActionFor(games, dto)
      case CreateGame =>
        (resolved.result.Success? <==> GameIsValid(ToGame(dto)) && forall g :: g in games ==> g.id != newGameId)
        && (resolved.result.Success? ==>
              resolved.result.value == Game(newGameId, dto.name, dto.description)
              && resolved.games == games + [resolved.result.value])
      case UpdateGame =>
        resolved.result.Success? ==>
          var stored := FindGame(games, dto.name).value;
          resolved.result.value == Game(stored.id, dto.name, dto.description)
          && |resolved.games| == |games|
          && forall g :: g in games && g != stored ==> g in resolved.games
      case KeepGame =>
        resolved == GamesApplied(Success(FindGame(games, dto.name).value), games)
  {
    var resolved := ResolvedGame(games, table, dto, newGameId);
    match ActionFor(games, dto)
    case CreateGame =>
      var created := ToGame(dto).(id := newGameId);
      assert FindGame(games, dto.name).None?;
      if GameIsValid(ToGame(dto)) && forall g :: g in games ==> g.id != newGameId {
        forall i, j | 0 <= i < j < |games + [created]|
          ensures (games + [created])[i].name != (games + [created])[j].name
          ensures (games + [created])[i].id != (games + [created])[j].id
        {
          if j == |games| {
            assert games[i] in games;
          }
        }
      } else if GameIsValid(ToGame(dto)) {
        var g :| g in games && g.id == newGameId;
        var i :| 0 <= i < |games| && games[i] == g;
        assert (games + [created])[i].id == (games + [created])[|games|].id;
      }
    case UpdateGame =>
      var stored := FindGame(games, dto.name).value;
      if resolved.result.Success? {
        var i := IndexOfGame(games, stored.id).value;
        var stored' := games[i];
        assert stored' == stored by {
          var j :| 0 <= j < |games| && games[j] == stored;
          if i < j || j < i {
            assert games[i].id == games[j].id;
          }
        }
        forall g | g in games && g != stored
          ensures g in resolved.games
        {
          var k :| 0 <= k < |games| && games[k] == g;
          assert resolved.games[k] == g;
        }
      }
    case KeepGame =>
  }

  /** A successful resolution leaves a game under the posted name, found by that
      name, and the store rules still hold. */
  lemma ResolvedGameIsFound(games: seq<Game>, table: seq<Right>, dto: ExternalGameDto, newGameId: Guid)
    requires UniqueGames(games) && ForeignKeysHold(games, table)
    requires ResolvedGame(games, table, dto, newGameId).result.Success?
    ensures var resolved := ResolvedGame(games, table, dto, newGameId);
      resolved.result.value.name == dto.name
      && FindGame(resolved.games, dto.name) == Some(resolved.result.value)
      && UniqueGames(resolved.games) && ForeignKeysHold(resolved.games, table)
  {
    var resolved := ResolvedGame(games, table, dto, newGameId);
    var game := resolved.result.value;
    match FindGame(games, dto.name)
    case None =>
      assert resolved.games == games + [game];
      assert game in resolved.games;
      forall r | r in table
        ensures KnownGame(resolved.games, r.gameId)
      {
        var g :| g in games && g.id == r.gameId;
        assert g in resolved.games;
      }
      FindGameOfUnique(resolved.games, game);
    case Some(stored) =>
      if !GamesEqual(Some(stored), Some(ToGame(dto)), false) {
        var i := IndexOfGame(games, stored.id).value;
        assert resolved.games[i] == game;
        FindGameOfUnique(resolved.games, game);
      }
  }

  /** A stored game without a description, or with a blank one, never equals the
      posted game, so every registration for it updates it again. */
  lemma BlankStoredDescriptionAlwaysUpdates(games: seq<Game>, dto: ExternalGameDto)
    requires FindGame(games, dto.name).Some?
    requires var stored := FindGame(games, dto.name).value;
      stored.description.None? || IsBlank(stored.description.value)
    ensures ActionFor(games, dto) == UpdateGame
  {
    var stored := FindGame(games, dto.name).value;
    GamesEqualBlankDescriptionNeverMatches(stored, ToGame(dto));
  }

  /** A stored game whose name and description equal the posted ones ignoring
      case, with a non-blank description on both sides, is kept. */
  lemma EqualGameIsKept(games: seq<Game>, dto: ExternalGameDto)
    requires FindGame(games, dto.name).Some?
    requires var stored := FindGame(games, dto.name).value;
      stored.description.Some? && dto.description.Some?
      && !IsBlank(stored.description.value) && !IsBlank(dto.description.value)
      && EqualsIgnoreCase(stored.description.value, dto.description.value)
    ensures ActionFor(games, dto) == KeepGame
  {
    var stored := FindGame(games, dto.name).value;
    GamesEqualFields(stored, ToGame(dto));
  }

  // ---- properties of the whole request ----

  /** A failure while resolving the game leaves every right as it was; the rights
      service is reached only with a game found under the posted name. */
  lemma GameFailureKeepsRights(games: seq<Game>, table: seq<Right>, dto: RegisterRightsDto, newGameId: Guid)
    requires ResolvedGame(games, table, dto.game, newGameId).result.Failure?
    ensures RegisterRightsSpec(games, table, dto, newGameId).table == table
    ensures RegisterRightsSpec(games, table, dto, newGameId).result
      == Failure(ResolvedGame(games, table, dto.game, newGameId).result.error)
  {
  }

  /** After a successful request, the rights of the game under the posted name
      are, name for name ignoring case, exactly the posted rights: every posted
      right is registered for that game, and every other right it had is gone. */
  lemma RegisteredForPostedGame(games: seq<Game>, table: seq<Right>, dto: RegisterRightsDto, newGameId: Guid)
    requires UniqueGames(games) && ForeignKeysHold(games, table)
    requires RegisterRightsSpec(games, table, dto, newGameId).result.Success?
    ensures var outcome := RegisterRightsSpec(games, table, dto, newGameId);
      FindGame(outcome.games, dto.game.name).Some?
      && FoldedNames(RowsOf(outcome.table, FindGame(outcome.games, dto.game.name).value.id))
         == FoldedNames(Stamped(dto.rights, FindGame(outcome.games, dto.game.name).value.id))
  {
    var resolved := ResolvedGame(games, table, dto.game, newGameId);
    ResolvedGameIsFound(games, table, dto.game, newGameId);
    var game := resolved.result.value;
    var desired := Stamped(dto.rights, game.id);
    StampedMeaning(dto.rights, game.id);
    RegisteredNames(resolved.games, table, game.name, desired, game);
  }

  /** After a successful request whose posted rights have distinct names, every
      right of the game under the posted name whose name is exactly that of a
      posted right carries the posted description, ignoring case. */
  lemma RegisteredDescriptionsForPostedGame(games: seq<Game>, table: seq<Right>, dto: RegisterRightsDto, newGameId: Guid)
    requires UniqueGames(games) && ForeignKeysHold(games, table)
    requires forall i, j :: 0 <= i < j < |dto.rights| ==> dto.rights[i].name != dto.rights[j].name
    requires RegisterRightsSpec(games, table, dto, newGameId).result.Success?
    ensures var outcome := RegisterRightsSpec(games, table, dto, newGameId);
      FindGame(outcome.games, dto.game.name).Some?
      && forall r, p ::
           r in RowsOf(outcome.table, FindGame(outcome.games, dto.game.name).value.id) && p in dto.rights && r.name == p.name
           ==> EqualsIgnoreCase(r.description, p.description)
  {
    var resolved := ResolvedGame(games, table, dto.game, newGameId);
    ResolvedGameIsFound(games, table, dto.game, newGameId);
    var game := resolved.result.value;
    var desired := Stamped(dto.rights, game.id);
    StampedMeaning(dto.rights, game.id);
    assert UniqueNames(desired);
    RegisteredDescriptions(resolved.games, table, game.name, desired, game);
    var outcome := RegisterRightsSpec(games, table, dto, newGameId);
    forall r, p | r in RowsOf(outcome.table, game.id) && p in dto.rights && r.name == p.name
      ensures EqualsIgnoreCase(r.description, p.description)
    {
      var k :| 0 <= k < |dto.rights| && dto.rights[k] == p;
      assert desired[k] in desired;
    }
  }
}
