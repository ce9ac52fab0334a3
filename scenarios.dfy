/** Concrete registrations that show how the register flow behaves on inputs
    where its parts interact: a case-only rename, a phase that fails after an
    earlier one has changed the table, and an update that takes over another
    game's right. */
module RegisterScenarios {
  import opened Wrappers
  import opened Text
  import opened Domain
  import opened Comparers
  import opened RightsSort
  import opened RightsService

  // ---- small facts about literals ----

  /** A short name with a visible first character is required text. */
  lemma ShortTextIsRequired(s: string)
    requires 0 < |s| <= MaxTextLength && !IsWhiteSpaceChar(s[0])
    requires forall i :: 0 <= i < |s| ==> s[i] as int <= 0xFFFF
    ensures IsRequiredText(s)
  {
    Utf16LengthOfBmp(s);
  }

  lemma ScenarioTextIsRequired()
    ensures IsRequiredText("READ") && IsRequiredText("new") && IsRequiredText("old")
    ensures IsRequiredText("b") && IsRequiredText("x") && IsRequiredText("X")
  {
    ShortTextIsRequired("X");
    ShortTextIsRequired("READ");
    ShortTextIsRequired("new");
    ShortTextIsRequired("old");
    ShortTextIsRequired("b");
    ShortTextIsRequired("x");
  }

  lemma ReadMatchesUpperCase()
    ensures EqualsIgnoreCase("Read", "READ")
  {
    assert Fold("Read") == "READ";
    assert Fold("READ") == "READ";
  }

  lemma XMatchesUpperCase()
    ensures EqualsIgnoreCase("x", "X") && EqualsIgnoreCase("X", "X")
  {
    assert Fold("x") == "X" == Fold("X");
  }

  lemma NewDiffersFromOld()
    ensures !EqualsIgnoreCase("new", "old")
  {
    assert Fold("new")[0] == 'N';
  }

  lemma ADiffersFromB()
    ensures !EqualsIgnoreCase("a", "b")
  {
    assert Fold("a")[0] == 'A';
  }

  lemma NameGIsNotBlank()
    ensures !IsBlank("G")
  {
    assert !IsWhiteSpaceChar("G"[0]);
  }

  // ---- one- and two-row instances of the filters ----

  lemma NamesakesOfOne(x: Right, name: string)
    ensures Namesakes([x], name) == if EqualsIgnoreCase(x.name, name) then [x] else []
  {
    assert [x][..0] == [];
  }

  lemma PlacedOfOne(d: Right, gameRights: seq<Right>, p: Placement)
    ensures Placed([d], gameRights, p) == if PlacementOf(d, gameRights) == p then [d] else []
  {
    assert [d][..0] == [];
  }

  lemma UnmatchedOfOne(x: Right, desired: seq<Right>)
    ensures Unmatched([x], desired) == if Desires(desired, x.name) then [] else [x]
  {
    assert [x][..0] == [];
  }

  lemma RowsOfOne(x: Right, gameId: Guid)
    ensures RowsOf([x], gameId) == if x.gameId == gameId then [x] else []
  {
    assert [x][..0] == [];
  }

  lemma RowsOfTwo(x: Right, y: Right, gameId: Guid)
    requires x.gameId == gameId && y.gameId != gameId
    ensures RowsOf([x, y], gameId) == [x]
  {
    assert [x, y][..1] == [x];
    assert [x, y][..1][..0] == [];
  }

  lemma RowsNamedOne(x: Right, names: seq<string>)
    ensures RowsNamed([x], names) == if x.name in names then [x] else []
  {
    assert [x][..0] == [];
  }

  lemma RowsNamedTwo(x: Right, y: Right, names: seq<string>)
    requires x.name in names && y.name !in names
    ensures RowsNamed([x, y], names) == [x]
  {
    assert [x, y][..1] == [x];
    RowsNamedOne(x, names);
  }

  lemma RowsNamedSecond(x: Right, y: Right, names: seq<string>)
    requires x.name !in names && y.name in names
    ensures RowsNamed([x, y], names) == [y]
  {
    assert [x, y][..1] == [x];
    RowsNamedOne(x, names);
  }

  lemma NamesakesOfBoth(x: Right, y: Right, name: string)
    requires EqualsIgnoreCase(x.name, name) && EqualsIgnoreCase(y.name, name)
    ensures Namesakes([x, y], name) == [x, y]
  {
    assert [x, y][..1] == [x];
    NamesakesOfOne(x, name);
  }

  lemma RowsOfBoth(x: Right, y: Right, gameId: Guid)
    requires x.gameId == gameId && y.gameId == gameId
    ensures RowsOf([x, y], gameId) == [x, y]
  {
    assert [x, y][..1] == [x];
    RowsOfOne(x, gameId);
  }

  lemma RowsNotNamedTwo(x: Right, y: Right, names: seq<string>)
    requires x.name in names && y.name !in names
    ensures RowsNotNamed([x, y], names) == [y]
  {
    assert [x, y][..1] == [x];
    assert [x][..0] == [];
    assert RowsNotNamed([x], names) == [];
  }

  // ---- a case-only rename ----

  lemma PlacementOfOne(d: Right, x: Right)
    ensures PlacementOf(d, [x])
      == if !EqualsIgnoreCase(x.name, d.name) then Create
         else if RightsEqual(Some(d), Some(x)) then Unchanged
         else Update
  {
    NamesakesOfOne(x, d.name);
  }

  /** "READ" with description `description` equals the stored "Read"/"old"
      exactly when the description is "old". */
  lemma CaseOnlyRenameEquality(description: string)
    requires description == "new" || description == "old"
    ensures RightsEqual(Some(Right(0, "READ", description, 1, None)), Some(Right(10, "Read", "old", 1, None)))
      <==> description == "old"
  {
    ReadMatchesUpperCase();
    NewDiffersFromOld();
  }

  /** The stored right "Read" is the one namesake of "READ"; their descriptions
      decide whether the desired right is an update. */
  lemma CaseOnlyRenamePlacement(description: string)
    requires description == "new" || description == "old"
    ensures var stored, d := Right(10, "Read", "old", 1, None), Right(0, "READ", description, 1, None);
      PlacementOf(d, [stored]) == if description == "new" then Update else Unchanged
  {
    var stored, d := Right(10, "Read", "old", 1, None), Right(0, "READ", description, 1, None);
    ReadMatchesUpperCase();
    EqualsIgnoreCaseIsEquivalence("Read", "READ", "READ");
    PlacementOfOne(d, stored);
    CaseOnlyRenameEquality(description);
  }

  /** The sort of a case-only rename, once game "G"'s one right is known. */
  lemma CaseOnlyRenameClassified(description: string)
    requires description == "new" || description == "old"
    ensures var stored, d := Right(10, "Read", "old", 1, None), Right(0, "READ", description, 1, None);
      Classify([stored], [d])
        == Success(SortedRights(Some([]), Some(if description == "new" then [d] else []), Some([])))
  {
    var stored, d := Right(10, "Read", "old", 1, None), Right(0, "READ", description, 1, None);
    CaseOnlyRenamePlacement(description);
    assert !AnyAmbiguous([d], [stored]);
    PlacedOfOne(d, [stored], Create);
    PlacedOfOne(d, [stored], Update);
    ReadMatchesUpperCase();
    assert Desires([d], stored.name);
    UnmatchedOfOne(stored, [d]);
  }

  /** The sort of a case-only rename: the right goes to the update list when its
      description changes, and to no list when it does not. */
  lemma CaseOnlyRenameSorted(description: string)
    requires description == "new" || description == "old"
    ensures var stored, d := Right(10, "Read", "old", 1, None), Right(0, "READ", description, 1, None);
      SortedGamesRights([Game(1, "G", None)], [stored], "G", [d])
        == Success(SortedRights(Some([]), Some(if description == "new" then [d] else []), Some([])))
  {
    var stored, d := Right(10, "Read", "old", 1, None), Right(0, "READ", description, 1, None);
    ScenarioTextIsRequired();
    assert AreValid([d]);
    NameGIsNotBlank();
    RowsOfOne(stored, 1);
    assert GamesRights([Game(1, "G", None)], [stored], "G") == Success([stored]);
    CaseOnlyRenameClassified(description);
  }

  /** The update list ["READ"] finds no row named exactly "READ". */
  lemma CaseOnlyRenameUpdateNotFound()
    ensures var stored, d := Right(10, "Read", "old", 1, None), Right(0, "READ", "new", 1, None);
      UpdatePhase([Game(1, "G", None)], [stored], SortedRights(Some([]), Some([d]), Some([])))
        == Applied(Failure(NotFound), [stored])
  {
    var stored, d := Right(10, "Read", "old", 1, None), Right(0, "READ", "new", 1, None);
    ScenarioTextIsRequired();
    assert AreValid([d]);
    assert Names([d]) == ["READ"];
    RowsNamedOne(stored, ["READ"]);
    assert RightsNamed([stored], ["READ"]) == Success(None);
  }

  /** A registration that only changes the case of a stored name and its
      description sorts the right into the update list, whose exact-name lookup
      then finds nothing: the registration fails with not-found. */
  lemma CaseOnlyRenameNotFound()
    ensures var stored := Right(10, "Read", "old", 1, None);
      RegisterSpec([Game(1, "G", None)], [stored], "G", [Right(0, "READ", "new", 1, None)])
        == Applied(Failure(NotFound), [stored])
  {
    var stored, d := Right(10, "Read", "old", 1, None), Right(0, "READ", "new", 1, None);
    var games := [Game(1, "G", None)];
    CaseOnlyRenameSorted("new");
    var sorted := SortedRights(Some([]), Some([d]), Some([]));
    ScenarioTextIsRequired();
    assert AreValid([d]);
    assert DeletePhase([stored], sorted) == Applied(Success(()), [stored]);
    assert CreatePhase(games, [stored], sorted) == Applied(Success(()), [stored]);
    CaseOnlyRenameUpdateNotFound();
  }

  /** A registration that only changes the case of a stored name, keeping its
      description, finds the rights equal: nothing changes and the stored name
      keeps its old case. */
  lemma CaseOnlyRenameIgnored()
    ensures var stored := Right(10, "Read", "old", 1, None);
      RegisterSpec([Game(1, "G", None)], [stored], "G", [Right(0, "READ", "old", 1, None)])
        == Applied(Success(()), [stored])
  {
    var stored, d := Right(10, "Read", "old", 1, None), Right(0, "READ", "old", 1, None);
    var games := [Game(1, "G", None)];
    CaseOnlyRenameSorted("old");
    var sorted := SortedRights(Some([]), Some([]), Some([]));
    ScenarioTextIsRequired();
    assert AreValid([d]);
    assert !NonEmpty(sorted.rightsToDelete) && !NonEmpty(sorted.rightsToCreate) && !NonEmpty(sorted.rightsToUpdate);
    assert DeletePhase([stored], sorted) == Applied(Success(()), [stored]);
    assert CreatePhase(games, [stored], sorted) == Applied(Success(()), [stored]);
    assert UpdatePhase(games, [stored], sorted) == Applied(Success(()), [stored]);
  }

  // ---- a failing phase after a successful one ----

  /** Game "G" of the scenario below owns only the right "a". */
  lemma FailedCreateGameRights()
    ensures var a, b := Right(10, "a", "x", 1, None), Right(11, "b", "x", 2, None);
      GamesRights([Game(1, "G", None), Game(2, "H", None)], [a, b], "G") == Success([a])
  {
    var games := [Game(1, "G", None), Game(2, "H", None)];
    var a, b := Right(10, "a", "x", 1, None), Right(11, "b", "x", 2, None);
    NameGIsNotBlank();
    assert FindGame(games, "G") == Some(games[0]);
    RowsOfTwo(a, b, 1);
  }

  /** Desired "b" against the game's one right "a": "b" is created, "a" deleted. */
  lemma FailedCreateClassified()
    ensures var a, d := Right(10, "a", "x", 1, None), Right(0, "b", "x", 1, None);
      Classify([a], [d]) == Success(SortedRights(Some([d]), Some([]), Some([a])))
  {
    var a, d := Right(10, "a", "x", 1, None), Right(0, "b", "x", 1, None);
    ADiffersFromB();
    PlacementOfOne(d, a);
    assert PlacementOf(d, [a]) == Create;
    assert !AnyAmbiguous([d], [a]);
    PlacedOfOne(d, [a], Create);
    PlacedOfOne(d, [a], Update);
    assert !Desires([d], a.name);
    UnmatchedOfOne(a, [d]);
  }

  /** The sort of the scenario below: "b" is new to game 1, whose "a" is deleted. */
  lemma FailedCreateSorted()
    ensures var a, b, d := Right(10, "a", "x", 1, None), Right(11, "b", "x", 2, None), Right(0, "b", "x", 1, None);
      SortedGamesRights([Game(1, "G", None), Game(2, "H", None)], [a, b], "G", [d])
        == Success(SortedRights(Some([d]), Some([]), Some([a])))
  {
    var d := Right(0, "b", "x", 1, None);
    ScenarioTextIsRequired();
    assert AreValid([d]);
    FailedCreateGameRights();
    FailedCreateClassified();
  }

  /** Deleting "a" from the table [a, b] leaves [b]. */
  lemma FailedCreateDeletes()
    ensures var a, b, d := Right(10, "a", "x", 1, None), Right(11, "b", "x", 2, None), Right(0, "b", "x", 1, None);
      DeletePhase([a, b], SortedRights(Some([d]), Some([]), Some([a]))) == Applied(Success(()), [b])
  {
    var a, b := Right(10, "a", "x", 1, None), Right(11, "b", "x", 2, None);
    assert Names([a]) == ["a"];
    RowsNamedTwo(a, b, ["a"]);
    RowsNotNamedTwo(a, b, ["a"]);
    assert TryDeleteSpec([a, b], [a]) == Applied(Success(true), [b]);
  }

  /** Creating "b" for game 1 next to game 2's "b" breaks the unique name index. */
  lemma FailedCreateCreates()
    ensures var b, d := Right(11, "b", "x", 2, None), Right(0, "b", "x", 1, None);
      CreatePhase([Game(1, "G", None), Game(2, "H", None)], [b], SortedRights(Some([d]), Some([]), Some([Right(10, "a", "x", 1, None)])))
        == Applied(Failure(CreateFailure), [b])
  {
    var b, d := Right(11, "b", "x", 2, None), Right(0, "b", "x", 1, None);
    ScenarioTextIsRequired();
    assert AreValid([d]);
    assert !UniqueNames([b] + [d]) by {
      assert ([b] + [d])[0].name == ([b] + [d])[1].name;
    }
  }

  /** A failing phase leaves the earlier phases applied: the game's right "a" is
      deleted, and the create of "b" then fails because another game already has
      a right named "b"; the deletion stays. */
  lemma FailedCreateKeepsDeletion()
    ensures var a, b := Right(10, "a", "x", 1, None), Right(11, "b", "x", 2, None);
      RegisterSpec([Game(1, "G", None), Game(2, "H", None)], [a, b], "G", [Right(0, "b", "x", 1, None)])
        == Applied(Failure(CreateFailure), [b])
  {
    var d := Right(0, "b", "x", 1, None);
    FailedCreateSorted();
    ScenarioTextIsRequired();
    assert AreValid([d]);
    FailedCreateDeletes();
    FailedCreateCreates();
  }

  // ---- a registration that moves a right from another game ----

  /** Desired "X"/"new" against game "G"'s one right "x"/"old": an update. */
  lemma MovedRightClassified()
    ensures var x, d := Right(10, "x", "old", 1, None), Right(0, "X", "new", 1, None);
      Classify([x], [d]) == Success(SortedRights(Some([]), Some([d]), Some([])))
  {
    var x, d := Right(10, "x", "old", 1, None), Right(0, "X", "new", 1, None);
    XMatchesUpperCase();
    NewDiffersFromOld();
    EqualsIgnoreCaseIsEquivalence("x", "X", "X");
    PlacementOfOne(d, x);
    assert PlacementOf(d, [x]) == Update;
    assert !AnyAmbiguous([d], [x]);
    PlacedOfOne(d, [x], Create);
    PlacedOfOne(d, [x], Update);
    assert Desires([d], x.name);
    UnmatchedOfOne(x, [d]);
  }

  lemma UpdatedTableOfTwo(x: Right, y: Right, incoming: seq<Right>)
    ensures UpdatedTable([x, y], incoming) == [UpdatedRow(x, incoming), UpdatedRow(y, incoming)]
  {
  }

  /** Of the rows "x" and "X", only "X" is named exactly by the incoming "X",
      and it is the one row the incoming right adapts. */
  lemma MovedRowsAdapted()
    ensures var x, y, d := Right(10, "x", "old", 1, None), Right(11, "X", "x", 2, None), Right(0, "X", "new", 1, None);
      SingleNamesakes([x, y], [d])
      && UpdatedTable([x, y], [d]) == [x, Right(11, "X", "new", 1, None)]
  {
    var x, y, d := Right(10, "x", "old", 1, None), Right(11, "X", "x", 2, None), Right(0, "X", "new", 1, None);
    assert Names([d]) == ["X"];
    assert x.name !in Names([d]);
    XMatchesUpperCase();
    NamesakesOfOne(d, "X");
    assert UpdatedRow(x, [d]) == x;
    assert UpdatedRow(y, [d]) == Right(11, "X", "new", 1, None);
    UpdatedTableOfTwo(x, y, [d]);
  }

  /** The update of "X" finds, by exact name, the right "X" of game "H" rather
      than "G"'s "x", and gives it to game "G" with the new description. */
  lemma MovedRightUpdated()
    ensures var x, y, d := Right(10, "x", "old", 1, None), Right(11, "X", "x", 2, None), Right(0, "X", "new", 1, None);
      UpdateSpec([Game(1, "G", None), Game(2, "H", None)], [x, y], [d])
        == Applied(Success(()), [x, Right(11, "X", "new", 1, None)])
  {
    var games := [Game(1, "G", None), Game(2, "H", None)];
    var x, y, d := Right(10, "x", "old", 1, None), Right(11, "X", "x", 2, None), Right(0, "X", "new", 1, None);
    ScenarioTextIsRequired();
    assert AreValid([d]);
    assert Names([d]) == ["X"];
    RowsNamedSecond(x, y, ["X"]);
    assert RightsNamed([x, y], ["X"]) == Success(Some([y]));
    MovedRowsAdapted();
    assert games[0] in games;
    assert ForeignKeysHold(games, [x, Right(11, "X", "new", 1, None)]);
  }

  /** The sort of the registration below: "X" is to update "G"'s "x". */
  lemma MovedRightSorted()
    ensures var x, y, d := Right(10, "x", "old", 1, None), Right(11, "X", "x", 2, None), Right(0, "X", "new", 1, None);
      SortedGamesRights([Game(1, "G", None), Game(2, "H", None)], [x, y], "G", [d])
        == Success(SortedRights(Some([]), Some([d]), Some([])))
  {
    var games := [Game(1, "G", None), Game(2, "H", None)];
    var x, y, d := Right(10, "x", "old", 1, None), Right(11, "X", "x", 2, None), Right(0, "X", "new", 1, None);
    ScenarioTextIsRequired();
    assert AreValid([d]);
    NameGIsNotBlank();
    assert FindGame(games, "G") == Some(games[0]);
    RowsOfTwo(x, y, 1);
    assert GamesRights(games, [x, y], "G") == Success([x]);
    MovedRightClassified();
  }

  /** Registering "X"/"new" for game "G", whose right is "x"/"old", while game
      "H" has a right "X": the registration succeeds by moving "H"'s "X" into
      "G", next to "x". */
  lemma MovedRightRegistered()
    ensures var x, y := Right(10, "x", "old", 1, None), Right(11, "X", "x", 2, None);
      RegisterSpec([Game(1, "G", None), Game(2, "H", None)], [x, y], "G", [Right(0, "X", "new", 1, None)])
        == Applied(Success(()), [x, Right(11, "X", "new", 1, None)])
  {
    var games := [Game(1, "G", None), Game(2, "H", None)];
    var x, y, d := Right(10, "x", "old", 1, None), Right(11, "X", "x", 2, None), Right(0, "X", "new", 1, None);
    MovedRightSorted();
    var sorted := SortedRights(Some([]), Some([d]), Some([]));
    ScenarioTextIsRequired();
    assert AreValid([d]);
    assert DeletePhase([x, y], sorted) == Applied(Success(()), [x, y]);
    assert CreatePhase(games, [x, y], sorted) == Applied(Success(()), [x, y]);
    MovedRightUpdated();
    assert UpdatePhase(games, [x, y], sorted) == UpdateSpec(games, [x, y], [d]);
  }

  /** Registering the same list again then fails: game "G" now has "x" and "X",
      two namesakes of the desired "X", and nothing changes. */
  lemma MovedRightReregistered()
    ensures var x, y := Right(10, "x", "old", 1, None), Right(11, "X", "new", 1, None);
      RegisterSpec([Game(1, "G", None), Game(2, "H", None)], [x, y], "G", [Right(0, "X", "new", 1, None)])
        == Applied(Failure(AmbiguousMatch), [x, y])
  {
    var games := [Game(1, "G", None), Game(2, "H", None)];
    var x, y, d := Right(10, "x", "old", 1, None), Right(11, "X", "new", 1, None), Right(0, "X", "new", 1, None);
    ScenarioTextIsRequired();
    assert AreValid([d]);
    NameGIsNotBlank();
    assert FindGame(games, "G") == Some(games[0]);
    RowsOfBoth(x, y, 1);
    assert GamesRights(games, [x, y], "G") == Success([x, y]);
    XMatchesUpperCase();
    NamesakesOfBoth(x, y, d.name);
    assert PlacementOf(d, [x, y]) == Ambiguous;
    assert AnyAmbiguous([d], [x, y]);
  }

  /** The starting store of the scenario keeps the store's rules. */
  lemma MovedRightStoreValid()
    ensures var games := [Game(1, "G", None), Game(2, "H", None)];
      var table := [Right(10, "x", "old", 1, None), Right(11, "X", "x", 2, None)];
      UniqueGames(games) && UniqueNames(table) && ForeignKeysHold(games, table)
  {
    var games := [Game(1, "G", None), Game(2, "H", None)];
    assert games[0] in games && games[1] in games;
    assert "x" != "X" by {
      assert "x"[0] != "X"[0];
    }
    assert "G" != "H" by {
      assert "G"[0] != "H"[0];
    }
  }

  /** Registration is not idempotent: from a store that keeps its rules, a
      successful registration followed by the same registration fails with an
      ambiguous match. */
  lemma RegistrationNotIdempotent()
    ensures var games := [Game(1, "G", None), Game(2, "H", None)];
      var table := [Right(10, "x", "old", 1, None), Right(11, "X", "x", 2, None)];
      var desired := [Right(0, "X", "new", 1, None)];
      var first := RegisterSpec(games, table, "G", desired);
      UniqueGames(games) && UniqueNames(table) && ForeignKeysHold(games, table)
      && first.result.Success?
      && RegisterSpec(games, first.table, "G", desired).result == Failure(AmbiguousMatch)
  {
    MovedRightStoreValid();
    MovedRightRegistered();
    MovedRightReregistered();
  }
}
