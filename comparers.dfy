/** The two equality comparers: `RightsSortComparer`, which decides whether a
    registered right differs from its stored namesake, and
    `ExternalGamesComparer`, which decides whether a posted game differs from the
    stored one. */
module Comparers {
  import opened Wrappers
  import opened Text
  import opened Domain

  /** `RightsSortComparer.Equals`. Two nulls are the same reference; one null is
      unequal to anything else; two rights are equal when their names and
      descriptions match ignoring case and their game ids are identical. The
      same-reference shortcut for two non-null operands is not written out: the
      field comparison returns true for one object compared with itself
      (`RightsEqualReflexive`). */
  predicate RightsEqual(first: Option<Right>, second: Option<Right>) {
    match (first, second)
    case (None, None) => true
    case (None, _) => false
    case (_, None) => false
    case (Some(a), Some(b)) =>
      EqualsIgnoreCase(a.name, b.name) && EqualsIgnoreCase(a.description, b.description) && a.gameId == b.gameId
  }

  /** `ExternalGamesComparer.Equals`. `sameObject` is `ReferenceEquals(first,
      second)`: one object has one value, and two nulls are one reference. Two
      distinct non-null games are equal when their names match ignoring case and
      both descriptions are non-blank and match ignoring case. */
  predicate GamesEqual(first: Option<Game>, second: Option<Game>, sameObject: bool)
    requires sameObject ==> first == second
    requires first.None? && second.None? ==> sameObject
  {
    if sameObject then true
    else if first.None? || second.None? then false
    else
      var a, b := first.value, second.value;
      EqualsIgnoreCase(a.name, b.name)
      && a.description.Some? && !IsBlank(a.description.value)
      && b.description.Some? && !IsBlank(b.description.value)
      && EqualsIgnoreCase(a.description.value, b.description.value)
  }

  /** `HashCode.Combine(right.Name, right.Description, right.GameId)` for a
      per-process seeded `combine`. */
  function RightHashCode(combine: (string, string, Guid) -> int, r: Right): int {
    combine(r.name, r.description, r.gameId)
  }

  /** `HashCode.Combine(game.Name, game.Description)`. */
  function GameHashCode(combine: (string, Option<string>) -> int, g: Game): int {
    combine(g.name, g.description)
  }

  // ---- RightsSortComparer ----

  /** The same reference, including two nulls, is equal. */
  lemma RightsEqualReflexive(x: Option<Right>)
    ensures RightsEqual(x, x)
  {
  }

  /** Exactly one null operand is unequal. */
  lemma RightsEqualOneNull(r: Right)
    ensures !RightsEqual(None, Some(r)) && !RightsEqual(Some(r), None)
  {
  }

  /** Two non-null rights are equal exactly when name, description and game id agree. */
  lemma RightsEqualFields(a: Right, b: Right)
    ensures RightsEqual(Some(a), Some(b))
      <==> (EqualsIgnoreCase(a.name, b.name) && EqualsIgnoreCase(a.description, b.description) && a.gameId == b.gameId)
  {
  }

  /** Ids and the `Game` navigation are ignored. */
  lemma RightsEqualIgnoresIdAndGame(a: Right, b: Right, id1: Guid, id2: Guid, g1: Option<Game>, g2: Option<Game>)
    ensures RightsEqual(Some(a.(id := id1, game := g1)), Some(b.(id := id2, game := g2))) == RightsEqual(Some(a), Some(b))
  {
  }

  /** Changing any one of name (beyond case), description (beyond case) or game
      id makes a right unequal to the original. */
  lemma RightsEqualDetectsChange(a: Right, name: string, description: string, gameId: Guid)
    ensures !EqualsIgnoreCase(name, a.name) ==> !RightsEqual(Some(a), Some(a.(name := name)))
    ensures !EqualsIgnoreCase(description, a.description) ==> !RightsEqual(Some(a), Some(a.(description := description)))
    ensures gameId != a.gameId ==> !RightsEqual(Some(a), Some(a.(gameId := gameId)))
  {
  }

  /** On any operands the rights comparer is symmetric and transitive. */
  lemma RightsEqualSymmetricTransitive(x: Option<Right>, y: Option<Right>, z: Option<Right>)
    ensures RightsEqual(x, y) ==> RightsEqual(y, x)
    ensures RightsEqual(x, y) && RightsEqual(y, z) ==> RightsEqual(x, z)
  {
  }

  /** Field-identical rights hash alike, whatever the seed. */
  lemma RightHashOfIdenticalFields(combine: (string, string, Guid) -> int, a: Right, b: Right)
    requires a.name == b.name && a.description == b.description && a.gameId == b.gameId
    ensures RightHashCode(combine, a) == RightHashCode(combine, b)
  {
  }

  /** The hash is case-sensitive while the equality is not: two rights the
      comparer calls equal hash apart whenever the seeded combination
      distinguishes "a" from "A". */
  lemma RightHashNotCaseInsensitive(combine: (string, string, Guid) -> int, description: string, gameId: Guid)
    requires combine("a", description, gameId) != combine("A", description, gameId)
    ensures var a, b := Right(EmptyGuid, "a", description, gameId, None), Right(EmptyGuid, "A", description, gameId, None);
      RightsEqual(Some(a), Some(b)) && RightHashCode(combine, a) != RightHashCode(combine, b)
  {
    var a, b := Right(EmptyGuid, "a", description, gameId, None), Right(EmptyGuid, "A", description, gameId, None);
    assert Fold(a.name) == "A" == Fold(b.name);
  }

  // ---- ExternalGamesComparer ----

  /** The same reference, including two nulls, is equal. */
  lemma GamesEqualSameObject(x: Option<Game>)
    ensures GamesEqual(x, x, true)
  {
  }

  /** Exactly one null operand is unequal. */
  lemma GamesEqualOneNull(g: Game)
    ensures !GamesEqual(None, Some(g), false) && !GamesEqual(Some(g), None, false)
  {
  }

  /** Two distinct game objects are equal exactly when names match ignoring case
      and both descriptions are present, non-blank and match ignoring case. */
  lemma GamesEqualFields(a: Game, b: Game)
    ensures GamesEqual(Some(a), Some(b), false)
      <==> (EqualsIgnoreCase(a.name, b.name)
            && a.description.Some? && b.description.Some?
            && !IsBlank(a.description.value) && !IsBlank(b.description.value)
            && EqualsIgnoreCase(a.description.value, b.description.value))
  {
  }

  /** Not reflexive on values: two distinct objects whose description is blank
      or absent are never equal, even with identical names and ids. */
  lemma GamesEqualBlankDescriptionNeverMatches(a: Game, b: Game)
    requires a.description.None? || IsBlank(a.description.value)
    ensures !GamesEqual(Some(a), Some(b), false) && !GamesEqual(Some(b), Some(a), false)
    ensures !GamesEqual(Some(a), Some(a), false)
  {
  }

  /** Ids are ignored. */
  lemma GamesEqualIgnoresId(a: Game, b: Game, id1: Guid, id2: Guid)
    ensures GamesEqual(Some(a.(id := id1)), Some(b.(id := id2)), false) == GamesEqual(Some(a), Some(b), false)
  {
  }

  /** A differing name or description, or a description present on one side
      only, gives unequal. */
  lemma GamesEqualDetectsChange(a: Game, b: Game)
    requires !EqualsIgnoreCase(a.name, b.name)
      || (a.description.Some? != b.description.Some?)
      || (a.description.Some? && b.description.Some? && !EqualsIgnoreCase(a.description.value, b.description.value))
    ensures !GamesEqual(Some(a), Some(b), false)
  {
  }

  /** The comparison is symmetric in its two operands. */
  lemma GamesEqualSymmetric(x: Option<Game>, y: Option<Game>, sameObject: bool)
    requires sameObject ==> x == y
    requires x.None? && y.None? ==> sameObject
    ensures GamesEqual(x, y, sameObject) == GamesEqual(y, x, sameObject)
  {
  }

  /** Field-identical games hash alike, whatever the seed. */
  lemma GameHashOfIdenticalFields(combine: (string, Option<string>) -> int, a: Game, b: Game)
    requires a.name == b.name && a.description == b.description
    ensures GameHashCode(combine, a) == GameHashCode(combine, b)
  {
  }
}
