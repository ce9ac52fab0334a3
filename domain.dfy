/** The persisted entities of the rights pipeline (`Game`, `Right`), their
    declarative validation rules, and the kinds of failure the core raises. */
module Domain {
  import opened Wrappers
  import opened Text

  /** A 128-bit identifier; `EmptyGuid` is `Guid.Empty`, the default value. */
  type Guid = x: nat | x < 0x1_0000_0000_0000_0000_0000_0000_0000_0000
  const EmptyGuid: Guid := 0

  /** The limit of `[StringLength(32)]` on names and descriptions. */
  const MaxTextLength: nat := 32

  /** A game that owns rights; its description may be absent. */
  datatype Game = Game(id: Guid, name: string, description: Option<string>)

  /** A named right of one game. `game` is the optional navigation reference,
      populated only when a query includes it. */
  datatype Right = Right(id: Guid, name: string, description: string, gameId: Guid, game: Option<Game>)

  /** `[Required]` (not null, empty or white space) and `[StringLength(32)]`. */
  predicate IsRequiredText(s: string) {
    !IsBlank(s) && Utf16Length(s) <= MaxTextLength
  }

  /** The data-annotation validity of a right: name and description are required
      and at most 32 long. `GameId` is a non-nullable Guid, which `[Required]`
      never rejects, and the `Game` navigation is not validated. */
  predicate IsValid(r: Right) {
    IsRequiredText(r.name) && IsRequiredText(r.description)
  }

  /** Every right of the list is valid (`AreValid`). */
  predicate AreValid(rights: seq<Right>) {
    forall r :: r in rights ==> IsValid(r)
  }

  /** The data-annotation validity of a game: the name is required and at most 32
      long; a present description has between 1 and 32 characters. */
  predicate GameIsValid(g: Game) {
    IsRequiredText(g.name)
    && (g.description.Some? ==> 1 <= Utf16Length(g.description.value) <= MaxTextLength)
  }

  /** The kinds of exception the core throws. */
  datatype Failure =
    | InvalidArgument   // ArgumentNullException for a blank or missing argument
    | ValidationFailure // ArgumentException when a model fails its data annotations
    | NotFound          // NotFoundException
    | NoElements        // InvalidOperationException from Last() on an empty list
    | AmbiguousMatch    // InvalidOperationException from Single()/SingleOrDefault()
    | DuplicateKey      // ArgumentException from Dictionary.Add or ToDictionary
    | CreateFailure     // CreateException wrapping a failed insert
    | UpdateFailure     // UpdateException wrapping a failed update
    | SerializationFailure // SerializationException or JsonException from JSON conversion

  /** A right whose name or description is blank is invalid. */
  lemma BlankTextInvalid(r: Right)
    requires IsBlank(r.name) || IsBlank(r.description)
    ensures !IsValid(r)
  {
  }

  /** A right whose name or description has more than 32 characters is invalid. */
  lemma LongTextInvalid(r: Right)
    requires |r.name| > MaxTextLength || |r.description| > MaxTextLength
    ensures !IsValid(r)
  {
    Utf16LengthBounds(r.name);
    Utf16LengthBounds(r.description);
  }

  /** Neither the Id, the owning game id nor the `Game` navigation plays a part in validity. */
  lemma ValidityIgnoresIdsAndGame(r: Right, id: Guid, gameId: Guid, game: Option<Game>)
    ensures IsValid(r.(id := id, gameId := gameId, game := game)) == IsValid(r)
  {
  }
}
