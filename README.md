# games-admin-panel-api — rights registration, tokens and cache, in Dafny

This project models the core of an admin panel back end for games. Other
services use the panel to register the rights of their games. The panel stores
games and rights, issues login tokens that carry a user's rights, and keeps a
cache in front of its storage.

The model covers these parts:

- **Rights service** (`RightsService`, `RightsSort`, `RightsServiceProperties`).
  The store is a class `AdminStore` holding the games table and the rights
  table. Its rules are unique right names, unique game names and ids, and a
  foreign key from each right to its game.
  - Every operation is a function from the old store to an outcome and a new
    table. The operations are `GetAllAsync`, `GetAsync`, `TryDeleteRangeAsync`,
    `AddRangeAsync`, `UpdateRangeAsync`, `SortGamesRightsAsync` and
    `RegisterAsync`, plus the two game operations the register flow uses.
  - A method of `AdminStore` implements each operation with the source's steps.
    It is proved to produce exactly that outcome and to keep the store's rules.
  - The reconciliation ("sort") places each desired right by its stored
    namesakes, matched ignoring case. A right with no namesake is created. A
    right with a single namesake is updated when it differs and left alone when
    it does not. Two or more namesakes fail the sort. Stored rights that no
    desired right names are deleted.
- **Comparers** (`Comparers`). `RightsSortComparer` and `ExternalGamesComparer`,
  with their null and same-reference cases and their hash codes.
- **Validity** (`Domain`). The data annotations of `Right` and `Game`: required
  text, and lengths measured in UTF-16 code units.
- **Register endpoint** (`RightsController`):
  - resolve the posted game by name: create it, update it, or keep it;
  - stamp the posted rights with the game's id;
  - register them under the game's name.
- **Token builder** (`JwtBuilding`). A class whose claim dictionary
  `AddUsername`, `AddClaims` and `Build` fill, where adding a key twice fails.
- **Token endpoint** (`TokensController`). The checks on the password, the
  nickname and the rights, then the builder chain.
- **Cache** (`Caching`, `GuidFormat`):
  - JSON entries with a time to live, stored under `key.ToString()`;
  - the get-or-compute wrapper, with ghost counters for delegate calls and
    writes;
  - the string form of a Guid key, proved invertible.

`RegisterScenarios` works through three concrete registrations that show how
the phases interact:

- A case-only rename fails with not-found, or is skipped.
- A create failure leaves the preceding deletion in place.
- An update takes over another game's right of the same exact name, after
  which registering the same list again fails.

## Model

| member | source | states |
|---|---|---|
| `Domain.IsValid` | src/Infrastructure/Extensions/ModelsValidatorExtensions.cs:21-36 | the data annotations of a right: name and description required and at most 32 UTF-16 units; `BlankTextInvalid`, `LongTextInvalid` and `ValidityIgnoresIdsAndGame` prove what that admits |
| `Domain.GameIsValid` | src/Domain/Models/Games/Game.cs:19-29 | the annotations of a game: a required name of at most 32 units and an optional description of 1 to 32 units |
| `Domain.BlankTextInvalid` | src/Domain/Models/Rights/Right.cs:20-31 | a right with a blank name or description fails `[Required]` |
| `Domain.LongTextInvalid` | src/Domain/Models/Rights/Right.cs:21-30 | a name or description longer than 32 characters fails `[StringLength(32)]`, since its UTF-16 length is at least its character count |
| `Domain.ValidityIgnoresIdsAndGame` | src/Domain/Models/Rights/Right.cs:36-44 | the Id, the GameId and the `Game` navigation play no part in validity |
| `Text.Utf16LengthBounds` | src/Domain/Models/Rights/Right.cs:21 | the length `[StringLength]` measures lies between the character count and twice it |
| `Text.EqualsIgnoreCaseIsEquivalence` | src/Infrastructure/Comparers/RightsSortComparer.cs:34-36 | ordinal ignore-case equality is reflexive, symmetric and transitive |
| `Comparers.RightsEqual` | src/Infrastructure/Comparers/RightsSortComparer.cs:17-42 | `Equals` with its null cases and its three compared fields; the lemmas below prove it an equivalence that ignores Id and `Game` |
| `Comparers.GamesEqual` | src/Infrastructure/Comparers/ExternalGamesComparer.cs:16-41 | `Equals` with the reference and null cases and the non-blank description rule; the `GamesEqual` lemmas state what it accepts |
| `Comparers.RightHashCode` | src/Infrastructure/Comparers/RightsSortComparer.cs:49-52 | `HashCode.Combine` of name, description and game id under a seeded combination |
| `Comparers.GameHashCode` | src/Infrastructure/Comparers/ExternalGamesComparer.cs:48-51 | `HashCode.Combine` of name and description under a seeded combination |
| `Comparers.RightsEqualReflexive` | src/Infrastructure/Comparers/RightsSortComparer.cs:19-22 | the same reference, two nulls included, is equal |
| `Comparers.RightsEqualOneNull` | src/Infrastructure/Comparers/RightsSortComparer.cs:24-32 | exactly one null operand is unequal, on either side |
| `Comparers.RightsEqualFields` | src/Infrastructure/Comparers/RightsSortComparer.cs:34-41 | two rights are equal iff names and descriptions match ignoring case and game ids are identical |
| `Comparers.RightsEqualIgnoresIdAndGame` | src/Infrastructure/Comparers/RightsSortComparer.cs:34-39 | changing the Id or the `Game` of either operand never changes the verdict |
| `Comparers.RightsEqualDetectsChange` | src/Infrastructure/Comparers/RightsSortComparer.cs:34-39 | a change of name or description beyond case, or of game id, makes a right unequal to the original |
| `Comparers.RightsEqualSymmetricTransitive` | src/Infrastructure/Comparers/RightsSortComparer.cs:17-42 | on any operands, nulls included, the comparer is symmetric and transitive |
| `Comparers.RightHashOfIdenticalFields` | src/Infrastructure/Comparers/RightsSortComparer.cs:49-52 | rights with identical name, description and game id hash alike for every seed |
| `Comparers.RightHashNotCaseInsensitive` | src/Infrastructure/Comparers/RightsSortComparer.cs:34-52 | two rights the comparer calls equal ("a" and "A") hash apart whenever the seeded combination tells the names apart, so hash and equality disagree |
| `Comparers.GamesEqualSameObject` | src/Infrastructure/Comparers/ExternalGamesComparer.cs:18-21 | the same reference, two nulls included, is equal |
| `Comparers.GamesEqualOneNull` | src/Infrastructure/Comparers/ExternalGamesComparer.cs:23-31 | exactly one null operand is unequal |
| `Comparers.GamesEqualFields` | src/Infrastructure/Comparers/ExternalGamesComparer.cs:33-40 | two distinct games are equal iff names match ignoring case and both descriptions are present, non-blank and match ignoring case |
| `Comparers.GamesEqualBlankDescriptionNeverMatches` | src/Infrastructure/Comparers/ExternalGamesComparer.cs:34-36 | a game with a blank or absent description is unequal to every other object, even to a copy of itself |
| `Comparers.GamesEqualIgnoresId` | src/Infrastructure/Comparers/ExternalGamesComparer.cs:33-38 | ids play no part in the verdict |
| `Comparers.GamesEqualDetectsChange` | src/Infrastructure/Comparers/ExternalGamesComparer.cs:33-38 | a different name or description, or a description present on one side only, gives unequal |
| `Comparers.GamesEqualSymmetric` | src/Infrastructure/Comparers/ExternalGamesComparer.cs:16-41 | the comparison is symmetric |
| `Comparers.GameHashOfIdenticalFields` | src/Infrastructure/Comparers/ExternalGamesComparer.cs:48-51 | games with identical name and description hash alike for every seed |
| `RightsSort.PlacementOf` | src/Infrastructure/Services/Implementations/RightsService.cs:330-343 | `SingleOrDefault` over the namesakes and the comparer decide create, update, unchanged or a throw; `SortPartition` states the lists this yields |
| `RightsSort.Classify` | src/Infrastructure/Services/Implementations/RightsService.cs:315-348 | the fast path, the loop and the delete list once the game's rights are known; `ClassifyRights` runs it and `SortPartition`, `SortDeleteList` and `SortCoversBothSides` state its meaning |
| `RightsSort.GamesRights` | src/Infrastructure/Services/Implementations/RightsService.cs:56-88 | `GetAllAsync`; `GamesRightsMeaning` states its success and error cases |
| `RightsSort.SortedGamesRights` | src/Infrastructure/Services/Implementations/RightsService.cs:291-356 | `SortGamesRightsAsync`; `SortErrorPrecedence` and `SortFastPath` state its checks and fast path |
| `RightsSort.Namesakes` | src/Infrastructure/Services/Implementations/RightsService.cs:330-331 | the rights matched by `SingleOrDefault` are exactly those whose name equals the given one ignoring case |
| `RightsSort.FindGame` | src/Infrastructure/Services/Implementations/GamesService.cs:42-62 | the game found has exactly the given name; none is found iff no game has it |
| `RightsSort.RowsOf` | src/Infrastructure/Services/Implementations/RightsService.cs:81 | the game's rows are exactly the table rows with its id |
| `RightsSort.GamesRightsMeaning` | src/Infrastructure/Services/Implementations/RightsService.cs:56-88 | `GetAllAsync` succeeds iff the name is not blank and some game has it; it then returns exactly that game's rows; not-found iff no game has the name |
| `RightsSort.SortErrorPrecedence` | src/Infrastructure/Services/Implementations/RightsService.cs:297-315 | the sort checks, in order, a blank game name, then an invalid right, then an unknown game |
| `RightsSort.SortFastPath` | src/Infrastructure/Services/Implementations/RightsService.cs:315-319 | a game without stored rights creates exactly the input, and the update and delete lists stay absent |
| `RightsSort.SortPartition` | src/Infrastructure/Services/Implementations/RightsService.cs:328-344 | created iff no stored namesake; updated iff one stored namesake that the comparer calls different; otherwise it has one equal namesake; no right is in both lists; both lists keep input order |
| `RightsSort.SortDeleteList` | src/Infrastructure/Services/Implementations/RightsService.cs:346-348 | deleted iff stored and no desired right has its name ignoring case, in stored order; no deleted name is also created or updated |
| `RightsSort.SortCoversBothSides` | src/Infrastructure/Services/Implementations/RightsService.cs:328-348 | each stored right is deleted or named by a desired right; each desired right is created or has a kept stored namesake |
| `RightsSort.SortAmbiguousWhenStoredNamesDifferInCase` | src/Infrastructure/Services/Implementations/RightsService.cs:330-331 | two stored rights "r" and "R" make the sort throw for a desired "r" |
| `RightsService.TryDeleteSpec` | src/Infrastructure/Services/Implementations/RightsService.cs:174-208 | `TryDeleteRangeAsync` as a function of the table; `TryDeleteMeaning` states its meaning |
| `RightsService.AddSpec` | src/Infrastructure/Services/Implementations/RightsService.cs:211-239 | `AddRangeAsync` as a function of the table; `AddMeaning` states its meaning |
| `RightsService.Adapt` | src/Infrastructure/MapsterConfigsRegister.cs:77-81 | the mapping of an incoming right onto a stored one, with the two ignore rules; `UpdatedRowMeaning` states its effect |
| `RightsService.UpdateSpec` | src/Infrastructure/Services/Implementations/RightsService.cs:242-288 | `UpdateRangeAsync` as a function of the table; `UpdateMeaning` and `UpdatedTableMeaning` state its meaning |
| `RightsService.ApplyPhases` | src/Infrastructure/Services/Implementations/RightsService.cs:142-168 | delete, create, update, stopping at the first failure; `FailedPhaseKeepsEarlierPhases` states what a failure leaves |
| `RightsService.RegisterSpec` | src/Infrastructure/Services/Implementations/RightsService.cs:124-171 | `RegisterAsync` as a function of the store; `RegisteredNames`, `RegisteredDescriptions` and `RegisterChecksBeforeChanging` state its meaning |
| `RightsService.AddGameSpec` | src/Infrastructure/Services/Implementations/GamesService.cs:87-119 | `GamesService.AddAsync` as a function of the games; `ResolvedGameMeaning` states its effect in the register flow |
| `RightsService.UpdateGameSpec` | src/Infrastructure/Services/Implementations/GamesService.cs:122-164 | `GamesService.UpdateAsync` as a function of the games; `ResolvedGameMeaning` states its effect in the register flow |
| `RightsService.Names` | src/Infrastructure/Services/Implementations/RightsService.cs:180 | one name per right, in order; the names are exactly those of the rights |
| `RightsService.RowsNamed` | src/Infrastructure/Services/Implementations/RightsService.cs:106-108 | the rows found are exactly those whose name is one of the names, compared exactly and across all games |
| `RightsService.RowsNotNamed` | src/Infrastructure/Services/Implementations/RightsService.cs:189 | the rows left after `RemoveRange` are exactly those whose name is none of the names |
| `RightsService.IndexOfGame` | src/Infrastructure/Services/Implementations/GamesService.cs:65-84 | the position found holds the game with that id; none is found iff no game has the id |
| `RightsService.AdaptFoundRows` | src/Infrastructure/Services/Implementations/RightsService.cs:268-274 | the loop fails iff some row found by name has other than one incoming namesake; otherwise the result is the table with each found row adapted |
| `RightsService.ClassifyRights` | src/Infrastructure/Services/Implementations/RightsService.cs:316-355 | the loop's create, update and delete lists, and its failure on several namesakes, are those of the reconciliation function |
| `RightsService.AdminStore.constructor` | src/Infrastructure/Services/Implementations/RightsService.cs:42-53 | a store over tables that keep the uniqueness and foreign-key rules |
| `RightsService.AdminStore.GetAll` | src/Infrastructure/Services/Implementations/RightsService.cs:56-88 | `GetAllAsync`: every right returned is stored and belongs to a known game |
| `RightsService.AdminStore.Get` | src/Infrastructure/Services/Implementations/RightsService.cs:91-121 | `GetAsync`: no names is an invalid argument; a present result is non-empty and holds only stored rows with one of the names |
| `RightsService.AdminStore.SortGamesRights` | src/Infrastructure/Services/Implementations/RightsService.cs:291-356 | `SortGamesRightsAsync` computes the reconciliation whose properties `RightsSort` proves |
| `RightsService.AdminStore.TryDeleteRange` | src/Infrastructure/Services/Implementations/RightsService.cs:174-208 | `TryDeleteRangeAsync` yields the delete outcome, keeps the store rules and leaves the games alone |
| `RightsService.AdminStore.AddRange` | src/Infrastructure/Services/Implementations/RightsService.cs:211-239 | `AddRangeAsync` yields the insert outcome and keeps the store rules |
| `RightsService.AdminStore.UpdateRange` | src/Infrastructure/Services/Implementations/RightsService.cs:242-288 | `UpdateRangeAsync` yields the update outcome and keeps the store rules, unique names included |
| `RightsService.AdminStore.Register` | src/Infrastructure/Services/Implementations/RightsService.cs:124-171 | `RegisterAsync` yields the outcome and table of the register function and keeps the store rules |
| `RightsService.AdminStore.AddGame` | src/Infrastructure/Services/Implementations/GamesService.cs:87-119 | `GamesService.AddAsync` yields the game-insert outcome, keeps the store rules and leaves the rights alone |
| `RightsService.AdminStore.UpdateGame` | src/Infrastructure/Services/Implementations/GamesService.cs:122-164 | `GamesService.UpdateAsync` yields the game-update outcome, keeps the store rules and leaves the rights alone |
| `RightsService.UpdatedRowKeepsName` | src/Infrastructure/Services/Implementations/RightsService.cs:268-274 | the update never renames a row; a changed row takes the fields of an incoming right with exactly its name |
| `RightsService.UpdatedTableKeepsNames` | src/Infrastructure/Services/Implementations/RightsService.cs:268-276 | the update keeps the table's names in place, so unique names stay unique |
| `RightsService.FilterKeepsUniqueNames` | src/Infrastructure/Services/Implementations/RightsService.cs:189 | removing rows keeps right names unique |
| `RightsServiceProperties.TryDeleteMeaning` | src/Infrastructure/Services/Implementations/RightsService.cs:174-208 | fails only on an empty list; returns false with nothing removed iff no stored name is among the names; otherwise removes exactly the rows so named, in any game |
| `RightsServiceProperties.AddMeaning` | src/Infrastructure/Services/Implementations/RightsService.cs:211-239 | success appends the rights and failure changes nothing; invalid input is a validation error; a taken name or an unknown game fails the insert; valid, fresh, unique names of known games always succeed |
| `RightsServiceProperties.ClashBreaksUniqueNames` | src/Infrastructure/Services/Implementations/RightsService.cs:227-237 | a stored name inserted again breaks the unique index |
| `RightsServiceProperties.UnknownGameBreaksForeignKeys` | src/Infrastructure/Services/Implementations/RightsService.cs:227-237 | a right of an unknown game breaks the foreign key |
| `RightsServiceProperties.AppendKeepsUniqueNames` | src/Infrastructure/Services/Implementations/RightsService.cs:227-231 | two lists with unique names and no shared name append to a list with unique names |
| `RightsServiceProperties.UpdatedRowMeaning` | src/Infrastructure/Services/Implementations/RightsService.cs:268-274 | a row with one incoming namesake keeps its name; unnamed rows are unchanged; named rows take the description and game id of an incoming right with their name, and keep their Id when the incoming Id is empty |
| `RightsServiceProperties.UpdatedTableMeaning` | src/Infrastructure/Services/Implementations/RightsService.cs:268-276 | every row of the table, in place, is updated in that sense |
| `RightsServiceProperties.UpdateMeaning` | src/Infrastructure/Services/Implementations/RightsService.cs:242-288 | failure changes nothing; incoming names absent from the table are not-found; success is the updated table, with a single incoming namesake for every row found |
| `RightsServiceProperties.DeletePhaseNames` | src/Infrastructure/Services/Implementations/RightsService.cs:143-150 | after the delete phase the game holds only names that some desired right has |
| `RightsServiceProperties.DeletePhaseKeeps` | src/Infrastructure/Services/Implementations/RightsService.cs:143-150 | the delete phase keeps every row of the game that a desired right names |
| `RightsServiceProperties.CreatePhaseNames` | src/Infrastructure/Services/Implementations/RightsService.cs:152-159 | after the create phase the game holds exactly the desired names, ignoring case |
| `RightsServiceProperties.UpdatePhaseNames` | src/Infrastructure/Services/Implementations/RightsService.cs:161-168 | the update phase keeps the game holding exactly the desired names |
| `RightsServiceProperties.SortFacts` | src/Infrastructure/Services/Implementations/RightsService.cs:316-355 | a successful sort has a create list drawn from the desired rights, an update list drawn from them, and a delete list that is the unmatched stored rights |
| `RightsServiceProperties.SortedNamesake` | src/Infrastructure/Services/Implementations/RightsService.cs:328-348 | a desired right that is not created has a stored namesake that is not deleted |
| `RightsServiceProperties.DeletePhaseMembership` | src/Infrastructure/Services/Implementations/RightsService.cs:143-150 | the table after the delete phase, by membership |
| `RightsServiceProperties.RegisterSucceedsThroughPhases` | src/Infrastructure/Services/Implementations/RightsService.cs:142-168 | a successful registration is the sort of the game's rows followed by delete, create and update |
| `RightsServiceProperties.CreatePhaseMembership` | src/Infrastructure/Services/Implementations/RightsService.cs:152-159 | the table after the create phase, by membership |
| `RightsServiceProperties.DeleteAndCreateNames` | src/Infrastructure/Services/Implementations/RightsService.cs:142-159 | after a successful delete and create, the game holds exactly the desired names |
| `RightsServiceProperties.RegisteredNames` | src/Infrastructure/Services/Implementations/RightsService.cs:124-171 | after a successful registration the game holds exactly the registered names, ignoring case: new ones added, others kept, omitted ones deleted; `RegisteredDescriptions` gives their descriptions |
| `RightsServiceProperties.RegisterChecksBeforeChanging` | src/Infrastructure/Services/Implementations/RightsService.cs:128-142 | an empty list (`Last()`), an invalid right or a failing sort each fail with the table unchanged, in that order |
| `RightsServiceProperties.SameNameSameRight` | src/Infrastructure/Services/Implementations/RightsService.cs:227-237 | in a list with unique names, a name picks out one right |
| `RightsServiceProperties.KeptRowDescription` | src/Infrastructure/Services/Implementations/RightsService.cs:330-343 | a stored right that a desired right of exactly its name leaves unchanged matches that right's description, ignoring case |
| `RightsServiceProperties.CreatedOrKeptDescription` | src/Infrastructure/Services/Implementations/RightsService.cs:143-159 | after delete and create, a row with exactly a desired right's name that is not to be updated carries that right's description, ignoring case |
| `RightsServiceProperties.UpdatedRowDescription` | src/Infrastructure/Services/Implementations/RightsService.cs:268-276 | after the update phase, a row with exactly a desired right's name took its description, or was untouched and the right is not to be updated |
| `RightsServiceProperties.SoleNamesakeDescription` | src/Infrastructure/Services/Implementations/RightsService.cs:330-343 | a stored right that is the single namesake of a desired right the sort leaves unchanged has that right's description, ignoring case |
| `RightsServiceProperties.PhasesRowDescription` | src/Infrastructure/Services/Implementations/RightsService.cs:142-168 | after delete, create and update all succeed, a row of the game with exactly a desired right's name carries its description, ignoring case |
| `RightsServiceProperties.RegisteredRowDescription` | src/Infrastructure/Services/Implementations/RightsService.cs:124-171 | one row of the game after a successful registration carries the description of the desired right with exactly its name |
| `RightsServiceProperties.RegisteredDescriptions` | src/Infrastructure/Services/Implementations/RightsService.cs:124-171 | after a successful registration of rights with distinct names, every row of the game with exactly a registered name carries that right's description, ignoring case: created and changed rights take it, unchanged ones already match (as src/Tests/Unit/Services/RightsServiceTests.cs:166-174 expects) |
| `RightsServiceProperties.FailedPhaseKeepsEarlierPhases` | src/Infrastructure/Services/Implementations/RightsService.cs:142-168 | after a successful sort the delete phase cannot fail; a failing create leaves exactly the table the delete phase left; a failing update leaves exactly the table the create phase left, with the created rights |
| `RegisterScenarios.CaseOnlyRenamePlacement` | src/Infrastructure/Services/Implementations/RightsService.cs:330-343 | stored "Read"/"old" is the one namesake of desired "READ"; the description decides between update and unchanged |
| `RegisterScenarios.CaseOnlyRenameSorted` | src/Infrastructure/Services/Implementations/RightsService.cs:291-356 | the sort of the case-only rename |
| `RegisterScenarios.CaseOnlyRenameUpdateNotFound` | src/Infrastructure/Services/Implementations/RightsService.cs:258-266 | the exact-name lookup for "READ" finds no stored "Read", so the update is not-found |
| `RegisterScenarios.CaseOnlyRenameNotFound` | src/Infrastructure/Services/Implementations/RightsService.cs:124-171 | registering "READ" with a new description over stored "Read" fails with not-found and changes nothing |
| `RegisterScenarios.CaseOnlyRenameIgnored` | src/Infrastructure/Services/Implementations/RightsService.cs:124-171 | registering "READ" with the same description succeeds and leaves "Read" stored under its old spelling |
| `RegisterScenarios.FailedCreateSorted` | src/Infrastructure/Services/Implementations/RightsService.cs:291-356 | the sort of the failing scenario: "b" created, "a" deleted |
| `RegisterScenarios.FailedCreateDeletes` | src/Infrastructure/Services/Implementations/RightsService.cs:174-208 | deleting "a" from [a, b] leaves [b] |
| `RegisterScenarios.FailedCreateCreates` | src/Infrastructure/Services/Implementations/RightsService.cs:211-239 | creating "b" for game 1 beside game 2's "b" fails the insert |
| `RegisterScenarios.FailedCreateKeepsDeletion` | src/Infrastructure/Services/Implementations/RightsService.cs:142-159 | a failing create leaves the preceding deletion applied: the registration fails and "a" is gone |
| `RegisterScenarios.MovedRightClassified` | src/Infrastructure/Services/Implementations/RightsService.cs:315-348 | desired "X"/"new" against the game's "x"/"old" is an update |
| `RegisterScenarios.MovedRightUpdated` | src/Infrastructure/Services/Implementations/RightsService.cs:258-276 | the exact-name lookup for "X" finds another game's "X", which the update moves into the registering game |
| `RegisterScenarios.MovedRightRegistered` | src/Infrastructure/Services/Implementations/RightsService.cs:124-171 | registering "X" for game "G" succeeds by moving game "H"'s "X" into "G", next to "x" |
| `RegisterScenarios.MovedRightReregistered` | src/Infrastructure/Services/Implementations/RightsService.cs:328-344 | registering the same list again fails: "G" now has two namesakes of "X" |
| `RegisterScenarios.RegistrationNotIdempotent` | src/Infrastructure/Services/Implementations/RightsService.cs:124-171 | from a store that keeps its rules, a successful registration repeated fails with an ambiguous match, so registration is not idempotent |
| `RightsController.ResolvedGame` | src/WebApi/Controllers/RightsController.cs:74-90 | create, update or keep the posted game; `ResolvedGameMeaning` and `ResolvedGameIsFound` state the outcome |
| `RightsController.RegisterRightsSpec` | src/WebApi/Controllers/RightsController.cs:65-101 | the request as a function of the store; `RegisteredForPostedGame` and `RegisteredDescriptionsForPostedGame` state its meaning |
| `RightsController.StampGameId` | src/WebApi/Controllers/RightsController.cs:92-96 | the mapping loop yields the stamped rights, whose meaning `StampedMeaning` states |
| `RightsController.StampedMeaning` | src/WebApi/Controllers/RightsController.cs:92-96 | one right per posted right, keeping name and description, with the game's id, an empty Id and no game; validity is unchanged |
| `RightsController.RegisterRights` | src/WebApi/Controllers/RightsController.cs:65-101 | the action yields the result, games and rights of the request function and keeps the store rules |
| `RightsController.FindGameOfUnique` | src/Infrastructure/Services/Implementations/GamesService.cs:48-49 | with unique game names, a stored game is the one its name finds |
| `RightsController.ResolvedGameMeaning` | src/WebApi/Controllers/RightsController.cs:74-90 | create: succeeds iff the game is valid and the new id is fresh, adding the posted game with that id; update: keeps the stored id, takes the posted fields and touches no other game; keep: nothing changes |
| `RightsController.ResolvedGameIsFound` | src/WebApi/Controllers/RightsController.cs:74-98 | a resolved game has the posted name, is found by it, and the store rules still hold |
| `RightsController.BlankStoredDescriptionAlwaysUpdates` | src/WebApi/Controllers/RightsController.cs:87-90 | a stored game without a non-blank description is updated on every registration |
| `RightsController.EqualGameIsKept` | src/WebApi/Controllers/RightsController.cs:87-90 | a stored game equal by name and non-blank description, ignoring case, is kept |
| `RightsController.GameFailureKeepsRights` | src/WebApi/Controllers/RightsController.cs:75-90 | a failure while resolving the game is the request's failure, and no right changes |
| `RightsController.RegisteredForPostedGame` | src/WebApi/Controllers/RightsController.cs:65-101 | after a successful request the game under the posted name holds exactly the posted right names, ignoring case |
| `RightsController.RegisteredDescriptionsForPostedGame` | src/WebApi/Controllers/RightsController.cs:65-101 | after a successful request with distinct posted names, every right of the posted game with exactly a posted name carries the posted description, ignoring case |
| `JwtBuilding.AddGroups` | src/Infrastructure/Services/Implementations/JwtBuilder.cs:76-81 | the loop over the groups; `AddGroupsSucceeds`, `AddGroupsKeeps` and `AddGroupsAdds` state its meaning |
| `JwtBuilding.AddClaimsSpec` | src/Infrastructure/Services/Implementations/JwtBuilder.cs:69-86 | `AddClaims` as a function of the claims; `AddClaimsSucceeds`, `AddClaimsKeys` and `ClaimOfRight` state its meaning |
| `JwtBuilding.GameNames` | src/Infrastructure/Services/Implementations/JwtBuilder.cs:75 | the group keys are distinct and are exactly the games of the rights |
| `JwtBuilding.GroupOf` | src/Infrastructure/Services/Implementations/JwtBuilder.cs:75-76 | a group holds exactly the rights of its game |
| `JwtBuilding.ToDictionary` | src/Infrastructure/Services/Implementations/JwtBuilder.cs:78 | defined iff the group's names are unique; its keys are exactly those names, each mapped to its right's description |
| `JwtBuilding.AddClaim` | src/Infrastructure/Services/Implementations/JwtBuilder.cs:94 | `Add` succeeds iff the key is new, then adds exactly that key and keeps the rest; otherwise it throws and changes nothing |
| `JwtBuilding.JwtBuilder.constructor` | src/Infrastructure/Services/Implementations/JwtBuilder.cs:34-49 | issuer and audience from the settings, no claims, no expiry |
| `JwtBuilding.JwtBuilder.AddUsername` | src/Infrastructure/Services/Implementations/JwtBuilder.cs:89-99 | adds the user name under "Username", failing if it is there already |
| `JwtBuilding.JwtBuilder.AddClaims` | src/Infrastructure/Services/Implementations/JwtBuilder.cs:69-86 | the group loop yields the claims and outcome whose properties `AddClaimsSucceeds`, `AddClaimsKeys` and `ClaimOfRight` state |
| `JwtBuilding.JwtBuilder.Build` | src/Infrastructure/Services/Implementations/JwtBuilder.cs:52-66 | sets the expiry to now plus the lifetime, then adds the token id; the token carries the issuer, audience, expiry and claims |
| `JwtBuilding.AddGroupsSucceeds` | src/Infrastructure/Services/Implementations/JwtBuilder.cs:76-81 | the loop succeeds iff every group has unique names and no game name is already a claim; it fails only on a duplicate key |
| `JwtBuilding.AddGroupsKeeps` | src/Infrastructure/Services/Implementations/JwtBuilder.cs:76-81 | existing claims survive, failure or not, and new keys are game names |
| `JwtBuilding.AddGroupsAdds` | src/Infrastructure/Services/Implementations/JwtBuilder.cs:76-81 | on success each game name maps to its group's dictionary |
| `JwtBuilding.AddClaimsSucceeds` | src/Infrastructure/Services/Implementations/JwtBuilder.cs:69-86 | succeeds iff the list is non-empty, no game name is a claim and each game's right names are unique; otherwise `Last()` or a duplicate key fails it |
| `JwtBuilding.AddClaimsKeys` | src/Infrastructure/Services/Implementations/JwtBuilder.cs:75-81 | keeps the old claims; on success the keys are the old ones plus exactly the game names |
| `JwtBuilding.ClaimOfRight` | src/Infrastructure/Services/Implementations/JwtBuilder.cs:75-81 | a right's game claim maps its name to its description and has exactly the names of that game's rights |
| `JwtBuilding.RepeatedNameInGameFails` | src/Infrastructure/Services/Implementations/JwtBuilder.cs:78 | two rights of one game with one name make `AddClaims` throw a duplicate key |
| `JwtBuilding.GameNamedUsernameFails` | src/Infrastructure/Services/Implementations/JwtBuilder.cs:80-94 | a game named "Username" clashes with the user-name claim |
| `JwtBuilding.SecondAddFails` | src/Infrastructure/Services/Implementations/JwtBuilder.cs:57-94 | a second user name or a second build throws and changes no claim |
| `TokensController.Decide` | src/WebApi/Controllers/TokensController.cs:69-94 | the password, nickname and rights checks; `CreateOutcomes` states their order |
| `TokensController.TokenRun` | src/WebApi/Controllers/TokensController.cs:96-100 | the builder chain, stopping at the first throw; `FreshBuilderFailures` and `IssuedTokenClaims` state its outcomes |
| `TokensController.CreateRun` | src/WebApi/Controllers/TokensController.cs:62-106 | the response and the builder state the endpoint leaves; `CreateLeavesBuilder` states that state |
| `TokensController.CreateSpec` | src/WebApi/Controllers/TokensController.cs:62-106 | the endpoint's response; `CreateOutcomes` states it |
| `TokensController.Create` | src/WebApi/Controllers/TokensController.cs:62-106 | the action yields the endpoint's response, leaves the builder with the claims each step added, and sets the expiry exactly when `Build` runs |
| `TokensController.CreateOutcomes` | src/WebApi/Controllers/TokensController.cs:69-94 | not-found iff no password; unauthorized iff the owner's nickname differs; forbidden iff it matches but there are no rights; a token only when all checks pass |
| `TokensController.IssuedTokenClaims` | src/WebApi/Controllers/TokensController.cs:96-100 | a fresh builder's token has the settings' issuer and audience, the expiry, the user name, the token id, and for every right its game's claim mapping its name to its description |
| `TokensController.FreshBuilderFailures` | src/WebApi/Controllers/TokensController.cs:96-100 | a user with rights gets an exception iff a game is named "Username" or "jti" or a game has two rights of one name; it is always a duplicate key |
| `TokensController.NicknameIsCaseSensitive` | src/WebApi/Controllers/TokensController.cs:80-86 | "admin" does not log in as "Admin" |
| `TokensController.CreateLeavesBuilder` | src/WebApi/Controllers/TokensController.cs:62-106 | a refused request leaves the builder untouched; old claims survive; an issued token carries exactly the builder's claims; the expiry is set exactly when the user name and the rights' claims went in |
| `GuidFormat.HexRoundTrip` | src/Infrastructure/Services/Implementations/CacheService.cs:53 | reading back the hexadecimal digits gives the number |
| `GuidFormat.GuidWidth` | src/Infrastructure/Services/Implementations/CacheService.cs:53 | 32 hexadecimal digits hold exactly the 128-bit values |
| `GuidFormat.GuidStringRoundTrip` | src/Infrastructure/Services/Implementations/CacheService.cs:53 | a Guid's string form reads back to the Guid |
| `GuidFormat.GuidStringInjective` | src/Infrastructure/Services/Implementations/CacheService.cs:53 | two Guids have the same string form iff they are equal |
| `Caching.KeyString` | src/Infrastructure/Services/Implementations/CacheService.cs:53 | `key.ToString()` for Guid and string keys; `GuidKeys` states that it separates Guids |
| `Caching.GetSpec` | src/Infrastructure/Services/Implementations/CacheService.cs:47-70 | the read of an entry and its deserialisation; `SetThenGet` and `DeleteThenGet` state its meaning |
| `Caching.SetSpec` | src/Infrastructure/Services/Implementations/CacheService.cs:73-86 | the write of the JSON with the lifetime; `SetThenGet` and `OtherKeysUntouched` state its meaning |
| `Caching.DeleteSpec` | src/Infrastructure/Services/Implementations/CacheService.cs:89-100 | the removal of the key; `DeleteThenGet` and `OtherKeysUntouched` state its meaning |
| `Caching.WrapSpec` | src/Infrastructure/Services/Implementations/CacheService.cs:103-134 | get, else run the delegate and set a present result; `WrapHit`, `WrapMiss` and `WrapTwice` state its meaning |
| `Caching.CacheService.constructor` | src/Infrastructure/Services/Implementations/CacheService.cs:35-44 | the lifetime is read once; the counters start at zero |
| `Caching.CacheService.Get` | src/Infrastructure/Services/Implementations/CacheService.cs:47-70 | `GetAsync` yields the read function's result, whose meaning `SetThenGet` and `DeleteThenGet` state |
| `Caching.CacheService.Set` | src/Infrastructure/Services/Implementations/CacheService.cs:73-86 | stores the value's JSON under the key's string with the lifetime, counting one write |
| `Caching.CacheService.Delete` | src/Infrastructure/Services/Implementations/CacheService.cs:89-100 | removes the key's entry |
| `Caching.CacheService.Wrap` | src/Infrastructure/Services/Implementations/CacheService.cs:103-134 | result, entries, delegate calls and writes are those of the wrap function |
| `Caching.SetThenGet` | src/Infrastructure/Services/Implementations/CacheService.cs:53-83 | a value set is read back under its key until its lifetime runs out, and is absent afterwards |
| `Caching.OtherKeysUntouched` | src/Infrastructure/Services/Implementations/CacheService.cs:80-97 | setting or deleting one key changes what no other key reads |
| `Caching.DeleteThenGet` | src/Infrastructure/Services/Implementations/CacheService.cs:53-61 | a deleted key reads as missing; deleting a missing key changes nothing |
| `Caching.GuidKeys` | src/Infrastructure/Services/Implementations/CacheService.cs:53 | a Guid key and its string form address one entry; distinct Guids address distinct entries |
| `Caching.WrapHit` | src/Infrastructure/Services/Implementations/CacheService.cs:110-117 | a cached value is returned with no delegate call and no write |
| `Caching.WrapMiss` | src/Infrastructure/Services/Implementations/CacheService.cs:119-133 | a miss calls the delegate once; an absent result is returned without a write; a value is written once, returned, and read back until its lifetime runs out |
| `Caching.WrapTwice` | src/Infrastructure/Services/Implementations/CacheService.cs:103-134 | a second wrap within the lifetime returns the first's value, with no delegate call and no write |

## Left out

- Null strings and null lists are not modelled. Strings are never null, so
  `IsNullOrWhiteSpace` becomes "empty or white space only".
- Ignore-case comparison folds only ASCII letters. The .NET ordinal
  upper-casing of other letters is not modelled.
- Async execution, cancellation tokens and logging are not modelled. Logging
  matters in one place: the `Last()` calls inside log statements are modelled,
  because they throw on an empty list.
- The database is two sequences.
  - Entity Framework's change tracking is not modelled.
  - The key of a created game is a parameter (`newGameId`).
  - Right keys are not generated. `RightsService.AddSpec` appends rights with
    the Id they carry, so a right created through the register endpoint keeps
    the empty Id; the store gives each a fresh key.
  - `RightsService.Adapt` copies a non-empty incoming Id onto a stored right.
    The store refuses such a change of a primary key; the model does not.
  - Unique right Ids are not among the store rules the model keeps.
  - Storage failures are not modelled, except the unique-index and
    foreign-key failures of inserts and updates.
  - Storage failures while deleting are not modelled.
- `RightsService.Adapt` follows both ignore rules that
  `src/Infrastructure/MapsterConfigsRegister.cs` lines 77-81 write for rights.
  These are: keep the Id when the incoming one is empty, and keep the `Game`
  when the incoming one is null. The second `NewConfig` call for the same type
  pair may reset the first rule inside the mapping library. That library
  behaviour is not part of this model.
- Registration is not idempotent, and no property says it is.
  `RegisterScenarios.RegistrationNotIdempotent` shows why: the update phase
  looks names up exactly across all games, so it can move another game's
  right into the registering game, and the same list then sorts as
  ambiguous.
- Model-binding checks (the 400 responses for malformed request bodies), the
  HTTP pipeline and the exception middleware are not modelled. Exceptions
  appear as `Failure` values or `Thrown` responses.
- The token's signing, its serialisation and the clock are not modelled.
  - A token is its issuer, audience, expiry and claims.
  - `now` (in minutes) and the token id `jti` are parameters.
  - The builder's lifetime in the dependency container is not modelled.
    `Create` works on whatever claims the builder already holds.
  - The fluent return values (`return this`) are not modelled.
- `JwtBuilding.JwtBuilder.AddUsername`: its interface documents an
  `ArgumentNullException` for an empty user name, which the code never
  throws. The model follows the code and accepts any user name.
- `JwtBuilding.JwtBuilder.AddClaims` fails with `NoElements` on an empty list.
  This is the `Last()` call in the log statement, not the documented
  `ArgumentNullException`. A right without its `Game` loaded is excluded by a
  precondition, not modelled as a `NullReferenceException`.
- JSON serialisation is a pair of function constants.
  - Lemmas that read values back require that every value encodes to a
    non-blank string that decodes to the value.
  - Malformed or null deserialisations become `SerializationFailure`.
- Redis is a map from key strings to entries with an expiry instant.
  - Time is a `now` parameter.
  - Eviction under memory pressure, connection failures and the parsing of
    the lifetime string are not modelled.
- `Caching.CacheService.Get` returns `None` for a missing entry. `default`
  differs from `null` when the cached type is a value type; that case is not
  modelled.
- Cache keys are Guids or strings.
  - `ToString()` of other key types is not modelled.
  - The null-key and null-value `ArgumentNullException`s that the cache
    interface documents are not modelled, because keys and values are never
    null here.
  - How the Redis client treats an empty key string is not modelled.
- The delegate given to `WrapCacheOperationsAsync` is a pure function value.
  Its own side effects are out of scope.
