# The Sabotaged Spaceship, modelled in Dafny

"The Sabotaged Spaceship" is a small Swing detective game. The player starts a case aboard a ship with
three rooms (Engine Room, Crew Quarters, Bridge). They move between the rooms, search them for clues,
question the suspects and accuse one of them. They can save and load the game through a SQLite store.

This project models the game's logic: the `GameController`, the `DatabaseManager` and the entity
classes beneath them. It proves what these promise.

| file | module | what it holds |
|---|---|---|
| `Wrappers.dfy` | `Wrappers` | `Option`, `Result` and `Outcome` (the last for a statement that either passes or throws) |
| `JavaStrings.dfy` | `JavaStrings` | `String.split` with a one-character pattern and limit 0, `trim`, `Boolean.parseBoolean`, `String.valueOf(boolean)` |
| `SuspectCodec.dfy` | `SuspectCodec` | the `name;description;guilty\|` text that stores a suspect list, both directions |
| `Model.dfy` | `Model` | `Difficulty`, the classes `Clue`, `Suspect`, `Room` and `Case`, and the `GameState` value a load returns |
| `Tables.dfy` | `Tables` | the SQLite tables as values; each statement's effect; the save transaction and the load as functions |
| `Data.dfy` | `Data` | the `DatabaseManager` class, which issues the statements one at a time against its `db` field |
| `GameRules.dfy` | `GameRules` | the pure rules: room layout, north/south tables, case/clue/question file parsing, the question filter, clue reconciliation on load |
| `Game.dfy` | `Game` | the `GameController` class (rooms, case, questioning, moving, searching, saving, loading) and the accusation check |

## How the model is built

**Objects and values.** Clues, suspects, rooms and cases are classes, because the game changes them
in place and shares them. A clue found in a room is the same object that `searchRoom` appends to the
case's live clue list. `restoreClueState` flags clues through the rooms' live lists. `GameState` and
`Difficulty` are values.

**Files.** A file the game reads is passed in as its lines, or `None` when it cannot be opened.
The player's dialog choices and the order `Collections.shuffle` produces are parameters as well.

**Uncaught exceptions.** An unchecked exception the Java code does not catch (an index past an array,
a null dereference) ends the operation where it is thrown. The method then returns a `Crash` naming
it, and the state is left as the operation had it at that point.

**Database failures.** Any SQL statement can throw. The `fault: Option<Step>` parameter names the
statement that throws in a given run, or `None`.

**Save transaction.** `Tables.SaveTransaction` is the specification of the save: the statements in
order, up to the commit. `Tables.SaveRun` adds the one way a save can end without commit or rollback:
the controller's questioned map is `None` (Java's `null`) until a case or a saved game is loaded. Then
the save throws a `NullPointerException` after writing the player and room rows. The catch takes only
`SQLException`, and the `finally` switches auto-commit back on, which commits those rows.
`Data.DatabaseManager.SaveGameState` runs the statements against the `db` field. It restores the old
tables after an SQL failure and keeps the rows written so far after the null map. `Tables.Consistent` is the invariant that AUTOINCREMENT and the
save code keep. It says that player ids are positive, distinct and below the sequence, and that every
row keyed by a player id uses an id already handed out.

## Model

| member | source | states |
|---|---|---|
| JavaStrings.DropTrailingEmptyRest | src/data/DatabaseManager.java:219-222 | what `split` drops from the end of its pieces is empty strings only |
| JavaStrings.PiecesAfterPrefix | src/data/DatabaseManager.java:219-222 | splitting text that starts with a separator-free prefix and a separator yields that prefix, then the pieces of the rest |
| JavaStrings.SplitThree | src/data/DatabaseManager.java:222 | three separator-free fields joined by the separator split back into exactly those three, provided the last one is non-empty |
| JavaStrings.JoinPieces | src/data/DatabaseManager.java:219 | joining the pieces of a string with the separator gives the string back |
| JavaStrings.PiecesOfJoin | src/data/DatabaseManager.java:219 | separator-free pieces are recovered by splitting their join |
| JavaStrings.Trim | src/game/GameController.java:328 | the trimmed text is no longer than the input and neither starts nor ends with a character at or below U+0020 |
| JavaStrings.TrimStartDropsBlanks | src/game/GameController.java:328 | what the leading trim removes are characters at or below U+0020 only |
| JavaStrings.TrimEndDropsBlanks | src/game/GameController.java:328 | what the trailing trim removes are characters at or below U+0020 only |
| JavaStrings.TrimIdempotent | src/game/GameController.java:382-383 | trimming trimmed text changes nothing |
| JavaStrings.BooleanText | src/data/DatabaseManager.java:206 | the text written for a flag is non-empty, and `parseBoolean` reads the same flag back from it |
| SuspectCodec.Serialize | src/data/DatabaseManager.java:201-209 | the encoding is empty exactly when the suspect list is empty |
| SuspectCodec.ParseSegment | src/data/DatabaseManager.java:220-226 | one `\|`-segment contributes at most one suspect |
| SuspectCodec.SerializeAppend | src/data/DatabaseManager.java:201-209 | encoding is in list order: the encoding of a concatenation is the concatenation of the encodings |
| SuspectCodec.PiecesOfSerialized | src/data/DatabaseManager.java:219 | the `\|`-pieces of an encoding followed by more text are one segment per suspect, then the pieces of that text |
| SuspectCodec.ParseEntriesAppend | src/data/DatabaseManager.java:220-226 | decoding segments is segment by segment: decoding a concatenation concatenates the results |
| SuspectCodec.ParseEntriesIgnoresTrailingBlanks | src/data/DatabaseManager.java:219-221 | the trailing empty pieces `split` removes would have been skipped anyway |
| SuspectCodec.ParseEntryOfFields | src/data/DatabaseManager.java:222-224 | a storable suspect's `name;description;guilty` segment parses back to that suspect |
| SuspectCodec.RoundTrip | src/data/DatabaseManager.java:201-229 | when no name or description contains `;` or `\|`, decoding the encoding gives the same suspects in the same order |
| SuspectCodec.ParseEntriesOfMalformed | src/data/DatabaseManager.java:223 | a segment with fewer than three `;`-fields contributes nothing |
| SuspectCodec.SkipsMalformedSegment | src/data/DatabaseManager.java:219-226 | a segment with fewer than three `;`-fields, an empty one among them, is dropped without error between well-formed ones |
| SuspectCodec.DeserializeSingle | src/data/DatabaseManager.java:212-229 | decoding the encoding of one suspect parses that suspect's segment |
| SuspectCodec.ParseFourFields | src/data/DatabaseManager.java:222-224 | a segment with four fields keeps the first two and reads the third as the flag |
| SuspectCodec.SeparatorInNameBreaksRoundTrip | src/data/DatabaseManager.java:201-229 | the round-trip condition is needed: a `;` in a name shifts the fields, and the description is read as the flag |
| Model.Difficulty.DisplayName | src/Model/Difficulty.java:6-17 | each level's display name starts with its own initial letter, E, M or H |
| Model.DisplayNameDetermines | src/Model/Difficulty.java:6-21 | two levels have the same display name exactly when they are the same level; `toString` is the display name |
| Model.Clue.constructor | src/Model/Clue.java:8-11 | stores the given description and flag |
| Model.Clue.SetDescription | src/Model/Clue.java:17-19 | changes the description only |
| Model.Clue.SetDiscovered | src/Model/Clue.java:23-25 | changes the flag only |
| Model.Suspect.constructor | src/Model/Suspect.java:9-14 | stores name, description and guilt; name and description are constants |
| Model.Suspect.SetGuilty | src/Model/Suspect.java:26-28 | changes the guilt flag only |
| Model.Room.constructor | src/Model/Room.java:13-18 | stores name and description (constants), with empty clue and connection lists |
| Model.Room.AddClue | src/Model/Room.java:34-36 | appends the clue at the end; earlier clues keep their places |
| Model.Room.ConnectRoom | src/Model/Room.java:37-39 | appends the name, duplicates allowed; no reverse edge is added |
| Model.Case.constructor | src/Model/Case.java:14-20 | stores all five arguments |
| Model.Case.Default | src/Model/Case.java:22-24 | empty title and crime scene, no suspects, no clues, medium difficulty |
| Model.Case.SetTitle | src/Model/Case.java:30-32 | changes the title only |
| Model.Case.SetCrimeScene | src/Model/Case.java:36-38 | changes the crime scene only |
| Model.Case.SetSuspects | src/Model/Case.java:42-44 | replaces the suspect list; the clue list is not touched |
| Tables.PlayerIdSentinel | src/data/DatabaseManager.java:350-357 | in a consistent store, the id lookup gives -1 exactly for an unknown name, and a positive id otherwise |
| Tables.AddPlayer | src/data/DatabaseManager.java:104-110 | the insert fails exactly when the name already has a row (UNIQUE); otherwise it adds one row with the next id, score 0 and case 1, and changes nothing else |
| Tables.SetProgress | src/data/DatabaseManager.java:123-131 | sets case and score of the named row only; an unknown name changes nothing |
| Tables.UpsertCluesEffect | src/data/DatabaseManager.java:249-261 | after the batch, a key is present iff it was before or is one of the player's descriptions; those carry the last flag given for them, and every other row keeps its value |
| Tables.DropSavedCase | src/data/DatabaseManager.java:183-188 | the player's case row is gone and nothing else changes |
| Tables.AddSavedCase | src/data/DatabaseManager.java:190-197 | the insert fails exactly when the player already has a case row; otherwise it adds that row only |
| Tables.GetOrCreateResult | src/data/DatabaseManager.java:144-149 | get-or-create fails exactly at a lookup fault, or at an insert fault for a new name; otherwise it yields the registered tables and the saved id |
| Tables.GetOrCreateReuses | src/data/DatabaseManager.java:144-149 | a known player's id is reused and the tables are unchanged |
| Tables.GetOrCreateAdds | src/data/DatabaseManager.java:144-149 | an unknown player gets exactly one new row, under the next id, and nothing else changes |
| Tables.RegisteredKeepsConsistent | src/data/DatabaseManager.java:144-149 | registering a player keeps the store consistent, and the player's id is below the sequence |
| Tables.ProgressError | src/data/DatabaseManager.java:153-164 | the room and progress statements pass only for a non-null room (NOT NULL `current_room`) |
| Tables.SaveCaseResult | src/data/DatabaseManager.java:179-198 | delete-then-insert fails exactly at a fault for a non-null case; otherwise it replaces the player's case row, and a null case changes nothing |
| Tables.SaveUnfold | src/data/DatabaseManager.java:134-176 | a committed save is get-or-create, the room and progress writes, then the case rows |
| Tables.SaveFailsExactly | src/data/DatabaseManager.java:134-176 | a save fails exactly when the room is null or a statement it reaches throws |
| Tables.NullMapWrites | src/data/DatabaseManager.java:153-164 | with a null questioned map nothing commits completely; the save rolls back exactly at a room fault, a null room or a fault preparing the progress statement, always with an SQL error; otherwise only the room row is written before the null error ends the save |
| Tables.SaveRun | src/data/DatabaseManager.java:134-176 | the save as written: only an SQL error leads to a rollback |
| Tables.SaveRunEnds | src/data/DatabaseManager.java:134-176 | a save is rolled back exactly when the room is null or a statement it reaches throws; it commits everything only with a questioned map; with a null map it commits the player row and the room row and leaves every other table as it was |
| Tables.NullMapSaveIsPartial | src/data/DatabaseManager.java:169-175 | with a null map, a save into an empty store ends with the player and room saved and no case row; no complete save, for any map, leaves those tables |
| Tables.AtomicSaveAllOrNothing | src/data/DatabaseManager.java:169-175 | if the save rolled back on every exception, it would leave the tables as before or completely saved, and a null map would always roll back |
| Tables.CommittedStores | src/data/DatabaseManager.java:153-164 | after a committed save: the player's row has the saved id; that id maps to the room; every questioned entry is stored under (id, name); every clue under (id, description) with its last flag; the case row is the new case exactly when there is one |
| Tables.CommittedKeepsProgress | src/data/DatabaseManager.java:233-261 | upserts never delete: every progress row present before is still there, and other players' rows keep their values |
| Tables.CommittedKeepsOtherPlayers | src/data/DatabaseManager.java:134-198 | every player row, and every other player's room and case, survive a save unchanged |
| Tables.CommittedKeepsConsistent | src/data/DatabaseManager.java:134-198 | a committed save keeps the store consistent |
| Tables.QuestionedOf | src/data/DatabaseManager.java:303-314 | the loaded map holds exactly the player's `suspect_progress` rows, with their flags |
| Tables.DiscoveredOf | src/data/DatabaseManager.java:318-331 | the loaded descriptions are exactly the player's `clue_progress` rows whose flag is TRUE |
| Tables.LoadFindsPlayer | src/data/DatabaseManager.java:264-283 | without a fault, a load finds nothing exactly when the player is unknown; a known player without a room row is placed in the Engine Room |
| Tables.LoadKnownPlayer | src/data/DatabaseManager.java:264-283 | a known player's load reads room, case row, questioned map and discovered descriptions stored under its id |
| Tables.CommittedThenLoad | src/data/DatabaseManager.java:134-331 | a load after a committed save reads back the saved room and case row, every questioned entry and every discovered clue |
| Tables.SaveThenLoad | src/data/DatabaseManager.java:134-331 | the same for any successful save transaction; in addition, the suspect text read back decodes to the saved suspects |
| Tables.LastFlagTrue | src/data/DatabaseManager.java:249-261 | when every row of a batch is flagged, the last flag for any description is true |
| Data.Records | src/data/DatabaseManager.java:201-209 | one record per suspect, in list order, with its name, description and guilt |
| Data.ClueRowsIndex | src/data/DatabaseManager.java:253-258 | row i of the clue batch is clue i's description and flag |
| Data.DatabaseManager.GetPlayerId | src/data/DatabaseManager.java:350-357 | throws at its fault; otherwise yields the player's id, or -1 |
| Data.DatabaseManager.CreatePlayer | src/data/DatabaseManager.java:104-110 | throws at its fault, fails on a duplicate name with the tables unchanged, and otherwise adds the row `AddPlayer` describes |
| Data.DatabaseManager.UpdatePlayerProgress | src/data/DatabaseManager.java:123-131 | throws at its fault with the tables unchanged; otherwise the tables become `SetProgress` of the old ones |
| Data.DatabaseManager.SaveSuspectProgress | src/data/DatabaseManager.java:233-245 | throws at its fault with the tables unchanged; a null map throws a null error, also with the tables unchanged; otherwise the batch upserts one row per questioned-map entry and changes nothing else |
| Data.DatabaseManager.SaveClueProgress | src/data/DatabaseManager.java:249-261 | throws at its fault with the tables unchanged; otherwise the tables become the clue rows upserted in list order |
| Data.DatabaseManager.SaveCaseAndSuspects | src/data/DatabaseManager.java:179-198 | ends as `SaveCase` does: nothing for a null case, otherwise delete then insert of the encoded case |
| Data.DatabaseManager.GetOrCreatePlayer | src/data/DatabaseManager.java:144-149 | ends as `GetOrCreate` does: the same error, or the same tables and id |
| Data.DatabaseManager.WriteSteps | src/data/DatabaseManager.java:153-164 | with a map, the room, progress and case statements end as the specification's progress and case stages do; with a null map, they end as `NullMapWrites` does, the room row written when the null error is thrown |
| Data.DatabaseManager.SaveSteps | src/data/DatabaseManager.java:140-166 | with auto-commit off, the statements up to the commit end as `SaveRun` does: the committed tables, the SQL error, or the null error with the rows written so far |
| Data.DatabaseManager.SaveGameState | src/data/DatabaseManager.java:134-176 | the save ends as `SaveEnded` describes for `SaveRun`: committed tables; or the tables before the call and the same SQL error; or, for a null questioned map, the player and room rows kept and a null error; auto-commit is back on every time |
| Data.DatabaseManager.GetCurrentRoom | src/data/DatabaseManager.java:334-347 | throws at its fault; otherwise yields the saved room, or the Engine Room when there is none |
| Data.DatabaseManager.NewSuspects | src/data/DatabaseManager.java:220-226 | one new suspect per decoded record, in order, carrying that record's fields |
| Data.DatabaseManager.LoadPlayerCase | src/data/DatabaseManager.java:286-300 | throws at its fault; otherwise yields null exactly without a case row, else a new medium case without clues carrying the row's title, crime scene and decoded suspects |
| Data.DatabaseManager.LoadQuestionedSuspects | src/data/DatabaseManager.java:303-314 | throws at its fault; otherwise yields exactly the player's progress rows |
| Data.DatabaseManager.NewClues | src/data/DatabaseManager.java:326-328 | one new discovered clue per description, each description once |
| Data.DatabaseManager.LoadDiscoveredClues | src/data/DatabaseManager.java:318-331 | throws at its fault; otherwise yields one new discovered clue per TRUE row of the player |
| Data.DatabaseManager.LoadGameState | src/data/DatabaseManager.java:264-283 | fails exactly when the specification does, with the same error; yields null exactly for an unknown player; otherwise yields a state matching the specification's snapshot, with a new case |
| GameRules.NavigationFollowsLayout | src/game/GameController.java:552-573 | on the ship, north leads along a declared connection except from the Bridge, where it stays; south likewise except from the Engine Room |
| GameRules.NorthSouthInverse | src/game/GameController.java:552-573 | south undoes north and north undoes south away from the ends; any room off the ship maps to itself both ways |
| GameRules.LayoutClosed | src/game/GameController.java:66-69 | every declared connection leads to a room of the ship, and the declared connections happen to be symmetric |
| GameRules.ParseSuspectLine | src/game/GameController.java:161-167 | a line without `:` fails; a parsed suspect is guilty exactly when it is named Samantha |
| GameRules.SuspectLineRoundTrip | src/game/GameController.java:161-167 | `name:description` with separator-free parts and a non-empty description parses to that suspect |
| GameRules.ExtraFieldsIgnored | src/game/GameController.java:161-162 | text after a second `:` is ignored |
| GameRules.EmptyDescriptionRejected | src/game/GameController.java:161-162 | `name:` splits into one part, so the line fails |
| GameRules.SuspectLines | src/game/GameController.java:158-160 | at most three lines, those after the title and crime scene |
| GameRules.ParseSuspects | src/game/GameController.java:157-171 | a parse that succeeds yields one record per line |
| GameRules.ParseSuspectsLines | src/game/GameController.java:157-171 | the suspect lines parse exactly when each line does, and then record i is line i's suspect |
| GameRules.ParsedGuilt | src/game/GameController.java:162-167 | every parsed suspect is guilty exactly when it is named Samantha |
| GameRules.NonBlankTrimmed | src/game/GameController.java:327-331 | no more lines than read, none empty |
| GameRules.NonBlankTrimmedFrom | src/game/GameController.java:327-331 | every kept line is the trimmed text of some line read |
| GameRules.NonBlankTrimmedKeeps | src/game/GameController.java:327-331 | the trimmed text of every non-blank line is kept |
| GameRules.LoadQuestions | src/game/GameController.java:377-395 | an unreadable file gives the three default questions; otherwise no more questions than lines |
| GameRules.LoadQuestionsFromFile | src/game/GameController.java:380-386 | a readable file yields exactly the trimmed text of its non-blank lines |
| GameRules.Available | src/game/GameController.java:425-428 | the filter keeps exactly the questions not yet asked, each as often as the file has it |
| GameRules.Offered | src/game/GameController.java:436-438 | the first min(3, n) questions of the shuffled list |
| GameRules.OfferedAreNew | src/game/GameController.java:425-438 | whatever order the shuffle gives, one to three questions are offered, all of the file and none already asked |
| GameRules.Reconcile | src/game/GameController.java:306-319 | one row per clue, in order |
| GameRules.ReconcileRows | src/game/GameController.java:312-318 | every clue keeps its description; a clue whose description was loaded becomes discovered; every other clue keeps its flag |
| GameRules.ReconcileNeverClears | src/game/GameController.java:312-318 | no flag is ever cleared |
| GameRules.ReconcileIdempotent | src/game/GameController.java:306-319 | restoring twice with the same clues is restoring once |
| GameRules.ReconcileUnion | src/game/GameController.java:306-319 | restoring with one list, then another, is restoring with both |
| Game.EnabledButtonsMove | src/game/GameController.java:629-633 | on the ship, a navigation button is enabled exactly when pressing it leads somewhere else |
| Game.Share | src/game/GameController.java:334-339 | a room receives at most two clues |
| Game.ShareFirstFour | src/game/GameController.java:334-339 | with at least four clues, the first four are dealt in order: two to the engine room, one each to the crew quarters and the bridge; any other key gets none |
| Game.ShareDistinct | src/game/GameController.java:334-339 | no clue is dealt to two places |
| Game.Discovered | src/game/GameController.java:195-202 | the gathered list is no longer than the clue list |
| Game.DiscoveredMembers | src/game/GameController.java:195-202 | the gathered clues are exactly the discovered clues of the rooms |
| Game.Unflagged | src/game/GameController.java:611-619 | the clues a search finds are clues of the room |
| Game.UnflaggedFirst | src/game/GameController.java:611-617 | the first undiscovered clue heads the list a search finds |
| Game.Questioned | src/game/GameController.java:398-453 | a question is asked only of a tracked suspect, and it is the one picked; a shown dialog offers `Offered` of the shuffle; recording a question for an untracked suspect throws |
| Game.OffersOnlyNewQuestions | src/game/GameController.java:398-453 | the dialog offers one to three new questions of the file, and the question asked is new; questioning stops with "all asked" exactly when every question of the file was asked of the suspect |
| Game.FirstNamed | src/game/GameController.java:537-540 | the first suspect with that name, or -1 exactly when nobody has it |
| Game.Accuse | src/game/GameController.java:514-549 | nobody to accuse exactly without a case or suspects; no accusation exactly when the dialog is cancelled; a correct accusation names a listed suspect |
| Game.AccusationNeedsSamantha | src/game/GameController.java:537-543 | with the suspects loadCase builds, an accusation is correct exactly when it names Samantha and she is listed |
| Game.GameController.InitializeShip | src/game/GameController.java:53-76 | three new, empty, distinct rooms keyed Engine Room, Crew Quarters and Bridge, connected as declared; the crew quarters object is named "Crews Quarters" |
| Game.GameController.LoadCase | src/game/GameController.java:147-186 | an unreadable file changes nothing; otherwise a new medium case gets the first two lines as title and crime scene and the parsed suspects (Samantha guilty), each unquestioned; a line without a description throws before the suspects are stored |
| Game.GameController.BuildCase | src/game/GameController.java:150-173 | a new case with the file's title and crime scene, and the parsed suspects exactly when every suspect line parses |
| Game.GameController.TitledCase | src/game/GameController.java:150-154 | a new empty medium case with the given title and crime scene |
| Game.GameController.CreateSuspects | src/game/GameController.java:157-171 | one new suspect per parsed line, in order, Samantha guilty |
| Game.GameController.NewSuspect | src/game/GameController.java:162-167 | built innocent, then guilty exactly when named Samantha |
| Game.GameController.Unquestioned | src/game/GameController.java:176-179 | every suspect's name, mapped to false |
| Game.GameController.CreateClues | src/game/GameController.java:327-331 | one new, distinct, undiscovered clue per line, in order |
| Game.GameController.Deal | src/game/GameController.java:334-339 | each room's list becomes its old list followed by its share |
| Game.GameController.LoadClues | src/game/GameController.java:322-344 | an unreadable file leaves the rooms empty; otherwise the rooms hold the dealt clues, and the dealing passes exactly when there are at least four clues, otherwise throws |
| Game.GameController.constructor | src/game/GameController.java:26-50 | a store over the existing tables, a valid ship, the case and clues loaded, no current room; with a case, its suspects unquestioned and an empty set of asked questions per suspect; without one, no case, a null questioned map and nothing tracked |
| Game.GameController.LoadResources | src/game/GameController.java:98-102 | a fresh ship, the case and the clues loaded; passes exactly when the case file (if readable) and the clue file are well-formed |
| Game.GameController.ResetAsked | src/game/GameController.java:138-143 | exactly the case's suspects are tracked, each with no question asked; nothing else changes |
| Game.GameController.EnterShip | src/game/GameController.java:105-143 | the player is in the Engine Room; the display throws exactly without a case; otherwise question tracking restarts |
| Game.GameController.Tracked | src/game/GameController.java:257-263 | every suspect without an entry gets an empty one; existing entries are kept |
| Game.GameController.StartNewCase | src/game/GameController.java:98-144 | throws an index error exactly when a file is malformed, and a null error exactly when there is no case at all; otherwise the player is in the Engine Room with the case loaded and question tracking reset |
| Game.GameController.GatherDiscovered | src/game/GameController.java:195-202 | the discovered clues of all rooms, in room order, without changing anything |
| Game.GameController.SaveGame | src/game/GameController.java:189-220 | the gathered clues are exactly the discovered ones; the store ends as `SaveEnded` describes for the current room, the questioned map (possibly null) and the case; an SQL error is reported, a null error escapes; no live field changes |
| Game.GameController.RestoreClueState | src/game/GameController.java:306-319 | the clue rows of the ship become `Reconcile` of the old rows and the loaded descriptions; the ship is otherwise unchanged |
| Game.GameController.LoadGame | src/game/GameController.java:223-275 | a failed or empty load changes nothing; otherwise room, case and questioning are the snapshot's, the case is new, the clue flags are reconciled, the display throws exactly for a case in a room off the ship, and a successful load opens an empty question set for each untracked suspect |
| Game.GameController.Resume | src/game/GameController.java:233-263 | once a snapshot was read: it is applied, and a successful display is followed by tracking every suspect |
| Game.GameController.ApplySnapshot | src/game/GameController.java:233-246 | room, case and questioning replaced, clue flags reconciled, and the display's outcome |
| Game.GameController.Adopt | src/game/GameController.java:233-238 | room, case and questioning taken from the loaded state |
| Game.GameController.SearchRoom | src/game/GameController.java:604-626 | a current room off the ship (or none) throws a null error with nothing changed; otherwise all clues of the room become discovered and the case's clues grow by exactly the previously undiscovered ones, in room order; without a case the first undiscovered clue is flagged and the append throws |
| Game.GameController.Collect | src/game/GameController.java:611-619 | every clue is flagged and the case's list grows by the previously undiscovered clues, in order |
| Game.GameController.FlagFirst | src/game/GameController.java:611-617 | without a case, the search throws exactly when there is an undiscovered clue, after flagging only the first one |
| Game.GameController.MoveToRoom | src/game/GameController.java:592-601 | a current room off the ship (or none) throws a null error and stays; otherwise the player moves exactly when the current room declares a connection to the target, and stays on the ship |
| Game.GameController.MoveNorth | src/game/GameController.java:645 | from a room of the ship the north button puts the player in the north room, which is a room of the ship; from any other room, or none, it throws a null error and the player stays |
| Game.GameController.MoveSouth | src/game/GameController.java:646 | from a room of the ship the south button puts the player in the south room, which is a room of the ship; from any other room, or none, it throws a null error and the player stays |
| Game.GameController.ReturnToEngineRoom | src/game/GameController.java:576-589 | back to the Engine Room from anywhere |
| Game.GameController.QuestionSuspect | src/game/GameController.java:398-469 | the outcome is `Questioned`'s; only a question actually asked changes anything: it is added to the suspect's asked set, and the suspect is marked questioned, or a null error is thrown when there is no questioned map |

## Left out

- The Swing window, dialogs, button enabling and all display text (`displayCaseInfo`, `displayCurrentGameState`, `displayClues`, `setupEventHandlers`, `cleanup`, `System.exit`). The dialog choices are parameters. The button rule is stated as `Game.NavigationButtons`.
- Reading files (`BufferedReader`, `Scanner`). Each file is given as its lines, or `None` when it cannot be opened.
- `Collections.shuffle`: the shuffled list is a parameter. The only assumption is that it is a permutation of the available questions.
- `generateResponse`: a canned-text keyword table with no state.
- The JDBC connection, table creation, `getConnection`, `closeConnection`, the debug printing (`debugPrintGameState`, `verifySave`) and console logging. A failure inside the debug reads of `loadGame` is not modelled.
- `getPlayerScore`: it reads a result set without advancing it.
- The `cases` and `suspects` tables: they are created but never written or read.
- Null strings. The model has no null string, so a case file with fewer than two lines (null title or crime scene) is excluded by `Game.GameController.LoadCase`'s precondition. A null `current_room` read back from the store is likewise not modelled. The nulls that are modelled are the controller's fields: `currentRoom` is an `Option`, and a save without a room fails on `NOT NULL`. `questionedSuspects` is an `Option` too, and a save without a map throws after part of its rows are written.
- Game.GameController.constructor: a case or clue file that throws aborts the Java constructor. The model therefore requires both to be well-formed when readable.
- Integer widths: player ids and scores are unbounded integers. No wrap-around is reachable with one player.
- Iteration order of `HashMap`s and result sets is unspecified. The questioned map is written in any order (a `:|` choice). Loaded discovered clues are a set of descriptions. The rooms are visited in the fixed order Engine Room, Crew Quarters, Bridge; every gathered clue is discovered, so the saved rows do not depend on that order.
- `saveSuspectProgress` collects its batch and stores it once, as `executeBatch` does. Its rows are accumulated in a local map and assigned to the tables at the end.
- A database failure is modelled at one named statement per run (`fault`). Several failures in one run are not modelled.
- `loadCase` parses all suspect lines before creating the suspects (`BuildCase`). The state a throwing line leaves is the same: a new case with no suspects and the questioning map untouched.
- `loadGame`'s state replacement and tracking are split into `Resume`, `ApplySnapshot` and `Adopt`. They run in the Java order.
- Data.DatabaseManager.NewClues: the order of the loaded clues is not stated, because the result-set order is unspecified.

## Findings

| source | as written | input that shows it | evidently intended | confidence | as-written member | corrected member |
|---|---|---|---|---|---|---|
| src/data/DatabaseManager.java:169-175 | the catch rolls back only an `SQLException`; for any other exception the `finally` switches auto-commit back on, and that commits the statements already run | a game whose case file could not be read has a null questioned map; after Start New Case has set the room, Save writes the player and room rows, throws at `entrySet()` (line 237), and those two rows stay committed without the progress and case rows | a save is all or nothing: a failed save leaves the tables as they were | not executed; high | Tables.NullMapSaveIsPartial | Tables.AtomicSaveAllOrNothing |

The controller's `SaveGame` and `Data.DatabaseManager.SaveGameState` keep the behaviour as written, because
they model what the game does. `Tables.AtomicSaveRun` is the corrected save: it rolls back on every
exception, and `Tables.AtomicSaveAllOrNothing` proves it all or nothing.
