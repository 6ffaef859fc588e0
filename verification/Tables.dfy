/**
 * The save store's SQLite tables as values, and what each statement the store
 * issues does to them. `players` is keyed by its UNIQUE name column and carries
 * the AUTOINCREMENT sequence as `nextId`; the progress tables are keyed by their
 * composite primary keys. Foreign keys are declared but not enforced by SQLite,
 * so nothing here depends on them.
 *
 * A statement can also throw (a lost connection, a locked file): the `fault`
 * parameter names the statement at which that happens, or is None.
 */
module Tables {
  import opened Wrappers
  import opened SuspectCodec

  /** The statements the store issues. */
  datatype Step =
    | SelectPlayer | InsertPlayer | UpdatePlayer
    | UpsertRoom | UpsertSuspectProgress | UpsertClueProgress
    | DeleteSavedCase | InsertSavedCase | Commit
    | SelectRoom | SelectSavedCase | SelectSuspectProgress | SelectClueProgress

  /** Why a statement threw: a driver failure, or a violated column constraint. */
  datatype SqlError =
    | IoError(step: Step)
    | UniqueViolation(column: string)
    | NotNullViolation(column: string)

  datatype PlayerRow = PlayerRow(id: int, score: int, currentCase: int)

  datatype SavedCaseRow = SavedCaseRow(caseTitle: string, crimeScene: string, suspectsData: string)

  datatype Tables = Tables(
    players: map<string, PlayerRow>,
    nextId: int,
    gameState: map<int, string>,
    suspectProgress: map<(int, string), bool>,
    clueProgress: map<(int, string), bool>,
    savedCases: map<int, SavedCaseRow>)

  /** The room a player without a `game_state` row is placed in. */
  const DefaultRoom: string := "Engine Room"

  /** The sentinel getPlayerId returns for an unknown name. */
  const NoPlayer: int := -1

  /** A freshly created database: empty tables, sequence at its start. */
  const EmptyTables: Tables := Tables(map[], 1, map[], map[], map[], map[])

  predicate Throws(fault: Option<Step>, s: Step)
  {
    fault == Some(s)
  }

  /**
   * What AUTOINCREMENT and the save code keep true: ids are positive, below the
   * sequence and distinct, and every row keyed by a player id uses an id the
   * sequence has already handed out.
   */
  predicate Consistent(t: Tables)
  {
    1 <= t.nextId
    && (forall n | n in t.players :: 1 <= t.players[n].id < t.nextId)
    && (forall n, m | n in t.players && m in t.players && n != m :: t.players[n].id != t.players[m].id)
    && (forall pid | pid in t.gameState :: pid < t.nextId)
    && (forall k | k in t.suspectProgress :: k.0 < t.nextId)
    && (forall k | k in t.clueProgress :: k.0 < t.nextId)
    && (forall pid | pid in t.savedCases :: pid < t.nextId)
  }

  // ---------------------------------------------------------------------------
  // Single statements

  /** `SELECT id FROM players WHERE name = ?`, with -1 for no row. */
  function PlayerId(t: Tables, name: string): (id: int)
  {
    if name in t.players then t.players[name].id else NoPlayer
  }

  /** In a consistent store the sentinel means exactly that the name is unknown. */
  lemma PlayerIdSentinel(t: Tables, name: string)
    requires Consistent(t)
    ensures PlayerId(t, name) == NoPlayer <==> name !in t.players
    ensures name in t.players ==> PlayerId(t, name) >= 1
  {
  }

  /**
   * `INSERT INTO players (name) VALUES (?)`: the UNIQUE name refuses a second row;
   * otherwise the row gets the next id and the column defaults score 0, case 1.
   */
  function AddPlayer(t: Tables, name: string): (r: Result<Tables, SqlError>)
    ensures r.Failure? <==> name in t.players
    ensures r.Success? ==> r.value.players == t.players[name := PlayerRow(t.nextId, 0, 1)]
    ensures r.Success? ==> r.value.nextId == t.nextId + 1
    ensures r.Success? ==> r.value == t.(players := r.value.players, nextId := r.value.nextId)
  {
    if name in t.players then Failure(UniqueViolation("players.name"))
    else Success(t.(players := t.players[name := PlayerRow(t.nextId, 0, 1)], nextId := t.nextId + 1))
  }

  /** `UPDATE players SET current_case = ?, score = ? WHERE name = ?`: no row, no change. */
  function SetProgress(t: Tables, name: string, caseId: int, score: int): (r: Tables)
    ensures name in t.players ==> r.players == t.players[name := t.players[name].(currentCase := caseId, score := score)]
    ensures name !in t.players ==> r == t
    ensures r == t.(players := r.players)
  {
    if name in t.players
    then t.(players := t.players[name := t.players[name].(currentCase := caseId, score := score)])
    else t
  }

  /** The rows `INSERT OR REPLACE INTO suspect_progress` writes for one player. */
  function SuspectRows(pid: int, questioned: map<string, bool>): map<(int, string), bool>
  {
    map k | k in questioned :: (pid, k) := questioned[k]
  }

  /** `INSERT OR REPLACE INTO clue_progress` for each row in order: a later row for the same description wins. */
  function UpsertClues(progress: map<(int, string), bool>, pid: int, rows: seq<(string, bool)>): map<(int, string), bool>
    decreases |rows|
  {
    if rows == [] then progress
    else UpsertClues(progress[(pid, rows[0].0) := rows[0].1], pid, rows[1..])
  }

  /** The descriptions in a batch of clue rows. */
  function Descriptions(rows: seq<(string, bool)>): set<string>
  {
    set i | 0 <= i < |rows| :: rows[i].0
  }

  /** The flag the last row for `d` carries. */
  function LastFlag(rows: seq<(string, bool)>, d: string): bool
    requires d in Descriptions(rows)
  {
    if rows[|rows| - 1].0 == d then rows[|rows| - 1].1
    else
      assert d in Descriptions(rows[..|rows| - 1]) by {
        var i :| 0 <= i < |rows| && rows[i].0 == d;
        assert rows[..|rows| - 1][i] == rows[i];
      }
      LastFlag(rows[..|rows| - 1], d)
  }

  /** The row `d` contributes to one player's clue progress after the batch. */
  lemma {:induction false} UpsertCluesEffect(progress: map<(int, string), bool>, pid: int,
                                             rows: seq<(string, bool)>, key: (int, string))
    ensures var r := UpsertClues(progress, pid, rows);
      && (key in r <==> key in progress || (key.0 == pid && key.1 in Descriptions(rows)))
      && (key in r && key.0 == pid && key.1 in Descriptions(rows) ==> r[key] == LastFlag(rows, key.1))
      && (key in r && !(key.0 == pid && key.1 in Descriptions(rows)) ==> r[key] == progress[key])
    decreases |rows|
  {
    if rows != [] {
      var last := rows[|rows| - 1];
      var init := rows[..|rows| - 1];
      UpsertCluesSnoc(progress, pid, init, last);
      assert rows == init + [last];
      UpsertCluesEffect(progress, pid, init, key);
      assert Descriptions(rows) == Descriptions(init) + {last.0} by {
        forall d | d in Descriptions(rows) ensures d in Descriptions(init) + {last.0} {
          var i :| 0 <= i < |rows| && rows[i].0 == d;
          if i < |init| { assert init[i] == rows[i]; }
        }
        forall d | d in Descriptions(init) ensures d in Descriptions(rows) {
          var i :| 0 <= i < |init| && init[i].0 == d;
          assert rows[i] == init[i];
        }
        assert rows[|rows| - 1] == last;
      }
    }
  }

  /** Upserting one more row at the end of a batch is one more map update. */
  lemma {:induction false} UpsertCluesSnoc(progress: map<(int, string), bool>, pid: int,
                                           rows: seq<(string, bool)>, last: (string, bool))
    ensures UpsertClues(progress, pid, rows + [last]) == UpsertClues(progress, pid, rows)[(pid, last.0) := last.1]
    decreases |rows|
  {
    if rows == [] {
      assert rows + [last] == [last];
    } else {
      assert (rows + [last])[0] == rows[0];
      assert (rows + [last])[1..] == rows[1..] + [last];
      UpsertCluesSnoc(progress[(pid, rows[0].0) := rows[0].1], pid, rows[1..], last);
    }
  }

  /** `DELETE FROM saved_cases WHERE player_id = ?`. */
  function DropSavedCase(t: Tables, pid: int): (r: Tables)
    ensures pid !in r.savedCases
    ensures r == t.(savedCases := r.savedCases)
  {
    t.(savedCases := t.savedCases - {pid})
  }

  /** `INSERT INTO saved_cases ...`: the player id is the primary key. */
  function AddSavedCase(t: Tables, pid: int, row: SavedCaseRow): (r: Result<Tables, SqlError>)
    ensures r.Failure? <==> pid in t.savedCases
    ensures r.Success? ==> r.value == t.(savedCases := t.savedCases[pid := row])
  {
    if pid in t.savedCases then Failure(UniqueViolation("saved_cases.player_id"))
    else Success(t.(savedCases := t.savedCases[pid := row]))
  }

  // ---------------------------------------------------------------------------
  // The save transaction

  /** Get-or-create: the existing id, or a new player row and its id. */
  function GetOrCreate(t: Tables, name: string, fault: Option<Step>): Result<(Tables, int), SqlError>
  {
    if Throws(fault, SelectPlayer) then Failure(IoError(SelectPlayer))
    else if PlayerId(t, name) != NoPlayer then Success((t, PlayerId(t, name)))
    else if Throws(fault, InsertPlayer) then Failure(IoError(InsertPlayer))
    else match AddPlayer(t, name)
      case Failure(e) => Failure(e)
      case Success(t1) => Success((t1, PlayerId(t1, name)))
  }

  /** saveCaseAndSuspects: nothing without a case, otherwise delete then insert. */
  function SaveCase(t: Tables, pid: int, caseRow: Option<SavedCaseRow>, fault: Option<Step>): Result<Tables, SqlError>
  {
    if caseRow.None? then Success(t)
    else if Throws(fault, DeleteSavedCase) then Failure(IoError(DeleteSavedCase))
    else if Throws(fault, InsertSavedCase) then Failure(IoError(InsertSavedCase))
    else AddSavedCase(DropSavedCase(t, pid), pid, caseRow.value)
  }

  /** The player table after get-or-create, when nothing throws. */
  function Registered(t: Tables, name: string): (r: Tables)
    ensures name in t.players ==> r == t
    ensures r == t.(players := r.players, nextId := r.nextId)
  {
    if name in t.players then t else t.(players := t.players[name := PlayerRow(t.nextId, 0, 1)], nextId := t.nextId + 1)
  }

  /** The id a save writes under: the existing one, or the next one in sequence. */
  function SaveId(t: Tables, name: string): int
  {
    if name in t.players then t.players[name].id else t.nextId
  }

  /** In a consistent store, get-or-create either throws or registers the player under SaveId. */
  lemma GetOrCreateResult(t: Tables, name: string, fault: Option<Step>)
    requires Consistent(t)
    ensures GetOrCreate(t, name, fault).Success? ==> GetOrCreate(t, name, fault).value == (Registered(t, name), SaveId(t, name))
    ensures GetOrCreate(t, name, fault).Failure? <==> Throws(fault, SelectPlayer) || (name !in t.players && Throws(fault, InsertPlayer))
  {
    PlayerIdSentinel(t, name);
  }

  /** Registering a player keeps the store consistent and hands out an id below the sequence. */
  lemma RegisteredKeepsConsistent(t: Tables, name: string)
    requires Consistent(t)
    ensures SaveId(t, name) < Registered(t, name).nextId
    ensures Consistent(Registered(t, name))
  {
    if name !in t.players {
      var t1 := Registered(t, name);
      forall n | n in t1.players ensures 1 <= t1.players[n].id < t1.nextId {
        if n != name { assert t1.players[n] == t.players[n]; }
      }
      forall n, m | n in t1.players && m in t1.players && n != m
        ensures t1.players[n].id != t1.players[m].id
      {
        if n != name { assert t1.players[n] == t.players[n]; }
        if m != name { assert t1.players[m] == t.players[m]; }
      }
    }
  }

  /**
   * The first of the room and progress statements to throw. A null room violates
   * NOT NULL on `game_state.current_room`, which has no default, so even INSERT OR
   * REPLACE aborts there.
   */
  function ProgressError(room: Option<string>, fault: Option<Step>): (e: Option<SqlError>)
    ensures e.None? ==> room.Some?
  {
    if Throws(fault, UpsertRoom) then Some(IoError(UpsertRoom))
    else if room.None? then Some(NotNullViolation("game_state.current_room"))
    else if Throws(fault, UpsertSuspectProgress) then Some(IoError(UpsertSuspectProgress))
    else if Throws(fault, UpsertClueProgress) then Some(IoError(UpsertClueProgress))
    else None
  }

  /** The room row and both progress upserts, once the player id is known. */
  function WriteProgress(t: Tables, pid: int, room: string, questioned: map<string, bool>,
                         clueRows: seq<(string, bool)>): Tables
  {
    t.(gameState := t.gameState[pid := room],
       suspectProgress := t.suspectProgress + SuspectRows(pid, questioned),
       clueProgress := UpsertClues(t.clueProgress, pid, clueRows))
  }

  /** The statements of saveGameState in order, up to and including the commit. */
  function SaveTransaction(t: Tables, name: string, room: Option<string>, questioned: map<string, bool>,
                           clueRows: seq<(string, bool)>, caseRow: Option<SavedCaseRow>,
                           fault: Option<Step>): Result<Tables, SqlError>
  {
    match GetOrCreate(t, name, fault)
    case Failure(e) => Failure(e)
    case Success((t1, pid)) =>
      match ProgressError(room, fault)
      case Some(e) => Failure(e)
      case None =>
        match SaveCase(WriteProgress(t1, pid, room.value, questioned, clueRows), pid, caseRow, fault)
        case Failure(e) => Failure(e)
        case Success(t5) => if Throws(fault, Commit) then Failure(IoError(Commit)) else Success(t5)
  }

  /** Delete-then-insert replaces the player's case row and throws only at a fault. */
  lemma SaveCaseResult(t: Tables, pid: int, caseRow: Option<SavedCaseRow>, fault: Option<Step>)
    ensures SaveCase(t, pid, caseRow, fault).Failure?
            <==> caseRow.Some? && (Throws(fault, DeleteSavedCase) || Throws(fault, InsertSavedCase))
    ensures SaveCase(t, pid, caseRow, fault).Success? ==>
              SaveCase(t, pid, caseRow, fault).value
              == (if caseRow.Some? then t.(savedCases := t.savedCases[pid := caseRow.value]) else t)
  {
    if caseRow.Some? {
      assert (t.savedCases - {pid})[pid := caseRow.value] == t.savedCases[pid := caseRow.value];
    }
  }

  /** The tables a save commits when nothing throws: player, room, progress, then case. */
  function Committed(t: Tables, name: string, room: string, questioned: map<string, bool>,
                     clueRows: seq<(string, bool)>, caseRow: Option<SavedCaseRow>): Tables
  {
    var w := WriteProgress(Registered(t, name), SaveId(t, name), room, questioned, clueRows);
    if caseRow.Some? then w.(savedCases := w.savedCases[SaveId(t, name) := caseRow.value]) else w
  }

  /** The committed tables, table by table. */
  lemma CommittedFields(t: Tables, name: string, room: string, questioned: map<string, bool>,
                        clueRows: seq<(string, bool)>, caseRow: Option<SavedCaseRow>)
    ensures var t' := Committed(t, name, room, questioned, clueRows, caseRow);
      var pid := SaveId(t, name);
      && t'.players == Registered(t, name).players
      && t'.nextId == Registered(t, name).nextId
      && t'.gameState == t.gameState[pid := room]
      && t'.suspectProgress == t.suspectProgress + SuspectRows(pid, questioned)
      && t'.clueProgress == UpsertClues(t.clueProgress, pid, clueRows)
      && t'.savedCases == (if caseRow.Some? then t.savedCases[pid := caseRow.value] else t.savedCases)
  {
    var r := Registered(t, name);
    var w := WriteProgress(r, SaveId(t, name), room, questioned, clueRows);
    assert w.players == r.players && w.nextId == r.nextId && w.savedCases == t.savedCases;
  }

  /** Once get-or-create has succeeded, a save that commits ran the progress writes and the case rows. */
  lemma SaveStages(t: Tables, name: string, room: Option<string>, questioned: map<string, bool>,
                   clueRows: seq<(string, bool)>, caseRow: Option<SavedCaseRow>, fault: Option<Step>)
    requires SaveTransaction(t, name, room, questioned, clueRows, caseRow, fault).Success?
    requires GetOrCreate(t, name, fault) == Success((Registered(t, name), SaveId(t, name)))
    ensures room.Some?
    ensures SaveTransaction(t, name, room, questioned, clueRows, caseRow, fault).value
            == SaveCase(WriteProgress(Registered(t, name), SaveId(t, name), room.value, questioned, clueRows),
                        SaveId(t, name), caseRow, fault).value
  {
  }

  /** A committed save is get-or-create, the progress writes and the case rows, in that order. */
  lemma SaveUnfold(t: Tables, name: string, room: Option<string>, questioned: map<string, bool>,
                   clueRows: seq<(string, bool)>, caseRow: Option<SavedCaseRow>, fault: Option<Step>)
    requires Consistent(t)
    requires SaveTransaction(t, name, room, questioned, clueRows, caseRow, fault).Success?
    ensures room.Some?
    ensures SaveTransaction(t, name, room, questioned, clueRows, caseRow, fault).value
            == Committed(t, name, room.value, questioned, clueRows, caseRow)
  {
    GetOrCreateResult(t, name, fault);
    SaveStages(t, name, room, questioned, clueRows, caseRow, fault);
    var w := WriteProgress(Registered(t, name), SaveId(t, name), room.value, questioned, clueRows);
    SaveCaseResult(w, SaveId(t, name), caseRow, fault);
  }

  /** The statements a save reaches when nothing throws. */
  function SaveSteps(t: Tables, name: string, caseRow: Option<SavedCaseRow>): set<Step>
  {
    {SelectPlayer, UpsertRoom, UpsertSuspectProgress, UpsertClueProgress, Commit}
    + (if name in t.players then {} else {InsertPlayer})
    + (if caseRow.Some? then {DeleteSavedCase, InsertSavedCase} else {})
  }

  /** A save fails exactly when one of its four stages throws. */
  lemma SaveFailsAtStage(t: Tables, name: string, room: Option<string>, questioned: map<string, bool>,
                         clueRows: seq<(string, bool)>, caseRow: Option<SavedCaseRow>, fault: Option<Step>)
    ensures SaveTransaction(t, name, room, questioned, clueRows, caseRow, fault).Failure?
            <==> GetOrCreate(t, name, fault).Failure? || ProgressError(room, fault).Some?
                 || SaveCase(WriteProgress(GetOrCreate(t, name, fault).value.0, GetOrCreate(t, name, fault).value.1,
                                           room.value, questioned, clueRows),
                             GetOrCreate(t, name, fault).value.1, caseRow, fault).Failure?
                 || Throws(fault, Commit)
  {
  }

  /** The stage failures, spelled out as the statements a save reaches. */
  lemma StageFailuresAreSteps(t: Tables, name: string, room: Option<string>, caseRow: Option<SavedCaseRow>,
                              fault: Option<Step>)
    requires Consistent(t)
    ensures (Throws(fault, SelectPlayer) || (name !in t.players && Throws(fault, InsertPlayer)))
            || ProgressError(room, fault).Some?
            || (caseRow.Some? && (Throws(fault, DeleteSavedCase) || Throws(fault, InsertSavedCase)))
            || Throws(fault, Commit)
            <==> room.None? || (fault.Some? && fault.value in SaveSteps(t, name, caseRow))
  {
  }

  /** A save fails exactly when a statement it reaches throws, or the room is null. */
  lemma SaveFailsExactly(t: Tables, name: string, room: Option<string>, questioned: map<string, bool>,
                         clueRows: seq<(string, bool)>, caseRow: Option<SavedCaseRow>, fault: Option<Step>)
    requires Consistent(t)
    ensures SaveTransaction(t, name, room, questioned, clueRows, caseRow, fault).Failure?
            <==> room.None? || (fault.Some? && fault.value in SaveSteps(t, name, caseRow))
  {
    SaveFailsAtStage(t, name, room, questioned, clueRows, caseRow, fault);
    GetOrCreateResult(t, name, fault);
    StageFailuresAreSteps(t, name, room, caseRow, fault);
    if GetOrCreate(t, name, fault).Success? && ProgressError(room, fault).None? {
      var w := WriteProgress(Registered(t, name), SaveId(t, name), room.value, questioned, clueRows);
      SaveCaseResult(w, SaveId(t, name), caseRow, fault);
    }
  }

  /**
   * A committed save stores the room under the player's id, every questioned-map
   * entry, every clue row (the last one for a repeated description) and, when there
   * is a case, exactly that case's row. The player is reused or added.
   */
  lemma CommittedStores(t: Tables, name: string, room: string, questioned: map<string, bool>,
                        clueRows: seq<(string, bool)>, caseRow: Option<SavedCaseRow>)
    ensures var t' := Committed(t, name, room, questioned, clueRows, caseRow);
      var pid := SaveId(t, name);
      && name in t'.players && t'.players[name].id == pid
      && t'.gameState == t.gameState[pid := room]
      && (forall k | k in questioned :: (pid, k) in t'.suspectProgress && t'.suspectProgress[(pid, k)] == questioned[k])
      && (forall d | d in Descriptions(clueRows) :: (pid, d) in t'.clueProgress && t'.clueProgress[(pid, d)] == LastFlag(clueRows, d))
      && (caseRow.Some? ==> t'.savedCases == t.savedCases[pid := caseRow.value])
      && (caseRow.None? ==> t'.savedCases == t.savedCases)
  {
    var t' := Committed(t, name, room, questioned, clueRows, caseRow);
    var pid := SaveId(t, name);
    CommittedFields(t, name, room, questioned, clueRows, caseRow);
    var t1 := Registered(t, name);
    assert t1.clueProgress == t.clueProgress;
    forall d | d in Descriptions(clueRows)
      ensures (pid, d) in t'.clueProgress && t'.clueProgress[(pid, d)] == LastFlag(clueRows, d)
    {
      UpsertCluesEffect(t1.clueProgress, pid, clueRows, (pid, d));
    }
    forall k | k in questioned
      ensures (pid, k) in t'.suspectProgress && t'.suspectProgress[(pid, k)] == questioned[k]
    {
      assert (pid, k) in SuspectRows(pid, questioned);
    }
  }

  /** Clue upserts keep every row and change only the player's own. */
  lemma UpsertCluesKeeps(progress: map<(int, string), bool>, pid: int, rows: seq<(string, bool)>)
    ensures var r := UpsertClues(progress, pid, rows);
      && progress.Keys <= r.Keys
      && (forall k | k in progress && k.0 != pid :: r[k] == progress[k])
  {
    var r := UpsertClues(progress, pid, rows);
    forall k | k in progress
      ensures k in r && (k.0 != pid ==> r[k] == progress[k])
    {
      UpsertCluesEffect(progress, pid, rows, k);
    }
  }

  /** Clue upserts add rows only under the player's id. */
  lemma UpsertCluesBound(progress: map<(int, string), bool>, pid: int, rows: seq<(string, bool)>, bound: int)
    requires pid < bound
    requires forall k | k in progress :: k.0 < bound
    ensures forall k | k in UpsertClues(progress, pid, rows) :: k.0 < bound
  {
    forall k | k in UpsertClues(progress, pid, rows)
      ensures k.0 < bound
    {
      UpsertCluesEffect(progress, pid, rows, k);
    }
  }

  /** Suspect upserts keep every row and change only the player's own. */
  lemma SuspectRowsKeep(progress: map<(int, string), bool>, pid: int, questioned: map<string, bool>)
    ensures var r := progress + SuspectRows(pid, questioned);
      && progress.Keys <= r.Keys
      && (forall k | k in progress && k.0 != pid :: r[k] == progress[k])
  {
    var r := progress + SuspectRows(pid, questioned);
    forall k | k in progress && k.0 != pid
      ensures r[k] == progress[k]
    {
      assert k !in SuspectRows(pid, questioned);
    }
  }

  /** Suspect upserts add rows only under the player's id. */
  lemma SuspectRowsBound(progress: map<(int, string), bool>, pid: int, questioned: map<string, bool>, bound: int)
    requires pid < bound
    requires forall k | k in progress :: k.0 < bound
    ensures forall k | k in progress + SuspectRows(pid, questioned) :: k.0 < bound
  {
    forall k | k in progress + SuspectRows(pid, questioned)
      ensures k.0 < bound
    {
      if k !in progress { assert k in SuspectRows(pid, questioned); }
    }
  }

  /**
   * Upserts never delete: every progress row present before a committed save is
   * still there, and rows of other players keep their values.
   */
  lemma CommittedKeepsProgress(t: Tables, name: string, room: string, questioned: map<string, bool>,
                               clueRows: seq<(string, bool)>, caseRow: Option<SavedCaseRow>)
    ensures var t' := Committed(t, name, room, questioned, clueRows, caseRow);
      var pid := SaveId(t, name);
      && t.suspectProgress.Keys <= t'.suspectProgress.Keys
      && t.clueProgress.Keys <= t'.clueProgress.Keys
      && (forall k | k in t.suspectProgress && k.0 != pid :: t'.suspectProgress[k] == t.suspectProgress[k])
      && (forall k | k in t.clueProgress && k.0 != pid :: t'.clueProgress[k] == t.clueProgress[k])
  {
    CommittedFields(t, name, room, questioned, clueRows, caseRow);
    UpsertCluesKeeps(t.clueProgress, SaveId(t, name), clueRows);
    SuspectRowsKeep(t.suspectProgress, SaveId(t, name), questioned);
  }

  /** A committed save keeps every player row, and every other player's room and case. */
  lemma CommittedKeepsOtherPlayers(t: Tables, name: string, room: string, questioned: map<string, bool>,
                                   clueRows: seq<(string, bool)>, caseRow: Option<SavedCaseRow>)
    ensures var t' := Committed(t, name, room, questioned, clueRows, caseRow);
      var pid := SaveId(t, name);
      && (forall n | n in t.players :: n in t'.players && t'.players[n] == t.players[n])
      && (forall q | q in t.gameState && q != pid :: q in t'.gameState && t'.gameState[q] == t.gameState[q])
      && (forall q | q in t.savedCases && q != pid :: q in t'.savedCases && t'.savedCases[q] == t.savedCases[q])
  {
    CommittedFields(t, name, room, questioned, clueRows, caseRow);
  }

  /** A committed save leaves the store consistent. */
  lemma CommittedKeepsConsistent(t: Tables, name: string, room: string, questioned: map<string, bool>,
                                 clueRows: seq<(string, bool)>, caseRow: Option<SavedCaseRow>)
    requires Consistent(t)
    ensures Consistent(Committed(t, name, room, questioned, clueRows, caseRow))
  {
    var t' := Committed(t, name, room, questioned, clueRows, caseRow);
    var pid := SaveId(t, name);
    var t1 := Registered(t, name);
    RegisteredKeepsConsistent(t, name);
    CommittedFields(t, name, room, questioned, clueRows, caseRow);
    assert t.nextId <= t1.nextId;
    forall q | q in t'.gameState
      ensures q < t'.nextId
    {
      if q != pid { assert q in t.gameState; }
    }
    forall q | q in t'.savedCases
      ensures q < t'.nextId
    {
      if q != pid { assert q in t.savedCases; }
    }
    UpsertCluesBound(t.clueProgress, pid, clueRows, t'.nextId);
    SuspectRowsBound(t.suspectProgress, pid, questioned, t'.nextId);
    SamePlayersConsistent(t1, t');
  }

  /** Consistency depends on the player rows only through their ids and the sequence. */
  lemma SamePlayersConsistent(t1: Tables, t': Tables)
    requires Consistent(t1)
    requires t'.players == t1.players && t'.nextId == t1.nextId
    requires forall q | q in t'.gameState :: q < t'.nextId
    requires forall k | k in t'.suspectProgress :: k.0 < t'.nextId
    requires forall k | k in t'.clueProgress :: k.0 < t'.nextId
    requires forall q | q in t'.savedCases :: q < t'.nextId
    ensures Consistent(t')
  {
  }

  // ---------------------------------------------------------------------------
  // How a save ends

  /** What saveGameState throws: an SQLException, or a NullPointerException for a null questioned map. */
  datatype SaveError = SqlFailed(error: SqlError) | QuestionedNull

  /**
   * How saveGameState ends: committed; rolled back with the error it rethrows;
   * or ended by an exception the catch does not handle, after which switching
   * auto-commit back on commits the rows written so far.
   */
  datatype SaveEnd = Saved(tables: Tables) | RolledBack(error: SaveError) | PartlyCommitted(tables: Tables)

  /** The tables a save leaves behind. */
  function TablesAfter(before: Tables, end: SaveEnd): (r: Tables)
    ensures end.RolledBack? ==> r == before
    ensures !end.RolledBack? ==> r == end.tables
  {
    if end.RolledBack? then before else end.tables
  }

  /**
   * The statements after get-or-create for a null questioned map: the room row
   * is written, the suspect-progress statement is prepared, and iterating the
   * map throws a NullPointerException. The catch takes only SQLException, so the
   * room and player rows are not rolled back.
   */
  function NullMapWrites(t1: Tables, pid: int, room: Option<string>, fault: Option<Step>): (end: SaveEnd)
    ensures !end.Saved?
    ensures end.RolledBack? <==> Throws(fault, UpsertRoom) || room.None? || Throws(fault, UpsertSuspectProgress)
    ensures end.RolledBack? ==> end.error.SqlFailed?
    ensures end.PartlyCommitted? ==>
              && room.Some?
              && end.tables.gameState == t1.gameState[pid := room.value]
              && end.tables == t1.(gameState := end.tables.gameState)
  {
    if Throws(fault, UpsertRoom) then RolledBack(SqlFailed(IoError(UpsertRoom)))
    else if room.None? then RolledBack(SqlFailed(NotNullViolation("game_state.current_room")))
    else if Throws(fault, UpsertSuspectProgress) then RolledBack(SqlFailed(IoError(UpsertSuspectProgress)))
    else PartlyCommitted(t1.(gameState := t1.gameState[pid := room.value]))
  }

  /** saveGameState as the code is written, for a questioned map that may be null. */
  function SaveRun(t: Tables, name: string, room: Option<string>, questioned: Option<map<string, bool>>,
                   clueRows: seq<(string, bool)>, caseRow: Option<SavedCaseRow>, fault: Option<Step>): (end: SaveEnd)
    ensures end.RolledBack? ==> end.error.SqlFailed?
  {
    if questioned.None? then
      match GetOrCreate(t, name, fault)
      case Failure(e) => RolledBack(SqlFailed(e))
      case Success((t1, pid)) => NullMapWrites(t1, pid, room, fault)
    else
      match SaveTransaction(t, name, room, questioned.value, clueRows, caseRow, fault)
      case Success(t') => Saved(t')
      case Failure(e) => RolledBack(SqlFailed(e))
  }

  /** The statements a save with a null questioned map reaches before it throws. */
  function NullMapSteps(t: Tables, name: string): set<Step>
  {
    {SelectPlayer, UpsertRoom, UpsertSuspectProgress} + (if name in t.players then {} else {InsertPlayer})
  }

  /**
   * A save commits everything when the map is there and nothing throws; it is
   * rolled back exactly when the room is null or a statement it reaches throws;
   * otherwise a null map leaves the player row and the room row committed and
   * every other table as it was.
   */
  lemma SaveRunEnds(t: Tables, name: string, room: Option<string>, questioned: Option<map<string, bool>>,
                    clueRows: seq<(string, bool)>, caseRow: Option<SavedCaseRow>, fault: Option<Step>)
    requires Consistent(t)
    ensures var end := SaveRun(t, name, room, questioned, clueRows, caseRow, fault);
      && (end.RolledBack? <==> room.None? || (fault.Some? && fault.value in
                                 (if questioned.Some? then SaveSteps(t, name, caseRow) else NullMapSteps(t, name))))
      && (end.Saved? ==> questioned.Some? && room.Some?
                         && end.tables == Committed(t, name, room.value, questioned.value, clueRows, caseRow))
      && (end.PartlyCommitted? ==> questioned.None? && room.Some?
                                   && end.tables == Registered(t, name).(gameState := t.gameState[SaveId(t, name) := room.value]))
  {
    GetOrCreateResult(t, name, fault);
    if questioned.Some? {
      SaveFailsExactly(t, name, room, questioned.value, clueRows, caseRow, fault);
      if SaveTransaction(t, name, room, questioned.value, clueRows, caseRow, fault).Success? {
        SaveUnfold(t, name, room, questioned.value, clueRows, caseRow, fault);
      }
    }
  }

  /**
   * The save is not all or nothing: with a null questioned map and nothing
   * failing, an empty store ends with the player and the room saved but without
   * the case row, which no complete save leaves behind.
   */
  lemma NullMapSaveIsPartial(caseRow: SavedCaseRow)
    ensures var end := SaveRun(EmptyTables, "Player1", Some(DefaultRoom), None, [], Some(caseRow), None);
      && end.PartlyCommitted?
      && TablesAfter(EmptyTables, end) != EmptyTables
      && TablesAfter(EmptyTables, end).gameState == map[1 := DefaultRoom]
      && (forall q: map<string, bool> ::
            TablesAfter(EmptyTables, end) != Committed(EmptyTables, "Player1", DefaultRoom, q, [], Some(caseRow)))
  {
    var end := SaveRun(EmptyTables, "Player1", Some(DefaultRoom), None, [], Some(caseRow), None);
    SaveRunEnds(EmptyTables, "Player1", Some(DefaultRoom), None, [], Some(caseRow), None);
    forall q: map<string, bool>
      ensures TablesAfter(EmptyTables, end) != Committed(EmptyTables, "Player1", DefaultRoom, q, [], Some(caseRow))
    {
      CommittedFields(EmptyTables, "Player1", DefaultRoom, q, [], Some(caseRow));
      assert 1 in Committed(EmptyTables, "Player1", DefaultRoom, q, [], Some(caseRow)).savedCases;
    }
  }

  /**
   * saveGameState with a catch that rolls back on every exception: the
   * NullPointerException of a null map is rethrown after the rollback.
   */
  function AtomicSaveRun(t: Tables, name: string, room: Option<string>, questioned: Option<map<string, bool>>,
                         clueRows: seq<(string, bool)>, caseRow: Option<SavedCaseRow>, fault: Option<Step>): SaveEnd
  {
    match SaveRun(t, name, room, questioned, clueRows, caseRow, fault)
    case PartlyCommitted(_) => RolledBack(QuestionedNull)
    case other => other
  }

  /** With the rollback on every exception, a save leaves the tables as they were or completely saved. */
  lemma AtomicSaveAllOrNothing(t: Tables, name: string, room: Option<string>, questioned: Option<map<string, bool>>,
                               clueRows: seq<(string, bool)>, caseRow: Option<SavedCaseRow>, fault: Option<Step>)
    requires Consistent(t)
    ensures var end := AtomicSaveRun(t, name, room, questioned, clueRows, caseRow, fault);
      && !end.PartlyCommitted?
      && (end.RolledBack? ==> TablesAfter(t, end) == t)
      && (end.Saved? ==> questioned.Some? && room.Some?
                         && TablesAfter(t, end) == Committed(t, name, room.value, questioned.value, clueRows, caseRow))
      && (questioned.None? ==> end.RolledBack?)
  {
    SaveRunEnds(t, name, room, questioned, clueRows, caseRow, fault);
  }

  // ---------------------------------------------------------------------------
  // Loading

  /** The values a load reads back for one player. */
  datatype Snapshot = Snapshot(
    room: string,
    savedCase: Option<SavedCaseRow>,
    questioned: map<string, bool>,
    discovered: set<string>)

  /** getCurrentRoom: the saved room, or the Engine Room when there is no row. */
  function RoomOf(t: Tables, pid: int): string
  {
    if pid in t.gameState then t.gameState[pid] else DefaultRoom
  }

  /** loadPlayerCase's row, if there is one. */
  function SavedCaseOf(t: Tables, pid: int): Option<SavedCaseRow>
  {
    if pid in t.savedCases then Some(t.savedCases[pid]) else None
  }

  /** loadQuestionedSuspects: every suspect_progress row of the player, flag included. */
  function QuestionedOf(t: Tables, pid: int): (q: map<string, bool>)
    ensures forall n :: n in q <==> (pid, n) in t.suspectProgress
    ensures forall n | n in q :: q[n] == t.suspectProgress[(pid, n)]
  {
    var names := set k | k in t.suspectProgress && k.0 == pid :: k.1;
    map n | n in names :: t.suspectProgress[(pid, n)]
  }

  /** loadDiscoveredClues: only rows whose flag is TRUE. */
  function DiscoveredOf(t: Tables, pid: int): (d: set<string>)
    ensures forall n :: n in d <==> (pid, n) in t.clueProgress && t.clueProgress[(pid, n)]
  {
    set k | k in t.clueProgress && k.0 == pid && t.clueProgress[k] :: k.1
  }

  /** loadGameState: null for an unknown player, otherwise the five reads in order. */
  function LoadSpec(t: Tables, name: string, fault: Option<Step>): Result<Option<Snapshot>, SqlError>
  {
    if Throws(fault, SelectPlayer) then Failure(IoError(SelectPlayer))
    else
      var pid := PlayerId(t, name);
      if pid == NoPlayer then Success(None)
      else if Throws(fault, SelectRoom) then Failure(IoError(SelectRoom))
      else if Throws(fault, SelectSavedCase) then Failure(IoError(SelectSavedCase))
      else if Throws(fault, SelectSuspectProgress) then Failure(IoError(SelectSuspectProgress))
      else if Throws(fault, SelectClueProgress) then Failure(IoError(SelectClueProgress))
      else Success(Some(Snapshot(RoomOf(t, pid), SavedCaseOf(t, pid), QuestionedOf(t, pid), DiscoveredOf(t, pid))))
  }

  /** Without a fault, a load finds nothing exactly when the player is unknown. */
  lemma LoadFindsPlayer(t: Tables, name: string)
    requires Consistent(t)
    ensures LoadSpec(t, name, None).Success?
    ensures LoadSpec(t, name, None).value.None? <==> name !in t.players
    ensures name in t.players && t.players[name].id !in t.gameState
            ==> LoadSpec(t, name, None).value.value.room == DefaultRoom
  {
    PlayerIdSentinel(t, name);
  }

  /** A known player's load, without a fault, reads the five values stored under its id. */
  lemma LoadKnownPlayer(t: Tables, name: string)
    requires Consistent(t)
    requires name in t.players
    ensures var pid := t.players[name].id;
      LoadSpec(t, name, None)
      == Success(Some(Snapshot(RoomOf(t, pid), SavedCaseOf(t, pid), QuestionedOf(t, pid), DiscoveredOf(t, pid))))
  {
    PlayerIdSentinel(t, name);
  }

  /**
   * A committed save of a room, a questioned map, a batch of discovered clue rows
   * and a case row is read back by a load: that room, that case row, every
   * questioned entry and every saved clue description.
   */
  lemma CommittedThenLoad(t: Tables, name: string, room: string, questioned: map<string, bool>,
                          clueRows: seq<(string, bool)>, caseRow: SavedCaseRow)
    requires Consistent(t)
    requires forall i | 0 <= i < |clueRows| :: clueRows[i].1
    ensures var loaded := LoadSpec(Committed(t, name, room, questioned, clueRows, Some(caseRow)), name, None);
      && loaded.Success? && loaded.value.Some?
      && loaded.value.value.room == room
      && loaded.value.value.savedCase == Some(caseRow)
      && (forall k | k in questioned :: k in loaded.value.value.questioned && loaded.value.value.questioned[k] == questioned[k])
      && Descriptions(clueRows) <= loaded.value.value.discovered
  {
    var t' := Committed(t, name, room, questioned, clueRows, Some(caseRow));
    var pid := SaveId(t, name);
    CommittedStores(t, name, room, questioned, clueRows, Some(caseRow));
    CommittedKeepsConsistent(t, name, room, questioned, clueRows, Some(caseRow));
    LoadKnownPlayer(t', name);
    var snap := Snapshot(RoomOf(t', pid), SavedCaseOf(t', pid), QuestionedOf(t', pid), DiscoveredOf(t', pid));
    assert LoadSpec(t', name, None) == Success(Some(snap));
    forall d | d in Descriptions(clueRows)
      ensures d in snap.discovered
    {
      LastFlagTrue(clueRows, d);
    }
  }

  /**
   * Save then load: after a committed save, a load reads back the room, the case
   * row, every questioned entry and every discovered clue, and the case's suspect
   * text decodes to the saved suspects when they are storable.
   */
  lemma SaveThenLoad(t: Tables, name: string, room: string, questioned: map<string, bool>,
                     clueRows: seq<(string, bool)>, suspects: seq<SuspectRecord>,
                     caseTitle: string, crimeScene: string, fault: Option<Step>)
    requires Consistent(t)
    requires AllStorable(suspects)
    requires forall i | 0 <= i < |clueRows| :: clueRows[i].1
    requires SaveTransaction(t, name, Some(room), questioned, clueRows,
                             Some(SavedCaseRow(caseTitle, crimeScene, Serialize(suspects))), fault).Success?
    ensures var t' := SaveTransaction(t, name, Some(room), questioned, clueRows,
                                      Some(SavedCaseRow(caseTitle, crimeScene, Serialize(suspects))), fault).value;
      var loaded := LoadSpec(t', name, None);
      && loaded.Success? && loaded.value.Some?
      && loaded.value.value.room == room
      && loaded.value.value.savedCase == Some(SavedCaseRow(caseTitle, crimeScene, Serialize(suspects)))
      && Deserialize(loaded.value.value.savedCase.value.suspectsData) == suspects
      && (forall k | k in questioned :: k in loaded.value.value.questioned && loaded.value.value.questioned[k] == questioned[k])
      && Descriptions(clueRows) <= loaded.value.value.discovered
  {
    var caseRow := SavedCaseRow(caseTitle, crimeScene, Serialize(suspects));
    SaveUnfold(t, name, Some(room), questioned, clueRows, Some(caseRow), fault);
    CommittedThenLoad(t, name, room, questioned, clueRows, caseRow);
    RoundTrip(suspects);
  }

  /** In a batch where every flag is true, the last flag for any description is true. */
  lemma {:induction false} LastFlagTrue(rows: seq<(string, bool)>, d: string)
    requires forall i | 0 <= i < |rows| :: rows[i].1
    requires d in Descriptions(rows)
    ensures LastFlag(rows, d)
    decreases |rows|
  {
    if rows[|rows| - 1].0 != d {
      assert d in Descriptions(rows[..|rows| - 1]) by {
        var i :| 0 <= i < |rows| && rows[i].0 == d;
        assert rows[..|rows| - 1][i] == rows[i];
      }
      LastFlagTrue(rows[..|rows| - 1], d);
    }
  }

  /** Get-or-create reuses a known player's id and changes nothing. */
  lemma GetOrCreateReuses(t: Tables, name: string, fault: Option<Step>)
    requires Consistent(t)
    requires name in t.players
    requires !Throws(fault, SelectPlayer)
    ensures GetOrCreate(t, name, fault) == Success((t, t.players[name].id))
  {
  }

  /** Get-or-create adds exactly one row, with the next id, for an unknown player. */
  lemma GetOrCreateAdds(t: Tables, name: string, fault: Option<Step>)
    requires Consistent(t)
    requires name !in t.players
    requires !Throws(fault, SelectPlayer) && !Throws(fault, InsertPlayer)
    ensures GetOrCreate(t, name, fault).Success?
    ensures var (t', pid) := GetOrCreate(t, name, fault).value;
      && pid == t.nextId
      && t'.players == t.players[name := PlayerRow(pid, 0, 1)]
      && t'.players.Keys == t.players.Keys + {name}
      && t' == t.(players := t'.players, nextId := t.nextId + 1)
  {
  }
}
