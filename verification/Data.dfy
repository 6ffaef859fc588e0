/**
 * The save store as the game uses it: one connection over the tables of module
 * Tables. Each method issues its statements one at a time against `db`; the save
 * runs them inside a transaction that is rolled back when one of them throws an SQL error.
 */
module Data {
  import opened Wrappers
  import opened SuspectCodec
  import opened Model
  import opened Tables

  /** The three fields serializeSuspects writes for a suspect. */
  function RecordOf(s: Suspect): (r: SuspectRecord)
    reads s`guilty
    ensures r.name == s.name && r.description == s.description && r.guilty == s.guilty
  {
    SuspectRecord(s.name, s.description, s.guilty)
  }

  /** The persisted fields of a suspect list, in list order. */
  function Records(suspects: seq<Suspect>): (r: seq<SuspectRecord>)
    reads suspects`guilty
    ensures |r| == |suspects|
    ensures forall i {:trigger r[i]} | 0 <= i < |r| :: r[i] == RecordOf(suspects[i])
  {
    if suspects == [] then [] else [RecordOf(suspects[0])] + Records(suspects[1..])
  }

  /** The (description, flag) pairs saveClueProgress writes, in list order. */
  function ClueRows(clues: seq<Clue>): (r: seq<(string, bool)>)
    reads clues`description, clues`discovered
    ensures |r| == |clues|
  {
    if clues == [] then [] else [(clues[0].description, clues[0].discovered)] + ClueRows(clues[1..])
  }

  /** The `saved_cases` row for a case, or none for a null case. */
  function CaseRowOf(c: Case?): Option<SavedCaseRow>
    reads Cases(c)`title, Cases(c)`crimeScene, Cases(c)`suspects, SuspectsOf(c)`guilty
  {
    if c == null then None
    else Some(SavedCaseRow(c.title, c.crimeScene, Serialize(Records(c.suspects))))
  }

  /** Row i of ClueRows is clue i's description and flag. */
  lemma {:induction false} ClueRowsIndex(clues: seq<Clue>)
    ensures forall i {:trigger ClueRows(clues)[i]} | 0 <= i < |clues| ::
              ClueRows(clues)[i] == (clues[i].description, clues[i].discovered)
  {
    if clues != [] {
      ClueRowsIndex(clues[1..]);
      forall i | 1 <= i < |clues|
        ensures ClueRows(clues)[i] == (clues[i].description, clues[i].discovered)
      {
        assert ClueRows(clues)[i] == ClueRows(clues[1..])[i - 1];
      }
    }
  }

  /** Clue objects that did not change have the same rows. */
  twostate lemma RowsKept(clues: seq<Clue>)
    requires forall c | c in clues :: unchanged(c)
    ensures old(ClueRows(clues)) == ClueRows(clues)
  {
    forall i | 0 <= i < |clues|
      ensures old(clues[i].description) == clues[i].description && old(clues[i].discovered) == clues[i].discovered
    {
      assert clues[i] in clues;
    }
  }

  /** A case and suspects that did not change have the same row. */
  twostate lemma CaseRowKept(c: Case?)
    requires c != null ==> unchanged(c)
    requires c != null ==> forall s | s in c.suspects :: unchanged(s)
    ensures old(CaseRowOf(c)) == CaseRowOf(c)
  {
    if c != null {
      RecordsKept(c.suspects);
    }
  }

  /** Suspects whose guilt flags did not change have the same records. */
  twostate lemma RecordsKept(suspects: seq<Suspect>)
    requires forall s | s in suspects :: unchanged(s)
    ensures old(Records(suspects)) == Records(suspects)
  {
    forall i | 0 <= i < |suspects|
      ensures old(RecordOf(suspects[i])) == RecordOf(suspects[i])
    {
      assert suspects[i] in suspects;
    }
  }

  /** The descriptions of a list of clues. */
  function DescriptionsOf(clues: seq<Clue>): set<string>
    reads clues`description
  {
    set i | 0 <= i < |clues| :: clues[i].description
  }

  /** The suspect_progress rows written for the names in `done`. */
  function RowsFor(pid: int, questioned: map<string, bool>, done: set<string>): map<(int, string), bool>
  {
    map k | k in done && k in questioned :: (pid, k) := questioned[k]
  }

  /** Writing one more entry extends the rows written so far by that entry. */
  lemma RowsForStep(m: map<(int, string), bool>, pid: int, questioned: map<string, bool>, done: set<string>, k: string)
    requires k in questioned
    ensures (m + RowsFor(pid, questioned, done))[(pid, k) := questioned[k]] == m + RowsFor(pid, questioned, done + {k})
  {
    var lhs := (m + RowsFor(pid, questioned, done))[(pid, k) := questioned[k]];
    var rhs := m + RowsFor(pid, questioned, done + {k});
    assert forall key :: key in lhs <==> key in rhs;
    forall key | key in lhs ensures lhs[key] == rhs[key] {
      if key != (pid, k) && key in RowsFor(pid, questioned, done) {
        assert key.1 in done && key.0 == pid;
      }
    }
  }

  /** Once every key is written, the rows are SuspectRows. */
  lemma RowsForAll(pid: int, questioned: map<string, bool>)
    ensures RowsFor(pid, questioned, questioned.Keys) == SuspectRows(pid, questioned)
  {
  }

  /** A possibly null case as a set of objects, for frames. */
  function Cases(c: Case?): set<Case>
  {
    if c == null then {} else {c}
  }

  /** The suspects of a case, or none for a null case. */
  function SuspectsOf(c: Case?): seq<Suspect>
    reads Cases(c)`suspects
  {
    if c == null then [] else c.suspects
  }

  /**
   * A case as loadPlayerCase builds it from a saved_cases row: null without a
   * row; otherwise a medium case with no clues that carries the saved title,
   * crime scene and decoded suspects.
   */
  predicate CaseMatches(c: Case?, row: Option<SavedCaseRow>)
    reads Cases(c)`title, Cases(c)`crimeScene, Cases(c)`suspects, Cases(c)`clues, SuspectsOf(c)`guilty
  {
    && (c == null <==> row.None?)
    && (c != null ==>
          && c.title == row.value.caseTitle
          && c.crimeScene == row.value.crimeScene
          && Records(c.suspects) == Deserialize(row.value.suspectsData)
          && c.clues == []
          && c.difficulty == Medium)
  }

  /**
   * A GameState built from a snapshot: the named player, the saved room and
   * questioned map, the case as CaseMatches describes it, and one discovered
   * clue per discovered description.
   */
  predicate Matches(gs: GameState, name: string, snap: Snapshot)
    reads Cases(gs.currentCase)`title, Cases(gs.currentCase)`crimeScene, Cases(gs.currentCase)`suspects
    reads Cases(gs.currentCase)`clues
    reads SuspectsOf(gs.currentCase)`guilty, gs.discoveredClues`description, gs.discoveredClues`discovered
  {
    && gs.playerName == name
    && gs.currentRoom == snap.room
    && gs.questionedSuspects == snap.questioned
    && CaseMatches(gs.currentCase, snap.savedCase)
    && (forall i | 0 <= i < |gs.discoveredClues| :: gs.discoveredClues[i].discovered)
    && DescriptionsOf(gs.discoveredClues) == snap.discovered
    && |gs.discoveredClues| == |snap.discovered|
  }

  /**
   * How a save ends: with the transaction's tables when it commits; with the
   * tables as they were before and the rethrown error when it is rolled back;
   * with the rows written so far and a NullPointerException when it is cut
   * short by an exception the catch does not handle.
   */
  predicate SaveEnded(before: Tables, end: SaveEnd, r: Outcome<SaveError>, after: Tables)
  {
    && (end.Saved? ==> r == Pass)
    && (end.RolledBack? ==> r == Fail(end.error))
    && (end.PartlyCommitted? ==> r == Fail(QuestionedNull))
    && after == TablesAfter(before, end)
  }

  class DatabaseManager {
    var db: Tables
    var autoCommit: bool

    /** Opens the store over whatever tables the database file already holds. */
    constructor(existing: Tables)
      ensures db == existing && autoCommit
    {
      db := existing;
      autoCommit := true;
    }

    /** getPlayerId: the player's id, or -1 when there is no such name. */
    method GetPlayerId(name: string, fault: Option<Step>) returns (r: Result<int, SqlError>)
      ensures Throws(fault, SelectPlayer) ==> r == Failure(IoError(SelectPlayer))
      ensures !Throws(fault, SelectPlayer) ==> r == Success(PlayerId(db, name))
    {
      if Throws(fault, SelectPlayer) {
        return Failure(IoError(SelectPlayer));
      }
      if name in db.players {
        r := Success(db.players[name].id);
      } else {
        r := Success(NoPlayer);
      }
    }

    /** createPlayer: one INSERT, refused for a name that already has a row. */
    method CreatePlayer(name: string, fault: Option<Step>) returns (r: Outcome<SqlError>)
      modifies this`db
      ensures Throws(fault, InsertPlayer) ==> r == Fail(IoError(InsertPlayer)) && db == old(db)
      ensures !Throws(fault, InsertPlayer) && AddPlayer(old(db), name).Failure? ==>
                r == Fail(AddPlayer(old(db), name).error) && db == old(db)
      ensures !Throws(fault, InsertPlayer) && AddPlayer(old(db), name).Success? ==>
                r == Pass && db == AddPlayer(old(db), name).value
    {
      if Throws(fault, InsertPlayer) {
        return Fail(IoError(InsertPlayer));
      }
      if name in db.players {
        return Fail(UniqueViolation("players.name"));
      }
      db := db.(players := db.players[name := PlayerRow(db.nextId, 0, 1)], nextId := db.nextId + 1);
      r := Pass;
    }

    /** updatePlayerProgress: sets case and score of the named row only. */
    method UpdatePlayerProgress(name: string, caseId: int, score: int, fault: Option<Step>)
      returns (r: Outcome<SqlError>)
      modifies this`db
      ensures Throws(fault, UpdatePlayer) ==> r == Fail(IoError(UpdatePlayer)) && db == old(db)
      ensures !Throws(fault, UpdatePlayer) ==> r == Pass && db == SetProgress(old(db), name, caseId, score)
    {
      if Throws(fault, UpdatePlayer) {
        return Fail(IoError(UpdatePlayer));
      }
      if name in db.players {
        db := db.(players := db.players[name := db.players[name].(currentCase := caseId, score := score)]);
      }
      r := Pass;
    }

    /**
     * saveSuspectProgress: one upsert per questioned-map entry, in the map's own
     * order. Iterating a null map throws once the statement is prepared.
     */
    method SaveSuspectProgress(pid: int, questioned: Option<map<string, bool>>, fault: Option<Step>)
      returns (r: Outcome<SaveError>)
      modifies this`db
      ensures Throws(fault, UpsertSuspectProgress) ==> r == Fail(SqlFailed(IoError(UpsertSuspectProgress))) && db == old(db)
      ensures !Throws(fault, UpsertSuspectProgress) && questioned.None? ==> r == Fail(QuestionedNull) && db == old(db)
      ensures !Throws(fault, UpsertSuspectProgress) && questioned.Some? ==>
                r == Pass && db == old(db).(suspectProgress := old(db).suspectProgress + SuspectRows(pid, questioned.value))
    {
      if Throws(fault, UpsertSuspectProgress) {
        return Fail(SqlFailed(IoError(UpsertSuspectProgress)));
      }
      if questioned.None? {
        return Fail(QuestionedNull);
      }
      var questioned := questioned.value;
      var progress := db.suspectProgress;
      var done: set<string> := {};
      var remaining := questioned.Keys;
      while remaining != {}
        invariant done + remaining == questioned.Keys && done !! remaining
        invariant db == old(db)
        invariant progress == old(db).suspectProgress + RowsFor(pid, questioned, done)
        decreases |remaining|
      {
        var k :| k in remaining;
        RowsForStep(old(db).suspectProgress, pid, questioned, done, k);
        progress := progress[(pid, k) := questioned[k]];
        done := done + {k};
        remaining := remaining - {k};
      }
      db := db.(suspectProgress := progress);
      RowsForAll(pid, questioned);
      r := Pass;
    }

    /** saveClueProgress: one upsert per clue, in list order. */
    method SaveClueProgress(pid: int, clues: seq<Clue>, fault: Option<Step>) returns (r: Outcome<SqlError>)
      modifies this`db
      ensures Throws(fault, UpsertClueProgress) ==> r == Fail(IoError(UpsertClueProgress)) && db == old(db)
      ensures !Throws(fault, UpsertClueProgress) ==>
                r == Pass && db == old(db).(clueProgress := UpsertClues(old(db).clueProgress, pid, old(ClueRows(clues))))
    {
      if Throws(fault, UpsertClueProgress) {
        return Fail(IoError(UpsertClueProgress));
      }
      ghost var rows := ClueRows(clues);
      ClueRowsIndex(clues);
      for i := 0 to |clues|
        invariant db == old(db).(clueProgress := UpsertClues(old(db).clueProgress, pid, rows[..i]))
      {
        UpsertCluesSnoc(old(db).clueProgress, pid, rows[..i], rows[i]);
        assert rows[..i + 1] == rows[..i] + [rows[i]];
        db := db.(clueProgress := db.clueProgress[(pid, clues[i].description) := clues[i].discovered]);
      }
      assert rows[..|clues|] == rows;
      r := Pass;
    }

    /** saveCaseAndSuspects: nothing for a null case; otherwise delete, then insert the new row. */
    method SaveCaseAndSuspects(pid: int, currentCase: Case?, fault: Option<Step>) returns (r: Outcome<SqlError>)
      modifies this`db
      ensures var res := SaveCase(old(db), pid, old(CaseRowOf(currentCase)), fault);
        && (res.Failure? ==> r == Fail(res.error))
        && (res.Success? ==> r == Pass && db == res.value)
    {
      label Entry:
      if currentCase == null {
        return Pass;
      }
      if Throws(fault, DeleteSavedCase) {
        return Fail(IoError(DeleteSavedCase));
      }
      db := db.(savedCases := db.savedCases - {pid});
      if Throws(fault, InsertSavedCase) {
        return Fail(IoError(InsertSavedCase));
      }
      var data := Serialize(Records(currentCase.suspects));
      CaseRowKept@Entry(currentCase);
      if pid in db.savedCases {
        return Fail(UniqueViolation("saved_cases.player_id"));
      }
      db := db.(savedCases := db.savedCases[pid := SavedCaseRow(currentCase.title, currentCase.crimeScene, data)]);
      r := Pass;
    }

    /** The get-or-create start of saveGameState: look the player up, insert the name if unknown. */
    method GetOrCreatePlayer(name: string, fault: Option<Step>) returns (r: Result<int, SqlError>)
      modifies this`db
      ensures var g := GetOrCreate(old(db), name, fault);
        && (g.Failure? ==> r == Failure(g.error))
        && (g.Success? ==> r == Success(g.value.1) && db == g.value.0)
    {
      r := GetPlayerId(name, fault);
      if r.Failure? || r.value != NoPlayer {
        return;
      }
      var created := CreatePlayer(name, fault);
      if created.Fail? {
        return Failure(created.error);
      }
      r := GetPlayerId(name, None);
    }

    /**
     * The statements after get-or-create and before the commit: room, progress,
     * case. A null questioned map throws after the room row is written.
     */
    method WriteSteps(pid: int, room: Option<string>, questioned: Option<map<string, bool>>, clues: seq<Clue>,
                      currentCase: Case?, fault: Option<Step>) returns (r: Outcome<SaveError>)
      modifies this`db
      ensures questioned.None? ==>
        var end := NullMapWrites(old(db), pid, room, fault);
        && (end.RolledBack? ==> r == Fail(end.error))
        && (end.PartlyCommitted? ==> r == Fail(QuestionedNull) && db == end.tables)
      ensures questioned.Some? && ProgressError(room, fault).Some? ==> r == Fail(SqlFailed(ProgressError(room, fault).value))
      ensures questioned.Some? && ProgressError(room, fault).None? ==>
        var res := SaveCase(WriteProgress(old(db), pid, room.value, questioned.value, old(ClueRows(clues))), pid,
                            old(CaseRowOf(currentCase)), fault);
        && (res.Success? ==> r == Pass && db == res.value)
        && (res.Failure? ==> r == Fail(SqlFailed(res.error)))
    {
      label Entry:
      if Throws(fault, UpsertRoom) {
        return Fail(SqlFailed(IoError(UpsertRoom)));
      }
      if room.None? {
        return Fail(SqlFailed(NotNullViolation("game_state.current_room")));
      }
      db := db.(gameState := db.gameState[pid := room.value]);
      r := SaveSuspectProgress(pid, questioned, fault);
      if r.Fail? {
        return;
      }
      RowsKept@Entry(clues);
      var clueResult := SaveClueProgress(pid, clues, fault);
      if clueResult.Fail? {
        return Fail(SqlFailed(clueResult.error));
      }
      assert db == WriteProgress(old(db), pid, room.value, questioned.value, old(ClueRows(clues)));
      CaseRowKept@Entry(currentCase);
      var caseResult := SaveCaseAndSuspects(pid, currentCase, fault);
      if caseResult.Fail? {
        return Fail(SqlFailed(caseResult.error));
      }
      r := Pass;
    }

    /** The body of saveGameState's try block: the statements up to the commit. */
    method SaveSteps(name: string, room: Option<string>, questioned: Option<map<string, bool>>, clues: seq<Clue>,
                     currentCase: Case?, fault: Option<Step>) returns (r: Outcome<SaveError>)
      modifies this`db, this`autoCommit
      ensures !autoCommit
      ensures var end := SaveRun(old(db), name, room, questioned, old(ClueRows(clues)), old(CaseRowOf(currentCase)), fault);
        && (end.Saved? ==> r == Pass && db == end.tables)
        && (end.RolledBack? ==> r == Fail(end.error))
        && (end.PartlyCommitted? ==> r == Fail(QuestionedNull) && db == end.tables)
    {
      label Entry:
      autoCommit := false;
      var found := GetOrCreatePlayer(name, fault);
      if found.Failure? {
        return Fail(SqlFailed(found.error));
      }
      RowsKept@Entry(clues);
      CaseRowKept@Entry(currentCase);
      r := WriteSteps(found.value, room, questioned, clues, currentCase, fault);
      if r.Pass? && Throws(fault, Commit) {
        r := Fail(SqlFailed(IoError(Commit)));
      }
    }

    /**
     * saveGameState: get-or-create the player, write room, progress and case in
     * one transaction and commit. When a statement throws an SQLException the
     * transaction is rolled back, so every table is as before the call, and the
     * same error is rethrown. The catch takes nothing else: the
     * NullPointerException of a null questioned map leaves the transaction open,
     * and switching auto-commit back on, which happens either way, commits the
     * rows written before it.
     */
    method SaveGameState(name: string, room: Option<string>, questioned: Option<map<string, bool>>, clues: seq<Clue>,
                         currentCase: Case?, fault: Option<Step>) returns (r: Outcome<SaveError>)
      modifies this`db, this`autoCommit
      ensures autoCommit
      ensures SaveEnded(old(db), SaveRun(old(db), name, room, questioned, old(ClueRows(clues)),
                                         old(CaseRowOf(currentCase)), fault), r, db)
    {
      var before := db;
      r := SaveSteps(name, room, questioned, clues, currentCase, fault);
      if r.Fail? && r.error.SqlFailed? {
        db := before;
      }
      autoCommit := true;
    }

    /** getCurrentRoom: the saved room, or the Engine Room when there is none. */
    method GetCurrentRoom(pid: int, fault: Option<Step>) returns (r: Result<string, SqlError>)
      ensures Throws(fault, SelectRoom) ==> r == Failure(IoError(SelectRoom))
      ensures !Throws(fault, SelectRoom) ==> r == Success(RoomOf(db, pid))
    {
      if Throws(fault, SelectRoom) {
        return Failure(IoError(SelectRoom));
      }
      if pid in db.gameState {
        return Success(db.gameState[pid]);
      }
      r := Success(DefaultRoom);
    }

    /** The suspect objects deserializeSuspects builds, one per decoded record. */
    static method NewSuspects(records: seq<SuspectRecord>) returns (suspects: seq<Suspect>)
      ensures |suspects| == |records|
      ensures forall s | s in suspects :: fresh(s)
      ensures Records(suspects) == records
    {
      suspects := [];
      for i := 0 to |records|
        invariant |suspects| == i
        invariant forall s | s in suspects :: fresh(s)
        invariant forall j | 0 <= j < i :: RecordOf(suspects[j]) == records[j]
      {
        var s := new Suspect(records[i].name, records[i].description, records[i].guilty);
        suspects := suspects + [s];
      }
    }

    /** loadPlayerCase: a fresh case from the saved row, or null when there is no row. */
    method LoadPlayerCase(pid: int, fault: Option<Step>) returns (r: Result<Case?, SqlError>)
      ensures Throws(fault, SelectSavedCase) ==> r == Failure(IoError(SelectSavedCase))
      ensures !Throws(fault, SelectSavedCase) ==> r.Success?
      ensures r.Success? ==> (r.value == null <==> pid !in db.savedCases)
      ensures r.Success? && r.value != null ==>
        && fresh(r.value) && (forall s | s in r.value.suspects :: fresh(s))
        && r.value.title == db.savedCases[pid].caseTitle
        && r.value.crimeScene == db.savedCases[pid].crimeScene
        && Records(r.value.suspects) == Deserialize(db.savedCases[pid].suspectsData)
        && r.value.clues == [] && r.value.difficulty == Medium
    {
      if Throws(fault, SelectSavedCase) {
        return Failure(IoError(SelectSavedCase));
      }
      if pid !in db.savedCases {
        return Success(null);
      }
      var row := db.savedCases[pid];
      var c := new Case.Default();
      c.SetTitle(row.caseTitle);
      c.SetCrimeScene(row.crimeScene);
      var suspects := NewSuspects(Deserialize(row.suspectsData));
      c.SetSuspects(suspects);
      r := Success(c);
    }

    /** loadQuestionedSuspects: every progress row of the player, by suspect name. */
    method LoadQuestionedSuspects(pid: int, fault: Option<Step>) returns (r: Result<map<string, bool>, SqlError>)
      ensures Throws(fault, SelectSuspectProgress) ==> r == Failure(IoError(SelectSuspectProgress))
      ensures !Throws(fault, SelectSuspectProgress) ==> r == Success(QuestionedOf(db, pid))
    {
      if Throws(fault, SelectSuspectProgress) {
        return Failure(IoError(SelectSuspectProgress));
      }
      r := Success(QuestionedOf(db, pid));
    }

    /** One fresh clue marked discovered per description, in no particular order. */
    static method NewClues(descriptions: set<string>) returns (clues: seq<Clue>)
      ensures forall c | c in clues :: fresh(c)
      ensures forall i | 0 <= i < |clues| :: clues[i].discovered
      ensures DescriptionsOf(clues) == descriptions
      ensures |clues| == |descriptions|
    {
      clues := [];
      ghost var ds: seq<string> := [];
      var remaining := descriptions;
      while remaining != {}
        invariant remaining <= descriptions
        invariant |ds| == |clues|
        invariant forall i | 0 <= i < |clues| :: fresh(clues[i]) && clues[i].discovered && clues[i].description == ds[i]
        invariant (set x | x in ds) == descriptions - remaining
        invariant |clues| + |remaining| == |descriptions|
        decreases |remaining|
      {
        var d :| d in remaining;
        var c := new Clue(d, true);
        assert (set x | x in ds + [d]) == (set x | x in ds) + {d};
        ds := ds + [d];
        clues := clues + [c];
        remaining := remaining - {d};
      }
      DescriptionsAre(clues, ds);
    }

    /** Clues whose descriptions are listed one by one have the listed descriptions. */
    static lemma DescriptionsAre(clues: seq<Clue>, ds: seq<string>)
      requires |ds| == |clues|
      requires forall i | 0 <= i < |clues| :: clues[i].description == ds[i]
      ensures DescriptionsOf(clues) == set x | x in ds
    {
      forall x | x in ds ensures x in DescriptionsOf(clues) {
        var i :| 0 <= i < |ds| && ds[i] == x;
        assert clues[i].description == x;
      }
    }

    /** loadDiscoveredClues: one fresh, discovered clue per row whose flag is TRUE. */
    method LoadDiscoveredClues(pid: int, fault: Option<Step>) returns (r: Result<seq<Clue>, SqlError>)
      ensures Throws(fault, SelectClueProgress) ==> r == Failure(IoError(SelectClueProgress))
      ensures !Throws(fault, SelectClueProgress) ==> r.Success?
      ensures r.Success? ==>
        && (forall c | c in r.value :: fresh(c))
        && (forall i | 0 <= i < |r.value| :: r.value[i].discovered)
        && DescriptionsOf(r.value) == DiscoveredOf(db, pid)
        && |r.value| == |DiscoveredOf(db, pid)|
    {
      if Throws(fault, SelectClueProgress) {
        return Failure(IoError(SelectClueProgress));
      }
      var clues := NewClues(DiscoveredOf(db, pid));
      r := Success(clues);
    }

    /**
     * loadGameState: null for an unknown player; otherwise room, case, questioned
     * map and discovered clues, read in that order, as the snapshot LoadSpec describes.
     */
    method LoadGameState(name: string, fault: Option<Step>) returns (r: Result<Option<GameState>, SqlError>)
      ensures var spec := LoadSpec(db, name, fault);
        && (r.Failure? <==> spec.Failure?)
        && (spec.Failure? ==> r.error == spec.error)
        && (spec.Success? ==> (r.value.None? <==> spec.value.None?))
        && (spec.Success? && spec.value.Some? ==>
              && r.value.Some?
              && Matches(r.value.value, name, spec.value.value)
              && (r.value.value.currentCase != null ==> fresh(r.value.value.currentCase)))
    {
      var found := GetPlayerId(name, fault);
      if found.Failure? {
        return Failure(found.error);
      }
      var pid := found.value;
      if pid == NoPlayer {
        return Success(None);
      }
      var room :- GetCurrentRoom(pid, fault);
      var currentCase :- LoadPlayerCase(pid, fault);
      var questioned :- LoadQuestionedSuspects(pid, fault);
      var clues :- LoadDiscoveredClues(pid, fault);
      var gs := GameState(name, room, currentCase, questioned, clues);
      r := Success(Some(gs));
    }
  }
}
