/**
 * The game controller: the ship's three rooms and the clues hidden in them, the
 * case loaded from the case file, the questioning and accusation rules, moving
 * between rooms, searching, and saving and loading through the DatabaseManager.
 *
 * Files are passed in as their lines (None when the file cannot be opened), the
 * player's dialog choices and the shuffle as parameters, and the Swing view is
 * not modelled. A runtime exception the Java code does not catch ends the
 * operation where it happens; the methods then return a Crash saying which one,
 * with the state as far as the operation got.
 */
module Game {
  import opened Wrappers
  import opened SuspectCodec
  import opened Model
  import opened Tables
  import opened Data
  import opened GameRules

  /** The only player the game saves and loads. */
  const PlayerName: string := "Player1"

  const EngineRoomDescription: string :=
    "The ship's engine room hums with activity. Massive reactors dominate the space,\n"
    + "with pipes and conduits running along every surface. The air smells of oil and\n"
    + "ozone. This is where Chief Engineer Harris was found dead."
  const CrewQuartersDescription: string :=
    "Rows of beds where the crew sleeps. Personal belongings are scattered about."
  const BridgeDescription: string :=
    "The ship's control center. Displays and controls over every surface."

  /** The unchecked exceptions the controller can run into. */
  datatype Crash = NullPointer | IndexOutOfBounds

  /** How a load ended. */
  datatype LoadResult = Loaded | NoSavedGame | LoadFailed(error: SqlError) | LoadCrashed

  /** How questioning ended. */
  datatype Questioning =
    | NoSuspects
    | Cancelled
    | AllAsked
    | NoQuestion(offered: seq<string>)
    | Asked(offered: seq<string>, question: string)
    | AskCrashed

  /** How an accusation ended. */
  datatype Verdict = NobodyToAccuse | NoAccusation | Correct | Wrong

  /** Positions i and j of a list hold different clue objects. */
  predicate Apart(clues: seq<Clue>, i: int, j: int)
    requires 0 <= i < |clues| && 0 <= j < |clues|
  {
    clues[i] != clues[j]
  }

  /** No clue object occurs twice. */
  predicate Distinct(clues: seq<Clue>)
  {
    forall i, j | 0 <= i < j < |clues| :: Apart(clues, i, j)
  }

  /** A slice of a list without repeats has no repeats. */
  lemma DistinctSlice(clues: seq<Clue>, lo: nat, hi: nat)
    requires lo <= hi <= |clues| && Distinct(clues)
    ensures Distinct(clues[lo..hi])
  {
    forall i, j | 0 <= i < j < hi - lo
      ensures Apart(clues[lo..hi], i, j)
    {
      assert Apart(clues, lo + i, lo + j);
      assert clues[lo..hi][i] == clues[lo + i] && clues[lo..hi][j] == clues[lo + j];
    }
  }

  /** The names of a suspect list. */
  function SuspectNames(suspects: seq<Suspect>): set<string>
  {
    set i | 0 <= i < |suspects| :: suspects[i].name
  }

  /** The names of a list with one more suspect. */
  lemma SuspectNamesSnoc(suspects: seq<Suspect>, i: nat)
    requires i < |suspects|
    ensures SuspectNames(suspects[..i + 1]) == SuspectNames(suspects[..i]) + {suspects[i].name}
  {
    assert forall j | 0 <= j < i :: suspects[..i + 1][j] == suspects[..i][j];
    assert suspects[..i + 1][i] == suspects[i];
  }

  /** Which navigation buttons updateNavigationButtons enables. */
  datatype Buttons = Buttons(north: bool, south: bool, returnToEngine: bool)

  function NavigationButtons(room: string): Buttons
  {
    Buttons(room != Bridge, room != EngineRoom, room != EngineRoom)
  }

  /**
   * In a room of the ship a navigation button is enabled exactly when pressing
   * it leads somewhere else.
   */
  lemma EnabledButtonsMove(room: string)
    requires room in ShipKeys
    ensures NavigationButtons(room).north <==> NorthOf(room) != room
    ensures NavigationButtons(room).south <==> SouthOf(room) != room
    ensures NavigationButtons(room).returnToEngine <==> room != EngineRoom
  {
  }

  /** Rows for clues created from the given descriptions, none of them discovered yet. */
  function NewRows(descriptions: seq<string>): (r: seq<(string, bool)>)
    ensures |r| == |descriptions|
    ensures forall i | 0 <= i < |r| :: r[i] == (descriptions[i], false)
  {
    if descriptions == [] then [] else [(descriptions[0], false)] + NewRows(descriptions[1..])
  }

  /**
   * The clues loadClues hands to a room: the first two to the engine room, the
   * third to the crew quarters, the fourth to the bridge; the rest to nobody.
   */
  function Share<T>(xs: seq<T>, room: string): (r: seq<T>)
    ensures |r| <= 2
  {
    if room == EngineRoom then xs[..Min(2, |xs|)]
    else if room == CrewQuarters then (if |xs| > 2 then [xs[2]] else [])
    else if room == Bridge then (if |xs| > 3 then [xs[3]] else [])
    else []
  }

  /** With four or more clues each of the first four goes to exactly one room, in order. */
  lemma ShareFirstFour<T>(xs: seq<T>)
    requires |xs| >= 4
    ensures Share(xs, EngineRoom) + Share(xs, CrewQuarters) + Share(xs, Bridge) == xs[..4]
    ensures forall k | k !in ShipKeys :: Share(xs, k) == []
  {
    assert Share(xs, EngineRoom) == [xs[0], xs[1]];
  }

  /** Dealing never puts one clue in two places. */
  lemma ShareDistinct(clues: seq<Clue>)
    requires Distinct(clues)
    ensures Distinct(Share(clues, EngineRoom) + Share(clues, CrewQuarters) + Share(clues, Bridge))
  {
    var m := Min(4, |clues|);
    assert Share(clues, EngineRoom) + Share(clues, CrewQuarters) + Share(clues, Bridge) == clues[..m];
    DistinctSlice(clues, 0, m);
  }

  /** The rows of the clues dealt to a room are the rows dealt from the new clues' rows. */
  lemma ShareRows(clues: seq<Clue>, descriptions: seq<string>)
    requires |clues| == |descriptions|
    requires forall j | 0 <= j < |clues| :: clues[j].description == descriptions[j] && !clues[j].discovered
    ensures ClueRows(Share(clues, EngineRoom)) == Share(NewRows(descriptions), EngineRoom)
    ensures ClueRows(Share(clues, CrewQuarters)) == Share(NewRows(descriptions), CrewQuarters)
    ensures ClueRows(Share(clues, Bridge)) == Share(NewRows(descriptions), Bridge)
  {
    ClueRowsIndex(clues);
    assert ClueRows(clues) == NewRows(descriptions);
  }

  /** The clues of a list that are discovered, in list order: what saveGame gathers. */
  function Discovered(clues: seq<Clue>): (r: seq<Clue>)
    reads clues`discovered
    ensures |r| <= |clues|
  {
    if clues == [] then []
    else
      var last := clues[|clues| - 1];
      assert clues == clues[..|clues| - 1] + [last];
      Discovered(clues[..|clues| - 1]) + (if last.discovered then [last] else [])
  }

  /** What saveGame gathers is exactly the discovered clues of the list. */
  lemma {:induction false} DiscoveredMembers(clues: seq<Clue>)
    ensures forall c | c in Discovered(clues) :: c in clues && c.discovered
    ensures forall c | c in clues && c.discovered :: c in Discovered(clues)
  {
    if clues != [] {
      var n := |clues| - 1;
      DiscoveredMembers(clues[..n]);
      assert clues == clues[..n] + [clues[n]];
    }
  }

  /** The clues of a list whose row says they were not yet discovered, in list order. */
  function Unflagged(clues: seq<Clue>, rows: seq<(string, bool)>): (r: seq<Clue>)
    requires |rows| == |clues|
    ensures |r| <= |clues|
    ensures forall c | c in r :: c in clues
  {
    if clues == [] then []
    else
      var n := |clues| - 1;
      Unflagged(clues[..n], rows[..n]) + (if rows[n].1 then [] else [clues[n]])
  }

  /** With every row flagged nothing is unflagged. */
  lemma {:induction false} UnflaggedNone(clues: seq<Clue>, rows: seq<(string, bool)>)
    requires |rows| == |clues|
    requires forall j | 0 <= j < |rows| :: rows[j].1
    ensures Unflagged(clues, rows) == []
  {
    if clues != [] {
      var n := |clues| - 1;
      UnflaggedNone(clues[..n], rows[..n]);
    }
  }

  /** The first unflagged clue heads the list. */
  lemma {:induction false} UnflaggedFirst(clues: seq<Clue>, rows: seq<(string, bool)>, i: nat)
    requires |rows| == |clues| && i < |clues| && !rows[i].1
    requires forall j | 0 <= j < i :: rows[j].1
    ensures Unflagged(clues, rows) != [] && Unflagged(clues, rows)[0] == clues[i]
  {
    var n := |clues| - 1;
    if i == n {
      UnflaggedNone(clues[..n], rows[..n]);
    } else {
      UnflaggedFirst(clues[..n], rows[..n], i);
    }
  }

  /** getOrDefault on the asked-question map: nothing asked for an untracked suspect. */
  function AskedIn(asked: map<string, set<string>>, name: string): (r: set<string>)
    ensures name !in asked ==> r == {}
  {
    if name in asked then asked[name] else {}
  }

  /**
   * The outcome of questionSuspects for a case, the questions read, the asked
   * questions so far and the player's choices. Questions already asked of the
   * suspect are filtered out; the first three of the shuffled remainder are
   * offered; recording a question throws for a suspect missing from the map.
   */
  function Questioned(c: Case?, all: seq<string>, asked: map<string, set<string>>, suspectName: Option<string>,
                      shuffled: seq<string>, question: Option<string>): (r: Questioning)
    reads Cases(c)`suspects
    ensures r.Asked? ==> suspectName.Some? && suspectName.value in asked && question == Some(r.question)
    ensures r.NoQuestion? || r.Asked? ==> r.offered == Offered(shuffled)
    ensures r == AskCrashed ==> suspectName.Some? && suspectName.value !in asked && question.Some?
  {
    if c == null || c.suspects == [] then NoSuspects
    else if suspectName.None? then Cancelled
    else if Available(all, AskedIn(asked, suspectName.value)) == [] then AllAsked
    else if question.None? then NoQuestion(Offered(shuffled))
    else if suspectName.value !in asked then AskCrashed
    else Asked(Offered(shuffled), question.value)
  }

  /**
   * Whatever order the shuffle puts the available questions in, a dialog that
   * is shown offers one to three questions of the file that the suspect has not
   * been asked, and the question asked is one of them and new.
   */
  lemma OffersOnlyNewQuestions(c: Case?, all: seq<string>, asked: map<string, set<string>>, name: string,
                               shuffled: seq<string>, question: Option<string>)
    requires multiset(shuffled) == multiset(Available(all, AskedIn(asked, name)))
    requires question.Some? ==> question.value in Offered(shuffled)
    ensures var r := Questioned(c, all, asked, Some(name), shuffled, question);
      && (r.NoQuestion? || r.Asked? ==> 1 <= |r.offered| <= 3)
      && (r.NoQuestion? || r.Asked? ==> forall q | q in r.offered :: q in all && q !in AskedIn(asked, name))
      && (r.Asked? ==> r.question in all && r.question !in asked[name])
      && (r == AllAsked <==> c != null && c.suspects != [] && forall q | q in all :: q in AskedIn(asked, name))
  {
    var available := Available(all, AskedIn(asked, name));
    if available != [] {
      OfferedAreNew(all, AskedIn(asked, name), shuffled);
      assert available[0] in available;
    } else {
      assert forall q | q in all :: q in AskedIn(asked, name);
    }
  }

  /** The first listed suspect with the given name, or -1. */
  function FirstNamed(suspects: seq<Suspect>, name: string): (i: int)
    ensures -1 <= i < |suspects|
    ensures i >= 0 ==> suspects[i].name == name && forall j | 0 <= j < i :: suspects[j].name != name
    ensures i == -1 <==> name !in SuspectNames(suspects)
  {
    if suspects == [] then -1
    else if suspects[0].name == name then 0
    else
      var j := FirstNamed(suspects[1..], name);
      assert forall k | 0 <= k < |suspects[1..]| :: suspects[1..][k] == suspects[k + 1];
      if j < 0 then -1 else j + 1
  }

  /**
   * makeAccusation: with no case or no suspects there is nobody to accuse; a
   * cancelled dialog accuses nobody; otherwise the first suspect of that name
   * decides, and a name that is not on the list is wrong.
   */
  function Accuse(c: Case?, accused: Option<string>): (v: Verdict)
    reads Cases(c)`suspects, SuspectsOf(c)`guilty
    ensures v == NobodyToAccuse <==> c == null || c.suspects == []
    ensures v == NoAccusation <==> c != null && c.suspects != [] && accused.None?
    ensures v == Correct ==> accused.Some? && accused.value in SuspectNames(SuspectsOf(c))
  {
    if c == null || c.suspects == [] then NobodyToAccuse
    else if accused.None? then NoAccusation
    else
      var i := FirstNamed(c.suspects, accused.value);
      if i >= 0 && c.suspects[i].guilty then Correct else Wrong
  }

  /**
   * With the suspects loadCase builds, where exactly those named Samantha are
   * guilty, an accusation is correct exactly when it names Samantha and she is
   * among the suspects.
   */
  lemma AccusationNeedsSamantha(c: Case, accused: string)
    requires c.suspects != []
    requires forall s | s in c.suspects :: s.guilty <==> s.name == GuiltySuspect
    ensures Accuse(c, Some(accused)) == Correct <==>
              accused == GuiltySuspect && GuiltySuspect in SuspectNames(c.suspects)
  {
    var i := FirstNamed(c.suspects, accused);
    if i >= 0 {
      assert c.suspects[i] in c.suspects;
    }
  }

  class GameController {
    const dbManager: DatabaseManager
    var currentCase: Case?
    /** Which suspects were questioned; None (Java's null) until a case or a saved game is loaded. */
    var questionedSuspects: Option<map<string, bool>>
    var shipRooms: map<string, Room>
    var currentRoom: Option<string>
    var askedQuestions: map<string, set<string>>

    /** The room objects under the three keys, once the ship has them. */
    function Rooms(): (r: set<Room>)
      reads this`shipRooms
      ensures ShipKeys <= shipRooms.Keys ==> shipRooms[EngineRoom] in r && shipRooms[CrewQuarters] in r && shipRooms[Bridge] in r
    {
      if ShipKeys <= shipRooms.Keys then {shipRooms[EngineRoom], shipRooms[CrewQuarters], shipRooms[Bridge]} else {}
    }

    /** Every clue of the ship: engine room, then crew quarters, then bridge. */
    function AllClues(): seq<Clue>
      reads this`shipRooms, Rooms()`clues
      requires ShipKeys <= shipRooms.Keys
    {
      shipRooms[EngineRoom].clues + shipRooms[CrewQuarters].clues + shipRooms[Bridge].clues
    }

    /**
     * The ship as initializeShip lays it out: three distinct rooms under the
     * three keys, connected as Layout says, and no clue in two places.
     */
    predicate Valid()
      reads this`shipRooms, Rooms()`clues, Rooms()`connectedRooms
    {
      && shipRooms.Keys == ShipKeys
      && shipRooms[EngineRoom].connectedRooms == Layout(EngineRoom)
      && shipRooms[CrewQuarters].connectedRooms == Layout(CrewQuarters)
      && shipRooms[Bridge].connectedRooms == Layout(Bridge)
      && shipRooms[EngineRoom] != shipRooms[CrewQuarters]
      && shipRooms[EngineRoom] != shipRooms[Bridge]
      && shipRooms[CrewQuarters] != shipRooms[Bridge]
      && Distinct(AllClues())
    }

    /** The clues of one room are distinct objects too. */
    lemma RoomCluesDistinct(k: string)
      requires Valid() && k in shipRooms
      ensures Distinct(shipRooms[k].clues)
    {
      var e, c, b := shipRooms[EngineRoom].clues, shipRooms[CrewQuarters].clues, shipRooms[Bridge].clues;
      var all := AllClues();
      if k == EngineRoom {
        assert e == all[..|e|];
        DistinctSlice(all, 0, |e|);
      } else if k == CrewQuarters {
        assert c == all[|e|..|e| + |c|];
        DistinctSlice(all, |e|, |e| + |c|);
      } else {
        assert b == all[|e| + |c|..|all|];
        DistinctSlice(all, |e| + |c|, |all|);
      }
    }

    /** The case the case file describes, with questioning reset, when its suspects parse. */
    predicate HoldsCase(lines: seq<string>)
      requires |lines| >= 2
      reads this`currentCase, this`questionedSuspects, Cases(currentCase)`title, Cases(currentCase)`crimeScene
      reads Cases(currentCase)`clues, Cases(currentCase)`suspects, SuspectsOf(currentCase)`guilty
    {
      && currentCase != null
      && CaseFrom(currentCase, lines)
      && (ParseSuspects(SuspectLines(lines)).Some? ==>
            && questionedSuspects.Some?
            && questionedSuspects.value.Keys == SuspectNames(currentCase.suspects)
            && (forall n | n in questionedSuspects.value :: !questionedSuspects.value[n]))
    }

    /**
     * A medium case without clues titled by the case file's first line, set at
     * the crime scene of its second, with the parsed suspects when they parse
     * and none otherwise.
     */
    static predicate CaseFrom(c: Case, lines: seq<string>)
      requires |lines| >= 2
      reads c`title, c`crimeScene, c`clues, c`suspects, c.suspects`guilty
    {
      var parsed := ParseSuspects(SuspectLines(lines));
      && c.title == lines[0]
      && c.crimeScene == lines[1]
      && c.clues == []
      && c.difficulty == Medium
      && (parsed.Some? ==> Records(c.suspects) == parsed.value)
      && (parsed.None? ==> c.suspects == [])
    }

    /** Every suspect of the current case has an empty set of asked questions. */
    predicate AskedReset()
      reads this`currentCase, this`askedQuestions, Cases(currentCase)`suspects
    {
      && currentCase != null
      && askedQuestions.Keys == SuspectNames(currentCase.suspects)
      && (forall n | n in askedQuestions :: askedQuestions[n] == {})
    }

    /** The rooms hold the clues of the given file lines as loadClues deals them. */
    predicate Dealt(descriptions: seq<string>)
      requires ShipKeys <= shipRooms.Keys
      reads this`shipRooms, Rooms()`clues
      reads shipRooms[EngineRoom].clues`description, shipRooms[EngineRoom].clues`discovered
      reads shipRooms[CrewQuarters].clues`description, shipRooms[CrewQuarters].clues`discovered
      reads shipRooms[Bridge].clues`description, shipRooms[Bridge].clues`discovered
    {
      && ClueRows(shipRooms[EngineRoom].clues) == Share(NewRows(descriptions), EngineRoom)
      && ClueRows(shipRooms[CrewQuarters].clues) == Share(NewRows(descriptions), CrewQuarters)
      && ClueRows(shipRooms[Bridge].clues) == Share(NewRows(descriptions), Bridge)
    }

    /** A fresh ship: three new empty rooms, connected as Layout says. */
    method InitializeShip()
      modifies this`shipRooms
      ensures currentRoom == old(currentRoom) && askedQuestions == old(askedQuestions)
      ensures Valid()
      ensures fresh(shipRooms[EngineRoom]) && fresh(shipRooms[CrewQuarters]) && fresh(shipRooms[Bridge])
      ensures shipRooms[EngineRoom].clues == [] && shipRooms[CrewQuarters].clues == [] && shipRooms[Bridge].clues == []
      ensures shipRooms[EngineRoom].name == EngineRoom
      ensures shipRooms[CrewQuarters].name == CrewQuartersName
      ensures shipRooms[Bridge].name == Bridge
    {
      var engineRoom := new Room(EngineRoom, EngineRoomDescription);
      var crewQuarters := new Room(CrewQuartersName, CrewQuartersDescription);
      var bridge := new Room(Bridge, BridgeDescription);
      engineRoom.ConnectRoom(CrewQuarters);
      crewQuarters.ConnectRoom(EngineRoom);
      crewQuarters.ConnectRoom(Bridge);
      bridge.ConnectRoom(CrewQuarters);
      shipRooms := map[EngineRoom := engineRoom, CrewQuarters := crewQuarters, Bridge := bridge];
    }

    /**
     * loadCase: an unreadable file changes nothing. Otherwise a new case takes
     * the first two lines as title and crime scene, and one suspect is built per
     * line of the next three, Samantha guilty; every suspect starts
     * unquestioned. A suspect line without a description throws before the
     * suspects are stored, leaving the new case without suspects.
     */
    method LoadCase(file: Option<seq<string>>) returns (r: Outcome<Crash>)
      requires file.Some? ==> |file.value| >= 2
      modifies this`currentCase, this`questionedSuspects
      ensures currentRoom == old(currentRoom) && askedQuestions == old(askedQuestions)
      ensures file.None? ==> r == Pass && currentCase == old(currentCase)
      ensures file.None? ==> questionedSuspects == old(questionedSuspects)
      ensures file.Some? ==> HoldsCase(file.value) && fresh(currentCase)
      ensures file.Some? ==> forall s | s in currentCase.suspects :: fresh(s) && (s.guilty <==> s.name == GuiltySuspect)
      ensures file.Some? ==> (r == Pass <==> ParseSuspects(SuspectLines(file.value)).Some?)
      ensures r.Fail? ==> r == Fail(IndexOutOfBounds) && questionedSuspects == old(questionedSuspects)
    {
      if file.None? {
        return Pass;
      }
      var c, parsed := BuildCase(file.value);
      currentCase := c;
      if !parsed {
        return Fail(IndexOutOfBounds);
      }
      var questioned := Unquestioned(c.suspects);
      questionedSuspects := Some(questioned);
      r := Pass;
    }

    /**
     * The case loadCase builds: titled, then given one new suspect per line
     * after the first two; false when a suspect line throws, which leaves the
     * case without suspects.
     */
    static method BuildCase(lines: seq<string>) returns (c: Case, parsed: bool)
      requires |lines| >= 2
      ensures fresh(c) && CaseFrom(c, lines)
      ensures parsed <==> ParseSuspects(SuspectLines(lines)).Some?
      ensures forall s | s in c.suspects :: fresh(s) && (s.guilty <==> s.name == GuiltySuspect)
    {
      c := TitledCase(lines[0], lines[1]);
      var records := ParseSuspects(SuspectLines(lines));
      if records.Some? {
        ParsedGuilt(SuspectLines(lines));
        var suspects := CreateSuspects(records.value);
        c.SetSuspects(suspects);
      }
      parsed := records.Some?;
    }

    /** A new empty case given its title and crime scene, as loadCase starts one. */
    static method TitledCase(title: string, crimeScene: string) returns (c: Case)
      ensures fresh(c)
      ensures c.title == title && c.crimeScene == crimeScene
      ensures c.suspects == [] && c.clues == [] && c.difficulty == Medium
    {
      c := new Case.Default();
      c.SetTitle(title);
      c.SetCrimeScene(crimeScene);
    }

    /** One new suspect per parsed line, in order, Samantha guilty. */
    static method CreateSuspects(records: seq<SuspectRecord>) returns (suspects: seq<Suspect>)
      requires forall i | 0 <= i < |records| :: records[i].guilty <==> records[i].name == GuiltySuspect
      ensures Records(suspects) == records
      ensures forall s | s in suspects :: fresh(s)
      ensures forall s | s in suspects :: s.guilty <==> s.name == GuiltySuspect
    {
      suspects := [];
      for i := 0 to |records|
        invariant |suspects| == i
        invariant forall j | 0 <= j < i :: fresh(suspects[j]) && RecordOf(suspects[j]) == records[j]
      {
        var s := NewSuspect(records[i]);
        suspects := suspects + [s];
      }
      assert Records(suspects) == records;
    }

    /** One suspect of a parsed line: built innocent, then marked guilty when it is Samantha. */
    static method NewSuspect(line: SuspectRecord) returns (s: Suspect)
      ensures fresh(s)
      ensures s.name == line.name && s.description == line.description
      ensures s.guilty <==> line.name == GuiltySuspect
    {
      s := new Suspect(line.name, line.description, false);
      if line.name == GuiltySuspect {
        s.SetGuilty(true);
      }
    }

    /** Every suspect's name mapped to false, as loadCase starts the questioning. */
    static method Unquestioned(suspects: seq<Suspect>) returns (questioned: map<string, bool>)
      ensures questioned.Keys == SuspectNames(suspects)
      ensures forall n | n in questioned :: !questioned[n]
    {
      questioned := map[];
      for i := 0 to |suspects|
        invariant questioned.Keys == SuspectNames(suspects[..i])
        invariant forall n | n in questioned :: !questioned[n]
      {
        SuspectNamesSnoc(suspects, i);
        questioned := questioned[suspects[i].name := false];
      }
      assert suspects[..|suspects|] == suspects;
    }

    /** One new undiscovered clue per description, in order, as loadClues reads them. */
    static method CreateClues(descriptions: seq<string>) returns (clues: seq<Clue>)
      ensures |clues| == |descriptions|
      ensures forall j | 0 <= j < |clues| :: clues[j].description == descriptions[j] && !clues[j].discovered
      ensures Distinct(clues)
      ensures forall c | c in clues :: fresh(c)
    {
      clues := [];
      for i := 0 to |descriptions|
        invariant |clues| == i
        invariant forall j | 0 <= j < i :: clues[j].description == descriptions[j] && !clues[j].discovered
        invariant Distinct(clues)
        invariant forall c | c in clues :: fresh(c)
      {
        var c := new Clue(descriptions[i], false);
        forall a, b | 0 <= a < b < i + 1
          ensures Apart(clues + [c], a, b)
        {
          if b < i {
            assert Apart(clues, a, b);
          }
        }
        clues := clues + [c];
      }
    }

    /**
     * loadClues on fresh empty rooms: an unreadable file changes nothing.
     * Otherwise one undiscovered clue is created per non-blank trimmed line and
     * the first four are dealt as Share says; with fewer than four the dealing
     * throws at the first missing one, keeping those dealt before it.
     */
    method LoadClues(file: Option<seq<string>>) returns (r: Outcome<Crash>)
      requires Valid()
      requires shipRooms[EngineRoom].clues == [] && shipRooms[CrewQuarters].clues == [] && shipRooms[Bridge].clues == []
      modifies Rooms()`clues
      ensures currentRoom == old(currentRoom) && askedQuestions == old(askedQuestions)
      ensures Valid()
      ensures file.None? ==> r == Pass && AllClues() == []
      ensures file.Some? ==> Dealt(NonBlankTrimmed(file.value))
      ensures file.Some? ==> (r == Pass <==> |NonBlankTrimmed(file.value)| >= 4)
      ensures r.Fail? ==> r == Fail(IndexOutOfBounds)
    {
      if file.None? {
        return Pass;
      }
      var descriptions := NonBlankTrimmed(file.value);
      var clues := CreateClues(descriptions);
      ghost var rooms := shipRooms;
      var engineRoom, crewQuarters, bridge := shipRooms[EngineRoom], shipRooms[CrewQuarters], shipRooms[Bridge];
      assert engineRoom.clues == [] && crewQuarters.clues == [] && bridge.clues == [];
      Deal(clues, engineRoom, crewQuarters, bridge);
      assert shipRooms == rooms;
      assert engineRoom.clues == Share(clues, EngineRoom);
      assert crewQuarters.clues == Share(clues, CrewQuarters);
      assert bridge.clues == Share(clues, Bridge);
      assert AllClues() == Share(clues, EngineRoom) + Share(clues, CrewQuarters) + Share(clues, Bridge);
      ShareDistinct(clues);
      ShareRows(clues, descriptions);
      var n := |clues|;
      r := if n >= 4 then Pass else Fail(IndexOutOfBounds);
    }

    /**
     * The dealing step of loadClues: the first two clues go to the engine room,
     * the third to the crew quarters and the fourth to the bridge, each appended;
     * with fewer clues the dealing stops at the first missing one.
     */
    static method Deal(clues: seq<Clue>, engineRoom: Room, crewQuarters: Room, bridge: Room)
      requires engineRoom != crewQuarters && engineRoom != bridge && crewQuarters != bridge
      modifies engineRoom`clues, crewQuarters`clues, bridge`clues
      ensures engineRoom.clues == old(engineRoom.clues) + Share(clues, EngineRoom)
      ensures crewQuarters.clues == old(crewQuarters.clues) + Share(clues, CrewQuarters)
      ensures bridge.clues == old(bridge.clues) + Share(clues, Bridge)
    {
      var n := |clues|;
      if n > 0 {
        engineRoom.AddClue(clues[0]);
      }
      if n > 1 {
        engineRoom.AddClue(clues[1]);
      }
      if n > 2 {
        crewQuarters.AddClue(clues[2]);
      }
      if n > 3 {
        bridge.AddClue(clues[3]);
      }
    }

    /**
     * The constructor: a store over the existing tables, a fresh ship, the case
     * and clue files loaded, and an empty set of asked questions per suspect.
     * An unreadable case file leaves the game without a case, without a
     * questioned map and without question tracking. A readable file is taken to be well-formed, since a
     * malformed one throws out of the constructor.
     */
    constructor(existing: Tables, caseFile: Option<seq<string>>, clueFile: Option<seq<string>>)
      requires caseFile.Some? ==> CaseFileOk(caseFile.value)
      requires ClueFileOk(clueFile)
      ensures fresh(dbManager) && dbManager.db == existing && dbManager.autoCommit
      ensures Valid() && currentRoom == None
      ensures caseFile.Some? ==> HoldsCase(caseFile.value) && AskedReset()
      ensures caseFile.None? ==> currentCase == null && questionedSuspects == None && askedQuestions == map[]
      ensures clueFile.Some? ==> Dealt(NonBlankTrimmed(clueFile.value))
      ensures clueFile.None? ==> AllClues() == []
    {
      dbManager := new DatabaseManager(existing);
      currentCase := null;
      questionedSuspects := None;
      shipRooms := map[];
      currentRoom := None;
      askedQuestions := map[];
      new;
      var loaded := LoadResources(caseFile, clueFile);
      if caseFile.Some? {
        ResetAsked(caseFile, if clueFile.Some? then NonBlankTrimmed(clueFile.value) else []);
      }
    }

    /**
     * The loading both the constructor and startNewCase begin with: a fresh
     * ship, then the case file, then the clue file. An unreadable case file
     * keeps the current case; a malformed suspect line or a clue file with
     * fewer than four clues throws, the first before the clues are loaded.
     */
    method LoadResources(caseFile: Option<seq<string>>, clueFile: Option<seq<string>>) returns (r: Outcome<Crash>)
      requires caseFile.Some? ==> |caseFile.value| >= 2
      modifies this`shipRooms, this`currentCase, this`questionedSuspects
      ensures Valid() && currentRoom == old(currentRoom) && askedQuestions == old(askedQuestions)
      ensures caseFile.None? ==> currentCase == old(currentCase) && questionedSuspects == old(questionedSuspects)
      ensures caseFile.Some? ==> HoldsCase(caseFile.value)
      ensures r == Pass <==> (caseFile.None? || CaseFileOk(caseFile.value)) && ClueFileOk(clueFile)
      ensures r.Fail? ==> r == Fail(IndexOutOfBounds)
      ensures r == Pass && clueFile.Some? ==> Dealt(NonBlankTrimmed(clueFile.value))
      ensures r == Pass && clueFile.None? ==> AllClues() == []
    {
      InitializeShip();
      r := LoadCase(caseFile);
      if r.Fail? {
        return;
      }
      label CaseLoaded:
      r := LoadClues(clueFile);
      if caseFile.Some? {
        HoldsCaseKept@CaseLoaded(caseFile.value);
      }
    }

    /** Changing neither the room map, the rooms nor their clues keeps the ship as it was. */
    twostate lemma ShipKept()
      requires old(Valid())
      requires unchanged(this`shipRooms) && unchanged(Rooms())
      ensures Valid() && AllClues() == old(AllClues())
    {
    }

    /** Changing neither the room map, the rooms nor their clues keeps the dealt clues. */
    twostate lemma DealtKept(descriptions: seq<string>)
      requires old(Valid())
      requires unchanged(this`shipRooms) && unchanged(Rooms())
      requires forall c | c in AllClues() :: unchanged(c)
      ensures Valid() && AllClues() == old(AllClues())
      ensures old(Dealt(descriptions)) ==> Dealt(descriptions)
    {
      ShipKept();
      var e, c, b := shipRooms[EngineRoom].clues, shipRooms[CrewQuarters].clues, shipRooms[Bridge].clues;
      assert forall x | x in e :: x in AllClues();
      assert forall x | x in c :: x in AllClues();
      assert forall x | x in b :: x in AllClues();
      RowsKept(e);
      RowsKept(c);
      RowsKept(b);
    }

    /** Changing neither the case, its suspects nor the questioning map keeps HoldsCase. */
    twostate lemma HoldsCaseKept(lines: seq<string>)
      requires |lines| >= 2
      requires old(HoldsCase(lines))
      requires unchanged(this`currentCase, this`questionedSuspects)
      requires unchanged(currentCase)
      requires forall s | s in currentCase.suspects :: unchanged(s)
      ensures HoldsCase(lines)
    {
      RecordsKept(currentCase.suspects);
    }

    /** Question tracking restarts: an empty set of asked questions per suspect of the case. */
    method ResetAsked(ghost lines: Option<seq<string>>, ghost descriptions: seq<string>)
      requires currentCase != null && Valid()
      requires lines.Some? ==> |lines.value| >= 2 && HoldsCase(lines.value)
      modifies this`askedQuestions
      ensures AskedReset()
      ensures currentCase == old(currentCase) && currentRoom == old(currentRoom)
      ensures shipRooms == old(shipRooms) && questionedSuspects == old(questionedSuspects)
      ensures Valid() && AllClues() == old(AllClues())
      ensures lines.Some? ==> HoldsCase(lines.value)
      ensures old(Dealt(descriptions)) ==> Dealt(descriptions)
    {
      label Before:
      askedQuestions := Tracked(map[], currentCase.suspects);
      if lines.Some? {
        HoldsCaseKept@Before(lines.value);
      }
      DealtKept@Before(descriptions);
    }

    /**
     * What startNewCase does once the files are loaded: the player starts in
     * the Engine Room, the display throws on a missing case, and otherwise
     * question tracking restarts.
     */
    method EnterShip(ghost lines: Option<seq<string>>, ghost descriptions: seq<string>) returns (r: Outcome<Crash>)
      requires Valid()
      requires lines.Some? ==> |lines.value| >= 2 && HoldsCase(lines.value)
      modifies this`currentRoom, this`askedQuestions
      ensures currentRoom == Some(EngineRoom)
      ensures r.Fail? <==> currentCase == null
      ensures r.Fail? ==> r == Fail(NullPointer) && askedQuestions == old(askedQuestions)
      ensures r == Pass ==> AskedReset()
      ensures currentCase == old(currentCase) && shipRooms == old(shipRooms) && questionedSuspects == old(questionedSuspects)
      ensures Valid() && AllClues() == old(AllClues())
      ensures lines.Some? ==> HoldsCase(lines.value)
      ensures old(Dealt(descriptions)) ==> Dealt(descriptions)
    {
      label Before:
      currentRoom := Some(EngineRoom);
      if lines.Some? {
        HoldsCaseKept@Before(lines.value);
      }
      DealtKept@Before(descriptions);
      if currentCase == null {
        return Fail(NullPointer);
      }
      ResetAsked(lines, descriptions);
      r := Pass;
    }

    /**
     * The question tracking loadGame adds: every suspect without an entry gets
     * an empty one; existing entries are kept.
     */
    static method Tracked(asked: map<string, set<string>>, suspects: seq<Suspect>)
      returns (r: map<string, set<string>>)
      ensures r.Keys == asked.Keys + SuspectNames(suspects)
      ensures forall n | n in r :: r[n] == if n in asked then asked[n] else {}
    {
      r := asked;
      for i := 0 to |suspects|
        invariant r.Keys == asked.Keys + SuspectNames(suspects[..i])
        invariant forall n | n in r :: r[n] == if n in asked then asked[n] else {}
      {
        SuspectNamesSnoc(suspects, i);
        if suspects[i].name !in r {
          r := r[suspects[i].name := {}];
        }
      }
      assert suspects[..|suspects|] == suspects;
    }

    /**
     * startNewCase: a fresh ship, the case file, the clue file, the Engine Room
     * as starting room, and question tracking reset for the case's suspects. A
     * malformed suspect line or a clue file with fewer than four clues throws
     * while loading; with no case at all the display throws.
     */
    method StartNewCase(caseFile: Option<seq<string>>, clueFile: Option<seq<string>>) returns (r: Outcome<Crash>)
      requires caseFile.Some? ==> |caseFile.value| >= 2
      modifies this`shipRooms, this`currentCase, this`questionedSuspects, this`currentRoom, this`askedQuestions
      ensures Valid()
      ensures caseFile.None? ==> currentCase == old(currentCase) && questionedSuspects == old(questionedSuspects)
      ensures caseFile.Some? ==> HoldsCase(caseFile.value)
      ensures var caseOk := caseFile.None? || CaseFileOk(caseFile.value);
        && (r == Fail(IndexOutOfBounds) <==> !caseOk || !ClueFileOk(clueFile))
        && (r == Fail(NullPointer) <==> caseOk && ClueFileOk(clueFile) && caseFile.None? && old(currentCase) == null)
        && (r == Fail(IndexOutOfBounds) ==> currentRoom == old(currentRoom))
      ensures r.Fail? ==> askedQuestions == old(askedQuestions)
      ensures r != Fail(IndexOutOfBounds) ==> currentRoom == Some(EngineRoom)
      ensures r == Pass ==> AskedReset()
      ensures r == Pass && clueFile.Some? ==> Dealt(NonBlankTrimmed(clueFile.value))
      ensures r == Pass && clueFile.None? ==> AllClues() == []
    {
      r := LoadResources(caseFile, clueFile);
      if r.Fail? {
        return;
      }
      r := EnterShip(caseFile, if clueFile.Some? then NonBlankTrimmed(clueFile.value) else []);
    }

    /** The discovered clues of all rooms, gathered as saveGame does. */
    method GatherDiscovered() returns (found: seq<Clue>)
      requires ShipKeys <= shipRooms.Keys
      ensures found == old(Discovered(AllClues()))
    {
      var all := AllClues();
      found := [];
      for i := 0 to |all|
        invariant found == Discovered(all[..i])
      {
        assert all[..i + 1][..i] == all[..i];
        if all[i].discovered {
          found := found + [all[i]];
        }
      }
      assert all[..|all|] == all;
    }

    /**
     * saveGame: the discovered clues of all rooms are gathered and saved for
     * Player1 with the current room, questioning and case. An SQLException is
     * caught and reported; the NullPointerException of a null questioned map is
     * not caught and leaves saveGame, after the save committed part of its rows.
     */
    method SaveGame(fault: Option<Step>) returns (r: Outcome<SaveError>, found: seq<Clue>)
      requires ShipKeys <= shipRooms.Keys
      modifies dbManager`db, dbManager`autoCommit
      ensures found == old(Discovered(AllClues()))
      ensures SaveEnded(old(dbManager.db), SaveRun(old(dbManager.db), PlayerName, currentRoom, questionedSuspects,
                                                   ClueRows(found), CaseRowOf(currentCase), fault),
                        r, dbManager.db)
    {
      found := GatherDiscovered();
      label Gathered:
      r := dbManager.SaveGameState(PlayerName, currentRoom, questionedSuspects, found, currentCase, fault);
      RowsKept@Gathered(found);
      CaseRowKept@Gathered(currentCase);
    }

    /**
     * restoreClueState: every clue of the ship whose description is among the
     * loaded clues' descriptions becomes discovered; no flag is cleared.
     */
    method RestoreClueState(discovered: seq<Clue>)
      requires Valid()
      modifies AllClues()`discovered
      ensures Valid() && AllClues() == old(AllClues())
      ensures ClueRows(AllClues()) == Reconcile(old(ClueRows(AllClues())), old(DescriptionsOf(discovered)))
    {
      var loaded := DescriptionsOf(discovered);
      var all := AllClues();
      ghost var before := ClueRows(all);
      ClueRowsIndex(all);
      for i := 0 to |all|
        invariant forall j | 0 <= j < |all| :: all[j].description == before[j].0
        invariant forall j | 0 <= j < i :: all[j].discovered == (before[j].1 || before[j].0 in loaded)
        invariant forall j | i <= j < |all| :: all[j].discovered == before[j].1
      {
        forall j | i < j < |all|
          ensures all[j] != all[i]
        {
          assert Apart(all, i, j);
        }
        if all[i].description in loaded {
          all[i].SetDiscovered(true);
        }
      }
      ClueRowsIndex(all);
      ReconcileRows(before, loaded);
    }

    /**
     * loadGame: a failed or empty load changes nothing. Otherwise room, case and
     * questioning are replaced by the saved ones, the clue flags reconciled, and
     * the suspects of the loaded case tracked; the display throws first when a
     * case was loaded and the saved room is not a room of the ship.
     */
    method LoadGame(fault: Option<Step>) returns (r: LoadResult)
      requires Valid()
      modifies this`currentRoom, this`currentCase, this`questionedSuspects, this`askedQuestions
      modifies AllClues()`discovered
      ensures Valid() && shipRooms == old(shipRooms)
      ensures var spec := LoadSpec(old(dbManager.db), PlayerName, fault);
        && (spec.Failure? ==> r == LoadFailed(spec.error))
        && (spec.Success? && spec.value.None? ==> r == NoSavedGame)
        && (spec.Success? && spec.value.Some? ==>
              var snap := spec.value.value;
              && currentRoom == Some(snap.room)
              && questionedSuspects == Some(snap.questioned)
              && CaseMatches(currentCase, snap.savedCase)
              && (currentCase != null ==> fresh(currentCase))
              && ClueRows(AllClues()) == Reconcile(old(ClueRows(AllClues())), snap.discovered)
              && (r == LoadCrashed <==> currentCase != null && snap.room !in ShipKeys)
              && (r != LoadCrashed ==> r == Loaded))
      ensures r.LoadFailed? || r.NoSavedGame? ==>
        && currentRoom == old(currentRoom)
        && currentCase == old(currentCase)
        && questionedSuspects == old(questionedSuspects)
        && ClueRows(AllClues()) == old(ClueRows(AllClues()))
      ensures r != Loaded ==> askedQuestions == old(askedQuestions)
      ensures r == Loaded ==>
        && askedQuestions.Keys == old(askedQuestions).Keys + SuspectNames(SuspectsOf(currentCase))
        && forall n | n in askedQuestions ::
             askedQuestions[n] == if n in old(askedQuestions) then old(askedQuestions)[n] else {}
    {
      label Entry:
      var loaded := dbManager.LoadGameState(PlayerName, fault);
      ShipKept@Entry();
      RowsKept@Entry(AllClues());
      if loaded.Failure? {
        return LoadFailed(loaded.error);
      }
      if loaded.value.None? {
        return NoSavedGame;
      }
      ghost var snap := LoadSpec(dbManager.db, PlayerName, fault).value.value;
      r := Resume(loaded.value.value, snap);
    }

    /**
     * loadGame once a snapshot was read: the snapshot applied and, when the
     * display succeeded, a question set opened for each suspect without one.
     */
    method Resume(state: GameState, ghost snap: Snapshot) returns (r: LoadResult)
      requires Valid()
      requires state.currentRoom == snap.room && state.questionedSuspects == snap.questioned
      requires CaseMatches(state.currentCase, snap.savedCase)
      requires DescriptionsOf(state.discoveredClues) == snap.discovered
      modifies this`currentRoom, this`currentCase, this`questionedSuspects, this`askedQuestions
      modifies AllClues()`discovered
      ensures Valid() && shipRooms == old(shipRooms)
      ensures currentRoom == Some(snap.room) && questionedSuspects == Some(snap.questioned)
      ensures currentCase == state.currentCase && CaseMatches(currentCase, snap.savedCase)
      ensures ClueRows(AllClues()) == Reconcile(old(ClueRows(AllClues())), snap.discovered)
      ensures r == LoadCrashed <==> currentCase != null && snap.room !in ShipKeys
      ensures r != LoadCrashed ==> r == Loaded
      ensures r != Loaded ==> askedQuestions == old(askedQuestions)
      ensures r == Loaded ==>
        && askedQuestions.Keys == old(askedQuestions).Keys + SuspectNames(SuspectsOf(currentCase))
        && forall n | n in askedQuestions ::
             askedQuestions[n] == if n in old(askedQuestions) then old(askedQuestions)[n] else {}
    {
      label Entry:
      r := ApplySnapshot(state, snap);
      label Shown:
      var asked := askedQuestions;
      if r == Loaded {
        asked := Tracked(asked, SuspectsOf(currentCase));
      }
      askedQuestions := asked;
      ShipKept@Shown();
      RowsKept@Shown(AllClues());
      RecordsKept@Entry(SuspectsOf(currentCase));
    }

    /**
     * The part of loadGame after a snapshot was read: room, case and
     * questioning replaced, clue flags reconciled, then the display, which
     * throws for a case in a room the ship does not have.
     */
    method ApplySnapshot(state: GameState, ghost snap: Snapshot) returns (r: LoadResult)
      requires Valid()
      requires state.currentRoom == snap.room && state.questionedSuspects == snap.questioned
      requires DescriptionsOf(state.discoveredClues) == snap.discovered
      modifies this`currentRoom, this`currentCase, this`questionedSuspects
      modifies AllClues()`discovered
      ensures Valid() && shipRooms == old(shipRooms)
      ensures currentRoom == Some(snap.room) && questionedSuspects == Some(snap.questioned)
      ensures currentCase == state.currentCase
      ensures ClueRows(AllClues()) == Reconcile(old(ClueRows(AllClues())), snap.discovered)
      ensures r == LoadCrashed <==> currentCase != null && snap.room !in ShipKeys
      ensures r != LoadCrashed ==> r == Loaded
    {
      label Entry:
      Adopt(state);
      ShipKept@Entry();
      RowsKept@Entry(AllClues());
      RestoreClueState(state.discoveredClues);
      r := if currentCase != null && state.currentRoom !in shipRooms then LoadCrashed else Loaded;
    }

    /** Room, case and questioning taken over from a loaded state. */
    method Adopt(state: GameState)
      modifies this`currentRoom, this`currentCase, this`questionedSuspects
      ensures currentRoom == Some(state.currentRoom) && currentCase == state.currentCase
      ensures questionedSuspects == Some(state.questionedSuspects)
    {
      currentRoom := Some(state.currentRoom);
      currentCase := state.currentCase;
      questionedSuspects := Some(state.questionedSuspects);
    }

    /** The current room is a room of the ship; shipRooms.get gives null for any other name. */
    predicate OnShip()
      reads this`currentRoom, this`shipRooms
    {
      currentRoom.Some? && currentRoom.value in shipRooms
    }

    /** The clues of the current room, none when it is not a room of the ship. */
    function CurrentClues(): (r: seq<Clue>)
      reads this`currentRoom, this`shipRooms, shipRooms.Values`clues
      ensures OnShip() ==> r == shipRooms[currentRoom.value].clues
      ensures !OnShip() ==> r == []
    {
      if OnShip() then shipRooms[currentRoom.value].clues else []
    }

    /**
     * searchRoom: every undiscovered clue of the current room, in order, is
     * flagged and appended to the case's clue list. Without a case the first
     * such clue is flagged and the append throws. A current room that is not a
     * room of the ship throws before anything changes.
     */
    method SearchRoom() returns (r: Outcome<Crash>)
      requires Valid()
      modifies CurrentClues()`discovered, Cases(currentCase)`clues
      ensures Valid()
      ensures !OnShip() ==> r == Fail(NullPointer) && unchanged(Cases(currentCase))
      ensures OnShip() ==> var room := shipRooms[currentRoom.value];
        var found := Unflagged(room.clues, old(ClueRows(room.clues)));
        && (forall j | 0 <= j < |room.clues| :: room.clues[j].description == old(room.clues[j].description))
        && (r.Fail? <==> currentCase == null && found != [])
        && (r.Fail? ==> r == Fail(NullPointer))
        && (r == Pass ==> forall c | c in room.clues :: c.discovered)
        && (r == Pass && currentCase != null ==> currentCase.clues == old(currentCase.clues) + found)
        && (r.Fail? ==> found[0].discovered)
        && (r.Fail? ==> forall j | 0 <= j < |room.clues| && room.clues[j] != found[0] ::
                           room.clues[j].discovered == old(room.clues[j].discovered))
    {
      if !OnShip() {
        return Fail(NullPointer);
      }
      RoomCluesDistinct(currentRoom.value);
      var clues := shipRooms[currentRoom.value].clues;
      if currentCase == null {
        r := FlagFirst(clues);
      } else {
        Collect(clues, currentCase);
        r := Pass;
      }
    }

    /**
     * The loop of searchRoom when there is a case: each undiscovered clue, in
     * order, is flagged and appended to the case's clue list.
     */
    static method Collect(clues: seq<Clue>, c: Case)
      requires Distinct(clues)
      modifies clues`discovered, c`clues
      ensures forall x | x in clues :: x.discovered
      ensures c.clues == old(c.clues) + Unflagged(clues, old(ClueRows(clues)))
    {
      ghost var rows := ClueRows(clues);
      ClueRowsIndex(clues);
      for i := 0 to |clues|
        invariant forall j | 0 <= j < i :: clues[j].discovered
        invariant forall j | i <= j < |clues| :: clues[j].discovered == rows[j].1
        invariant c.clues == old(c.clues) + Unflagged(clues[..i], rows[..i])
      {
        assert clues[..i + 1][..i] == clues[..i];
        assert rows[..i + 1][..i] == rows[..i];
        forall j | i < j < |clues|
          ensures clues[j] != clues[i]
        {
          assert Apart(clues, i, j);
        }
        if !clues[i].discovered {
          clues[i].SetDiscovered(true);
          c.clues := c.clues + [clues[i]];
        }
      }
      assert clues[..|clues|] == clues;
      assert rows[..|rows|] == rows;
    }

    /**
     * The loop of searchRoom without a case: the first undiscovered clue is
     * flagged, and appending it to the missing case throws.
     */
    static method FlagFirst(clues: seq<Clue>) returns (r: Outcome<Crash>)
      requires Distinct(clues)
      modifies clues`discovered
      ensures var found := Unflagged(clues, old(ClueRows(clues)));
        && (r.Fail? <==> found != [])
        && (r.Fail? ==> r == Fail(NullPointer) && found[0].discovered)
        && (r == Pass ==> forall x | x in clues :: x.discovered)
        && (forall j | 0 <= j < |clues| && (r == Pass || clues[j] != found[0]) ::
              clues[j].discovered == old(clues[j].discovered))
    {
      ghost var rows := ClueRows(clues);
      ClueRowsIndex(clues);
      for i := 0 to |clues|
        invariant forall j | 0 <= j < i :: rows[j].1
        invariant forall j | 0 <= j < |clues| :: clues[j].discovered == rows[j].1
      {
        if !clues[i].discovered {
          forall j | i < j < |clues|
            ensures clues[j] != clues[i]
          {
            assert Apart(clues, i, j);
          }
          clues[i].SetDiscovered(true);
          UnflaggedFirst(clues, rows, i);
          return Fail(NullPointer);
        }
      }
      UnflaggedNone(clues, rows);
      r := Pass;
    }

    /**
     * moveToRoom: the move happens exactly when the current room declares a
     * connection to the target; a current room that is not a room of the ship
     * throws.
     */
    method MoveToRoom(roomName: string) returns (r: Outcome<Crash>)
      requires Valid()
      modifies this`currentRoom
      ensures !old(OnShip()) ==> r == Fail(NullPointer) && currentRoom == old(currentRoom)
      ensures old(OnShip()) ==> r == Pass && OnShip()
      ensures old(OnShip()) && roomName in Layout(old(currentRoom).value) ==> currentRoom == Some(roomName)
      ensures old(OnShip()) && roomName !in Layout(old(currentRoom).value) ==> currentRoom == old(currentRoom)
    {
      if !OnShip() {
        return Fail(NullPointer);
      }
      if roomName in shipRooms[currentRoom.value].connectedRooms {
        LayoutClosed(currentRoom.value, roomName);
        currentRoom := Some(roomName);
      }
      r := Pass;
    }

    /**
     * The north button: a move to getNorthRoomName, which always succeeds or
     * stays on the Bridge. Switching on a null room throws, and any other room
     * off the ship is its own northern neighbour, on which moveToRoom throws.
     */
    method MoveNorth() returns (r: Outcome<Crash>)
      requires Valid()
      modifies this`currentRoom
      ensures !old(OnShip()) ==> r == Fail(NullPointer) && currentRoom == old(currentRoom)
      ensures old(OnShip()) ==> r == Pass && currentRoom == Some(NorthOf(old(currentRoom).value)) && OnShip()
    {
      if currentRoom.None? {
        return Fail(NullPointer);
      }
      if OnShip() {
        NavigationFollowsLayout(currentRoom.value);
      }
      r := MoveToRoom(NorthOf(currentRoom.value));
    }

    /** The south button: the mirror image of MoveNorth, staying put in the Engine Room. */
    method MoveSouth() returns (r: Outcome<Crash>)
      requires Valid()
      modifies this`currentRoom
      ensures !old(OnShip()) ==> r == Fail(NullPointer) && currentRoom == old(currentRoom)
      ensures old(OnShip()) ==> r == Pass && currentRoom == Some(SouthOf(old(currentRoom).value)) && OnShip()
    {
      if currentRoom.None? {
        return Fail(NullPointer);
      }
      if OnShip() {
        NavigationFollowsLayout(currentRoom.value);
      }
      r := MoveToRoom(SouthOf(currentRoom.value));
    }

    /** returnToEngineRoom: back to the Engine Room from anywhere. */
    method ReturnToEngineRoom()
      requires Valid()
      modifies this`currentRoom
      ensures currentRoom == Some(EngineRoom) && currentRoom.value in shipRooms
    {
      currentRoom := Some(EngineRoom);
    }

    /**
     * questionSuspects, with the question file's lines, the suspect picked (None
     * when the dialog is cancelled), the shuffled list of available questions
     * and the question picked (None when cancelled). The outcome is Questioned's;
     * only a question actually asked changes anything: it is recorded for the
     * suspect, who is marked questioned. Marking throws when there is no
     * questioned map, after the question was recorded.
     */
    method QuestionSuspect(questionFile: Option<seq<string>>, suspectName: Option<string>,
                           shuffled: seq<string>, question: Option<string>) returns (r: Questioning, marked: Outcome<Crash>)
      modifies this`askedQuestions, this`questionedSuspects
      ensures r == Questioned(currentCase, LoadQuestions(questionFile), old(askedQuestions), suspectName, shuffled, question)
      ensures marked.Fail? <==> r.Asked? && old(questionedSuspects).None?
      ensures marked.Fail? ==> marked == Fail(NullPointer)
      ensures r.Asked? ==>
                askedQuestions == old(askedQuestions)[suspectName.value := old(askedQuestions)[suspectName.value] + {r.question}]
      ensures r.Asked? && marked == Pass ==>
                questionedSuspects == Some(old(questionedSuspects).value[suspectName.value := true])
      ensures !r.Asked? ==> askedQuestions == old(askedQuestions)
      ensures !r.Asked? || marked.Fail? ==> questionedSuspects == old(questionedSuspects)
    {
      r := Questioned(currentCase, LoadQuestions(questionFile), askedQuestions, suspectName, shuffled, question);
      marked := Pass;
      if r.Asked? {
        var name := suspectName.value;
        askedQuestions := askedQuestions[name := askedQuestions[name] + {r.question}];
        if questionedSuspects.None? {
          return r, Fail(NullPointer);
        }
        questionedSuspects := Some(questionedSuspects.value[name := true]);
      }
    }
  }
}
