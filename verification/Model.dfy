/**
 * The game's entities: a case's difficulty, clues that can be discovered,
 * suspects, the ship's rooms, the case itself and the snapshot a load returns.
 * Clues, suspects, rooms and cases are objects because the game changes them in
 * place and shares them: a clue found in a room is the same object that is then
 * appended to the case's clue list.
 */
module Model {

  /** The three difficulty levels; each has a display name that is also its text form. */
  datatype Difficulty = Easy | Medium | Hard
  {
    function DisplayName(): (r: string)
      ensures |r| >= 4
      ensures r[0] == (if this == Easy then 'E' else if this == Medium then 'M' else 'H')
    {
      match this
      case Easy => "Easy"
      case Medium => "Medium"
      case Hard => "Hard"
    }

    /** `toString` returns the display name. */
    function ToString(): string
    {
      DisplayName()
    }
  }

  /** The display names are pairwise distinct, so a display name determines its level. */
  lemma DisplayNameDetermines(a: Difficulty, b: Difficulty)
    ensures a.DisplayName() == b.DisplayName() <==> a == b
    ensures a.ToString() == a.DisplayName()
  {
    if a.DisplayName() == b.DisplayName() {
      assert a.DisplayName()[0] == b.DisplayName()[0];
    }
  }

  /** A clue: its text and whether the player has found it. Both can be changed. */
  class Clue {
    var description: string
    var discovered: bool

    constructor(description: string, discovered: bool)
      ensures this.description == description && this.discovered == discovered
    {
      this.description := description;
      this.discovered := discovered;
    }

    method SetDescription(description: string)
      modifies this`description
      ensures this.description == description
      ensures discovered == old(discovered)
    {
      this.description := description;
    }

    method SetDiscovered(discovered: bool)
      modifies this`discovered
      ensures this.discovered == discovered
      ensures description == old(description)
    {
      this.discovered := discovered;
    }
  }

  /** A suspect: name and description are fixed once built; the guilt flag can be set. */
  class Suspect {
    const name: string
    const description: string
    var guilty: bool

    constructor(name: string, description: string, guilty: bool)
      ensures this.name == name && this.description == description && this.guilty == guilty
    {
      this.name := name;
      this.description := description;
      this.guilty := guilty;
    }

    method SetGuilty(guilty: bool)
      modifies this`guilty
      ensures this.guilty == guilty
    {
      this.guilty := guilty;
    }
  }

  /**
   * A room of the ship. Name and description are fixed; the clue list and the
   * list of names of rooms reachable from here only grow, by appending.
   */
  class Room {
    const name: string
    const description: string
    var clues: seq<Clue>
    var connectedRooms: seq<string>

    constructor(name: string, description: string)
      ensures this.name == name && this.description == description
      ensures clues == [] && connectedRooms == []
    {
      this.name := name;
      this.description := description;
      clues := [];
      connectedRooms := [];
    }

    /** Appends a clue; earlier clues keep their places. */
    method AddClue(clue: Clue)
      modifies this`clues
      ensures clues == old(clues) + [clue]
    {
      clues := clues + [clue];
    }

    /** Appends a one-way connection, duplicates allowed; no reverse edge is added. */
    method ConnectRoom(roomName: string)
      modifies this`connectedRooms
      ensures connectedRooms == old(connectedRooms) + [roomName]
    {
      connectedRooms := connectedRooms + [roomName];
    }
  }

  /** A case: title, crime scene, suspects, the clues found so far and a fixed difficulty. */
  class Case {
    var title: string
    var crimeScene: string
    var suspects: seq<Suspect>
    var clues: seq<Clue>
    const difficulty: Difficulty

    constructor(title: string, crimeScene: string, suspects: seq<Suspect>, clues: seq<Clue>,
                difficulty: Difficulty)
      ensures this.title == title && this.crimeScene == crimeScene
      ensures this.suspects == suspects && this.clues == clues
      ensures this.difficulty == difficulty
    {
      this.title := title;
      this.crimeScene := crimeScene;
      this.suspects := suspects;
      this.clues := clues;
      this.difficulty := difficulty;
    }

    /** The empty case of medium difficulty. */
    constructor Default()
      ensures title == "" && crimeScene == ""
      ensures suspects == [] && clues == []
      ensures difficulty == Medium
    {
      title := "";
      crimeScene := "";
      suspects := [];
      clues := [];
      difficulty := Medium;
    }

    method SetTitle(title: string)
      modifies this`title
      ensures this.title == title
    {
      this.title := title;
    }

    method SetCrimeScene(crimeScene: string)
      modifies this`crimeScene
      ensures this.crimeScene == crimeScene
    {
      this.crimeScene := crimeScene;
    }

    /** Replaces the suspect list; the clue list is not touched. */
    method SetSuspects(suspects: seq<Suspect>)
      modifies this`suspects
      ensures this.suspects == suspects
    {
      this.suspects := suspects;
    }
  }

  /**
   * What a load hands back to the game: who, where, which case (absent when no
   * case was saved), who has been questioned and which clues were discovered.
   * A value: it has no setters.
   */
  datatype GameState = GameState(
    playerName: string,
    currentRoom: string,
    currentCase: Case?,
    questionedSuspects: map<string, bool>,
    discoveredClues: seq<Clue>)
}
