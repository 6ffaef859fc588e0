/**
 * The game controller's pure rules: the ship's room names and declared
 * connections, the north/south tables, the parsing of the case, clue and
 * question files (given as their lines), the filter behind questioning, and
 * the rule by which a loaded game marks room clues as discovered.
 */
module GameRules {
  import opened Wrappers
  import opened JavaStrings
  import opened SuspectCodec

  // ---------------------------------------------------------------------------
  // The ship

  /** The keys of the ship's room map. */
  const EngineRoom: string := "Engine Room"
  const CrewQuarters: string := "Crew Quarters"
  const Bridge: string := "Bridge"

  /** The name stored inside the Crew Quarters room object, which differs from its key. */
  const CrewQuartersName: string := "Crews Quarters"

  const ShipKeys: set<string> := {EngineRoom, CrewQuarters, Bridge}

  /** The connection lists initializeShip declares, room by room, in declaration order. */
  function Layout(room: string): seq<string>
  {
    if room == EngineRoom then [CrewQuarters]
    else if room == CrewQuarters then [EngineRoom, Bridge]
    else if room == Bridge then [CrewQuarters]
    else []
  }

  /** getNorthRoomName: Engine Room to Crew Quarters to Bridge; anything else stays put. */
  function NorthOf(room: string): string
  {
    if room == EngineRoom then CrewQuarters
    else if room == CrewQuarters then Bridge
    else room
  }

  /** getSouthRoomName: Bridge to Crew Quarters to Engine Room; anything else stays put. */
  function SouthOf(room: string): string
  {
    if room == Bridge then CrewQuarters
    else if room == CrewQuarters then EngineRoom
    else room
  }

  /**
   * On the ship, the north target is a declared connection except from the
   * Bridge, where it is the Bridge itself; the south target likewise except from
   * the Engine Room. So the north button leaves a player on the Bridge in place
   * and the south button one in the Engine Room.
   */
  lemma NavigationFollowsLayout(room: string)
    requires room in ShipKeys
    ensures NorthOf(room) in Layout(room) <==> room != Bridge
    ensures SouthOf(room) in Layout(room) <==> room != EngineRoom
    ensures NorthOf(room) !in Layout(room) ==> NorthOf(room) == room
    ensures SouthOf(room) !in Layout(room) ==> SouthOf(room) == room
  {
    if room == Bridge {
      assert Layout(room) == [CrewQuarters];
      assert Bridge != CrewQuarters;
    } else if room == EngineRoom {
      assert Layout(room) == [CrewQuarters];
      assert EngineRoom != CrewQuarters;
    }
  }

  /** Away from the ends of the ship, south undoes north and north undoes south. */
  lemma NorthSouthInverse(room: string)
    ensures room == EngineRoom || room == CrewQuarters ==> SouthOf(NorthOf(room)) == room
    ensures room == CrewQuarters || room == Bridge ==> NorthOf(SouthOf(room)) == room
    ensures room !in ShipKeys ==> NorthOf(room) == room && SouthOf(room) == room
  {
  }

  /**
   * Every declared connection leads to a room of the ship, and as declared the
   * connections happen to be symmetric, although nothing in the code checks it.
   */
  lemma LayoutClosed(room: string, next: string)
    requires room in ShipKeys && next in Layout(room)
    ensures next in ShipKeys
    ensures room in Layout(next)
  {
  }

  // ---------------------------------------------------------------------------
  // The case file

  /** The suspect that loadCase marks guilty, by name. */
  const GuiltySuspect: string := "Samantha"

  /**
   * One suspect line: `split(":")`, then the first two parts. A line that
   * splits into fewer than two parts makes the code index past the array: None.
   */
  function ParseSuspectLine(line: string): (r: Option<SuspectRecord>)
    ensures r.Some? ==> (r.value.guilty <==> r.value.name == GuiltySuspect)
    ensures ':' !in line ==> r.None?
  {
    var parts := Split(line, ':');
    if |parts| < 2 then None
    else Some(SuspectRecord(parts[0], parts[1], parts[0] == GuiltySuspect))
  }

  /** A line with a separator-free name and a non-empty, separator-free description parses back. */
  lemma SuspectLineRoundTrip(name: string, description: string)
    requires ':' !in name && ':' !in description && description != ""
    ensures ParseSuspectLine(name + [':'] + description)
            == Some(SuspectRecord(name, description, name == GuiltySuspect))
  {
    PiecesAfterPrefix(name, ':', description);
    assert Pieces(description, ':') == [description];
  }

  /** Removing trailing empty pieces keeps every piece up to a non-empty one. */
  lemma DropKeepsNonEmpty(ps: seq<string>, k: nat)
    requires k < |ps| && ps[k] != ""
    ensures k < |DropTrailingEmpty(ps)|
    ensures forall i | 0 <= i <= k :: DropTrailingEmpty(ps)[i] == ps[i]
  {
  }

  /** Text after a second separator is ignored. */
  lemma ExtraFieldsIgnored(name: string, description: string, rest: string)
    requires ':' !in name && ':' !in description && description != ""
    ensures ParseSuspectLine(name + [':'] + description + [':'] + rest)
            == Some(SuspectRecord(name, description, name == GuiltySuspect))
  {
    var tail := description + [':'] + rest;
    var line := name + [':'] + description + [':'] + rest;
    var ps := Pieces(line, ':');
    assert ps == [name] + ([description] + Pieces(rest, ':')) by {
      assert line == name + [':'] + tail;
      PiecesAfterPrefix(name, ':', tail);
      PiecesAfterPrefix(description, ':', rest);
    }
    assert ps[0] == name && ps[1] == description;
    assert Split(line, ':') == DropTrailingEmpty(ps) by {
      assert |line| > 0;
    }
    DropKeepsNonEmpty(ps, 1);
  }

  /** A line whose description is empty has only one part after split: the load fails there. */
  lemma EmptyDescriptionRejected(name: string)
    requires ':' !in name
    ensures ParseSuspectLine(name + [':']).None?
  {
    assert name + [':'] == name + [':'] + "";
    PiecesAfterPrefix(name, ':', "");
    assert Pieces("", ':') == [""];
    assert Pieces(name + [':'], ':') == [name, ""];
  }

  /** The lines loadCase reads suspects from: the third to fifth line, those that exist. */
  function SuspectLines(file: seq<string>): (r: seq<string>)
    requires |file| >= 2
    ensures |r| <= 3
    ensures forall i | 0 <= i < |r| :: i + 2 < |file| && r[i] == file[i + 2]
  {
    file[2..Min(5, |file|)]
  }

  /** All suspect lines parsed, or None when one of them fails. */
  function ParseSuspects(lines: seq<string>): (r: Option<seq<SuspectRecord>>)
    ensures r.Some? ==> |r.value| == |lines|
  {
    if lines == [] then Some([])
    else
      var head := ParseSuspectLine(lines[0]);
      var rest := ParseSuspects(lines[1..]);
      if head.None? || rest.None? then None
      else Some([head.value] + rest.value)
  }

  /** ParseSuspects succeeds exactly when every line parses, and then yields each line's record. */
  lemma {:induction false} ParseSuspectsLines(lines: seq<string>)
    ensures ParseSuspects(lines).Some? <==> forall i | 0 <= i < |lines| :: ParseSuspectLine(lines[i]).Some?
    ensures ParseSuspects(lines).Some? ==>
      forall i | 0 <= i < |lines| :: ParseSuspectLine(lines[i]) == Some(ParseSuspects(lines).value[i])
  {
    if lines != [] {
      var tail := lines[1..];
      ParseSuspectsLines(tail);
      if ParseSuspects(lines).Some? {
        var v := ParseSuspects(lines).value;
        forall i | 0 <= i < |lines| ensures ParseSuspectLine(lines[i]) == Some(v[i]) {
          if i > 0 {
            assert lines[i] == tail[i - 1];
            assert v[i] == ParseSuspects(tail).value[i - 1];
          }
        }
      } else if ParseSuspectLine(lines[0]).Some? {
        var k :| 0 <= k < |tail| && ParseSuspectLine(tail[k]).None?;
        assert lines[k + 1] == tail[k];
      }
    }
  }

  /** A parsed suspect is guilty exactly when it is Samantha. */
  lemma {:induction false} ParsedGuilt(lines: seq<string>)
    ensures ParseSuspects(lines).Some? ==>
      forall i | 0 <= i < |lines| :: ParseSuspects(lines).value[i].guilty <==> ParseSuspects(lines).value[i].name == GuiltySuspect
  {
    if lines != [] {
      ParsedGuilt(lines[1..]);
    }
  }

  /** A case file the game can load: a title, a crime scene and well-formed suspect lines. */
  predicate CaseFileOk(file: seq<string>)
  {
    |file| >= 2 && ParseSuspects(SuspectLines(file)).Some?
  }

  // ---------------------------------------------------------------------------
  // The clue and question files

  /** Every line trimmed, blank lines dropped, order kept. */
  function NonBlankTrimmed(lines: seq<string>): (r: seq<string>)
    ensures |r| <= |lines|
    ensures forall x | x in r :: x != ""
  {
    if lines == [] then []
    else
      var t := Trim(lines[0]);
      if t == "" then NonBlankTrimmed(lines[1..]) else [t] + NonBlankTrimmed(lines[1..])
  }

  /** Everything kept is the trimmed text of some line: the index of one such line. */
  lemma {:induction false} NonBlankTrimmedFrom(lines: seq<string>, x: string) returns (i: nat)
    requires x in NonBlankTrimmed(lines)
    ensures i < |lines| && Trim(lines[i]) == x
  {
    if x == Trim(lines[0]) {
      i := 0;
    } else {
      var j := NonBlankTrimmedFrom(lines[1..], x);
      assert lines[1..][j] == lines[j + 1];
      i := j + 1;
    }
  }

  /** The trimmed text of every non-blank line is kept. */
  lemma {:induction false} NonBlankTrimmedKeeps(lines: seq<string>, i: nat)
    requires i < |lines| && Trim(lines[i]) != ""
    ensures Trim(lines[i]) in NonBlankTrimmed(lines)
  {
    var x := Trim(lines[i]);
    var rest := NonBlankTrimmed(lines[1..]);
    var t := Trim(lines[0]);
    assert NonBlankTrimmed(lines) == if t == "" then rest else [t] + rest;
    if i > 0 {
      assert x in rest by {
        assert lines[1..][i - 1] == lines[i];
        NonBlankTrimmedKeeps(lines[1..], i - 1);
      }
    }
  }

  /** A clue file the game can load: at least the four clues it hands out. */
  predicate ClueFileOk(file: Option<seq<string>>)
  {
    file.None? || |NonBlankTrimmed(file.value)| >= 4
  }

  /** The questions used when the question file cannot be read. */
  const DefaultQuestions: seq<string> := [
    "What were you doing at the time of the incident?",
    "Do you have an alibi?",
    "Did you know the victim well?"]

  /** loadQuestions: the file's non-blank trimmed lines, or the three defaults when it cannot be read. */
  function LoadQuestions(file: Option<seq<string>>): (r: seq<string>)
    ensures file.None? ==> |r| == 3
    ensures file.Some? ==> |r| <= |file.value|
  {
    if file.None? then DefaultQuestions else NonBlankTrimmed(file.value)
  }

  /**
   * A readable question file yields exactly the trimmed text of its non-blank
   * lines: every question comes from a line, and every non-blank line gives one.
   */
  lemma LoadQuestionsFromFile(lines: seq<string>)
    ensures forall q | q in LoadQuestions(Some(lines)) :: q != "" && exists i | 0 <= i < |lines| :: Trim(lines[i]) == q
    ensures forall i | 0 <= i < |lines| && Trim(lines[i]) != "" :: Trim(lines[i]) in LoadQuestions(Some(lines))
  {
    var r := LoadQuestions(Some(lines));
    forall q | q in r
      ensures exists i | 0 <= i < |lines| :: Trim(lines[i]) == q
    {
      var i := NonBlankTrimmedFrom(lines, q);
    }
    forall i | 0 <= i < |lines| && Trim(lines[i]) != ""
      ensures Trim(lines[i]) in r
    {
      NonBlankTrimmedKeeps(lines, i);
    }
  }

  // ---------------------------------------------------------------------------
  // Questioning

  /** The questions not yet asked, in file order, repeats kept. */
  function Available(all: seq<string>, asked: set<string>): (r: seq<string>)
    ensures |r| <= |all|
    ensures forall q :: q in r <==> q in all && q !in asked
    ensures forall q | q !in asked :: multiset(r)[q] == multiset(all)[q]
  {
    if all == [] then []
    else
      assert all == [all[0]] + all[1..];
      var rest := Available(all[1..], asked);
      if all[0] in asked then rest else [all[0]] + rest
  }

  /** The questions the dialog offers: the first three of the shuffled available list. */
  function Offered(shuffled: seq<string>): (r: seq<string>)
    ensures |r| == Min(3, |shuffled|)
    ensures r <= shuffled
  {
    shuffled[..Min(3, |shuffled|)]
  }

  /**
   * Whatever order the shuffle produces, the offered questions are between one
   * and three questions of the file that the suspect has not been asked yet.
   */
  lemma OfferedAreNew(all: seq<string>, asked: set<string>, shuffled: seq<string>)
    requires multiset(shuffled) == multiset(Available(all, asked))
    requires Available(all, asked) != []
    ensures 1 <= |Offered(shuffled)| <= 3
    ensures forall q | q in Offered(shuffled) :: q in all && q !in asked
  {
    assert |shuffled| == |multiset(shuffled)| == |multiset(Available(all, asked))| == |Available(all, asked)|;
    forall q | q in Offered(shuffled)
      ensures q in all && q !in asked
    {
      assert q in multiset(shuffled);
      assert q in Available(all, asked);
    }
  }

  // ---------------------------------------------------------------------------
  // Restoring clue flags on load

  /**
   * restoreClueState on the (description, discovered) rows of the room clues:
   * a row whose description is among the loaded ones becomes discovered; every
   * other row keeps its flag.
   */
  function Reconcile(rows: seq<(string, bool)>, loaded: set<string>): (r: seq<(string, bool)>)
    ensures |r| == |rows|
  {
    if rows == [] then []
    else [(rows[0].0, rows[0].1 || rows[0].0 in loaded)] + Reconcile(rows[1..], loaded)
  }

  /** Row by row: descriptions kept, a loaded description sets the flag, others keep theirs. */
  lemma {:induction false} ReconcileRows(rows: seq<(string, bool)>, loaded: set<string>)
    ensures forall i | 0 <= i < |rows| :: Reconcile(rows, loaded)[i].0 == rows[i].0
    ensures forall i | 0 <= i < |rows| :: rows[i].0 in loaded ==> Reconcile(rows, loaded)[i].1
    ensures forall i | 0 <= i < |rows| :: rows[i].0 !in loaded ==> Reconcile(rows, loaded)[i].1 == rows[i].1
  {
    if rows != [] {
      ReconcileRows(rows[1..], loaded);
    }
  }

  /** Reconciling never clears a flag. */
  lemma ReconcileNeverClears(rows: seq<(string, bool)>, loaded: set<string>)
    ensures forall i | 0 <= i < |rows| && rows[i].1 :: Reconcile(rows, loaded)[i].1
  {
    ReconcileRows(rows, loaded);
  }

  /** Reconciling twice with the same descriptions gives what reconciling once gives. */
  lemma {:induction false} ReconcileIdempotent(rows: seq<(string, bool)>, loaded: set<string>)
    ensures Reconcile(Reconcile(rows, loaded), loaded) == Reconcile(rows, loaded)
  {
    if rows != [] {
      ReconcileIdempotent(rows[1..], loaded);
    }
  }

  /** Reconciling with one set of descriptions and then another is reconciling with both. */
  lemma {:induction false} ReconcileUnion(rows: seq<(string, bool)>, a: set<string>, b: set<string>)
    ensures Reconcile(Reconcile(rows, a), b) == Reconcile(rows, a + b)
  {
    if rows != [] {
      ReconcileUnion(rows[1..], a, b);
    }
  }
}
