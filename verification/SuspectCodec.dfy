/**
 * The text codec that stores a case's suspect list in the single
 * `saved_cases.suspects_data` column: each suspect becomes
 * `name;description;guilty|`, and decoding splits the text back, skipping
 * empty segments and silently dropping segments with fewer than three fields.
 */
module SuspectCodec {
  import opened Wrappers
  import opened JavaStrings

  /** The three persisted fields of one suspect. */
  datatype SuspectRecord = SuspectRecord(name: string, description: string, guilty: bool)

  const FieldSeparator: char := ';'
  const RecordSeparator: char := '|'

  /** One suspect as `name;description;guilty`, without the record separator. */
  function Fields(s: SuspectRecord): string
  {
    s.name + [FieldSeparator] + s.description + [FieldSeparator] + BooleanText(s.guilty)
  }

  /** serializeSuspects: `name;description;guilty|` for each suspect, in list order. */
  function Serialize(suspects: seq<SuspectRecord>): (data: string)
    ensures data == "" <==> suspects == []
  {
    if suspects == [] then ""
    else Fields(suspects[0]) + [RecordSeparator] + Serialize(suspects[1..])
  }

  /** One `|`-segment: three or more `;`-fields make a suspect, fewer make nothing. */
  function ParseEntry(entry: string): Option<SuspectRecord>
  {
    var parts := Split(entry, FieldSeparator);
    if |parts| >= 3 then Some(SuspectRecord(parts[0], parts[1], ParseBoolean(parts[2])))
    else None
  }

  /** What one `|`-segment adds to the result: nothing when it is empty or malformed. */
  function ParseSegment(entry: string): (r: seq<SuspectRecord>)
    ensures |r| <= 1
  {
    if entry == "" then []
    else match ParseEntry(entry)
      case Some(s) => [s]
      case None => []
  }

  /** The loop of deserializeSuspects: each segment in order, through ParseSegment. */
  function ParseEntries(entries: seq<string>): seq<SuspectRecord>
  {
    if entries == [] then [] else ParseSegment(entries[0]) + ParseEntries(entries[1..])
  }

  /** deserializeSuspects: the empty text is the empty list. */
  function Deserialize(data: string): seq<SuspectRecord>
  {
    if data == "" then [] else ParseEntries(Split(data, RecordSeparator))
  }

  /** A suspect whose name and description contain neither separator. */
  predicate Storable(s: SuspectRecord)
  {
    FieldSeparator !in s.name && RecordSeparator !in s.name
    && FieldSeparator !in s.description && RecordSeparator !in s.description
  }

  predicate AllStorable(suspects: seq<SuspectRecord>)
  {
    forall i | 0 <= i < |suspects| :: Storable(suspects[i])
  }

  /** The segments Serialize writes, one per suspect. */
  function Entries(suspects: seq<SuspectRecord>): (r: seq<string>)
    ensures |r| == |suspects|
  {
    if suspects == [] then [] else [Fields(suspects[0])] + Entries(suspects[1..])
  }

  /** Serializing a concatenation concatenates the serializations. */
  lemma {:induction false} SerializeAppend(a: seq<SuspectRecord>, b: seq<SuspectRecord>)
    ensures Serialize(a + b) == Serialize(a) + Serialize(b)
  {
    if a == [] {
      assert a + b == b;
    } else {
      var f := Fields(a[0]) + [RecordSeparator];
      assert Serialize(a + b) == f + Serialize(a[1..] + b) by {
        assert (a + b)[0] == a[0];
        assert (a + b)[1..] == a[1..] + b;
      }
      SerializeAppend(a[1..], b);
      AppendAssociative(f, Serialize(a[1..]), Serialize(b));
    }
  }

  lemma NoRecordSeparatorInFields(s: SuspectRecord)
    requires Storable(s)
    ensures RecordSeparator !in Fields(s)
  {
    var bt := BooleanText(s.guilty);
    assert RecordSeparator !in bt;
    assert Fields(s) == s.name + ([FieldSeparator] + s.description) + ([FieldSeparator] + bt);
  }

  /** Serialized text followed by more text, split after its first record. */
  lemma SerializeThenRest(suspects: seq<SuspectRecord>, rest: string)
    requires suspects != []
    ensures Serialize(suspects) + rest
            == Fields(suspects[0]) + [RecordSeparator] + (Serialize(suspects[1..]) + rest)
  {
    var f := Fields(suspects[0]) + [RecordSeparator];
    assert Serialize(suspects) == f + Serialize(suspects[1..]);
    AppendAssociative(f, Serialize(suspects[1..]), rest);
  }

  /** Entries followed by more pieces, split after the first entry. */
  lemma EntriesThenRest(suspects: seq<SuspectRecord>, rest: seq<string>)
    requires suspects != []
    ensures Entries(suspects) + rest == [Fields(suspects[0])] + (Entries(suspects[1..]) + rest)
  {
    AppendAssociative([Fields(suspects[0])], Entries(suspects[1..]), rest);
  }

  /** The `|`-pieces of serialized text are its entries, then whatever follows. */
  lemma {:induction false} PiecesOfSerialized(suspects: seq<SuspectRecord>, rest: string)
    requires AllStorable(suspects)
    ensures Pieces(Serialize(suspects) + rest, RecordSeparator)
            == Entries(suspects) + Pieces(rest, RecordSeparator)
  {
    if suspects == [] {
      assert Serialize(suspects) + rest == rest;
    } else {
      var tail := Serialize(suspects[1..]) + rest;
      PiecesOfSerialized(suspects[1..], rest);
      NoRecordSeparatorInFields(suspects[0]);
      SerializeThenRest(suspects, rest);
      PiecesAfterPrefix(Fields(suspects[0]), RecordSeparator, tail);
      EntriesThenRest(suspects, Pieces(rest, RecordSeparator));
    }
  }

  lemma {:induction false} ParseEntriesAppend(x: seq<string>, y: seq<string>)
    ensures ParseEntries(x + y) == ParseEntries(x) + ParseEntries(y)
  {
    if x == [] {
      assert x + y == y;
    } else {
      assert ParseEntries(x + y) == ParseSegment(x[0]) + ParseEntries(x[1..] + y) by {
        assert (x + y)[0] == x[0];
        assert (x + y)[1..] == x[1..] + y;
      }
      ParseEntriesAppend(x[1..], y);
      AppendAssociative(ParseSegment(x[0]), ParseEntries(x[1..]), ParseEntries(y));
    }
  }

  lemma {:induction false} ParseEntriesOfBlanks(x: seq<string>)
    requires forall i | 0 <= i < |x| :: x[i] == ""
    ensures ParseEntries(x) == []
  {
    if x != [] {
      ParseEntriesOfBlanks(x[1..]);
    }
  }

  /** Java's removal of trailing empty strings is invisible after skipping empty segments. */
  lemma ParseEntriesIgnoresTrailingBlanks(ps: seq<string>)
    ensures ParseEntries(DropTrailingEmpty(ps)) == ParseEntries(ps)
  {
    var kept := DropTrailingEmpty(ps);
    assert ps == kept + ps[|kept|..];
    ParseEntriesAppend(kept, ps[|kept|..]);
    DropTrailingEmptyRest(ps);
    ParseEntriesOfBlanks(ps[|kept|..]);
  }

  /** One storable suspect's segment parses back to the same suspect. */
  lemma ParseEntryOfFields(s: SuspectRecord)
    requires Storable(s)
    ensures ParseEntry(Fields(s)) == Some(s)
  {
    SplitThree(s.name, s.description, BooleanText(s.guilty), FieldSeparator);
  }

  lemma {:induction false} ParseEntriesOfEntries(suspects: seq<SuspectRecord>)
    requires AllStorable(suspects)
    ensures ParseEntries(Entries(suspects)) == suspects
  {
    if suspects != [] {
      ParseEntriesOfEntries(suspects[1..]);
      ParseEntryOfFields(suspects[0]);
      assert Entries(suspects)[1..] == Entries(suspects[1..]);
    }
  }

  /** Decoding non-empty text parses every `|`-piece, trailing empty ones included. */
  lemma DeserializePieces(data: string)
    requires data != ""
    ensures Deserialize(data) == ParseEntries(Pieces(data, RecordSeparator))
  {
    ParseEntriesIgnoresTrailingBlanks(Pieces(data, RecordSeparator));
  }

  /**
   * Round trip: when no name or description contains `;` or `|`, decoding the
   * encoding gives back the same suspects in the same order.
   */
  lemma RoundTrip(suspects: seq<SuspectRecord>)
    requires AllStorable(suspects)
    ensures Deserialize(Serialize(suspects)) == suspects
  {
    var data := Serialize(suspects);
    if suspects != [] {
      PiecesOfSerialized(suspects, "");
      assert data + "" == data;
      DeserializePieces(data);
      ParseEntriesAppend(Entries(suspects), [""]);
      ParseEntriesOfEntries(suspects);
    }
  }

  /** A segment with fewer than three fields contributes nothing. */
  lemma ParseEntriesOfMalformed(bad: string)
    requires |Split(bad, FieldSeparator)| < 3
    ensures ParseEntries([bad]) == []
  {
  }

  /** The `|`-pieces of a whole encoding: one per suspect and a final empty one. */
  lemma PiecesOfEncoding(suspects: seq<SuspectRecord>)
    requires AllStorable(suspects)
    ensures Pieces(Serialize(suspects), RecordSeparator) == Entries(suspects) + [""]
  {
    PiecesOfSerialized(suspects, "");
    assert Serialize(suspects) + "" == Serialize(suspects);
    assert Pieces("", RecordSeparator) == [""];
  }

  lemma PiecesAroundSegment(a: seq<SuspectRecord>, bad: string, b: seq<SuspectRecord>)
    requires AllStorable(a) && AllStorable(b)
    requires RecordSeparator !in bad
    ensures Pieces(Serialize(a) + bad + [RecordSeparator] + Serialize(b), RecordSeparator)
            == Entries(a) + ([bad] + (Entries(b) + [""]))
  {
    var rest := bad + [RecordSeparator] + Serialize(b);
    assert Serialize(a) + bad + [RecordSeparator] + Serialize(b) == Serialize(a) + rest;
    PiecesOfSerialized(a, rest);
    PiecesAfterPrefix(bad, RecordSeparator, Serialize(b));
    PiecesOfEncoding(b);
  }

  /**
   * Decoding is lenient: a segment with fewer than three `;`-fields (an empty
   * segment among them) between well-formed ones is dropped without error.
   */
  lemma SkipsMalformedSegment(a: seq<SuspectRecord>, bad: string, b: seq<SuspectRecord>)
    requires AllStorable(a) && AllStorable(b)
    requires RecordSeparator !in bad
    requires |Split(bad, FieldSeparator)| < 3
    ensures Deserialize(Serialize(a) + bad + [RecordSeparator] + Serialize(b)) == a + b
  {
    var data := Serialize(a) + bad + [RecordSeparator] + Serialize(b);
    var tail := Entries(b) + [""];
    assert ParseEntries(tail) == b by {
      ParseEntriesAppend(Entries(b), [""]);
      ParseEntriesOfEntries(b);
      assert ParseEntries([""]) == [];
    }
    assert ParseEntries([bad] + tail) == b by {
      ParseEntriesAppend([bad], tail);
      ParseEntriesOfMalformed(bad);
    }
    assert ParseEntries(Entries(a) + ([bad] + tail)) == a + b by {
      ParseEntriesAppend(Entries(a), [bad] + tail);
      ParseEntriesOfEntries(a);
    }
    PiecesAroundSegment(a, bad, b);
    DeserializePieces(data);
  }

  /** A segment of four separator-free fields keeps the first two and reads the third as the flag. */
  lemma ParseFourFields(w: string, x: string, y: string, z: string)
    requires FieldSeparator !in w && FieldSeparator !in x && FieldSeparator !in y && FieldSeparator !in z
    requires z != ""
    ensures ParseEntry(w + [FieldSeparator] + x + [FieldSeparator] + y + [FieldSeparator] + z)
            == Some(SuspectRecord(w, x, ParseBoolean(y)))
  {
    var e := w + [FieldSeparator] + x + [FieldSeparator] + y + [FieldSeparator] + z;
    assert e == w + [FieldSeparator] + (x + [FieldSeparator] + y + [FieldSeparator] + z);
    PiecesAfterPrefix(w, FieldSeparator, x + [FieldSeparator] + y + [FieldSeparator] + z);
    ThreePieces(x, y, z, FieldSeparator);
  }

  /** Decoding the encoding of one suspect parses that suspect's segment. */
  lemma DeserializeSingle(s: SuspectRecord)
    requires RecordSeparator !in Fields(s)
    ensures Deserialize(Serialize([s])) == ParseEntries([Fields(s)])
  {
    var data := Serialize([s]);
    assert data == Fields(s) + [RecordSeparator] + "";
    PiecesAfterPrefix(Fields(s), RecordSeparator, "");
    DeserializePieces(data);
    ParseEntriesAppend([Fields(s)], [""]);
  }

  /**
   * The separator condition of RoundTrip is needed: a `;` inside a name shifts
   * the fields, so the description is read as the guilt flag.
   */
  lemma SeparatorInNameBreaksRoundTrip()
    ensures Deserialize(Serialize([SuspectRecord("a;b", "c", true)]))
            == [SuspectRecord("a", "b", false)]
  {
    var s := SuspectRecord("a;b", "c", true);
    assert Fields(s) == "a" + [FieldSeparator] + "b" + [FieldSeparator] + "c" + [FieldSeparator] + "true";
    ParseFourFields("a", "b", "c", "true");
    DeserializeSingle(s);
  }
}
