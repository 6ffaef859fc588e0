/**
 * The few java.lang.String and java.lang.Boolean operations the game relies on,
 * stated over `seq<char>`: `split` with a one-character pattern and the default
 * limit 0, `trim`, `Boolean.parseBoolean` and `String.valueOf(boolean)`.
 */
module JavaStrings {

  /** Position of the first occurrence of `sep` in `s`. */
  function FirstIndex(s: string, sep: char): (i: nat)
    requires sep in s
    ensures i < |s| && s[i] == sep && sep !in s[..i]
  {
    if s[0] == sep then 0
    else
      assert sep in s[1..] by {
        var k :| 0 <= k < |s| && s[k] == sep;
        assert s[1..][k - 1] == sep;
      }
      var j := FirstIndex(s[1..], sep);
      assert s[..j + 1] == [s[0]] + s[1..][..j];
      1 + j
  }

  /**
   * Every piece of `s` between occurrences of `sep`, empty pieces included:
   * what String.split produces before it removes trailing empty strings.
   */
  function Pieces(s: string, sep: char): (r: seq<string>)
    ensures |r| >= 1
    decreases |s|
  {
    if sep !in s then [s]
    else
      var i := FirstIndex(s, sep);
      [s[..i]] + Pieces(s[i + 1..], sep)
  }

  /** The pieces glued back together with `sep` between them (String.join). */
  function Join(ps: seq<string>, sep: char): string
    requires |ps| >= 1
  {
    if |ps| == 1 then ps[0] else ps[0] + [sep] + Join(ps[1..], sep)
  }

  /** The longest prefix of `ps` that does not end in an empty string. */
  function DropTrailingEmpty(ps: seq<string>): (r: seq<string>)
    ensures r <= ps
    ensures r == [] || r[|r| - 1] != ""
  {
    if ps == [] then []
    else if ps[|ps| - 1] == "" then DropTrailingEmpty(ps[..|ps| - 1])
    else ps
  }

  /** What DropTrailingEmpty removes are empty strings only. */
  lemma {:induction false} DropTrailingEmptyRest(ps: seq<string>)
    ensures forall i | |DropTrailingEmpty(ps)| <= i < |ps| :: ps[i] == ""
  {
    if ps != [] && ps[|ps| - 1] == "" {
      DropTrailingEmptyRest(ps[..|ps| - 1]);
    }
  }

  /**
   * `s.split(sep)` for a one-character, non-special pattern and limit 0: an input
   * with no match (the empty string included) is returned whole; otherwise the
   * pieces are returned with trailing empty pieces removed.
   */
  function Split(s: string, sep: char): seq<string>
  {
    if s == "" then [""] else DropTrailingEmpty(Pieces(s, sep))
  }

  /** Splitting at a first separator peels off the text before it. */
  lemma PiecesAfterPrefix(a: string, sep: char, b: string)
    requires sep !in a
    ensures Pieces(a + [sep] + b, sep) == [a] + Pieces(b, sep)
  {
    var s := a + [sep] + b;
    assert s[|a|] == sep;
    var i := FirstIndex(s, sep);
    assert i == |a| by {
      assert s[..|a|] == a;
    }
    assert s[..i] == a;
    assert s[i + 1..] == b;
  }

  /** Three separator-free fields joined by `sep` split back into those fields. */
  lemma ThreePieces(a: string, b: string, c: string, sep: char)
    requires sep !in a && sep !in b && sep !in c
    ensures Pieces(a + [sep] + b + [sep] + c, sep) == [a, b, c]
  {
    var bc := b + [sep] + c;
    assert a + [sep] + b + [sep] + c == a + [sep] + bc;
    PiecesAfterPrefix(a, sep, bc);
    PiecesAfterPrefix(b, sep, c);
    assert Pieces(c, sep) == [c];
  }

  /** As ThreePieces, for `split`: a non-empty last field is not removed. */
  lemma SplitThree(a: string, b: string, c: string, sep: char)
    requires sep !in a && sep !in b && sep !in c
    requires c != ""
    ensures Split(a + [sep] + b + [sep] + c, sep) == [a, b, c]
  {
    ThreePieces(a, b, c, sep);
  }

  /** Joining the pieces of a string gives the string back. */
  lemma {:induction false} JoinPieces(s: string, sep: char)
    ensures Join(Pieces(s, sep), sep) == s
    decreases |s|
  {
    if sep in s {
      var i := FirstIndex(s, sep);
      JoinPieces(s[i + 1..], sep);
      assert s == s[..i] + [sep] + s[i + 1..];
    }
  }

  /** Pieces free of the separator are recovered by splitting their join. */
  lemma {:induction false} PiecesOfJoin(ps: seq<string>, sep: char)
    requires |ps| >= 1
    requires forall p | p in ps :: sep !in p
    ensures Pieces(Join(ps, sep), sep) == ps
  {
    if |ps| > 1 {
      PiecesOfJoin(ps[1..], sep);
      PiecesAfterPrefix(ps[0], sep, Join(ps[1..], sep));
      assert ps == [ps[0]] + ps[1..];
    }
  }

  /** Java's `trim`: drops leading and trailing characters at or below U+0020. */
  function Trim(s: string): (r: string)
    ensures r == [] || (r[0] > ' ' && r[|r| - 1] > ' ')
    ensures |r| <= |s|
  {
    TrimEnd(TrimStart(s))
  }

  function TrimStart(s: string): (r: string)
    ensures |r| <= |s|
    ensures r == s[|s| - |r|..]
    ensures r == [] || r[0] > ' '
  {
    if s != [] && s[0] <= ' ' then TrimStart(s[1..]) else s
  }

  /** What TrimStart drops are characters at or below U+0020 only. */
  lemma {:induction false} TrimStartDropsBlanks(s: string)
    ensures forall i | 0 <= i < |s| - |TrimStart(s)| :: s[i] <= ' '
  {
    if s != [] && s[0] <= ' ' {
      TrimStartDropsBlanks(s[1..]);
      assert forall i | 1 <= i < |s| :: s[i] == s[1..][i - 1];
    }
  }

  function TrimEnd(s: string): (r: string)
    ensures |r| <= |s|
    ensures r == s[..|r|]
    ensures r == [] || r[|r| - 1] > ' '
  {
    if s != [] && s[|s| - 1] <= ' ' then TrimEnd(s[..|s| - 1]) else s
  }

  /** What TrimEnd drops are characters at or below U+0020 only. */
  lemma {:induction false} TrimEndDropsBlanks(s: string)
    ensures forall i | |TrimEnd(s)| <= i < |s| :: s[i] <= ' '
  {
    if s != [] && s[|s| - 1] <= ' ' {
      TrimEndDropsBlanks(s[..|s| - 1]);
    }
  }

  /** Trimming an already trimmed string changes nothing. */
  lemma TrimIdempotent(s: string)
    ensures Trim(Trim(s)) == Trim(s)
  {
    var t := Trim(s);
    assert TrimStart(t) == t;
    assert TrimEnd(t) == t;
  }

  /** Java's `Boolean.parseBoolean`: true exactly for "true" in any letter case. */
  predicate ParseBoolean(s: string)
  {
    |s| == 4 && s[0] in "tT" && s[1] in "rR" && s[2] in "uU" && s[3] in "eE"
  }

  /** Java's `String.valueOf(boolean)`, as `StringBuilder.append(boolean)` writes it. */
  function BooleanText(b: bool): (r: string)
    ensures ParseBoolean(r) == b
    ensures r != ""
  {
    if b then "true" else "false"
  }
}
