/**
 * The string handling the tagger relies on: ASCII case mapping, the
 * behaviour of Java's `String.split(" ")`, and the space-joined,
 * upper-cased output line.
 */
module Text {

  function LowerChar(c: char): (r: char)
    ensures r == ' ' <==> c == ' '
  {
    if 'A' <= c <= 'Z' then (c as int + 32) as char else c
  }

  function UpperChar(c: char): (r: char)
    ensures r == ' ' <==> c == ' '
  {
    if 'a' <= c <= 'z' then (c as int - 32) as char else c
  }

  function Lower(s: string): (r: string)
    ensures |r| == |s|
    ensures forall i :: 0 <= i < |s| ==> r[i] == LowerChar(s[i])
  {
    seq(|s|, i requires 0 <= i < |s| => LowerChar(s[i]))
  }

  function Upper(s: string): (r: string)
    ensures |r| == |s|
    ensures forall i :: 0 <= i < |s| ==> r[i] == UpperChar(s[i])
  {
    seq(|s|, i requires 0 <= i < |s| => UpperChar(s[i]))
  }

  function LowerAll(ts: seq<string>): (r: seq<string>)
    ensures |r| == |ts|
    ensures forall i :: 0 <= i < |ts| ==> r[i] == Lower(ts[i])
  {
    seq(|ts|, i requires 0 <= i < |ts| => Lower(ts[i]))
  }

  function UpperAll(ts: seq<string>): (r: seq<string>)
    ensures |r| == |ts|
    ensures forall i :: 0 <= i < |ts| ==> r[i] == Upper(ts[i])
  {
    seq(|ts|, i requires 0 <= i < |ts| => Upper(ts[i]))
  }

  predicate SpaceFree(s: string) {
    forall i :: 0 <= i < |s| ==> s[i] != ' '
  }

  predicate Blank(s: string) {
    forall i :: 0 <= i < |s| ==> s[i] == ' '
  }

  /** The pieces between the spaces of `s`, empty pieces included. */
  function Pieces(s: string): (r: seq<string>)
    ensures |r| >= 1
    decreases |s|
  {
    if s == [] then [[]]
    else
      var rest := Pieces(s[1..]);
      if s[0] == ' ' then [[]] + rest else [[s[0]] + rest[0]] + rest[1..]
  }

  function DropTrailingEmpty(ps: seq<string>): (r: seq<string>)
    ensures |r| <= |ps| && r == ps[..|r|]
    ensures r != [] ==> r[|r| - 1] != []
    ensures forall i :: |r| <= i < |ps| ==> ps[i] == []
  {
    if ps != [] && ps[|ps| - 1] == [] then DropTrailingEmpty(ps[..|ps| - 1]) else ps
  }

  /**
   * Java's `s.split(" ")`: without a space the whole string is the only
   * piece (so "" gives [""]); otherwise the pieces between spaces with
   * trailing empty pieces removed.
   */
  function Split(s: string): seq<string> {
    if ' ' !in s then [s] else DropTrailingEmpty(Pieces(s))
  }

  /** A line as the tagger sees it: case-folded, then split at spaces. */
  function Tokens(line: string): seq<string> {
    Split(Lower(line))
  }

  /** The pieces joined by single spaces, as the output line is assembled. */
  function Join(ts: seq<string>): string
  {
    if |ts| == 0 then ""
    else if |ts| == 1 then ts[0]
    else ts[0] + " " + Join(ts[1..])
  }

  /** The output line: the tags joined by spaces, then upper-cased. */
  function Render(tags: seq<string>): string {
    Upper(Join(tags))
  }

  lemma {:induction false} PiecesSpaceFree(s: string)
    requires SpaceFree(s)
    ensures Pieces(s) == [s]
    decreases |s|
  {
    if s != [] {
      PiecesSpaceFree(s[1..]);
      assert [s[0]] + s[1..] == s;
    }
  }

  lemma {:induction false} PiecesAllEmpty(s: string)
    requires Blank(s)
    ensures forall i :: 0 <= i < |Pieces(s)| ==> Pieces(s)[i] == []
    decreases |s|
  {
    if s != [] {
      PiecesAllEmpty(s[1..]);
    }
  }

  lemma {:induction false} PiecesSomeNonEmpty(s: string, k: nat)
    requires k < |s| && s[k] != ' '
    ensures exists i :: 0 <= i < |Pieces(s)| && Pieces(s)[i] != []
    decreases |s|
  {
    if k == 0 {
      if |s| > 0 {
        assert Pieces(s)[0] == [s[0]] + Pieces(s[1..])[0];
      }
    } else {
      PiecesSomeNonEmpty(s[1..], k - 1);
      var i :| 0 <= i < |Pieces(s[1..])| && Pieces(s[1..])[i] != [];
      var rest := Pieces(s[1..]);
      if s[0] == ' ' {
        assert Pieces(s)[i + 1] == rest[i];
      } else if i == 0 {
        assert Pieces(s)[0] == [s[0]] + rest[0];
      } else {
        assert Pieces(s)[i] == rest[i];
      }
    }
  }

  /** A line has no tokens exactly when it is non-empty and made only of spaces. */
  lemma NoTokensIffBlank(line: string)
    ensures Tokens(line) == [] <==> (line != "" && Blank(line))
  {
    var s := Lower(line);
    if line != "" && Blank(line) {
      assert s[0] == ' ';
      assert ' ' in s;
      PiecesAllEmpty(s);
    } else if line != "" {
      var k :| 0 <= k < |line| && line[k] != ' ';
      if ' ' in s {
        PiecesSomeNonEmpty(s, k);
        var i :| 0 <= i < |Pieces(s)| && Pieces(s)[i] != [];
        var r := DropTrailingEmpty(Pieces(s));
        assert i < |r|;
      }
    }
  }

  lemma {:induction false} PiecesJoin(ts: seq<string>)
    requires ts != []
    requires forall i :: 0 <= i < |ts| ==> SpaceFree(ts[i])
    ensures Pieces(Join(ts)) == ts
    decreases |ts|
  {
    if |ts| == 1 {
      PiecesSpaceFree(ts[0]);
    } else {
      PiecesJoin(ts[1..]);
      PiecesConcat(ts[0], Join(ts[1..]));
      PiecesSpaceFree(ts[0]);
      assert [ts[0]] + ts[1..] == ts;
    }
  }

  lemma {:induction false} PiecesConcat(a: string, b: string)
    requires SpaceFree(a)
    ensures Pieces(a + " " + b) == [a] + Pieces(b)
    decreases |a|
  {
    if a == [] {
      assert a + " " + b == [' '] + b;
      assert (a + " " + b)[1..] == b;
    } else {
      PiecesConcat(a[1..], b);
      assert (a + " " + b)[1..] == a[1..] + " " + b;
      assert [a[0]] + a[1..] == a;
    }
  }

  lemma {:induction false} JoinHasSpace(ts: seq<string>)
    requires |ts| >= 2
    ensures ' ' in Join(ts)
  {
    assert Join(ts)[|ts[0]|] == ' ';
  }

  /**
   * Splitting the output line at spaces gives back one upper-cased tag per
   * token, provided no tag holds a space and the last one is not empty.
   */
  lemma SplitRender(tags: seq<string>)
    requires tags != []
    requires forall i :: 0 <= i < |tags| ==> SpaceFree(tags[i])
    requires |tags| == 1 || tags[|tags| - 1] != ""
    ensures Split(Render(tags)) == UpperAll(tags)
  {
    var up := UpperAll(tags);
    UpperJoin(tags);
    assert forall i :: 0 <= i < |up| ==> SpaceFree(up[i]);
    if |tags| == 1 {
      assert Join(up) == up[0];
      assert ' ' !in Join(up);
    } else {
      JoinHasSpace(up);
      PiecesJoin(up);
      assert up[|up| - 1] != [];
    }
  }

  /** Upper-casing the joined line is joining the upper-cased tags. */
  lemma {:induction false} UpperJoin(ts: seq<string>)
    ensures Render(ts) == Join(UpperAll(ts))
    decreases |ts|
  {
    if |ts| >= 2 {
      UpperJoin(ts[1..]);
      assert UpperAll(ts)[1..] == UpperAll(ts[1..]);
      UpperConcat(ts[0] + " ", Join(ts[1..]));
      UpperConcat(ts[0], " ");
    }
  }

  lemma UpperConcat(a: string, b: string)
    ensures Upper(a + b) == Upper(a) + Upper(b)
  {
  }

  /** Case folding keeps spaces where they are, and only there. */
  lemma LowerSpaces(s: string)
    ensures ' ' in Lower(s) <==> ' ' in s
  {
    if ' ' in s {
      var i :| 0 <= i < |s| && s[i] == ' ';
      assert Lower(s)[i] == ' ';
    }
  }

  lemma {:induction false} PiecesLower(s: string)
    ensures Pieces(Lower(s)) == LowerAll(Pieces(s))
    decreases |s|
  {
    if s != [] {
      var rest := Pieces(s[1..]);
      PiecesLower(s[1..]);
      assert Lower(s)[1..] == Lower(s[1..]);
      if s[0] != ' ' {
        assert Lower([s[0]] + rest[0]) == [LowerChar(s[0])] + Lower(rest[0]);
        assert LowerAll(rest)[1..] == LowerAll(rest[1..]);
      }
    }
  }

  lemma {:induction false} DropTrailingEmptyLower(ps: seq<string>)
    ensures DropTrailingEmpty(LowerAll(ps)) == LowerAll(DropTrailingEmpty(ps))
    decreases |ps|
  {
    if ps != [] {
      var front := ps[..|ps| - 1];
      assert LowerAll(ps)[..|ps| - 1] == LowerAll(front);
      assert Lower(ps[|ps| - 1]) == [] <==> ps[|ps| - 1] == [];
      DropTrailingEmptyLower(front);
    }
  }

  /**
   * Case folding commutes with splitting: the tokens of a case-folded line
   * are the case-folded tokens of the line.
   */
  lemma SplitLower(s: string)
    ensures Split(Lower(s)) == LowerAll(Split(s))
  {
    LowerSpaces(s);
    if ' ' in s {
      PiecesLower(s);
      DropTrailingEmptyLower(Pieces(s));
    }
  }
}
