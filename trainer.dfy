/**
 * Estimating the model from a tagged corpus: one pass that counts
 * emissions and transitions, then normalisation of both tables.
 */
module Trainer {
  import opened Results
  import opened Text
  import opened Tables
  import opened Corpus
  import opened Weights

  /** Line `k` is the first line on which training reads past the end of the tags. */
  predicate FirstUnreadable(lines: seq<Line>, k: nat) {
    k < |lines| && !Indexable(lines[k]) && AllIndexable(lines[..k])
  }

  /**
   * Counts one line into the tables, position by position. Each word
   * position bumps its (tag, word) emission; the first position also bumps
   * the start pseudo-tag's transition to its tag; the first position and
   * every inner position bump the transition to the next tag, and the last
   * position of a longer line only makes sure its tag has a row. Reading a
   * tag past the end of the tag line aborts.
   */
  method CountLine(words: seq<string>, tags: seq<string>, observations: Table, transitions: Table,
                   ghost emitted: multiset<(string, string)>, ghost moved: multiset<(string, string)>,
                   ghost seen: set<string>)
    returns (r: Option<(Table, Table)>)
    requires Keyed(emitted, seen) && Keyed(moved, seen + {Start})
    requires observations == TableOf(emitted, seen)
    requires transitions == TableOf(moved, seen + {Start})
    ensures r.Some? <==> Indexable(Line(words, tags))
    ensures r.Some? ==>
      var l := Line(words, tags);
      && r.value.0 == TableOf(emitted + EmitPrefix(l, |words|), seen + TagPrefix(l, |words|))
      && r.value.1 == TableOf(moved + MovePrefix(l, |words|), seen + TagPrefix(l, |words|) + {Start})
  {
    ghost var l := Line(words, tags);
    var o, t := words, tags;
    var obs, trans := observations, transitions;
    assert emitted + EmitPrefix(l, 0) == emitted && moved + MovePrefix(l, 0) == moved;
    assert seen + TagPrefix(l, 0) == seen;
    for i := 0 to |o|
      invariant Readable(l, i)
      invariant obs == TableOf(emitted + EmitPrefix(l, i), seen + TagPrefix(l, i))
      invariant trans == TableOf(moved + MovePrefix(l, i), seen + TagPrefix(l, i) + {Start})
    {
      if i >= |t| {
        UnreadableAt(l, i);
        return None;
      }
      var word := o[i];
      var tag := t[i];
      // Observations: tag -> word
      obs := Bump(obs, tag, word);
      // Transitions: start -> first tag, then tag -> next tag
      if i == 0 {
        trans := Bump(trans, Start, tag);
      } else if i == |o| - 1 {
        assert Readable(l, i + 1);
        KeyedSoFar(l, i, emitted, moved, seen);
        EmitStep(l, i, emitted, seen);
        MoveStepLast(l, i, moved, seen);
        trans := EnsureRow(trans, tag);
        continue;
      }
      if i + 1 >= |t| {
        UnreadableAt(l, i);
        return None;
      }
      var nextTag := t[i + 1];
      assert Readable(l, i + 1);
      KeyedSoFar(l, i, emitted, moved, seen);
      EmitStep(l, i, emitted, seen);
      if i == 0 {
        MoveStepFirst(l, moved, seen);
      } else {
        MoveStepInner(l, i, moved, seen);
      }
      trans := Bump(trans, tag, nextTag);
    }
    return Some((obs, trans));
  }

  /**
   * Counts the corpus line by line. The first line on which a tag is read
   * past the end of its tag line aborts training.
   */
  method CountLines(corpus: seq<(string, string)>) returns (r: Result<(Table, Table), TrainError>)
    ensures r.Success? <==> AllIndexable(Lines(corpus))
    ensures r.Failure? ==> FirstUnreadable(Lines(corpus), r.error.line)
    ensures r.Success? ==> r.value == (EmissionCounts(Lines(corpus)), TransitionCounts(Lines(corpus)))
  {
    ghost var lines := Lines(corpus);
    var observations: Table := map[];
    var transitions: Table := map[Start := map[]];
    assert Row(multiset{}, Start) == map[];
    for k := 0 to |corpus|
      invariant AllIndexable(lines[..k])
      invariant observations == EmissionCounts(lines[..k])
      invariant transitions == TransitionCounts(lines[..k])
    {
      var o := Tokens(corpus[k].0);  // words of the line
      var t := Tokens(corpus[k].1);  // their tags
      KeyedCorpus(lines[..k]);
      var counted := CountLine(o, t, observations, transitions,
                               Emissions(lines[..k]), Transitions(lines[..k]), TagSet(lines[..k]));
      if counted.None? {
        return Failure(TagIndexOutOfRange(k));
      }
      observations, transitions := counted.value.0, counted.value.1;
      CountsSnoc(lines, k);
    }
    assert lines[..|corpus|] == lines;
    return Success((observations, transitions));
  }

  /** The model training yields: both count tables normalised. */
  ghost function Trained(lines: seq<Line>, ln: real -> real): (hmm: Hmm)
    requires AllIndexable(lines)
    ensures hmm.observations.Keys == TagSet(lines)
    ensures hmm.transitions.Keys == TagSet(lines) + {Start}
  {
    TableOfPositive(Emissions(lines), TagSet(lines));
    TableOfPositive(Transitions(lines), TagSet(lines) + {Start});
    Hmm(Normalise(EmissionCounts(lines), ln), Normalise(TransitionCounts(lines), ln))
  }

  /**
   * Trains the model: counts the corpus, then turns both count tables into
   * log-probabilities. Fails on the first line where a tag is read past
   * the end of its tag line.
   */
  method Train(corpus: seq<(string, string)>, ln: real -> real) returns (r: Result<Hmm, TrainError>)
    ensures r.Success? <==> AllIndexable(Lines(corpus))
    ensures r.Failure? ==> FirstUnreadable(Lines(corpus), r.error.line)
    ensures r.Success? ==> r.value == Trained(Lines(corpus), ln)
  {
    var counted := CountLines(corpus);
    if counted.Failure? {
      return Failure(counted.error);
    }
    var (observations, transitions) := counted.value;
    ghost var lines := Lines(corpus);
    TableOfPositive(Emissions(lines), TagSet(lines));
    TableOfPositive(Transitions(lines), TagSet(lines) + {Start});
    var obsWeights := FreqToWeight(observations, ln);
    var transWeights := FreqToWeight(transitions, ln);
    return Success(Hmm(obsWeights, transWeights));
  }

  /**
   * The emission count of (tag, word) is the number of positions with that
   * tag and word; the transition count of (a, b) is the number of counted
   * transitions from `a` to `b`.
   */
  lemma CountsAt(lines: seq<Line>, a: string, b: string)
    requires AllIndexable(lines)
    ensures Get(EmissionCounts(lines), a, b) == Emissions(lines)[(a, b)] as real
    ensures Get(TransitionCounts(lines), a, b) == Transitions(lines)[(a, b)] as real
  {
    KeyedCorpus(lines);
    TableOfGet(Emissions(lines), TagSet(lines));
    TableOfGet(Transitions(lines), TagSet(lines) + {Start});
  }

  lemma {:induction false} TagPrefixOccurs(l: Line, n: nat, a: string)
    requires Readable(l, n)
    ensures a in TagPrefix(l, n) <==> exists i :: 0 <= i < n && l.tags[i] == a
  {
    if n > 0 {
      TagPrefixOccurs(l, n - 1, a);
      assert l.tags[n - 1] == a ==> exists i :: 0 <= i < n && l.tags[i] == a;
    }
  }

  /** A tag has an emission row exactly when it occurs at some word position of the corpus. */
  lemma {:induction false} TagSetOccurs(lines: seq<Line>, a: string)
    requires AllIndexable(lines)
    ensures a in TagSet(lines) <==>
      exists k, i :: 0 <= k < |lines| && 0 <= i < |lines[k].words| && i < |lines[k].tags| && lines[k].tags[i] == a
  {
    if lines != [] {
      var m := |lines| - 1;
      var l := lines[m];
      TagSetOccurs(lines[..m], a);
      TagPrefixOccurs(l, |l.words|, a);
      if a in TagSet(lines) {
        if a in TagPrefix(l, |l.words|) {
          var i :| 0 <= i < |l.words| && l.tags[i] == a;
          assert lines[m].tags[i] == a;
        } else {
          var k, i :| 0 <= k < m && 0 <= i < |lines[..m][k].words| && i < |lines[..m][k].tags| && lines[..m][k].tags[i] == a;
          assert lines[k].tags[i] == a;
        }
      } else {
        forall k, i | 0 <= k < |lines| && 0 <= i < |lines[k].words| && i < |lines[k].tags|
          ensures lines[k].tags[i] != a
        {
          if k < m {
            assert lines[..m][k].tags[i] == lines[k].tags[i];
          }
        }
      }
    }
  }

  /** With the start pseudo-tag not a corpus tag, the start transitions of a line are its first tag's. */
  lemma {:induction false} LineStartMoves(l: Line, n: nat, a: string)
    requires Readable(l, n) && Start !in TagPrefix(l, n)
    ensures MovePrefix(l, n)[(Start, a)] == (if n > 0 && l.tags[0] == a then 1 else 0)
  {
    if n > 0 {
      LineStartMoves(l, n - 1, a);
      assert l.tags[n - 1] != Start;
      if n == 1 {
        assert MoveAt(l, 0) == multiset{(Start, l.tags[0])} + multiset{(l.tags[0], l.tags[1])};
      }
    }
  }

  lemma {:induction false} StartMoves(lines: seq<Line>, a: string)
    requires AllIndexable(lines) && Start !in TagSet(lines)
    ensures Transitions(lines)[(Start, a)] == FirstTagCount(lines, a)
  {
    if lines != [] {
      var l := lines[|lines| - 1];
      StartMoves(lines[..|lines| - 1], a);
      LineStartMoves(l, |l.words|, a);
    }
  }

  /**
   * When no corpus tag is the start pseudo-tag, the start row counts, for
   * each tag, the lines (with at least one word) that begin with it.
   */
  lemma StartRow(lines: seq<Line>, a: string)
    requires AllIndexable(lines) && Start !in TagSet(lines)
    ensures Start in TransitionCounts(lines)
    ensures Get(TransitionCounts(lines), Start, a) == FirstTagCount(lines, a) as real
  {
    CountsAt(lines, Start, a);
    StartMoves(lines, a);
  }

  /** No line of the corpus has exactly one word. */
  predicate NoSingleWordLines(lines: seq<Line>) {
    forall k :: 0 <= k < |lines| ==> |lines[k].words| != 1
  }

  lemma {:induction false} LineMoveTargets(l: Line, n: nat, a: string, b: string)
    requires Indexable(l) && n <= |l.words| && |l.words| != 1
    requires Readable(l, n) && (a, b) in MovePrefix(l, n)
    ensures b in TagPrefix(l, |l.words|)
  {
    var w := |l.words|;
    if n > 0 {
      if (a, b) in MovePrefix(l, n - 1) {
        LineMoveTargets(l, n - 1, a, b);
      } else {
        var i := n - 1;
        TagPrefixOccurs(l, w, b);
        if i == 0 {
          assert b == l.tags[0] || b == l.tags[1];
          if b == l.tags[0] {
            assert 0 < w && l.tags[0] == b;
          } else {
            assert 1 < w && l.tags[1] == b;
          }
        } else {
          assert i + 1 < w && l.tags[i + 1] == b;
        }
      }
    }
  }

  lemma {:induction false} MoveTargets(lines: seq<Line>, a: string, b: string)
    requires AllIndexable(lines) && NoSingleWordLines(lines)
    requires (a, b) in Transitions(lines)
    ensures b in TagSet(lines)
  {
    var m := |lines| - 1;
    var l := lines[m];
    if (a, b) in Transitions(lines[..m]) {
      MoveTargets(lines[..m], a, b);
    } else {
      LineMoveTargets(l, |l.words|, a, b);
    }
  }

  /**
   * When no line has exactly one word, every transition target is a tag
   * of the corpus, so it has an emission row and a transition row.
   */
  lemma TargetsAreTags(lines: seq<Line>)
    requires AllIndexable(lines) && NoSingleWordLines(lines)
    ensures forall a, b :: a in TransitionCounts(lines) && b in TransitionCounts(lines)[a] ==>
      b in TagSet(lines)
  {
    forall a, b | a in TransitionCounts(lines) && b in TransitionCounts(lines)[a]
      ensures b in TagSet(lines)
    {
      assert (a, b) in Transitions(lines);
      MoveTargets(lines, a, b);
    }
  }

  /** The start pseudo-tag is a transition target only if it is also a corpus tag. */
  lemma StartNeverTarget(lines: seq<Line>)
    requires AllIndexable(lines) && NoSingleWordLines(lines) && Start !in TagSet(lines)
    ensures forall a :: a in TransitionCounts(lines) ==> Start !in TransitionCounts(lines)[a]
  {
    TargetsAreTags(lines);
  }

  /** Training on a corpus without one-word lines yields a model the decoder can use. */
  lemma TrainedDecodable(lines: seq<Line>, ln: real -> real)
    requires AllIndexable(lines) && NoSingleWordLines(lines)
    ensures Decodable(Trained(lines, ln))
  {
    TargetsAreTags(lines);
  }

  /**
   * A one-word line with two tags is counted without error, but records a
   * transition to the second tag, which has no emission row: the trained
   * model is not one the decoder can use.
   */
  lemma OneWordLineBreaksDecoding(ln: real -> real)
    ensures var lines := [Line(["x"], ["a", "b"])];
            AllIndexable(lines) && !Decodable(Trained(lines, ln))
  {
    var l := Line(["x"], ["a", "b"]);
    var lines := [l];
    assert Readable(l, 1);
    assert lines[..0] == [];
    assert TagSet(lines) == {"a"};
    assert MovePrefix(l, 1) == multiset{(Start, "a"), ("a", "b")};
    assert ("a", "b") in Transitions(lines);
    var hmm := Trained(lines, ln);
    assert "a" in hmm.transitions && "b" in hmm.transitions["a"] by {
      assert "b" in TransitionCounts(lines)["a"];
    }
    assert "b" !in hmm.observations;
  }
}
