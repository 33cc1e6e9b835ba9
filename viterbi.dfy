/**
 * The Viterbi decoder: a forward pass keeping, for every tag of the
 * frontier, the best score of a path ending in it and a backpointer to its
 * predecessor; then the best final tag, the walk back along the
 * backpointers onto a stack, and the upper-cased, space-joined tags.
 * Frontiers and maps are visited in no particular order, and an update
 * needs a strictly better score, so ties may go either way.
 */
module Viterbi {
  import opened Results
  import opened Text
  import opened Tables
  import opened Paths

  /**
   * One step of the forward pass: from every frontier tag, along every
   * recorded transition, score the move onto the next word and keep, for
   * each reached tag, the best score and the tag it came from.
   */
  method Advance(hmm: Hmm, currScores: map<string, real>, word: string)
    returns (nextScores: map<string, real>, bt: map<string, string>)
    requires Decodable(hmm)
    requires currScores.Keys <= hmm.transitions.Keys
    ensures nextScores.Keys == bt.Keys == Successors(hmm.transitions, currScores.Keys)
    ensures forall n :: n in bt ==>
      && bt[n] in currScores && n in hmm.transitions[bt[n]]
      && nextScores[n] == currScores[bt[n]] + Step(hmm, bt[n], n, word)
    ensures forall c, n :: c in currScores && n in hmm.transitions[c] ==>
      currScores[c] + Step(hmm, c, n, word) <= nextScores[n]
  {
    nextScores, bt := map[], map[];
    var currStates := currScores.Keys;
    ghost var done: set<string> := {};
    while currStates != {}
      invariant currStates !! done && currStates + done == currScores.Keys
      invariant nextScores.Keys == bt.Keys == Successors(hmm.transitions, done)
      invariant Backpointed(hmm, currScores, word, nextScores, bt)
      invariant forall c, n :: c in done && n in hmm.transitions[c] ==>
        currScores[c] + Step(hmm, c, n, word) <= nextScores[n]
      decreases currStates
    {
      var curr :| curr in currStates;
      SuccessorsAdd(hmm.transitions, done, curr);
      nextScores, bt := Relax(hmm, currScores, curr, word, nextScores, bt);
      currStates := currStates - {curr};
      done := done + {curr};
    }
  }

  /** Every backpointer names a frontier tag whose move attains the recorded score. */
  ghost predicate Backpointed(hmm: Hmm, currScores: map<string, real>, word: string,
                              nextScores: map<string, real>, bt: map<string, string>)
    requires Decodable(hmm)
  {
    forall n :: n in bt ==>
      && bt[n] in currScores && bt[n] in hmm.transitions && n in hmm.transitions[bt[n]]
      && n in nextScores && nextScores[n] == currScores[bt[n]] + Step(hmm, bt[n], n, word)
  }

  /** The score of every move out of `curr` onto `word`, by target tag. */
  ghost function Moves(hmm: Hmm, currScores: map<string, real>, curr: string, word: string): (moves: map<string, real>)
    requires Decodable(hmm) && curr in currScores && curr in hmm.transitions
    ensures moves.Keys == hmm.transitions[curr].Keys
    ensures forall n :: n in moves ==> moves[n] == currScores[curr] + Step(hmm, curr, n, word)
  {
    map n | n in hmm.transitions[curr] :: currScores[curr] + Step(hmm, curr, n, word)
  }

  /**
   * The inner loop of a step: every transition out of `curr` is scored, and
   * replaces the recorded score and backpointer of its target when the
   * target has none yet or the new score is strictly higher. Tags `curr`
   * does not move to keep their entries.
   */
  method Relax(hmm: Hmm, currScores: map<string, real>, curr: string, word: string,
               scores: map<string, real>, pointers: map<string, string>)
    returns (nextScores: map<string, real>, bt: map<string, string>)
    requires Decodable(hmm) && curr in currScores && curr in hmm.transitions
    requires scores.Keys == pointers.Keys && Backpointed(hmm, currScores, word, scores, pointers)
    ensures nextScores.Keys == bt.Keys == scores.Keys + hmm.transitions[curr].Keys
    ensures forall n :: n !in hmm.transitions[curr] ==> Untouched(scores, pointers, nextScores, bt, n)
    ensures forall n :: n in hmm.transitions[curr] ==>
      Relaxed(scores, pointers, Moves(hmm, currScores, curr, word), curr, nextScores, bt, n)
    ensures Backpointed(hmm, currScores, word, nextScores, bt)
    ensures forall n :: n in scores ==> scores[n] <= nextScores[n]
    ensures forall n :: n in hmm.transitions[curr] ==> currScores[curr] + Step(hmm, curr, n, word) <= nextScores[n]
  {
    var observations, transitions := hmm.observations, hmm.transitions;
    ghost var moves := Moves(hmm, currScores, curr, word);
    nextScores, bt := scores, pointers;
    var nextStates := transitions[curr].Keys;
    ghost var seen: set<string> := {};
    while nextStates != {}
      invariant nextStates !! seen && nextStates + seen == moves.Keys
      invariant Relaxing(scores, pointers, moves, curr, seen, nextScores, bt)
      decreases nextStates
    {
      var next :| next in nextStates;
      var obScore := if word in observations[next] then observations[next][word] else Unseen;
      var nextScore := currScores[curr] + transitions[curr][next] + obScore;
      assert nextScore == moves[next];
      if next !in nextScores || nextScore > nextScores[next] {
        RelaxUpdate(scores, pointers, moves, curr, seen, nextScores, bt, next);
        nextScores := nextScores[next := nextScore];
        bt := bt[next := curr];
      } else {
        RelaxKeep(scores, pointers, moves, curr, seen, nextScores, bt, next);
      }
      nextStates := nextStates - {next};
      seen := seen + {next};
    }
    RelaxDone(hmm, currScores, curr, word, scores, pointers, nextScores, bt);
  }

  /**
   * The state of the inner loop after the moves to the tags of `seen`:
   * every tag not yet visited keeps its entry, and every visited tag holds
   * the outcome of its comparison.
   */
  ghost predicate Relaxing(scores: map<string, real>, pointers: map<string, string>,
                           moves: map<string, real>, curr: string, seen: set<string>,
                           nextScores: map<string, real>, bt: map<string, string>)
  {
    && seen <= moves.Keys
    && nextScores.Keys == bt.Keys == scores.Keys + seen
    && (forall n :: n !in seen ==> Untouched(scores, pointers, nextScores, bt, n))
    && (forall n :: n in seen ==> Relaxed(scores, pointers, moves, curr, nextScores, bt, n))
  }

  /** The entry of `n`, if it had one, is still its score and backpointer from before the inner loop. */
  ghost predicate Untouched(scores: map<string, real>, pointers: map<string, string>,
                            nextScores: map<string, real>, bt: map<string, string>, n: string)
  {
    n in scores ==>
      n in pointers && n in nextScores && n in bt && nextScores[n] == scores[n] && bt[n] == pointers[n]
  }

  /**
   * The entry of a target `n` after its move from `curr` is compared: the
   * move's score with backpointer `curr` when `n` had no score or the move
   * is strictly higher, and the entry from before otherwise.
   */
  ghost predicate Relaxed(scores: map<string, real>, pointers: map<string, string>,
                          moves: map<string, real>, curr: string,
                          nextScores: map<string, real>, bt: map<string, string>, n: string)
  {
    && n in moves && n in nextScores && n in bt
    && if n !in scores || moves[n] > scores[n] then nextScores[n] == moves[n] && bt[n] == curr
       else n in pointers && nextScores[n] == scores[n] && bt[n] == pointers[n]
  }

  /** A move that beats the recorded score (or reaches an unscored tag) replaces score and backpointer. */
  lemma RelaxUpdate(scores: map<string, real>, pointers: map<string, string>,
                    moves: map<string, real>, curr: string, seen: set<string>,
                    nextScores: map<string, real>, bt: map<string, string>, next: string)
    requires next in moves && next !in seen && Relaxing(scores, pointers, moves, curr, seen, nextScores, bt)
    requires next !in nextScores || moves[next] > nextScores[next]
    ensures Relaxing(scores, pointers, moves, curr, seen + {next},
                     nextScores[next := moves[next]], bt[next := curr])
  {
    var nextScores', bt' := nextScores[next := moves[next]], bt[next := curr];
    assert nextScores'.Keys == nextScores.Keys + {next} && bt'.Keys == bt.Keys + {next};
    assert Untouched(scores, pointers, nextScores, bt, next);
    assert Relaxed(scores, pointers, moves, curr, nextScores', bt', next);
    forall n | n !in seen + {next}
      ensures Untouched(scores, pointers, nextScores', bt', n)
    {
      assert Untouched(scores, pointers, nextScores, bt, n);
    }
    forall n | n in seen + {next}
      ensures Relaxed(scores, pointers, moves, curr, nextScores', bt', n)
    {
      if n != next {
        assert Relaxed(scores, pointers, moves, curr, nextScores, bt, n);
      }
    }
  }

  /** A move that does not beat the recorded score changes nothing. */
  lemma RelaxKeep(scores: map<string, real>, pointers: map<string, string>,
                  moves: map<string, real>, curr: string, seen: set<string>,
                  nextScores: map<string, real>, bt: map<string, string>, next: string)
    requires next in moves && next !in seen && Relaxing(scores, pointers, moves, curr, seen, nextScores, bt)
    requires next in nextScores && moves[next] <= nextScores[next]
    ensures Relaxing(scores, pointers, moves, curr, seen + {next}, nextScores, bt)
  {
    assert Untouched(scores, pointers, nextScores, bt, next);
    forall n | n in seen + {next}
      ensures Relaxed(scores, pointers, moves, curr, nextScores, bt, n)
    {
      if n != next {
        assert n in seen;
      }
    }
  }

  /**
   * After every move out of `curr` is compared: every entry is backpointed,
   * no score went down, and no move out of `curr` beats its target's score.
   */
  lemma RelaxDone(hmm: Hmm, currScores: map<string, real>, curr: string, word: string,
                  scores: map<string, real>, pointers: map<string, string>,
                  nextScores: map<string, real>, bt: map<string, string>)
    requires Decodable(hmm) && curr in currScores && curr in hmm.transitions
    requires Backpointed(hmm, currScores, word, scores, pointers)
    requires Relaxing(scores, pointers, Moves(hmm, currScores, curr, word), curr,
                      hmm.transitions[curr].Keys, nextScores, bt)
    ensures Backpointed(hmm, currScores, word, nextScores, bt)
    ensures forall n :: n in scores ==> scores[n] <= nextScores[n]
    ensures forall n :: n in hmm.transitions[curr] ==> currScores[curr] + Step(hmm, curr, n, word) <= nextScores[n]
  {
    var moves := Moves(hmm, currScores, curr, word);
    forall n | n in scores ensures scores[n] <= nextScores[n] {
      if n in hmm.transitions[curr] {
        assert Relaxed(scores, pointers, moves, curr, nextScores, bt, n);
      } else {
        assert Untouched(scores, pointers, nextScores, bt, n);
      }
    }
    forall n | n in hmm.transitions[curr]
      ensures currScores[curr] + Step(hmm, curr, n, word) <= nextScores[n]
    {
      assert Relaxed(scores, pointers, moves, curr, nextScores, bt, n);
    }
    forall n | n in bt
      ensures && bt[n] in currScores && bt[n] in hmm.transitions && n in hmm.transitions[bt[n]]
              && n in nextScores && nextScores[n] == currScores[bt[n]] + Step(hmm, bt[n], n, word)
    {
      if n in hmm.transitions[curr] {
        assert Relaxed(scores, pointers, moves, curr, nextScores, bt, n);
      } else {
        assert Untouched(scores, pointers, nextScores, bt, n);
      }
    }
  }

  /** The frontier tag with the highest score, or nothing when the frontier is empty. */
  method BestFinal(scores: map<string, real>) returns (tracer: Option<string>)
    ensures tracer.None? <==> scores == map[]
    ensures tracer.Some? ==> tracer.value in scores && forall t :: t in scores ==> scores[t] <= scores[tracer.value]
  {
    tracer := None;
    var tags := scores.Keys;
    while tags != {}
      invariant tags <= scores.Keys
      invariant tracer.None? <==> tags == scores.Keys
      invariant tracer.Some? ==>
        && tracer.value in scores
        && forall t :: t in scores && t !in tags ==> scores[t] <= scores[tracer.value]
      decreases tags
    {
      var tag :| tag in tags;
      if tracer.None? || scores[tag] > scores[tracer.value] {
        tracer := Some(tag);
      }
      tags := tags - {tag};
    }
    if tracer.None? {
      assert scores.Keys == {};
    }
  }

  /**
   * Walks the backpointers from the last step to the first, pushing each
   * tag; the stack then holds the path first tag on top.
   */
  method Backtrack(backTrace: seq<map<string, string>>, last: string) returns (tagStack: seq<string>)
    requires Linked(backTrace) && Ends(backTrace, last)
    ensures tagStack == Trace(backTrace, last)
  {
    tagStack := [];
    var tracer := last;
    for i := |backTrace| downto 0
      invariant EndsAt(backTrace, i, tracer)
      invariant TraceTo(backTrace, i, tracer) + tagStack == Trace(backTrace, last)
    {
      tagStack := [tracer] + tagStack;  // push
      tracer := backTrace[i][tracer];
    }
  }

  /** Pops the stack into a string builder, a space after every tag but the last, then upper-cases. */
  method Spell(tagStack: seq<string>) returns (s: string)
    requires tagStack != []
    ensures s == Render(tagStack)
  {
    var stack := tagStack;
    var allTags := "";
    while |stack| > 1
      invariant stack != [] && allTags + Join(stack) == Join(tagStack)
      decreases |stack|
    {
      assert Join(stack) == stack[0] + " " + Join(stack[1..]);
      allTags := allTags + stack[0] + " ";  // pop
      stack := stack[1..];
    }
    allTags := allTags + stack[0];  // pop
    s := Upper(allTags);
  }

  /**
   * The decoder's state after `i` words: one backpointer map per word; the
   * scored tags are the frontier; each scored tag's backpointers trace a
   * path with the recorded score; and no path of length `i` ends in a tag
   * with a higher score than the recorded one.
   */
  ghost predicate Frontier(hmm: Hmm, words: seq<string>, i: nat, bts: seq<map<string, string>>,
                           scores: map<string, real>)
    requires Decodable(hmm) && i <= |words|
  {
    && |bts| == i && Linked(bts)
    && scores.Keys == Reach(hmm.transitions, i) && scores.Keys <= hmm.transitions.Keys
    && Traced(hmm, words, bts, scores)
    && Optimal(hmm, words, i, scores)
  }

  /** Each scored tag's backpointers trace a path whose score is the recorded one. */
  ghost predicate Traced(hmm: Hmm, words: seq<string>, bts: seq<map<string, string>>, scores: map<string, real>)
    requires Decodable(hmm) && |bts| <= |words| && Linked(bts)
  {
    && (forall t :: t in scores ==> Ends(bts, t))
    && (forall t :: t in scores ==>
          IsPath(hmm.transitions, Trace(bts, t)) && Score(hmm, words, Trace(bts, t)) == scores[t])
  }

  /** No path of length `i` scores more than the recorded score of the tag it ends in. */
  ghost predicate Optimal(hmm: Hmm, words: seq<string>, i: nat, scores: map<string, real>)
    requires Decodable(hmm) && i <= |words|
  {
    forall p :: |p| == i ==> Bounded(hmm, words, scores, p)
  }

  /** If `p` is a path, its last tag is scored and `p` scores no more than the recorded score. */
  ghost predicate Bounded(hmm: Hmm, words: seq<string>, scores: map<string, real>, p: seq<string>)
    requires Decodable(hmm) && |p| <= |words|
  {
    IsPath(hmm.transitions, p) ==> Last(p) in scores && Score(hmm, words, p) <= scores[Last(p)]
  }

  /** One step of the forward pass carries the decoder's state from `i` words to `i + 1`. */
  lemma FrontierStep(hmm: Hmm, words: seq<string>, i: nat, bts: seq<map<string, string>>,
                     currScores: map<string, real>, nextScores: map<string, real>, bt: map<string, string>)
    requires Decodable(hmm) && i < |words| && Frontier(hmm, words, i, bts, currScores)
    requires nextScores.Keys == bt.Keys == Successors(hmm.transitions, currScores.Keys)
    requires forall n :: n in bt ==>
      && bt[n] in currScores && n in hmm.transitions[bt[n]]
      && nextScores[n] == currScores[bt[n]] + Step(hmm, bt[n], n, words[i])
    requires forall c, n :: c in currScores && n in hmm.transitions[c] ==>
      currScores[c] + Step(hmm, c, n, words[i]) <= nextScores[n]
    ensures Frontier(hmm, words, i + 1, bts + [bt], nextScores)
  {
    LinkedSnoc(bts, bt);
    SuccessorsHaveRows(hmm, currScores.Keys);
    TracedStep(hmm, words, i, bts, currScores, nextScores, bt);
    forall c, n ensures Covers(hmm, currScores, words[i], nextScores, c, n) {
    }
    OptimalStep(hmm, words, i, currScores, nextScores);
  }

  /** If `c` is scored and moves to `n`, the score through `c` does not exceed the one recorded for `n`. */
  ghost predicate Covers(hmm: Hmm, currScores: map<string, real>, word: string,
                         nextScores: map<string, real>, c: string, n: string)
    requires Decodable(hmm)
  {
    c in currScores && c in hmm.transitions && n in hmm.transitions[c] ==>
      n in nextScores && currScores[c] + Step(hmm, c, n, word) <= nextScores[n]
  }

  /** Each newly scored tag traces, through its backpointer, a path with the recorded score. */
  lemma TracedStep(hmm: Hmm, words: seq<string>, i: nat, bts: seq<map<string, string>>,
                   currScores: map<string, real>, nextScores: map<string, real>, bt: map<string, string>)
    requires Decodable(hmm) && i < |words| && |bts| == i && Linked(bts) && Linked(bts + [bt])
    requires Traced(hmm, words, bts, currScores)
    requires nextScores.Keys == bt.Keys
    requires forall n :: n in bt ==>
      && bt[n] in currScores && bt[n] in hmm.transitions && n in hmm.transitions[bt[n]]
      && nextScores[n] == currScores[bt[n]] + Step(hmm, bt[n], n, words[i])
    ensures Traced(hmm, words, bts + [bt], nextScores)
  {
    forall t | t in nextScores
      ensures Ends(bts + [bt], t)
      ensures IsPath(hmm.transitions, Trace(bts + [bt], t)) && Score(hmm, words, Trace(bts + [bt], t)) == nextScores[t]
    {
      TracedOne(hmm, words, bts, bt, t);
    }
  }

  lemma TracedOne(hmm: Hmm, words: seq<string>, bts: seq<map<string, string>>, bt: map<string, string>, t: string)
    requires Decodable(hmm) && |bts| < |words| && Linked(bts) && Linked(bts + [bt]) && t in bt
    requires Ends(bts, bt[t]) && IsPath(hmm.transitions, Trace(bts, bt[t]))
    requires bt[t] in hmm.transitions && t in hmm.transitions[bt[t]]
    ensures Ends(bts + [bt], t)
    ensures IsPath(hmm.transitions, Trace(bts + [bt], t))
    ensures Score(hmm, words, Trace(bts + [bt], t)) == Score(hmm, words, Trace(bts, bt[t])) + Step(hmm, bt[t], t, words[|bts|])
  {
    TraceSnoc(bts, bt, t);
    var p := Trace(bts, bt[t]);
    PathSnoc(hmm.transitions, p, t);
    ScoreSnoc(hmm, words, p, t);
  }

  /** No path one word longer beats the newly recorded score of the tag it ends in. */
  lemma OptimalStep(hmm: Hmm, words: seq<string>, i: nat,
                    currScores: map<string, real>, nextScores: map<string, real>)
    requires Decodable(hmm) && i < |words| && Optimal(hmm, words, i, currScores)
    requires forall c, n :: Covers(hmm, currScores, words[i], nextScores, c, n)
    ensures Optimal(hmm, words, i + 1, nextScores)
  {
    forall q | |q| == i + 1
      ensures Bounded(hmm, words, nextScores, q)
    {
      OptimalOne(hmm, words, i, currScores, nextScores, q);
    }
  }

  lemma OptimalOne(hmm: Hmm, words: seq<string>, i: nat,
                   currScores: map<string, real>, nextScores: map<string, real>, q: seq<string>)
    requires Decodable(hmm) && i < |words| && Optimal(hmm, words, i, currScores)
    requires forall c, n :: Covers(hmm, currScores, words[i], nextScores, c, n)
    requires |q| == i + 1
    ensures Bounded(hmm, words, nextScores, q)
  {
    if IsPath(hmm.transitions, q) {
      var p, n := q[..i], q[i];
      assert q == p + [n];
      ScoreSnoc(hmm, words, p, n);
      assert Bounded(hmm, words, currScores, p);
      var c := Last(p);
      assert Covers(hmm, currScores, words[i], nextScores, c, n);
      assert Score(hmm, words, q) == Score(hmm, words, p) + Step(hmm, c, n, words[i]);
    }
  }

  /** Before any word only the start pseudo-tag is scored, with score 0. */
  lemma FrontierStart(hmm: Hmm, words: seq<string>)
    requires Decodable(hmm)
    ensures Frontier(hmm, words, 0, [], map[Start := 0.0])
  {
    var scores := map[Start := 0.0];
    forall p | |p| == 0
      ensures Bounded(hmm, words, scores, p)
    {
      assert p == [];
    }
  }

  /** After the last word, the backpointers of a best-scored tag trace a best path. */
  lemma FrontierBest(hmm: Hmm, words: seq<string>, bts: seq<map<string, string>>,
                     scores: map<string, real>, t: string, p: seq<string>)
    requires Decodable(hmm) && Frontier(hmm, words, |words|, bts, scores)
    requires t in scores && forall u :: u in scores ==> scores[u] <= scores[t]
    requires Linked(bts) && Ends(bts, t) && p == Trace(bts, t)
    ensures BestPath(hmm, words, p)
  {
    forall q | |q| == |words| && IsPath(hmm.transitions, q)
      ensures Score(hmm, words, q) <= Score(hmm, words, p)
    {
      assert Bounded(hmm, words, scores, q);
    }
  }

  /**
   * The forward pass: starting from the start pseudo-tag with score 0, one
   * step per word, keeping each step's backpointers.
   */
  method ForwardPass(hmm: Hmm, words: seq<string>) returns (backTrace: seq<map<string, string>>, currScores: map<string, real>)
    requires Decodable(hmm)
    ensures Frontier(hmm, words, |words|, backTrace, currScores)
  {
    currScores := map[Start := 0.0];
    backTrace := [];
    FrontierStart(hmm, words);
    for i := 0 to |words|
      invariant Frontier(hmm, words, i, backTrace, currScores)
    {
      var nextScores, bt := Advance(hmm, currScores, words[i]);
      FrontierStep(hmm, words, i, backTrace, currScores, nextScores, bt);
      backTrace := backTrace + [bt];
      currScores := nextScores;
    }
  }

  /**
   * The forward pass over the words, then the walk back from the best final
   * tag. Fails when no tag is reachable after the last word.
   */
  method Decode(hmm: Hmm, words: seq<string>) returns (r: Result<seq<string>, DecodeError>)
    requires Decodable(hmm) && words != []
    ensures r.Failure? <==> Reach(hmm.transitions, |words|) == {}
    ensures r.Success? ==> BestPath(hmm, words, r.value)
  {
    var backTrace, currScores := ForwardPass(hmm, words);
    var tracer := BestFinal(currScores);
    if tracer.None? {
      return Failure(DeadEnd);
    }
    var tagStack := Backtrack(backTrace, tracer.value);
    FrontierBest(hmm, words, backTrace, currScores, tracer.value, tagStack);
    return Success(tagStack);
  }

  /**
   * Tags one line: case-folds and splits it, answers the empty string when
   * there are no words, and otherwise decodes the words and spells out the
   * best path, upper-cased and space-separated.
   */
  method TagLine(hmm: Hmm, line: string) returns (r: Result<string, DecodeError>)
    requires Decodable(hmm)
    ensures Tokens(line) == [] ==> r == Success("")
    ensures r.Failure? <==> Tokens(line) != [] && Reach(hmm.transitions, |Tokens(line)|) == {}
    ensures r.Success? && Tokens(line) != [] ==>
      exists p :: BestPath(hmm, Tokens(line), p) && r.value == Render(p)
  {
    var toTag := Split(Lower(line));
    if |toTag| == 0 {
      return Success("");
    }
    var decoded := Decode(hmm, toTag);
    if decoded.Failure? {
      return Failure(decoded.error);
    }
    var path := decoded.value;
    var allTags := Spell(path);
    return Success(allTags);
  }
}
