/**
 * What the decoder is specified against: tag paths that follow recorded
 * transitions from the start pseudo-tag, their scores for a sentence, the
 * tags reachable after a number of steps, and the paths recorded by a
 * sequence of backpointer maps.
 */
module Paths {
  import opened Tables

  /** The weight of emitting `word` at tag `n`: the trained weight, or the unseen penalty. */
  function Emission(hmm: Hmm, n: string, word: string): (r: real)
    requires n in hmm.observations
    ensures word !in hmm.observations[n] ==> r == Unseen
  {
    if word in hmm.observations[n] then hmm.observations[n][word] else Unseen
  }

  /** The score gained by moving from tag `c` to tag `n` while reading `word`. */
  function Step(hmm: Hmm, c: string, n: string, word: string): real
    requires Decodable(hmm) && c in hmm.transitions && n in hmm.transitions[c]
  {
    hmm.transitions[c][n] + Emission(hmm, n, word)
  }

  /** The tag a path ends in; the empty path ends in the start pseudo-tag. */
  function Last(p: seq<string>): string {
    if p == [] then Start else p[|p| - 1]
  }

  /** Every tag of `p` is a recorded transition from the one before it (from the start for the first). */
  predicate IsPath(trans: Table, p: seq<string>) {
    p == [] ||
    (var front := p[..|p| - 1];
     IsPath(trans, front) && Last(front) in trans && p[|p| - 1] in trans[Last(front)])
  }

  /** The score of a path for the first |p| words: the sum of its steps. */
  function Score(hmm: Hmm, words: seq<string>, p: seq<string>): real
    requires Decodable(hmm) && IsPath(hmm.transitions, p) && |p| <= |words|
  {
    if p == [] then 0.0
    else
      var front := p[..|p| - 1];
      Score(hmm, words, front) + Step(hmm, Last(front), p[|p| - 1], words[|p| - 1])
  }

  /** A path for the whole sentence whose score no other such path exceeds. */
  ghost predicate BestPath(hmm: Hmm, words: seq<string>, p: seq<string>)
    requires Decodable(hmm)
  {
    && |p| == |words| && IsPath(hmm.transitions, p)
    && forall q :: |q| == |words| && IsPath(hmm.transitions, q) ==>
         Score(hmm, words, q) <= Score(hmm, words, p)
  }

  /** The tags reachable in one recorded transition from a tag of `from`. */
  function Successors(trans: Table, from: set<string>): set<string> {
    set c, n | c in from && c in trans && n in trans[c] :: n
  }

  /** The frontier after `k` words: the tags reachable from the start in `k` transitions. */
  function Reach(trans: Table, k: nat): set<string> {
    if k == 0 then {Start} else Successors(trans, Reach(trans, k - 1))
  }

  /** In a decodable model every successor has a transition row of its own. */
  lemma SuccessorsHaveRows(hmm: Hmm, from: set<string>)
    requires Decodable(hmm)
    ensures Successors(hmm.transitions, from) <= hmm.transitions.Keys
  {
  }

  lemma SuccessorsAdd(trans: Table, from: set<string>, c: string)
    requires c in trans
    ensures Successors(trans, from + {c}) == Successors(trans, from) + trans[c].Keys
  {
  }

  lemma PathSnoc(trans: Table, p: seq<string>, n: string)
    ensures (p + [n])[..|p|] == p
    ensures Last(p + [n]) == n
    ensures IsPath(trans, p + [n]) <==> IsPath(trans, p) && Last(p) in trans && n in trans[Last(p)]
  {
    assert (p + [n])[..|p|] == p;
  }

  lemma ScoreSnoc(hmm: Hmm, words: seq<string>, p: seq<string>, n: string)
    requires Decodable(hmm) && IsPath(hmm.transitions, p + [n]) && |p| < |words|
    ensures IsPath(hmm.transitions, p) && Last(p) in hmm.transitions && n in hmm.transitions[Last(p)]
    ensures Score(hmm, words, p + [n]) == Score(hmm, words, p) + Step(hmm, Last(p), n, words[|p|])
  {
    PathSnoc(hmm.transitions, p, n);
  }

  /** Every tag in the frontier after `k` words ends some path of length `k`. */
  lemma {:induction false} ReachHasPath(trans: Table, k: nat, t: string) returns (p: seq<string>)
    requires t in Reach(trans, k)
    ensures |p| == k && IsPath(trans, p) && Last(p) == t
  {
    if k == 0 {
      p := [];
    } else {
      var c :| c in Reach(trans, k - 1) && c in trans && t in trans[c];
      var front := ReachHasPath(trans, k - 1, c);
      PathSnoc(trans, front, t);
      p := front + [t];
    }
  }

  /** The last tag of every path of length `k` is in the frontier after `k` words. */
  lemma {:induction false} PathReaches(trans: Table, p: seq<string>)
    requires IsPath(trans, p)
    ensures Last(p) in Reach(trans, |p|)
  {
    if p != [] {
      var front := p[..|p| - 1];
      PathReaches(trans, front);
      assert p == front + [p[|p| - 1]];
    }
  }

  /**
   * A tag is in the frontier after `k` words exactly when some path of
   * length `k` following recorded transitions ends in it.
   */
  lemma ReachIffPath(trans: Table, k: nat, t: string)
    ensures t in Reach(trans, k) <==> exists p :: |p| == k && IsPath(trans, p) && Last(p) == t
  {
    if t in Reach(trans, k) {
      var p := ReachHasPath(trans, k, t);
    }
    forall p | |p| == k && IsPath(trans, p) && Last(p) == t
      ensures t in Reach(trans, k)
    {
      PathReaches(trans, p);
    }
  }

  /** Once the frontier is empty it stays empty: no later word can be tagged. */
  lemma {:induction false} DeadEndPersists(trans: Table, k: nat, m: nat)
    requires Reach(trans, k) == {}
    ensures Reach(trans, k + m) == {}
  {
    if m > 0 {
      DeadEndPersists(trans, k, m - 1);
      assert Reach(trans, k + m) == Successors(trans, Reach(trans, k + m - 1));
    }
  }

  /** The tag `t` is a possible end of the first `i` steps of `bts`: a key of step `i - 1`, or the start when `i` is 0. */
  predicate EndsAt(bts: seq<map<string, string>>, i: nat, t: string)
    requires i <= |bts|
  {
    if i == 0 then t == Start else t in bts[i - 1]
  }

  /** The tag `t` is a possible end of all of `bts`. */
  predicate Ends(bts: seq<map<string, string>>, t: string) {
    EndsAt(bts, |bts|, t)
  }

  /** Each backpointer of step `j` names a key of step `j - 1` (the start pseudo-tag for step 0). */
  predicate Linked(bts: seq<map<string, string>>) {
    forall j, t {:trigger bts[j][t]} :: 0 <= j < |bts| && t in bts[j] ==> (if j == 0 then bts[j][t] == Start else bts[j][t] in bts[j - 1])
  }

  /** The path recorded by following backpointers from `t` at step `i - 1` back to the start. */
  function TraceTo(bts: seq<map<string, string>>, i: nat, t: string): (p: seq<string>)
    requires Linked(bts) && i <= |bts| && EndsAt(bts, i, t)
    ensures |p| == i && Last(p) == t
  {
    if i == 0 then [] else TraceTo(bts, i - 1, bts[i - 1][t]) + [t]
  }

  /** The path recorded by following backpointers from `t` at the last step back to the start. */
  function Trace(bts: seq<map<string, string>>, t: string): (p: seq<string>)
    requires Linked(bts) && Ends(bts, t)
    ensures |p| == |bts| && Last(p) == t
  {
    TraceTo(bts, |bts|, t)
  }

  /** A linked sequence stays linked without its last step. */
  lemma LinkedFront(bts: seq<map<string, string>>, bt: map<string, string>)
    requires Linked(bts + [bt])
    ensures Linked(bts)
  {
    var all := bts + [bt];
    forall j, u | 0 <= j < |bts| && u in bts[j]
      ensures if j == 0 then bts[j][u] == Start else bts[j][u] in bts[j - 1]
    {
      assert all[j] == bts[j];
      if j > 0 {
        assert all[j - 1] == bts[j - 1];
      }
    }
  }

  /** Appending a step does not change the paths traced through the earlier steps. */
  lemma {:induction false} TraceToSnoc(bts: seq<map<string, string>>, bt: map<string, string>, i: nat, t: string)
    requires Linked(bts + [bt]) && Linked(bts) && i <= |bts| && EndsAt(bts, i, t)
    ensures EndsAt(bts + [bt], i, t)
    ensures TraceTo(bts + [bt], i, t) == TraceTo(bts, i, t)
  {
    var all := bts + [bt];
    if i > 0 {
      assert all[i - 1] == bts[i - 1];
      TraceToSnoc(bts, bt, i - 1, bts[i - 1][t]);
    }
  }

  lemma TraceSnoc(bts: seq<map<string, string>>, bt: map<string, string>, t: string)
    requires Linked(bts + [bt]) && t in bt
    ensures Linked(bts) && Ends(bts, bt[t])
    ensures Trace(bts + [bt], t) == Trace(bts, bt[t]) + [t]
  {
    var all := bts + [bt];
    assert all[|bts|] == bt;
    LinkedFront(bts, bt);
    if bts != [] {
      assert all[|bts| - 1] == bts[|bts| - 1];
    }
    TraceToSnoc(bts, bt, |bts|, bt[t]);
  }

  /** Appending a step whose backpointers all name possible ends keeps the backpointers linked. */
  lemma LinkedSnoc(bts: seq<map<string, string>>, bt: map<string, string>)
    requires Linked(bts) && forall t :: t in bt ==> Ends(bts, bt[t])
    ensures Linked(bts + [bt])
  {
    var all := bts + [bt];
    forall j, t | 0 <= j < |all| && t in all[j]
      ensures if j == 0 then all[j][t] == Start else all[j][t] in all[j - 1]
    {
      if j < |bts| {
        assert all[j] == bts[j];
        if j > 0 {
          assert all[j - 1] == bts[j - 1];
        }
      } else {
        assert all[j] == bt;
        if j > 0 {
          assert all[j - 1] == bts[|bts| - 1];
        }
      }
    }
  }
}
