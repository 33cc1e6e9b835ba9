/**
 * What training counts. A corpus line is a pair of token sequences (words
 * and tags); the emissions and transitions of a corpus are multisets of
 * pairs, one per counted occurrence, and the count tables are read off them.
 */
module Corpus {
  import opened Text
  import opened Tables

  datatype Line = Line(words: seq<string>, tags: seq<string>)

  /** The corpus as the trainer reads it: each word line and tag line case-folded and split. */
  function Lines(corpus: seq<(string, string)>): (r: seq<Line>)
    ensures |r| == |corpus|
    ensures forall k :: 0 <= k < |corpus| ==> r[k] == Line(Tokens(corpus[k].0), Tokens(corpus[k].1))
  {
    seq(|corpus|, k requires 0 <= k < |corpus| => Line(Tokens(corpus[k].0), Tokens(corpus[k].1)))
  }

  /** Whether position `i` of a line is followed by a counted `tags[i] -> tags[i + 1]`. */
  predicate HasSuccessor(l: Line, i: nat) {
    i == 0 || i + 1 < |l.words|
  }

  /**
   * Training reads `tags[i]` at word position `i` and, when the position has
   * a successor, `tags[i + 1]`; these reads are in range.
   */
  predicate ReadsOk(l: Line, i: nat) {
    i < |l.tags| && (HasSuccessor(l, i) ==> i + 1 < |l.tags|)
  }

  /** Every read at the first `n` word positions is in range. */
  predicate Readable(l: Line, n: nat)
    ensures Readable(l, n) ==> n <= |l.words| && n <= |l.tags|
  {
    n <= |l.words| && (n == 0 || (Readable(l, n - 1) && ReadsOk(l, n - 1)))
  }

  /** Training gets through the whole line without an out-of-range read. */
  predicate Indexable(l: Line) {
    Readable(l, |l.words|)
  }

  predicate AllIndexable(lines: seq<Line>) {
    forall k :: 0 <= k < |lines| ==> Indexable(lines[k])
  }

  /** The (tag, word) pairs at the first `n` positions of a line. */
  function EmitPrefix(l: Line, n: nat): multiset<(string, string)>
    requires Readable(l, n)
  {
    if n == 0 then multiset{} else EmitPrefix(l, n - 1) + multiset{(l.tags[n - 1], l.words[n - 1])}
  }

  /** The transitions counted at position `i`: from the start pseudo-tag at 0, then to the next tag. */
  function MoveAt(l: Line, i: nat): multiset<(string, string)>
    requires i < |l.words| && ReadsOk(l, i)
  {
    (if i == 0 then multiset{(Start, l.tags[0])} else multiset{})
    + (if HasSuccessor(l, i) then multiset{(l.tags[i], l.tags[i + 1])} else multiset{})
  }

  function MovePrefix(l: Line, n: nat): multiset<(string, string)>
    requires Readable(l, n)
  {
    if n == 0 then multiset{} else MovePrefix(l, n - 1) + MoveAt(l, n - 1)
  }

  /** The tags at the first `n` word positions of a line. */
  function TagPrefix(l: Line, n: nat): set<string>
    requires Readable(l, n)
  {
    if n == 0 then {} else TagPrefix(l, n - 1) + {l.tags[n - 1]}
  }

  function Emissions(lines: seq<Line>): multiset<(string, string)>
    requires AllIndexable(lines)
  {
    if lines == [] then multiset{}
    else
      var l := lines[|lines| - 1];
      Emissions(lines[..|lines| - 1]) + EmitPrefix(l, |l.words|)
  }

  function Transitions(lines: seq<Line>): multiset<(string, string)>
    requires AllIndexable(lines)
  {
    if lines == [] then multiset{}
    else
      var l := lines[|lines| - 1];
      Transitions(lines[..|lines| - 1]) + MovePrefix(l, |l.words|)
  }

  /** The tags that occur at some word position of the corpus. */
  function TagSet(lines: seq<Line>): set<string>
    requires AllIndexable(lines)
  {
    if lines == [] then {}
    else
      var l := lines[|lines| - 1];
      TagSet(lines[..|lines| - 1]) + TagPrefix(l, |l.words|)
  }

  /** The number of lines with at least one word whose first tag is `a`. */
  function FirstTagCount(lines: seq<Line>, a: string): nat
    requires AllIndexable(lines)
  {
    if lines == [] then 0
    else
      var l := lines[|lines| - 1];
      FirstTagCount(lines[..|lines| - 1], a) + (if |l.words| > 0 && l.tags[0] == a then 1 else 0)
  }

  /** Counting one more line adds that line's pairs and tags to the corpus counts. */
  lemma CountsSnoc(lines: seq<Line>, k: nat)
    requires k < |lines| && AllIndexable(lines[..k]) && Indexable(lines[k])
    ensures AllIndexable(lines[..k + 1])
    ensures Emissions(lines[..k + 1]) == Emissions(lines[..k]) + EmitPrefix(lines[k], |lines[k].words|)
    ensures Transitions(lines[..k + 1]) == Transitions(lines[..k]) + MovePrefix(lines[k], |lines[k].words|)
    ensures TagSet(lines[..k + 1]) == TagSet(lines[..k]) + TagPrefix(lines[k], |lines[k].words|)
  {
    assert lines[..k + 1][..k] == lines[..k];
  }

  /** Counting one more position of a line adds its pairs and its tag. */
  lemma PrefixSnoc(l: Line, i: nat)
    requires Readable(l, i + 1)
    ensures Readable(l, i) && ReadsOk(l, i)
    ensures EmitPrefix(l, i + 1) == EmitPrefix(l, i) + multiset{(l.tags[i], l.words[i])}
    ensures MovePrefix(l, i + 1) == MovePrefix(l, i) + MoveAt(l, i)
    ensures TagPrefix(l, i + 1) == TagPrefix(l, i) + {l.tags[i]}
  {
  }

  /** Every pair of `ms` has its first component among `keys`. */
  ghost predicate Keyed(ms: multiset<(string, string)>, keys: set<string>) {
    forall p :: p in ms ==> p.0 in keys
  }

  /** The row of `a`: every `b` paired with `a` in `ms`, with its multiplicity. */
  ghost function Row(ms: multiset<(string, string)>, a: string): (r: map<string, real>)
    ensures forall b {:trigger b in r} :: b in r <==> (a, b) in ms
    ensures forall b {:trigger r[b]} :: b in r ==> r[b] == ms[(a, b)] as real
  {
    var bs := set p | p in ms && p.0 == a :: p.1;
    assert forall b :: (a, b) in ms ==> b in bs by {
      forall b | (a, b) in ms ensures b in bs { var p := (a, b); assert p in ms && p.0 == a; }
    }
    map b | b in bs :: ms[(a, b)] as real
  }

  /** The count table of a multiset of pairs, with a row for every key. */
  ghost function TableOf(ms: multiset<(string, string)>, keys: set<string>): (t: Table)
    ensures t.Keys == keys
    ensures forall a {:trigger t[a]} :: a in keys ==> t[a] == Row(ms, a)
  {
    map a | a in keys :: Row(ms, a)
  }

  /** The emission counts of a corpus: tag -> word -> number of positions. */
  ghost function EmissionCounts(lines: seq<Line>): Table
    requires AllIndexable(lines)
  {
    TableOf(Emissions(lines), TagSet(lines))
  }

  /** The transition counts of a corpus: tag -> next tag -> number of occurrences. */
  ghost function TransitionCounts(lines: seq<Line>): Table
    requires AllIndexable(lines)
  {
    TableOf(Transitions(lines), TagSet(lines) + {Start})
  }

  /** A table built from pairs stores exactly each pair's multiplicity. */
  lemma TableOfGet(ms: multiset<(string, string)>, keys: set<string>)
    requires Keyed(ms, keys)
    ensures forall x, y :: Get(TableOf(ms, keys), x, y) == ms[(x, y)] as real
  {
    forall x, y ensures Get(TableOf(ms, keys), x, y) == ms[(x, y)] as real {
      TableOfAt(ms, keys, x, y);
    }
  }

  /** The stored value of one pair is its multiplicity, when a pair with that first component is keyed. */
  lemma TableOfAt(ms: multiset<(string, string)>, keys: set<string>, x: string, y: string)
    requires (x, y) in ms ==> x in keys
    ensures Get(TableOf(ms, keys), x, y) == ms[(x, y)] as real
  {
  }

  /** Two tables with the same rows, the same keys in each row and the same values are equal. */
  lemma TableExt(s: Table, t: Table)
    requires s.Keys == t.Keys
    requires forall x :: x in s ==> s[x].Keys == t[x].Keys
    requires forall x, y :: Get(s, x, y) == Get(t, x, y)
    ensures s == t
  {
    forall x | x in s ensures s[x] == t[x] {
      forall y | y in s[x] ensures s[x][y] == t[x][y] {
        assert Get(s, x, y) == Get(t, x, y);
      }
    }
  }

  /** Counting one more pair is bumping its entry of the table. */
  lemma TableOfBump(ms: multiset<(string, string)>, keys: set<string>, a: string, b: string,
                    ms': multiset<(string, string)>, keys': set<string>)
    requires Keyed(ms, keys)
    requires ms' == ms + multiset{(a, b)} && keys' == keys + {a}
    ensures Keyed(ms', keys')
    ensures TableOf(ms', keys') == Bump(TableOf(ms, keys), a, b)
  {
    BumpRows(ms, keys, a, b, ms', keys');
    BumpEntries(ms, keys, a, b, ms', keys');
    TableExt(TableOf(ms', keys'), Bump(TableOf(ms, keys), a, b));
  }

  lemma BumpRows(ms: multiset<(string, string)>, keys: set<string>, a: string, b: string,
                 ms': multiset<(string, string)>, keys': set<string>)
    requires Keyed(ms, keys)
    requires ms' == ms + multiset{(a, b)} && keys' == keys + {a}
    ensures TableOf(ms', keys').Keys == Bump(TableOf(ms, keys), a, b).Keys
    ensures forall x :: x in TableOf(ms', keys') ==> TableOf(ms', keys')[x].Keys == Bump(TableOf(ms, keys), a, b)[x].Keys
  {
    forall x | x in keys' ensures TableOf(ms', keys')[x].Keys == Bump(TableOf(ms, keys), a, b)[x].Keys {
      BumpRow(ms, keys, a, b, ms', keys', x);
    }
  }

  lemma BumpRow(ms: multiset<(string, string)>, keys: set<string>, a: string, b: string,
                ms': multiset<(string, string)>, keys': set<string>, x: string)
    requires Keyed(ms, keys)
    requires ms' == ms + multiset{(a, b)} && keys' == keys + {a} && x in keys'
    ensures TableOf(ms', keys')[x].Keys == Bump(TableOf(ms, keys), a, b)[x].Keys
  {
    var u := TableOf(ms, keys);
    var t := Bump(u, a, b);
    var r := Row(ms', x);
    assert TableOf(ms', keys')[x] == r;
    if x != a {
      assert t[x] == u[x] == Row(ms, x);
      forall y ensures y in r <==> y in Row(ms, x) {
        assert (x, y) in ms' <==> (x, y) in ms;
      }
    } else {
      forall y ensures y in r <==> y in t[x] {
        if a !in keys {
          assert (a, y) !in ms;
        }
      }
    }
  }

  lemma BumpEntries(ms: multiset<(string, string)>, keys: set<string>, a: string, b: string,
                    ms': multiset<(string, string)>, keys': set<string>)
    requires Keyed(ms, keys)
    requires ms' == ms + multiset{(a, b)} && keys' == keys + {a}
    ensures forall x, y :: Get(TableOf(ms', keys'), x, y) == Get(Bump(TableOf(ms, keys), a, b), x, y)
  {
    var u := TableOf(ms, keys);
    var s := TableOf(ms', keys');
    var t := Bump(u, a, b);
    forall x, y ensures Get(s, x, y) == Get(t, x, y) {
      TableOfAt(ms, keys, x, y);
      TableOfAt(ms', keys', x, y);
      assert Get(t, x, y) == Get(u, x, y) + (if x == a && y == b then 1.0 else 0.0);
      assert ms'[(x, y)] == ms[(x, y)] + (if x == a && y == b then 1 else 0);
    }
  }

  /** Giving a line-final tag a row adds an empty row when the tag had none. */
  lemma TableOfEnsureRow(ms: multiset<(string, string)>, keys: set<string>, a: string, keys': set<string>)
    requires Keyed(ms, keys)
    requires keys' == keys + {a}
    ensures Keyed(ms, keys')
    ensures TableOf(ms, keys') == EnsureRow(TableOf(ms, keys), a)
  {
    var u := TableOf(ms, keys);
    var s := TableOf(ms, keys');
    var t := EnsureRow(u, a);
    forall x | x in s ensures s[x] == t[x] {
      if x == a && a !in keys {
        forall y ensures y !in s[a] {
          assert (a, y) !in ms;
        }
        assert s[a] == map[];
      } else {
        assert s[x] == Row(ms, x) == u[x];
      }
    }
    assert s.Keys == t.Keys;
  }

  /** Each stored count is a multiplicity of a pair that occurs, hence positive. */
  lemma TableOfPositive(ms: multiset<(string, string)>, keys: set<string>)
    ensures Positive(TableOf(ms, keys))
  {
  }

  lemma KeyedUnion(a: multiset<(string, string)>, ka: set<string>, b: multiset<(string, string)>, kb: set<string>)
    requires Keyed(a, ka) && Keyed(b, kb)
    ensures Keyed(a + b, ka + kb)
  {
  }

  /** The pairs counted before position `i` of a line are keyed by the tags seen so far. */
  lemma KeyedSoFar(l: Line, i: nat, emitted: multiset<(string, string)>, moved: multiset<(string, string)>,
                   seen: set<string>)
    requires Readable(l, i) && Keyed(emitted, seen) && Keyed(moved, seen + {Start})
    ensures Keyed(emitted + EmitPrefix(l, i), seen + TagPrefix(l, i))
    ensures Keyed(moved + MovePrefix(l, i), seen + TagPrefix(l, i) + {Start})
  {
    KeyedPrefix(l, i);
    KeyedUnion(emitted, seen, EmitPrefix(l, i), TagPrefix(l, i));
    KeyedUnion(moved, seen + {Start}, MovePrefix(l, i), TagPrefix(l, i) + {Start});
    assert seen + {Start} + (TagPrefix(l, i) + {Start}) == seen + TagPrefix(l, i) + {Start};
  }

  /** Counting position `i` of a line bumps the emission entry of its tag and word. */
  lemma EmitStep(l: Line, i: nat, emitted: multiset<(string, string)>, seen: set<string>)
    requires Readable(l, i + 1) && Keyed(emitted + EmitPrefix(l, i), seen + TagPrefix(l, i))
    ensures Readable(l, i) && i < |l.tags|
    ensures TableOf(emitted + EmitPrefix(l, i + 1), seen + TagPrefix(l, i + 1))
         == Bump(TableOf(emitted + EmitPrefix(l, i), seen + TagPrefix(l, i)), l.tags[i], l.words[i])
  {
    PrefixSnoc(l, i);
    TableOfBump(emitted + EmitPrefix(l, i), seen + TagPrefix(l, i), l.tags[i], l.words[i],
                emitted + EmitPrefix(l, i + 1), seen + TagPrefix(l, i + 1));
  }

  /** Counting the first position of a line bumps the start transition and the one to the second tag. */
  lemma MoveStepFirst(l: Line, moved: multiset<(string, string)>, seen: set<string>)
    requires Readable(l, 1) && Keyed(moved, seen + {Start})
    ensures 1 < |l.tags|
    ensures TableOf(moved + MovePrefix(l, 1), seen + TagPrefix(l, 1) + {Start})
         == Bump(Bump(TableOf(moved + MovePrefix(l, 0), seen + TagPrefix(l, 0) + {Start}), Start, l.tags[0]),
                 l.tags[0], l.tags[1])
  {
    PrefixSnoc(l, 0);
    var keys := seen + {Start};
    var tag := l.tags[0];
    var ms1 := moved + multiset{(Start, tag)};
    assert moved + MovePrefix(l, 0) == moved;
    assert seen + TagPrefix(l, 0) + {Start} == keys;
    TableOfBump(moved, keys, Start, tag, ms1, keys);
    assert moved + MovePrefix(l, 1) == ms1 + multiset{(tag, l.tags[1])};
    TableOfBump(ms1, keys, tag, l.tags[1], moved + MovePrefix(l, 1), seen + TagPrefix(l, 1) + {Start});
  }

  /** Counting an inner position of a line bumps the transition from its tag to the next. */
  lemma MoveStepInner(l: Line, i: nat, moved: multiset<(string, string)>, seen: set<string>)
    requires 0 < i && i + 1 < |l.words|
    requires Readable(l, i + 1) && Keyed(moved + MovePrefix(l, i), seen + TagPrefix(l, i) + {Start})
    ensures i + 1 < |l.tags|
    ensures TableOf(moved + MovePrefix(l, i + 1), seen + TagPrefix(l, i + 1) + {Start})
         == Bump(TableOf(moved + MovePrefix(l, i), seen + TagPrefix(l, i) + {Start}), l.tags[i], l.tags[i + 1])
  {
    PrefixSnoc(l, i);
    TableOfBump(moved + MovePrefix(l, i), seen + TagPrefix(l, i) + {Start}, l.tags[i], l.tags[i + 1],
                moved + MovePrefix(l, i + 1), seen + TagPrefix(l, i + 1) + {Start});
  }

  /** Counting the last position of a line of two or more words only gives its tag a row. */
  lemma MoveStepLast(l: Line, i: nat, moved: multiset<(string, string)>, seen: set<string>)
    requires 0 < i && i + 1 == |l.words|
    requires Readable(l, i + 1) && Keyed(moved + MovePrefix(l, i), seen + TagPrefix(l, i) + {Start})
    ensures i < |l.tags|
    ensures TableOf(moved + MovePrefix(l, i + 1), seen + TagPrefix(l, i + 1) + {Start})
         == EnsureRow(TableOf(moved + MovePrefix(l, i), seen + TagPrefix(l, i) + {Start}), l.tags[i])
  {
    PrefixSnoc(l, i);
    assert moved + MovePrefix(l, i + 1) == moved + MovePrefix(l, i);
    TableOfEnsureRow(moved + MovePrefix(l, i), seen + TagPrefix(l, i) + {Start}, l.tags[i],
                     seen + TagPrefix(l, i + 1) + {Start});
  }

  lemma {:induction false} ReadableMono(l: Line, m: nat, n: nat)
    requires m <= n && Readable(l, n)
    ensures Readable(l, m)
    decreases n
  {
    if m < n {
      ReadableMono(l, m, n - 1);
    }
  }

  /** An out-of-range read at some word position means the line cannot be read through. */
  lemma UnreadableAt(l: Line, i: nat)
    requires i < |l.words| && !ReadsOk(l, i)
    ensures !Indexable(l)
  {
    IndexableIff(l);
  }

  lemma {:induction false} ReadableIff(l: Line, n: nat)
    ensures Readable(l, n) <==>
      n <= |l.words| && (n == 0 || (2 <= |l.tags| && n <= |l.tags| && (n < |l.words| ==> n < |l.tags|)))
  {
    if n > 0 {
      ReadableIff(l, n - 1);
    }
  }

  /**
   * Training gets through a line exactly when the line has no words, or has
   * at least as many tags as words and at least two tags.
   */
  lemma IndexableIff(l: Line)
    ensures Indexable(l) <==> |l.words| == 0 || (|l.tags| >= |l.words| && |l.tags| >= 2)
  {
    ReadableIff(l, |l.words|);
  }

  lemma {:induction false} KeyedPrefix(l: Line, n: nat)
    requires Readable(l, n)
    ensures Keyed(EmitPrefix(l, n), TagPrefix(l, n))
    ensures Keyed(MovePrefix(l, n), TagPrefix(l, n) + {Start})
  {
    if n > 0 {
      KeyedPrefix(l, n - 1);
    }
  }

  lemma {:induction false} KeyedCorpus(lines: seq<Line>)
    requires AllIndexable(lines)
    ensures Keyed(Emissions(lines), TagSet(lines))
    ensures Keyed(Transitions(lines), TagSet(lines) + {Start})
  {
    if lines != [] {
      var l := lines[|lines| - 1];
      KeyedCorpus(lines[..|lines| - 1]);
      KeyedPrefix(l, |l.words|);
    }
  }
}
