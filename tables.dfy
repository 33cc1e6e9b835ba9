/**
 * The tagger's nested tables: outer tag -> (inner key -> value). The same
 * shape holds raw counts while training and log-probabilities afterwards,
 * as the Java maps of Double do.
 */
module Tables {

  type Table = map<string, map<string, real>>

  /** The start pseudo-tag, the source of every line's first transition. */
  const Start: string := "#"

  /** Score of a word the candidate tag never emitted in training. */
  const Unseen: real := -100.0

  /** `a -> b` is recorded in the table. */
  predicate Arc(t: Table, a: string, b: string) {
    a in t && b in t[a]
  }

  /** The value stored for `a -> b`, or 0 when nothing is stored. */
  function Get(t: Table, a: string, b: string): real {
    if Arc(t, a, b) then t[a][b] else 0.0
  }

  /** Every stored value is positive, as every stored count is. */
  predicate Positive(t: Table) {
    forall a, b :: a in t && b in t[a] ==> t[a][b] > 0.0
  }

  /** The sum of the values of one row, in no particular order. */
  ghost function Total(m: map<string, real>): real
    decreases |m|
  {
    if m == map[] then 0.0
    else
      var k :| k in m;
      assert |m - {k}| < |m| by { assert m.Keys == (m - {k}).Keys + {k}; }
      m[k] + Total(m - {k})
  }

  /** The total does not depend on which key is taken out first. */
  lemma {:induction false} TotalRemove(m: map<string, real>, x: string)
    requires x in m
    ensures Total(m) == m[x] + Total(m - {x})
    decreases |m|
  {
    var k :| k in m && Total(m) == m[k] + Total(m - {k});
    if k != x {
      assert (m - {k}).Keys == m.Keys - {k};
      assert |m - {k}| < |m| by { assert m.Keys == (m - {k}).Keys + {k}; }
      assert |m - {x}| < |m| by { assert m.Keys == (m - {x}).Keys + {x}; }
      TotalRemove(m - {k}, x);
      TotalRemove(m - {x}, k);
      assert m - {k} - {x} == m - {x} - {k};
    }
  }

  /** A non-empty row of positive values has a positive total. */
  lemma {:induction false} TotalPositive(m: map<string, real>)
    requires forall b :: b in m ==> m[b] > 0.0
    ensures m == map[] <==> Total(m) == 0.0
    ensures m != map[] ==> Total(m) > 0.0
    decreases |m|
  {
    if m != map[] {
      var k :| k in m;
      TotalRemove(m, k);
      assert |m - {k}| < |m| by { assert m.Keys == (m - {k}).Keys + {k}; }
      TotalPositive(m - {k});
    }
  }

  /**
   * One more occurrence of `a -> b`: a new row for an unseen `a`, a new
   * entry of 1 for an unseen `b`, otherwise the stored count plus one.
   */
  function Bump(t: Table, a: string, b: string): (r: Table)
    ensures r.Keys == t.Keys + {a}
    ensures forall x :: x in t && x != a ==> r[x] == t[x]
    ensures r[a].Keys == (if a in t then t[a].Keys else {}) + {b}
    ensures forall x, y :: Get(r, x, y) == Get(t, x, y) + (if x == a && y == b then 1.0 else 0.0)
  {
    if a !in t then t[a := map[b := 1.0]]
    else if b !in t[a] then t[a := t[a][b := 1.0]]
    else t[a := t[a][b := t[a][b] + 1.0]]
  }

  /** A row for `a`, empty when `a` had none: the table for a line-final tag. */
  function EnsureRow(t: Table, a: string): (r: Table)
    ensures r.Keys == t.Keys + {a}
    ensures forall x :: x in t ==> r[x] == t[x]
    ensures forall x, y :: Get(r, x, y) == Get(t, x, y)
    ensures a !in t ==> r[a] == map[]
  {
    if a !in t then t[a := map[]] else t
  }

  /** A trained model: emission weights and transition weights. */
  datatype Hmm = Hmm(observations: Table, transitions: Table)

  /**
   * What the decoder needs to never look up a missing row: the start
   * pseudo-tag has a transition row, and every transition target has a
   * transition row and an emission row.
   */
  predicate Decodable(hmm: Hmm) {
    && Start in hmm.transitions
    && forall a, b :: a in hmm.transitions && b in hmm.transitions[a] ==>
         b in hmm.transitions && b in hmm.observations
  }
}
