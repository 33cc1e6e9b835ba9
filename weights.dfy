/**
 * Turning count tables into log-probability tables: every count becomes
 * the log of its share of its row's total. The logarithm is a parameter.
 */
module Weights {
  import opened Tables

  /** Every value of a row divided by the row's total. */
  ghost function Ratios(m: map<string, real>): (r: map<string, real>)
    requires forall b :: b in m ==> m[b] > 0.0
    ensures r.Keys == m.Keys
    ensures forall b :: b in m ==> Total(m) > 0.0 && r[b] == m[b] / Total(m)
  {
    TotalPositive(m);
    map b | b in m :: m[b] / Total(m)
  }

  /** One row of weights: each count replaced by the log of its ratio. */
  ghost function WeighRow(row: map<string, real>, ln: real -> real): (r: map<string, real>)
    requires forall b :: b in row ==> row[b] > 0.0
    ensures r.Keys == row.Keys
    ensures forall b :: b in row ==> Total(row) > 0.0 && r[b] == ln(row[b] / Total(row))
  {
    var rs := Ratios(row);
    map b | b in row :: ln(rs[b])
  }

  /** The weight table of a count table: each count replaced by `ln(count / row total)`. */
  ghost function Normalise(freq: Table, ln: real -> real): (w: Table)
    requires Positive(freq)
    ensures w.Keys == freq.Keys
    ensures forall a :: a in freq ==> w[a].Keys == freq[a].Keys
    ensures forall a, b :: a in freq && b in freq[a] ==>
              Total(freq[a]) > 0.0 && w[a][b] == ln(freq[a][b] / Total(freq[a]))
  {
    map a | a in freq :: WeighRow(freq[a], ln)
  }

  /** Division distributes over a sum; kept apart so the non-linear step is proved outside the map reasoning. */
  lemma DivAdd(x: real, y: real, d: real)
    requires d != 0.0
    ensures (x + y) / d == x / d + y / d
  {
  }

  /** Dividing every value of a row by `d` divides its total by `d`. */
  lemma {:induction false} TotalScale(m: map<string, real>, d: real)
    requires d != 0.0
    ensures Total(map b | b in m :: m[b] / d) == Total(m) / d
    decreases |m|
  {
    var s := map b | b in m :: m[b] / d;
    if m != map[] {
      var k :| k in m;
      TotalRemove(m, k);
      TotalRemove(s, k);
      assert |m - {k}| < |m| by { assert m.Keys == (m - {k}).Keys + {k}; }
      TotalScale(m - {k}, d);
      assert s - {k} == map b | b in m - {k} :: (m - {k})[b] / d;
      DivAdd(m[k], Total(m - {k}), d);
    }
  }

  /** A non-zero value divided by itself is one; kept apart for the same reason as `DivAdd`. */
  lemma DivSelf(t: real)
    requires t != 0.0
    ensures t / t == 1.0
  {
  }

  /** Under every row with counts, the ratios whose logs are stored sum to one. */
  lemma RatiosSumToOne(m: map<string, real>)
    requires forall b :: b in m ==> m[b] > 0.0
    requires m != map[]
    ensures Total(Ratios(m)) == 1.0
  {
    TotalPositive(m);
    var t := Total(m);
    TotalScale(m, t);
    var r := Ratios(m);
    var s := map b | b in m :: m[b] / t;
    assert r.Keys == s.Keys;
    forall b | b in r ensures r[b] == s[b] { }
    assert r == s;
    DivSelf(t);
  }

  /** Normalising keeps every row and every key, so a decodable model stays decodable. */
  lemma NormaliseDecodable(observations: Table, transitions: Table, ln: real -> real)
    requires Positive(observations) && Positive(transitions)
    requires Decodable(Hmm(observations, transitions))
    ensures Decodable(Hmm(Normalise(observations, ln), Normalise(transitions, ln)))
  {
  }

  /**
   * For each row, sum its values, then overwrite each value with the log of
   * its share of that sum. Rows and keys are visited in no particular order.
   */
  method FreqToWeight(freq: Table, ln: real -> real) returns (w: Table)
    requires Positive(freq)
    ensures w == Normalise(freq, ln)
  {
    w := freq;
    var outers := freq.Keys;
    while outers != {}
      invariant outers <= freq.Keys
      invariant w.Keys == freq.Keys
      invariant forall a :: a in outers ==> w[a] == freq[a]
      invariant forall a :: a in freq && a !in outers ==> w[a] == WeighRow(freq[a], ln)
      decreases outers
    {
      var outer :| outer in outers;
      var row := w[outer];
      var tot := RowTotal(row);
      var weighed := WeighInPlace(row, tot, ln);
      w := w[outer := weighed];
      outers := outers - {outer};
    }
    RowsWeighed(freq, ln, w);
  }

  /** A table holding the weighed version of every row of `freq` is the normalised table. */
  lemma RowsWeighed(freq: Table, ln: real -> real, w: Table)
    requires Positive(freq) && w.Keys == freq.Keys
    requires forall a :: a in freq ==> w[a] == WeighRow(freq[a], ln)
    ensures w == Normalise(freq, ln)
  {
  }

  /** Overwrites each value of a row with the log of its share of the row's total `tot`. */
  method WeighInPlace(row: map<string, real>, tot: real, ln: real -> real) returns (weighed: map<string, real>)
    requires forall b :: b in row ==> row[b] > 0.0
    requires tot == Total(row)
    ensures weighed == WeighRow(row, ln)
  {
    TotalPositive(row);
    weighed := row;
    var inners := row.Keys;
    while inners != {}
      invariant inners <= row.Keys
      invariant weighed.Keys == row.Keys
      invariant forall b :: b in inners ==> weighed[b] == row[b]
      invariant forall b :: b in row && b !in inners ==> weighed[b] == ln(row[b] / tot)
      decreases inners
    {
      var inner :| inner in inners;
      weighed := weighed[inner := ln(weighed[inner] / tot)];
      inners := inners - {inner};
    }
    WeighedIsRow(row, ln, tot, weighed);
  }

  /** A row whose every value was replaced by the log of its share of the total is the weighed row. */
  lemma WeighedIsRow(row: map<string, real>, ln: real -> real, tot: real, weighed: map<string, real>)
    requires forall b :: b in row ==> row[b] > 0.0
    requires tot == Total(row) && (row == map[] || tot > 0.0) && weighed.Keys == row.Keys
    requires forall b :: b in row ==> weighed[b] == ln(row[b] / tot)
    ensures weighed == WeighRow(row, ln)
  {
  }

  /** Sums the values of a row, visiting its keys in no particular order. */
  method RowTotal(row: map<string, real>) returns (tot: real)
    ensures tot == Total(row)
  {
    tot := 0.0;
    var inners := row.Keys;
    assert Restrict(row, inners) == row;
    while inners != {}
      invariant inners <= row.Keys
      invariant tot + Total(Restrict(row, inners)) == Total(row)
      decreases inners
    {
      var inner :| inner in inners;
      TotalRemove(Restrict(row, inners), inner);
      assert Restrict(row, inners) - {inner} == Restrict(row, inners - {inner});
      tot := tot + row[inner];
      inners := inners - {inner};
    }
    assert Restrict(row, {}) == map[];
  }

  /** The part of a row whose keys lie in `keys`. */
  function Restrict(m: map<string, real>, keys: set<string>): (r: map<string, real>)
    ensures r.Keys == m.Keys * keys
  {
    map b | b in m && b in keys :: m[b]
  }
}
