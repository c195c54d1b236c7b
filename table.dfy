/**
 * The data model of the subscription table. A policy row carries the claim
 * count N_SINISTRE, the policy start and end dates (as integer day numbers,
 * already converted) and every other column as an opaque map from column
 * name to cell text. A frame is a pandas DataFrame: a sequence of index
 * labels beside the sequence of rows.
 */
module Table {

  datatype Row = Row(nSinistre: int, debutPolice: int, finPolice: int, others: map<string, string>)

  datatype Frame = Frame(index: seq<nat>, rows: seq<Row>)

  /** The errors the script's library calls raise on the inputs modelled here. */
  datatype Error =
    | NegativeRepeats     // numpy repeat: a repetition count below zero
    | KeyError(key: nat) // .loc: a label that is not in the index
    | EmptyDrawRange      // numpy randint: some draw range [low, high) is empty

  ghost predicate WellFormed(f: Frame) {
    |f.index| == |f.rows|
  }

  /** A fresh RangeIndex 0, 1, ..., n - 1. */
  function Range(n: nat): (r: seq<nat>)
    ensures |r| == n && forall i :: 0 <= i < n ==> r[i] == i
  {
    seq(n, i requires 0 <= i < n => i)
  }

  ghost predicate StrictlyIncreasing(s: seq<nat>) {
    forall i, j :: 0 <= i < j < |s| ==> s[i] < s[j]
  }

  /** Row x stands in f under label l. */
  ghost predicate HasEntry(f: Frame, l: nat, x: Row)
    requires WellFormed(f)
  {
    exists i :: 0 <= i < |f.rows| && f.index[i] == l && f.rows[i] == x
  }

  /** The frame with one more entry in front. */
  function Cons(l: nat, x: Row, f: Frame): (r: Frame)
    requires WellFormed(f)
    ensures WellFormed(r) && |r.rows| == |f.rows| + 1
  {
    Frame([l] + f.index, [x] + f.rows)
  }

  lemma ConsEntry(l0: nat, x0: Row, f: Frame, l: nat, x: Row)
    requires WellFormed(f)
    ensures HasEntry(Cons(l0, x0, f), l, x) <==> (l == l0 && x == x0) || HasEntry(f, l, x)
  {
    var r := Cons(l0, x0, f);
    if HasEntry(r, l, x) && !(l == l0 && x == x0) {
      var i :| 0 <= i < |r.rows| && r.index[i] == l && r.rows[i] == x;
      assert f.index[i - 1] == l && f.rows[i - 1] == x;
    }
    if HasEntry(f, l, x) {
      var i :| 0 <= i < |f.rows| && f.index[i] == l && f.rows[i] == x;
      assert r.index[i + 1] == l && r.rows[i + 1] == x;
    }
    assert r.index[0] == l0 && r.rows[0] == x0;
  }

  /** The frame without its first entry. */
  function Tail(f: Frame): (r: Frame)
    requires WellFormed(f) && |f.rows| > 0
    ensures WellFormed(r) && |r.rows| == |f.rows| - 1
    ensures f == Cons(f.index[0], f.rows[0], r)
  {
    Frame(f.index[1..], f.rows[1..])
  }

  /** The N_SINISTRE column. */
  function Counts(rows: seq<Row>): (r: seq<int>)
    ensures |r| == |rows| && forall i :: 0 <= i < |rows| ==> r[i] == rows[i].nSinistre
  {
    seq(|rows|, i requires 0 <= i < |rows| => rows[i].nSinistre)
  }
}
