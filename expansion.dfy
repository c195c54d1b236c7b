/**
 * Step 1 of the script: keep the policies with at least one claim, then
 * "explode" the table so that a policy with N_SINISTRE = n occupies n
 * consecutive rows, and give the result a fresh index.
 */
module Expansion {
  import opened Wrappers
  import opened Table

  /** n copies of x. */
  function Fill<T>(x: T, n: nat): (r: seq<T>)
    ensures |r| == n && forall k :: 0 <= k < n ==> r[k] == x
  {
    if n == 0 then [] else [x] + Fill(x, n - 1)
  }

  // ---------------------------------------------------------------------
  // Reference definitions: what the explosion is meant to produce.
  // ---------------------------------------------------------------------

  /** How many claim rows a policy row yields: its count when positive, else none. */
  function Claims(r: Row): nat {
    if r.nSinistre > 0 then r.nSinistre else 0
  }

  /** The sum of N_SINISTRE over the rows whose N_SINISTRE is positive. */
  function SumPositive(df: seq<Row>): nat {
    if df == [] then 0 else Claims(df[0]) + SumPositive(df[1..])
  }

  /** The plain sum of a column of counts. */
  function Sum(s: seq<int>): int {
    if s == [] then 0 else s[0] + Sum(s[1..])
  }

  /** One row per claim: each policy row repeated Claims times, in table order. */
  function Expanded(df: seq<Row>): seq<Row> {
    if df == [] then [] else Fill(df[0], Claims(df[0])) + Expanded(df[1..])
  }

  // ---------------------------------------------------------------------
  // The pandas and numpy operations of lines 13 and 17.
  // ---------------------------------------------------------------------

  /** `df[df['N_SINISTRE'] > 0]`: the entries with a positive count, labels kept. */
  function SelectPositive(f: Frame): (r: Frame)
    requires WellFormed(f)
    ensures WellFormed(r) && |r.rows| <= |f.rows|
    ensures forall k :: 0 <= k < |r.rows| ==> r.rows[k].nSinistre > 0
    ensures forall k :: 0 <= k < |r.rows| ==> r.index[k] in f.index
    ensures forall l, x :: HasEntry(r, l, x) <==> HasEntry(f, l, x) && x.nSinistre > 0
    ensures StrictlyIncreasing(f.index) ==> StrictlyIncreasing(r.index)
    decreases |f.rows|
  {
    if |f.rows| == 0 then f
    else
      var rest := SelectPositive(Tail(f));
      SelectStep(f, rest);
      if f.rows[0].nSinistre > 0 then Cons(f.index[0], f.rows[0], rest) else rest
  }

  /** The inductive step of SelectPositive's contract. */
  lemma SelectStep(f: Frame, rest: Frame)
    requires WellFormed(f) && |f.rows| > 0 && WellFormed(rest)
    requires forall k :: 0 <= k < |rest.rows| ==> rest.rows[k].nSinistre > 0
    requires forall k :: 0 <= k < |rest.rows| ==> rest.index[k] in Tail(f).index
    requires forall l, x :: HasEntry(rest, l, x) <==> HasEntry(Tail(f), l, x) && x.nSinistre > 0
    requires StrictlyIncreasing(Tail(f).index) ==> StrictlyIncreasing(rest.index)
    ensures var r := if f.rows[0].nSinistre > 0 then Cons(f.index[0], f.rows[0], rest) else rest;
      && (forall k :: 0 <= k < |r.rows| ==> r.rows[k].nSinistre > 0)
      && (forall k :: 0 <= k < |r.rows| ==> r.index[k] in f.index)
      && (forall l, x :: HasEntry(r, l, x) <==> HasEntry(f, l, x) && x.nSinistre > 0)
      && (StrictlyIncreasing(f.index) ==> StrictlyIncreasing(r.index))
  {
    var t := Tail(f);
    forall l, x ensures HasEntry(f, l, x) <==> (l == f.index[0] && x == f.rows[0]) || HasEntry(t, l, x) {
      ConsEntry(f.index[0], f.rows[0], t, l, x);
    }
    if f.rows[0].nSinistre > 0 {
      var r := Cons(f.index[0], f.rows[0], rest);
      forall l, x ensures HasEntry(r, l, x) <==> (l == f.index[0] && x == f.rows[0]) || HasEntry(rest, l, x) {
        ConsEntry(f.index[0], f.rows[0], rest, l, x);
      }
      assert forall k :: 1 <= k < |r.rows| ==> r.index[k] == rest.index[k - 1] && r.rows[k] == rest.rows[k - 1];
      if StrictlyIncreasing(f.index) {
        assert StrictlyIncreasing(t.index);
        forall k | 0 <= k < |rest.index| ensures f.index[0] < rest.index[k] {
          var j :| 0 <= j < |t.index| && t.index[j] == rest.index[k];
          assert t.index[j] == f.index[j + 1];
        }
      }
    } else {
      if StrictlyIncreasing(f.index) {
        assert StrictlyIncreasing(t.index);
      }
    }
  }

  /**
   * `Index.repeat(counts)`: each label repeated as many times as its count.
   * numpy refuses a negative count.
   */
  function IndexRepeat(labels: seq<nat>, counts: seq<int>): (r: Result<seq<nat>, Error>)
    requires |labels| == |counts|
    ensures r.Failure? <==> exists i :: 0 <= i < |counts| && counts[i] < 0
    ensures r.Failure? ==> r.error == NegativeRepeats
    ensures r.Success? ==> |r.value| == Sum(counts)
    ensures r.Success? ==> forall k :: 0 <= k < |r.value| ==> r.value[k] in labels
    ensures r.Success? ==> forall i, j :: 0 <= i < |labels| && 0 <= j < counts[i] ==>
      0 <= Slot(counts, i, j) < |r.value| && r.value[Slot(counts, i, j)] == labels[i]
  {
    if |labels| == 0 then Success([])
    else if counts[0] < 0 then Failure(NegativeRepeats)
    else
      var rest :- IndexRepeat(labels[1..], counts[1..]);
      assert forall i :: 1 <= i < |counts| ==> counts[1..][i - 1] == counts[i];
      RepeatLayoutStep(labels, counts, rest);
      Success(Fill(labels[0], counts[0]) + rest)
  }

  /** The position of copy j of entry i when entry k is repeated counts[k] times: the counts before i, plus j. */
  function Slot(counts: seq<int>, i: nat, j: int): int
    requires i <= |counts|
  {
    Sum(counts[..i]) + j
  }

  /** Label i's copies start after the copies of labels 0 .. i-1, given that this holds of the tail. */
  lemma RepeatLayoutStep(labels: seq<nat>, counts: seq<int>, rest: seq<nat>)
    requires |labels| == |counts| > 0 && counts[0] >= 0
    requires |rest| == Sum(counts[1..])
    requires forall i, j :: 0 <= i < |labels| - 1 && 0 <= j < counts[1..][i] ==>
      0 <= Slot(counts[1..], i, j) < |rest| && rest[Slot(counts[1..], i, j)] == labels[1..][i]
    ensures forall i, j :: 0 <= i < |labels| && 0 <= j < counts[i] ==>
      0 <= Slot(counts, i, j) < |Fill(labels[0], counts[0]) + rest|
      && (Fill(labels[0], counts[0]) + rest)[Slot(counts, i, j)] == labels[i]
  {
    var r := Fill(labels[0], counts[0]) + rest;
    forall i, j | 0 <= i < |labels| && 0 <= j < counts[i]
      ensures 0 <= Slot(counts, i, j) < |r| && r[Slot(counts, i, j)] == labels[i]
    {
      if i == 0 {
        assert counts[..0] == [];
      } else {
        assert counts[..i][1..] == counts[1..][..i - 1];
        assert Slot(counts, i, j) == counts[0] + Slot(counts[1..], i - 1, j);
        assert counts[1..][i - 1] == counts[i] && labels[1..][i - 1] == labels[i];
      }
    }
  }

  /** The entries of g whose label is l, in order. */
  function Lookup(g: Frame, l: nat): (r: Frame)
    requires WellFormed(g)
    ensures WellFormed(r)
    ensures forall k :: 0 <= k < |r.index| ==> r.index[k] == l
    ensures forall x :: HasEntry(r, l, x) <==> HasEntry(g, l, x)
    ensures |r.rows| == 0 <==> l !in g.index
    decreases |g.rows|
  {
    if |g.rows| == 0 then g
    else
      var rest := Lookup(Tail(g), l);
      forall x ensures HasEntry(g, l, x) <==> (l == g.index[0] && x == g.rows[0]) || HasEntry(Tail(g), l, x) {
        ConsEntry(g.index[0], g.rows[0], Tail(g), l, x);
      }
      if g.index[0] == l then
        var r := Cons(l, g.rows[0], rest);
        forall x ensures HasEntry(r, l, x) <==> x == g.rows[0] || HasEntry(rest, l, x) {
          ConsEntry(l, g.rows[0], rest, l, x);
        }
        r
      else rest
  }

  /** With unique labels, looking a label up yields exactly its one entry. */
  lemma {:induction false} LookupUnique(g: Frame, i: nat)
    requires WellFormed(g) && StrictlyIncreasing(g.index) && i < |g.rows|
    ensures Lookup(g, g.index[i]) == Frame([g.index[i]], [g.rows[i]])
    decreases |g.rows|
  {
    var l := g.index[i];
    var t := Tail(g);
    assert StrictlyIncreasing(t.index);
    if i == 0 {
      assert l !in t.index by {
        forall k | 0 <= k < |t.index| ensures t.index[k] != l {
          assert t.index[k] == g.index[k + 1];
        }
      }
      assert Lookup(t, l).rows == [] && Lookup(t, l).index == [];
    } else {
      assert t.index[i - 1] == l && t.rows[i - 1] == g.rows[i];
      LookupUnique(t, i - 1);
      assert g.index[0] < l;
    }
  }

  /** With unique labels, a label present in the index finds exactly one entry. */
  lemma LookupPresent(g: Frame, l: nat)
    requires WellFormed(g) && StrictlyIncreasing(g.index) && l in g.index
    ensures |Lookup(g, l).rows| == 1
  {
    var i :| 0 <= i < |g.index| && g.index[i] == l;
    LookupUnique(g, i);
  }

  /**
   * The step of `.loc` on a unique index: the first label's one entry, then
   * the entries of the remaining labels, one per label.
   */
  lemma LocUniqueStep(g: Frame, labels: seq<nat>, m: Frame, rest: Frame)
    requires WellFormed(g) && WellFormed(rest) && labels != []
    requires labels[0] in g.index && m == Lookup(g, labels[0])
    requires StrictlyIncreasing(g.index) ==>
      && rest.index == labels[1..]
      && forall k :: 0 <= k < |labels| - 1 ==> HasEntry(g, labels[1..][k], rest.rows[k])
    ensures StrictlyIncreasing(g.index) ==>
      && Join(m, rest).index == labels
      && forall k :: 0 <= k < |labels| ==> HasEntry(g, labels[k], Join(m, rest).rows[k])
  {
    if StrictlyIncreasing(g.index) {
      LookupPresent(g, labels[0]);
      assert HasEntry(m, labels[0], m.rows[0]);
      var r := Join(m, rest);
      forall k | 0 < k < |labels| ensures HasEntry(g, labels[k], r.rows[k]) {
        assert labels[1..][k - 1] == labels[k] && r.rows[k] == rest.rows[k - 1];
      }
    }
  }

  /**
   * `.loc[labels]`: for each label, every entry of g that carries it; a missing
   * label is a KeyError. The contract says that each returned row is an entry
   * under its label, and fixes the whole result (the labels in order, one row
   * each) only when the index is unique, the only kind the script reaches.
   */
  function Loc(g: Frame, labels: seq<nat>): (r: Result<Frame, Error>)
    requires WellFormed(g)
    ensures r.Success? <==> AllIn(labels, g.index)
    ensures r.Success? ==> WellFormed(r.value)
    ensures r.Success? ==> forall k :: 0 <= k < |r.value.rows| ==> HasEntry(g, r.value.index[k], r.value.rows[k])
    ensures r.Failure? ==> r.error.KeyError? && r.error.key !in g.index
    ensures r.Success? && StrictlyIncreasing(g.index) ==>
      && r.value.index == labels
      && forall k :: 0 <= k < |labels| ==> HasEntry(g, labels[k], r.value.rows[k])
  {
    if labels == [] then Success(Frame([], []))
    else
      var m := Lookup(g, labels[0]);
      var rest := Loc(g, labels[1..]);
      LabelsTail(labels, g.index);
      if |m.rows| == 0 then Failure(KeyError(labels[0]))
      else if rest.Failure? then rest
      else
        JoinEntries(g, m, rest.value);
        LocUniqueStep(g, labels, m, rest.value);
        Success(Join(m, rest.value))
  }

  /** Two frames one after the other. */
  function Join(a: Frame, b: Frame): (r: Frame)
    requires WellFormed(a) && WellFormed(b)
    ensures WellFormed(r)
  {
    Frame(a.index + b.index, a.rows + b.rows)
  }

  /** Every label is one of the index's labels. */
  ghost predicate AllIn(labels: seq<nat>, index: seq<nat>) {
    forall k :: 0 <= k < |labels| ==> labels[k] in index
  }

  /** AllIn over a non-empty list: the first label and then the rest. */
  lemma LabelsTail(labels: seq<nat>, index: seq<nat>)
    requires |labels| > 0
    ensures AllIn(labels, index) <==> labels[0] in index && AllIn(labels[1..], index)
  {
  }

  /** Joining two frames whose rows are entries of g gives a frame whose rows are entries of g. */
  lemma JoinEntries(g: Frame, a: Frame, b: Frame)
    requires WellFormed(g) && WellFormed(a) && WellFormed(b)
    requires forall k :: 0 <= k < |a.rows| ==> HasEntry(g, a.index[k], a.rows[k])
    requires forall k :: 0 <= k < |b.rows| ==> HasEntry(g, b.index[k], b.rows[k])
    ensures forall k :: 0 <= k < |Join(a, b).rows| ==> HasEntry(g, Join(a, b).index[k], Join(a, b).rows[k])
  {
  }

  /** `.reset_index(drop=True)`: the same rows under a fresh RangeIndex. */
  function ResetIndex(f: Frame): (r: Frame)
    ensures WellFormed(r) && r.rows == f.rows
    ensures StrictlyIncreasing(r.index) && forall i :: 0 <= i < |r.index| ==> r.index[i] == i
  {
    Frame(Range(|f.rows|), f.rows)
  }

  /** Lines 13 and 17 of the script, on the table read with its default RangeIndex. */
  function Explode(df: seq<Row>): Result<Frame, Error> {
    var t := SelectPositive(Frame(Range(|df|), df));
    var labels :- IndexRepeat(t.index, Counts(t.rows));
    var picked :- Loc(t, labels);
    Success(ResetIndex(picked))
  }
}

/** What the explosion of lines 13 and 17 computes, and the shape of its result. */
module ExpansionProofs {
  import opened Wrappers
  import opened Table
  import opened Expansion

  /** `.loc` on n copies of one unique label gives n copies of its row. */
  lemma {:induction false} LocFill(g: Frame, i: nat, n: nat)
    requires WellFormed(g) && StrictlyIncreasing(g.index) && i < |g.rows|
    ensures Loc(g, Fill(g.index[i], n)) == Success(Frame(Fill(g.index[i], n), Fill(g.rows[i], n)))
  {
    if n > 0 {
      var labels := Fill(g.index[i], n);
      assert labels[1..] == Fill(g.index[i], n - 1);
      LocFill(g, i, n - 1);
      LookupUnique(g, i);
      assert g.index[i] in g.index;
    }
  }

  /** One step of `.loc`: the first label's entries, then the rest. */
  lemma LocUnfold(g: Frame, labels: seq<nat>)
    requires WellFormed(g) && labels != []
    ensures Loc(g, labels).Success? <==> labels[0] in g.index && Loc(g, labels[1..]).Success?
    ensures Loc(g, labels).Success? ==>
      Loc(g, labels).value == Join(Lookup(g, labels[0]), Loc(g, labels[1..]).value)
  {
  }

  /** `.loc` on a concatenation of label lists is the concatenation of the two results. */
  lemma {:induction false} LocAppend(g: Frame, a: seq<nat>, b: seq<nat>)
    requires WellFormed(g) && Loc(g, a).Success? && Loc(g, b).Success?
    ensures Loc(g, a + b) == Success(Join(Loc(g, a).value, Loc(g, b).value))
  {
    if a == [] {
      assert a + b == b;
      var rb := Loc(g, b).value;
      assert [] + rb.index == rb.index && [] + rb.rows == rb.rows;
    } else {
      var ab := a + b;
      assert ab[1..] == a[1..] + b && ab[0] == a[0];
      LocUnfold(g, a);
      LocAppend(g, a[1..], b);
      LocUnfold(g, ab);
      JoinAssoc(Lookup(g, a[0]), Loc(g, a[1..]).value, Loc(g, b).value);
    }
  }

  /** Joining frames is associative. */
  lemma JoinAssoc(a: Frame, b: Frame, c: Frame)
    requires WellFormed(a) && WellFormed(b) && WellFormed(c)
    ensures Join(a, Join(b, c)) == Join(Join(a, b), c)
  {
  }

  /** Repeating the labels of a filtered frame by its counts, then `.loc`, gives one row per claim. */
  lemma {:induction false} RepeatThenLoc(t: Frame, j: nat)
    requires WellFormed(t) && StrictlyIncreasing(t.index) && j <= |t.rows|
    requires forall k :: 0 <= k < |t.rows| ==> t.rows[k].nSinistre > 0
    ensures IndexRepeat(t.index[j..], Counts(t.rows[j..])).Success?
    ensures Loc(t, IndexRepeat(t.index[j..], Counts(t.rows[j..])).value).Success?
    ensures Loc(t, IndexRepeat(t.index[j..], Counts(t.rows[j..])).value).value.rows == Expanded(t.rows[j..])
    decreases |t.rows| - j
  {
    if j == |t.rows| {
      assert t.index[j..] == [] && t.rows[j..] == [];
    } else {
      RepeatThenLoc(t, j + 1);
      var n := t.rows[j].nSinistre;
      assert t.index[j..][1..] == t.index[j + 1..];
      assert t.rows[j..][1..] == t.rows[j + 1..];
      assert Counts(t.rows[j..])[1..] == Counts(t.rows[j + 1..]);
      assert Counts(t.rows[j..])[0] == n;
      var rest := IndexRepeat(t.index[j + 1..], Counts(t.rows[j + 1..])).value;
      assert IndexRepeat(t.index[j..], Counts(t.rows[j..])).value == Fill(t.index[j], n) + rest;
      LocFill(t, j, n);
      LocAppend(t, Fill(t.index[j], n), rest);
      assert t.rows[j..][0] == t.rows[j];
    }
  }

  /** Filtering out the rows without claims does not change the explosion. */
  lemma {:induction false} ExpandedOfSelected(f: Frame)
    requires WellFormed(f)
    ensures Expanded(SelectPositive(f).rows) == Expanded(f.rows)
    decreases |f.rows|
  {
    if |f.rows| > 0 {
      ExpandedOfSelected(Tail(f));
      var rest := SelectPositive(Tail(f));
      if f.rows[0].nSinistre > 0 {
        assert Cons(f.index[0], f.rows[0], rest).rows[1..] == rest.rows;
      }
    }
  }

  /**
   * Lines 13 and 17 never fail, and they produce exactly the reference
   * explosion, under a fresh index 0 .. n-1.
   */
  lemma ExplodeIsExpanded(df: seq<Row>)
    ensures Explode(df).Success?
    ensures Explode(df).value == Frame(Range(|Expanded(df)|), Expanded(df))
  {
    var f := Frame(Range(|df|), df);
    var t := SelectPositive(f);
    RepeatThenLoc(t, 0);
    assert t.index[0..] == t.index && t.rows[0..] == t.rows;
    ExpandedOfSelected(f);
  }

  /** The number of output rows is the number of claims (line 19's expectation). */
  lemma {:induction false} ExpandedLength(df: seq<Row>)
    ensures |Expanded(df)| == SumPositive(df)
  {
    if df != [] {
      ExpandedLength(df[1..]);
    }
  }

  /** When no count is negative, that number is the plain sum of the N_SINISTRE column. */
  lemma {:induction false} SumPositiveIsTotal(df: seq<Row>)
    requires forall i :: 0 <= i < |df| ==> df[i].nSinistre >= 0
    ensures SumPositive(df) == Sum(Counts(df))
  {
    if df != [] {
      assert Counts(df)[1..] == Counts(df[1..]);
      SumPositiveIsTotal(df[1..]);
    }
  }

  /** Exactly the source rows with a positive count appear in the output. */
  lemma {:induction false} ExpandedMembers(df: seq<Row>)
    ensures forall x :: x in Expanded(df) <==> x in df && x.nSinistre > 0
  {
    if df != [] {
      ExpandedMembers(df[1..]);
      assert df == [df[0]] + df[1..];
      forall x ensures x in Fill(df[0], Claims(df[0])) <==> x == df[0] && x.nSinistre > 0 {
        if x == df[0] && x.nSinistre > 0 {
          assert Fill(df[0], Claims(df[0]))[0] == x;
        }
      }
    }
  }

  /** A property holds of every output row exactly when it holds of every source row with a positive count. */
  lemma ExpandedEvery(df: seq<Row>, p: Row -> bool)
    ensures (forall k :: 0 <= k < |Expanded(df)| ==> p(Expanded(df)[k]))
        <==> (forall i :: 0 <= i < |df| && df[i].nSinistre > 0 ==> p(df[i]))
  {
    if forall k :: 0 <= k < |Expanded(df)| ==> p(Expanded(df)[k]) {
      forall i | 0 <= i < |df| && df[i].nSinistre > 0 ensures p(df[i]) {
        ExpandedLayout(df, i, 0);
      }
    }
    if forall i :: 0 <= i < |df| && df[i].nSinistre > 0 ==> p(df[i]) {
      forall k | 0 <= k < |Expanded(df)| ensures p(Expanded(df)[k]) {
        var i, j := ExpandedOrigin(df, k);
      }
    }
  }

  /** The claims of rows 0 .. i-1 end exactly where row i's claims begin. */
  lemma {:induction false} PrefixClaims(df: seq<Row>, i: nat)
    requires i < |df|
    ensures SumPositive(df[..i + 1]) == SumPositive(df[..i]) + Claims(df[i])
  {
    if i == 0 {
      assert df[..1][1..] == [];
    } else {
      assert df[..i + 1][1..] == df[1..][..i];
      assert df[..i][1..] == df[1..][..i - 1];
      PrefixClaims(df[1..], i - 1);
    }
  }

  /**
   * Row i's copies form one consecutive block: copy j of row i is output row
   * SumPositive(df[..i]) + j, so blocks follow the source order.
   */
  lemma {:induction false} ExpandedLayout(df: seq<Row>, i: nat, j: nat)
    requires i < |df| && j < Claims(df[i])
    ensures SumPositive(df[..i]) + j < |Expanded(df)|
    ensures Expanded(df)[SumPositive(df[..i]) + j] == df[i]
  {
    ExpandedLength(df);
    if i == 0 {
      assert df[..0] == [];
    } else {
      assert df[..i][1..] == df[1..][..i - 1];
      ExpandedLayout(df[1..], i - 1, j);
      ExpandedLength(df[1..]);
    }
  }

  /** Every output row k is copy j of some source row i with a positive count. */
  lemma {:induction false} ExpandedOrigin(df: seq<Row>, k: nat) returns (i: nat, j: nat)
    requires k < |Expanded(df)|
    ensures i < |df| && df[i].nSinistre > 0 && j < df[i].nSinistre
    ensures k == SumPositive(df[..i]) + j && Expanded(df)[k] == df[i]
  {
    ExpandedLength(df[1..]);
    if k < Claims(df[0]) {
      i, j := 0, k;
      assert df[..0] == [];
    } else {
      var i', j' := ExpandedOrigin(df[1..], k - Claims(df[0]));
      i, j := i' + 1, j';
      assert df[..i][1..] == df[1..][..i'];
    }
  }

  /** The claim totals of prefixes grow with the prefix. */
  lemma {:induction false} PrefixMonotone(df: seq<Row>, a: nat, b: nat)
    requires a <= b <= |df|
    ensures SumPositive(df[..a]) <= SumPositive(df[..b])
    decreases b - a
  {
    if a < b {
      PrefixClaims(df, a);
      PrefixMonotone(df, a + 1, b);
    }
  }

  /**
   * An output position is copy j of row i for one (i, j) only, so with
   * ExpandedLayout and ExpandedOrigin each kept row i occupies exactly
   * N_SINISTRE positions, and no others.
   */
  lemma {:induction false} ExpandedOriginUnique(df: seq<Row>, i: nat, j: nat, i': nat, j': nat)
    requires i < |df| && j < Claims(df[i]) && i' < |df| && j' < Claims(df[i'])
    requires SumPositive(df[..i]) + j == SumPositive(df[..i']) + j'
    ensures i == i' && j == j'
  {
    if i < i' {
      PrefixClaims(df, i);
      PrefixMonotone(df, i + 1, i');
    } else if i' < i {
      PrefixClaims(df, i');
      PrefixMonotone(df, i' + 1, i);
    }
  }
}
