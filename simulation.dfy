/**
 * Step 2 of the script: add the COUT_SINISTRE and DATE_SINISTRE columns to
 * the exploded table in place. The random generator is replaced by the
 * values it would have drawn: `couts` for the cost column and `draws` for the
 * day offsets.
 */
module Simulation {
  import opened Wrappers
  import opened Table

  /** A row of the claims table: the policy's columns plus the two simulated ones (None until added). */
  datatype ClaimRow = ClaimRow(police: Row, coutSinistre: Option<real>, dateSinistre: Option<int>)

  /** The names of the two columns that lines 35 and 49 assign. */
  const CoutSinistre: string := "COUT_SINISTRE"
  const DateSinistre: string := "DATE_SINISTRE"

  /**
   * The policy row once a column named `column` is assigned: a cell of that
   * name among the other columns is replaced, so it no longer stands there;
   * the count, the dates and every other column stay.
   */
  function Without(r: Row, column: string): (s: Row)
    ensures column !in s.others
    ensures s.nSinistre == r.nSinistre && s.debutPolice == r.debutPolice && s.finPolice == r.finPolice
    ensures forall c :: c in r.others && c != column ==> c in s.others && s.others[c] == r.others[c]
  {
    r.(others := r.others - {column})
  }

  /** The policy columns that survive both assignments. */
  function Replaced(r: Row): Row {
    Without(Without(r, CoutSinistre), DateSinistre)
  }

  /** A policy row before simulation. */
  function Unsimulated(r: Row): ClaimRow {
    ClaimRow(r, None, None)
  }

  /** Line 43: the coverage length in whole days. */
  function DureeCouverture(r: Row): int {
    r.finPolice - r.debutPolice
  }

  /** The generator's value d for a row is one that `randint(0, span + 1)` can return. */
  ghost predicate DrawInRange(r: Row, d: int) {
    DureeCouverture(r) >= 0 ==> 0 <= d <= DureeCouverture(r)
  }

  ghost predicate DrawsInRange(rows: seq<ClaimRow>, draws: seq<int>) {
    |draws| == |rows| && forall i :: 0 <= i < |rows| ==> DrawInRange(rows[i].police, draws[i])
  }

  /**
   * numpy `randint(low, high)` for one element, given the value d the
   * generator produces: an empty range [low, high) is an error.
   */
  function RandInt(low: int, high: int, d: int): (r: Result<int, Error>)
    requires low < high ==> low <= d < high
    ensures r.Success? <==> low < high
    ensures r.Success? ==> low <= r.value < high && r.value == d
  {
    if high <= low then Failure(EmptyDrawRange) else Success(d)
  }

  /**
   * Line 46: `randint(0, duree_couverture + 1, size=n)`, element by element.
   * The call fails as a whole when any row's end date precedes its start date.
   */
  function JoursAleatoires(rows: seq<ClaimRow>, draws: seq<int>): (r: Result<seq<int>, Error>)
    requires DrawsInRange(rows, draws)
    ensures r.Failure? <==> exists i :: 0 <= i < |rows| && rows[i].police.finPolice < rows[i].police.debutPolice
    ensures r.Failure? ==> r.error == EmptyDrawRange
    ensures r.Success? ==> r.value == draws
    ensures r.Success? ==> forall i :: 0 <= i < |rows| ==> 0 <= r.value[i] <= DureeCouverture(rows[i].police)
  {
    if rows == [] then Success([])
    else
      var first := RandInt(0, DureeCouverture(rows[0].police) + 1, draws[0]);
      assert DrawsInRange(rows[1..], draws[1..]) by {
        forall i | 0 <= i < |rows| - 1 ensures DrawInRange(rows[1..][i].police, draws[1..][i]) {
          assert DrawInRange(rows[i + 1].police, draws[i + 1]);
        }
      }
      var rest := JoursAleatoires(rows[1..], draws[1..]);
      assert forall i :: 1 <= i < |rows| ==> rows[1..][i - 1] == rows[i];
      if first.Failure? then Failure(first.error)
      else if rest.Failure? then Failure(rest.error)
      else
        assert draws == [draws[0]] + draws[1..];
        Success([first.value] + rest.value)
  }

  /** The table after line 35: row i gets cost couts[i], replacing any COUT_SINISTRE column it had. */
  function WithCouts(rows: seq<ClaimRow>, couts: seq<real>): (r: seq<ClaimRow>)
    requires |couts| == |rows|
  {
    seq(|rows|, i requires 0 <= i < |rows| =>
      rows[i].(police := Without(rows[i].police, CoutSinistre), coutSinistre := Some(couts[i])))
  }

  /** The table after line 49: row i gets the claim date start + jours[i], replacing any DATE_SINISTRE column it had. */
  function WithDates(rows: seq<ClaimRow>, jours: seq<int>): (r: seq<ClaimRow>)
    requires |jours| == |rows|
  {
    seq(|rows|, i requires 0 <= i < |rows| =>
      rows[i].(police := Without(rows[i].police, DateSinistre),
               dateSinistre := Some(rows[i].police.debutPolice + jours[i])))
  }

  /** Lines 35 and 38: the cost column, written row by row. */
  method SetCoutSinistre(t: array<ClaimRow>, couts: seq<real>)
    requires |couts| == t.Length
    modifies t
    ensures t[..] == WithCouts(old(t[..]), couts)
  {
    var i := 0;
    while i < t.Length
      invariant 0 <= i <= t.Length
      invariant forall k :: 0 <= k < i ==>
        t[k] == old(t[k]).(police := Without(old(t[k]).police, CoutSinistre), coutSinistre := Some(couts[k]))
      invariant forall k :: i <= k < t.Length ==> t[k] == old(t[k])
    {
      t[i] := t[i].(police := Without(t[i].police, CoutSinistre), coutSinistre := Some(couts[i]));
      i := i + 1;
    }
  }

  /** Line 49: the claim-date column, start date plus the drawn number of days, row by row. */
  method SetDateSinistre(t: array<ClaimRow>, jours: seq<int>)
    requires |jours| == t.Length
    modifies t
    ensures t[..] == WithDates(old(t[..]), jours)
  {
    var i := 0;
    while i < t.Length
      invariant 0 <= i <= t.Length
      invariant forall k :: 0 <= k < i ==>
        t[k] == old(t[k]).(police := Without(old(t[k]).police, DateSinistre),
                           dateSinistre := Some(old(t[k]).police.debutPolice + jours[k]))
      invariant forall k :: i <= k < t.Length ==> t[k] == old(t[k])
    {
      t[i] := t[i].(police := Without(t[i].police, DateSinistre),
                    dateSinistre := Some(t[i].police.debutPolice + jours[i]));
      i := i + 1;
    }
  }

  /**
   * Lines 35-49 on the exploded table: costs first, then the day offsets; the
   * draw fails, before any date is written, when a row's end date precedes its
   * start date.
   */
  method SimulateClaims(t: array<ClaimRow>, couts: seq<real>, draws: seq<int>) returns (res: Outcome<Error>)
    requires |couts| == t.Length
    requires DrawsInRange(t[..], draws)
    modifies t
    ensures res.Pass? <==> forall i :: 0 <= i < t.Length ==> old(t[i]).police.debutPolice <= old(t[i]).police.finPolice
    ensures res.Pass? ==> t[..] == WithDates(WithCouts(old(t[..]), couts), draws)
    ensures res.Fail? ==> t[..] == WithCouts(old(t[..]), couts) && res.error == EmptyDrawRange
  {
    SetCoutSinistre(t, couts);
    assert forall i :: 0 <= i < t.Length ==>
      t[i].police.debutPolice == old(t[i]).police.debutPolice && t[i].police.finPolice == old(t[i]).police.finPolice;
    assert DrawsInRange(t[..], draws);
    var jours := JoursAleatoires(t[..], draws);
    if jours.Failure? {
      res := Fail(jours.error);
      return;
    }
    SetDateSinistre(t, jours.value);
    res := Pass;
  }
}

/** What the simulated columns satisfy. */
module SimulationProofs {
  import opened Wrappers
  import opened Table
  import opened Simulation

  /**
   * Adding the two columns keeps the row count, the count and dates of every
   * row and every other column; a COUT_SINISTRE or DATE_SINISTRE column the
   * row already had is gone, replaced by the new value.
   */
  lemma SimulationKeepsPolicies(rows: seq<ClaimRow>, couts: seq<real>, jours: seq<int>)
    requires |couts| == |rows| && |jours| == |rows|
    ensures |WithDates(WithCouts(rows, couts), jours)| == |rows|
    ensures forall i :: 0 <= i < |rows| ==>
      var p, q := WithDates(WithCouts(rows, couts), jours)[i].police, rows[i].police;
      && p.nSinistre == q.nSinistre && p.debutPolice == q.debutPolice && p.finPolice == q.finPolice
      && CoutSinistre !in p.others && DateSinistre !in p.others
      && (forall c :: c in q.others && c != CoutSinistre && c != DateSinistre ==> c in p.others && p.others[c] == q.others[c])
      && (forall c :: c in p.others ==> c in q.others)
  {
  }

  /** An offset in [0, span] puts the claim date inside the coverage window, both ends included. */
  lemma ClaimDateInCoverage(rows: seq<ClaimRow>, jours: seq<int>)
    requires |jours| == |rows|
    requires forall i :: 0 <= i < |rows| ==> 0 <= jours[i] <= DureeCouverture(rows[i].police)
    ensures forall i :: 0 <= i < |rows| ==>
      var d := WithDates(rows, jours)[i].dateSinistre;
      d.Some? && rows[i].police.debutPolice <= d.value <= rows[i].police.finPolice
  {
  }

  /** A policy that starts and ends on the same day: the only offset is 0, so the claim date is that day. */
  lemma ZeroSpanForcesStartDate(r: Row, d: int)
    requires r.debutPolice == r.finPolice
    requires DrawInRange(r, d)
    ensures RandInt(0, DureeCouverture(r) + 1, d) == Success(0)
    ensures r.debutPolice + RandInt(0, DureeCouverture(r) + 1, d).value == r.debutPolice
  {
  }

  /** A policy that ends before it starts: the draw range is empty and the draw is an error. */
  lemma EndBeforeStartFails(r: Row, d: int)
    requires r.finPolice < r.debutPolice
    ensures RandInt(0, DureeCouverture(r) + 1, d) == Failure(EmptyDrawRange)
  {
  }
}
