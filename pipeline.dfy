/** The whole batch script: explode the subscription table, then simulate each claim's cost and date. */
module Pipeline {
  import opened Wrappers
  import opened Table
  import opened Expansion
  import opened ExpansionProofs
  import opened Simulation

  /**
   * From the subscription rows (as read, with their default index) to the
   * claims table. `couts` and `draws` are the values the generator produces
   * for the cost column and for the day offsets, one per claim row.
   */
  method CreationBaseSinistres(df: seq<Row>, couts: seq<real>, draws: seq<int>)
    returns (res: Result<seq<ClaimRow>, Error>)
    requires |couts| == SumPositive(df) && |draws| == SumPositive(df)
    requires forall k :: 0 <= k < |draws| && k < |Expanded(df)| ==> DrawInRange(Expanded(df)[k], draws[k])
    ensures res.Success? <==>
      forall i :: 0 <= i < |df| && df[i].nSinistre > 0 ==> df[i].debutPolice <= df[i].finPolice
    ensures res.Failure? ==> res.error == EmptyDrawRange
    ensures res.Success? ==> |res.value| == SumPositive(df)
    ensures res.Success? ==> forall k :: 0 <= k < |res.value| ==>
      && k < |Expanded(df)|
      && res.value[k] == ClaimRow(Replaced(Expanded(df)[k]), Some(couts[k]), Some(Expanded(df)[k].debutPolice + draws[k]))
    ensures res.Success? ==> forall k :: 0 <= k < |res.value| ==>
      && res.value[k].dateSinistre.Some?
      && res.value[k].police.debutPolice <= res.value[k].dateSinistre.value <= res.value[k].police.finPolice
  {
    var rows := ExplodeStep(df);
    res := SimulateTable(rows, couts, draws);
    assert res.Success? <==> forall i :: 0 <= i < |df| && df[i].nSinistre > 0 ==> df[i].debutPolice <= df[i].finPolice by {
      ExpandedEvery(df, (r: Row) => r.debutPolice <= r.finPolice);
    }
  }

  /**
   * Lines 13-19 run on the input: the exploded rows, one per claim, as many
   * as line 19 announces.
   */
  method ExplodeStep(df: seq<Row>) returns (rows: seq<Row>)
    ensures rows == Expanded(df) && |rows| == SumPositive(df)
  {
    ExplodeIsExpanded(df);
    ExpandedLength(df);
    rows := Explode(df).value.rows;
  }

  /**
   * The simulation stage on an exploded table: the rows are put in an array
   * with both columns absent, then SimulateClaims adds them.
   */
  method SimulateTable(e: seq<Row>, couts: seq<real>, draws: seq<int>)
    returns (res: Result<seq<ClaimRow>, Error>)
    requires |couts| == |e| && |draws| == |e|
    requires forall k :: 0 <= k < |e| ==> DrawInRange(e[k], draws[k])
    ensures res.Success? <==> forall k :: 0 <= k < |e| ==> e[k].debutPolice <= e[k].finPolice
    ensures res.Failure? ==> res.error == EmptyDrawRange
    ensures res.Success? ==> |res.value| == |e|
    ensures res.Success? ==> forall k :: 0 <= k < |res.value| ==>
      res.value[k] == ClaimRow(Replaced(e[k]), Some(couts[k]), Some(e[k].debutPolice + draws[k]))
    ensures res.Success? ==> forall k :: 0 <= k < |res.value| ==>
      && res.value[k].dateSinistre.Some?
      && res.value[k].police.debutPolice <= res.value[k].dateSinistre.value <= res.value[k].police.finPolice
  {
    var n := |e|;
    var t := new ClaimRow[n](k requires 0 <= k < n => Unsimulated(e[k]));
    ghost var before := t[..];
    assert forall k :: 0 <= k < n ==> before[k] == Unsimulated(e[k]);
    var outcome := SimulateClaims(t, couts, draws);
    if outcome.Fail? {
      res := Failure(outcome.error);
    } else {
      var after := t[..];
      RowsAfterSimulation(before, e, couts, draws);
      res := Success(after);
    }
  }

  /** Row k of the simulated table: policy row k, cost k, and its start date plus offset k, inside its window. */
  lemma RowsAfterSimulation(before: seq<ClaimRow>, e: seq<Row>, couts: seq<real>, draws: seq<int>)
    requires |before| == |e| && forall k :: 0 <= k < |e| ==> before[k] == Unsimulated(e[k])
    requires |couts| == |e| && |draws| == |e|
    requires forall k :: 0 <= k < |e| ==> e[k].debutPolice <= e[k].finPolice
    requires forall k :: 0 <= k < |e| ==> DrawInRange(e[k], draws[k])
    ensures var rows := WithDates(WithCouts(before, couts), draws);
      && |rows| == |e|
      && (forall k :: 0 <= k < |e| ==> rows[k] == ClaimRow(Replaced(e[k]), Some(couts[k]), Some(e[k].debutPolice + draws[k])))
      && (forall k :: 0 <= k < |e| ==> e[k].debutPolice <= e[k].debutPolice + draws[k] <= e[k].finPolice)
  {
  }
}
