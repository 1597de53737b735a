/** The three warehouse tables the dashboard reads, and each of its SELECT
    statements as a function over an in-memory copy of a table. */
module Queries {
  import opened Seqs

  /** A row of `health_anomalies`. `is_spike` is a text column; a row is a
      spike when it holds exactly 'YES'. */
  datatype AnomalyRecord = AnomalyRecord(disease: string, region: string, isSpike: string)

  /** A row of `inventory_health`. `risk_level` is free text; the queries
      and the colouring only single out 'CRITICAL' and 'WARNING'. */
  datatype InventoryRecord = InventoryRecord(hospital: string, item: string, stockLeft: int, riskLevel: string)

  /** A row of `public_health_visits`; `missing_fields` may be NULL. */
  datatype VisitRecord = VisitRecord(
    visitDate: string, region: string, disease: string,
    missingFields: Option<int>, missingColumns: string)

  /** A row of the reorder export: `SELECT hospital, item, stock_left`. */
  datatype ReorderRow = ReorderRow(hospital: string, item: string, stockLeft: int)

  /** A row of the missing-data report:
      `SELECT visit_date, region, disease, missing_columns`. */
  datatype MissingRow = MissingRow(visitDate: string, region: string, disease: string, missingColumns: string)

  /** `WHERE is_spike='YES'` */
  predicate IsSpike(a: AnomalyRecord) { a.isSpike == "YES" }

  /** `WHERE risk_level='CRITICAL'` */
  predicate IsCritical(r: InventoryRecord) { r.riskLevel == "CRITICAL" }

  /** `WHERE missing_fields > 0`; a NULL comparison is not true, so a NULL
      row is left out. */
  predicate HasMissing(v: VisitRecord) { v.missingFields.Some? && v.missingFields.value > 0 }

  function Spikes(anomalies: seq<AnomalyRecord>): seq<AnomalyRecord>
  {
    Filter(IsSpike, anomalies)
  }

  /** `SELECT disease, region FROM health_anomalies WHERE is_spike='YES' LIMIT 1` */
  function TopSpike(anomalies: seq<AnomalyRecord>): Option<AnomalyRecord>
  {
    First(Spikes(anomalies))
  }

  /** `SELECT COUNT(*)*30 AS score FROM health_anomalies WHERE is_spike='YES'`,
      with no cap. */
  function RiskScore(anomalies: seq<AnomalyRecord>): nat
  {
    30 * |Spikes(anomalies)|
  }

  function CriticalRows(inventory: seq<InventoryRecord>): seq<InventoryRecord>
  {
    Filter(IsCritical, inventory)
  }

  /** `SELECT item, hospital FROM inventory_health WHERE risk_level='CRITICAL' LIMIT 1`
      (the voice alert selects the same row as `hospital, item`). */
  function TopCritical(inventory: seq<InventoryRecord>): Option<InventoryRecord>
  {
    First(CriticalRows(inventory))
  }

  function ToReorderRow(r: InventoryRecord): ReorderRow
  {
    ReorderRow(r.hospital, r.item, r.stockLeft)
  }

  /** `SELECT hospital, item, stock_left FROM inventory_health WHERE risk_level='CRITICAL'` */
  function ReorderList(inventory: seq<InventoryRecord>): seq<ReorderRow>
  {
    Map(ToReorderRow, CriticalRows(inventory))
  }

  /** `SUM(missing_fields)`: NULL values are skipped, and the sum itself is
      NULL when no value is left. */
  function SumMissing(visits: seq<VisitRecord>): Option<int>
  {
    if visits == [] then None
    else
      var rest := SumMissing(visits[1..]);
      match visits[0].missingFields
      case None => rest
      case Some(n) => Some(n + (match rest case None => 0 case Some(m) => m))
  }

  /** `SELECT COALESCE(SUM(missing_fields), 0) AS total_missing FROM public_health_visits` */
  function TotalMissing(visits: seq<VisitRecord>): int
  {
    match SumMissing(visits)
    case None => 0
    case Some(n) => n
  }

  function ToMissingRow(v: VisitRecord): MissingRow
  {
    MissingRow(v.visitDate, v.region, v.disease, v.missingColumns)
  }

  /** `SELECT visit_date, region, disease, missing_columns FROM public_health_visits
      WHERE missing_fields > 0` */
  function MissingRecords(visits: seq<VisitRecord>): seq<MissingRow>
  {
    Map(ToMissingRow, Filter(HasMissing, visits))
  }

  // ---------- properties of the queries ----------

  /** The top spike is absent exactly when no row is a spike; otherwise it is
      the first spike row of the table. */
  lemma TopSpikeIsFirstSpike(anomalies: seq<AnomalyRecord>)
    ensures TopSpike(anomalies).None? <==> forall i :: 0 <= i < |anomalies| ==> !IsSpike(anomalies[i])
    ensures TopSpike(anomalies).Some? ==>
      exists i :: 0 <= i < |anomalies| && IsSpike(anomalies[i]) && TopSpike(anomalies).value == anomalies[i] &&
        forall j :: 0 <= j < i ==> !IsSpike(anomalies[j])
  {
    FirstOfFilter(IsSpike, anomalies);
  }

  /** The same for the first critical inventory row. */
  lemma TopCriticalIsFirstCritical(inventory: seq<InventoryRecord>)
    ensures TopCritical(inventory).None? <==> forall i :: 0 <= i < |inventory| ==> !IsCritical(inventory[i])
    ensures TopCritical(inventory).Some? ==>
      exists i :: 0 <= i < |inventory| && IsCritical(inventory[i]) && TopCritical(inventory).value == inventory[i] &&
        forall j :: 0 <= j < i ==> !IsCritical(inventory[j])
  {
    FirstOfFilter(IsCritical, inventory);
  }

  /** The risk score is zero exactly when no row is a spike, and each further
      row adds 30 when it is a spike and nothing otherwise. */
  lemma RiskScoreGrowth(anomalies: seq<AnomalyRecord>, a: AnomalyRecord)
    ensures RiskScore(anomalies) == 0 <==> forall i :: 0 <= i < |anomalies| ==> !IsSpike(anomalies[i])
    ensures RiskScore(anomalies + [a]) == RiskScore(anomalies) + (if IsSpike(a) then 30 else 0)
  {
    FilterConcat(IsSpike, anomalies, [a]);
    FirstOfFilter(IsSpike, anomalies);
  }

  /** The score is not capped: four spike rows already give 120, above the
      100 it is displayed against. */
  lemma RiskScoreExceedsScale(anomalies: seq<AnomalyRecord>)
    requires |anomalies| >= 4
    requires forall i :: 0 <= i < |anomalies| ==> IsSpike(anomalies[i])
    ensures RiskScore(anomalies) == 30 * |anomalies| > 100
  {
    assert Filter(IsSpike, anomalies) == anomalies by {
      FilterKeepsAll(anomalies);
    }
  }

  lemma {:induction false} FilterKeepsAll(anomalies: seq<AnomalyRecord>)
    requires forall i :: 0 <= i < |anomalies| ==> IsSpike(anomalies[i])
    ensures Filter(IsSpike, anomalies) == anomalies
  {
    if anomalies != [] {
      FilterKeepsAll(anomalies[1..]);
    }
  }

  /** The reorder export keeps table order: it has one row per CRITICAL row,
      and the k-th critical row of the table, projected to (hospital, item,
      stock_left), is row k of the export. */
  lemma ReorderListInOrder(inventory: seq<InventoryRecord>)
    ensures |ReorderList(inventory)| == |CriticalRows(inventory)|
    ensures forall i :: 0 <= i < |inventory| && IsCritical(inventory[i]) ==>
      |CriticalRows(inventory[..i])| < |ReorderList(inventory)| &&
      ReorderList(inventory)[|CriticalRows(inventory[..i])|] == ToReorderRow(inventory[i])
  {
    forall i | 0 <= i < |inventory| && IsCritical(inventory[i])
      ensures |CriticalRows(inventory[..i])| < |ReorderList(inventory)|
      ensures ReorderList(inventory)[|CriticalRows(inventory[..i])|] == ToReorderRow(inventory[i])
    {
      FilterAt(IsCritical, inventory, i);
    }
  }

  /** The reorder export holds exactly the projections of the CRITICAL rows
      and nothing else. */
  lemma ReorderListMembers(inventory: seq<InventoryRecord>)
    ensures forall x :: x in ReorderList(inventory) <==>
      exists r :: r in inventory && IsCritical(r) && x == ToReorderRow(r)
  {
    var c := CriticalRows(inventory);
    forall x ensures x in ReorderList(inventory) <==> exists r :: r in inventory && IsCritical(r) && x == ToReorderRow(r) {
      if x in ReorderList(inventory) {
        var k :| 0 <= k < |c| && ReorderList(inventory)[k] == x;
        assert c[k] in c;
      }
      if r :| r in inventory && IsCritical(r) && x == ToReorderRow(r) {
        assert r in c;
        var k :| 0 <= k < |c| && c[k] == r;
        assert ReorderList(inventory)[k] == x;
      }
    }
  }

  /** With no rows, or only NULL counts, the coalesced total is 0. */
  lemma {:induction false} TotalMissingOfNulls(visits: seq<VisitRecord>)
    requires forall i :: 0 <= i < |visits| ==> visits[i].missingFields.None?
    ensures SumMissing(visits).None? && TotalMissing(visits) == 0
  {
    if visits != [] {
      TotalMissingOfNulls(visits[1..]);
    }
  }

  /** Appending a visit row adds its count to the total, or nothing when the
      count is NULL; the `SUM` stays NULL exactly while every count is NULL. */
  lemma {:induction false} TotalMissingGrowth(visits: seq<VisitRecord>, v: VisitRecord)
    ensures SumMissing(visits + [v]).None? <==> SumMissing(visits).None? && v.missingFields.None?
    ensures TotalMissing(visits + [v]) ==
      TotalMissing(visits) + (if v.missingFields.Some? then v.missingFields.value else 0)
  {
    if visits == [] {
      assert visits + [v] == [v];
      assert [v][1..] == [];
    } else {
      assert (visits + [v])[0] == visits[0];
      assert (visits + [v])[1..] == visits[1..] + [v];
      TotalMissingGrowth(visits[1..], v);
    }
  }

  /** When no count is negative, the total is positive exactly when some
      record reports missing fields, that is, when the missing-data report
      is not empty: the two data-quality buttons agree. */
  lemma {:induction false} TotalMissingPositiveIffReported(visits: seq<VisitRecord>)
    requires forall i :: 0 <= i < |visits| ==> visits[i].missingFields.Some? ==> visits[i].missingFields.value >= 0
    ensures TotalMissing(visits) >= 0
    ensures TotalMissing(visits) > 0 <==> MissingRecords(visits) != []
  {
    if visits != [] {
      TotalMissingPositiveIffReported(visits[1..]);
      assert Filter(HasMissing, visits) ==
        (if HasMissing(visits[0]) then [visits[0]] else []) + Filter(HasMissing, visits[1..]);
    }
  }
}
