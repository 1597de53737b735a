/** What the dashboard shows outside the chat box: the health risk metric,
    the result of each button, the inventory heat-map colouring and the
    reorder export. Each is a function of the tables' contents. */
module Panels {
  import opened Seqs
  import opened Text
  import opened Queries
  import Chat

  /** A status box: `st.error` or `st.success`. */
  datatype Notice = Error(text: string) | Success(text: string)

  // ---------- health risk score ----------

  /** The metric text `f"{risk} / 100"`. */
  function RiskMetric(anomalies: seq<AnomalyRecord>): string
  {
    IntToString(RiskScore(anomalies)) + " / 100"
  }

  /** The metric shows the uncapped score: the text before " / 100" reads
      back as the score itself. */
  lemma RiskMetricShowsScore(anomalies: seq<AnomalyRecord>)
    ensures exists shown :: RiskMetric(anomalies) == shown + " / 100" && ParseInt(shown) == Some(RiskScore(anomalies))
  {
    IntRoundTrip(RiskScore(anomalies));
    assert RiskMetric(anomalies) == IntToString(RiskScore(anomalies)) + " / 100";
  }

  // ---------- "Any Disease Spike?" ----------

  function SpikeButton(anomalies: seq<AnomalyRecord>): Notice
  {
    match TopSpike(anomalies)
    case Some(a) => Error(a.disease + " cases spiked in " + a.region + " region.")
    case None => Success("No disease spikes.")
  }

  /** The button reports a spike exactly when the chat would, with the chat's
      own sentence; with no spike it says "No disease spikes." where the chat
      says "No disease spikes today." */
  lemma SpikeButtonAgreesWithChat(anomalies: seq<AnomalyRecord>, inventory: seq<InventoryRecord>)
    ensures SpikeButton(anomalies).Error? <==> exists i :: 0 <= i < |anomalies| && IsSpike(anomalies[i])
    ensures SpikeButton(anomalies).Error? ==>
      SpikeButton(anomalies).text == Chat.Reply(Chat.DiseaseQuery, anomalies, inventory)
    ensures SpikeButton(anomalies).Success? ==>
      SpikeButton(anomalies).text == "No disease spikes." &&
      Chat.Reply(Chat.DiseaseQuery, anomalies, inventory) == "No disease spikes today."
  {
    TopSpikeIsFirstSpike(anomalies);
  }

  // ---------- inventory heat-map ----------

  /** The columns of the heat-map frame: `SELECT hospital, item, stock_left, risk_level`. */
  const InventoryColumns := ["hospital", "item", "stock_left", "risk_level"]

  const CriticalStyle := "background-color: #ff4d4d"
  const WarningStyle := "background-color: #ffd966"
  const NormalStyle := "background-color: #9fff9f"

  /** `highlight(row)`: one background style per cell of the row, chosen by
      its risk level, with every unrecognised level painted as normal. */
  function Highlight(row: InventoryRecord): seq<string>
  {
    var n := |InventoryColumns|;
    if row.riskLevel == "CRITICAL" then seq(n, _ => CriticalStyle)
    else if row.riskLevel == "WARNING" then seq(n, _ => WarningStyle)
    else seq(n, _ => NormalStyle)
  }

  /** The display tier a style stands for, read back from its colour. */
  datatype Tier = Critical | Warning | Normal

  function StyleTier(style: string): Option<Tier>
  {
    if style == CriticalStyle then Some(Critical)
    else if style == WarningStyle then Some(Warning)
    else if style == NormalStyle then Some(Normal)
    else None
  }

  /** Highlighting never fails and paints a whole row in one colour. The
      colour reads back as the row's tier: CRITICAL and WARNING as
      themselves, every other level (NORMAL, unknown text) as normal. */
  lemma HighlightPaintsRow(row: InventoryRecord)
    ensures |Highlight(row)| == |InventoryColumns|
    ensures forall i :: 0 <= i < |Highlight(row)| ==> Highlight(row)[i] == Highlight(row)[0]
    ensures StyleTier(Highlight(row)[0]) == Some(
      if row.riskLevel == "CRITICAL" then Critical
      else if row.riskLevel == "WARNING" then Warning
      else Normal)
  {
    assert CriticalStyle[19] == 'f' && WarningStyle[19] == 'f' && NormalStyle[19] == '9';
    assert CriticalStyle[20] == 'f' && WarningStyle[20] == 'f';
    assert CriticalStyle[21] == '4' && WarningStyle[21] == 'd';
  }

  /** `inv.style.apply(highlight, axis=1)`: the styles of every row. */
  function HeatMap(inventory: seq<InventoryRecord>): (styles: seq<seq<string>>)
    ensures |styles| == |inventory|
    ensures forall i :: 0 <= i < |inventory| ==> styles[i] == Highlight(inventory[i])
  {
    Map(Highlight, inventory)
  }

  /** Every cell of heat-map row i has the style of `inventory[i]`'s risk
      level: red for CRITICAL, yellow for WARNING and green for every other
      level; each row has one cell per column. */
  lemma HeatMapCellsByLevel(inventory: seq<InventoryRecord>)
    ensures |HeatMap(inventory)| == |inventory|
    ensures forall i :: 0 <= i < |inventory| ==> |HeatMap(inventory)[i]| == |InventoryColumns|
    ensures forall i, j :: 0 <= i < |inventory| && 0 <= j < |HeatMap(inventory)[i]| ==>
      StyleTier(HeatMap(inventory)[i][j]) == Some(
        if inventory[i].riskLevel == "CRITICAL" then Critical
        else if inventory[i].riskLevel == "WARNING" then Warning
        else Normal)
  {
    forall i, j | 0 <= i < |inventory| && 0 <= j < |HeatMap(inventory)[i]|
      ensures StyleTier(HeatMap(inventory)[i][j]) == Some(
        if inventory[i].riskLevel == "CRITICAL" then Critical
        else if inventory[i].riskLevel == "WARNING" then Warning
        else Normal)
    {
      HighlightPaintsRow(inventory[i]);
    }
  }

  /** A heat-map row is painted red exactly when the row is CRITICAL, and
      every CRITICAL row's (hospital, item, stock_left) projection is in the
      reorder export. A row of another level may share its projection with a
      CRITICAL row, so a projection in the export does not make a row red. */
  lemma HeatMapRedIffExported(inventory: seq<InventoryRecord>)
    ensures forall i :: 0 <= i < |inventory| ==>
      (HeatMap(inventory)[i][0] == CriticalStyle <==> IsCritical(inventory[i]))
    ensures forall i :: 0 <= i < |inventory| && IsCritical(inventory[i]) ==> ToReorderRow(inventory[i]) in ReorderList(inventory)
  {
    ReorderListMembers(inventory);
    forall i | 0 <= i < |inventory|
      ensures HeatMap(inventory)[i][0] == CriticalStyle <==> IsCritical(inventory[i])
    {
      HighlightPaintsRow(inventory[i]);
    }
    forall i | 0 <= i < |inventory| && IsCritical(inventory[i])
      ensures ToReorderRow(inventory[i]) in ReorderList(inventory)
    {
      assert inventory[i] in inventory;
    }
  }

  // ---------- "Is Data Quality OK?" ----------

  function DataQualityButton(visits: seq<VisitRecord>): Notice
  {
    var total := TotalMissing(visits);
    if total > 0 then Error("Warning: " + IntToString(total) + " missing values found in health records.")
    else Success("All health records look clean.")
  }

  // ---------- "Where is data missing?" ----------

  /** The report: a status box and, when records are missing data, the table
      of those records. */
  datatype MissingReport = MissingReport(notice: Notice, table: seq<MissingRow>)

  function MissingDataButton(visits: seq<VisitRecord>): MissingReport
  {
    var rows := MissingRecords(visits);
    if rows != [] then MissingReport(Error("Missing data found in these records:"), rows)
    else MissingReport(Success("No missing fields found in any record."), [])
  }

  /** The quality check warns exactly when the coalesced total is positive,
      and the warning prints that total: the number between "Warning: " and
      " missing values" reads back as the total itself. */
  lemma DataQualityShowsTotal(visits: seq<VisitRecord>)
    ensures DataQualityButton(visits).Error? <==> TotalMissing(visits) > 0
    ensures DataQualityButton(visits).Error? ==>
      DataQualityButton(visits).text ==
        "Warning: " + IntToString(TotalMissing(visits)) + " missing values found in health records."
    ensures DataQualityButton(visits).Error? ==>
      exists shown :: ParseInt(shown) == Some(TotalMissing(visits)) &&
        DataQualityButton(visits).text == "Warning: " + shown + " missing values found in health records."
    ensures DataQualityButton(visits).Success? ==>
      DataQualityButton(visits).text == "All health records look clean."
  {
    IntRoundTrip(TotalMissing(visits));
  }

  /** The two data-quality buttons agree whenever no count is negative: the
      quality check warns exactly when the report lists records, and then it
      prints the positive total. With no rows at all both report clean data. */
  lemma DataQualityButtonsAgree(visits: seq<VisitRecord>)
    requires forall i :: 0 <= i < |visits| ==> visits[i].missingFields.Some? ==> visits[i].missingFields.value >= 0
    ensures DataQualityButton(visits).Error? <==> MissingDataButton(visits).notice.Error?
    ensures MissingDataButton(visits).table == MissingRecords(visits)
    ensures DataQualityButton(visits).Error? ==>
      TotalMissing(visits) > 0 && DataQualityButton(visits).text ==
        "Warning: " + IntToString(TotalMissing(visits)) + " missing values found in health records."
    ensures visits == [] ==> DataQualityButton(visits) == Success("All health records look clean.")
  {
    TotalMissingPositiveIffReported(visits);
    if visits == [] {
      TotalMissingOfNulls(visits);
    }
  }

  /** One visit row with three missing fields: the quality check warns with
      that number and the report is a one-row table. */
  lemma OneRecordWithThreeMissing(v: VisitRecord)
    requires v.missingFields == Some(3)
    ensures DataQualityButton([v]) == Error("Warning: 3 missing values found in health records.")
    ensures MissingDataButton([v]).notice.Error? && |MissingDataButton([v]).table| == 1
  {
    assert DataQualityButton([v]) == Error("Warning: " + "3" + " missing values found in health records.") by {
      assert [v][1..] == [];
      assert SumMissing([v]) == Some(3);
      assert IntToString(3) == "3";
    }
    WarningThreeText();
    assert Filter(HasMissing, [v]) == [v] by {
      assert [v][1..] == [];
    }
  }

  lemma WarningThreeText()
    ensures "Warning: " + "3" + " missing values found in health records." ==
      "Warning: 3 missing values found in health records."
  {
    assert "Warning: " + "3" == "Warning: 3";
  }

  // ---------- "Export Reorder List" ----------

  /** The CSV an export writes, as its header and its rows of cells; the
      byte-level encoding is not modelled. */
  datatype Csv = Csv(header: seq<string>, rows: seq<seq<string>>)

  /** A download button with its caption, contents and file name. */
  datatype Download = Download(caption: string, data: Csv, fileName: string)

  const ReorderColumns := ["hospital", "item", "stock_left"]

  function ReorderCells(r: ReorderRow): seq<string>
  {
    [r.hospital, r.item, IntToString(r.stockLeft)]
  }

  /** `df.to_csv(index=False)`: the column names, then one line per row. */
  function ToCsv(rows: seq<ReorderRow>): Csv
  {
    Csv(ReorderColumns, Map(ReorderCells, rows))
  }

  function ExportReorder(inventory: seq<InventoryRecord>): Download
  {
    Download("Download CSV", ToCsv(ReorderList(inventory)), "reorder_list.csv")
  }

  /** Reads one CSV line back as a reorder row. */
  function ParseReorderCells(cells: seq<string>): Option<ReorderRow>
  {
    if |cells| != 3 then None
    else match ParseInt(cells[2])
      case Some(n) => Some(ReorderRow(cells[0], cells[1], n))
      case None => None
  }

  function ParseReorderRows(lines: seq<seq<string>>): Option<seq<ReorderRow>>
  {
    if lines == [] then Some([])
    else match (ParseReorderCells(lines[0]), ParseReorderRows(lines[1..]))
      case (Some(r), Some(rest)) => Some([r] + rest)
      case _ => None
  }

  /** Reads an exported CSV back; it must carry the export's header. */
  function ParseReorderCsv(csv: Csv): Option<seq<ReorderRow>>
  {
    if csv.header != ReorderColumns then None else ParseReorderRows(csv.rows)
  }

  lemma {:induction false} ReorderRowsRoundTrip(rows: seq<ReorderRow>)
    ensures ParseReorderRows(Map(ReorderCells, rows)) == Some(rows)
  {
    if rows != [] {
      IntRoundTrip(rows[0].stockLeft);
      assert Map(ReorderCells, rows)[1..] == Map(ReorderCells, rows[1..]);
      ReorderRowsRoundTrip(rows[1..]);
      assert [rows[0]] + rows[1..] == rows;
    }
  }

  /** Reading the exported file back yields exactly the reorder list, that
      is the CRITICAL rows in table order as (hospital, item, stock_left). */
  lemma ExportRoundTrip(inventory: seq<InventoryRecord>)
    ensures ExportReorder(inventory).fileName == "reorder_list.csv"
    ensures ParseReorderCsv(ExportReorder(inventory).data) == Some(ReorderList(inventory))
  {
    ReorderRowsRoundTrip(ReorderList(inventory));
  }

  // ---------- "Voice Alert for Critical Items" ----------

  function VoiceAlert(inventory: seq<InventoryRecord>): Notice
  {
    match TopCritical(inventory)
    case Some(r) => Error("Alert! " + r.item + " stock is critically low at " + r.hospital + " hospital.")
    case None => Success("All stocks are safe today.")
  }

  /** The alert names the same first critical row as the chat's inventory
      reply: it is that sentence with "Alert! " before it and " hospital"
      before its final full stop. With no critical row both are reassuring
      messages. */
  lemma VoiceAlertAgreesWithChat(anomalies: seq<AnomalyRecord>, inventory: seq<InventoryRecord>)
    ensures VoiceAlert(inventory).Error? <==> exists i :: 0 <= i < |inventory| && IsCritical(inventory[i])
    ensures VoiceAlert(inventory).Error? ==>
      var reply := Chat.Reply(Chat.InventoryQuery, anomalies, inventory);
      |reply| > 0 && reply[|reply| - 1] == '.' &&
      VoiceAlert(inventory).text == "Alert! " + reply[..|reply| - 1] + " hospital."
    ensures VoiceAlert(inventory).Success? ==>
      VoiceAlert(inventory).text == "All stocks are safe today." &&
      Chat.Reply(Chat.InventoryQuery, anomalies, inventory) == "All inventory looks healthy."
  {
    TopCriticalIsFirstCritical(inventory);
    if TopCritical(inventory).Some? {
      var r := TopCritical(inventory).value;
      var body := r.item + " stock is critically low at " + r.hospital;
      var reply := Chat.Reply(Chat.InventoryQuery, anomalies, inventory);
      assert reply == body + ".";
      assert reply[..|reply| - 1] == body;
    }
  }

  /** One CRITICAL row for insulin at GenHosp and no spike: the spike button
      reports none and the voice alert names the insulin row. */
  lemma InsulinAtGenHosp(anomalies: seq<AnomalyRecord>, row: InventoryRecord)
    requires anomalies == []
    requires row.hospital == "GenHosp" && row.item == "Insulin" && row.riskLevel == "CRITICAL"
    ensures SpikeButton(anomalies) == Success("No disease spikes.")
    ensures VoiceAlert([row]) == Error("Alert! Insulin stock is critically low at GenHosp hospital.")
  {
    assert VoiceAlert([row]) == Error("Alert! " + "Insulin" + " stock is critically low at " + "GenHosp" + " hospital.") by {
      assert [row][1..] == [];
      assert CriticalRows([row]) == [row];
      assert TopCritical([row]) == Some(row);
    }
    InsulinAlertText();
  }

  lemma InsulinAlertText()
    ensures "Alert! " + "Insulin" + " stock is critically low at " + "GenHosp" + " hospital." ==
      "Alert! Insulin stock is critically low at GenHosp hospital."
  {
    var a := "Alert! " + "Insulin";
    assert a == "Alert! Insulin";
    var b := a + " stock is critically low at ";
    assert b == "Alert! Insulin stock is critically low at ";
    assert b + "GenHosp" == "Alert! Insulin stock is critically low at GenHosp";
  }
}
