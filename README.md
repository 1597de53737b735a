# CareWatch AI dashboard logic, modelled in Dafny

CareWatch AI is a single Streamlit page for public-health staff, backed by a
warehouse. It has a keyword-routed chat box ("CareWatch Copilot") whose
transcript lives in the session. It shows a health risk score and an
inventory heat-map coloured by risk level. It also has buttons that report the
first disease spike, check data quality, list records with missing fields,
export a reorder list as CSV and raise a "voice" alert for the first critical
item.

This project models the deterministic logic around the warehouse calls. Each
SQL `SELECT` is a function over an in-memory copy of its table, kept in table
order:

- `seqs.dfy` (`Seqs`): `Filter` stands for a WHERE clause, `Map` for a column
  list, `First` for `LIMIT 1`. It proves that filtering keeps table order and
  that `LIMIT 1` after a filter gives the first matching row.
- `text.dfy` (`Text`): Python's `lower()` on ASCII letters, the substring test
  `k in q`, and `str(n)` for integers together with a parser that inverts it.
- `queries.dfy` (`Queries`): the three tables (`health_anomalies`,
  `inventory_health`, `public_health_visits`) and every query of the page:
  top spike, risk score, top critical row, reorder list, the coalesced sum of
  missing fields, and the missing-record report. `missing_fields` may be NULL,
  and NULL is handled as SQL handles it in `SUM`, `COALESCE` and `> 0`.
- `chat.dfy` (`Chat`):
  - `Classify`, the intent router: lower-case the text, then disease keywords
    before inventory keywords, first match wins.
  - `Reply`, the reply builder.
  - `ChatStep`: one submission applied to the transcript.
  - the `ConversationLog` class, holding `st.session_state.messages` as a
    `seq<Turn>`. It has a constructor (the empty list of a new session), a
    `Submit` method that appends the user turn and then the assistant turn,
    and a `Render` loop that shows the turns in order.
- `panels.dfy` (`Panels`): the risk metric text, the five buttons' outputs,
  `highlight` and the heat-map, and the CSV export with a reader for it.

The warehouse tables are parameters of every operation. A button press is the
function of the tables it calls. A chat submission passes the tables as they
are at the moment of submission.

## Model

| member | source | states |
|---|---|---|
| Chat.ClassifyIsFirstMatch | streamlit_app.py:18-37 | `Classify` equals evaluating the ordered rule list (disease keywords, then inventory keywords) over the lower-cased text; the first matching rule wins and no match gives `Unknown` |
| Chat.ClassifyIgnoresCase | streamlit_app.py:18 | the text and its lower-cased form are routed to the same intent |
| Chat.DiseaseKeywordWins | streamlit_app.py:18-20 | "malaria" or "disease" in any casing routes to the disease branch, whatever inventory keywords are also present |
| Chat.InventoryKeywordRoutes | streamlit_app.py:18-28 | "stock" or "inventory" in any casing routes to the inventory branch exactly when no disease keyword occurs |
| Chat.NoKeywordFallsBack | streamlit_app.py:36-37 | text containing none of the four keywords (after lower-casing) is `Unknown` and gets the fixed fallback reply, whatever the tables hold |
| Chat.MalariaStockIsDisease | streamlit_app.py:20-28 | "any malaria stock issues?" contains "stock" and is still routed as a disease question |
| Chat.DiseaseReplyFromFirstSpike | streamlit_app.py:21-26 | the disease reply is "<disease> cases spiked in <region> region." for the first spike row, and it is "No disease spikes today." exactly when there is no spike row |
| Chat.InventoryReplyFromFirstCritical | streamlit_app.py:28-34 | the inventory reply is "<item> stock is critically low at <hospital>." for the first CRITICAL row, and it is "All inventory looks healthy." exactly when there is no such row |
| Chat.ChatStepAppends | streamlit_app.py:15-39 | an empty submission leaves the log alone; otherwise the log grows by exactly two turns, the user's text as typed (not lower-cased) and then the reply, earlier turns are unchanged, and the log keeps its alternating shape (as long as every chat query succeeds) |
| Chat.ConversationLog.constructor | streamlit_app.py:10-11 | a new session's message list is empty (and well formed) |
| Chat.ConversationLog.Submit | streamlit_app.py:15-39 | the new list is `ChatStep` of the old list for this submission and these tables; the alternating user/assistant shape is preserved (as long as every chat query succeeds) |
| Chat.ConversationLog.Render | streamlit_app.py:41-42 | the turns shown are exactly the list's turns, in order |
| Queries.TopSpikeIsFirstSpike | streamlit_app.py:21-24 | the `LIMIT 1` spike query is empty exactly when no row has `is_spike='YES'`, and otherwise returns the first such row |
| Queries.TopCriticalIsFirstCritical | streamlit_app.py:29-32 | the `LIMIT 1` critical query is empty exactly when no row is CRITICAL, and otherwise returns the first such row |
| Queries.RiskScoreGrowth | streamlit_app.py:46 | the risk score is 0 exactly when there is no spike, and each further row adds 30 if it is a spike and 0 otherwise (so the score is 30 times the spike count) |
| Queries.RiskScoreExceedsScale | streamlit_app.py:46-47 | the score is not capped: a table of n >= 4 rows, all of them spikes, scores 30·n > 100 |
| Queries.ReorderListInOrder | streamlit_app.py:108-112 | the export has one row per CRITICAL row, in table order: the k-th critical row, projected to (hospital, item, stock_left), is row k of the export |
| Queries.ReorderListMembers | streamlit_app.py:108-112 | a row is in the export exactly when it is the (hospital, item, stock_left) projection of some CRITICAL row |
| Queries.TotalMissingOfNulls | streamlit_app.py:81-83 | with no rows, or only NULL counts, `SUM` is NULL and the coalesced total is 0 |
| Queries.TotalMissingGrowth | streamlit_app.py:81 | appending a visit row adds its count to the coalesced total, or 0 when the count is NULL, and `SUM` stays NULL exactly while every count is NULL |
| Queries.TotalMissingPositiveIffReported | streamlit_app.py:80-97 | when no count is negative, the total is non-negative, and it is positive exactly when the `missing_fields > 0` report is non-empty |
| Panels.RiskMetricShowsScore | streamlit_app.py:46-47 | the metric is "<score> / 100", and the text before " / 100" reads back as the uncapped score |
| Panels.SpikeButtonAgreesWithChat | streamlit_app.py:50-58 | the button shows an error exactly when a spike row exists, with the chat's sentence; otherwise it shows "No disease spikes.", while the chat says "No disease spikes today." |
| Panels.HighlightPaintsRow | streamlit_app.py:68-74 | `highlight` gives one style per column of the row, all of them equal; the colour reads back as CRITICAL, WARNING, or normal for every other level, so no level makes it fail |
| Panels.HeatMapCellsByLevel | streamlit_app.py:68-76 | the heat-map has one row per inventory row and one cell per column, and every cell of row i is red for CRITICAL, yellow for WARNING and green for any other level of row i |
| Panels.HeatMapRedIffExported | streamlit_app.py:68-76 | a heat-map row is painted red exactly when the row is CRITICAL, and every CRITICAL row's (hospital, item, stock_left) projection is in the reorder export |
| Panels.DataQualityShowsTotal | streamlit_app.py:79-88 | for any counts, the quality check warns exactly when the coalesced total is > 0, and the warning is "Warning: <total> missing values found in health records." where <total> reads back as that total; otherwise it says "All health records look clean." |
| Panels.DataQualityButtonsAgree | streamlit_app.py:79-103 | with non-negative counts, "Is Data Quality OK?" warns exactly when "Where is data missing?" finds records; the warning prints the positive coalesced total, the table is the `missing_fields > 0` report, and with no rows the check says the records are clean |
| Panels.OneRecordWithThreeMissing | streamlit_app.py:80-103 | one visit with 3 missing fields gives "Warning: 3 missing values found in health records." and a one-row missing-data table |
| Panels.ExportRoundTrip | streamlit_app.py:107-113 | the download is named "reorder_list.csv", and reading its header and rows back gives exactly the reorder list |
| Panels.VoiceAlertAgreesWithChat | streamlit_app.py:116-126 | the alert fires exactly when a CRITICAL row exists; it is the chat's inventory sentence with "Alert! " in front and " hospital" before the final full stop, and otherwise it is "All stocks are safe today." |
| Panels.InsulinAtGenHosp | streamlit_app.py:116-126 | with no spike rows and one CRITICAL Insulin row at GenHosp, the spike button (lines 50-58) says "No disease spikes." and the alert says "Alert! Insulin stock is critically low at GenHosp hospital." |
| Text.ContainsIff | streamlit_app.py:20 | the substring test `k in q` holds exactly when `k` occurs at some index of `q` |
| Text.ContainsLower | streamlit_app.py:18-20 | a keyword occurring in the text in any casing occurs, lower-cased, in the lower-cased text |
| Text.LowerIdempotent | streamlit_app.py:18 | lower-cased text has no capital letter, and lower-casing it again changes nothing |
| Text.IntRoundTrip | streamlit_app.py:113 | every integer stock level written into the CSV reads back as itself |

## Left out

- The warehouse session and SQL execution (`get_active_session`, `session.sql(...).collect()` and `.to_pandas()`). Tables are in-memory sequences. A failing query raises in the Streamlit page, and that error path is not modelled.
- Chat.ChatStepAppends, Chat.ConversationLog.Submit: the source appends the user turn (streamlit_app.py:16) before it runs the chat query (lines 21-24 or 29-32). If that query fails, the script stops with an unanswered user turn in the log, and the next submission leaves two user turns in a row. The model has no failing query, so the alternating shape it proves holds only while every chat query succeeds.
- Streamlit rendering: titles, subheaders, `st.metric`, `st.dataframe`, `st.chat_message`, and the way the script reruns on every interaction. Each button is modelled as the output it would display.
- Queries.TopSpikeIsFirstSpike: `LIMIT 1` without `ORDER BY` lets the warehouse return any matching row. The model fixes it to the first matching row in table order. The same holds for Queries.TopCriticalIsFirstCritical and every reply and alert built from them. The plain SELECTs behind the reorder export and the missing-data report have no `ORDER BY` either, and the model likewise fixes their rows to table order (Queries.ReorderListInOrder, Panels.ExportRoundTrip).
- Text.LowerIdempotent: `Lower` maps only the ASCII capitals A–Z. Python's `str.lower` also maps other Unicode letters, some of them to two characters.
- The score shown next to "/ 100" is not capped. The model keeps the code's uncapped value and proves that it exceeds 100 from four spike rows on.
- Panels.ExportRoundTrip: the CSV is modelled as its header and rows of cells. The byte encoding of `df.to_csv` (quoting, separators, line endings) is not modelled, and neither is any real CSV parsing.
- The pandas Styler call itself (`inv.style.apply`) is modelled only as the per-row style lists it receives from `highlight`.
- The driver upper-cases column names (`DISEASE`, `REGION`, `TOTAL_MISSING`, ...). The model uses the column names of the SELECT statements, including in the CSV header.
- The "Voice Mode Enabled" info box shown beside the alert (streamlit_app.py:124). It is a fixed label with no logic.
- NULL text values (a NULL disease, region, item or hospital would print as "None"). Text columns are modelled as strings. Only `missing_fields` is nullable.
- `st.chat_input` returns None when nothing was submitted. None and the empty string are both falsy in the source, so both are modelled as the empty string, which leaves the log unchanged.
- The end of a session, which discards the log, is outside the model.
