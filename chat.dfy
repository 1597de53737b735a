/** The CareWatch Copilot chat box: an intent router over keyword
    containment, the reply built from the first matching record, and the
    session's conversation log. */
module Chat {
  import opened Seqs
  import opened Text
  import opened Queries

  datatype Intent = DiseaseQuery | InventoryQuery | Unknown

  const Fallback := "Try asking about disease spikes or inventory stock levels."
  const NoSpikesToday := "No disease spikes today."
  const InventoryHealthy := "All inventory looks healthy."

  /** The router: lower-case the text, then test the disease keywords before
      the inventory keywords; the first test that holds decides. */
  function Classify(text: string): Intent
  {
    var q := Lower(text);
    if Contains(q, "malaria") || Contains(q, "disease") then DiseaseQuery
    else if Contains(q, "stock") || Contains(q, "inventory") then InventoryQuery
    else Unknown
  }

  /** The reply for a routed message, built from the first spike row or the
      first critical inventory row. */
  function Reply(intent: Intent, anomalies: seq<AnomalyRecord>, inventory: seq<InventoryRecord>): string
  {
    match intent
    case DiseaseQuery =>
      (match TopSpike(anomalies)
       case Some(a) => a.disease + " cases spiked in " + a.region + " region."
       case None => NoSpikesToday)
    case InventoryQuery =>
      (match TopCritical(inventory)
       case Some(r) => r.item + " stock is critically low at " + r.hospital + "."
       case None => InventoryHealthy)
    case Unknown => Fallback
  }

  // ---------- the router as an ordered rule list ----------

  /** A routing rule: the intent chosen when any of the keywords occurs. */
  datatype Rule = Rule(keywords: seq<string>, intent: Intent)

  const Rules := [Rule(["malaria", "disease"], DiseaseQuery), Rule(["stock", "inventory"], InventoryQuery)]

  predicate Matches(rule: Rule, q: string)
  {
    exists k :: k in rule.keywords && Contains(q, k)
  }

  /** First match wins; `Unknown` when no rule matches. */
  function Route(rules: seq<Rule>, q: string): Intent
  {
    if rules == [] then Unknown
    else if Matches(rules[0], q) then rules[0].intent
    else Route(rules[1..], q)
  }

  /** `Classify` is the first-match evaluation of the ordered rule list over
      the lower-cased text. */
  lemma ClassifyIsFirstMatch(text: string)
    ensures Classify(text) == Route(Rules, Lower(text))
  {
    var q := Lower(text);
    assert Matches(Rules[0], q) <==> Contains(q, "malaria") || Contains(q, "disease") by {
      assert Rules[0].keywords == ["malaria", "disease"];
    }
    assert Matches(Rules[1], q) <==> Contains(q, "stock") || Contains(q, "inventory") by {
      assert Rules[1].keywords == ["stock", "inventory"];
    }
    assert Rules[1..][0] == Rules[1] && Rules[1..][1..] == [];
    assert Route(Rules[1..][1..], q) == Unknown;
    assert Route(Rules[1..], q) == if Matches(Rules[1], q) then InventoryQuery else Unknown;
    assert Route(Rules, q) == if Matches(Rules[0], q) then DiseaseQuery else Route(Rules[1..], q);
  }

  // ---------- properties of the router ----------

  /** Matching ignores case: the text and its lower-cased form are routed
      alike. */
  lemma ClassifyIgnoresCase(text: string)
    ensures Classify(Lower(text)) == Classify(text)
  {
    LowerIdempotent(text);
  }

  /** A disease keyword in any casing sends the text down the disease branch,
      whatever inventory keywords it also holds. */
  lemma DiseaseKeywordWins(text: string, keyword: string)
    requires Lower(keyword) == "malaria" || Lower(keyword) == "disease"
    requires Contains(text, keyword)
    ensures Classify(text) == DiseaseQuery
  {
    ContainsLower(text, keyword);
  }

  /** An inventory keyword in any casing routes to inventory unless a disease
      keyword occurs too. */
  lemma InventoryKeywordRoutes(text: string, keyword: string)
    requires Lower(keyword) == "stock" || Lower(keyword) == "inventory"
    requires Contains(text, keyword)
    ensures Classify(text) == InventoryQuery <==>
      !(Contains(Lower(text), "malaria") || Contains(Lower(text), "disease"))
  {
    ContainsLower(text, keyword);
  }

  /** Text in which none of the four keywords occurs, in any casing, is
      answered with the fixed fallback reply, whatever the tables hold. */
  lemma NoKeywordFallsBack(text: string, anomalies: seq<AnomalyRecord>, inventory: seq<InventoryRecord>)
    requires forall k :: k in ["malaria", "disease", "stock", "inventory"] ==> !Contains(Lower(text), k)
    ensures Classify(text) == Unknown
    ensures Reply(Classify(text), anomalies, inventory) == Fallback
  {
    assert !Contains(Lower(text), "malaria") && !Contains(Lower(text), "disease");
    assert !Contains(Lower(text), "stock") && !Contains(Lower(text), "inventory");
  }

  /** "any malaria stock issues?" is a disease question although "stock"
      also occurs in it. */
  lemma MalariaStockIsDisease(text: string)
    requires text == "any malaria stock issues?"
    ensures Contains(text, "stock")
    ensures Classify(text) == DiseaseQuery
  {
    MalariaStockText();
    ContainsInfix("any malaria ", "stock", " issues?");
    ContainsInfix("any ", "malaria", " stock issues?");
    LowerOfLowerCase(text);
  }

  lemma MalariaStockText()
    ensures "any malaria stock issues?" == "any malaria " + "stock" + " issues?"
    ensures "any malaria stock issues?" == "any " + "malaria" + " stock issues?"
    ensures forall i :: 0 <= i < |"any malaria stock issues?"| ==> !IsUpper("any malaria stock issues?"[i])
  {
  }

  // ---------- properties of the replies ----------

  /** The disease reply names the first spike row; it is exactly the "none"
      message when there is no spike row, and only then. */
  lemma DiseaseReplyFromFirstSpike(anomalies: seq<AnomalyRecord>, inventory: seq<InventoryRecord>)
    ensures Reply(DiseaseQuery, anomalies, inventory) == NoSpikesToday <==>
      forall i :: 0 <= i < |anomalies| ==> !IsSpike(anomalies[i])
    ensures forall i ::
      (0 <= i < |anomalies| && IsSpike(anomalies[i]) && forall j :: 0 <= j < i ==> !IsSpike(anomalies[j])) ==>
      Reply(DiseaseQuery, anomalies, inventory) ==
        anomalies[i].disease + " cases spiked in " + anomalies[i].region + " region."
  {
    TopSpikeIsFirstSpike(anomalies);
    var r := Reply(DiseaseQuery, anomalies, inventory);
    if TopSpike(anomalies).Some? {
      var a := TopSpike(anomalies).value;
      assert r[|r| - 2] == 'n' by {
        assert r == (a.disease + " cases spiked in " + a.region) + " region.";
      }
      assert NoSpikesToday[|NoSpikesToday| - 2] == 'y';
      var i :| 0 <= i < |anomalies| && IsSpike(anomalies[i]) && a == anomalies[i] &&
        forall j :: 0 <= j < i ==> !IsSpike(anomalies[j]);
      forall i' | 0 <= i' < |anomalies| && IsSpike(anomalies[i']) && (forall j :: 0 <= j < i' ==> !IsSpike(anomalies[j]))
        ensures anomalies[i'] == a
      {
        assert !(i < i') && !(i' < i);
      }
    }
  }

  /** The inventory reply names the first critical row; it is exactly the
      "healthy" message when there is no critical row, and only then. */
  lemma InventoryReplyFromFirstCritical(anomalies: seq<AnomalyRecord>, inventory: seq<InventoryRecord>)
    ensures Reply(InventoryQuery, anomalies, inventory) == InventoryHealthy <==>
      forall i :: 0 <= i < |inventory| ==> !IsCritical(inventory[i])
    ensures forall i ::
      (0 <= i < |inventory| && IsCritical(inventory[i]) && forall j :: 0 <= j < i ==> !IsCritical(inventory[j])) ==>
      Reply(InventoryQuery, anomalies, inventory) ==
        inventory[i].item + " stock is critically low at " + inventory[i].hospital + "."
  {
    TopCriticalIsFirstCritical(inventory);
    var r := Reply(InventoryQuery, anomalies, inventory);
    if TopCritical(inventory).Some? {
      var c := TopCritical(inventory).value;
      var prefix := c.item + " stock is critically low at ";
      assert r == prefix + c.hospital + ".";
      // the reply contains " stock is critically low at " and is longer than the healthy message
      assert |r| >= |" stock is critically low at "| + 1;
      assert |InventoryHealthy| < |" stock is critically low at "| + 1;
      var i :| 0 <= i < |inventory| && IsCritical(inventory[i]) && c == inventory[i] &&
        forall j :: 0 <= j < i ==> !IsCritical(inventory[j]);
      forall i' | 0 <= i' < |inventory| && IsCritical(inventory[i']) && (forall j :: 0 <= j < i' ==> !IsCritical(inventory[j]))
        ensures inventory[i'] == c
      {
        assert !(i < i') && !(i' < i);
      }
    }
  }

  // ---------- the conversation log ----------

  datatype Role = User | Assistant

  datatype Turn = Turn(role: Role, content: string)

  /** One chat submission applied to the log: nothing happens for an empty
      (falsy) submission; otherwise the user's text, as typed, is appended,
      then the assistant's reply. */
  function ChatStep(log: seq<Turn>, userMsg: string, anomalies: seq<AnomalyRecord>, inventory: seq<InventoryRecord>): seq<Turn>
  {
    if userMsg == "" then log
    else log + [Turn(User, userMsg), Turn(Assistant, Reply(Classify(userMsg), anomalies, inventory))]
  }

  /** The shape of every log the chat box builds: user and assistant turns
      alternate, starting with a user turn, every user turn is non-empty and
      every assistant turn is the reply its user turn was routed to for some
      contents of the tables. */
  ghost predicate WellFormed(log: seq<Turn>)
  {
    |log| % 2 == 0 &&
    forall k :: 0 <= k < |log| / 2 ==>
      log[2 * k].role == User && log[2 * k].content != "" &&
      log[2 * k + 1].role == Assistant &&
      exists anomalies, inventory :: log[2 * k + 1].content == Reply(Classify(log[2 * k].content), anomalies, inventory)
  }

  /** A submission grows the log by exactly two turns, the user's original
      text and then the reply, or leaves it alone when it is empty; earlier
      turns are untouched and the log keeps its shape. */
  lemma ChatStepAppends(log: seq<Turn>, userMsg: string, anomalies: seq<AnomalyRecord>, inventory: seq<InventoryRecord>)
    requires WellFormed(log)
    ensures WellFormed(ChatStep(log, userMsg, anomalies, inventory))
    ensures userMsg == "" ==> ChatStep(log, userMsg, anomalies, inventory) == log
    ensures userMsg != "" ==>
      var log' := ChatStep(log, userMsg, anomalies, inventory);
      |log'| == |log| + 2 && log'[..|log|] == log &&
      log'[|log|] == Turn(User, userMsg) &&
      log'[|log| + 1] == Turn(Assistant, Reply(Classify(userMsg), anomalies, inventory))
  {
    var log' := ChatStep(log, userMsg, anomalies, inventory);
    if userMsg != "" {
      forall k | 0 <= k < |log'| / 2
        ensures log'[2 * k].role == User && log'[2 * k].content != ""
        ensures log'[2 * k + 1].role == Assistant
        ensures exists a, i :: log'[2 * k + 1].content == Reply(Classify(log'[2 * k].content), a, i)
      {
        if k < |log| / 2 {
          assert log'[2 * k] == log[2 * k] && log'[2 * k + 1] == log[2 * k + 1];
        } else {
          assert 2 * k == |log|;
          assert log'[2 * k + 1].content == Reply(Classify(log'[2 * k].content), anomalies, inventory);
        }
      }
    }
  }

  /** The session's message list (`st.session_state.messages`). */
  class ConversationLog {
    var messages: seq<Turn>

    ghost predicate Valid()
      reads this
    {
      WellFormed(messages)
    }

    /** A new session starts with an empty list. */
    constructor ()
      ensures Valid()
      ensures messages == []
    {
      messages := [];
    }

    /** Handles one chat submission against the current contents of the
        tables. */
    method Submit(userMsg: string, anomalies: seq<AnomalyRecord>, inventory: seq<InventoryRecord>)
      requires Valid()
      modifies this
      ensures Valid()
      ensures messages == ChatStep(old(messages), userMsg, anomalies, inventory)
    {
      ChatStepAppends(messages, userMsg, anomalies, inventory);
      if userMsg != "" {
        ghost var before := messages;
        messages := messages + [Turn(User, userMsg)];
        var reply := Reply(Classify(userMsg), anomalies, inventory);
        messages := messages + [Turn(Assistant, reply)];
        assert messages == before + [Turn(User, userMsg), Turn(Assistant, reply)];
      }
    }

    /** Renders the log: one chat bubble per turn, in order. */
    method Render() returns (shown: seq<Turn>)
      ensures shown == messages
    {
      shown := [];
      for i := 0 to |messages|
        invariant shown == messages[..i]
      {
        shown := shown + [messages[i]];
      }
    }
  }
}
