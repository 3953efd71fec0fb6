/** Concrete runs of the generation model. */
module DocumentServiceExamples {
  import opened Wrappers
  import opened Text
  import opened Entities
  import opened DocumentService

  function ClientField(): TemplateField {
    TemplateField(1, 7, "client_name", "Client name", "text", true, None, "{{CLIENT}}", 1)
  }

  function AmountField(): TemplateField {
    TemplateField(2, 7, "amount", "Amount", "number", false, None, "{{AMOUNT}}", 2)
  }

  function Fields(): seq<TemplateField> { [ClientField(), AmountField()] }

  function ClientData(): ValueMap { map["client_name" := Some("Acme Corp")] }

  /** A node holding neither placeholder passes through the example's fields. */
  lemma KeptWithoutPlaceholders(node: string)
    requires !Contains(node, "{{CLIENT}}") && !Contains(node, "{{AMOUNT}}")
    ensures FillNode(node, Fields(), ClientData()) == node
  {
    FillNodeUntouched(node, Fields(), ClientData());
  }

  lemma FirstNodeKept()
    ensures FillNode("Dear {{CLI", Fields(), ClientData()) == "Dear {{CLI"
  {
    MissingCharExcludes("Dear {{CLI", "{{CLIENT}}", 'N');
    MissingCharExcludes("Dear {{CLI", "{{AMOUNT}}", 'M');
    KeptWithoutPlaceholders("Dear {{CLI");
  }

  lemma SecondNodeKept()
    ensures FillNode("ENT}}, your total is ", Fields(), ClientData()) == "ENT}}, your total is "
  {
    MissingCharExcludes("ENT}}, your total is ", "{{CLIENT}}", '{');
    MissingCharExcludes("ENT}}, your total is ", "{{AMOUNT}}", '{');
    KeptWithoutPlaceholders("ENT}}, your total is ");
  }

  lemma ThirdNodeEmptied()
    ensures FillNode("{{AMOUNT}}.", Fields(), ClientData()) == "."
  {
    MissingCharExcludes("{{AMOUNT}}.", "{{CLIENT}}", 'C');
    assert ApplyField("{{AMOUNT}}.", ClientField(), ClientData()) == "{{AMOUNT}}.";
    assert OccursAt("{{AMOUNT}}.", "{{AMOUNT}}", 0);
    assert ReplaceAll("{{AMOUNT}}.", "{{AMOUNT}}", "") == ".";
  }

  /** A placeholder split across two text nodes is left as it is, while an
      optional field without a value is deleted from its node. */
  lemma SplitPlaceholderLeftIntact()
    ensures Generate(Fields(), "t.docx", ClientData(), ["Dear {{CLI", "ENT}}, your total is ", "{{AMOUNT}}."])
         == (Generated("t.docx"), ["Dear {{CLI", "ENT}}, your total is ", "."])
  {
    var body := ["Dear {{CLI", "ENT}}, your total is ", "{{AMOUNT}}."];
    assert FirstMissing(Fields(), ClientData()) == None;
    assert PlaceholdersNonEmpty(Fields());
    var r := FillBody(body, Fields(), ClientData());
    FirstNodeKept();
    SecondNodeKept();
    ThirdNodeEmptied();
    assert r[0] == "Dear {{CLI" && r[1] == "ENT}}, your total is " && r[2] == ".";
    assert r == ["Dear {{CLI", "ENT}}, your total is ", "."];
  }

  /** With no data at all, the required client name stops the run. */
  lemma EmptyDataRejected()
    ensures Generate(Fields(), "t.docx", map[], ["Dear {{CLIENT}}"])
         == (Failed(RequiredFieldMissing("Client name")), ["Dear {{CLIENT}}"])
  {
  }

  function FieldA(): TemplateField { TemplateField(3, 7, "a", "A", "text", false, None, "{{A}}", 1) }

  function FieldB(): TemplateField { TemplateField(4, 7, "b", "B", "text", false, None, "{{B}}", 2) }

  /** A's value inserts B's placeholder. */
  function ChainData(): ValueMap { map["a" := Some("{{B}}"), "b" := Some("x")] }

  /** A later field's placeholder is replaced inside the value an earlier
      field put into the node ... */
  lemma LaterFieldSeesEarlierValue()
    ensures FillNode("{{A}}", [FieldA(), FieldB()], ChainData()) == "x"
  {
    assert OccursAt("{{A}}", "{{A}}", 0);
    assert ApplyField("{{A}}", FieldA(), ChainData()) == "{{B}}";
    assert OccursAt("{{B}}", "{{B}}", 0);
    assert ApplyField("{{B}}", FieldB(), ChainData()) == "x";
  }

  /** ... but not the other way round: run B first and A's value keeps B's
      placeholder. */
  lemma EarlierFieldMissesLaterValue()
    ensures FillNode("{{A}}", [FieldB(), FieldA()], ChainData()) == "{{B}}"
  {
    MissingCharExcludes("{{A}}", "{{B}}", 'B');
    assert ApplyField("{{A}}", FieldB(), ChainData()) == "{{A}}";
    assert OccursAt("{{A}}", "{{A}}", 0);
    assert ApplyField("{{A}}", FieldA(), ChainData()) == "{{B}}";
  }
}
