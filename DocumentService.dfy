/** Document generation as DocumentService.GenerateWordDocumentAsync performs
    it: look the template up, check its required fields against the request
    data, then rewrite every text node of the Word document's main part by
    replacing each field's placeholder with the field's value. The Word
    package is reduced to the array of the text nodes of its main document
    part, in document order; headers, footers, footnotes and endnotes are
    other parts and are not searched. */
module DocumentService {
  import opened Wrappers
  import opened Text
  import opened Entities

  /** The request data: each key's value in its ToString() form, None for null. */
  type ValueMap = map<string, Option<string>>

  type byte = x: int | 0 <= x < 256

  /** Why generation produced no document. TemplateNotFound and
      RequiredFieldMissing are the InvalidOperationExceptions the service
      throws; EmptyPlaceholder is the ArgumentException String.Replace throws
      for an empty search string. */
  datatype GenerationError =
    | TemplateNotFound
    | RequiredFieldMissing(fieldLabel: string)
    | EmptyPlaceholder

  /** The outcome of a generation run. On success, the path of the Word file
      that was loaded from storage; the rewritten text nodes are the document. */
  datatype Outcome = Generated(loadedFrom: string) | Failed(error: GenerationError)

  const MissingPrefix := "Required field '"
  const MissingSuffix := "' is missing"

  /** The message of the InvalidOperationException behind an error, which the
      documents controller returns as the body of a 400 response; None for the
      ArgumentException, which it does not catch. */
  function Message(e: GenerationError): (m: Option<string>)
    ensures m.None? <==> e.EmptyPlaceholder?
    ensures e.TemplateNotFound? ==> m == Some("Template not found")
    ensures e.RequiredFieldMissing? ==>
      |m.value| == |MissingPrefix| + |e.fieldLabel| + |MissingSuffix| &&
      m.value[..|MissingPrefix|] == MissingPrefix &&
      m.value[|MissingPrefix|..|MissingPrefix| + |e.fieldLabel|] == e.fieldLabel &&
      m.value[|MissingPrefix| + |e.fieldLabel|..] == MissingSuffix
  {
    match e
    case TemplateNotFound => Some("Template not found")
    case RequiredFieldMissing(l) => Some(MissingPrefix + l + MissingSuffix)
    case EmptyPlaceholder => None
  }

  /** The text substituted for a key: `data[key]?.ToString() ?? ""` when the
      key is present, "" when it is not. */
  function ValueText(data: ValueMap, key: string): (v: string)
    ensures v == "" <==> IsMissing(data, key)
    ensures key in data && data[key].Some? ==> v == data[key].value
  {
    if key in data then data[key].GetOr("") else ""
  }

  /** The key is absent, or its value is null or renders as the empty string. */
  predicate IsMissing(data: ValueMap, key: string) {
    key !in data || data[key] == None || data[key] == Some("")
  }

  /** A field that stops generation: it is required and its value is missing. */
  predicate Blocks(f: TemplateField, data: ValueMap) {
    f.isRequired && IsMissing(data, f.fieldKey)
  }

  /** The index of the first field, in field order, that stops generation. */
  function FirstMissing(fields: seq<TemplateField>, data: ValueMap): (r: Option<nat>)
    ensures r.Some? ==> r.value < |fields| && Blocks(fields[r.value], data)
    ensures r.Some? ==> forall j :: 0 <= j < r.value ==> !Blocks(fields[j], data)
    ensures r.None? <==> forall j :: 0 <= j < |fields| ==> !Blocks(fields[j], data)
    decreases |fields|
  {
    if fields == [] then
      None
    else if Blocks(fields[0], data) then
      Some(0)
    else
      match FirstMissing(fields[1..], data)
      case None => None
      case Some(k) => Some(k + 1)
  }

  /** The validation loop: walks the fields in order and stops at the first
      required one whose value is missing. */
  method FindMissingRequired(fields: seq<TemplateField>, data: ValueMap) returns (missing: Option<nat>)
    ensures missing == FirstMissing(fields, data)
  {
    var i := 0;
    while i < |fields|
      invariant 0 <= i <= |fields|
      invariant forall j :: 0 <= j < i ==> !Blocks(fields[j], data)
    {
      var f := fields[i];
      if f.isRequired && (f.fieldKey !in data || data[f.fieldKey] == None || data[f.fieldKey] == Some("")) {
        return Some(i);
      }
      i := i + 1;
    }
    return None;
  }

  /** Every field has a non-empty placeholder. */
  predicate PlaceholdersNonEmpty(fields: seq<TemplateField>) {
    forall i :: 0 <= i < |fields| ==> fields[i].placeholder != []
  }

  /** The index of the first field whose placeholder is empty. */
  function FirstEmptyPlaceholder(fields: seq<TemplateField>): (r: Option<nat>)
    ensures r.Some? ==> r.value < |fields| && fields[r.value].placeholder == []
    ensures r.Some? ==> PlaceholdersNonEmpty(fields[..r.value])
    ensures r.None? <==> PlaceholdersNonEmpty(fields)
    decreases |fields|
  {
    if fields == [] then
      None
    else if fields[0].placeholder == [] then
      Some(0)
    else
      match FirstEmptyPlaceholder(fields[1..])
      case None => None
      case Some(k) =>
        assert fields[..k + 1] == [fields[0]] + fields[1..][..k];
        Some(k + 1)
  }

  /** One field applied to one text node: when the node contains the
      placeholder, every occurrence is replaced by the field's value. */
  function ApplyField(text: string, f: TemplateField, data: ValueMap): string
    requires f.placeholder != []
  {
    if Contains(text, f.placeholder) then ReplaceAll(text, f.placeholder, ValueText(data, f.fieldKey)) else text
  }

  /** All fields applied to one text node, in field order. */
  function FillNode(text: string, fields: seq<TemplateField>, data: ValueMap): string
    requires PlaceholdersNonEmpty(fields)
    decreases |fields|
  {
    if fields == [] then text else FillNode(ApplyField(text, fields[0], data), fields[1..], data)
  }

  /** Every text node filled on its own; nodes are neither added, removed
      nor reordered. */
  function FillBody(body: seq<string>, fields: seq<TemplateField>, data: ValueMap): (r: seq<string>)
    requires PlaceholdersNonEmpty(fields)
    ensures |r| == |body|
    ensures forall i :: 0 <= i < |body| ==> r[i] == FillNode(body[i], fields, data)
    decreases |body|
  {
    if body == [] then [] else [FillNode(body[0], fields, data)] + FillBody(body[1..], fields, data)
  }

  /** What generation from a found template does to the text nodes `body`
      of its Word file's main document part, and what it reports. */
  function Generate(fields: seq<TemplateField>, path: string, data: ValueMap, body: seq<string>): (Outcome, seq<string>) {
    match FirstMissing(fields, data)
    case Some(k) => (Failed(RequiredFieldMissing(fields[k].fieldLabel)), body)
    case None =>
      match FirstEmptyPlaceholder(fields)
      case Some(k) =>
        if body == [] then (Generated(path), body)
        else (Failed(EmptyPlaceholder), [FillNode(body[0], fields[..k], data)] + body[1..])
      case None => (Generated(path), FillBody(body, fields, data))
  }

  /** The inner loop of the node rewrite: every field, in order, applied to
      text node `i`. The search for an empty placeholder makes String.Replace
      throw, reported as `thrown`, with the fields before it already applied. */
  method FillTextNode(body: array<string>, i: nat, fields: seq<TemplateField>, data: ValueMap) returns (thrown: bool)
    requires i < body.Length
    modifies body
    ensures thrown <==> FirstEmptyPlaceholder(fields).Some?
    ensures !thrown ==> body[i] == FillNode(old(body[i]), fields, data)
    ensures thrown ==> body[i] == FillNode(old(body[i]), fields[..FirstEmptyPlaceholder(fields).value], data)
    ensures forall k :: 0 <= k < body.Length && k != i ==> body[k] == old(body[k])
  {
    var j := 0;
    while j < |fields|
      invariant 0 <= j <= |fields|
      invariant PlaceholdersNonEmpty(fields[..j])
      invariant body[i] == FillNode(old(body[i]), fields[..j], data)
      invariant forall k :: 0 <= k < body.Length && k != i ==> body[k] == old(body[k])
    {
      var f := fields[j];
      if f.placeholder == [] {
        assert FirstEmptyPlaceholder(fields) == Some(j);
        return true;
      }
      FillNodeSnoc(old(body[i]), fields[..j], f, data);
      if Contains(body[i], f.placeholder) {
        var value := ValueText(data, f.fieldKey);
        body[i] := ReplaceAll(body[i], f.placeholder, value);
      }
      assert fields[..j + 1] == fields[..j] + [f];
      j := j + 1;
    }
    assert fields[..j] == fields;
    return false;
  }

  /** GenerateWordDocumentAsync, with the template already fetched (null when
      the lookup found none) and `body` the text nodes of the main document
      part of its Word file. */
  method GenerateWordDocument(template: Template?, data: ValueMap, body: array<string>) returns (r: Outcome)
    modifies body
    ensures template == null ==> r == Failed(TemplateNotFound) && body[..] == old(body[..])
    ensures template != null ==>
      (r, body[..]) == Generate(template.fields, template.wordFilePath, data, old(body[..]))
  {
    if template == null {
      return Failed(TemplateNotFound);
    }
    var fields := template.fields;
    var missing := FindMissingRequired(fields, data);
    if missing.Some? {
      return Failed(RequiredFieldMissing(fields[missing.value].fieldLabel));
    }
    // only now is the Word file loaded from storage
    var path := template.wordFilePath;
    var i := 0;
    while i < body.Length
      invariant 0 <= i <= body.Length
      invariant i > 0 ==> PlaceholdersNonEmpty(fields)
      invariant forall k :: 0 <= k < i ==> body[k] == FillNode(old(body[k]), fields, data)
      invariant forall k :: i <= k < body.Length ==> body[k] == old(body[k])
    {
      var thrown := FillTextNode(body, i, fields, data);
      if thrown {
        assert i == 0;
        assert body[..] == [body[0]] + old(body[..])[1..];
        return Failed(EmptyPlaceholder);
      }
      i := i + 1;
    }
    if body.Length > 0 {
      assert body[..] == FillBody(old(body[..]), fields, data);
    }
    return Generated(path);
  }

  /** ConvertToPdfAsync: no conversion takes place; the "PDF" is the Word
      document itself. */
  function ConvertToPdf(wordDocument: seq<byte>): (pdf: seq<byte>)
    ensures pdf == wordDocument
  {
    wordDocument
  }

  // ---------------------------------------------------------------------
  // Properties of the node loop

  /** Applying a list of fields is applying its parts one after the other. */
  lemma {:induction false} FillNodeAppend(text: string, a: seq<TemplateField>, b: seq<TemplateField>, data: ValueMap)
    requires PlaceholdersNonEmpty(a) && PlaceholdersNonEmpty(b)
    ensures PlaceholdersNonEmpty(a + b)
    ensures FillNode(text, a + b, data) == FillNode(FillNode(text, a, data), b, data)
    decreases |a|
  {
    if a != [] {
      var t := ApplyField(text, a[0], data);
      assert (a + b)[0] == a[0];
      assert (a + b)[1..] == a[1..] + b;
      FillNodeAppend(t, a[1..], b, data);
      assert FillNode(text, a + b, data) == FillNode(t, a[1..] + b, data);
      assert FillNode(text, a, data) == FillNode(t, a[1..], data);
    } else {
      assert a + b == b;
    }
  }

  /** The step of the node loop: one more field applied to the node. */
  lemma FillNodeSnoc(text: string, a: seq<TemplateField>, f: TemplateField, data: ValueMap)
    requires PlaceholdersNonEmpty(a) && f.placeholder != []
    ensures PlaceholdersNonEmpty(a + [f])
    ensures FillNode(text, a + [f], data) == ApplyField(FillNode(text, a, data), f, data)
  {
    FillNodeAppend(text, a, [f], data);
  }

  /** The Contains test in front of Replace changes nothing: applying a field
      is replacing its placeholder, occurrence or not. */
  lemma ApplyFieldIsReplace(text: string, f: TemplateField, data: ValueMap)
    requires f.placeholder != []
    ensures ApplyField(text, f, data) == ReplaceAll(text, f.placeholder, ValueText(data, f.fieldKey))
  {
    if !Contains(text, f.placeholder) {
      ReplaceAbsent(text, f.placeholder, ValueText(data, f.fieldKey));
    }
  }

  /** A field whose key is absent or whose value is null deletes every
      occurrence of its placeholder: the node shrinks by the placeholder's
      length once per occurrence. */
  lemma AbsentValueDeletes(text: string, f: TemplateField, data: ValueMap)
    requires f.placeholder != []
    requires f.fieldKey !in data || data[f.fieldKey] == None
    ensures ApplyField(text, f, data) == ReplaceAll(text, f.placeholder, "")
    ensures |ApplyField(text, f, data)| == |text| + Times(Count(text, f.placeholder), -|f.placeholder|)
  {
    assert ValueText(data, f.fieldKey) == "";
    ApplyFieldIsReplace(text, f, data);
    ReplaceLength(text, f.placeholder, "");
    assert |""| - |f.placeholder| == -|f.placeholder|;
  }

  /** After a field is applied, its placeholder is gone from the node,
      provided the value is non-empty and shares no character with the
      placeholder (see Text.ResidueWithValue for why less is not enough). */
  lemma ApplyFieldRemovesPlaceholder(text: string, f: TemplateField, data: ValueMap)
    requires f.placeholder != []
    requires ValueText(data, f.fieldKey) != []
    requires forall c :: c in ValueText(data, f.fieldKey) ==> c !in f.placeholder
    ensures !Contains(ApplyField(text, f, data), f.placeholder)
  {
    if Contains(text, f.placeholder) {
      ReplaceRemovesAll(text, f.placeholder, ValueText(data, f.fieldKey));
    }
  }

  /** A node in which no placeholder occurs comes out unchanged. */
  lemma {:induction false} FillNodeUntouched(text: string, fields: seq<TemplateField>, data: ValueMap)
    requires PlaceholdersNonEmpty(fields)
    requires forall i :: 0 <= i < |fields| ==> !Contains(text, fields[i].placeholder)
    ensures FillNode(text, fields, data) == text
    decreases |fields|
  {
    if fields != [] {
      assert ApplyField(text, fields[0], data) == text;
      FillNodeUntouched(text, fields[1..], data);
    }
  }

  /** Replacement is confined to single nodes: filling a document is filling
      any split of its node list separately. */
  lemma {:induction false} FillBodySplit(a: seq<string>, b: seq<string>, fields: seq<TemplateField>, data: ValueMap)
    requires PlaceholdersNonEmpty(fields)
    ensures FillBody(a + b, fields, data) == FillBody(a, fields, data) + FillBody(b, fields, data)
  {
    var l, r := FillBody(a + b, fields, data), FillBody(a, fields, data) + FillBody(b, fields, data);
    assert |l| == |r|;
    forall i | 0 <= i < |l| ensures l[i] == r[i] {
      if i < |a| {
        assert (a + b)[i] == a[i];
      } else {
        assert (a + b)[i] == b[i - |a|];
      }
    }
  }

  // ---------------------------------------------------------------------
  // Properties of a generation run

  /** A missing required field fails the run, naming the label of the first
      such field in field order, and no node is touched. */
  lemma MissingFieldRejects(fields: seq<TemplateField>, path: string, data: ValueMap, body: seq<string>, i: nat)
    requires i < |fields| && Blocks(fields[i], data)
    ensures exists k :: (0 <= k <= i && Blocks(fields[k], data) &&
      (forall j :: 0 <= j < k ==> !Blocks(fields[j], data)) &&
      Generate(fields, path, data, body) == (Failed(RequiredFieldMissing(fields[k].fieldLabel)), body))
  {
    var k := FirstMissing(fields, data).value;
    assert k <= i;
  }

  /** When every required field has a non-empty value, validation passes
      whatever the optional fields hold, and the document is every node
      filled. */
  lemma RequiredPresentSucceeds(fields: seq<TemplateField>, path: string, data: ValueMap, body: seq<string>)
    requires PlaceholdersNonEmpty(fields)
    requires forall i :: 0 <= i < |fields| && fields[i].isRequired ==>
      fields[i].fieldKey in data && data[fields[i].fieldKey].Some? && data[fields[i].fieldKey].value != ""
    ensures Generate(fields, path, data, body) == (Generated(path), FillBody(body, fields, data))
  {
  }

  /** Validation reads nothing but the required fields' values. */
  lemma {:induction false} ValidationIgnoresOptional(fields: seq<TemplateField>, d1: ValueMap, d2: ValueMap)
    requires forall i :: 0 <= i < |fields| && fields[i].isRequired ==>
      (IsMissing(d1, fields[i].fieldKey) <==> IsMissing(d2, fields[i].fieldKey))
    ensures FirstMissing(fields, d1) == FirstMissing(fields, d2)
    decreases |fields|
  {
    if fields != [] {
      ValidationIgnoresOptional(fields[1..], d1, d2);
    }
  }

  /** The run either fails before any node is touched, or fails on the
      first node, or fills every node. */
  lemma GenerateShape(fields: seq<TemplateField>, path: string, data: ValueMap, body: seq<string>)
    ensures var (r, out) := Generate(fields, path, data, body);
      |out| == |body| &&
      (r.Failed? && r.error.RequiredFieldMissing? ==> out == body) &&
      (r.Failed? && r.error.EmptyPlaceholder? ==> out[1..] == body[1..]) &&
      (r.Generated? ==> r.loadedFrom == path)
  {
  }
}
