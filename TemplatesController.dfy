/** The template endpoints of backend/AutoDocx.API/Controllers/TemplatesController.cs:
    the upload guards of Create, the request-to-entity field mapping, the
    overwrite rules of Update and the entity-to-response mapping. JSON
    (de)serialisation of the choice options is a library call and comes in
    as the parameters `serialize` and `deserialize`; the storage service is
    recorded as the trace of calls it receives. */
module TemplatesController {
  import opened Wrappers
  import opened Entities
  import opened Dtos

  /** The one content type Create accepts, compared ordinally. */
  const DocxContentType := "application/" + "vnd.openxmlformats-" + "officedocument." + "wordprocessingml." + "document"

  const FileRequired := "Word file is required"
  const OnlyDocx := "Only .docx files are allowed"

  /** The parts of an uploaded IFormFile the controller looks at. */
  datatype FormFile = FormFile(length: nat, contentType: string)

  /** A call into the storage service; SaveFile stores the upload under a
      fresh random name and returns the path it chose. */
  datatype StorageCall = SaveFile | DeleteFile(path: string)

  /** A file was supplied and it is not empty. */
  predicate HasContent(wordFile: Option<FormFile>)
  {
    wordFile.Some? && wordFile.value.length > 0
  }

  /** The BadRequest message Create answers with, or None when the upload
      passes: a missing or empty file first, then a content type that is not
      exactly the wordprocessingml type. */
  function UploadError(wordFile: Option<FormFile>): (err: Option<string>)
    ensures err.None? <==> HasContent(wordFile) && wordFile.value.contentType == DocxContentType
    ensures err == Some(FileRequired) <==> !HasContent(wordFile)
    ensures err == Some(OnlyDocx) <==> HasContent(wordFile) && wordFile.value.contentType != DocxContentType
  {
    if !HasContent(wordFile) then Some(FileRequired)
    else if wordFile.value.contentType != DocxContentType then Some(OnlyDocx)
    else None
  }

  /** The comparison is case-sensitive: the same type in capitals is refused. */
  lemma UpperCaseTypeRejected()
    ensures UploadError(Some(FormFile(1, "APPLICATION/" + "VND.OPENXMLFORMATS-" + "OFFICEDOCUMENT." + "WORDPROCESSINGML." + "DOCUMENT")))
         == Some(OnlyDocx)
  {
    var upper := "APPLICATION/" + "VND.OPENXMLFORMATS-" + "OFFICEDOCUMENT." + "WORDPROCESSINGML." + "DOCUMENT";
    assert upper[0] == 'A' && DocxContentType[0] == 'a';
  }

  /** One request field as a new entity field: the descriptive attributes are
      copied, the id is left at Guid.Empty for the database to assign, and the
      options are stored as JSON text exactly when the request gave some. */
  function ToEntityField(dto: TemplateFieldDto, templateId: Guid, serialize: seq<string> -> string): (f: TemplateField)
    ensures f.id == EmptyGuid && f.templateId == templateId
    ensures f.fieldKey == dto.fieldKey && f.fieldLabel == dto.fieldLabel && f.fieldType == dto.fieldType
    ensures f.isRequired == dto.isRequired && f.placeholder == dto.placeholder && f.order == dto.order
    ensures f.optionsJson.None? <==> dto.options.None?
    ensures dto.options.Some? ==> f.optionsJson == Some(serialize(dto.options.value))
  {
    TemplateField(
      EmptyGuid, templateId, dto.fieldKey, dto.fieldLabel, dto.fieldType, dto.isRequired,
      if dto.options.Some? then Some(serialize(dto.options.value)) else None,
      dto.placeholder, dto.order)
  }

  /** The request's field list mapped field by field, in the same order. */
  function MapFields(dtos: seq<TemplateFieldDto>, templateId: Guid, serialize: seq<string> -> string): (fs: seq<TemplateField>)
    ensures |fs| == |dtos|
    ensures forall i :: 0 <= i < |dtos| ==> fs[i] == ToEntityField(dtos[i], templateId, serialize)
  {
    if dtos == [] then [] else [ToEntityField(dtos[0], templateId, serialize)] + MapFields(dtos[1..], templateId, serialize)
  }

  /** One entity field as it is answered: attributes copied, options read
      back from their JSON text when there is any. */
  function ToFieldResponse(f: TemplateField, deserialize: string -> Option<seq<string>>): (r: TemplateFieldResponse)
    ensures r.id == f.id && r.fieldKey == f.fieldKey && r.fieldLabel == f.fieldLabel
    ensures r.fieldType == f.fieldType && r.isRequired == f.isRequired
    ensures r.placeholder == f.placeholder && r.order == f.order
    ensures f.optionsJson.None? ==> r.options.None?
    ensures f.optionsJson.Some? ==> r.options == deserialize(f.optionsJson.value)
  {
    TemplateFieldResponse(
      f.id, f.fieldKey, f.fieldLabel, f.fieldType, f.isRequired,
      if f.optionsJson.Some? then deserialize(f.optionsJson.value) else None,
      f.placeholder, f.order)
  }

  /** The `Select` of MapToResponse, before ordering. */
  function ResponseFields(fs: seq<TemplateField>, deserialize: string -> Option<seq<string>>): (rs: seq<TemplateFieldResponse>)
    ensures |rs| == |fs|
    ensures forall i :: 0 <= i < |fs| ==> rs[i] == ToFieldResponse(fs[i], deserialize)
  {
    if fs == [] then [] else [ToFieldResponse(fs[0], deserialize)] + ResponseFields(fs[1..], deserialize)
  }

  /** Field options that survive a JSON round trip come back as they were
      sent, so a stored field is answered with the request's attributes and
      with options exactly when the request had some. */
  lemma FieldRoundTrip(dto: TemplateFieldDto, templateId: Guid, serialize: seq<string> -> string,
                       deserialize: string -> Option<seq<string>>)
    requires forall o :: deserialize(serialize(o)) == Some(o)
    ensures ToFieldResponse(ToEntityField(dto, templateId, serialize), deserialize) == Answered(dto)
  {
  }

  // ---- OrderBy(f => f.Order): a stable sort ----

  predicate SortedByOrder(s: seq<TemplateFieldResponse>)
  {
    forall i, j :: 0 <= i < j < |s| ==> s[i].order <= s[j].order
  }

  /** The elements of `s` whose Order is `k`, in their order in `s`. */
  function WithOrder(s: seq<TemplateFieldResponse>, k: int): seq<TemplateFieldResponse>
  {
    if s == [] then [] else (if s[0].order == k then [s[0]] else []) + WithOrder(s[1..], k)
  }

  /** Inserts `x` ahead of the first element whose Order is not smaller, so
      it stays ahead of the equal-Order elements that followed it. */
  function Insert(x: TemplateFieldResponse, s: seq<TemplateFieldResponse>): (r: seq<TemplateFieldResponse>)
    ensures |r| == |s| + 1
    ensures multiset(r) == multiset(s) + multiset{x}
  {
    if s == [] || x.order <= s[0].order then [x] + s
    else
      var tail := Insert(x, s[1..]);
      assert s == [s[0]] + s[1..];
      [s[0]] + tail
  }

  /** Every Order in `s` is at least `k`. */
  predicate OrdersAtLeast(s: seq<TemplateFieldResponse>, k: int)
  {
    forall i :: 0 <= i < |s| ==> k <= s[i].order
  }

  lemma {:induction false} InsertAtLeast(x: TemplateFieldResponse, s: seq<TemplateFieldResponse>, k: int)
    requires OrdersAtLeast(s, k) && k <= x.order
    ensures OrdersAtLeast(Insert(x, s), k)
    decreases |s|
  {
    if s != [] && x.order > s[0].order {
      InsertAtLeast(x, s[1..], k);
      var tail := Insert(x, s[1..]);
      assert Insert(x, s) == [s[0]] + tail;
    }
  }

  lemma {:induction false} InsertSorted(x: TemplateFieldResponse, s: seq<TemplateFieldResponse>)
    requires SortedByOrder(s)
    ensures SortedByOrder(Insert(x, s))
    decreases |s|
  {
    if s == [] || x.order <= s[0].order {
      var r := [x] + s;
      assert Insert(x, s) == r;
      forall i, j | 0 <= i < j < |r| ensures r[i].order <= r[j].order {
        if i > 0 {
          assert r[i] == s[i - 1] && r[j] == s[j - 1];
        } else {
          assert r[j] == s[j - 1];
        }
      }
    } else {
      var tail := Insert(x, s[1..]);
      var r := [s[0]] + tail;
      assert Insert(x, s) == r;
      InsertSorted(x, s[1..]);
      InsertAtLeast(x, s[1..], s[0].order);
      forall i, j | 0 <= i < j < |r| ensures r[i].order <= r[j].order {
        assert r[j] == tail[j - 1];
        if i > 0 {
          assert r[i] == tail[i - 1];
        }
      }
    }
  }

  function SortByOrder(s: seq<TemplateFieldResponse>): (r: seq<TemplateFieldResponse>)
    ensures |r| == |s|
    ensures multiset(r) == multiset(s)
  {
    if s == [] then []
    else
      assert s == [s[0]] + s[1..];
      Insert(s[0], SortByOrder(s[1..]))
  }

  lemma {:induction false} SortSorted(s: seq<TemplateFieldResponse>)
    ensures SortedByOrder(SortByOrder(s))
  {
    if s != [] {
      SortSorted(s[1..]);
      InsertSorted(s[0], SortByOrder(s[1..]));
    }
  }

  lemma {:induction false} InsertStable(x: TemplateFieldResponse, s: seq<TemplateFieldResponse>, k: int)
    ensures WithOrder(Insert(x, s), k) == (if x.order == k then [x] else []) + WithOrder(s, k)
    decreases |s|
  {
    if s == [] || x.order <= s[0].order {
      assert ([x] + s)[1..] == s;
    } else {
      var tail := Insert(x, s[1..]);
      var r := [s[0]] + tail;
      assert r[1..] == tail;
      InsertStable(x, s[1..], k);
      var head := if s[0].order == k then [s[0]] else [];
      assert WithOrder(r, k) == head + WithOrder(tail, k);
      assert WithOrder(s, k) == head + WithOrder(s[1..], k);
      if x.order == k {
        assert head == [];
      } else {
        assert WithOrder(tail, k) == WithOrder(s[1..], k);
      }
    }
  }

  /** Stability: among fields of equal Order the input order is kept. */
  lemma {:induction false} SortStable(s: seq<TemplateFieldResponse>, k: int)
    ensures WithOrder(SortByOrder(s), k) == WithOrder(s, k)
  {
    if s != [] {
      SortStable(s[1..], k);
      InsertStable(s[0], SortByOrder(s[1..]), k);
    }
  }

  /** A list already in Order is left as it is. */
  lemma {:induction false} SortKeepsSorted(s: seq<TemplateFieldResponse>)
    requires SortedByOrder(s)
    ensures SortByOrder(s) == s
  {
    if s != [] {
      assert SortedByOrder(s[1..]);
      SortKeepsSorted(s[1..]);
      assert [s[0]] + s[1..] == s;
    }
  }

  /** The response for a template: its attributes copied, its fields mapped
      and ordered by Order. */
  function MapToResponse(t: Template, deserialize: string -> Option<seq<string>>): (r: TemplateResponse)
    reads t
    ensures r.id == t.id && r.name == t.name && r.description == t.description
    ensures r.wordFilePath == t.wordFilePath && r.createdAt == t.createdAt && r.updatedAt == t.updatedAt
    ensures SortedByOrder(r.fields)
    ensures multiset(r.fields) == multiset(ResponseFields(t.fields, deserialize))
    ensures |r.fields| == |t.fields|
  {
    var mapped := ResponseFields(t.fields, deserialize);
    var sorted := SortByOrder(mapped);
    SortSorted(mapped);
    TemplateResponse(t.id, t.name, t.description, t.wordFilePath, t.createdAt, t.updatedAt, sorted)
  }

  /** MapToResponse keeps, for every Order value, the template's own order of
      the fields that carry it. */
  lemma MapToResponseStable(t: Template, deserialize: string -> Option<seq<string>>, k: int)
    ensures WithOrder(MapToResponse(t, deserialize).fields, k) == WithOrder(ResponseFields(t.fields, deserialize), k)
  {
    SortStable(ResponseFields(t.fields, deserialize), k);
  }

  /** Every answered field is the answer for one of the template's fields. */
  lemma MapToResponseFieldsFromTemplate(t: Template, deserialize: string -> Option<seq<string>>, e: TemplateFieldResponse)
    requires e in MapToResponse(t, deserialize).fields
    ensures exists i :: 0 <= i < |t.fields| && e == ToFieldResponse(t.fields[i], deserialize)
  {
    var rs := ResponseFields(t.fields, deserialize);
    assert e in multiset(MapToResponse(t, deserialize).fields);
    assert e in rs;
    var i :| 0 <= i < |rs| && rs[i] == e;
  }

  // ---- Create and Update ----

  /** Create up to the repository call: the upload guards, then one save,
      then a new template holding the saved path and the mapped fields.
      `savedPath` is what the storage service returns for the save. */
  method Create(request: CreateTemplateRequest, wordFile: Option<FormFile>, savedPath: string,
                serialize: seq<string> -> string)
    returns (r: Result<Template, string>, calls: seq<StorageCall>)
    ensures r.Failure? <==> UploadError(wordFile).Some?
    ensures r.Failure? ==> r.error == UploadError(wordFile).value && calls == []
    ensures r.Success? ==> calls == [SaveFile] && fresh(r.value)
    ensures r.Success? ==> r.value.name == request.name && r.value.description == request.description
    ensures r.Success? ==> r.value.wordFilePath == savedPath
    ensures r.Success? ==> r.value.fields == MapFields(request.fields, EmptyGuid, serialize)
    ensures r.Success? ==> r.value.id == EmptyGuid && r.value.userId == None
    ensures r.Success? ==> r.value.createdAt == 0 && r.value.updatedAt == 0
  {
    var err := UploadError(wordFile);
    if err.Some? {
      return Failure(err.value), [];
    }
    calls := [SaveFile];
    var template := new Template();
    template.name := request.name;
    template.description := request.description;
    template.wordFilePath := savedPath;
    template.fields := MapFields(request.fields, EmptyGuid, serialize);
    r := Success(template);
  }

  /** Update on the template the repository returned for `id` (null when
      there is none). A non-empty file replaces the stored one: the old path
      is deleted, the new file saved and its path recorded. Name and
      description are overwritten and the field list is replaced by the
      request's, each stamped with the template id. */
  method Update(template: Template?, id: Guid, request: CreateTemplateRequest, wordFile: Option<FormFile>,
                savedPath: string, serialize: seq<string> -> string)
    returns (found: bool, calls: seq<StorageCall>)
    modifies template
    ensures found <==> template != null
    ensures template == null ==> calls == []
    ensures template != null && HasContent(wordFile) ==>
      calls == [DeleteFile(old(template.wordFilePath)), SaveFile] && template.wordFilePath == savedPath
    ensures template != null && !HasContent(wordFile) ==>
      calls == [] && template.wordFilePath == old(template.wordFilePath)
    ensures template != null ==>
      template.name == request.name && template.description == request.description &&
      template.fields == MapFields(request.fields, id, serialize)
    ensures template != null ==>
      template.id == old(template.id) && template.createdAt == old(template.createdAt) &&
      template.updatedAt == old(template.updatedAt) && template.userId == old(template.userId)
  {
    if template == null {
      return false, [];
    }
    calls := [];
    if HasContent(wordFile) {
      calls := calls + [DeleteFile(template.wordFilePath)];
      calls := calls + [SaveFile];
      template.wordFilePath := savedPath;
    }
    template.name := request.name;
    template.description := request.description;
    template.fields := [];
    template.fields := MapFields(request.fields, id, serialize);
    found := true;
  }

  /** The answer a request field should get back once it is stored: its own
      attributes and options, with the id the database has yet to assign. */
  function Answered(dto: TemplateFieldDto): TemplateFieldResponse {
    TemplateFieldResponse(EmptyGuid, dto.fieldKey, dto.fieldLabel, dto.fieldType, dto.isRequired,
                          dto.options, dto.placeholder, dto.order)
  }

  function AnsweredAll(dtos: seq<TemplateFieldDto>): (rs: seq<TemplateFieldResponse>)
    ensures |rs| == |dtos|
    ensures forall i :: 0 <= i < |dtos| ==> rs[i] == Answered(dtos[i])
  {
    if dtos == [] then [] else [Answered(dtos[0])] + AnsweredAll(dtos[1..])
  }

  /** After an update (the template's fields are the request's, stamped with
      its id) and with a faithful JSON round trip, the answer lists exactly
      the request's fields: a permutation of them, in Order, and with fields
      of equal Order in request order. These three facts fix the list. */
  lemma UpdatedFieldsAnswered(t: Template, dtos: seq<TemplateFieldDto>, id: Guid, serialize: seq<string> -> string,
                              deserialize: string -> Option<seq<string>>, k: int)
    requires forall o :: deserialize(serialize(o)) == Some(o)
    requires t.fields == MapFields(dtos, id, serialize)
    ensures multiset(MapToResponse(t, deserialize).fields) == multiset(AnsweredAll(dtos))
    ensures SortedByOrder(MapToResponse(t, deserialize).fields)
    ensures WithOrder(MapToResponse(t, deserialize).fields, k) == WithOrder(AnsweredAll(dtos), k)
  {
    var rs := ResponseFields(t.fields, deserialize);
    forall i | 0 <= i < |dtos| ensures rs[i] == AnsweredAll(dtos)[i] {
      FieldRoundTrip(dtos[i], id, serialize, deserialize);
    }
    assert rs == AnsweredAll(dtos);
    MapToResponseStable(t, deserialize, k);
  }
}
