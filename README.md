# AutoDocx document generation and template mapping, in Dafny

AutoDocx keeps Word templates together with a schema of fillable fields. A
generation request names a template and supplies a value for each field key.
The service then writes those values into the template's placeholders.

This project models two parts of the backend and proves properties about them:

- **Document generation** (`DocumentService.GenerateWordDocumentAsync`,
  `ConvertToPdfAsync`).
  - The template is looked up; a missing one fails with "Template not found".
  - The required fields are validated in the order the fields are loaded. The run fails on the
    first field whose key is absent or whose value is null or renders as "".
    The error message names that field's label.
  - Only after that is the Word file loaded. Each text node of the main
    document part is rewritten in place: for every field in list order, if the node contains the
    placeholder, every ordinal, non-overlapping, left-to-right occurrence is
    replaced with the value (or "" when there is none).
  - PDF conversion returns the Word bytes unchanged.
- **Template endpoints** (`TemplatesController`).
  - The upload guards of Create.
  - The request-to-entity field mapping.
  - The overwrite rules of Update.
  - `MapToResponse`, which copies the template's attributes and orders its
    fields by `Order` with a stable sort.

Modules:

- `Wrappers`: `Option` and `Result`.
- `Text`: .NET's ordinal `String.Contains`, `IndexOf` and `Replace` on strings.
- `Entities`: `TemplateField` (a value) and `Template` (a class whose fields
  Update overwrites).
- `Dtos`: request and response shapes.
- `DocumentService`: validation, the pure functions `FirstMissing`,
  `FillNode` and `Generate`, and the imperative methods that compute them:
  `FindMissingRequired` walks the field sequence and is proved equal to
  `FirstMissing`; `FillTextNode` rewrites one node of an `array<string>` and
  is proved to leave `FillNode` of it; `GenerateWordDocument` runs over the
  whole array and is proved equal to `Generate`.
- `DocumentServiceExamples`: concrete runs.
- `TemplatesController`: the controller model.

Behaviour of the code worth knowing, all of it modelled as written:

- Placeholders are searched within one text node at a time. A placeholder
  split across nodes is left as it is
  (`DocumentServiceExamples.SplitPlaceholderLeftIntact`).
- Only the first missing required field is reported.
- The field order of generation is the order in which the database returns
  the template's fields: the lookup loads them with no `OrderBy` on `Order`
  (unlike `TemplateRepository.GetByIdAsync`). The model takes that order as
  the field sequence it is given. It decides which missing label is named
  first and which replacements see which inserted values
  (`DocumentServiceExamples.LaterFieldSeesEarlierValue`).
- Values are not type-checked: choice, number and date fields take any text.
- Values are inserted as literal text, with no formatting or sanitising.
- Placeholders in headers, footers, footnotes and endnotes are left as they
  are: only the text nodes of the main document part are searched.
- PDF conversion returns the Word document and cannot fail.
- Update replaces the stored file with any non-empty upload, whatever its
  content type: unlike Create, it has no .docx check
  (`TemplatesController.Update`).
- A field whose placeholder is the empty string makes `String.Replace` throw
  an `ArgumentException` when the first text node is processed. The model
  reports this as `EmptyPlaceholder`, with node 0 partly rewritten. The byte
  stream is discarded, so no document comes out.

## Model

| member | source | states |
|---|---|---|
| Text.Contains | backend/AutoDocx.Infrastructure/Services/DocumentService.cs:56 | the pattern occurs at some position; an occurring pattern is no longer than the text, and the empty pattern occurs everywhere, as in .NET |
| Text.ReplaceAll | backend/AutoDocx.Infrastructure/Services/DocumentService.cs:62 | String.Replace; its defining properties are ReplaceAtFirstOccurrence (keep the text before the first occurrence, put the value in its place, continue after it) and ReplaceAbsent (no occurrence, no change) |
| Text.IndexOf | backend/AutoDocx.Infrastructure/Services/DocumentService.cs:56 | the first ordinal occurrence of the pattern, none before it, and None exactly when the text does not contain it |
| Text.MissingCharExcludes | backend/AutoDocx.Infrastructure/Services/DocumentService.cs:56 | a text lacking some character of the placeholder does not contain it |
| Text.ReplaceAbsent | backend/AutoDocx.Infrastructure/Services/DocumentService.cs:56-62 | replacing a pattern the text does not contain leaves the text unchanged, so the Contains guard adds nothing |
| Text.ReplaceWithItself | backend/AutoDocx.Infrastructure/Services/DocumentService.cs:62 | replacing a placeholder by itself is the identity |
| Text.ReplaceSkipsPrefix | backend/AutoDocx.Infrastructure/Services/DocumentService.cs:62 | a prefix with no occurrence starting in it is copied unchanged |
| Text.ReplaceAtOccurrence | backend/AutoDocx.Infrastructure/Services/DocumentService.cs:62 | at an occurrence with none before it, Replace keeps the text before it, puts the value in its place and carries on after it |
| Text.ReplaceAtFirstOccurrence | backend/AutoDocx.Infrastructure/Services/DocumentService.cs:62 | Replace is: text up to the first occurrence, the value, then Replace on the rest after the occurrence |
| Text.ReplaceLength | backend/AutoDocx.Infrastructure/Services/DocumentService.cs:62 | the result's length changes by the length difference once per counted occurrence |
| Text.CountPositive | backend/AutoDocx.Infrastructure/Services/DocumentService.cs:56-62 | at least one occurrence is replaced exactly when the text contains the placeholder |
| Text.ReplaceRemovesAll | backend/AutoDocx.Infrastructure/Services/DocumentService.cs:62 | a non-empty value with no character of the placeholder leaves no occurrence behind |
| Text.ResidueWithValue | backend/AutoDocx.Infrastructure/Services/DocumentService.cs:56-62 | a value that does not contain the placeholder can still leave it behind: "{{{{X}}}}" becomes "{{X}}" |
| Text.ResidueWithEmptyValue | backend/AutoDocx.Infrastructure/Services/DocumentService.cs:56-62 | deleting the placeholder can join the pieces around it into a new one |
| Entities.Template.constructor | backend/AutoDocx.Core/Entities/Template.cs:5-14 | a new template has empty name and path, null description and owner, and no fields |
| DocumentService.Message | backend/AutoDocx.Infrastructure/Services/DocumentService.cs:27-41 | "Template not found", or "Required field '" then the missing field's label then "' is missing"; no message for the uncaught ArgumentException |
| DocumentService.ValueText | backend/AutoDocx.Infrastructure/Services/DocumentService.cs:58-60 | the text substituted for a key is the value's text when there is one, and it is "" exactly when the key is absent, null or "" |
| DocumentService.IsMissing | backend/AutoDocx.Infrastructure/Services/DocumentService.cs:36-37 | the key is absent, or its value is null or renders as ""; ValueText is "" exactly then |
| DocumentService.Blocks | backend/AutoDocx.Infrastructure/Services/DocumentService.cs:36-37 | the field is required and its value is missing; FirstMissing finds the first such field |
| DocumentService.ApplyField | backend/AutoDocx.Infrastructure/Services/DocumentService.cs:56-62 | one field on one node; ApplyFieldIsReplace shows it equals Replace with the field's value, and ApplyFieldRemovesPlaceholder and AbsentValueDeletes what that leaves |
| DocumentService.FillNode | backend/AutoDocx.Infrastructure/Services/DocumentService.cs:54-64 | every field applied to a node in list order; FillNodeAppend, FillNodeSnoc and FillNodeUntouched state its properties, and FillTextNode is proved to compute it |
| DocumentService.Generate | backend/AutoDocx.Infrastructure/Services/DocumentService.cs:27-65 | the whole run on a found template; GenerateShape, MissingFieldRejects and RequiredPresentSucceeds state its properties, and GenerateWordDocument is proved to compute it |
| DocumentService.FirstMissing | backend/AutoDocx.Infrastructure/Services/DocumentService.cs:33-41 | the first required field whose value is absent, null or "", and None exactly when there is no such field |
| DocumentService.FindMissingRequired | backend/AutoDocx.Infrastructure/Services/DocumentService.cs:33-41 | the validation loop stops at exactly the field FirstMissing names |
| DocumentService.FirstEmptyPlaceholder | backend/AutoDocx.Infrastructure/Services/DocumentService.cs:54-62 | the first field whose placeholder makes Replace throw; every field before it has a non-empty placeholder |
| DocumentService.FillBody | backend/AutoDocx.Infrastructure/Services/DocumentService.cs:52-65 | each text node is filled on its own; nodes are neither added, dropped nor reordered |
| DocumentService.FillTextNode | backend/AutoDocx.Infrastructure/Services/DocumentService.cs:54-64 | node i ends as every field applied in order, or as the fields before the empty placeholder applied when Replace throws; other nodes are unchanged |
| DocumentService.GenerateWordDocument | backend/AutoDocx.Infrastructure/Services/DocumentService.cs:20-71 | a null template fails with TemplateNotFound and touches nothing; otherwise the outcome and the final nodes are those of Generate |
| DocumentService.ConvertToPdf | backend/AutoDocx.Infrastructure/Services/DocumentService.cs:73-79 | the bytes come back unchanged |
| DocumentService.FillNodeAppend | backend/AutoDocx.Infrastructure/Services/DocumentService.cs:54-64 | applying a field list is applying its two halves one after the other |
| DocumentService.FillNodeSnoc | backend/AutoDocx.Infrastructure/Services/DocumentService.cs:54-64 | one more iteration of the field loop applies one more field |
| DocumentService.ApplyFieldIsReplace | backend/AutoDocx.Infrastructure/Services/DocumentService.cs:56-62 | the guarded replace equals an unguarded Replace with the field's value |
| DocumentService.AbsentValueDeletes | backend/AutoDocx.Infrastructure/Services/DocumentService.cs:58-62 | an absent or null value deletes every occurrence; the node shrinks by the placeholder's length per occurrence |
| DocumentService.ApplyFieldRemovesPlaceholder | backend/AutoDocx.Infrastructure/Services/DocumentService.cs:56-62 | the placeholder no longer occurs after its field is applied, for a non-empty value sharing no character with it |
| DocumentService.FillNodeUntouched | backend/AutoDocx.Infrastructure/Services/DocumentService.cs:54-64 | a node containing no placeholder is left unchanged |
| DocumentService.FillBodySplit | backend/AutoDocx.Infrastructure/Services/DocumentService.cs:52-65 | filling is confined to single nodes: any split of the node list fills separately |
| DocumentService.MissingFieldRejects | backend/AutoDocx.Infrastructure/Services/DocumentService.cs:33-49 | a missing required field fails the run, naming the first such field's label, before any node changes |
| DocumentService.RequiredPresentSucceeds | backend/AutoDocx.Infrastructure/Services/DocumentService.cs:33-65 | with every required value present and non-empty and every placeholder non-empty, the run succeeds whatever the optional fields hold, and every node is filled |
| DocumentService.ValidationIgnoresOptional | backend/AutoDocx.Infrastructure/Services/DocumentService.cs:33-41 | validation depends only on the required fields' values |
| DocumentService.GenerateShape | backend/AutoDocx.Infrastructure/Services/DocumentService.cs:27-65 | the node count is kept; a validation failure changes no node; a Replace failure changes only the first node; success reports the template's path |
| DocumentServiceExamples.KeptWithoutPlaceholders | backend/AutoDocx.Infrastructure/Services/DocumentService.cs:54-64 | a node holding neither example placeholder passes through the example's fields unchanged |
| DocumentServiceExamples.FirstNodeKept | backend/AutoDocx.Infrastructure/Services/DocumentService.cs:52-65 | the first piece of a split placeholder is not recognised |
| DocumentServiceExamples.SecondNodeKept | backend/AutoDocx.Infrastructure/Services/DocumentService.cs:52-65 | the second piece of a split placeholder is not recognised |
| DocumentServiceExamples.ThirdNodeEmptied | backend/AutoDocx.Infrastructure/Services/DocumentService.cs:56-62 | an omitted optional value deletes its placeholder |
| DocumentServiceExamples.SplitPlaceholderLeftIntact | backend/AutoDocx.Infrastructure/Services/DocumentService.cs:52-65 | the three-node client/amount example succeeds with the split placeholder left in the text |
| DocumentServiceExamples.EmptyDataRejected | backend/AutoDocx.Infrastructure/Services/DocumentService.cs:33-41 | with no data, the run fails naming "Client name" and changes nothing |
| DocumentServiceExamples.LaterFieldSeesEarlierValue | backend/AutoDocx.Infrastructure/Services/DocumentService.cs:54-63 | a later field's placeholder is replaced inside a value an earlier field inserted |
| DocumentServiceExamples.EarlierFieldMissesLaterValue | backend/AutoDocx.Infrastructure/Services/DocumentService.cs:54-63 | an earlier field's placeholder inserted by a later field's value stays |
| TemplatesController.UploadError | backend/AutoDocx.API/Controllers/TemplatesController.cs:45-54 | "Word file is required" exactly for a missing or empty file, "Only .docx files are allowed" exactly for another content type, and no error otherwise |
| TemplatesController.UpperCaseTypeRejected | backend/AutoDocx.API/Controllers/TemplatesController.cs:51-54 | the content-type comparison is case-sensitive |
| TemplatesController.ToEntityField | backend/AutoDocx.API/Controllers/TemplatesController.cs:66-75 | key, label, type, required flag, placeholder and order are copied; OptionsJson is null exactly when Options is null, otherwise it is the serialised options |
| TemplatesController.MapFields | backend/AutoDocx.API/Controllers/TemplatesController.cs:66-75 | exactly one entity field per request field, in the same order |
| TemplatesController.ToFieldResponse | backend/AutoDocx.API/Controllers/TemplatesController.cs:151-160 | id, key, label, type, required flag, placeholder and order are copied; null OptionsJson gives null Options, otherwise the deserialised text |
| TemplatesController.ResponseFields | backend/AutoDocx.API/Controllers/TemplatesController.cs:151-160 | one response per entity field, in the same order |
| TemplatesController.FieldRoundTrip | backend/AutoDocx.API/Controllers/TemplatesController.cs:151-160 | when the JSON round trip is faithful, a stored field answers with the request's attributes and options (Answered) |
| TemplatesController.Insert | backend/AutoDocx.API/Controllers/TemplatesController.cs:161 | inserting adds exactly the one element |
| TemplatesController.InsertSorted | backend/AutoDocx.API/Controllers/TemplatesController.cs:161 | inserting into a list in Order keeps it in Order |
| TemplatesController.SortByOrder | backend/AutoDocx.API/Controllers/TemplatesController.cs:161 | the sorted list is a permutation of the input |
| TemplatesController.SortSorted | backend/AutoDocx.API/Controllers/TemplatesController.cs:161 | the sorted list is non-decreasing in Order |
| TemplatesController.InsertStable | backend/AutoDocx.API/Controllers/TemplatesController.cs:161 | insertion puts the element ahead of the equal-Order elements that followed it |
| TemplatesController.SortStable | backend/AutoDocx.API/Controllers/TemplatesController.cs:161 | fields with equal Order keep their input order, as OrderBy does |
| TemplatesController.SortKeepsSorted | backend/AutoDocx.API/Controllers/TemplatesController.cs:161 | a list already in Order is returned unchanged |
| TemplatesController.MapToResponse | backend/AutoDocx.API/Controllers/TemplatesController.cs:141-163 | id, name, description, path and both timestamps are copied; the fields are in Order and are a permutation of the mapped template fields |
| TemplatesController.MapToResponseStable | backend/AutoDocx.API/Controllers/TemplatesController.cs:151-161 | equal-Order fields are answered in the template's own order |
| TemplatesController.MapToResponseFieldsFromTemplate | backend/AutoDocx.API/Controllers/TemplatesController.cs:151-161 | every answered field is the answer for one of the template's fields |
| TemplatesController.Create | backend/AutoDocx.API/Controllers/TemplatesController.cs:45-76 | a rejected upload saves nothing and returns the guard's message; otherwise one save, and a new template with the request's name and description, the saved path and the mapped fields, and id, owner and timestamps at their defaults |
| TemplatesController.Update | backend/AutoDocx.API/Controllers/TemplatesController.cs:85-118 | not found without changes; a non-empty file deletes the old path, saves and records the new path, otherwise the path stays; name and description are overwritten; the fields are replaced by the request's, stamped with the id; id, timestamps and owner are kept |
| TemplatesController.UpdatedFieldsAnswered | backend/AutoDocx.API/Controllers/TemplatesController.cs:108-161 | after an update, with a faithful JSON round trip, the answered fields are a permutation of the request's fields as answered (Answered), in Order, with equal-Order fields in request order |

## Left out

- OpenXML package handling (`WordprocessingDocument.Open`, `Descendants<Text>`, `Save`): a foreign library. The document is the array of the text nodes of its main document part, in document order; other parts (headers, footers, footnotes, endnotes) are not searched by the code and not represented.
- Storage I/O (`GetFileAsync`, `SaveFileAsync`, `DeleteFileAsync`). In Create and Update the storage calls appear as a returned trace, and the path a save returns is a parameter. In generation, the file load is the point after validation where the method starts on the nodes. A Word file that is missing (`FileNotFoundException`) or cannot be opened (a corrupt package, a null main document part) is not modelled: `body` is always the text nodes of a readable file.
- The database: the template lookup (its result is a parameter, null when absent), `CreateAsync` (which assigns the id and timestamps) and `UpdateAsync` (which sets UpdatedAt). These are not part of this model, so Create's result is the template before it is stored.
- `Guid.NewGuid()` for stored file names: random, so it does not appear in the trace.
- JSON (de)serialisation of options: a library call, passed in as `serialize` and `deserialize`. A malformed OptionsJson, on which the library throws, is not modelled.
- TemplatesController.ToFieldResponse: Options is null whenever OptionsJson is null, but the converse holds only for a faithful round trip (`FieldRoundTrip`), because the JSON text "null" deserialises to null.
- DocumentService.ApplyFieldRemovesPlaceholder: stated for a non-empty value that shares no character with the placeholder. The weaker hypothesis "the value does not contain the placeholder" is not enough, as Text.ResidueWithValue and Text.ResidueWithEmptyValue show.
- Update's `Fields.Clear()` on the old collection: it affects only other holders of that collection object, which the model does not have. The model replaces the sequence.
- GetAll, GetById and Delete: repository lookups and a storage delete with no logic of their own, apart from MapToResponse.
- DocumentsController: HTTP plumbing, temporary files and a format-to-extension choice. Only the mapping of the service's exception message to a 400 response is reflected, in `DocumentService.Message`.
- HTTP, routing, dependency injection and async/await: every operation is sequential.
- `Order` is a 32-bit int in the source. It is only compared, never computed with, so it is modelled as `int`.
- `IFormFile.ContentType` is taken as non-null.
- The value map holds each value's `ToString()` form. Conversion of numbers, dates and lists to text is not modelled.
- Strings are sequences of Unicode scalar values. .NET strings are UTF-16 code units and may hold lone surrogates; ordinal match positions agree on well-formed text, but the lengths in Text.ReplaceLength and DocumentService.AbsentValueDeletes count characters, not .NET `Length` code units.
