/** The persisted entities of backend/AutoDocx.Core/Entities: a template and
    the fields that describe what it asks for. */
module Entities {
  import opened Wrappers

  /** A Guid, identified by its 128-bit value; Guid.Empty is 0. */
  type Guid = nat
  const EmptyGuid: Guid := 0

  /** A DateTime, as a tick count. */
  type DateTime = int

  /** One fillable field of a template. `optionsJson` holds the JSON text of
      the choice options, or None (null) when the field has none. */
  datatype TemplateField = TemplateField(
    id: Guid,
    templateId: Guid,
    fieldKey: string,
    fieldLabel: string,
    fieldType: string,
    isRequired: bool,
    optionsJson: Option<string>,
    placeholder: string,
    order: int)

  /** A template: its metadata, the storage path of its Word file and its
      field list, which the controller overwrites in place. */
  class Template {
    var id: Guid
    var name: string
    var description: Option<string>
    var wordFilePath: string
    var createdAt: DateTime
    var updatedAt: DateTime
    var userId: Option<Guid>
    var fields: seq<TemplateField>

    /** `new Template()`: every property at its declared default. */
    constructor ()
      ensures id == EmptyGuid && name == "" && description == None && wordFilePath == ""
      ensures createdAt == 0 && updatedAt == 0 && userId == None && fields == []
    {
      id := EmptyGuid;
      name := "";
      description := None;
      wordFilePath := "";
      createdAt := 0;
      updatedAt := 0;
      userId := None;
      fields := [];
    }
  }
}
