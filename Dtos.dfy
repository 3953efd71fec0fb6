/** The request and response shapes of backend/AutoDocx.Core/DTOs that the
    template controller reads and produces. */
module Dtos {
  import opened Wrappers
  import opened Entities

  /** A field as the client sends it; `options` is null for non-choice fields. */
  datatype TemplateFieldDto = TemplateFieldDto(
    fieldKey: string,
    fieldLabel: string,
    fieldType: string,
    isRequired: bool,
    options: Option<seq<string>>,
    placeholder: string,
    order: int)

  datatype CreateTemplateRequest = CreateTemplateRequest(
    name: string,
    description: Option<string>,
    fields: seq<TemplateFieldDto>)

  datatype TemplateFieldResponse = TemplateFieldResponse(
    id: Guid,
    fieldKey: string,
    fieldLabel: string,
    fieldType: string,
    isRequired: bool,
    options: Option<seq<string>>,
    placeholder: string,
    order: int)

  datatype TemplateResponse = TemplateResponse(
    id: Guid,
    name: string,
    description: Option<string>,
    wordFilePath: string,
    createdAt: DateTime,
    updatedAt: DateTime,
    fields: seq<TemplateFieldResponse>)
}
