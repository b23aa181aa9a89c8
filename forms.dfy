/** The event form of HandleEventCreate and HandleEventUpdate: all three
    fields are required, and the tags field is split into lower-cased
    whitespace fields. */
module Forms {
  import opened Text
  import opened Results
  import Api

  const FieldsRequired: string := "All fields are required"

  /** Validation and tag parsing of the submitted form. An error carries
      the flash message the handler sets before redirecting back. */
  method ParseEventForm(tagsField: string, source: string, data: string)
    returns (r: Result<Api.EventRequest, string>)
    ensures r.Err? <==> tagsField == "" || source == "" || data == ""
    ensures r.Err? ==> r.error == FieldsRequired
    ensures r.Ok? ==> r.value.data == data && r.value.source == source
    ensures r.Ok? ==> r.value.tags == LowerAll(Fields(tagsField))
    ensures r.Ok? ==> forall i :: 0 <= i < |r.value.tags| ==> IsField(r.value.tags[i]) && IsLower(r.value.tags[i])
    ensures r.Ok? ==> (r.value.tags == [] <==> AllSpace(tagsField))
  {
    if tagsField == "" || source == "" || data == "" {
      return Err(FieldsRequired);
    }
    var tags := LowerFields(tagsField);
    return Ok(Api.EventRequest(tags, data, source));
  }

  /** The form stores the tags the API derives from a subject, except that
      a tags field of only white space stores no tag where the API stores
      "untagged". */
  lemma FormTagsAgreeWithApi(tagsField: string)
    ensures !AllSpace(tagsField) ==> LowerAll(Fields(tagsField)) == Api.SubjectTags(tagsField)
    ensures AllSpace(tagsField) ==> LowerAll(Fields(tagsField)) == [] && Api.SubjectTags(tagsField) == [Api.DefaultTag]
  {
  }
}
