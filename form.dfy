/**
  The state of the builder's form, as the form-to-manifest layer of
  `FlatpakBuilder` reads it: the text of every named field, the placeholder
  texts, the fields that carry a validation-error label, the source type,
  source path and archive hash, and the permission check boxes.
 */
module Form {
  import opened Text

  datatype FormState = FormState(
    fields: map<string, string>,        // raw widget text per field key ("appId", "appName", ...)
    placeholders: map<string, string>,  // placeholder text of the fields that show one
    labels: set<string>,                // fields that own a validation-error label
    sourceType: string,                 // "directory" or "archive"
    sourcePath: string,
    sha256: string,
    perms: map<string, bool>)           // permission key ("x11", "network", ...) to check-box state

  /**
    `get_field_value`: a missing field reads as "", the text is stripped, and
    text equal to the field's placeholder reads as "".
   */
  function FieldValue(form: FormState, key: string): (r: string)
    ensures Stripped(r)
    ensures r != "" ==> key in form.fields && r == Strip(form.fields[key])
    ensures r == "" <==>
      || key !in form.fields
      || Strip(form.fields[key]) == ""
      || (key in form.placeholders && form.placeholders[key] == Strip(form.fields[key]))
  {
    if key !in form.fields then ""
    else
      var v := Strip(form.fields[key]);
      if key in form.placeholders && form.placeholders[key] == v then "" else v
  }

  /** `{k: self.get_field_value(k) for k in self.fields}`. */
  function FormData(form: FormState): (data: map<string, string>)
    ensures data.Keys == form.fields.Keys
    ensures forall k :: k in data ==> data[k] == FieldValue(form, k)
  {
    map k | k in form.fields :: FieldValue(form, k)
  }

  /** `self.finish_args_vars.get(k, tk.BooleanVar()).get()`: an absent box reads as unchecked. */
  predicate Toggled(perms: map<string, bool>, key: string)
  {
    key in perms && perms[key]
  }

  /** The form after the text of one field has been replaced. */
  function SetField(form: FormState, key: string, text: string): (r: FormState)
    ensures key in r.fields && r.fields[key] == text
    ensures forall k :: k != key ==> (k in r.fields <==> k in form.fields)
    ensures forall k :: k != key && k in form.fields ==> r.fields[k] == form.fields[k]
    ensures r.placeholders == form.placeholders && r.labels == form.labels
    ensures r.(fields := form.fields) == form
  {
    form.(fields := form.fields[key := text])
  }
}
