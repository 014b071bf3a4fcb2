/** Controlled forms. A form's state is a JavaScript object of text fields,
    here a map from field name to text; an input's change event replaces
    one field with `{...prev, [name]: value}`. */
module Forms {

  type Form = map<string, string>

  /** `{...form, [name]: value}` */
  function SetField(form: Form, name: string, value: string): (r: Form)
    ensures r.Keys == form.Keys + {name}
    ensures name in r && r[name] == value
    ensures forall k :: k in form && k != name ==> r[k] == form[k]
  {
    form[name := value]
  }

  /** `form[name]`, with a field the form does not hold read as the empty
      string: both are falsy, and the views only test fields for falsiness
      or copy them. */
  function Field(form: Form, name: string): (r: string)
    ensures name in form ==> r == form[name]
    ensures name !in form ==> r == ""
  {
    if name in form then form[name] else ""
  }

  /** A form whose every listed field is the empty string. */
  function Blank(names: set<string>): (r: Form)
    ensures r.Keys == names
    ensures forall k :: k in r ==> r[k] == ""
  {
    map k | k in names :: ""
  }

  /** Reading back after a change: the named field holds the new text and
      every other field reads as before. */
  lemma SetFieldThenRead(form: Form, name: string, value: string, other: string)
    ensures Field(SetField(form, name, value), name) == value
    ensures other != name ==> Field(SetField(form, name, value), other) == Field(form, other)
  {
  }

  /** Setting a field to the text it already holds changes nothing, and the
      later of two changes to one field wins. */
  lemma SetFieldOverwrites(form: Form, name: string, v1: string, v2: string)
    ensures name in form ==> SetField(form, name, form[name]) == form
    ensures SetField(SetField(form, name, v1), name, v2) == SetField(form, name, v2)
  {
  }
}
