/** The admin "Add New Book" form: ten text fields, a check that three of
    them are filled in, the request body built from the form, and the reset
    after the server reports the book created. Numeric fields stay text
    here; their conversion to numbers is not part of this model. */
module AddBook {
  import opened JsArray
  import opened Forms

  const Title := "title"
  const AuthorName := "authorName"
  const PublisherName := "publisherName"
  const Price := "price"
  const TotalCopies := "totalCopies"
  const CopiesAvailable := "copiesAvailable"

  /** The form's fields; all start empty and are emptied again by a reset. */
  const BookFields: set<string> :=
    {Title, "summary", "imageUrl", Price, TotalCopies, CopiesAvailable,
     "genre", PublisherName, AuthorName, "authorBio"}

  const InitialForm: Form := Blank(BookFields)

  /** `handleInputChange`: only the named field changes. */
  function HandleInputChange(form: Form, name: string, value: string): (r: Form)
    ensures Field(r, name) == value
    ensures forall k :: k != name ==> Field(r, k) == Field(form, k)
    ensures name in BookFields && form.Keys == BookFields ==> r.Keys == BookFields
  {
    SetField(form, name, value)
  }

  /** The request body `{...bookData, price, totalCopies, copiesAvailable}`:
      `copiesAvailable` falls back to `totalCopies` when it is empty
      (`bookData.copiesAvailable || bookData.totalCopies`). */
  function Payload(form: Form): (r: Form)
    ensures r.Keys == form.Keys + {Price, TotalCopies, CopiesAvailable}
    ensures forall k :: k in form && k !in {Price, TotalCopies, CopiesAvailable} ==> r[k] == form[k]
    ensures r[Price] == Field(form, Price) && r[TotalCopies] == Field(form, TotalCopies)
    ensures Field(form, CopiesAvailable) != "" ==> r[CopiesAvailable] == Field(form, CopiesAvailable)
    ensures Field(form, CopiesAvailable) == "" ==> r[CopiesAvailable] == Field(form, TotalCopies)
  {
    var copies := if Field(form, CopiesAvailable) != "" then Field(form, CopiesAvailable)
                  else Field(form, TotalCopies);
    form[Price := Field(form, Price)][TotalCopies := Field(form, TotalCopies)][CopiesAvailable := copies]
  }

  /** How `POST /api/books` ended: the status the server answered, or no
      answer at all (a network error). */
  datatype AddReply = Status(code: int) | AddThrew

  /** axios rejects the request's promise, by default, on a network error
      and on any status outside 200..299; the `catch` then alerts. */
  predicate AddRejected(reply: AddReply)
  {
    reply.AddThrew? || !(200 <= reply.code < 300)
  }

  datatype Alert = NoAlert | MissingInformation | BookAdded | AddFailed

  /** The form afterwards, the body sent (if any), and the alert shown. */
  datatype AddOutcome = AddOutcome(form: Form, sent: Option<Form>, alert: Alert)

  /** `handleAddBook`. `reply` matters only when a request was sent. */
  function HandleAddBook(form: Form, reply: AddReply): (r: AddOutcome)
    ensures r.sent.None? <==>
      Field(form, Title) == "" || Field(form, AuthorName) == "" || Field(form, PublisherName) == ""
    ensures r.sent.None? ==> r.form == form && r.alert == MissingInformation
    ensures r.sent.Some? ==> r.sent.value == Payload(form)
    ensures r.sent.Some? && reply == Status(201) ==>
      r.form.Keys == BookFields && (forall k :: k in r.form ==> r.form[k] == "") && r.alert == BookAdded
    ensures r.sent.Some? && reply.Status? && 200 <= reply.code < 300 && reply.code != 201 ==>
      r.form == form && r.alert == NoAlert
    ensures AddRejected(reply) ==> r.form == form
    ensures r.sent.Some? && AddRejected(reply) ==> r.alert == AddFailed
  {
    if Field(form, Title) == "" || Field(form, AuthorName) == "" || Field(form, PublisherName) == "" then
      AddOutcome(form, None, MissingInformation)
    else
      var sent := Some(Payload(form));
      if AddRejected(reply) then AddOutcome(form, sent, AddFailed)
      else if reply.code == 201 then AddOutcome(InitialForm, sent, BookAdded)
      else AddOutcome(form, sent, NoAlert)
  }

  /** A copies-available text that is not empty is sent as typed, "0"
      included; only the empty text falls back to the total. */
  lemma CopiesDefaulting(form: Form)
    ensures Field(form, CopiesAvailable) == "0" ==> Payload(form)[CopiesAvailable] == "0"
    ensures Field(form, CopiesAvailable) == "" ==> Payload(form)[CopiesAvailable] == Payload(form)[TotalCopies]
  {
  }

  /** A successful add leaves a form that is rejected until filled in
      again, so pressing the button twice never adds the book twice. */
  lemma AddedFormIsRejected(form: Form, next: AddReply)
    requires HandleAddBook(form, Status(201)).sent.Some?
    ensures HandleAddBook(HandleAddBook(form, Status(201)).form, next).sent.None?
  {
    assert Title in InitialForm;
  }

  /** Filling in the three required fields of the empty form is what it
      takes for a request to be sent. */
  lemma FilledFormIsSent(title: string, author: string, publisher: string, reply: AddReply)
    ensures var form := HandleInputChange(HandleInputChange(HandleInputChange(
                          InitialForm, Title, title), AuthorName, author), PublisherName, publisher);
      HandleAddBook(form, reply).sent.Some? <==> title != "" && author != "" && publisher != ""
  {
  }
}
