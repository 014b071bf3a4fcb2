/** The admin notifications page: the feedback list loaded once, shown five
    (or 10, 15, 20) per page under the page buttons of `PageButtons`. */
module Notifications {
  import opened JsArray
  import opened Pagination
  import opened PageButtons

  /** A feedback message as the list renders it. */
  datatype Enquiry = Enquiry(name: string, email: string, message: string, createdAt: int)

  /** How the feedback fetch ended: the parsed body's `data` field (`None`
      when it is missing or null), or a thrown error (network or parse). */
  datatype FeedbackReply = Body(data: Option<seq<Enquiry>>) | Threw

  datatype Feed = Feed(enquiries: seq<Enquiry>, isLoading: bool)

  /** The page's first render: an empty list, still loading. */
  const InitialFeed := Feed([], true)

  /** `fetchEnquiries`: `setEnquiries(data.data || [])`, errors only logged,
      and the loading flag cleared either way. */
  function LoadEnquiries(f: Feed, reply: FeedbackReply): (r: Feed)
    ensures !r.isLoading
    ensures reply.Body? && reply.data.Some? ==> r.enquiries == reply.data.value
    ensures reply.Body? && reply.data.None? ==> r.enquiries == []
    ensures reply.Threw? ==> r.enquiries == f.enquiries
  {
    match reply
    case Body(data) => Feed(if data.Some? then data.value else [], false)
    case Threw => f.(isLoading := false)
  }

  /** A reply without a list leaves the page empty: no page, no row, and
      no page button. */
  lemma MissingDataShowsNothing(s: PageState)
    requires 1 <= s.perPage
    ensures var r := LoadEnquiries(InitialFeed, Body(None));
      && r.enquiries == []
      && TotalPages(|r.enquiries|, s.perPage) == 0
      && CurrentItems(r.enquiries, s) == []
      && NotificationButtons(TotalPages(|r.enquiries|, s.perPage), s.page) == []
  {
  }
}
