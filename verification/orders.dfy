/** The customer's orders page: the purchase list with its delete dialog,
    the five-per-page table with its page buttons, and the address form. */
module Orders {
  import opened JsArray
  import opened Pagination
  import opened Records
  import opened Forms

  /** The fields of the address form. */
  const AddressFields: set<string> :=
    {"street", "landmark", "city", "state", "postalCode", "country"}

  /** How the "Are you sure?" dialog closed: confirmed, "No, keep it", or
      dismissed another way (backdrop click, escape key). */
  datatype DialogResult = Confirmed | CancelPressed | DismissedOtherwise

  /** How `DELETE /api/purchases/{id}` ended: a 2xx answer, or a thrown error. */
  datatype DeleteReply = Acknowledged | DeleteFailed

  /** The alert shown after the dialog. */
  datatype Alert = NoAlert | DeletedAlert | SafeAlert | ErrorAlert

  datatype Deleted = Deleted(purchases: seq<Purchase>, alert: Alert)

  /** `handleDelete(purchaseId)`. `reply` matters only when the dialog was
      confirmed, since no request is sent otherwise. */
  function HandleDelete(purchases: seq<Purchase>, purchaseId: string,
                        dialog: DialogResult, reply: DeleteReply): (r: Deleted)
    ensures dialog.Confirmed? && reply.Acknowledged? ==>
      && r.alert == DeletedAlert
      && IsSubsequence(r.purchases, purchases)
      && (forall p :: p in r.purchases ==> p in purchases && p.docId != purchaseId)
      && (forall p :: p in purchases && p.docId != purchaseId ==>
            multiset(r.purchases)[p] == multiset(purchases)[p])
    ensures !(dialog.Confirmed? && reply.Acknowledged?) ==> r.purchases == purchases
    ensures dialog.Confirmed? && reply.DeleteFailed? ==> r.alert == ErrorAlert
    ensures dialog.CancelPressed? ==> r.alert == SafeAlert
    ensures dialog.DismissedOtherwise? ==> r.alert == NoAlert
  {
    match dialog
    case Confirmed =>
      if reply.Acknowledged? then Deleted(Without(purchases, PurchaseDocId, purchaseId), DeletedAlert)
      else Deleted(purchases, ErrorAlert)
    case CancelPressed => Deleted(purchases, SafeAlert)
    case DismissedOtherwise => Deleted(purchases, NoAlert)
  }

  /** After an acknowledged delete no purchase with that id is left, and
      deleting the same id again removes nothing more. */
  lemma DeleteRemovesAll(purchases: seq<Purchase>, purchaseId: string, reply: DeleteReply)
    ensures var r := HandleDelete(purchases, purchaseId, Confirmed, Acknowledged);
      && (forall i :: 0 <= i < |r.purchases| ==> r.purchases[i].docId != purchaseId)
      && HandleDelete(r.purchases, purchaseId, Confirmed, reply).purchases == r.purchases
  {
    var r := HandleDelete(purchases, purchaseId, Confirmed, Acknowledged);
    WithoutAbsent(r.purchases, PurchaseDocId, purchaseId);
  }

  /** Deleting an id no purchase has leaves the list as it was. */
  lemma DeleteUnknownId(purchases: seq<Purchase>, purchaseId: string)
    requires forall p :: p in purchases ==> p.docId != purchaseId
    ensures HandleDelete(purchases, purchaseId, Confirmed, Acknowledged).purchases == purchases
  {
    WithoutAbsent(purchases, PurchaseDocId, purchaseId);
  }

  /** `handleAddressChange`: only the named field changes. */
  function HandleAddressChange(address: Form, name: string, value: string): (r: Form)
    ensures Field(r, name) == value
    ensures forall k :: k != name ==> Field(r, k) == Field(address, k)
    ensures name in AddressFields && address.Keys == AddressFields ==> r.Keys == AddressFields
  {
    SetField(address, name, value)
  }

  /** `totalPages` of the orders table. */
  function OrderPages(purchases: seq<Purchase>, s: PageState): (r: nat)
    requires 1 <= s.perPage
    ensures |purchases| <= r * s.perPage
    ensures 0 < |purchases| ==> (r - 1) * s.perPage < |purchases|
    ensures |purchases| == 0 <==> r == 0
  {
    TotalPages(|purchases|, s.perPage)
  }
}
