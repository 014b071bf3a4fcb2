/** The "Buy Now" flow of the catalog page: log-in check, address fetch,
    address choice, the order dialog with its quantity stepper, the stock
    check, and the purchase request. Every dialog answer and server reply
    is an input; the flow's result says where it stopped or what it sent. */
module Purchase {
  import opened JsArray
  import opened Records

  // ---------------------------------------------------------------------
  // The quantity stepper of the order dialog.

  datatype Step = Increment | Decrement

  /** One press of '+' (`if (quantity < maxCopies) quantity++`) or '-'
      (`if (quantity > 1) quantity--`). */
  function Press(quantity: int, maxCopies: int, step: Step): (r: int)
    ensures quantity - 1 <= r <= quantity + 1
    ensures r > quantity ==> r <= maxCopies
    ensures r < quantity ==> 1 <= r
    ensures (step.Increment? ==> r >= quantity) && (step.Decrement? ==> r <= quantity)
  {
    match step
    case Increment => if quantity < maxCopies then quantity + 1 else quantity
    case Decrement => if quantity > 1 then quantity - 1 else quantity
  }

  /** The quantity after a series of presses, starting from `quantity`. */
  function PressAll(quantity: int, maxCopies: int, steps: seq<Step>): int
    decreases |steps|
  {
    if |steps| == 0 then quantity
    else PressAll(Press(quantity, maxCopies, steps[0]), maxCopies, steps[1..])
  }

  /** The stepper never takes the quantity below 1, and never above the
      copies available unless it already was (it starts at 1 even when no
      copy is left). */
  lemma {:induction false} StepperBounds(quantity: int, maxCopies: int, steps: seq<Step>)
    requires 1 <= quantity && (quantity <= maxCopies || quantity == 1)
    ensures var q := PressAll(quantity, maxCopies, steps);
      1 <= q && (q <= maxCopies || q == 1)
    decreases |steps|
  {
    if |steps| > 0 {
      StepperBounds(Press(quantity, maxCopies, steps[0]), maxCopies, steps[1..]);
    }
  }

  /** Every quantity from 1 to the copies available can be reached. */
  lemma {:induction false} StepperReaches(maxCopies: int, q: int)
    requires 1 <= q <= maxCopies
    ensures PressAll(1, maxCopies, seq(q - 1, _ => Increment)) == q
    decreases q
  {
    if q > 1 {
      StepperReaches(maxCopies, q - 1);
      var steps := seq(q - 1, _ => Increment);
      assert steps == seq(q - 2, _ => Increment) + [Increment];
      PressAllAppend(1, maxCopies, seq(q - 2, _ => Increment), [Increment]);
    }
  }

  lemma {:induction false} PressAllAppend(quantity: int, maxCopies: int, a: seq<Step>, b: seq<Step>)
    ensures PressAll(quantity, maxCopies, a + b) == PressAll(PressAll(quantity, maxCopies, a), maxCopies, b)
    decreases |a|
  {
    if |a| > 0 {
      assert (a + b)[0] == a[0] && (a + b)[1..] == a[1..] + b;
      PressAllAppend(Press(quantity, maxCopies, a[0]), maxCopies, a[1..], b);
    } else {
      assert a + b == b;
    }
  }

  // ---------------------------------------------------------------------
  // The flow.

  /** How `GET /api/addresses/{userId}` ended; `data` is `None` when the
      body is null. */
  datatype AddressReply = AddressesOk(data: Option<seq<Address>>) | AddressError

  /** What the order dialogs answered. `chosen` is the address id the
      select dialog returned (`None` when it was dismissed or "Add New
      Address" was pressed); `steps` are the stepper presses; `confirmed`
      is whether "Place Order" was pressed. */
  datatype Answers = Answers(chosen: Option<int>, steps: seq<Step>, confirmed: bool)

  /** The body of `POST /api/purchases`. */
  datatype PurchaseRequest = PurchaseRequest(
    userId: string,
    bookTitle: string,
    bookImageUrl: string,
    author: string,
    price: int,
    quantity: int,
    totalPrice: int,
    purchasedDate: int,
    address: Address)

  /** Where `handleBuy` stops. */
  datatype Decision =
    | RedirectToLogin          // no user id: navigate to /login
    | NoAddress                // no address on file: prompt to add one
    | ToAddressPage            // address dialog dismissed: navigate to /myorders
    | Failed                   // caught error: "Failed to place order"
    | Cancelled                // order dialog cancelled
    | Rejected                 // quantity exceeds the copies available
    | Submit(request: PurchaseRequest)

  /** `userAddresses.find(addr => addr.id === parseInt(selectedAddressId))` */
  function FindAddress(addresses: seq<Address>, id: int): (r: Option<Address>)
    ensures r.Some? ==> r.value in addresses && r.value.id == id
    ensures r.Some? ==> exists i :: 0 <= i < |addresses| && addresses[i] == r.value
                                    && forall j :: 0 <= j < i ==> addresses[j].id != id
    ensures r.None? <==> forall a :: a in addresses ==> a.id != id
  {
    if |addresses| == 0 then None
    else if addresses[0].id == id then Some(addresses[0])
    else
      var r := FindAddress(addresses[1..], id);
      assert forall a :: a in addresses ==> a == addresses[0] || a in addresses[1..];
      r
  }

  /** `handleBuy(book)`. `userId` is the stored user id, `now` the clock
      reading taken for `purchasedDate`. When the chosen id matches no
      fetched address the dialog template dereferences `undefined`, which
      the surrounding `catch` reports as a failure. */
  function Decide(userId: Option<string>, book: Book, reply: AddressReply,
                  answers: Answers, now: int): (r: Decision)
    ensures (userId.None? || userId.value == "") ==> r == RedirectToLogin
    ensures r.Submit? ==>
      && userId.Some? && userId.value != ""
      && reply.AddressesOk? && reply.data.Some?
      && answers.confirmed
      && answers.chosen.Some?
      && FindAddress(reply.data.value, answers.chosen.value) == Some(r.request.address)
      && 1 <= r.request.quantity <= book.copiesAvailable
      && r.request.quantity == PressAll(1, book.copiesAvailable, answers.steps)
      && r.request.totalPrice == book.price * r.request.quantity
      && r.request.userId == userId.value
      && r.request.bookTitle == book.title && r.request.bookImageUrl == book.imageUrl
      && r.request.author == book.authorName
      && r.request.price == book.price && r.request.purchasedDate == now
    ensures userId.Some? && userId.value != "" && reply.AddressError? ==> r == Failed
    ensures (&& userId.Some? && userId.value != ""
             && reply.AddressesOk? && (reply.data.None? || reply.data.value == []))
            ==> r == NoAddress
    ensures (&& userId.Some? && userId.value != ""
             && reply.AddressesOk? && reply.data.Some? && reply.data.value != []
             && answers.chosen.None?)
            ==> r == ToAddressPage
    ensures (&& userId.Some? && userId.value != ""
             && reply.AddressesOk? && reply.data.Some? && reply.data.value != []
             && answers.chosen.Some? && FindAddress(reply.data.value, answers.chosen.value).None?)
            ==> r == Failed
    ensures (&& userId.Some? && userId.value != ""
             && reply.AddressesOk? && reply.data.Some? && reply.data.value != []
             && answers.chosen.Some? && FindAddress(reply.data.value, answers.chosen.value).Some?
             && !answers.confirmed)
            ==> r == Cancelled
    ensures r.Rejected? <==>
      && userId.Some? && userId.value != ""
      && reply.AddressesOk? && reply.data.Some? && reply.data.value != []
      && answers.chosen.Some? && FindAddress(reply.data.value, answers.chosen.value).Some?
      && answers.confirmed
      && PressAll(1, book.copiesAvailable, answers.steps) > book.copiesAvailable
  {
    if userId.None? || userId.value == "" then RedirectToLogin
    else if reply.AddressError? then Failed
    else if reply.data.None? || reply.data.value == [] then NoAddress
    else if answers.chosen.None? then ToAddressPage
    else
      match FindAddress(reply.data.value, answers.chosen.value)
      case None => Failed
      case Some(address) =>
        var quantity := PressAll(1, book.copiesAvailable, answers.steps);
        StepperBounds(1, book.copiesAvailable, answers.steps);
        if !answers.confirmed then Cancelled
        else if quantity > book.copiesAvailable then Rejected
        else Submit(PurchaseRequest(
          userId.value, book.title, book.imageUrl, book.authorName, book.price,
          quantity, book.price * quantity, now, address))
  }

  /** The stock check only ever rejects a book with no copy left: the stepper
      already keeps the quantity within stock whenever there is any. So a
      confirmed order for a book in stock is always submitted, and one for a
      book out of stock never is. */
  lemma RejectedExactlyWhenOutOfStock(userId: string, book: Book, addresses: seq<Address>,
                                      id: int, steps: seq<Step>, now: int)
    requires userId != "" && FindAddress(addresses, id).Some?
    ensures var r := Decide(Some(userId), book, AddressesOk(Some(addresses)), Answers(Some(id), steps, true), now);
      (r.Rejected? <==> book.copiesAvailable < 1) && (r.Submit? <==> 1 <= book.copiesAvailable)
  {
    StepperBounds(1, book.copiesAvailable, steps);
  }

  /** How `POST /api/purchases` ended: the status the server answered, or
      no answer at all (a network error). */
  datatype PostReply = PostStatus(status: int) | PostError

  /** axios rejects the request's promise, by default, on a network error
      and on any status outside 200..299. */
  predicate PostRejected(post: PostReply)
  {
    post.PostError? || !(200 <= post.status < 300)
  }

  /** The toast `handleBuy` ends with. */
  datatype Toast =
    | NoToast
    | PlacedToast     // "Order placed successfully!", followed by a catalog refetch
    | StockToast      // "Selected quantity exceeds available copies"
    | FailureToast    // "Failed to place order. Please try again."

  /** A 201 answer places the order; any other 2xx status ends the flow
      silently; a rejected request, like every error caught earlier, shows
      the failure toast. */
  function EndToast(d: Decision, post: PostReply): (r: Toast)
    ensures r.PlacedToast? <==> d.Submit? && post == PostStatus(201)
    ensures r.StockToast? <==> d.Rejected?
    ensures r.FailureToast? <==> d.Failed? || (d.Submit? && PostRejected(post))
    ensures r.NoToast? && d.Submit? ==> post.PostStatus? && 200 <= post.status < 300 && post.status != 201
  {
    match d
    case Failed => FailureToast
    case Rejected => StockToast
    case Submit(_) =>
      if PostRejected(post) then FailureToast
      else if post.status == 201 then PlacedToast
      else NoToast
    case _ => NoToast
  }

  /** An order is placed only for a logged-in user who confirmed a quantity
      the stepper reached within stock, at the book's price; a user without
      an id never sees a toast; and the stock toast appears exactly for a
      confirmed order of a book with no copy left. */
  lemma PlacedOrdersAreValid(userId: Option<string>, book: Book, reply: AddressReply,
                             answers: Answers, now: int, post: PostReply)
    ensures var d := Decide(userId, book, reply, answers, now);
      && (EndToast(d, post).PlacedToast? ==>
            && userId.Some? && userId.value != "" && answers.confirmed
            && 1 <= d.request.quantity <= book.copiesAvailable
            && d.request.totalPrice == book.price * d.request.quantity)
      && ((userId.None? || userId.value == "") ==> EndToast(d, post).NoToast?)
      && (EndToast(d, post).StockToast? <==>
            && userId.Some? && userId.value != ""
            && reply.AddressesOk? && reply.data.Some? && reply.data.value != []
            && answers.chosen.Some? && FindAddress(reply.data.value, answers.chosen.value).Some?
            && answers.confirmed && book.copiesAvailable < 1)
  {
    StepperBounds(1, book.copiesAvailable, answers.steps);
  }
}
