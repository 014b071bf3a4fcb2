/** The admin purchase history: every purchase grouped by user, and within
    a user by book title, with quantities and totals summed and purchase
    dates collected, shown ten (or 5 … 25) users per page. */
module PurchaseHistory {
  import opened JsArray
  import opened Pagination
  import opened Records

  /** One user's purchases of one title. */
  datatype Aggregate = Aggregate(
    bookTitle: string,
    author: string,
    price: int,
    quantity: int,
    totalPrice: int,
    purchasedDates: seq<int>)

  /** One user's entry: the name, and an aggregate per title. */
  datatype Group = Group(userName: string, purchases: map<string, Aggregate>)

  /** The accumulator object of the reduce, keyed by user id. */
  type Grouped = map<string, Group>

  /** One step of the reduce: create the user's group from this record if
      absent, create the title's aggregate from this record if absent, then
      add the record's quantity, total and date. */
  function AddRecord(acc: Grouped, d: Purchase): (r: Grouped)
    ensures r.Keys == acc.Keys + {d.userId}
    ensures forall u :: u in acc && u != d.userId ==> r[u] == acc[u]
  {
    var g := if d.userId in acc then acc[d.userId] else Group(d.username, map[]);
    var a := if d.bookTitle in g.purchases then g.purchases[d.bookTitle]
             else Aggregate(d.bookTitle, d.author, d.price, 0, 0, []);
    acc[d.userId := g.(purchases := g.purchases[d.bookTitle := Absorb(a, d)])]
  }

  /** Lines 53-55: add one record's quantity, total and date. */
  function Absorb(a: Aggregate, d: Purchase): Aggregate
  {
    a.(quantity := a.quantity + d.quantity,
       totalPrice := a.totalPrice + d.totalPrice,
       purchasedDates := a.purchasedDates + [d.purchasedDate])
  }

  /** `details.reduce(step, {})`, written as a fold over the records in
      order. */
  function GroupByUser(details: seq<Purchase>): (r: Grouped)
    ensures r.Keys == set d | d in details :: d.userId
    decreases |details|
  {
    if |details| == 0 then map[]
    else
      var init := details[..|details| - 1];
      var last := details[|details| - 1];
      SplitLast(details);
      AddRecord(GroupByUser(init), last)
  }

  // ---------------------------------------------------------------------
  // The reference definition: what each group and aggregate should hold,
  // stated over the records directly.

  /** The records of user `u`, in input order. */
  function UserRecords(ds: seq<Purchase>, u: string): (r: seq<Purchase>)
    ensures forall p :: p in r ==> p in ds && p.userId == u
    ensures forall p :: p in ds && p.userId == u ==> p in r
    decreases |ds|
  {
    if |ds| == 0 then []
    else
      var init := ds[..|ds| - 1];
      var last := ds[|ds| - 1];
      SplitLast(ds);
      UserRecords(init, u) + (if last.userId == u then [last] else [])
  }

  /** The records of user `u` for title `t`, in input order. */
  function RecordsOf(ds: seq<Purchase>, u: string, t: string): (r: seq<Purchase>)
    ensures forall p :: p in r ==> p in ds && p.userId == u && p.bookTitle == t
    ensures forall p :: p in ds && p.userId == u && p.bookTitle == t ==> p in r
    decreases |ds|
  {
    if |ds| == 0 then []
    else
      var init := ds[..|ds| - 1];
      var last := ds[|ds| - 1];
      SplitLast(ds);
      RecordsOf(init, u, t) + (if last.userId == u && last.bookTitle == t then [last] else [])
  }

  function SumQuantity(rs: seq<Purchase>): int
    decreases |rs|
  {
    if |rs| == 0 then 0 else SumQuantity(rs[..|rs| - 1]) + rs[|rs| - 1].quantity
  }

  function SumTotal(rs: seq<Purchase>): int
    decreases |rs|
  {
    if |rs| == 0 then 0 else SumTotal(rs[..|rs| - 1]) + rs[|rs| - 1].totalPrice
  }

  function Dates(rs: seq<Purchase>): (r: seq<int>)
    ensures |r| == |rs| && forall i :: 0 <= i < |rs| ==> r[i] == rs[i].purchasedDate
  {
    seq(|rs|, i requires 0 <= i < |rs| => rs[i].purchasedDate)
  }

  /** The aggregate a non-empty run of records of one user and title should
      produce: title, author and price of the first, sums of quantity and
      total, and every date in order. */
  function Summarize(rs: seq<Purchase>): Aggregate
    requires rs != []
  {
    Aggregate(rs[0].bookTitle, rs[0].author, rs[0].price, SumQuantity(rs), SumTotal(rs), Dates(rs))
  }

  /** One group per user with records, named after the user's first record. */
  ghost predicate UsersFaithful(g: Grouped, ds: seq<Purchase>)
  {
    && (forall u :: u in g <==> UserRecords(ds, u) != [])
    && (forall u :: u in g ==> g[u].userName == UserRecords(ds, u)[0].username)
  }

  /** One aggregate per title the user bought, each the summary of exactly
      that user's records of that title. */
  ghost predicate TitlesFaithful(g: Grouped, ds: seq<Purchase>)
  {
    && (forall u, t :: u in g ==> (t in g[u].purchases <==> RecordsOf(ds, u, t) != []))
    && (forall u, t :: u in g && t in g[u].purchases ==>
          RecordsOf(ds, u, t) != [] && g[u].purchases[t] == Summarize(RecordsOf(ds, u, t)))
  }

  /** The grouping agrees with the reference definition for the records `ds`. */
  ghost predicate Faithful(g: Grouped, ds: seq<Purchase>)
  {
    UsersFaithful(g, ds) && TitlesFaithful(g, ds)
  }

  lemma SummarizeAppend(rs: seq<Purchase>, d: Purchase)
    ensures rs == [] ==>
      Summarize(rs + [d]) == Aggregate(d.bookTitle, d.author, d.price, d.quantity, d.totalPrice, [d.purchasedDate])
    ensures rs != [] ==>
      Summarize(rs + [d]) == Summarize(rs).(quantity := SumQuantity(rs) + d.quantity,
                                            totalPrice := SumTotal(rs) + d.totalPrice,
                                            purchasedDates := Dates(rs) + [d.purchasedDate])
  {
    var rs' := rs + [d];
    assert rs'[..|rs|] == rs;
    assert Dates(rs') == Dates(rs) + [d.purchasedDate];
    if rs == [] {
      assert rs' == [d];
      assert SumQuantity([d]) == SumQuantity([]) + d.quantity;
      assert SumTotal([d]) == SumTotal([]) + d.totalPrice;
    }
  }

  /** Appending a record extends the reference runs it belongs to. */
  lemma RecordsAppend(ds: seq<Purchase>, d: Purchase)
    ensures forall u :: UserRecords(ds + [d], u) == UserRecords(ds, u) + (if d.userId == u then [d] else [])
    ensures forall u, t :: RecordsOf(ds + [d], u, t)
                        == RecordsOf(ds, u, t) + (if d.userId == u && d.bookTitle == t then [d] else [])
  {
    assert (ds + [d])[..|ds|] == ds;
    assert (ds + [d])[|ds|] == d;
  }

  lemma AddRecordUsers(g: Grouped, ds: seq<Purchase>, d: Purchase)
    requires UsersFaithful(g, ds)
    ensures UsersFaithful(AddRecord(g, d), ds + [d])
  {
    var ds' := ds + [d];
    var g' := AddRecord(g, d);
    RecordsAppend(ds, d);
    forall u ensures u in g' <==> UserRecords(ds', u) != [] {
    }
    forall u | u in g' ensures g'[u].userName == UserRecords(ds', u)[0].username {
      if u != d.userId {
        assert UserRecords(ds', u) == UserRecords(ds, u);
      } else if u in g {
        assert UserRecords(ds', u)[0] == UserRecords(ds, u)[0];
      } else {
        assert UserRecords(ds', u) == [d];
      }
    }
  }

  /** A user without records has no title with records either. */
  lemma NoUserNoTitles(ds: seq<Purchase>, u: string, t: string)
    requires UserRecords(ds, u) == []
    ensures RecordsOf(ds, u, t) == []
  {
  }

  /** The user's group after the step, spelled out. */
  lemma AddRecordAt(g: Grouped, d: Purchase, t: string)
    ensures var g' := AddRecord(g, d);
      var before := if d.userId in g then g[d.userId].purchases else map[];
      && (t in g'[d.userId].purchases <==> t in before || t == d.bookTitle)
      && (t != d.bookTitle && t in before ==> g'[d.userId].purchases[t] == before[t])
      && (t == d.bookTitle && t in before ==>
            g'[d.userId].purchases[t] == Absorb(before[t], d))
      && (t == d.bookTitle && t !in before ==>
            g'[d.userId].purchases[t]
            == Aggregate(d.bookTitle, d.author, d.price, d.quantity, d.totalPrice, [d.purchasedDate]))
  {
  }

  lemma AddRecordTitleKeys(g: Grouped, ds: seq<Purchase>, d: Purchase)
    requires UsersFaithful(g, ds) && TitlesFaithful(g, ds)
    ensures var g' := AddRecord(g, d);
      forall u, t :: u in g' ==> (t in g'[u].purchases <==> RecordsOf(ds + [d], u, t) != [])
  {
    var g' := AddRecord(g, d);
    forall u, t | u in g' ensures t in g'[u].purchases <==> RecordsOf(ds + [d], u, t) != [] {
      AddRecordTitleKeyAt(g, ds, d, u, t);
    }
  }

  lemma AddRecordTitleKeyAt(g: Grouped, ds: seq<Purchase>, d: Purchase, u: string, t: string)
    requires u !in g ==> UserRecords(ds, u) == []
    requires u in g ==> (t in g[u].purchases <==> RecordsOf(ds, u, t) != [])
    requires u in AddRecord(g, d)
    ensures t in AddRecord(g, d)[u].purchases <==> RecordsOf(ds + [d], u, t) != []
  {
    RecordsAppendAt(ds, d, u, t);
    if u == d.userId {
      AddRecordAt(g, d, t);
      if u !in g {
        NoUserNoTitles(ds, u, t);
      }
    }
  }

  lemma RecordsAppendAt(ds: seq<Purchase>, d: Purchase, u: string, t: string)
    ensures RecordsOf(ds + [d], u, t)
         == RecordsOf(ds, u, t) + (if d.userId == u && d.bookTitle == t then [d] else [])
  {
    assert (ds + [d])[..|ds|] == ds;
  }

  /** Aggregates of another user or another title are left as they were. */
  lemma UntouchedAggregate(g: Grouped, ds: seq<Purchase>, d: Purchase, u: string, t: string)
    requires u != d.userId || t != d.bookTitle
    requires u in g && t in g[u].purchases ==>
      RecordsOf(ds, u, t) != [] && g[u].purchases[t] == Summarize(RecordsOf(ds, u, t))
    requires u in AddRecord(g, d) && t in AddRecord(g, d)[u].purchases
    ensures RecordsOf(ds + [d], u, t) != []
    ensures AddRecord(g, d)[u].purchases[t] == Summarize(RecordsOf(ds + [d], u, t))
  {
    if u == d.userId {
      AddRecordAt(g, d, t);
    }
    RecordsAppendAt(ds, d, u, t);
    assert RecordsOf(ds + [d], u, t) == RecordsOf(ds, u, t) + [];
    assert RecordsOf(ds, u, t) + [] == RecordsOf(ds, u, t);
  }

  /** A further record of a title the user already bought. */
  lemma ExistingTitleStep(g: Grouped, ds: seq<Purchase>, d: Purchase)
    requires d.userId in g && d.bookTitle in g[d.userId].purchases
    requires var rs := RecordsOf(ds, d.userId, d.bookTitle);
      rs != [] && g[d.userId].purchases[d.bookTitle] == Summarize(rs)
    ensures RecordsOf(ds + [d], d.userId, d.bookTitle) != []
    ensures AddRecord(g, d)[d.userId].purchases[d.bookTitle]
         == Summarize(RecordsOf(ds + [d], d.userId, d.bookTitle))
  {
    var rs := RecordsOf(ds, d.userId, d.bookTitle);
    RecordsAppendAt(ds, d, d.userId, d.bookTitle);
    AbsorbSummary(g[d.userId].purchases[d.bookTitle], rs, d);
    AddRecordExisting(g, d);
  }

  /** The first record of a title creates its aggregate. */
  lemma NewTitleStep(g: Grouped, ds: seq<Purchase>, d: Purchase)
    requires !(d.userId in g && d.bookTitle in g[d.userId].purchases)
    requires RecordsOf(ds, d.userId, d.bookTitle) == []
    ensures RecordsOf(ds + [d], d.userId, d.bookTitle) != []
    ensures AddRecord(g, d)[d.userId].purchases[d.bookTitle]
         == Summarize(RecordsOf(ds + [d], d.userId, d.bookTitle))
  {
    RecordsAppendAt(ds, d, d.userId, d.bookTitle);
    SummarizeAppend([], d);
    assert [] + [d] == [d];
  }

  /** The step on a title the user already bought. */
  lemma AddRecordExisting(g: Grouped, d: Purchase)
    requires d.userId in g && d.bookTitle in g[d.userId].purchases
    ensures AddRecord(g, d)[d.userId].purchases[d.bookTitle]
         == Absorb(g[d.userId].purchases[d.bookTitle], d)
  {
  }

  lemma AbsorbSummary(a: Aggregate, rs: seq<Purchase>, d: Purchase)
    requires rs != [] && a == Summarize(rs)
    ensures Absorb(a, d) == Summarize(rs + [d])
  {
    SummarizeAppend(rs, d);
  }

  lemma AddRecordAggregates(g: Grouped, ds: seq<Purchase>, d: Purchase)
    requires UsersFaithful(g, ds) && TitlesFaithful(g, ds)
    ensures var g' := AddRecord(g, d);
      forall u, t :: u in g' && t in g'[u].purchases ==>
        RecordsOf(ds + [d], u, t) != [] && g'[u].purchases[t] == Summarize(RecordsOf(ds + [d], u, t))
  {
    var g' := AddRecord(g, d);
    forall u, t | u in g' && t in g'[u].purchases
      ensures RecordsOf(ds + [d], u, t) != [] && g'[u].purchases[t] == Summarize(RecordsOf(ds + [d], u, t))
    {
      if u != d.userId || t != d.bookTitle {
        UntouchedAggregate(g, ds, d, u, t);
      } else if u in g && t in g[u].purchases {
        ExistingTitleStep(g, ds, d);
      } else {
        if u !in g {
          NoUserNoTitles(ds, u, t);
        }
        NewTitleStep(g, ds, d);
      }
    }
  }

  lemma AddRecordTitles(g: Grouped, ds: seq<Purchase>, d: Purchase)
    requires UsersFaithful(g, ds) && TitlesFaithful(g, ds)
    ensures TitlesFaithful(AddRecord(g, d), ds + [d])
  {
    AddRecordTitleKeys(g, ds, d);
    AddRecordAggregates(g, ds, d);
  }

  lemma {:induction false} GroupByUserFaithful(ds: seq<Purchase>)
    ensures Faithful(GroupByUser(ds), ds)
    decreases |ds|
  {
    if |ds| > 0 {
      var init := ds[..|ds| - 1];
      var last := ds[|ds| - 1];
      SplitLast(ds);
      GroupByUserFaithful(init);
      var g := GroupByUser(init);
      assert GroupByUser(ds) == AddRecord(g, last);
      AddRecordUsers(g, init, last);
      AddRecordTitles(g, init, last);
    }
  }

  /** `p => p.userId === u && p.bookTitle === t` */
  function OfUserAndTitle(u: string, t: string): Purchase -> bool
  {
    (p: Purchase) => p.userId == u && p.bookTitle == t
  }

  /** The records of one user and title are exactly what
      `ds.filter(p => p.userId === u && p.bookTitle === t)` keeps, in order. */
  lemma {:induction false} RecordsOfIsFilter(ds: seq<Purchase>, u: string, t: string)
    ensures RecordsOf(ds, u, t) == Filter(ds, OfUserAndTitle(u, t))
    decreases |ds|
  {
    if |ds| > 0 {
      var init := ds[..|ds| - 1];
      var last := ds[|ds| - 1];
      SplitLast(ds);
      RecordsOfIsFilter(init, u, t);
      RecordsOfIsFilterStep(init, last, u, t);
      RecordsOfIsFilterSame(init + [last], ds, u, t);
    }
  }

  /** The inductive step: the appended record is kept by both or by neither. */
  lemma RecordsOfIsFilterStep(init: seq<Purchase>, last: Purchase, u: string, t: string)
    requires RecordsOf(init, u, t) == Filter(init, OfUserAndTitle(u, t))
    ensures RecordsOf(init + [last], u, t) == Filter(init + [last], OfUserAndTitle(u, t))
  {
    var keep := OfUserAndTitle(u, t);
    RecordsAppendAt(init, last, u, t);
    FilterSnoc(init, last, keep);
    var added := if last.userId == u && last.bookTitle == t then [last] else [];
    assert (if keep(last) then [last] else []) == added;
  }

  lemma RecordsOfIsFilterSame(a: seq<Purchase>, b: seq<Purchase>, u: string, t: string)
    requires a == b && RecordsOf(a, u, t) == Filter(a, OfUserAndTitle(u, t))
    ensures RecordsOf(b, u, t) == Filter(b, OfUserAndTitle(u, t))
  {
  }

  /** Each user's group carries the name of that user's first record. */
  lemma GroupNamesFromFirstRecord(ds: seq<Purchase>)
    ensures var g := GroupByUser(ds);
      forall u :: u in g ==> UserRecords(ds, u) != [] && g[u].userName == UserRecords(ds, u)[0].username
  {
    GroupByUserFaithful(ds);
  }

  /** A user's group has an aggregate exactly for each title that user
      bought. */
  lemma GroupTitlesAreBought(ds: seq<Purchase>)
    ensures var g := GroupByUser(ds);
      forall u, t :: u in g ==>
        (t in g[u].purchases <==> exists p :: p in ds && p.userId == u && p.bookTitle == t)
  {
    var g := GroupByUser(ds);
    GroupByUserFaithful(ds);
    forall u, t | u in g
      ensures t in g[u].purchases <==> exists p :: p in ds && p.userId == u && p.bookTitle == t
    {
      BoughtExactlyWithRecords(ds, u, t);
    }
  }

  lemma BoughtExactlyWithRecords(ds: seq<Purchase>, u: string, t: string)
    ensures RecordsOf(ds, u, t) != [] <==> exists p :: p in ds && p.userId == u && p.bookTitle == t
  {
    if RecordsOf(ds, u, t) != [] {
      assert RecordsOf(ds, u, t)[0] in RecordsOf(ds, u, t);
    }
  }

  /** Each aggregate summarises exactly its user's records of its title,
      `rs` below: title, author and price of the first of them, quantity
      and total summed over all of them, and their dates in input order. */
  lemma AggregatesSummarizeRecords(ds: seq<Purchase>, u: string, t: string)
    requires u in GroupByUser(ds) && t in GroupByUser(ds)[u].purchases
    ensures var a := GroupByUser(ds)[u].purchases[t];
      var rs := Filter(ds, OfUserAndTitle(u, t));
      && rs != []
      && a.bookTitle == t && a.author == rs[0].author && a.price == rs[0].price
      && a.quantity == SumQuantity(rs) && a.totalPrice == SumTotal(rs)
      && a.purchasedDates == Dates(rs)
  {
    GroupByUserFaithful(ds);
    RecordsOfIsFilter(ds, u, t);
    var rs := RecordsOf(ds, u, t);
    assert rs != [] && GroupByUser(ds)[u].purchases[t] == Summarize(rs);
    assert rs[0] in rs;
  }

  // ---------------------------------------------------------------------
  // Conservation: the quantities shown add up to the quantities bought.

  /** The sum of a map's values, in no particular key order. */
  ghost function SumValues(m: map<string, int>): int
    decreases |m|
  {
    if m.Keys == {} then 0
    else
      var k :| k in m.Keys;
      assert |(m - {k}).Keys| < |m.Keys| by {
        assert (m - {k}).Keys == m.Keys - {k};
      }
      m[k] + SumValues(m - {k})
  }

  /** The sum does not depend on which key is taken first. */
  lemma {:induction false} SumValuesRemove(m: map<string, int>, k: string)
    requires k in m
    ensures SumValues(m) == m[k] + SumValues(m - {k})
    decreases |m|
  {
    assert k in m.Keys;
    var j :| j in m.Keys && SumValues(m) == m[j] + SumValues(m - {j});
    if j != k {
      RemoveTwo(m, j, k);
      SumValuesRemove(m - {j}, k);
      SumValuesRemove(m - {k}, j);
    }
  }

  lemma RemoveTwo(m: map<string, int>, j: string, k: string)
    requires j in m && k in m && j != k
    ensures |m - {j}| < |m| && |m - {k}| < |m|
    ensures k in m - {j} && (m - {j})[k] == m[k]
    ensures j in m - {k} && (m - {k})[j] == m[j]
    ensures m - {j} - {k} == m - {k} - {j}
  {
    assert (m - {j}).Keys == m.Keys - {j};
    assert (m - {k}).Keys == m.Keys - {k};
  }

  lemma SumValuesUpdate(m: map<string, int>, k: string, v: int)
    ensures SumValues(m[k := v]) == SumValues(m) - (if k in m then m[k] else 0) + v
  {
    SumValuesRemove(m[k := v], k);
    assert m[k := v] - {k} == m - {k};
    if k in m {
      SumValuesRemove(m, k);
    } else {
      assert m - {k} == m;
    }
  }

  ghost function TitleQuantities(grp: Group): map<string, int>
  {
    map t | t in grp.purchases :: grp.purchases[t].quantity
  }

  /** The copies one user bought, over all titles. */
  ghost function GroupQuantity(grp: Group): int
  {
    SumValues(TitleQuantities(grp))
  }

  ghost function UserQuantities(g: Grouped): map<string, int>
  {
    map u | u in g :: GroupQuantity(g[u])
  }

  /** The copies the whole table accounts for. */
  ghost function TotalQuantity(g: Grouped): int
  {
    SumValues(UserQuantities(g))
  }

  lemma AddRecordGroupQuantity(g: Grouped, d: Purchase)
    ensures var before := if d.userId in g then GroupQuantity(g[d.userId]) else 0;
      GroupQuantity(AddRecord(g, d)[d.userId]) == before + d.quantity
  {
    var grp := if d.userId in g then g[d.userId] else Group(d.username, map[]);
    var a := if d.bookTitle in grp.purchases then grp.purchases[d.bookTitle]
             else Aggregate(d.bookTitle, d.author, d.price, 0, 0, []);
    TitleQuantitiesStep(grp, a, d);
    SumValuesUpdate(TitleQuantities(grp), d.bookTitle, a.quantity + d.quantity);
    if d.userId !in g {
      assert TitleQuantities(grp) == map[];
    }
  }

  /** Only the record's title's quantity changes in its user's group. */
  lemma TitleQuantitiesStep(grp: Group, a: Aggregate, d: Purchase)
    ensures var grp' := grp.(purchases := grp.purchases[d.bookTitle := Absorb(a, d)]);
      TitleQuantities(grp') == TitleQuantities(grp)[d.bookTitle := a.quantity + d.quantity]
  {
  }

  /** One step of the reduce adds exactly the record's quantity. */
  lemma AddRecordQuantity(g: Grouped, d: Purchase)
    ensures TotalQuantity(AddRecord(g, d)) == TotalQuantity(g) + d.quantity
  {
    var g' := AddRecord(g, d);
    AddRecordGroupQuantity(g, d);
    UserQuantitiesStep(g, d);
    SumValuesUpdate(UserQuantities(g), d.userId, GroupQuantity(g'[d.userId]));
  }

  /** Only the record's user's total changes. */
  lemma UserQuantitiesStep(g: Grouped, d: Purchase)
    ensures var g' := AddRecord(g, d);
      UserQuantities(g') == UserQuantities(g)[d.userId := GroupQuantity(g'[d.userId])]
  {
  }

  /** Summed over every user and title, the quantities of the grouping are
      the quantities of all records. */
  lemma {:induction false} QuantityConserved(ds: seq<Purchase>)
    ensures TotalQuantity(GroupByUser(ds)) == SumQuantity(ds)
    decreases |ds|
  {
    if |ds| == 0 {
      assert UserQuantities(map[]) == map[];
    } else {
      var init := ds[..|ds| - 1];
      var last := ds[|ds| - 1];
      SplitLast(ds);
      QuantityConserved(init);
      AddRecordQuantity(GroupByUser(init), last);
    }
  }

  // ---------------------------------------------------------------------
  // The table.

  /** `Object.values(grouped)`, the groups listed in the order `users` gives
      their ids. Which order the browser uses is not part of this model. */
  function GroupList(g: Grouped, users: seq<string>): (r: seq<Group>)
    requires forall i :: 0 <= i < |users| ==> users[i] in g
    ensures |r| == |users|
    ensures forall i :: 0 <= i < |users| ==> r[i] == g[users[i]]
  {
    seq(|users|, i requires 0 <= i < |users| => g[users[i]])
  }

  /** Each id once. */
  predicate Distinct(users: seq<string>)
  {
    forall i, j :: 0 <= i < j < |users| ==> users[i] != users[j]
  }

  lemma {:induction false} DistinctCount(users: seq<string>)
    requires Distinct(users)
    ensures |set u | u in users| == |users|
    decreases |users|
  {
    if |users| > 0 {
      var rest := users[1..];
      DistinctCount(rest);
      assert (set u | u in users) == (set u | u in rest) + {users[0]};
      assert users[0] !in rest;
    }
  }

  /** Listing every user id once, the table is `Object.values(grouped)` in
      that order: one row per group, every group listed, and every row a
      group. */
  lemma GroupListEnumeratesGroups(g: Grouped, users: seq<string>)
    requires Distinct(users) && (set u | u in users) == g.Keys
    ensures |GroupList(g, users)| == |g|
    ensures forall u :: u in g ==> exists i :: 0 <= i < |users| && users[i] == u && GroupList(g, users)[i] == g[u]
  {
    DistinctCount(users);
    assert |g| == |g.Keys|;
    forall u | u in g
      ensures exists i :: 0 <= i < |users| && users[i] == u && GroupList(g, users)[i] == g[u]
    {
      assert u in (set v | v in users);
      var i :| 0 <= i < |users| && users[i] == u;
    }
  }

  /** Listing every user id once, the table has one row per distinct user
      of the purchases. */
  lemma GroupListCount(ds: seq<Purchase>, users: seq<string>)
    requires Distinct(users) && (set u | u in users) == GroupByUser(ds).Keys
    ensures |GroupList(GroupByUser(ds), users)| == |set p | p in ds :: p.userId|
  {
    DistinctCount(users);
  }
}
