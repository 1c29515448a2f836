/** The customer service: each use case as a function from the store to a
    result (and, for writes, the next store). A `Failure` carries no store:
    the caller's store is the one that remains. */
module CustomerService {
  import opened Wrappers
  import opened Seqs
  import opened Data
  import opened CustomerConverter
  import Repo = CustomerRepository

  datatype Error =
    | NotFound(id: int)  // no customer has this id
    | MissingChildList   // a registration request whose preference or visit list is null

  /** Every stored customer, joined with all stored children. */
  function FindAllCustomers(st: Repo.Store): (r: seq<CustomerDetail>)
    ensures |r| == |st.customers|
    ensures forall i :: 0 <= i < |r| ==>
              r[i] == ConvertToCustomerDetail(st.customers[i], st.preferences, st.visitRecords)
    ensures st.customers == [] ==> r == []
  {
    ConvertCustomerDetails(st.customers, st.preferences, st.visitRecords)
  }

  /** The customer with this id joined with all stored children, or NotFound. */
  function FindCustomerById(st: Repo.Store, id: int): (r: Result<CustomerDetail, Error>)
    ensures r.Failure? <==> !Repo.ExistsCustomerById(st, id)
    ensures r.Failure? ==> r.error == NotFound(id)
    ensures r.Success? ==> r.value.customer.id == id && r.value.customer in st.customers
    ensures r.Success? ==>
              r.value == ConvertToCustomerDetail(r.value.customer, st.preferences, st.visitRecords)
  {
    match Repo.FindCustomerById(st, id)
    case None => Failure(NotFound(id))
    case Some(customer) => Success(ConvertToCustomerDetail(customer, st.preferences, st.visitRecords))
  }

  /** A child record made to reference customer `customerId`. */
  function InitChild<P>(c: Child<P>, customerId: int): (r: Child<P>)
    ensures r.customerId == customerId
    ensures r.id == c.id && r.payload == c.payload
  {
    c.(customerId := customerId)
  }

  /** Stamps each of `xs` with `customerId` and inserts it, in list order;
      returns the new table and the registered records. */
  function RegisterChildren<P>(table: seq<Child<P>>, xs: seq<Child<P>>, customerId: int)
    : (r: (seq<Child<P>>, seq<Child<P>>))
    ensures |r.1| == |xs|
    ensures forall i :: 0 <= i < |xs| ==> r.1[i] == InitChild(xs[i], customerId)
    ensures r.0 == table + r.1
    decreases |xs|
  {
    if |xs| == 0 then (table, [])
    else
      var stamped := InitChild(xs[0], customerId);
      var (table', registered) := RegisterChildren(Repo.Insert(table, stamped), xs[1..], customerId);
      (table', [stamped] + registered)
  }

  /** Registers the customer under `freshId`, then its preferences, then its
      visit records, each stamped with the new id. */
  function RegisterCustomer(st: Repo.Store, request: DetailRequest, freshId: int)
    : (r: Result<(Repo.Store, CustomerDetail), Error>)
    requires !Repo.ExistsCustomerById(st, freshId)
    ensures r.Failure? <==> request.preferences.None? || request.visitRecords.None?
    ensures r.Failure? ==> r.error == MissingChildList
    ensures r.Success? ==>
              var st' := r.value.0;
              var d := r.value.1;
              var ps := request.preferences.value;
              var vs := request.visitRecords.value;
              && d.customer == request.customer.(id := freshId)
              && |d.preferences| == |ps|
              && (forall i :: 0 <= i < |ps| ==> d.preferences[i] == ps[i].(customerId := freshId))
              && |d.visitRecords| == |vs|
              && (forall i :: 0 <= i < |vs| ==> d.visitRecords[i] == vs[i].(customerId := freshId))
              && st'.customers == st.customers + [d.customer]
              && st'.preferences == st.preferences + d.preferences
              && st'.visitRecords == st.visitRecords + d.visitRecords
  {
    var (st1, customer) := Repo.RegisterCustomer(st, request.customer, freshId);
    match request.preferences
    case None => Failure(MissingChildList)
    case Some(ps) =>
      var (preferences, registeredPreferences) := RegisterChildren(st1.preferences, ps, freshId);
      match request.visitRecords
      case None => Failure(MissingChildList)
      case Some(vs) =>
        var (visitRecords, registeredVisitRecords) := RegisterChildren(st1.visitRecords, vs, freshId);
        Success((st1.(preferences := preferences, visitRecords := visitRecords),
                 CustomerDetail(customer, registeredPreferences, registeredVisitRecords)))
  }

  /** The first stored preference of the customer, in store order, or null. */
  function FindPreferencesByCustomerId(st: Repo.Store, customerId: int): (r: Option<Preference>)
    ensures r.None? <==> forall i :: 0 <= i < |st.preferences| ==> st.preferences[i].customerId != customerId
    ensures r.Some? ==> r.value in st.preferences && r.value.customerId == customerId
  {
    First(st.preferences, OwnedBy(customerId))
  }

  /** All stored visit records of the customer, in store order. */
  function FindVisitRecordsByCustomerId(st: Repo.Store, customerId: int): (r: seq<VisitRecord>)
    ensures forall i :: 0 <= i < |r| ==> r[i] in st.visitRecords && r[i].customerId == customerId
    ensures forall i :: 0 <= i < |st.visitRecords| && st.visitRecords[i].customerId == customerId ==>
              st.visitRecords[i] in r
    ensures var kept := KeptIndices(st.visitRecords, OwnedBy(customerId));
            |r| == |kept| && forall k :: 0 <= k < |kept| ==> r[k] == st.visitRecords[kept[k]]
  {
    FilterIsSelection(st.visitRecords, OwnedBy<VisitInfo>(customerId));
    ChildrenOf(st.visitRecords, customerId)
  }

  function RegisterVisitRecords(st: Repo.Store, v: VisitRecord): (r: Repo.Store)
    ensures r.visitRecords == st.visitRecords + [v]
    ensures r.customers == st.customers && r.preferences == st.preferences
  {
    Repo.RegisterVisitRecords(st, v)
  }

  function RegisterPreferences(st: Repo.Store, p: Preference): (r: Repo.Store)
    ensures r.preferences == st.preferences + [p]
    ensures r.customers == st.customers && r.visitRecords == st.visitRecords
  {
    Repo.RegisterPreferences(st, p)
  }

  /** Updates the customer, then every supplied preference and visit record
      by id. A null list performs no update of that kind; an empty one
      performs zero updates. */
  function UpdateCustomer(st: Repo.Store, request: DetailRequest): (r: Repo.Store)
    ensures |r.customers| == |st.customers|
    ensures |r.preferences| == |st.preferences|
    ensures |r.visitRecords| == |st.visitRecords|
    ensures forall i :: 0 <= i < |st.customers| ==>
              r.customers[i] == (if st.customers[i].id == request.customer.id then request.customer
                                 else st.customers[i])
    ensures request.preferences.None? ==> r.preferences == st.preferences
    ensures request.preferences.Some? ==>
              forall i :: 0 <= i < |st.preferences| ==>
                r.preferences[i] == Updated(st.preferences[i], ChildKey, request.preferences.value)
    ensures request.visitRecords.None? ==> r.visitRecords == st.visitRecords
    ensures request.visitRecords.Some? ==>
              forall i :: 0 <= i < |st.visitRecords| ==>
                r.visitRecords[i] == Updated(st.visitRecords[i], ChildKey, request.visitRecords.value)
  {
    var st1 := Repo.UpdateCustomer(st, request.customer);
    var st2 :=
      (match request.preferences
       case None => st1
       case Some(ps) =>
         ReplaceAllLastWins(st1.preferences, ChildKey, ps);
         st1.(preferences := ReplaceAll(st1.preferences, ChildKey, ps)));
    match request.visitRecords
    case None => st2
    case Some(vs) =>
      ReplaceAllLastWins(st2.visitRecords, ChildKey, vs);
      st2.(visitRecords := ReplaceAll(st2.visitRecords, ChildKey, vs))
  }

  function UpdateVisitRecords(st: Repo.Store, v: VisitRecord): (r: Repo.Store)
    ensures |r.visitRecords| == |st.visitRecords|
    ensures forall i :: 0 <= i < |st.visitRecords| ==>
              r.visitRecords[i] == (if st.visitRecords[i].id == v.id then v else st.visitRecords[i])
    ensures r.customers == st.customers && r.preferences == st.preferences
  {
    Repo.UpdateVisitRecords(st, v)
  }

  function UpdatePreferences(st: Repo.Store, p: Preference): (r: Repo.Store)
    ensures |r.preferences| == |st.preferences|
    ensures forall i :: 0 <= i < |st.preferences| ==>
              r.preferences[i] == (if st.preferences[i].id == p.id then p else st.preferences[i])
    ensures r.customers == st.customers && r.visitRecords == st.visitRecords
  {
    Repo.UpdatePreferences(st, p)
  }

  /** Deletes the customer's visit records, then its preferences, then the
      customer; NotFound if no customer has this id. */
  function DeleteCustomerData(st: Repo.Store, customerId: int): (r: Result<Repo.Store, Error>)
    ensures r.Failure? <==> !Repo.ExistsCustomerById(st, customerId)
    ensures r.Failure? ==> r.error == NotFound(customerId)
    ensures r.Success? ==> !Repo.ExistsCustomerById(r.value, customerId)
    ensures r.Success? ==>
              && (forall i :: 0 <= i < |r.value.customers| ==>
                    r.value.customers[i] in st.customers && r.value.customers[i].id != customerId)
              && (forall i :: 0 <= i < |st.customers| && st.customers[i].id != customerId ==>
                    st.customers[i] in r.value.customers)
    ensures r.Success? ==>
              && (forall i :: 0 <= i < |r.value.preferences| ==>
                    r.value.preferences[i] in st.preferences && r.value.preferences[i].customerId != customerId)
              && (forall i :: 0 <= i < |st.preferences| && st.preferences[i].customerId != customerId ==>
                    st.preferences[i] in r.value.preferences)
    ensures r.Success? ==>
              && (forall i :: 0 <= i < |r.value.visitRecords| ==>
                    r.value.visitRecords[i] in st.visitRecords && r.value.visitRecords[i].customerId != customerId)
              && (forall i :: 0 <= i < |st.visitRecords| && st.visitRecords[i].customerId != customerId ==>
                    st.visitRecords[i] in r.value.visitRecords)
    // The survivors of each table keep their stored order and multiplicity.
    ensures r.Success? ==>
              var kc := KeptIndices(st.customers, HasOtherId(customerId));
              |r.value.customers| == |kc| &&
              forall k :: 0 <= k < |kc| ==> r.value.customers[k] == st.customers[kc[k]]
    ensures r.Success? ==>
              var kp := KeptIndices(st.preferences, NotOwnedBy(customerId));
              |r.value.preferences| == |kp| &&
              forall k :: 0 <= k < |kp| ==> r.value.preferences[k] == st.preferences[kp[k]]
    ensures r.Success? ==>
              var kv := KeptIndices(st.visitRecords, NotOwnedBy(customerId));
              |r.value.visitRecords| == |kv| &&
              forall k :: 0 <= k < |kv| ==> r.value.visitRecords[k] == st.visitRecords[kv[k]]
  {
    if !Repo.ExistsCustomerById(st, customerId) then Failure(NotFound(customerId))
    else
      var st1 := Repo.DeleteVisitRecordsByCustomerId(st, customerId);
      var st2 := Repo.DeletePreferencesByCustomerId(st1, customerId);
      Success(Repo.DeleteCustomerById(st2, customerId))
  }

  // Properties relating several operations.

  /** No stored child references an id that no stored customer has. */
  lemma {:induction false} NoChildrenOfAbsentCustomer(st: Repo.Store, id: int)
    requires Repo.Valid(st) && !Repo.ExistsCustomerById(st, id)
    ensures ChildrenOf(st.preferences, id) == []
    ensures ChildrenOf(st.visitRecords, id) == []
    ensures Filter(st.preferences, NotOwnedBy(id)) == st.preferences
    ensures Filter(st.visitRecords, NotOwnedBy(id)) == st.visitRecords
    ensures Filter(st.customers, HasOtherId(id)) == st.customers
  {
    FilterKeepsNone(st.preferences, OwnedBy(id));
    FilterKeepsNone(st.visitRecords, OwnedBy<VisitInfo>(id));
    FilterKeepsAll(st.preferences, NotOwnedBy(id));
    FilterKeepsAll(st.visitRecords, NotOwnedBy<VisitInfo>(id));
    FilterKeepsAll(st.customers, HasOtherId(id));
  }

  /** Looking up a freshly registered customer returns exactly the detail
      the registration returned. */
  lemma RegisterThenFind(st: Repo.Store, request: DetailRequest, freshId: int)
    requires Repo.Valid(st) && !Repo.ExistsCustomerById(st, freshId)
    requires RegisterCustomer(st, request, freshId).Success?
    ensures var (st', d) := RegisterCustomer(st, request, freshId).value;
            FindCustomerById(st', freshId) == Success(d)
  {
    var r := RegisterCustomer(st, request, freshId).value;
    NoChildrenOfAbsentCustomer(st, freshId);
    FindAppended(st, r.1);
  }

  /** Deleting a freshly registered customer restores the store it was
      registered into. */
  lemma RegisterThenDeleteRestores(st: Repo.Store, request: DetailRequest, freshId: int)
    requires Repo.Valid(st) && !Repo.ExistsCustomerById(st, freshId)
    requires RegisterCustomer(st, request, freshId).Success?
    ensures DeleteCustomerData(RegisterCustomer(st, request, freshId).value.0, freshId) == Success(st)
  {
    var r := RegisterCustomer(st, request, freshId).value;
    NoChildrenOfAbsentCustomer(st, freshId);
    DeleteAppended(st, r.1);
  }

  /** The store `st` with detail `d` appended to its three tables. */
  function Appended(st: Repo.Store, d: CustomerDetail): Repo.Store
  {
    Repo.Store(st.customers + [d.customer], st.preferences + d.preferences, st.visitRecords + d.visitRecords)
  }

  lemma FindAppended(st: Repo.Store, d: CustomerDetail)
    requires !Repo.ExistsCustomerById(st, d.customer.id)
    requires ChildrenOf(st.preferences, d.customer.id) == []
    requires ChildrenOf(st.visitRecords, d.customer.id) == []
    requires forall i :: 0 <= i < |d.preferences| ==> d.preferences[i].customerId == d.customer.id
    requires forall i :: 0 <= i < |d.visitRecords| ==> d.visitRecords[i].customerId == d.customer.id
    ensures FindCustomerById(Appended(st, d), d.customer.id) == Success(d)
  {
    var id := d.customer.id;
    var st' := Appended(st, d);
    FirstIsEarliest(st'.customers, HasId(id), |st.customers|);
    DetailChildrenConcat(d.customer, st.preferences, d.preferences, st.visitRecords, d.visitRecords);
    FilterKeepsAll(d.preferences, OwnedBy(id));
    FilterKeepsAll(d.visitRecords, OwnedBy<VisitInfo>(id));
    assert [] + d.preferences == d.preferences;
    assert [] + d.visitRecords == d.visitRecords;
  }

  lemma DeleteAppended(st: Repo.Store, d: CustomerDetail)
    requires Filter(st.customers, HasOtherId(d.customer.id)) == st.customers
    requires Filter(st.preferences, NotOwnedBy(d.customer.id)) == st.preferences
    requires Filter(st.visitRecords, NotOwnedBy(d.customer.id)) == st.visitRecords
    requires forall i :: 0 <= i < |d.preferences| ==> d.preferences[i].customerId == d.customer.id
    requires forall i :: 0 <= i < |d.visitRecords| ==> d.visitRecords[i].customerId == d.customer.id
    ensures DeleteCustomerData(Appended(st, d), d.customer.id) == Success(st)
  {
    var id := d.customer.id;
    var st' := Appended(st, d);
    assert Repo.ExistsCustomerById(st', id) by {
      assert st'.customers[|st.customers|].id == id;
    }
    FilterDropsRejectedSuffix(st.customers, [d.customer], HasOtherId(id));
    FilterDropsRejectedSuffix(st.preferences, d.preferences, NotOwnedBy(id));
    FilterDropsRejectedSuffix(st.visitRecords, d.visitRecords, NotOwnedBy<VisitInfo>(id));
  }

  /** Registration keeps customer ids unique and every child's owner stored. */
  lemma RegisterPreservesValid(st: Repo.Store, request: DetailRequest, freshId: int)
    requires Repo.Valid(st) && !Repo.ExistsCustomerById(st, freshId)
    requires RegisterCustomer(st, request, freshId).Success?
    ensures Repo.Valid(RegisterCustomer(st, request, freshId).value.0)
  {
    var r := RegisterCustomer(st, request, freshId).value;
    assert r.0 == Appended(st, r.1);
    AppendedValid(st, r.1);
  }

  lemma AppendedValid(st: Repo.Store, d: CustomerDetail)
    requires Repo.Valid(st) && !Repo.ExistsCustomerById(st, d.customer.id)
    requires forall i :: 0 <= i < |d.preferences| ==> d.preferences[i].customerId == d.customer.id
    requires forall i :: 0 <= i < |d.visitRecords| ==> d.visitRecords[i].customerId == d.customer.id
    ensures Repo.Valid(Appended(st, d))
  {
    var st' := Appended(st, d);
    ExistsInLargerTable(st, st');
    assert st'.customers[|st.customers|] == d.customer;
    assert Repo.ExistsCustomerById(st', d.customer.id);
  }

  /** A customer id stored in `st` is still stored when rows are appended. */
  lemma ExistsInLargerTable(st: Repo.Store, st': Repo.Store)
    requires |st.customers| <= |st'.customers|
    requires st'.customers[..|st.customers|] == st.customers
    ensures forall id :: Repo.ExistsCustomerById(st, id) ==> Repo.ExistsCustomerById(st', id)
  {
    forall id | Repo.ExistsCustomerById(st, id)
      ensures Repo.ExistsCustomerById(st', id)
    {
      var i :| 0 <= i < |st.customers| && st.customers[i].id == id;
      assert st'.customers[i] == st.customers[i];
    }
  }

  /** The cascade delete keeps customer ids unique and leaves no child
      without a stored owner. */
  lemma DeletePreservesValid(st: Repo.Store, customerId: int)
    requires Repo.Valid(st) && DeleteCustomerData(st, customerId).Success?
    ensures Repo.Valid(DeleteCustomerData(st, customerId).value)
  {
    var st' := DeleteCustomerData(st, customerId).value;
    DeleteKeepsIdsUnique(st, st', customerId);
    DeleteKeepsOwners(st, st', customerId);
  }

  lemma DeleteKeepsIdsUnique(st: Repo.Store, st': Repo.Store, customerId: int)
    requires DeleteCustomerData(st, customerId) == Success(st')
    requires forall i, j :: 0 <= i < j < |st.customers| ==> st.customers[i].id != st.customers[j].id
    ensures forall i, j :: 0 <= i < j < |st'.customers| ==> st'.customers[i].id != st'.customers[j].id
  {
    assert st'.customers == Filter(st.customers, HasOtherId(customerId));
    FilterIsSelection(st.customers, HasOtherId(customerId));
  }

  lemma DeleteKeepsOwners(st: Repo.Store, st': Repo.Store, customerId: int)
    requires DeleteCustomerData(st, customerId) == Success(st')
    requires forall i :: 0 <= i < |st.preferences| ==> Repo.ExistsCustomerById(st, st.preferences[i].customerId)
    requires forall i :: 0 <= i < |st.visitRecords| ==> Repo.ExistsCustomerById(st, st.visitRecords[i].customerId)
    ensures forall i :: 0 <= i < |st'.preferences| ==> Repo.ExistsCustomerById(st', st'.preferences[i].customerId)
    ensures forall i :: 0 <= i < |st'.visitRecords| ==> Repo.ExistsCustomerById(st', st'.visitRecords[i].customerId)
  {
    forall i | 0 <= i < |st'.preferences|
      ensures Repo.ExistsCustomerById(st', st'.preferences[i].customerId)
    {
      assert st'.preferences[i] in st.preferences;
      StillStored(st, st', st'.preferences[i].customerId, customerId);
    }
    forall i | 0 <= i < |st'.visitRecords|
      ensures Repo.ExistsCustomerById(st', st'.visitRecords[i].customerId)
    {
      assert st'.visitRecords[i] in st.visitRecords;
      StillStored(st, st', st'.visitRecords[i].customerId, customerId);
    }
  }

  /** A stored customer other than the deleted one survives the delete. */
  lemma StillStored(st: Repo.Store, st': Repo.Store, owner: int, customerId: int)
    requires DeleteCustomerData(st, customerId) == Success(st')
    requires Repo.ExistsCustomerById(st, owner) && owner != customerId
    ensures Repo.ExistsCustomerById(st', owner)
  {
    var k :| 0 <= k < |st.customers| && st.customers[k].id == owner;
    assert st.customers[k] in st'.customers;
  }

  /** Once deleted, the customer is not found, and a second delete fails. */
  lemma DeleteThenNotFound(st: Repo.Store, customerId: int)
    requires DeleteCustomerData(st, customerId).Success?
    ensures FindCustomerById(DeleteCustomerData(st, customerId).value, customerId) == Failure(NotFound(customerId))
    ensures DeleteCustomerData(DeleteCustomerData(st, customerId).value, customerId) == Failure(NotFound(customerId))
  {
  }

  /** An empty child list performs zero updates, so it leaves the store as a
      null list does. */
  lemma UpdateEmptyListSameAsNull(st: Repo.Store, request: DetailRequest)
    ensures UpdateCustomer(st, request.(preferences := Some([]))) == UpdateCustomer(st, request.(preferences := None))
    ensures UpdateCustomer(st, request.(visitRecords := Some([]))) == UpdateCustomer(st, request.(visitRecords := None))
  {
  }

  /** Updating keeps customer ids unique and, when every supplied child
      references a stored customer, every child's owner stored. */
  lemma UpdateCustomerPreservesValid(st: Repo.Store, request: DetailRequest)
    requires Repo.Valid(st)
    requires request.preferences.Some? ==>
               forall i :: 0 <= i < |request.preferences.value| ==>
                 Repo.ExistsCustomerById(st, request.preferences.value[i].customerId)
    requires request.visitRecords.Some? ==>
               forall i :: 0 <= i < |request.visitRecords.value| ==>
                 Repo.ExistsCustomerById(st, request.visitRecords.value[i].customerId)
    ensures Repo.Valid(UpdateCustomer(st, request))
  {
    var st' := UpdateCustomer(st, request);
    assert forall i :: 0 <= i < |st.customers| ==> st'.customers[i].id == st.customers[i].id;
    SameIdsSameExistence(st, st');
    forall i | 0 <= i < |st'.preferences|
      ensures Repo.ExistsCustomerById(st, st'.preferences[i].customerId)
    {
      if request.preferences.Some? {
        UpdatedOwnerStored(st, st.preferences[i], request.preferences.value);
      }
    }
    forall i | 0 <= i < |st'.visitRecords|
      ensures Repo.ExistsCustomerById(st, st'.visitRecords[i].customerId)
    {
      if request.visitRecords.Some? {
        UpdatedOwnerStored(st, st.visitRecords[i], request.visitRecords.value);
      }
    }
  }

  /** A row whose owner and whose updates' owners are stored keeps a stored
      owner after the updates. */
  lemma UpdatedOwnerStored<P>(st: Repo.Store, x: Child<P>, ys: seq<Child<P>>)
    requires Repo.ExistsCustomerById(st, x.customerId)
    requires forall j :: 0 <= j < |ys| ==> Repo.ExistsCustomerById(st, ys[j].customerId)
    ensures Repo.ExistsCustomerById(st, Updated(x, ChildKey, ys).customerId)
  {
    var last := LastWithKey(ys, ChildKey, x.id);
    if last.Some? {
      var j :| 0 <= j < |ys| && ys[j] == last.value;
    }
  }

  /** Two stores whose customer tables agree on ids position by position hold
      the same customer ids. */
  lemma SameIdsSameExistence(st: Repo.Store, st': Repo.Store)
    requires |st.customers| == |st'.customers|
    requires forall i :: 0 <= i < |st.customers| ==> st'.customers[i].id == st.customers[i].id
    ensures forall id :: Repo.ExistsCustomerById(st, id) <==> Repo.ExistsCustomerById(st', id)
  {
  }

  /** The single-preference lookup returns the earliest preference of the
      customer in store order. */
  lemma FindPreferencesReturnsEarliest(st: Repo.Store, customerId: int, i: nat)
    requires i < |st.preferences| && st.preferences[i].customerId == customerId
    requires forall j :: 0 <= j < i ==> st.preferences[j].customerId != customerId
    ensures FindPreferencesByCustomerId(st, customerId) == Some(st.preferences[i])
  {
    FirstIsEarliest(st.preferences, OwnedBy(customerId), i);
  }

  /** "First match" is the head of "all matches": the single-preference
      lookup returns the first preference of the customer's detail. */
  lemma FindPreferencesIsHeadOfDetail(st: Repo.Store, customer: Customer)
    ensures var all := ConvertToCustomerDetail(customer, st.preferences, st.visitRecords).preferences;
            FindPreferencesByCustomerId(st, customer.id) == (if all == [] then None else Some(all[0]))
  {
    FirstIsHeadOfFilter(st.preferences, OwnedBy(customer.id));
  }

  /** The visit-record lookup agrees with the visit list of any customer's
      detail ("all matches"), and, for a stored customer, with the detail
      that the customer lookup returns. */
  lemma FindVisitRecordsAgreesWithDetail(st: Repo.Store, customer: Customer)
    ensures FindVisitRecordsByCustomerId(st, customer.id)
            == ConvertToCustomerDetail(customer, st.preferences, st.visitRecords).visitRecords
    ensures Repo.ExistsCustomerById(st, customer.id) ==>
              FindVisitRecordsByCustomerId(st, customer.id) == FindCustomerById(st, customer.id).value.visitRecords
  {
  }
}
