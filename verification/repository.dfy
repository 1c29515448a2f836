/** The persistence primitives the service calls, over an in-memory store.
    The real store is a mapper whose SQL is not part of this model, so the
    meaning given to each primitive here is an assumption: inserts append,
    updates write every row with the record's id (none, if there is no such
    row), deletes remove every row that matches. */
module CustomerRepository {
  import opened Wrappers
  import opened Seqs
  import opened Data

  /** The three tables, each in iteration order. */
  datatype Store = Store(
    customers: seq<Customer>,
    preferences: seq<Preference>,
    visitRecords: seq<VisitRecord>)

  /** Customer ids are unique, and every preference and visit record
      references a stored customer. */
  ghost predicate Valid(st: Store)
  {
    && (forall i, j :: 0 <= i < j < |st.customers| ==> st.customers[i].id != st.customers[j].id)
    && (forall i :: 0 <= i < |st.preferences| ==> ExistsCustomerById(st, st.preferences[i].customerId))
    && (forall i :: 0 <= i < |st.visitRecords| ==> ExistsCustomerById(st, st.visitRecords[i].customerId))
  }

  /** Whether a customer with this id is stored. */
  predicate ExistsCustomerById(st: Store, id: int): (b: bool)
    ensures b <==> First(st.customers, HasId(id)).Some?
  {
    exists i :: 0 <= i < |st.customers| && st.customers[i].id == id
  }

  /** The stored customer with this id, or null. */
  function FindCustomerById(st: Store, id: int): (r: Option<Customer>)
    ensures r.Some? <==> ExistsCustomerById(st, id)
    ensures r.Some? ==> r.value in st.customers && r.value.id == id
  {
    First(st.customers, HasId(id))
  }

  /** Inserts `customer` under the store-assigned `freshId` and returns the
      customer as it now carries that id. */
  function RegisterCustomer(st: Store, customer: Customer, freshId: int): (r: (Store, Customer))
    requires !ExistsCustomerById(st, freshId)
    ensures r.1.id == freshId && r.1 == customer.(id := freshId)
    ensures r.0 == st.(customers := st.customers + [r.1])
    ensures ExistsCustomerById(r.0, freshId)
  {
    var stored := customer.(id := freshId);
    var st' := st.(customers := Insert(st.customers, stored));
    assert st'.customers[|st.customers|] == stored;
    (st', stored)
  }

  /** A new row goes to the end of its table. */
  function Insert<T>(table: seq<T>, row: T): seq<T>
  {
    table + [row]
  }

  /** Assumed insert: the preference is appended; the other tables are unchanged. */
  function RegisterPreferences(st: Store, p: Preference): (r: Store)
    ensures r.preferences == st.preferences + [p]
    ensures r.customers == st.customers && r.visitRecords == st.visitRecords
  {
    st.(preferences := Insert(st.preferences, p))
  }

  /** Assumed insert: the visit record is appended; the other tables are unchanged. */
  function RegisterVisitRecords(st: Store, v: VisitRecord): (r: Store)
    ensures r.visitRecords == st.visitRecords + [v]
    ensures r.customers == st.customers && r.preferences == st.preferences
  {
    st.(visitRecords := Insert(st.visitRecords, v))
  }

  /** Assumed update: every customer row with this id is overwritten (none if
      there is no such row); nothing else changes. */
  function UpdateCustomer(st: Store, customer: Customer): (r: Store)
    ensures |r.customers| == |st.customers|
    ensures forall i :: 0 <= i < |st.customers| ==>
              r.customers[i] == (if st.customers[i].id == customer.id then customer else st.customers[i])
    ensures r.preferences == st.preferences && r.visitRecords == st.visitRecords
  {
    st.(customers := Replace(st.customers, CustomerKey, customer))
  }

  /** Assumed update: every preference row with this id is overwritten. */
  function UpdatePreferences(st: Store, p: Preference): (r: Store)
    ensures |r.preferences| == |st.preferences|
    ensures forall i :: 0 <= i < |st.preferences| ==>
              r.preferences[i] == (if st.preferences[i].id == p.id then p else st.preferences[i])
    ensures r.customers == st.customers && r.visitRecords == st.visitRecords
  {
    st.(preferences := Replace(st.preferences, ChildKey, p))
  }

  /** Assumed update: every visit-record row with this id is overwritten. */
  function UpdateVisitRecords(st: Store, v: VisitRecord): (r: Store)
    ensures |r.visitRecords| == |st.visitRecords|
    ensures forall i :: 0 <= i < |st.visitRecords| ==>
              r.visitRecords[i] == (if st.visitRecords[i].id == v.id then v else st.visitRecords[i])
    ensures r.customers == st.customers && r.preferences == st.preferences
  {
    st.(visitRecords := Replace(st.visitRecords, ChildKey, v))
  }

  /** Assumed delete: exactly the customers with another id remain, in their
      stored order; the other tables are unchanged. */
  function DeleteCustomerById(st: Store, id: int): (r: Store)
    ensures !ExistsCustomerById(r, id)
    ensures var kept := KeptIndices(st.customers, HasOtherId(id));
            |r.customers| == |kept| && forall k :: 0 <= k < |kept| ==> r.customers[k] == st.customers[kept[k]]
    ensures forall i :: 0 <= i < |st.customers| && st.customers[i].id != id ==> st.customers[i] in r.customers
    ensures r.preferences == st.preferences && r.visitRecords == st.visitRecords
  {
    FilterIsSelection(st.customers, HasOtherId(id));
    st.(customers := Filter(st.customers, HasOtherId(id)))
  }

  /** Assumed delete: exactly the preferences of other customers remain, in
      their stored order; the other tables are unchanged. */
  function DeletePreferencesByCustomerId(st: Store, customerId: int): (r: Store)
    ensures forall i :: 0 <= i < |r.preferences| ==> r.preferences[i].customerId != customerId
    ensures var kept := KeptIndices(st.preferences, NotOwnedBy(customerId));
            |r.preferences| == |kept| && forall k :: 0 <= k < |kept| ==> r.preferences[k] == st.preferences[kept[k]]
    ensures forall i :: 0 <= i < |st.preferences| && st.preferences[i].customerId != customerId ==>
              st.preferences[i] in r.preferences
    ensures r.customers == st.customers && r.visitRecords == st.visitRecords
  {
    FilterIsSelection(st.preferences, NotOwnedBy<PreferenceInfo>(customerId));
    st.(preferences := Filter(st.preferences, NotOwnedBy(customerId)))
  }

  /** Assumed delete: exactly the visit records of other customers remain, in
      their stored order; the other tables are unchanged. */
  function DeleteVisitRecordsByCustomerId(st: Store, customerId: int): (r: Store)
    ensures forall i :: 0 <= i < |r.visitRecords| ==> r.visitRecords[i].customerId != customerId
    ensures var kept := KeptIndices(st.visitRecords, NotOwnedBy(customerId));
            |r.visitRecords| == |kept| && forall k :: 0 <= k < |kept| ==> r.visitRecords[k] == st.visitRecords[kept[k]]
    ensures forall i :: 0 <= i < |st.visitRecords| && st.visitRecords[i].customerId != customerId ==>
              st.visitRecords[i] in r.visitRecords
    ensures r.customers == st.customers && r.preferences == st.preferences
  {
    FilterIsSelection(st.visitRecords, NotOwnedBy<VisitInfo>(customerId));
    st.(visitRecords := Filter(st.visitRecords, NotOwnedBy(customerId)))
  }
}
