/** The customer-detail assembler: a pure join of customers with the
    preference and visit records that reference them. */
module CustomerConverter {
  import opened Seqs
  import opened Data

  /** The children in `xs` that reference customer `customerId`, in the order
      they appear in `xs`. */
  function ChildrenOf<P>(xs: seq<Child<P>>, customerId: int): (r: seq<Child<P>>)
    ensures |r| <= |xs|
    ensures forall i :: 0 <= i < |r| ==> r[i] in xs && r[i].customerId == customerId
    ensures forall i :: 0 <= i < |xs| && xs[i].customerId == customerId ==> xs[i] in r
  {
    Filter(xs, OwnedBy(customerId))
  }

  /** One customer joined with its preferences and visit records. */
  function ConvertToCustomerDetail(customer: Customer, preferences: seq<Preference>,
                                   visitRecords: seq<VisitRecord>): (d: CustomerDetail)
    ensures d.customer == customer
    ensures forall i :: 0 <= i < |d.preferences| ==>
              d.preferences[i] in preferences && d.preferences[i].customerId == customer.id
    ensures forall i :: 0 <= i < |preferences| && preferences[i].customerId == customer.id ==>
              preferences[i] in d.preferences
    ensures forall i :: 0 <= i < |d.visitRecords| ==>
              d.visitRecords[i] in visitRecords && d.visitRecords[i].customerId == customer.id
    ensures forall i :: 0 <= i < |visitRecords| && visitRecords[i].customerId == customer.id ==>
              visitRecords[i] in d.visitRecords
  {
    CustomerDetail(customer, ChildrenOf(preferences, customer.id), ChildrenOf(visitRecords, customer.id))
  }

  /** One detail per customer, in customer order. */
  function ConvertCustomerDetails(customers: seq<Customer>, preferences: seq<Preference>,
                                  visitRecords: seq<VisitRecord>): (ds: seq<CustomerDetail>)
    ensures |ds| == |customers|
    ensures forall i :: 0 <= i < |customers| ==>
              ds[i] == ConvertToCustomerDetail(customers[i], preferences, visitRecords)
    ensures customers == [] ==> ds == []
  {
    if |customers| == 0 then []
    else [ConvertToCustomerDetail(customers[0], preferences, visitRecords)]
         + ConvertCustomerDetails(customers[1..], preferences, visitRecords)
  }

  /** A detail's preference and visit lists are exactly the subsequences of
      the inputs at the positions that reference the customer, read in
      increasing position order. */
  lemma DetailChildrenAreOrderedSelection(customer: Customer, preferences: seq<Preference>,
                                          visitRecords: seq<VisitRecord>)
    ensures var d := ConvertToCustomerDetail(customer, preferences, visitRecords);
      var pi := KeptIndices(preferences, OwnedBy(customer.id));
      var vi := KeptIndices(visitRecords, OwnedBy(customer.id));
      && |d.preferences| == |pi|
      && (forall k :: 0 <= k < |pi| ==> d.preferences[k] == preferences[pi[k]])
      && |d.visitRecords| == |vi|
      && (forall k :: 0 <= k < |vi| ==> d.visitRecords[k] == visitRecords[vi[k]])
  {
    FilterIsSelection(preferences, OwnedBy(customer.id));
    FilterIsSelection(visitRecords, OwnedBy<VisitInfo>(customer.id));
  }

  /** The join of a customer with the concatenation of two child lists is the
      concatenation of the two joins: relative order is kept. */
  lemma DetailChildrenConcat(customer: Customer, ps1: seq<Preference>, ps2: seq<Preference>,
                             vs1: seq<VisitRecord>, vs2: seq<VisitRecord>)
    ensures ConvertToCustomerDetail(customer, ps1 + ps2, vs1 + vs2).preferences
            == ConvertToCustomerDetail(customer, ps1, vs1).preferences
               + ConvertToCustomerDetail(customer, ps2, vs2).preferences
    ensures ConvertToCustomerDetail(customer, ps1 + ps2, vs1 + vs2).visitRecords
            == ConvertToCustomerDetail(customer, ps1, vs1).visitRecords
               + ConvertToCustomerDetail(customer, ps2, vs2).visitRecords
  {
    FilterConcat(ps1, ps2, OwnedBy(customer.id));
    FilterConcat(vs1, vs2, OwnedBy<VisitInfo>(customer.id));
  }

  /** A customer no child references gets empty, not absent, lists. */
  lemma UnmatchedCustomerGetsEmptyLists(customer: Customer, preferences: seq<Preference>,
                                        visitRecords: seq<VisitRecord>)
    requires forall i :: 0 <= i < |preferences| ==> preferences[i].customerId != customer.id
    requires forall i :: 0 <= i < |visitRecords| ==> visitRecords[i].customerId != customer.id
    ensures ConvertToCustomerDetail(customer, preferences, visitRecords).preferences == []
    ensures ConvertToCustomerDetail(customer, preferences, visitRecords).visitRecords == []
  {
    FilterKeepsNone(preferences, OwnedBy(customer.id));
    FilterKeepsNone(visitRecords, OwnedBy<VisitInfo>(customer.id));
  }

  /** Projecting the customers back out of the details gives the input list. */
  lemma {:induction false} ConvertedCustomersRoundTrip(customers: seq<Customer>, preferences: seq<Preference>,
                                                       visitRecords: seq<VisitRecord>)
    ensures CustomersOf(ConvertCustomerDetails(customers, preferences, visitRecords)) == customers
  {
    if |customers| != 0 {
      ConvertedCustomersRoundTrip(customers[1..], preferences, visitRecords);
    }
  }

  /** The customer of each detail, in order. */
  function CustomersOf(ds: seq<CustomerDetail>): seq<Customer>
  {
    if |ds| == 0 then [] else [ds[0].customer] + CustomersOf(ds[1..])
  }
}
