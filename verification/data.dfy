/** The persisted records (customers, preferences, visit records) and the
    composed customer detail. Only identifiers, the owning-customer foreign
    key and opaque payload fields are modelled. */
module Data {
  import opened Wrappers

  /** The three values of the customer's gender enumeration. */
  datatype Gender = Male | Female | Other

  /** A restaurant patron. `id` is assigned by the store on registration. */
  datatype Customer = Customer(
    id: int,
    name: string,
    furigana: string,
    gender: Option<Gender>,
    phoneNumber: string,
    email: string,
    address: string)

  /** A record owned by one customer through its `customerId` foreign key.
      Preferences and visit records both have this shape and differ only in
      their payload. */
  datatype Child<P> = Child(id: int, customerId: int, payload: P)

  /** The free-text preference ("sushi", an allergy, ...). */
  datatype PreferenceInfo = PreferenceInfo(preference: string)

  /** The visit date and notes of a visit; both are opaque here. */
  datatype VisitInfo = VisitInfo(visitDate: string, notes: string)

  type Preference = Child<PreferenceInfo>

  type VisitRecord = Child<VisitInfo>

  /** A customer joined with its preferences and visit records, as returned
      by the read operations. Its child lists are never absent. */
  datatype CustomerDetail = CustomerDetail(
    customer: Customer,
    preferences: seq<Preference>,
    visitRecords: seq<VisitRecord>)

  /** A customer detail as received in a request body: either child list may
      be null (`None`), which is not the same as an empty list. */
  datatype DetailRequest = DetailRequest(
    customer: Customer,
    preferences: Option<seq<Preference>>,
    visitRecords: Option<seq<VisitRecord>>)

  /** The key a customer is looked up, updated and deleted by. */
  function CustomerKey(c: Customer): int
  {
    c.id
  }

  /** The key a child record is updated by. */
  function ChildKey<P>(c: Child<P>): int
  {
    c.id
  }

  /** Selects the customers whose id is `id`. */
  function HasId(id: int): Customer -> bool
  {
    (c: Customer) => c.id == id
  }

  /** Selects the customers whose id is not `id`. */
  function HasOtherId(id: int): Customer -> bool
  {
    (c: Customer) => c.id != id
  }

  /** Selects the child records that reference customer `customerId`. */
  function OwnedBy<P>(customerId: int): Child<P> -> bool
  {
    (c: Child<P>) => c.customerId == customerId
  }

  /** Selects the child records that do not reference customer `customerId`. */
  function NotOwnedBy<P>(customerId: int): Child<P> -> bool
  {
    (c: Child<P>) => c.customerId != customerId
  }
}
