# Restaurant customer management: assembler and service rules

A Dafny model of the two pieces of logic in this restaurant CRM backend that do not depend on the web or persistence framework.

- **The customer-detail assembler** (`CustomerConverter`). It joins each customer with the preference and visit records whose `customerId` is the customer's `id`. The records are kept in input order.
- **The customer service** (`CustomerService`). Its use cases are modelled as pure functions over an in-memory store:
  - list all customers, get one by id (NotFound when absent);
  - register a customer with foreign-key stamping of its children;
  - the single-preference ("first match") and visit-record ("all matches") lookups;
  - the update rule, where a null list is skipped but an empty list is not;
  - the cascade delete (NotFound when absent).

Modules follow the program's structure:

- `Wrappers`: `Option` stands for a nullable reference and `Result` for a value or a thrown exception.
- `Seqs`: the generic sequence operations the code uses:
  - the stream filter (`Filter`) and `findFirst` (`First`);
  - a per-row update by key (`Replace`) and a `forEach` of such updates (`ReplaceAll`).
- `Data`: the records. `Customer` keeps its id, its string fields and an optional `Gender`. `Preference` and `VisitRecord` keep their `id`, their owning `customerId` and a payload of opaque strings. `Preference` and `VisitRecord` share the shape `Child<P>`. The module also holds `CustomerDetail` (the assembled view, with child lists never absent) and `DetailRequest` (a request body whose child lists may be null, i.e. `None`).
- `CustomerConverter`: the join.
- `CustomerRepository`: the store, a record of three tables in iteration order, and the primitives the service calls.
- `CustomerService`: the use cases, and the lemmas that relate them.

**The store is an assumption.** The mapper's SQL is not part of this model. The meaning given to each primitive is what the model assumes, not a claim about the real database:
- an insert appends a row;
- `updateX` overwrites every row carrying the record's id; no such row means zero rows changed and no error;
- `deleteXByCustomerId` removes every matching row;
- `findCustomerById` returns the first customer with that id.

The store assigns the new customer's id. In the model it is the parameter `freshId`, which must not already be in use.

A write that fails returns `Failure`, with no new store. The caller's store is the one that remains, which is also what the `@Transactional` rollback guarantees.

`Valid(st)` is an invariant of the model, not of the source. It says that customer ids are unique and that every child references a stored customer. Registration, the cascade delete and (for requests whose children reference stored customers) the update preserve it. Under it, registering and then looking up returns the registered detail, and registering and then deleting restores the store.

Three behaviours of the code are worth stating on their own:
- **Empty vs. null in update.** Only a null child list skips the `forEach` in `updateCustomer`. An empty list runs zero updates, so the store ends as it does with null (`CustomerService.UpdateEmptyListSameAsNull`).
- **Update of an unknown customer.** `updateCustomer` has no existence check, so updating an id that is not stored is a zero-row update, not an error.
- **Null child list in registration.** In `registerCustomer`, a null preference or visit list throws a NullPointerException after the customer insert, and the transaction rolls back. The model returns `Failure(MissingChildList)` with no new store.

## Model

| member | source | states |
|---|---|---|
| Seqs.Filter | src/main/java/portfolio/RestaurantCustomerManagement/converter/CustomerConverter.java:53-55 | the stream filter keeps exactly the accepted elements and never grows the list |
| Seqs.FilterConcat | src/main/java/portfolio/RestaurantCustomerManagement/converter/CustomerConverter.java:53-55 | filtering distributes over concatenation, so relative order is kept |
| Seqs.FilterIsSelection | src/main/java/portfolio/RestaurantCustomerManagement/converter/CustomerConverter.java:53-55 | the filter's result is exactly the input read at the accepted positions in increasing order |
| Seqs.First | src/main/java/portfolio/RestaurantCustomerManagement/service/CustomerService.java:146-149 | findFirst is absent iff no element is accepted; otherwise it returns a stored, accepted element |
| Seqs.FirstIsEarliest | src/main/java/portfolio/RestaurantCustomerManagement/service/CustomerService.java:146-149 | findFirst returns the earliest accepted element |
| Seqs.FirstIsHeadOfFilter | src/main/java/portfolio/RestaurantCustomerManagement/service/CustomerService.java:146-149 | findFirst is the head of the filtered list, or absent when that list is empty |
| Seqs.Replace | src/main/java/portfolio/RestaurantCustomerManagement/repository/CustomerRepository.java:105-124 | assumed row update: rows with the record's id become the record, other rows and the row count stay the same |
| Seqs.ReplaceAll | src/main/java/portfolio/RestaurantCustomerManagement/service/CustomerService.java:196-203 | a forEach of updates keeps the row count and every row's id |
| Seqs.ReplaceAllLastWins | src/main/java/portfolio/RestaurantCustomerManagement/service/CustomerService.java:196-203 | after a forEach of updates, each row holds the last update with its id, or is unchanged if no update has its id |
| CustomerConverter.ChildrenOf | src/main/java/portfolio/RestaurantCustomerManagement/converter/CustomerConverter.java:53-61 | the selected children are exactly the input children whose customerId is the given id |
| CustomerConverter.ConvertToCustomerDetail | src/main/java/portfolio/RestaurantCustomerManagement/converter/CustomerConverter.java:47-65 | the detail holds the input customer unchanged, and every matching preference and visit record and no other |
| CustomerConverter.ConvertCustomerDetails | src/main/java/portfolio/RestaurantCustomerManagement/converter/CustomerConverter.java:28-37 | one detail per customer: same length as the customers, element i is the join of customer i, and no customers give an empty result |
| CustomerConverter.DetailChildrenAreOrderedSelection | src/main/java/portfolio/RestaurantCustomerManagement/converter/CustomerConverter.java:53-62 | a detail's child lists are the input lists read at the positions referencing the customer, in increasing order |
| CustomerConverter.DetailChildrenConcat | src/main/java/portfolio/RestaurantCustomerManagement/converter/CustomerConverter.java:53-62 | the join of concatenated child lists is the concatenation of the joins (order preservation) |
| CustomerConverter.UnmatchedCustomerGetsEmptyLists | src/test/java/portfolio/RestaurantCustomerManagement/converter/CustomerConverterTest.java:76-108 | a customer that no child references gets empty, not absent, lists |
| CustomerConverter.ConvertedCustomersRoundTrip | src/test/java/portfolio/RestaurantCustomerManagement/converter/CustomerConverterTest.java:58-59 | projecting the customers back out of the details gives the input customer list |
| CustomerRepository.FindCustomerById | src/main/java/portfolio/RestaurantCustomerManagement/repository/CustomerRepository.java:33 | assumed lookup: a customer is returned iff one with that id is stored, and it is stored with that id |
| CustomerRepository.RegisterCustomer | src/main/java/portfolio/RestaurantCustomerManagement/repository/CustomerRepository.java:89 | assumed insert: the customer gets the fresh id and is appended; afterwards that id exists |
| CustomerRepository.ExistsCustomerById | src/main/java/portfolio/RestaurantCustomerManagement/repository/CustomerRepository.java:126-127 | assumed existence check: true iff some stored customer has the id |
| CustomerRepository.RegisterVisitRecords | src/main/java/portfolio/RestaurantCustomerManagement/repository/CustomerRepository.java:91-96 | assumed insert: the visit record is appended and the other tables are unchanged |
| CustomerRepository.RegisterPreferences | src/main/java/portfolio/RestaurantCustomerManagement/repository/CustomerRepository.java:98-103 | assumed insert: the preference is appended and the other tables are unchanged |
| CustomerRepository.UpdateCustomer | src/main/java/portfolio/RestaurantCustomerManagement/repository/CustomerRepository.java:105-110 | assumed update: customer rows with the id are overwritten (none if absent); the row count and other tables are unchanged |
| CustomerRepository.UpdateVisitRecords | src/main/java/portfolio/RestaurantCustomerManagement/repository/CustomerRepository.java:112-117 | assumed update: visit-record rows with the id are overwritten; the row count and other tables are unchanged |
| CustomerRepository.UpdatePreferences | src/main/java/portfolio/RestaurantCustomerManagement/repository/CustomerRepository.java:119-124 | assumed update: preference rows with the id are overwritten; the row count and other tables are unchanged |
| CustomerRepository.DeleteCustomerById | src/main/java/portfolio/RestaurantCustomerManagement/repository/CustomerRepository.java:129-134 | assumed delete: no customer with the id remains; the others remain in stored order; the child tables are unchanged |
| CustomerRepository.DeleteVisitRecordsByCustomerId | src/main/java/portfolio/RestaurantCustomerManagement/repository/CustomerRepository.java:136-141 | assumed delete: no visit record references the id; the others remain in stored order; the other tables are unchanged |
| CustomerRepository.DeletePreferencesByCustomerId | src/main/java/portfolio/RestaurantCustomerManagement/repository/CustomerRepository.java:143-148 | assumed delete: no preference references the id; the others remain in stored order; the other tables are unchanged |
| CustomerService.FindAllCustomers | src/main/java/portfolio/RestaurantCustomerManagement/service/CustomerService.java:38-43 | one detail per stored customer, in store order, each joined with all stored children; an empty store gives an empty list |
| CustomerService.FindCustomerById | src/main/java/portfolio/RestaurantCustomerManagement/service/CustomerService.java:51-59 | NotFound(id) iff no customer has the id; otherwise the stored customer with that id, joined with all stored children |
| CustomerService.InitChild | src/main/java/portfolio/RestaurantCustomerManagement/service/CustomerService.java:82-94 | the child now references the given customer; its id and payload are unchanged |
| CustomerService.RegisterChildren | src/main/java/portfolio/RestaurantCustomerManagement/service/CustomerService.java:111-127 | each input child is stamped and inserted in list order; the returned list has the same length and order, and the table grows by exactly that list |
| CustomerService.RegisterCustomer | src/main/java/portfolio/RestaurantCustomerManagement/service/CustomerService.java:103-134 | fails iff a child list (not an element of one) is null. Otherwise the customer gets the fresh id, the returned children are the inputs in order with customerId set to that id, and the store gains exactly these rows |
| CustomerService.RegisterThenFind | src/main/java/portfolio/RestaurantCustomerManagement/service/CustomerService.java:103-134 | on a valid store, finding the newly registered id returns exactly the registered detail |
| CustomerService.RegisterThenDeleteRestores | src/main/java/portfolio/RestaurantCustomerManagement/service/CustomerService.java:233-243 | on a valid store, deleting a newly registered customer gives back the store from before registration |
| CustomerService.RegisterPreservesValid | src/main/java/portfolio/RestaurantCustomerManagement/service/CustomerService.java:103-134 | registration keeps customer ids unique and every child's owner stored |
| CustomerService.FindPreferencesByCustomerId | src/main/java/portfolio/RestaurantCustomerManagement/service/CustomerService.java:144-150 | null iff no stored preference references the customer; otherwise a stored preference that does |
| CustomerService.FindPreferencesReturnsEarliest | src/main/java/portfolio/RestaurantCustomerManagement/service/CustomerService.java:144-150 | the returned preference is the first one in store order that references the customer |
| CustomerService.FindPreferencesIsHeadOfDetail | src/main/java/portfolio/RestaurantCustomerManagement/service/CustomerService.java:144-150 | the single lookup returns the head of the customer's detail preference list ("first match" against "all matches") |
| CustomerService.FindVisitRecordsByCustomerId | src/main/java/portfolio/RestaurantCustomerManagement/service/CustomerService.java:158-163 | exactly the stored visit records that reference the customer, in store order: the store's visit table read at the increasing positions that reference the customer |
| CustomerService.FindVisitRecordsAgreesWithDetail | src/main/java/portfolio/RestaurantCustomerManagement/service/CustomerService.java:158-163 | for any customer, the visit-record lookup equals the visit list of that customer's detail; for a stored one, it equals the visit list that the customer lookup returns |
| CustomerService.RegisterVisitRecords | src/main/java/portfolio/RestaurantCustomerManagement/service/CustomerService.java:171-173 | the visit record is appended; the other tables are unchanged |
| CustomerService.RegisterPreferences | src/main/java/portfolio/RestaurantCustomerManagement/service/CustomerService.java:181-183 | the preference is appended; the other tables are unchanged |
| CustomerService.UpdateCustomer | src/main/java/portfolio/RestaurantCustomerManagement/service/CustomerService.java:191-204 | customer rows with the request's id become the request's customer. A null child list leaves that table unchanged; a present one (even empty) gives each row its last update by id. No row is added or removed |
| CustomerService.UpdateEmptyListSameAsNull | src/main/java/portfolio/RestaurantCustomerManagement/service/CustomerService.java:195-203 | an empty child list leaves the store as a null one does |
| CustomerService.UpdateCustomerPreservesValid | src/main/java/portfolio/RestaurantCustomerManagement/service/CustomerService.java:191-204 | the update keeps customer ids unique; if every supplied child references a stored customer, every child's owner stays stored |
| CustomerService.UpdateVisitRecords | src/main/java/portfolio/RestaurantCustomerManagement/service/CustomerService.java:213-215 | rows with the record's id become the record; nothing else changes |
| CustomerService.UpdatePreferences | src/main/java/portfolio/RestaurantCustomerManagement/service/CustomerService.java:223-225 | rows with the preference's id become the preference; nothing else changes |
| CustomerService.DeleteCustomerData | src/main/java/portfolio/RestaurantCustomerManagement/service/CustomerService.java:233-243 | NotFound iff no customer has the id. Otherwise, afterwards no customer has the id and no child references it, while every other customer, preference and visit record is kept, in stored order and with its multiplicity |
| CustomerService.DeletePreservesValid | src/main/java/portfolio/RestaurantCustomerManagement/service/CustomerService.java:238-242 | the cascade keeps customer ids unique and leaves no child without a stored owner |
| CustomerService.DeleteThenNotFound | src/main/java/portfolio/RestaurantCustomerManagement/service/CustomerService.java:233-243 | after a delete, looking the customer up and deleting it again both fail with NotFound |

## Left out

- `searchCustomerDetails` (CustomerService.java:71-74) and the store's conditional search: the filtering is in mapper SQL that is not part of this model, so the service method is a bare passthrough.
- The store's internals: id generation (the fresh id is a parameter), SQL, and foreign-key enforcement. Child ids are kept as supplied; any key the store generates for them on insert is not modelled.
- `@Transactional` atomicity and rollback. These are framework behaviour; the model only says that a failed call yields no new store.
- `CustomerController`: HTTP routing, status codes and exception-to-response mapping.
- Bean-validation annotations (`@NotBlank`, `@Email`): the framework enforces them, not the modelled code.
- Dates (birthday, visit date and timestamps) are opaque strings or are omitted. `totalSpent` is a floating-point value and is omitted.
- Java `int` width: ids are only compared, never computed with, so 32-bit overflow cannot arise, and ids are unbounded integers.
- Null customer in a request, and null string fields: a null `customer` in `registerCustomer` or `updateCustomer` would throw, but customers are always present here.
- CustomerService.RegisterCustomer: does not model null elements inside a child list, because `seq` elements here are never null. In the code, such an element makes `registerCustomer` throw in `initPreferences` or `initVisitRecord` and roll back, and makes `updateCustomer` pass null to the store's update; the model fails only for a null list.
- Mutation of the caller's objects: `registerCustomer` sets the id and customerId on the request's own objects and returns the same detail. The model returns new values equal to those mutated objects.
