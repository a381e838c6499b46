# Seller service

A model of the seller service of a desktop sales-management application.
The service sits between the user interface and the seller repository. It
lists all sellers, looks one up by id, inserts a new seller, updates a stored
seller by copying five editable fields onto it, chooses between insert and
update by whether the seller already has an id, and deletes a seller. On
delete it turns the repository's "no such record" and "record still
referenced" failures into its own `ResourceNotFoundException` and
`DatabaseException`.

The repository behind the service is modelled as an abstract store. It is
the class `Repository.SellerRepository` and holds:

- a map from ids to the `Seller` objects it stores;
- a counter that hands out fresh ids;
- the set of ids that dependent data still refers to.

The store keeps the `Seller` objects themselves and hands them out by
reference. So `Update` changes the fetched record in place through
`UpdateData`, and the following `Save` of that same object leaves the store
as it is. The effect on the store's contents is the same as with a
persistence layer that copies the record back on `save`. The resulting
aliasing, for the objects that `FindAll`, `FindById`, `Update` and
`Insert` leave with the caller, is listed under "Left out". The
invariant `Valid` says that every stored object carries the id it is stored
under. `Contents` gives the stored records as values, and every
state-changing method states the new `Contents` in terms of the old one.

Files:

- `wrappers.dfy`: `Option`, `Result` and `Outcome`.
- `entities.dfy`: the `Seller` class and its value snapshot `SellerData`. Birth date, salary and department are opaque values.
- `key_order.dfy`: the order in which the store lists records, which is ascending id.
- `repository.dfy`: the abstract store.
- `seller_service.dfy`: the service.
- `scenarios.dfy`: three clients that use only the service's and the store's contracts.

Points where the model follows the code rather than what a reader might
expect:

- `findById` on an absent id fails with the generic "no value" error of
  `Optional.get()` (`NoSuchElement` here). It does not fail with
  `ResourceNotFoundException`.
- The comment at SellerService.java line 81 says that an object which
  already has an id is a create. The code inserts when the id is null and
  updates otherwise, and the model does the same.
- The "referenced record" failure of `delete` surfaces as
  `DatabaseException` with the message "Database integrity violation."
  (`DatabaseError(IntegrityViolationMessage)`).

## Model

| member | source | states |
|---|---|---|
| `Services.SellerService.FindAll` | app/src/main/java/com/silviotmalmeida/app/services/SellerService.java:26-29 | the list holds exactly the stored records: as many entries as records, every entry stored, every stored record listed, in strictly ascending id order (so none twice); being a function, it changes nothing |
| `KeyOrder.Ascending` | app/src/main/java/com/silviotmalmeida/app/services/SellerService.java:26-29 | the store's listing order: every id of the set exactly once, strictly ascending |
| `Services.ListsEveryRecord` | app/src/main/java/com/silviotmalmeida/app/services/SellerService.java:26-29 | listing the records under the stored ids in ascending order lists every stored record, only stored records, in strictly ascending id order |
| `Services.SellerService.FindById` | app/src/main/java/com/silviotmalmeida/app/services/SellerService.java:32-39 | succeeds exactly when id is stored, with a stored object that carries that id; otherwise fails with the generic no-value error, not ResourceNotFound; changes nothing |
| `Services.SellerService.Insert` | app/src/main/java/com/silviotmalmeida/app/services/SellerService.java:42-46 | the store gains exactly one record, under a fresh id that is also written into the object; the record is the object's data with that id; the object itself is returned |
| `Repository.SellerRepository.Save` | app/src/main/java/com/silviotmalmeida/app/services/SellerService.java:42-64 | saving an object without an id persists it under a fresh id; saving a tracked object leaves the store unchanged; the invariant is kept |
| `Services.SellerService.Update` | app/src/main/java/com/silviotmalmeida/app/services/SellerService.java:49-65 | absent id: ResourceNotFound(id) and the store unchanged; present id: the record under id becomes the merge of it with obj, every other record and the set of ids unchanged, the stored object returned |
| `Services.SellerService.UpdateData` | app/src/main/java/com/silviotmalmeida/app/services/SellerService.java:68-76 | the entity's new fields are the merge of its old fields with obj's, even when obj is the entity itself |
| `Services.Merged` | app/src/main/java/com/silviotmalmeida/app/services/SellerService.java:68-76 | a merged record keeps the stored id and equals the patch in every other field, so the patch's id is ignored |
| `Repository.SellerRepository.StoredUnderOwnId` | app/src/main/java/com/silviotmalmeida/app/services/SellerService.java:53-64 | an object the store holds is stored under the id it carries |
| `Services.SellerService.SaveOrUpdate` | app/src/main/java/com/silviotmalmeida/app/services/SellerService.java:79-91 | null id: behaves as Insert and succeeds; otherwise behaves as Update with the object's own id, whose id is left as it was, and fails with ResourceNotFound when that id is not stored |
| `Scenarios.SaveThenFind` | app/src/main/java/com/silviotmalmeida/app/services/SellerService.java:79-91 | after saving a seller without an id, looking up its new id finds it, equal to what was saved in every field but the id |
| `Repository.SellerRepository.DeleteById` | app/src/main/java/com/silviotmalmeida/app/services/SellerService.java:97-100 | absent id: EmptyResult; referenced record: IntegrityViolation; otherwise exactly that id is removed; a failure changes nothing |
| `Services.SellerService.Delete` | app/src/main/java/com/silviotmalmeida/app/services/SellerService.java:94-109 | absent id: ResourceNotFound(id); referenced record: DatabaseError("Database integrity violation."); otherwise exactly that id is removed; both failures leave the store unchanged |

## Left out

- The department list controller (DepartmentListController.java) is not modelled. It is user-interface code: view loading, modal dialogs, table wiring and alerts. Its one branch, in `removeEntity`, wraps external dialogs.
- Repository.SellerRepository.Save: saving a detached object that carries an id is not modelled. The persistence framework would merge such an object, which is framework internals. `Save` requires an object that either has no id or is the object the store holds under its id. Those are the only two ways the service calls it.
- Services.SellerService.Insert: requires the object's id to be unset. Its one caller in the service, `saveOrUpdate`, guarantees this. An id-carrying object would go through the framework's merge path, which is not modelled. After the call the argument object is itself the stored record, where the framework leaves a detached object. An edit to it then reaches the store without a save, and setting its id breaks the store invariant.
- A null id passed to `findById`, `update` or `delete` is not modelled: ids are plain integers. The framework would reject a null id with its own argument error.
- Store outages and any other storage failure are not modelled. They propagate unchanged.
- Services.SellerService.FindAll: the objects it returns are the store's own, not detached copies. An edit to a listed seller therefore changes the store without a save. Changing a listed seller's id breaks the store invariant that every service method requires. So the model excludes a call sequence the code accepts: a seller is found, its id is changed to another stored id, and `saveOrUpdate` copies the five fields onto that other record.
- Services.SellerService.FindById: the same aliasing as `FindAll`. The returned object is the stored one, so editing it changes the store without a save, and changing its id is excluded by the store invariant.
- Services.SellerService.Update: the object it returns is the stored record itself, where the framework returns a merged copy. An edit to it reaches the store without a save, and setting its id breaks the store invariant.
- Services.SellerService.SaveOrUpdate: in the insert branch the argument object becomes the stored record, with the same aliasing as `Insert`.
- Scenarios.SaveThenFind: its clause that the found object is the very object saved holds only in this model, because the store keeps the saved object. In the program a lookup yields another object; the round trip that carries over is the equality of every field but the id.
- A null `Seller` argument is not modelled, nor are the null-pointer exceptions it raises. `saveOrUpdate(null)` fails at the id test, `update(id, null)` fails when copying the fields after the lookup, and `insert(null)` fails inside `save`. The model's `Seller` parameters are non-null references.
- Transactions and the framework's entity tracking are not modelled. Each service call is one atomic step on the store.
- The code does not fix the order in which `findAll` lists records. The model lists records in ascending id order.
- Birth date, base salary and department are opaque values that are only copied. Date and decimal semantics are not modelled, and the department is known only by its id.
- Which dependent data refers to a seller, and how that data changes, is not modelled. It is the store's `dependents` set, which no service operation changes. The store invariant keeps it within the stored ids, as a foreign key would.
- Exception classes are modelled only as the kinds of `ServiceError`, and only the integrity-violation message text is kept.
