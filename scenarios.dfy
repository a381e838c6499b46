/** Clients of the seller service that rely on the service's and the store's
    contracts alone. */
module Scenarios {
  import opened Wrappers
  import opened Entities
  import opened Repository
  import opened Services

  /** A seller saved without an id is afterwards found under its new id, equal
      to what was saved in every field but the id. */
  method SaveThenFind(service: SellerService, obj: Seller) returns (found: Result<Seller, ServiceError>)
    requires service.repository.Valid()
    requires obj.id.None?
    modifies service.repository, service.repository.rows.Values, obj`id
    ensures service.repository.Valid()
    ensures found.Success? && found.value == obj
    ensures obj.id.Some? && obj.id.value !in old(service.repository.rows)
    ensures found.value.Data() == old(obj.Data()).(id := obj.id)
  {
    var _ := service.SaveOrUpdate(obj);
    found := service.FindById(obj.id.value);
    service.repository.StoredUnderOwnId(found.value);
  }

  /** Insert one seller and find it listed; while dependent data refers to
      it, deleting it fails and it stays stored. */
  method RefusedDelete()
  {
    var repository := new SellerRepository();
    var service := new SellerService(repository);
    var bob := new Seller(None, "Bob", "bob@example.com", Date(0), Salary(1000), DepartmentRef(1));
    var inserted := service.Insert(bob);
    var id := bob.id.value;
    assert |service.FindAll()| == 1;

    repository.dependents := {id};
    var refused := service.Delete(id);
    assert refused == Fail(DatabaseError(IntegrityViolationMessage));
    assert service.FindById(id).Success?;
  }

  /** Insert one seller and delete it: it is gone afterwards, and a second
      delete of the same id fails with ResourceNotFound. */
  method SuccessfulDelete()
  {
    var repository := new SellerRepository();
    var service := new SellerService(repository);
    var bob := new Seller(None, "Bob", "bob@example.com", Date(0), Salary(1000), DepartmentRef(1));
    var inserted := service.Insert(bob);
    var id := bob.id.value;

    var deleted := service.Delete(id);
    assert deleted == Pass;
    assert service.FindById(id) == Failure(NoSuchElement);
    var missing := service.Delete(id);
    assert missing == Fail(ResourceNotFound(id));
  }
}
