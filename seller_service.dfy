/** The seller service: the layer between the user interface and the
    repository. It lists and looks up sellers, inserts them, updates them by
    copying the editable fields onto the stored record, chooses between insert
    and update, and deletes them, turning the repository's two failures into
    the service's own errors. */
module Services {
  import opened Wrappers
  import opened Entities
  import opened KeyOrder
  import opened Repository

  /** How a service call fails. NoSuchElement is the generic "no value"
      failure of reading an empty Optional. */
  datatype ServiceError =
    | ResourceNotFound(id: int)
    | DatabaseError(message: string)
    | NoSuchElement

  const IntegrityViolationMessage := "Database integrity violation."

  /** A stored record after an update with patch: the record keeps its own id
      and takes every other field from the patch. */
  function Merged(stored: SellerData, patch: SellerData): (r: SellerData)
    ensures r.id == stored.id
    ensures r.(id := patch.id) == patch
  {
    SellerData(stored.id, patch.name, patch.email, patch.birthDate, patch.baseSalary, patch.department)
  }

  /** The records stored under ids, in the order of ids. */
  function Listing(rows: map<int, Seller>, ids: seq<int>): seq<Seller>
    requires forall i :: 0 <= i < |ids| ==> ids[i] in rows
  {
    seq(|ids|, i requires 0 <= i < |ids| => rows[ids[i]])
  }

  /** Listing the records under the stored ids in ascending order lists every
      stored record once and nothing else, in ascending id order. */
  lemma ListsEveryRecord(rows: map<int, Seller>, ids: seq<int>)
    requires forall k :: k in rows ==> rows[k].id == Some(k)
    requires forall i :: 0 <= i < |ids| ==> ids[i] in rows
    requires forall k :: k in rows ==> k in ids
    requires forall i, j :: 0 <= i < j < |ids| ==> ids[i] < ids[j]
    ensures |Listing(rows, ids)| == |ids|
    ensures forall i :: 0 <= i < |ids| ==> Listing(rows, ids)[i] in rows.Values
    ensures forall k :: k in rows ==> rows[k] in Listing(rows, ids)
    ensures forall i, j :: 0 <= i < j < |ids| ==>
              Listing(rows, ids)[i].id.Some? && Listing(rows, ids)[j].id.Some? &&
              Listing(rows, ids)[i].id.value < Listing(rows, ids)[j].id.value
  {
    var r := Listing(rows, ids);
    forall k | k in rows
      ensures rows[k] in r
    {
      var i :| 0 <= i < |ids| && ids[i] == k;
      assert r[i] == rows[k];
    }
    forall i, j | 0 <= i < j < |ids|
      ensures r[i].id.Some? && r[j].id.Some? && r[i].id.value < r[j].id.value
    {
      assert r[i].id == Some(ids[i]) && r[j].id == Some(ids[j]);
    }
  }

  class SellerService {
    const repository: SellerRepository

    constructor (repository: SellerRepository)
      ensures this.repository == repository
    {
      this.repository := repository;
    }

    /** All stored sellers, each once, in ascending id order. */
    function FindAll(): (r: seq<Seller>)
      reads repository, repository.rows.Values
      requires repository.Valid()
      ensures |r| == |repository.rows|
      ensures forall i :: 0 <= i < |r| ==> r[i] in repository.rows.Values
      ensures forall k :: k in repository.rows ==> repository.rows[k] in r
      ensures forall i, j :: 0 <= i < j < |r| ==>
                r[i].id.Some? && r[j].id.Some? && r[i].id.value < r[j].id.value
    {
      var rows := repository.rows;
      var ids := Ascending(rows.Keys);
      repository.StoredUnderTheirIds();
      ListsEveryRecord(rows, ids);
      Listing(rows, ids)
    }

    /** The seller stored under id, or the generic "no value" failure when
        there is none. */
    function FindById(id: int): (r: Result<Seller, ServiceError>)
      reads repository, repository.rows.Values
      requires repository.Valid()
      ensures r.Success? <==> id in repository.Contents()
      ensures r.Success? ==> r.value in repository.rows.Values && r.value.id == Some(id)
      ensures r.Failure? ==> r.error == NoSuchElement
    {
      if id in repository.rows then Success(repository.rows[id]) else Failure(NoSuchElement)
    }

    /** Stores a new seller under a fresh id, written into obj, and returns it. */
    method Insert(obj: Seller) returns (r: Seller)
      requires repository.Valid()
      requires obj.id.None?
      modifies repository, obj`id
      ensures repository.Valid()
      ensures repository.dependents == old(repository.dependents)
      ensures r == obj && obj.id.Some? && obj.id.value !in old(repository.rows)
      ensures repository.rows == old(repository.rows)[obj.id.value := obj]
      ensures repository.Contents() ==
                old(repository.Contents())[obj.id.value := old(obj.Data()).(id := obj.id)]
    {
      r := repository.Save(obj);
    }

    /** Copies the five editable fields of obj onto entity, one by one. */
    method UpdateData(entity: Seller, obj: Seller)
      modifies entity
      ensures entity.Data() == Merged(old(entity.Data()), old(obj.Data()))
    {
      entity.name := obj.name;
      entity.email := obj.email;
      entity.birthDate := obj.birthDate;
      entity.baseSalary := obj.baseSalary;
      entity.department := obj.department;
    }

    /** Overwrites the editable fields of the seller stored under id with
        those of obj; fails with ResourceNotFound when id is not stored. */
    method Update(id: int, obj: Seller) returns (r: Result<Seller, ServiceError>)
      requires repository.Valid()
      modifies repository, repository.rows.Values
      ensures repository.Valid()
      ensures repository.rows == old(repository.rows)
      ensures repository.nextId == old(repository.nextId)
      ensures repository.dependents == old(repository.dependents)
      ensures id !in old(repository.rows) ==>
                r == Failure(ResourceNotFound(id)) &&
                repository.Contents() == old(repository.Contents())
      ensures id in old(repository.rows) ==>
                r == Success(repository.rows[id]) &&
                repository.Contents() ==
                  old(repository.Contents())[id := Merged(old(repository.Contents())[id], old(obj.Data()))]
    {
      var entity := if id in repository.rows then Some(repository.rows[id]) else None;
      if entity.None? {
        return Failure(ResourceNotFound(id));
      }
      ghost var before := repository.Contents();
      ghost var patch := obj.Data();
      UpdateData(entity.value, obj);
      forall k | k in repository.rows && k != id
        ensures repository.rows[k].Data() == before[k]
      {
        assert old(repository.rows[k].id) != old(repository.rows[id].id);
      }
      assert repository.Valid();
      var saved := repository.Save(entity.value);
      assert repository.Contents() == before[id := Merged(before[id], patch)];
      r := Success(saved);
    }

    /** Inserts obj when it has no id, and updates the record under its id
        otherwise. */
    method SaveOrUpdate(obj: Seller) returns (outcome: Outcome<ServiceError>)
      requires repository.Valid()
      modifies repository, repository.rows.Values, obj`id
      ensures repository.Valid()
      ensures repository.dependents == old(repository.dependents)
      ensures old(obj.id).None? ==>
                outcome == Pass && obj.id.Some? && obj.id.value !in old(repository.rows) &&
                repository.rows == old(repository.rows)[obj.id.value := obj] &&
                repository.Contents() ==
                  old(repository.Contents())[obj.id.value := old(obj.Data()).(id := obj.id)]
      ensures old(obj.id).Some? ==> obj.id == old(obj.id) && repository.rows == old(repository.rows)
      ensures old(obj.id).Some? && old(obj.id).value !in old(repository.rows) ==>
                outcome == Fail(ResourceNotFound(old(obj.id).value)) &&
                repository.Contents() == old(repository.Contents())
      ensures old(obj.id).Some? && old(obj.id).value in old(repository.rows) ==>
                outcome == Pass &&
                repository.Contents() ==
                  old(repository.Contents())[old(obj.id).value :=
                    Merged(old(repository.Contents())[old(obj.id).value], old(obj.Data()))]
    {
      if obj.id.None? {
        var _ := Insert(obj);
        outcome := Pass;
      } else {
        if obj in repository.rows.Values {
          repository.StoredUnderOwnId(obj);
        }
        var r := Update(obj.id.value, obj);
        outcome := if r.Success? then Pass else Fail(r.error);
      }
    }

    /** Removes the record under id. An absent id fails with ResourceNotFound,
        a record still referenced by dependent data with a DatabaseError; a
        failure leaves the store as it was. */
    method Delete(id: int) returns (outcome: Outcome<ServiceError>)
      requires repository.Valid()
      modifies repository
      ensures repository.Valid()
      ensures repository.dependents == old(repository.dependents)
      ensures id !in old(repository.rows) ==> outcome == Fail(ResourceNotFound(id))
      ensures id in old(repository.rows) && repository.IsReferenced(id) ==>
                outcome == Fail(DatabaseError(IntegrityViolationMessage))
      ensures id in old(repository.rows) && !repository.IsReferenced(id) ==> outcome == Pass
      ensures repository.nextId == old(repository.nextId)
      ensures repository.rows ==
                if outcome.Pass? then old(repository.rows) - {id} else old(repository.rows)
      ensures repository.Contents() ==
                if outcome.Pass? then old(repository.Contents()) - {id} else old(repository.Contents())
    {
      var failure := repository.DeleteById(id);
      match failure
      case None => outcome := Pass;
      case Some(EmptyResult) => outcome := Fail(ResourceNotFound(id));
      case Some(IntegrityViolation) => outcome := Fail(DatabaseError(IntegrityViolationMessage));
    }
  }
}
