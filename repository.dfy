/** The seller repository the service talks to, as an abstract store: a map
    from identifiers to the seller objects it holds, a counter that hands out
    fresh identifiers, and the set of identifiers that other data still
    refers to (such records cannot be deleted). */
module Repository {
  import opened Wrappers
  import opened Entities

  /** The two storage failures the service translates. */
  datatype StoreFailure =
    | EmptyResult         // no record with the requested id
    | IntegrityViolation  // the record is still referenced by dependent data

  class SellerRepository {
    var rows: map<int, Seller>
    var nextId: int
    var dependents: set<int>

    /** Every stored object carries the id it is stored under, every id in
        use is below the counter, and only stored records can be referenced.
        Distinct ids therefore hold distinct objects. */
    ghost predicate Valid()
      reads this, rows.Values
    {
      1 <= nextId &&
      dependents <= rows.Keys &&
      forall k :: k in rows ==> 1 <= k < nextId && rows[k].id == Some(k)
    }

    /** The stored records as values. */
    ghost function Contents(): (m: map<int, SellerData>)
      reads this, rows.Values
      ensures m.Keys == rows.Keys
    {
      map k | k in rows :: rows[k].Data()
    }

    /** Whether dependent data refers to the record under id. */
    predicate IsReferenced(id: int)
      reads this
    {
      id in dependents
    }

    /** Every stored object carries the id it is stored under. */
    lemma StoredUnderTheirIds()
      requires Valid()
      ensures forall k :: k in rows ==> rows[k].id == Some(k)
    {
    }

    /** A stored object is held under the id it carries. */
    lemma StoredUnderOwnId(obj: Seller)
      requires Valid() && obj in rows.Values
      ensures obj.id.Some? && obj.id.value in rows && rows[obj.id.value] == obj
    {
      if forall k :: k in rows ==> rows[k] != obj {
        assert false;
      }
    }

    constructor ()
      ensures Valid()
      ensures rows == map[] && nextId == 1 && dependents == {}
    {
      rows := map[];
      nextId := 1;
      dependents := {};
    }

    /** Saving an object without an id persists it under a fresh id, which is
        also written into the object. Saving an object this store already
        holds keeps it as it is: its fields are the stored record. */
    method Save(entity: Seller) returns (saved: Seller)
      requires Valid()
      requires entity.id.None? || (entity.id.value in rows && rows[entity.id.value] == entity)
      modifies this, entity`id
      ensures Valid()
      ensures saved == entity
      ensures dependents == old(dependents)
      ensures old(entity.id).Some? ==>
        rows == old(rows) && nextId == old(nextId) && entity.id == old(entity.id) &&
        Contents() == old(Contents())
      ensures old(entity.id).None? ==>
        old(nextId) !in old(rows) && entity.id == Some(old(nextId)) &&
        rows == old(rows)[old(nextId) := entity] && nextId > old(nextId) &&
        Contents() == old(Contents())[old(nextId) := old(entity.Data()).(id := Some(old(nextId)))]
    {
      if entity.id.None? {
        ghost var before := Contents();
        forall k | k in rows
          ensures rows[k] != entity
        {
        }
        assert entity !in rows.Values;
        entity.id := Some(nextId);
        rows := rows[nextId := entity];
        nextId := nextId + 1;
        assert Contents() == before[entity.id.value := entity.Data()];
      }
      saved := entity;
    }

    /** Removes the record under id, unless it is absent or still referenced. */
    method DeleteById(id: int) returns (failure: Option<StoreFailure>)
      requires Valid()
      modifies this`rows
      ensures Valid()
      ensures id !in old(rows) ==> failure == Some(EmptyResult)
      ensures id in old(rows) && IsReferenced(id) ==> failure == Some(IntegrityViolation)
      ensures id in old(rows) && !IsReferenced(id) ==> failure == None
      ensures rows == if failure.None? then old(rows) - {id} else old(rows)
      ensures Contents() == if failure.None? then old(Contents()) - {id} else old(Contents())
    {
      if id !in rows {
        failure := Some(EmptyResult);
      } else if IsReferenced(id) {
        failure := Some(IntegrityViolation);
      } else {
        rows := rows - {id};
        failure := None;
      }
    }
  }
}
