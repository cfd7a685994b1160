/**
 * The two stores the enrollment service writes through: enrollments keyed by
 * their owning user id, addresses keyed by the id of their enrollment. Each
 * upsert creates the row when the key is absent and otherwise overwrites the
 * fields it is given. The store owns the bookkeeping keys (`id`, `createdAt`,
 * `updatedAt`, and for addresses the back-reference `enrollmentId`); values a
 * payload gives for them are ignored. Whether a call fails (a rejected
 * payload, a lost connection) is not visible to the service, so it is an
 * input of each upsert.
 */
module Repositories {
  import opened Js
  import opened Results

  const EnrollmentStoreKeys: set<string> := {"id", "createdAt", "updatedAt"}
  const AddressStoreKeys: set<string> := {"id", "enrollmentId", "createdAt", "updatedAt"}

  predicate HasId(row: Record)
  {
    "id" in row && row["id"].Num?
  }

  function IdOf(row: Record): int
    requires HasId(row)
  {
    row["id"].n
  }

  /** Every row has an id, and every id is below `bound`. */
  predicate IdsBelow(rows: map<int, Record>, bound: int)
  {
    forall k :: k in rows ==> HasId(rows[k]) && IdOf(rows[k]) < bound
  }

  /** No two rows share an id. */
  predicate IdsDistinct(rows: map<int, Record>)
  {
    forall k, j :: k in rows && j in rows && k != j && HasId(rows[k]) && HasId(rows[j]) ==> IdOf(rows[k]) != IdOf(rows[j])
  }

  /**
   * Writing a row under `key` that keeps the id already there, or takes the
   * next unused one, keeps the ids present, below the bound and distinct.
   */
  lemma UpsertKeepsIdsValid(rows: map<int, Record>, key: int, row: Record, bound: int)
    requires IdsBelow(rows, bound) && IdsDistinct(rows) && HasId(row)
    requires key in rows ==> IdOf(row) == IdOf(rows[key])
    requires key !in rows ==> IdOf(row) == bound
    ensures IdsBelow(rows[key := row], if key in rows then bound else bound + 1)
    ensures IdsDistinct(rows[key := row])
  {
  }

  /** Every address row names the enrollment it is stored under. */
  predicate PointsBack(rows: map<int, Record>)
  {
    forall e :: e in rows ==> "enrollmentId" in rows[e] && rows[e]["enrollmentId"] == Num(e)
  }

  /** Writing a row that names its own key keeps every row pointing back. */
  lemma UpsertKeepsPointsBack(rows: map<int, Record>, key: int, row: Record)
    requires PointsBack(rows)
    requires "enrollmentId" in row && row["enrollmentId"] == Num(key)
    ensures PointsBack(rows[key := row])
  {
  }

  /** The ids of all rows of a store. */
  function IdsOf(rows: map<int, Record>): set<int>
  {
    set k | k in rows && HasId(rows[k]) :: IdOf(rows[k])
  }

  /** The row a create writes: the payload with the store's own keys set. */
  function Inserted(payload: Record, owned: Record): (row: Record)
    ensures row.Keys == payload.Keys + owned.Keys
    ensures forall k :: k in owned ==> row[k] == owned[k]
    ensures forall k :: k in payload && k !in owned ==> row[k] == payload[k]
  {
    payload + owned
  }

  /**
   * The row an update leaves: the old row, overwritten by every payload key
   * the store does not own, with `updatedAt` moved to `now`.
   */
  function Updated(old_row: Record, payload: Record, storeKeys: set<string>, now: int): (row: Record)
    ensures row.Keys == old_row.Keys + (payload.Keys - storeKeys) + {"updatedAt"}
    ensures row["updatedAt"] == Num(now)
    ensures forall k :: k in payload && k !in storeKeys && k != "updatedAt" ==> row[k] == payload[k]
    ensures forall k :: k in old_row && k !in payload && k != "updatedAt" ==> row[k] == old_row[k]
    ensures forall k :: k in old_row && k in storeKeys && k != "updatedAt" ==> row[k] == old_row[k]
  {
    old_row + Exclude(payload, storeKeys) + map["updatedAt" := Num(now)]
  }

  /** `upsert` on a store: update the row under `key` if there is one, else create it. */
  function UpsertRow(rows: map<int, Record>, key: int, create: Record, update: Record,
                     owned: Record, storeKeys: set<string>, now: int): (rows': map<int, Record>)
    ensures rows'.Keys == rows.Keys + {key}
    ensures forall k :: k in rows && k != key ==> rows'[k] == rows[k]
    ensures key !in rows ==> rows'[key] == Inserted(create, owned)
    ensures key in rows ==> rows'[key] == Updated(rows[key], update, storeKeys, now)
  {
    rows[key := if key in rows then Updated(rows[key], update, storeKeys, now) else Inserted(create, owned)]
  }

  /**
   * A key the store owns (other than `updatedAt`) keeps its old value
   * through an update and takes the store's value on a create.
   */
  lemma OwnedKeyKept(rows: map<int, Record>, key: int, create: Record, update: Record,
                     owned: Record, storeKeys: set<string>, now: int, name: string)
    requires name in storeKeys && name != "updatedAt" && name in owned
    requires key in rows ==> name in rows[key]
    ensures var rows' := UpsertRow(rows, key, create, update, owned, storeKeys, now);
            && name in rows'[key]
            && rows'[key][name] == if key in rows then rows[key][name] else owned[name]
  {
  }

  /** The store's own keys on a freshly created enrollment row. */
  function EnrollmentOwned(id: int, now: int): Record
  {
    map["id" := Num(id), "createdAt" := Num(now), "updatedAt" := Num(now)]
  }

  /** The store's own keys on a freshly created address row. */
  function AddressOwned(id: int, enrollmentId: int, now: int): Record
  {
    map["id" := Num(id), "enrollmentId" := Num(enrollmentId), "createdAt" := Num(now), "updatedAt" := Num(now)]
  }

  /** An upsert that keeps the ids of existing rows only ever adds ids. */
  lemma IdsGrow(rows: map<int, Record>, key: int, row: Record)
    requires HasId(row)
    requires key in rows ==> HasId(rows[key]) && IdOf(row) == IdOf(rows[key])
    ensures IdsOf(rows[key := row]) == IdsOf(rows) + {IdOf(row)}
  {
    var rows' := rows[key := row];
    assert key in rows' && rows'[key] == row;
    assert IdOf(row) in IdsOf(rows');
    forall i | i in IdsOf(rows) ensures i in IdsOf(rows') {
      var k :| k in rows && HasId(rows[k]) && IdOf(rows[k]) == i;
      if k == key {
        assert i == IdOf(rows'[key]);
      } else {
        assert rows'[k] == rows[k];
        assert i == IdOf(rows'[k]);
      }
    }
    forall i | i in IdsOf(rows') ensures i in IdsOf(rows) + {IdOf(row)} {
      var k :| k in rows' && HasId(rows'[k]) && IdOf(rows'[k]) == i;
      if k != key {
        assert rows[k] == rows'[k];
        assert i == IdOf(rows[k]);
      }
    }
  }

  /** Enrollment rows, keyed by the id of the user they belong to. */
  class EnrollmentRepository {
    var byUser: map<int, Record>
    var nextId: int

    /** Every row has an id below `nextId`, and no two rows share one. */
    ghost predicate Valid()
      reads this
    {
      1 <= nextId && IdsBelow(byUser, nextId) && IdsDistinct(byUser)
    }

    constructor ()
      ensures Valid() && byUser == map[]
    {
      byUser := map[];
      nextId := 1;
    }

    /** `enrollmentRepository.upsert(userId, create, update)`: the row it leaves. */
    method Upsert(userId: int, create: Record, update: Record, now: int, fails: bool)
      returns (r: Result<Record>)
      requires Valid()
      modifies this
      ensures Valid()
      ensures fails ==> r == Err(StoreError) && byUser == old(byUser) && nextId == old(nextId)
      ensures !fails ==> byUser == UpsertRow(old(byUser), userId, create, update,
                                             EnrollmentOwned(old(nextId), now), EnrollmentStoreKeys, now)
      ensures !fails ==> r == Ok(byUser[userId]) && HasId(byUser[userId])
      ensures !fails ==> nextId == if userId in old(byUser) then old(nextId) else old(nextId) + 1
      ensures !fails && userId in old(byUser) ==> IdOf(byUser[userId]) == IdOf(old(byUser)[userId])
      ensures IdsOf(old(byUser)) <= IdsOf(byUser)
    {
      if fails {
        return Err(StoreError);
      }
      ghost var before := byUser;
      var created := userId !in byUser;
      byUser := UpsertRow(byUser, userId, create, update, EnrollmentOwned(nextId, now), EnrollmentStoreKeys, now);
      OwnedKeyKept(before, userId, create, update, EnrollmentOwned(nextId, now), EnrollmentStoreKeys, now, "id");
      if created {
        nextId := nextId + 1;
      }
      assert byUser == before[userId := byUser[userId]];
      UpsertKeepsIdsValid(before, userId, byUser[userId], old(nextId));
      IdsGrow(before, userId, byUser[userId]);
      r := Ok(byUser[userId]);
    }
  }

  /** Address rows, keyed by the id of the enrollment they belong to. */
  class AddressRepository {
    var byEnrollment: map<int, Record>
    var nextId: int

    /**
     * Every row has an id below `nextId`, no two rows share one, and every row
     * points back at the key it is stored under.
     */
    ghost predicate Valid()
      reads this
    {
      1 <= nextId && IdsBelow(byEnrollment, nextId) && IdsDistinct(byEnrollment) && PointsBack(byEnrollment)
    }

    constructor ()
      ensures Valid() && byEnrollment == map[]
    {
      byEnrollment := map[];
      nextId := 1;
    }

    /** `addressRepository.upsert(enrollmentId, create, update)`: the row it leaves. */
    method Upsert(enrollmentId: int, create: Record, update: Record, now: int, fails: bool)
      returns (r: Result<Record>)
      requires Valid()
      modifies this
      ensures Valid()
      ensures fails ==> r == Err(StoreError) && byEnrollment == old(byEnrollment) && nextId == old(nextId)
      ensures !fails ==> byEnrollment == UpsertRow(old(byEnrollment), enrollmentId, create, update,
                                                   AddressOwned(old(nextId), enrollmentId, now), AddressStoreKeys, now)
      ensures !fails ==> r == Ok(byEnrollment[enrollmentId])
      ensures !fails ==> nextId == if enrollmentId in old(byEnrollment) then old(nextId) else old(nextId) + 1
    {
      if fails {
        return Err(StoreError);
      }
      ghost var before := byEnrollment;
      var created := enrollmentId !in byEnrollment;
      var owned := AddressOwned(nextId, enrollmentId, now);
      byEnrollment := UpsertRow(byEnrollment, enrollmentId, create, update, owned, AddressStoreKeys, now);
      OwnedKeyKept(before, enrollmentId, create, update, owned, AddressStoreKeys, now, "id");
      OwnedKeyKept(before, enrollmentId, create, update, owned, AddressStoreKeys, now, "enrollmentId");
      if created {
        nextId := nextId + 1;
      }
      assert byEnrollment == before[enrollmentId := byEnrollment[enrollmentId]];
      UpsertKeepsIdsValid(before, enrollmentId, byEnrollment[enrollmentId], old(nextId));
      UpsertKeepsPointsBack(before, enrollmentId, byEnrollment[enrollmentId]);
      r := Ok(byEnrollment[enrollmentId]);
    }
  }

  /** Every address belongs to an enrollment that exists. */
  ghost predicate Linked(enrollments: EnrollmentRepository, addresses: AddressRepository)
    reads enrollments, addresses
  {
    addresses.byEnrollment.Keys <= IdsOf(enrollments.byUser)
  }

  /** The address row of an enrollment row, if the address store holds one. */
  function AddressOf(byEnrollment: map<int, Record>, enrollment: Record): (a: Option<Record>)
    ensures a.Some? <==> HasId(enrollment) && IdOf(enrollment) in byEnrollment
    ensures a.Some? ==> a.value == byEnrollment[IdOf(enrollment)]
  {
    if HasId(enrollment) && IdOf(enrollment) in byEnrollment then Some(byEnrollment[IdOf(enrollment)]) else None
  }

  /**
   * `enrollmentRepository.findWithAddressByUserId(userId)`: the user's
   * enrollment row joined with the list of its addresses under `Address`.
   */
  function FindWithAddressByUserId(byUser: map<int, Record>, byEnrollment: map<int, Record>, userId: int)
    : (r: Option<Record>)
    ensures r.Some? <==> userId in byUser
    ensures r.Some? ==> r.value.Keys == byUser[userId].Keys + {"Address"}
    ensures r.Some? ==> forall k :: k in byUser[userId] && k != "Address" ==> r.value[k] == byUser[userId][k]
    ensures r.Some? ==> r.value["Address"].Arr? && |r.value["Address"].items| <= 1
    ensures r.Some? ==> (|r.value["Address"].items| == 1 <==> AddressOf(byEnrollment, byUser[userId]).Some?)
    ensures r.Some? && AddressOf(byEnrollment, byUser[userId]).Some? ==>
              r.value["Address"].items[0] == Obj(AddressOf(byEnrollment, byUser[userId]).value)
  {
    if userId !in byUser then None
    else
      var row := byUser[userId];
      var list := match AddressOf(byEnrollment, row)
                  case Some(a) => [Obj(a)]
                  case None => [];
      Some(row["Address" := Arr(list)])
  }
}
