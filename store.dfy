/** The membership store: the persistence contract the service relies on,
    modelled as a table from id to entity with an identity counter. Ids are
    handed out in increasing order, so ascending id is insertion order, and
    the finders that return several rows return them in that order. */
module Store {
  import opened Wrappers
  import opened Entity

  /** Every key is positive and is the id of the record stored under it. */
  ghost predicate WellFormed(t: map<int, Record>) {
    forall k | k in t :: k >= 1 && t[k].id == k
  }

  /** Some stored record belongs to `userId` and has type `membershipType`. */
  ghost predicate HasMembership(t: map<int, Record>, userId: string, membershipType: MembershipType) {
    exists k | k in t :: t[k].userId == userId && t[k].membershipType == membershipType
  }

  /** The registration invariant: no two records share owner and type. */
  ghost predicate AtMostOnePerUserAndType(t: map<int, Record>) {
    forall k1, k2 | k1 in t && k2 in t
      && t[k1].userId == t[k2].userId && t[k1].membershipType == t[k2].membershipType :: k1 == k2
  }

  /** No stored balance is negative. */
  ghost predicate NonNegativeBalances(t: map<int, Record>) {
    forall k | k in t :: t[k].point >= 0
  }

  /** The records of `userId` whose id is below `n`, in ascending id order. */
  ghost function OwnedBy(t: map<int, Record>, userId: string, n: int): seq<Record>
    decreases n
  {
    if n <= 0 then []
    else OwnedBy(t, userId, n - 1) + (if n - 1 in t && t[n - 1].userId == userId then [t[n - 1]] else [])
  }

  /** OwnedBy holds exactly the stored records of the user below the bound. */
  lemma {:induction false} OwnedByExactly(t: map<int, Record>, userId: string, n: int)
    requires WellFormed(t)
    ensures forall r :: r in OwnedBy(t, userId, n) <==>
      r.id in t && t[r.id] == r && r.userId == userId && r.id < n
  {
    if n > 0 {
      OwnedByExactly(t, userId, n - 1);
    }
  }

  /** OwnedBy lists ids in strictly increasing order, so no record twice. */
  lemma {:induction false} OwnedByAscending(t: map<int, Record>, userId: string, n: int)
    requires WellFormed(t)
    ensures forall i, j | 0 <= i < j < |OwnedBy(t, userId, n)| ::
      OwnedBy(t, userId, n)[i].id < OwnedBy(t, userId, n)[j].id
  {
    if n > 0 {
      OwnedByAscending(t, userId, n - 1);
      OwnedByExactly(t, userId, n - 1);
      var prev := OwnedBy(t, userId, n - 1);
      assert forall i | 0 <= i < |prev| :: prev[i] in prev;
    }
  }

  /** A user with no stored record owns the empty list. */
  lemma OwnedByNone(t: map<int, Record>, userId: string, n: int)
    requires WellFormed(t)
    requires forall k | k in t :: t[k].userId != userId
    ensures OwnedBy(t, userId, n) == []
  {
  }

  /** Unfolding OwnedBy over a table holding ids 1 and 2 of one user. */
  lemma OwnedByTwo(t: map<int, Record>, userId: string)
    requires t.Keys == {1, 2} && t[1].userId == userId && t[2].userId == userId
    ensures |OwnedBy(t, userId, 3)| == 2
  {
  }

  /** The values of a list of entities, element by element. */
  function Views(ms: seq<Membership>): (vs: seq<Record>)
    reads set m | m in ms
    ensures |vs| == |ms|
    ensures forall i | 0 <= i < |ms| :: vs[i] == ms[i].View()
  {
    if ms == [] then [] else Views(ms[..|ms| - 1]) + [ms[|ms| - 1].View()]
  }

  class MembershipRepository {
    var records: map<int, Membership>
    var nextId: int

    /** Ids below the counter, each entity stored under its own id (so no
        entity is stored twice). */
    ghost predicate Valid()
      reads this, records.Values
    {
      nextId >= 1 &&
      forall k | k in records :: 1 <= k < nextId && records[k].id == k
    }

    /** The table's current contents. */
    ghost function Table(): map<int, Record>
      reads this, records.Values
    {
      map k | k in records :: records[k].View()
    }

    /** The records of one user, in insertion order. */
    ghost function RecordsOf(userId: string): seq<Record>
      reads this, records.Values
    {
      OwnedBy(Table(), userId, nextId)
    }

    /** An empty table whose first id will be 1. */
    constructor ()
      ensures Valid() && records == map[] && Table() == map[] && nextId == 1
    {
      records := map[];
      nextId := 1;
    }

    /** Persists a new membership built with no id: the store assigns the
        next id and stamps both timestamps; nothing already stored changes. */
    method Save(userId: string, membershipType: MembershipType, point: int, now: Timestamp)
      returns (saved: Membership)
      requires Valid()
      modifies this
      ensures Valid() && fresh(saved)
      ensures saved.View() == Record(old(nextId), membershipType, userId, point, now, now)
      ensures saved.id !in old(Table()) && nextId == old(nextId) + 1
      ensures records == old(records)[saved.id := saved]
      ensures Table() == old(Table())[saved.id := Record(saved.id, membershipType, userId, point, now, now)]
    {
      saved := new Membership(nextId, membershipType, userId, point, now);
      records := records[nextId := saved];
      nextId := nextId + 1;
      assert forall k | k in old(records) :: records[k] == old(records)[k];
    }

    /** The entity stored under `id`, if any. */
    method FindById(id: int) returns (found: Option<Membership>)
      requires Valid()
      ensures found.Some? <==> id in Table()
      ensures found.Some? ==> id in records && found.value == records[id]
    {
      if id in records {
        found := Some(records[id]);
      } else {
        found := None;
      }
    }

    /** The stored entity of that owner and type; absent when there is none.
        When several match (which the registration guard prevents), the one
        with the lowest id. */
    method FindByUserIdAndMembershipType(userId: string, membershipType: MembershipType)
      returns (found: Option<Membership>)
      requires Valid()
      ensures found.None? <==> !HasMembership(Table(), userId, membershipType)
      ensures found.Some? ==> found.value.id in records && records[found.value.id] == found.value
      ensures found.Some? ==> found.value.userId == userId && found.value.membershipType == membershipType
      ensures found.Some? ==> forall k | k in records && records[k].userId == userId
                                && records[k].membershipType == membershipType :: found.value.id <= k
    {
      var k := 1;
      while k < nextId
        invariant 1 <= k <= nextId
        invariant forall j | j in records && j < k ::
          records[j].userId != userId || records[j].membershipType != membershipType
      {
        if k in records && records[k].userId == userId && records[k].membershipType == membershipType {
          assert Table()[k] == records[k].View();
          return Some(records[k]);
        }
        k := k + 1;
      }
      found := None;
    }

    /** Every stored entity of that owner, in ascending id order. */
    method FindAllByUserId(userId: string) returns (list: seq<Membership>)
      requires Valid()
      ensures Views(list) == RecordsOf(userId)
      ensures forall m | m in list :: m in records.Values
    {
      list := [];
      var k := 1;
      assert 0 !in Table();
      while k < nextId
        invariant 1 <= k <= nextId
        invariant Views(list) == OwnedBy(Table(), userId, k)
        invariant forall m | m in list :: m in records.Values
      {
        if k in records && records[k].userId == userId {
          var m := records[k];
          assert (list + [m])[..|list|] == list;
          list := list + [m];
        }
        k := k + 1;
      }
    }

    /** Removes the entity stored under `id`; a missing id is left alone. */
    method DeleteById(id: int)
      requires Valid()
      modifies this
      ensures Valid() && nextId == old(nextId)
      ensures records == old(records) - {id}
      ensures Table() == old(Table()) - {id}
    {
      records := records - {id};
    }

    /** The table the repository keeps is well formed. */
    lemma TableWellFormed()
      requires Valid()
      ensures WellFormed(Table())
      ensures forall k | k in Table() :: k < nextId
    {
    }

    /** A user's records are exactly the stored records with that owner. */
    lemma RecordsOfExactly(userId: string)
      requires Valid()
      ensures forall r :: r in RecordsOf(userId) <==>
        r.id in Table() && Table()[r.id] == r && r.userId == userId
    {
      OwnedByExactly(Table(), userId, nextId);
    }

    /** A user's records come in strictly increasing id order. */
    lemma RecordsOfAscending(userId: string)
      requires Valid()
      ensures forall i, j | 0 <= i < j < |RecordsOf(userId)| ::
        RecordsOf(userId)[i].id < RecordsOf(userId)[j].id
    {
      OwnedByAscending(Table(), userId, nextId);
    }
  }

  /** A store with nothing saved lists nothing for any user. */
  method FindAllOnEmptyStore(userId: string) returns (count: int)
    ensures count == 0
  {
    var repository := new MembershipRepository();
    var list := repository.FindAllByUserId(userId);
    count := |list|;
  }

  /** A saved membership is found again by its owner and type, with the
      store's id and the saved fields. */
  method SaveThenFindByUserIdAndType(now: Timestamp) returns (found: Option<Record>)
    ensures found == Some(Record(1, Naver, "userId", 10000, now, now))
  {
    var repository := new MembershipRepository();
    var saved := repository.Save("userId", Naver, 10000, now);
    var m := repository.FindByUserIdAndMembershipType("userId", Naver);
    assert repository.Table()[1].userId == "userId";
    found := if m.Some? then Some(m.value.View()) else None;
  }

  /** Two memberships of different types for one user are both listed. */
  method SaveTwoTypesThenFindAll(now: Timestamp) returns (count: int)
    ensures count == 2
  {
    var repository := new MembershipRepository();
    var naver := repository.Save("userId", Naver, 10000, now);
    var kakao := repository.Save("userId", Kakao, 10000, now);
    ghost var t := repository.Table();
    assert t == map[1 := Record(1, Naver, "userId", 10000, now, now)][2 := Record(2, Kakao, "userId", 10000, now, now)];
    assert repository.nextId == 3;
    OwnedByTwo(t, "userId");
    var list := repository.FindAllByUserId("userId");
    count := |list|;
  }

  /** A deleted membership is no longer found by its id. */
  method SaveDeleteThenFindById(now: Timestamp) returns (present: bool)
    ensures !present
  {
    var repository := new MembershipRepository();
    var saved := repository.Save("userId", Naver, 10000, now);
    repository.DeleteById(saved.id);
    var found := repository.FindById(saved.id);
    present := found.Some?;
  }
}
