/** The membership service: registration guarded against duplicates, the
    owner's list, and the three id-addressed operations (detail, removal,
    point accumulation), each of which checks existence before ownership. */
module Service {
  import opened Wrappers
  import opened Errors
  import opened Rate
  import opened Entity
  import opened Store

  /** What registration returns to the caller. */
  datatype MembershipDto = MembershipDto(id: int, membershipType: MembershipType)

  /** What the list and detail views return for one membership. */
  datatype MembershipDetailResponse =
    MembershipDetailResponse(id: int, membershipType: MembershipType, createdAt: Timestamp, point: int)

  /** The detail projection of one record. */
  function Detail(r: Record): MembershipDetailResponse {
    MembershipDetailResponse(r.id, r.membershipType, r.createdAt, r.point)
  }

  /** The projection of a list of records, one entry per record, in order. */
  function Details(rs: seq<Record>): (ds: seq<MembershipDetailResponse>)
    ensures |ds| == |rs|
    ensures forall i | 0 <= i < |rs| :: ds[i] == Detail(rs[i])
  {
    if rs == [] then [] else [Detail(rs[0])] + Details(rs[1..])
  }

  /** Inserting a record whose (owner, type) is not yet taken keeps the
      registration invariant. */
  lemma InsertKeepsUnique(t: map<int, Record>, k: int, r: Record)
    requires AtMostOnePerUserAndType(t)
    requires k !in t
    requires !HasMembership(t, r.userId, r.membershipType)
    ensures AtMostOnePerUserAndType(t[k := r])
  {
  }

  /** A second registration for a taken (owner, type) would break the
      invariant, which is why registration refuses it. */
  lemma DuplicateBreaksUnique(t: map<int, Record>, k: int, r: Record)
    requires k !in t
    requires HasMembership(t, r.userId, r.membershipType)
    ensures !AtMostOnePerUserAndType(t[k := r])
  {
    var j :| j in t && t[j].userId == r.userId && t[j].membershipType == r.membershipType;
    assert t[k := r][j].userId == t[k := r][k].userId;
  }

  class MembershipService {
    const repository: MembershipRepository

    /** The store is consistent and holds at most one membership per
        (owner, type): registration is the only path that inserts. */
    ghost predicate Valid()
      reads repository, repository.records.Values
    {
      repository.Valid() && AtMostOnePerUserAndType(repository.Table())
    }

    constructor (repository: MembershipRepository)
      requires repository.Valid() && AtMostOnePerUserAndType(repository.Table())
      ensures this.repository == repository && Valid()
    {
      this.repository := repository;
    }

    /** Registers a membership for (userId, membershipType) with an initial
        balance, unless that owner already holds one of that type. */
    method AddMembership(userId: string, membershipType: MembershipType, point: int, now: Timestamp)
      returns (result: Result<MembershipDto>)
      requires Valid()
      modifies repository
      ensures Valid() && fresh(repository.records.Values - old(repository.records.Values))
      ensures HasMembership(old(repository.Table()), userId, membershipType) ==>
        result == Err(DuplicatedMembershipRegister) && repository.Table() == old(repository.Table())
      ensures !HasMembership(old(repository.Table()), userId, membershipType) ==>
        && result.Ok?
        && result.value.membershipType == membershipType
        && result.value.id !in old(repository.Table())
        && repository.Table() == old(repository.Table())[result.value.id :=
             Record(result.value.id, membershipType, userId, point, now, now)]
      ensures point >= 0 && NonNegativeBalances(old(repository.Table())) ==>
        NonNegativeBalances(repository.Table())
    {
      var existing := repository.FindByUserIdAndMembershipType(userId, membershipType);
      if existing.Some? {
        return Err(DuplicatedMembershipRegister);
      }
      ghost var before := repository.Table();
      var saved := repository.Save(userId, membershipType, point, now);
      InsertKeepsUnique(before, saved.id, Record(saved.id, membershipType, userId, point, now, now));
      result := Ok(MembershipDto(saved.id, saved.membershipType));
    }

    /** Every membership of `userId`, projected, in insertion order; an owner
        with none gets the empty list. */
    method GetMembershipList(userId: string) returns (list: seq<MembershipDetailResponse>)
      requires Valid()
      ensures list == Details(repository.RecordsOf(userId))
    {
      var found := repository.FindAllByUserId(userId);
      list := Details(Views(found));
    }

    /** The detail of membership `membershipId` for the caller `userId`:
        absent ids fail first, whoever asks; then foreign ones. */
    method GetMembership(membershipId: int, userId: string) returns (result: Result<MembershipDetailResponse>)
      requires Valid()
      ensures membershipId !in repository.Table() ==> result == Err(MembershipNotFound)
      ensures membershipId in repository.Table() && repository.Table()[membershipId].userId != userId ==>
        result == Err(NotMembershipOwner)
      ensures membershipId in repository.Table() && repository.Table()[membershipId].userId == userId ==>
        result == Ok(Detail(repository.Table()[membershipId]))
    {
      var found := repository.FindById(membershipId);
      if found.None? {
        return Err(MembershipNotFound);
      }
      var membership := found.value;
      if membership.userId != userId {
        return Err(NotMembershipOwner);
      }
      result := Ok(Detail(membership.View()));
    }

    /** Deletes membership `membershipId` on behalf of its owner; any failure
        leaves the store as it was. */
    method RemoveMembership(membershipId: int, userId: string) returns (outcome: Outcome)
      requires Valid()
      modifies repository
      ensures Valid() && repository.records.Values <= old(repository.records.Values)
      ensures membershipId !in old(repository.Table()) ==>
        outcome == Fail(MembershipNotFound) && repository.Table() == old(repository.Table())
      ensures membershipId in old(repository.Table()) && old(repository.Table())[membershipId].userId != userId ==>
        outcome == Fail(NotMembershipOwner) && repository.Table() == old(repository.Table())
      ensures membershipId in old(repository.Table()) && old(repository.Table())[membershipId].userId == userId ==>
        outcome == Pass && repository.Table() == old(repository.Table()) - {membershipId}
    {
      var found := repository.FindById(membershipId);
      if found.None? {
        return Fail(MembershipNotFound);
      }
      if found.value.userId != userId {
        return Fail(NotMembershipOwner);
      }
      repository.DeleteById(membershipId);
      outcome := Pass;
    }

    /** Adds the points earned for spending `amount` to membership
        `membershipId` on behalf of its owner. The row is written back, and
        its update time stamped, only when the balance actually changed: an
        amount that earns no point leaves the row as it was. Only that row
        changes; any failure changes nothing. */
    method AccumulateMembershipPoint(membershipId: int, userId: string, amount: int, now: Timestamp)
      returns (outcome: Outcome)
      requires Valid()
      modifies repository.records.Values
      ensures Valid() && repository.records == old(repository.records)
      ensures membershipId !in old(repository.Table()) ==>
        outcome == Fail(MembershipNotFound) && repository.Table() == old(repository.Table())
      ensures membershipId in old(repository.Table()) && old(repository.Table())[membershipId].userId != userId ==>
        outcome == Fail(NotMembershipOwner) && repository.Table() == old(repository.Table())
      ensures membershipId in old(repository.Table()) && old(repository.Table())[membershipId].userId == userId ==>
        var was := old(repository.Table())[membershipId];
        && outcome == Pass
        && repository.Table() == old(repository.Table())[membershipId :=
             was.(point := was.point + CalculateAmount(amount),
                  updatedAt := if CalculateAmount(amount) == 0 then was.updatedAt else now)]
      ensures amount >= 0 && NonNegativeBalances(old(repository.Table())) ==>
        NonNegativeBalances(repository.Table())
    {
      var found := repository.FindById(membershipId);
      if found.None? {
        return Fail(MembershipNotFound);
      }
      var membership := found.value;
      if membership.userId != userId {
        return Fail(NotMembershipOwner);
      }
      var additionalAmount := CalculateAmount(amount);
      membership.SetPoint(additionalAmount + membership.point);
      // the persistence layer flushes (and stamps) a row only when it changed
      if additionalAmount != 0 {
        membership.Touch(now);
      }
      assert forall k | k in repository.records && k != membershipId :: repository.records[k] != membership;
      outcome := Pass;
    }
  }

  /** Registering the same (owner, type) twice: the first call returns an
      id of the store, the second is refused as a duplicate. */
  method RegisterTwice(now: Timestamp) returns (first: Result<MembershipDto>, second: Result<MembershipDto>)
    ensures first.Ok? && first.value.membershipType == Naver
    ensures second == Err(DuplicatedMembershipRegister)
  {
    var repository := new MembershipRepository();
    var service := new MembershipService(repository);
    first := service.AddMembership("userId", Naver, 10000, now);
    second := service.AddMembership("userId", Naver, 10000, now);
  }

  /** Spending 10000 on a membership holding 10000 points leaves 10100. */
  method AccumulateOnTenThousand(now: Timestamp) returns (balance: Result<int>)
    ensures balance == Ok(10100)
  {
    var repository := new MembershipRepository();
    var service := new MembershipService(repository);
    var added := service.AddMembership("userId", Naver, 10000, now);
    var id := added.value.id;
    var outcome := service.AccumulateMembershipPoint(id, "userId", 10000, now);
    var detail := service.GetMembership(id, "userId");
    balance := match detail
      case Ok(d) => Ok(d.point)
      case Err(e) => Err(e);
  }

  /** An absent id is "not found" whoever asks; an id held by someone else
      is "not owner", and the caller's attempt changes nothing. */
  method ProbeAsStranger(now: Timestamp) returns (missing: Result<MembershipDetailResponse>, foreign: Outcome, kept: bool)
    ensures missing == Err(MembershipNotFound)
    ensures foreign == Fail(NotMembershipOwner)
    ensures kept
  {
    var repository := new MembershipRepository();
    var service := new MembershipService(repository);
    var added := service.AddMembership("userId", Naver, 10000, now);
    var id := added.value.id;
    missing := service.GetMembership(id + 1, "notOwner");
    foreign := service.RemoveMembership(id, "notOwner");
    var found := repository.FindById(id);
    kept := found.Some?;
  }

  /** Spending less than 100 earns no point, so the membership is not
      written back: its balance and its update time stay as they were. */
  method AccumulateBelowOneHundred(created: Timestamp, later: Timestamp) returns (after: Option<Record>)
    ensures after.Some? && after.value.point == 10000
    ensures after.Some? && after.value.createdAt == created && after.value.updatedAt == created
  {
    var repository := new MembershipRepository();
    var service := new MembershipService(repository);
    var added := service.AddMembership("userId", Naver, 10000, created);
    assert CalculateAmount(50) == 0;
    var outcome := service.AccumulateMembershipPoint(added.value.id, "userId", 50, later);
    var found := repository.FindById(added.value.id);
    after := match found
      case Some(m) => Some(m.View())
      case None => None;
  }
}
