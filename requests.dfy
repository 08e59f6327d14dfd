/** The request body of "register" and "accumulate", and the two validation
    profiles the boundary layer checks it against before the service runs. */
module Requests {
  import opened Wrappers
  import opened Entity

  /** Both fields may be missing from the JSON body. */
  datatype MembershipRequest = MembershipRequest(point: Option<int>, membershipType: Option<MembershipType>)

  /** The validation group a request is checked under. */
  datatype Profile = Add | Accumulate

  /** One failed constraint: `point` missing, `point` below the minimum 0,
      or `membershipType` missing. */
  datatype Violation = PointNull | PointNegative | TypeNull

  /** The constraints that apply in a profile. A missing point is reported
      as missing only: the minimum constraint treats a missing value as valid.
      The type is required only when registering. */
  function Violations(req: MembershipRequest, profile: Profile): (vs: set<Violation>)
    ensures PointNull in vs <==> req.point.None?
    ensures PointNegative in vs <==> req.point.Some? && req.point.value < 0
    ensures TypeNull in vs <==> profile == Add && req.membershipType.None?
  {
    (if req.point.None? then {PointNull} else {})
    + (if req.point.Some? && req.point.value < 0 then {PointNegative} else {})
    + (if profile == Add && req.membershipType.None? then {TypeNull} else {})
  }

  /** A request passes a profile when no constraint of it fails. */
  predicate IsValid(req: MembershipRequest, profile: Profile) {
    Violations(req, profile) == {}
  }

  /** The Add profile accepts exactly a present, non-negative point together
      with a present type. */
  lemma AddAcceptsExactly(req: MembershipRequest)
    ensures IsValid(req, Add) <==>
      req.point.Some? && req.point.value >= 0 && req.membershipType.Some?
  {
  }

  /** The Accumulate profile accepts exactly a present, non-negative point,
      whatever the type field holds. */
  lemma AccumulateAcceptsExactly(req: MembershipRequest)
    ensures IsValid(req, Accumulate) <==> req.point.Some? && req.point.value >= 0
  {
  }

  /** Every request the Add profile accepts is accepted by Accumulate too. */
  lemma AddIsStricter(req: MembershipRequest)
    ensures IsValid(req, Add) ==> IsValid(req, Accumulate)
  {
  }

  /** The parameter sets the controller tests use for the Add profile: three
      rejected, one accepted; and a point alone passes Accumulate. */
  lemma ProfileExamples()
    ensures !IsValid(MembershipRequest(None, Some(Naver)), Add)
    ensures !IsValid(MembershipRequest(Some(-1), Some(Naver)), Add)
    ensures !IsValid(MembershipRequest(Some(10000), None), Add)
    ensures IsValid(MembershipRequest(Some(10000), Some(Naver)), Add)
    ensures !IsValid(MembershipRequest(Some(-1), None), Accumulate)
    ensures IsValid(MembershipRequest(Some(10000), None), Accumulate)
  {
  }
}
