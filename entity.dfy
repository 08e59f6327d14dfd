/** The membership entity: one persisted row, owned by one user, of one
    partner type, holding a point balance. Only the balance (and the update
    timestamp the persistence layer maintains) ever changes. */
module Entity {

  /** The partner that issues a membership's points. The enum's own file is
      not part of this model; these are the two variants the code uses. */
  datatype MembershipType = Naver | Kakao

  /** A clock reading. Timestamps are supplied by the caller of an operation
      and are compared only for equality. */
  type Timestamp = nat

  /** The value of one stored membership at one moment. */
  datatype Record = Record(
    id: int,
    membershipType: MembershipType,
    userId: string,
    point: int,
    createdAt: Timestamp,
    updatedAt: Timestamp)

  /** The persisted entity. id, type, owner and creation time are fixed when
      the store creates it; `point` has the entity's only setter. */
  class Membership {
    const id: int
    const membershipType: MembershipType
    const userId: string
    var point: int
    const createdAt: Timestamp
    var updatedAt: Timestamp

    /** The row as the store creates it: the id comes from the store, both
        timestamps are the creation time. */
    constructor (id: int, membershipType: MembershipType, userId: string, point: int, now: Timestamp)
      ensures View() == Record(id, membershipType, userId, point, now, now)
    {
      this.id := id;
      this.membershipType := membershipType;
      this.userId := userId;
      this.point := point;
      this.createdAt := now;
      this.updatedAt := now;
    }

    /** The entity's current value. */
    function View(): Record
      reads this
    {
      Record(id, membershipType, userId, point, createdAt, updatedAt)
    }

    /** The balance setter: changes the balance and nothing else. */
    method SetPoint(p: int)
      modifies this
      ensures View() == old(View()).(point := p)
    {
      point := p;
    }

    /** The update timestamp the persistence layer refreshes when it writes
      a changed row; the creation time is not updatable. */
    method Touch(now: Timestamp)
      modifies this
      ensures View() == old(View()).(updatedAt := now)
    {
      updatedAt := now;
    }
  }
}
