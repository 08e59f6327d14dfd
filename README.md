# Membership service — a Dafny model

This project models the service layer of a small membership backend. A user
registers a membership of one partner type (NAVER or KAKAO) with a point
balance. The user can then list their memberships, view one, delete one, and
accumulate points on one. Points are earned at 1% of the spend amount,
rounded down. The model covers:

- `Errors` — the four error kinds, each with its HTTP status and message.
  The `Result` / `Outcome` carriers stand for the service's thrown exception.
- `Rate` — the point rate calculator. Java's truncating integer division is
  written out explicitly.
- `Requests` — the request body and its two validation profiles, Add and
  Accumulate, as the set of violated constraints.
- `Entity` — the membership entity as a class. id, type, owner and creation
  time are `const`; the balance and the update timestamp are `var`.
- `Store` — the repository as a class over `map<int, Membership>` with an
  identity counter. `Table()` gives its abstract value, a map from id to
  record value. The finders that return rows scan ids in ascending order,
  which is insertion order; the query itself promises no order.
- `Service` — the service as a class over the repository. Its invariant
  `Valid()` includes "at most one membership per (owner, type)". Every
  operation either changes the table as stated or returns one error kind
  and leaves the table unchanged. Existence is checked before ownership.

The methods whose names are not those of the source (`RegisterTwice`,
`SaveTwoTypesThenFindAll`, …) are client scenarios. They replay what the
repository, service and rate tests check.

Two properties hold only by the service's own logic:

- The entity declares no unique constraint on (owner, type)
  (`Membership.java:13-14`). So the "at most one membership per (owner,
  type)" invariant lives in the service's `Valid()`. Registration's duplicate
  check keeps it, for sequential calls.
- No code checks that a balance stays non-negative; only the request
  validation keeps amounts non-negative. So the model states it
  conditionally: registration with a non-negative point and accumulation with
  a non-negative amount preserve `NonNegativeBalances`.

## Model

| member | source | states |
|---|---|---|
| Errors.HttpStatus | src/main/java/com/example/membership/MembershipErrorResult.java:11-14 | 400 exactly for "not owner" and "duplicate"; 404 exactly for "not found"; 500 exactly for the unknown kind |
| Errors.Message | src/main/java/com/example/membership/MembershipErrorResult.java:11-14 | each kind carries a non-empty fixed message |
| Errors.MessagesIdentifyKinds | src/main/java/com/example/membership/MembershipErrorResult.java:11-14 | two kinds have the same message iff they are the same kind |
| Rate.TruncDiv | src/main/java/com/example/membership/RatePointService.java:11 | Java `/`: the quotient bounds for a non-negative dividend (floor) and for a negative one (rounded toward zero) |
| Rate.CalculateAmount | src/main/java/com/example/membership/RatePointService.java:8-11 | for price >= 0: 0 <= r <= price and r*100 <= price < (r+1)*100; for price < 0: rounds toward zero |
| Rate.CalculateAmountOdd | src/main/java/com/example/membership/RatePointService.java:11 | the negated price earns the negated points (truncation, not floor) |
| Rate.CalculateAmountMonotonic | src/main/java/com/example/membership/RatePointService.java:11 | spending more never earns fewer points |
| Rate.CalculateAmountExamples | src/test/java/com/example/membership/RatePointServiceTest.java:18-55 | 10000, 20000, 30000 earn 100, 200, 300 |
| Requests.Violations | src/main/java/com/example/membership/MembershipRequest.java:18-23 | point-missing iff point absent; point-negative iff present and < 0; type-missing iff Add profile and type absent |
| Requests.AddAcceptsExactly | src/main/java/com/example/membership/MembershipRequest.java:18-23 | Add accepts iff point present and >= 0 and type present |
| Requests.AccumulateAcceptsExactly | src/main/java/com/example/membership/MembershipRequest.java:18-22 | Accumulate accepts iff point present and >= 0, whatever the type |
| Requests.AddIsStricter | src/main/java/com/example/membership/MembershipRequest.java:18-22 | whatever Add accepts, Accumulate accepts |
| Requests.ProfileExamples | src/test/java/com/example/membership/MembershipControllerTest.java:211-216 | (null, NAVER), (-1, NAVER), (10000, null) are rejected under Add, (10000, NAVER) accepted; under Accumulate -1 is rejected and 10000 alone accepted |
| Entity.Membership.constructor | src/main/java/com/example/membership/Membership.java:21-43 | a new entity has the given id, type, owner and point, and both timestamps equal the creation time |
| Entity.Membership.SetPoint | src/main/java/com/example/membership/Membership.java:32-35 | the setter changes the balance and no other field |
| Entity.Membership.Touch | src/main/java/com/example/membership/Membership.java:37-43 | the update stamp changes the update time only; the creation time stays |
| Store.OwnedByExactly | src/main/java/com/example/membership/MembershipRepository.java:10 | a record is listed for a user iff it is stored under its id, belongs to that user and is below the bound |
| Store.OwnedByAscending | src/main/java/com/example/membership/MembershipRepository.java:10 | the listed ids strictly increase, so no record is listed twice |
| Store.OwnedByNone | src/main/java/com/example/membership/MembershipRepository.java:10 | a user with no stored record gets the empty list |
| Store.MembershipRepository.constructor | src/main/java/com/example/membership/MembershipRepository.java:7 | an empty store whose first id is 1 |
| Store.MembershipRepository.Save | src/main/java/com/example/membership/MembershipRepository.java:7 | the store assigns a fresh id not in use; the saved record has the given owner, type and point; only that row is added |
| Store.MembershipRepository.FindById | src/main/java/com/example/membership/MembershipRepository.java:7 | present iff the id is stored, and then the stored entity |
| Store.MembershipRepository.FindByUserIdAndMembershipType | src/main/java/com/example/membership/MembershipRepository.java:8 | absent iff no stored record has that owner and type; otherwise a stored entity with both, the lowest such id |
| Store.MembershipRepository.FindAllByUserId | src/main/java/com/example/membership/MembershipRepository.java:10 | exactly the stored entities of that owner, in ascending id order (an order this model chooses) |
| Store.MembershipRepository.DeleteById | src/main/java/com/example/membership/MembershipRepository.java:7 | removes exactly that id; an absent id changes nothing |
| Store.MembershipRepository.TableWellFormed | src/main/java/com/example/membership/Membership.java:21-23 | every stored id is positive, below the counter, and the id of its record |
| Store.MembershipRepository.RecordsOfExactly | src/main/java/com/example/membership/MembershipRepository.java:10 | a user's records are exactly the stored records with that owner |
| Store.MembershipRepository.RecordsOfAscending | src/main/java/com/example/membership/MembershipRepository.java:10 | a user's records come in strictly increasing id order, the model's chosen listing order |
| Store.FindAllOnEmptyStore | src/test/java/com/example/membership/MembershipRepositoryTest.java:63-73 | an empty store lists no membership |
| Store.SaveThenFindByUserIdAndType | src/test/java/com/example/membership/MembershipRepositoryTest.java:41-61 | after one save, the finder by owner and type returns that record with id 1 and the saved fields |
| Store.SaveTwoTypesThenFindAll | src/test/java/com/example/membership/MembershipRepositoryTest.java:75-99 | a NAVER and a KAKAO membership of one user are both listed |
| Store.SaveDeleteThenFindById | src/test/java/com/example/membership/MembershipRepositoryTest.java:101-121 | after deleting a saved id, finding it yields absent |
| Service.Details | src/main/java/com/example/membership/MembershipService.java:47-54 | one projection per record, same length, same order, each carrying that record's id, type, createdAt and point |
| Service.InsertKeepsUnique | src/main/java/com/example/membership/MembershipService.java:23-35 | inserting under a fresh id a record whose (owner, type) is untaken keeps "at most one per (owner, type)" |
| Service.DuplicateBreaksUnique | src/main/java/com/example/membership/MembershipService.java:23-27 | inserting a record whose (owner, type) is taken breaks the invariant |
| Service.MembershipService.constructor | src/main/java/com/example/membership/MembershipService.java:13-18 | a service over a consistent store without duplicates is valid |
| Service.MembershipService.AddMembership | src/main/java/com/example/membership/MembershipService.java:22-41 | taken (owner, type): duplicate error, table unchanged; else one record with that owner, type, point inserted under a new id, returned with its type; invariant kept |
| Service.MembershipService.GetMembershipList | src/main/java/com/example/membership/MembershipService.java:43-55 | the projections of the owner's records in insertion order; nothing changes |
| Service.MembershipService.GetMembership | src/main/java/com/example/membership/MembershipService.java:57-72 | absent id: not found, for any caller; foreign id: not owner; else the record's detail |
| Service.MembershipService.RemoveMembership | src/main/java/com/example/membership/MembershipService.java:74-84 | not found / not owner in that order with the table unchanged; else exactly that id removed |
| Service.MembershipService.AccumulateMembershipPoint | src/main/java/com/example/membership/MembershipService.java:86-99 | not found / not owner with the table unchanged; else only that record's point becomes old point + CalculateAmount(amount), and its update time is stamped only when that changes the point; non-negative balances stay so for amount >= 0 |
| Service.RegisterTwice | src/test/java/com/example/membership/MembershipServiceTest.java:54-88 | the first registration succeeds with type NAVER, the second for the same (owner, type) fails as a duplicate |
| Service.AccumulateOnTenThousand | src/test/java/com/example/membership/MembershipServiceTest.java:232-242 | spending 10000 on a balance of 10000 leaves 10100 |
| Service.AccumulateBelowOneHundred | src/main/java/com/example/membership/MembershipService.java:96-98 | spending 50 earns no point, so balance and update time stay as they were |
| Service.ProbeAsStranger | src/test/java/com/example/membership/MembershipServiceTest.java:127-187 | a stranger gets "not found" for an absent id, "not owner" for removing someone else's membership, and the membership stays |

## Left out

- HTTP routing, header binding and response building in the controller are not modelled. Neither is the mapping from exception to response. The status table in `Errors.HttpStatus` is the part of that mapping the error kinds carry.
- The persistence framework is reduced to a sequential map with an identity counter: no transactions and no DDL. Its dirty check is reduced to one rule: accumulation writes the row back, and `Touch` stamps its update time, only when the earned amount changes the point.
- Service.MembershipService.AddMembership: the duplicate check and the save are not atomic (no transaction, no unique constraint), so two concurrent registrations of one (owner, type) can both pass the check and both insert. The invariant "at most one per (owner, type)" is proved for sequential calls only.
- Store.MembershipRepository.FindAllByUserId: the derived query has no ORDER BY, so the program promises no order; ascending id (insertion order) is this model's choice, and `RecordsOfAscending` states a property of that choice, not of the program.
- Concurrent accumulation is not modelled. The lost-update question depends on database isolation, which is not in this code; the model is sequential.
- Timestamps are natural numbers supplied by the caller of each operation, in place of the clock.
- The `@ColumnDefault("0")` on the balance is not modelled. It only affects the DDL, and every insert in the code supplies a point.
- The `PointService` interface is bound to the one implementation, `Rate.CalculateAmount`. The service has no other.
- Store.MembershipRepository.FindByUserIdAndMembershipType: when several rows match, this returns the lowest id; the framework's single-result query would raise an error instead. The service's invariant rules that case out.
- Service.MembershipService.AccumulateMembershipPoint: does not model Java 32-bit `int` overflow of `additionalAmount + point`, because the source does not guard against it and the model uses unbounded integers.
- The unused `point` field of the service class is not modelled.
- `MembershipType`'s own source file is not part of this model. Its two variants are the ones the code and tests use.
