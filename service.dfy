/**
 * The reservation service: the check-in, checkout and sensor handlers as
 * methods on an in-memory store of the three collections, and the status and
 * statistics endpoints as read-only functions over it.
 *
 * Time is the integer-millisecond parameter `now`. Storage failures are the
 * parameter `fault`: the handlers write the user record first and the
 * reservation second, with no transaction around the two, so a failure of the
 * second write leaves the first in place.
 */
module ParkingService {
  import opened Wrappers
  import opened Text
  import opened Collections
  import opened Duration
  import opened UserModel
  import RM = ReservationModel
  import opened SensorEventModel

  // ---------------------------------------------------------------------------
  // Invariants of the user collection.

  ghost predicate EmailsUnique(users: seq<User>) {
    forall i, j :: 0 <= i < |users| && 0 <= j < |users| && users[i].email == users[j].email ==> i == j
  }

  /** An active user always has a slot and a robot. */
  ghost predicate ActiveUsersPlaced(users: seq<User>) {
    forall i :: 0 <= i < |users| && users[i].status == Active ==> users[i].slotId.Some? && users[i].robotId.Some?
  }

  ghost predicate ActiveSlotsDistinct(users: seq<User>) {
    forall i, j, s :: 0 <= i < |users| && 0 <= j < |users| && HoldsSlot(users[i], s) && HoldsSlot(users[j], s) ==> i == j
  }

  ghost predicate ActiveRobotsDistinct(users: seq<User>) {
    forall i, j, r :: 0 <= i < |users| && 0 <= j < |users| && HoldsRobot(users[i], r) && HoldsRobot(users[j], r) ==> i == j
  }

  ghost predicate UsersValid(users: seq<User>) {
    && (forall i :: 0 <= i < |users| ==> UserWellFormed(users[i]))
    && EmailsUnique(users)
    && ActiveUsersPlaced(users)
    && ActiveSlotsDistinct(users)
    && ActiveRobotsDistinct(users)
  }

  /**
   * The reservations mirror the active users: every active reservation
   * belongs to an active user with the same slot, robot and check-in time,
   * every active user has one, no user has two, and every completed
   * reservation's duration is the whole minutes between its two times.
   */
  ghost predicate Mirrored(users: seq<User>, reservations: seq<RM.Reservation>) {
    && OpenMatchUsers(users, reservations)
    && ActiveUsersOpen(users, reservations)
    && OneOpenEach(reservations)
    && (forall k :: 0 <= k < |reservations| ==> DurationExact(reservations[k]))
  }

  ghost predicate OpenMatchUsers(users: seq<User>, reservations: seq<RM.Reservation>) {
    forall k :: 0 <= k < |reservations| && reservations[k].status == RM.Active ==>
      reservations[k].userId < |users| && Matches(users[reservations[k].userId], reservations[k])
  }

  ghost predicate ActiveUsersOpen(users: seq<User>, reservations: seq<RM.Reservation>) {
    forall i :: 0 <= i < |users| && users[i].status == Active ==>
      exists k :: 0 <= k < |reservations| && OpenFor(reservations[k], i)
  }

  ghost predicate OneOpenEach(reservations: seq<RM.Reservation>) {
    forall k1, k2, i ::
      0 <= k1 < |reservations| && 0 <= k2 < |reservations| && OpenFor(reservations[k1], i) && OpenFor(reservations[k2], i)
      ==> k1 == k2
  }

  predicate OpenFor(r: RM.Reservation, i: nat) {
    r.status == RM.Active && r.userId == i
  }

  predicate Matches(u: User, r: RM.Reservation) {
    u.status == Active && u.slotId == Some(r.slotId) && u.robotId == r.robotId && u.checkInTime == r.checkInTime
  }

  predicate DurationExact(r: RM.Reservation) {
    r.status == RM.Completed && r.duration.Some? ==>
      r.checkOutTime.Some? && r.duration.value == WholeMinutes(r.checkOutTime.value - r.checkInTime)
  }

  // ---------------------------------------------------------------------------
  // Check-in.

  /** JavaScript falsiness of an optional string field: missing or empty. */
  predicate Blank(s: Option<string>) {
    s.None? || s.value == ""
  }

  const MissingCheckInFields := "userName, userEmail, and slotId are required"
  const NoRobotsError := "No robots available. Please try again later."
  const AlreadyActiveError := "User already has an active reservation"
  const CheckInFailedError := "Check-in failed"

  function SlotOccupiedError(slot: int): string {
    "Slot " + IntToString(slot) + " is already occupied"
  }

  function CheckInMessage(name: string, slot: int): string {
    name + " checked in to slot " + IntToString(slot)
  }

  datatype CheckInResponse =
    | CheckedIn(userId: nat, reservationId: nat, slotId: int, robotId: RobotId, message: string,
                robotDispatchAuthorized: bool, timestamp: int)
    | CheckInRefused(code: int, error: string)
  {
    function StatusCode(): int {
      if CheckedIn? then 201 else code
    }
  }

  /** Why the check-in handler returns early. */
  datatype Refusal = MissingFields | SlotOccupied | NoRobotFree | DriverAlreadyActive

  function RefusalResponse(why: Refusal, slot: int): CheckInResponse {
    match why
    case MissingFields => CheckInRefused(400, MissingCheckInFields)
    case SlotOccupied => CheckInRefused(409, SlotOccupiedError(slot))
    case NoRobotFree => CheckInRefused(503, NoRobotsError)
    case DriverAlreadyActive => CheckInRefused(409, AlreadyActiveError)
  }

  /** `User.findOne({ email })`, on the normalised address. */
  function FindUserByEmail(users: seq<User>, email: string): (found: Option<nat>)
    ensures found.None? <==> forall i :: 0 <= i < |users| ==> users[i].email != email
    ensures found.Some? ==> found.value < |users| && users[found.value].email == email
  {
    FirstWhere(users, (u: User) => u.email == email)
  }

  ghost predicate DriverActive(users: seq<User>, email: string) {
    exists i :: 0 <= i < |users| && users[i].email == email && users[i].status == Active
  }

  /**
   * The handler's early returns, in their order: a missing field, an occupied
   * slot, every robot held, the driver already active. `None` when all pass.
   */
  function CheckInRefusal(users: seq<User>, userName: Option<string>, userEmail: Option<string>, slotId: Option<int>)
    : Option<Refusal>
    requires EmailsUnique(users)
  {
    if Blank(userName) || Blank(userEmail) || slotId.None? then Some(MissingFields)
    else if !IsSlotAvailable(users, slotId.value) then Some(SlotOccupied)
    else if GetAvailableRobot(users).None? then Some(NoRobotFree)
    else
      var found := FindUserByEmail(users, NormalizeEmail(userEmail.value));
      if found.Some? && users[found.value].status == Active then Some(DriverAlreadyActive)
      else None
  }

  /**
   * Each refusal applies exactly when every check before it passed and its
   * own fails: missing fields first, then an occupied slot, then no free
   * robot, then an active record with the driver's email.
   */
  lemma CheckInRefusalOrder(users: seq<User>, userName: Option<string>, userEmail: Option<string>, slotId: Option<int>)
    requires EmailsUnique(users)
    ensures var r := CheckInRefusal(users, userName, userEmail, slotId);
      && (r == Some(MissingFields) <==> Blank(userName) || Blank(userEmail) || slotId.None?)
      && (r == Some(SlotOccupied) <==>
            !Blank(userName) && !Blank(userEmail) && slotId.Some? && !IsSlotAvailable(users, slotId.value))
      && (r == Some(NoRobotFree) <==>
            !Blank(userName) && !Blank(userEmail) && slotId.Some? && IsSlotAvailable(users, slotId.value)
            && forall x :: RobotBusy(users, x))
      && (r == Some(DriverAlreadyActive) <==>
            !Blank(userName) && !Blank(userEmail) && slotId.Some? && IsSlotAvailable(users, slotId.value)
            && (exists x :: !RobotBusy(users, x)) && DriverActive(users, NormalizeEmail(userEmail.value)))
  {
  }

  /** Past every refusal: all fields present, the slot free, a robot free, the driver not active. */
  lemma PassedRefusals(users: seq<User>, userName: Option<string>, userEmail: Option<string>, slotId: Option<int>)
    requires EmailsUnique(users) && CheckInRefusal(users, userName, userEmail, slotId).None?
    ensures userName.Some? && userEmail.Some? && slotId.Some?
    ensures IsSlotAvailable(users, slotId.value) && GetAvailableRobot(users).Some?
    ensures !DriverActive(users, NormalizeEmail(userEmail.value))
  {
  }

  /** The re-used record after the handler's field-by-field assignments. */
  function Reassigned(u: User, name: string, slot: int, robot: RobotId, now: int): (v: User)
    requires Normalized(u)
    ensures Normalized(v) && v.email == u.email && v.vehicleInfo == u.vehicleInfo
    ensures v.name == Trim(name) && v.slotId == Some(slot) && v.robotId == Some(robot)
    ensures v.status == Active && v.checkInTime == now && v.checkOutTime.None?
  {
    u.(name := Trim(name), slotId := Some(slot), robotId := Some(robot), status := Active,
       checkInTime := now, checkOutTime := None)
  }

  /** Where the check-in handler saves the driver, and the collection afterwards. */
  datatype Placement = Placement(user: User, at: nat, users: seq<User>)

  /**
   * The driver record check-in saves: the record with the same (normalised)
   * email overwritten in place, or a new record appended. Either way it is
   * active on the slot with the robot, checked in now, not checked out.
   */
  function PlaceDriver(users: seq<User>, name: string, email: string, slot: int, robot: RobotId, now: int)
    : (p: Placement)
    requires forall i :: 0 <= i < |users| ==> Normalized(users[i])
    ensures p.at <= |users| && |p.users| == if p.at == |users| then |users| + 1 else |users|
    ensures p.users[p.at] == p.user
    ensures forall i :: 0 <= i < |users| && i != p.at ==> p.users[i] == users[i]
    ensures p.at < |users| <==> exists i :: 0 <= i < |users| && users[i].email == NormalizeEmail(email)
    ensures p.at < |users| ==> users[p.at].email == NormalizeEmail(email)
    ensures Normalized(p.user) && p.user.email == NormalizeEmail(email) && p.user.name == Trim(name)
    ensures p.user.status == Active && p.user.slotId == Some(slot) && p.user.robotId == Some(robot)
    ensures p.user.checkInTime == now && p.user.checkOutTime.None?
  {
    match FindUserByEmail(users, NormalizeEmail(email))
    case Some(i) =>
      var u := Reassigned(users[i], name, slot, robot, now);
      Placement(u, i, users[i := u])
    case None =>
      var u := NewUser(name, email, slot, robot, now);
      Placement(u, |users|, users + [u])
  }

  /** `after` is `before` with the record at `at` overwritten, or one record appended at `at`. */
  ghost predicate SameExcept(before: seq<User>, after: seq<User>, at: nat) {
    && at <= |before|
    && |after| == (if at == |before| then |before| + 1 else |before|)
    && forall i :: 0 <= i < |before| && i != at ==> after[i] == before[i]
  }

  lemma WriteKeepsSlotsDistinct(before: seq<User>, after: seq<User>, at: nat, slot: int)
    requires SameExcept(before, after, at) && ActiveSlotsDistinct(before) && IsSlotAvailable(before, slot)
    requires after[at].slotId == Some(slot) && after[at].status == Active
    ensures ActiveSlotsDistinct(after)
    ensures forall i :: 0 <= i < |after| ==> (HoldsSlot(after[i], slot) <==> i == at)
  {
    forall i, j, s | 0 <= i < |after| && 0 <= j < |after| && HoldsSlot(after[i], s) && HoldsSlot(after[j], s)
      ensures i == j
    {
      if i != at && j != at {
        assert after[i] == before[i] && after[j] == before[j];
      } else if i != at {
        assert after[i] == before[i];
      } else if j != at {
        assert after[j] == before[j];
      }
    }
    forall i | 0 <= i < |after| ensures HoldsSlot(after[i], slot) <==> i == at {
      if i != at { assert after[i] == before[i]; }
    }
  }

  lemma WriteKeepsRobotsDistinct(before: seq<User>, after: seq<User>, at: nat, robot: RobotId)
    requires SameExcept(before, after, at) && ActiveRobotsDistinct(before) && !RobotBusy(before, robot)
    requires after[at].robotId == Some(robot) && after[at].status == Active
    ensures ActiveRobotsDistinct(after)
    ensures forall i :: 0 <= i < |after| ==> (HoldsRobot(after[i], robot) <==> i == at)
  {
    forall i, j, r | 0 <= i < |after| && 0 <= j < |after| && HoldsRobot(after[i], r) && HoldsRobot(after[j], r)
      ensures i == j
    {
      if i != at && j != at {
        assert after[i] == before[i] && after[j] == before[j];
      } else if i != at {
        assert after[i] == before[i];
      } else if j != at {
        assert after[j] == before[j];
      }
    }
    forall i | 0 <= i < |after| ensures HoldsRobot(after[i], robot) <==> i == at {
      if i != at { assert after[i] == before[i]; }
    }
  }

  lemma WriteKeepsEmailsUnique(before: seq<User>, after: seq<User>, at: nat)
    requires SameExcept(before, after, at) && EmailsUnique(before)
    requires at < |before| ==> before[at].email == after[at].email
    requires at == |before| ==> forall i :: 0 <= i < |before| ==> before[i].email != after[at].email
    ensures EmailsUnique(after)
  {
    forall i, j | 0 <= i < |after| && 0 <= j < |after| && after[i].email == after[j].email ensures i == j {
      if i != at && j != at {
        assert after[i] == before[i] && after[j] == before[j];
      }
    }
  }

  /** A property every record had, and the written record has, every record has afterwards. */
  lemma WriteKeepsEvery(before: seq<User>, after: seq<User>, at: nat, P: User -> bool)
    requires SameExcept(before, after, at)
    requires forall i :: 0 <= i < |before| ==> P(before[i])
    requires P(after[at])
    ensures forall i :: 0 <= i < |after| ==> P(after[i])
  {
    forall i | 0 <= i < |after| ensures P(after[i]) {
      if i != at { assert after[i] == before[i]; }
    }
  }

  lemma WriteKeepsPlaced(before: seq<User>, after: seq<User>, at: nat)
    requires SameExcept(before, after, at) && ActiveUsersPlaced(before)
    requires after[at].status == Active ==> after[at].slotId.Some? && after[at].robotId.Some?
    ensures ActiveUsersPlaced(after)
  {
    forall i | 0 <= i < |after| && after[i].status == Active ensures after[i].slotId.Some? && after[i].robotId.Some? {
      if i != at { assert after[i] == before[i]; }
    }
  }

  /**
   * A successful check-in on a free slot, with a robot nobody active holds,
   * for a driver who is not active, keeps the user invariants, and afterwards
   * exactly one active user holds that slot and exactly one that robot: the
   * driver just placed.
   */
  lemma PlacementClaimsSlotAndRobot(users: seq<User>, name: string, email: string, slot: int, robot: RobotId, now: int)
    requires UsersValid(users)
    requires IsSlotAvailable(users, slot) && !RobotBusy(users, robot)
    requires SchemaValid(PlaceDriver(users, name, email, slot, robot, now).user)
    ensures var p := PlaceDriver(users, name, email, slot, robot, now);
      && UsersValid(p.users)
      && (forall i :: 0 <= i < |p.users| ==> (HoldsSlot(p.users[i], slot) <==> i == p.at))
      && (forall i :: 0 <= i < |p.users| ==> (HoldsRobot(p.users[i], robot) <==> i == p.at))
  {
    var p := PlaceDriver(users, name, email, slot, robot, now);
    assert SameExcept(users, p.users, p.at);
    WriteKeepsSlotsDistinct(users, p.users, p.at, slot);
    WriteKeepsRobotsDistinct(users, p.users, p.at, robot);
    WriteKeepsEmailsUnique(users, p.users, p.at);
    WriteKeepsEvery(users, p.users, p.at, UserWellFormed);
    WriteKeepsPlaced(users, p.users, p.at);
  }

  // ---------------------------------------------------------------------------
  // The reservation written by check-in, and the one closed by checkout.

  /** `new Reservation({ userId, slotId, robotId, checkInTime, status: 'active' })`, saved. */
  function OpenReservation(at: nat, slot: int, robot: RobotId, now: int): (r: RM.Reservation)
    ensures OpenFor(r, at) && r.slotId == slot && r.robotId == Some(robot) && r.checkInTime == now
    ensures r.checkOutTime.None? && r.duration.None?
  {
    RM.SaveReservation(RM.ReservationDraft(Some(at), Some(slot), Some(robot), Some(now), None, None, Some(RM.Active))).value
  }

  /** An inactive (or not yet stored) user has no open reservation. */
  lemma NoneOpenForInactive(users: seq<User>, reservations: seq<RM.Reservation>, i: nat)
    requires OpenMatchUsers(users, reservations)
    requires i < |users| ==> users[i].status != Active
    ensures forall k :: 0 <= k < |reservations| ==> !OpenFor(reservations[k], i)
  {
  }

  /** Adding `r`, open for the record just written at `at`, to reservations none of which is open for `at`. */
  lemma AddOpenKeepsMirror(users: seq<User>, after: seq<User>, at: nat,
                           reservations: seq<RM.Reservation>, r: RM.Reservation)
    requires Mirrored(users, reservations) && SameExcept(users, after, at)
    requires forall k :: 0 <= k < |reservations| ==> !OpenFor(reservations[k], at)
    requires OpenFor(r, at) && Matches(after[at], r)
    ensures Mirrored(after, reservations + [r])
  {
    var more := reservations + [r];
    forall k | 0 <= k < |more| && more[k].status == RM.Active
      ensures more[k].userId < |after| && Matches(after[more[k].userId], more[k])
    {
      if k < |reservations| {
        assert more[k] == reservations[k];
        assert after[more[k].userId] == users[more[k].userId];
      }
    }
    forall i | 0 <= i < |after| && after[i].status == Active
      ensures exists k :: 0 <= k < |more| && OpenFor(more[k], i)
    {
      if i == at {
        assert OpenFor(more[|reservations|], i);
      } else {
        assert after[i] == users[i];
        var k :| 0 <= k < |reservations| && OpenFor(reservations[k], i);
        assert more[k] == reservations[k];
      }
    }
    forall k1, k2, i | 0 <= k1 < |more| && 0 <= k2 < |more| && OpenFor(more[k1], i) && OpenFor(more[k2], i)
      ensures k1 == k2
    {
      if k1 < |reservations| { assert more[k1] == reservations[k1]; }
      if k2 < |reservations| { assert more[k2] == reservations[k2]; }
    }
    forall k | 0 <= k < |more| ensures DurationExact(more[k]) {
      if k < |reservations| { assert more[k] == reservations[k]; }
    }
  }

  /**
   * Check-in on a free slot, with a free robot, for a driver who is not
   * active, followed by the reservation write, keeps the reservations
   * mirroring the users.
   */
  lemma CheckInKeepsMirror(users: seq<User>, reservations: seq<RM.Reservation>,
                           name: string, email: string, slot: int, robot: RobotId, now: int)
    requires UsersValid(users) && Mirrored(users, reservations)
    requires !DriverActive(users, NormalizeEmail(email))
    ensures var p := PlaceDriver(users, name, email, slot, robot, now);
      Mirrored(p.users, reservations + [OpenReservation(p.at, slot, robot, now)])
  {
    var p := PlaceDriver(users, name, email, slot, robot, now);
    NoneOpenForInactive(users, reservations, p.at);
    assert SameExcept(users, p.users, p.at);
    AddOpenKeepsMirror(users, p.users, p.at, reservations, OpenReservation(p.at, slot, robot, now));
  }

  /**
   * The non-atomic writes: when the user write lands and the reservation
   * write fails, the driver is active with no open reservation, so the
   * collections no longer mirror each other.
   */
  lemma HalfCheckInBreaksMirror(users: seq<User>, reservations: seq<RM.Reservation>,
                                name: string, email: string, slot: int, robot: RobotId, now: int)
    requires UsersValid(users) && Mirrored(users, reservations)
    requires !DriverActive(users, NormalizeEmail(email))
    ensures !Mirrored(PlaceDriver(users, name, email, slot, robot, now).users, reservations)
  {
    var p := PlaceDriver(users, name, email, slot, robot, now);
    NoneOpenForInactive(users, reservations, p.at);
    assert p.users[p.at].status == Active;
  }

  predicate OpenOn(r: RM.Reservation, slot: int) {
    r.status == RM.Active && r.slotId == slot
  }

  /** `k` is where `findOneAndUpdate({ slotId, status: 'active' })` lands: the first open reservation on the slot. */
  ghost predicate FirstOpenOn(reservations: seq<RM.Reservation>, slot: int, k: nat) {
    k < |reservations| && OpenOn(reservations[k], slot) && forall j :: 0 <= j < k ==> !OpenOn(reservations[j], slot)
  }

  /** The update document of the checkout: completed, checked out now, with the duration in minutes. */
  function Closed(r: RM.Reservation, now: int, minutes: int): RM.Reservation {
    r.(status := RM.Completed, checkOutTime := Some(now), duration := Some(minutes))
  }

  /**
   * The checkout's reservation update: the first open reservation on the
   * slot is closed and every other one is left as it was; when none is open
   * on the slot, nothing changes.
   */
  function CloseReservation(reservations: seq<RM.Reservation>, slot: int, now: int, minutes: int)
    : seq<RM.Reservation>
  {
    match FirstWhere(reservations, (x: RM.Reservation) => OpenOn(x, slot))
    case None => reservations
    case Some(k) => reservations[k := Closed(reservations[k], now, minutes)]
  }

  lemma CloseReservationSpec(reservations: seq<RM.Reservation>, slot: int, now: int, minutes: int)
    ensures var r := CloseReservation(reservations, slot, now, minutes);
      && |r| == |reservations|
      && (forall k :: 0 <= k < |r| && !FirstOpenOn(reservations, slot, k) ==> r[k] == reservations[k])
      && (forall k :: 0 <= k < |r| && FirstOpenOn(reservations, slot, k) ==> r[k] == Closed(reservations[k], now, minutes))
      && ((forall k :: 0 <= k < |reservations| ==> !OpenOn(reservations[k], slot)) ==> r == reservations)
  {
  }

  /** The user record after checkout: completed, checked out now, everything else kept. */
  function CompletedUser(u: User, now: int): (v: User)
    ensures v.status == Completed && v.checkOutTime == Some(now)
    ensures v.name == u.name && v.email == u.email && v.slotId == u.slotId && v.robotId == u.robotId
    ensures v.checkInTime == u.checkInTime && v.vehicleInfo == u.vehicleInfo
  {
    u.(status := Completed, checkOutTime := Some(now))
  }

  /** Completing one active user keeps every user invariant. */
  lemma CompletionKeepsUsersValid(users: seq<User>, i: nat, now: int)
    requires UsersValid(users) && i < |users|
    ensures UsersValid(users[i := CompletedUser(users[i], now)])
  {
    var after := users[i := CompletedUser(users[i], now)];
    assert SameExcept(users, after, i);
    WriteKeepsEvery(users, after, i, UserWellFormed);
    WriteKeepsEmailsUnique(users, after, i);
    WriteKeepsPlaced(users, after, i);
    forall a, b, s | 0 <= a < |after| && 0 <= b < |after| && HoldsSlot(after[a], s) && HoldsSlot(after[b], s)
      ensures a == b
    {
      assert after[a] == users[a] && after[b] == users[b];
    }
    forall a, b, r | 0 <= a < |after| && 0 <= b < |after| && HoldsRobot(after[a], r) && HoldsRobot(after[b], r)
      ensures a == b
    {
      assert after[a] == users[a] && after[b] == users[b];
    }
  }

  /** Every open reservation on a slot belongs to the one active user holding it. */
  lemma OpenOnSlotIsHolders(users: seq<User>, reservations: seq<RM.Reservation>, i: nat, slot: int)
    requires OpenMatchUsers(users, reservations) && ActiveSlotsDistinct(users)
    requires i < |users| && HoldsSlot(users[i], slot)
    ensures forall k :: 0 <= k < |reservations| && OpenOn(reservations[k], slot) ==> OpenFor(reservations[k], i)
  {
    forall k | 0 <= k < |reservations| && OpenOn(reservations[k], slot) ensures OpenFor(reservations[k], i) {
      assert HoldsSlot(users[reservations[k].userId], slot);
    }
  }

  /**
   * Closing the one open reservation `k0` of user `i`, with its exact
   * duration, while `i` stops being active, keeps the mirror.
   */
  lemma CloseKeepsMirror(users: seq<User>, after: seq<User>, i: nat,
                         reservations: seq<RM.Reservation>, closed: seq<RM.Reservation>, k0: nat, now: int)
    requires Mirrored(users, reservations) && SameExcept(users, after, i) && i < |users|
    requires after[i].status != Active
    requires k0 < |reservations| && OpenFor(reservations[k0], i)
    requires |closed| == |reservations|
    requires forall k :: 0 <= k < |closed| && k != k0 ==> closed[k] == reservations[k]
    requires closed[k0] == Closed(reservations[k0], now, WholeMinutes(now - reservations[k0].checkInTime))
    ensures Mirrored(after, closed)
    ensures forall k :: 0 <= k < |closed| ==> !OpenFor(closed[k], i)
  {
    forall k | 0 <= k < |closed| && closed[k].status == RM.Active
      ensures closed[k].userId < |after| && Matches(after[closed[k].userId], closed[k])
    {
      assert closed[k] == reservations[k];
      assert closed[k].userId != i;
      assert after[closed[k].userId] == users[closed[k].userId];
    }
    forall j | 0 <= j < |after| && after[j].status == Active
      ensures exists k :: 0 <= k < |closed| && OpenFor(closed[k], j)
    {
      assert after[j] == users[j];
      var k :| 0 <= k < |reservations| && OpenFor(reservations[k], j);
      assert closed[k] == reservations[k];
    }
  }

  /**
   * Checkout of the active user holding a slot closes exactly that user's
   * open reservation, with the exact duration, and keeps the reservations
   * mirroring the users.
   */
  lemma CheckOutKeepsMirror(users: seq<User>, reservations: seq<RM.Reservation>, i: nat, slot: int, now: int)
    requires UsersValid(users) && Mirrored(users, reservations)
    requires i < |users| && HoldsSlot(users[i], slot)
    ensures var closed := CloseReservation(reservations, slot, now, WholeMinutes(now - users[i].checkInTime));
      && Mirrored(users[i := CompletedUser(users[i], now)], closed)
      && (forall k :: 0 <= k < |closed| && closed[k] != reservations[k] ==> OpenFor(reservations[k], i))
      && (forall k :: 0 <= k < |closed| ==> !OpenFor(closed[k], i))
  {
    var closed := CloseReservation(reservations, slot, now, WholeMinutes(now - users[i].checkInTime));
    var after := users[i := CompletedUser(users[i], now)];
    CloseReservationSpec(reservations, slot, now, WholeMinutes(now - users[i].checkInTime));
    OpenOnSlotIsHolders(users, reservations, i, slot);
    var k0 :| 0 <= k0 < |reservations| && OpenFor(reservations[k0], i);
    assert Matches(users[i], reservations[k0]);
    assert FirstOpenOn(reservations, slot, k0);
    assert forall k :: 0 <= k < |closed| && k != k0 ==> !FirstOpenOn(reservations, slot, k);
    assert SameExcept(users, after, i);
    CloseKeepsMirror(users, after, i, reservations, closed, k0, now);
  }

  // ---------------------------------------------------------------------------
  // Checkout replies.

  datatype Position = Position(x: real, y: real, z: real)

  /** Where a robot goes after a checkout. */
  const ReturnDock := Position(0.0, 0.2, 10.0)

  const MissingSlotError := "slotId is required"
  const CheckOutFailedError := "Checkout failed"
  const CheckOutMessage := "Checkout successful. Robot returning to dock."

  function NoActiveReservationError(slot: int): string {
    "No active reservation found for slot " + IntToString(slot)
  }

  datatype CheckOutResponse =
    | CheckedOut(slotId: int, userName: string, sessionDuration: Option<string>, message: string,
                 robotReturnDock: Position, timestamp: int)
    | CheckOutRefused(code: int, error: string)

  // ---------------------------------------------------------------------------
  // Sensor readings.

  /** The `data` object of a sensor post; absent fields are `None`. */
  datatype SensorData = SensorData(slotId: Option<int>, status: Option<bool>, confidence: Option<real>)

  datatype SensorResponse = Received(eventId: nat) | SensorRefused(code: int, error: string)

  const SensorFailedError := "Sensor logging failed"

  /** `data.confidence || 0.95`: a missing or zero confidence falls back to the default. */
  function EffectiveConfidence(c: Option<real>): (r: real)
    ensures c.None? || c.value == 0.0 ==> r == DefaultConfidence
    ensures c.Some? && c.value != 0.0 ==> r == c.value
  {
    if c.None? || c.value == 0.0 then DefaultConfidence else c.value
  }

  /** `{ type, originalTimestamp: timestamp }`, keeping only the keys whose value is present. */
  function SensorMetadata(kind: Option<string>, timestamp: Option<string>): map<string, string> {
    (if kind.Some? then map["type" := kind.value] else map[])
    + (if timestamp.Some? then map["originalTimestamp" := timestamp.value] else map[])
  }

  /** The event the sensor handler builds from a reading before validation. */
  function SensorDraftOf(kind: Option<string>, timestamp: Option<string>, data: SensorData): SensorEventDraft {
    SensorEventDraft(data.slotId, data.status, Some(EffectiveConfidence(data.confidence)),
                     Some(if data.status == Some(true) then VehicleDetected else VehicleDeparted),
                     None, Some(SensorMetadata(kind, timestamp)))
  }

  // ---------------------------------------------------------------------------
  // Status.

  const TotalSlots := 10

  datatype OccupancyDetail = OccupancyDetail(
    slotId: Option<int>, userName: string, userEmail: string, robotId: Option<RobotId>, checkInTime: int)

  datatype StatusReport = StatusReport(
    totalSlots: int, occupiedSlots: nat, availableSlots: int, occupancyDetails: seq<OccupancyDetail>)

  predicate IsActive(u: User) {
    u.status == Active
  }

  function DetailOf(u: User): OccupancyDetail {
    OccupancyDetail(u.slotId, u.name, u.email, u.robotId, u.checkInTime)
  }

  /** `occupancyDetails`: one entry per active user, in collection order. */
  function OccupancyDetails(users: seq<User>): (ds: seq<OccupancyDetail>)
    ensures |ds| == Count(users, IsActive)
  {
    var active := Filter(users, IsActive);
    seq(|active|, k requires 0 <= k < |active| => DetailOf(active[k]))
  }

  lemma OccupancyDetailsComplete(users: seq<User>)
    ensures forall i :: 0 <= i < |users| && IsActive(users[i]) ==> DetailOf(users[i]) in OccupancyDetails(users)
  {
    var active := Filter(users, IsActive);
    var details := OccupancyDetails(users);
    forall i | 0 <= i < |users| && IsActive(users[i]) ensures DetailOf(users[i]) in details {
      var k :| 0 <= k < |active| && active[k] == users[i];
      assert details[k] == DetailOf(users[i]);
    }
  }

  lemma OccupancyDetailsSound(users: seq<User>)
    ensures forall d :: d in OccupancyDetails(users) ==>
      exists i :: 0 <= i < |users| && IsActive(users[i]) && d == DetailOf(users[i])
  {
    var active := Filter(users, IsActive);
    var details := OccupancyDetails(users);
    forall d | d in details ensures exists i :: 0 <= i < |users| && IsActive(users[i]) && d == DetailOf(users[i]) {
      var k :| 0 <= k < |details| && details[k] == d;
      assert active[k] in active;
    }
  }

  /**
   * Each active user has exactly the slot and robot of its own detail, so
   * no two different details share a slot or a robot, and every detail has
   * both.
   */
  lemma DetailsDistinct(users: seq<User>, ds: seq<OccupancyDetail>)
    requires UsersValid(users)
    requires forall d :: d in ds ==> exists i :: 0 <= i < |users| && IsActive(users[i]) && d == DetailOf(users[i])
    ensures forall d :: d in ds ==> d.slotId.Some? && d.robotId.Some?
    ensures forall d1, d2 :: d1 in ds && d2 in ds && d1.slotId == d2.slotId ==> d1 == d2
    ensures forall d1, d2 :: d1 in ds && d2 in ds && d1.robotId == d2.robotId ==> d1 == d2
  {
    forall d1, d2 | d1 in ds && d2 in ds && (d1.slotId == d2.slotId || d1.robotId == d2.robotId) ensures d1 == d2 {
      var i1 :| 0 <= i1 < |users| && IsActive(users[i1]) && d1 == DetailOf(users[i1]);
      var i2 :| 0 <= i2 < |users| && IsActive(users[i2]) && d2 == DetailOf(users[i2]);
      if d1.slotId == d2.slotId {
        assert HoldsSlot(users[i1], d1.slotId.value) && HoldsSlot(users[i2], d1.slotId.value);
      } else {
        assert HoldsRobot(users[i1], d1.robotId.value) && HoldsRobot(users[i2], d1.robotId.value);
      }
    }
  }

  /**
   * With every active user holding a robot of its own, there are as many
   * active users as busy robots.
   */
  lemma {:induction false} ActiveCountIsBusyRobots(users: seq<User>)
    requires ActiveUsersPlaced(users) && ActiveRobotsDistinct(users)
    ensures Count(users, IsActive) == |BusyRobots(users)|
  {
    if users != [] {
      var init := users[..|users| - 1];
      var last := users[|users| - 1];
      assert forall i :: 0 <= i < |init| ==> init[i] == users[i];
      ActiveCountIsBusyRobots(init);
      if IsActive(last) {
        forall j | 0 <= j < |init| ensures !HoldsRobot(init[j], last.robotId.value) {
          assert init[j] == users[j];
        }
        assert last.robotId.value !in BusyRobots(init);
      }
    }
  }

  /** The robot fleet bounds the number of active users. */
  lemma ActiveWithinFleet(users: seq<User>)
    requires UsersValid(users)
    ensures Count(users, IsActive) <= |Robots|
  {
    ActiveCountIsBusyRobots(users);
    var all := {R1, R2, R3, R4, R5};
    assert BusyRobots(users) <= all by {
      forall r | r in BusyRobots(users) ensures r in all { assert Robots[RobotRank(r)] == r; }
    }
    SubsetCard(BusyRobots(users), all);
    FleetSize();
  }

  lemma FleetSize()
    ensures |{R1, R2, R3, R4, R5}| == |Robots|
  {
    assert |{R1}| == 1;
    assert |{R1, R2}| == 2;
    assert |{R1, R2, R3}| == 3;
    assert |{R1, R2, R3, R4}| == 4;
  }

  lemma SubsetCard<T>(a: set<T>, b: set<T>)
    requires a <= b
    ensures |a| <= |b|
  {
    assert b == a + (b - a);
  }

  // ---------------------------------------------------------------------------
  // Statistics.

  /** 24 hours in milliseconds. */
  const DayMs := 24 * 60 * 60 * 1000

  datatype StatsReport = StatsReport(
    totalUsers: nat, activeReservations: nat, completedSessions: nat, totalSensorEvents: nat,
    averageSessionDuration: int, recentCheckIns24h: nat)

  predicate IsCompleted(r: RM.Reservation) {
    r.status == RM.Completed
  }

  predicate HasDuration(r: RM.Reservation) {
    r.status == RM.Completed && r.duration.Some?
  }

  function Sum(xs: seq<int>): int {
    if xs == [] then 0 else Sum(xs[..|xs| - 1]) + xs[|xs| - 1]
  }

  /** The durations of completed reservations whose duration is set, in collection order. */
  function CompletedDurations(reservations: seq<RM.Reservation>): (ds: seq<int>)
    ensures |ds| == Count(reservations, HasDuration)
    ensures forall x :: x in ds <==> exists k :: 0 <= k < |reservations| && HasDuration(reservations[k]) && reservations[k].duration == Some(x)
  {
    var done := Filter(reservations, HasDuration);
    var ds := seq(|done|, k requires 0 <= k < |done| => done[k].duration.value);
    assert forall x :: x in ds ==> exists k :: 0 <= k < |reservations| && HasDuration(reservations[k]) && reservations[k].duration == Some(x) by {
      forall x | x in ds ensures exists k :: 0 <= k < |reservations| && HasDuration(reservations[k]) && reservations[k].duration == Some(x) {
        var j :| 0 <= j < |ds| && ds[j] == x;
        assert done[j] in done;
      }
    }
    assert forall k :: 0 <= k < |reservations| && HasDuration(reservations[k]) ==> reservations[k].duration.value in ds by {
      forall k | 0 <= k < |reservations| && HasDuration(reservations[k]) ensures reservations[k].duration.value in ds {
        var j :| 0 <= j < |done| && done[j] == reservations[k];
        assert ds[j] == reservations[k].duration.value;
      }
    }
    ds
  }

  /**
   * The durations are those of the matching reservations, one for each, in
   * collection order, so the list and with it the average are fixed.
   */
  lemma {:induction false} CompletedDurationsInOrder(reservations: seq<RM.Reservation>)
    ensures var ds, idx := CompletedDurations(reservations), Positions(reservations, HasDuration);
      |ds| == |idx| && forall k :: 0 <= k < |ds| ==> reservations[idx[k]].duration == Some(ds[k])
  {
    FilterAtPositions(reservations, HasDuration);
  }

  /**
   * `Math.round(sum / n)` for a non-empty list, 0 for an empty one: the
   * integer nearest to the mean, halves rounded up.
   */
  function RoundedMean(xs: seq<int>): (m: int)
    ensures xs == [] ==> m == 0
    ensures xs != [] ==> 2 * |xs| * m - |xs| <= 2 * Sum(xs) < 2 * |xs| * m + |xs|
  {
    if xs == [] then 0 else (2 * Sum(xs) + |xs|) / (2 * |xs|)
  }

  lemma {:induction false} SumBounds(xs: seq<int>, lo: int, hi: int)
    requires forall k :: 0 <= k < |xs| ==> lo <= xs[k] <= hi
    ensures |xs| * lo <= Sum(xs) <= |xs| * hi
  {
    if xs != [] {
      var n := |xs| - 1;
      SumBounds(xs[..n], lo, hi);
      assert |xs| * lo == n * lo + lo;
      assert |xs| * hi == n * hi + hi;
    }
  }

  /** The rounded mean lies between the least and the greatest term. */
  lemma MeanWithinBounds(xs: seq<int>, lo: int, hi: int)
    requires xs != [] && forall k :: 0 <= k < |xs| ==> lo <= xs[k] <= hi
    ensures lo <= RoundedMean(xs) <= hi
  {
    SumBounds(xs, lo, hi);
    NearestWithin(|xs|, Sum(xs), RoundedMean(xs), lo, hi);
  }

  /** An integer within half of s / n, for s between n * lo and n * hi, lies between lo and hi. */
  lemma NearestWithin(n: nat, s: int, m: int, lo: int, hi: int)
    requires n > 0 && 2 * n * m - n <= 2 * s < 2 * n * m + n
    requires n * lo <= s <= n * hi
    ensures lo <= m <= hi
  {
    assert 2 * n * m == 2 * (n * m);
    assert n * (hi + 1) == n * hi + n;
    assert n * (m + 1) == n * m + n;
    if m > hi {
      MulMono(n, hi + 1, m);
    }
    if m < lo {
      MulMono(n, m + 1, lo);
    }
  }

  lemma MulMono(c: nat, a: int, b: int)
    requires a <= b
    ensures c * a <= c * b
  {
  }

  // ---------------------------------------------------------------------------
  // The admin user list.

  /** A user record as the admin list shows it: with the short duration once it has a checkout time. */
  datatype AdminEntry = AdminEntry(user: User, sessionDuration: Option<string>)

  datatype AdminReport = AdminReport(users: seq<AdminEntry>, count: nat)

  function AdminEntryOf(u: User): AdminEntry {
    AdminEntry(u, if u.checkOutTime.Some? then Some(ShortDuration(u.checkOutTime.value - u.checkInTime)) else None)
  }

  /**
   * `GET /api/admin/users` over the records in the order the query returns
   * them: one entry per record, a duration exactly for the checked-out ones,
   * and the count of entries.
   */
  function AdminUsers(users: seq<User>): (report: AdminReport)
    ensures |report.users| == report.count == |users|
    ensures forall i :: 0 <= i < |users| ==>
      report.users[i].user == users[i] && (report.users[i].sessionDuration.Some? <==> users[i].checkOutTime.Some?)
  {
    var entries := seq(|users|, i requires 0 <= i < |users| => AdminEntryOf(users[i]));
    AdminReport(entries, |entries|)
  }

  /** Every duration the admin list shows reads back as the session's whole minutes. */
  lemma AdminDurationsReadBack(users: seq<User>)
    ensures forall i :: 0 <= i < |users| && users[i].checkOutTime.Some? ==>
      ParseShortDuration(AdminUsers(users).users[i].sessionDuration.value)
        == Some(WholeMinutes(users[i].checkOutTime.value - users[i].checkInTime))
  {
    forall i | 0 <= i < |users| && users[i].checkOutTime.Some?
      ensures ParseShortDuration(AdminUsers(users).users[i].sessionDuration.value)
        == Some(WholeMinutes(users[i].checkOutTime.value - users[i].checkInTime))
    {
      ShortDurationRoundTrip(users[i].checkOutTime.value - users[i].checkInTime);
    }
  }

  // ---------------------------------------------------------------------------
  // The store.

  /** Every reservation refers to one of the first `n` user records. */
  ghost predicate RefsWithin(reservations: seq<RM.Reservation>, n: nat) {
    forall k :: 0 <= k < |reservations| ==> reservations[k].userId < n
  }

  lemma RefsAppend(reservations: seq<RM.Reservation>, r: RM.Reservation, n: nat, m: nat)
    requires RefsWithin(reservations, n) && n <= m && r.userId < m
    ensures RefsWithin(reservations + [r], m)
  {
  }

  /** A storage write that fails, standing for a database error. */
  datatype Fault = NoFault | FailUserWrite | FailReservationWrite | FailEventWrite

  /** The user and reservation collections after a handler ran, and its reply. */
  datatype Outcome<R> = Outcome(users: seq<User>, reservations: seq<RM.Reservation>, reply: R)

  /** The schema checks the saved driver record must pass, on the handler's own inputs. */
  predicate Acceptable(name: string, email: string, slot: int) {
    && MinNameLength <= Utf16Length(Trim(name)) <= MaxNameLength
    && SchemaEmailPattern(NormalizeEmail(email))
    && MinSlotId <= slot <= MaxSlotId
  }

  /**
   * Check-in past its refusals: the user write (500 when the record fails
   * validation or the write fails), then the reservation write (500 when it
   * fails, with the user write left in place).
   */
  function Admission(users: seq<User>, reservations: seq<RM.Reservation>,
                     name: string, email: string, slot: int, now: int, fault: Fault): Outcome<CheckInResponse>
    requires forall i :: 0 <= i < |users| ==> Normalized(users[i])
    requires GetAvailableRobot(users).Some?
  {
    var robot := GetAvailableRobot(users).value;
    var p := PlaceDriver(users, name, email, slot, robot, now);
    if !SchemaValid(p.user) || fault == FailUserWrite then
      Outcome(users, reservations, CheckInRefused(500, CheckInFailedError))
    else if fault == FailReservationWrite then
      Outcome(p.users, reservations, CheckInRefused(500, CheckInFailedError))
    else
      Outcome(p.users, reservations + [OpenReservation(p.at, slot, robot, now)],
              CheckedIn(p.at, |reservations|, slot, robot, CheckInMessage(name, slot), true, now))
  }

  /** `POST /api/checkin`: the early refusals in their order, then the admission. */
  function CheckInOutcome(users: seq<User>, reservations: seq<RM.Reservation>,
                          userName: Option<string>, userEmail: Option<string>, slotId: Option<int>,
                          now: int, fault: Fault): Outcome<CheckInResponse>
    requires UsersValid(users)
  {
    match CheckInRefusal(users, userName, userEmail, slotId)
    case Some(why) => Outcome(users, reservations, RefusalResponse(why, slotId.GetOr(0)))
    case None => Admission(users, reservations, userName.value, userEmail.value, slotId.value, now, fault)
  }

  lemma PlacedSchemaValid(users: seq<User>, name: string, email: string, slot: int, robot: RobotId, now: int)
    requires forall i :: 0 <= i < |users| ==> Normalized(users[i])
    ensures SchemaValid(PlaceDriver(users, name, email, slot, robot, now).user) <==> Acceptable(name, email, slot)
  {
  }

  /** The admission's two writes, each either landing or leaving its collection alone. */
  lemma AdmissionWrites(users: seq<User>, reservations: seq<RM.Reservation>,
                        name: string, email: string, slot: int, robot: RobotId, now: int, fault: Fault)
    requires forall i :: 0 <= i < |users| ==> Normalized(users[i])
    requires GetAvailableRobot(users) == Some(robot)
    ensures var p := PlaceDriver(users, name, email, slot, robot, now);
      var o := Admission(users, reservations, name, email, slot, now, fault);
      var userWritten := SchemaValid(p.user) && fault != FailUserWrite;
      && o.users == (if userWritten then p.users else users)
      && o.reservations == (if userWritten && fault != FailReservationWrite
                            then reservations + [OpenReservation(p.at, slot, robot, now)] else reservations)
      && (o.reply.CheckedIn? <==> userWritten && fault != FailReservationWrite)
      && (o.reply.CheckedIn? ==> o.reply.userId == p.at && o.reply.slotId == slot && o.reply.robotId == robot)
  {
  }

  /** The admission keeps the user invariants, and every reservation refers to a stored user. */
  lemma AdmissionKeepsValid(users: seq<User>, reservations: seq<RM.Reservation>,
                            name: string, email: string, slot: int, now: int, fault: Fault)
    requires UsersValid(users) && RefsWithin(reservations, |users|)
    requires IsSlotAvailable(users, slot) && GetAvailableRobot(users).Some?
    ensures var o := Admission(users, reservations, name, email, slot, now, fault);
      UsersValid(o.users) && RefsWithin(o.reservations, |o.users|)
  {
    var robot := GetAvailableRobot(users).value;
    var p := PlaceDriver(users, name, email, slot, robot, now);
    AdmissionWrites(users, reservations, name, email, slot, robot, now, fault);
    if SchemaValid(p.user) && fault != FailUserWrite {
      PlacementClaimsSlotAndRobot(users, name, email, slot, robot, now);
      RefsAppend(reservations, OpenReservation(p.at, slot, robot, now), |users|, |p.users|);
    }
  }

  /**
   * After a successful admission the robot was idle beforehand, and
   * afterwards exactly one active user holds the slot and exactly one the
   * robot: the driver just admitted.
   */
  lemma AdmissionClaims(users: seq<User>, reservations: seq<RM.Reservation>,
                        name: string, email: string, slot: int, now: int, fault: Fault)
    requires UsersValid(users) && IsSlotAvailable(users, slot) && GetAvailableRobot(users).Some?
    ensures var o := Admission(users, reservations, name, email, slot, now, fault);
      o.reply.CheckedIn? ==>
        && o.reply.slotId == slot && !RobotBusy(users, o.reply.robotId)
        && (forall i :: 0 <= i < |o.users| ==> (HoldsSlot(o.users[i], o.reply.slotId) <==> i == o.reply.userId))
        && (forall i :: 0 <= i < |o.users| ==> (HoldsRobot(o.users[i], o.reply.robotId) <==> i == o.reply.userId))
  {
    var robot := GetAvailableRobot(users).value;
    var p := PlaceDriver(users, name, email, slot, robot, now);
    AdmissionWrites(users, reservations, name, email, slot, robot, now, fault);
    if SchemaValid(p.user) && fault != FailUserWrite {
      PlacementClaimsSlotAndRobot(users, name, email, slot, robot, now);
    }
  }

  /**
   * Unless the reservation write fails, the admission of a driver who is not
   * active keeps the mirror; when the user write lands and the reservation
   * write fails, the mirror is broken.
   */
  lemma AdmissionMirror(users: seq<User>, reservations: seq<RM.Reservation>,
                        name: string, email: string, slot: int, now: int, fault: Fault)
    requires UsersValid(users) && Mirrored(users, reservations)
    requires GetAvailableRobot(users).Some? && !DriverActive(users, NormalizeEmail(email))
    ensures var o := Admission(users, reservations, name, email, slot, now, fault);
      && (fault != FailReservationWrite ==> Mirrored(o.users, o.reservations))
      && (fault == FailReservationWrite && Acceptable(name, email, slot) ==> !Mirrored(o.users, o.reservations))
  {
    var robot := GetAvailableRobot(users).value;
    AdmissionWrites(users, reservations, name, email, slot, robot, now, fault);
    PlacedSchemaValid(users, name, email, slot, robot, now);
    if fault != FailReservationWrite {
      CheckInKeepsMirror(users, reservations, name, email, slot, robot, now);
    } else {
      HalfCheckInBreaksMirror(users, reservations, name, email, slot, robot, now);
    }
  }

  /** Check-in keeps the user invariants, and every reservation refers to a stored user. */
  lemma CheckInKeepsValid(users: seq<User>, reservations: seq<RM.Reservation>,
                          userName: Option<string>, userEmail: Option<string>, slotId: Option<int>,
                          now: int, fault: Fault)
    requires UsersValid(users) && RefsWithin(reservations, |users|)
    ensures var o := CheckInOutcome(users, reservations, userName, userEmail, slotId, now, fault);
      UsersValid(o.users) && RefsWithin(o.reservations, |o.users|)
  {
    if CheckInRefusal(users, userName, userEmail, slotId).None? {
      PassedRefusals(users, userName, userEmail, slotId);
      AdmissionKeepsValid(users, reservations, userName.value, userEmail.value, slotId.value, now, fault);
    }
  }

  /**
   * The refusals write nothing; the only failure that leaves a write behind
   * is the reservation write's, after the user write landed.
   */
  lemma CheckInRefusalsWriteNothing(users: seq<User>, reservations: seq<RM.Reservation>,
                                    userName: Option<string>, userEmail: Option<string>, slotId: Option<int>,
                                    now: int, fault: Fault)
    requires UsersValid(users)
    ensures var o := CheckInOutcome(users, reservations, userName, userEmail, slotId, now, fault);
      && (CheckInRefusal(users, userName, userEmail, slotId).Some? ==>
            o.users == users && o.reservations == reservations && o.reply.StatusCode() in {400, 409, 503})
      && (o.reply.CheckInRefused? && fault != FailReservationWrite ==>
            o.users == users && o.reservations == reservations)
      && (o.reply.CheckInRefused? ==> o.reservations == reservations)
  {
  }

  /**
   * `after` holds the driver at `at`: the record with the driver's email
   * overwritten in place, or a new record appended when there was none,
   * active on the slot with the robot, checked in now and not checked out;
   * every other record is kept.
   */
  ghost predicate PlacedAs(before: seq<User>, after: seq<User>, at: nat,
                           name: string, email: string, slot: int, robot: RobotId, now: int)
  {
    && SameExcept(before, after, at)
    && (at < |before| <==> exists i :: 0 <= i < |before| && before[i].email == NormalizeEmail(email))
    && after[at].name == Trim(name) && after[at].email == NormalizeEmail(email)
    && HoldsSlot(after[at], slot) && HoldsRobot(after[at], robot)
    && after[at].checkInTime == now && after[at].checkOutTime.None?
  }

  lemma PlaceDriverPlaces(users: seq<User>, name: string, email: string, slot: int, robot: RobotId, now: int)
    requires forall i :: 0 <= i < |users| ==> Normalized(users[i])
    ensures var p := PlaceDriver(users, name, email, slot, robot, now);
      PlacedAs(users, p.users, p.at, name, email, slot, robot, now)
  {
    var p := PlaceDriver(users, name, email, slot, robot, now);
    assert SameExcept(users, p.users, p.at);
    assert p.users[p.at] == p.user;
  }

  /**
   * What a successful check-in wrote and replied: the driver placed on the
   * slot with the robot, one open reservation for it appended, and a 201
   * reply authorising the dispatch.
   */
  ghost predicate CheckedInAs(users: seq<User>, reservations: seq<RM.Reservation>, o: Outcome<CheckInResponse>,
                              name: string, email: string, slot: int, robot: RobotId, now: int)
  {
    && o.reply.CheckedIn?
    && o.reply == CheckedIn(o.reply.userId, |reservations|, slot, robot, CheckInMessage(name, slot), true, now)
    && PlacedAs(users, o.users, o.reply.userId, name, email, slot, robot, now)
    && o.reservations == reservations + [OpenReservation(o.reply.userId, slot, robot, now)]
  }

  lemma AdmissionRecords(users: seq<User>, reservations: seq<RM.Reservation>,
                         name: string, email: string, slot: int, now: int, fault: Fault)
    requires forall i :: 0 <= i < |users| ==> Normalized(users[i])
    requires GetAvailableRobot(users).Some?
    ensures var o := Admission(users, reservations, name, email, slot, now, fault);
      o.reply.CheckedIn? ==> CheckedInAs(users, reservations, o, name, email, slot, GetAvailableRobot(users).value, now)
  {
    var robot := GetAvailableRobot(users).value;
    PlaceDriverPlaces(users, name, email, slot, robot, now);
    AdmissionWrites(users, reservations, name, email, slot, robot, now, fault);
  }

  /**
   * Check-in succeeds exactly when no refusal applies, the driver record
   * passes the schema and both writes land.
   */
  lemma CheckInSucceeds(users: seq<User>, reservations: seq<RM.Reservation>,
                        userName: Option<string>, userEmail: Option<string>, slotId: Option<int>,
                        now: int, fault: Fault)
    requires UsersValid(users)
    ensures var o := CheckInOutcome(users, reservations, userName, userEmail, slotId, now, fault);
      o.reply.CheckedIn? <==>
        && CheckInRefusal(users, userName, userEmail, slotId).None?
        && Acceptable(userName.value, userEmail.value, slotId.value)
        && fault != FailUserWrite && fault != FailReservationWrite
  {
    if CheckInRefusal(users, userName, userEmail, slotId).None? {
      PassedRefusals(users, userName, userEmail, slotId);
      var robot := GetAvailableRobot(users).value;
      PlacedSchemaValid(users, userName.value, userEmail.value, slotId.value, robot, now);
      AdmissionWrites(users, reservations, userName.value, userEmail.value, slotId.value, robot, now, fault);
    }
  }

  /**
   * A successful check-in placed the driver on the requested slot with the
   * first free robot and appended its open reservation.
   */
  lemma CheckInRecords(users: seq<User>, reservations: seq<RM.Reservation>,
                       userName: Option<string>, userEmail: Option<string>, slotId: Option<int>,
                       now: int, fault: Fault)
    requires UsersValid(users)
    ensures var o := CheckInOutcome(users, reservations, userName, userEmail, slotId, now, fault);
      o.reply.CheckedIn? ==>
        && userName.Some? && userEmail.Some? && slotId.Some? && GetAvailableRobot(users).Some?
        && CheckedInAs(users, reservations, o, userName.value, userEmail.value, slotId.value,
                       GetAvailableRobot(users).value, now)
  {
    if CheckInRefusal(users, userName, userEmail, slotId).None? {
      PassedRefusals(users, userName, userEmail, slotId);
      AdmissionRecords(users, reservations, userName.value, userEmail.value, slotId.value, now, fault);
    }
  }

  /**
   * After a successful check-in the slot was free and the robot idle
   * beforehand, and afterwards exactly one active user holds the slot and
   * exactly one the robot: the driver just checked in.
   */
  lemma CheckInClaimsSlotAndRobot(users: seq<User>, reservations: seq<RM.Reservation>,
                                  userName: Option<string>, userEmail: Option<string>, slotId: Option<int>,
                                  now: int, fault: Fault)
    requires UsersValid(users)
    ensures var o := CheckInOutcome(users, reservations, userName, userEmail, slotId, now, fault);
      o.reply.CheckedIn? ==>
        && IsSlotAvailable(users, o.reply.slotId) && !RobotBusy(users, o.reply.robotId)
        && (forall i :: 0 <= i < |o.users| ==> (HoldsSlot(o.users[i], o.reply.slotId) <==> i == o.reply.userId))
        && (forall i :: 0 <= i < |o.users| ==> (HoldsRobot(o.users[i], o.reply.robotId) <==> i == o.reply.userId))
  {
    if CheckInRefusal(users, userName, userEmail, slotId).None? {
      PassedRefusals(users, userName, userEmail, slotId);
      AdmissionClaims(users, reservations, userName.value, userEmail.value, slotId.value, now, fault);
    }
  }

  /**
   * Unless the reservation write fails, check-in keeps the reservations
   * mirroring the users; when it does fail after the user write of an
   * admissible driver, the mirror is broken.
   */
  lemma CheckInMirror(users: seq<User>, reservations: seq<RM.Reservation>,
                      userName: Option<string>, userEmail: Option<string>, slotId: Option<int>,
                      now: int, fault: Fault)
    requires UsersValid(users) && Mirrored(users, reservations)
    ensures var o := CheckInOutcome(users, reservations, userName, userEmail, slotId, now, fault);
      && (fault != FailReservationWrite ==> Mirrored(o.users, o.reservations))
      && ((fault == FailReservationWrite && CheckInRefusal(users, userName, userEmail, slotId).None? &&
           Acceptable(userName.value, userEmail.value, slotId.value)) ==> !Mirrored(o.users, o.reservations))
  {
    if CheckInRefusal(users, userName, userEmail, slotId).None? {
      PassedRefusals(users, userName, userEmail, slotId);
      AdmissionMirror(users, reservations, userName.value, userEmail.value, slotId.value, now, fault);
    }
  }

  /**
   * Checkout past its refusals, for the active user `i` on the slot: the
   * user completed (500 when the write fails), then the first open
   * reservation on the slot closed with the session's whole minutes (500
   * when that write fails, with the user write left in place).
   */
  function Departure(users: seq<User>, reservations: seq<RM.Reservation>, i: nat, slot: int,
                     now: int, fault: Fault): Outcome<CheckOutResponse>
    requires i < |users|
  {
    var minutes := WholeMinutes(now - users[i].checkInTime);
    var done := CompletedUser(users[i], now);
    if fault == FailUserWrite then Outcome(users, reservations, CheckOutRefused(500, CheckOutFailedError))
    else if fault == FailReservationWrite then
      Outcome(users[i := done], reservations, CheckOutRefused(500, CheckOutFailedError))
    else
      Outcome(users[i := done], CloseReservation(reservations, slot, now, minutes),
              CheckedOut(slot, done.name, SessionDuration(done), CheckOutMessage, ReturnDock, now))
  }

  /** `POST /api/checkout`: 400 without a slot, 404 when no active user holds it, else the departure. */
  function CheckOutOutcome(users: seq<User>, reservations: seq<RM.Reservation>, slotId: Option<int>,
                           now: int, fault: Fault): Outcome<CheckOutResponse>
  {
    if slotId.None? then Outcome(users, reservations, CheckOutRefused(400, MissingSlotError))
    else match FindActiveUser(users, slotId.value)
      case None => Outcome(users, reservations, CheckOutRefused(404, NoActiveReservationError(slotId.value)))
      case Some(i) => Departure(users, reservations, i, slotId.value, now, fault)
  }

  /** The departure's two writes, each either landing or leaving its collection alone. */
  lemma DepartureWrites(users: seq<User>, reservations: seq<RM.Reservation>, i: nat, slot: int, now: int, fault: Fault)
    requires i < |users|
    ensures var o := Departure(users, reservations, i, slot, now, fault);
      && o.users == (if fault == FailUserWrite then users else users[i := CompletedUser(users[i], now)])
      && o.reservations == (if fault == FailUserWrite || fault == FailReservationWrite then reservations
                            else CloseReservation(reservations, slot, now, WholeMinutes(now - users[i].checkInTime)))
      && (o.reply.CheckedOut? <==> fault != FailUserWrite && fault != FailReservationWrite)
      && (o.reply.CheckedOut? ==>
            o.reply == CheckedOut(slot, users[i].name, SessionDuration(CompletedUser(users[i], now)),
                                  CheckOutMessage, ReturnDock, now))
  {
  }

  lemma CloseKeepsRefs(reservations: seq<RM.Reservation>, slot: int, now: int, minutes: int, n: nat)
    requires RefsWithin(reservations, n)
    ensures RefsWithin(CloseReservation(reservations, slot, now, minutes), n)
  {
    var closed := CloseReservation(reservations, slot, now, minutes);
    CloseReservationSpec(reservations, slot, now, minutes);
    forall k | 0 <= k < |closed| ensures closed[k].userId < n {
      assert closed[k].userId == reservations[k].userId;
    }
  }

  /** The departure keeps the user invariants, and every reservation refers to a stored user. */
  lemma DepartureKeepsValid(users: seq<User>, reservations: seq<RM.Reservation>, i: nat, slot: int, now: int, fault: Fault)
    requires UsersValid(users) && RefsWithin(reservations, |users|) && i < |users|
    ensures var o := Departure(users, reservations, i, slot, now, fault);
      UsersValid(o.users) && RefsWithin(o.reservations, |o.users|)
  {
    DepartureWrites(users, reservations, i, slot, now, fault);
    CompletionKeepsUsersValid(users, i, now);
    CloseKeepsRefs(reservations, slot, now, WholeMinutes(now - users[i].checkInTime), |users|);
  }

  /** Checkout keeps the user invariants, and every reservation refers to a stored user. */
  lemma CheckOutKeepsValid(users: seq<User>, reservations: seq<RM.Reservation>, slotId: Option<int>, now: int, fault: Fault)
    requires UsersValid(users) && RefsWithin(reservations, |users|)
    ensures var o := CheckOutOutcome(users, reservations, slotId, now, fault);
      UsersValid(o.users) && RefsWithin(o.reservations, |o.users|)
  {
    if slotId.Some? && FindActiveUser(users, slotId.value).Some? {
      DepartureKeepsValid(users, reservations, FindActiveUser(users, slotId.value).value, slotId.value, now, fault);
    }
  }

  /**
   * The checkout refusals: 400 exactly when the slot is missing, 404 exactly
   * when no active user holds it, neither writing anything; a failed user
   * write leaves nothing either.
   */
  lemma CheckOutRefusals(users: seq<User>, reservations: seq<RM.Reservation>, slotId: Option<int>, now: int, fault: Fault)
    ensures var o := CheckOutOutcome(users, reservations, slotId, now, fault);
      && (o.reply == CheckOutRefused(400, MissingSlotError) <==> slotId.None?)
      && (o.reply.CheckOutRefused? && o.reply.code == 404 <==> slotId.Some? && IsSlotAvailable(users, slotId.value))
      && (o.reply.CheckOutRefused? && fault != FailReservationWrite ==> o.users == users && o.reservations == reservations)
      && (o.reply.CheckOutRefused? ==> o.reservations == reservations)
  {
    if slotId.Some? && FindActiveUser(users, slotId.value).Some? {
      DepartureWrites(users, reservations, FindActiveUser(users, slotId.value).value, slotId.value, now, fault);
    }
  }

  /**
   * `after` is `before` with user `i` completed at `now`: every other user
   * kept, the slot free and `i`'s robot idle.
   */
  ghost predicate Released(before: seq<User>, after: seq<User>, i: nat, slot: int, now: int) {
    && i < |before| == |after|
    && (forall j :: 0 <= j < |before| && j != i ==> after[j] == before[j])
    && after[i].status == Completed && after[i].checkOutTime == Some(now)
    && IsSlotAvailable(after, slot)
    && before[i].robotId.Some? && !RobotBusy(after, before[i].robotId.value)
  }

  /**
   * Completing the active user `i` on a slot frees the slot and `i`'s robot
   * and keeps every other user.
   */
  lemma CompletionReleases(users: seq<User>, i: nat, slot: int, now: int)
    requires UsersValid(users) && i < |users| && HoldsSlot(users[i], slot)
    ensures Released(users, users[i := CompletedUser(users[i], now)], i, slot, now)
  {
    var after := users[i := CompletedUser(users[i], now)];
    forall j | 0 <= j < |after| ensures !HoldsSlot(after[j], slot) && !HoldsRobot(after[j], users[i].robotId.value) {
      if j != i {
        assert after[j] == users[j];
      }
    }
  }

  lemma DepartureReleases(users: seq<User>, reservations: seq<RM.Reservation>, i: nat, slot: int, now: int, fault: Fault)
    requires UsersValid(users) && i < |users| && HoldsSlot(users[i], slot)
    ensures var o := Departure(users, reservations, i, slot, now, fault);
      o.reply.CheckedOut? ==>
        && fault != FailUserWrite && fault != FailReservationWrite
        && Released(users, o.users, i, slot, now)
        && o.reply == CheckedOut(slot, users[i].name, SessionDuration(o.users[i]), CheckOutMessage, ReturnDock, now)
  {
    var o := Departure(users, reservations, i, slot, now, fault);
    DepartureWrites(users, reservations, i, slot, now, fault);
    if o.reply.CheckedOut? {
      CompletionReleases(users, i, slot, now);
    }
  }

  /**
   * A successful checkout completes the one active user on the slot at
   * `now`, frees the slot and that user's robot, keeps every other user, and
   * replies with the user's name, the session's duration and the return dock.
   */
  lemma CheckOutReleases(users: seq<User>, reservations: seq<RM.Reservation>, slotId: Option<int>, now: int, fault: Fault)
    requires UsersValid(users)
    ensures var o := CheckOutOutcome(users, reservations, slotId, now, fault);
      o.reply.CheckedOut? ==>
        && slotId.Some? && FindActiveUser(users, slotId.value).Some?
        && fault != FailUserWrite && fault != FailReservationWrite
        && var i := FindActiveUser(users, slotId.value).value;
        && Released(users, o.users, i, slotId.value, now)
        && o.reply == CheckedOut(slotId.value, users[i].name, SessionDuration(o.users[i]), CheckOutMessage, ReturnDock, now)
  {
    if slotId.Some? && FindActiveUser(users, slotId.value).Some? {
      DepartureReleases(users, reservations, FindActiveUser(users, slotId.value).value, slotId.value, now, fault);
    }
  }

  lemma DepartureMirror(users: seq<User>, reservations: seq<RM.Reservation>, i: nat, slot: int, now: int, fault: Fault)
    requires UsersValid(users) && Mirrored(users, reservations)
    requires i < |users| && HoldsSlot(users[i], slot)
    ensures var o := Departure(users, reservations, i, slot, now, fault);
      && (fault != FailReservationWrite ==> Mirrored(o.users, o.reservations))
      && (o.reply.CheckedOut? ==>
            && (forall k :: 0 <= k < |o.reservations| && o.reservations[k] != reservations[k] ==> OpenFor(reservations[k], i))
            && (forall k :: 0 <= k < |o.reservations| ==> !OpenFor(o.reservations[k], i)))
  {
    DepartureWrites(users, reservations, i, slot, now, fault);
    if fault != FailUserWrite {
      CheckOutKeepsMirror(users, reservations, i, slot, now);
    }
  }

  /**
   * Unless the reservation write fails, checkout keeps the reservations
   * mirroring the users, changing only the departing user's reservation and
   * leaving that user none open.
   */
  lemma CheckOutMirror(users: seq<User>, reservations: seq<RM.Reservation>, slotId: Option<int>, now: int, fault: Fault)
    requires UsersValid(users) && Mirrored(users, reservations)
    ensures var o := CheckOutOutcome(users, reservations, slotId, now, fault);
      && (fault != FailReservationWrite ==> Mirrored(o.users, o.reservations))
      && (o.reply.CheckedOut? ==>
            var i := FindActiveUser(users, o.reply.slotId).value;
            && (forall k :: 0 <= k < |o.reservations| && o.reservations[k] != reservations[k] ==> OpenFor(reservations[k], i))
            && (forall k :: 0 <= k < |o.reservations| ==> !OpenFor(o.reservations[k], i)))
  {
    if slotId.Some? && FindActiveUser(users, slotId.value).Some? {
      DepartureMirror(users, reservations, FindActiveUser(users, slotId.value).value, slotId.value, now, fault);
    }
  }

  /** The three collections, with users and reservations identified by position. */
  class ParkingStore {
    var users: seq<User>
    var reservations: seq<RM.Reservation>
    var events: seq<SensorEvent>

    ghost predicate Valid()
      reads this
    {
      && UsersValid(users)
      && RefsWithin(reservations, |users|)
      && (forall k :: 0 <= k < |events| ==> SensorEventWellFormed(events[k]))
    }

    constructor ()
      ensures Valid() && Mirrored(users, reservations)
      ensures users == [] && reservations == [] && events == []
    {
      users, reservations, events := [], [], [];
    }

    /**
     * `POST /api/checkin`: the early refusals in their order, each writing
     * nothing; past them, the user write and then the reservation write, as
     * `CheckInOutcome` lays them out.
     */
    method CheckIn(userName: Option<string>, userEmail: Option<string>, slotId: Option<int>, now: int, fault: Fault)
      returns (resp: CheckInResponse)
      requires Valid()
      modifies this
      ensures Valid() && events == old(events)
      ensures Outcome(users, reservations, resp) ==
        CheckInOutcome(old(users), old(reservations), userName, userEmail, slotId, now, fault)
    {
      CheckInKeepsValid(users, reservations, userName, userEmail, slotId, now, fault);
      var o := CheckInOutcome(users, reservations, userName, userEmail, slotId, now, fault);
      users := o.users;
      reservations := o.reservations;
      resp := o.reply;
    }

    /**
     * `POST /api/checkout`: 400 without a slot, 404 when no active user holds
     * it, each writing nothing; past them, the user write and then the
     * reservation update.
     */
    method CheckOut(slotId: Option<int>, now: int, fault: Fault) returns (resp: CheckOutResponse)
      requires Valid()
      modifies this
      ensures Valid() && events == old(events)
      ensures Outcome(users, reservations, resp) == CheckOutOutcome(old(users), old(reservations), slotId, now, fault)
    {
      if slotId.None? {
        return CheckOutRefused(400, MissingSlotError);
      }
      var found := FindActiveUser(users, slotId.value);
      if found.None? {
        return CheckOutRefused(404, NoActiveReservationError(slotId.value));
      }
      DepartureKeepsValid(users, reservations, found.value, slotId.value, now, fault);
      var o := Departure(users, reservations, found.value, slotId.value, now, fault);
      users := o.users;
      reservations := o.reservations;
      resp := o.reply;
    }

    /**
     * `POST /api/sensor`: the reading is logged as one more event when it
     * has a slot, a status and a confidence within range; otherwise, or when
     * the write fails, nothing is stored.
     */
    method RecordSensor(kind: Option<string>, timestamp: Option<string>, data: Option<SensorData>, fault: Fault)
      returns (resp: SensorResponse)
      requires Valid()
      modifies this
      ensures Valid() && users == old(users) && reservations == old(reservations)
      ensures resp.Received? <==>
        && data.Some? && data.value.slotId.Some? && data.value.status.Some?
        && ConfidenceInRange(EffectiveConfidence(data.value.confidence)) && fault != FailEventWrite
      ensures !resp.Received? ==> resp == SensorRefused(500, SensorFailedError) && events == old(events)
      ensures resp.Received? ==>
        && resp.eventId == |old(events)| && |events| == |old(events)| + 1 && events[..|old(events)|] == old(events)
        && events[resp.eventId].slotId == data.value.slotId.value
        && events[resp.eventId].status == data.value.status.value
        && (events[resp.eventId].eventType == VehicleDetected <==> data.value.status == Some(true))
        && (events[resp.eventId].eventType == VehicleDeparted <==> data.value.status == Some(false))
        && events[resp.eventId].confidence == EffectiveConfidence(data.value.confidence)
        && events[resp.eventId].robotId.None?
        && events[resp.eventId].metadata == SensorMetadata(kind, timestamp)
    {
      if data.None? {
        return SensorRefused(500, SensorFailedError);
      }
      var saved := SaveSensorEvent(SensorDraftOf(kind, timestamp, data.value));
      if saved.None? || fault == FailEventWrite {
        return SensorRefused(500, SensorFailedError);
      }
      events := events + [saved.value];
      resp := Received(|events| - 1);
    }

    /**
     * `GET /api/status`: one detail per active user, occupancy counted from
     * the users, the rest of the ten slots available.
     */
    function Status(): (s: StatusReport)
      reads this
      ensures s.totalSlots == TotalSlots
      ensures s.occupiedSlots == |s.occupancyDetails| == Count(users, IsActive)
      ensures s.availableSlots == TotalSlots - s.occupiedSlots
      ensures forall i :: 0 <= i < |users| && IsActive(users[i]) ==> DetailOf(users[i]) in s.occupancyDetails
      ensures forall d :: d in s.occupancyDetails ==>
        exists i :: 0 <= i < |users| && IsActive(users[i]) && d == DetailOf(users[i])
    {
      OccupancyDetailsComplete(users);
      OccupancyDetailsSound(users);
      var details := OccupancyDetails(users);
      StatusReport(TotalSlots, |details|, TotalSlots - |details|, details)
    }

    /**
     * In a valid store at most five slots are occupied, whatever the slot
     * count, and the details name distinct slots and distinct robots.
     */
    lemma StatusWithinFleet()
      requires Valid()
      ensures Status().occupiedSlots <= |Robots| && Status().availableSlots >= TotalSlots - |Robots|
      ensures forall d1, d2 :: d1 in Status().occupancyDetails && d2 in Status().occupancyDetails && d1.slotId == d2.slotId ==> d1 == d2
      ensures forall d1, d2 :: d1 in Status().occupancyDetails && d2 in Status().occupancyDetails && d1.robotId == d2.robotId ==> d1 == d2
    {
      ActiveWithinFleet(users);
      DetailsDistinct(users, Status().occupancyDetails);
    }

    /**
     * `GET /api/stats`: counts over the three collections, the rounded mean
     * duration of completed reservations with a duration, and the users
     * checked in during the last 24 hours before `now`.
     */
    function Stats(now: int): (st: StatsReport)
      reads this
      ensures st.totalUsers == |users| && st.totalSensorEvents == |events|
      ensures st.activeReservations == Status().occupiedSlots
      ensures st.completedSessions == |Matching(reservations, IsCompleted)|
      ensures st.recentCheckIns24h == |Matching(users, (u: User) => u.checkInTime >= now - DayMs)|
      ensures Count(reservations, HasDuration) == 0 ==> st.averageSessionDuration == 0
      ensures st.averageSessionDuration == RoundedMean(CompletedDurations(reservations))
    {
      StatsReport(|users|, Count(users, IsActive), Count(reservations, IsCompleted), |events|,
                  RoundedMean(CompletedDurations(reservations)), Count(users, (u: User) => u.checkInTime >= now - DayMs))
    }

    /**
     * The reported average lies between the shortest and the longest
     * recorded duration of a completed reservation.
     */
    lemma AverageWithinDurations(now: int, lo: int, hi: int)
      requires exists k :: 0 <= k < |reservations| && HasDuration(reservations[k])
      requires forall k :: 0 <= k < |reservations| && HasDuration(reservations[k]) ==> lo <= reservations[k].duration.value <= hi
      ensures lo <= Stats(now).averageSessionDuration <= hi
    {
      var ds := CompletedDurations(reservations);
      var k :| 0 <= k < |reservations| && HasDuration(reservations[k]);
      assert reservations[k].duration.value in ds;
      forall j | 0 <= j < |ds| ensures lo <= ds[j] <= hi {
        assert ds[j] in ds;
      }
      MeanWithinBounds(ds, lo, hi);
    }
  }
}
