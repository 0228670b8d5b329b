/**
 * The user (driver) record: its schema constraints, the `sessionDuration`
 * virtual, and the two lookups the check-in handler makes over the user
 * collection, slot availability and robot assignment. Occupancy of a slot and
 * the robots in use are both read off the user records whose status is
 * active.
 */
module UserModel {
  import opened Wrappers
  import opened Text
  import opened Duration
  import opened Collections

  datatype UserStatus = Active | Completed | Cancelled

  /** The fixed pool of robot ids; `null` is `None` of an `Option<RobotId>`. */
  datatype RobotId = R1 | R2 | R3 | R4 | R5

  const Robots: seq<RobotId> := [R1, R2, R3, R4, R5]

  /** The position of a robot id in the pool, which is also assignment order. */
  function RobotRank(r: RobotId): (k: nat)
    ensures k < |Robots| && Robots[k] == r
    ensures forall j :: 0 <= j < |Robots| && Robots[j] == r ==> j == k
  {
    match r
    case R1 => 0
    case R2 => 1
    case R3 => 2
    case R4 => 3
    case R5 => 4
  }

  datatype VehicleInfo = VehicleInfo(
    licensePlate: Option<string>, make: Option<string>, model: Option<string>, color: Option<string>)

  const NoVehicle := VehicleInfo(None, None, None, None)

  datatype User = User(
    name: string,
    email: string,
    slotId: Option<int>,
    robotId: Option<RobotId>,
    status: UserStatus,
    checkInTime: int,
    checkOutTime: Option<int>,
    vehicleInfo: VehicleInfo)

  const MinNameLength := 2
  const MaxNameLength := 50
  const MinSlotId := 0
  const MaxSlotId := 99

  /**
   * `^\S+@\S+\.\S+$`, stated directly: no white space, an '@' with something
   * before it, and a '.' after the '@' with at least one character on either
   * side of the dot.
   */
  ghost predicate EmailPatternSpec(s: string) {
    && NoSpace(s)
    && exists i, j | 0 < i < |s| && 0 < j < |s| ::
         i + 1 < j < |s| - 1 && s[i] == '@' && s[j] == '.'
  }

  /** Some '@' at index `i` or later has a '.' at least two places after it and before the last character. */
  predicate AtThenDot(s: string, i: nat)
    decreases |s| - i
  {
    i < |s| && ((s[i] == '@' && i + 2 <= |s| - 1 && '.' in s[i + 2..|s| - 1]) || AtThenDot(s, i + 1))
  }

  /** The address pattern as the schema's validator scans it. */
  predicate SchemaEmailPattern(s: string) {
    NoSpace(s) && AtThenDot(s, 1)
  }

  lemma {:induction false} AtThenDotMeaning(s: string, i: nat)
    ensures AtThenDot(s, i) <==> exists a, j | i <= a < |s| && 0 < j < |s| :: a + 1 < j < |s| - 1 && s[a] == '@' && s[j] == '.'
    decreases |s| - i
  {
    if i < |s| {
      AtThenDotMeaning(s, i + 1);
      if s[i] == '@' && i + 2 <= |s| - 1 && '.' in s[i + 2..|s| - 1] {
        var t := s[i + 2..|s| - 1];
        var k :| 0 <= k < |t| && t[k] == '.';
        assert s[i + 2 + k] == '.';
      }
      if exists a, j | i <= a < |s| && 0 < j < |s| :: a + 1 < j < |s| - 1 && s[a] == '@' && s[j] == '.' {
        var a, j :| i <= a < |s| && 0 < j < |s| && a + 1 < j < |s| - 1 && s[a] == '@' && s[j] == '.';
        if a == i {
          assert s[i + 2..|s| - 1][j - i - 2] == '.';
        }
      }
    }
  }

  /** The scan accepts exactly the addresses the pattern describes. */
  lemma SchemaEmailPatternMeaning(s: string)
    ensures SchemaEmailPattern(s) <==> EmailPatternSpec(s)
  {
    AtThenDotMeaning(s, 1);
  }

  /**
   * What the schema's setters guarantee of a stored record: a name with no
   * white space at either end, an address with none either and no capital.
   */
  predicate Normalized(u: User) {
    Trimmed(u.name) && NormalEmail(u.email)
  }

  /**
   * The schema's validators, run by `save()` on a record whose setters have
   * run: name of 2 to 50 UTF-16 code units (an empty name is also "required"),
   * email matching the address pattern, slot null or within 0..99. Status and
   * robot id are enumerations and hold by their types.
   */
  predicate SchemaValid(u: User) {
    && MinNameLength <= Utf16Length(u.name) <= MaxNameLength
    && SchemaEmailPattern(u.email)
    && (u.slotId.Some? ==> MinSlotId <= u.slotId.value <= MaxSlotId)
  }

  predicate UserWellFormed(u: User) {
    Normalized(u) && SchemaValid(u)
  }

  /**
   * `new User({...})` as check-in calls it: the setters trim the name and
   * normalise the email; checkOutTime and the vehicle fields take their
   * null defaults.
   */
  function NewUser(name: string, email: string, slot: int, robot: RobotId, now: int): (u: User)
    ensures Normalized(u)
    ensures u.name == Trim(name) && u.email == NormalizeEmail(email) && u.vehicleInfo == NoVehicle
    ensures u.status == Active && u.slotId == Some(slot) && u.robotId == Some(robot)
    ensures u.checkInTime == now && u.checkOutTime.None?
  {
    NormalizeEmailShape(email);
    User(Trim(name), NormalizeEmail(email), Some(slot), Some(robot), Active, now, None, NoVehicle)
  }

  /**
   * The `sessionDuration` virtual: null while there is no checkout time,
   * otherwise the long rendering of checkOutTime - checkInTime.
   */
  function SessionDuration(u: User): (d: Option<string>)
    ensures d.None? <==> u.checkOutTime.None?
  {
    match u.checkOutTime
    case None => None
    case Some(out) => Some(LongDuration(out - u.checkInTime))
  }

  /** A present session duration reads back as the whole minutes between check-in and checkout. */
  lemma SessionDurationReadsBack(u: User)
    requires u.checkOutTime.Some?
    ensures ParseLongDuration(SessionDuration(u).value) == Some(WholeMinutes(u.checkOutTime.value - u.checkInTime))
  {
    var d := u.checkOutTime.value - u.checkInTime;
    assert SessionDuration(u).value == LongDuration(d);
    LongDurationRoundTrip(d);
  }

  // ---------------------------------------------------------------------------
  // Lookups over the user collection.

  predicate HoldsSlot(u: User, slot: int) {
    u.status == Active && u.slotId == Some(slot)
  }

  predicate HoldsRobot(u: User, r: RobotId) {
    u.status == Active && u.robotId == Some(r)
  }

  ghost predicate RobotBusy(users: seq<User>, r: RobotId) {
    exists i :: 0 <= i < |users| && HoldsRobot(users[i], r)
  }

  /** `findOne({ slotId, status: 'active' })`: the first active user holding the slot. */
  function FindActiveUser(users: seq<User>, slot: int): (found: Option<nat>)
    ensures found.None? <==> forall i :: 0 <= i < |users| ==> !HoldsSlot(users[i], slot)
    ensures found.Some? ==>
      found.value < |users| && HoldsSlot(users[found.value], slot)
      && forall j :: 0 <= j < found.value ==> !HoldsSlot(users[j], slot)
  {
    FirstWhere(users, (u: User) => HoldsSlot(u, slot))
  }

  /** `isSlotAvailable`: no active user record holds the slot. */
  function IsSlotAvailable(users: seq<User>, slot: int): (free: bool)
    ensures free <==> forall i :: 0 <= i < |users| ==> !HoldsSlot(users[i], slot)
  {
    FindActiveUser(users, slot).None?
  }

  /** The distinct robot ids of active users (the `distinct('robotId')` query). */
  function BusyRobots(users: seq<User>): (busy: set<RobotId>)
    ensures forall r :: r in busy <==> RobotBusy(users, r)
  {
    if users == [] then {}
    else
      var last := users[|users| - 1];
      var before := BusyRobots(users[..|users| - 1]);
      assert forall i :: 0 <= i < |users| - 1 ==> users[..|users| - 1][i] == users[i];
      if last.status == Active && last.robotId.Some? then before + {last.robotId.value} else before
  }

  /** `robots.filter(r => !busy.includes(r))`. */
  function FreeRobots(robots: seq<RobotId>, busy: set<RobotId>): (free: seq<RobotId>)
    ensures free == [] <==> forall k :: 0 <= k < |robots| ==> robots[k] in busy
    ensures free != [] ==>
      exists k :: 0 <= k < |robots| && robots[k] == free[0] && robots[k] !in busy
        && forall j :: 0 <= j < k ==> robots[j] in busy
  {
    if robots == [] then []
    else if robots[0] in busy then
      var rest := FreeRobots(robots[1..], busy);
      assert rest != [] ==>
               exists k :: 0 <= k < |robots| && robots[k] == rest[0] && robots[k] !in busy
                 && forall j :: 0 <= j < k ==> robots[j] in busy
      by {
        if rest != [] {
          var k :| 0 <= k < |robots[1..]| && robots[1..][k] == rest[0] && robots[1..][k] !in busy
            && forall j :: 0 <= j < k ==> robots[1..][j] in busy;
          assert robots[k + 1] == rest[0];
          assert forall j :: 0 <= j < k + 1 ==> robots[j] in busy by {
            forall j | 0 <= j < k + 1 ensures robots[j] in busy {
              if j > 0 { assert robots[j] == robots[1..][j - 1]; }
            }
          }
        }
      }
      rest
    else
      [robots[0]] + FreeRobots(robots[1..], busy)
  }

  /**
   * `getAvailableRobot`: the first of R1..R5, in pool order, that no active
   * user holds; `None` exactly when all five are held.
   */
  function GetAvailableRobot(users: seq<User>): (r: Option<RobotId>)
    ensures r.None? <==> forall x :: RobotBusy(users, x)
    ensures r.Some? ==> !RobotBusy(users, r.value)
    ensures r.Some? ==> forall x :: RobotRank(x) < RobotRank(r.value) ==> RobotBusy(users, x)
  {
    var busy := BusyRobots(users);
    var available := FreeRobots(Robots, busy);
    assert available == [] <==> forall x :: RobotBusy(users, x) by {
      if available == [] {
        forall x ensures RobotBusy(users, x) { assert Robots[RobotRank(x)] in busy; }
      }
    }
    if |available| > 0 then Some(available[0]) else None
  }
}
