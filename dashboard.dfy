/**
 * The dashboard client (App.jsx): the robot's four-state lifecycle, the slot
 * selection with its check-in modal, the map of parking sessions drawn on
 * the slots, and the optimistic checkout with its rollback.
 *
 * Each handler is a pure transition on `ViewState`, the component's state
 * as one value, and a method of the class `Dashboard`, whose fields are the
 * component's state variables. Server replies are abstract: a body, a
 * rejection carrying the body's `error` field, or a failure to reach the
 * server (or to read its reply) with the thrown error's message.
 */
module Dashboard {
  import opened Wrappers
  import opened Text
  import opened Collections
  import opened UserModel
  import PS = ParkingService

  datatype RobotStatus = Docked | Dispatching | AtSlot | Returning

  /** The outcome of a request: `res.ok` with its body, another status with the body's `error`, or a thrown error. */
  datatype Reply<T> = Ok(body: T) | Rejected(error: Option<string>) | Unreachable(message: string)

  datatype CheckInBody = CheckInBody(success: bool, robotDispatchAuthorized: bool, timestamp: int)
  datatype CheckOutBody = CheckOutBody(robotReturnDock: Option<PS.Position>)
  datatype CheckInRequest = CheckInRequest(userName: string, userEmail: string, slotId: int)

  /** A key of the sessions object: a slot number, or `None` for the key `"null"`. */
  type SlotKey = Option<int>

  /** What the dashboard shows on an occupied slot. A session it adds itself has no email or robot. */
  datatype Session = Session(
    slotId: Option<int>, userName: string, userEmail: Option<string>, robotId: Option<RobotId>, checkInTime: int)

  /** `systemStatus`: nothing yet, a status report, or a body the client could not use. */
  datatype SystemStatus = NotLoaded | Loaded(report: PS.StatusReport) | ErrorBody(error: Option<string>)

  const MissingFieldsError := "Please fill in all fields"
  const InvalidEmailError := "Invalid email format"
  const CheckInFallbackError := "Check-in failed"
  const WaitForRobotError := "Please wait for robot to arrive before checking out"
  const CheckOutErrorPrefix := "Checkout failed: "
  const CheckOutFallbackError := "Check-out failed"
  const StatusOfflineError := "System Offline: Could not load status"

  /** `data.error || fallback`: an absent or empty error falls back, so a set error is never empty. */
  function ErrorText(error: Option<string>, fallback: string): (t: string)
    ensures fallback != [] ==> t != []
    ensures error.Some? && error.value != [] ==> t == error.value
    ensures error.None? || error.value == [] ==> t == fallback
  {
    if error.Some? && error.value != [] then error.value else fallback
  }

  /** Where slot `i` is drawn, and where a robot sent to it heads. */
  function SlotPosition(i: int): PS.Position {
    PS.Position(i as real * 3.0 - 13.5, 0.0, 0.0)
  }

  // ---------------------------------------------------------------------------
  // The check-in form.

  predicate IsAt(c: char) {
    c == '@'
  }

  /**
   * `^[^\s@]+@[^\s@]+\.[^\s@]+$`: no white space, exactly one '@', not at the
   * start, and a '.' at least two places after it and before the last
   * character.
   */
  ghost predicate FormEmailSpec(s: string) {
    && NoSpace(s)
    && exists a, j | 0 < a < |s| && 0 < j < |s| ::
         && a + 1 < j < |s| - 1 && s[a] == '@' && s[j] == '.'
         && forall k | 0 <= k < |s| && k != a :: s[k] != '@'
  }

  /** The form's email check as a scan: the first '@', then no other, then a '.' in the part after it. */
  predicate FormEmailPattern(s: string) {
    && NoSpace(s)
    && match FirstWhere(s, IsAt)
       case None => false
       case Some(a) => 0 < a && a + 2 < |s| && '@' !in s[a + 1..] && '.' in s[a + 2..|s| - 1]
  }

  lemma FormEmailPatternMeaning(s: string)
    ensures FormEmailPattern(s) <==> FormEmailSpec(s)
  {
    var found := FirstWhere(s, IsAt);
    if FormEmailPattern(s) {
      var a := found.value;
      var t := s[a + 2..|s| - 1];
      var k :| 0 <= k < |t| && t[k] == '.';
      assert s[a + 2 + k] == '.';
      forall i | 0 <= i < |s| && i != a ensures s[i] != '@' {
        if i > a {
          assert s[a + 1..][i - a - 1] == s[i];
        } else {
          assert !IsAt(s[i]);
        }
      }
      assert a + 1 < a + 2 + k < |s| - 1;
    }
    if FormEmailSpec(s) {
      var a, j :| 0 < a < |s| && 0 < j < |s| && a + 1 < j < |s| - 1 && s[a] == '@' && s[j] == '.'
                && forall k | 0 <= k < |s| && k != a :: s[k] != '@';
      assert IsAt(s[a]);
      assert found.Some? && found.value == a;
      assert s[a + 2..|s| - 1][j - a - 2] == '.';
      var rest := s[a + 1..];
      forall i | 0 <= i < |rest| ensures rest[i] != '@' {
        assert rest[i] == s[a + 1 + i];
      }
    }
  }

  datatype FormVerdict = Submit(userName: string, userEmail: string) | FormError(message: string)

  /**
   * `CheckInModal.handleSubmit`: an empty field first, then the email's
   * shape; a form that passes is submitted unchanged.
   */
  function ValidateCheckInForm(userName: string, userEmail: string): (v: FormVerdict)
    ensures v == FormError(MissingFieldsError) <==> userName == [] || userEmail == []
    ensures v == FormError(InvalidEmailError) <==> userName != [] && userEmail != [] && !FormEmailSpec(userEmail)
    ensures v.Submit? <==> userName != [] && FormEmailSpec(userEmail)
    ensures v.Submit? ==> v == Submit(userName, userEmail)
  {
    FormEmailPatternMeaning(userEmail);
    if userName == [] || userEmail == [] then FormError(MissingFieldsError)
    else if !FormEmailPattern(userEmail) then FormError(InvalidEmailError)
    else Submit(userName, userEmail)
  }

  /** Lowercasing keeps white space, '@' and '.' where they are, so it keeps the schema's shape. */
  lemma LowerKeepsEmailPattern(e: string)
    requires EmailPatternSpec(e)
    ensures EmailPatternSpec(Lower(e))
  {
    var a, j :| 0 < a < |e| && 0 < j < |e| && a + 1 < j < |e| - 1 && e[a] == '@' && e[j] == '.';
    var low := Lower(e);
    forall k | 0 <= k < |low| ensures !IsSpace(low[k]) {
      assert low[k] == LowerChar(e[k]);
    }
    assert low[a] == LowerChar(e[a]) == '@';
    assert low[j] == LowerChar(e[j]) == '.';
  }

  /** An address the form accepts is one the user schema accepts once lowercased and trimmed. */
  lemma FormEmailPassesSchema(e: string)
    requires FormEmailSpec(e)
    ensures SchemaEmailPattern(NormalizeEmail(e))
  {
    assert EmailPatternSpec(e) by {
      var a, j :| 0 < a < |e| && 0 < j < |e| && a + 1 < j < |e| - 1 && e[a] == '@' && e[j] == '.';
    }
    LowerKeepsEmailPattern(e);
    var low := Lower(e);
    assert NormalizeEmail(e) == low;
    SchemaEmailPatternMeaning(low);
  }

  /** The converse fails: the schema takes an address with two '@' that the form refuses. */
  lemma SchemaAcceptsWhatFormRefuses()
    ensures SchemaEmailPattern("a@b@c.de") && !FormEmailSpec("a@b@c.de")
  {
    var s := "a@b@c.de";
    assert s[1] == '@' && s[5] == '.';
    assert NoSpace(s);
    assert EmailPatternSpec(s);
    SchemaEmailPatternMeaning(s);
    assert s[3] == '@';
  }

  /** A submitted form passes the server's first check: neither field is blank and a slot is sent. */
  lemma SubmittedFormIsComplete(users: seq<User>, userName: string, userEmail: string, slot: int)
    requires PS.EmailsUnique(users)
    requires ValidateCheckInForm(userName, userEmail).Submit?
    ensures PS.CheckInRefusal(users, Some(userName), Some(userEmail), Some(slot)) != Some(PS.MissingFields)
  {
    PS.CheckInRefusalOrder(users, Some(userName), Some(userEmail), Some(slot));
  }

  // ---------------------------------------------------------------------------
  // The sessions map.

  function SessionOf(d: PS.OccupancyDetail): Session {
    Session(d.slotId, d.userName, Some(d.userEmail), d.robotId, d.checkInTime)
  }

  /** The session added right after a check-in, before the next status refresh. */
  function NewSession(slot: int, userName: string, checkInTime: int): Session {
    Session(Some(slot), userName, None, None, checkInTime)
  }

  /** The `forEach` over the details: each stored under its slot, a later detail overwriting an earlier one. */
  function SessionsFromDetails(ds: seq<PS.OccupancyDetail>): map<SlotKey, Session> {
    if ds == [] then map[]
    else SessionsFromDetails(ds[..|ds| - 1])[ds[|ds| - 1].slotId := SessionOf(ds[|ds| - 1])]
  }

  lemma {:induction false} SessionsFromDetailsKeys(ds: seq<PS.OccupancyDetail>)
    ensures SessionsFromDetails(ds).Keys == set d | d in ds :: d.slotId
  {
    if ds != [] {
      var init := ds[..|ds| - 1];
      SessionsFromDetailsKeys(init);
      assert ds == init + [ds[|ds| - 1]];
      assert (set d | d in ds :: d.slotId) == (set d | d in init :: d.slotId) + {ds[|ds| - 1].slotId};
    }
  }

  /** A detail with no later detail for its slot is the one shown for that slot. */
  lemma {:induction false} SessionsFromDetailsLastWins(ds: seq<PS.OccupancyDetail>, k: nat)
    requires k < |ds|
    requires forall j :: k < j < |ds| ==> ds[j].slotId != ds[k].slotId
    ensures ds[k].slotId in SessionsFromDetails(ds) && SessionsFromDetails(ds)[ds[k].slotId] == SessionOf(ds[k])
  {
    if k < |ds| - 1 {
      var init := ds[..|ds| - 1];
      SessionsFromDetailsLastWins(init, k);
    }
  }

  /** With no two details for one slot, every detail is shown under its slot. */
  lemma {:induction false} SessionsOfDistinctDetails(ds: seq<PS.OccupancyDetail>)
    requires forall d1, d2 :: d1 in ds && d2 in ds && d1.slotId == d2.slotId ==> d1 == d2
    ensures forall d :: d in ds ==> d.slotId in SessionsFromDetails(ds) && SessionsFromDetails(ds)[d.slotId] == SessionOf(d)
  {
    if ds != [] {
      var init := ds[..|ds| - 1];
      assert forall d :: d in init ==> d in ds;
      SessionsOfDistinctDetails(init);
      assert ds == init + [ds[|ds| - 1]];
    }
  }

  /**
   * After a refresh from a valid store the slots showing a session are
   * exactly the occupied ones, each showing its holder, and no session sits
   * under the `"null"` key.
   */
  lemma RefreshShowsOccupiedSlots(users: seq<User>)
    requires PS.UsersValid(users)
    ensures None !in SessionsFromDetails(PS.OccupancyDetails(users))
    ensures forall s :: Some(s) in SessionsFromDetails(PS.OccupancyDetails(users)) <==> !IsSlotAvailable(users, s)
    ensures forall i :: 0 <= i < |users| && users[i].status == Active ==>
      && users[i].slotId in SessionsFromDetails(PS.OccupancyDetails(users))
      && SessionsFromDetails(PS.OccupancyDetails(users))[users[i].slotId] == SessionOf(PS.DetailOf(users[i]))
  {
    var ds := PS.OccupancyDetails(users);
    var sessions := SessionsFromDetails(ds);
    PS.OccupancyDetailsComplete(users);
    PS.OccupancyDetailsSound(users);
    PS.DetailsDistinct(users, ds);
    SessionsFromDetailsKeys(ds);
    SessionsOfDistinctDetails(ds);
    forall s ensures Some(s) in sessions <==> !IsSlotAvailable(users, s) {
      DetailForSlotIffOccupied(users, ds, s);
    }
  }

  /** The details name a slot exactly when an active user holds it. */
  lemma DetailForSlotIffOccupied(users: seq<User>, ds: seq<PS.OccupancyDetail>, s: int)
    requires forall i :: 0 <= i < |users| && PS.IsActive(users[i]) ==> PS.DetailOf(users[i]) in ds
    requires forall d :: d in ds ==> exists i :: 0 <= i < |users| && PS.IsActive(users[i]) && d == PS.DetailOf(users[i])
    ensures Some(s) in (set d | d in ds :: d.slotId) <==> !IsSlotAvailable(users, s)
  {
    if Some(s) in (set d | d in ds :: d.slotId) {
      var d :| d in ds && d.slotId == Some(s);
      var i :| 0 <= i < |users| && PS.IsActive(users[i]) && d == PS.DetailOf(users[i]);
      assert HoldsSlot(users[i], s);
    }
    if !IsSlotAvailable(users, s) {
      var i :| 0 <= i < |users| && HoldsSlot(users[i], s);
      assert PS.DetailOf(users[i]) in ds;
    }
  }

  // ---------------------------------------------------------------------------
  // The component's state and its transitions.

  datatype ViewState = ViewState(
    robotTarget: Option<PS.Position>,
    robotStatus: RobotStatus,
    previousSlotId: Option<int>,
    showCheckInModal: bool,
    selectedSlot: Option<int>,
    selectedSlotPosition: Option<PS.Position>,
    parkingSessions: map<SlotKey, Session>,
    systemStatus: SystemStatus,
    errorMessage: Option<string>,
    isLoading: bool)

  const Initial := ViewState(None, Docked, None, false, None, None, map[], NotLoaded, None, false)

  /**
   * The robot is docked exactly when it has no target and exactly when it
   * has no slot; heading for a slot or waiting there, its target is that
   * slot's position; an open modal has a selected slot, whose position is
   * the one drawn for it.
   */
  predicate Consistent(v: ViewState) {
    && (v.robotStatus == Docked <==> v.robotTarget.None?)
    && (v.robotStatus == Docked <==> v.previousSlotId.None?)
    && (v.robotStatus == Dispatching || v.robotStatus == AtSlot ==>
          v.robotTarget == Some(SlotPosition(v.previousSlotId.value)))
    && v.selectedSlotPosition == (if v.selectedSlot.Some? then Some(SlotPosition(v.selectedSlot.value)) else None)
    && (v.showCheckInModal ==> v.selectedSlot.Some?)
  }

  /** Only the robot's three fields differ between `v` and `w`. */
  predicate OnlyRobotChanged(v: ViewState, w: ViewState) {
    w.(robotTarget := v.robotTarget, robotStatus := v.robotStatus, previousSlotId := v.previousSlotId) == v
  }

  /** `handleRobotDestinationReached`. */
  function Arrive(v: ViewState): (w: ViewState)
    ensures Consistent(v) ==> Consistent(w)
    ensures OnlyRobotChanged(v, w)
  {
    match v.robotStatus
    case Dispatching => v.(robotStatus := AtSlot)
    case Returning => v.(robotStatus := Docked, robotTarget := None, previousSlotId := None)
    case Docked => v
    case AtSlot => v
  }

  /**
   * A robot heading for a slot stops there, keeping its target and slot; a
   * returning robot docks and forgets both; otherwise nothing changes, so
   * the callback repeated on every frame near the target acts once.
   */
  lemma ArrivalSteps(v: ViewState)
    ensures v.robotStatus == Dispatching ==>
      Arrive(v).robotStatus == AtSlot && Arrive(v).robotTarget == v.robotTarget && Arrive(v).previousSlotId == v.previousSlotId
    ensures v.robotStatus == Returning ==>
      Arrive(v).robotStatus == Docked && Arrive(v).robotTarget.None? && Arrive(v).previousSlotId.None?
    ensures v.robotStatus == Docked || v.robotStatus == AtSlot ==> Arrive(v) == v
    ensures Arrive(Arrive(v)) == Arrive(v)
  {
  }

  /** `handleSlotClick`: an occupied slot is left to its checkout button, a free one opens the modal for it. */
  function ClickSlot(v: ViewState, slotId: int, position: PS.Position): (w: ViewState)
    ensures Consistent(v) && position == SlotPosition(slotId) ==> Consistent(w)
  {
    if Some(slotId) in v.parkingSessions then v
    else v.(selectedSlot := Some(slotId), selectedSlotPosition := Some(position), showCheckInModal := true, errorMessage := None)
  }

  lemma ClickSlotSteps(v: ViewState, slotId: int, position: PS.Position)
    ensures Some(slotId) in v.parkingSessions ==> ClickSlot(v, slotId, position) == v
    ensures Some(slotId) !in v.parkingSessions ==>
      var w := ClickSlot(v, slotId, position);
      && w.showCheckInModal && w.selectedSlot == Some(slotId) && w.selectedSlotPosition == Some(position)
      && w.errorMessage.None?
      && w.parkingSessions == v.parkingSessions && w.robotStatus == v.robotStatus
      && w.robotTarget == v.robotTarget && w.previousSlotId == v.previousSlotId
  {
  }

  /** The modal's cancel button closes it and keeps the selection. */
  function ModalClosed(v: ViewState): (w: ViewState)
    ensures Consistent(v) ==> Consistent(w)
    ensures !w.showCheckInModal
  {
    v.(showCheckInModal := false)
  }

  /** The body of the check-in request: the form's fields and the selected slot. */
  function CheckInRequestOf(v: ViewState, userName: string, userEmail: string): CheckInRequest
    requires v.selectedSlot.Some?
  {
    CheckInRequest(userName, userEmail, v.selectedSlot.value)
  }

  /** `handleCheckInSubmit` once the reply is in. */
  function CheckInAnswered(v: ViewState, userName: string, reply: Reply<CheckInBody>): (w: ViewState)
    requires v.selectedSlot.Some?
    ensures Consistent(v) ==> Consistent(w)
    ensures !w.isLoading
  {
    var slot := v.selectedSlot.value;
    match reply
    case Ok(body) =>
      if body.success && body.robotDispatchAuthorized then
        v.(parkingSessions := v.parkingSessions[Some(slot) := NewSession(slot, userName, body.timestamp)],
           robotStatus := Dispatching,
           previousSlotId := Some(slot),
           robotTarget := if v.selectedSlotPosition.Some? then v.selectedSlotPosition else v.robotTarget,
           showCheckInModal := false,
           selectedSlot := None,
           selectedSlotPosition := None,
           errorMessage := None,
           isLoading := false)
      else v.(errorMessage := None, isLoading := false)
    case Rejected(error) => v.(errorMessage := Some(ErrorText(error, CheckInFallbackError)), isLoading := false)
    case Unreachable(message) => v.(errorMessage := Some(message), isLoading := false)
  }

  /**
   * An authorised check-in shows a session on the selected slot, keeps the
   * other sessions, sends the robot to that slot and closes the modal.
   */
  lemma CheckInDispatches(v: ViewState, userName: string, body: CheckInBody)
    requires Consistent(v) && v.selectedSlot.Some?
    requires body.success && body.robotDispatchAuthorized
    ensures var slot := v.selectedSlot.value;
      var w := CheckInAnswered(v, userName, Ok(body));
      && w.parkingSessions.Keys == v.parkingSessions.Keys + {Some(slot)}
      && w.parkingSessions[Some(slot)] == NewSession(slot, userName, body.timestamp)
      && (forall key :: key in v.parkingSessions && key != Some(slot) ==> w.parkingSessions[key] == v.parkingSessions[key])
      && w.robotStatus == Dispatching && w.previousSlotId == Some(slot) && w.robotTarget == Some(SlotPosition(slot))
      && !w.showCheckInModal && w.selectedSlot.None? && w.selectedSlotPosition.None?
      && w.errorMessage.None?
  {
  }

  /** A refused or failed check-in only sets a non-empty error: sessions, robot and modal stay as they were. */
  lemma CheckInFailureOnlyReports(v: ViewState, userName: string, reply: Reply<CheckInBody>)
    requires v.selectedSlot.Some? && !reply.Ok?
    requires reply.Unreachable? ==> reply.message != []
    ensures var w := CheckInAnswered(v, userName, reply);
      && w.errorMessage.Some? && w.errorMessage.value != []
      && w == v.(errorMessage := w.errorMessage, isLoading := false)
  {
  }

  /** The robot sent by a check-in, on arriving, waits at the slot it was sent to. */
  lemma CheckInThenArrival(v: ViewState, userName: string, body: CheckInBody)
    requires Consistent(v) && v.selectedSlot.Some?
    requires body.success && body.robotDispatchAuthorized
    ensures var w := Arrive(CheckInAnswered(v, userName, Ok(body)));
      && w.robotStatus == AtSlot && w.previousSlotId == v.selectedSlot
      && w.robotTarget == Some(SlotPosition(v.selectedSlot.value))
  {
  }

  /** The guard: checking out the slot the robot is still heading for. */
  predicate CheckOutBlocked(v: ViewState, slotId: int) {
    v.robotStatus == Dispatching && v.previousSlotId == Some(slotId)
  }

  /** `handleCheckOut` up to the request: the guard, then the optimistic removal of the slot's session. */
  function CheckOutStarted(v: ViewState, slotId: int): (w: ViewState)
    ensures Consistent(v) ==> Consistent(w)
  {
    if CheckOutBlocked(v, slotId) then v.(errorMessage := Some(WaitForRobotError))
    else v.(parkingSessions := v.parkingSessions - {Some(slotId)}, isLoading := true)
  }

  /** `handleCheckOut` once the reply is in; `snapshot` is the sessions copied before the removal. */
  function CheckOutAnswered(v: ViewState, slotId: int, snapshot: map<SlotKey, Session>, reply: Reply<CheckOutBody>): (w: ViewState)
    ensures Consistent(v) ==> Consistent(w)
    ensures !w.isLoading
  {
    match reply
    case Ok(body) =>
      if body.robotReturnDock.Some? then
        v.(robotTarget := body.robotReturnDock, robotStatus := Returning, previousSlotId := Some(slotId), isLoading := false)
      else v.(isLoading := false)
    case Rejected(error) =>
      v.(errorMessage := Some(CheckOutErrorPrefix + ErrorText(error, CheckOutFallbackError)),
         parkingSessions := snapshot, isLoading := false)
    case Unreachable(message) =>
      v.(errorMessage := Some(CheckOutErrorPrefix + message), parkingSessions := snapshot, isLoading := false)
  }

  /** The whole checkout handler: blocked, or removed, sent, and finished with the pre-removal snapshot. */
  function CheckOutHandled(v: ViewState, slotId: int, reply: Reply<CheckOutBody>): (w: ViewState)
    ensures Consistent(v) ==> Consistent(w)
  {
    if CheckOutBlocked(v, slotId) then CheckOutStarted(v, slotId)
    else CheckOutAnswered(CheckOutStarted(v, slotId), slotId, v.parkingSessions, reply)
  }

  /** While the robot heads for the slot, checking it out only sets the wait message. */
  lemma CheckOutWaitsForRobot(v: ViewState, slotId: int, reply: Reply<CheckOutBody>)
    requires CheckOutBlocked(v, slotId)
    ensures CheckOutHandled(v, slotId, reply).errorMessage == Some(WaitForRobotError)
    ensures CheckOutHandled(v, slotId, reply).(errorMessage := v.errorMessage) == v
  {
  }

  /** The slot's session leaves the map before the request is sent; every other session stays. */
  lemma CheckOutRemovesAtOnce(v: ViewState, slotId: int)
    requires !CheckOutBlocked(v, slotId)
    ensures var w := CheckOutStarted(v, slotId);
      && w.parkingSessions.Keys == v.parkingSessions.Keys - {Some(slotId)}
      && (forall key :: key in w.parkingSessions ==> w.parkingSessions[key] == v.parkingSessions[key])
      && w.isLoading
      && w.robotStatus == v.robotStatus && w.robotTarget == v.robotTarget && w.previousSlotId == v.previousSlotId
  {
  }

  /** A refused or failed checkout puts back exactly the sessions there were before it, and reports. */
  lemma CheckOutRollsBack(v: ViewState, slotId: int, reply: Reply<CheckOutBody>)
    requires !CheckOutBlocked(v, slotId) && !reply.Ok?
    ensures var w := CheckOutHandled(v, slotId, reply);
      && w.parkingSessions == v.parkingSessions
      && w.errorMessage.Some? && w.errorMessage.value[..|CheckOutErrorPrefix|] == CheckOutErrorPrefix
      && w == v.(errorMessage := w.errorMessage, isLoading := false)
  {
  }

  /** A checkout reply with a dock sends the robot back from the slot; the slot's session is gone. */
  lemma CheckOutSendsRobotHome(v: ViewState, slotId: int, body: CheckOutBody)
    requires !CheckOutBlocked(v, slotId) && body.robotReturnDock.Some?
    ensures var w := CheckOutHandled(v, slotId, Ok(body));
      && w.robotStatus == Returning && w.robotTarget == body.robotReturnDock && w.previousSlotId == Some(slotId)
      && Some(slotId) !in w.parkingSessions
      && w.parkingSessions.Keys == v.parkingSessions.Keys - {Some(slotId)}
      && !w.isLoading
  {
  }

  /** The server's checkout reply brings the robot home: once it arrives it is docked with no target or slot. */
  lemma CheckOutThenArrival(v: ViewState, slotId: int)
    requires !CheckOutBlocked(v, slotId)
    ensures var w := Arrive(CheckOutHandled(v, slotId, Ok(CheckOutBody(Some(PS.ReturnDock)))));
      && w.robotStatus == Docked && w.robotTarget.None? && w.previousSlotId.None?
      && Some(slotId) !in w.parkingSessions
  {
  }

  /**
   * `fetchSystemStatus` once the reply is in: a usable report replaces the
   * sessions; a body without details is kept as the status and the sessions
   * stay; a failure to reach the server only reports.
   */
  function Refresh(v: ViewState, reply: Reply<PS.StatusReport>): (w: ViewState)
    ensures Consistent(v) ==> Consistent(w)
    ensures w.robotStatus == v.robotStatus && w.robotTarget == v.robotTarget && w.previousSlotId == v.previousSlotId
  {
    match reply
    case Ok(report) =>
      v.(systemStatus := Loaded(report), parkingSessions := SessionsFromDetails(report.occupancyDetails))
    case Rejected(error) => v.(systemStatus := ErrorBody(error), errorMessage := Some(StatusOfflineError))
    case Unreachable(_) => v.(errorMessage := Some(StatusOfflineError))
  }

  /** A refresh from a valid store shows a session on exactly the occupied slots. */
  lemma RefreshFromStore(v: ViewState, users: seq<User>)
    requires PS.UsersValid(users)
    ensures var w := Refresh(v, Ok(PS.StatusReport(PS.TotalSlots, |PS.OccupancyDetails(users)|,
                                                   PS.TotalSlots - |PS.OccupancyDetails(users)|, PS.OccupancyDetails(users))));
      && (forall s :: Some(s) in w.parkingSessions <==> !IsSlotAvailable(users, s))
      && None !in w.parkingSessions
      && w.robotStatus == v.robotStatus && w.robotTarget == v.robotTarget
  {
    RefreshShowsOccupiedSlots(users);
  }

  // ---------------------------------------------------------------------------
  // The component.

  class Dashboard {
    var robotTarget: Option<PS.Position>
    var robotStatus: RobotStatus
    var previousSlotId: Option<int>
    var showCheckInModal: bool
    var selectedSlot: Option<int>
    var selectedSlotPosition: Option<PS.Position>
    var parkingSessions: map<SlotKey, Session>
    var systemStatus: SystemStatus
    var errorMessage: Option<string>
    var isLoading: bool

    function State(): ViewState
      reads this
    {
      ViewState(robotTarget, robotStatus, previousSlotId, showCheckInModal, selectedSlot, selectedSlotPosition,
                parkingSessions, systemStatus, errorMessage, isLoading)
    }

    ghost predicate Valid()
      reads this
    {
      Consistent(State())
    }

    constructor ()
      ensures State() == Initial && Valid()
    {
      robotTarget := None;
      robotStatus := Docked;
      previousSlotId := None;
      showCheckInModal := false;
      selectedSlot := None;
      selectedSlotPosition := None;
      parkingSessions := map[];
      systemStatus := NotLoaded;
      errorMessage := None;
      isLoading := false;
    }

    method RobotArrived()
      requires Valid()
      modifies this
      ensures Valid()
      ensures State() == Arrive(old(State()))
    {
      if robotStatus == Dispatching {
        robotStatus := AtSlot;
      } else if robotStatus == Returning {
        robotStatus := Docked;
        robotTarget := None;
        previousSlotId := None;
      }
    }

    method SlotClicked(slotId: int, position: PS.Position)
      requires Valid() && position == SlotPosition(slotId)
      modifies this
      ensures Valid()
      ensures State() == ClickSlot(old(State()), slotId, position)
    {
      if Some(slotId) !in parkingSessions {
        selectedSlot := Some(slotId);
        selectedSlotPosition := Some(position);
        showCheckInModal := true;
        errorMessage := None;
      }
    }

    method CancelCheckIn()
      requires Valid()
      modifies this
      ensures Valid()
      ensures State() == ModalClosed(old(State()))
    {
      showCheckInModal := false;
    }

    /** The modal's submission: `request` is the body sent, `reply` what came back. */
    method SubmitCheckIn(userName: string, userEmail: string, reply: Reply<CheckInBody>) returns (request: CheckInRequest)
      requires Valid() && showCheckInModal && selectedSlot.Some?
      modifies this
      ensures request == CheckInRequestOf(old(State()), userName, userEmail)
      ensures State() == CheckInAnswered(old(State()), userName, reply)
      ensures Valid()
    {
      isLoading := true;
      errorMessage := None;
      var slot := selectedSlot.value;
      request := CheckInRequest(userName, userEmail, slot);
      match reply {
        case Ok(body) =>
          if body.success && body.robotDispatchAuthorized {
            Dispatch(slot, userName, body.timestamp);
          }
        case Rejected(error) =>
          errorMessage := Some(ErrorText(error, CheckInFallbackError));
        case Unreachable(message) =>
          errorMessage := Some(message);
      }
      isLoading := false;
    }

    /** An authorised check-in: the session appears, the robot is sent to the slot, the modal closes. */
    method Dispatch(slot: int, userName: string, timestamp: int)
      requires selectedSlot == Some(slot)
      modifies this
      ensures State() == old(State()).(
        parkingSessions := old(parkingSessions)[Some(slot) := NewSession(slot, userName, timestamp)],
        robotStatus := Dispatching,
        previousSlotId := Some(slot),
        robotTarget := if old(selectedSlotPosition).Some? then old(selectedSlotPosition) else old(robotTarget),
        showCheckInModal := false,
        selectedSlot := None,
        selectedSlotPosition := None)
    {
      parkingSessions := parkingSessions[Some(slot) := NewSession(slot, userName, timestamp)];
      robotStatus := Dispatching;
      previousSlotId := Some(slot);
      if selectedSlotPosition.Some? {
        robotTarget := selectedSlotPosition;
      }
      showCheckInModal := false;
      selectedSlot := None;
      selectedSlotPosition := None;
    }

    /** The checkout up to its request; `snapshot` is the sessions to roll back to, `None` when blocked. */
    method BeginCheckOut(slotId: int) returns (snapshot: Option<map<SlotKey, Session>>)
      requires Valid()
      modifies this
      ensures Valid()
      ensures snapshot.None? <==> CheckOutBlocked(old(State()), slotId)
      ensures snapshot.Some? ==> snapshot.value == old(parkingSessions)
      ensures State() == CheckOutStarted(old(State()), slotId)
    {
      if robotStatus == Dispatching && previousSlotId == Some(slotId) {
        errorMessage := Some(WaitForRobotError);
        return None;
      }
      snapshot := Some(parkingSessions);
      parkingSessions := parkingSessions - {Some(slotId)};
      isLoading := true;
    }

    method FinishCheckOut(slotId: int, snapshot: map<SlotKey, Session>, reply: Reply<CheckOutBody>)
      requires Valid()
      modifies this
      ensures Valid()
      ensures State() == CheckOutAnswered(old(State()), slotId, snapshot, reply)
    {
      match reply {
        case Ok(body) =>
          if body.robotReturnDock.Some? {
            robotTarget := body.robotReturnDock;
            robotStatus := Returning;
            previousSlotId := Some(slotId);
          }
        case Rejected(error) =>
          errorMessage := Some(CheckOutErrorPrefix + ErrorText(error, CheckOutFallbackError));
          parkingSessions := snapshot;
        case Unreachable(message) =>
          errorMessage := Some(CheckOutErrorPrefix + message);
          parkingSessions := snapshot;
      }
      isLoading := false;
    }

    /** `handleCheckOut` from the click to the reply. */
    method CheckOut(slotId: int, reply: Reply<CheckOutBody>)
      requires Valid()
      modifies this
      ensures Valid()
      ensures State() == CheckOutHandled(old(State()), slotId, reply)
    {
      var snapshot := BeginCheckOut(slotId);
      if snapshot.Some? {
        FinishCheckOut(slotId, snapshot.value, reply);
      }
    }

    /** `fetchSystemStatus`: the sessions map is rebuilt detail by detail. */
    method ApplyStatus(reply: Reply<PS.StatusReport>)
      requires Valid()
      modifies this
      ensures Valid()
      ensures State() == Refresh(old(State()), reply)
    {
      match reply {
        case Ok(report) =>
          systemStatus := Loaded(report);
          var details := report.occupancyDetails;
          var sessionsMap: map<SlotKey, Session> := map[];
          var k := 0;
          while k < |details|
            invariant 0 <= k <= |details|
            invariant sessionsMap == SessionsFromDetails(details[..k])
          {
            assert details[..k + 1][..k] == details[..k];
            sessionsMap := sessionsMap[details[k].slotId := SessionOf(details[k])];
            k := k + 1;
          }
          assert details[..k] == details;
          parkingSessions := sessionsMap;
        case Rejected(error) =>
          systemStatus := ErrorBody(error);
          errorMessage := Some(StatusOfflineError);
        case Unreachable(_) =>
          errorMessage := Some(StatusOfflineError);
      }
    }
  }
}
