/**
 * The reservation record: one per check-in, completed at checkout, never
 * deleted. `userId` refers to a user record by its position in the user
 * collection; times are integer milliseconds; `duration` is whole minutes.
 */
module ReservationModel {
  import opened Wrappers
  import UserModel

  datatype ReservationStatus = Active | Completed | Cancelled

  datatype Reservation = Reservation(
    userId: nat,
    slotId: int,
    robotId: Option<UserModel.RobotId>,
    checkInTime: int,
    checkOutTime: Option<int>,
    duration: Option<int>,
    status: ReservationStatus)

  /** The fields a caller passes to `new Reservation({...})`; absent ones are `None`. */
  datatype ReservationDraft = ReservationDraft(
    userId: Option<nat>,
    slotId: Option<int>,
    robotId: Option<UserModel.RobotId>,
    checkInTime: Option<int>,
    checkOutTime: Option<int>,
    duration: Option<int>,
    status: Option<ReservationStatus>)

  /**
   * Building and validating a reservation: it fails exactly when one of the
   * required fields userId, slotId, checkInTime is missing; otherwise status
   * defaults to active and checkOutTime and duration to null, and every field
   * given is kept.
   */
  function SaveReservation(d: ReservationDraft): (r: Option<Reservation>)
    ensures r.None? <==> d.userId.None? || d.slotId.None? || d.checkInTime.None?
    ensures r.Some? ==>
      && r.value.userId == d.userId.value && r.value.slotId == d.slotId.value
      && r.value.checkInTime == d.checkInTime.value && r.value.robotId == d.robotId
    ensures r.Some? && d.status.None? ==> r.value.status == Active
    ensures r.Some? && d.status.Some? ==> r.value.status == d.status.value
    ensures r.Some? ==> r.value.checkOutTime == d.checkOutTime && r.value.duration == d.duration
  {
    if d.userId.None? || d.slotId.None? || d.checkInTime.None? then None
    else
      Some(Reservation(d.userId.value, d.slotId.value, d.robotId, d.checkInTime.value,
                       d.checkOutTime, d.duration, d.status.GetOr(Active)))
  }
}
