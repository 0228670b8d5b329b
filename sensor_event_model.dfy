/**
 * The sensor event record: an append-only audit trail of occupancy readings,
 * independent of the reservation state.
 */
module SensorEventModel {
  import opened Wrappers

  datatype EventType = VehicleDetected | VehicleDeparted | ScanComplete | Error

  datatype SensorEvent = SensorEvent(
    slotId: int,
    status: bool,
    confidence: real,
    eventType: EventType,
    robotId: Option<string>,
    metadata: map<string, string>)

  /** The fields a caller passes to `new SensorEvent({...})`; absent ones are `None`. */
  datatype SensorEventDraft = SensorEventDraft(
    slotId: Option<int>,
    status: Option<bool>,
    confidence: Option<real>,
    eventType: Option<EventType>,
    robotId: Option<string>,
    metadata: Option<map<string, string>>)

  const DefaultConfidence: real := 0.95

  predicate ConfidenceInRange(c: real) {
    0.0 <= c <= 1.0
  }

  predicate SensorEventWellFormed(e: SensorEvent) {
    ConfidenceInRange(e.confidence)
  }

  /**
   * Building and validating an event: it fails exactly when slotId or status
   * is missing or the confidence (0.95 when absent) lies outside [0, 1];
   * otherwise eventType defaults to VEHICLE_DETECTED, robotId to null and
   * metadata to the empty object, and every field given is kept.
   */
  function SaveSensorEvent(d: SensorEventDraft): (r: Option<SensorEvent>)
    ensures r.None? <==>
      d.slotId.None? || d.status.None? || !ConfidenceInRange(d.confidence.GetOr(DefaultConfidence))
    ensures r.Some? ==> SensorEventWellFormed(r.value)
    ensures r.Some? ==>
      && r.value.slotId == d.slotId.value && r.value.status == d.status.value
      && r.value.confidence == d.confidence.GetOr(DefaultConfidence) && r.value.robotId == d.robotId
    ensures r.Some? ==> r.value.eventType == d.eventType.GetOr(VehicleDetected)
    ensures r.Some? ==> r.value.metadata == d.metadata.GetOr(map[])
  {
    var confidence := d.confidence.GetOr(DefaultConfidence);
    if d.slotId.None? || d.status.None? || !ConfidenceInRange(confidence) then None
    else
      Some(SensorEvent(d.slotId.value, d.status.value, confidence,
                       d.eventType.GetOr(VehicleDetected), d.robotId, d.metadata.GetOr(map[])))
  }
}
