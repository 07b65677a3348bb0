/**
 * The departures response turned into journey records (MMM-Skyss.js, the
 * response callback inside getStopInfo).
 *
 * The parsed JSON is taken as a datatype. Instants (`AimedTime`, the realtime
 * estimate, each record's `Timestamp`) are the local-clock milliseconds that
 * `new Date(...)` reads from the stored value.
 */
module Projection {
  import opened Wrappers
  import opened DisplayTime

  /** One entry of `PassingTimes`. */
  datatype PassingTime = PassingTime(
    stopIdentifier: string,
    displayTime: string,
    aimedTime: int,
    status: string,
    routePublicIdentifier: string,
    tripDestination: string,
    serviceMode: string,
    platform: Option<string>)

  /** One value of the `Stops` dictionary. */
  datatype Stop = Stop(description: string)

  datatype Response = Response(passingTimes: seq<PassingTime>, stops: map<string, Stop>)

  datatype JourneyTime = JourneyTime(timestamp: int, status: string)

  /** One departure record, as pushed onto `allStopItems`. */
  datatype Journey = Journey(
    stopId: string,
    stopName: string,
    lineName: string,
    destinationName: string,
    service: string,
    time: JourneyTime,
    platform: string)

  /** The projection throws when a passing time names a stop the response does not describe. */
  datatype ProjectionError = UnknownStop(stopIdentifier: string)

  /**
   * The instant stored for a realtime moment. An invalid moment's
   * `toISOString()` is null, which `new Date` reads as the epoch.
   */
  function MomentInstant(m: Moment): int {
    match m
    case At(t) => t
    case InvalidDate => 0
  }

  /** The record timestamp: the realtime estimate when enabled and present, else `AimedTime`. */
  function Timestamp(pt: PassingTime, useRealtime: bool, now: int): int {
    var estimate := RealtimeEstimate(pt.displayTime, now);
    if useRealtime && estimate.Some? then MomentInstant(estimate.value) else pt.aimedTime
  }

  /** `journey` is the record the callback builds for `pt`, whose stop is `stop`. */
  predicate Projects(pt: PassingTime, stop: Stop, useRealtime: bool, now: int, journey: Journey) {
    journey.stopId == pt.stopIdentifier &&
    journey.stopName == stop.description &&
    journey.lineName == pt.routePublicIdentifier &&
    journey.destinationName == pt.tripDestination &&
    journey.service == pt.serviceMode &&
    journey.time == JourneyTime(Timestamp(pt, useRealtime, now), pt.status) &&
    journey.platform == (if pt.platform.Some? then pt.platform.value else "")
  }

  /** Every passing time's stop is described in the response. */
  predicate StopsKnown(response: Response) {
    forall j :: 0 <= j < |response.passingTimes| ==> response.passingTimes[j].stopIdentifier in response.stops
  }

  /**
   * The callback's loop: one record per passing time, in order, or the error
   * raised at the first passing time whose stop is missing.
   */
  method ProjectResponse(departure: Response, useRealtime: bool, now: int)
    returns (result: Result<seq<Journey>, ProjectionError>)
    ensures result.Success? <==> StopsKnown(departure)
    ensures result.Success? ==>
      |result.value| == |departure.passingTimes| &&
      forall j :: 0 <= j < |result.value| ==>
        Projects(departure.passingTimes[j], departure.stops[departure.passingTimes[j].stopIdentifier],
                 useRealtime, now, result.value[j])
    ensures result.Failure? ==>
      exists j :: 0 <= j < |departure.passingTimes| &&
        result.error.stopIdentifier == departure.passingTimes[j].stopIdentifier &&
        result.error.stopIdentifier !in departure.stops &&
        forall p :: 0 <= p < j ==> departure.passingTimes[p].stopIdentifier in departure.stops
  {
    var times := departure.passingTimes;
    var allStopItems: seq<Journey> := [];
    var j := 0;
    while j < |times|
      invariant 0 <= j <= |times|
      invariant |allStopItems| == j
      invariant forall p :: 0 <= p < j ==> times[p].stopIdentifier in departure.stops
      invariant forall p :: 0 <= p < j ==>
        Projects(times[p], departure.stops[times[p].stopIdentifier], useRealtime, now, allStopItems[p])
    {
      var journey := times[j];
      if journey.stopIdentifier !in departure.stops {
        return Failure(UnknownStop(journey.stopIdentifier));
      }
      var stop := departure.stops[journey.stopIdentifier];
      var timestamp: int;
      var realtimeStamp := ProcessSkyssDisplaytime(journey.displayTime, now);
      if useRealtime && realtimeStamp.Some? {
        timestamp := MomentInstant(realtimeStamp.value);
      } else {
        timestamp := journey.aimedTime;
      }
      allStopItems := allStopItems + [Journey(
        journey.stopIdentifier,
        stop.description,
        journey.routePublicIdentifier,
        journey.tripDestination,
        journey.serviceMode,
        JourneyTime(timestamp, journey.status),
        if journey.platform.Some? then journey.platform.value else "")];
      j := j + 1;
    }
    return Success(allStopItems);
  }

  /** The scheduled time is used unchanged unless realtime is enabled and the display time yields an estimate. */
  lemma TimestampChoice(pt: PassingTime, useRealtime: bool, now: int)
    ensures Timestamp(pt, useRealtime, now) != pt.aimedTime ==>
      useRealtime && RealtimeEstimate(pt.displayTime, now).Some?
    ensures !useRealtime ==> Timestamp(pt, useRealtime, now) == pt.aimedTime
    ensures RealtimeEstimate(pt.displayTime, now).None? ==> Timestamp(pt, useRealtime, now) == pt.aimedTime
  {
  }

  /** A timestamp taken from a valid realtime estimate never lies before `now`. */
  lemma RealtimeTimestampNotBeforeNow(pt: PassingTime, now: int)
    requires RealtimeEstimate(pt.displayTime, now).Some? && RealtimeEstimate(pt.displayTime, now).value.At?
    ensures now <= Timestamp(pt, true, now)
  {
    EstimateNotBeforeNow(pt.displayTime, now);
  }
}
