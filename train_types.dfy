/**
 * The records the store keeps: one train of the real-time feed with its list
 * of stops, a station, a coordinate and a bounding box, and what a network
 * request hands back to the store.
 */
module TrainTypes {
  import opened Wrappers
  import opened JsObjects

  /** Scheduled and estimated time of an arrival or a departure. */
  datatype StopTime = StopTime(estimated: string, scheduled: string)

  /** One stop of a train's journey; `eta` reads "ARR" once the train has called there. */
  datatype TrainTimes = TrainTimes(
    station: string,
    code: string,
    estimated: string,
    scheduled: string,
    eta: string,
    diff: string,
    diffMin: real,
    arrival: Option<StopTime>,
    departure: Option<StopTime>)

  /** One train of the feed; `next` is filled in by the store. */
  datatype TrainInfo = TrainInfo(
    departed: bool,
    arrived: bool,
    from: string,
    to: string,
    instance: string,
    times: seq<TrainTimes>,
    lat: Option<real>,
    lng: Option<real>,
    speed: Option<real>,
    direction: Option<real>,
    poll: Option<string>,
    pollMin: Option<real>,
    next: Option<int>)

  /** The `eta` of a stop the train has already reached. */
  const Arrived := "ARR"

  /** A train whose position is known: `lat` and `lng` are required. */
  type ActiveTrain = t: TrainInfo | t.lat.Some? && t.lng.Some?
    witness TrainInfo(false, false, "", "", "", [], Some(0.0), Some(0.0), None, None, None, None, None)

  /** `[lat, lng]` */
  type MapCoord = (real, real)

  /** `[min corner, max corner]` */
  type MapBoundary = (MapCoord, MapCoord)

  /** The train list's status filter. */
  datatype TrainStatus = StatusArrived | StatusDeparted | StatusScheduled | StatusAll

  /** A station; `count` is the number of train stops that reference it. */
  datatype StationData = StationData(name: string, coords: Option<MapCoord>, count: Option<int>)

  /** The body of the station endpoint's reply: `{ stations, error }`. */
  datatype StationsBody = StationsBody(stations: Option<Obj<StationData>>, error: Option<string>)

  /**
   * What `fetch` followed by `response.json()` yields: either something threw
   * (a network failure, a body that does not parse), or a response with its
   * `ok` flag and its parsed body.
   */
  datatype Reply<T> = Threw | Answered(ok: bool, body: T)
}
