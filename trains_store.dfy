/**
 * The trains store: the state the dashboard shows (the trains of the last
 * refresh, the active ones among them, the stations with their stop counts)
 * and the actions that refresh it from a reply of the trains endpoint or of
 * the stations endpoint, with the bounding box of the active trains computed
 * from it.
 */
module Store {
  import opened Wrappers
  import opened JsObjects
  import opened TrainTypes
  import opened Classification
  import opened Bounds
  import opened StationCounts

  /** `[train.lat, train.lng]` */
  function CoordOf(t: ActiveTrain): MapCoord
  {
    (t.lat.value, t.lng.value)
  }

  /** The coordinates of the active trains, in enumeration order. */
  function ActiveCoords(o: Obj<ActiveTrain>): seq<MapCoord>
    requires o.Valid()
  {
    seq(|o.keys|, i requires 0 <= i < |o.keys| => CoordOf(o.vals[o.keys[i]]))
  }

  /**
   * What a refresh establishes between `trainData` and `trainsActive`: the
   * active trains are exactly the trains in transit with truthy coordinates,
   * each the same record as in `trainData`, and every train in transit
   * carries the index of its next stop.
   */
  ghost predicate Consistent(data: Obj<TrainInfo>, active: Obj<ActiveTrain>)
  {
    && (forall k :: k in active.vals ==> k in data.vals && active.vals[k] == data.vals[k])
    && (forall k :: k in data.vals ==> (k in active.vals <==> IsActive(data.vals[k])))
    && (forall k :: k in data.vals && InTransit(data.vals[k]) ==> data.vals[k].next == Some(FindNext(data.vals[k].times)))
  }

  /** A refresh leaves the two objects well formed and consistent, whatever the feed. */
  lemma RefreshConsistent(o: Obj<TrainInfo>)
    requires o.Valid()
    ensures ClassifyAll(o).Valid() && ActiveOf(o).Valid()
    ensures Consistent(ClassifyAll(o), ActiveOf(o))
  {
    var data, active := ClassifyAll(o), ActiveOf(o);
    forall k | k in active.vals
      ensures k in data.vals && active.vals[k] == data.vals[k]
    {
    }
    forall k | k in data.vals
      ensures k in active.vals <==> IsActive(data.vals[k])
    {
      assert IsActive(data.vals[k]) <==> IsActive(o.vals[k]);
    }
    forall k | k in data.vals && InTransit(data.vals[k])
      ensures data.vals[k].next == Some(FindNext(data.vals[k].times))
    {
      assert InTransit(o.vals[k]);
    }
  }

  /** The `m`th coordinate is that of the `m`th active train. */
  lemma CoordAt(o: Obj<ActiveTrain>, m: int)
    requires o.Valid() && 0 <= m < |o.keys|
    ensures o.keys[m] in o.vals && ActiveCoords(o)[m] == CoordOf(o.vals[o.keys[m]])
  {
  }

  /** The box around the active trains holds every one of them, and its corners are ordered. */
  lemma ActiveBoxHolds(o: Obj<ActiveTrain>)
    requires o.Valid() && |o.vals| > 0
    ensures BoundsOf(ActiveCoords(o)).Some?
    ensures var b := BoundsOf(ActiveCoords(o)).value;
      && (forall k :: k in o.vals ==> Within(CoordOf(o.vals[k]), b))
      && b.0.0 <= b.1.0 && b.0.1 <= b.1.1
  {
    var cs := ActiveCoords(o);
    var k0 :| k0 in o.vals;
    assert k0 in o.keys;
    BoundsOrdered(cs);
    var b := BoundsOf(cs).value;
    forall k | k in o.vals ensures Within(CoordOf(o.vals[k]), b) {
      var m :| 0 <= m < |o.keys| && o.keys[m] == k;
      CoordAt(o, m);
    }
  }

  /** Each side of the box around the active trains is the coordinate of one of them. */
  lemma ActiveBoxTight(o: Obj<ActiveTrain>)
    requires o.Valid() && |o.vals| > 0
    ensures BoundsOf(ActiveCoords(o)).Some?
    ensures var b := BoundsOf(ActiveCoords(o)).value;
      && (exists k :: k in o.vals && CoordOf(o.vals[k]).0 == b.0.0)
      && (exists k :: k in o.vals && CoordOf(o.vals[k]).1 == b.0.1)
      && (exists k :: k in o.vals && CoordOf(o.vals[k]).0 == b.1.0)
      && (exists k :: k in o.vals && CoordOf(o.vals[k]).1 == b.1.1)
  {
    var cs := ActiveCoords(o);
    var k :| k in o.vals;
    assert k in o.keys;
    BoundsAttained(cs);
    var b := BoundsOf(cs).value;
    var i0 :| 0 <= i0 < |cs| && cs[i0].0 == b.0.0;
    var i1 :| 0 <= i1 < |cs| && cs[i1].1 == b.0.1;
    var i2 :| 0 <= i2 < |cs| && cs[i2].0 == b.1.0;
    var i3 :| 0 <= i3 < |cs| && cs[i3].1 == b.1.1;
    CoordAt(o, i0);
    CoordAt(o, i1);
    CoordAt(o, i2);
    CoordAt(o, i3);
  }

  /**
   * The `forEach` of `getTrainData`: every train in transit gets `next`
   * (written into the train itself), and those with truthy coordinates are
   * copied into a fresh active object.
   */
  method ClassifyTrains(trains: Obj<TrainInfo>) returns (data: Obj<TrainInfo>, active: Obj<ActiveTrain>)
    requires trains.Valid()
    ensures data == ClassifyAll(trains)
    ensures active == ActiveOf(trains)
  {
    var keys := trains.keys;
    var vals := trains.vals;
    var activeKeys: seq<string> := [];
    var activeVals: map<string, ActiveTrain> := map[];
    var i := 0;
    while i < |keys|
      invariant 0 <= i <= |keys|
      invariant vals == ClassifyEach(keys[..i], trains.vals)
      invariant activeKeys == ActiveKeys(keys[..i], trains.vals)
      invariant activeVals == ActiveEach(keys[..i], trains.vals)
    {
      var trainId := keys[i];
      assert trainId in trains.vals;
      VisitStep(keys, trains.vals, i);
      var train := trains.vals[trainId];
      if train.departed && !train.arrived {
        train := train.(next := Some(FindNext(train.times)));
        vals := vals[trainId := train];
        if Truthy(train.lat) && Truthy(train.lng) {
          activeKeys := activeKeys + [trainId];
          activeVals := activeVals[trainId := train];
        }
      }
      i := i + 1;
    }
    assert keys[..i] == keys;
    VisitAll(trains);
    data := Obj(keys, vals);
    active := Obj(activeKeys, activeVals);
  }

  /**
   * The inner loop of `getStationData`: each stop of one train counts once
   * against the station with its code, a placeholder `{ name }` being created
   * for a code the station object does not have yet.
   */
  method CountStops(stations: Obj<StationData>, times: seq<TrainTimes>) returns (counted: Obj<StationData>)
    ensures counted == Tally(stations, times)
  {
    counted := stations;
    var j := 0;
    while j < |times|
      invariant 0 <= j <= |times|
      invariant counted == Tally(stations, times[..j])
    {
      var stop := times[j];
      if stop.code !in counted.vals {
        counted := counted.Put(stop.code, StationData(stop.station, None, None));
      }
      var station := counted.vals[stop.code];
      counted := counted.Put(stop.code, station.(count := Some(CountOr0(station.count) + 1)));
      assert times[..j + 1][..j] == times[..j];
      j := j + 1;
    }
    assert times[..j] == times;
  }

  /** The outer loop of `getStationData`: the stops of every train, train by train. */
  method CountStations(trains: Obj<TrainInfo>, stations: Obj<StationData>) returns (counted: Obj<StationData>)
    requires trains.Valid()
    ensures counted == Tally(stations, StopsOf(trains.keys, trains.vals))
  {
    counted := stations;
    var i := 0;
    while i < |trains.keys|
      invariant 0 <= i <= |trains.keys|
      invariant counted == Tally(stations, StopsOf(trains.keys[..i], trains.vals))
    {
      var trainId := trains.keys[i];
      counted := CountStops(counted, trains.vals[trainId].times);
      TallyAppend(stations, StopsOf(trains.keys[..i], trains.vals), trains.vals[trainId].times);
      assert trains.keys[..i + 1][..i] == trains.keys[..i];
      i := i + 1;
    }
    assert trains.keys[..i] == trains.keys;
  }

  class TrainsStore {
    var trainData: Obj<TrainInfo>
    var trainsActive: Obj<ActiveTrain>
    var trainsInView: seq<string>
    var trainSelected: string
    var trainStatus: TrainStatus
    var stationSelected: string
    var stationData: Obj<StationData>

    /** The store's invariant: every object is well formed, and the train objects are consistent. */
    ghost predicate Valid()
      reads this
    {
      && trainData.Valid() && trainsActive.Valid() && stationData.Valid()
      && Consistent(trainData, trainsActive)
    }

    constructor ()
      ensures Valid()
      ensures |trainData.vals| == 0 && |trainsActive.vals| == 0 && |stationData.vals| == 0
      ensures trainsInView == [] && trainSelected == "" && stationSelected == ""
      ensures trainStatus == StatusDeparted
    {
      trainData := Empty();
      trainsActive := Empty();
      trainsInView := [];
      trainSelected := "";
      trainStatus := StatusDeparted;
      stationSelected := "";
      stationData := Empty();
    }

    /**
     * `mapBounds`: the box around the active trains, folded in enumeration
     * order; `None` (`null`) when no train is active.
     */
    method MapBounds() returns (bounds: Option<MapBoundary>)
      requires Valid()
      ensures bounds == BoundsOf(ActiveCoords(trainsActive))
      ensures bounds.None? <==> |trainsActive.vals| == 0
      ensures bounds.Some? ==> forall k :: k in trainsActive.vals ==> Within(CoordOf(trainsActive.vals[k]), bounds.value)
      ensures bounds.Some? ==> bounds.value.0.0 <= bounds.value.1.0 && bounds.value.0.1 <= bounds.value.1.1
      ensures bounds.Some? ==>
        && (exists k :: k in trainsActive.vals && CoordOf(trainsActive.vals[k]).0 == bounds.value.0.0)
        && (exists k :: k in trainsActive.vals && CoordOf(trainsActive.vals[k]).1 == bounds.value.0.1)
        && (exists k :: k in trainsActive.vals && CoordOf(trainsActive.vals[k]).0 == bounds.value.1.0)
        && (exists k :: k in trainsActive.vals && CoordOf(trainsActive.vals[k]).1 == bounds.value.1.1)
    {
      ghost var cs := ActiveCoords(trainsActive);
      bounds := None;
      var i := 0;
      while i < |trainsActive.keys|
        invariant 0 <= i <= |trainsActive.keys|
        invariant bounds == BoundsOf(cs[..i])
      {
        CoordAt(trainsActive, i);
        BoundsStep(cs, i);
        var train := trainsActive.vals[trainsActive.keys[i]];
        if bounds.None? {
          bounds := Some(((train.lat.value, train.lng.value), (train.lat.value, train.lng.value)));
        } else {
          bounds := Some((
            (Min(bounds.value.0.0, train.lat.value), Min(bounds.value.0.1, train.lng.value)),
            (Max(bounds.value.1.0, train.lat.value), Max(bounds.value.1.1, train.lng.value))));
        }
        i := i + 1;
      }
      assert cs[..i] == cs;
      if bounds.Some? {
        ActiveBoxHolds(trainsActive);
        ActiveBoxTight(trainsActive);
      }
    }

    /**
     * The body of `getTrainData` once the reply is in: with an ok reply and a
     * truthy body, every train in transit gets `next`, the trains in transit
     * with truthy coordinates are copied into a fresh active object, and both
     * objects replace the store's; otherwise nothing changes.
     */
    method ApplyTrainResponse(reply: Reply<Option<Obj<TrainInfo>>>)
      requires Valid()
      requires reply.Answered? && reply.body.Some? ==> reply.body.value.Valid()
      modifies this`trainData, this`trainsActive
      ensures Valid()
      ensures reply.Answered? && reply.ok && reply.body.Some? ==>
        trainData == ClassifyAll(reply.body.value) && trainsActive == ActiveOf(reply.body.value)
      ensures trainsActive.vals.Keys <= trainData.vals.Keys
      ensures !(reply.Answered? && reply.ok && reply.body.Some?) ==>
        trainData == old(trainData) && trainsActive == old(trainsActive)
    {
      if reply.Threw? || !reply.ok || reply.body.None? {
        return;
      }
      var trains := reply.body.value;
      var data, active := ClassifyTrains(trains);
      RefreshConsistent(trains);
      trainsActive := active;
      trainData := data;
    }

    /**
     * The body of `getStationData` once the reply is in: with an ok reply that
     * carries a station object, every stop of every train in `trainData` is
     * counted against its station, and the counted object replaces the
     * store's; otherwise nothing changes. An `error` in the reply is only
     * logged. The action has no `catch`: a fetch or parse that throws (a
     * `null` body among them) rejects the action, reported as `rejected`.
     */
    method ApplyStationResponse(reply: Reply<StationsBody>) returns (rejected: bool)
      requires Valid()
      requires reply.Answered? && reply.body.stations.Some? ==> reply.body.stations.value.Valid()
      modifies this`stationData
      ensures rejected <==> reply.Threw?
      ensures Valid()
      ensures reply.Answered? && reply.ok && reply.body.stations.Some? ==>
        stationData == Tally(reply.body.stations.value, StopsOf(trainData.keys, trainData.vals))
      ensures !(reply.Answered? && reply.ok && reply.body.stations.Some?) ==>
        stationData == old(stationData)
    {
      rejected := reply.Threw?;
      if reply.Threw? || !reply.ok || reply.body.stations.None? {
        return;
      }
      var stations := reply.body.stations.value;
      var counted := CountStations(trainData, stations);
      TallyValid(stations, StopsOf(trainData.keys, trainData.vals));
      stationData := counted;
    }
  }
}
