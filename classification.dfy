/**
 * What a train refresh derives from each train of the feed: the index of its
 * next stop, and whether it is active (can be put on the map).
 */
module Classification {
  import opened Wrappers
  import opened JsObjects
  import opened TrainTypes

  /**
   * `times.findIndex(station => station.eta !== "ARR")`: the first stop the
   * train has not reached yet, or -1 when it has reached them all.
   */
  function FindNext(times: seq<TrainTimes>): (r: int)
    ensures -1 <= r < |times|
    ensures r == -1 <==> forall i :: 0 <= i < |times| ==> times[i].eta == Arrived
    ensures r != -1 ==> times[r].eta != Arrived && forall i :: 0 <= i < r ==> times[i].eta == Arrived
  {
    if |times| == 0 then -1
    else if times[0].eta != Arrived then 0
    else
      var r := FindNext(times[1..]);
      if r == -1 then -1 else r + 1
  }

  /** JavaScript truthiness of an optional number: present and not 0 (a JSON value is never NaN). */
  predicate Truthy(x: Option<real>)
  {
    x.Some? && x.value != 0.0
  }

  /** `train.departed && !train.arrived` */
  predicate InTransit(t: TrainInfo)
  {
    t.departed && !t.arrived
  }

  /** In transit, and both coordinates are truthy. */
  predicate IsActive(t: TrainInfo)
  {
    InTransit(t) && Truthy(t.lat) && Truthy(t.lng)
  }

  /** The train as the refresh leaves it: a train in transit gets `next`, any other is untouched. */
  function Classify(t: TrainInfo): (r: TrainInfo)
    ensures !InTransit(t) ==> r == t
    ensures InTransit(t) ==> r == t.(next := r.next) && r.next.Some?
    ensures InTransit(t) ==> var n := r.next.value;
      && -1 <= n < |t.times|
      && (n == -1 <==> forall i :: 0 <= i < |t.times| ==> t.times[i].eta == Arrived)
      && (n != -1 ==> t.times[n].eta != Arrived && forall i :: 0 <= i < n ==> t.times[i].eta == Arrived)
  {
    if InTransit(t) then t.(next := Some(FindNext(t.times))) else t
  }

  /** The keys of the active trains, in the enumeration order of `keys`. */
  function ActiveKeys(keys: seq<string>, trains: map<string, TrainInfo>): seq<string>
    decreases |keys|
  {
    if |keys| == 0 then []
    else
      var k := keys[|keys| - 1];
      ActiveKeys(keys[..|keys| - 1], trains) + (if k in trains && IsActive(trains[k]) then [k] else [])
  }

  /** The active keys are the keys of the active trains, each once when the keys are distinct. */
  lemma {:induction false} ActiveKeysAt(keys: seq<string>, trains: map<string, TrainInfo>)
    ensures forall k :: k in ActiveKeys(keys, trains) <==> k in keys && k in trains && IsActive(trains[k])
    ensures Distinct(keys) ==> Distinct(ActiveKeys(keys, trains))
    decreases |keys|
  {
    if |keys| > 0 {
      var init := keys[..|keys| - 1];
      ActiveKeysAt(init, trains);
      assert forall k :: k in keys <==> k in init || k == keys[|keys| - 1];
    }
  }

  /**
   * The trains after the `forEach` has visited the trains named in `keys`, in
   * that order: each one in transit has had `next` written into it.
   */
  function ClassifyEach(keys: seq<string>, trains: map<string, TrainInfo>): map<string, TrainInfo>
    decreases |keys|
  {
    if |keys| == 0 then trains
    else
      var k := keys[|keys| - 1];
      var r := ClassifyEach(keys[..|keys| - 1], trains);
      if k in trains && InTransit(trains[k]) then r[k := Classify(trains[k])] else r
  }

  /** The active object the `forEach` has built after visiting the trains named in `keys`. */
  function ActiveEach(keys: seq<string>, trains: map<string, TrainInfo>): map<string, ActiveTrain>
    decreases |keys|
  {
    if |keys| == 0 then map[]
    else
      var k := keys[|keys| - 1];
      var r := ActiveEach(keys[..|keys| - 1], trains);
      if k in trains && IsActive(trains[k]) then r[k := Classify(trains[k])] else r
  }

  /** `trainData` after a refresh with the feed `o`. */
  function ClassifyAll(o: Obj<TrainInfo>): (r: Obj<TrainInfo>)
    ensures r.keys == o.keys && r.vals.Keys == o.vals.Keys
    ensures o.Valid() ==> r.Valid()
    ensures forall k :: k in o.vals && !InTransit(o.vals[k]) ==> r.vals[k] == o.vals[k]
    ensures forall k :: k in o.vals && InTransit(o.vals[k]) ==>
      r.vals[k] == o.vals[k].(next := Some(FindNext(o.vals[k].times)))
  {
    Obj(o.keys, map k | k in o.vals :: Classify(o.vals[k]))
  }

  /** `trainsActive` after a refresh with the feed `o`: `{ lat, lng, ...train }` for every active train. */
  function ActiveOf(o: Obj<TrainInfo>): (r: Obj<ActiveTrain>)
    ensures o.Valid() ==> r.Valid()
    ensures forall k :: k in r.vals <==> k in o.vals && IsActive(o.vals[k])
    ensures forall k :: k in r.vals ==> r.vals[k] == ClassifyAll(o).vals[k]
    ensures forall k :: k in r.vals ==> Truthy(r.vals[k].lat) && r.vals[k].lat == o.vals[k].lat
    ensures forall k :: k in r.vals ==> Truthy(r.vals[k].lng) && r.vals[k].lng == o.vals[k].lng
  {
    ActiveKeysAt(o.keys, o.vals);
    Obj(ActiveKeys(o.keys, o.vals), map k | k in o.vals && IsActive(o.vals[k]) :: Classify(o.vals[k]))
  }

  /** A visited train in transit carries `next`; every other train is as the feed gave it. */
  lemma {:induction false} ClassifyEachAt(keys: seq<string>, trains: map<string, TrainInfo>)
    ensures ClassifyEach(keys, trains).Keys == trains.Keys
    ensures forall k :: k in trains ==>
      ClassifyEach(keys, trains)[k] == if k in keys then Classify(trains[k]) else trains[k]
    decreases |keys|
  {
    if |keys| > 0 {
      var init := keys[..|keys| - 1];
      ClassifyEachAt(init, trains);
      assert forall k :: k in keys <==> k in init || k == keys[|keys| - 1];
    }
  }

  /** The active object holds exactly the visited active trains, each with `next` written in. */
  lemma {:induction false} ActiveEachAt(keys: seq<string>, trains: map<string, TrainInfo>)
    ensures forall k :: k in ActiveEach(keys, trains) <==> k in keys && k in trains && IsActive(trains[k])
    ensures forall k :: k in ActiveEach(keys, trains) ==> ActiveEach(keys, trains)[k] == Classify(trains[k])
    decreases |keys|
  {
    if |keys| > 0 {
      var init := keys[..|keys| - 1];
      ActiveEachAt(init, trains);
      assert forall k :: k in keys <==> k in init || k == keys[|keys| - 1];
    }
  }

  /** Visiting the train `keys[i]` after those before it extends the three folds by that train alone. */
  lemma VisitStep(keys: seq<string>, trains: map<string, TrainInfo>, i: int)
    requires 0 <= i < |keys| && keys[i] in trains
    ensures var k, t := keys[i], trains[keys[i]];
      && ClassifyEach(keys[..i + 1], trains)
         == (if InTransit(t) then ClassifyEach(keys[..i], trains)[k := Classify(t)] else ClassifyEach(keys[..i], trains))
      && ActiveKeys(keys[..i + 1], trains) == ActiveKeys(keys[..i], trains) + (if IsActive(t) then [k] else [])
      && ActiveEach(keys[..i + 1], trains)
         == (if IsActive(t) then ActiveEach(keys[..i], trains)[k := Classify(t)] else ActiveEach(keys[..i], trains))
  {
    assert keys[..i + 1][..i] == keys[..i];
  }

  /** Visiting every train of the feed in enumeration order yields `trainData` and the active trains. */
  lemma VisitAll(o: Obj<TrainInfo>)
    requires o.Valid()
    ensures ClassifyEach(o.keys, o.vals) == ClassifyAll(o).vals
    ensures ActiveEach(o.keys, o.vals) == ActiveOf(o).vals
  {
    ClassifyEachAt(o.keys, o.vals);
    ActiveEachAt(o.keys, o.vals);
  }
}
