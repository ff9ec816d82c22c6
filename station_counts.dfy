/**
 * The station join of a station refresh: every stop of every train counts
 * once against the station with the stop's code; a code the station list
 * does not know gets a placeholder station named after the stop.
 */
module StationCounts {
  import opened Wrappers
  import opened JsObjects
  import opened TrainTypes

  /** Every stop of every train: train by train in the order of `keys`, stop by stop within a train. */
  function StopsOf(keys: seq<string>, trains: map<string, TrainInfo>): seq<TrainTimes>
    decreases |keys|
  {
    if |keys| == 0 then []
    else
      var k := keys[|keys| - 1];
      StopsOf(keys[..|keys| - 1], trains) + (if k in trains then trains[k].times else [])
  }

  /** `count ??= 0` */
  function CountOr0(count: Option<int>): int
  {
    if count.Some? then count.value else 0
  }

  /** The count a station starts with before any stop is counted: its own, or 0. */
  function BaseCount(st: Obj<StationData>, code: string): int
  {
    if code in st.vals then CountOr0(st.vals[code].count) else 0
  }

  /** Count one stop: create `{ name: stop.station }` when the code is unknown, then increment its `count`. */
  function Bump(st: Obj<StationData>, stop: TrainTimes): Obj<StationData>
  {
    var known := if stop.code in st.vals then st else st.Put(stop.code, StationData(stop.station, None, None));
    var s := known.vals[stop.code];
    known.Put(stop.code, s.(count := Some(CountOr0(s.count) + 1)))
  }

  /** The station object after counting `stops` one by one, in order. */
  function Tally(st: Obj<StationData>, stops: seq<TrainTimes>): Obj<StationData>
    decreases |stops|
  {
    if |stops| == 0 then st
    else Bump(Tally(st, stops[..|stops| - 1]), stops[|stops| - 1])
  }

  /** Counting the stops of one train after those before it continues the same fold. */
  lemma {:induction false} TallyAppend(st: Obj<StationData>, done: seq<TrainTimes>, times: seq<TrainTimes>)
    ensures Tally(st, done + times) == Tally(Tally(st, done), times)
    decreases |times|
  {
    if |times| == 0 {
      assert done + times == done;
    } else {
      var init := times[..|times| - 1];
      TallyAppend(st, done, init);
      assert (done + times)[..|done + times| - 1] == done + init;
    }
  }

  /** How many of `stops` have the code `code`. */
  function Occurrences(stops: seq<TrainTimes>, code: string): (r: nat)
    ensures r <= |stops|
    decreases |stops|
  {
    if |stops| == 0 then 0
    else Occurrences(stops[..|stops| - 1], code) + (if stops[|stops| - 1].code == code then 1 else 0)
  }

  /** A code occurs exactly when some stop carries it. */
  lemma {:induction false} OccursIff(stops: seq<TrainTimes>, code: string)
    ensures Occurrences(stops, code) == 0 <==> forall i :: 0 <= i < |stops| ==> stops[i].code != code
    decreases |stops|
  {
    if |stops| > 0 {
      var init := stops[..|stops| - 1];
      OccursIff(init, code);
      assert forall i :: 0 <= i < |init| ==> init[i] == stops[i];
    }
  }

  /** The index of the first stop with the code `code`, or -1 when there is none. */
  function FirstWith(stops: seq<TrainTimes>, code: string): (r: int)
    ensures -1 <= r < |stops|
    ensures r == -1 <==> forall i :: 0 <= i < |stops| ==> stops[i].code != code
    ensures r != -1 ==> stops[r].code == code && forall i :: 0 <= i < r ==> stops[i].code != code
    decreases |stops|
  {
    if |stops| == 0 then -1
    else
      var r := FirstWith(stops[..|stops| - 1], code);
      if r != -1 then r
      else if stops[|stops| - 1].code == code then |stops| - 1
      else -1
  }

  /** Counting keeps the object well formed; stations already present keep their place in the enumeration order. */
  lemma {:induction false} TallyValid(st: Obj<StationData>, stops: seq<TrainTimes>)
    requires st.Valid()
    ensures Tally(st, stops).Valid()
    ensures |st.keys| <= |Tally(st, stops).keys| && Tally(st, stops).keys[..|st.keys|] == st.keys
    decreases |stops|
  {
    if |stops| > 0 {
      var init := stops[..|stops| - 1];
      TallyValid(st, init);
    }
  }

  /** The stations after counting are those before, plus one for every code that occurs. */
  lemma {:induction false} TallyKeys(st: Obj<StationData>, stops: seq<TrainTimes>, code: string)
    ensures code in Tally(st, stops).vals <==> code in st.vals || Occurrences(stops, code) > 0
    decreases |stops|
  {
    if |stops| > 0 {
      TallyKeys(st, stops[..|stops| - 1], code);
    }
  }

  /** A station whose code no stop carries is left exactly as it was. */
  lemma {:induction false} TallyUntouched(st: Obj<StationData>, stops: seq<TrainTimes>, code: string)
    requires Occurrences(stops, code) == 0
    ensures code in Tally(st, stops).vals <==> code in st.vals
    ensures code in st.vals ==> Tally(st, stops).vals[code] == st.vals[code]
    decreases |stops|
  {
    if |stops| > 0 {
      TallyUntouched(st, stops[..|stops| - 1], code);
    }
  }

  /** A code that occurs ends with its starting count (or 0) plus the number of stops that carry it. */
  lemma {:induction false} TallyCount(st: Obj<StationData>, stops: seq<TrainTimes>, code: string)
    requires Occurrences(stops, code) > 0
    ensures code in Tally(st, stops).vals
    ensures Tally(st, stops).vals[code].count == Some(BaseCount(st, code) + Occurrences(stops, code))
    decreases |stops|
  {
    var init, last := stops[..|stops| - 1], stops[|stops| - 1];
    var before := Tally(st, init);
    assert Tally(st, stops) == Bump(before, last);
    BumpOne(before, last, code);
    if Occurrences(init, code) > 0 {
      TallyCount(st, init, code);
    } else {
      TallyUntouched(st, init, code);
    }
  }

  /** Counting one stop adds one to its own station and leaves every other code as it was. */
  lemma BumpOne(st: Obj<StationData>, stop: TrainTimes, code: string)
    ensures stop.code == code ==>
      code in Bump(st, stop).vals && Bump(st, stop).vals[code].count == Some(BaseCount(st, code) + 1)
    ensures stop.code != code ==>
      (code in Bump(st, stop).vals <==> code in st.vals)
      && (code in st.vals ==> Bump(st, stop).vals[code] == st.vals[code])
  {
  }

  /** A station already in the list keeps its name and coordinates. */
  lemma {:induction false} TallyKeepsStation(st: Obj<StationData>, stops: seq<TrainTimes>, code: string)
    requires code in st.vals
    ensures code in Tally(st, stops).vals
    ensures Tally(st, stops).vals[code].name == st.vals[code].name
    ensures Tally(st, stops).vals[code].coords == st.vals[code].coords
    decreases |stops|
  {
    if |stops| > 0 {
      TallyKeepsStation(st, stops[..|stops| - 1], code);
    }
  }

  /**
   * A code missing from the list gets a placeholder named after the first
   * stop that carries it, without coordinates.
   */
  lemma {:induction false} TallyPlaceholder(st: Obj<StationData>, stops: seq<TrainTimes>, code: string)
    requires code !in st.vals && FirstWith(stops, code) != -1
    ensures code in Tally(st, stops).vals
    ensures Tally(st, stops).vals[code].name == stops[FirstWith(stops, code)].station
    ensures Tally(st, stops).vals[code].coords == None
    decreases |stops|
  {
    var init := stops[..|stops| - 1];
    var last := stops[|stops| - 1];
    var before := Tally(st, init);
    assert Tally(st, stops) == Bump(before, last);
    if FirstWith(init, code) != -1 {
      TallyPlaceholder(st, init, code);
    } else {
      OccursIff(init, code);
      TallyUntouched(st, init, code);
    }
    BumpKeepsName(before, last, code);
  }

  /** Counting one stop keeps the name and coordinates of a station already present, and creates a missing one from the stop. */
  lemma BumpKeepsName(st: Obj<StationData>, stop: TrainTimes, code: string)
    ensures code in st.vals ==>
      (code in Bump(st, stop).vals
       && Bump(st, stop).vals[code].name == st.vals[code].name
       && Bump(st, stop).vals[code].coords == st.vals[code].coords)
    ensures code !in st.vals && stop.code == code ==>
      (code in Bump(st, stop).vals
       && Bump(st, stop).vals[code].name == stop.station
       && Bump(st, stop).vals[code].coords == None)
  {
  }

  /** Counting is additive over a concatenation. */
  lemma {:induction false} OccurrencesAppend(a: seq<TrainTimes>, b: seq<TrainTimes>, code: string)
    ensures Occurrences(a + b, code) == Occurrences(a, code) + Occurrences(b, code)
    decreases |b|
  {
    if |b| == 0 {
      assert a + b == a;
    } else {
      var init := b[..|b| - 1];
      OccurrencesAppend(a, init, code);
      assert (a + b)[..|a + b| - 1] == a + init;
    }
  }

  /** The stops of one train, as (train, stop index) pairs, that carry `code`. */
  ghost function StopPairs(k: string, times: seq<TrainTimes>, code: string): set<(string, int)>
  {
    set i | 0 <= i < |times| && times[i].code == code :: (k, i)
  }

  /** Every (train, stop index) pair, over the trains named in `keys`, whose stop carries `code`. */
  ghost function PairsWith(keys: seq<string>, trains: map<string, TrainInfo>, code: string): set<(string, int)>
  {
    set k, i | k in keys && k in trains && 0 <= i < |trains[k].times| && trains[k].times[i].code == code :: (k, i)
  }

  /** The pairs of a train's stops are those of all but its last stop, plus the last one if it matches. */
  lemma StopPairsSnoc(k: string, times: seq<TrainTimes>, code: string)
    requires |times| > 0
    ensures var n := |times| - 1;
      StopPairs(k, times, code)
      == StopPairs(k, times[..n], code) + (if times[n].code == code then {(k, n)} else {})
  {
    var n := |times| - 1;
    var init := times[..n];
    forall p | p in StopPairs(k, times, code)
      ensures p in StopPairs(k, init, code) + (if times[n].code == code then {(k, n)} else {})
    {
      var i :| 0 <= i < |times| && times[i].code == code && p == (k, i);
      if i < n {
        assert init[i] == times[i];
      }
    }
    forall p | p in StopPairs(k, init, code) ensures p in StopPairs(k, times, code) {
      var i :| 0 <= i < |init| && init[i].code == code && p == (k, i);
      assert times[i] == init[i];
    }
  }

  /** A train's stops that carry `code`, as pairs, are as many as `Occurrences` counts. */
  lemma {:induction false} StopPairsCount(k: string, times: seq<TrainTimes>, code: string)
    ensures |StopPairs(k, times, code)| == Occurrences(times, code)
    decreases |times|
  {
    if |times| > 0 {
      var n := |times| - 1;
      var before := StopPairs(k, times[..n], code);
      StopPairsCount(k, times[..n], code);
      StopPairsSnoc(k, times, code);
      if times[n].code == code {
        assert (k, n) !in before;
        assert |before + {(k, n)}| == |before| + 1;
      }
    }
  }

  /** The pairs over `keys` are those over all but its last key, plus those of the last train. */
  lemma PairsWithSnoc(keys: seq<string>, trains: map<string, TrainInfo>, code: string)
    requires |keys| > 0
    ensures var k := keys[|keys| - 1];
      PairsWith(keys, trains, code)
      == PairsWith(keys[..|keys| - 1], trains, code) + StopPairs(k, if k in trains then trains[k].times else [], code)
  {
    var init, k := keys[..|keys| - 1], keys[|keys| - 1];
    var times := if k in trains then trains[k].times else [];
    forall p | p in PairsWith(keys, trains, code)
      ensures p in PairsWith(init, trains, code) + StopPairs(k, times, code)
    {
      var j, i :| j in keys && j in trains && 0 <= i < |trains[j].times| && trains[j].times[i].code == code && p == (j, i);
      if j != k {
        var m :| 0 <= m < |keys| && keys[m] == j;
        assert init[m] == j;
      }
    }
  }

  /**
   * The stops `StopsOf` lists carrying `code` are exactly the (train, stop)
   * pairs carrying it: over a list of distinct train keys, their number is
   * the number of such pairs.
   */
  lemma {:induction false} OccurrencesArePairs(keys: seq<string>, trains: map<string, TrainInfo>, code: string)
    requires Distinct(keys)
    ensures Occurrences(StopsOf(keys, trains), code) == |PairsWith(keys, trains, code)|
    decreases |keys|
  {
    if |keys| > 0 {
      var init, k := keys[..|keys| - 1], keys[|keys| - 1];
      var times := if k in trains then trains[k].times else [];
      OccurrencesArePairs(init, trains, code);
      OccurrencesAppend(StopsOf(init, trains), times, code);
      StopPairsCount(k, times, code);
      PairsWithSnoc(keys, trains, code);
      assert k !in init;
      assert PairsWith(init, trains, code) !! StopPairs(k, times, code);
    }
  }

  /**
   * The station join over a whole feed: a code carried by some (train, stop)
   * pair ends with its starting count (or 0) plus the number of such pairs;
   * a code no pair carries leaves its station, or its absence, as it was.
   */
  lemma StationCountIsPairs(trains: Obj<TrainInfo>, st: Obj<StationData>, code: string)
    requires trains.Valid()
    ensures var r, n := Tally(st, StopsOf(trains.keys, trains.vals)), |PairsWith(trains.keys, trains.vals, code)|;
      && (n > 0 ==> code in r.vals && r.vals[code].count == Some(BaseCount(st, code) + n))
      && (n == 0 ==> (code in r.vals <==> code in st.vals) && (code in st.vals ==> r.vals[code] == st.vals[code]))
  {
    var stops := StopsOf(trains.keys, trains.vals);
    OccurrencesArePairs(trains.keys, trains.vals, code);
    if Occurrences(stops, code) > 0 {
      TallyCount(st, stops, code);
    } else {
      TallyUntouched(st, stops, code);
    }
  }
}
