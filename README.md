# Trains store model

This project is a Dafny model of the client-side trains store of a live train
map dashboard. The store holds these pieces of state:

- `trainData`: the trains of the last refresh, keyed by train id;
- `trainsActive`: the trains that are in transit and have a position;
- `stationData`: the stations, keyed by station code, each with a count of the
  stops that reference it;
- the UI selections `trainsInView`, `trainSelected`, `trainStatus` and
  `stationSelected`.

The store has three pieces of logic, each modelled as an imperative method of
the `TrainsStore` class (or a loop it calls) and proved against a
specification function:

- **Train refresh** (`getTrainData`). Each train that has departed and not
  arrived gets `next`, the index of its first stop whose `eta` is not `"ARR"`
  (or -1). Among those trains, the ones with truthy `lat` and `lng` are
  copied into a fresh active object. Both objects then replace the store's.
  A failed, non-ok or falsy reply changes nothing.
- **Map bounds** (`mapBounds`). A loop folds the active trains' coordinates
  into a running min corner and max corner. The result is `null` when no
  train is active.
- **Station join** (`getStationData`). Every stop of every train adds one to
  the `count` of the station with the stop's code. When the code is unknown,
  a placeholder `{ name }` is created first. The counted object replaces
  `stationData`. This happens only when the reply is ok and carries
  `stations`; an `error` field is only logged.

The modules are:

- `JsObjects`: JavaScript plain objects as `Obj<V>`, a key sequence in
  enumeration order plus a map. Assigning to a new key appends it to the
  order, so "the first stop seen" is well defined.
- `TrainTypes`: the records of `src/util/types.ts` and the store's
  `StationData`.
- `Classification`: the per-train logic of a refresh.
- `Bounds`: the bounding-box fold and its properties.
- `StationCounts`: the station join and its properties.
- `Store`: the loops and the `TrainsStore` class.

The fetches are parameters. A reply is `Threw` (the fetch or the JSON parse
threw) or `Answered(ok, body)`. A falsy JSON body is `None`.

Four details of the code shape the model:

- **No categorized lists.** The store builds no scheduled, departed or
  arrived lists. Only `trainsActive` is collected; `trainStatus` filters the
  trains in the UI.
- **Live positions only.** `mapBounds` folds only the live positions of the
  active trains.
- **Truthy coordinates.** A `lat` or `lng` of 0 is falsy, so it keeps a
  train off the map.
- **Counts start from the list.** A station's `count` starts from the count
  the station list already carries (`??= 0`), or 0 when it has none.

## Model

| member | source | states |
|---|---|---|
| `Classification.InTransit` | src/stores/trainsStore.ts:59 | definition: `train.departed && !train.arrived` |
| `Classification.Truthy` | src/stores/trainsStore.ts:64 | definition: a coordinate is truthy when it is present and not 0, so a 0 keeps the train off the map (a JSON number is never NaN) |
| `Classification.FindNext` | src/stores/trainsStore.ts:60-62 | the result is -1 exactly when every stop's `eta` is `"ARR"`; otherwise it is the index of a stop that is not `"ARR"` and every earlier stop is `"ARR"` (the first such index) |
| `Classification.Classify` | src/stores/trainsStore.ts:59-63 | a train that is not departed, or has arrived, is returned unchanged; a train in transit changes only in `next`, which holds the first non-`"ARR"` index or -1 |
| `Classification.ClassifyAll` | src/stores/trainsStore.ts:57-74 | `trainData` after a refresh has the feed's keys in the feed's order; trains not in transit are identical to the feed's; trains in transit are the feed's record with `next` set to `FindNext` of their stops |
| `Classification.ActiveOf` | src/stores/trainsStore.ts:57-73 | a key is in `trainsActive` iff the feed has it and the train is departed, not arrived, with truthy `lat` and `lng`; its entry is the same record as in `trainData`, with the train's own `lat`/`lng`; the object is well formed |
| `Classification.ActiveKeysAt` | src/stores/trainsStore.ts:58-70 | the active keys the `forEach` collects are exactly the visited keys of active trains, each once |
| `Classification.ClassifyEachAt` | src/stores/trainsStore.ts:58-63 | after the `forEach` has visited `keys`, every visited train in transit carries `next` and every other train is untouched; no key is added or removed |
| `Classification.ActiveEachAt` | src/stores/trainsStore.ts:58-70 | after the `forEach` has visited `keys`, the active map holds exactly the visited active trains, each as classified |
| `Classification.VisitAll` | src/stores/trainsStore.ts:58-72 | visiting every key of the feed yields `ClassifyAll` and `ActiveOf` |
| `Store.ClassifyTrains` | src/stores/trainsStore.ts:57-72 | the loop over the feed writes `next` into each train in transit and builds the active object; it returns exactly `ClassifyAll(feed)` and `ActiveOf(feed)` |
| `Store.RefreshConsistent` | src/stores/trainsStore.ts:57-74 | after a refresh, both objects are well formed; every active key is a key of `trainData` with the same record; a train is active iff it is in transit with truthy coordinates; every train in transit carries its `next` |
| `Store.TrainsStore.constructor` | src/stores/trainsStore.ts:17-23 | the store starts with empty train, active and station objects, no selections, and the status filter `"departed"` |
| `Store.TrainsStore.ApplyTrainResponse` | src/stores/trainsStore.ts:50-80 | with an ok reply and a truthy body, `trainData` and `trainsActive` become `ClassifyAll` and `ActiveOf` of the body; a thrown fetch, a non-ok reply or a falsy body leaves both unchanged; the active keys stay a subset of the train keys and the store invariant holds |
| `Bounds.Min` | src/stores/trainsStore.ts:37-38 | `Math.min`: at most both arguments and equal to one of them |
| `Bounds.Max` | src/stores/trainsStore.ts:41-42 | `Math.max`: at least both arguments and equal to one of them |
| `Bounds.Extend` | src/stores/trainsStore.ts:29-44 | definition of one loop step: with no box yet, the box is the point itself; otherwise each min side takes `Math.min` and each max side `Math.max` with the point; `BoundsOf` and the lemmas below state what the steps add up to |
| `Bounds.BoundsOf` | src/stores/trainsStore.ts:26-48 | the fold is `null` iff there are no coordinates; otherwise every coordinate lies within the box |
| `Bounds.BoundsAttained` | src/stores/trainsStore.ts:29-44 | each side of the box is the coordinate of some point, so the min corner is the componentwise minimum and the max corner the componentwise maximum |
| `Bounds.BoundsOrdered` | src/stores/trainsStore.ts:29-44 | the min corner is componentwise at most the max corner |
| `Bounds.BoundsIsTightest` | src/stores/trainsStore.ts:26-48 | every box that holds all the points holds the computed box |
| `Bounds.BoundsOrderFree` | src/stores/trainsStore.ts:28 | two coordinate lists with the same elements give the same box, so the object's enumeration order does not matter |
| `Store.ActiveBoxHolds` | src/stores/trainsStore.ts:26-48 | with at least one active train, the box exists, holds every active train's position, and its corners are ordered |
| `Store.ActiveBoxTight` | src/stores/trainsStore.ts:26-48 | each side of the box is the latitude or longitude of some active train |
| `Store.TrainsStore.MapBounds` | src/stores/trainsStore.ts:26-48 | the loop computes `BoundsOf` the active coordinates; the result is `null` iff no train is active; otherwise the box holds every active train, its corners are ordered, and each side is attained by some active train |
| `JsObjects.Empty` | src/stores/trainsStore.ts:17-23 | `{}` is a well-formed object with no keys |
| `JsObjects.Put` | src/stores/trainsStore.ts:94 | definition of `o[k] = v`: the value at `k` becomes `v`, and `k` joins the end of the key order when it is new; `PutAt` states its properties |
| `JsObjects.PutAt` | src/stores/trainsStore.ts:94 | assigning `o[k] = v` keeps the object well formed, sets `k` to `v`, keeps the existing key order, and appends `k` when it is new |
| `StationCounts.StopsOf` | src/stores/trainsStore.ts:91-92 | definition: the stops of every train, train by train in the enumeration order of the keys and stop by stop within a train, the order the nested loops visit them |
| `StationCounts.CountOr0` | src/stores/trainsStore.ts:96 | definition of `count ??= 0`: the count when present, otherwise 0 |
| `StationCounts.Bump` | src/stores/trainsStore.ts:93-97 | definition of one inner-loop step: put `{ name: stop.station }` when the code is unknown, then store the count (or 0) plus one; `BumpOne` and `BumpKeepsName` state its properties |
| `StationCounts.Tally` | src/stores/trainsStore.ts:91-98 | definition: `Bump` applied to each stop in order; the `Tally` lemmas below state what it computes |
| `StationCounts.BumpOne` | src/stores/trainsStore.ts:93-97 | counting one stop makes its station present with count one more than before (or 1) and leaves every other code as it was |
| `StationCounts.BumpKeepsName` | src/stores/trainsStore.ts:93-94 | counting one stop keeps a known station's name and coordinates; an unknown one becomes `{ name: stop.station }` with no coordinates |
| `StationCounts.TallyAppend` | src/stores/trainsStore.ts:91-92 | counting the stops of one train after those before it continues the same count, so the nested loops count the concatenated stop list |
| `StationCounts.OccursIff` | src/stores/trainsStore.ts:92-93 | a code occurs zero times iff no stop carries it |
| `StationCounts.FirstWith` | src/stores/trainsStore.ts:92-94 | the result is the first stop carrying the code, or -1 iff none does |
| `StationCounts.TallyValid` | src/stores/trainsStore.ts:91-98 | counting keeps the station object well formed, and stations already present keep their place in the key order |
| `StationCounts.TallyKeys` | src/stores/trainsStore.ts:91-98 | after counting, a code is a station iff it was one before or some stop carries it |
| `StationCounts.TallyUntouched` | src/stores/trainsStore.ts:91-98 | a station whose code no stop carries is left exactly as it was, and an absent one stays absent |
| `StationCounts.TallyCount` | src/stores/trainsStore.ts:91-98 | a code carried by some stop ends with its starting count (or 0) plus the number of stops carrying it |
| `StationCounts.TallyKeepsStation` | src/stores/trainsStore.ts:93-97 | a station in the list before counting keeps its name and coordinates |
| `StationCounts.TallyPlaceholder` | src/stores/trainsStore.ts:93-94 | a code missing from the list ends as a station named after the first stop that carries it, without coordinates |
| `StationCounts.OccurrencesAppend` | src/stores/trainsStore.ts:91-92 | stop counts add up over a concatenation of stop lists |
| `StationCounts.StopPairsCount` | src/stores/trainsStore.ts:92 | the stops of one train carrying a code, as (train, index) pairs, are as many as the count of such stops |
| `StationCounts.OccurrencesArePairs` | src/stores/trainsStore.ts:91-92 | over distinct train keys, the stops carrying a code in the flattened stop list are as many as the (train, stop) pairs carrying it |
| `StationCounts.StationCountIsPairs` | src/stores/trainsStore.ts:91-98 | for a whole feed, a code carried by some (train, stop) pair ends with its starting count (or 0) plus the number of such pairs; a code no pair carries leaves its station, or its absence, unchanged |
| `Store.CountStops` | src/stores/trainsStore.ts:92-98 | the inner loop over one train's stops returns exactly `Tally` of those stops |
| `Store.CountStations` | src/stores/trainsStore.ts:91-99 | the nested loops over every train in `trainData` return exactly `Tally` of all their stops, train by train in enumeration order |
| `Store.TrainsStore.ApplyStationResponse` | src/stores/trainsStore.ts:82-104 | with an ok reply carrying `stations`, `stationData` becomes the counted station object, whatever `error` says; a non-ok reply or a missing `stations` leaves it unchanged; a fetch or parse that throws leaves it unchanged and the action reports `rejected`, since nothing catches the throw; the store invariant holds |

## Left out

- Fetching, JSON parsing and `async`/`await` are not modelled. Each action takes the already-parsed reply as a `Reply` value. Overlapping refreshes are concurrency and are not modelled.
- `initApp` and its `setInterval` refresh timer (src/stores/trainsStore.ts:106-113) are not modelled. They are scheduling, and they depend on the user settings store; src/stores/userStore.ts is not part of this model.
- The edge proxies (functions/trains.ts, functions/api/trains.ts) and the station endpoint (functions/api/stations.ts) are not part of this model. They are cache and key-value plumbing over platform APIs.
- The station endpoint's actual shape is not modelled. It returns `[code, name, [lat, lng]]` tuples, while the store indexes `stations` by code. The model takes the store's typed view, an object keyed by code, and invents no conversion.
- `console.log` of errors is not modelled, since it is output only.
- Numbers are modelled as exact reals and counts as unbounded integers. A JSON number is never NaN, so `Math.min`/`Math.max` need no NaN case.
- A `count` that is present but not a number is not modelled. The model's `count` is an integer or absent.
- Integer-like keys are not reordered. JavaScript enumerates such keys first, in ascending order; the model keeps plain insertion order. The bounding box does not depend on the order (`Bounds.BoundsOrderFree`). Only the order of `trainsActive` and `stationData` keys, and hence which stop is "first" for a placeholder name, could differ for such keys.
- Inherited properties are not modelled. A station code such as `constructor` finds a prototype member through `stations[code]` in JavaScript; in the model, an object has only its own keys.
- The UI-only refs `trainsInView`, `trainSelected`, `trainStatus` and `stationSelected` are fields of the class that no modelled action changes. They are not modelled beyond their initial values.
- Store.TrainsStore.ApplyStationResponse: a throw is modelled as the outcome `rejected`. It does not model that the throw propagates to the caller: the caller `initApp` (src/stores/trainsStore.ts:106-113) is not part of this model, so neither is the fact that it then never starts its refresh timer. A `null` JSON body is one such throw, since destructuring `null` throws.
