/**
 * The map's bounding box: the componentwise minimum and maximum of a list of
 * coordinates, folded left to right as the computed `mapBounds` does.
 */
module Bounds {
  import opened Wrappers
  import opened TrainTypes

  /** `Math.min` (the coordinates of a JSON document are never NaN). */
  function Min(a: real, b: real): (r: real)
    ensures r <= a && r <= b && (r == a || r == b)
  {
    if a <= b then a else b
  }

  /** `Math.max` */
  function Max(a: real, b: real): (r: real)
    ensures r >= a && r >= b && (r == a || r == b)
  {
    if a >= b then a else b
  }

  /** `c` lies in the box `b`, borders included. */
  predicate Within(c: MapCoord, b: MapBoundary)
  {
    b.0.0 <= c.0 <= b.1.0 && b.0.1 <= c.1 <= b.1.1
  }

  /** One step of the fold: start a box at `c`, or widen `b` to take `c` in. */
  function Extend(b: Option<MapBoundary>, c: MapCoord): MapBoundary
  {
    match b
    case None => (c, c)
    case Some(((loLat, loLng), (hiLat, hiLng))) =>
      ((Min(loLat, c.0), Min(loLng, c.1)), (Max(hiLat, c.0), Max(hiLng, c.1)))
  }

  /** The box the fold over `cs` ends with; `null` for no coordinates. */
  function BoundsOf(cs: seq<MapCoord>): (r: Option<MapBoundary>)
    ensures r.None? <==> |cs| == 0
    ensures r.Some? ==> forall i :: 0 <= i < |cs| ==> Within(cs[i], r.value)
    decreases |cs|
  {
    if |cs| == 0 then None
    else Some(Extend(BoundsOf(cs[..|cs| - 1]), cs[|cs| - 1]))
  }

  /** Folding one more point extends the box of the points before it. */
  lemma BoundsStep(cs: seq<MapCoord>, i: int)
    requires 0 <= i < |cs|
    ensures BoundsOf(cs[..i + 1]) == Some(Extend(BoundsOf(cs[..i]), cs[i]))
  {
    assert cs[..i + 1][..i] == cs[..i];
  }

  /**
   * Each side of the box is the coordinate of some point: the min corner is
   * the componentwise minimum and the max corner the componentwise maximum.
   */
  lemma {:induction false} BoundsAttained(cs: seq<MapCoord>)
    requires |cs| > 0
    ensures var b := BoundsOf(cs).value;
      && (exists i :: 0 <= i < |cs| && cs[i].0 == b.0.0)
      && (exists i :: 0 <= i < |cs| && cs[i].1 == b.0.1)
      && (exists i :: 0 <= i < |cs| && cs[i].0 == b.1.0)
      && (exists i :: 0 <= i < |cs| && cs[i].1 == b.1.1)
    decreases |cs|
  {
    var n := |cs| - 1;
    var init := cs[..n];
    if n > 0 {
      BoundsAttained(init);
      var p := BoundsOf(init).value;
      var b := Extend(Some(p), cs[n]);
      assert BoundsOf(cs) == Some(b);
      assert forall i :: 0 <= i < n ==> init[i] == cs[i];
      if b.0.0 != cs[n].0 {
        var i :| 0 <= i < n && init[i].0 == p.0.0;
        assert cs[i].0 == b.0.0;
      }
      if b.0.1 != cs[n].1 {
        var i :| 0 <= i < n && init[i].1 == p.0.1;
        assert cs[i].1 == b.0.1;
      }
      if b.1.0 != cs[n].0 {
        var i :| 0 <= i < n && init[i].0 == p.1.0;
        assert cs[i].0 == b.1.0;
      }
      if b.1.1 != cs[n].1 {
        var i :| 0 <= i < n && init[i].1 == p.1.1;
        assert cs[i].1 == b.1.1;
      }
    }
  }

  /** The min corner never exceeds the max corner. */
  lemma BoundsOrdered(cs: seq<MapCoord>)
    requires |cs| > 0
    ensures var b := BoundsOf(cs).value; b.0.0 <= b.1.0 && b.0.1 <= b.1.1
  {
  }

  /** Every box that holds all the points holds the computed box: it is the smallest one. */
  lemma {:induction false} BoundsIsTightest(cs: seq<MapCoord>, box: MapBoundary)
    requires |cs| > 0
    requires forall i :: 0 <= i < |cs| ==> Within(cs[i], box)
    ensures var b := BoundsOf(cs).value;
      box.0.0 <= b.0.0 && box.0.1 <= b.0.1 && b.1.0 <= box.1.0 && b.1.1 <= box.1.1
  {
    BoundsAttained(cs);
  }

  /**
   * The box depends only on which points there are, not on the order the
   * object enumerates them in.
   */
  lemma {:induction false} BoundsOrderFree(cs: seq<MapCoord>, ds: seq<MapCoord>)
    requires forall c :: c in cs <==> c in ds
    ensures BoundsOf(cs) == BoundsOf(ds)
  {
    if |ds| > 0 {
      assert ds[0] in cs;
    }
    if |cs| > 0 {
      assert cs[0] in ds;
      var b, d := BoundsOf(cs).value, BoundsOf(ds).value;
      forall i | 0 <= i < |ds| ensures Within(ds[i], b) {
        assert ds[i] in cs;
      }
      forall i | 0 <= i < |cs| ensures Within(cs[i], d) {
        assert cs[i] in ds;
      }
      BoundsIsTightest(cs, d);
      BoundsIsTightest(ds, b);
    }
  }
}
