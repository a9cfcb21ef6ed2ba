/** Values of a field over an element, on the evenly spaced xi grid:
    get_values_in_element and set_values_in_element. */
module ElementValues {
  import opened Outcome
  import opened Fields
  import opened Graph
  import opened Store
  import opened Evaluator
  import opened Inverse
  import opened Grid

  /** The location of grid point p; no top-level element is given. */
  function GridLocation(element: ElementId, numberInXi: seq<int>, p: int): Location
    requires ValidGrid(numberInXi) && 0 <= p < PointCount(numberInXi)
  {
    InElement(element, PointXi(numberInXi, p), None)
  }

  /** The stored points of the first k grid points. */
  ghost function GridPoints(element: ElementId, numberInXi: seq<int>, k: int): set<Point>
    requires ValidGrid(numberInXi) && k <= PointCount(numberInXi)
  {
    set q | 0 <= q < k :: ElementPoint(element, PointXi(numberInXi, q))
  }

  /** s2 differs from s1 at most in what fe holds at the given points. */
  ghost predicate ChangedOnlyAt(s1: FeStore, s2: FeStore, fe: FeFieldId, points: set<Point>) {
    && (forall fe', p' | fe' != fe || p' !in points :: ReadPoint(s1, fe', p') == ReadPoint(s2, fe', p'))
    && (forall fe', d :: DefinesOn(s1, fe', d) <==> DefinesOn(s2, fe', d))
  }

  /** One more grid point: the set grows by exactly that point's location. */
  lemma GridPointsNext(element: ElementId, numberInXi: seq<int>, k: int)
    requires ValidGrid(numberInXi) && 0 <= k < PointCount(numberInXi)
    ensures GridPoints(element, numberInXi, k + 1)
              == GridPoints(element, numberInXi, k) + {ElementPoint(element, PointXi(numberInXi, k))}
  {
  }

  /** A write at one more point extends the set of changed points by it. */
  lemma ChangedOnlyAtExtend(s1: FeStore, s2: FeStore, s3: FeStore, fe: FeFieldId, points: set<Point>, p: Point)
    requires ChangedOnlyAt(s1, s2, fe, points) && SameExcept(s2, s3, fe, p)
    ensures ChangedOnlyAt(s1, s3, fe, points + {p})
  {
  }

  /** points holds f's values at the first |points| grid points. */
  ghost predicate GridValues(reg: Registry, conv: Conversions, store: FeStore, f: FieldId,
                             element: ElementId, numberInXi: seq<int>, points: seq<seq<real>>)
    requires WellFormed(reg) && f in reg && ValidGrid(numberInXi) && |points| <= PointCount(numberInXi)
  {
    forall q | 0 <= q < |points| ::
      Value(reg, conv, store, f, GridLocation(element, numberInXi, q)) == Ok(points[q])
  }

  lemma GridValuesAppend(reg: Registry, conv: Conversions, store: FeStore, f: FieldId,
                         element: ElementId, numberInXi: seq<int>, points: seq<seq<real>>, v: seq<real>)
    requires WellFormed(reg) && f in reg && ValidGrid(numberInXi) && |points| < PointCount(numberInXi)
    requires GridValues(reg, conv, store, f, element, numberInXi, points)
    requires Value(reg, conv, store, f, GridLocation(element, numberInXi, |points|)) == Ok(v)
    ensures GridValues(reg, conv, store, f, element, numberInXi, points + [v])
  {
    forall q | 0 <= q < |points| + 1
      ensures Value(reg, conv, store, f, GridLocation(element, numberInXi, q)) == Ok((points + [v])[q])
    {
      if q < |points| {
        assert (points + [v])[q] == points[q];
      }
    }
  }

  /** Every point holds n values. */
  predicate Sized(points: seq<seq<real>>, n: nat) {
    forall q | 0 <= q < |points| :: |points[q]| == n
  }

  /** Evaluates f at every grid point through the caches, in point order,
      stopping at the first point where it is not defined, and lays the
      values out components last. With true caches, the values are the
      field's values at the grid points. */
  method GetValuesInElement(reg: Registry, conv: Conversions, store: FeStore, caches: Caches,
                            f: FieldId, element: ElementId, numberInXi: seq<int>)
    returns (r: Result<seq<real>>, after: Caches)
    requires WellFormed(reg) && f in reg && CachesFit(reg, caches)
    ensures CachesFit(reg, after)
    ensures Coherent(reg, conv, store, caches) ==> Coherent(reg, conv, store, after)
    ensures !ValidGrid(numberInXi) ==> r == Err(InvalidArgument) && after == caches
    ensures Coherent(reg, conv, store, caches) ==>
              (r.Ok? <==>
                 && ValidGrid(numberInXi)
                 && forall p | 0 <= p < PointCount(numberInXi) ::
                      Value(reg, conv, store, f, GridLocation(element, numberInXi, p)).Ok?)
    ensures r.Ok? ==> ValidGrid(numberInXi) && |r.value| == reg[f].numberOfComponents * PointCount(numberInXi)
    ensures Coherent(reg, conv, store, caches) && r.Ok? ==> forall p | 0 <= p < PointCount(numberInXi) ::
              Value(reg, conv, store, f, GridLocation(element, numberInXi, p))
                == Ok(PointValues(r.value, p, PointCount(numberInXi), reg[f].numberOfComponents))
    ensures r.Err? && ValidGrid(numberInXi) ==> r.error == NotDefinedAtLocation
  {
    after := caches;
    if !ValidGrid(numberInXi) {
      return Err(InvalidArgument), after;
    }
    ghost var coherent := Coherent(reg, conv, store, caches);
    var count := PointCount(numberInXi);
    var n := reg[f].numberOfComponents;
    var points: seq<seq<real>> := [];
    var p := 0;
    while p < count
      invariant 0 <= p <= count && |points| == p
      invariant CachesFit(reg, after) && Sized(points, n)
      invariant coherent ==> Coherent(reg, conv, store, after)
      invariant coherent ==> GridValues(reg, conv, store, f, element, numberInXi, points)
    {
      var loc := GridLocation(element, numberInXi, p);
      if coherent {
        EvaluateMatchesValue(reg, conv, store, after, f, loc);
      }
      var e := Evaluate(reg, conv, store, after, f, loc);
      after := e.caches;
      if e.result.Err? {
        return Err(e.result.error), after;
      }
      if coherent {
        GridValuesAppend(reg, conv, store, f, element, numberInXi, points, e.result.value);
      }
      points := points + [e.result.value];
      p := p + 1;
    }
    r := Ok(Layout(points, n));
    forall q | 0 <= q < count && coherent
      ensures Value(reg, conv, store, f, GridLocation(element, numberInXi, q)) == Ok(PointValues(r.value, q, count, n))
    {
      LayoutRoundTrip(points, n, q);
    }
  }

  /** One step of SetValuesInElement: writing grid point p after points
      0..p-1 keeps the loop's invariants for points 0..p. */
  lemma SetStep(reg: Registry, conv: Conversions, store: FeStore, after: FeStore, next: FeStore, f: FieldId,
                element: ElementId, numberInXi: seq<int>, values: seq<real>, p: int)
    requires WellFormed(reg) && f in reg && ValidGrid(numberInXi) && 0 <= p < PointCount(numberInXi)
    requires |values| == reg[f].numberOfComponents * PointCount(numberInXi)
    requires p == 0 ==> after == store
    requires p > 0 ==> Reversible(reg, f) && ChangedOnlyAt(store, after, Target(reg, f), GridPoints(element, numberInXi, p))
    requires PassThrough(reg, f) ==> forall q | 0 <= q < p ::
               Value(reg, conv, after, f, GridLocation(element, numberInXi, q))
                 == Ok(PointValues(values, q, PointCount(numberInXi), reg[f].numberOfComponents))
    requires SetValues(reg, conv, after, f, GridLocation(element, numberInXi, p),
                       PointValues(values, p, PointCount(numberInXi), reg[f].numberOfComponents)) == Ok(next)
    ensures Reversible(reg, f) && ChangedOnlyAt(store, next, Target(reg, f), GridPoints(element, numberInXi, p + 1))
    ensures PassThrough(reg, f) ==> forall q | 0 <= q < p + 1 ::
              Value(reg, conv, next, f, GridLocation(element, numberInXi, q))
                == Ok(PointValues(values, q, PointCount(numberInXi), reg[f].numberOfComponents))
  {
    var count := PointCount(numberInXi);
    var n := reg[f].numberOfComponents;
    var loc := GridLocation(element, numberInXi, p);
    var pointValues := PointValues(values, p, count, n);
    forall q | 0 <= q < p && PassThrough(reg, f)
      ensures Value(reg, conv, next, f, GridLocation(element, numberInXi, q)) == Ok(PointValues(values, q, count, n))
    {
      PointXiInjective(numberInXi, p, q);
      ValueFrame(reg, conv, next, after, f, GridLocation(element, numberInXi, q));
    }
    if PassThrough(reg, f) {
      SetThenValue(reg, conv, after, f, loc, pointValues);
    }
    GridPointsNext(element, numberInXi, p);
    ChangedOnlyAtExtend(store, after, next, Target(reg, f), GridPoints(element, numberInXi, p), PointOf(loc));
  }

  /** Sets the values of f at every grid point in point order, writing into
      the store as it goes; a failure stops the loop and leaves the points
      before it written. */
  method SetValuesInElement(reg: Registry, conv: Conversions, store: FeStore, f: FieldId,
                            element: ElementId, numberInXi: seq<int>, values: seq<real>)
    returns (after: FeStore, status: Status)
    requires WellFormed(reg) && f in reg
    requires ValidGrid(numberInXi) ==> |values| == reg[f].numberOfComponents * PointCount(numberInXi)
    ensures !ValidGrid(numberInXi) ==> after == store && status == Failed(InvalidArgument)
    ensures !Reversible(reg, f) ==> status.Failed?
    ensures status.Failed? ==> status.error != NotReversible || !Reversible(reg, f)
    ensures ValidGrid(numberInXi) && reg[f].kind.FiniteElement?
            && DefinesOn(store, reg[f].kind.feField, ElementDomain(element)) ==>
              status == Done
    ensures status.Done? ==>
              && Reversible(reg, f) && ValidGrid(numberInXi)
              && ChangedOnlyAt(store, after, Target(reg, f), GridPoints(element, numberInXi, PointCount(numberInXi)))
    ensures status.Done? && PassThrough(reg, f) ==>
              forall p | 0 <= p < PointCount(numberInXi) ::
                Value(reg, conv, after, f, GridLocation(element, numberInXi, p))
                  == Ok(PointValues(values, p, PointCount(numberInXi), reg[f].numberOfComponents))
  {
    after := store;
    if !ValidGrid(numberInXi) {
      return after, Failed(InvalidArgument);
    }
    var count := PointCount(numberInXi);
    var n := reg[f].numberOfComponents;
    var p := 0;
    while p < count
      invariant 0 <= p <= count
      invariant p == 0 ==> after == store
      invariant p > 0 ==>
                  && Reversible(reg, f)
                  && ChangedOnlyAt(store, after, Target(reg, f), GridPoints(element, numberInXi, p))
      invariant PassThrough(reg, f) ==> forall q | 0 <= q < p ::
                  Value(reg, conv, after, f, GridLocation(element, numberInXi, q))
                    == Ok(PointValues(values, q, count, n))
      invariant reg[f].kind.FiniteElement? && DefinesOn(store, reg[f].kind.feField, ElementDomain(element)) ==>
                  DefinesOn(after, reg[f].kind.feField, ElementDomain(element))
    {
      var loc := GridLocation(element, numberInXi, p);
      var pointValues := PointValues(values, p, count, n);
      var written := SetValues(reg, conv, after, f, loc, pointValues);
      if written.Err? {
        return after, Failed(written.error);
      }
      var next := written.value;
      SetStep(reg, conv, store, after, next, f, element, numberInXi, values, p);
      after := next;
      p := p + 1;
    }
    status := Done;
  }

  /** The managed variant: all points are set on a copy, which replaces the
      stored data only if every point succeeded; the caches of f and its
      sources are cleared either way. */
  method SetValuesInManagedElement(reg: Registry, conv: Conversions, store: FeStore, caches: Caches,
                                   f: FieldId, element: ElementId, numberInXi: seq<int>, values: seq<real>)
    returns (u: Update)
    requires WellFormed(reg) && f in reg
    requires ValidGrid(numberInXi) ==> |values| == reg[f].numberOfComponents * PointCount(numberInXi)
    ensures u.status.Failed? ==> u.store == store
    ensures !ValidGrid(numberInXi) ==> u.status == Failed(InvalidArgument)
    ensures !Reversible(reg, f) ==> u.status.Failed?
    ensures u.status.Failed? ==> u.status.error != NotReversible || !Reversible(reg, f)
    ensures ValidGrid(numberInXi) && reg[f].kind.FiniteElement?
            && DefinesOn(store, reg[f].kind.feField, ElementDomain(element)) ==>
              u.status == Done
    ensures u.status.Done? ==>
              && Reversible(reg, f) && ValidGrid(numberInXi)
              && ChangedOnlyAt(store, u.store, Target(reg, f), GridPoints(element, numberInXi, PointCount(numberInXi)))
    ensures u.status.Done? && PassThrough(reg, f) ==>
              forall p | 0 <= p < PointCount(numberInXi) ::
                Value(reg, conv, u.store, f, GridLocation(element, numberInXi, p))
                  == Ok(PointValues(values, p, PointCount(numberInXi), reg[f].numberOfComponents))
    ensures forall x :: x in u.caches <==> x in caches && !DependsOn(reg, f, x)
  {
    var copy, status := SetValuesInElement(reg, conv, store, f, element, numberInXi, values);
    var cleared := ClearCache(reg, caches, f);
    if status.Done? {
      u := Update(copy, cleared, Done);
    } else {
      u := Update(store, cleared, status);
    }
  }
}
