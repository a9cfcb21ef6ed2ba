/** Evaluation of fields at a node or element location: the type-specific
    forward maps, an uncached reference evaluation, the cached evaluation the
    program performs, and clearing of caches. */
module Evaluator {
  import opened Outcome
  import opened Fields
  import opened Graph
  import opened Store

  /** The coordinate-system maps behind RC_COORDINATE and RC_VECTOR, from a
      source coordinate system to rectangular cartesian and back. Vector maps
      also take the coordinates at which the vectors are based. */
  datatype Conversions = Conversions(
    coordinateToRc: (CoordinateSystem, seq<real>) -> seq<real>,
    coordinateFromRc: (CoordinateSystem, seq<real>) -> seq<real>,
    vectorToRc: (CoordinateSystem, seq<real>, seq<real>) -> seq<real>,
    vectorFromRc: (CoordinateSystem, seq<real>, seq<real>) -> seq<real>)

  /** v cut or zero-padded to exactly n values. */
  function Fit(v: seq<real>, n: nat): (r: seq<real>)
    ensures |r| == n
    ensures forall i | 0 <= i < n :: r[i] == if i < |v| then v[i] else 0.0
  {
    seq(n, i requires 0 <= i < n => if i < |v| then v[i] else 0.0)
  }

  /** Sum of weights[i] * values[i]. */
  function Dot(weights: seq<real>, values: seq<real>): real
    requires |weights| == |values|
  {
    if weights == [] then 0.0 else weights[0] * values[0] + Dot(weights[1..], values[1..])
  }

  /** vals holds one value vector per source of f, each of the source's size. */
  ghost predicate SourceValuesFit(reg: Registry, f: FieldId, vals: seq<seq<real>>)
    requires Closed(reg) && f in reg
  {
    && |vals| == |reg[f].sources|
    && forall j | 0 <= j < |vals| :: |vals[j]| == reg[reg[f].sources[j]].numberOfComponents
  }

  /** vals holds one value vector per source of f from index i on, each of
      the source's size. */
  ghost predicate SourceValuesFrom(reg: Registry, f: FieldId, i: nat, vals: seq<seq<real>>)
    requires Closed(reg) && f in reg && i <= |reg[f].sources|
  {
    && |vals| == |reg[f].sources| - i
    && forall j | 0 <= j < |vals| :: |vals[j]| == reg[reg[f].sources[i + j]].numberOfComponents
  }

  lemma SourceValuesCons(reg: Registry, f: FieldId, i: nat, v: seq<real>, vals: seq<seq<real>>)
    requires Closed(reg) && f in reg && i < |reg[f].sources|
    requires |v| == reg[reg[f].sources[i]].numberOfComponents && SourceValuesFrom(reg, f, i + 1, vals)
    ensures SourceValuesFrom(reg, f, i, [v] + vals)
  {
    forall j | 0 <= j < |vals| + 1
      ensures |([v] + vals)[j]| == reg[reg[f].sources[i + j]].numberOfComponents
    {
      if 0 < j {
        assert ([v] + vals)[j] == vals[j - 1];
      }
    }
  }

  /** The forward map of f's type, given the values of its sources. */
  function Apply(reg: Registry, conv: Conversions, store: FeStore, f: FieldId, loc: Location,
                 vals: seq<seq<real>>): (r: Result<seq<real>>)
    requires WellFormed(reg) && f in reg && SourceValuesFit(reg, f, vals)
    ensures r.Ok? ==> |r.value| == reg[f].numberOfComponents
    ensures r.Err? ==> r.error == NotDefinedAtLocation
  {
    FitsShape(reg, f);
    var n := reg[f].numberOfComponents;
    match reg[f].kind
    case Constant(values) => Ok(values)
    case Component(k) => Ok([vals[0][k]])
    case SumComponents(weights) => Ok([Dot(weights, vals[0])])
    case RcCoordinate =>
      Ok(Fit(conv.coordinateToRc(reg[reg[f].sources[0]].coordinateSystem, vals[0]), 3))
    case RcVector =>
      Ok(Fit(conv.vectorToRc(reg[reg[f].sources[0]].coordinateSystem, vals[0], vals[1]), n))
    case Xi =>
      if loc.InElement? then Ok(Fit(loc.xi, 3)) else Err(NotDefinedAtLocation)
    case FiniteElement(fe, _) =>
      match ReadPoint(store, fe, PointOf(loc))
      case Some(v) => if |v| == n then Ok(v) else Err(NotDefinedAtLocation)
      case None => Err(NotDefinedAtLocation)
  }

  /** Reference evaluation without caches: evaluate the sources in order,
      stop at the first failure, then apply f's forward map. */
  function Value(reg: Registry, conv: Conversions, store: FeStore, f: FieldId, loc: Location): (r: Result<seq<real>>)
    requires WellFormed(reg) && f in reg
    ensures r.Ok? ==> |r.value| == reg[f].numberOfComponents
    ensures r.Err? ==> r.error == NotDefinedAtLocation
    decreases Rank(reg, f), 1
  {
    match ValueSources(reg, conv, store, f, loc, 0)
    case Err(e) => Err(e)
    case Ok(vals) => Apply(reg, conv, store, f, loc, vals)
  }

  /** Values of the sources of f from index i on. */
  function ValueSources(reg: Registry, conv: Conversions, store: FeStore, f: FieldId, loc: Location, i: nat)
    : (r: Result<seq<seq<real>>>)
    requires WellFormed(reg) && f in reg && i <= |reg[f].sources|
    ensures r.Ok? ==> SourceValuesFrom(reg, f, i, r.value)
    ensures r.Err? ==> r.error == NotDefinedAtLocation
    decreases Rank(reg, f), 0, |reg[f].sources| - i
  {
    if i == |reg[f].sources| then Ok([])
    else
      RankDecreases(reg, f, i);
      match Value(reg, conv, store, reg[f].sources[i], loc)
      case Err(e) => Err(e)
      case Ok(v) =>
        match ValueSources(reg, conv, store, f, loc, i + 1)
        case Err(e) => Err(e)
        case Ok(rest) =>
          SourceValuesCons(reg, f, i, v, rest);
          Ok([v] + rest)
  }

  /** The sources from i on evaluate exactly when source i and those after it do. */
  lemma ValueSourcesStep(reg: Registry, conv: Conversions, store: FeStore, f: FieldId, loc: Location, i: nat)
    requires WellFormed(reg) && f in reg && i < |reg[f].sources|
    ensures reg[f].sources[i] in reg
    ensures ValueSources(reg, conv, store, f, loc, i).Ok? <==>
              Value(reg, conv, store, reg[f].sources[i], loc).Ok? && ValueSources(reg, conv, store, f, loc, i + 1).Ok?
  {
    RankDecreases(reg, f, i);
  }

  // The cached evaluation.

  /** Every cache entry belongs to a registered field and has its size. */
  ghost predicate CachesFit(reg: Registry, caches: Caches) {
    forall x | x in caches :: x in reg && |caches[x].values| == reg[x].numberOfComponents
  }

  /** c1 and c2 differ only in entries of fields that f depends on. */
  ghost predicate ChangedOnlyWithin(reg: Registry, f: FieldId, c1: Caches, c2: Caches)
    requires WellFormed(reg) && f in reg
  {
    forall x | x in c1.Keys + c2.Keys ::
      (x in c1 && x in c2 && c1[x] == c2[x]) || DependsOn(reg, f, x)
  }

  datatype Evaluation<T> = Evaluation(result: Result<T>, caches: Caches)

  /** Evaluates f at loc. A cache holding exactly loc answers at once;
      otherwise the sources are evaluated (through their caches), f's map is
      applied, and on success f's cache is set to loc and the values. */
  function Evaluate(reg: Registry, conv: Conversions, store: FeStore, caches: Caches, f: FieldId, loc: Location)
    : (e: Evaluation<seq<real>>)
    requires WellFormed(reg) && f in reg && CachesFit(reg, caches)
    ensures CachesFit(reg, e.caches)
    ensures e.result.Ok? ==> |e.result.value| == reg[f].numberOfComponents
    ensures e.result.Err? ==> e.result.error == NotDefinedAtLocation
    ensures e.result.Ok? ==> f in e.caches && e.caches[f] == Cache(loc, e.result.value)
    ensures ChangedOnlyWithin(reg, f, caches, e.caches)
    decreases Rank(reg, f), 1
  {
    if f in caches && caches[f].location == loc then
      Evaluation(Ok(caches[f].values), caches)
    else
      var s := EvaluateSources(reg, conv, store, caches, f, loc, 0);
      match s.result
      case Err(err) => Evaluation(Err(err), s.caches)
      case Ok(vals) =>
        match Apply(reg, conv, store, f, loc, vals)
        case Err(err) => Evaluation(Err(err), s.caches)
        case Ok(v) => Evaluation(Ok(v), s.caches[f := Cache(loc, v)])
  }

  /** Cached evaluation of the sources of f from index i on, threading the
      caches from one source to the next. */
  function EvaluateSources(reg: Registry, conv: Conversions, store: FeStore, caches: Caches,
                           f: FieldId, loc: Location, i: nat): (e: Evaluation<seq<seq<real>>>)
    requires WellFormed(reg) && f in reg && i <= |reg[f].sources| && CachesFit(reg, caches)
    ensures CachesFit(reg, e.caches)
    ensures e.result.Ok? ==> SourceValuesFrom(reg, f, i, e.result.value)
    ensures e.result.Err? ==> e.result.error == NotDefinedAtLocation
    ensures ChangedOnlyWithin(reg, f, caches, e.caches)
    decreases Rank(reg, f), 0, |reg[f].sources| - i
  {
    if i == |reg[f].sources| then Evaluation(Ok([]), caches)
    else
      var s := reg[f].sources[i];
      RankDecreases(reg, f, i);
      var first := Evaluate(reg, conv, store, caches, s, loc);
      WithinSource(reg, f, i, caches, first.caches);
      match first.result
      case Err(err) => Evaluation(Err(err), first.caches)
      case Ok(v) =>
        var rest := EvaluateSources(reg, conv, store, first.caches, f, loc, i + 1);
        ChangedOnlyWithinTrans(reg, f, caches, first.caches, rest.caches);
        match rest.result
        case Err(err) => Evaluation(Err(err), rest.caches)
        case Ok(vs) =>
          SourceValuesCons(reg, f, i, v, vs);
          Evaluation(Ok([v] + vs), rest.caches)
  }

  /** Changes confined to a source's dependencies are confined to f's. */
  lemma WithinSource(reg: Registry, f: FieldId, i: nat, c1: Caches, c2: Caches)
    requires WellFormed(reg) && f in reg && i < |reg[f].sources|
    requires reg[f].sources[i] in reg && ChangedOnlyWithin(reg, reg[f].sources[i], c1, c2)
    ensures ChangedOnlyWithin(reg, f, c1, c2)
  {
    forall x | x in c1.Keys + c2.Keys && !(x in c1 && x in c2 && c1[x] == c2[x])
      ensures DependsOn(reg, f, x)
    {
      assert DependsOn(reg, reg[f].sources[i], x);
    }
  }

  lemma ChangedOnlyWithinTrans(reg: Registry, f: FieldId, c1: Caches, c2: Caches, c3: Caches)
    requires WellFormed(reg) && f in reg
    requires ChangedOnlyWithin(reg, f, c1, c2) && ChangedOnlyWithin(reg, f, c2, c3)
    ensures ChangedOnlyWithin(reg, f, c1, c3)
  {
    forall x | x in c1.Keys + c3.Keys
      ensures (x in c1 && x in c3 && c1[x] == c3[x]) || DependsOn(reg, f, x)
    {
      if !DependsOn(reg, f, x) {
        assert x in c1.Keys + c2.Keys;
        assert x in c2.Keys + c3.Keys;
      }
    }
  }

  /** The cache entries of every field f depends on hold that field's true
      values at their locations. */
  ghost predicate CoherentWithin(reg: Registry, conv: Conversions, store: FeStore, caches: Caches, f: FieldId)
    requires WellFormed(reg) && f in reg
  {
    && CachesFit(reg, caches)
    && forall x | x in caches && x in reg && DependsOn(reg, f, x) ::
         Value(reg, conv, store, x, caches[x].location) == Ok(caches[x].values)
  }

  /** Every cache entry holds its field's true values at its location. */
  ghost predicate Coherent(reg: Registry, conv: Conversions, store: FeStore, caches: Caches)
    requires WellFormed(reg)
  {
    && CachesFit(reg, caches)
    && forall x | x in caches && x in reg :: Value(reg, conv, store, x, caches[x].location) == Ok(caches[x].values)
  }

  /** With coherent caches below f, cached evaluation returns the reference
      values and leaves those caches coherent. */
  lemma {:induction false} EvaluateAgrees(reg: Registry, conv: Conversions, store: FeStore, caches: Caches,
                                          f: FieldId, loc: Location)
    requires WellFormed(reg) && f in reg && CoherentWithin(reg, conv, store, caches, f)
    ensures Evaluate(reg, conv, store, caches, f, loc).result == Value(reg, conv, store, f, loc)
    ensures CoherentWithin(reg, conv, store, Evaluate(reg, conv, store, caches, f, loc).caches, f)
    decreases Rank(reg, f), 1
  {
    if f in caches && caches[f].location == loc {
      assert DependsOn(reg, f, f);
    } else {
      EvaluateSourcesAgree(reg, conv, store, caches, f, loc, 0);
      var s := EvaluateSources(reg, conv, store, caches, f, loc, 0);
      var e := Evaluate(reg, conv, store, caches, f, loc);
      if s.result.Ok? && Apply(reg, conv, store, f, loc, s.result.value).Ok? {
        var v := Apply(reg, conv, store, f, loc, s.result.value).value;
        assert Value(reg, conv, store, f, loc) == Ok(v);
        assert e.caches == s.caches[f := Cache(loc, v)];
        forall x | x in e.caches && x in reg && DependsOn(reg, f, x)
          ensures Value(reg, conv, store, x, e.caches[x].location) == Ok(e.caches[x].values)
        {
          if x != f {
            assert x in s.caches && e.caches[x] == s.caches[x];
          }
        }
      } else {
        assert e.caches == s.caches;
      }
    }
  }

  lemma {:induction false} EvaluateSourcesAgree(reg: Registry, conv: Conversions, store: FeStore, caches: Caches,
                                                f: FieldId, loc: Location, i: nat)
    requires WellFormed(reg) && f in reg && i <= |reg[f].sources|
    requires CoherentWithin(reg, conv, store, caches, f)
    ensures EvaluateSources(reg, conv, store, caches, f, loc, i).result == ValueSources(reg, conv, store, f, loc, i)
    ensures CoherentWithin(reg, conv, store, EvaluateSources(reg, conv, store, caches, f, loc, i).caches, f)
    decreases Rank(reg, f), 0, |reg[f].sources| - i
  {
    if i < |reg[f].sources| {
      var s := reg[f].sources[i];
      RankDecreases(reg, f, i);
      CoherentWithinSource(reg, conv, store, caches, f, i);
      EvaluateAgrees(reg, conv, store, caches, s, loc);
      var first := Evaluate(reg, conv, store, caches, s, loc);
      CoherentAfterSource(reg, conv, store, caches, first.caches, f, i);
      if first.result.Ok? {
        EvaluateSourcesAgree(reg, conv, store, first.caches, f, loc, i + 1);
      }
    }
  }

  /** Caches coherent below f are coherent below each source of f. */
  lemma CoherentWithinSource(reg: Registry, conv: Conversions, store: FeStore, caches: Caches, f: FieldId, i: nat)
    requires WellFormed(reg) && f in reg && i < |reg[f].sources|
    requires CoherentWithin(reg, conv, store, caches, f)
    ensures reg[f].sources[i] in reg && CoherentWithin(reg, conv, store, caches, reg[f].sources[i])
  {
    var s := reg[f].sources[i];
    RankDecreases(reg, f, i);
    forall x | x in caches && x in reg && DependsOn(reg, s, x)
      ensures Value(reg, conv, store, x, caches[x].location) == Ok(caches[x].values)
    {
      assert DependsOn(reg, f, x);
    }
  }

  /** Evaluating source i of f, with its changes confined to that source's
      dependencies and coherent there, keeps the caches coherent below f. */
  lemma CoherentAfterSource(reg: Registry, conv: Conversions, store: FeStore, c1: Caches, c2: Caches,
                            f: FieldId, i: nat)
    requires WellFormed(reg) && f in reg && i < |reg[f].sources| && reg[f].sources[i] in reg
    requires CoherentWithin(reg, conv, store, c1, f) && CachesFit(reg, c2)
    requires CoherentWithin(reg, conv, store, c2, reg[f].sources[i])
    requires ChangedOnlyWithin(reg, reg[f].sources[i], c1, c2)
    ensures CoherentWithin(reg, conv, store, c2, f)
  {
    var s := reg[f].sources[i];
    forall x | x in c2 && x in reg && DependsOn(reg, f, x)
      ensures Value(reg, conv, store, x, c2[x].location) == Ok(c2[x].values)
    {
      if !(x in c1 && c1[x] == c2[x]) {
        assert x in c1.Keys + c2.Keys;
        assert DependsOn(reg, s, x);
      }
    }
  }

  /** With fully coherent caches, cached evaluation returns the reference
      values and keeps every cache coherent. */
  lemma EvaluateMatchesValue(reg: Registry, conv: Conversions, store: FeStore, caches: Caches,
                             f: FieldId, loc: Location)
    requires WellFormed(reg) && f in reg && Coherent(reg, conv, store, caches)
    ensures Evaluate(reg, conv, store, caches, f, loc).result == Value(reg, conv, store, f, loc)
    ensures Coherent(reg, conv, store, Evaluate(reg, conv, store, caches, f, loc).caches)
  {
    EvaluateAgrees(reg, conv, store, caches, f, loc);
    var e := Evaluate(reg, conv, store, caches, f, loc);
    forall x | x in e.caches && x in reg
      ensures Value(reg, conv, store, x, e.caches[x].location) == Ok(e.caches[x].values)
    {
      if !DependsOn(reg, f, x) {
        assert x in caches.Keys + e.caches.Keys;
      }
    }
  }

  /** Once f has been evaluated at loc, evaluating it there again answers
      from its cache: the same values, no cache changes, and no source is
      visited - even if the stored data has changed since (store2). */
  lemma CacheHit(reg: Registry, conv: Conversions, store: FeStore, store2: FeStore, caches: Caches,
                 f: FieldId, loc: Location)
    requires WellFormed(reg) && f in reg && CachesFit(reg, caches)
    requires Evaluate(reg, conv, store, caches, f, loc).result.Ok?
    ensures var e := Evaluate(reg, conv, store, caches, f, loc);
            Evaluate(reg, conv, store2, e.caches, f, loc) == e
  {
  }

  /** Clears the cache of f and of every field it depends on. */
  function ClearCache(reg: Registry, caches: Caches, f: FieldId): (r: Caches)
    requires WellFormed(reg) && f in reg
    ensures forall x :: x in r <==> x in caches && !DependsOn(reg, f, x)
    ensures forall x | x in r :: r[x] == caches[x]
    decreases Rank(reg, f), 1
  {
    ClearSources(reg, caches - {f}, f, 0)
  }

  /** Clears the caches below the sources of f from index i on. */
  function ClearSources(reg: Registry, caches: Caches, f: FieldId, i: nat): (r: Caches)
    requires WellFormed(reg) && f in reg && i <= |reg[f].sources|
    ensures forall x :: x in r <==>
              x in caches && !exists j | i <= j < |reg[f].sources| :: DependsOn(reg, reg[f].sources[j], x)
    ensures forall x | x in r :: r[x] == caches[x]
    decreases Rank(reg, f), 0, |reg[f].sources| - i
  {
    if i == |reg[f].sources| then caches
    else
      RankDecreases(reg, f, i);
      SomeSourceStep(reg, f, i);
      ClearSources(reg, ClearCache(reg, caches, reg[f].sources[i]), f, i + 1)
  }

  /** x lies below a source from index i on iff it lies below source i or
      below one from i + 1 on. */
  lemma SomeSourceStep(reg: Registry, f: FieldId, i: nat)
    requires WellFormed(reg) && f in reg && i < |reg[f].sources|
    ensures forall x ::
              (exists j | i <= j < |reg[f].sources| :: DependsOn(reg, reg[f].sources[j], x)) <==>
              DependsOn(reg, reg[f].sources[i], x) ||
              exists j | i + 1 <= j < |reg[f].sources| :: DependsOn(reg, reg[f].sources[j], x)
  {
  }

  /** After clear_cache on f, cached evaluation of f returns the reference
      values whatever the other caches hold. */
  lemma EvaluateAfterClearCache(reg: Registry, conv: Conversions, store: FeStore, caches: Caches,
                                f: FieldId, loc: Location)
    requires WellFormed(reg) && f in reg && CachesFit(reg, caches)
    ensures Evaluate(reg, conv, store, ClearCache(reg, caches, f), f, loc).result == Value(reg, conv, store, f, loc)
  {
    var cleared := ClearCache(reg, caches, f);
    assert CoherentWithin(reg, conv, store, cleared, f);
    EvaluateAgrees(reg, conv, store, cleared, f, loc);
  }

  /** Two registries that agree on every field x depends on give x the same
      reference values. */
  lemma {:induction false} ValueUnchanged(reg: Registry, reg': Registry, conv: Conversions, store: FeStore,
                                          x: FieldId, loc: Location)
    requires WellFormed(reg) && WellFormed(reg') && x in reg
    requires forall y | y in reg && DependsOn(reg, x, y) :: y in reg' && reg'[y] == reg[y]
    ensures x in reg' && Value(reg', conv, store, x, loc) == Value(reg, conv, store, x, loc)
    decreases Rank(reg, x), 1
  {
    assert DependsOn(reg, x, x);
    ValueSourcesUnchanged(reg, reg', conv, store, x, loc, 0);
    FitsShape(reg, x);
    if reg[x].kind.RcCoordinate? || reg[x].kind.RcVector? {
      assert DependsOn(reg, x, reg[x].sources[0]);
    }
  }

  lemma {:induction false} ValueSourcesUnchanged(reg: Registry, reg': Registry, conv: Conversions, store: FeStore,
                                                 x: FieldId, loc: Location, i: nat)
    requires WellFormed(reg) && WellFormed(reg') && x in reg && i <= |reg[x].sources|
    requires forall y | y in reg && DependsOn(reg, x, y) :: y in reg' && reg'[y] == reg[y]
    requires x in reg' && reg'[x] == reg[x]
    ensures ValueSources(reg', conv, store, x, loc, i) == ValueSources(reg, conv, store, x, loc, i)
    decreases Rank(reg, x), 0, |reg[x].sources| - i
  {
    assert DependsOn(reg, x, x);
    if i < |reg[x].sources| {
      var s := reg[x].sources[i];
      RankDecreases(reg, x, i);
      forall y | y in reg && DependsOn(reg, s, y) ensures y in reg' && reg'[y] == reg[y] {
        assert DependsOn(reg, x, y);
      }
      ValueUnchanged(reg, reg', conv, store, s, loc);
      assert DependsOn(reg, x, x);
      ValueSourcesUnchanged(reg, reg', conv, store, x, loc, i + 1);
    }
  }

  /** A newly created field evaluates to the single value zero everywhere. */
  lemma CreatedFieldIsZero(reg: Registry, conv: Conversions, store: FeStore, f: FieldId, loc: Location)
    requires WellFormed(reg) && f in reg && reg[f] == Create(reg[f].name)
    ensures Value(reg, conv, store, f, loc) == Ok([0.0])
  {
    assert ValueSources(reg, conv, store, f, loc, 0) == Ok([]);
  }
}
