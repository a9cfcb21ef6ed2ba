/** set_values: writing target values back through reversible field types
    into the stored finite-element data. */
module Inverse {
  import opened Outcome
  import opened Fields
  import opened Graph
  import opened Store
  import opened Evaluator
  import opened Definedness

  /** The chain below f has an inverse: finite-element wrappers hold the data;
      COMPONENT and RC_COORDINATE pass values to their one source; RC_VECTOR
      passes them to its vector source, holding its coordinate source fixed. */
  predicate Reversible(reg: Registry, f: FieldId)
    requires WellFormed(reg) && f in reg
    decreases Rank(reg, f)
  {
    FitsShape(reg, f);
    match reg[f].kind
    case FiniteElement(_, _) => true
    case Component(_) => RankDecreases(reg, f, 0); Reversible(reg, reg[f].sources[0])
    case RcCoordinate => RankDecreases(reg, f, 0); Reversible(reg, reg[f].sources[0])
    case RcVector => RankDecreases(reg, f, 0); Reversible(reg, reg[f].sources[0])
    case _ => false
  }

  /** The kinds set_values can pass values through or store. */
  predicate Adjustable(kind: Kind) {
    kind.FiniteElement? || kind.Component? || kind.RcCoordinate? || kind.RcVector?
  }

  /** The finite-element field a reversible chain writes into. */
  function Target(reg: Registry, f: FieldId): FeFieldId
    requires WellFormed(reg) && f in reg && Reversible(reg, f)
    decreases Rank(reg, f)
  {
    FitsShape(reg, f);
    if reg[f].kind.FiniteElement? then reg[f].kind.feField
    else
      RankDecreases(reg, f, 0);
      Target(reg, reg[f].sources[0])
  }

  /** Sets the values of f at loc by converting them into what f's adjustable
      source must hold and recursing, until stored data is written. */
  function SetValues(reg: Registry, conv: Conversions, store: FeStore, f: FieldId, loc: Location,
                     values: seq<real>): (r: Result<FeStore>)
    requires WellFormed(reg) && f in reg
    ensures |values| != reg[f].numberOfComponents ==> r == Err(InvalidArgument)
    ensures r == Err(NotReversible) ==> |values| == reg[f].numberOfComponents && !Reversible(reg, f)
    ensures Reversible(reg, f) ==> r != Err(NotReversible)
    ensures !Reversible(reg, f) ==> r.Err?
    ensures |values| == reg[f].numberOfComponents && !Adjustable(reg[f].kind) ==> r == Err(NotReversible)
    ensures r.Ok? ==> Reversible(reg, f) && SameExcept(store, r.value, Target(reg, f), PointOf(loc))
    decreases Rank(reg, f)
  {
    FitsShape(reg, f);
    if |values| != reg[f].numberOfComponents then Err(InvalidArgument)
    else
      match reg[f].kind
      case FiniteElement(fe, _) => WriteAt(store, fe, loc, values)
      case Component(k) =>
        var source := reg[f].sources[0];
        RankDecreases(reg, f, 0);
        (match Value(reg, conv, store, source, loc)
         case Err(e) => Err(e)
         case Ok(current) => SetValues(reg, conv, store, source, loc, current[k := values[0]]))
      case RcCoordinate =>
        var source := reg[f].sources[0];
        RankDecreases(reg, f, 0);
        var sourceValues := conv.coordinateFromRc(reg[source].coordinateSystem, values);
        SetValues(reg, conv, store, source, loc, Fit(sourceValues, reg[source].numberOfComponents))
      case RcVector =>
        var vector := reg[f].sources[0];
        var coordinate := reg[f].sources[1];
        RankDecreases(reg, f, 0);
        RankDecreases(reg, f, 1);
        (match Value(reg, conv, store, coordinate, loc)
         case Err(e) => Err(e)
         case Ok(position) =>
           var vectorValues := conv.vectorFromRc(reg[vector].coordinateSystem, values, position);
           SetValues(reg, conv, store, vector, loc, Fit(vectorValues, reg[vector].numberOfComponents)))
      case _ => Err(NotReversible)
  }

  /** At a node, a reversible field defined there accepts any values of the
      right count: every source value the inversion reads is calculable and
      the target holds data at the node. */
  lemma {:induction false} SetSucceedsAtNode(reg: Registry, conv: Conversions, store: FeStore, f: FieldId,
                                             node: NodeId, values: seq<real>)
    requires WellFormed(reg) && f in reg
    ensures Reversible(reg, f) && |values| == reg[f].numberOfComponents && IsDefinedAtNode(reg, store, f, node) ==>
              SetValues(reg, conv, store, f, AtNode(node), values).Ok?
    decreases Rank(reg, f)
  {
    if Reversible(reg, f) && |values| == reg[f].numberOfComponents && IsDefinedAtNode(reg, store, f, node) {
      FitsShape(reg, f);
      if !reg[f].kind.FiniteElement? {
        var source := reg[f].sources[0];
        RankDecreases(reg, f, 0);
        NodeValueIffDefined(reg, conv, store, source, node);
        match reg[f].kind
        case Component(k) =>
          var current := Value(reg, conv, store, source, AtNode(node)).value;
          SetSucceedsAtNode(reg, conv, store, source, node, current[k := values[0]]);
        case RcCoordinate =>
          var sourceValues := conv.coordinateFromRc(reg[source].coordinateSystem, values);
          SetSucceedsAtNode(reg, conv, store, source, node, Fit(sourceValues, reg[source].numberOfComponents));
        case RcVector =>
          var coordinate := reg[f].sources[1];
          RankDecreases(reg, f, 1);
          NodeValueIffDefined(reg, conv, store, coordinate, node);
          var position := Value(reg, conv, store, coordinate, AtNode(node)).value;
          var vectorValues := conv.vectorFromRc(reg[source].coordinateSystem, values, position);
          SetSucceedsAtNode(reg, conv, store, source, node, Fit(vectorValues, reg[source].numberOfComponents));
      }
    }
  }

  /** set_values_at_node: the inverse at a node location. */
  function SetValuesAtNode(reg: Registry, conv: Conversions, store: FeStore, f: FieldId, node: NodeId,
                           values: seq<real>): (r: Result<FeStore>)
    requires WellFormed(reg) && f in reg
    ensures r.Ok? ==> Reversible(reg, f) && SameExcept(store, r.value, Target(reg, f), NodePoint(node))
    ensures r.Err? ==> r.error != NotReversible || !Reversible(reg, f)
    ensures Reversible(reg, f) && |values| == reg[f].numberOfComponents && IsDefinedAtNode(reg, store, f, node) ==>
              r.Ok?
  {
    SetSucceedsAtNode(reg, conv, store, f, node, values);
    SetValues(reg, conv, store, f, AtNode(node), values)
  }

  /** The store after a managed set: the modified copy is committed only when
      every value was set; the field's caches are cleared either way. */
  datatype Update = Update(store: FeStore, caches: Caches, status: Status)

  function SetValuesAtManagedNode(reg: Registry, conv: Conversions, store: FeStore, caches: Caches,
                                  f: FieldId, node: NodeId, values: seq<real>): (u: Update)
    requires WellFormed(reg) && f in reg
    ensures u.status.Failed? ==> u.store == store
    ensures u.status.Done? ==> SetValues(reg, conv, store, f, AtNode(node), values) == Ok(u.store)
    ensures u.status.Failed? <==> SetValues(reg, conv, store, f, AtNode(node), values).Err?
    ensures Reversible(reg, f) && |values| == reg[f].numberOfComponents && IsDefinedAtNode(reg, store, f, node) ==>
              u.status == Done
    ensures forall x :: x in u.caches <==> x in caches && !DependsOn(reg, f, x)
  {
    var cleared := ClearCache(reg, caches, f);
    SetSucceedsAtNode(reg, conv, store, f, node, values);
    match SetValues(reg, conv, store, f, AtNode(node), values)
    case Ok(s) => Update(s, cleared, Done)
    case Err(e) => Update(store, cleared, Failed(e))
  }

  /** f is a chain of COMPONENT fields ending in a finite-element wrapper. */
  predicate PassThrough(reg: Registry, f: FieldId)
    requires WellFormed(reg) && f in reg
    decreases Rank(reg, f)
  {
    FitsShape(reg, f);
    match reg[f].kind
    case FiniteElement(_, _) => true
    case Component(_) => RankDecreases(reg, f, 0); PassThrough(reg, reg[f].sources[0])
    case _ => false
  }

  /** Setting values through a pass-through chain and evaluating gives the
      values back. */
  lemma {:induction false} SetThenValue(reg: Registry, conv: Conversions, store: FeStore, f: FieldId,
                                        loc: Location, values: seq<real>)
    requires WellFormed(reg) && f in reg && PassThrough(reg, f)
    requires SetValues(reg, conv, store, f, loc, values).Ok?
    ensures Value(reg, conv, SetValues(reg, conv, store, f, loc, values).value, f, loc) == Ok(values)
    decreases Rank(reg, f)
  {
    FitsShape(reg, f);
    var store' := SetValues(reg, conv, store, f, loc, values).value;
    if reg[f].kind.Component? {
      var source := reg[f].sources[0];
      RankDecreases(reg, f, 0);
      var k := reg[f].kind.componentNo;
      assert Value(reg, conv, store, source, loc).Ok?;
      var current := Value(reg, conv, store, source, loc).value;
      assert store' == SetValues(reg, conv, store, source, loc, current[k := values[0]]).value;
      SetThenValue(reg, conv, store, source, loc, current[k := values[0]]);
      assert Value(reg, conv, store', source, loc) == Ok(current[k := values[0]]);
      assert ValueSources(reg, conv, store', f, loc, 1) == Ok([]);
      assert source == reg[f].sources[0];
      assert 0 < |reg[f].sources|;
      assert ValueSources(reg, conv, store', f, loc, 0).Ok?;
      assert ValueSources(reg, conv, store', f, loc, 0) == Ok([current[k := values[0]]] + []);
      assert values == [values[0]];
    } else {
      assert ValueSources(reg, conv, store', f, loc, 0) == Ok([]);
    }
  }

  /** Some field that f depends on wraps the finite-element field fe. */
  ghost predicate UsesFe(reg: Registry, f: FieldId, fe: FeFieldId)
    requires WellFormed(reg) && f in reg
  {
    exists x | x in reg && DependsOn(reg, f, x) :: reg[x].kind.FiniteElement? && reg[x].kind.feField == fe
  }

  /** The two stores agree at p on all data f can read. */
  ghost predicate AgreeOnUsed(reg: Registry, f: FieldId, s1: FeStore, s2: FeStore, p: Point)
    requires WellFormed(reg) && f in reg
  {
    forall fe | UsesFe(reg, f, fe) :: ReadPoint(s1, fe, p) == ReadPoint(s2, fe, p)
  }

  lemma SourceAgrees(reg: Registry, f: FieldId, i: nat, s1: FeStore, s2: FeStore, p: Point)
    requires WellFormed(reg) && f in reg && i < |reg[f].sources|
    requires AgreeOnUsed(reg, f, s1, s2, p)
    ensures reg[f].sources[i] in reg && AgreeOnUsed(reg, reg[f].sources[i], s1, s2, p)
  {
    var s := reg[f].sources[i];
    forall fe | UsesFe(reg, s, fe) ensures ReadPoint(s1, fe, p) == ReadPoint(s2, fe, p) {
      var x :| x in reg && DependsOn(reg, s, x) && reg[x].kind.FiniteElement? && reg[x].kind.feField == fe;
      assert DependsOn(reg, f, x);
    }
  }

  /** The value of f at loc reads only the data f uses, at loc's point. */
  lemma {:induction false} ValueFrame(reg: Registry, conv: Conversions, s1: FeStore, s2: FeStore, f: FieldId, loc: Location)
    requires WellFormed(reg) && f in reg && AgreeOnUsed(reg, f, s1, s2, PointOf(loc))
    ensures Value(reg, conv, s1, f, loc) == Value(reg, conv, s2, f, loc)
    decreases Rank(reg, f), 1
  {
    ValueSourcesFrame(reg, conv, s1, s2, f, loc, 0);
    if reg[f].kind.FiniteElement? {
      assert DependsOn(reg, f, f);
      assert UsesFe(reg, f, reg[f].kind.feField);
    }
  }

  lemma {:induction false} ValueSourcesFrame(reg: Registry, conv: Conversions, s1: FeStore, s2: FeStore,
                                             f: FieldId, loc: Location, i: nat)
    requires WellFormed(reg) && f in reg && i <= |reg[f].sources|
    requires AgreeOnUsed(reg, f, s1, s2, PointOf(loc))
    ensures ValueSources(reg, conv, s1, f, loc, i) == ValueSources(reg, conv, s2, f, loc, i)
    decreases Rank(reg, f), 0, |reg[f].sources| - i
  {
    if i < |reg[f].sources| {
      RankDecreases(reg, f, i);
      SourceAgrees(reg, f, i, s1, s2, PointOf(loc));
      ValueFrame(reg, conv, s1, s2, reg[f].sources[i], loc);
      ValueSourcesFrame(reg, conv, s1, s2, f, loc, i + 1);
    }
  }

  /** Setting an RC_VECTOR field changes only what its vector source reads:
      its coordinate source keeps its values everywhere, unless it reads the
      very data the vector chain writes. */
  lemma RcVectorKeepsCoordinate(reg: Registry, conv: Conversions, store: FeStore, f: FieldId, loc: Location,
                                values: seq<real>, at: Location)
    requires WellFormed(reg) && f in reg && reg[f].kind.RcVector?
    requires SetValues(reg, conv, store, f, loc, values).Ok?
    requires |reg[f].sources| == 2 && reg[f].sources[1] in reg
    requires !UsesFe(reg, reg[f].sources[1], Target(reg, f))
    ensures Value(reg, conv, SetValues(reg, conv, store, f, loc, values).value, reg[f].sources[1], at)
            == Value(reg, conv, store, reg[f].sources[1], at)
  {
    var store' := SetValues(reg, conv, store, f, loc, values).value;
    ValueFrame(reg, conv, store', store, reg[f].sources[1], at);
  }
}
