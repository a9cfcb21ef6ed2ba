/** is_defined_in_element / is_defined_at_node: whether a field can be
    calculated on a node or element, checked recursively over its sources. */
module Definedness {
  import opened Outcome
  import opened Fields
  import opened Graph
  import opened Store
  import opened Evaluator

  /** The field's own requirement, ignoring its sources: XI fields exist only
      in elements, finite-element wrappers need data there. */
  predicate OwnDefined(reg: Registry, store: FeStore, f: FieldId, d: Domain)
    requires f in reg
  {
    match reg[f].kind
    case Xi => d.ElementDomain?
    case FiniteElement(fe, _) =>
      (match d
       case NodeDomain(n) =>
         var v := ReadPoint(store, fe, NodePoint(n));
         v.Some? && |v.value| == reg[f].numberOfComponents
       case ElementDomain(_) => DefinesOn(store, fe, d))
    case _ => true
  }

  /** f and, recursively, all of its sources are defined on d. */
  predicate IsDefined(reg: Registry, store: FeStore, f: FieldId, d: Domain)
    requires WellFormed(reg) && f in reg
    decreases Rank(reg, f)
  {
    && OwnDefined(reg, store, f, d)
    && forall i | 0 <= i < |reg[f].sources| :: IsDefined(reg, store, reg[f].sources[i], d)
  }

  predicate IsDefinedInElement(reg: Registry, store: FeStore, f: FieldId, element: ElementId)
    requires WellFormed(reg) && f in reg
  {
    IsDefined(reg, store, f, ElementDomain(element))
  }

  predicate IsDefinedAtNode(reg: Registry, store: FeStore, f: FieldId, node: NodeId)
    requires WellFormed(reg) && f in reg
  {
    IsDefined(reg, store, f, NodeDomain(node))
  }

  /** Everything a defined field depends on is defined on the same domain. */
  lemma {:induction false} DefinedClosedUnderDependency(reg: Registry, store: FeStore, f: FieldId, x: FieldId, d: Domain)
    requires WellFormed(reg) && f in reg
    requires IsDefined(reg, store, f, d) && DependsOn(reg, f, x)
    ensures x in reg && IsDefined(reg, store, x, d)
    decreases Rank(reg, f)
  {
    DependsOnRank(reg, f, x);
    if f != x {
      var i :| 0 <= i < |reg[f].sources| && DependsOn(reg, reg[f].sources[i], x);
      RankDecreases(reg, f, i);
      DefinedClosedUnderDependency(reg, store, reg[f].sources[i], x, d);
    }
  }

  /** f is defined on d iff every field it depends on (itself included) meets
      its own requirement on d. */
  lemma {:induction false} DefinedIffAllOwnDefined(reg: Registry, store: FeStore, f: FieldId, d: Domain)
    requires WellFormed(reg) && f in reg
    ensures IsDefined(reg, store, f, d) <==>
            forall x | x in reg && DependsOn(reg, f, x) :: OwnDefined(reg, store, x, d)
    decreases Rank(reg, f)
  {
    if IsDefined(reg, store, f, d) {
      forall x | x in reg && DependsOn(reg, f, x) ensures OwnDefined(reg, store, x, d) {
        DefinedClosedUnderDependency(reg, store, f, x, d);
      }
    }
    if forall x | x in reg && DependsOn(reg, f, x) :: OwnDefined(reg, store, x, d) {
      assert DependsOn(reg, f, f);
      forall i | 0 <= i < |reg[f].sources| ensures IsDefined(reg, store, reg[f].sources[i], d) {
        var s := reg[f].sources[i];
        RankDecreases(reg, f, i);
        forall x | x in reg && DependsOn(reg, s, x) ensures OwnDefined(reg, store, x, d) {
          assert DependsOn(reg, f, x);
        }
        DefinedIffAllOwnDefined(reg, store, s, d);
      }
    }
  }

  /** The sources from i on are defined exactly when source i and those
      after it are. */
  lemma SourcesDefinedStep(reg: Registry, store: FeStore, f: FieldId, d: Domain, i: nat)
    requires WellFormed(reg) && f in reg && i < |reg[f].sources|
    ensures (forall j | i <= j < |reg[f].sources| :: IsDefined(reg, store, reg[f].sources[j], d)) <==>
              && IsDefined(reg, store, reg[f].sources[i], d)
              && forall j | i + 1 <= j < |reg[f].sources| :: IsDefined(reg, store, reg[f].sources[j], d)
  {
  }

  lemma ApplyAtNode(reg: Registry, conv: Conversions, store: FeStore, f: FieldId, n: NodeId, vals: seq<seq<real>>)
    requires WellFormed(reg) && f in reg && SourceValuesFit(reg, f, vals)
    ensures Apply(reg, conv, store, f, AtNode(n), vals).Ok? <==> OwnDefined(reg, store, f, NodeDomain(n))
  {
  }

  /** Evaluation at a node succeeds exactly where the field is defined. */
  lemma {:induction false} NodeValueIffDefined(reg: Registry, conv: Conversions, store: FeStore, f: FieldId, n: NodeId)
    requires WellFormed(reg) && f in reg
    ensures Value(reg, conv, store, f, AtNode(n)).Ok? <==> IsDefinedAtNode(reg, store, f, n)
    decreases Rank(reg, f), 1
  {
    NodeSourcesIffDefined(reg, conv, store, f, n, 0);
    var s := ValueSources(reg, conv, store, f, AtNode(n), 0);
    if s.Ok? {
      ApplyAtNode(reg, conv, store, f, n, s.value);
    }
  }

  lemma {:induction false} NodeSourcesIffDefined(reg: Registry, conv: Conversions, store: FeStore, f: FieldId, n: NodeId, i: nat)
    requires WellFormed(reg) && f in reg && i <= |reg[f].sources|
    ensures ValueSources(reg, conv, store, f, AtNode(n), i).Ok? <==>
            forall j | i <= j < |reg[f].sources| :: IsDefined(reg, store, reg[f].sources[j], NodeDomain(n))
    decreases Rank(reg, f), 0, |reg[f].sources| - i
  {
    if i < |reg[f].sources| {
      RankDecreases(reg, f, i);
      ValueSourcesStep(reg, conv, store, f, AtNode(n), i);
      NodeValueIffDefined(reg, conv, store, reg[f].sources[i], n);
      NodeSourcesIffDefined(reg, conv, store, f, n, i + 1);
      SourcesDefinedStep(reg, store, f, NodeDomain(n), i);
    }
  }

  /** Evaluation in an element succeeds only where the field is defined over
      that element. */
  lemma {:induction false} ElementValueNeedsDefined(reg: Registry, conv: Conversions, store: FeStore, f: FieldId,
                                                    e: ElementId, xi: seq<real>, top: Option<ElementId>)
    requires WellFormed(reg) && f in reg
    requires Value(reg, conv, store, f, InElement(e, xi, top)).Ok?
    ensures IsDefinedInElement(reg, store, f, e)
    decreases Rank(reg, f), 1
  {
    ElementSourcesNeedDefined(reg, conv, store, f, e, xi, top, 0);
  }

  lemma {:induction false} ElementSourcesNeedDefined(reg: Registry, conv: Conversions, store: FeStore, f: FieldId,
                                                     e: ElementId, xi: seq<real>, top: Option<ElementId>, i: nat)
    requires WellFormed(reg) && f in reg && i <= |reg[f].sources|
    requires ValueSources(reg, conv, store, f, InElement(e, xi, top), i).Ok?
    ensures forall j | i <= j < |reg[f].sources| :: IsDefined(reg, store, reg[f].sources[j], ElementDomain(e))
    decreases Rank(reg, f), 0, |reg[f].sources| - i
  {
    if i < |reg[f].sources| {
      RankDecreases(reg, f, i);
      ValueSourcesStep(reg, conv, store, f, InElement(e, xi, top), i);
      ElementValueNeedsDefined(reg, conv, store, reg[f].sources[i], e, xi, top);
      ElementSourcesNeedDefined(reg, conv, store, f, e, xi, top, i + 1);
      SourcesDefinedStep(reg, store, f, ElementDomain(e), i);
    }
  }

  /** f's own requirement at one location: XI needs an element location, a
      finite-element wrapper needs correctly sized data at that exact point. */
  predicate OwnCalculable(reg: Registry, store: FeStore, f: FieldId, loc: Location)
    requires f in reg
  {
    match reg[f].kind
    case Xi => loc.InElement?
    case FiniteElement(fe, _) =>
      var v := ReadPoint(store, fe, PointOf(loc));
      v.Some? && |v.value| == reg[f].numberOfComponents
    case _ => true
  }

  /** f and, recursively, all of its sources meet their own requirement at loc. */
  predicate IsCalculable(reg: Registry, store: FeStore, f: FieldId, loc: Location)
    requires WellFormed(reg) && f in reg
    decreases Rank(reg, f)
  {
    && OwnCalculable(reg, store, f, loc)
    && forall i | 0 <= i < |reg[f].sources| :: IsCalculable(reg, store, reg[f].sources[i], loc)
  }

  lemma SourcesCalculableStep(reg: Registry, store: FeStore, f: FieldId, loc: Location, i: nat)
    requires WellFormed(reg) && f in reg && i < |reg[f].sources|
    ensures (forall j | i <= j < |reg[f].sources| :: IsCalculable(reg, store, reg[f].sources[j], loc)) <==>
              && IsCalculable(reg, store, reg[f].sources[i], loc)
              && forall j | i + 1 <= j < |reg[f].sources| :: IsCalculable(reg, store, reg[f].sources[j], loc)
  {
  }

  lemma ApplyIffOwnCalculable(reg: Registry, conv: Conversions, store: FeStore, f: FieldId, loc: Location,
                              vals: seq<seq<real>>)
    requires WellFormed(reg) && f in reg && SourceValuesFit(reg, f, vals)
    ensures Apply(reg, conv, store, f, loc, vals).Ok? <==> OwnCalculable(reg, store, f, loc)
  {
  }

  /** Evaluation succeeds at any location exactly where f and everything it
      depends on can be calculated. */
  lemma {:induction false} ValueIffCalculable(reg: Registry, conv: Conversions, store: FeStore, f: FieldId, loc: Location)
    requires WellFormed(reg) && f in reg
    ensures Value(reg, conv, store, f, loc).Ok? <==> IsCalculable(reg, store, f, loc)
    decreases Rank(reg, f), 1
  {
    SourcesIffCalculable(reg, conv, store, f, loc, 0);
    var s := ValueSources(reg, conv, store, f, loc, 0);
    if s.Ok? {
      ApplyIffOwnCalculable(reg, conv, store, f, loc, s.value);
    }
  }

  lemma {:induction false} SourcesIffCalculable(reg: Registry, conv: Conversions, store: FeStore, f: FieldId,
                                                loc: Location, i: nat)
    requires WellFormed(reg) && f in reg && i <= |reg[f].sources|
    ensures ValueSources(reg, conv, store, f, loc, i).Ok? <==>
            forall j | i <= j < |reg[f].sources| :: IsCalculable(reg, store, reg[f].sources[j], loc)
    decreases Rank(reg, f), 0, |reg[f].sources| - i
  {
    if i < |reg[f].sources| {
      RankDecreases(reg, f, i);
      ValueSourcesStep(reg, conv, store, f, loc, i);
      ValueIffCalculable(reg, conv, store, reg[f].sources[i], loc);
      SourcesIffCalculable(reg, conv, store, f, loc, i + 1);
      SourcesCalculableStep(reg, store, f, loc, i);
    }
  }

  /** Calculable at a point of an element implies defined over the element;
      at a node the two coincide. */
  lemma {:induction false} CalculableRefinesDefined(reg: Registry, store: FeStore, f: FieldId, loc: Location)
    requires WellFormed(reg) && f in reg
    ensures IsCalculable(reg, store, f, loc) ==> IsDefined(reg, store, f, DomainOf(loc))
    ensures loc.AtNode? ==> (IsCalculable(reg, store, f, loc) <==> IsDefined(reg, store, f, DomainOf(loc)))
    decreases Rank(reg, f)
  {
    forall i | 0 <= i < |reg[f].sources|
      ensures IsCalculable(reg, store, reg[f].sources[i], loc) ==> IsDefined(reg, store, reg[f].sources[i], DomainOf(loc))
      ensures loc.AtNode? ==> (IsCalculable(reg, store, reg[f].sources[i], loc) <==> IsDefined(reg, store, reg[f].sources[i], DomainOf(loc)))
    {
      RankDecreases(reg, f, i);
      CalculableRefinesDefined(reg, store, reg[f].sources[i], loc);
    }
  }
}
