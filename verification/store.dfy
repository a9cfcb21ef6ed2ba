/** Stored finite-element data read and written by FINITE_ELEMENT wrapper
    fields. Node values are held per (finite-element field, node); element
    values per (finite-element field, element), sampled at the xi points at
    which they are held. */
module Store {
  import opened Outcome
  import opened Fields

  /** A location without its top-level element: the key of stored data. */
  datatype Point = NodePoint(node: NodeId) | ElementPoint(element: ElementId, xi: seq<real>)

  /** What definedness is asked about: a node, or a whole element. */
  datatype Domain = NodeDomain(node: NodeId) | ElementDomain(element: ElementId)

  datatype FeStore = FeStore(
    nodeValues: map<(FeFieldId, NodeId), seq<real>>,
    elementValues: map<(FeFieldId, ElementId), map<seq<real>, seq<real>>>)

  function PointOf(loc: Location): Point {
    match loc
    case AtNode(n) => NodePoint(n)
    case InElement(e, xi, _) => ElementPoint(e, xi)
  }

  function DomainOf(loc: Location): Domain {
    match loc
    case AtNode(n) => NodeDomain(n)
    case InElement(e, _, _) => ElementDomain(e)
  }

  /** The values held for fe at point p, if any. */
  function ReadPoint(store: FeStore, fe: FeFieldId, p: Point): Option<seq<real>> {
    match p
    case NodePoint(n) =>
      if (fe, n) in store.nodeValues then Some(store.nodeValues[(fe, n)]) else None
    case ElementPoint(e, xi) =>
      if (fe, e) in store.elementValues && xi in store.elementValues[(fe, e)]
      then Some(store.elementValues[(fe, e)][xi]) else None
  }

  /** fe is defined at the node, or over the element. */
  predicate DefinesOn(store: FeStore, fe: FeFieldId, d: Domain) {
    match d
    case NodeDomain(n) => (fe, n) in store.nodeValues
    case ElementDomain(e) => (fe, e) in store.elementValues
  }

  /** The two stores hold the same data everywhere except for fe at p. */
  ghost predicate SameExcept(s1: FeStore, s2: FeStore, fe: FeFieldId, p: Point) {
    && (forall fe', p' | fe' != fe || p' != p :: ReadPoint(s1, fe', p') == ReadPoint(s2, fe', p'))
    && (forall fe', d :: DefinesOn(s1, fe', d) <==> DefinesOn(s2, fe', d))
  }

  /** Writes values for fe at the location, which must lie in a node or
      element where fe is defined. */
  function WriteAt(store: FeStore, fe: FeFieldId, loc: Location, values: seq<real>): (r: Result<FeStore>)
    ensures r.Ok? <==> DefinesOn(store, fe, DomainOf(loc))
    ensures r.Err? ==> r.error == NotDefinedAtLocation
    ensures r.Ok? ==> ReadPoint(r.value, fe, PointOf(loc)) == Some(values)
    ensures r.Ok? ==> SameExcept(store, r.value, fe, PointOf(loc))
  {
    match loc
    case AtNode(n) =>
      if (fe, n) in store.nodeValues
      then Ok(store.(nodeValues := store.nodeValues[(fe, n) := values]))
      else Err(NotDefinedAtLocation)
    case InElement(e, xi, _) =>
      if (fe, e) in store.elementValues
      then
        var samples := store.elementValues[(fe, e)];
        Ok(store.(elementValues := store.elementValues[(fe, e) := samples[xi := values]]))
      else Err(NotDefinedAtLocation)
  }
}
