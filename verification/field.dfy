/** One computed field: its type and parameters, component count, coordinate
    system, ordered source fields and read-only flag, plus the capability
    predicates the rest of the program uses to select fields. */
module Fields {
  import opened Outcome
  import Decimal

  type FieldId = nat
  type NodeId = nat
  type ElementId = nat
  type FeFieldId = nat

  /** The type tags of enum Computed_field_type, in declaration order. */
  datatype FieldType =
    | InvalidType
    | ComponentType
    | ComposeType
    | ConstantType
    | CubicTextureCoordinatesType
    | EditMaskType
    | ExternalType
    | RcCoordinateType
    | RcVectorType
    | SumComponentsType
    | NewTypes

  /** How the rest of the program interprets the components of a field. */
  datatype CoordinateSystem =
    | RectangularCartesian
    | CylindricalPolar
    | SphericalPolar
    | ProlateSpheroidal(focus: real)
    | OblateSpheroidal(focus: real)
    | Fibre

  /** The modelled field types with their type-specific parameters. Xi and
      FiniteElement are among the "new types"; FiniteElement wraps stored
      finite-element data, which may be non-numerical. */
  datatype Kind =
    | Constant(values: seq<real>)
    | Component(componentNo: nat)
    | SumComponents(weights: seq<real>)
    | RcCoordinate
    | RcVector
    | Xi
    | FiniteElement(feField: FeFieldId, numerical: bool)

  /** A field. For RcVector the sources are [vector, coordinate]; for the
      other composite kinds there is exactly one source. */
  datatype Field = Field(
    name: string,
    kind: Kind,
    numberOfComponents: nat,
    coordinateSystem: CoordinateSystem,
    sources: seq<FieldId>,
    readOnly: bool)

  /** Where a field is evaluated: at a node, or at local coordinates xi in an
      element, with an optional top-level parent element. */
  datatype Location =
    | AtNode(node: NodeId)
    | InElement(element: ElementId, xi: seq<real>, topLevel: Option<ElementId>)

  /** The one-entry evaluation cache of a field: the last location and the
      values computed there. A field without an entry has no valid cache. */
  datatype Cache = Cache(location: Location, values: seq<real>)

  type Caches = map<FieldId, Cache>

  /** The type tag reported for a field. */
  function TypeOf(kind: Kind): (t: FieldType)
    ensures t != InvalidType
    ensures t == NewTypes <==> kind.Xi? || kind.FiniteElement?
  {
    match kind
    case Constant(_) => ConstantType
    case Component(_) => ComponentType
    case SumComponents(_) => SumComponentsType
    case RcCoordinate => RcCoordinateType
    case RcVector => RcVectorType
    case Xi => NewTypes
    case FiniteElement(_, _) => NewTypes
  }

  /** A new field: type CONSTANT with one component of value zero. */
  function Create(name: string): (f: Field)
    ensures f.name == name
    ensures TypeOf(f.kind) == ConstantType && f.kind.values == [0.0]
    ensures f.numberOfComponents == 1 && f.sources == []
    ensures !f.readOnly
  {
    Field(name, Constant([0.0]), 1, RectangularCartesian, [], false)
  }

  /** Number of vectors an RC_VECTOR source of n components supplies: one
      vector with 1, 2 or 3 components, two with 4 or 6, three with 9. */
  function NumberOfVectors(n: nat): (r: Option<nat>)
    ensures r.Some? ==> 1 <= r.value <= 3 && r.value <= n <= 3 * r.value
  {
    if 1 <= n <= 3 then Some(1)
    else if n == 4 || n == 6 then Some(2)
    else if n == 9 then Some(3)
    else None
  }

  /** The component count a field of the given kind must have, given the
      component counts of its sources; None when the sources do not suit. */
  function ComponentsFor(kind: Kind, sourceCounts: seq<nat>): (r: Option<nat>)
    ensures r.Some? ==> r.value > 0
  {
    match kind
    case Constant(values) =>
      if sourceCounts == [] && |values| > 0 then Some(|values|) else None
    case Component(k) =>
      if |sourceCounts| == 1 && k < sourceCounts[0] then Some(1) else None
    case SumComponents(weights) =>
      if |sourceCounts| == 1 && |weights| == sourceCounts[0] && 0 < |weights|
      then Some(1) else None
    case RcCoordinate =>
      if |sourceCounts| == 1 && 0 < sourceCounts[0] <= 3 then Some(3) else None
    case RcVector =>
      if |sourceCounts| == 2 && NumberOfVectors(sourceCounts[0]).Some?
      then Some(3 * NumberOfVectors(sourceCounts[0]).value) else None
    case Xi =>
      if sourceCounts == [] then Some(3) else None
    case FiniteElement(_, _) => None
  }

  /** Clears read-only status. */
  function SetReadWrite(f: Field): (r: Field)
    ensures !IsReadOnly(r)
    ensures r.(readOnly := f.readOnly) == f
  {
    f.(readOnly := false)
  }

  /** Marks the field read-only. */
  function SetReadOnly(f: Field): (r: Field)
    ensures IsReadOnly(r)
    ensures r.(readOnly := f.readOnly) == f
  {
    f.(readOnly := true)
  }

  predicate IsReadOnly(f: Field) {
    f.readOnly
  }

  /** Sets the coordinate system the field is interpreted under. */
  function SetCoordinateSystem(f: Field, cs: CoordinateSystem): (r: Field)
    ensures r.coordinateSystem == cs
    ensures r.(coordinateSystem := f.coordinateSystem) == f
  {
    f.(coordinateSystem := cs)
  }

  /** Default name of component k (counted from zero): the decimal form of
      k + 1. Finite-element wrappers take the names of the wrapped field,
      supplied here by feComponentName. */
  function ComponentName(f: Field, k: nat, feComponentName: (FeFieldId, nat) -> string): (s: string)
  {
    match f.kind
    case FiniteElement(fe, _) => feComponentName(fe, k)
    case _ => Decimal.Decimal(k + 1)
  }

  /** Default component names never collide. */
  lemma DefaultComponentNamesDistinct(f: Field, j: nat, k: nat, feComponentName: (FeFieldId, nat) -> string)
    requires !f.kind.FiniteElement?
    ensures ComponentName(f, j, feComponentName) == ComponentName(f, k, feComponentName) <==> j == k
    ensures ComponentName(f, k, feComponentName) != "0"
  {
    Decimal.DecimalInjective(j + 1, k + 1);
  }

  // Capability predicates (conditional functions over fields).

  predicate HasNumericalComponents(f: Field) {
    !(f.kind.FiniteElement? && !f.kind.numerical)
  }

  predicate HasNComponents(f: Field, n: nat) {
    f.numberOfComponents == n
  }

  predicate Has3Components(f: Field) {
    f.numberOfComponents == 3
  }

  predicate Has4Components(f: Field) {
    f.numberOfComponents == 4
  }

  predicate HasAtLeast2Components(f: Field) {
    f.numberOfComponents >= 2
  }

  predicate IsScalar(f: Field) {
    f.numberOfComponents == 1 && HasNumericalComponents(f)
  }

  predicate HasUpTo3NumericalComponents(f: Field) {
    f.numberOfComponents <= 3 && HasNumericalComponents(f)
  }

  predicate HasUpTo4NumericalComponents(f: Field) {
    f.numberOfComponents <= 4 && HasNumericalComponents(f)
  }

  /** 1, 2, 3, 4, 6 or 9 components: a scalar, one or two 2-D or 3-D
      vectors, or three 3-D vectors. */
  predicate IsOrientationScaleCapable(f: Field) {
    f.numberOfComponents in {1, 2, 3, 4, 6, 9}
  }

  /** 3, 6 or 9 components (3 per vector), or a fibre coordinate system. */
  predicate IsStreamVectorCapable(f: Field) {
    f.numberOfComponents in {3, 6, 9} || f.coordinateSystem.Fibre?
  }

  /** How the capability predicates relate to one another and to the
      component counts. */
  lemma CapabilityRelations(f: Field)
    ensures Has3Components(f) <==> HasNComponents(f, 3)
    ensures Has4Components(f) <==> HasNComponents(f, 4)
    ensures IsScalar(f) <==> HasNComponents(f, 1) && HasNumericalComponents(f)
    ensures IsScalar(f) ==> HasUpTo3NumericalComponents(f) && IsOrientationScaleCapable(f)
    ensures HasUpTo3NumericalComponents(f) ==> HasUpTo4NumericalComponents(f)
    ensures IsStreamVectorCapable(f) && !f.coordinateSystem.Fibre? ==> IsOrientationScaleCapable(f)
    ensures IsOrientationScaleCapable(f) <==> NumberOfVectors(f.numberOfComponents).Some?
    ensures IsOrientationScaleCapable(f) && !HasAtLeast2Components(f) ==> HasNComponents(f, 1)
  {
  }

  /** A field can serve as the vector source of an RC_VECTOR field exactly
      when it can orient and scale glyphs; the RC_VECTOR field then holds 3, 6
      or 9 components and so can both orient glyphs and track streamlines. */
  lemma VectorSourceCapability(vector: Field, coordinateCount: nat)
    ensures ComponentsFor(RcVector, [vector.numberOfComponents, coordinateCount]).Some? <==>
              IsOrientationScaleCapable(vector)
    ensures ComponentsFor(RcVector, [vector.numberOfComponents, coordinateCount]).Some? ==>
              ComponentsFor(RcVector, [vector.numberOfComponents, coordinateCount]).value in {3, 6, 9}
  {
    CapabilityRelations(vector);
  }
}
