/** The set_type operations: each converts a registered field to a new type
    with new sources and parameters, or fails and leaves everything as it was. */
module SetType {
  import opened Outcome
  import opened Fields
  import opened Graph

  /** The registry and caches after a conversion, and whether it committed. */
  datatype Commit = Commit(fields: Registry, caches: Caches, status: Status)

  predicate AllRegistered(reg: Registry, sources: seq<FieldId>) {
    forall i | 0 <= i < |sources| :: sources[i] in reg
  }

  /** Some candidate source is f or depends on f. */
  predicate WouldCycle(reg: Registry, f: FieldId, sources: seq<FieldId>)
    requires WellFormed(reg) && AllRegistered(reg, sources)
  {
    exists i | 0 <= i < |sources| :: DependsOn(reg, sources[i], f)
  }

  /** f with the new kind, sources and component count; name, coordinate
      system and read-only flag are kept. */
  function Converted(previous: Field, kind: Kind, n: nat, sources: seq<FieldId>): Field {
    previous.(kind := kind, numberOfComponents := n, sources := sources)
  }

  ghost function SumRanks(rank: map<FieldId, nat>, s: seq<FieldId>): (total: nat)
    requires forall i | 0 <= i < |s| :: s[i] in rank
    ensures forall i | 0 <= i < |s| :: rank[s[i]] <= total
  {
    if s == [] then 0 else rank[s[0]] + SumRanks(rank, s[1..])
  }

  /** Giving f sources none of which depends on f keeps the graph acyclic:
      fields that depend on f are lifted above every new source. */
  lemma ConvertKeepsAcyclic(reg: Registry, f: FieldId, g: Field)
    requires WellFormed(reg) && f in reg
    requires AllRegistered(reg, g.sources) && !WouldCycle(reg, f, g.sources)
    ensures Acyclic(reg[f := g])
  {
    var reg' := reg[f := g];
    var r := RankMap(reg);
    var k := 1 + SumRanks(r, g.sources);
    var r' := map x | x in reg :: if DependsOn(reg, x, f) then r[x] + k else r[x];
    forall x, i | x in reg' && 0 <= i < |reg'[x].sources|
      ensures reg'[x].sources[i] in r' && r'[reg'[x].sources[i]] < r'[x]
    {
      var s := reg'[x].sources[i];
      if x == f {
        assert !DependsOn(reg, s, f);
      } else {
        RankDecreases(reg, x, i);
        if DependsOn(reg, s, f) {
          assert DependsOn(reg, x, f);
        }
      }
    }
    assert ValidRank(reg', r');
  }

  /** Giving f n components disturbs no other field: either no field uses f
      as a source, or f keeps its component count. */
  predicate UsersUnaffected(reg: Registry, f: FieldId, n: nat)
    requires f in reg
  {
    n == reg[f].numberOfComponents || forall x, i | x in reg && 0 <= i < |reg[x].sources| :: reg[x].sources[i] != f
  }

  /** Replacing f by a field that fits its sources, none of which depends on
      f, keeps every field fitting when the users of f are unaffected. */
  lemma ConvertKeepsConsistent(reg: Registry, f: FieldId, g: Field)
    requires WellFormed(reg) && f in reg
    requires AllRegistered(reg, g.sources) && !WouldCycle(reg, f, g.sources)
    requires !g.kind.FiniteElement? && ComponentsFor(g.kind, SourceCounts(reg, g.sources)) == Some(g.numberOfComponents)
    requires UsersUnaffected(reg, f, g.numberOfComponents)
    ensures Consistent(reg[f := g])
  {
    var reg' := reg[f := g];
    forall x | x in reg' ensures Fits(reg', reg'[x]) {
      var srcs := reg'[x].sources;
      if x == f {
        forall i | 0 <= i < |srcs| ensures srcs[i] != f {
          assert DependsOn(reg, srcs[i], srcs[i]);
        }
        assert SourceCounts(reg', srcs) == SourceCounts(reg, srcs);
      } else {
        assert Fits(reg, reg[x]);
        forall i | 0 <= i < |srcs| ensures SourceCounts(reg', srcs)[i] == SourceCounts(reg, srcs)[i] {
          assert srcs[i] in reg;
        }
        assert SourceCounts(reg', srcs) == SourceCounts(reg, srcs);
      }
    }
  }

  /** The common commit step of every set_type operation. */
  function Convert(reg: Registry, caches: Caches, f: FieldId, kind: Kind, sources: seq<FieldId>): (r: Commit)
    requires WellFormed(reg)
    ensures WellFormed(r.fields)
    ensures r.status.Failed? ==> r.fields == reg && r.caches == caches
    ensures f !in reg || !AllRegistered(reg, sources) ==> r.status == Failed(InvalidArgument)
    ensures f in reg && AllRegistered(reg, sources) && WouldCycle(reg, f, sources) ==>
              r.status == Failed(CyclicDependency)
    ensures f in reg && AllRegistered(reg, sources) && ComponentsFor(kind, SourceCounts(reg, sources)).None? ==>
              r.status.Failed?
    ensures f in reg && AllRegistered(reg, sources) && !WouldCycle(reg, f, sources)
            && ComponentsFor(kind, SourceCounts(reg, sources)).Some?
            && UsersUnaffected(reg, f, ComponentsFor(kind, SourceCounts(reg, sources)).value) ==>
              r.status == Done
    ensures r.status.Done? ==>
              && f in reg && AllRegistered(reg, sources)
              && r.fields.Keys == reg.Keys
              && r.fields[f] == Converted(reg[f], kind, r.fields[f].numberOfComponents, sources)
              && Some(r.fields[f].numberOfComponents) == ComponentsFor(kind, SourceCounts(reg, sources))
              && (forall x | x in reg && x != f :: r.fields[x] == reg[x])
              && r.caches == caches - {f}
  {
    if f !in reg || !AllRegistered(reg, sources) then
      Commit(reg, caches, Failed(InvalidArgument))
    else if WouldCycle(reg, f, sources) then
      Commit(reg, caches, Failed(CyclicDependency))
    else
      var counts := SourceCounts(reg, sources);
      match ComponentsFor(kind, counts)
      case None => Commit(reg, caches, Failed(InvalidArgument))
      case Some(n) =>
        var g := Converted(reg[f], kind, n, sources);
        var reg' := reg[f := g];
        assert UsersUnaffected(reg, f, n) ==> Consistent(reg') by {
          if UsersUnaffected(reg, f, n) {
            ConvertKeepsConsistent(reg, f, g);
          }
        }
        // A field using f must still fit f's new component count.
        if !Consistent(reg') then
          Commit(reg, caches, Failed(InvalidArgument))
        else
          ConvertKeepsAcyclic(reg, f, g);
          Commit(reg', caches - {f}, Done)
  }

  /** One candidate source: registered, a cycle iff it depends on f, and its
      count the only count. */
  lemma OneSource(reg: Registry, f: FieldId, a: FieldId)
    requires WellFormed(reg)
    ensures a in reg ==>
              && AllRegistered(reg, [a])
              && (WouldCycle(reg, f, [a]) <==> DependsOn(reg, a, f))
              && SourceCounts(reg, [a]) == [reg[a].numberOfComponents]
              && reg[a].numberOfComponents > 0
  {
    if a in reg {
      assert [a][0] == a;
      FitsShape(reg, a);
    }
  }

  /** COMPONENT: component componentNo (from zero) of source; 1 component. */
  function SetTypeComponent(reg: Registry, caches: Caches, f: FieldId, source: FieldId, componentNo: nat): (r: Commit)
    requires WellFormed(reg)
    ensures WellFormed(r.fields)
    ensures r.status.Failed? ==> r.fields == reg && r.caches == caches
    ensures f in reg && source in reg && DependsOn(reg, source, f) ==> r.status == Failed(CyclicDependency)
    ensures f in reg && source in reg && componentNo >= reg[source].numberOfComponents ==> r.status.Failed?
    ensures f in reg && source in reg && !DependsOn(reg, source, f)
            && componentNo < reg[source].numberOfComponents && UsersUnaffected(reg, f, 1) ==>
              r.status == Done
    ensures r.status.Done? ==>
              && f in r.fields
              && TypeOf(r.fields[f].kind) == ComponentType
              && r.fields[f].numberOfComponents == 1
              && r.fields[f].sources == [source]
              && GetTypeComponent(r.fields, f) == Ok((source, componentNo))
  {
    OneSource(reg, f, source);
    Convert(reg, caches, f, Component(componentNo), [source])
  }

  /** CONSTANT: the given values everywhere; as many components as values. */
  function SetTypeConstant(reg: Registry, caches: Caches, f: FieldId, values: seq<real>): (r: Commit)
    requires WellFormed(reg)
    ensures WellFormed(r.fields)
    ensures r.status.Failed? ==> r.fields == reg && r.caches == caches
    ensures f in reg && values == [] ==> r.status == Failed(InvalidArgument)
    ensures f in reg && values != [] && UsersUnaffected(reg, f, |values|) ==> r.status == Done
    ensures r.status.Done? ==>
              && f in r.fields
              && TypeOf(r.fields[f].kind) == ConstantType
              && r.fields[f].numberOfComponents == |values|
              && r.fields[f].sources == []
              && GetTypeConstant(r.fields, f) == Ok(values)
  {
    Convert(reg, caches, f, Constant(values), [])
  }

  /** RC_COORDINATE: the coordinate field in rectangular cartesian
      coordinates; the coordinate field has at most 3 components; 3 components. */
  function SetTypeRcCoordinate(reg: Registry, caches: Caches, f: FieldId, coordinate: FieldId): (r: Commit)
    requires WellFormed(reg)
    ensures WellFormed(r.fields)
    ensures r.status.Failed? ==> r.fields == reg && r.caches == caches
    ensures f in reg && coordinate in reg && DependsOn(reg, coordinate, f) ==> r.status == Failed(CyclicDependency)
    ensures f in reg && coordinate in reg && reg[coordinate].numberOfComponents > 3 ==> r.status.Failed?
    ensures f in reg && coordinate in reg && !DependsOn(reg, coordinate, f)
            && reg[coordinate].numberOfComponents <= 3 && UsersUnaffected(reg, f, 3) ==>
              r.status == Done
    ensures r.status.Done? ==>
              && f in r.fields
              && TypeOf(r.fields[f].kind) == RcCoordinateType
              && r.fields[f].numberOfComponents == 3
              && r.fields[f].sources == [coordinate]
              && GetTypeRcCoordinate(r.fields, f) == Ok(coordinate)
  {
    OneSource(reg, f, coordinate);
    Convert(reg, caches, f, RcCoordinate, [coordinate])
  }

  /** Two candidate sources: both registered, a cycle iff either depends on f,
      and the first source's count first among the counts. */
  lemma PairOfSources(reg: Registry, f: FieldId, a: FieldId, b: FieldId)
    requires WellFormed(reg)
    ensures a in reg && b in reg ==>
              && AllRegistered(reg, [a, b])
              && (WouldCycle(reg, f, [a, b]) <==> DependsOn(reg, a, f) || DependsOn(reg, b, f))
    ensures a in reg ==> SourceCounts(reg, [a, b])[0] == reg[a].numberOfComponents
  {
    if a in reg && b in reg {
      assert [a, b][0] == a && [a, b][1] == b;
    }
  }

  /** RC_VECTOR: vectors of the vector field converted to rectangular
      cartesian at the position of the coordinate field; 3 components per
      vector, the vector field having 1, 2, 3, 4, 6 or 9 components. */
  function SetTypeRcVector(reg: Registry, caches: Caches, f: FieldId, vector: FieldId, coordinate: FieldId): (r: Commit)
    requires WellFormed(reg)
    ensures WellFormed(r.fields)
    ensures r.status.Failed? ==> r.fields == reg && r.caches == caches
    ensures f in reg && vector in reg && coordinate in reg ==>
              (DependsOn(reg, vector, f) || DependsOn(reg, coordinate, f) ==> r.status == Failed(CyclicDependency))
    ensures f in reg && vector in reg && reg[vector].numberOfComponents !in {1, 2, 3, 4, 6, 9} ==> r.status.Failed?
    ensures f in reg && vector in reg && coordinate in reg
            && !DependsOn(reg, vector, f) && !DependsOn(reg, coordinate, f)
            && reg[vector].numberOfComponents in {1, 2, 3, 4, 6, 9}
            && UsersUnaffected(reg, f, RcVectorComponents(reg[vector].numberOfComponents)) ==>
              r.status == Done
    ensures r.status.Done? ==>
              && f in r.fields
              && TypeOf(r.fields[f].kind) == RcVectorType
              && r.fields[f].sources == [vector, coordinate]
              && vector in reg
              && r.fields[f].numberOfComponents == RcVectorComponents(reg[vector].numberOfComponents)
              && GetTypeRcVector(r.fields, f) == Ok((vector, coordinate))
  {
    var srcs := [vector, coordinate];
    PairOfSources(reg, f, vector, coordinate);
    var r := Convert(reg, caches, f, RcVector, srcs);
    if r.status.Failed? then r
    else
      assert SourceCounts(reg, r.fields[f].sources)[0] == reg[vector].numberOfComponents;
      r
  }

  /** 3 components for 1 to 3 vector components, 6 for 4 to 6, 9 beyond. */
  function RcVectorComponents(m: nat): nat {
    if m <= 3 then 3 else if m <= 6 then 6 else 9
  }

  /** SUM_COMPONENTS: scalar weighted sum of the source's components; one
      weight per source component; 1 component. */
  function SetTypeSumComponents(reg: Registry, caches: Caches, f: FieldId, source: FieldId, weights: seq<real>): (r: Commit)
    requires WellFormed(reg)
    ensures WellFormed(r.fields)
    ensures r.status.Failed? ==> r.fields == reg && r.caches == caches
    ensures f in reg && source in reg && DependsOn(reg, source, f) ==> r.status == Failed(CyclicDependency)
    ensures f in reg && source in reg && |weights| != reg[source].numberOfComponents ==> r.status.Failed?
    ensures f in reg && source in reg && !DependsOn(reg, source, f)
            && |weights| == reg[source].numberOfComponents && UsersUnaffected(reg, f, 1) ==>
              r.status == Done
    ensures r.status.Done? ==>
              && f in r.fields
              && TypeOf(r.fields[f].kind) == SumComponentsType
              && r.fields[f].numberOfComponents == 1
              && r.fields[f].sources == [source]
              && GetTypeSumComponents(r.fields, f) == Ok((source, weights))
  {
    OneSource(reg, f, source);
    Convert(reg, caches, f, SumComponents(weights), [source])
  }

  /** XI: the element xi passed in; defined only in elements; 3 components. */
  function SetTypeXiCoordinates(reg: Registry, caches: Caches, f: FieldId): (r: Commit)
    requires WellFormed(reg)
    ensures WellFormed(r.fields)
    ensures r.status.Failed? ==> r.fields == reg && r.caches == caches
    ensures f !in reg ==> r.status == Failed(InvalidArgument)
    ensures f in reg && UsersUnaffected(reg, f, 3) ==> r.status == Done
    ensures r.status.Done? ==>
              && f in r.fields
              && r.fields[f].kind == Xi
              && r.fields[f].numberOfComponents == 3
              && r.fields[f].sources == []
  {
    Convert(reg, caches, f, Xi, [])
  }

  // The get_type operations: parameters of a field of the matching type.

  function GetTypeComponent(reg: Registry, f: FieldId): (r: Result<(FieldId, nat)>)
    ensures r.Ok? <==> f in reg && reg[f].kind.Component? && |reg[f].sources| == 1
  {
    if f in reg && reg[f].kind.Component? && |reg[f].sources| == 1
    then Ok((reg[f].sources[0], reg[f].kind.componentNo))
    else Err(InvalidArgument)
  }

  function GetTypeConstant(reg: Registry, f: FieldId): (r: Result<seq<real>>)
    ensures r.Ok? <==> f in reg && reg[f].kind.Constant?
  {
    if f in reg && reg[f].kind.Constant? then Ok(reg[f].kind.values) else Err(InvalidArgument)
  }

  function GetTypeRcCoordinate(reg: Registry, f: FieldId): (r: Result<FieldId>)
    ensures r.Ok? <==> f in reg && reg[f].kind.RcCoordinate? && |reg[f].sources| == 1
  {
    if f in reg && reg[f].kind.RcCoordinate? && |reg[f].sources| == 1
    then Ok(reg[f].sources[0]) else Err(InvalidArgument)
  }

  function GetTypeRcVector(reg: Registry, f: FieldId): (r: Result<(FieldId, FieldId)>)
    ensures r.Ok? <==> f in reg && reg[f].kind.RcVector? && |reg[f].sources| == 2
  {
    if f in reg && reg[f].kind.RcVector? && |reg[f].sources| == 2
    then Ok((reg[f].sources[0], reg[f].sources[1])) else Err(InvalidArgument)
  }

  function GetTypeSumComponents(reg: Registry, f: FieldId): (r: Result<(FieldId, seq<real>)>)
    ensures r.Ok? <==> f in reg && reg[f].kind.SumComponents? && |reg[f].sources| == 1
  {
    if f in reg && reg[f].kind.SumComponents? && |reg[f].sources| == 1
    then Ok((reg[f].sources[0], reg[f].kind.weights)) else Err(InvalidArgument)
  }

  /** set_type_rc_vector accepts a vector field only if it can orient and
      scale glyphs, and does accept every such field that does not depend on
      f (users undisturbed); the committed field can orient and scale glyphs
      and track streamlines. */
  lemma RcVectorCapabilities(reg: Registry, caches: Caches, f: FieldId, vector: FieldId, coordinate: FieldId)
    requires WellFormed(reg)
    ensures SetTypeRcVector(reg, caches, f, vector, coordinate).status.Done? ==>
              && vector in reg && IsOrientationScaleCapable(reg[vector])
              && var g := SetTypeRcVector(reg, caches, f, vector, coordinate).fields[f];
                 IsStreamVectorCapable(g) && IsOrientationScaleCapable(g) && !IsScalar(g)
    ensures f in reg && vector in reg && coordinate in reg
            && !DependsOn(reg, vector, f) && !DependsOn(reg, coordinate, f)
            && IsOrientationScaleCapable(reg[vector])
            && UsersUnaffected(reg, f, RcVectorComponents(reg[vector].numberOfComponents)) ==>
              SetTypeRcVector(reg, caches, f, vector, coordinate).status.Done?
  {
    if vector in reg {
      CapabilityRelations(reg[vector]);
    }
  }

  /** set_type_component and set_type_sum_components commit scalar fields;
      set_type_rc_coordinate commits a 3-component field usable to track
      streamlines. */
  lemma ScalarAndCoordinateCapabilities(reg: Registry, caches: Caches, f: FieldId, source: FieldId,
                                        componentNo: nat, weights: seq<real>)
    requires WellFormed(reg)
    ensures SetTypeComponent(reg, caches, f, source, componentNo).status.Done? ==>
              IsScalar(SetTypeComponent(reg, caches, f, source, componentNo).fields[f])
    ensures SetTypeSumComponents(reg, caches, f, source, weights).status.Done? ==>
              IsScalar(SetTypeSumComponents(reg, caches, f, source, weights).fields[f])
    ensures SetTypeRcCoordinate(reg, caches, f, source).status.Done? ==>
              IsStreamVectorCapable(SetTypeRcCoordinate(reg, caches, f, source).fields[f])
  {
  }
}
