/** What a field converted by a set_type operation evaluates to, in terms
    of the values its sources had before the conversion. */
module TypeValues {
  import opened Outcome
  import opened Fields
  import opened Graph
  import opened Store
  import opened Evaluator
  import opened SetType

  /** A committed conversion of f leaves every field that does not depend
      on f, in particular each new source, with its old values. */
  lemma ConversionKeepsIndependent(reg: Registry, c: Commit, f: FieldId, x: FieldId,
                                   conv: Conversions, store: FeStore, loc: Location)
    requires WellFormed(reg) && WellFormed(c.fields) && f in reg && x in reg && !DependsOn(reg, x, f)
    requires c.fields.Keys == reg.Keys && forall y | y in reg && y != f :: c.fields[y] == reg[y]
    ensures Value(c.fields, conv, store, x, loc) == Value(reg, conv, store, x, loc)
  {
    ValueUnchanged(reg, c.fields, conv, store, x, loc);
  }

  /** After set_type_constant the field returns the given values everywhere. */
  lemma ConstantValue(reg: Registry, caches: Caches, f: FieldId, values: seq<real>,
                      conv: Conversions, store: FeStore, loc: Location)
    requires WellFormed(reg)
    requires SetTypeConstant(reg, caches, f, values).status.Done?
    ensures Value(SetTypeConstant(reg, caches, f, values).fields, conv, store, f, loc) == Ok(values)
  {
    var reg' := SetTypeConstant(reg, caches, f, values).fields;
    assert ValueSources(reg', conv, store, f, loc, 0) == Ok([]);
  }

  /** After set_type_component the field returns, as its one value,
      component componentNo of what source returned before. */
  lemma ComponentValue(reg: Registry, caches: Caches, f: FieldId, source: FieldId, componentNo: nat,
                       conv: Conversions, store: FeStore, loc: Location)
    requires WellFormed(reg)
    requires SetTypeComponent(reg, caches, f, source, componentNo).status.Done?
    ensures source in reg
    ensures Value(SetTypeComponent(reg, caches, f, source, componentNo).fields, conv, store, f, loc)
            == match Value(reg, conv, store, source, loc)
               case Ok(v) => Ok([v[componentNo]])
               case Err(e) => Err(e)
  {
    var c := SetTypeComponent(reg, caches, f, source, componentNo);
    var reg' := c.fields;
    assert !WouldCycle(reg, f, [source]);
    assert !DependsOn(reg, source, f) by {
      assert [source][0] == source;
    }
    ConversionKeepsIndependent(reg, c, f, source, conv, store, loc);
    assert ValueSources(reg', conv, store, f, loc, 1) == Ok([]);
  }

  /** After set_type_sum_components the field returns the weighted sum of
      the components source returned before. */
  lemma SumComponentsValue(reg: Registry, caches: Caches, f: FieldId, source: FieldId, weights: seq<real>,
                           conv: Conversions, store: FeStore, loc: Location)
    requires WellFormed(reg)
    requires SetTypeSumComponents(reg, caches, f, source, weights).status.Done?
    ensures source in reg
    ensures Value(SetTypeSumComponents(reg, caches, f, source, weights).fields, conv, store, f, loc)
            == match Value(reg, conv, store, source, loc)
               case Ok(v) => Ok([Dot(weights, v)])
               case Err(e) => Err(e)
  {
    var c := SetTypeSumComponents(reg, caches, f, source, weights);
    var reg' := c.fields;
    assert !WouldCycle(reg, f, [source]);
    assert !DependsOn(reg, source, f) by {
      assert [source][0] == source;
    }
    ConversionKeepsIndependent(reg, c, f, source, conv, store, loc);
    assert ValueSources(reg', conv, store, f, loc, 1) == Ok([]);
  }

  /** After set_type_rc_coordinate the field returns the coordinate
      field's old values mapped to rectangular cartesian from the coordinate
      field's coordinate system. */
  lemma RcCoordinateValue(reg: Registry, caches: Caches, f: FieldId, coordinate: FieldId,
                          conv: Conversions, store: FeStore, loc: Location)
    requires WellFormed(reg)
    requires SetTypeRcCoordinate(reg, caches, f, coordinate).status.Done?
    ensures coordinate in reg
    ensures Value(SetTypeRcCoordinate(reg, caches, f, coordinate).fields, conv, store, f, loc)
            == match Value(reg, conv, store, coordinate, loc)
               case Ok(v) => Ok(Fit(conv.coordinateToRc(reg[coordinate].coordinateSystem, v), 3))
               case Err(e) => Err(e)
  {
    var c := SetTypeRcCoordinate(reg, caches, f, coordinate);
    var reg' := c.fields;
    assert !WouldCycle(reg, f, [coordinate]);
    assert !DependsOn(reg, coordinate, f) by {
      assert [coordinate][0] == coordinate;
    }
    ConversionKeepsIndependent(reg, c, f, coordinate, conv, store, loc);
    assert ValueSources(reg', conv, store, f, loc, 1) == Ok([]);
  }

  /** After set_type_rc_vector the field returns the vector field's old
      values converted to rectangular cartesian at the coordinate field's
      old position; it is defined only where both sources are. */
  lemma RcVectorValue(reg: Registry, caches: Caches, f: FieldId, vector: FieldId, coordinate: FieldId,
                      conv: Conversions, store: FeStore, loc: Location)
    requires WellFormed(reg)
    requires SetTypeRcVector(reg, caches, f, vector, coordinate).status.Done?
    ensures vector in reg && coordinate in reg
    ensures var reg' := SetTypeRcVector(reg, caches, f, vector, coordinate).fields;
            Value(reg', conv, store, f, loc)
            == match (Value(reg, conv, store, vector, loc), Value(reg, conv, store, coordinate, loc))
               case (Ok(v), Ok(x)) =>
                 Ok(Fit(conv.vectorToRc(reg[vector].coordinateSystem, v, x), reg'[f].numberOfComponents))
               case (Err(e), _) => Err(e)
               case (_, Err(e)) => Err(e)
  {
    var c := SetTypeRcVector(reg, caches, f, vector, coordinate);
    var reg' := c.fields;
    var srcs := [vector, coordinate];
    assert !WouldCycle(reg, f, srcs);
    assert !DependsOn(reg, vector, f) && !DependsOn(reg, coordinate, f) by {
      assert srcs[0] == vector && srcs[1] == coordinate;
    }
    ConversionKeepsIndependent(reg, c, f, vector, conv, store, loc);
    ConversionKeepsIndependent(reg, c, f, coordinate, conv, store, loc);
    assert reg'[f].sources == srcs;
    assert reg'[f].sources[0] == vector && reg'[f].sources[1] == coordinate;
    assert ValueSources(reg', conv, store, f, loc, 2) == Ok([]);
    var cv := Value(reg', conv, store, coordinate, loc);
    var vv := Value(reg', conv, store, vector, loc);
    if vv.Ok? && cv.Ok? {
      var rest := ValueSources(reg', conv, store, f, loc, 1);
      assert rest == Ok([cv.value] + []);
      assert Value(reg', conv, store, reg'[f].sources[0], loc) == Ok(vv.value);
      assert ValueSources(reg', conv, store, f, loc, 0) == Ok([vv.value] + rest.value);
    } else if vv.Ok? {
      assert ValueSources(reg', conv, store, f, loc, 1) == Err(cv.error);
    }
  }

  /** After set_type_xi_coordinates the field returns the xi it is given,
      padded or cut to 3 values, and is undefined at nodes. */
  lemma XiValue(reg: Registry, caches: Caches, f: FieldId, conv: Conversions, store: FeStore, loc: Location)
    requires WellFormed(reg)
    requires SetTypeXiCoordinates(reg, caches, f).status.Done?
    ensures Value(SetTypeXiCoordinates(reg, caches, f).fields, conv, store, f, loc)
            == if loc.InElement? then Ok(Fit(loc.xi, 3)) else Err(NotDefinedAtLocation)
  {
    var reg' := SetTypeXiCoordinates(reg, caches, f).fields;
    assert ValueSources(reg', conv, store, f, loc, 0) == Ok([]);
  }
}
