# Computed fields and the graphics list, modelled in Dafny

This project models two parts of the zinc finite-element visualisation
library.

**Computed fields** (`source/computed_field/computed_field.h`) are scalar or
vector quantities. A field either wraps stored finite-element data or is
built from other fields, its *source fields*:
- a component of a source;
- a weighted sum of a source's components;
- a constant;
- the element xi coordinates;
- a change of coordinates to rectangular cartesian (RC_COORDINATE and
  RC_VECTOR).

The fields form a dependency graph. They can be:
- evaluated at nodes or at element xi locations, through a one-entry cache
  per field;
- tested for definedness;
- written back through reversible types, down to the stored data
  (`set_values`);
- sampled or written over an evenly spaced xi grid in an element;
- converted to another type (`set_type_*`), which never creates a cycle and
  leaves the field unchanged when it fails.

**The graphics list** (`core/source/graphics/graphics.h`) is the
position-ordered list of graphics of a scene. Positions run 1, 2, ... in
rendering order and act as the graphics' identifiers.

The model is functional and uses these types:
- a `Registry` is a map from field ids to immutable `Field` values;
- the caches are a separate map;
- the stored finite-element data is an `FeStore`;
- the graphics list is a sequence.

A ghost rank proves the graph acyclic (`Graph.Acyclic`), so the recursive
definitions terminate. Evaluation has two forms:
- `Evaluator.Value` is the uncached reference evaluation;
- `Evaluator.Evaluate` is the cached one.

The two are linked by coherence lemmas.

All values are immutable. So the header's promise that `get_values_in_element` and
`set_values_in_element` leave the caller's values array unchanged holds by
construction, and no lemma states it.

Modules, one per file:

| file | module | part of the program |
|---|---|---|
| outcome.dfy | Outcome | error codes, `Result`, `Option` |
| decimal.dfy | Decimal | decimal strings used for default names |
| field.dfy | Fields | field record, locations, caches, capability predicates |
| graph.dfy | Graph | registry, acyclicity, `depends_on`, listing order |
| settype.dfy | SetType | `set_type_*` / `get_type_*` |
| store.dfy | Store | stored finite-element data at nodes and element points |
| evaluate.dfy | Evaluator | forward maps, reference and cached evaluation, `clear_cache` |
| typevalues.dfy | TypeValues | what a converted field evaluates to |
| defined.dfy | Definedness | `is_defined_at_node` / `is_defined_in_element` |
| inverse.dfy | Inverse | `set_values_at_node` and its managed variant |
| grid.dfy | Grid | the xi grid and value-array layout |
| element.dfy | ElementValues | `get_values_in_element`, `set_values_in_(managed_)element` |
| graphics.dfy | Graphics | the position-ordered graphics list |

## Model

| member | source | states |
|---|---|---|
| Fields.Create | source/computed_field/computed_field.h:125-131 | a new field is CONSTANT with one component of value zero, has no sources and is not read-only |
| Evaluator.CreatedFieldIsZero | source/computed_field/computed_field.h:125-131 | a created field evaluates to the single value 0 at every location |
| Evaluator.ClearCache | source/computed_field/computed_field.h:153-162 | an entry survives exactly when it belongs to a field the cleared field does not depend on; surviving entries are unchanged |
| Evaluator.EvaluateAfterClearCache | source/computed_field/computed_field.h:153-162 | after clearing, cached evaluation returns the reference values whatever the other caches held |
| Definedness.DefinedClosedUnderDependency | source/computed_field/computed_field.h:164-172 | if a field is defined on a node or element, so is every field it depends on |
| Definedness.DefinedIffAllOwnDefined | source/computed_field/computed_field.h:164-172 | a field is defined exactly when every field it depends on can compute itself there (both directions) |
| Definedness.NodeValueIffDefined | source/computed_field/computed_field.h:183-191 | evaluation at a node succeeds if and only if the field is defined at that node |
| Definedness.ElementValueNeedsDefined | source/computed_field/computed_field.h:164-172 | a successful evaluation in an element implies the field is defined in that element |
| Definedness.ValueIffCalculable | source/computed_field/computed_field.h:164-172 | evaluation at any node or element point succeeds exactly when the field and everything it depends on can be calculated there (both directions) |
| Definedness.CalculableRefinesDefined | source/computed_field/computed_field.h:164-191 | calculable at a point of an element implies defined in the element; at a node, calculable and defined coincide |
| Graph.DependsOnTransitive | source/computed_field/computed_field.h:211-227 | depends_on is transitive |
| Graph.NoCycles | source/computed_field/computed_field.h:211-227 | two fields that depend on each other are the same field; no source depends on the field using it |
| Graph.DependsOnIffReaches | source/computed_field/computed_field.h:211-227 | depends_on holds exactly when a chain of source links leads from the field to the other |
| Graph.DependsOnInList | source/computed_field/computed_field.h:229-236 | returns true exactly when the field depends on some field of the list |
| Evaluator.Evaluate | source/computed_field/computed_field.h:261-289 | a successful evaluation returns number_of_components values and leaves them in the field's cache for that location; only caches of fields it depends on change |
| Evaluator.EvaluateMatchesValue | source/computed_field/computed_field.h:309-326 | with caches that hold true values, cached evaluation returns the reference values and keeps the caches true |
| Evaluator.CacheHit | source/computed_field/computed_field.h:261-289 | evaluating again at the cached location answers from the cache, without looking at the stored data |
| Inverse.SetValues | source/computed_field/computed_field.h:328-350 | a wrong value count is refused; a field whose own type cannot pass values back (not a finite-element wrapper, COMPONENT, RC_COORDINATE or RC_VECTOR) reports NotReversible; a chain that is not reversible all the way fails; success writes only into the finite-element field at the end of the chain, at that location |
| Inverse.SetSucceedsAtNode | source/computed_field/computed_field.h:328-350 | at a node, a reversible field defined there accepts every value array of the right count |
| Inverse.SetValuesAtNode | source/computed_field/computed_field.h:328-350 | setting at a node changes only the target data at that node; it succeeds for a reversible field defined at the node given the right value count |
| Inverse.SetThenValue | source/computed_field/computed_field.h:328-350 | after setting values through a chain of COMPONENT fields ending in stored data, evaluating gives those values back |
| Inverse.ValueFrame | source/computed_field/computed_field.h:328-350 | a field's value depends only on the stored data it uses, at that location |
| Inverse.RcVectorKeepsCoordinate | source/computed_field/computed_field.h:337-341 | setting an RC_VECTOR field leaves its coordinate source's values unchanged everywhere |
| Inverse.SetValuesAtManagedNode | source/computed_field/computed_field.h:352-378 | the change is committed exactly when setting succeeds, otherwise the data is untouched; it succeeds for a reversible field defined at the node; the caches are cleared either way |
| Grid.PointIndex | source/computed_field/computed_field.h:380-393 | a grid point's position in the point order lies below the point count, the product of (cells+1) over the directions |
| Grid.CoordinatesThenIndex | source/computed_field/computed_field.h:413-419 | grid position to grid indices and back is the identity |
| Grid.IndexThenCoordinates | source/computed_field/computed_field.h:413-419 | grid indices to grid position and back is the identity |
| Grid.StepAlong | source/computed_field/computed_field.h:386-389 | the point order cycles fastest through xi1, then xi2 and so on: one step along direction k moves by the product of the earlier directions' point counts |
| Grid.PointXiInjective | source/computed_field/computed_field.h:413-414 | distinct grid positions lie at distinct evenly spaced xi |
| Grid.ValueIndexBijection | source/computed_field/computed_field.h:386-389 | component c of point p is stored at c*count+p; within bounds this is a bijection, with components last |
| Grid.LayoutRoundTrip | source/computed_field/computed_field.h:380-393 | reading a point's values back from a laid-out array gives that point's values |
| ElementValues.GetValuesInElement | source/computed_field/computed_field.h:380-393 | an invalid grid is refused; a result holds number_of_components values per grid point; with caches holding true values it succeeds exactly when the field can be evaluated at every grid point, each point's entries are the field's values there, and the caches stay true |
| ElementValues.SetValuesInElement | source/computed_field/computed_field.h:395-422 | an invalid grid is refused; a finite-element field with data over the element accepts any values on a valid grid; success changes only the target data at the grid points; for COMPONENT chains each grid point then evaluates to its given values |
| ElementValues.SetValuesInManagedElement | source/computed_field/computed_field.h:424-458 | all-or-nothing: on failure the data is untouched, on success it is as the raw set leaves it; it fails and succeeds in the same cases as the raw set; caches are cleared either way |
| Fields.DefaultComponentNamesDistinct | source/computed_field/computed_field.h:483-494 | default component names are the decimal form of component_no+1: distinct for distinct components, never "0" |
| Fields.SetCoordinateSystem | source/computed_field/computed_field.h:506-518 | sets the coordinate system and changes nothing else |
| Fields.TypeOf | source/computed_field/computed_field.h:520-526 | each kind reports a valid type tag; Xi and finite-element wrappers report the newer-types tag |
| Fields.CapabilityRelations | source/computed_field/computed_field.h:545-665 | how the capability predicates relate: scalar means one numerical component, orientation/scale capable means 1, 2, 3, 4, 6 or 9 components |
| Fields.VectorSourceCapability | source/computed_field/computed_field.h:632-665 | a field can be the vector source of RC_VECTOR exactly when it can orient and scale glyphs; the RC_VECTOR field then has 3, 6 or 9 components |
| SetType.Convert | source/computed_field/computed_field.h:678-689 | the graph stays well formed; a failure leaves fields and caches unchanged; an unknown field or source is refused, and so is a conversion that would create a cycle or does not fit its sources; a conversion of a known field onto known, acyclic, fitting sources that leaves its users undisturbed succeeds, changing only that field and dropping only its cache |
| SetType.SetTypeComponent | source/computed_field/computed_field.h:678-689 | a source depending on the field is a cycle and a component number out of range fails; an in-range component of an independent source succeeds (users undisturbed); on success: type COMPONENT, one component, the source, and get_type returns the arguments |
| SetType.SetTypeConstant | source/computed_field/computed_field.h:703-714 | no values is refused; any non-empty values succeed (users undisturbed); on success: type CONSTANT with as many components as values, and get_type returns the values |
| SetType.SetTypeRcCoordinate | source/computed_field/computed_field.h:727-740 | a coordinate field with more than 3 components or depending on the field is refused; an independent one with at most 3 succeeds (users undisturbed); on success there are 3 components |
| SetType.SetTypeRcVector | source/computed_field/computed_field.h:754-770 | the vector field must have 1, 2, 3, 4, 6 or 9 components and neither source may depend on the field; with both it succeeds (users undisturbed); on success there are 3 components per vector |
| SetType.SetTypeSumComponents | source/computed_field/computed_field.h:787-799 | the weights must match the source's component count and the source may not depend on the field; with both it succeeds (users undisturbed); on success there is one component |
| SetType.SetTypeXiCoordinates | source/computed_field/computed_field.h:801-813 | an unknown field is refused, a known one succeeds (users undisturbed); on success: the XI kind with 3 components and no sources |
| SetType.GetTypeComponent | source/computed_field/computed_field.h:667-676 | succeeds exactly for COMPONENT fields |
| SetType.ConvertKeepsConsistent | source/computed_field/computed_field.h:678-689 | converting a field onto fitting sources that do not depend on it keeps every field fitting its sources when its users are undisturbed |
| SetType.RcVectorCapabilities | source/computed_field/computed_field.h:632-665 | set_type_rc_vector succeeds only with an orientation/scale capable vector field, and does succeed with one (no cycle, users undisturbed); the committed field can orient and scale glyphs and track streamlines |
| SetType.ScalarAndCoordinateCapabilities | source/computed_field/computed_field.h:545-665 | set_type_component and set_type_sum_components commit scalar fields; set_type_rc_coordinate commits a field usable to track streamlines |
| TypeValues.ConstantValue | source/computed_field/computed_field.h:709-711 | a converted CONSTANT field returns the given values everywhere |
| TypeValues.ComponentValue | source/computed_field/computed_field.h:684-685 | a converted COMPONENT field returns the chosen component of the source's value |
| TypeValues.SumComponentsValue | source/computed_field/computed_field.h:793-796 | a converted SUM_COMPONENTS field returns the weighted sum of the source's components |
| TypeValues.RcCoordinateValue | source/computed_field/computed_field.h:733-737 | a converted RC_COORDINATE field returns the source's values mapped to rectangular cartesian |
| TypeValues.RcVectorValue | source/computed_field/computed_field.h:760-767 | a converted RC_VECTOR field returns the vectors converted at the coordinate field's position |
| TypeValues.XiValue | source/computed_field/computed_field.h:806-808 | a converted XI field returns the xi it is given in elements and is undefined at nodes |
| Fields.SetReadOnly | source/computed_field/computed_field.h:824-840 | marks the field read-only and changes nothing else |
| Fields.SetReadWrite | source/computed_field/computed_field.h:842-849 | clears read-only status and changes nothing else |
| Graph.ListingOrder | source/computed_field/computed_field.h:989-998 | lists every field once, each after all of its sources |
| Graph.ReadyFieldExists | source/computed_field/computed_field.h:989-998 | while some field is unlisted, one of them is ready to list |
| Graphics.CreateGraphics | core/source/graphics/graphics.h:242-246 | a new graphics has access count 1, no name and no graphics object |
| Graphics.Access | core/source/graphics/graphics.h:148-152 | access raises the count by exactly one and returns the same object |
| Graphics.AccessThenDeaccess | core/source/graphics/graphics.h:148-154 | deaccess undoes access |
| Graphics.AddToList | core/source/graphics/graphics.h:250-261 | inserts at a position in 1..last, or appends at last+1; later graphics move down one; the list stays ordered; adding a graphics already in the list fails |
| Graphics.RemoveFromList | core/source/graphics/graphics.h:263-268 | earlier graphics are unchanged and every later one moves up one position |
| Graphics.AddThenRemove | core/source/graphics/graphics.h:250-268 | removing a graphics just added restores the list |
| Graphics.RemoveThenAdd | core/source/graphics/graphics.h:250-268 | adding a removed graphics back at its old position restores the list |
| Graphics.ModifyInList | core/source/graphics/graphics.h:270-276 | the graphics takes the new contents and keeps its position; every other graphics is unchanged |
| Graphics.CopyWithoutGraphicsObject | core/source/graphics/graphics.h:434-444 | the destination keeps its access count and loses its graphics object; the rest is the source's contents |
| Graphics.UnnamedFoundByPosition | core/source/graphics/graphics.h:446-455 | an unnamed graphics matches its position in decimal, and no other unnamed graphics in the list matches that string |
| Graphics.HasNameIffNameInternal | core/source/graphics/graphics.h:518-521 | has_name matches exactly the name get_name_internal gives |
| Graphics.PositionOfEntry | core/source/graphics/graphics.h:472-477 | the position reported for the k-th graphics is k+1 |
| Graphics.FindInOrdered | core/source/graphics/graphics.h:280 | finding by position succeeds exactly for 1..length and returns the graphics at that place |
| Graphics.ListOperationsKeepTypes | core/source/graphics/graphics.h:349-353 | removal keeps every graphics' type; modifying gives the new type |
| Decimal.DecimalRoundTrip | source/computed_field/computed_field.h:483-494 | reading back the decimal form of a number gives the number |

## Left out

- Derivatives are not modelled: evaluation computes values only. Derivatives need element bases and top-level element frames.
- The top-level element argument is carried in a location but never used.
- The trigonometric coordinate maps for RC_COORDINATE and RC_VECTOR are parameters (`Evaluator.Conversions`). The model does not prove that they invert each other.
- Finite-element data is sampled at exact xi points. The store does not model basis interpolation.
- Field types other than those with a `set_type_*` here are not modelled. The finite-element wrapper is the one exception: it exists only as the target of `set_values`. Its constructor is not part of this model.
- find_element_xi is not modelled: it is a Newton search over element geometry that is not shown. The same goes for `is_find_element_xi_capable`.
- get_native_discretization_in_element is not modelled: it depends on element basis data.
- These string and command functions are not modelled: `evaluate_as_string_*`, `get_type_string`, `type_to_string`, the command parser (`define_Computed_field`, `set_Computed_field_*`), `list_Computed_field*`. They produce text output. Only the ordering rule behind `commands_ready_to_list` is modelled.
- The manager, `is_in_use`, `can_be_destroyed`, the package and the component wrapper are not modelled. These are object lifetime and manager messaging.
- The `*_conditional` variants are not modelled separately. They are the same predicates in iterator form.
- Inverse.SetValues: when the chain passes through a COMPONENT or RC_VECTOR field, the current values of the other source are taken from the reference evaluation, not from the caches. With true caches the two agree (Evaluator.EvaluateMatchesValue).
- SetType.Convert: a conversion that would leave a dependent field with the wrong number of source components is refused with InvalidArgument. The program leaves that check to the manager. "Users undisturbed" (SetType.UsersUnaffected) means the field keeps its component count or no field uses it as a source; the exact success condition of Convert is that every field still fits its sources, which the wrappers do not restate.
- SetType.Convert: the header says the cache "may be lost" on failure; the model keeps it unchanged.
- Definedness.ElementValueNeedsDefined: one direction only. Element data is held as samples at exact xi, so a field defined in an element (data held for the element) can lack a sample at a given xi and then fails to evaluate there. The header's "can be calculated in the element" assumes basis interpolation. Definedness.ValueIffCalculable states the exact condition at any location.
- ElementValues.SetValuesInElement: success is promised only for a finite-element field itself. Through COMPONENT, RC_COORDINATE or RC_VECTOR chains, success also needs the other sources to have samples at every grid xi (see the line above); Inverse.SetSucceedsAtNode gives the full condition at nodes.
- ElementValues.SetValuesInManagedElement: the same success condition as SetValuesInElement, for the same reason. Its status is stated through the same clauses, because one method's result cannot be named in another's contract.
- Inverse.SetValues: a field whose own type is adjustable but whose chain runs into a non-adjustable source reports the first error met on the way: NotDefinedAtLocation when a needed source value cannot be evaluated, NotReversible otherwise.
- Graphics: reference counting by the list itself (list membership holding an access) is part of the generic list code and is not modelled. The same goes for the graphics' other settings, reduced to the `Settings` record.
- The rendering, change-notification, streamline and picking functions of graphics.h are not modelled. They are consumers of evaluated values.
- Read-only status does not block `set_type_*` or `set_values` in the model. The header describes it only as something callers check before modifying or removing a field in the manager.
