/** The registry of fields and the source-field graph over it: closedness,
    acyclicity, consistency of component counts, and the dependency test. */
module Graph {
  import opened Outcome
  import opened Fields

  type Registry = map<FieldId, Field>

  /** Every source of every field is itself registered. */
  ghost predicate Closed(reg: Registry) {
    forall x, i | x in reg && 0 <= i < |reg[x].sources| :: reg[x].sources[i] in reg
  }

  /** rank strictly decreases along every source edge. */
  ghost predicate ValidRank(reg: Registry, rank: map<FieldId, nat>) {
    && reg.Keys <= rank.Keys
    && forall x, i | x in reg && 0 <= i < |reg[x].sources| ::
         reg[x].sources[i] in rank && rank[reg[x].sources[i]] < rank[x]
  }

  /** No field depends, directly or transitively, on itself. */
  ghost predicate Acyclic(reg: Registry) {
    exists rank :: ValidRank(reg, rank)
  }

  ghost function RankMap(reg: Registry): (rank: map<FieldId, nat>)
    requires Acyclic(reg)
    ensures ValidRank(reg, rank)
  {
    var rank :| ValidRank(reg, rank); rank
  }

  /** The termination measure of every walk over the source graph. */
  ghost function Rank(reg: Registry, x: FieldId): nat
    requires Acyclic(reg) && x in reg
  {
    RankMap(reg)[x]
  }

  /** Component counts of the given sources, as registered. */
  function SourceCounts(reg: Registry, sources: seq<FieldId>): (counts: seq<nat>)
    ensures |counts| == |sources|
    ensures forall i | 0 <= i < |sources| :: sources[i] in reg ==> counts[i] == reg[sources[i]].numberOfComponents
  {
    seq(|sources|, i requires 0 <= i < |sources| =>
      if sources[i] in reg then reg[sources[i]].numberOfComponents else 0)
  }

  /** The component count of f agrees with its kind and its sources. */
  predicate Fits(reg: Registry, f: Field) {
    if f.kind.FiniteElement? then f.sources == [] && f.numberOfComponents > 0
    else ComponentsFor(f.kind, SourceCounts(reg, f.sources)) == Some(f.numberOfComponents)
  }

  predicate Consistent(reg: Registry) {
    forall x | x in reg :: Fits(reg, reg[x])
  }

  ghost predicate WellFormed(reg: Registry) {
    Closed(reg) && Acyclic(reg) && Consistent(reg)
  }

  /** What Fits means for each kind, spelled out for the evaluator. */
  lemma FitsShape(reg: Registry, x: FieldId)
    requires WellFormed(reg) && x in reg
    ensures reg[x].numberOfComponents > 0
    ensures reg[x].kind.Constant? ==> reg[x].sources == [] && reg[x].numberOfComponents == |reg[x].kind.values|
    ensures reg[x].kind.Component? ==>
              && |reg[x].sources| == 1 && reg[x].numberOfComponents == 1
              && reg[x].kind.componentNo < reg[reg[x].sources[0]].numberOfComponents
    ensures reg[x].kind.SumComponents? ==>
              && |reg[x].sources| == 1 && reg[x].numberOfComponents == 1
              && |reg[x].kind.weights| == reg[reg[x].sources[0]].numberOfComponents
    ensures reg[x].kind.RcCoordinate? ==>
              && |reg[x].sources| == 1 && reg[x].numberOfComponents == 3
              && reg[reg[x].sources[0]].numberOfComponents <= 3
    ensures reg[x].kind.RcVector? ==>
              && |reg[x].sources| == 2
              && NumberOfVectors(reg[reg[x].sources[0]].numberOfComponents).Some?
              && reg[x].numberOfComponents == 3 * NumberOfVectors(reg[reg[x].sources[0]].numberOfComponents).value
    ensures reg[x].kind.Xi? ==> reg[x].sources == [] && reg[x].numberOfComponents == 3
    ensures reg[x].kind.FiniteElement? ==> reg[x].sources == []
  {
    assert Fits(reg, reg[x]);
    if 0 < |reg[x].sources| {
      assert reg[x].sources[0] in reg;
    }
  }

  /** A source of x ranks strictly below x. */
  lemma RankDecreases(reg: Registry, x: FieldId, i: nat)
    requires WellFormed(reg) && x in reg && i < |reg[x].sources|
    ensures reg[x].sources[i] in reg
    ensures Rank(reg, reg[x].sources[i]) < Rank(reg, x)
  {
  }

  /** True iff f is other, or some source of f is other or depends on it. */
  predicate DependsOn(reg: Registry, f: FieldId, other: FieldId)
    requires WellFormed(reg) && f in reg
    decreases Rank(reg, f)
  {
    f == other || exists i | 0 <= i < |reg[f].sources| :: DependsOn(reg, reg[f].sources[i], other)
  }

  /** A field that f depends on is registered and ranks no higher than f. */
  lemma {:induction false} DependsOnRank(reg: Registry, f: FieldId, other: FieldId)
    requires WellFormed(reg) && f in reg
    requires DependsOn(reg, f, other)
    ensures other in reg
    ensures Rank(reg, other) <= Rank(reg, f)
    ensures other != f ==> Rank(reg, other) < Rank(reg, f)
    decreases Rank(reg, f)
  {
    if f != other {
      var i :| 0 <= i < |reg[f].sources| && DependsOn(reg, reg[f].sources[i], other);
      RankDecreases(reg, f, i);
      DependsOnRank(reg, reg[f].sources[i], other);
    }
  }

  /** Dependency is transitive. */
  lemma {:induction false} DependsOnTransitive(reg: Registry, x: FieldId, y: FieldId, z: FieldId)
    requires WellFormed(reg) && x in reg && y in reg
    requires DependsOn(reg, x, y) && DependsOn(reg, y, z)
    ensures DependsOn(reg, x, z)
    decreases Rank(reg, x)
  {
    if x != y {
      var i :| 0 <= i < |reg[x].sources| && DependsOn(reg, reg[x].sources[i], y);
      RankDecreases(reg, x, i);
      DependsOnTransitive(reg, reg[x].sources[i], y, z);
    }
  }

  /** Two distinct fields never depend on each other both ways, and no field
      depends on a field that uses it as a source. */
  lemma NoCycles(reg: Registry, x: FieldId, y: FieldId)
    requires WellFormed(reg) && x in reg && y in reg
    ensures DependsOn(reg, x, y) && DependsOn(reg, y, x) ==> x == y
    ensures forall i | 0 <= i < |reg[x].sources| :: !DependsOn(reg, reg[x].sources[i], x)
  {
    if DependsOn(reg, x, y) && DependsOn(reg, y, x) {
      DependsOnRank(reg, x, y);
      DependsOnRank(reg, y, x);
    }
    forall i | 0 <= i < |reg[x].sources|
      ensures !DependsOn(reg, reg[x].sources[i], x)
    {
      RankDecreases(reg, x, i);
      if DependsOn(reg, reg[x].sources[i], x) {
        DependsOnRank(reg, reg[x].sources[i], x);
      }
    }
  }

  // An independent characterisation of dependency by explicit paths.

  ghost predicate IsPath(reg: Registry, p: seq<FieldId>) {
    && |p| >= 1
    && (forall i | 0 <= i < |p| :: p[i] in reg)
    && (forall i | 0 <= i < |p| - 1 :: p[i + 1] in reg[p[i]].sources)
  }

  /** y can be reached from x by following source edges. */
  ghost predicate Reaches(reg: Registry, x: FieldId, y: FieldId) {
    exists p :: IsPath(reg, p) && p[0] == x && p[|p| - 1] == y
  }

  lemma {:induction false} PathDepends(reg: Registry, p: seq<FieldId>)
    requires WellFormed(reg) && IsPath(reg, p)
    ensures DependsOn(reg, p[0], p[|p| - 1])
    decreases |p|
  {
    if |p| > 1 {
      var tail := p[1..];
      assert IsPath(reg, tail);
      PathDepends(reg, tail);
      var srcs := reg[p[0]].sources;
      var i :| 0 <= i < |srcs| && srcs[i] == p[1];
      assert DependsOn(reg, srcs[i], p[|p| - 1]);
    }
  }

  /** A source edge in front of a path gives a path. */
  lemma PathCons(reg: Registry, x: FieldId, p: seq<FieldId>)
    requires x in reg && IsPath(reg, p) && p[0] in reg[x].sources
    ensures IsPath(reg, [x] + p) && ([x] + p)[0] == x && ([x] + p)[|p|] == p[|p| - 1]
  {
    var q := [x] + p;
    forall k | 0 <= k < |q| - 1 ensures q[k + 1] in reg[q[k]].sources {
      if 0 < k {
        assert q[k] == p[k - 1] && q[k + 1] == p[k];
      }
    }
  }

  lemma {:induction false} DependsGivesPath(reg: Registry, x: FieldId, y: FieldId)
    requires WellFormed(reg) && x in reg && DependsOn(reg, x, y)
    ensures Reaches(reg, x, y)
    decreases Rank(reg, x)
  {
    if x == y {
      assert IsPath(reg, [x]);
    } else {
      var i :| 0 <= i < |reg[x].sources| && DependsOn(reg, reg[x].sources[i], y);
      var s := reg[x].sources[i];
      RankDecreases(reg, x, i);
      DependsGivesPath(reg, s, y);
      var p :| IsPath(reg, p) && p[0] == s && p[|p| - 1] == y;
      PathCons(reg, x, p);
    }
  }

  /** The recursive dependency test agrees with reachability along sources. */
  lemma DependsOnIffReaches(reg: Registry, x: FieldId, y: FieldId)
    requires WellFormed(reg) && x in reg
    ensures DependsOn(reg, x, y) <==> Reaches(reg, x, y)
  {
    if DependsOn(reg, x, y) {
      DependsGivesPath(reg, x, y);
    }
    if Reaches(reg, x, y) {
      var p :| IsPath(reg, p) && p[0] == x && p[|p| - 1] == y;
      PathDepends(reg, p);
    }
  }

  /** True iff f depends on some field of the list, checked in list order. */
  method DependsOnInList(reg: Registry, f: FieldId, list: seq<FieldId>) returns (r: bool)
    requires WellFormed(reg) && f in reg
    ensures r <==> exists j | 0 <= j < |list| :: DependsOn(reg, f, list[j])
  {
    var j := 0;
    while j < |list|
      invariant 0 <= j <= |list|
      invariant forall k | 0 <= k < j :: !DependsOn(reg, f, list[k])
    {
      if DependsOn(reg, f, list[j]) {
        return true;
      }
      j := j + 1;
    }
    return false;
  }

  /** A field is ready to be listed when it is not yet listed but every one
      of its sources is. */
  predicate CommandsReadyToList(reg: Registry, f: FieldId, listed: seq<FieldId>)
    requires f in reg
  {
    f !in listed && forall i | 0 <= i < |reg[f].sources| :: reg[f].sources[i] in listed
  }

  /** Every source of every field comes before that field in order. */
  ghost predicate SourcesFirst(reg: Registry, order: seq<FieldId>) {
    forall i | 0 <= i < |order| && order[i] in reg ::
      forall s | s in reg[order[i]].sources :: s in order[..i]
  }

  /** Appending a field whose sources are all listed keeps sources first. */
  lemma SourcesFirstAppend(reg: Registry, order: seq<FieldId>, f: FieldId)
    requires f in reg && SourcesFirst(reg, order)
    requires forall i | 0 <= i < |reg[f].sources| :: reg[f].sources[i] in order
    ensures SourcesFirst(reg, order + [f])
  {
    var order' := order + [f];
    forall i | 0 <= i < |order'| && order'[i] in reg
      ensures forall s | s in reg[order'[i]].sources :: s in order'[..i]
    {
      if i < |order| {
        assert order'[i] == order[i] && order'[..i] == order[..i];
      } else {
        assert order'[..i] == order;
      }
    }
  }

  /** While an acyclic registry has unlisted fields, one of them is ready. */
  lemma ReadyFieldExists(reg: Registry, listed: seq<FieldId>)
    requires WellFormed(reg)
    requires exists x :: x in reg && x !in listed
    ensures exists x :: x in reg && CommandsReadyToList(reg, x, listed)
  {
    var x :| x in reg && x !in listed;
    var lowest := x;
    var r := Rank(reg, x);
    while true
      invariant lowest in reg && lowest !in listed
      invariant Rank(reg, lowest) <= r
      decreases Rank(reg, lowest)
    {
      if CommandsReadyToList(reg, lowest, listed) {
        return;
      }
      var i :| 0 <= i < |reg[lowest].sources| && reg[lowest].sources[i] !in listed;
      RankDecreases(reg, lowest, i);
      lowest := reg[lowest].sources[i];
    }
  }

  /** Orders all fields so that each is created after its sources, by
      repeatedly taking a field that is ready to be listed. */
  method ListingOrder(reg: Registry) returns (order: seq<FieldId>)
    requires WellFormed(reg)
    ensures forall x :: x in order <==> x in reg
    ensures forall i, j | 0 <= i < j < |order| :: order[i] != order[j]
    ensures SourcesFirst(reg, order)
  {
    order := [];
    var remaining := reg.Keys;
    while remaining != {}
      invariant remaining <= reg.Keys
      invariant forall x :: x in order <==> x in reg && x !in remaining
      invariant forall i, j | 0 <= i < j < |order| :: order[i] != order[j]
      invariant SourcesFirst(reg, order)
      decreases |remaining|
    {
      ghost var pending :| pending in remaining;
      ReadyFieldExists(reg, order);
      var f :| f in reg && CommandsReadyToList(reg, f, order);
      SourcesFirstAppend(reg, order, f);
      order := order + [f];
      remaining := remaining - {f};
    }
  }
}
