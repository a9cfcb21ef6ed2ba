/** The position-ordered list of graphics of a scene: each graphics carries its
    position in the list as its identifier, 1 being the first rendered. */
module Graphics {
  import opened Outcome
  import opened Decimal

  datatype GraphicsType = InvalidGraphicsType | Contours | Lines | Points | Streamlines | Surfaces

  /** Settings a graphics is built from, other than its name and type; the
      fields stand for the geometry and appearance settings. */
  datatype Settings = Settings(visible: bool, coordinateField: Option<nat>, dataField: Option<nat>,
                               material: Option<nat>)

  /** One graphics. id stands for the object's identity (its address);
      graphicsObject is the generated renderable, if built. */
  datatype Graphics = Graphics(id: nat, position: int, name: Option<string>, graphicsType: GraphicsType,
                               settings: Settings, graphicsObject: Option<nat>, accessCount: nat)

  const DefaultSettings := Settings(true, None, None, None)

  /** A new graphics of the given type, held once by its creator. */
  function CreateGraphics(id: nat, graphicsType: GraphicsType): (g: Graphics)
    ensures g.id == id && g.graphicsType == graphicsType && g.accessCount == 1
    ensures g.name.None? && g.graphicsObject.None?
  {
    Graphics(id, 0, None, graphicsType, DefaultSettings, None, 1)
  }

  /** One more holder of g: the same object with its count one higher. */
  function Access(g: Graphics): (r: Graphics)
    ensures r.accessCount == g.accessCount + 1
    ensures r.(accessCount := g.accessCount) == g
  {
    g.(accessCount := g.accessCount + 1)
  }

  /** One holder fewer: the object survives while someone still holds it. */
  function Deaccess(g: Graphics): (r: Option<Graphics>)
    ensures r.Some? <==> g.accessCount > 1
    ensures r.Some? ==> r.value.accessCount == g.accessCount - 1 && r.value.(accessCount := g.accessCount) == g
  {
    if g.accessCount > 1 then Some(g.(accessCount := g.accessCount - 1)) else None
  }

  lemma AccessThenDeaccess(g: Graphics)
    requires g.accessCount >= 1
    ensures Deaccess(Access(g)) == Some(g)
  {
  }

  // The ordered list.

  /** Positions run 1, 2, ... in list order and no object appears twice. */
  predicate Ordered(list: seq<Graphics>) {
    && (forall i | 0 <= i < |list| :: list[i].position == i + 1)
    && (forall i, j | 0 <= i < j < |list| :: list[i].id != list[j].id)
  }

  predicate InList(g: Graphics, list: seq<Graphics>) {
    exists i | 0 <= i < |list| :: list[i].id == g.id
  }

  /** Index of the first entry holding the object g. */
  function IndexOf(g: Graphics, list: seq<Graphics>): (i: nat)
    requires InList(g, list)
    ensures i < |list| && list[i].id == g.id
    ensures forall j | 0 <= j < i :: list[j].id != g.id
  {
    if list[0].id == g.id then 0
    else
      assert InList(g, list[1..]) by {
        var k :| 0 <= k < |list| && list[k].id == g.id;
        assert list[1..][k - 1].id == g.id;
      }
      1 + IndexOf(g, list[1..])
  }

  /** Where add_to_list puts a graphics: the requested position when it
      lies in 1..last, otherwise one past the end. */
  function InsertPosition(position: int, last: nat): (p: int)
    ensures 1 <= p <= last + 1
    ensures 1 <= position <= last ==> p == position
    ensures !(1 <= position <= last) ==> p == last + 1
  {
    if position < 1 || last < position then last + 1 else position
  }

  /** Entry-wise: putting a new object at position p of an ordered list and
      moving the later entries down one keeps the list ordered. */
  lemma {:induction false} InsertKeepsOrder(g: Graphics, p: int, list: seq<Graphics>, r: seq<Graphics>)
    requires Ordered(list) && !InList(g, list) && 1 <= p <= |list| + 1
    requires |r| == |list| + 1 && r[p - 1] == g.(position := p)
    requires forall i | 0 <= i < p - 1 :: r[i] == list[i]
    requires forall i | p - 1 <= i < |list| :: r[i + 1] == list[i].(position := list[i].position + 1)
    ensures Ordered(r)
  {
    forall i | 0 <= i < |r| ensures r[i].position == i + 1 {
      if p - 1 < i {
        assert r[i] == list[i - 1].(position := list[i - 1].position + 1);
      }
    }
    forall i, j | 0 <= i < j < |r| ensures r[i].id != r[j].id {
      var i' := if i < p - 1 then i else i - 1;
      var j' := if j < p - 1 then j else j - 1;
      if i == p - 1 {
        assert r[j].id == list[j'].id;
      } else if j == p - 1 {
        assert r[i].id == list[i'].id;
      } else {
        assert r[i].id == list[i'].id && r[j].id == list[j'].id && i' < j';
      }
    }
  }

  /** Inserts g at its insert position, moving the graphics at and after it
      one place down; fails if g is already in the list. */
  function AddToList(g: Graphics, position: int, list: seq<Graphics>): (r: Result<seq<Graphics>>)
    requires Ordered(list)
    ensures r.Err? <==> InList(g, list)
    ensures r.Err? ==> r.error == InvalidArgument
    ensures r.Ok? ==> Ordered(r.value) && |r.value| == |list| + 1
    ensures r.Ok? ==> var p := InsertPosition(position, |list|);
              && r.value[p - 1] == g.(position := p)
              && (forall i | 0 <= i < p - 1 :: r.value[i] == list[i])
              && (forall i | p - 1 <= i < |list| :: r.value[i + 1] == list[i].(position := list[i].position + 1))
  {
    if InList(g, list) then Err(InvalidArgument)
    else
      var p := InsertPosition(position, |list|);
      var r := seq(|list| + 1, i requires 0 <= i <= |list| =>
                   if i < p - 1 then list[i]
                   else if i == p - 1 then g.(position := p)
                   else list[i - 1].(position := list[i - 1].position + 1));
      InsertKeepsOrder(g, p, list, r);
      Ok(r)
  }

  /** Takes g out of the list, moving every later graphics one place up. */
  function RemoveFromList(g: Graphics, list: seq<Graphics>): (r: Result<seq<Graphics>>)
    requires Ordered(list)
    ensures r.Err? <==> !InList(g, list)
    ensures r.Err? ==> r.error == InvalidArgument
    ensures r.Ok? ==> Ordered(r.value) && |r.value| == |list| - 1 && !InList(g, r.value)
    ensures r.Ok? ==> var k := IndexOf(g, list);
              && (forall i | 0 <= i < k :: r.value[i] == list[i])
              && (forall i | k <= i < |r.value| :: r.value[i] == list[i + 1].(position := list[i + 1].position - 1))
  {
    if !InList(g, list) then Err(InvalidArgument)
    else
      var k := IndexOf(g, list);
      var r := seq(|list| - 1, i requires 0 <= i < |list| - 1 =>
                   if i < k then list[i] else list[i + 1].(position := list[i + 1].position - 1));
      RemoveKeepsOrder(g, k, list, r);
      Ok(r)
  }

  /** Entry-wise: taking entry k out of an ordered list and moving the later
      entries up one keeps the list ordered, and the object at k is gone. */
  lemma {:induction false} RemoveKeepsOrder(g: Graphics, k: nat, list: seq<Graphics>, r: seq<Graphics>)
    requires Ordered(list) && k < |list| && list[k].id == g.id
    requires |r| == |list| - 1
    requires forall i | 0 <= i < k :: r[i] == list[i]
    requires forall i | k <= i < |r| :: r[i] == list[i + 1].(position := list[i + 1].position - 1)
    ensures Ordered(r) && !InList(g, r)
  {
    forall i | 0 <= i < |r| ensures r[i].position == i + 1 && r[i].id == list[if i < k then i else i + 1].id {
      if k <= i {
        assert r[i] == list[i + 1].(position := list[i + 1].position - 1);
      }
    }
    forall i, j | 0 <= i < j < |r| ensures r[i].id != r[j].id {
      var i' := if i < k then i else i + 1;
      var j' := if j < k then j else j + 1;
      assert r[i].id == list[i'].id && r[j].id == list[j'].id && i' < j';
    }
    forall j | 0 <= j < |r| ensures r[j].id != g.id {
      var j' := if j < k then j else j + 1;
      assert r[j].id == list[j'].id && j' != k;
    }
  }

  /** Entry-wise: removing the entry just put at p rebuilds the list. */
  lemma {:induction false} RemoveInsertedEntries(list: seq<Graphics>, p: nat, added: seq<Graphics>, r: seq<Graphics>)
    requires p <= |list| && |added| == |list| + 1 && |r| == |list|
    requires forall i | 0 <= i < p :: added[i] == list[i]
    requires forall i | p <= i < |list| :: added[i + 1] == list[i].(position := list[i].position + 1)
    requires forall i | 0 <= i < p :: r[i] == added[i]
    requires forall i | p <= i < |r| :: r[i] == added[i + 1].(position := added[i + 1].position - 1)
    ensures r == list
  {
    forall i | 0 <= i < |list| ensures r[i] == list[i] {
      if p <= i {
        assert r[i] == added[i + 1].(position := added[i + 1].position - 1);
      }
    }
  }

  /** Removing a graphics just added gives back the list it was added to. */
  lemma AddThenRemove(g: Graphics, position: int, list: seq<Graphics>)
    requires Ordered(list) && !InList(g, list)
    ensures AddToList(g, position, list).Ok?
    ensures RemoveFromList(g, AddToList(g, position, list).value) == Ok(list)
  {
    var p := InsertPosition(position, |list|);
    var added := AddToList(g, position, list).value;
    IndexOfAdded(g, position, list);
    var r := RemoveFromList(g, added).value;
    RemoveInsertedEntries(list, p - 1, added, r);
  }

  /** An added graphics is found at its insert position. */
  lemma IndexOfAdded(g: Graphics, position: int, list: seq<Graphics>)
    requires Ordered(list) && !InList(g, list)
    ensures AddToList(g, position, list).Ok?
    ensures InList(g, AddToList(g, position, list).value)
    ensures IndexOf(g, AddToList(g, position, list).value) == InsertPosition(position, |list|) - 1
  {
    var added := AddToList(g, position, list).value;
    var p := InsertPosition(position, |list|);
    assert added[p - 1].id == g.id;
    forall i | 0 <= i < |added| && i != p - 1 ensures added[i].id != g.id {
      if i < p - 1 {
        assert added[i] == list[i];
      } else {
        assert added[i].id == list[i - 1].id;
      }
    }
  }

  /** Entry-wise: taking out entry k and putting it back at k rebuilds the list. */
  lemma {:induction false} ReinsertEntries(list: seq<Graphics>, k: nat, removed: seq<Graphics>, r: seq<Graphics>)
    requires k < |list| && list[k].position == k + 1
    requires |removed| == |list| - 1 && |r| == |list|
    requires forall i | 0 <= i < k :: removed[i] == list[i]
    requires forall i | k <= i < |removed| :: removed[i] == list[i + 1].(position := list[i + 1].position - 1)
    requires r[k] == list[k].(position := k + 1)
    requires forall i | 0 <= i < k :: r[i] == removed[i]
    requires forall i | k <= i < |removed| :: r[i + 1] == removed[i].(position := removed[i].position + 1)
    ensures r == list
  {
    forall i | 0 <= i < |list| ensures r[i] == list[i] {
      if k < i {
        assert r[i] == removed[i - 1].(position := removed[i - 1].position + 1);
      }
    }
  }

  /** Adding a graphics back at its old position undoes its removal. */
  lemma RemoveThenAdd(list: seq<Graphics>, k: nat)
    requires Ordered(list) && k < |list|
    ensures RemoveFromList(list[k], list).Ok?
    ensures AddToList(list[k], k + 1, RemoveFromList(list[k], list).value) == Ok(list)
  {
    var g := list[k];
    assert InList(g, list);
    assert IndexOf(g, list) == k;
    var removed := RemoveFromList(g, list).value;
    var r := AddToList(g, k + 1, removed).value;
    assert InsertPosition(k + 1, |removed|) == k + 1;
    ReinsertEntries(list, k, removed, r);
  }

  /** Copies source's contents into destination, keeping destination's
      identity and access count and dropping its graphics object. */
  function CopyWithoutGraphicsObject(destination: Graphics, source: Graphics): (r: Graphics)
    ensures r.id == destination.id && r.accessCount == destination.accessCount
    ensures r.graphicsObject.None?
    ensures r.(id := source.id, accessCount := source.accessCount, graphicsObject := source.graphicsObject) == source
  {
    source.(id := destination.id, accessCount := destination.accessCount, graphicsObject := None)
  }

  /** Gives g the contents of newGraphics without moving it in the list. */
  function ModifyInList(g: Graphics, newGraphics: Graphics, list: seq<Graphics>): (r: Result<seq<Graphics>>)
    requires Ordered(list)
    ensures r.Err? <==> !InList(g, list)
    ensures r.Ok? ==> Ordered(r.value) && |r.value| == |list|
    ensures r.Ok? ==> var k := IndexOf(g, list);
              && r.value[k] == CopyWithoutGraphicsObject(list[k], newGraphics).(position := k + 1)
              && (forall i | 0 <= i < |list| && i != k :: r.value[i] == list[i])
  {
    if !InList(g, list) then Err(InvalidArgument)
    else
      var k := IndexOf(g, list);
      Ok(list[k := CopyWithoutGraphicsObject(list[k], newGraphics).(position := list[k].position)])
  }

  /** The position of g in the list; 0 when it is not in it. */
  function GetPositionInList(g: Graphics, list: seq<Graphics>): (p: int)
    requires Ordered(list)
    ensures !InList(g, list) ==> p == 0
    ensures InList(g, list) ==> 1 <= p <= |list| && list[p - 1].id == g.id
  {
    if InList(g, list) then list[IndexOf(g, list)].position else 0
  }

  lemma PositionOfEntry(list: seq<Graphics>, k: nat)
    requires Ordered(list) && k < |list|
    ensures GetPositionInList(list[k], list) == k + 1
  {
    assert IndexOf(list[k], list) == k;
  }

  /** The graphics with identifier position in the list, if any. */
  function FindByPosition(position: int, list: seq<Graphics>): (r: Option<Graphics>)
    ensures r.Some? ==> r.value in list && r.value.position == position
    ensures r.None? ==> forall i | 0 <= i < |list| :: list[i].position != position
  {
    if |list| == 0 then None
    else if list[0].position == position then Some(list[0])
    else FindByPosition(position, list[1..])
  }

  lemma FindInOrdered(position: int, list: seq<Graphics>)
    requires Ordered(list)
    ensures FindByPosition(position, list).Some? <==> 1 <= position <= |list|
    ensures 1 <= position <= |list| ==> FindByPosition(position, list) == Some(list[position - 1])
  {
    if 1 <= position <= |list| {
      assert list[position - 1].position == position;
    }
  }

  // Names.

  /** The decimal form of an integer, with a leading minus when negative. */
  function IntString(i: int): (s: string)
    ensures |s| >= 1
  {
    if i < 0 then "-" + Decimal.Decimal(-i) else Decimal.Decimal(i)
  }

  /** The string starts with a minus exactly for negative numbers. */
  lemma IntStringSign(i: int)
    ensures IntString(i)[0] == '-' <==> i < 0
  {
    if i >= 0 {
      assert IsDigit(Decimal.Decimal(i)[0]);
    }
  }

  lemma IntStringInjective(i: int, j: int)
    ensures IntString(i) == IntString(j) ==> i == j
  {
    if IntString(i) == IntString(j) {
      IntStringSign(i);
      IntStringSign(j);
      if i < 0 {
        assert j < 0;
        assert Decimal.Decimal(-i) == IntString(i)[1..];
        assert Decimal.Decimal(-j) == IntString(j)[1..];
        DecimalInjective(-i, -j);
      } else {
        DecimalInjective(i, j);
      }
    }
  }

  /** The stored name, or else the position written in decimal. */
  function NameInternal(g: Graphics): string {
    match g.name
    case Some(n) => n
    case None => IntString(g.position)
  }

  /** g has the name, either stored or, when unnamed, as its position. */
  predicate HasName(g: Graphics, name: string) {
    match g.name
    case Some(n) => n == name
    case None => IntString(g.position) == name
  }

  lemma HasNameIffNameInternal(g: Graphics, name: string)
    ensures HasName(g, name) <==> NameInternal(g) == name
  {
  }

  /** An unnamed graphics in an ordered list answers to its position, and no
      other unnamed graphics there answers to the same string. */
  lemma UnnamedFoundByPosition(list: seq<Graphics>, k: nat, j: nat)
    requires Ordered(list) && k < |list| && j < |list| && list[k].name.None? && list[j].name.None?
    ensures HasName(list[k], IntString(k + 1))
    ensures HasName(list[j], IntString(k + 1)) <==> j == k
  {
    IntStringInjective(j + 1, k + 1);
  }

  function GetGraphicsType(g: Graphics): GraphicsType {
    g.graphicsType
  }

  predicate IsGraphicsType(g: Graphics, graphicsType: GraphicsType) {
    g.graphicsType == graphicsType
  }

  /** Moving graphics in the list never changes their types; modifying one
      gives it the new type. */
  lemma ListOperationsKeepTypes(g: Graphics, list: seq<Graphics>, newGraphics: Graphics, graphicsType: GraphicsType)
    requires Ordered(list) && InList(g, list)
    ensures var k := IndexOf(g, list);
            var removed := RemoveFromList(g, list).value;
            forall i | 0 <= i < |removed| ::
              IsGraphicsType(removed[i], graphicsType) <==> IsGraphicsType(list[if i < k then i else i + 1], graphicsType)
    ensures var k := IndexOf(g, list);
            IsGraphicsType(ModifyInList(g, newGraphics, list).value[k], graphicsType) <==> IsGraphicsType(newGraphics, graphicsType)
  {
  }
}
