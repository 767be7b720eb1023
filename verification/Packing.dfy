/** web/src/shared/utils/graph/geometry.ts and packing.ts: bounding boxes, and the tiling of component
    layouts in rows. Coordinates are reals. */
module Packing {
  import opened Graph

  datatype Position = Position(x: real, y: real)

  datatype Box = Box(minX: real, minY: real, maxX: real, maxY: real)

  type Layout = map<Id, Position>

  const CANVAS_WIDTH := 1400.0
  const COMPONENT_PADDING := 140.0

  // ----- Bounding boxes

  /** The numbers a bound runs through: it starts infinite. */
  datatype Extended = MinusInfinity | Finite(value: real) | PlusInfinity

  function Min(a: Extended, b: real): Extended
  {
    match a
    case MinusInfinity => MinusInfinity
    case Finite(v) => Finite(if v < b then v else b)
    case PlusInfinity => Finite(b)
  }

  function Max(a: Extended, b: real): Extended
  {
    match a
    case MinusInfinity => Finite(b)
    case Finite(v) => Finite(if v > b then v else b)
    case PlusInfinity => PlusInfinity
  }

  predicate Inside(p: Position, box: Box)
  {
    box.minX <= p.x <= box.maxX && box.minY <= p.y <= box.maxY
  }

  /** The box holds every position and each of its sides is touched; without positions it is the origin. */
  ghost predicate IsBoundingBox(box: Box, positions: Layout)
  {
    if positions == map[] then box == Box(0.0, 0.0, 0.0, 0.0)
    else
      && (forall id :: id in positions ==> Inside(positions[id], box))
      && (exists id :: id in positions && positions[id].x == box.minX)
      && (exists id :: id in positions && positions[id].y == box.minY)
      && (exists id :: id in positions && positions[id].x == box.maxX)
      && (exists id :: id in positions && positions[id].y == box.maxY)
  }

  lemma BoundingBoxIsUnique(a: Box, b: Box, positions: Layout)
    requires IsBoundingBox(a, positions) && IsBoundingBox(b, positions)
    ensures a == b
  {
  }

  /** Every bound after the positions in `done`: still infinite when there are none. */
  ghost predicate BoundsSoFar(
    positions: Layout, done: set<Id>, minX: Extended, minY: Extended, maxX: Extended, maxY: Extended)
    requires done <= positions.Keys
  {
    if done == {} then minX == minY == PlusInfinity && maxX == maxY == MinusInfinity
    else
      && minX.Finite? && minY.Finite? && maxX.Finite? && maxY.Finite?
      && IsBoundingBox(Box(minX.value, minY.value, maxX.value, maxY.value), map id | id in done :: positions[id])
  }

  lemma ExtendBounds(
    positions: Layout, done: set<Id>, id: Id, minX: Extended, minY: Extended, maxX: Extended, maxY: Extended)
    requires done <= positions.Keys && id in positions && id !in done
    requires BoundsSoFar(positions, done, minX, minY, maxX, maxY)
    ensures var p := positions[id];
            BoundsSoFar(positions, done + {id}, Min(minX, p.x), Min(minY, p.y), Max(maxX, p.x), Max(maxY, p.y))
  {
    hide IsBoundingBox;
    var some, more := map i | i in done :: positions[i], map i | i in done + {id} :: positions[i];
    assert more == some[id := positions[id]] && some.Keys == done;
    if done == {} {
      BoundingBoxOfOne(id, positions[id]);
      assert more == map[id := positions[id]];
    } else {
      BoundingBoxOfMore(Box(minX.value, minY.value, maxX.value, maxY.value), some, id, positions[id]);
    }
  }

  function Around(box: Box, p: Position): Box
  {
    Box(if p.x < box.minX then p.x else box.minX, if p.y < box.minY then p.y else box.minY,
        if p.x > box.maxX then p.x else box.maxX, if p.y > box.maxY then p.y else box.maxY)
  }

  /** The bounding box of the positions of some ids, built by adding them in any order. */
  ghost function BoxOver(positions: Layout, ids: set<Id>): Box
    requires ids <= positions.Keys
  {
    if ids == {} then Box(0.0, 0.0, 0.0, 0.0)
    else
      var id :| id in ids;
      var p := positions[id];
      if ids == {id} then Box(p.x, p.y, p.x, p.y) else Around(BoxOver(positions, ids - {id}), p)
  }

  ghost function BoxOf(positions: Layout): Box
  {
    BoxOver(positions, positions.Keys)
  }

  lemma {:induction false} BoxOverIsBoundingBox(positions: Layout, ids: set<Id>)
    requires ids <= positions.Keys
    ensures IsBoundingBox(BoxOver(positions, ids), map id | id in ids :: positions[id])
  {
    if ids != {} {
      var id :| id in ids && BoxOver(positions, ids) ==
        if ids == {id} then Box(positions[id].x, positions[id].y, positions[id].x, positions[id].y)
        else Around(BoxOver(positions, ids - {id}), positions[id]);
      var some, rest := map i | i in ids :: positions[i], map i | i in ids - {id} :: positions[i];
      assert some == rest[id := positions[id]];
      if ids == {id} {
        assert id in some && forall i :: i in some ==> i == id;
      } else {
        BoxOverIsBoundingBox(positions, ids - {id});
        assert rest.Keys == ids - {id};
        BoundingBoxOfMore(BoxOver(positions, ids - {id}), rest, id, positions[id]);
      }
    }
  }

  lemma BoxOfIsBoundingBox(positions: Layout)
    ensures IsBoundingBox(BoxOf(positions), positions)
  {
    BoxOverIsBoundingBox(positions, positions.Keys);
    assert positions == map id | id in positions.Keys :: positions[id];
  }

  lemma BoundingBoxOfOne(id: Id, p: Position)
    ensures IsBoundingBox(Box(p.x, p.y, p.x, p.y), map[id := p])
  {
    assert id in map[id := p];
  }

  lemma BoundingBoxOfMore(box: Box, rest: Layout, id: Id, p: Position)
    requires IsBoundingBox(box, rest) && rest != map[] && id !in rest
    ensures IsBoundingBox(Around(box, p), rest[id := p])
  {
    var more := rest[id := p];
    var a :| a in rest && rest[a].x == box.minX;
    var b :| b in rest && rest[b].y == box.minY;
    var c :| c in rest && rest[c].x == box.maxX;
    var d :| d in rest && rest[d].y == box.maxY;
    assert a in more && b in more && c in more && d in more && id in more;
  }

  method BoundingBoxOf(positions: Layout) returns (box: Box)
    ensures box == BoxOf(positions)
  {
    BoxOfIsBoundingBox(positions);
    var minX, minY, maxX, maxY := PlusInfinity, PlusInfinity, MinusInfinity, MinusInfinity;
    var rest := positions.Keys;
    while rest != {}
      invariant rest <= positions.Keys
      invariant BoundsSoFar(positions, positions.Keys - rest, minX, minY, maxX, maxY)
    {
      var id :| id in rest;
      var pos := positions[id];
      ExtendBounds(positions, positions.Keys - rest, id, minX, minY, maxX, maxY);
      minX, minY, maxX, maxY := Min(minX, pos.x), Min(minY, pos.y), Max(maxX, pos.x), Max(maxY, pos.y);
      assert positions.Keys - (rest - {id}) == positions.Keys - rest + {id};
      rest := rest - {id};
    }
    assert positions.Keys - rest == positions.Keys;
    assert positions == map id | id in positions.Keys :: positions[id];
    if !minX.Finite? {
      box := Box(0.0, 0.0, 0.0, 0.0);
    } else {
      box := Box(minX.value, minY.value, maxX.value, maxY.value);
    }
    BoundingBoxIsUnique(box, BoxOf(positions), positions);
  }

  // ----- The cursor

  datatype Cursor = Cursor(x: real, y: real, rowHeight: real)

  function Width(box: Box): real { box.maxX - box.minX }

  function Height(box: Box): real { box.maxY - box.minY }

  predicate Upright(boxes: seq<Box>)
  {
    forall k :: 0 <= k < |boxes| ==> Width(boxes[k]) >= 0.0 && Height(boxes[k]) >= 0.0
  }

  /** Starts a new row when the box does not fit behind what is already in this one. */
  function Wrap(c: Cursor, box: Box): Cursor
  {
    if c.x + Width(box) > CANVAS_WIDTH && c.x > 0.0
    then Cursor(0.0, c.y + (c.rowHeight + COMPONENT_PADDING), 0.0)
    else c
  }

  function Advance(c: Cursor, box: Box): Cursor
  {
    Cursor(c.x + (Width(box) + COMPONENT_PADDING), c.y, if c.rowHeight > Height(box) then c.rowHeight else Height(box))
  }

  /** The cursor once the first n boxes are placed. */
  function CursorAfter(boxes: seq<Box>, n: nat): Cursor
    requires n <= |boxes|
  {
    if n == 0 then Cursor(0.0, 0.0, 0.0)
    else Advance(Wrap(CursorAfter(boxes, n - 1), boxes[n - 1]), boxes[n - 1])
  }

  function PlacedAt(c: Cursor, box: Box): Box
  {
    Box(c.x, c.y, c.x + Width(box), c.y + Height(box))
  }

  /** Where box k ends up. */
  function Placed(boxes: seq<Box>, k: nat): Box
    requires k < |boxes|
  {
    PlacedAt(Wrap(CursorAfter(boxes, k), boxes[k]), boxes[k])
  }

  predicate Apart(a: Box, b: Box)
  {
    b.minX >= a.maxX + 140.0 || b.minY >= a.maxY + 140.0
  }

  lemma {:induction false} CursorPassed(boxes: seq<Box>, i: nat, n: nat)
    requires Upright(boxes) && i < n <= |boxes|
    ensures var c, box := CursorAfter(boxes, n), Placed(boxes, i);
            && c.rowHeight >= 0.0
            && (|| (c.y == box.minY && c.x >= box.maxX + COMPONENT_PADDING && c.rowHeight >= box.maxY - box.minY)
                || c.y >= box.maxY + COMPONENT_PADDING)
  {
    CursorIsNonnegative(boxes, n - 1);
    if n > i + 1 {
      CursorPassed(boxes, i, n - 1);
    }
  }

  lemma {:induction false} CursorIsNonnegative(boxes: seq<Box>, n: nat)
    requires Upright(boxes) && n <= |boxes|
    ensures var c := CursorAfter(boxes, n); c.x >= 0.0 && c.y >= 0.0 && c.rowHeight >= 0.0
  {
    if n > 0 {
      CursorIsNonnegative(boxes, n - 1);
    }
  }

  /** Any two placed boxes are at least the padding apart, to the right or below. */
  lemma PlacedBoxesAreApart(boxes: seq<Box>, i: nat, j: nat)
    requires Upright(boxes) && i < j < |boxes|
    ensures Apart(Placed(boxes, i), Placed(boxes, j))
  {
    CursorPassed(boxes, i, j);
    CursorIsNonnegative(boxes, j);
  }

  /** A box that shares its row with an earlier one ends within the canvas width. */
  lemma SharedRowsFitTheCanvas(boxes: seq<Box>, i: nat, j: nat)
    requires Upright(boxes) && i < j < |boxes|
    requires Placed(boxes, i).minY == Placed(boxes, j).minY
    ensures Placed(boxes, j).maxX <= 1400.0
  {
    PlacedBoxesAreApart(boxes, i, j);
    CursorIsNonnegative(boxes, i);
    CursorIsNonnegative(boxes, j);
  }

  /** The height of a row is that of one of the boxes in it. */
  lemma {:induction false} TallestInRow(boxes: seq<Box>, n: nat) returns (j: nat)
    requires Upright(boxes) && 0 < n <= |boxes|
    ensures j < n && Placed(boxes, j).minY == CursorAfter(boxes, n).y
    ensures Height(boxes[j]) == CursorAfter(boxes, n).rowHeight
  {
    j := n - 1;
    if n > 1 && Wrap(CursorAfter(boxes, n - 1), boxes[n - 1]).rowHeight > Height(boxes[n - 1]) {
      j := TallestInRow(boxes, n - 1);
    }
  }

  /** Rows are tight: tiling starts at the origin; a box stands exactly the padding behind the one before it if it
      fits the canvas there, and otherwise at the left edge, exactly the padding below the tallest box of the row
      before. */
  lemma RowsAreTight(boxes: seq<Box>, k: nat) returns (tallest: nat)
    requires Upright(boxes) && k < |boxes|
    ensures k == 0 ==> Placed(boxes, k).minX == Placed(boxes, k).minY == 0.0
    ensures var here, box := Placed(boxes, k), boxes[k];
            here.maxX - here.minX == box.maxX - box.minX && here.maxY - here.minY == box.maxY - box.minY
    ensures k > 0 ==> var before, here := Placed(boxes, k - 1), Placed(boxes, k);
      if before.maxX + 140.0 + (boxes[k].maxX - boxes[k].minX) <= 1400.0
      then here.minX == before.maxX + 140.0 && here.minY == before.minY
      else && here.minX == 0.0 && tallest < k && Placed(boxes, tallest).minY == before.minY
           && here.minY == Placed(boxes, tallest).maxY + 140.0
           && forall j :: 0 <= j < k && Placed(boxes, j).minY == before.minY ==>
                Placed(boxes, j).maxY <= Placed(boxes, tallest).maxY
  {
    tallest := 0;
    if k > 0 {
      CursorIsNonnegative(boxes, k - 1);
      tallest := TallestInRow(boxes, k);
      forall j | 0 <= j < k && Placed(boxes, j).minY == Placed(boxes, k - 1).minY
        ensures Placed(boxes, j).maxY <= Placed(boxes, tallest).maxY
      {
        CursorPassed(boxes, j, k);
      }
    }
  }

  // ----- packComponents

  function Moved(positions: Layout, dx: real, dy: real): Layout
  {
    map id | id in positions :: Position(positions[id].x + dx, positions[id].y + dy)
  }

  ghost function BoxesOf(layouts: seq<Layout>): (boxes: seq<Box>)
    ensures |boxes| == |layouts|
  {
    seq(|layouts|, k requires 0 <= k < |layouts| => BoxOf(layouts[k]))
  }

  function MovedTo(positions: Layout, from: Box, to: Box): Layout
  {
    Moved(positions, to.minX - from.minX, to.minY - from.minY)
  }

  /** The first n layouts, each moved to its placed box; a later one overwrites an earlier one on shared ids. */
  function Packed(layouts: seq<Layout>, boxes: seq<Box>, n: nat): Layout
    requires n <= |layouts| == |boxes|
  {
    if n == 0 then map[]
    else Packed(layouts, boxes, n - 1) + MovedTo(layouts[n - 1], boxes[n - 1], Placed(boxes, n - 1))
  }

  method PackComponents(layouts: seq<Layout>) returns (result: Layout)
    ensures result == Packed(layouts, BoxesOf(layouts), |layouts|)
  {
    result := PackMeasured(layouts, BoxesOf(layouts));
  }

  /** The loop of packComponents; `boxes` names the boxes it measures on the way. */
  method PackMeasured(layouts: seq<Layout>, ghost boxes: seq<Box>) returns (result: Layout)
    requires |boxes| == |layouts| && forall k :: 0 <= k < |layouts| ==> boxes[k] == BoxOf(layouts[k])
    ensures result == Packed(layouts, boxes, |layouts|)
  {
    result := map[];
    var cursor := Cursor(0.0, 0.0, 0.0);
    for k := 0 to |layouts|
      invariant cursor == CursorAfter(boxes, k)
      invariant result == Packed(layouts, boxes, k)
    {
      var box := BoundingBoxOf(layouts[k]);
      result, cursor := PlaceComponent(result, cursor, layouts[k], box);
    }
  }

  /** One iteration: wrap, shift the component's positions to the cursor, advance. */
  method PlaceComponent(before: Layout, cursor: Cursor, positions: Layout, box: Box)
    returns (result: Layout, next: Cursor)
    ensures next == Advance(Wrap(cursor, box), box)
    ensures result == before + MovedTo(positions, box, PlacedAt(Wrap(cursor, box), box))
  {
    var cursorX, cursorY, rowHeight := cursor.x, cursor.y, cursor.rowHeight;
    var width, height := box.maxX - box.minX, box.maxY - box.minY;
    if cursorX + width > CANVAS_WIDTH && cursorX > 0.0 {
      cursorX := 0.0;
      cursorY := cursorY + (rowHeight + COMPONENT_PADDING);
      rowHeight := 0.0;
    }
    var offsetX, offsetY := cursorX - box.minX, cursorY - box.minY;
    result := MoveInto(before, positions, offsetX, offsetY);
    cursorX := cursorX + (width + COMPONENT_PADDING);
    rowHeight := if rowHeight > height then rowHeight else height;
    next := Cursor(cursorX, cursorY, rowHeight);
  }

  /** The inner loop: every position of one component, shifted, set in the result. */
  method MoveInto(before: Layout, positions: Layout, dx: real, dy: real) returns (result: Layout)
    ensures result == before + Moved(positions, dx, dy)
  {
    result := before;
    var rest := positions.Keys;
    while rest != {}
      invariant rest <= positions.Keys
      invariant forall id :: id in result <==> id in before || id in positions.Keys - rest
      invariant forall id :: id in positions.Keys - rest ==>
                  result[id] == Position(positions[id].x + dx, positions[id].y + dy)
      invariant forall id :: id in before && id !in positions.Keys - rest ==> result[id] == before[id]
    {
      var id :| id in rest;
      result := result[id := Position(positions[id].x + dx, positions[id].y + dy)];
      rest := rest - {id};
    }
  }

  predicate DisjointIds(layouts: seq<Layout>)
  {
    forall i, j :: 0 <= i < j < |layouts| ==> layouts[i].Keys !! layouts[j].Keys
  }

  /** Components with different ids keep all their positions, each moved as one rigid piece. */
  lemma {:induction false} PackedMovesRigidly(layouts: seq<Layout>, boxes: seq<Box>, n: nat, k: nat, id: Id)
    requires k < n <= |layouts| == |boxes| && DisjointIds(layouts) && id in layouts[k]
    ensures id in Packed(layouts, boxes, n)
    ensures Packed(layouts, boxes, n)[id] == MovedTo(layouts[k], boxes[k], Placed(boxes, k))[id]
  {
    if k < n - 1 {
      PackedMovesRigidly(layouts, boxes, n - 1, k, id);
      assert id !in layouts[n - 1].Keys;
    }
  }

  lemma {:induction false} PackedIds(layouts: seq<Layout>, boxes: seq<Box>, n: nat, id: Id)
    requires n <= |layouts| == |boxes|
    ensures id in Packed(layouts, boxes, n) <==> exists k :: 0 <= k < n && id in layouts[k]
  {
    if n > 0 {
      PackedIds(layouts, boxes, n - 1, id);
    }
  }

  /** Every node of a component ends up inside that component's placed box. */
  lemma PackedInsideBox(layouts: seq<Layout>, k: nat, id: Id)
    requires DisjointIds(layouts) && k < |layouts| && id in layouts[k]
    ensures id in Packed(layouts, BoxesOf(layouts), |layouts|)
    ensures Inside(Packed(layouts, BoxesOf(layouts), |layouts|)[id], Placed(BoxesOf(layouts), k))
  {
    PackedMovesRigidly(layouts, BoxesOf(layouts), |layouts|, k, id);
    BoxOfIsBoundingBox(layouts[k]);
    assert Inside(layouts[k][id], BoxOf(layouts[k]));
  }

  lemma BoxesAreUpright(layouts: seq<Layout>)
    ensures Upright(BoxesOf(layouts))
  {
    forall k | 0 <= k < |layouts|
      ensures Width(BoxOf(layouts[k])) >= 0.0 && Height(BoxOf(layouts[k])) >= 0.0
    {
      var box := BoxOf(layouts[k]);
      BoxOfIsBoundingBox(layouts[k]);
      if layouts[k] != map[] {
        var id :| id in layouts[k] && layouts[k][id].x == box.minX;
        assert Inside(layouts[k][id], box);
      }
    }
  }

  predicate FarApart(p: Position, q: Position)
  {
    || p.x >= q.x + 140.0 || q.x >= p.x + 140.0
    || p.y >= q.y + 140.0 || q.y >= p.y + 140.0
  }

  /** Nodes of two different components are at least the padding apart in x or in y. */
  lemma PackedComponentsAreFarApart(layouts: seq<Layout>, i: nat, j: nat, a: Id, b: Id)
    requires DisjointIds(layouts)
    requires i < |layouts| && j < |layouts| && i != j && a in layouts[i] && b in layouts[j]
    ensures a in Packed(layouts, BoxesOf(layouts), |layouts|) && b in Packed(layouts, BoxesOf(layouts), |layouts|)
    ensures FarApart(Packed(layouts, BoxesOf(layouts), |layouts|)[a], Packed(layouts, BoxesOf(layouts), |layouts|)[b])
  {
    PackedInsideBox(layouts, i, a);
    PackedInsideBox(layouts, j, b);
    BoxesAreUpright(layouts);
    PlacedBoxesAreApart(BoxesOf(layouts), if i < j then i else j, if i < j then j else i);
  }

  // ----- layoutSingletons

  /** The y-offset of singletonLayout.ts over any scattered positions. */
  ghost function Lowered(scattered: Layout, startY: real): Layout
  {
    Moved(scattered, 0.0, startY - BoxOf(scattered).minY)
  }

  method LayoutSingletons(scattered: Layout, startY: real) returns (result: Layout)
    ensures result == Lowered(scattered, startY)
  {
    if scattered == map[] {
      return map[];
    }
    var box := BoundingBoxOf(scattered);
    result := Moved(scattered, 0.0, startY - box.minY);
  }

  /** No singleton lies above startY, and the topmost lies on it. */
  lemma SingletonsStartAt(scattered: Layout, startY: real)
    ensures forall id :: id in scattered ==> Lowered(scattered, startY)[id].y >= startY
    ensures scattered != map[] ==> exists id :: id in scattered && Lowered(scattered, startY)[id].y == startY
  {
    BoxOfIsBoundingBox(scattered);
    forall id | id in scattered
      ensures Lowered(scattered, startY)[id].y >= startY
    {
      assert Inside(scattered[id], BoxOf(scattered));
    }
    if scattered != map[] {
      var top :| top in scattered && scattered[top].y == BoxOf(scattered).minY;
      assert Lowered(scattered, startY)[top].y == startY;
    }
  }
}
