/** `lib/world/worldObjects.ts`: the constant table of furniture in the world, and the
    queries the renderer and the collision code run over it. */
module WorldTable {
  import opened Common
  import opened Geometry

  /** `WORLD_OBJECTS`: desks, sofas, tables, plants, a whiteboard and chairs, in table order. */
  const WorldObjects: seq<WorldObject> := [
    WorldObject("desk_1", 800, 800, 120, 80, "#8B4513", true, Some("Desk")),
    WorldObject("desk_2", 1000, 800, 120, 80, "#8B4513", true, Some("Desk")),
    WorldObject("desk_3", 800, 1000, 120, 80, "#8B4513", true, Some("Desk")),
    WorldObject("desk_4", 1000, 1000, 120, 80, "#8B4513", true, Some("Desk")),
    WorldObject("sofa_1", 2400, 1400, 160, 80, "#CD5C5C", true, Some("Sofa")),
    WorldObject("sofa_2", 2400, 1600, 160, 80, "#CD5C5C", true, Some("Sofa")),
    WorldObject("table_1", 1400, 2000, 100, 100, "#654321", true, Some("Table")),
    WorldObject("table_2", 3000, 2000, 100, 100, "#654321", true, Some("Table")),
    WorldObject("plant_1", 600, 600, 40, 40, "#228B22", true, Some("Plant")),
    WorldObject("plant_2", 3400, 600, 40, 40, "#228B22", true, Some("Plant")),
    WorldObject("plant_3", 600, 3400, 40, 40, "#228B22", true, Some("Plant")),
    WorldObject("plant_4", 3400, 3400, 40, 40, "#228B22", true, Some("Plant")),
    WorldObject("whiteboard_1", 2800, 800, 200, 120, "#FFFFFF", true, Some("Whiteboard")),
    WorldObject("chair_1", 850, 720, 50, 50, "#696969", true, Some("Chair")),
    WorldObject("chair_2", 1050, 720, 50, 50, "#696969", true, Some("Chair")),
    WorldObject("chair_3", 850, 920, 50, 50, "#696969", true, Some("Chair")),
    WorldObject("chair_4", 1050, 920, 50, 50, "#696969", true, Some("Chair"))
  ]

  /** `a` is `b` with some elements left out, the rest in their order. */
  predicate Subseq<T(==)>(a: seq<T>, b: seq<T>)
    decreases |b|
  {
    if b == [] then a == []
    else
      || (a != [] && a[|a| - 1] == b[|b| - 1] && Subseq(a[..|a| - 1], b[..|b| - 1]))
      || Subseq(a, b[..|b| - 1])
  }

  /** A subsequence is never longer than the sequence it is taken from. */
  lemma {:induction false} SubseqNoLonger<T>(a: seq<T>, b: seq<T>)
    requires Subseq(a, b)
    ensures |a| <= |b|
    decreases |b|
  {
    if b != [] {
      if a != [] && a[|a| - 1] == b[|b| - 1] && Subseq(a[..|a| - 1], b[..|b| - 1]) {
        SubseqNoLonger(a[..|a| - 1], b[..|b| - 1]);
      } else {
        SubseqNoLonger(a, b[..|b| - 1]);
      }
    }
  }

  /** `objs.filter(obj => obj.collidable)`. */
  function Collidable(objs: seq<WorldObject>): seq<WorldObject> {
    if objs == [] then []
    else
      var last := objs[|objs| - 1];
      Collidable(objs[..|objs| - 1]) + (if last.collidable then [last] else [])
  }

  /** The filter keeps exactly the collidable objects. */
  lemma {:induction false} CollidableMembers(objs: seq<WorldObject>, o: WorldObject)
    ensures o in Collidable(objs) <==> o in objs && o.collidable
  {
    if objs != [] {
      CollidableMembers(objs[..|objs| - 1], o);
      assert objs == objs[..|objs| - 1] + [objs[|objs| - 1]];
    }
  }

  /** The filter keeps the table's order. */
  lemma {:induction false} CollidableInOrder(objs: seq<WorldObject>)
    ensures Subseq(Collidable(objs), objs)
  {
    if objs != [] {
      var init, last := objs[..|objs| - 1], objs[|objs| - 1];
      CollidableInOrder(init);
      var rest := Collidable(init);
      if last.collidable {
        assert Collidable(objs) == rest + [last];
        assert (rest + [last])[..|rest|] == rest;
      } else {
        assert Collidable(objs) == rest;
      }
    }
  }

  /** Filtering a sequence whose every element is collidable keeps all of it. */
  lemma {:induction false} CollidableKeepsAll(objs: seq<WorldObject>)
    requires forall i :: 0 <= i < |objs| ==> objs[i].collidable
    ensures Collidable(objs) == objs
  {
    if objs != [] {
      var init, last := objs[..|objs| - 1], objs[|objs| - 1];
      assert forall i :: 0 <= i < |init| ==> init[i] == objs[i];
      CollidableKeepsAll(init);
      assert last.collidable;
      assert Collidable(objs) == init + [last];
      assert objs == init + [last];
    }
  }

  /** `getCollidableObjects()`: the collidable objects of the table, in table order. */
  function GetCollidableObjects(): (r: seq<WorldObject>)
    ensures Subseq(r, WorldObjects)
    ensures forall o :: o in r <==> o in WorldObjects && o.collidable
  {
    CollidableInOrder(WorldObjects);
    assert forall o :: o in Collidable(WorldObjects) <==> o in WorldObjects && o.collidable by {
      forall o { CollidableMembers(WorldObjects, o); }
    }
    Collidable(WorldObjects)
  }

  /** The table's ids are pairwise different. */
  lemma TableIdsDistinct()
    ensures forall i, j :: 0 <= i < j < |WorldObjects| ==> WorldObjects[i].id != WorldObjects[j].id
  {
  }

  /** Every object in the table has a positive size and is collidable. */
  lemma TableObjectsSolid()
    ensures forall i :: 0 <= i < |WorldObjects| ==>
      WorldObjects[i].width > 0 && WorldObjects[i].height > 0 && WorldObjects[i].collidable
  {
  }

  /** Since every entry is collidable, `getCollidableObjects()` is the whole table. */
  lemma AllObjectsCollidable()
    ensures GetCollidableObjects() == WorldObjects
  {
    TableObjectsSolid();
    CollidableKeepsAll(WorldObjects);
  }

  /** The objects of `objs` that overlap the viewport, in order. */
  function VisibleIn(objs: seq<WorldObject>, cameraOffsetX: int, cameraOffsetY: int,
                     viewportWidth: int, viewportHeight: int): seq<WorldObject>
  {
    if objs == [] then []
    else
      var last := objs[|objs| - 1];
      VisibleIn(objs[..|objs| - 1], cameraOffsetX, cameraOffsetY, viewportWidth, viewportHeight)
      + (if CheckAABBCollision(last.x, last.y, last.width, last.height,
                               cameraOffsetX, cameraOffsetY, viewportWidth, viewportHeight)
         then [last] else [])
  }

  /** The objects kept are exactly those that pass the AABB test against the viewport. */
  lemma {:induction false} VisibleMembers(objs: seq<WorldObject>, cameraOffsetX: int, cameraOffsetY: int,
                                          viewportWidth: int, viewportHeight: int, o: WorldObject)
    ensures o in VisibleIn(objs, cameraOffsetX, cameraOffsetY, viewportWidth, viewportHeight) <==>
      o in objs && CheckAABBCollision(o.x, o.y, o.width, o.height,
                                      cameraOffsetX, cameraOffsetY, viewportWidth, viewportHeight)
  {
    if objs != [] {
      VisibleMembers(objs[..|objs| - 1], cameraOffsetX, cameraOffsetY, viewportWidth, viewportHeight, o);
      assert objs == objs[..|objs| - 1] + [objs[|objs| - 1]];
    }
  }

  /** The objects kept stay in their order. */
  lemma {:induction false} VisibleInOrder(objs: seq<WorldObject>, cameraOffsetX: int, cameraOffsetY: int,
                                          viewportWidth: int, viewportHeight: int)
    ensures Subseq(VisibleIn(objs, cameraOffsetX, cameraOffsetY, viewportWidth, viewportHeight), objs)
  {
    if objs != [] {
      var init, last := objs[..|objs| - 1], objs[|objs| - 1];
      VisibleInOrder(init, cameraOffsetX, cameraOffsetY, viewportWidth, viewportHeight);
      var rest := VisibleIn(init, cameraOffsetX, cameraOffsetY, viewportWidth, viewportHeight);
      if CheckAABBCollision(last.x, last.y, last.width, last.height,
                            cameraOffsetX, cameraOffsetY, viewportWidth, viewportHeight) {
        assert VisibleIn(objs, cameraOffsetX, cameraOffsetY, viewportWidth, viewportHeight) == rest + [last];
        assert (rest + [last])[..|rest|] == rest;
      } else {
        assert VisibleIn(objs, cameraOffsetX, cameraOffsetY, viewportWidth, viewportHeight) == rest;
      }
    }
  }

  /** `getVisibleObjects(...)`: the objects whose rectangle overlaps the viewport under the
      same strict test as `checkAABBCollision`, in table order and never more than the
      table holds. */
  method GetVisibleObjects(cameraOffsetX: int, cameraOffsetY: int, viewportWidth: int, viewportHeight: int)
    returns (visibleObjects: seq<WorldObject>)
    ensures visibleObjects == VisibleIn(WorldObjects, cameraOffsetX, cameraOffsetY, viewportWidth, viewportHeight)
    ensures forall o :: o in visibleObjects <==>
      o in WorldObjects && CheckAABBCollision(o.x, o.y, o.width, o.height,
                                              cameraOffsetX, cameraOffsetY, viewportWidth, viewportHeight)
    ensures Subseq(visibleObjects, WorldObjects) && |visibleObjects| <= |WorldObjects|
  {
    visibleObjects := [];
    for i := 0 to |WorldObjects|
      invariant visibleObjects == VisibleIn(WorldObjects[..i], cameraOffsetX, cameraOffsetY, viewportWidth, viewportHeight)
    {
      var obj := WorldObjects[i];
      assert WorldObjects[..i + 1][..i] == WorldObjects[..i];
      if && obj.x < cameraOffsetX + viewportWidth
         && obj.x + obj.width > cameraOffsetX
         && obj.y < cameraOffsetY + viewportHeight
         && obj.y + obj.height > cameraOffsetY
      {
        visibleObjects := visibleObjects + [obj];
      }
    }
    assert WorldObjects[..|WorldObjects|] == WorldObjects;
    forall o {
      VisibleMembers(WorldObjects, cameraOffsetX, cameraOffsetY, viewportWidth, viewportHeight, o);
    }
    VisibleInOrder(WorldObjects, cameraOffsetX, cameraOffsetY, viewportWidth, viewportHeight);
    SubseqNoLonger(visibleObjects, WorldObjects);
  }
}
