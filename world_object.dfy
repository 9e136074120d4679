/** `lib/world/WorldObject.ts`: the static objects of the client's world and the collision
    tests between axis-aligned boxes, points and users. Pixel coordinates are integers here. */
module Geometry {
  import opened Common

  /** A static world object: a `width` by `height` rectangle whose top-left corner is at
      (`x`, `y`). */
  datatype WorldObject = WorldObject(
    id: string, x: int, y: int, width: int, height: int,
    sprite: string, collidable: bool, name: Option<string>)

  /** `checkAABBCollision`: the two boxes overlap on both axes, under strict inequalities. */
  predicate CheckAABBCollision(obj1X: int, obj1Y: int, obj1W: int, obj1H: int,
                               obj2X: int, obj2Y: int, obj2W: int, obj2H: int)
  {
    && obj1X < obj2X + obj2W
    && obj1X + obj1W > obj2X
    && obj1Y < obj2Y + obj2H
    && obj1Y + obj1H > obj2Y
  }

  /** The unit pixel whose top-left corner is (`px`, `py`) lies inside the box. */
  predicate PixelIn(px: int, py: int, x: int, y: int, w: int, h: int) {
    x <= px < x + w && y <= py < y + h
  }

  /** Two boxes of positive size collide exactly when some pixel lies inside both of them:
      the strict inequalities make the test an overlap of half-open intervals. */
  lemma AABBIffSharedPixel(x1: int, y1: int, w1: int, h1: int, x2: int, y2: int, w2: int, h2: int)
    requires w1 > 0 && h1 > 0 && w2 > 0 && h2 > 0
    ensures CheckAABBCollision(x1, y1, w1, h1, x2, y2, w2, h2) <==>
            exists px, py :: PixelIn(px, py, x1, y1, w1, h1) && PixelIn(px, py, x2, y2, w2, h2)
  {
    if CheckAABBCollision(x1, y1, w1, h1, x2, y2, w2, h2) {
      var px := if x1 < x2 then x2 else x1;
      var py := if y1 < y2 then y2 else y1;
      assert PixelIn(px, py, x1, y1, w1, h1) && PixelIn(px, py, x2, y2, w2, h2);
    }
  }

  /** The test does not depend on the order of its two boxes. */
  lemma AABBSymmetric(x1: int, y1: int, w1: int, h1: int, x2: int, y2: int, w2: int, h2: int)
    ensures CheckAABBCollision(x1, y1, w1, h1, x2, y2, w2, h2) ==
            CheckAABBCollision(x2, y2, w2, h2, x1, y1, w1, h1)
  {
  }

  /** Boxes that only share an edge, or lie side by side on one axis, do not collide. */
  lemma TouchingBoxesDoNotCollide(x1: int, y1: int, w1: int, h1: int, x2: int, y2: int, w2: int, h2: int)
    requires x1 + w1 <= x2 || x2 + w2 <= x1 || y1 + h1 <= y2 || y2 + h2 <= y1
    ensures !CheckAABBCollision(x1, y1, w1, h1, x2, y2, w2, h2)
  {
  }

  /** `checkPointObjectCollision`: the point lies in the object's closed rectangle. */
  predicate CheckPointObjectCollision(pointX: int, pointY: int, obj: WorldObject) {
    && pointX >= obj.x
    && pointX <= obj.x + obj.width
    && pointY >= obj.y
    && pointY <= obj.y + obj.height
  }

  /** The point test includes the edges: every corner of the rectangle is a hit, and a point
      one pixel outside any edge is not. */
  lemma PointTestClosed(obj: WorldObject)
    requires obj.width >= 0 && obj.height >= 0
    ensures CheckPointObjectCollision(obj.x, obj.y, obj)
    ensures CheckPointObjectCollision(obj.x + obj.width, obj.y + obj.height, obj)
    ensures !CheckPointObjectCollision(obj.x - 1, obj.y, obj)
    ensures !CheckPointObjectCollision(obj.x, obj.y + obj.height + 1, obj)
  {
  }

  /** `checkUserObjectCollision`: the user, a square of side `2 * userRadius` centred on
      (`userX`, `userY`), overlaps the object under the AABB test. */
  predicate CheckUserObjectCollision(userX: int, userY: int, userRadius: int, obj: WorldObject) {
    var userSize := userRadius * 2;
    CheckAABBCollision(userX - userRadius, userY - userRadius, userSize, userSize,
                       obj.x, obj.y, obj.width, obj.height)
  }

  /** The user test holds exactly when the centre lies strictly inside the object's rectangle
      grown by the radius on every side. */
  lemma UserIffGrownRect(userX: int, userY: int, userRadius: int, obj: WorldObject)
    ensures CheckUserObjectCollision(userX, userY, userRadius, obj) <==>
            && obj.x - userRadius < userX < obj.x + obj.width + userRadius
            && obj.y - userRadius < userY < obj.y + obj.height + userRadius
  {
  }

  /** A user of positive radius whose centre is on the object, edges included, collides
      with it. */
  lemma PointImpliesUser(userX: int, userY: int, userRadius: int, obj: WorldObject)
    requires userRadius > 0 && CheckPointObjectCollision(userX, userY, obj)
    ensures CheckUserObjectCollision(userX, userY, userRadius, obj)
  {
    UserIffGrownRect(userX, userY, userRadius, obj);
  }
}
