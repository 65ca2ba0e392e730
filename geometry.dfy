/** Integer vector arithmetic of the editor and the face-plane basis
    computed by GetPerpendiculars. Components are integers: a cell is a
    Vector3Int, and every face normal the editor handles is one of the
    six axis-aligned unit vectors, for which Unity's float arithmetic
    is exact. */
module Geometry {

  /** An integer triple: a grid cell (Vector3Int) or an integer-valued direction. */
  datatype Vec3 = Vec3(x: int, y: int, z: int)

  const Zero := Vec3(0, 0, 0)
  /** Vector3.up */
  const WorldUp := Vec3(0, 1, 0)
  /** Vector3.right */
  const WorldRight := Vec3(1, 0, 0)

  function Dot(a: Vec3, b: Vec3): int {
    a.x * b.x + a.y * b.y + a.z * b.z
  }

  /** The 2x2 determinant | a b ; c d |. */
  function Det2(a: int, b: int, c: int, d: int): int { a * d - b * c }

  /** Vector3.Cross: (a.y b.z - a.z b.y, a.z b.x - a.x b.z, a.x b.y - a.y b.x). */
  function Cross(a: Vec3, b: Vec3): Vec3 {
    Vec3(Det2(a.y, a.z, b.y, b.z), Det2(a.z, a.x, b.z, b.x), Det2(a.x, a.y, b.x, b.y))
  }

  /** The cross product is orthogonal to both of its arguments. */
  lemma CrossOrthogonal(a: Vec3, b: Vec3)
    ensures Dot(Cross(a, b), a) == 0 && Dot(Cross(a, b), b) == 0
  {
  }

  /** One of the six axis-aligned unit normals +X, -X, +Y, -Y, +Z, -Z. */
  predicate IsUnitAxis(v: Vec3) {
    v == Vec3(1, 0, 0) || v == Vec3(-1, 0, 0) || v == Vec3(0, 1, 0)
    || v == Vec3(0, -1, 0) || v == Vec3(0, 0, 1) || v == Vec3(0, 0, -1)
  }

  /** A face direction: the outward normal of one of a cube's six faces. */
  type FaceDir = v: Vec3 | IsUnitAxis(v) witness Vec3(1, 0, 0)

  /** The reference "up" of a face: world up, unless the face has a vertical
      component, in which case world right. It never makes the cross product
      with a non-zero face degenerate: world right is chosen whenever world
      up would have made it zero. */
  function ReferenceUp(face: Vec3): (up: Vec3)
    ensures up == WorldUp || up == WorldRight
    ensures face != Zero ==> Cross(face, up) != Zero
    ensures face != Zero && Cross(face, WorldUp) == Zero ==> up == WorldRight
  {
    if face.y == 0 then WorldUp else WorldRight
  }

  /** The two in-plane directions of a face. */
  datatype PlaneBasis = PlaneBasis(updown: Vec3, leftright: Vec3)

  lemma SquareSumPositive(a: int, b: int)
    requires a != 0 || b != 0
    ensures a * a + b * b > 0
  {
    if a != 0 {
      assert a * a > 0 by { if a < 0 { assert a * a == (-a) * (-a); } }
    }
    if b != 0 {
      assert b * b > 0 by { if b < 0 { assert b * b == (-b) * (-b); } }
    }
  }

  /** The basis of a face (x, 0, z) with no vertical component, in closed form. */
  lemma HorizontalBasis(x: int, z: int)
    ensures Cross(Vec3(-z, 0, x), Vec3(x, 0, z)) == Vec3(0, x * x + z * z, 0)
    ensures Dot(Vec3(-z, 0, x), Vec3(x, 0, z)) == 0
    ensures Dot(Vec3(0, x * x + z * z, 0), Vec3(x, 0, z)) == 0
    ensures Dot(Vec3(-z, 0, x), Vec3(0, x * x + z * z, 0)) == 0
  {
  }

  /** On the six unit normals the choice is exact: world right is taken for
      the two vertical normals, the only ones world up is parallel to. */
  lemma ReferenceUpOnUnitNormals(face: Vec3)
    requires IsUnitAxis(face)
    ensures ReferenceUp(face) == WorldRight <==> Cross(face, WorldUp) == Zero
  {
    var x, y, z := face.x, face.y, face.z;
    if y == 0 {
      assert x != 0 || z != 0;
      assert Cross(face, WorldUp) != Zero by {
        assert face == Vec3(x, 0, z);
        HorizontalNotParallelToUp(x, z);
      }
    } else {
      assert Cross(face, WorldUp) == Zero by {
        assert face == Vec3(0, y, 0);
        VerticalParallelToUp(y);
      }
    }
  }

  /** A horizontal vector crossed with world up, in closed form. */
  lemma HorizontalCrossUp(x: int, z: int)
    ensures Cross(Vec3(x, 0, z), WorldUp) == Vec3(-z, 0, x)
  {
  }

  /** World up is not parallel to any non-zero horizontal vector. */
  lemma HorizontalNotParallelToUp(x: int, z: int)
    requires x != 0 || z != 0
    ensures Cross(Vec3(x, 0, z), WorldUp) != Zero
  {
  }

  /** World up is parallel to every vertical vector. */
  lemma VerticalParallelToUp(y: int)
    ensures Cross(Vec3(0, y, 0), WorldUp) == Zero
  {
  }

  /** The leftright vector of a horizontal face has length x*x + z*z: positive
      for a non-zero face and 1 for a unit normal. */
  lemma HorizontalLength(x: int, z: int)
    ensures x != 0 || z != 0 ==> x * x + z * z > 0
    ensures IsUnitAxis(Vec3(x, 0, z)) ==> x * x + z * z == 1
    ensures IsUnitAxis(Vec3(x, 0, z)) ==> IsUnitAxis(Vec3(-z, 0, x)) && IsUnitAxis(Vec3(0, x * x + z * z, 0))
  {
    if x != 0 || z != 0 {
      SquareSumPositive(x, z);
    }
    if IsUnitAxis(Vec3(x, 0, z)) {
      if x == 0 {
        assert z * z == 1 by { if z == 1 { } else { assert z == -1; } }
      } else {
        assert z == 0 && x * x == 1 by { if x == 1 { } else { assert x == -1; } }
      }
    }
  }

  /** The basis of a face (x, y, z) with y != 0, in closed form. */
  lemma VerticalBasis(x: int, y: int, z: int)
    requires y != 0
    ensures Cross(Vec3(x, y, z), WorldRight) == Vec3(0, z, -y)
    ensures Cross(Vec3(0, z, -y), Vec3(x, y, z)) == Vec3(z * z + y * y, -(x * y), -(x * z))
    ensures Dot(Vec3(0, z, -y), Vec3(x, y, z)) == 0
    ensures Dot(Vec3(z * z + y * y, -(x * y), -(x * z)), Vec3(x, y, z)) == 0
    ensures Dot(Vec3(0, z, -y), Vec3(z * z + y * y, -(x * y), -(x * z))) == 0
  {
    assert (-y) * x == -(x * y);
    assert 0 * z - z * x == -(x * z);
    assert (z * z + y * y) * x - (x * y) * y - (x * z) * z == 0;
  }

  /** The leftright vector of a face with y != 0 is non-zero, and for the
      two vertical unit normals it is world right. */
  lemma VerticalLength(x: int, y: int, z: int)
    requires y != 0
    ensures z * z + y * y > 0
    ensures IsUnitAxis(Vec3(x, y, z)) ==> IsUnitAxis(Vec3(0, z, -y))
    ensures IsUnitAxis(Vec3(x, y, z)) ==> IsUnitAxis(Vec3(z * z + y * y, -(x * y), -(x * z)))
  {
    SquareSumPositive(z, y);
    if IsUnitAxis(Vec3(x, y, z)) {
      assert x == 0 && z == 0;
      assert y * y == 1 by { if y == 1 { } else { assert y == -1; } }
      assert Vec3(z * z + y * y, -(x * y), -(x * z)) == WorldRight;
    }
  }

  /** u and l are pairwise orthogonal to face and to each other, non-zero
      when face is, and unit normals when face is one. */
  predicate IsPlaneBasis(face: Vec3, u: Vec3, l: Vec3) {
    Dot(u, face) == 0 && Dot(l, face) == 0 && Dot(u, l) == 0
    && (face != Zero ==> u != Zero && l != Zero)
    && (IsUnitAxis(face) ==> IsUnitAxis(u) && IsUnitAxis(l))
  }

  /** The facts Perpendiculars promises, about the two cross products. */
  lemma BasisFacts(face: Vec3)
    ensures var u := Cross(face, ReferenceUp(face));
            IsPlaneBasis(face, u, Cross(u, face))
  {
    var x, y, z := face.x, face.y, face.z;
    if y == 0 {
      assert face == Vec3(x, 0, z);
      HorizontalCrossUp(x, z);
      HorizontalBasis(x, z);
      HorizontalLength(x, z);
      var u, l := Vec3(-z, 0, x), Vec3(0, x * x + z * z, 0);
      assert Cross(face, ReferenceUp(face)) == u;
      assert Cross(u, face) == l;
      assert IsPlaneBasis(face, u, l);
    } else {
      assert face == Vec3(x, y, z);
      VerticalBasis(x, y, z);
      VerticalLength(x, y, z);
      var u, l := Vec3(0, z, -y), Vec3(z * z + y * y, -(x * y), -(x * z));
      assert Cross(face, ReferenceUp(face)) == u;
      assert Cross(u, face) == l;
      assert IsPlaneBasis(face, u, l);
    }
  }

  /** GetPerpendiculars(face, out updown, out leftright): updown is the face
      crossed with its reference up, leftright is updown crossed with the
      face. The three vectors are pairwise orthogonal; for a non-zero face
      both results are non-zero, so together they span the face plane; for
      a unit axis normal both are unit axis vectors. */
  function Perpendiculars(face: Vec3): (r: PlaneBasis)
    ensures IsPlaneBasis(face, r.updown, r.leftright)
  {
    var updown := Cross(face, ReferenceUp(face));
    var leftright := Cross(updown, face);
    BasisFacts(face);
    assert IsPlaneBasis(face, updown, leftright);
    PlaneBasis(updown, leftright)
  }
}
