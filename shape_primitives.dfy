/** The detected shape primitives (planes and cylinders) and their
    comparison: the intersection over union of their pixel masks gates a
    type-directed test on their normals.

    Geometry is kept in exact real arithmetic; the source computes it in
    floating point. */
module ShapePrimitives {
  import opened Counting

  datatype Vector3 = Vector3(x: real, y: real, z: real)

  function Dot(u: Vector3, v: Vector3): real
  {
    u.x * v.x + u.y * v.y + u.z * v.z
  }

  function Abs(r: real): real
  {
    if r < 0.0 then -r else r
  }

  /** The type tag every primitive carries. */
  datatype PrimitiveType = Invalid | Plane | Cylinder

  /** What the primitive's class holds besides the base fields: nothing for
      the base class, normal, offset and mean point for a plane, normal and
      radius for a cylinder. */
  datatype Geometry =
    | NoGeometry
    | PlaneGeometry(normal: Vector3, d: real, mean: Vector3)
    | CylinderGeometry(normal: Vector3, radius: real)

  /** A primitive: its id, its pixel mask, its type tag and its class's data. */
  datatype Primitive = Primitive(id: nat, shapeMask: seq<bool>, primitiveType: PrimitiveType, geometry: Geometry)

  /** The fitted plane a plane primitive is built from. */
  datatype PlaneSegment = PlaneSegment(normal: Vector3, d: real, mean: Vector3)

  /** The fitted cylinder a cylinder primitive is built from: one radius per
      sub-segment and the axis normal. */
  datatype CylinderSegment = CylinderSegment(radii: seq<real>, normal: Vector3)

  /** The primitive is an object of the plane or the cylinder class, the
      classes that implement the similarity test. */
  predicate IsShape(p: Primitive)
  {
    p.geometry.PlaneGeometry? || p.geometry.CylinderGeometry?
  }

  /** The type tag agrees with the primitive's class. */
  predicate WellTyped(p: Primitive)
  {
    match p.geometry
    case NoGeometry => p.primitiveType == Invalid
    case PlaneGeometry(_, _, _) => p.primitiveType == Plane
    case CylinderGeometry(_, _) => p.primitiveType == Cylinder
  }

  /** Pixelwise union and intersection of two masks. */
  function Union(a: seq<bool>, b: seq<bool>): (u: seq<bool>)
    requires |a| == |b|
    ensures |u| == |a| && forall i :: 0 <= i < |a| ==> (u[i] <==> a[i] || b[i])
  {
    seq(|a|, i requires 0 <= i < |a| => a[i] || b[i])
  }

  function Intersection(a: seq<bool>, b: seq<bool>): (n: seq<bool>)
    requires |a| == |b|
    ensures |n| == |a| && forall i :: 0 <= i < |a| ==> (n[i] <==> a[i] && b[i])
  {
    seq(|a|, i requires 0 <= i < |a| => a[i] && b[i])
  }

  /** Intersection over union of two masks of the same size: 0 when the union
      is empty, otherwise the ratio of the set pixel counts, which lies in
      [0, 1]. */
  function Iou(a: seq<bool>, b: seq<bool>): (iou: real)
    requires |a| == |b| > 0
    ensures 0.0 <= iou <= 1.0
    ensures CountTrue(Union(a, b)) == 0 ==> iou == 0.0
    ensures CountTrue(Union(a, b)) > 0 ==>
      (iou == 1.0 <==> CountTrue(Intersection(a, b)) == CountTrue(Union(a, b)))
  {
    var union := CountTrue(Union(a, b));
    if union == 0 then 0.0
    else
      var inter := CountTrue(Intersection(a, b));
      CountTrueMonotone(Intersection(a, b), Union(a, b));
      RatioBounds(inter as real, union as real);
      inter as real / union as real
  }

  /** A ratio of a non-negative number to a larger positive one lies in
      [0, 1] and is 1 exactly when the two are equal. */
  lemma RatioBounds(x: real, y: real)
    requires 0.0 <= x <= y && y > 0.0
    ensures 0.0 <= x / y <= 1.0
    ensures x / y == 1.0 <==> x == y
  {
    assert (x / y) * y == x;
  }

  /** The intersection over union does not depend on the order of the masks. */
  lemma IouSymmetric(a: seq<bool>, b: seq<bool>)
    requires |a| == |b| > 0
    ensures Iou(a, b) == Iou(b, a)
  {
    assert Union(a, b) == Union(b, a);
    assert Intersection(a, b) == Intersection(b, a);
  }

  /** The intersection over union is 1 exactly for two equal masks with at
      least one set pixel. */
  lemma IouOne(a: seq<bool>, b: seq<bool>)
    requires |a| == |b| > 0
    ensures Iou(a, b) == 1.0 <==> a == b && CountTrue(a) > 0
  {
    var u := Union(a, b);
    var n := Intersection(a, b);
    if a == b && CountTrue(a) > 0 {
      assert u == a && n == a;
    }
    if Iou(a, b) == 1.0 {
      CountTrueSameAbove(n, u);
      forall i | 0 <= i < |a| ensures a[i] == b[i] {
        assert n[i] == u[i];
      }
      assert u == a;
    }
  }

  /** A mask below another one with as many set entries equals it. */
  lemma {:induction false} CountTrueSameAbove(a: seq<bool>, b: seq<bool>)
    requires |a| == |b|
    requires forall i :: 0 <= i < |a| && a[i] ==> b[i]
    requires CountTrue(a) == CountTrue(b)
    ensures a == b
  {
    if a != [] {
      var m := |a| - 1;
      CountTrueMonotone(a[..m], b[..m]);
      CountTrueSameAbove(a[..m], b[..m]);
      assert a == a[..m] + [a[m]] && b == b[..m] + [b[m]];
    }
  }

  /** The base constructor: type `Invalid`, no class data. */
  function NewPrimitive(id: nat, shapeMask: seq<bool>): (p: Primitive)
    requires |shapeMask| > 0
    ensures p.id == id && p.shapeMask == shapeMask
    ensures WellTyped(p) && p.primitiveType == Invalid && !IsShape(p)
  {
    Primitive(id, shapeMask, Invalid, NoGeometry)
  }

  /** The plane constructor: type `Plane`, with the segment's normal, offset
      and mean point. */
  function NewPlane(segment: PlaneSegment, id: nat, shapeMask: seq<bool>): (p: Primitive)
    requires |shapeMask| > 0
    ensures p.id == id && p.shapeMask == shapeMask
    ensures WellTyped(p) && IsShape(p) && p.primitiveType == Plane
    ensures p.geometry == PlaneGeometry(segment.normal, segment.d, segment.mean)
  {
    var base := NewPrimitive(id, shapeMask);
    base.(primitiveType := Plane, geometry := PlaneGeometry(segment.normal, segment.d, segment.mean))
  }

  /** Sum of a sequence of radii. */
  function Sum(s: seq<real>): real
  {
    if s == [] then 0.0 else Sum(s[..|s| - 1]) + s[|s| - 1]
  }

  /** The mean of radii that all lie in `[lo, hi]` lies in `[lo, hi]`. */
  lemma {:induction false} SumBounds(s: seq<real>, lo: real, hi: real)
    requires forall i :: 0 <= i < |s| ==> lo <= s[i] <= hi
    ensures lo * (|s| as real) <= Sum(s) <= hi * (|s| as real)
  {
    if s != [] {
      SumBounds(s[..|s| - 1], lo, hi);
    }
  }

  lemma MeanBounds(s: seq<real>, lo: real, hi: real)
    requires |s| > 0
    requires forall i :: 0 <= i < |s| ==> lo <= s[i] <= hi
    ensures lo <= Sum(s) / (|s| as real) <= hi
  {
    SumBounds(s, lo, hi);
    QuotientBounds(Sum(s), |s| as real, lo, hi);
  }

  /** Dividing `lo * n <= x <= hi * n` by a positive `n`. */
  lemma QuotientBounds(x: real, n: real, lo: real, hi: real)
    requires n > 0.0 && lo * n <= x <= hi * n
    ensures lo <= x / n <= hi
  {
    assert (x / n) * n == x;
  }

  /** The cylinder constructor: type `Cylinder`, the segment's normal, and as
      radius the mean of the sub-segment radii, accumulated in a loop. */
  method NewCylinder(segment: CylinderSegment, id: nat, shapeMask: seq<bool>) returns (p: Primitive)
    requires |shapeMask| > 0 && |segment.radii| > 0
    ensures p.id == id && p.shapeMask == shapeMask
    ensures WellTyped(p) && IsShape(p) && p.primitiveType == Cylinder
    ensures p.geometry == CylinderGeometry(segment.normal, Sum(segment.radii) / (|segment.radii| as real))
  {
    var radius := 0.0;
    for i := 0 to |segment.radii|
      invariant radius == Sum(segment.radii[..i])
    {
      assert segment.radii[..i + 1][..i] == segment.radii[..i];
      radius := radius + segment.radii[i];
    }
    assert segment.radii[..|segment.radii|] == segment.radii;
    radius := radius / (|segment.radii| as real);
    var base := NewPrimitive(id, shapeMask);
    p := base.(primitiveType := Cylinder, geometry := CylinderGeometry(segment.normal, radius));
  }

  /** The normal test of the receiver's class: for a plane, the normalised
      cosine `(cos + 1) / 2` must exceed the threshold; for a cylinder, the
      absolute cosine. The other primitive must be of the same class. */
  predicate NormalsAgree(p: Primitive, q: Primitive, minDot: real)
    requires IsShape(p)
  {
    match p.geometry
    case PlaneGeometry(n, _, _) =>
      q.primitiveType == Plane && q.geometry.PlaneGeometry? && (Dot(n, q.geometry.normal) + 1.0) / 2.0 > minDot
    case CylinderGeometry(n, _) =>
      q.primitiveType == Cylinder && q.geometry.CylinderGeometry? && Abs(Dot(n, q.geometry.normal)) > minDot
  }

  /** Similarity of the receiver `p` with `q`: a mask overlap below `minIou`
      rules it out whatever the types; otherwise `q` must carry the
      receiver's type tag and class, and pass its normal test. A plane is
      never similar to a cylinder, nor a cylinder to a plane. */
  function IsSimilar(p: Primitive, q: Primitive, minIou: real, minDot: real): (similar: bool)
    requires IsShape(p) && q.primitiveType != Invalid
    requires |p.shapeMask| == |q.shapeMask| > 0
    ensures Iou(p.shapeMask, q.shapeMask) < minIou ==> !similar
    ensures p.geometry.PlaneGeometry? && q.primitiveType == Cylinder ==> !similar
    ensures p.geometry.CylinderGeometry? && q.primitiveType == Plane ==> !similar
    ensures similar <==> Iou(p.shapeMask, q.shapeMask) >= minIou && NormalsAgree(p, q, minDot)
  {
    if Iou(p.shapeMask, q.shapeMask) < minIou then false
    else
      match q.primitiveType
      case Plane => p.geometry.PlaneGeometry? && NormalsAgree(p, q, minDot)
      case Cylinder => p.geometry.CylinderGeometry? && NormalsAgree(p, q, minDot)
  }

  /** Between well-typed planes and cylinders, similarity is symmetric. */
  lemma IsSimilarSymmetric(p: Primitive, q: Primitive, minIou: real, minDot: real)
    requires IsShape(p) && IsShape(q) && WellTyped(p) && WellTyped(q)
    requires |p.shapeMask| == |q.shapeMask| > 0
    ensures IsSimilar(p, q, minIou, minDot) == IsSimilar(q, p, minIou, minDot)
  {
    IouSymmetric(p.shapeMask, q.shapeMask);
  }

  /** A well-typed plane or cylinder with a unit normal and a mask with a set
      pixel is similar to itself whenever the thresholds are below 1. */
  lemma IsSimilarReflexive(p: Primitive, minIou: real, minDot: real)
    requires IsShape(p) && WellTyped(p) && |p.shapeMask| > 0 && CountTrue(p.shapeMask) > 0
    requires Dot(p.geometry.normal, p.geometry.normal) == 1.0
    requires minIou <= 1.0 && minDot < 1.0
    ensures IsSimilar(p, p, minIou, minDot)
  {
    IouOne(p.shapeMask, p.shapeMask);
  }
}
