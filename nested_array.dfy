/** `type_cast_array` and `string_to_array`: the element caster applied to
    every leaf of an already parsed, possibly nested, PostgreSQL array. */
module NestedArray {

  /** A parsed array element: a leaf (a text or nil as the parser gives it,
      or a cast value) or a nested Array. */
  datatype Nested<T> = Leaf(value: T) | List(items: seq<Nested<T>>)

  /** The nesting of an array with the leaves left out. */
  datatype Shape = Dot | Node(children: seq<Shape>)

  function ShapeOf<T>(v: Nested<T>): Shape
    decreases v, 1
  {
    match v
    case Leaf(_) => Dot
    case List(items) => Node(ShapesOf(items))
  }

  function ShapesOf<T>(vs: seq<Nested<T>>): (r: seq<Shape>)
    ensures |r| == |vs|
    decreases vs, 0
  {
    if vs == [] then [] else [ShapeOf(vs[0])] + ShapesOf(vs[1..])
  }

  /** The leaves, left to right. */
  function Leaves<T>(v: Nested<T>): seq<T>
    decreases v, 1
  {
    match v
    case Leaf(x) => [x]
    case List(items) => LeavesOf(items)
  }

  function LeavesOf<T>(vs: seq<Nested<T>>): seq<T>
    decreases vs, 0
  {
    if vs == [] then [] else Leaves(vs[0]) + LeavesOf(vs[1..])
  }

  /** Number of leaves a shape holds. */
  function LeafCount(s: Shape): nat
    decreases s, 1
  {
    match s
    case Dot => 1
    case Node(children) => LeafCounts(children)
  }

  function LeafCounts(ss: seq<Shape>): nat
    decreases ss, 0
  {
    if ss == [] then 0 else LeafCount(ss[0]) + LeafCounts(ss[1..])
  }

  function MapSeq<T, U>(f: T -> U, xs: seq<T>): (r: seq<U>)
    ensures |r| == |xs| && forall i :: 0 <= i < |xs| ==> r[i] == f(xs[i])
  {
    if xs == [] then [] else [f(xs[0])] + MapSeq(f, xs[1..])
  }

  // ---------------------------------------------------------------------
  // The codec
  // ---------------------------------------------------------------------

  /** `type_cast_array`: an Array is mapped element by element, recursively;
      anything else is handed to the element caster `cast` (`oid.type_cast`). */
  function TypeCastArray<T, U>(cast: T -> U, v: Nested<T>): (r: Nested<U>)
    ensures v.Leaf? <==> r.Leaf?
    ensures v.Leaf? ==> r.value == cast(v.value)
    ensures v.List? ==> |r.items| == |v.items|
    decreases v, 1
  {
    match v
    case Leaf(x) => Leaf(cast(x))
    case List(items) => List(TypeCastItems(cast, items))
  }

  function TypeCastItems<T, U>(cast: T -> U, vs: seq<Nested<T>>): (r: seq<Nested<U>>)
    ensures |r| == |vs|
    decreases vs, 0
  {
    if vs == [] then [] else [TypeCastArray(cast, vs[0])] + TypeCastItems(cast, vs[1..])
  }

  /** `string_to_array`: the elements `parse_pg_array` found, each cast by
      `type_cast_array`; the parser itself is not part of this model, so its
      result is the input here. */
  function StringToArray<T, U>(parsed: seq<Nested<T>>, cast: T -> U): (r: seq<Nested<U>>)
    ensures |r| == |parsed|
    ensures forall i :: 0 <= i < |parsed| ==> r[i] == TypeCastArray(cast, parsed[i])
    ensures ShapesOf(r) == ShapesOf(parsed)
    ensures LeavesOf(r) == MapSeq(cast, LeavesOf(parsed))
  {
    TypeCastItemsAt(cast, parsed);
    TypeCastItemsKeepShapes(cast, parsed);
    TypeCastItemsLeaves(cast, parsed);
    TypeCastItems(cast, parsed)
  }

  lemma {:induction false} TypeCastItemsAt<T, U>(cast: T -> U, vs: seq<Nested<T>>)
    ensures forall i :: 0 <= i < |vs| ==> TypeCastItems(cast, vs)[i] == TypeCastArray(cast, vs[i])
  {
    if vs != [] {
      TypeCastItemsAt(cast, vs[1..]);
    }
  }

  // ---------------------------------------------------------------------
  // Properties
  // ---------------------------------------------------------------------

  /** Casting keeps the nesting of the array exactly. */
  lemma {:induction false} TypeCastKeepsShape<T, U>(cast: T -> U, v: Nested<T>)
    ensures ShapeOf(TypeCastArray(cast, v)) == ShapeOf(v)
    decreases v, 1
  {
    match v
    case Leaf(_) =>
    case List(items) => TypeCastItemsKeepShapes(cast, items);
  }

  lemma {:induction false} TypeCastItemsKeepShapes<T, U>(cast: T -> U, vs: seq<Nested<T>>)
    ensures ShapesOf(TypeCastItems(cast, vs)) == ShapesOf(vs)
    decreases vs, 0
  {
    if vs != [] {
      TypeCastKeepsShape(cast, vs[0]);
      TypeCastItemsKeepShapes(cast, vs[1..]);
      assert TypeCastItems(cast, vs)[1..] == TypeCastItems(cast, vs[1..]);
    }
  }

  lemma MapSeqAppend<T, U>(f: T -> U, a: seq<T>, b: seq<T>)
    ensures MapSeq(f, a + b) == MapSeq(f, a) + MapSeq(f, b)
  {
  }

  /** The leaves of the result are the caster applied to each leaf, in order. */
  lemma {:induction false} TypeCastLeaves<T, U>(cast: T -> U, v: Nested<T>)
    ensures Leaves(TypeCastArray(cast, v)) == MapSeq(cast, Leaves(v))
    decreases v, 1
  {
    match v
    case Leaf(x) =>
    case List(items) => TypeCastItemsLeaves(cast, items);
  }

  lemma {:induction false} TypeCastItemsLeaves<T, U>(cast: T -> U, vs: seq<Nested<T>>)
    ensures LeavesOf(TypeCastItems(cast, vs)) == MapSeq(cast, LeavesOf(vs))
    decreases vs, 0
  {
    if vs != [] {
      TypeCastLeaves(cast, vs[0]);
      TypeCastItemsLeaves(cast, vs[1..]);
      assert TypeCastItems(cast, vs)[1..] == TypeCastItems(cast, vs[1..]);
      MapSeqAppend(cast, Leaves(vs[0]), LeavesOf(vs[1..]));
    }
  }

  /** The number of leaves is fixed by the shape. */
  lemma {:induction false} LeafCountOfShape<T>(v: Nested<T>)
    ensures |Leaves(v)| == LeafCount(ShapeOf(v))
    decreases v, 1
  {
    match v
    case Leaf(_) =>
    case List(items) => LeafCountsOfShapes(items);
  }

  lemma {:induction false} LeafCountsOfShapes<T>(vs: seq<Nested<T>>)
    ensures |LeavesOf(vs)| == LeafCounts(ShapesOf(vs))
    decreases vs, 0
  {
    if vs != [] {
      LeafCountOfShape(vs[0]);
      LeafCountsOfShapes(vs[1..]);
      assert ShapesOf(vs)[1..] == ShapesOf(vs[1..]);
    }
  }

  /** Shape and leaves together determine a nested array: casting loses
      nothing but what the caster itself loses. */
  lemma {:induction false} ShapeAndLeavesDetermine<T>(a: Nested<T>, b: Nested<T>)
    requires ShapeOf(a) == ShapeOf(b) && Leaves(a) == Leaves(b)
    ensures a == b
    decreases a, 1
  {
    match a
    case Leaf(x) =>
      assert b.Leaf? && Leaves(b) == [b.value];
    case List(items) =>
      ShapesAndLeavesDetermine(items, b.items);
  }

  lemma {:induction false} ShapesAndLeavesDetermine<T>(xs: seq<Nested<T>>, ys: seq<Nested<T>>)
    requires ShapesOf(xs) == ShapesOf(ys) && LeavesOf(xs) == LeavesOf(ys)
    ensures xs == ys
    decreases xs, 0
  {
    if xs != [] {
      assert ShapeOf(xs[0]) == ShapesOf(xs)[0] == ShapesOf(ys)[0] == ShapeOf(ys[0]);
      assert ShapesOf(xs[1..]) == ShapesOf(xs)[1..] == ShapesOf(ys)[1..] == ShapesOf(ys[1..]);
      LeafCountOfShape(xs[0]);
      LeafCountOfShape(ys[0]);
      var k := |Leaves(xs[0])|;
      assert Leaves(xs[0]) == LeavesOf(xs)[..k] == LeavesOf(ys)[..k] == Leaves(ys[0]);
      assert LeavesOf(xs[1..]) == LeavesOf(xs)[k..] == LeavesOf(ys)[k..] == LeavesOf(ys[1..]);
      ShapeAndLeavesDetermine(xs[0], ys[0]);
      ShapesAndLeavesDetermine(xs[1..], ys[1..]);
      assert xs == [xs[0]] + xs[1..];
      assert ys == [ys[0]] + ys[1..];
    }
  }

  /** A caster that changes nothing leaves the whole array unchanged. */
  lemma TypeCastIdentity<T>(cast: T -> T, v: Nested<T>)
    requires forall x :: cast(x) == x
    ensures TypeCastArray(cast, v) == v
  {
    TypeCastKeepsShape(cast, v);
    TypeCastLeaves(cast, v);
    assert MapSeq(cast, Leaves(v)) == Leaves(v);
    ShapeAndLeavesDetermine(TypeCastArray(cast, v), v);
  }
}
