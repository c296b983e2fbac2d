/** The generic k-d tree: built by splitting at the median on dimension
    depth % NDIM, and queried for the elements within a distance of a point.
    The element type is abstract, as the `NodeElement` trait leaves it: a
    number of dimensions, an order per dimension, a distance and a distance
    along one dimension. Distances are exact reals. */
module KdTrees {
  import opened Sorting

  /** The `NodeElement` operations of an element type T: `le(a, b, dim)` is
      `a.compare_on_dim(b, dim) != Greater`. */
  datatype Element<!T> = Element(ndim: nat, le: (T, T, nat) -> bool,
                                distance: (T, T) -> real, distanceOnDim: (T, T, nat) -> real)

  /** What `sort_by` needs of `compare_on_dim`: a total preorder on every
      dimension; and `depth % NDIM` needs NDIM > 0. */
  ghost predicate Valid<T(!new)>(e: Element<T>) {
    && e.ndim > 0
    && (forall x, d :: e.le(x, x, d))
    && (forall x, y, z, d :: e.le(x, y, d) && e.le(y, z, d) ==> e.le(x, z, d))
    && (forall x, y, d :: e.le(x, y, d) || e.le(y, x, d))
  }

  /** What the distances of points in space satisfy, as those of the
      `[f64; D]` instance do: the distance along a dimension is at most the
      distance, and it grows the further an element lies beyond a split
      value on the far side from p. */
  ghost predicate Metric<T(!new)>(e: Element<T>) {
    && (forall p, x, d :: e.distanceOnDim(p, x, d) <= e.distance(x, p))
    && (forall p, n, x, d | e.le(x, n, d) && e.le(n, p, d) :: e.distanceOnDim(p, n, d) <= e.distanceOnDim(p, x, d))
    && (forall p, n, x, d | e.le(n, x, d) && e.le(p, n, d) :: e.distanceOnDim(p, n, d) <= e.distanceOnDim(p, x, d))
  }

  /** A subtree: `None` or a node with its element and two subtrees. */
  datatype Tree<T> = Empty | Node(data: T, left: Tree<T>, right: Tree<T>)

  function Elements<T>(t: Tree<T>): multiset<T> {
    match t
    case Empty => multiset{}
    case Node(d, l, r) => multiset{d} + Elements(l) + Elements(r)
  }

  function Size<T>(t: Tree<T>): nat {
    match t
    case Empty => 0
    case Node(_, l, r) => 1 + Size(l) + Size(r)
  }

  lemma {:induction false} SizeElements<T>(t: Tree<T>)
    ensures |Elements(t)| == Size(t)
  {
    if t.Node? {
      SizeElements(t.left);
      SizeElements(t.right);
    }
  }

  /** The k-d property at the given depth: at every node, the elements on
      the left compare at most, and those on the right at least, the node's
      element on dimension depth % NDIM. */
  ghost predicate KdOrdered<T>(e: Element<T>, t: Tree<T>, depth: nat)
    requires e.ndim > 0
  {
    match t
    case Empty => true
    case Node(d, l, r) =>
      var dim := depth % e.ndim;
      && (forall x | x in Elements(l) :: e.le(x, d, dim))
      && (forall x | x in Elements(r) :: e.le(d, x, dim))
      && KdOrdered(e, l, depth + 1)
      && KdOrdered(e, r, depth + 1)
  }

  /** Every node splits its elements at the median: with n of them, n / 2
      on the left and n - n / 2 - 1 on the right. */
  ghost predicate MedianSplit<T>(t: Tree<T>) {
    match t
    case Empty => true
    case Node(_, l, r) =>
      && Size(l) == Size(t) / 2 && Size(r) == Size(t) - Size(t) / 2 - 1
      && MedianSplit(l) && MedianSplit(r)
  }

  // ---------------------------------------------------------------------
  // Building

  /** `0..n`. */
  function Range(n: nat): (r: seq<nat>)
    ensures |r| == n && forall i | 0 <= i < n :: r[i] == i
  {
    seq(n, i requires 0 <= i < n => i)
  }

  /** The elements at the given indices: `.map(|&idx| data[idx].clone())`. */
  function Pick<T>(data: seq<T>, idx: seq<nat>): (r: seq<T>)
    requires forall k | 0 <= k < |idx| :: idx[k] < |data|
    ensures |r| == |idx|
  {
    seq(|idx|, k requires 0 <= k < |idx| => data[idx[k]])
  }

  lemma PickConcat<T>(data: seq<T>, a: seq<nat>, b: seq<nat>)
    requires forall k | 0 <= k < |a| :: a[k] < |data|
    requires forall k | 0 <= k < |b| :: b[k] < |data|
    ensures Pick(data, a + b) == Pick(data, a) + Pick(data, b)
  {
  }

  /** Picking by indices that are a rearrangement of one another picks a
      rearrangement of the same elements. */
  lemma {:induction false} PickPermutation<T>(data: seq<T>, a: seq<nat>, b: seq<nat>)
    requires multiset(a) == multiset(b)
    requires forall k | 0 <= k < |a| :: a[k] < |data|
    ensures forall k | 0 <= k < |b| :: b[k] < |data|
    ensures multiset(Pick(data, a)) == multiset(Pick(data, b))
    decreases |a|
  {
    SameBounds(data, a, b);
    if a != [] {
      var x := a[0];
      assert x in multiset(b);
      var j :| 0 <= j < |b| && b[j] == x;
      var b1, b2 := b[..j], b[j + 1..];
      Removed(a, b, j);
      PickPermutation(data, a[1..], b1 + b2);
      PickMoved(data, x, a[1..], b1, b2);
      assert b == b1 + [x] + b2;
      assert a == [x] + a[1..];
    }
  }

  /** Rearranged indices are in range when the originals are. */
  lemma SameBounds<T>(data: seq<T>, a: seq<nat>, b: seq<nat>)
    requires multiset(a) == multiset(b)
    requires forall k | 0 <= k < |a| :: a[k] < |data|
    ensures forall k | 0 <= k < |b| :: b[k] < |data|
  {
    forall k | 0 <= k < |b| ensures b[k] < |data| {
      assert b[k] in multiset(a);
    }
  }

  /** Taking the first of a and the same value from b leaves rearrangements. */
  lemma Removed(a: seq<nat>, b: seq<nat>, j: nat)
    requires multiset(a) == multiset(b) && a != [] && j < |b| && b[j] == a[0]
    ensures multiset(a[1..]) == multiset(b[..j] + b[j + 1..])
  {
    var x, b1, b2 := a[0], b[..j], b[j + 1..];
    assert b == b1 + [x] + b2;
    assert a == [x] + a[1..];
    assert multiset(a[1..]) == multiset(a) - multiset{x};
    assert multiset(b1 + b2) == multiset(b) - multiset{x};
  }

  /** Moving one index from the front to the middle moves its element. */
  lemma PickMoved<T>(data: seq<T>, x: nat, rest: seq<nat>, b1: seq<nat>, b2: seq<nat>)
    requires x < |data|
    requires forall k | 0 <= k < |rest| :: rest[k] < |data|
    requires forall k | 0 <= k < |b1| :: b1[k] < |data|
    requires forall k | 0 <= k < |b2| :: b2[k] < |data|
    requires multiset(Pick(data, rest)) == multiset(Pick(data, b1 + b2))
    ensures multiset(Pick(data, [x] + rest)) == multiset(Pick(data, b1 + [x] + b2))
  {
    var p1, p2 := Pick(data, b1), Pick(data, b2);
    PickConcat(data, [x], rest);
    PickConcat(data, b1, b2);
    PickConcat(data, b1 + [x], b2);
    PickConcat(data, b1, [x]);
    calc {
      multiset(Pick(data, [x] + rest));
      multiset{data[x]} + multiset(Pick(data, rest));
      multiset{data[x]} + multiset(p1 + p2);
      multiset(p1 + [data[x]] + p2);
    }
  }

  /** The element a sort over indices compares: data[i], or data[0] where
      i is out of range (to make the order total on all of nat). */
  function Elem<T>(data: seq<T>, i: nat): T
    requires |data| > 0
  {
    if i < |data| then data[i] else data[0]
  }

  /** Comparing indices by their elements, ties going to the smaller
      index, is a total preorder. */
  lemma ByElementTotal<T(!new)>(e: Element<T>, data: seq<T>, dim: nat)
    requires Valid(e) && |data| > 0
    ensures TotalPreorder((a: nat, b: nat) =>
      e.le(Elem(data, a), Elem(data, b), dim) && (e.le(Elem(data, b), Elem(data, a), dim) ==> a <= b))
  {
    var le := (a: nat, b: nat) =>
      e.le(Elem(data, a), Elem(data, b), dim) && (e.le(Elem(data, b), Elem(data, a), dim) ==> a <= b);
    forall x: nat ensures le(x, x) {
      assert e.le(Elem(data, x), Elem(data, x), dim);
    }
    forall x: nat, y: nat, z: nat | le(x, y) && le(y, z) ensures le(x, z) {
      var a, b, c := Elem(data, x), Elem(data, y), Elem(data, z);
      assert e.le(a, b, dim) && e.le(b, c, dim);
      assert e.le(a, c, dim);
      if e.le(c, a, dim) {
        assert e.le(b, a, dim) && e.le(c, b, dim);
      }
    }
    forall x: nat, y: nat ensures le(x, y) || le(y, x) {
      var a, b := Elem(data, x), Elem(data, y);
      assert e.le(a, b, dim) || e.le(b, a, dim);
    }
  }

  /** 0..n holds every number at most once. */
  lemma RangeCount(n: nat)
    ensures forall v :: multiset(Range(n))[v] <= 1
  {
    if n > 0 {
      RangeCount(n - 1);
      assert Range(n) == Range(n - 1) + [n - 1];
      assert n - 1 !in Range(n - 1);
    }
  }

  /** A permutation of 0..n has no repeated entry. */
  lemma PermutationDistinct(s: seq<nat>, n: nat)
    requires multiset(s) == multiset(Range(n))
    ensures forall i, j | 0 <= i < j < |s| :: s[i] != s[j]
  {
    RangeCount(n);
    forall i, j | 0 <= i < j < |s| ensures s[i] != s[j] {
      var v := s[i];
      assert s == s[..j] + s[j..];
      assert s[..j][i] == v;
      assert s[j..] == [s[j]] + s[j + 1..];
      assert multiset(s[j..])[v] >= (if s[j] == v then 1 else 0);
      assert multiset(s)[v] == multiset(s[..j])[v] + multiset(s[j..])[v];
    }
  }

  /** `compute_sortidx`: the indices `0..len` sorted in place by their
      elements on dimension dim. `sort_by` is stable and the indices start
      in increasing order, so the order it produces is the sort by element
      with ties going to the smaller index, which is the comparison given to
      the sort here. */
  method ComputeSortIdx<T(!new)>(e: Element<T>, data: seq<T>, dim: nat) returns (indices: seq<nat>)
    requires Valid(e)
    ensures |indices| == |data| && multiset(indices) == multiset(Range(|data|))
    ensures forall k | 0 <= k < |indices| :: indices[k] < |data|
    ensures forall i, j | 0 <= i < j < |indices| :: e.le(data[indices[i]], data[indices[j]], dim)
    ensures forall i, j | 0 <= i < j < |indices| && e.le(data[indices[j]], data[indices[i]], dim) ::
      indices[i] < indices[j]
  {
    if |data| == 0 {
      return [];
    }
    var a := new nat[|data|](i requires 0 <= i < |data| => i);
    assert a[..] == Range(|data|);
    var cmp := (x: nat, y: nat) =>
      e.le(Elem(data, x), Elem(data, y), dim) && (e.le(Elem(data, y), Elem(data, x), dim) ==> x <= y);
    ByElementTotal(e, data, dim);
    SortBy(a, cmp);
    indices := a[..];
    forall k | 0 <= k < |indices| ensures indices[k] < |data| {
      assert indices[k] in multiset(Range(|data|));
    }
    PermutationDistinct(indices, |data|);
    forall i, j | 0 <= i < j < |indices|
      ensures e.le(data[indices[i]], data[indices[j]], dim)
      ensures e.le(data[indices[j]], data[indices[i]], dim) ==> indices[i] < indices[j]
    {
      assert cmp(indices[i], indices[j]);
      assert Elem(data, indices[i]) == data[indices[i]] && Elem(data, indices[j]) == data[indices[j]];
    }
  }

  /** `create_node`: None for no data; otherwise the element at the median
      of the order on dimension depth % NDIM, with subtrees built from the
      elements before and after it in that order. */
  method CreateNode<T(!new)>(e: Element<T>, data: seq<T>, depth: nat) returns (t: Tree<T>)
    requires Valid(e)
    ensures t.Empty? <==> data == []
    ensures Elements(t) == multiset(data)
    ensures KdOrdered(e, t, depth)
    ensures MedianSplit(t)
    decreases |data|
  {
    if |data| == 0 {
      return Empty;
    }
    var dim := depth % e.ndim;
    var indices := ComputeSortIdx(e, data, dim);
    var medianIdx := |data| / 2;
    var median := indices[medianIdx];
    var left, right := Empty, Empty;
    var lo, hi := indices[..medianIdx], indices[medianIdx + 1..];
    if medianIdx > 0 {
      var leftData := Pick(data, lo);
      left := CreateNode(e, leftData, depth + 1);
    }
    if medianIdx < |data| - 1 {
      var rightData := Pick(data, hi);
      right := CreateNode(e, rightData, depth + 1);
    }
    t := Node(data[median], left, right);
    Built(e, data, depth, indices, t);
  }

  /** The node CreateNode assembles from the sorted indices and the subtrees
      built from either side of the median has every property it promises. */
  lemma Built<T>(e: Element<T>, data: seq<T>, depth: nat, indices: seq<nat>, t: Tree<T>)
    requires e.ndim > 0 && |data| > 0 && |indices| == |data| && multiset(indices) == multiset(Range(|data|))
    requires forall k | 0 <= k < |indices| :: indices[k] < |data|
    requires forall i, j | 0 <= i < j < |indices| :: e.le(data[indices[i]], data[indices[j]], depth % e.ndim)
    requires t.Node? && t.data == data[indices[|data| / 2]]
    requires Elements(t.left) == multiset(Pick(data, indices[..|data| / 2]))
    requires Elements(t.right) == multiset(Pick(data, indices[|data| / 2 + 1..]))
    requires KdOrdered(e, t.left, depth + 1) && KdOrdered(e, t.right, depth + 1)
    requires MedianSplit(t.left) && MedianSplit(t.right)
    ensures Elements(t) == multiset(data)
    ensures KdOrdered(e, t, depth)
    ensures MedianSplit(t)
  {
    BuiltElements(data, indices, t);
    BuiltSides(e, data, depth % e.ndim, indices, t);
    KdNode(e, t, depth);
    BuiltSplit(data, indices, t);
  }

  /** Picking by a rearrangement of `0..len` picks a rearrangement of the
      data. */
  lemma PickAll<T>(data: seq<T>, indices: seq<nat>)
    requires multiset(indices) == multiset(Range(|data|))
    requires forall k | 0 <= k < |indices| :: indices[k] < |data|
    ensures multiset(Pick(data, indices)) == multiset(data)
  {
    PickPermutation(data, indices, Range(|data|));
    assert Pick(data, Range(|data|)) == data;
  }

  /** The picked elements are those before position m, the one at m and
      those after it. */
  lemma PickAround<T>(data: seq<T>, indices: seq<nat>, m: nat)
    requires m < |indices| && forall k | 0 <= k < |indices| :: indices[k] < |data|
    ensures multiset(Pick(data, indices))
         == multiset(Pick(data, indices[..m])) + multiset{data[indices[m]]} + multiset(Pick(data, indices[m + 1..]))
  {
    var lo, hi := indices[..m], indices[m + 1..];
    assert indices == lo + [indices[m]] + hi;
    PickConcat(data, lo + [indices[m]], hi);
    PickConcat(data, lo, [indices[m]]);
  }

  /** In an order of the indices sorted by their elements, the elements
      before position m compare at most, and those after it at least, the
      element at m. */
  lemma PickSides<T>(e: Element<T>, data: seq<T>, indices: seq<nat>, m: nat, dim: nat)
    requires m < |indices| && forall k | 0 <= k < |indices| :: indices[k] < |data|
    requires forall i, j | 0 <= i < j < |indices| :: e.le(data[indices[i]], data[indices[j]], dim)
    ensures forall x | x in multiset(Pick(data, indices[..m])) :: e.le(x, data[indices[m]], dim)
    ensures forall x | x in multiset(Pick(data, indices[m + 1..])) :: e.le(data[indices[m]], x, dim)
  {
    var lo, hi := indices[..m], indices[m + 1..];
    forall x | x in multiset(Pick(data, lo)) ensures e.le(x, data[indices[m]], dim) {
      var k :| 0 <= k < |lo| && Pick(data, lo)[k] == x;
      assert x == data[indices[k]];
    }
    forall x | x in multiset(Pick(data, hi)) ensures e.le(data[indices[m]], x, dim) {
      var k :| 0 <= k < |hi| && Pick(data, hi)[k] == x;
      assert x == data[indices[m + 1 + k]];
    }
  }

  /** The node CreateNode assembles holds all the data. */
  lemma BuiltElements<T>(data: seq<T>, indices: seq<nat>, t: Tree<T>)
    requires |data| > 0 && |indices| == |data| && multiset(indices) == multiset(Range(|data|))
    requires forall k | 0 <= k < |indices| :: indices[k] < |data|
    requires t.Node? && t.data == data[indices[|data| / 2]]
    requires Elements(t.left) == multiset(Pick(data, indices[..|data| / 2]))
    requires Elements(t.right) == multiset(Pick(data, indices[|data| / 2 + 1..]))
    ensures Elements(t) == multiset(data)
  {
    PickAll(data, indices);
    PickAround(data, indices, |data| / 2);
  }

  /** The subtrees CreateNode assembles lie on either side of its median
      on the dimension the indices are sorted by. */
  lemma BuiltSides<T>(e: Element<T>, data: seq<T>, dim: nat, indices: seq<nat>, t: Tree<T>)
    requires |data| > 0 && |indices| == |data|
    requires forall k | 0 <= k < |indices| :: indices[k] < |data|
    requires forall i, j | 0 <= i < j < |indices| :: e.le(data[indices[i]], data[indices[j]], dim)
    requires t.Node? && t.data == data[indices[|data| / 2]]
    requires Elements(t.left) == multiset(Pick(data, indices[..|data| / 2]))
    requires Elements(t.right) == multiset(Pick(data, indices[|data| / 2 + 1..]))
    ensures forall x | x in Elements(t.left) :: e.le(x, t.data, dim)
    ensures forall x | x in Elements(t.right) :: e.le(t.data, x, dim)
  {
    PickSides(e, data, indices, |data| / 2, dim);
  }

  /** A node is k-d ordered when its sides lie on either side of it and are
      themselves ordered one level deeper. */
  lemma KdNode<T>(e: Element<T>, t: Tree<T>, depth: nat)
    requires e.ndim > 0 && t.Node?
    requires forall x | x in Elements(t.left) :: e.le(x, t.data, depth % e.ndim)
    requires forall x | x in Elements(t.right) :: e.le(t.data, x, depth % e.ndim)
    requires KdOrdered(e, t.left, depth + 1) && KdOrdered(e, t.right, depth + 1)
    ensures KdOrdered(e, t, depth)
  {
  }

  /** The node CreateNode assembles splits at the median. */
  lemma BuiltSplit<T>(data: seq<T>, indices: seq<nat>, t: Tree<T>)
    requires |data| > 0 && |indices| == |data|
    requires forall k | 0 <= k < |indices| :: indices[k] < |data|
    requires t.Node?
    requires Elements(t.left) == multiset(Pick(data, indices[..|data| / 2]))
    requires Elements(t.right) == multiset(Pick(data, indices[|data| / 2 + 1..]))
    requires MedianSplit(t.left) && MedianSplit(t.right)
    ensures MedianSplit(t)
  {
    SizeElements(t.left);
    SizeElements(t.right);
    assert Size(t) == |data|;
  }

  /** `create_from_vector`: the tree over all the data, from depth 0. */
  method CreateFromVector<T(!new)>(e: Element<T>, data: seq<T>) returns (root: Tree<T>)
    requires Valid(e)
    ensures Elements(root) == multiset(data)
    ensures KdOrdered(e, root, 0) && MedianSplit(root)
  {
    root := CreateNode(e, data, 0);
  }

  // ---------------------------------------------------------------------
  // Range queries

  /** The elements `points_in_range_recursive` pushes, in order, as
      written: the node's element when within range, then the left and the
      right subtree, each entered only when the distance from the point to
      the child's own element along dimension depth % NDIM is within
      range. */
  function FoundAsWritten<T>(e: Element<T>, t: Tree<T>, point: T, range: real, depth: nat): seq<T>
    requires e.ndim > 0
  {
    match t
    case Empty => []
    case Node(d, l, r) =>
      var dim := depth % e.ndim;
      (if e.distance(d, point) <= range then [d] else [])
      + (if l.Node? && e.distanceOnDim(point, l.data, dim) <= range
         then FoundAsWritten(e, l, point, range, depth + 1) else [])
      + (if r.Node? && e.distanceOnDim(point, r.data, dim) <= range
         then FoundAsWritten(e, r, point, range, depth + 1) else [])
  }

  /** The search with the pruning the k-d property supports: a side is
      entered when the point lies on it or is within range of the node's
      own element along dimension depth % NDIM. */
  function Found<T>(e: Element<T>, t: Tree<T>, point: T, range: real, depth: nat): seq<T>
    requires e.ndim > 0
  {
    match t
    case Empty => []
    case Node(d, l, r) =>
      var dim := depth % e.ndim;
      var near := e.distanceOnDim(point, d, dim) <= range;
      (if e.distance(d, point) <= range then [d] else [])
      + (if e.le(point, d, dim) || near then Found(e, l, point, range, depth + 1) else [])
      + (if e.le(d, point, dim) || near then Found(e, r, point, range, depth + 1) else [])
  }

  /** Everything the written search returns is an element of the tree
      within range of the point. */
  lemma {:induction false} FoundAsWrittenSound<T>(e: Element<T>, t: Tree<T>, point: T, range: real, depth: nat)
    requires e.ndim > 0
    ensures forall x | x in FoundAsWritten(e, t, point, range, depth) :: x in Elements(t) && e.distance(x, point) <= range
  {
    if t.Node? {
      FoundAsWrittenSound(e, t.left, point, range, depth + 1);
      FoundAsWrittenSound(e, t.right, point, range, depth + 1);
    }
  }

  /** Everything the search returns is an element of the tree within range
      of the point. */
  lemma {:induction false} FoundSound<T>(e: Element<T>, t: Tree<T>, point: T, range: real, depth: nat)
    requires e.ndim > 0
    ensures forall x | x in Found(e, t, point, range, depth) :: x in Elements(t) && e.distance(x, point) <= range
  {
    if t.Node? {
      FoundSound(e, t.left, point, range, depth + 1);
      FoundSound(e, t.right, point, range, depth + 1);
    }
  }

  /** An element on the far side of the split value n from p is at least
      as far from p as n is along that dimension. */
  lemma Beyond<T(!new)>(e: Element<T>, p: T, n: T, x: T, d: nat)
    requires Valid(e) && Metric(e)
    requires (e.le(x, n, d) && !e.le(p, n, d)) || (e.le(n, x, d) && !e.le(n, p, d))
    ensures e.distanceOnDim(p, n, d) <= e.distance(x, p)
  {
    assert e.le(n, p, d) || e.le(p, n, d);
    assert e.distanceOnDim(p, n, d) <= e.distanceOnDim(p, x, d);
  }

  /** One step of the search: the node's own element, then what is found
      on the sides entered. */
  lemma FoundNode<T>(e: Element<T>, t: Tree<T>, point: T, range: real, depth: nat, near: bool)
    requires e.ndim > 0 && t.Node?
    requires near == (e.distanceOnDim(point, t.data, depth % e.ndim) <= range)
    ensures Found(e, t, point, range, depth)
      == (if e.distance(t.data, point) <= range then [t.data] else [])
         + (if e.le(point, t.data, depth % e.ndim) || near then Found(e, t.left, point, range, depth + 1) else [])
         + (if e.le(t.data, point, depth % e.ndim) || near then Found(e, t.right, point, range, depth + 1) else [])
  {
  }

  /** On a k-d ordered tree the search returns every element within range
      of the point. */
  lemma {:induction false} FoundComplete<T(!new)>(e: Element<T>, t: Tree<T>, point: T, range: real, depth: nat)
    requires Valid(e) && Metric(e) && KdOrdered(e, t, depth)
    ensures forall x | x in Elements(t) && e.distance(x, point) <= range :: x in Found(e, t, point, range, depth)
  {
    if t.Node? {
      var d, l, r, dim := t.data, t.left, t.right, depth % e.ndim;
      FoundComplete(e, l, point, range, depth + 1);
      FoundComplete(e, r, point, range, depth + 1);
      var near := e.distanceOnDim(point, d, dim) <= range;
      var own := if e.distance(d, point) <= range then [d] else [];
      var fl := if e.le(point, d, dim) || near then Found(e, l, point, range, depth + 1) else [];
      var fr := if e.le(d, point, dim) || near then Found(e, r, point, range, depth + 1) else [];
      FoundNode(e, t, point, range, depth, near);
      forall x | x in Elements(t) && e.distance(x, point) <= range
        ensures x in own + fl + fr
      {
        if x == d {
          assert x in own;
        } else if x in Elements(l) {
          if !e.le(point, d, dim) {
            Beyond(e, point, d, x, dim);
          }
          assert x in fl;
        } else {
          assert x in Elements(r);
          if !e.le(d, point, dim) {
            Beyond(e, point, d, x, dim);
          }
          assert x in fr;
        }
      }
    }
  }

  /** s holds each element of m within range of the point as many times
      as m does, and nothing else. */
  ghost predicate InRangeCounts<T(!new)>(e: Element<T>, s: seq<T>, m: multiset<T>, point: T, range: real) {
    forall x :: multiset(s)[x] == (if e.distance(x, point) <= range then m[x] else 0)
  }

  /** A side the search skips has no element within range. */
  lemma Skipped<T(!new)>(e: Element<T>, d: T, l: Tree<T>, point: T, range: real, dim: nat, left: bool)
    requires Valid(e) && Metric(e) && range < e.distanceOnDim(point, d, dim)
    requires left ==> !e.le(point, d, dim) && forall x | x in Elements(l) :: e.le(x, d, dim)
    requires !left ==> !e.le(d, point, dim) && forall x | x in Elements(l) :: e.le(d, x, dim)
    ensures InRangeCounts(e, [], Elements(l), point, range)
  {
    forall x ensures 0 == (if e.distance(x, point) <= range then Elements(l)[x] else 0) {
      if x in Elements(l) {
        Beyond(e, point, d, x, dim);
      }
    }
  }

  /** On a k-d ordered tree the search returns each element within range
      of the point as many times as the tree holds it, and nothing else. */
  lemma {:induction false} FoundCounts<T(!new)>(e: Element<T>, t: Tree<T>, point: T, range: real, depth: nat)
    requires Valid(e) && Metric(e) && KdOrdered(e, t, depth)
    ensures InRangeCounts(e, Found(e, t, point, range, depth), Elements(t), point, range)
  {
    if t.Node? {
      var d, l, r, dim := t.data, t.left, t.right, depth % e.ndim;
      var near := e.distanceOnDim(point, d, dim) <= range;
      var own := if e.distance(d, point) <= range then [d] else [];
      var fl := if e.le(point, d, dim) || near then Found(e, l, point, range, depth + 1) else [];
      var fr := if e.le(d, point, dim) || near then Found(e, r, point, range, depth + 1) else [];
      if e.le(point, d, dim) || near {
        FoundCounts(e, l, point, range, depth + 1);
      } else {
        Skipped(e, d, l, point, range, dim, true);
      }
      if e.le(d, point, dim) || near {
        FoundCounts(e, r, point, range, depth + 1);
      } else {
        Skipped(e, d, r, point, range, dim, false);
      }
      FoundNode(e, t, point, range, depth, near);
      CountsJoin(e, d, own, fl, fr, Elements(l), Elements(r), point, range);
    }
  }

  /** A node's count: its own element when within range, and the counts
      of the two sides. */
  lemma CountsJoin<T(!new)>(e: Element<T>, d: T, own: seq<T>, fl: seq<T>, fr: seq<T>,
                            ml: multiset<T>, mr: multiset<T>, point: T, range: real)
    requires own == if e.distance(d, point) <= range then [d] else []
    requires InRangeCounts(e, fl, ml, point, range) && InRangeCounts(e, fr, mr, point, range)
    ensures InRangeCounts(e, own + fl + fr, multiset{d} + ml + mr, point, range)
  {
    forall x ensures multiset(own + fl + fr)[x] == (if e.distance(x, point) <= range then (multiset{d} + ml + mr)[x] else 0) {
      assert multiset(own + fl + fr) == multiset(own) + multiset(fl) + multiset(fr);
      assert multiset(own)[x] == (if e.distance(x, point) <= range then multiset{d}[x] else 0);
    }
  }

  /** The search on no tree finds nothing. */
  lemma FoundEmpty<T>(e: Element<T>, point: T, range: real)
    requires e.ndim > 0
    ensures Found(e, Empty, point, range, 0) == [] && FoundAsWritten(e, Empty, point, range, 0) == []
  {
  }

  /** `points_in_range_recursive`: pushes onto `result` the elements the
      search finds in the subtree. */
  method PointsInRangeRecursive<T>(e: Element<T>, t: Tree<T>, point: T, range: real, depth: nat, result: seq<T>)
    returns (r: seq<T>)
    requires e.ndim > 0 && t.Node?
    ensures r == result + Found(e, t, point, range, depth)
    decreases t
  {
    var dim := depth % e.ndim;
    var dist := e.distance(t.data, point);
    var near := e.distanceOnDim(point, t.data, dim) <= range;
    ghost var own := if dist <= range then [t.data] else [];
    ghost var fl := if e.le(point, t.data, dim) || near then Found(e, t.left, point, range, depth + 1) else [];
    ghost var fr := if e.le(t.data, point, dim) || near then Found(e, t.right, point, range, depth + 1) else [];
    FoundNode(e, t, point, range, depth, near);
    r := result;
    if dist <= range {
      r := r + [t.data];
    }
    assert r == result + own;
    if t.left.Node? && (e.le(point, t.data, dim) || near) {
      r := PointsInRangeRecursive(e, t.left, point, range, depth + 1, r);
    }
    assert r == result + own + fl;
    if t.right.Node? && (e.le(t.data, point, dim) || near) {
      r := PointsInRangeRecursive(e, t.right, point, range, depth + 1, r);
    }
    assert r == result + own + fl + fr;
    Appended(result, own, fl, fr);
  }

  lemma Appended<T>(a: seq<T>, b: seq<T>, c: seq<T>, d: seq<T>)
    ensures a + b + c + d == a + (b + c + d)
  {
  }

  /** `points_in_range`: the elements of the tree within range of the
      point; none for an empty tree. */
  method PointsInRange<T>(e: Element<T>, root: Tree<T>, point: T, range: real) returns (result: seq<T>)
    requires e.ndim > 0
    ensures result == Found(e, root, point, range, 0)
  {
    result := [];
    if root.Node? {
      result := PointsInRangeRecursive(e, root, point, range, 0, result);
    }
  }

  // ---------------------------------------------------------------------
  // The written pruning misses elements

  function Abs(x: real): real {
    if x < 0.0 then -x else x
  }

  function LineLe(a: real, b: real, d: nat): bool {
    a <= b
  }

  function LineDistance(a: real, b: real): real {
    Abs(a - b)
  }

  function LineDistanceOnDim(a: real, b: real, d: nat): real {
    Abs(a - b)
  }

  /** Points on a line: one dimension, the usual order and distance. */
  function Line(): Element<real> {
    Element(1, LineLe, LineDistance, LineDistanceOnDim)
  }

  /** Points on a line meet what building and searching assume. */
  lemma LineValid()
    ensures Valid(Line()) && Metric(Line())
  {
  }

  /** The tree `create_from_vector` builds from [0, 3, 4, 10]: 4 at the
      median, 3 over [0] on its left, 10 on its right. CreateFromVector
      returns a median-split k-d tree of its data, and LineTreeForced shows
      this is the only one. */
  function LineTree(): Tree<real> {
    Node(4.0, Node(3.0, Node(0.0, Empty, Empty), Empty), Node(10.0, Empty, Empty))
  }

  /** LineTree holds [0, 3, 4, 10]. */
  lemma LineTreeElements()
    ensures Elements(LineTree()) == multiset{0.0, 3.0, 4.0, 10.0}
  {
    assert Elements(Node(3.0, Node(0.0, Empty, Empty), Empty)) == multiset{3.0, 0.0};
  }

  /** A single element is a k-d tree at any depth. */
  lemma KdLeaf<T>(e: Element<T>, x: T, depth: nat)
    requires e.ndim > 0
    ensures KdOrdered(e, Node(x, Empty, Empty), depth)
  {
    KdNode(e, Node(x, Empty, Empty), depth);
  }

  /** The left subtree of LineTree, 3 over [0], is a k-d tree at depth 1. */
  lemma LineLeftOrdered()
    ensures KdOrdered(Line(), Node(3.0, Node(0.0, Empty, Empty), Empty), 1)
  {
    var ll := Node(0.0, Empty, Empty);
    KdLeaf(Line(), 0.0, 2);
    assert Elements(ll) == multiset{0.0};
    KdNode(Line(), Node(3.0, ll, Empty), 1);
  }

  /** LineTree is a k-d tree. */
  lemma LineTreeOrdered()
    ensures KdOrdered(Line(), LineTree(), 0)
  {
    var l := Node(3.0, Node(0.0, Empty, Empty), Empty);
    LineLeftOrdered();
    KdLeaf(Line(), 10.0, 1);
    assert Elements(l) == multiset{3.0, 0.0} && Elements(Node(10.0, Empty, Empty)) == multiset{10.0};
    KdNode(Line(), LineTree(), 0);
  }

  /** LineTree is split at the medians. */
  lemma LineTreeSplit()
    ensures MedianSplit(LineTree())
  {
    var l := Node(3.0, Node(0.0, Empty, Empty), Empty);
    assert MedianSplit(l);
  }

  /** A median-split tree of four elements has LineTree's shape. */
  lemma FourShape<T>(t: Tree<T>)
    requires Size(t) == 4 && MedianSplit(t)
    ensures t.Node? && t.left.Node? && t.left.left.Node? && t.right.Node?
    ensures t.left.right == Empty && t.right.left == Empty && t.right.right == Empty
    ensures t.left.left.left == Empty && t.left.left.right == Empty
  {
    assert Size(t.left) == 2 && Size(t.right) == 1;
    assert Size(t.left.left) == 1;
  }

  /** Four ordered values that are 0, 3, 4 and 10 in some order are those
      in increasing order. */
  lemma FourValues(b: real, a: real, d: real, c: real)
    requires multiset{d} + multiset{a} + multiset{b} + multiset{c} == multiset{0.0, 3.0, 4.0, 10.0}
    requires b <= a <= d <= c
    ensures b == 0.0 && a == 3.0 && d == 4.0 && c == 10.0
  {
    var m := multiset{0.0, 3.0, 4.0, 10.0};
    var n := multiset{d} + multiset{a} + multiset{b} + multiset{c};
    assert d in m && a in m && b in m && c in m;
    assert 0.0 in n && 3.0 in n && 4.0 in n && 10.0 in n;
  }

  /** The elements of a tree of LineTree's shape. */
  lemma FourElements<T>(t: Tree<T>)
    requires t.Node? && t.left.Node? && t.left.left.Node? && t.right.Node?
    requires t.left.right == Empty && t.right.left == Empty && t.right.right == Empty
    requires t.left.left.left == Empty && t.left.left.right == Empty
    ensures Elements(t) == multiset{t.data} + multiset{t.left.data} + multiset{t.left.left.data} + multiset{t.right.data}
    ensures Elements(t.left) == multiset{t.left.data} + multiset{t.left.left.data}
    ensures Elements(t.right) == multiset{t.right.data}
  {
    var l, r := t.left, t.right;
    assert Elements(l.left) == multiset{l.left.data} + multiset{} + multiset{};
    assert Elements(l) == multiset{l.data} + Elements(l.left) + multiset{};
    assert Elements(r) == multiset{r.data} + multiset{} + multiset{};
  }

  /** On a line, a k-d tree of LineTree's shape is ordered left to right. */
  lemma FourOrdered(t: Tree<real>)
    requires t.Node? && t.left.Node? && t.left.left.Node? && t.right.Node?
    requires t.left.right == Empty && t.right.left == Empty && t.right.right == Empty
    requires t.left.left.left == Empty && t.left.left.right == Empty
    requires KdOrdered(Line(), t, 0)
    ensures t.left.left.data <= t.left.data <= t.data <= t.right.data
  {
    FourElements(t);
    assert t.left.data in Elements(t.left) && t.right.data in Elements(t.right);
    assert KdOrdered(Line(), t.left, 1);
    assert t.left.left.data in Elements(t.left.left);
  }

  /** LineTree is the only median-split k-d tree holding [0, 3, 4, 10]. */
  lemma LineTreeForced(t: Tree<real>)
    requires Elements(t) == multiset{0.0, 3.0, 4.0, 10.0}
    requires KdOrdered(Line(), t, 0) && MedianSplit(t)
    ensures t == LineTree()
  {
    SizeElements(t);
    FourShape(t);
    FourElements(t);
    FourOrdered(t);
    FourValues(t.left.left.data, t.left.data, t.data, t.right.data);
  }

  /** The written search for the points within 1 of 0 misses the element 0
      itself, because the left child 3 is more than 1 away. */
  lemma FoundAsWrittenMisses()
    ensures 0.0 in Elements(LineTree()) && LineDistance(0.0, 0.0) <= 1.0
    ensures FoundAsWritten(Line(), LineTree(), 0.0, 1.0, 0) == []
  {
    var e := Line();
    assert e.distance(4.0, 0.0) == 4.0;
    assert e.distanceOnDim(0.0, 3.0, 0) == 3.0 && e.distanceOnDim(0.0, 10.0, 0) == 10.0;
  }

  /** The corrected search finds it. */
  lemma FoundFinds()
    ensures Found(Line(), LineTree(), 0.0, 1.0, 0) == [0.0]
  {
    var e := Line();
    var ll := Node(0.0, Empty, Empty);
    var l := Node(3.0, ll, Empty);
    FoundNode(e, ll, 0.0, 1.0, 2, true);
    assert Found(e, ll, 0.0, 1.0, 2) == [0.0];
    assert e.le(0.0, 3.0, 0) && !e.le(3.0, 0.0, 0) && e.distance(3.0, 0.0) == 3.0;
    FoundNode(e, l, 0.0, 1.0, 1, false);
    assert Found(e, l, 0.0, 1.0, 1) == [0.0];
    assert e.le(0.0, 4.0, 0) && !e.le(4.0, 0.0, 0) && e.distance(4.0, 0.0) == 4.0;
    FoundNode(e, LineTree(), 0.0, 1.0, 0, false);
  }
}
