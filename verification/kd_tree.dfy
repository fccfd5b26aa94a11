/** The k-d tree index of the data store, as values: the exact median split,
    the recursive construction alternating latitude and longitude, point
    lookup, leaf insertion and the age-filtered k-nearest-neighbour search.
    The store (kd_tree_store.dfy) keeps these trees as id-linked nodes in
    its key-value map and its methods are proved to compute what the
    functions here compute. Coordinates are integers, and the great-circle
    distance is a function parameter. */
module KdTree {
  import opened Results
  import opened Sorting
  import opened BoundedQueue

  /** One person of the data list. */
  datatype Person = Person(id: string, name: string, age: int, latitude: int, longitude: int)

  /** A stored node: the person's fields plus the ids of the roots of its
      left and right subtrees (None for an empty subtree). */
  datatype Node = Node(person: Person, leftId: Option<string>, rightId: Option<string>)

  /** `_axis_keys`: axis 0 is latitude, axis 1 longitude. */
  const NumAxes: nat := 2

  /** The key under which the store keeps the id of the root node. */
  const RootKey: string := "root_id"

  function Coord(p: Person, axis: nat): int {
    if axis == 0 then p.latitude else p.longitude
  }

  /** The sort key of the median split on the given axis. */
  function AxisKey(axis: nat): Person -> int {
    (p: Person) => Coord(p, axis)
  }

  predicate SameSpot(p: Person, q: Person) {
    p.latitude == q.latitude && p.longitude == q.longitude
  }

  function Abs(x: int): int { if x < 0 then -x else x }

  /** Ids the store can use for nodes: not empty (Python reads "" as no
      child), not "None" (node loading turns that string into None) and
      not the key of the root id. */
  predicate ValidId(id: string) {
    id != "" && id != "None" && id != RootKey
  }

  // ---------------------------------------------------------------- median

  lemma SortedCoords(s: seq<Person>, axis: nat)
    requires SortedBy(s, AxisKey(axis))
    ensures forall i, j :: 0 <= i < j < |s| ==> Coord(s[i], axis) <= Coord(s[j], axis)
  {
    forall i, j | 0 <= i < j < |s| ensures Coord(s[i], axis) <= Coord(s[j], axis) {
      assert AxisKey(axis)(s[i]) <= AxisKey(axis)(s[j]);
    }
  }

  datatype Split = Split(left: seq<Person>, right: seq<Person>, median: Person)

  /** `get_median`, exact branch: sort by the axis' coordinate, take the
      element at n // 2 as median, the ones before it as the left set and
      the ones after it as the right set. */
  function GetMedian(items: seq<Person>, axis: nat): (r: Split)
    requires |items| > 0
    ensures multiset(r.left + [r.median] + r.right) == multiset(items)
    ensures |r.left| == |items| / 2 && |r.right| == |items| - |items| / 2 - 1
    ensures forall i :: 0 <= i < |r.left| ==> Coord(r.left[i], axis) <= Coord(r.median, axis)
    ensures forall i :: 0 <= i < |r.right| ==> Coord(r.median, axis) <= Coord(r.right[i], axis)
  {
    var sorted := SortBy(items, AxisKey(axis));
    var m := |items| / 2;
    SplitSorted(sorted, axis, m, sorted[..m], sorted[m + 1..]);
    Split(sorted[..m], sorted[m + 1..], sorted[m])
  }

  /** Cutting a sequence sorted on an axis around position m keeps its
      elements and leaves the smaller coordinates on the left. */
  lemma SplitSorted(s: seq<Person>, axis: nat, m: nat, left: seq<Person>, right: seq<Person>)
    requires SortedBy(s, AxisKey(axis)) && m < |s| && left == s[..m] && right == s[m + 1..]
    ensures multiset(left + [s[m]] + right) == multiset(s)
    ensures forall i :: 0 <= i < |left| ==> Coord(left[i], axis) <= Coord(s[m], axis)
    ensures forall i :: 0 <= i < |right| ==> Coord(s[m], axis) <= Coord(right[i], axis)
  {
    SortedCoords(s, axis);
    assert s == left + [s[m]] + right;
  }

  // ------------------------------------------------------------------ tree

  datatype Tree = Leaf | Branch(left: Tree, person: Person, right: Tree)

  function RootId(t: Tree): Option<string> {
    if t.Leaf? then None else Some(t.person.id)
  }

  /** The node the store holds for the root of Branch(l, p, r). */
  function NodeOf(l: Tree, p: Person, r: Tree): Node {
    Node(p, RootId(l), RootId(r))
  }

  function Elements(t: Tree): multiset<Person> {
    match t
    case Leaf => multiset{}
    case Branch(l, p, r) => Elements(l) + multiset{p} + Elements(r)
  }

  function Ids(t: Tree): set<string> {
    match t
    case Leaf => {}
    case Branch(l, p, r) => Ids(l) + {p.id} + Ids(r)
  }

  lemma {:induction false} IdOfElement(t: Tree, q: Person)
    requires q in Elements(t)
    ensures q.id in Ids(t)
  {
    match t
    case Branch(l, p, r) =>
      if q in Elements(l) { IdOfElement(l, q); }
      else if q in Elements(r) { IdOfElement(r, q); }
  }

  lemma {:induction false} IdWitness(t: Tree, x: string) returns (q: Person)
    requires x in Ids(t)
    ensures q in Elements(t) && q.id == x
  {
    match t
    case Branch(l, p, r) =>
      if x in Ids(l) { q := IdWitness(l, x); }
      else if x in Ids(r) { q := IdWitness(r, x); }
      else { q := p; }
  }

  /** Every person occurs once, ids are valid and no two persons share one. */
  ghost predicate Keyed(m: multiset<Person>) {
    (forall p :: p in m ==> ValidId(p.id) && m[p] == 1) &&
    (forall p, q :: p in m && q in m && p.id == q.id ==> p == q)
  }

  ghost predicate WellKeyed(t: Tree) {
    Keyed(Elements(t))
  }

  lemma KeyedSplit(a: multiset<Person>, b: multiset<Person>)
    requires Keyed(a + b)
    ensures Keyed(a) && Keyed(b)
    ensures forall p, q :: p in a && q in b ==> p.id != q.id
  {
    forall q | q in a ensures ValidId(q.id) && a[q] == 1 {
      assert (a + b)[q] == a[q] + b[q];
    }
    forall q | q in b ensures ValidId(q.id) && b[q] == 1 {
      assert (a + b)[q] == a[q] + b[q];
    }
    forall p, q | p in a && q in b ensures p.id != q.id {
      assert p in a + b && q in a + b;
      assert (a + b)[p] == a[p] + b[p];
    }
  }

  /** What a well-keyed branch tells about its parts. */
  lemma KeyedBranch(l: Tree, p: Person, r: Tree)
    requires WellKeyed(Branch(l, p, r))
    ensures WellKeyed(l) && WellKeyed(r) && ValidId(p.id)
    ensures p.id !in Ids(l) && p.id !in Ids(r) && Ids(l) !! Ids(r)
  {
    KeyedSplit(Elements(l) + multiset{p}, Elements(r));
    KeyedSplit(Elements(l), multiset{p});
    RootApart(l, p, r);
    SubtreeIdsApart(l, p, r);
  }

  lemma RootApart(l: Tree, p: Person, r: Tree)
    requires WellKeyed(Branch(l, p, r))
    ensures p.id !in Ids(l) && p.id !in Ids(r)
  {
    KeyedSplit(Elements(l) + multiset{p}, Elements(r));
    KeyedSplit(Elements(l), multiset{p});
    forall x | x in Ids(l) ensures x != p.id {
      var q := IdWitness(l, x);
    }
    forall x | x in Ids(r) ensures x != p.id {
      var q := IdWitness(r, x);
      assert p in Elements(l) + multiset{p};
    }
  }

  lemma SubtreeIdsApart(l: Tree, p: Person, r: Tree)
    requires WellKeyed(Branch(l, p, r))
    ensures Ids(l) !! Ids(r)
  {
    KeyedSplit(Elements(l) + multiset{p}, Elements(r));
    forall x, y | x in Ids(l) && y in Ids(r) ensures x != y {
      var a := IdWitness(l, x);
      var b := IdWitness(r, y);
      assert a in Elements(l) + multiset{p};
    }
  }

  /** `_construct_index`: None for an empty list; otherwise the median on
      axis depth % 2 becomes the root over the trees built from the left
      and right sets one level deeper. */
  function BuildTree(items: seq<Person>, depth: nat): Tree
    decreases |items|
  {
    if |items| == 0 then Leaf
    else
      var s := GetMedian(items, depth % NumAxes);
      Branch(BuildTree(s.left, depth + 1), s.median, BuildTree(s.right, depth + 1))
  }

  /** The tree holds exactly the input items. */
  lemma {:induction false} BuildElements(items: seq<Person>, depth: nat)
    ensures Elements(BuildTree(items, depth)) == multiset(items)
    decreases |items|
  {
    if |items| > 0 {
      var s := GetMedian(items, depth % NumAxes);
      BuildElements(s.left, depth + 1);
      BuildElements(s.right, depth + 1);
      assert multiset(s.left + [s.median] + s.right) == multiset(s.left) + multiset{s.median} + multiset(s.right);
    }
  }

  /** The k-d invariant: at depth d, on axis d % 2, every key in the left
      subtree is at most the node's and every key in the right subtree at
      least the node's. */
  ghost predicate KdOrdered(t: Tree, depth: nat)
    decreases t
  {
    match t
    case Leaf => true
    case Branch(l, p, r) =>
      var a := depth % NumAxes;
      AllBelow(Elements(l), Coord(p, a), a) && AllAbove(Elements(r), Coord(p, a), a) &&
      KdOrdered(l, depth + 1) && KdOrdered(r, depth + 1)
  }

  ghost predicate AllBelow(m: multiset<Person>, v: int, a: nat) {
    forall q :: q in m ==> Coord(q, a) <= v
  }

  ghost predicate AllAbove(m: multiset<Person>, v: int, a: nat) {
    forall q :: q in m ==> v <= Coord(q, a)
  }

  lemma {:induction false} BuildKdOrdered(items: seq<Person>, depth: nat)
    ensures KdOrdered(BuildTree(items, depth), depth)
    decreases |items|
  {
    if |items| > 0 {
      var a := depth % NumAxes;
      var s := GetMedian(items, a);
      BuildKdOrdered(s.left, depth + 1);
      BuildKdOrdered(s.right, depth + 1);
      BuildElements(s.left, depth + 1);
      BuildElements(s.right, depth + 1);
      forall q | q in Elements(BuildTree(s.left, depth + 1)) ensures Coord(q, a) <= Coord(s.median, a) {
        assert q in s.left;
      }
      forall q | q in Elements(BuildTree(s.right, depth + 1)) ensures Coord(s.median, a) <= Coord(q, a) {
        assert q in s.right;
      }
    }
  }

  /** A construction from items with distinct valid ids gives a well-keyed tree. */
  lemma BuildWellKeyed(items: seq<Person>, depth: nat)
    requires Keyed(multiset(items))
    ensures WellKeyed(BuildTree(items, depth))
  {
    BuildElements(items, depth);
  }

  // ---------------------------------------------------------------- lookup

  /** `_find_item`: stop at a node with the target's coordinates, otherwise
      go left when the target's key is below the node's and right otherwise. */
  function FindTree(t: Tree, target: Person, depth: nat): (r: Option<Node>)
    ensures r.Some? ==> SameSpot(r.value.person, target) && r.value.person in Elements(t)
    decreases t
  {
    match t
    case Leaf => None
    case Branch(l, p, r) =>
      if SameSpot(p, target) then Some(NodeOf(l, p, r))
      else
        var a := depth % NumAxes;
        if Coord(target, a) < Coord(p, a) then FindTree(l, target, depth + 1)
        else FindTree(r, target, depth + 1)
  }

  lemma BuildSingle(x: Person, depth: nat)
    ensures BuildTree([x], depth) == Branch(Leaf, x, Leaf)
  {
    var one := GetMedian([x], depth % NumAxes);
    assert multiset([one.median]) == multiset([x]);
    assert one.median in multiset([x]);
  }

  /** Two people already in latitude order with equal latitudes: the first
      goes left of the second. */
  lemma BuildTiedPair(a: Person, b: Person)
    requires a.latitude == b.latitude
    ensures BuildTree([a, b], 0) == Branch(Branch(Leaf, a, Leaf), b, Leaf)
  {
    assert SortedBy([a, b], AxisKey(0));
    SortBySorted([a, b], AxisKey(0));
    assert GetMedian([a, b], 0) == Split([a], [], b);
    BuildSingle(a, 1);
    assert BuildTree([], 1) == Leaf;
  }

  /** Two people on the same latitude: the construction puts the first one
      left of the second, and the lookup, seeing equal latitudes, searches
      only the right subtree and misses it. */
  lemma FindMissesEqualSplit()
    ensures var a := Person("1", "a", 30, 5, 1);
            var b := Person("2", "b", 30, 5, 2);
            var t := BuildTree([a, b], 0);
            KdOrdered(t, 0) && a in Elements(t) && FindTree(t, a, 0) == None
  {
    var a := Person("1", "a", 30, 5, 1);
    var b := Person("2", "b", 30, 5, 2);
    BuildTiedPair(a, b);
    BuildKdOrdered([a, b], 0);
    var t := Branch(Branch(Leaf, a, Leaf), b, Leaf);
    assert FindTree(t, a, 0) == FindTree(Leaf, a, 1);
  }

  /** The lookup with the tie fixed: on an equal key both subtrees may hold
      the target, so it searches the left one and then the right one. */
  function FindTreeExact(t: Tree, target: Person, depth: nat): (r: Option<Node>)
    ensures r.Some? ==> SameSpot(r.value.person, target) && r.value.person in Elements(t)
    decreases t
  {
    match t
    case Leaf => None
    case Branch(l, p, r) =>
      if SameSpot(p, target) then Some(NodeOf(l, p, r))
      else
        var a := depth % NumAxes;
        if Coord(target, a) < Coord(p, a) then FindTreeExact(l, target, depth + 1)
        else if Coord(p, a) < Coord(target, a) then FindTreeExact(r, target, depth + 1)
        else
          match FindTreeExact(l, target, depth + 1)
          case Some(n) => Some(n)
          case None => FindTreeExact(r, target, depth + 1)
  }

  /** On a k-d ordered tree the fixed lookup finds every stored position. */
  lemma {:induction false} FindExactComplete(t: Tree, target: Person, depth: nat, q: Person)
    requires KdOrdered(t, depth) && q in Elements(t) && SameSpot(q, target)
    ensures FindTreeExact(t, target, depth).Some?
    decreases t
  {
    match t
    case Branch(l, p, r) =>
      if !SameSpot(p, target) {
        var a := depth % NumAxes;
        assert Coord(q, a) == Coord(target, a);
        if q in Elements(l) {
          FindExactComplete(l, target, depth + 1, q);
        } else {
          assert q in Elements(r);
          FindExactComplete(r, target, depth + 1, q);
        }
      }
  }

  // ------------------------------------------------------------- insertion

  /** The tree after `_insert_item` hangs x as a new leaf: left of a node
      whose key is above x's, right otherwise. */
  function InsertTree(t: Tree, x: Person, depth: nat): Tree
    decreases t
  {
    match t
    case Leaf => Branch(Leaf, x, Leaf)
    case Branch(l, p, r) =>
      var a := depth % NumAxes;
      if Coord(x, a) < Coord(p, a) then Branch(InsertTree(l, x, depth + 1), p, r)
      else Branch(l, p, InsertTree(r, x, depth + 1))
  }

  /** The id `_insert_item` returns: the node whose empty child slot on
      the search path receives x. */
  function InsertParent(t: Tree, x: Person, depth: nat): (r: Option<string>)
    ensures t.Branch? ==> r.Some? && r.value in Ids(t)
    decreases t
  {
    match t
    case Leaf => None
    case Branch(l, p, r) =>
      var a := depth % NumAxes;
      var goLeft := Coord(x, a) < Coord(p, a);
      if goLeft && l.Leaf? then Some(p.id)
      else if !goLeft && r.Leaf? then Some(p.id)
      else InsertParent(if goLeft then l else r, x, depth + 1)
  }

  lemma {:induction false} InsertElements(t: Tree, x: Person, depth: nat)
    ensures Elements(InsertTree(t, x, depth)) == Elements(t) + multiset{x}
    decreases t
  {
    match t
    case Leaf =>
    case Branch(l, p, r) =>
      InsertElements(l, x, depth + 1);
      InsertElements(r, x, depth + 1);
  }

  lemma {:induction false} InsertIds(t: Tree, x: Person, depth: nat)
    ensures Ids(InsertTree(t, x, depth)) == Ids(t) + {x.id}
    decreases t
  {
    match t
    case Leaf =>
    case Branch(l, p, r) =>
      InsertIds(l, x, depth + 1);
      InsertIds(r, x, depth + 1);
  }

  /** Insertion keeps the k-d invariant: x goes left only below the key. */
  lemma {:induction false} InsertKdOrdered(t: Tree, x: Person, depth: nat)
    requires KdOrdered(t, depth)
    ensures KdOrdered(InsertTree(t, x, depth), depth)
    decreases t
  {
    match t
    case Leaf =>
    case Branch(l, p, r) =>
      var a := depth % NumAxes;
      var v := Coord(p, a);
      if Coord(x, a) < v {
        var l' := InsertTree(l, x, depth + 1);
        InsertKdOrdered(l, x, depth + 1);
        InsertElements(l, x, depth + 1);
        assert AllBelow(Elements(l'), v, a) by {
          assert AllBelow(Elements(l), v, a);
        }
        assert InsertTree(t, x, depth) == Branch(l', p, r);
      } else {
        var r' := InsertTree(r, x, depth + 1);
        InsertKdOrdered(r, x, depth + 1);
        InsertElements(r, x, depth + 1);
        assert AllAbove(Elements(r'), v, a) by {
          assert AllAbove(Elements(r), v, a);
        }
        assert InsertTree(t, x, depth) == Branch(l, p, r');
      }
  }

  /** Inserting a person with a fresh valid id keeps the ids distinct. */
  lemma InsertWellKeyed(t: Tree, x: Person, depth: nat)
    requires WellKeyed(t) && ValidId(x.id) && x.id !in Ids(t)
    ensures WellKeyed(InsertTree(t, x, depth))
  {
    InsertElements(t, x, depth);
    var m := Elements(t);
    var m' := m + multiset{x};
    forall q | q in m ensures q.id != x.id {
      IdOfElement(t, q);
    }
    assert x !in m;
    forall q | q in m' ensures ValidId(q.id) && m'[q] == 1 {
      assert m'[q] == m[q] + multiset{x}[q];
    }
    forall p, q | p in m' && q in m' && p.id == q.id ensures p == q {
      if p != x && q != x {
        assert p in m && q in m;
      }
    }
  }

  /** After an insertion the lookup of the inserted position succeeds. */
  lemma {:induction false} FindAfterInsert(t: Tree, x: Person, depth: nat)
    ensures FindTree(InsertTree(t, x, depth), x, depth).Some?
    decreases t
  {
    match t
    case Leaf =>
    case Branch(l, p, r) =>
      FindAfterInsert(l, x, depth + 1);
      FindAfterInsert(r, x, depth + 1);
  }

  // ------------------------------------------------------ nearest neighbours

  /** `haversine_distance(lat1, lon1, lat2, lon2)`, taken as a parameter. */
  type Distance = (int, int, int, int) -> int

  /** Which distance decides whether the far side of a split is searched:
      AsWritten is the source's `distance(target, node, axis)`; ToLine is
      the distance to the nearest point of the splitting line, the test the
      search needs in order to find the nearest people. */
  datatype Pruning = AsWritten | ToLine

  /** `distance(target, node, axis)`. Axis 1 (longitude) measures to the
      point with the node's latitude and the target's longitude; axis 0 is
      falsy, so it measures the full distance to the node. */
  function PruneDistance(dist: Distance, target: Person, p: Person, axis: nat): int {
    if axis != 0 then dist(target.latitude, target.longitude, p.latitude, target.longitude)
    else dist(target.latitude, target.longitude, p.latitude, p.longitude)
  }

  /** The distance from the target to the splitting line through p on the
      axis: to the point that takes p's coordinate on that axis and the
      target's on the other. */
  function LineDistance(dist: Distance, target: Person, p: Person, axis: nat): int {
    if axis == 0 then dist(target.latitude, target.longitude, p.latitude, target.longitude)
    else dist(target.latitude, target.longitude, target.latitude, p.longitude)
  }

  function SplitDistance(dist: Distance, target: Person, p: Person, axis: nat, pr: Pruning): int {
    match pr
    case AsWritten => PruneDistance(dist, target, p, axis)
    case ToLine => LineDistance(dist, target, p, axis)
  }

  /** The first step of `_k_nearest_neighbors` at a node: push it, with
      its distance to the target as priority, when its age is within range. */
  function Offer(n: Node, target: Person, ageProximity: int, s: QState<Node>, dist: Distance): Result<QState<Node>> {
    var p := n.person;
    if Abs(target.age - p.age) <= ageProximity then
      AfterPush(s, n, dist(p.latitude, p.longitude, target.latitude, target.longitude))
    else Ok(s)
  }

  /** `_k_nearest_neighbors` as a function of the queue it threads: offer
      the node, then visit its subtrees. */
  function KnnSearch(t: Tree, target: Person, ageProximity: int, depth: nat,
                     s: QState<Node>, dist: Distance, pr: Pruning): Result<QState<Node>>
    decreases t, 2
  {
    match t
    case Leaf => Ok(s)
    case Branch(l, p, r) =>
      var s1 :- Offer(NodeOf(l, p, r), target, ageProximity, s, dist);
      KnnChildren(t, target, ageProximity, depth, s1, dist, pr)
  }

  /** Search the subtree on the target's side, then decide on the other. */
  function KnnChildren(t: Tree, target: Person, ageProximity: int, depth: nat,
                       s1: QState<Node>, dist: Distance, pr: Pruning): Result<QState<Node>>
    requires t.Branch?
    decreases t, 1
  {
    var a := depth % NumAxes;
    var goLeft := Coord(target, a) < Coord(t.person, a);
    var s2 :- KnnSearch(if goLeft then t.left else t.right, target, ageProximity, depth + 1, s1, dist, pr);
    KnnFar(t, target, ageProximity, depth, s2, dist, pr)
  }

  /** Search the subtree away from the target unless the queue is full and
      the pruning distance is not below its largest distance; a full queue
      with bound zero is empty, and reading its top raises. */
  function KnnFar(t: Tree, target: Person, ageProximity: int, depth: nat,
                  s2: QState<Node>, dist: Distance, pr: Pruning): Result<QState<Node>>
    requires t.Branch?
    decreases t, 0
  {
    var a := depth % NumAxes;
    var goLeft := Coord(target, a) < Coord(t.person, a);
    var far := if goLeft then t.right else t.left;
    if Crosses(t, target, depth, s2, dist, pr) then KnnSearch(far, target, ageProximity, depth + 1, s2, dist, pr)
    else if s2.queue == [] then Err(IndexError)
    else Ok(s2)
  }

  /** The test for visiting the far side: the queue is not full, or the
      pruning distance is below its largest priority. */
  predicate Crosses(t: Tree, target: Person, depth: nat, s2: QState<Node>, dist: Distance, pr: Pruning)
    requires t.Branch?
  {
    |s2.queue| != s2.bound ||
    (s2.queue != [] && SplitDistance(dist, target, t.person, depth % NumAxes, pr) < Priority(s2.queue[Head(s2.queue)]))
  }

  /** A dict of the list `k_nearest_neighbors` returns. */
  datatype Neighbor = Neighbor(distance: int, longitude: int, latitude: int, name: string, age: int)

  function ToNeighbor(x: Ranked<Node>): Neighbor {
    Neighbor(x.distance, x.item.person.longitude, x.item.person.latitude, x.item.person.name, x.item.person.age)
  }

  function Neighbors(xs: seq<Ranked<Node>>): (r: seq<Neighbor>)
    ensures |r| == |xs| && forall i :: 0 <= i < |xs| ==> r[i] == ToNeighbor(xs[i])
  {
    seq(|xs|, i requires 0 <= i < |xs| => ToNeighbor(xs[i]))
  }

  /** `k_nearest_neighbors` on a built index: search from the root with a
      fresh queue bounded by k, drain it and sort by distance. */
  function KNearest(t: Tree, target: Person, k: int, ageProximity: int, dist: Distance, pr: Pruning): Result<seq<Neighbor>> {
    var s :- KnnSearch(t, target, ageProximity, 0, QState([], 0, k), dist, pr);
    Ok(SortBy(Neighbors(Drain(s.queue)), (n: Neighbor) => n.distance))
  }

  /** p may be reported for a search around target. */
  predicate Admissible(p: Person, target: Person, ageProximity: int, pool: multiset<Person>) {
    p in pool && Abs(target.age - p.age) <= ageProximity
  }

  function DistanceTo(p: Person, target: Person, dist: Distance): int {
    dist(p.latitude, p.longitude, target.latitude, target.longitude)
  }

  /** What the queue may hold during a search for target: nodes of
      admissible people, with their distance to the target as priority. */
  ghost predicate Candidates(q: seq<Entry<Node>>, target: Person, ageProximity: int, dist: Distance,
                             pool: multiset<Person>) {
    forall e :: e in q ==>
      Admissible(e.item.person, target, ageProximity, pool) &&
      Priority(e) == DistanceTo(e.item.person, target, dist)
  }

  lemma PushEntries<T>(s: QState<T>, item: T, priority: int)
    requires AfterPush(s, item, priority).Ok?
    ensures forall e :: e in AfterPush(s, item, priority).value.queue ==>
              e in s.queue || e == Entry(-priority, s.index, item)
  {
    if |s.queue| >= s.bound && priority < Priority(s.queue[Head(s.queue)]) {
      WithoutMultiset(s.queue, Head(s.queue));
    }
  }

  /** r, the outcome of a step from s, keeps the queue's invariant, its
      bound and its candidates, and is a failure only when s's bound is
      below one. */
  ghost predicate StepKeeps(r: Result<QState<Node>>, s: QState<Node>, target: Person, ageProximity: int,
                            dist: Distance, pool: multiset<Person>) {
    (r.Ok? ==> Invariant(r.value) && r.value.bound == s.bound &&
               Candidates(r.value.queue, target, ageProximity, dist, pool)) &&
    (s.bound >= 1 ==> r.Ok?)
  }

  /** Offering an admissible person keeps the queue's invariant and its
      candidates, and fails only on a bound below one. */
  lemma OfferKeeps(n: Node, target: Person, ageProximity: int, s: QState<Node>, dist: Distance,
                   pool: multiset<Person>)
    requires Invariant(s) && Candidates(s.queue, target, ageProximity, dist, pool)
    requires n.person in pool
    ensures StepKeeps(Offer(n, target, ageProximity, s, dist), s, target, ageProximity, dist, pool)
  {
    var p := n.person;
    if Abs(target.age - p.age) <= ageProximity {
      var d := DistanceTo(p, target, dist);
      PushKeepsBound(s, n, d);
      if AfterPush(s, n, d).Ok? {
        PushEntries(s, n, d);
      }
    }
  }

  /** The search keeps the queue's invariant, only ever lets in candidates
      of the searched tree, and cannot fail with a bound of at least one. */
  lemma {:induction false} KnnSearchKeeps(t: Tree, target: Person, ageProximity: int, depth: nat,
                                          s: QState<Node>, dist: Distance, pool: multiset<Person>,
                                          pr: Pruning)
    requires Invariant(s) && Candidates(s.queue, target, ageProximity, dist, pool)
    requires Elements(t) <= pool
    ensures StepKeeps(KnnSearch(t, target, ageProximity, depth, s, dist, pr), s, target, ageProximity, dist, pool)
    decreases t, 2
  {
    match t
    case Leaf =>
    case Branch(l, p, r) =>
      assert p in Elements(t);
      OfferKeeps(NodeOf(l, p, r), target, ageProximity, s, dist, pool);
      var s1 := Offer(NodeOf(l, p, r), target, ageProximity, s, dist);
      if s1.Ok? {
        KnnChildrenKeeps(t, target, ageProximity, depth, s1.value, dist, pool, pr);
      }
  }

  lemma {:induction false} KnnChildrenKeeps(t: Tree, target: Person, ageProximity: int, depth: nat,
                                            s1: QState<Node>, dist: Distance, pool: multiset<Person>,
                                            pr: Pruning)
    requires t.Branch?
    requires Invariant(s1) && Candidates(s1.queue, target, ageProximity, dist, pool)
    requires Elements(t) <= pool
    ensures StepKeeps(KnnChildren(t, target, ageProximity, depth, s1, dist, pr), s1, target, ageProximity, dist, pool)
    decreases t, 1
  {
    var a := depth % NumAxes;
    var goLeft := Coord(target, a) < Coord(t.person, a);
    var near := if goLeft then t.left else t.right;
    assert Elements(near) <= pool;
    KnnSearchKeeps(near, target, ageProximity, depth + 1, s1, dist, pool, pr);
    var s2 := KnnSearch(near, target, ageProximity, depth + 1, s1, dist, pr);
    var r := KnnChildren(t, target, ageProximity, depth, s1, dist, pr);
    if s2.Ok? {
      KnnFarKeeps(t, target, ageProximity, depth, s2.value, dist, pool, pr);
      assert r == KnnFar(t, target, ageProximity, depth, s2.value, dist, pr);
    } else {
      assert r == Err(s2.error);
    }
  }

  lemma {:induction false} KnnFarKeeps(t: Tree, target: Person, ageProximity: int, depth: nat,
                                       s2: QState<Node>, dist: Distance, pool: multiset<Person>,
                                       pr: Pruning)
    requires t.Branch?
    requires Invariant(s2) && Candidates(s2.queue, target, ageProximity, dist, pool)
    requires Elements(t) <= pool
    ensures StepKeeps(KnnFar(t, target, ageProximity, depth, s2, dist, pr), s2, target, ageProximity, dist, pool)
    decreases t, 0
  {
    var a := depth % NumAxes;
    var goLeft := Coord(target, a) < Coord(t.person, a);
    var far := if goLeft then t.right else t.left;
    var r := KnnFar(t, target, ageProximity, depth, s2, dist, pr);
    if Crosses(t, target, depth, s2, dist, pr) {
      assert Elements(far) <= pool;
      KnnSearchKeeps(far, target, ageProximity, depth + 1, s2, dist, pool, pr);
      assert r == KnnSearch(far, target, ageProximity, depth + 1, s2, dist, pr);
    } else if s2.queue == [] {
      assert r == Err(IndexError) && s2.bound == 0;
    } else {
      assert r == Ok(s2);
    }
  }

  ghost predicate SortedByDistance(ns: seq<Neighbor>) {
    SortedBy(ns, (n: Neighbor) => n.distance)
  }

  /** The neighbour dict made from person p for a search around target. */
  function NeighborOf(p: Person, target: Person, dist: Distance): Neighbor {
    Neighbor(DistanceTo(p, target, dist), p.longitude, p.latitude, p.name, p.age)
  }

  /** Every dict in ns is made from an admissible person. */
  ghost predicate Reported(ns: seq<Neighbor>, target: Person, ageProximity: int, dist: Distance,
                           pool: multiset<Person>) {
    forall n :: n in ns ==>
      exists p :: Admissible(p, target, ageProximity, pool) && n == NeighborOf(p, target, dist)
  }

  /** Draining a queue of candidates and turning its cells into dicts
      reports admissible people only. */
  lemma DrainReported(q: seq<Entry<Node>>, target: Person, ageProximity: int, dist: Distance,
                      pool: multiset<Person>)
    requires Candidates(q, target, ageProximity, dist, pool)
    ensures Reported(Neighbors(Drain(q)), target, ageProximity, dist, pool)
  {
    var drained := Drain(q);
    var ns := Neighbors(drained);
    DrainSortedPermutation(q);
    forall n | n in ns
      ensures exists p :: Admissible(p, target, ageProximity, pool) && n == NeighborOf(p, target, dist)
    {
      var i :| 0 <= i < |ns| && ns[i] == n;
      assert drained[i] in multiset(Ranks(q));
      var j :| 0 <= j < |q| && Ranks(q)[j] == drained[i];
      assert q[j] in q;
      var p := q[j].item.person;
      assert n == NeighborOf(p, target, dist);
    }
  }

  /** Sorting keeps what is reported. */
  lemma SortReported(ns: seq<Neighbor>, target: Person, ageProximity: int, dist: Distance,
                     pool: multiset<Person>)
    requires Reported(ns, target, ageProximity, dist, pool)
    ensures Reported(SortBy(ns, (n: Neighbor) => n.distance), target, ageProximity, dist, pool)
  {
    var sorted := SortBy(ns, (n: Neighbor) => n.distance);
    forall n | n in sorted
      ensures exists p :: Admissible(p, target, ageProximity, pool) && n == NeighborOf(p, target, dist)
    {
      assert n in multiset(sorted);
      assert n in ns;
    }
  }

  /** The k-nearest-neighbour result: sorted by distance ascending, at most
      k entries, each made from an indexed person whose age is within
      `ageProximity` of the target's and carrying that person's distance. */
  lemma KNearestSound(t: Tree, target: Person, k: int, ageProximity: int, dist: Distance, pr: Pruning)
    ensures var r := KNearest(t, target, k, ageProximity, dist, pr);
            r.Ok? ==>
              SortedByDistance(r.value) && (|r.value| <= k || r.value == []) &&
              Reported(r.value, target, ageProximity, dist, Elements(t))
  {
    var s0 := QState([], 0, k);
    KnnSearchKeeps(t, target, ageProximity, 0, s0, dist, Elements(t), pr);
    var sr := KnnSearch(t, target, ageProximity, 0, s0, dist, pr);
    if sr.Ok? {
      var q := sr.value.queue;
      DrainSortedPermutation(q);
      DrainReported(q, target, ageProximity, dist, Elements(t));
      SortReported(Neighbors(Drain(q)), target, ageProximity, dist, Elements(t));
    }
  }

  /** With k at least one the search never raises. */
  lemma KNearestTotal(t: Tree, target: Person, k: int, ageProximity: int, dist: Distance, pr: Pruning)
    requires k >= 1
    ensures KNearest(t, target, k, ageProximity, dist, pr).Ok?
  {
    KnnSearchKeeps(t, target, ageProximity, 0, QState([], 0, k), dist, Elements(t), pr);
  }

  // ------------------------------------------- how many people are reported

  /** The dict of p when its age is within range of the target's, else nothing. */
  function OfferedNeighbor(p: Person, target: Person, ageProximity: int, dist: Distance): multiset<Neighbor> {
    if Abs(target.age - p.age) <= ageProximity then multiset{NeighborOf(p, target, dist)} else multiset{}
  }

  /** The dicts of the people of t whose age is within range: what a search
      with an unbounded queue would report. */
  function AdmissibleNeighbors(t: Tree, target: Person, ageProximity: int, dist: Distance): multiset<Neighbor> {
    match t
    case Leaf => multiset{}
    case Branch(l, p, r) =>
      AdmissibleNeighbors(l, target, ageProximity, dist) + OfferedNeighbor(p, target, ageProximity, dist) +
      AdmissibleNeighbors(r, target, ageProximity, dist)
  }

  /** The dicts the queue's cells turn into. */
  function Held(q: seq<Entry<Node>>): multiset<Neighbor> {
    multiset(Neighbors(Ranks(q)))
  }

  /** The queue holds dicts of people offered so far (seen) only, and all
      of them unless it is full. */
  ghost predicate Covers(s: QState<Node>, seen: multiset<Neighbor>) {
    Held(s.queue) <= seen && (|s.queue| == s.bound || Held(s.queue) == seen)
  }

  /** A step of the search succeeded, kept the invariant and the bound, and
      the queue covers the dicts seen. */
  ghost predicate CoversAfter(r: Result<QState<Node>>, bound: int, seen: multiset<Neighbor>) {
    r.Ok? && Invariant(r.value) && r.value.bound == bound && Covers(r.value, seen)
  }

  lemma HeldAppend(q: seq<Entry<Node>>, e: Entry<Node>)
    ensures Held(q + [e]) == Held(q) + multiset{ToNeighbor(Rank(e))}
  {
    assert Neighbors(Ranks(q + [e])) == Neighbors(Ranks(q)) + [ToNeighbor(Rank(e))];
  }

  lemma HeldWithout(q: seq<Entry<Node>>, h: nat)
    requires h < |q|
    ensures Held(Without(q, h)) + multiset{ToNeighbor(Rank(q[h]))} == Held(q)
  {
    var ns := Neighbors(Ranks(q));
    RanksWithout(q, h);
    assert Neighbors(Ranks(Without(q, h))) == ns[..h] + ns[h + 1..];
    SplitMultiset(ns, h);
  }

  lemma SubCard<U>(a: multiset<U>, b: multiset<U>)
    requires a <= b
    ensures |a| <= |b|
  {
    assert b == a + (b - a);
  }

  /** Permuting the cells permutes the dicts. */
  lemma NeighborsSplit(ys: seq<Ranked<Node>>, j: nat)
    requires j < |ys|
    ensures multiset(Neighbors(ys)) == multiset(Neighbors(ys[..j] + ys[j + 1..])) + multiset{ToNeighbor(ys[j])}
  {
    var ns := Neighbors(ys);
    assert Neighbors(ys[..j] + ys[j + 1..]) == ns[..j] + ns[j + 1..];
    SplitMultiset(ns, j);
  }

  /** Permuting the cells permutes the dicts. */
  lemma {:induction false} NeighborsPermutation(xs: seq<Ranked<Node>>, ys: seq<Ranked<Node>>)
    requires multiset(xs) == multiset(ys)
    ensures multiset(Neighbors(xs)) == multiset(Neighbors(ys))
    decreases |xs|
  {
    if xs == [] {
      assert |ys| == |multiset(ys)| == 0;
    } else {
      var x := xs[0];
      assert x in multiset(ys);
      var j :| 0 <= j < |ys| && ys[j] == x;
      var rest := ys[..j] + ys[j + 1..];
      assert xs[..0] + xs[1..] == xs[1..];
      assert multiset(xs[1..]) == multiset(rest) by {
        SplitMultiset(ys, j);
        SplitMultiset(xs, 0);
        Cancel(multiset(xs[1..]), multiset(rest), x);
      }
      NeighborsPermutation(xs[1..], rest);
      NeighborsSplit(ys, j);
      NeighborsSplit(xs, 0);
    }
  }

  lemma Cancel<U>(a: multiset<U>, b: multiset<U>, x: U)
    requires a + multiset{x} == b + multiset{x}
    ensures a == b
  {
    assert a == a + multiset{x} - multiset{x};
  }

  /** The list `k_nearest_neighbors` returns holds exactly the queue's dicts. */
  lemma ResultHeld(q: seq<Entry<Node>>)
    ensures var r := SortBy(Neighbors(Drain(q)), (n: Neighbor) => n.distance);
            multiset(r) == Held(q) && |r| == |q|
  {
    DrainSortedPermutation(q);
    NeighborsPermutation(Drain(q), Ranks(q));
  }

  /** A push that is not appended leaves a full queue full, and one that is
      keeps the queue's dicts within those seen. */
  lemma PushCovers(s: QState<Node>, n: Node, d: int, seen: multiset<Neighbor>)
    requires Invariant(s) && s.bound >= 1 && Covers(s, seen)
    ensures var r := AfterPush(s, n, d);
            r.Ok? && Covers(r.value, seen + multiset{ToNeighbor(Rank(Entry(-d, s.index, n)))})
  {
    var e := Entry(-d, s.index, n);
    if |s.queue| < s.bound {
      HeldAppend(s.queue, e);
    } else {
      var h := Head(s.queue);
      if d < Priority(s.queue[h]) {
        var w := Without(s.queue, h);
        HeldWithout(s.queue, h);
        HeldAppend(w, e);
        assert |w| + 1 == |s.queue|;
      }
    }
  }

  /** An offer to a queue of bound at least one succeeds, and the queue then
      covers the offered dict too. */
  lemma OfferCovers(n: Node, target: Person, ageProximity: int, s: QState<Node>, dist: Distance,
                    seen: multiset<Neighbor>)
    requires Invariant(s) && s.bound >= 1 && Covers(s, seen)
    ensures var r := Offer(n, target, ageProximity, s, dist);
            r.Ok? && Invariant(r.value) && r.value.bound == s.bound &&
            Covers(r.value, seen + OfferedNeighbor(n.person, target, ageProximity, dist))
  {
    var p := n.person;
    if Abs(target.age - p.age) <= ageProximity {
      var d := DistanceTo(p, target, dist);
      assert ToNeighbor(Rank(Entry(-d, s.index, n))) == NeighborOf(p, target, dist);
      PushKeepsBound(s, n, d);
      PushCovers(s, n, d, seen);
    } else {
      assert seen + OfferedNeighbor(n.person, target, ageProximity, dist) == seen;
    }
  }

  lemma {:induction false} KnnSearchCovers(t: Tree, target: Person, ageProximity: int, depth: nat,
                                           s: QState<Node>, dist: Distance, pr: Pruning, seen: multiset<Neighbor>)
    requires Invariant(s) && s.bound >= 1 && Covers(s, seen)
    ensures CoversAfter(KnnSearch(t, target, ageProximity, depth, s, dist, pr), s.bound,
                        seen + AdmissibleNeighbors(t, target, ageProximity, dist))
    decreases t, 2
  {
    match t
    case Leaf =>
      assert seen + AdmissibleNeighbors(t, target, ageProximity, dist) == seen;
    case Branch(l, p, r) =>
      var here := OfferedNeighbor(p, target, ageProximity, dist);
      OfferCovers(NodeOf(l, p, r), target, ageProximity, s, dist, seen);
      var s1 := Offer(NodeOf(l, p, r), target, ageProximity, s, dist).value;
      KnnChildrenCovers(t, target, ageProximity, depth, s1, dist, pr, seen + here);
      assert seen + here + AdmissibleNeighbors(l, target, ageProximity, dist) + AdmissibleNeighbors(r, target, ageProximity, dist)
          == seen + AdmissibleNeighbors(t, target, ageProximity, dist);
  }

  lemma {:induction false} KnnChildrenCovers(t: Tree, target: Person, ageProximity: int, depth: nat,
                                             s1: QState<Node>, dist: Distance, pr: Pruning, seen: multiset<Neighbor>)
    requires t.Branch?
    requires Invariant(s1) && s1.bound >= 1 && Covers(s1, seen)
    ensures CoversAfter(KnnChildren(t, target, ageProximity, depth, s1, dist, pr), s1.bound,
                        seen + AdmissibleNeighbors(t.left, target, ageProximity, dist) +
                        AdmissibleNeighbors(t.right, target, ageProximity, dist))
    decreases t, 1
  {
    var a := depth % NumAxes;
    var goLeft := Coord(target, a) < Coord(t.person, a);
    var near := if goLeft then t.left else t.right;
    var far := if goLeft then t.right else t.left;
    var nearSeen := seen + AdmissibleNeighbors(near, target, ageProximity, dist);
    KnnSearchCovers(near, target, ageProximity, depth + 1, s1, dist, pr, seen);
    var s2 := KnnSearch(near, target, ageProximity, depth + 1, s1, dist, pr).value;
    KnnFarCovers(t, target, ageProximity, depth, s2, dist, pr, nearSeen);
    assert KnnChildren(t, target, ageProximity, depth, s1, dist, pr) == KnnFar(t, target, ageProximity, depth, s2, dist, pr);
    SidesSum(seen, AdmissibleNeighbors(t.left, target, ageProximity, dist),
             AdmissibleNeighbors(t.right, target, ageProximity, dist), goLeft);
  }

  lemma SidesSum<U>(seen: multiset<U>, left: multiset<U>, right: multiset<U>, goLeft: bool)
    ensures seen + (if goLeft then left else right) + (if goLeft then right else left) == seen + left + right
  {
  }

  lemma {:induction false} KnnFarCovers(t: Tree, target: Person, ageProximity: int, depth: nat,
                                        s2: QState<Node>, dist: Distance, pr: Pruning, seen: multiset<Neighbor>)
    requires t.Branch?
    requires Invariant(s2) && s2.bound >= 1 && Covers(s2, seen)
    ensures var far := if Coord(target, depth % NumAxes) < Coord(t.person, depth % NumAxes) then t.right else t.left;
            CoversAfter(KnnFar(t, target, ageProximity, depth, s2, dist, pr), s2.bound,
                        seen + AdmissibleNeighbors(far, target, ageProximity, dist))
    decreases t, 0
  {
    var a := depth % NumAxes;
    var goLeft := Coord(target, a) < Coord(t.person, a);
    var far := if goLeft then t.right else t.left;
    if Crosses(t, target, depth, s2, dist, pr) {
      KnnSearchCovers(far, target, ageProximity, depth + 1, s2, dist, pr, seen);
    } else {
      assert |s2.queue| == s2.bound && s2.queue != [];
    }
  }

  /** For k at least one, `k_nearest_neighbors` reports min(k, m) dicts,
      where m is the number of people of the tree whose age is within range,
      and each of them is the dict of a different such person. */
  lemma KNearestCount(t: Tree, target: Person, k: int, ageProximity: int, dist: Distance, pr: Pruning)
    requires k >= 1
    ensures var r := KNearest(t, target, k, ageProximity, dist, pr);
            var m := |AdmissibleNeighbors(t, target, ageProximity, dist)|;
            r.Ok? && multiset(r.value) <= AdmissibleNeighbors(t, target, ageProximity, dist) &&
            |r.value| == (if k <= m then k else m)
  {
    var s0: QState<Node> := QState([], 0, k);
    assert Held(s0.queue) == multiset{};
    KnnSearchCovers(t, target, ageProximity, 0, s0, dist, pr, multiset{});
    var s := KnnSearch(t, target, ageProximity, 0, s0, dist, pr).value;
    var all := AdmissibleNeighbors(t, target, ageProximity, dist);
    assert multiset{} + all == all;
    ResultHeld(s.queue);
    assert |Held(s.queue)| == |s.queue|;
    SubCard(Held(s.queue), all);
  }

  // ---------------------------------------------- which people are reported

  predicate Between(x: int, v: int, y: int) {
    (x <= v <= y) || (y <= v <= x)
  }

  /** The distance functions under which pruning by the splitting line is
      safe: a person beyond the line through node on an axis, seen from the
      target, is at least as far as that line. */
  ghost predicate LinesBound(dist: Distance) {
    forall target: Person, node: Person, p: Person, a: nat ::
      Between(Coord(target, a), Coord(node, a), Coord(p, a)) ==>
        LineDistance(dist, target, node, a) <= DistanceTo(p, target, dist)
  }

  /** An admissible p is in the queue with its distance, or the queue is full
      of people no farther than p. */
  ghost predicate Nearest(s: QState<Node>, p: Person, target: Person, ageProximity: int, dist: Distance) {
    Abs(target.age - p.age) <= ageProximity ==>
      (exists e :: e in s.queue && e.item.person == p && Priority(e) == DistanceTo(p, target, dist)) ||
      (|s.queue| == s.bound && forall e :: e in s.queue ==> Priority(e) <= DistanceTo(p, target, dist))
  }

  ghost predicate AllNearest(s: QState<Node>, done: multiset<Person>, target: Person, ageProximity: int,
                             dist: Distance) {
    forall p :: p in done ==> Nearest(s, p, target, ageProximity, dist)
  }

  /** A step of the search succeeded, kept the invariant and the bound, and
      every person in done is nearest in the sense above. */
  ghost predicate NearestAfter(r: Result<QState<Node>>, bound: int, done: multiset<Person>, target: Person,
                               ageProximity: int, dist: Distance) {
    r.Ok? && Invariant(r.value) && r.value.bound == bound && AllNearest(r.value, done, target, ageProximity, dist)
  }

  /** A push keeps every person nearest: an evicted cell held the largest
      priority, larger than the one pushed in its place. */
  lemma PushKeepsNearest(s: QState<Node>, n: Node, d: int, p: Person, target: Person, ageProximity: int,
                         dist: Distance)
    requires Invariant(s) && s.bound >= 1 && Nearest(s, p, target, ageProximity, dist)
    ensures Nearest(AfterPush(s, n, d).value, p, target, ageProximity, dist)
  {
    var q := s.queue;
    var dp := DistanceTo(p, target, dist);
    if |q| >= s.bound && d < Priority(q[Head(q)]) && Abs(target.age - p.age) <= ageProximity {
      var h := Head(q);
      var w := Without(q, h);
      var s' := AfterPush(s, n, d).value;
      WithoutMultiset(q, h);
      assert s'.queue == w + [Entry(-d, s.index, n)];
      if e :| e in q && e.item.person == p && Priority(e) == dp {
        if e != q[h] {
          var i :| 0 <= i < |q| && q[i] == e;
          assert i != h;
          assert e in w by {
            if i < h { assert w[i] == e; } else { assert w[i - 1] == e; }
          }
        } else {
          forall f | f in s'.queue ensures Priority(f) <= dp {
            if f in w {
              var j :| 0 <= j < |q| && q[j] == f;
            }
          }
        }
      } else {
        forall f | f in s'.queue ensures Priority(f) <= dp {
          if f in w {
            var j :| 0 <= j < |q| && q[j] == f;
          }
        }
      }
    }
  }

  /** The person pushed is nearest afterwards. */
  lemma PushMakesNearest(s: QState<Node>, n: Node, target: Person, ageProximity: int, dist: Distance)
    requires Invariant(s) && s.bound >= 1 && Abs(target.age - n.person.age) <= ageProximity
    ensures Nearest(AfterPush(s, n, DistanceTo(n.person, target, dist)).value, n.person, target,
                    ageProximity, dist)
  {
    var q := s.queue;
    var d := DistanceTo(n.person, target, dist);
    var e := Entry(-d, s.index, n);
    if |q| >= s.bound && d >= Priority(q[Head(q)]) {
      var h := Head(q);
      forall f | f in q ensures Priority(f) <= d {
        var j :| 0 <= j < |q| && q[j] == f;
      }
    } else {
      assert e in AfterPush(s, n, d).value.queue;
    }
  }

  lemma OfferNearest(n: Node, target: Person, ageProximity: int, s: QState<Node>, dist: Distance,
                     done: multiset<Person>)
    requires Invariant(s) && s.bound >= 1 && AllNearest(s, done, target, ageProximity, dist)
    ensures NearestAfter(Offer(n, target, ageProximity, s, dist), s.bound, done + multiset{n.person},
                         target, ageProximity, dist)
  {
    var p := n.person;
    if Abs(target.age - p.age) <= ageProximity {
      var d := DistanceTo(p, target, dist);
      PushKeepsBound(s, n, d);
      forall x | x in done ensures Nearest(AfterPush(s, n, d).value, x, target, ageProximity, dist) {
        PushKeepsNearest(s, n, d, x, target, ageProximity, dist);
      }
      PushMakesNearest(s, n, target, ageProximity, dist);
    }
  }

  /** A full queue whose largest priority is at most the distance to the
      splitting line holds people no farther than anyone beyond the line. */
  lemma PrunedNearest(t: Tree, target: Person, ageProximity: int, depth: nat, s2: QState<Node>, dist: Distance,
                      p: Person)
    requires t.Branch? && KdOrdered(t, depth) && LinesBound(dist)
    requires Invariant(s2) && s2.bound >= 1 && !Crosses(t, target, depth, s2, dist, ToLine)
    requires var a := depth % NumAxes;
             p in (if Coord(target, a) < Coord(t.person, a) then Elements(t.right) else Elements(t.left))
    ensures Nearest(s2, p, target, ageProximity, dist)
  {
    var a := depth % NumAxes;
    var q := s2.queue;
    var h := Head(q);
    assert Between(Coord(target, a), Coord(t.person, a), Coord(p, a));
    assert LineDistance(dist, target, t.person, a) <= DistanceTo(p, target, dist);
    forall f | f in q ensures Priority(f) <= DistanceTo(p, target, dist) {
      var j :| 0 <= j < |q| && q[j] == f;
    }
  }

  lemma {:induction false} KnnSearchNearest(t: Tree, target: Person, ageProximity: int, depth: nat,
                                            s: QState<Node>, dist: Distance, done: multiset<Person>)
    requires Invariant(s) && s.bound >= 1 && KdOrdered(t, depth) && LinesBound(dist)
    requires AllNearest(s, done, target, ageProximity, dist)
    ensures NearestAfter(KnnSearch(t, target, ageProximity, depth, s, dist, ToLine), s.bound,
                         done + Elements(t), target, ageProximity, dist)
    decreases t, 2
  {
    match t
    case Leaf =>
      assert done + Elements(t) == done;
    case Branch(l, p, r) =>
      OfferNearest(NodeOf(l, p, r), target, ageProximity, s, dist, done);
      var s1 := Offer(NodeOf(l, p, r), target, ageProximity, s, dist).value;
      KnnChildrenNearest(t, target, ageProximity, depth, s1, dist, done + multiset{p});
      assert done + multiset{p} + Elements(l) + Elements(r) == done + Elements(t);
  }

  lemma {:induction false} KnnChildrenNearest(t: Tree, target: Person, ageProximity: int, depth: nat,
                                              s1: QState<Node>, dist: Distance, done: multiset<Person>)
    requires t.Branch?
    requires Invariant(s1) && s1.bound >= 1 && KdOrdered(t, depth) && LinesBound(dist)
    requires AllNearest(s1, done, target, ageProximity, dist)
    ensures NearestAfter(KnnChildren(t, target, ageProximity, depth, s1, dist, ToLine), s1.bound,
                         done + Elements(t.left) + Elements(t.right), target, ageProximity, dist)
    decreases t, 1
  {
    var a := depth % NumAxes;
    var goLeft := Coord(target, a) < Coord(t.person, a);
    var near := if goLeft then t.left else t.right;
    KnnSearchNearest(near, target, ageProximity, depth + 1, s1, dist, done);
    var s2 := KnnSearch(near, target, ageProximity, depth + 1, s1, dist, ToLine).value;
    KnnFarNearest(t, target, ageProximity, depth, s2, dist, done + Elements(near));
    assert KnnChildren(t, target, ageProximity, depth, s1, dist, ToLine) ==
           KnnFar(t, target, ageProximity, depth, s2, dist, ToLine);
    SidesSum(done, Elements(t.left), Elements(t.right), goLeft);
  }

  lemma {:induction false} KnnFarNearest(t: Tree, target: Person, ageProximity: int, depth: nat,
                                         s2: QState<Node>, dist: Distance, done: multiset<Person>)
    requires t.Branch?
    requires Invariant(s2) && s2.bound >= 1 && KdOrdered(t, depth) && LinesBound(dist)
    requires AllNearest(s2, done, target, ageProximity, dist)
    ensures var far := if Coord(target, depth % NumAxes) < Coord(t.person, depth % NumAxes) then t.right else t.left;
            NearestAfter(KnnFar(t, target, ageProximity, depth, s2, dist, ToLine), s2.bound,
                         done + Elements(far), target, ageProximity, dist)
    decreases t, 0
  {
    var a := depth % NumAxes;
    var far := if Coord(target, a) < Coord(t.person, a) then t.right else t.left;
    if Crosses(t, target, depth, s2, dist, ToLine) {
      KnnSearchNearest(far, target, ageProximity, depth + 1, s2, dist, done);
    } else {
      forall p | p in done + Elements(far) ensures Nearest(s2, p, target, ageProximity, dist) {
        if p !in done {
          PrunedNearest(t, target, ageProximity, depth, s2, dist, p);
        }
      }
    }
  }

  /** The dict of a queue cell is among those reported from the queue. */
  lemma CellHeld(q: seq<Entry<Node>>, e: Entry<Node>)
    requires e in q
    ensures ToNeighbor(Rank(e)) in Held(q)
  {
    var i :| 0 <= i < |q| && q[i] == e;
    assert Neighbors(Ranks(q))[i] == ToNeighbor(Rank(e));
  }

  /** Every dict reported from the queue comes from one of its cells. */
  lemma HeldCell(q: seq<Entry<Node>>, x: Neighbor) returns (e: Entry<Node>)
    requires x in Held(q)
    ensures e in q && x == ToNeighbor(Rank(e))
  {
    var ns := Neighbors(Ranks(q));
    var i :| 0 <= i < |ns| && ns[i] == x;
    e := q[i];
  }

  /** The report of a queue holds the dict of each of its cells ... */
  lemma ReportPresent(q: seq<Entry<Node>>, e: Entry<Node>)
    requires e in q
    ensures ToNeighbor(Rank(e)) in SortBy(Neighbors(Drain(q)), (n: Neighbor) => n.distance)
  {
    ResultHeld(q);
    CellHeld(q, e);
  }

  /** ... and no distance above the largest priority of the queue. */
  lemma ReportBelow(q: seq<Entry<Node>>, d: int)
    requires forall e :: e in q ==> Priority(e) <= d
    ensures forall x :: x in SortBy(Neighbors(Drain(q)), (n: Neighbor) => n.distance) ==> x.distance <= d
  {
    var r := SortBy(Neighbors(Drain(q)), (n: Neighbor) => n.distance);
    ResultHeld(q);
    forall x | x in r ensures x.distance <= d {
      assert x in multiset(r);
      var e := HeldCell(q, x);
    }
  }

  /** A person nearest in the queue's sense is reported, or the report is
      full of people no farther. */
  lemma ReportNearest(s: QState<Node>, p: Person, target: Person, ageProximity: int, dist: Distance)
    requires Nearest(s, p, target, ageProximity, dist) && Abs(target.age - p.age) <= ageProximity
    ensures var r := SortBy(Neighbors(Drain(s.queue)), (n: Neighbor) => n.distance);
            NeighborOf(p, target, dist) in r ||
            (|r| == s.bound && forall x :: x in r ==> x.distance <= DistanceTo(p, target, dist))
  {
    var q := s.queue;
    ResultHeld(q);
    if e :| e in q && e.item.person == p && Priority(e) == DistanceTo(p, target, dist) {
      ReportPresent(q, e);
      assert ToNeighbor(Rank(e)) == NeighborOf(p, target, dist);
    } else {
      ReportBelow(q, DistanceTo(p, target, dist));
    }
  }

  /** With pruning by the splitting line, on a k-d ordered tree and a distance
      under which that pruning is safe, every person of the tree whose age is
      within range is reported, or k people no farther than that person are. */
  lemma KNearestOptimal(t: Tree, target: Person, k: int, ageProximity: int, dist: Distance)
    requires k >= 1 && KdOrdered(t, 0) && LinesBound(dist)
    ensures var r := KNearest(t, target, k, ageProximity, dist, ToLine);
            r.Ok? &&
            forall p :: p in Elements(t) && Abs(target.age - p.age) <= ageProximity ==>
              NeighborOf(p, target, dist) in r.value ||
              (|r.value| == k && forall x :: x in r.value ==> x.distance <= DistanceTo(p, target, dist))
  {
    var s0: QState<Node> := QState([], 0, k);
    KnnSearchNearest(t, target, ageProximity, 0, s0, dist, multiset{});
    assert multiset{} + Elements(t) == Elements(t);
    var s := KnnSearch(t, target, ageProximity, 0, s0, dist, ToLine).value;
    forall p | p in Elements(t) && Abs(target.age - p.age) <= ageProximity
      ensures Nearest(s, p, target, ageProximity, dist)
    {
    }
    forall p | p in Elements(t) && Abs(target.age - p.age) <= ageProximity {
      ReportNearest(s, p, target, ageProximity, dist);
    }
  }

  // ------------------------------------------ pruning by the node's distance

  /** The city-block distance: a distance under which pruning by the
      splitting line is safe. */
  function Manhattan(lat1: int, lng1: int, lat2: int, lng2: int): int {
    Abs(lat1 - lat2) + Abs(lng1 - lng2)
  }

  lemma ManhattanLinesBound()
    ensures LinesBound(Manhattan)
  {
    forall target: Person, node: Person, p: Person, a: nat
      | Between(Coord(target, a), Coord(node, a), Coord(p, a))
      ensures LineDistance(Manhattan, target, node, a) <= DistanceTo(p, target, Manhattan)
    {
      if a == 0 {
        assert Abs(target.latitude - node.latitude) <= Abs(p.latitude - target.latitude);
      } else {
        assert Abs(target.longitude - node.longitude) <= Abs(p.longitude - target.longitude);
      }
    }
  }

  /** A single-element report of a one-cell queue. */
  lemma ReportOne(e: Entry<Node>)
    ensures SortBy(Neighbors(Drain([e])), (n: Neighbor) => n.distance) == [ToNeighbor(Rank(e))]
  {
    var r := SortBy(Neighbors(Drain([e])), (n: Neighbor) => n.distance);
    ResultHeld([e]);
    assert Held([e]) == multiset{ToNeighbor(Rank(e))};
    assert r[0] in multiset(r);
  }

  // The tree of the example below: n splits on latitude 10, with q below and
  // p on the line; the target sits at latitude 9 under q's longitude.
  const ExampleQ := Person("q", "q", 30, 0, 0)
  const ExampleN := Person("n", "n", 30, 10, 100)
  const ExampleP := Person("p", "p", 30, 10, 0)
  const ExampleTarget := Person("t", "t", 30, 9, 0)
  const ExampleLeft := Branch(Leaf, ExampleQ, Leaf)
  const ExampleRight := Branch(Leaf, ExampleP, Leaf)
  const ExampleTree := Branch(ExampleLeft, ExampleN, ExampleRight)

  // The queue cells of the example: n at distance 101, q at 9, p at 1.
  const CellN := Entry(-101, 0, NodeOf(ExampleLeft, ExampleN, ExampleRight))
  const CellQ := Entry(-9, 1, NodeOf(Leaf, ExampleQ, Leaf))
  const CellP := Entry(-1, 2, NodeOf(Leaf, ExampleP, Leaf))

  /** Searching q's subtree from the queue holding n evicts n for q, under
      either test. */
  lemma ExampleLeftSearch(pr: Pruning)
    ensures KnnSearch(ExampleLeft, ExampleTarget, 0, 1, QState([CellN], 1, 1), Manhattan, pr) ==
            Ok(QState([CellQ], 2, 1))
  {
    var s1 := QState([CellN], 1, 1);
    var s2 := QState([CellQ], 2, 1);
    assert Manhattan(0, 0, 9, 0) == 9;
    assert Head([CellN]) == 0 && Without([CellN], 0) == [];
    assert Inserted(QState([], 1, 1), NodeOf(Leaf, ExampleQ, Leaf), 9) == s2 by { assert [] + [CellQ] == [CellQ]; }
    assert Offer(NodeOf(Leaf, ExampleQ, Leaf), ExampleTarget, 0, s1, Manhattan) == Ok(s2);
    assert Head([CellQ]) == 0;
  }

  /** The root offers n first. */
  lemma ExampleRootOffer()
    ensures Offer(NodeOf(ExampleLeft, ExampleN, ExampleRight), ExampleTarget, 0, QState([], 0, 1), Manhattan) ==
            Ok(QState([CellN], 1, 1))
  {
    var s0: QState<Node> := QState([], 0, 1);
    assert Manhattan(10, 100, 9, 0) == 101;
    assert s0.queue + [CellN] == [CellN];
    assert Inserted(s0, NodeOf(ExampleLeft, ExampleN, ExampleRight), 101) == QState([CellN], 1, 1);
  }

  /** With the source's test the root compares 101 with 9 and stops. */
  lemma ExampleAsWritten()
    ensures KnnSearch(ExampleTree, ExampleTarget, 0, 0, QState([], 0, 1), Manhattan, AsWritten) ==
            Ok(QState([CellQ], 2, 1))
  {
    ExampleRootOffer();
    ExampleLeftSearch(AsWritten);
    assert Manhattan(9, 0, 10, 100) == 101;
    assert Head([CellQ]) == 0;
    assert !Crosses(ExampleTree, ExampleTarget, 0, QState([CellQ], 2, 1), Manhattan, AsWritten);
  }

  /** With the splitting line the root compares 1 with 9, searches p's
      subtree and evicts q for p. */
  lemma ExampleToLine()
    ensures KnnSearch(ExampleTree, ExampleTarget, 0, 0, QState([], 0, 1), Manhattan, ToLine) ==
            Ok(QState([CellP], 3, 1))
  {
    ExampleRootOffer();
    ExampleLeftSearch(ToLine);
    var s2 := QState([CellQ], 2, 1);
    var s3 := QState([CellP], 3, 1);
    assert Manhattan(9, 0, 10, 0) == 1 && Manhattan(10, 0, 9, 0) == 1 && Manhattan(9, 0, 9, 0) == 0;
    assert Head([CellQ]) == 0 && Without([CellQ], 0) == [];
    assert Crosses(ExampleTree, ExampleTarget, 0, s2, Manhattan, ToLine);
    assert Inserted(QState([], 2, 1), NodeOf(Leaf, ExampleP, Leaf), 1) == s3 by { assert [] + [CellP] == [CellP]; }
    assert Offer(NodeOf(Leaf, ExampleP, Leaf), ExampleTarget, 0, s2, Manhattan) == Ok(s3);
    assert Head([CellP]) == 0;
    assert KnnSearch(ExampleRight, ExampleTarget, 0, 1, s2, Manhattan, ToLine) == Ok(s3);
  }

  /** The source prunes the far side of a latitude split by the target's
      full distance to the node. Under the city-block distance, on a k-d
      ordered tree, the search for one neighbour then keeps q at distance 9
      and never visits p at distance 1, whereas pruning by the splitting
      line reports p. */
  lemma KNearestMissesNearer()
    ensures KdOrdered(ExampleTree, 0) && LinesBound(Manhattan)
    ensures ExampleP in Elements(ExampleTree) &&
            DistanceTo(ExampleP, ExampleTarget, Manhattan) < DistanceTo(ExampleQ, ExampleTarget, Manhattan)
    ensures KNearest(ExampleTree, ExampleTarget, 1, 0, Manhattan, AsWritten) ==
            Ok([NeighborOf(ExampleQ, ExampleTarget, Manhattan)])
    ensures KNearest(ExampleTree, ExampleTarget, 1, 0, Manhattan, ToLine) ==
            Ok([NeighborOf(ExampleP, ExampleTarget, Manhattan)])
  {
    ManhattanLinesBound();
    ExampleOrdered();
    ExampleReports();
  }

  lemma ExampleOrdered()
    ensures KdOrdered(ExampleTree, 0)
    ensures ExampleP in Elements(ExampleTree) &&
            DistanceTo(ExampleP, ExampleTarget, Manhattan) < DistanceTo(ExampleQ, ExampleTarget, Manhattan)
  {
    assert Elements(ExampleLeft) == multiset{ExampleQ} && Elements(ExampleRight) == multiset{ExampleP};
    assert Manhattan(10, 0, 9, 0) == 1 && Manhattan(0, 0, 9, 0) == 9;
  }

  lemma ExampleReports()
    ensures KNearest(ExampleTree, ExampleTarget, 1, 0, Manhattan, AsWritten) ==
            Ok([NeighborOf(ExampleQ, ExampleTarget, Manhattan)])
    ensures KNearest(ExampleTree, ExampleTarget, 1, 0, Manhattan, ToLine) ==
            Ok([NeighborOf(ExampleP, ExampleTarget, Manhattan)])
  {
    assert Manhattan(10, 0, 9, 0) == 1 && Manhattan(0, 0, 9, 0) == 9;
    ExampleAsWritten();
    ReportOne(CellQ);
    assert ToNeighbor(Rank(CellQ)) == NeighborOf(ExampleQ, ExampleTarget, Manhattan);
    ExampleToLine();
    ReportOne(CellP);
    assert ToNeighbor(Rank(CellP)) == NeighborOf(ExampleP, ExampleTarget, Manhattan);
  }
}
