/** KDTreeDataStore in its in-memory mode: a key-value dict that holds the
    id of the root under "root_id" and one node dict per person under the
    person's id, each node naming its subtrees by their root ids. The class
    keeps a ghost Tree, Shape, that the dict represents; every index method
    is proved to do to the dict what the tree functions of KdTree say. */
module KdTreeStore {
  import opened Results
  import opened Sorting
  import opened BoundedQueue
  import opened IntText
  import opened KdTree

  /** A value of the dict: None, a string (the root id or a counter) or a
      node dict. */
  datatype Value = NoneValue | Text(text: string) | Record(node: Node)

  /** Python truthiness of a possibly missing id. */
  predicate Present(id: Option<string>) {
    id.Some? && id.value != ""
  }

  /** Python truthiness of a stored value (a node dict is never empty). */
  predicate Truthy(v: Value) {
    match v
    case NoneValue => false
    case Text(s) => s != ""
    case Record(_) => true
  }

  /** The id argument a stored value makes: a string, otherwise None. */
  function AsId(v: Value): Option<string> {
    if v.Text? then Some(v.text) else None
  }

  /** How an id, possibly None, is stored. */
  function IdValue(id: Option<string>): (v: Value)
    ensures AsId(v) == id
  {
    if id.Some? then Text(id.value) else NoneValue
  }

  /** `get_node_from_id` reads a child link spelled "None" as no child. */
  function Normalised(n: Node): Node {
    n.(leftId := if n.leftId == Some("None") then None else n.leftId,
       rightId := if n.rightId == Some("None") then None else n.rightId)
  }

  datatype Side = Left | Right

  /** The node after `update_item_key(item, 'left_id' or 'right_id', id)`. */
  function WithChild(n: Node, side: Side, id: string): Node {
    if side == Left then n.(leftId := Some(id)) else n.(rightId := Some(id))
  }

  /** What `_construct_index` writes for tree t: one node dict per node,
      left subtree first, then right subtree, then the node itself. */
  function Table(t: Tree): map<string, Value> {
    match t
    case Leaf => map[]
    case Branch(l, p, r) => Table(l) + Table(r) + map[p.id := Record(NodeOf(l, p, r))]
  }

  /** The dict holds tree t: each node of t is stored under its id, with
      the ids of its subtrees' roots as links. */
  ghost predicate Stored(kv: map<string, Value>, t: Tree)
    decreases t
  {
    match t
    case Leaf => true
    case Branch(l, p, r) =>
      ValidId(p.id) && p.id in kv && kv[p.id] == Record(NodeOf(l, p, r)) &&
      Stored(kv, l) && Stored(kv, r)
  }

  /** The table of a tree is keyed by exactly the tree's ids. */
  lemma {:induction false} TableKeys(t: Tree)
    ensures Table(t).Keys == Ids(t)
    decreases t
  {
    match t
    case Leaf =>
    case Branch(l, p, r) =>
      TableKeys(l);
      TableKeys(r);
  }

  /** Every entry of m is a node dict of a person of e, stored under that
      person's id. */
  ghost predicate NodeEntries(m: map<string, Value>, e: multiset<Person>) {
    forall k :: k in m ==> m[k].Record? && m[k].node.person.id == k && m[k].node.person in e
  }

  lemma EntriesUnion(a: map<string, Value>, b: map<string, Value>, e: multiset<Person>)
    requires NodeEntries(a, e) && NodeEntries(b, e)
    ensures NodeEntries(a + b, e)
  {
  }

  lemma EntriesWiden(m: map<string, Value>, e: multiset<Person>, e': multiset<Person>)
    requires NodeEntries(m, e) && e <= e'
    ensures NodeEntries(m, e')
  {
  }

  /** Every entry of a tree's table is a node dict of one of its persons,
      stored under that person's id. */
  lemma {:induction false} TableNodes(t: Tree)
    ensures NodeEntries(Table(t), Elements(t))
    decreases t
  {
    match t
    case Leaf =>
    case Branch(l, p, r) =>
      TableNodes(l);
      TableNodes(r);
      var e := Elements(t);
      EntriesWiden(Table(l), Elements(l), e);
      EntriesWiden(Table(r), Elements(r), e);
      var own := map[p.id := Record(NodeOf(l, p, r))];
      assert NodeEntries(own, e);
      EntriesUnion(Table(l), Table(r), e);
      EntriesUnion(Table(l) + Table(r), own, e);
  }

  /** Writes outside a tree's ids keep it stored. */
  lemma {:induction false} StoredFrame(kv: map<string, Value>, kv': map<string, Value>, t: Tree)
    requires Stored(kv, t)
    requires forall k :: k in Ids(t) && k in kv ==> k in kv' && kv'[k] == kv[k]
    ensures Stored(kv', t)
    decreases t
  {
    match t
    case Leaf =>
    case Branch(l, p, r) =>
      StoredFrame(kv, kv', l);
      StoredFrame(kv, kv', r);
  }

  /** A write under a key outside a tree's ids keeps it stored. */
  lemma {:induction false} StoredUpdate(kv: map<string, Value>, t: Tree, key: string, v: Value)
    requires Stored(kv, t) && key !in Ids(t)
    ensures Stored(kv[key := v], t)
    decreases t
  {
    match t
    case Leaf =>
    case Branch(l, p, r) =>
      StoredUpdate(kv, l, key, v);
      StoredUpdate(kv, r, key, v);
  }

  /** The table of a well-keyed tree stores the tree. */
  lemma {:induction false} TableStoresTree(t: Tree)
    requires WellKeyed(t)
    ensures Stored(Table(t), t)
    decreases t
  {
    match t
    case Leaf =>
    case Branch(l, p, r) =>
      KeyedBranch(l, p, r);
      TableKeys(l);
      TableKeys(r);
      TableStoresTree(l);
      TableStoresTree(r);
      var all := Table(t);
      forall k | k in Ids(l) && k in Table(l) ensures k in all && all[k] == Table(l)[k] {
        assert k !in Table(r) && k != p.id;
      }
      StoredFrame(Table(l), all, l);
      forall k | k in Ids(r) && k in Table(r) ensures k in all && all[k] == Table(r)[k] {
        assert k != p.id;
      }
      StoredFrame(Table(r), all, r);
  }

  /** Writing the table of a well-keyed tree over any dict stores the tree. */
  lemma TableStores(kv: map<string, Value>, t: Tree)
    requires WellKeyed(t)
    ensures Stored(kv + Table(t), t)
  {
    TableStoresTree(t);
    StoredFrame(Table(t), kv + Table(t), t);
  }

  /** A well-keyed tree has as many ids as persons. */
  lemma {:induction false} IdsCount(t: Tree)
    requires WellKeyed(t)
    ensures |Ids(t)| == |Elements(t)|
    decreases t
  {
    match t
    case Leaf =>
    case Branch(l, p, r) =>
      KeyedBranch(l, p, r);
      IdsCount(l);
      IdsCount(r);
  }

  /** `_construct_index` on items with distinct valid ids stores every item
      exactly once, under its own id, as a node dict of that item. */
  lemma ConstructStoresEach(items: seq<Person>, depth: nat)
    requires Keyed(multiset(items))
    ensures var t := Table(BuildTree(items, depth));
            |t| == |items| &&
            (forall p :: p in items ==> p.id in t && t[p.id].Record? && t[p.id].node.person == p) &&
            (forall k :: k in t ==> exists p :: p in items && p.id == k)
  {
    var tree := BuildTree(items, depth);
    BuildElements(items, depth);
    TableKeys(tree);
    TableNodes(tree);
    IdsCount(tree);
    var t := Table(tree);
    assert |t| == |t.Keys|;
    forall p | p in items ensures p.id in t && t[p.id].Record? && t[p.id].node.person == p {
      assert p in multiset(items);
      IdOfElement(tree, p);
      var q := t[p.id].node.person;
      assert q in multiset(items) && q.id == p.id;
    }
    forall k | k in t ensures exists p :: p in items && p.id == k {
      var p := t[k].node.person;
      assert p in multiset(items);
    }
  }

  /** Nodes of a stored tree carry no link that `get_node_from_id` rewrites. */
  lemma StoredNormalised(kv: map<string, Value>, l: Tree, p: Person, r: Tree)
    requires Stored(kv, Branch(l, p, r))
    ensures Normalised(NodeOf(l, p, r)) == NodeOf(l, p, r)
  {
  }

  lemma UpdateSame<K, V>(m: map<K, V>, k: K)
    requires k in m
    ensures m[k := m[k]] == m
  {
  }

  lemma UnionAssoc<K, V>(a: map<K, V>, b: map<K, V>, c: map<K, V>)
    ensures (a + b) + c == a + (b + c)
  {
  }

  lemma UpdateIsUnion<K, V>(a: map<K, V>, k: K, v: V)
    ensures a[k := v] == a + map[k := v]
  {
  }

  /** The writes of one `_construct_index` call, subtrees first, make up
      the table of the tree it builds. */
  lemma BuildStep(kv0: map<string, Value>, items: seq<Person>, depth: nat)
    requires |items| > 0
    ensures var s := GetMedian(items, depth % NumAxes);
            var l := BuildTree(s.left, depth + 1);
            var r := BuildTree(s.right, depth + 1);
            (kv0 + Table(l) + Table(r))[s.median.id := Record(NodeOf(l, s.median, r))] ==
            kv0 + Table(BuildTree(items, depth))
  {
    var s := GetMedian(items, depth % NumAxes);
    var l := BuildTree(s.left, depth + 1);
    var r := BuildTree(s.right, depth + 1);
    var own := map[s.median.id := Record(NodeOf(l, s.median, r))];
    assert Table(BuildTree(items, depth)) == Table(l) + Table(r) + own;
    UpdateIsUnion(kv0 + Table(l) + Table(r), s.median.id, Record(NodeOf(l, s.median, r)));
    UnionAssoc(kv0, Table(l), Table(r));
    UnionAssoc(kv0, Table(l) + Table(r), own);
  }

  lemma AxisStep(axis: nat, depth: nat)
    requires axis % NumAxes == depth % NumAxes
    ensures (axis % NumAxes + 1) % NumAxes == (depth + 1) % NumAxes
  {
  }

  /** What `_insert_item` does to the dict kv for tree t: below an empty
      tree it sets the root id to x's id and raises KeyError; otherwise it
      reports the parent of x and leaves the dict, with the same keys,
      storing the tree grown by x, changing no entry outside t's ids. */
  ghost predicate Grafted(kv: map<string, Value>, kv': map<string, Value>, t: Tree, x: Person, depth: nat,
                          r: Result<string>)
  {
    if t.Leaf? then
      r == Err(KeyError) && kv' == kv[RootKey := Text(x.id)]
    else
      r == Ok(InsertParent(t, x, depth).value) &&
      Stored(kv', InsertTree(t, x, depth)) &&
      kv'.Keys == kv.Keys &&
      forall k :: k in kv' && k !in Ids(t) ==> kv'[k] == kv[k]
  }

  /** The root's id of a well-keyed tree is not among its subtrees' ids. */
  lemma RootNotBelow(t: Tree)
    requires t.Branch? && WellKeyed(t)
    ensures t.person.id !in Ids(t.left) && t.person.id !in Ids(t.right)
  {
    KeyedBranch(t.left, t.person, t.right);
  }

  /** The subtrees of a well-keyed tree share no id. */
  lemma SidesApart(t: Tree)
    requires t.Branch? && WellKeyed(t)
    ensures Ids(t.left) !! Ids(t.right)
  {
    KeyedBranch(t.left, t.person, t.right);
  }

  /** The state `_insert_item` expects below tree t: t is stored and
      well keyed, and x, whose id is new to t, is stored as a childless
      node. */
  ghost predicate ReadyToGraft(kv: map<string, Value>, t: Tree, x: Person) {
    Stored(kv, t) && WellKeyed(t) && ValidId(x.id) && x.id !in Ids(t) &&
    x.id in kv && kv[x.id] == Record(Node(x, None, None))
  }

  /** Readiness passes to either subtree. */
  lemma ReadyNear(kv: map<string, Value>, t: Tree, x: Person, goLeft: bool)
    requires t.Branch? && ReadyToGraft(kv, t, x)
    ensures ReadyToGraft(kv, if goLeft then t.left else t.right, x)
  {
    KeyedBranch(t.left, t.person, t.right);
  }

  /** Hanging x in the empty child slot of t's root, on x's side, grafts
      x below that root. */
  lemma HangStored(kv: map<string, Value>, t: Tree, x: Person, depth: nat, side: Side)
    requires t.Branch? && ReadyToGraft(kv, t, x)
    requires side == (if Coord(x, depth % NumAxes) < Coord(t.person, depth % NumAxes) then Left else Right)
    requires !Present(RootId(if side == Left then t.left else t.right))
    ensures Grafted(kv, kv[t.person.id := Record(WithChild(NodeOf(t.left, t.person, t.right), side, x.id))],
                    t, x, depth, Ok(t.person.id))
  {
    var l, p, r := t.left, t.person, t.right;
    RootNotBelow(t);
    assert Stored(kv, l) && Stored(kv, r);
    assert if side == Left then l.Leaf? else r.Leaf?;
    var kv' := kv[p.id := Record(WithChild(NodeOf(l, p, r), side, x.id))];
    var single := Branch(Leaf, x, Leaf);
    assert x.id != p.id;
    assert Stored(kv', single);
    assert InsertParent(t, x, depth) == Some(p.id);
    var grown := if side == Left then Branch(single, p, r) else Branch(l, p, single);
    assert InsertTree(t, x, depth) == grown;
    if side == Left {
      StoredFrame(kv, kv', r);
    } else {
      StoredFrame(kv, kv', l);
    }
    assert kv'[p.id] == Record(NodeOf(grown.left, p, grown.right));
    assert Stored(kv', grown);
    assert kv'.Keys == kv.Keys;
  }

  /** Grafting x into the non-empty subtree on x's side grafts it into
      the whole tree, with the same parent. */
  lemma DescendStored(kv: map<string, Value>, kv': map<string, Value>, t: Tree, x: Person, depth: nat,
                      goLeft: bool, r: Result<string>)
    requires t.Branch? && ReadyToGraft(kv, t, x)
    requires goLeft == (Coord(x, depth % NumAxes) < Coord(t.person, depth % NumAxes))
    requires var near := if goLeft then t.left else t.right;
             near.Branch? && Grafted(kv, kv', near, x, depth + 1, r)
    ensures Grafted(kv, kv', t, x, depth, r)
  {
    var l, p, rt := t.left, t.person, t.right;
    RootNotBelow(t);
    SidesApart(t);
    var near := if goLeft then l else rt;
    var far := if goLeft then rt else l;
    var grown := if goLeft then Branch(InsertTree(l, x, depth + 1), p, rt)
                 else Branch(l, p, InsertTree(rt, x, depth + 1));
    assert InsertTree(t, x, depth) == grown;
    assert InsertParent(t, x, depth) == InsertParent(near, x, depth + 1);
    assert RootId(InsertTree(near, x, depth + 1)) == RootId(near);
    assert kv'[p.id] == kv[p.id];
    StoredFrame(kv, kv', far);
    assert Stored(kv', grown);
  }

  /** The dict holds index t: the root id under "root_id", every node
      stored, distinct valid ids and the k-d order from axis 0. */
  ghost predicate Indexed(kv: map<string, Value>, t: Tree) {
    WellKeyed(t) && KdOrdered(t, 0) &&
    RootKey in kv && kv[RootKey] == IdValue(RootId(t)) &&
    Stored(kv, t)
  }

  /** No id of a well-keyed tree is the root key. */
  lemma RootKeyFree(t: Tree)
    requires WellKeyed(t)
    ensures RootKey !in Ids(t)
  {
    forall x | x in Ids(t) ensures x != RootKey {
      var q := IdWitness(t, x);
    }
  }

  /** Writing the root id over a dict that stores well-keyed, k-d ordered
      t makes it hold index t. */
  lemma RootIndexed(kv: map<string, Value>, t: Tree)
    requires WellKeyed(t) && KdOrdered(t, 0) && Stored(kv, t)
    ensures Indexed(kv[RootKey := IdValue(RootId(t))], t)
  {
    RootKeyFree(t);
    StoredUpdate(kv, t, RootKey, IdValue(RootId(t)));
  }

  /** `construct_index` over any dict, on items with distinct valid ids,
      leaves the built tree indexed. */
  lemma BuildIndexed(kv0: map<string, Value>, items: seq<Person>)
    requires Keyed(multiset(items))
    ensures var t := BuildTree(items, 0);
            Indexed((kv0 + Table(t))[RootKey := IdValue(RootId(t))], t)
  {
    var t := BuildTree(items, 0);
    BuildWellKeyed(items, 0);
    BuildKdOrdered(items, 0);
    TableStores(kv0, t);
    RootIndexed(kv0 + Table(t), t);
  }

  /** The first insertion into an empty index stores a one-node index. */
  lemma FirstIndexed(kv: map<string, Value>, x: Person)
    requires ValidId(x.id)
    ensures Indexed(kv[x.id := Record(Node(x, None, None))][RootKey := Text(x.id)], InsertTree(Leaf, x, 0))
  {
    var one := Branch(Leaf, x, Leaf);
    var kv' := kv[x.id := Record(Node(x, None, None))][RootKey := Text(x.id)];
    assert InsertTree(Leaf, x, 0) == one;
    assert Elements(one) == multiset{x};
    assert WellKeyed(one);
    assert KdOrdered(one, 0);
    assert kv'[RootKey] == IdValue(RootId(one));
    assert Stored(kv', one);
  }

  /** Storing x as a childless node over index t makes the dict ready for
      the graft from the stored root. */
  lemma PrepareGraft(kv0: map<string, Value>, t: Tree, x: Person)
    requires Indexed(kv0, t) && ValidId(x.id) && x.id !in Ids(t)
    ensures var kv := kv0[x.id := Record(Node(x, None, None))];
            ReadyToGraft(kv, t, x) && RootKey in kv && AsId(kv[RootKey]) == RootId(t)
  {
    StoredUpdate(kv0, t, x.id, Record(Node(x, None, None)));
  }

  /** `insert_item` on index t: the grown tree is indexed, the result is
      KeyError on an empty index and the parent otherwise, x's id is the
      one new key, and only the root id and entries of the grown tree's
      ids may change. */
  lemma InsertIndexed(kv0: map<string, Value>, kv: map<string, Value>, t: Tree, x: Person, r: Result<string>)
    requires Indexed(kv0, t) && ValidId(x.id) && x.id !in Ids(t)
    requires Grafted(kv0[x.id := Record(Node(x, None, None))], kv, t, x, 0, r)
    ensures Indexed(kv, InsertTree(t, x, 0))
    ensures t.Leaf? ==> r == Err(KeyError)
    ensures t.Branch? ==> r == Ok(InsertParent(t, x, 0).value)
    ensures kv.Keys == kv0.Keys + {x.id}
    ensures forall k :: k in kv0 && k != RootKey && k !in Ids(InsertTree(t, x, 0)) ==> kv[k] == kv0[k]
  {
    if t.Leaf? {
      InsertIntoEmpty(kv0, kv, x, r);
    } else {
      InsertBelowRoot(kv0, kv, t, x, r);
    }
  }

  lemma InsertIntoEmpty(kv0: map<string, Value>, kv: map<string, Value>, x: Person, r: Result<string>)
    requires Indexed(kv0, Leaf) && ValidId(x.id)
    requires Grafted(kv0[x.id := Record(Node(x, None, None))], kv, Leaf, x, 0, r)
    ensures Indexed(kv, InsertTree(Leaf, x, 0)) && r == Err(KeyError)
    ensures kv.Keys == kv0.Keys + {x.id}
    ensures forall k :: k in kv0 && k != RootKey && k !in Ids(InsertTree(Leaf, x, 0)) ==> kv[k] == kv0[k]
  {
    FirstIndexed(kv0, x);
  }

  lemma InsertBelowRoot(kv0: map<string, Value>, kv: map<string, Value>, t: Tree, x: Person, r: Result<string>)
    requires t.Branch? && Indexed(kv0, t) && ValidId(x.id) && x.id !in Ids(t)
    requires Grafted(kv0[x.id := Record(Node(x, None, None))], kv, t, x, 0, r)
    ensures Indexed(kv, InsertTree(t, x, 0)) && r == Ok(InsertParent(t, x, 0).value)
    ensures kv.Keys == kv0.Keys + {x.id}
    ensures forall k :: k in kv0 && k != RootKey && k !in Ids(InsertTree(t, x, 0)) ==> kv[k] == kv0[k]
  {
    RootKeyFree(t);
    GraftKeys(kv0, kv, t, x, r);
    GrownIndexed(kv, t, x);
  }

  /** The graft below a non-empty index adds x's id as the one new key and
      changes neither the root id nor any entry outside the grown tree. */
  lemma GraftKeys(kv0: map<string, Value>, kv: map<string, Value>, t: Tree, x: Person, r: Result<string>)
    requires t.Branch? && RootKey in kv0 && RootKey !in Ids(t) && ValidId(x.id)
    requires Grafted(kv0[x.id := Record(Node(x, None, None))], kv, t, x, 0, r)
    ensures r == Ok(InsertParent(t, x, 0).value) && Stored(kv, InsertTree(t, x, 0))
    ensures RootKey in kv && kv[RootKey] == kv0[RootKey]
    ensures kv.Keys == kv0.Keys + {x.id}
    ensures forall k :: k in kv0 && k != RootKey && k !in Ids(InsertTree(t, x, 0)) ==> kv[k] == kv0[k]
  {
    InsertIds(t, x, 0);
  }

  /** A dict that stores t grown by x, with t's root id under the root
      key, holds the grown index. */
  lemma GrownIndexed(kv: map<string, Value>, t: Tree, x: Person)
    requires t.Branch? && WellKeyed(t) && KdOrdered(t, 0) && ValidId(x.id) && x.id !in Ids(t)
    requires Stored(kv, InsertTree(t, x, 0)) && RootKey in kv && kv[RootKey] == IdValue(RootId(t))
    ensures Indexed(kv, InsertTree(t, x, 0))
  {
    InsertWellKeyed(t, x, 0);
    InsertKdOrdered(t, x, 0);
    assert RootId(InsertTree(t, x, 0)) == RootId(t);
  }

  /** What `_k_nearest_neighbors` returns when the search on the queue
      state ends in e: nothing, or the exception raised. */
  function Outcome(e: Result<QState<Node>>): (r: Result<()>)
    ensures r.Ok? <==> e.Ok?
    ensures e.Err? ==> r.error == e.error
  {
    if e.Ok? then Ok(()) else Err(e.error)
  }

  /** A search at a node whose offer succeeded continues with its children. */
  lemma KnnUnfold(t: Tree, target: Person, ageProximity: int, depth: nat, s0: QState<Node>, s1: QState<Node>,
                  dist: Distance)
    requires t.Branch? && Offer(NodeOf(t.left, t.person, t.right), target, ageProximity, s0, dist) == Ok(s1)
    ensures KnnSearch(t, target, ageProximity, depth, s0, dist, AsWritten) == KnnChildren(t, target, ageProximity, depth, s1, dist, AsWritten)
  {
  }

  lemma EmptyUnion<K, V>(m: map<K, V>)
    ensures map[] + m == m
  {
  }

  class KDTreeDataStore {
    /** `kv_store`. */
    var kvStore: map<string, Value>
    /** `_construction_phase`: raised while the index is built. */
    var constructionPhase: bool
    /** The tree the dict represents. */
    ghost var Shape: Tree

    /** The root id is stored under "root_id" and the tree is stored, has
        distinct valid ids and is k-d ordered from axis 0. */
    ghost predicate Valid()
      reads this
    {
      Indexed(kvStore, Shape)
    }

    /** `__init__(redis_mode=False, data_list=...)`: builds the index. */
    constructor (dataList: seq<Person>)
      ensures kvStore == Table(BuildTree(dataList, 0))[RootKey := IdValue(RootId(BuildTree(dataList, 0)))]
      ensures Shape == BuildTree(dataList, 0) && !constructionPhase
      ensures Keyed(multiset(dataList)) ==> Valid()
    {
      kvStore := map[];
      constructionPhase := false;
      Shape := Leaf;
      new;
      ConstructIndex(dataList);
      EmptyUnion(Table(BuildTree(dataList, 0)));
    }

    /** `mem_set` (in memory). */
    method MemSet(key: string, value: Value)
      modifies this
      ensures kvStore == old(kvStore)[key := value]
      ensures Shape == old(Shape) && constructionPhase == old(constructionPhase)
    {
      kvStore := kvStore[key := value];
    }

    /** `hmem_set` (in memory): the same write as `mem_set`. */
    method HmemSet(key: string, value: Value)
      modifies this
      ensures kvStore == old(kvStore)[key := value]
      ensures Shape == old(Shape) && constructionPhase == old(constructionPhase)
    {
      kvStore := kvStore[key := value];
    }

    /** `hgetall` (in memory): subscripting a missing key raises KeyError. */
    method Hgetall(key: string) returns (r: Result<Value>)
      ensures key in kvStore ==> r == Ok(kvStore[key])
      ensures key !in kvStore ==> r == Err(KeyError)
    {
      if key in kvStore {
        return Ok(kvStore[key]);
      }
      return Err(KeyError);
    }

    /** `mem_get` (in memory): None for a missing key. */
    method MemGet(key: string) returns (r: Value)
      ensures key in kvStore ==> r == kvStore[key]
      ensures key !in kvStore ==> r == NoneValue
    {
      if key in kvStore {
        return kvStore[key];
      }
      return NoneValue;
    }

    /** `mem_incr` (in memory): replaces the string under key by the text of
        its integer value plus one. A missing key raises KeyError, `int()`
        of None or of a dict raises TypeError, `int()` of a non-numeric
        string raises ValueError; on failure nothing changes. */
    method MemIncr(key: string) returns (r: Result<()>)
      modifies this
      ensures Shape == old(Shape) && constructionPhase == old(constructionPhase)
      ensures key !in old(kvStore) ==> r == Err(KeyError) && kvStore == old(kvStore)
      ensures key in old(kvStore) && !old(kvStore)[key].Text? ==> r == Err(TypeError) && kvStore == old(kvStore)
      ensures key in old(kvStore) && old(kvStore)[key].Text? ==>
                match Incremented(old(kvStore)[key].text)
                case Ok(s) => r == Ok(()) && kvStore == old(kvStore)[key := Text(s)]
                case Err(e) => r == Err(e) && kvStore == old(kvStore)
    {
      if key !in kvStore {
        return Err(KeyError);
      }
      var v := kvStore[key];
      if !v.Text? {
        return Err(TypeError);
      }
      var n := Incremented(v.text);
      if n.Err? {
        return Err(n.error);
      }
      kvStore := kvStore[key := Text(n.value)];
      return Ok(());
    }

    /** `add_node_properties`: stores the item as a node with the given
        subtree links. */
    method AddNodeProperties(item: Person, leftId: Option<string>, rightId: Option<string>)
      modifies this
      ensures kvStore == old(kvStore)[item.id := Record(Node(item, leftId, rightId))]
      ensures Shape == old(Shape) && constructionPhase == old(constructionPhase)
    {
      HmemSet(item.id, Record(Node(item, leftId, rightId)));
    }

    /** `update_item_key`, applied to the node dict held in memory: sets
        one child link of the stored node. */
    method UpdateItemKey(item: Node, side: Side, value: string)
      modifies this
      ensures kvStore == old(kvStore)[item.person.id := Record(WithChild(item, side, value))]
      ensures Shape == old(Shape) && constructionPhase == old(constructionPhase)
    {
      kvStore := kvStore[item.person.id := Record(WithChild(item, side, value))];
    }

    /** `get_node_from_id`. The dict `hgetall` returns is the stored one, so
        the rewrite of "None" links is written back. A None id or a missing
        key raises KeyError; a stored string or None raises TypeError when
        subscripted by a field name. */
    method GetNodeFromId(id: Option<string>) returns (r: Result<Node>)
      modifies this
      ensures Shape == old(Shape) && constructionPhase == old(constructionPhase)
      ensures id.None? || id.value !in old(kvStore) ==> r == Err(KeyError) && kvStore == old(kvStore)
      ensures id.Some? && id.value in old(kvStore) && !old(kvStore)[id.value].Record? ==>
                r == Err(TypeError) && kvStore == old(kvStore)
      ensures id.Some? && id.value in old(kvStore) && old(kvStore)[id.value].Record? ==>
                r == Ok(Normalised(old(kvStore)[id.value].node)) &&
                kvStore == old(kvStore)[id.value := Record(r.value)]
    {
      if id.None? {
        return Err(KeyError);
      }
      var v := Hgetall(id.value);
      if v.Err? {
        return Err(v.error);
      }
      if !v.value.Record? {
        return Err(TypeError);
      }
      var n := Normalised(v.value.node);
      kvStore := kvStore[id.value := Record(n)];
      return Ok(n);
    }

    /** `construct_index`: builds under the construction flag, then stores
        the root id (None for an empty list). */
    method ConstructIndex(items: seq<Person>)
      modifies this
      ensures kvStore == (old(kvStore) + Table(BuildTree(items, 0)))[RootKey := IdValue(RootId(BuildTree(items, 0)))]
      ensures Shape == BuildTree(items, 0) && !constructionPhase
      ensures Keyed(multiset(items)) ==> Valid()
    {
      constructionPhase := true;
      var rootId := ConstructIndexRec(items, 0);
      MemSet(RootKey, IdValue(rootId));
      constructionPhase := false;
      Shape := BuildTree(items, 0);
      if Keyed(multiset(items)) {
        BuildIndexed(old(kvStore), items);
      }
    }

    /** `_construct_index`: None for an empty list; otherwise builds the
        subtrees, stores the median with their root ids as links and
        returns the median's id. */
    method ConstructIndexRec(items: seq<Person>, depth: nat) returns (rootId: Option<string>)
      modifies this
      ensures rootId == RootId(BuildTree(items, depth))
      ensures kvStore == old(kvStore) + Table(BuildTree(items, depth))
      ensures Shape == old(Shape) && constructionPhase == old(constructionPhase)
      decreases |items|
    {
      if |items| == 0 {
        return None;
      }
      var axis := depth % NumAxes;
      var split := GetMedian(items, axis);
      ghost var kv0 := kvStore;
      var leftId := ConstructIndexRec(split.left, depth + 1);
      var rightId := ConstructIndexRec(split.right, depth + 1);
      AddNodeProperties(split.median, leftId, rightId);
      BuildStep(kv0, items, depth);
      return Some(split.median.id);
    }

    /** `find_item`: the lookup from the stored root. */
    method FindItem(target: Person) returns (r: Option<Node>)
      requires Valid()
      modifies this
      ensures kvStore == old(kvStore) && Shape == old(Shape) && constructionPhase == old(constructionPhase)
      ensures r == FindTree(Shape, target, 0)
    {
      var root := MemGet(RootKey);
      r := FindItemRec(AsId(root), target, 0, 0, Shape);
    }

    /** `_find_item` on the subtree whose root id is id; axis is the
        source's axis argument, depth the depth it stands for. */
    method FindItemRec(id: Option<string>, target: Person, axis: nat, ghost depth: nat, ghost t: Tree)
      returns (r: Option<Node>)
      requires Stored(kvStore, t) && id == RootId(t) && axis % NumAxes == depth % NumAxes
      modifies this
      ensures kvStore == old(kvStore) && Shape == old(Shape) && constructionPhase == old(constructionPhase)
      ensures r == FindTree(t, target, depth)
      decreases t
    {
      if !Present(id) {
        return None;
      }
      var a := axis % NumAxes;
      StoredNormalised(kvStore, t.left, t.person, t.right);
      UpdateSame(kvStore, t.person.id);
      var found := GetNodeFromId(id);
      var node := found.value;
      if SameSpot(node.person, target) {
        return Some(node);
      }
      var goLeft := Coord(target, a) < Coord(node.person, a);
      AxisStep(axis, depth);
      r := FindItemRec(if goLeft then node.leftId else node.rightId, target, a + 1, depth + 1,
                       if goLeft then t.left else t.right);
    }

    /** `insert_item`: stores the item as a childless node, then hangs it
        below the stored root. On an empty index the root id is set to the
        item's id before the lookup of the missing root raises KeyError. */
    method InsertItem(target: Person) returns (r: Result<string>)
      requires Valid() && ValidId(target.id) && target.id !in Ids(Shape)
      modifies this
      ensures Valid() && Shape == InsertTree(old(Shape), target, 0)
      ensures constructionPhase == old(constructionPhase)
      ensures old(Shape).Leaf? ==> r == Err(KeyError)
      ensures old(Shape).Branch? ==> r == Ok(InsertParent(old(Shape), target, 0).value)
      ensures kvStore.Keys == old(kvStore).Keys + {target.id}
      ensures forall k :: k in old(kvStore) && k != RootKey && k !in Ids(Shape) ==> kvStore[k] == old(kvStore)[k]
    {
      ghost var t := Shape;
      ghost var kv0 := kvStore;
      ghost var kv1 := kv0[target.id := Record(Node(target, None, None))];
      PrepareGraft(kv0, t, target);
      AddNodeProperties(target, None, None);
      assert kvStore == kv1;
      var root := MemGet(RootKey);
      assert AsId(root) == RootId(t);
      r := InsertItemRec(AsId(root), target, 0, 0, t);
      ghost var kv2 := kvStore;
      Shape := InsertTree(t, target, 0);
      InsertIndexed(kv0, kv2, t, target, r);
    }

    /** `_insert_item` on the subtree whose root id is id. */
    method InsertItemRec(id: Option<string>, target: Person, axis: nat, ghost depth: nat, ghost t: Tree)
      returns (r: Result<string>)
      requires ReadyToGraft(kvStore, t, target) && id == RootId(t) && axis % NumAxes == depth % NumAxes
      modifies this
      ensures Shape == old(Shape) && constructionPhase == old(constructionPhase)
      ensures Grafted(old(kvStore), kvStore, t, target, depth, r)
      decreases t
    {
      if !Present(id) {
        MemSet(RootKey, Text(target.id));
      }
      ghost var kv0 := kvStore;
      if t.Branch? {
        StoredNormalised(kvStore, t.left, t.person, t.right);
        UpdateSame(kvStore, t.person.id);
      }
      var found := GetNodeFromId(id);
      if found.Err? {
        return Err(found.error);
      }
      var node := found.value;
      assert kvStore == kv0 && node == NodeOf(t.left, t.person, t.right);
      var a := axis % NumAxes;
      var goLeft := Coord(target, a) < Coord(node.person, a);
      if goLeft && !Present(node.leftId) {
        UpdateItemKey(node, Left, target.id);
        HangStored(kv0, t, target, depth, Left);
        return Ok(id.value);
      } else if !goLeft && !Present(node.rightId) {
        UpdateItemKey(node, Right, target.id);
        HangStored(kv0, t, target, depth, Right);
        return Ok(id.value);
      } else {
        AxisStep(axis, depth);
        ReadyNear(kvStore, t, target, goLeft);
        r := InsertItemRec(if goLeft then node.leftId else node.rightId, target, a + 1, depth + 1,
                           if goLeft then t.left else t.right);
        DescendStored(kv0, kvStore, t, target, depth, goLeft, r);
      }
    }

    /** `k_nearest_neighbors`: ValueError when no root id is stored;
        otherwise searches from the root with a queue bounded by k and
        returns the drained queue sorted by distance. */
    method KNearestNeighbors(target: Person, k: int, ageProximity: int, dist: Distance)
      returns (r: Result<seq<Neighbor>>)
      requires Valid()
      modifies this
      ensures kvStore == old(kvStore) && Shape == old(Shape) && constructionPhase == old(constructionPhase)
      ensures Shape.Leaf? ==> r == Err(ValueError)
      ensures Shape.Branch? ==> r == KNearest(Shape, target, k, ageProximity, dist, AsWritten)
    {
      var root := MemGet(RootKey);
      if !Truthy(root) {
        return Err(ValueError);
      }
      var queue := new BoundedPriorityQueue<Node>(k);
      var start := MemGet(RootKey);
      var searched := KNearestRec(AsId(start), target, ageProximity, queue, 0, 0, dist, Shape);
      if searched.Err? {
        return Err(searched.error);
      }
      var list := queue.GetAsList();
      return Ok(SortBy(Neighbors(list), (n: Neighbor) => n.distance));
    }

    /** `_k_nearest_neighbors` on the subtree whose root id is id, threading
        the queue: offer the node, search the side of the target, then
        decide on the other side. */
    method KNearestRec(id: Option<string>, target: Person, ageProximity: int, queue: BoundedPriorityQueue<Node>,
                       axis: nat, ghost depth: nat, dist: Distance, ghost t: Tree)
      returns (r: Result<()>)
      requires Stored(kvStore, t) && id == RootId(t) && axis % NumAxes == depth % NumAxes
      requires queue.Valid()
      modifies this, queue
      ensures kvStore == old(kvStore) && Shape == old(Shape) && constructionPhase == old(constructionPhase)
      ensures var expected := KnnSearch(t, target, ageProximity, depth, old(queue.State()), dist, AsWritten);
              r == Outcome(expected) && (expected.Ok? ==> queue.Valid() && queue.State() == expected.value)
      decreases t, 1
    {
      if !Present(id) {
        return Ok(());
      }
      StoredNormalised(kvStore, t.left, t.person, t.right);
      UpdateSame(kvStore, t.person.id);
      var found := GetNodeFromId(id);
      var node := found.value;
      assert kvStore == old(kvStore) && node == NodeOf(t.left, t.person, t.right);
      var a := axis % NumAxes;
      var d := dist(node.person.latitude, node.person.longitude, target.latitude, target.longitude);
      if Abs(target.age - node.person.age) <= ageProximity {
        var pushed := queue.Push(node, d);
        if pushed.Err? {
          return Err(pushed.error);
        }
      }
      ghost var s1 := queue.State();
      assert Offer(node, target, ageProximity, old(queue.State()), dist) == Ok(s1);
      KnnUnfold(t, target, ageProximity, depth, old(queue.State()), s1, dist);
      var goLeft := Coord(target, a) < Coord(node.person, a);
      AxisStep(axis, depth);
      ghost var near := if goLeft then t.left else t.right;
      assert Stored(kvStore, near);
      var nearResult := KNearestRec(if goLeft then node.leftId else node.rightId, target, ageProximity, queue,
                                    a + 1, depth + 1, dist, near);
      if nearResult.Err? {
        return nearResult;
      }
      r := KNearestFar(node, target, ageProximity, queue, a, depth, dist, t);
    }

    /** The last step of `_k_nearest_neighbors` at the node of t: search
        the subtree away from the target when the queue is not full or the
        pruning distance is below its largest priority. */
    method KNearestFar(node: Node, target: Person, ageProximity: int, queue: BoundedPriorityQueue<Node>,
                       a: nat, ghost depth: nat, dist: Distance, ghost t: Tree)
      returns (r: Result<()>)
      requires t.Branch? && Stored(kvStore, t) && node == NodeOf(t.left, t.person, t.right)
      requires a == depth % NumAxes && queue.Valid()
      modifies this, queue
      ensures kvStore == old(kvStore) && Shape == old(Shape) && constructionPhase == old(constructionPhase)
      ensures var expected := KnnFar(t, target, ageProximity, depth, old(queue.State()), dist, AsWritten);
              r == Outcome(expected) && (expected.Ok? ==> queue.Valid() && queue.State() == expected.value)
      decreases t, 0
    {
      var goLeft := Coord(target, a) < Coord(node.person, a);
      var searchFar := true;
      var full := queue.IsFull();
      if full {
        var top := queue.PeekItemPriority();
        if top.Err? {
          return Err(top.error);
        }
        assert top.value == Priority(queue.queue[Head(queue.queue)]);
        searchFar := PruneDistance(dist, target, node.person, a) < top.value;
      }
      if searchFar {
        AxisStep(a, depth);
        ghost var far := if goLeft then t.right else t.left;
        assert Stored(kvStore, far);
        r := KNearestRec(if goLeft then node.rightId else node.leftId, target, ageProximity, queue,
                         a + 1, depth + 1, dist, far);
      } else {
        r := Ok(());
      }
    }
  }
}
