/** A priority queue that holds at most `bound` entries and keeps the ones
    with the smallest priorities seen so far (the k-nearest-neighbour search
    pushes candidates with their distance as priority). Internally it is a
    min-heap of (-priority, index, item) cells; the heap layout itself is
    library code and is abstracted: the cells are held as a sequence and
    the cell at the heap's root is the least one in (key, index) order. */
module BoundedQueue {
  import opened Results
  import opened Sorting

  /** One heap cell. `key` is the negated priority and `index` the push
      counter at the time of the push, which breaks ties between equal
      priorities in favour of the earlier push. */
  datatype Entry<T> = Entry(key: int, index: nat, item: T)

  function Priority<T>(e: Entry<T>): int { -e.key }

  /** `a` leaves the heap no later than `b`: tuples compare on key, then index. */
  predicate PopsFirst<T>(a: Entry<T>, b: Entry<T>) {
    a.key < b.key || (a.key == b.key && a.index <= b.index)
  }

  /** Position of the cell at the root of the heap (`_queue[0]`). */
  function Head<T>(q: seq<Entry<T>>): (h: nat)
    requires q != []
    ensures h < |q|
    ensures forall j :: 0 <= j < |q| ==> PopsFirst(q[h], q[j])
  {
    if |q| == 1 then 0
    else
      var h' := Head(q[1..]);
      if PopsFirst(q[0], q[1..][h']) then 0 else h' + 1
  }

  function Without<T>(q: seq<Entry<T>>, i: nat): seq<Entry<T>>
    requires i < |q|
  {
    q[..i] + q[i + 1..]
  }

  lemma WithoutMultiset<T>(q: seq<Entry<T>>, i: nat)
    requires i < |q|
    ensures multiset(Without(q, i)) == multiset(q) - multiset{q[i]}
    ensures |Without(q, i)| == |q| - 1
    ensures forall e :: e in Without(q, i) ==> e in q
  {
    assert q == q[..i] + [q[i]] + q[i + 1..];
  }

  /** The queue's fields: the heap cells, the push counter and the bound. */
  datatype QState<T> = QState(queue: seq<Entry<T>>, index: nat, bound: int)

  /** What the source maintains: no more cells than the bound (a queue with
      a bound below one stays empty), and every cell's tie-break index
      below the counter, so that two cells never tie on (key, index) and
      heapq never has to compare the items themselves. */
  ghost predicate Invariant<T>(s: QState<T>) {
    (|s.queue| <= s.bound || s.queue == []) &&
    forall e :: e in s.queue ==> e.index < s.index
  }

  /** `peek()`: the root cell, or None on an empty queue. */
  function Front<T>(q: seq<Entry<T>>): (r: Option<Entry<T>>)
    ensures r.None? <==> q == []
    ensures r.Some? ==> r.value in q
    ensures r.Some? ==> forall e :: e in q ==> Priority(e) <= Priority(r.value)
    ensures r.Some? ==> forall e :: e in q ==> PopsFirst(r.value, e)
  {
    if |q| > 0 then Some(q[Head(q)]) else None
  }

  function Inserted<T>(s: QState<T>, item: T, priority: int): QState<T> {
    QState(s.queue + [Entry(-priority, s.index, item)], s.index + 1, s.bound)
  }

  /** `push(item, priority)`. A full queue rejects a priority at least the
      largest one held and otherwise evicts the root first. On a queue whose
      bound is below one `peek()` returns None and subscripting it raises. */
  function AfterPush<T>(s: QState<T>, item: T, priority: int): Result<QState<T>> {
    if |s.queue| >= s.bound then
      if s.queue == [] then Err(TypeError)
      else if priority >= Priority(s.queue[Head(s.queue)]) then Ok(s)
      else Ok(Inserted(QState(Without(s.queue, Head(s.queue)), s.index, s.bound), item, priority))
    else
      Ok(Inserted(s, item, priority))
  }

  /** A push fails exactly on a queue whose bound is below one; otherwise it
      keeps the invariant, so the size never exceeds the bound. */
  lemma PushKeepsBound<T>(s: QState<T>, item: T, priority: int)
    requires Invariant(s)
    ensures AfterPush(s, item, priority).Err? <==> s.bound < 1
    ensures AfterPush(s, item, priority).Ok? ==>
              var t := AfterPush(s, item, priority).value;
              Invariant(t) && t.bound == s.bound && |t.queue| <= s.bound
  {
    if |s.queue| >= s.bound && s.queue != [] && priority < Priority(s.queue[Head(s.queue)]) {
      WithoutMultiset(s.queue, Head(s.queue));
    }
  }

  /** A full queue ignores a priority that is no better than all it holds. */
  lemma PushRejectsWorse<T>(s: QState<T>, item: T, priority: int)
    requires Invariant(s) && s.bound >= 1 && |s.queue| == s.bound
    requires exists e :: e in s.queue && priority >= Priority(e) && forall f :: f in s.queue ==> Priority(f) <= Priority(e)
    ensures AfterPush(s, item, priority) == Ok(s)
  {
    var e :| e in s.queue && priority >= Priority(e) && forall f :: f in s.queue ==> Priority(f) <= Priority(e);
    var top := Front(s.queue).value;
    assert Priority(top) == Priority(e);
  }

  /** A full queue given a better priority evicts exactly one cell, one that
      holds the largest priority, and takes the new cell in its place. */
  lemma PushEvictsMaximum<T>(s: QState<T>, item: T, priority: int)
    requires Invariant(s) && s.bound >= 1 && |s.queue| == s.bound
    requires exists e :: e in s.queue && priority < Priority(e)
    ensures AfterPush(s, item, priority).Ok?
    ensures var t := AfterPush(s, item, priority).value;
            |t.queue| == s.bound &&
            exists top :: top in s.queue &&
              (forall f :: f in s.queue ==> Priority(f) <= Priority(top)) &&
              multiset(t.queue) == multiset(s.queue) - multiset{top} + multiset{Entry(-priority, s.index, item)}
  {
    var h := Head(s.queue);
    var top := s.queue[h];
    assert priority < Priority(top);
    WithoutMultiset(s.queue, h);
    var t := AfterPush(s, item, priority).value;
    assert t.queue == Without(s.queue, h) + [Entry(-priority, s.index, item)];
    assert top in s.queue && forall f :: f in s.queue ==> Priority(f) <= Priority(top);
  }

  /** The priorities one push throws away: the new one when it is rejected,
      the evicted root's when it is let in. */
  function Discarded<T>(s: QState<T>, priority: int): seq<int> {
    if |s.queue| >= s.bound && s.queue != [] then
      if priority >= Priority(s.queue[Head(s.queue)]) then [priority]
      else [Priority(s.queue[Head(s.queue)])]
    else []
  }

  /** Pushes each (item, priority) pair in turn; the first failing push
      aborts the sequence, as its exception would. */
  function PushAll<T>(s: QState<T>, pushes: seq<(T, int)>): Result<QState<T>>
    decreases |pushes|
  {
    if pushes == [] then Ok(s)
    else
      var t :- PushAll(s, pushes[..|pushes| - 1]);
      AfterPush(t, pushes[|pushes| - 1].0, pushes[|pushes| - 1].1)
  }

  /** Every priority the pushes rejected or evicted, in order. */
  function DiscardedAll<T>(s: QState<T>, pushes: seq<(T, int)>): seq<int>
    decreases |pushes|
  {
    if pushes == [] then []
    else
      var prefix := pushes[..|pushes| - 1];
      match PushAll(s, prefix)
      case Err(_) => DiscardedAll(s, prefix)
      case Ok(t) => DiscardedAll(s, prefix) + Discarded(t, pushes[|pushes| - 1].1)
  }

  ghost predicate KeepsBest<T>(q: seq<Entry<T>>, dropped: seq<int>) {
    forall e, d :: e in q && d in dropped ==> Priority(e) <= d
  }

  lemma {:induction false} PushAllKeepsBest<T>(s: QState<T>, pushes: seq<(T, int)>)
    requires Invariant(s) && s.bound >= 1
    ensures PushAll(s, pushes).Ok?
    ensures var t := PushAll(s, pushes).value;
            Invariant(t) && t.bound == s.bound &&
            (DiscardedAll(s, pushes) != [] ==> |t.queue| == s.bound) &&
            KeepsBest(t.queue, DiscardedAll(s, pushes))
    decreases |pushes|
  {
    if pushes != [] {
      var prefix := pushes[..|pushes| - 1];
      var (item, p) := pushes[|pushes| - 1];
      PushAllKeepsBest(s, prefix);
      var t := PushAll(s, prefix).value;
      var dropped := DiscardedAll(s, prefix);
      PushKeepsBound(t, item, p);
      var u := AfterPush(t, item, p).value;
      assert DiscardedAll(s, pushes) == dropped + Discarded(t, p);
      if |t.queue| >= t.bound {
        var h := Head(t.queue);
        var m := Priority(t.queue[h]);
        if p < m {
          WithoutMultiset(t.queue, h);
          forall e, d | e in u.queue && d in dropped + [m]
            ensures Priority(e) <= d
          {
            if e !in Without(t.queue, h) {
              assert Priority(e) == p;
              if d in dropped { assert Priority(t.queue[h]) <= d; }
            }
          }
        }
      }
    }
  }

  /** After any sequence of pushes onto a queue with a positive bound, every
      priority still held is at most every priority rejected or evicted: the
      queue holds the `bound` best priorities pushed. */
  lemma RetainedBelowDiscarded<T>(bound: int, pushes: seq<(T, int)>)
    requires bound >= 1
    ensures PushAll(QState([], 0, bound), pushes).Ok?
    ensures KeepsBest(PushAll(QState([], 0, bound), pushes).value.queue,
                      DiscardedAll(QState([], 0, bound), pushes))
  {
    PushAllKeepsBest(QState([], 0, bound), pushes);
  }

  /** An element of the list `get_as_list` returns: the priority (named
      distance there) with the item. */
  datatype Ranked<T> = Ranked(distance: int, item: T)

  function Rank<T>(e: Entry<T>): Ranked<T> { Ranked(-e.key, e.item) }

  function Ranks<T>(q: seq<Entry<T>>): (r: seq<Ranked<T>>)
    ensures |r| == |q| && forall i :: 0 <= i < |q| ==> r[i] == Rank(q[i])
  {
    seq(|q|, i requires 0 <= i < |q| => Rank(q[i]))
  }

  lemma RanksWithout<T>(q: seq<Entry<T>>, h: nat)
    requires h < |q|
    ensures Ranks(Without(q, h)) == Ranks(q)[..h] + Ranks(q)[h + 1..]
  {
    var a := Ranks(Without(q, h));
    var b := Ranks(q)[..h] + Ranks(q)[h + 1..];
    assert |a| == |b|;
    forall i | 0 <= i < |a| ensures a[i] == b[i] {
      if i < h {
        assert Without(q, h)[i] == q[i];
      } else {
        assert Without(q, h)[i] == q[i + 1];
      }
    }
  }

  /** The cells in the order repeated heap pops return them. */
  function PopOrder<T>(q: seq<Entry<T>>): seq<Ranked<T>>
    decreases |q|
  {
    if q == [] then [] else [Rank(q[Head(q)])] + PopOrder(Without(q, Head(q)))
  }

  /** Popping the head moves its rank from the queue's pop order to the
      end of the ranks popped so far. */
  lemma PopStep<T>(popped: seq<Ranked<T>>, q: seq<Entry<T>>)
    requires q != []
    ensures (popped + [Rank(q[Head(q)])]) + PopOrder(Without(q, Head(q))) == popped + PopOrder(q)
  {
  }

  function Reversed<U>(s: seq<U>): (r: seq<U>)
    ensures |r| == |s|
    ensures forall i :: 0 <= i < |s| ==> r[i] == s[|s| - 1 - i]
    ensures multiset(r) == multiset(s)
  {
    if s == [] then []
    else
      assert s == [s[0]] + s[1..];
      Reversed(s[1..]) + [s[0]]
  }

  /** What `get_as_list` returns for a queue holding q. */
  function Drain<T>(q: seq<Entry<T>>): seq<Ranked<T>> {
    Reversed(PopOrder(q))
  }

  lemma {:induction false} PopOrderBelow<T>(q: seq<Entry<T>>, m: int)
    requires forall e :: e in q ==> Priority(e) <= m
    ensures forall x :: x in PopOrder(q) ==> x.distance <= m
    decreases |q|
  {
    if q != [] {
      var h := Head(q);
      WithoutMultiset(q, h);
      PopOrderBelow(Without(q, h), m);
      assert q[h] in q;
      assert PopOrder(q) == [Rank(q[h])] + PopOrder(Without(q, h));
    }
  }

  lemma {:induction false} PopOrderDescending<T>(q: seq<Entry<T>>)
    ensures |PopOrder(q)| == |q|
    ensures forall i, j :: 0 <= i < j < |q| ==> PopOrder(q)[i].distance >= PopOrder(q)[j].distance
    decreases |q|
  {
    if q != [] {
      var h := Head(q);
      var rest := Without(q, h);
      WithoutMultiset(q, h);
      PopOrderDescending(rest);
      PopOrderBelow(rest, Priority(q[h]));
      var s := PopOrder(q);
      assert s == [Rank(q[h])] + PopOrder(rest);
      forall i, j | 0 <= i < j < |q| ensures s[i].distance >= s[j].distance {
        if i > 0 {
          assert s[i] == PopOrder(rest)[i - 1] && s[j] == PopOrder(rest)[j - 1];
        } else {
          assert s[j] in PopOrder(rest);
        }
      }
    }
  }

  lemma SplitMultiset<U>(r: seq<U>, h: nat)
    requires h < |r|
    ensures multiset(r) == multiset(r[..h] + r[h + 1..]) + multiset{r[h]}
  {
    assert r == r[..h] + [r[h]] + r[h + 1..];
  }

  lemma {:induction false} PopOrderPermutation<T>(q: seq<Entry<T>>)
    ensures multiset(PopOrder(q)) == multiset(Ranks(q))
    decreases |q|
  {
    if q != [] {
      var h := Head(q);
      var rest := Without(q, h);
      var r := Ranks(q);
      calc {
        multiset(PopOrder(q));
        multiset([r[h]] + PopOrder(rest));
        multiset{r[h]} + multiset(PopOrder(rest));
        { PopOrderPermutation(rest); }
        multiset{r[h]} + multiset(Ranks(rest));
        { RanksWithout(q, h); }
        multiset{r[h]} + multiset(r[..h] + r[h + 1..]);
        { SplitMultiset(r, h); }
        multiset(r);
      }
    }
  }

  /** `get_as_list` returns every held cell exactly once, as (priority, item),
      in non-decreasing priority order. */
  lemma DrainSortedPermutation<T>(q: seq<Entry<T>>)
    ensures multiset(Drain(q)) == multiset(Ranks(q))
    ensures |Drain(q)| == |q|
    ensures SortedBy(Drain(q), (x: Ranked<T>) => x.distance)
  {
    PopOrderPermutation(q);
    PopOrderDescending(q);
    var d := Drain(q);
    forall i, j | 0 <= i < j < |d| ensures d[i].distance <= d[j].distance {
      assert d[i] == PopOrder(q)[|q| - 1 - i] && d[j] == PopOrder(q)[|q| - 1 - j];
    }
  }

  class BoundedPriorityQueue<T> {
    var queue: seq<Entry<T>>
    var index: nat
    var bound: int

    function State(): QState<T>
      reads this
    {
      QState(queue, index, bound)
    }

    ghost predicate Valid()
      reads this
    {
      Invariant(State())
    }

    constructor (bound: int)
      ensures Valid() && State() == QState([], 0, bound)
    {
      queue := [];
      index := 0;
      this.bound := bound;
    }

    /** `push`: the new state is AfterPush of the old one; a failing push
        raises before changing anything. */
    method Push(item: T, priority: int) returns (outcome: Result<()>)
      requires Valid()
      modifies this
      ensures Valid()
      ensures AfterPush(old(State()), item, priority).Ok? ==>
                outcome == Ok(()) && State() == AfterPush(old(State()), item, priority).value
      ensures AfterPush(old(State()), item, priority).Err? ==>
                outcome == Err(AfterPush(old(State()), item, priority).error) && State() == old(State())
    {
      PushKeepsBound(State(), item, priority);
      if |queue| >= bound {
        var top := Peek();
        if top.None? {
          return Err(TypeError);
        }
        if priority >= -top.value.key {
          return Ok(());
        }
        var _ := Pop();
      }
      queue := queue + [Entry(-priority, index, item)];
      index := index + 1;
      return Ok(());
    }

    /** `pop_item`: the item of the popped cell. */
    method PopItem() returns (r: Result<T>)
      requires Valid()
      modifies this
      ensures Valid() && index == old(index) && bound == old(bound)
      ensures old(queue) == [] ==> r == Err(IndexError) && queue == []
      ensures old(queue) != [] ==>
                r == Ok(old(queue)[Head(old(queue))].item) && queue == Without(old(queue), Head(old(queue)))
    {
      var e := Pop();
      if e.Err? {
        return Err(e.error);
      }
      return Ok(e.value.item);
    }

    /** `pop`: removes and returns the root cell; heappop on an empty list
        raises IndexError. */
    method Pop() returns (r: Result<Entry<T>>)
      requires Valid()
      modifies this
      ensures Valid() && index == old(index) && bound == old(bound)
      ensures old(queue) == [] ==> r == Err(IndexError) && queue == []
      ensures old(queue) != [] ==>
                r == Ok(old(queue)[Head(old(queue))]) && queue == Without(old(queue), Head(old(queue)))
    {
      if queue == [] {
        return Err(IndexError);
      }
      var h := Head(queue);
      WithoutMultiset(queue, h);
      r := Ok(queue[h]);
      queue := Without(queue, h);
    }

    /** `peek`: the root cell, None on an empty queue. */
    method Peek() returns (r: Option<Entry<T>>)
      requires Valid()
      ensures r.None? <==> queue == []
      ensures r == Front(queue)
      ensures r.Some? ==> r.value in queue && forall e :: e in queue ==> Priority(e) <= Priority(r.value)
      ensures r.Some? ==> forall e :: e in queue ==> PopsFirst(r.value, e)
    {
      if |queue| > 0 {
        return Some(queue[Head(queue)]);
      }
      return None;
    }

    /** `peek_item`: the root cell's item. */
    method PeekItem() returns (r: Result<T>)
      requires Valid()
      ensures queue == [] ==> r == Err(IndexError)
      ensures queue != [] ==> r.Ok?
      ensures r.Ok? ==> exists e :: e in queue && r.value == e.item &&
                          (forall f :: f in queue ==> Priority(f) <= Priority(e)) &&
                          forall f :: f in queue ==> PopsFirst(e, f)
    {
      if queue == [] {
        return Err(IndexError);
      }
      var e := queue[Head(queue)];
      return Ok(e.item);
    }

    /** `peek_item_priority`: the largest priority held. */
    method PeekItemPriority() returns (r: Result<int>)
      requires Valid()
      ensures queue == [] ==> r == Err(IndexError)
      ensures queue != [] ==> r.Ok?
      ensures r.Ok? ==> (exists e :: e in queue && Priority(e) == r.value) &&
                        forall e :: e in queue ==> Priority(e) <= r.value
    {
      if queue == [] {
        return Err(IndexError);
      }
      var e := queue[Head(queue)];
      assert e in queue && Priority(e) == -e.key;
      return Ok(-e.key);
    }

    method Size() returns (n: nat)
      requires Valid()
      ensures n == |queue|
      ensures bound >= 0 ==> n <= bound
    {
      return |queue|;
    }

    /** `is_full`: the size has reached the bound. */
    method IsFull() returns (full: bool)
      requires Valid()
      ensures full <==> |queue| == bound
      ensures bound >= 1 && !full ==> |queue| < bound
    {
      return |queue| == bound;
    }

    /** `get_as_list`: pops every cell (largest priority first), then
        reverses the list, leaving the queue empty. */
    method GetAsList() returns (list: seq<Ranked<T>>)
      requires Valid()
      modifies this
      ensures Valid() && queue == [] && index == old(index) && bound == old(bound)
      ensures list == Drain(old(queue))
    {
      var popped: seq<Ranked<T>> := [];
      while |queue| > 0
        invariant Valid() && index == old(index) && bound == old(bound)
        invariant popped + PopOrder(queue) == PopOrder(old(queue))
        decreases |queue|
      {
        ghost var before := queue;
        var e := Pop();
        PopStep(popped, before);
        popped := popped + [Rank(e.value)];
      }
      list := Reversed(popped);
    }
  }
}
