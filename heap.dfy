/**
 * The mark-and-sweep heap of deallocator.rs. Objects are boxed records with a
 * mark bit and a `next` pointer; the heap threads every allocated object on
 * one singly linked list starting at `first_object`. Addresses are modelled
 * as ids, the allocated boxes as a map from id to object, and freeing as
 * removing an id from that map.
 */
module MarkSweep {

  /** A `*mut Object`: null or the address (id) of an object. */
  datatype Ptr = Null | Ref(id: nat)

  /** `Object`. */
  datatype Object = Object(marked: bool, next: Ptr)

  /** `Object::new`: an unmarked object whose `next` is null. */
  function NewObject(): (o: Object)
    ensures !o.marked && o.next == Null
  {
    Object(false, Null)
  }

  /** The pointer to the `i`-th element of `list`, null past its end. */
  function PtrTo(list: seq<nat>, i: nat): Ptr {
    if i < |list| then Ref(list[i]) else Null
  }

  ghost predicate Distinct(list: seq<nat>) {
    forall i, j :: 0 <= i < j < |list| ==> list[i] != list[j]
  }

  /** Following `next` from `first` through `objects` visits exactly `list`, then reaches null. */
  ghost predicate Linked(objects: map<nat, Object>, first: Ptr, list: seq<nat>) {
    && (forall i :: 0 <= i < |list| ==> list[i] in objects)
    && first == PtrTo(list, 0)
    && (forall i, j :: 0 <= i && j == i + 1 && j < |list| ==> objects[list[i]].next == Ref(list[j]))
    && (|list| > 0 ==> objects[list[|list| - 1]].next == Null)
  }

  /** `list`, followed from `first`, threads every object of `objects` exactly once; all addresses are below `nextId`. */
  ghost predicate HeapShape(objects: map<nat, Object>, first: Ptr, list: seq<nat>, nextId: nat) {
    && Linked(objects, first, list)
    && Distinct(list)
    && (forall x :: x in objects ==> x in list && x < nextId)
  }

  /** Along `list`, a marked object's successor is marked, except possibly after position `gap`. */
  ghost predicate MarksClosed(objects: map<nat, Object>, list: seq<nat>, gap: int) {
    forall i, j :: 0 <= i && j == i + 1 && j < |list| && i != gap && list[i] in objects && list[j] in objects && objects[list[i]].marked ==>
      objects[list[j]].marked
  }

  /** The position of `x` in `list`: its first occurrence. */
  function IndexOf(list: seq<nat>, x: nat): (i: nat)
    requires x in list
    ensures i < |list| && list[i] == x
    ensures forall j :: 0 <= j < i ==> list[j] != x
  {
    if list[0] == x then 0 else 1 + IndexOf(list[1..], x)
  }

  /** The ids reachable from `p` along `next`: the tail of the list starting at `p`. */
  ghost function Reach(list: seq<nat>, p: Ptr): set<nat> {
    if p.Ref? && p.id in list then (set j | IndexOf(list, p.id) <= j < |list| :: list[j]) else {}
  }

  /** The position before `p` on the list, the one place a mark may not yet have propagated from; -1 for null. */
  ghost function Gap(list: seq<nat>, p: Ptr): int {
    if p.Ref? && p.id in list then IndexOf(list, p.id) - 1 else -1
  }

  /** `objects` with the ids of `ids` marked. */
  ghost function MarkAll(objects: map<nat, Object>, ids: set<nat>): (r: map<nat, Object>)
    ensures r.Keys == objects.Keys
    ensures forall id :: id in r ==> r[id].next == objects[id].next && (r[id].marked <==> objects[id].marked || id in ids)
  {
    map id | id in objects :: if id in ids then objects[id].(marked := true) else objects[id]
  }

  /** The objects of `list` that are marked in `objects`, in list order. */
  ghost function Survivors(list: seq<nat>, objects: map<nat, Object>): seq<nat>
    requires forall i :: 0 <= i < |list| ==> list[i] in objects
  {
    if list == [] then []
    else if objects[list[|list| - 1]].marked then Survivors(list[..|list| - 1], objects) + [list[|list| - 1]]
    else Survivors(list[..|list| - 1], objects)
  }

  class Heap {
    /** The allocated objects, by address. */
    var objects: map<nat, Object>
    var firstObject: Ptr
    /** The next fresh address. */
    var nextId: nat
    /** The addresses along the list from `firstObject`. */
    ghost var list: seq<nat>

    /** The list threads every allocated object once, and the marked objects form a tail of it. */
    ghost predicate Valid()
      reads this
    {
      HeapShape(objects, firstObject, list, nextId) && MarksClosed(objects, list, -1)
    }

    /** `Heap::new`: an empty list. */
    constructor ()
      ensures Valid()
      ensures objects == map[] && firstObject == Null && list == []
    {
      objects := map[];
      firstObject := Null;
      nextId := 0;
      list := [];
    }

    /** `allocate`: a new unmarked object at a fresh address becomes the head of the list. */
    method Allocate() returns (p: Ptr)
      requires Valid()
      modifies this
      ensures Valid()
      ensures p.Ref? && p.id !in old(objects)
      ensures list == [p.id] + old(list)
      ensures firstObject == p
      ensures objects == old(objects)[p.id := NewObject().(next := old(firstObject))]
    {
      AllocateStep(objects, firstObject, list, nextId);
      var id := nextId;
      nextId := nextId + 1;
      objects := objects[id := NewObject().(next := firstObject)];
      firstObject := Ref(id);
      list := [id] + list;
      p := Ref(id);
    }

    /**
     * `mark_object`: marks `p` and everything reachable from it along `next`,
     * stopping at null or at an object already marked. Nothing is unmarked and
     * no link changes.
     */
    method MarkObject(p: Ptr)
      requires HeapShape(objects, firstObject, list, nextId) && MarksClosed(objects, list, Gap(list, p))
      requires p.Ref? ==> p.id in objects
      modifies this
      ensures Valid()
      ensures objects == MarkAll(old(objects), Reach(list, p))
      ensures list == old(list) && firstObject == old(firstObject) && nextId == old(nextId)
      decreases if p.Ref? && p.id in list then |list| - IndexOf(list, p.id) else 0
    {
      if p.Null? {
        MarkNothing(objects, list);
        return;
      }
      ghost var i := IndexOf(list, p.id);
      if objects[p.id].marked {
        MarkedFrom(objects, firstObject, list, nextId, i);
        return;
      }
      MarkUnmarked(objects, firstObject, list, nextId, i);
      objects := objects[p.id := objects[p.id].(marked := true)];
      var next := objects[p.id].next;
      MarkObject(next);
    }

    /**
     * `mark`: every object reachable from a root is marked afterwards, nothing
     * else changes. The roots are visited in an arbitrary order.
     */
    method Mark(roots: set<Ptr>)
      requires Valid() && forall r :: r in roots && r.Ref? ==> r.id in objects
      modifies this
      ensures Valid()
      ensures objects == MarkAll(old(objects), ReachAll(list, roots))
      ensures list == old(list) && firstObject == old(firstObject) && nextId == old(nextId)
    {
      var remaining := roots;
      while remaining != {}
        invariant Valid() && remaining <= roots
        invariant list == old(list) && firstObject == old(firstObject) && nextId == old(nextId)
        invariant objects == MarkAll(old(objects), ReachAll(list, roots - remaining))
        decreases |remaining|
      {
        var root :| root in remaining;
        MarkRoot(objects, old(objects), list, roots, remaining, root);
        MarkObject(root);
        remaining := remaining - {root};
      }
      assert roots - remaining == roots;
    }

    /**
     * `sweep`: walks the list with a cursor on the link to the current object.
     * A marked object is unmarked and kept; an unmarked one is unlinked and
     * freed. Afterwards the list holds exactly the objects that were marked,
     * in their old order, all unmarked, and exactly the unmarked ones are gone.
     */
    method Sweep()
      requires Valid()
      modifies this
      ensures Valid()
      ensures list == Survivors(old(list), old(objects))
      ensures objects.Keys == set id | id in old(objects) && old(objects)[id].marked
      ensures forall id :: id in objects ==> !objects[id].marked
      ensures nextId == old(nextId)
    {
      ghost var k := 0;
      var previous := Null;
      var current := firstObject;
      while current.Ref?
        invariant k <= |old(list)| && list == old(list) && nextId == old(nextId)
        invariant SweepCursor(objects, firstObject, previous, current) == SweepRun(old(objects), old(firstObject), k)
        decreases |old(list)| - k
      {
        SweepRunFacts(old(objects), old(list), nextId, k);
        var obj := objects[current.id];
        if obj.marked {
          objects := objects[current.id := obj.(marked := false)];
          previous := current;
        } else {
          if previous.Null? {
            firstObject := obj.next;
          } else {
            objects := objects[previous.id := objects[previous.id].(next := obj.next)];
          }
          objects := objects - {current.id};
        }
        current := obj.next;
        k := k + 1;
      }
      SweepRunFacts(old(objects), old(list), nextId, k);
      assert k == |old(list)|;
      assert objects == SweepRun(old(objects), old(firstObject), k).objects;
      SweepRunDone(old(objects), old(list), nextId);
      list := Survivors(old(list), old(objects));
    }
  }

  // Allocation

  /** The list with a fresh object in front of it threads the objects with that object added. */
  lemma AllocateShape(objects: map<nat, Object>, first: Ptr, list: seq<nat>, nextId: nat)
    requires HeapShape(objects, first, list, nextId)
    ensures nextId !in objects && nextId !in list
    ensures HeapShape(objects[nextId := Object(false, first)], Ref(nextId), [nextId] + list, nextId + 1)
  {
    var objects' := objects[nextId := Object(false, first)];
    var list' := [nextId] + list;
    assert forall i :: 0 <= i < |list| ==> list[i] != nextId;
    forall i, j | 0 <= i && j == i + 1 && j < |list'| ensures objects'[list'[i]].next == Ref(list'[j]) {
      if i > 0 {
        assert list'[i] == list[i - 1] && list'[j] == list[i];
      }
    }
  }

  /** An unmarked object in front of the list keeps the marks closed. */
  lemma AllocateMarks(objects: map<nat, Object>, first: Ptr, list: seq<nat>, nextId: nat)
    requires MarksClosed(objects, list, -1) && nextId !in list
    ensures MarksClosed(objects[nextId := Object(false, first)], [nextId] + list, -1)
  {
    var objects' := objects[nextId := Object(false, first)];
    var list' := [nextId] + list;
    forall i, j | 0 <= i && j == i + 1 && j < |list'| && list'[i] in objects' && list'[j] in objects' && objects'[list'[i]].marked
      ensures objects'[list'[j]].marked
    {
      if i > 0 {
        assert list'[i] == list[i - 1] && list'[j] == list[i];
      }
    }
  }

  lemma AllocateStep(objects: map<nat, Object>, first: Ptr, list: seq<nat>, nextId: nat)
    requires HeapShape(objects, first, list, nextId) && MarksClosed(objects, list, -1)
    ensures nextId !in objects
    ensures var objects' := objects[nextId := Object(false, first)];
            HeapShape(objects', Ref(nextId), [nextId] + list, nextId + 1) && MarksClosed(objects', [nextId] + list, -1)
  {
    AllocateShape(objects, first, list, nextId);
    AllocateMarks(objects, first, list, nextId);
  }

  // Marking

  /** The ids reachable from some root. */
  ghost function ReachAll(list: seq<nat>, roots: set<Ptr>): set<nat> {
    set x | x in list && exists r :: r in roots && x in Reach(list, r)
  }

  /**
   * Before `mark` marks from one more root: the marks are closed, the root is
   * still allocated, and marking what it reaches extends the marks by it.
   */
  lemma MarkRoot(objects: map<nat, Object>, oldObjects: map<nat, Object>, list: seq<nat>, roots: set<Ptr>, remaining: set<Ptr>, root: Ptr)
    requires objects == MarkAll(oldObjects, ReachAll(list, roots - remaining)) && MarksClosed(objects, list, -1)
    requires root in remaining && remaining <= roots && forall r :: r in roots && r.Ref? ==> r.id in oldObjects
    ensures MarksClosed(objects, list, Gap(list, root))
    ensures root.Ref? ==> root.id in objects
    ensures MarkAll(objects, Reach(list, root)) == MarkAll(oldObjects, ReachAll(list, roots - (remaining - {root})))
  {
    assert roots - (remaining - {root}) == (roots - remaining) + {root};
    assert ReachAll(list, roots - (remaining - {root})) == ReachAll(list, roots - remaining) + Reach(list, root);
  }

  lemma MarkNothing(objects: map<nat, Object>, list: seq<nat>)
    ensures objects == MarkAll(objects, Reach(list, Null))
  {
  }

  /** From a marked object at position `i` onwards the list is marked, if marks propagate past `i`. */
  lemma {:induction false} MarkedTail(objects: map<nat, Object>, list: seq<nat>, gap: int, i: nat, j: nat)
    requires forall x :: 0 <= x < |list| ==> list[x] in objects
    requires MarksClosed(objects, list, gap) && gap < i <= j < |list| && objects[list[i]].marked
    ensures objects[list[j]].marked
    decreases j - i
  {
    if i < j {
      MarkedTail(objects, list, gap, i + 1, j);
    }
  }

  /** `mark_object` meeting an object already marked: everything reachable from it is marked already. */
  lemma MarkedFrom(objects: map<nat, Object>, first: Ptr, list: seq<nat>, nextId: nat, i: nat)
    requires HeapShape(objects, first, list, nextId) && i < |list| && objects[list[i]].marked
    requires MarksClosed(objects, list, i - 1)
    ensures MarksClosed(objects, list, -1)
    ensures objects == MarkAll(objects, Reach(list, Ref(list[i])))
  {
    assert IndexOf(list, list[i]) == i;
    forall j | i <= j < |list| ensures objects[list[j]].marked {
      MarkedTail(objects, list, i - 1, i, j);
    }
  }

  /**
   * `mark_object` meeting an unmarked object at position `i`: marking it keeps
   * the list intact, and its `next` is the following position.
   */
  lemma MarkOneShape(objects: map<nat, Object>, first: Ptr, list: seq<nat>, nextId: nat, i: nat)
    requires HeapShape(objects, first, list, nextId) && i < |list|
    ensures var marked := objects[list[i] := objects[list[i]].(marked := true)];
            HeapShape(marked, first, list, nextId) && marked[list[i]].next == PtrTo(list, i + 1)
  {
    if i + 1 < |list| {
      assert objects[list[i]].next == Ref(list[i + 1]);
    }
  }

  /** Marking the object at position `i`, whose predecessor's mark had not propagated, moves the gap to `i`. */
  lemma MarkOneMarks(objects: map<nat, Object>, first: Ptr, list: seq<nat>, nextId: nat, i: nat)
    requires HeapShape(objects, first, list, nextId) && i < |list|
    requires MarksClosed(objects, list, i - 1)
    ensures MarksClosed(objects[list[i] := objects[list[i]].(marked := true)], list, Gap(list, PtrTo(list, i + 1)))
  {
    if i + 1 < |list| {
      assert IndexOf(list, list[i + 1]) == i + 1;
    }
  }

  /** Marking one object and then a set is marking the set with that object added. */
  lemma MarkAllOne(objects: map<nat, Object>, x: nat, ids: set<nat>)
    requires x in objects
    ensures MarkAll(objects[x := objects[x].(marked := true)], ids) == MarkAll(objects, {x} + ids)
  {
  }

  /** What is reachable from position `i` is the object there and what is reachable from its successor. */
  lemma ReachStep(list: seq<nat>, i: nat)
    requires Distinct(list) && i < |list|
    ensures Reach(list, Ref(list[i])) == {list[i]} + Reach(list, PtrTo(list, i + 1))
  {
    assert IndexOf(list, list[i]) == i;
    if i + 1 < |list| {
      assert IndexOf(list, list[i + 1]) == i + 1;
    }
  }

  /**
   * The recursive case of `mark_object`: after marking the unmarked object at
   * position `i`, marking what is reachable from its successor completes
   * marking what is reachable from it.
   */
  lemma MarkUnmarked(objects: map<nat, Object>, first: Ptr, list: seq<nat>, nextId: nat, i: nat)
    requires HeapShape(objects, first, list, nextId) && i < |list|
    requires MarksClosed(objects, list, i - 1)
    ensures var marked := objects[list[i] := objects[list[i]].(marked := true)];
            var next := marked[list[i]].next;
            && HeapShape(marked, first, list, nextId)
            && MarksClosed(marked, list, Gap(list, next))
            && (next.Ref? ==> next.id in marked && next.id in list && IndexOf(list, next.id) == i + 1)
            && MarkAll(marked, Reach(list, next)) == MarkAll(objects, Reach(list, Ref(list[i])))
  {
    MarkOneShape(objects, first, list, nextId, i);
    MarkOneMarks(objects, first, list, nextId, i);
    if i + 1 < |list| {
      assert IndexOf(list, list[i + 1]) == i + 1;
    }
    MarkAllOne(objects, list[i], Reach(list, PtrTo(list, i + 1)));
    ReachStep(list, i);
  }

  // Sweeping

  /** The survivors of a list are its marked elements, in order and without repetition. */
  lemma {:induction false} SurvivorsElements(list: seq<nat>, objects: map<nat, Object>)
    requires forall i :: 0 <= i < |list| ==> list[i] in objects
    ensures forall x :: x in Survivors(list, objects) <==> x in list && objects[x].marked
    ensures Distinct(list) ==> Distinct(Survivors(list, objects))
  {
    if list != [] {
      var n := |list| - 1;
      SurvivorsElements(list[..n], objects);
      assert list == list[..n] + [list[n]];
    }
  }

  lemma SurvivorsSnoc(list: seq<nat>, objects: map<nat, Object>, k: nat)
    requires k < |list| && forall i :: 0 <= i < |list| ==> list[i] in objects
    ensures Survivors(list[..k + 1], objects)
            == Survivors(list[..k], objects) + (if objects[list[k]].marked then [list[k]] else [])
  {
    assert list[..k + 1][..k] == list[..k];
  }

  /** The variables of `sweep`: the objects, the head link, the last object kept and the object under the cursor. */
  datatype SweepCursor = SweepCursor(objects: map<nat, Object>, first: Ptr, previous: Ptr, current: Ptr)

  /**
   * One iteration of the loop of `sweep`: a marked current object is unmarked
   * and becomes the previous one; an unmarked one is freed and the link that
   * pointed to it (the head or the previous object's `next`) skips it.
   */
  function SweepStep(c: SweepCursor): SweepCursor {
    if c.current.Null? || c.current.id !in c.objects then c
    else
      var obj := c.objects[c.current.id];
      if obj.marked then SweepCursor(c.objects[c.current.id := obj.(marked := false)], c.first, c.current, obj.next)
      else if c.previous.Null? then SweepCursor(c.objects - {c.current.id}, obj.next, c.previous, obj.next)
      else if c.previous.id in c.objects then
        SweepCursor(c.objects[c.previous.id := c.objects[c.previous.id].(next := obj.next)] - {c.current.id}, c.first, c.previous, obj.next)
      else c
  }

  /** The variables of `sweep` after `k` iterations. */
  ghost function SweepRun(objects: map<nat, Object>, first: Ptr, k: nat): SweepCursor {
    if k == 0 then SweepCursor(objects, first, Null, first) else SweepStep(SweepRun(objects, first, k - 1))
  }

  /**
   * The survivors `kept` so far are allocated, unmarked and linked in order
   * from the head; the last of them, or the head if there is none, links to
   * the cursor, and `previous` is that last one.
   */
  ghost predicate KeptLinked(c: SweepCursor, kept: seq<nat>) {
    && c.previous == (if kept == [] then Null else Ref(kept[|kept| - 1]))
    && (forall i :: 0 <= i < |kept| ==> kept[i] in c.objects && !c.objects[kept[i]].marked)
    && (kept != [] ==> c.first == Ref(kept[0]))
    && (forall i, j :: 0 <= i && j == i + 1 && j < |kept| ==> c.objects[kept[i]].next == Ref(kept[j]))
    && (if kept == [] then c.first else c.objects[kept[|kept| - 1]].next) == c.current
  }

  /** The objects from position `k` of `list` on are as they were, and nothing else but `kept` is allocated. */
  ghost predicate RestUntouched(current: map<nat, Object>, list: seq<nat>, objects: map<nat, Object>, kept: seq<nat>, k: nat) {
    && k <= |list|
    && (forall i :: k <= i < |list| ==> list[i] in objects && list[i] in current && current[list[i]] == objects[list[i]])
    && (forall x :: x in current ==> x in kept || x in list[k..])
  }

  /** The state of the sweep after the first `k` objects of `list`, which `objects` held before the sweep. */
  ghost predicate SweepState(c: SweepCursor, list: seq<nat>, objects: map<nat, Object>, nextId: nat, k: nat) {
    && HeapShape(objects, PtrTo(list, 0), list, nextId)
    && k <= |list|
    && c.current == PtrTo(list, k)
    && KeptLinked(c, Survivors(list[..k], objects))
    && RestUntouched(c.objects, list, objects, Survivors(list[..k], objects), k)
  }

  lemma SweepStart(objects: map<nat, Object>, list: seq<nat>, nextId: nat)
    requires HeapShape(objects, PtrTo(list, 0), list, nextId)
    ensures SweepState(SweepRun(objects, PtrTo(list, 0), 0), list, objects, nextId, 0)
  {
    assert list[..0] == [];
    assert list[0..] == list;
  }

  /** Keeping the marked object `x` under the cursor extends the linked survivors by `x`. */
  lemma KeepKept(c: SweepCursor, kept: seq<nat>, x: nat)
    requires KeptLinked(c, kept) && c.current == Ref(x) && x in c.objects && x !in kept
    ensures KeptLinked(SweepCursor(c.objects[x := c.objects[x].(marked := false)], c.first, Ref(x), c.objects[x].next), kept + [x])
  {
    var c' := SweepCursor(c.objects[x := c.objects[x].(marked := false)], c.first, Ref(x), c.objects[x].next);
    var kept' := kept + [x];
    forall i | 0 <= i < |kept'| ensures kept'[i] in c'.objects && !c'.objects[kept'[i]].marked {
      if i < |kept| {
        assert kept'[i] == kept[i] != x;
      }
    }
    forall i, j | 0 <= i && j == i + 1 && j < |kept'| ensures c'.objects[kept'[i]].next == Ref(kept'[j]) {
      if j < |kept| {
        assert c.objects[kept[i]].next == Ref(kept[j]);
      }
    }
  }

  /** Keeping the object at position `k` leaves the rest of the list from `k + 1` untouched. */
  lemma KeepRest(c: SweepCursor, list: seq<nat>, objects: map<nat, Object>, kept: seq<nat>, k: nat)
    requires RestUntouched(c.objects, list, objects, kept, k) && Distinct(list) && k < |list|
    ensures var x := list[k];
            RestUntouched(c.objects[x := c.objects[x].(marked := false)], list, objects, kept + [x], k + 1)
  {
    var x := list[k];
    var objects' := c.objects[x := c.objects[x].(marked := false)];
    forall i | k + 1 <= i < |list| ensures list[i] in objects && list[i] in objects' && objects'[list[i]] == objects[list[i]] {
      assert list[i] != x;
    }
    forall y | y in objects' ensures y in kept + [x] || y in list[k + 1..] {
      if y !in kept && y != x {
        var i :| 0 <= i < |list[k..]| && list[k..][i] == y;
        assert list[k + 1..][i - 1] == y;
      }
    }
  }

  lemma KeepStep(c: SweepCursor, list: seq<nat>, objects: map<nat, Object>, nextId: nat, k: nat)
    requires SweepState(c, list, objects, nextId, k) && k < |list| && objects[list[k]].marked
    ensures SweepState(SweepStep(c), list, objects, nextId, k + 1)
  {
    var x := list[k];
    var kept := Survivors(list[..k], objects);
    SurvivorsSnoc(list, objects, k);
    KeptFacts(objects, list, nextId, k);
    KeepKept(c, kept, x);
    KeepRest(c, list, objects, kept, k);
    NextOf(objects, list, nextId, k);
  }

  /** Freeing the unmarked object `x` under the cursor, with no survivor yet, makes the head link skip it. */
  lemma DropKeptHead(c: SweepCursor, x: nat)
    requires KeptLinked(c, []) && c.current == Ref(x) && x in c.objects
    ensures KeptLinked(SweepCursor(c.objects - {x}, c.objects[x].next, Null, c.objects[x].next), [])
  {
  }

  /** Freeing the unmarked object `x` under the cursor makes the last survivor's link skip it. */
  lemma DropKeptAfter(c: SweepCursor, kept: seq<nat>, x: nat)
    requires KeptLinked(c, kept) && kept != [] && Distinct(kept) && c.current == Ref(x) && x in c.objects && x !in kept
    ensures var p := kept[|kept| - 1];
            KeptLinked(SweepCursor(c.objects[p := c.objects[p].(next := c.objects[x].next)] - {x}, c.first, Ref(p), c.objects[x].next), kept)
  {
    var p := kept[|kept| - 1];
    var c' := SweepCursor(c.objects[p := c.objects[p].(next := c.objects[x].next)] - {x}, c.first, Ref(p), c.objects[x].next);
    forall i | 0 <= i < |kept| ensures kept[i] in c'.objects && !c'.objects[kept[i]].marked {
      assert kept[i] != x;
    }
    forall i, j | 0 <= i && j == i + 1 && j < |kept| ensures c'.objects[kept[i]].next == Ref(kept[j]) {
      assert kept[i] != p && kept[i] != x;
      assert c.objects[kept[i]].next == Ref(kept[j]);
    }
  }

  /**
   * Freeing the object at position `k`, and changing nothing but survivors,
   * leaves the rest of the list from `k + 1` untouched.
   */
  lemma DropRest(current: map<nat, Object>, current': map<nat, Object>, list: seq<nat>, objects: map<nat, Object>, kept: seq<nat>, k: nat)
    requires RestUntouched(current, list, objects, kept, k) && Distinct(list) && k < |list|
    requires forall y :: y in kept ==> y in list[..k]
    requires current'.Keys == current.Keys - {list[k]}
    requires forall y :: y in current' && y !in kept ==> current'[y] == current[y]
    ensures RestUntouched(current', list, objects, kept, k + 1)
  {
    var x := list[k];
    forall i | k + 1 <= i < |list| ensures list[i] in objects && list[i] in current' && current'[list[i]] == objects[list[i]] {
      assert list[i] != x;
      assert list[i] !in list[..k];
    }
    forall y | y in current' ensures y in kept || y in list[k + 1..] {
      if y !in kept {
        var i :| 0 <= i < |list[k..]| && list[k..][i] == y;
        assert list[k + 1..][i - 1] == y;
      }
    }
  }

  /** The survivors of the first `k` objects are distinct objects among them, so the object at position `k` is not one of them. */
  lemma KeptFacts(objects: map<nat, Object>, list: seq<nat>, nextId: nat, k: nat)
    requires HeapShape(objects, PtrTo(list, 0), list, nextId) && k < |list|
    ensures var kept := Survivors(list[..k], objects);
            Distinct(kept) && list[k] !in kept && forall y :: y in kept ==> y in list[..k]
  {
    SurvivorsElements(list[..k], objects);
    assert list[k] !in list[..k];
  }

  /** The next link of the object at position `k` of an intact list points to position `k + 1`. */
  lemma NextOf(objects: map<nat, Object>, list: seq<nat>, nextId: nat, k: nat)
    requires HeapShape(objects, PtrTo(list, 0), list, nextId) && k < |list|
    ensures objects[list[k]].next == PtrTo(list, k + 1)
  {
    if k + 1 < |list| {
      assert objects[list[k]].next == Ref(list[k + 1]);
    }
  }

  lemma DropStepHead(c: SweepCursor, list: seq<nat>, objects: map<nat, Object>, nextId: nat, k: nat)
    requires SweepState(c, list, objects, nextId, k) && k < |list| && !objects[list[k]].marked
    requires Survivors(list[..k], objects) == []
    ensures SweepState(SweepStep(c), list, objects, nextId, k + 1)
  {
    var x := list[k];
    SurvivorsSnoc(list, objects, k);
    NextOf(objects, list, nextId, k);
    assert SweepStep(c) == SweepCursor(c.objects - {x}, c.objects[x].next, Null, c.objects[x].next);
    DropKeptHead(c, x);
    DropRest(c.objects, c.objects - {x}, list, objects, [], k);
  }

  /** Freeing the object at position `k` after a survivor: the survivors stay linked, now to position `k + 1`. */
  lemma DropAfterKept(c: SweepCursor, list: seq<nat>, objects: map<nat, Object>, nextId: nat, k: nat)
    requires HeapShape(objects, PtrTo(list, 0), list, nextId) && k < |list| && !objects[list[k]].marked
    requires Survivors(list[..k], objects) != [] && KeptLinked(c, Survivors(list[..k], objects))
    requires c.current == Ref(list[k]) && list[k] in c.objects && c.objects[list[k]] == objects[list[k]]
    ensures KeptLinked(SweepStep(c), Survivors(list[..k + 1], objects))
  {
    var x := list[k];
    var kept := Survivors(list[..k], objects);
    var p := kept[|kept| - 1];
    SurvivorsSnoc(list, objects, k);
    KeptFacts(objects, list, nextId, k);
    var c' := SweepCursor(c.objects[p := c.objects[p].(next := c.objects[x].next)] - {x}, c.first, Ref(p), c.objects[x].next);
    assert SweepStep(c) == c';
    DropKeptAfter(c, kept, x);
  }

  /** Freeing the object at position `k` after a survivor leaves the rest of the list untouched. */
  lemma DropAfterRest(c: SweepCursor, list: seq<nat>, objects: map<nat, Object>, nextId: nat, k: nat)
    requires HeapShape(objects, PtrTo(list, 0), list, nextId) && k < |list| && !objects[list[k]].marked
    requires Survivors(list[..k], objects) != [] && RestUntouched(c.objects, list, objects, Survivors(list[..k], objects), k)
    requires c.current == Ref(list[k]) && c.previous == Ref(Survivors(list[..k], objects)[|Survivors(list[..k], objects)| - 1])
    requires c.previous.id in c.objects
    ensures RestUntouched(SweepStep(c).objects, list, objects, Survivors(list[..k + 1], objects), k + 1)
  {
    var x := list[k];
    var kept := Survivors(list[..k], objects);
    var p := kept[|kept| - 1];
    SurvivorsSnoc(list, objects, k);
    KeptFacts(objects, list, nextId, k);
    var objects' := c.objects[p := c.objects[p].(next := c.objects[x].next)] - {x};
    assert SweepStep(c).objects == objects';
    DropRest(c.objects, objects', list, objects, kept, k);
  }

  lemma DropStepAfter(c: SweepCursor, list: seq<nat>, objects: map<nat, Object>, nextId: nat, k: nat)
    requires SweepState(c, list, objects, nextId, k) && k < |list| && !objects[list[k]].marked
    requires Survivors(list[..k], objects) != []
    ensures SweepState(SweepStep(c), list, objects, nextId, k + 1)
  {
    NextOf(objects, list, nextId, k);
    DropAfterKept(c, list, objects, nextId, k);
    DropAfterRest(c, list, objects, nextId, k);
  }

  lemma DropStep(c: SweepCursor, list: seq<nat>, objects: map<nat, Object>, nextId: nat, k: nat)
    requires SweepState(c, list, objects, nextId, k) && k < |list| && !objects[list[k]].marked
    ensures SweepState(SweepStep(c), list, objects, nextId, k + 1)
  {
    if Survivors(list[..k], objects) == [] {
      DropStepHead(c, list, objects, nextId, k);
    } else {
      DropStepAfter(c, list, objects, nextId, k);
    }
  }

  /** After any number of iterations up to the length of the list, the sweep is in its invariant state. */
  lemma {:induction false} SweepRunState(objects: map<nat, Object>, list: seq<nat>, nextId: nat, k: nat)
    requires HeapShape(objects, PtrTo(list, 0), list, nextId) && k <= |list|
    ensures SweepState(SweepRun(objects, PtrTo(list, 0), k), list, objects, nextId, k)
  {
    if k == 0 {
      SweepStart(objects, list, nextId);
    } else {
      SweepRunState(objects, list, nextId, k - 1);
      if objects[list[k - 1]].marked {
        KeepStep(SweepRun(objects, PtrTo(list, 0), k - 1), list, objects, nextId, k - 1);
      } else {
        DropStep(SweepRun(objects, PtrTo(list, 0), k - 1), list, objects, nextId, k - 1);
      }
    }
  }

  /** What the loop of `sweep` needs at each iteration: the cursor is at position `k`, and both it and the previous object are allocated. */
  lemma SweepRunFacts(objects: map<nat, Object>, list: seq<nat>, nextId: nat, k: nat)
    requires HeapShape(objects, PtrTo(list, 0), list, nextId) && k <= |list|
    ensures var c := SweepRun(objects, PtrTo(list, 0), k);
            && c.current == PtrTo(list, k)
            && (c.current.Ref? ==> c.current.id in c.objects)
            && (c.previous.Ref? ==> c.previous.id in c.objects)
  {
    SweepRunState(objects, list, nextId, k);
  }

  /** When the cursor has passed the whole list, the survivors are linked in order from the head. */
  lemma SweepDoneLinked(c: SweepCursor, list: seq<nat>, objects: map<nat, Object>, nextId: nat)
    requires SweepState(c, list, objects, nextId, |list|)
    ensures Linked(c.objects, c.first, Survivors(list, objects)) && Distinct(Survivors(list, objects))
  {
    assert list[..|list|] == list;
    SurvivorsElements(list, objects);
  }

  /** When the cursor has passed the whole list, only survivors are allocated, all unmarked. */
  lemma SweepDoneUnmarked(c: SweepCursor, list: seq<nat>, objects: map<nat, Object>, nextId: nat)
    requires SweepState(c, list, objects, nextId, |list|)
    ensures forall x :: x in c.objects ==> x in Survivors(list, objects) && x < nextId && !c.objects[x].marked
  {
    assert list[..|list|] == list;
    var kept := Survivors(list, objects);
    SurvivorsElements(list, objects);
    forall x | x in c.objects ensures x in kept && x < nextId && !c.objects[x].marked {
      assert x !in list[|list|..];
      var i :| 0 <= i < |kept| && kept[i] == x;
    }
  }

  /** When the cursor has passed the whole list, exactly the marked objects are still allocated. */
  lemma SweepDoneKeys(c: SweepCursor, list: seq<nat>, objects: map<nat, Object>, nextId: nat)
    requires SweepState(c, list, objects, nextId, |list|)
    ensures c.objects.Keys == (set id | id in objects && objects[id].marked)
  {
    assert list[..|list|] == list;
    var kept := Survivors(list, objects);
    SurvivorsElements(list, objects);
    forall x | x in c.objects ensures x in objects && objects[x].marked {
      assert x !in list[|list|..];
    }
    forall x | x in objects && objects[x].marked ensures x in c.objects {
      var i :| 0 <= i < |kept| && kept[i] == x;
    }
  }

  /** When the cursor has passed the whole list, the survivors are exactly the marked objects, unmarked and linked in order. */
  lemma SweepRunDone(objects: map<nat, Object>, list: seq<nat>, nextId: nat)
    requires HeapShape(objects, PtrTo(list, 0), list, nextId)
    ensures var c := SweepRun(objects, PtrTo(list, 0), |list|);
            var kept := Survivors(list, objects);
            && HeapShape(c.objects, c.first, kept, nextId) && MarksClosed(c.objects, kept, -1)
            && c.objects.Keys == (set id | id in objects && objects[id].marked)
            && (forall x :: x in c.objects ==> !c.objects[x].marked)
  {
    var c := SweepRun(objects, PtrTo(list, 0), |list|);
    SweepRunState(objects, list, nextId, |list|);
    SweepDoneLinked(c, list, objects, nextId);
    SweepDoneUnmarked(c, list, objects, nextId);
    SweepDoneKeys(c, list, objects, nextId);
  }
}
