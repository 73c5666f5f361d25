/** lib/kernel/list.c: doubly linked lists whose elements carry the links, between a head and a tail that belong to the list. */
module LinkedLists {
  import opened Wrappers

  class Elem {
    var prev: Elem?
    var next: Elem?

    constructor ()
    {
      prev, next := null, null;
    }
  }

  /** Each node is the next of the one before it and the other way around. */
  ghost predicate Linked(nodes: seq<Elem>)
    reads nodes
  {
    forall k | 0 <= k < |nodes| - 1 :: nodes[k].next == nodes[k + 1] && nodes[k + 1].prev == nodes[k]
  }

  function Inserted(s: seq<Elem>, k: nat, e: Elem): seq<Elem>
    requires k <= |s|
  {
    s[..k] + [e] + s[k..]
  }

  function Dropped(s: seq<Elem>, k: nat): seq<Elem>
    requires k < |s|
  {
    s[..k] + s[k + 1..]
  }

  /** Where everything stands afterwards. */
  lemma InsertedAt(s: seq<Elem>, k: nat, e: Elem)
    requires k <= |s|
    ensures var r := Inserted(s, k, e);
            && |r| == |s| + 1 && r[k] == e && (forall j | 0 <= j < k :: r[j] == s[j]) && forall j | k <= j < |s| :: r[j + 1] == s[j]
    ensures Dropped(Inserted(s, k, e), k) == s
  {
  }

  lemma DroppedAt(s: seq<Elem>, k: nat)
    requires k < |s|
    ensures var r := Dropped(s, k);
            |r| == |s| - 1 && (forall j | 0 <= j < k :: r[j] == s[j]) && forall j | k <= j < |r| :: r[j] == s[j + 1]
    ensures Inserted(Dropped(s, k), k, s[k]) == s
  {
  }

  lemma InsertedIsNew(s: seq<Elem>, k: nat, e: Elem)
    requires k <= |s| && NoDup(s) && e !in s
    ensures NoDup(Inserted(s, k, e)) && forall x :: x in Inserted(s, k, e) <==> x in s || x == e
  {
    var r := Inserted(s, k, e);
    assert forall j | 0 <= j < |r| :: r[j] == if j < k then s[j] else if j == k then e else s[j - 1];
    forall x | x in s ensures x in r {
      var j :| 0 <= j < |s| && s[j] == x;
      assert r[if j < k then j else j + 1] == x;
    }
    assert r[k] == e;
  }

  lemma DroppedIsGone(s: seq<Elem>, k: nat)
    requires k < |s| && NoDup(s)
    ensures NoDup(Dropped(s, k)) && forall x :: x in Dropped(s, k) <==> x in s && x != s[k]
  {
    var r := Dropped(s, k);
    assert forall j | 0 <= j < |r| :: r[j] == if j < k then s[j] else s[j + 1];
    forall x | x in s && x != s[k] ensures x in r {
      var j :| 0 <= j < |s| && s[j] == x;
      assert r[if j < k then j else j - 1] == x;
    }
  }

  /** Every link but the one from place k, and those of an element in between. */
  lemma InsertedIsLinked(nodes: seq<Elem>, k: nat, elem: Elem)
    requires k + 1 < |nodes|
    requires forall j | 0 <= j < |nodes| - 1 && j != k :: nodes[j].next == nodes[j + 1] && nodes[j + 1].prev == nodes[j]
    requires nodes[k].next == elem && elem.prev == nodes[k] && elem.next == nodes[k + 1] && nodes[k + 1].prev == elem
    ensures Linked(Inserted(nodes, k + 1, elem))
  {
    var r := Inserted(nodes, k + 1, elem);
    forall j | 0 <= j < |r| - 1 ensures r[j].next == r[j + 1] && r[j + 1].prev == r[j] {
      assert r[j] == if j <= k then nodes[j] else if j == k + 1 then elem else nodes[j - 1];
    }
  }

  /** The four assignments of list_insert_before. */
  method Relink(before: Elem, elem: Elem, ghost nodes: seq<Elem>, ghost k: nat)
    requires NoDup(nodes) && Linked(nodes) && k + 1 < |nodes| && nodes[k + 1] == before && elem !in nodes
    modifies nodes, elem
    ensures Linked(Inserted(nodes, k + 1, elem))
  {
    assert nodes[k].next == before && before.prev == nodes[k];
    elem.prev := before.prev;
    elem.next := before;
    before.prev.next := elem;
    before.prev := elem;
    forall j | 0 <= j < |nodes| - 1 && j != k ensures nodes[j].next == nodes[j + 1] && nodes[j + 1].prev == nodes[j] {
      assert old(nodes[j].next) == nodes[j + 1] && old(nodes[j + 1].prev) == nodes[j];
      assert nodes[j] != nodes[k] && nodes[j + 1] != nodes[k + 1];
    }
    InsertedIsLinked(nodes, k, elem);
  }

  class List {
    const head: Elem
    const tail: Elem
    /** What is on the list, from the head on. */
    ghost var elems: seq<Elem>

    ghost function Nodes(): seq<Elem>
      reads this
    {
      [head] + elems + [tail]
    }

    ghost predicate Valid()
      reads this, Nodes()
    {
      NoDup(Nodes()) && Linked(Nodes())
    }

    /** Walking on from the node at place k + 1. */
    lemma At(k: nat)
      requires Valid() && k <= |elems|
      ensures Nodes()[k + 1] == tail <==> k == |elems|
      ensures k < |elems| ==> Nodes()[k + 1] == elems[k] && elems[k].next == Nodes()[k + 2]
      ensures head.next == Nodes()[1]
    {
      assert Nodes()[|elems| + 1] == tail;
      assert Nodes()[0].next == Nodes()[1] && (k < |elems| ==> Nodes()[k + 1].next == Nodes()[k + 2]);
    }

    /** list_init. */
    constructor ()
      ensures Valid() && elems == [] && fresh(head) && fresh(tail)
    {
      head := new Elem();
      tail := new Elem();
      elems := [];
      new;
      head.prev, head.next, tail.prev, tail.next := null, tail, head, null;
    }

    /** list_insert_before, for the node that stands at place k of the elements or is the tail. */
    method InsertBefore(before: Elem, elem: Elem, ghost k: nat)
      requires Valid() && k <= |elems| && Nodes()[k + 1] == before && elem !in Nodes()
      modifies this`elems, Nodes(), elem
      ensures Valid() && elems == Inserted(old(elems), k, elem)
    {
      ghost var nodes := Nodes();
      InsertedIsNew(nodes, k + 1, elem);
      Relink(before, elem, nodes, k);
      elems := Inserted(elems, k, elem);
      assert Nodes() == Inserted(nodes, k + 1, elem);
    }

    /** list_push. */
    method Push(elem: Elem)
      requires Valid() && elem !in Nodes()
      modifies this`elems, Nodes(), elem
      ensures Valid() && elems == [elem] + old(elems)
    {
      assert Nodes()[0].next == Nodes()[1];
      InsertBefore(head.next, elem, 0);
    }

    /** list_append. */
    method Append(elem: Elem)
      requires Valid() && elem !in Nodes()
      modifies this`elems, Nodes(), elem
      ensures Valid() && elems == old(elems) + [elem]
    {
      InsertBefore(tail, elem, |elems|);
    }

    /** list_remove of the element at place k. Its own links stay as they are. */
    method Remove(elem: Elem, ghost k: nat)
      requires Valid() && k < |elems| && elems[k] == elem
      modifies this`elems, Nodes()
      ensures Valid() && elems == Dropped(old(elems), k)
      ensures elem.prev == old(elem.prev) && elem.next == old(elem.next)
    {
      ghost var nodes := Nodes();
      assert nodes[k + 1] == elem && nodes[k].next == elem && nodes[k + 2].prev == elem;
      DroppedIsGone(nodes, k + 1);
      elem.prev.next := elem.next;
      elem.next.prev := elem.prev;
      elems := Dropped(elems, k);
      assert Nodes() == Dropped(nodes, k + 1);
    }

    /** list_pop. The source's callers see to it that there is an element. */
    method Pop() returns (elem: Elem)
      requires Valid() && elems != []
      modifies this`elems, Nodes()
      ensures Valid() && old(elems) == [elem] + elems
    {
      assert Nodes()[0].next == Nodes()[1];
      elem := head.next;
      Remove(elem, 0);
    }

    /** list_empty. */
    method Empty() returns (empty: bool)
      requires Valid()
      ensures empty <==> elems == []
    {
      At(0);
      empty := head.next == tail;
    }

    /** list_len. */
    method Len() returns (length: nat)
      requires Valid()
      ensures length == |elems|
    {
      var elem := head.next;
      length := 0;
      At(0);
      while elem != tail
        invariant length <= |elems| && elem == Nodes()[length + 1]
        decreases |elems| - length
      {
        At(length);
        length := length + 1;
        elem := elem.next;
      }
      At(length);
    }

    /** elem_find. */
    method Find(obj: Elem) returns (found: bool)
      requires Valid() && obj != tail && obj != head
      ensures found <==> obj in elems
    {
      var elem := head.next;
      ghost var k := 0;
      At(0);
      while elem != tail
        invariant k <= |elems| && elem == Nodes()[k + 1] && obj !in elems[..k]
        decreases |elems| - k
      {
        At(k);
        if elem == obj {
          return true;
        }
        elem := elem.next;
        k := k + 1;
      }
      At(k);
      return false;
    }

    /** list_traversal: the first element for which the function says so. */
    method Traversal(func: Elem -> bool) returns (elem: Elem?)
      requires Valid()
      ensures elem == null <==> forall e | e in elems :: !func(e)
      ensures elem != null ==> exists k :: 0 <= k < |elems| && elems[k] == elem && func(elems[k]) && forall j | 0 <= j < k :: !func(elems[j])
    {
      elem := head.next;
      ghost var k := 0;
      At(0);
      while elem != tail
        invariant k <= |elems| && elem == Nodes()[k + 1] && forall j | 0 <= j < k :: !func(elems[j])
        decreases |elems| - k
      {
        At(k);
        if func(elem) {
          return;
        }
        elem := elem.next;
        k := k + 1;
      }
      At(k);
      return null;
    }
  }

  /** What is done to one list does nothing to another, if they have no node in common: a thread's tag goes from one list to
      the end of another. */
  method Move(a: List, b: List, elem: Elem, ghost k: nat)
    requires a.Valid() && b.Valid() && k < |a.elems| && a.elems[k] == elem && a != b
    requires forall e | e in a.Nodes() :: e !in b.Nodes()
    modifies a`elems, b`elems, a.Nodes(), b.Nodes()
    ensures a.Valid() && b.Valid() && a.elems == Dropped(old(a.elems), k) && b.elems == old(b.elems) + [elem]
    ensures forall e | e in a.Nodes() :: e !in b.Nodes()
  {
    ghost var nodes, others := a.Nodes(), b.Nodes();
    assert nodes[k + 1] == elem;
    DroppedIsGone(nodes, k + 1);
    a.Remove(elem, k);
    ghost var rest := a.Nodes();
    assert rest == Dropped(nodes, k + 1);
    assert b.Nodes() == others && forall e | e in others :: e.next == old(e.next) && e.prev == old(e.prev);
    label Removed:
    b.Append(elem);
    assert a.Nodes() == rest && forall e | e in rest :: e.next == old@Removed(e.next) && e.prev == old@Removed(e.prev);
    assert forall e | e in b.Nodes() :: e in others || e == elem;
  }
}
