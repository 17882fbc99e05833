/** A doubly-linked list whose links point back to the list that holds them.
    The ghost sequence `nodes` lists the links from head to tail. */
module LinkedList {

  /** The position of `l` in `ns`. */
  ghost function IndexOf<T>(ns: seq<Link<T>>, l: Link<T>): (k: nat)
    requires l in ns
    ensures k < |ns| && ns[k] == l
    ensures forall j :: 0 <= j < k ==> ns[j] != l
    decreases |ns|
  {
    if ns[0] == l then 0 else 1 + IndexOf(ns[1..], l)
  }

  /** The position of the first value satisfying `f`, or |s| when none does. */
  function FirstMatch<T>(s: seq<T>, f: T -> bool): (k: nat)
    ensures k <= |s|
    ensures k < |s| ==> f(s[k])
    ensures forall j :: 0 <= j < k ==> !f(s[j])
    decreases |s|
  {
    if s == [] then 0 else if f(s[0]) then 0 else 1 + FirstMatch(s[1..], f)
  }

  /** In a valid list, a link's prev and next are its neighbours in `nodes`:
      null exactly at the head and at the tail. */
  lemma Neighbours<T>(l: List<T>, k: nat)
    requires l.Valid() && k < |l.nodes|
    ensures l.nodes[k].prev == if k == 0 then null else l.nodes[k - 1]
    ensures l.nodes[k].next == if k == |l.nodes| - 1 then null else l.nodes[k + 1]
  {
  }

  /** Removing the k-th link of a list whose links kept their values removes
      the k-th value. */
  lemma ValuesWithout<T>(l: List<T>, ns: seq<Link<T>>, vs: seq<T>, k: nat)
    requires k < |ns| == |vs| && l.nodes == ns[..k] + ns[k + 1..]
    requires forall i :: 0 <= i < |ns| ==> ns[i].value == vs[i]
    ensures l.Values() == vs[..k] + vs[k + 1..]
  {
  }

  class List<T> {
    var head: Link?<T>
    var tail: Link?<T>
    /** The links from head to tail. */
    ghost var nodes: seq<Link<T>>

    /** head and tail are the ends of `nodes`, consecutive links point at
        each other, every link names this list, and no link occurs twice. */
    ghost predicate Valid()
      reads this, nodes
    {
      && (nodes == [] ==> head == null && tail == null)
      && (nodes != [] ==> head == nodes[0] && tail == nodes[|nodes| - 1])
      && (nodes != [] ==> nodes[0].prev == null && nodes[|nodes| - 1].next == null)
      && (forall i :: 0 <= i < |nodes| ==> nodes[i].list == this)
      && (forall i :: 0 <= i < |nodes| - 1 ==> nodes[i].next == nodes[i + 1] && nodes[i + 1].prev == nodes[i])
      && (forall i, j :: 0 <= i < j < |nodes| ==> nodes[i] != nodes[j])
    }

    /** The values from head to tail. */
    ghost function Values(): (vs: seq<T>)
      reads this, nodes
      ensures |vs| == |nodes|
      ensures forall i :: 0 <= i < |nodes| ==> vs[i] == nodes[i].value
    {
      seq(|nodes|, i reads this, nodes requires 0 <= i < |nodes| => nodes[i].value)
    }

    /** A new, empty list. */
    constructor ()
      ensures Valid() && nodes == [] && Values() == []
      ensures head == null && tail == null
    {
      head, tail := null, null;
      nodes := [];
    }

    /** The first link, or null when the list is empty. */
    method PeekHead() returns (h: Link?<T>)
      ensures h == head
      ensures Valid() ==> h == if nodes == [] then null else nodes[0]
    {
      return head;
    }

    /** The last link, or null when the list is empty. */
    method PeekTail() returns (t: Link?<T>)
      ensures t == tail
      ensures Valid() ==> t == if nodes == [] then null else nodes[|nodes| - 1]
    {
      return tail;
    }

    /** Adds a link holding `value` before the head and returns it. */
    method PushHead(value: T) returns (newlink: Link<T>)
      requires Valid()
      modifies this, head
      ensures Valid()
      ensures fresh(newlink) && nodes == [newlink] + old(nodes)
      ensures Values() == [value] + old(Values())
      ensures head == newlink
      ensures tail == if old(tail) == null then newlink else old(tail)
    {
      newlink := new Link(this, null, head, value);
      if head != null {
        head.prev := newlink;
      }
      head := newlink;
      if tail == null {
        tail := newlink;
      }
      nodes := [newlink] + nodes;
    }

    /** Adds a link holding `value` after the tail and returns it. */
    method PushTail(value: T) returns (newlink: Link<T>)
      requires Valid()
      modifies this, tail
      ensures Valid()
      ensures fresh(newlink) && nodes == old(nodes) + [newlink]
      ensures Values() == old(Values()) + [value]
      ensures tail == newlink
      ensures head == if old(head) == null then newlink else old(head)
    {
      newlink := new Link(this, tail, null, value);
      if tail != null {
        tail.next := newlink;
      }
      tail := newlink;
      if head == null {
        head := newlink;
      }
      nodes := nodes + [newlink];
    }

    /** The first link, from head to tail, whose value satisfies `f`; null
        when there is none. The list is not changed. */
    method Find(f: T -> bool) returns (r: Link?<T>)
      requires Valid()
      ensures var k := FirstMatch(Values(), f); r == if k < |nodes| then nodes[k] else null
    {
      var cursor := head;
      ghost var i := 0;
      while cursor != null
        invariant 0 <= i <= |nodes|
        invariant cursor == if i < |nodes| then nodes[i] else null
        invariant forall j :: 0 <= j < i ==> !f(nodes[j].value)
        decreases |nodes| - i
      {
        if f(cursor.value) {
          return cursor;
        }
        cursor := cursor.next;
        i := i + 1;
      }
      return null;
    }

    /** Replaces each link's value by `f` of it, once per link from head to
        tail; the links and their order stay as they are. */
    method Map(f: T -> T)
      requires Valid()
      modifies nodes
      ensures Valid() && nodes == old(nodes) && head == old(head) && tail == old(tail)
      ensures |Values()| == |old(Values())|
      ensures forall i :: 0 <= i < |nodes| ==> Values()[i] == f(old(Values())[i])
    {
      var cursor := head;
      ghost var i := 0;
      while cursor != null
        invariant 0 <= i <= |nodes|
        invariant cursor == if i < |nodes| then nodes[i] else null
        invariant forall j :: 0 <= j < i ==> nodes[j].value == f(old(nodes[j].value))
        invariant forall j :: i <= j < |nodes| ==> nodes[j].value == old(nodes[j].value)
        invariant forall j :: 0 <= j < |nodes| ==>
          nodes[j].list == old(nodes[j].list) && nodes[j].prev == old(nodes[j].prev) && nodes[j].next == old(nodes[j].next)
        decreases |nodes| - i
      {
        cursor.value := f(cursor.value);
        cursor := cursor.next;
        i := i + 1;
      }
    }
  }

  class Link<T> {
    var list: List?<T>
    var prev: Link?<T>
    var next: Link?<T>
    var value: T

    constructor (list: List?<T>, prev: Link?<T>, next: Link?<T>, value: T)
      ensures this.list == list && this.prev == prev && this.next == next && this.value == value
    {
      this.list := list;
      this.prev := prev;
      this.next := next;
      this.value := value;
    }

    /** The list this link belongs to. */
    method GetList() returns (l: List?<T>)
      ensures l == list
    {
      return list;
    }

    /** The link's value. */
    method GetKey() returns (v: T)
      ensures v == value
    {
      return value;
    }

    /** Sets the link's value; in a valid list only this link's value changes. */
    method SetKey(v: T)
      modifies this`value
      ensures value == v
      ensures old(list != null && list.Valid() && this in list.nodes) ==>
        list.Valid() && list.nodes == old(list.nodes) &&
        list.Values() == old(list.Values())[IndexOf(list.nodes, this) := v]
    {
      value := v;
    }

    /** The link before this one, null at the head. */
    method GetPrev() returns (p: Link?<T>)
      ensures p == prev
      ensures list != null && list.Valid() && this in list.nodes ==>
        var k := IndexOf(list.nodes, this); p == if k == 0 then null else list.nodes[k - 1]
    {
      return prev;
    }

    /** The link after this one, null at the tail. */
    method GetNext() returns (n: Link?<T>)
      ensures n == next
      ensures list != null && list.Valid() && this in list.nodes ==>
        var k := IndexOf(list.nodes, this); n == if k == |list.nodes| - 1 then null else list.nodes[k + 1]
    {
      return next;
    }

    /** Unlinks this link from its list; the other links keep their order.
        Only a link between two others has its own fields cleared. */
    method PopSelf()
      requires list != null && list.Valid() && this in list.nodes
      modifies this, list, prev, next
      ensures old(list).Valid()
      ensures var k := IndexOf(old(list.nodes), this);
        && old(list).nodes == old(list.nodes)[..k] + old(list.nodes)[k + 1..]
        && old(list).Values() == old(list.Values())[..k] + old(list.Values())[k + 1..]
      ensures old(list.head) == this ==> old(list).head == old(next)
      ensures old(list.head) != this ==> old(list).head == old(list.head)
      ensures old(list.tail) == this ==> old(list).tail == old(prev)
      ensures old(list.tail) != this ==> old(list).tail == old(list.tail)
      ensures value == old(value)
      ensures if old(prev) != null && old(next) != null
              then list == null && prev == null && next == null
              else list == old(list) && prev == old(prev) && next == old(next)
    {
      ghost var l := list;
      ghost var ns := l.nodes;
      ghost var vs := l.Values();
      ghost var k := IndexOf(ns, this);
      Neighbours(l, k);
      if prev == null && next == null {
        UnlinkOnly(ns, k);
      } else if prev == null {
        UnlinkHead(ns, k);
      } else if next == null {
        UnlinkTail(ns, k);
      } else {
        UnlinkMiddle(ns, k);
      }
      ValuesWithout(l, ns, vs, k);
    }

    /** The first branch of PopSelf: the link is the list's only link. */
    method UnlinkOnly(ghost ns: seq<Link<T>>, ghost k: nat)
      requires list != null && list.Valid() && ns == list.nodes
      requires k < |ns| && ns[k] == this && prev == null && next == null
      modifies this, list, prev, next
      ensures old(list).Valid() && old(list).nodes == ns[..k] + ns[k + 1..]
      ensures list == old(list) && prev == old(prev) && next == old(next)
      ensures forall i :: 0 <= i < |ns| ==> ns[i].value == old(ns[i].value)
      ensures old(list).head == if old(list.head) == this then old(next) else old(list.head)
      ensures old(list).tail == if old(list.tail) == this then old(prev) else old(list.tail)
    {
      Neighbours(list, k);
      list.nodes := ns[..k] + ns[k + 1..];
      list.head := null;
      list.tail := null;
    }

    /** The second branch of PopSelf: the link is the head of a longer list. */
    method UnlinkHead(ghost ns: seq<Link<T>>, ghost k: nat)
      requires list != null && list.Valid() && ns == list.nodes
      requires k < |ns| && ns[k] == this && prev == null && next != null
      modifies this, list, prev, next
      ensures old(list).Valid() && old(list).nodes == ns[..k] + ns[k + 1..]
      ensures list == old(list) && prev == old(prev) && next == old(next)
      ensures forall i :: 0 <= i < |ns| ==> ns[i].value == old(ns[i].value)
      ensures old(list).head == if old(list.head) == this then old(next) else old(list.head)
      ensures old(list).tail == if old(list.tail) == this then old(prev) else old(list.tail)
    {
      Neighbours(list, k);
      assert ns[|ns| - 1] != this;
      list.nodes := ns[..k] + ns[k + 1..];
      next.prev := null;
      list.head := next;
    }

    /** The third branch of PopSelf: the link is the tail of a longer list. */
    method UnlinkTail(ghost ns: seq<Link<T>>, ghost k: nat)
      requires list != null && list.Valid() && ns == list.nodes
      requires k < |ns| && ns[k] == this && prev != null && next == null
      modifies this, list, prev, next
      ensures old(list).Valid() && old(list).nodes == ns[..k] + ns[k + 1..]
      ensures list == old(list) && prev == old(prev) && next == old(next)
      ensures forall i :: 0 <= i < |ns| ==> ns[i].value == old(ns[i].value)
      ensures old(list).head == if old(list.head) == this then old(next) else old(list.head)
      ensures old(list).tail == if old(list.tail) == this then old(prev) else old(list.tail)
    {
      Neighbours(list, k);
      assert ns[0] != this;
      list.nodes := ns[..k] + ns[k + 1..];
      prev.next := null;
      list.tail := prev;
    }

    /** The last branch of PopSelf: the link lies between two others; its
        neighbours are joined and its own fields are cleared. */
    method UnlinkMiddle(ghost ns: seq<Link<T>>, ghost k: nat)
      requires list != null && list.Valid() && ns == list.nodes
      requires k < |ns| && ns[k] == this && prev != null && next != null
      modifies this, list, prev, next
      ensures old(list).Valid() && old(list).nodes == ns[..k] + ns[k + 1..]
      ensures list == null && prev == null && next == null
      ensures forall i :: 0 <= i < |ns| ==> ns[i].value == old(ns[i].value)
      ensures old(list).head == if old(list.head) == this then old(next) else old(list.head)
      ensures old(list).tail == if old(list.tail) == this then old(prev) else old(list.tail)
    {
      Neighbours(list, k);
      assert ns[0] != next && ns[0] != this && ns[|ns| - 1] != prev && ns[|ns| - 1] != this;
      ghost var ms := ns[..k] + ns[k + 1..];
      assert forall i :: 0 <= i < |ms| ==> ms[i] == if i < k then ns[i] else ns[i + 1];
      list.nodes := ms;
      var prevlink := prev;
      prevlink.next := next;
      prev.next := next;  // the same assignment again, as the source has it
      next.prev := prevlink;
      list := null;
      next := null;
      prev := null;
    }
  }
}
