/** The singly linked list of src/list.c: a head and a last pointer over separately allocated nodes.
    Each operation is proved against a function on the sequence of the list's data. */
module LinkedList {
  import opened Machine

  /** s without the first occurrence of d. */
  function RemoveFirst<T(==)>(s: seq<T>, d: T): (r: seq<T>)
    ensures d in s ==> |r| == |s| - 1
    ensures d !in s ==> r == s
  {
    if s == [] then [] else if s[0] == d then s[1..] else [s[0]] + RemoveFirst(s[1..], d)
  }

  lemma {:induction false} RemoveFirstAt<T>(s: seq<T>, d: T, k: nat)
    requires k < |s| && s[k] == d && d !in s[..k]
    ensures RemoveFirst(s, d) == s[..k] + s[k + 1..]
  {
    if k > 0 {
      assert s[0] in s[..k];
      assert forall i :: 0 <= i < k - 1 ==> s[1..][i] == s[..k][i + 1];
      RemoveFirstAt(s[1..], d, k - 1);
    }
  }

  /** On a list without duplicates, removing d leaves exactly the other elements. */
  lemma {:induction false} RemoveFirstMembers<T>(s: seq<T>, d: T)
    requires Distinct(s)
    ensures Distinct(RemoveFirst(s, d))
    ensures forall x :: x in RemoveFirst(s, d) <==> x in s && x != d
  {
    if s != [] {
      var t := s[1..];
      assert s == [s[0]] + t && s[0] !in t;
      RemoveFirstMembers(t, d);
    }
  }

  class ListNode<T> {
    var data: T
    var next: ListNode?<T>

    constructor (data: T, next: ListNode?<T>)
      ensures this.data == data && this.next == next
    {
      this.data, this.next := data, next;
    }
  }

  class List<T(==)> {
    var head: ListNode?<T>
    var last: ListNode?<T>
    ghost var spine: seq<ListNode<T>>

    ghost predicate LinkedAt(k: nat)
      reads this, spine
      requires k < |spine|
    {
      spine[k].next == if k + 1 < |spine| then spine[k + 1] else null
    }

    ghost predicate Valid()
      reads this, spine
    {
      && (if spine == [] then head == null && last == null else head == spine[0] && last == spine[|spine| - 1])
      && Distinct(spine)
      && forall k :: 0 <= k < |spine| ==> LinkedAt(k)
    }

    ghost function Contents(): (s: seq<T>)
      reads this, spine
      ensures |s| == |spine|
    {
      seq(|spine|, i requires 0 <= i < |spine| reads this, spine => spine[i].data)
    }

    constructor ()
      ensures Valid() && Contents() == [] && spine == []
    {
      head, last, spine := null, null, [];
    }

    method Find(data: T) returns (it: ListNode?<T>)
      requires Valid()
      ensures it == null <==> data !in Contents()
      ensures it != null ==>
          exists k :: 0 <= k < |spine| && spine[k] == it && it.data == data && data !in Contents()[..k]
    {
      it := head;
      ghost var k := 0;
      while it != null
        invariant 0 <= k <= |spine| && it == (if k < |spine| then spine[k] else null)
        invariant data !in Contents()[..k]
        decreases |spine| - k
      {
        if it.data == data {
          assert Contents()[k] == data;
          return;
        }
        assert LinkedAt(k);
        assert Contents()[..k + 1] == Contents()[..k] + [it.data];
        it := it.next;
        k := k + 1;
      }
      assert Contents()[..k] == Contents();
    }

    method Insert(data: T) returns (node: ListNode<T>)
      requires Valid()
      modifies this
      ensures Valid() && fresh(node) && spine == [node] + old(spine)
      ensures Contents() == [data] + old(Contents())
    {
      node := new ListNode(data, head);
      if head == null {
        last := node;
      }
      head := node;
      spine := [node] + spine;
      forall i | 0 <= i < |spine| ensures LinkedAt(i) {
        assert i > 0 ==> old(LinkedAt(i - 1));
      }
    }

    method InsertAfter(node: ListNode?<T>, data: T, ghost k: nat) returns (added: ListNode<T>)
      requires Valid() && (node == null || (k < |spine| && spine[k] == node))
      modifies this, node
      ensures Valid() && fresh(added)
      ensures spine == if node == null then [added] + old(spine)
          else old(spine)[..k + 1] + [added] + old(spine)[k + 1..]
      ensures Contents() == if node == null then [data] + old(Contents())
          else old(Contents())[..k + 1] + [data] + old(Contents())[k + 1..]
    {
      if node == null {
        added := Insert(data);
        return;
      }
      added := new ListNode(data, node.next);
      node.next := added;
      if last == node {
        last := added;
      }
      spine := spine[..k + 1] + [added] + spine[k + 1..];
      forall i | 0 <= i < |spine| ensures LinkedAt(i) {
        if i <= k { assert old(LinkedAt(i)); }
        if i > k + 1 { assert old(LinkedAt(i - 1)); }
        assert old(LinkedAt(k));
      }
    }

    /** Drops node k from the ghost spine once the links bypass it. */
    ghost method Bypassed(k: nat)
      requires k < |spine| && Distinct(spine)
      requires forall i :: 0 <= i < |spine| && i != k - 1 ==> LinkedAt(i)
      requires k > 0 ==> spine[k - 1].next == spine[k].next
      requires head == if k > 0 then spine[0] else spine[0].next
      requires last == if k + 1 < |spine| then spine[|spine| - 1] else if k > 0 then spine[k - 1] else null
      modifies this`spine
      ensures Valid() && spine == old(spine)[..k] + old(spine)[k + 1..]
      ensures Contents() == old(Contents())[..k] + old(Contents())[k + 1..]
    {
      assert LinkedAt(k);
      assert k + 1 < |spine| ==> LinkedAt(k + 1);
      ghost var was := spine;
      spine := spine[..k] + spine[k + 1..];
      assert forall i :: 0 <= i < |spine| ==> spine[i] == was[if i < k then i else i + 1];
      forall i, j | 0 <= i < j < |spine| ensures spine[i] != spine[j] {
        assert was[if i < k then i else i + 1] != was[if j < k then j else j + 1];
      }
      forall i | 0 <= i < |spine| ensures LinkedAt(i) {
        if i < k - 1 { assert old(LinkedAt(i)); }
        if i >= k { assert old(LinkedAt(i + 1)); }
      }
      ghost var rest := old(Contents())[..k] + old(Contents())[k + 1..];
      forall i | 0 <= i < |spine| ensures Contents()[i] == rest[i] {
        assert spine[i].data == old(Contents())[if i < k then i else i + 1];
      }
    }

    /** The first node with the data, and the one before it. */
    method FindWithPrev(data: T) returns (prev: ListNode?<T>, it: ListNode?<T>, ghost k: nat)
      requires Valid()
      ensures it == null ==> data !in Contents()
      ensures it != null ==>
          k < |spine| && it == spine[k] && it.data == data && data !in Contents()[..k] && prev == if k > 0
          then spine[k - 1] else it
    {
      prev, it := head, head;
      k := 0;
      ghost var was := Contents();
      while it != null
        invariant 0 <= k <= |spine| && it == (if k < |spine| then spine[k] else null)
        invariant prev == if k > 0 then spine[k - 1] else it
        invariant data !in was[..k]
        decreases |spine| - k
      {
        if it.data == data {
          return;
        }
        assert LinkedAt(k);
        assert was[..k + 1] == was[..k] + [it.data];
        prev := it;
        it := it.next;
        k := k + 1;
      }
      assert was[..k] == was;
    }

    method Remove(data: T) returns (found: bool)
      requires Valid()
      modifies this, spine
      ensures Valid() && found == (data in old(Contents()))
      ensures Contents() == RemoveFirst(old(Contents()), data)
      ensures forall n :: n in spine ==> n in old(spine)
    {
      ghost var was := Contents();
      if head != null && head.data == data {
        assert was[0] == data;
        RemoveFirstAt(was, data, 0);
        UnlinkHead();
        return true;
      }
      var prev, it, k := FindWithPrev(data);
      if it == null {
        return false;
      }
      assert was[k] == data && k > 0;
      RemoveFirstAt(was, data, k);
      UnlinkAfter(prev, it, k);
      return true;
    }

    /** The case in which the head goes. */
    method UnlinkHead()
      requires Valid() && head != null
      modifies this
      ensures Valid() && spine == old(spine)[..0] + old(spine)[1..]
      ensures Contents() == old(Contents())[..0] + old(Contents())[1..]
    {
      assert LinkedAt(0);
      assert last == head <==> |spine| == 1;
      if last == head {
        last := null;
      }
      head := head.next;
      forall i | 0 <= i < |spine| ensures LinkedAt(i) {
        assert old(LinkedAt(i));
      }
      Bypassed(0);
    }

    /** The case in which a later node goes. */
    method UnlinkAfter(prev: ListNode<T>, it: ListNode<T>, ghost k: nat)
      requires Valid() && 0 < k < |spine| && it == spine[k] && prev == spine[k - 1]
      modifies this, prev
      ensures Valid() && spine == old(spine)[..k] + old(spine)[k + 1..]
      ensures Contents() == old(Contents())[..k] + old(Contents())[k + 1..]
    {
      assert LinkedAt(k);
      prev.next := it.next;
      if last == it {
        last := prev;
      }
      forall i | 0 <= i < |spine| && i != k - 1 ensures LinkedAt(i) {
        assert old(LinkedAt(i));
      }
      assert Contents() == old(Contents());
      Bypassed(k);
    }
  }

  /** How the worklists take their next entry: they read the head's data and remove it. */
  method TakeFirst<T>(work: List<T>) returns (data: T)
    requires work.Valid() && work.head != null
    modifies work, work.spine
    ensures work.Valid() && old(work.Contents()) == [data] + work.Contents()
    ensures forall i :: 0 <= i < |work.spine| ==> work.spine[i] in old(work.spine)
  {
    data := work.head.data;
    assert work.Contents()[0] == data;
    var _ := work.Remove(data);
  }
}
