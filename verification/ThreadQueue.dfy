/** The server's queue of running threads: a singly linked list on the heap. A node's ghost flag
    says whether it has been freed, so that every access to a node is checked against it. */
module ThreadQueue {
  import opened Bytes

  class Node<T> {
    var data: T
    var next: Node?<T>
    ghost var live: bool

    constructor (data: T)
      ensures this.data == data && next == null && live
    {
      this.data, next, live := data, null, true;
    }
  }

  /** `s` without its first occurrence of `x`. */
  ghost function RemoveFirst<T>(s: seq<T>, x: T): seq<T> {
    if s == [] then [] else if s[0] == x then s[1..] else [s[0]] + RemoveFirst(s[1..], x)
  }

  lemma {:induction false} RemoveBehind<T>(before: seq<T>, x: T, rest: seq<T>)
    requires x !in before
    ensures RemoveFirst(before + ([x] + rest), x) == before + rest
  {
    if before == [] {
      assert before + ([x] + rest) == [x] + rest && before + rest == rest;
    } else {
      RemoveBehind(before[1..], x, rest);
      assert before + ([x] + rest) == [before[0]] + (before[1..] + ([x] + rest));
      assert before + rest == [before[0]] + (before[1..] + rest);
    }
  }

  lemma SplitAt<T>(s: seq<T>, k: nat)
    requires k < |s|
    ensures s == s[..k] + ([s[k]] + s[k + 1..])
  {
  }

  lemma RemoveFirstAt<T>(s: seq<T>, x: T, k: nat)
    requires k < |s| && s[k] == x && x !in s[..k]
    ensures RemoveFirst(s, x) == Drop(s, k)
  {
    SplitAt(s, k);
    RemoveBehind(s[..k], x, s[k + 1..]);
  }

  lemma RemoveFirstFront<T>(s: seq<T>)
    requires s != []
    ensures RemoveFirst(s, s[0]) == s[1..]
  {
  }

  lemma {:induction false} RemoveFirstMissing<T>(s: seq<T>, x: T)
    requires x !in s
    ensures RemoveFirst(s, x) == s
  {
    if s != [] {
      RemoveFirstMissing(s[1..], x);
    }
  }

  ghost predicate Distinct<T>(s: seq<T>) {
    forall i, j :: 0 <= i < j < |s| ==> s[i] != s[j]
  }

  /** `s` without its element at `at`. */
  ghost function Drop<T>(s: seq<T>, at: nat): (r: seq<T>)
    requires at < |s|
    ensures |r| == |s| - 1
    ensures forall i :: 0 <= i < at ==> r[i] == s[i]
    ensures forall i :: at <= i < |r| ==> r[i] == s[i + 1]
  {
    s[..at] + s[at + 1..]
  }

  lemma DropDistinct<T>(s: seq<T>, at: nat)
    requires at < |s| && Distinct(s)
    ensures Distinct(Drop(s, at))
    ensures forall i :: 0 <= i < |Drop(s, at)| ==> Drop(s, at)[i] != s[at]
  {
  }

  class Queue<T(==)> {
    var head: Node?<T>
    ghost var nodes: seq<Node<T>>
    ghost var contents: seq<T>
    // every node ever linked
    ghost var footprint: set<Node<T>>

    /** The list is exactly `nodes`: linked in order, ending in NULL, without repetition, all live. */
    ghost predicate Valid()
      reads this, footprint
    {
      && (forall i :: 0 <= i < |nodes| ==> nodes[i] in footprint)
      && |contents| == |nodes|
      && head == NodeAt(0)
      && (forall i {:trigger nodes[i].live} {:trigger nodes[i].data} :: 0 <= i < |nodes| ==>
            nodes[i].live && nodes[i].data == contents[i])
      && (forall i {:trigger nodes[i].next} :: 0 <= i < |nodes| ==> nodes[i].next == NodeAt(i + 1))
      && Distinct(nodes)
    }

    /** The `i`-th node, NULL past the end. */
    ghost function NodeAt(i: nat): Node?<T>
      reads this
    {
      if i < |nodes| then nodes[i] else null
    }

    constructor ()
      ensures Valid() && contents == [] && nodes == [] && footprint == {}
    {
      head := null;
      nodes, contents, footprint := [], [], {};
    }

    /** `queue_enqueue`; `granted` says whether its node could be allocated. */
    method Enqueue(data: T, granted: bool) returns (ok: bool)
      requires Valid()
      modifies this, footprint
      ensures Valid() && ok == granted
      ensures contents == old(contents) + if ok then [data] else []
      ensures ok ==> |nodes| == |old(nodes)| + 1 && nodes[..|old(nodes)|] == old(nodes)
      ensures !ok ==> nodes == old(nodes)
      ensures fresh(footprint - old(footprint))
    {
      if !granted {
        return false;
      }
      var newNode := new Node(data);
      footprint := footprint + {newNode};
      if head == null {
        head := newNode;
        nodes, contents := [newNode], [data];
        return true;
      }
      var current := head;
      ghost var i := 0;
      while current.next != null
        invariant i < |nodes| && current == nodes[i]
        decreases |nodes| - i
      {
        assert current.live;
        current := current.next;
        i := i + 1;
      }
      assert i == |nodes| - 1;
      current.next := newNode;
      nodes, contents := nodes + [newNode], contents + [data];
      return true;
    }

    /** `queue_dequeue`. */
    method Dequeue() returns (r: Option<T>)
      requires Valid()
      modifies this, footprint
      ensures Valid() && footprint == old(footprint)
      ensures old(contents) == [] ==> r == None && contents == []
      ensures old(contents) != [] ==> r == Some(old(contents)[0]) && contents == old(contents)[1..]
    {
      if head == null {
        return None;
      }
      var node := head;
      assert node.live;
      head := head.next;
      r := Some(node.data);
      node.live := false;
      nodes, contents := nodes[1..], contents[1..];
    }

    /** `queue_remove`: unlink and free the first node holding `data`. The node after it, if any,
        takes its place in the list. */
    method Remove(data: T) returns (found: bool, ghost at: nat)
      requires Valid()
      modifies this, footprint
      ensures Valid() && footprint == old(footprint)
      ensures found == (data in old(contents))
      ensures contents == RemoveFirst(old(contents), data)
      ensures !found ==> nodes == old(nodes)
      ensures found ==>
                && at < |old(nodes)| && old(contents)[at] == data
                && NodeAt(at) == old(NodeAt(at + 1))
    {
      at := 0;
      var current := head;
      var prev: Node?<T> := null;
      while current != null
        invariant at <= |nodes| && current == NodeAt(at)
        invariant prev == if at == 0 then null else nodes[at - 1]
        invariant data !in contents[..at]
        decreases |nodes| - at
      {
        assert current.live;
        if current.data == data {
          break;
        }
        assert contents[..at + 1] == contents[..at] + [contents[at]];
        prev := current;
        current := current.next;
        at := at + 1;
      }
      if current == null {
        assert contents[..at] == contents;
        RemoveFirstMissing(contents, data);
        return false, at;
      }
      RemoveFirstAt(contents, data, at);
      Unlink(prev, current, at);
      return true, at;
    }

    /** Take the node at index `at` out of the list and free it. */
    method Unlink(prev: Node?<T>, current: Node<T>, ghost at: nat)
      requires Valid() && at < |nodes|
      requires current == nodes[at] && prev == if at == 0 then null else nodes[at - 1]
      modifies this, footprint
      ensures Valid() && !current.live && footprint == old(footprint)
      ensures nodes == Drop(old(nodes), at) && contents == Drop(old(contents), at)
    {
      DropDistinct(nodes, at);
      if prev == null {
        head := current.next;
      } else {
        prev.next := current.next;
      }
      current.live := false;
      nodes, contents := Drop(nodes, at), Drop(contents, at);
    }

    /** `queue_get_head`. */
    method GetHead() returns (r: Node?<T>)
      requires Valid()
      ensures r == NodeAt(0)
    {
      r := head;
    }
  }
}
