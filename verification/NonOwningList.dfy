/** The intrusive doubly linked list: the links live in the elements, between two sentinels of the list. */
module NonOwningList {
  import opened Wrappers

  class Node {
    var next: Node?
    var previous: Node?

    constructor ()
      ensures next == null && previous == null
    {
      next, previous := null, null;
    }
  }

  /** The elements that do not satisfy the test, in order. */
  ghost function Without(nodes: seq<Node>, test: Node -> bool): seq<Node> {
    if nodes == [] then []
    else if test(nodes[0]) then Without(nodes[1..], test)
    else [nodes[0]] + Without(nodes[1..], test)
  }

  /** Exactly those elements, each where it was. */
  lemma {:induction false} WithoutIff(nodes: seq<Node>, test: Node -> bool, x: Node)
    ensures x in Without(nodes, test) <==> x in nodes && !test(x)
  {
    if nodes != [] {
      WithoutIff(nodes[1..], test, x);
    }
  }

  lemma {:induction false} WithoutParts(a: seq<Node>, b: seq<Node>, test: Node -> bool)
    ensures Without(a + b, test) == Without(a, test) + Without(b, test)
  {
    if a == [] {
      assert a + b == b;
    } else {
      assert (a + b)[1..] == a[1..] + b;
      WithoutParts(a[1..], b, test);
    }
  }

  ghost predicate Distinct(nodes: seq<Node>) {
    forall i, j :: 0 <= i < j < |nodes| ==> nodes[i] != nodes[j]
  }

  /** A node is linked to the one after it, both ways. */
  ghost predicate LinkAt(nodes: seq<Node>, i: nat)
    requires i + 1 < |nodes|
    reads nodes
  {
    nodes[i].next == nodes[i + 1] && nodes[i + 1].previous == nodes[i]
  }

  ghost predicate Linked(nodes: seq<Node>)
    reads nodes
  {
    forall i :: 0 <= i < |nodes| - 1 ==> LinkAt(nodes, i)
  }

  lemma DistinctWithout(nodes: seq<Node>, k: nat)
    requires Distinct(nodes) && k < |nodes|
    ensures Distinct(nodes[..k] + nodes[k + 1..])
  {
  }

  lemma DistinctWith(nodes: seq<Node>, k: nat, x: Node)
    requires Distinct(nodes) && k <= |nodes| && x !in nodes
    ensures Distinct(nodes[..k] + [x] + nodes[k..])
  {
  }

  /** Linking the neighbours of a node with each other leaves a chain without it. */
  lemma LinkedWithout(nodes: seq<Node>, k: nat)
    requires 0 < k < |nodes| - 1
    requires forall i :: 0 <= i < |nodes| - 1 && i != k - 1 && i != k ==> LinkAt(nodes, i)
    requires nodes[k - 1].next == nodes[k + 1] && nodes[k + 1].previous == nodes[k - 1]
    ensures Linked(nodes[..k] + nodes[k + 1..])
  {
    var rest := nodes[..k] + nodes[k + 1..];
    forall i | 0 <= i < |rest| - 1
      ensures LinkAt(rest, i)
    {
      assert i != k - 1 ==> LinkAt(nodes, if i < k then i else i + 1);
    }
  }

  /** Linking a node between two neighbours leaves a chain with it. */
  lemma LinkedWith(nodes: seq<Node>, k: nat, x: Node)
    requires 0 < k < |nodes|
    requires forall i :: 0 <= i < |nodes| - 1 && i != k - 1 ==> LinkAt(nodes, i)
    requires nodes[k - 1].next == x && x.previous == nodes[k - 1] && x.next == nodes[k] && nodes[k].previous == x
    ensures Linked(nodes[..k] + [x] + nodes[k..])
  {
    var all := nodes[..k] + [x] + nodes[k..];
    forall i | 0 <= i < |all| - 1
      ensures LinkAt(all, i)
    {
      assert i < k - 1 ==> LinkAt(nodes, i);
      assert i > k ==> LinkAt(nodes, i - 1);
    }
  }

  lemma ChainWithout(first: Node, nodes: seq<Node>, last: Node, k: nat)
    requires k < |nodes|
    ensures var chain := [first] + nodes + [last];
            chain[..k + 1] + chain[k + 2..] == [first] + (nodes[..k] + nodes[k + 1..]) + [last]
  {
  }

  /** One less, in 64 bits. */
  function CountedDown(size: nat): nat {
    if size == 0 then 0xFFFF_FFFF_FFFF_FFFF else size - 1
  }

  /** Links the neighbours of an element with each other; another chain stays as it is. */
  method Unlink(element: Node, ghost chain: seq<Node>, ghost k: nat, ghost other: seq<Node>)
    requires Linked(other) && forall x :: x in other ==> x !in chain
    requires Distinct(chain) && Linked(chain) && 0 < k < |chain| - 1 && chain[k] == element
    modifies element, chain[k - 1], chain[k + 1]
    ensures chain[k - 1].previous == old(chain[k - 1].previous) && chain[k + 1].next == old(chain[k + 1].next)
    ensures Distinct(chain[..k] + chain[k + 1..]) && Linked(chain[..k] + chain[k + 1..])
    ensures element.next == null && Linked(other)
  {
    assert LinkAt(chain, k - 1) && LinkAt(chain, k);
    var previous := element.previous;
    previous.next := element.next;
    element.next.previous := previous;
    element.next := null;
    DistinctWithout(chain, k);
    forall i | 0 <= i < |chain| - 1 && i != k - 1 && i != k
      ensures LinkAt(chain, i)
    {
      assert old(LinkAt(chain, i));
    }
    LinkedWithout(chain, k);
    forall i | 0 <= i < |other| - 1
      ensures LinkAt(other, i)
    {
      assert old(LinkAt(other, i)) && other[i] in other && other[i + 1] in other;
    }
  }

  class List {
    var size: nat
    const first: Node
    const last: Node
    /** The elements of the list, in order. */
    ghost var Nodes: seq<Node>

    ghost function Chain(): seq<Node>
      reads this
    {
      [first] + Nodes + [last]
    }

    ghost predicate Valid()
      reads this, Chain(), first, last
    {
      && size == |Nodes|
      && Distinct(Chain()) && Linked(Chain())
      && first.previous == null && last.next == null
    }

    constructor ()
      ensures Valid() && Nodes == [] && fresh(first) && fresh(last)
    {
      var f := new Node();
      var l := new Node();
      first, last, size, Nodes := f, l, 0, [];
      new;
      first.next := last;
      last.previous := first;
    }

    /** An element of the list has a successor. */
    lemma LinkedWhenIn(x: Node)
      requires Valid() && x in Nodes
      ensures x.next != null
    {
      var i :| 0 <= i < |Nodes| && Nodes[i] == x;
      assert LinkAt(Chain(), i + 1);
    }

    /** Inserts the element before `pos`, position `k` of the list or its end; refused when it is linked already. */
    method Insert(pos: Node, element: Node, ghost k: nat) returns (inserted: bool)
      requires Valid() && k <= |Nodes| && Chain()[k + 1] == pos
      requires element != first && element != last
      modifies this, element, pos, pos.previous
      ensures Valid() && inserted == (old(element.next) == null)
      ensures inserted ==> element !in old(Nodes) && Nodes == old(Nodes)[..k] + [element] + old(Nodes)[k..]
      ensures !inserted ==> Nodes == old(Nodes)
    {
      if element.next != null {
        return false;
      }
      ghost var chain := Chain();
      assert element !in Nodes by {
        if element in Nodes {
          LinkedWhenIn(element);
        }
      }
      assert element !in chain;
      assert LinkAt(chain, k);
      var previous := pos.previous;
      previous.next := element;
      element.next := pos;
      element.previous := previous;
      pos.previous := element;
      size := size + 1;
      Nodes := Nodes[..k] + [element] + Nodes[k..];
      DistinctWith(chain, k + 1, element);
      forall i | 0 <= i < |chain| - 1 && i != k
        ensures LinkAt(chain, i)
      {
        assert old(LinkAt(chain, i));
      }
      LinkedWith(chain, k + 1, element);
      assert Chain() == chain[..k + 1] + [element] + chain[k + 1..];
      return true;
    }

    method PushFront(element: Node) returns (inserted: bool)
      requires Valid() && element != first && element != last
      modifies this, element, Chain()
      ensures Valid() && inserted == (old(element.next) == null)
      ensures Nodes == if inserted then [element] + old(Nodes) else old(Nodes)
    {
      assert LinkAt(Chain(), 0);
      inserted := Insert(first.next, element, 0);
    }

    method PushBack(element: Node) returns (inserted: bool)
      requires Valid() && element != first && element != last
      modifies this, element, Chain()
      ensures Valid() && inserted == (old(element.next) == null)
      ensures Nodes == if inserted then old(Nodes) + [element] else old(Nodes)
    {
      assert LinkAt(Chain(), |Nodes|);
      inserted := Insert(last, element, |Nodes|);
    }

    /** No node of this list is one of the other. */
    ghost predicate Apart(other: List)
      reads this, other
    {
      other == this || forall x :: x in Chain() ==> x !in other.Chain()
    }

    /** Takes an element out of the list `owner` it is in, at position `k`; refused when it is not linked. Only in its
        own list this leaves valid lists: the size that is counted down is that of this one. */
    method Erase(element: Node, ghost owner: List, ghost k: nat) returns (erased: bool)
      requires Valid() && owner.Valid() && Apart(owner)
      requires element != owner.first && element != owner.last
      requires element.next != null ==> k < |owner.Nodes| && owner.Nodes[k] == element
      modifies this, owner, element, element.previous, element.next
      ensures erased == (old(element.next) != null) && element.next == null
      ensures owner.Nodes == if erased then old(owner.Nodes)[..k] + old(owner.Nodes)[k + 1..] else old(owner.Nodes)
      ensures owner == this || !erased ==> Valid() && owner.Valid()
      ensures owner != this ==> Nodes == old(Nodes) && Linked(Chain()) && Linked(owner.Chain())
      ensures owner != this && erased ==> owner.size == |owner.Nodes| + 1
      ensures owner != this && erased ==> size == if old(size) == 0 then 0xFFFF_FFFF_FFFF_FFFF else old(size) - 1
    {
      if element.next == null {
        return false;
      }
      ghost var chain, mine := owner.Chain(), if owner == this then [] else Chain();
      assert LinkAt(chain, k) && LinkAt(chain, k + 1);
      assert chain[0] == owner.first && chain[|chain| - 1] == owner.last;
      ChainWithout(owner.first, owner.Nodes, owner.last, k);
      ghost var rest := owner.Nodes[..k] + owner.Nodes[k + 1..];
      Unlink(element, chain, k + 1, mine);
      size := CountedDown(size);
      owner.Nodes := rest;
      assert owner.Chain() == chain[..k + 1] + chain[k + 2..];
      return true;
    }

    method PopFront() returns (r: Option<Node>)
      requires Valid()
      modifies this, Chain()[..if Nodes == [] then 0 else 3]
      ensures Valid()
      ensures old(Nodes) == [] ==> r == None && Nodes == []
      ensures old(Nodes) != [] ==> r == Some(old(Nodes)[0]) && Nodes == old(Nodes)[1..] && r.value.next == null
    {
      if size == 0 {
        return None;
      }
      assert LinkAt(Chain(), 0) && LinkAt(Chain(), 1);
      var element := first.next;
      var _ := Erase(element, this, 0);
      return Some(element);
    }

    method PopBack() returns (r: Option<Node>)
      requires Valid()
      modifies this, Chain()
      ensures Valid()
      ensures old(Nodes) == [] ==> r == None && Nodes == []
      ensures old(Nodes) != [] ==>
                && r == Some(old(Nodes)[|old(Nodes)| - 1]) && r.value.next == null
                && Nodes == old(Nodes)[..|old(Nodes)| - 1]
    {
      if size == 0 {
        return None;
      }
      ghost var n := |Nodes|;
      assert LinkAt(Chain(), n) && LinkAt(Chain(), n - 1);
      var element := last.previous;
      var _ := Erase(element, this, n - 1);
      return Some(element);
    }

    /** Removal has passed the first `done` of `nodes`: `kept` of them are still in the list, those that fail the
        test, and the others are unlinked. */
    ghost predicate Scanning(nodes: seq<Node>, done: nat, kept: nat, test: Node -> bool)
      reads this, Chain(), first, last, nodes
    {
      && Valid() && kept <= |Nodes| && done <= |nodes| && Nodes[kept..] == nodes[done..]
      && Nodes[..kept] + Without(nodes[done..], test) == Without(nodes, test)
      && (forall i :: 0 <= i < |nodes| ==> nodes[i] != last)
      && (forall x :: x in Nodes ==> x in nodes)
      && (forall i :: 0 <= i < done && test(nodes[i]) ==> nodes[i].next == null)
    }

    lemma ChainWithin(nodes: seq<Node>, i: nat)
      requires forall x :: x in Nodes ==> x in nodes
      requires i < |Chain()|
      ensures Chain()[i] in [first] + nodes + [last]
    {
      if 0 < i <= |Nodes| {
        assert Chain()[i] == Nodes[i - 1];
      }
    }

    /** Removal takes out the next element. */
    method EraseNext(current: Node, ghost nodes: seq<Node>, ghost done: nat, ghost kept: nat, ghost test: Node -> bool)
      requires Scanning(nodes, done, kept, test) && done < |nodes| && current == nodes[done] && test(current)
      modifies this, Chain()[kept], Chain()[kept + 1], Chain()[kept + 2]
      ensures Scanning(nodes, done + 1, kept, test)
      ensures Chain()[kept + 1] == old(Chain()[kept + 2])
    {
      ghost var chain := Chain();
      assert current == Nodes[kept] == chain[kept + 1];
      assert LinkAt(chain, kept) && LinkAt(chain, kept + 1);
      assert kept + 1 < |Nodes| ==> LinkAt(chain, kept + 2);
      var _ := Erase(current, this, kept);
    }

    lemma KeepNext(nodes: seq<Node>, done: nat, kept: nat, test: Node -> bool)
      requires Scanning(nodes, done, kept, test) && done < |nodes| && !test(nodes[done])
      ensures Scanning(nodes, done + 1, kept + 1, test)
      ensures Chain()[kept + 1] == nodes[done] && nodes[done].next == Chain()[kept + 2]
    {
      assert Chain()[kept + 1] == Nodes[kept] == nodes[done];
      assert LinkAt(Chain(), kept + 1);
    }

    /** The next element, and the nodes whose links its removal changes. */
    lemma AtCurrent(nodes: seq<Node>, done: nat, kept: nat, test: Node -> bool)
      requires Scanning(nodes, done, kept, test) && Chain()[kept + 1] != last
      ensures done < |nodes| && kept < |Nodes| && Chain()[kept + 1] == Nodes[kept] == nodes[done]
      ensures nodes[done].next == Chain()[kept + 2]
      ensures forall i :: kept <= i <= kept + 2 ==> Chain()[i] in [first] + nodes + [last]
    {
      assert LinkAt(Chain(), kept + 1);
      ChainWithin(nodes, kept);
      ChainWithin(nodes, kept + 1);
      ChainWithin(nodes, kept + 2);
    }

    lemma StartScan(test: Node -> bool)
      requires Valid()
      ensures Scanning(Nodes, 0, 0, test) && first.next == Chain()[1]
    {
      assert LinkAt(Chain(), 0);
      forall i | 0 <= i < |Nodes|
        ensures Nodes[i] != last
      {
        assert Chain()[i + 1] != Chain()[|Nodes| + 1];
      }
    }

    /** Every element is unlinked. */
    method Clear()
      requires Valid()
      modifies this, Chain()
      ensures Valid() && Nodes == []
      ensures forall x :: x in old(Nodes) ==> x.next == null
    {
      ghost var nodes := Nodes;
      ghost var done := 0;
      StartScan(_ => true);
      while size != 0
        invariant Scanning(nodes, done, 0, _ => true)
        decreases size
      {
        ChainWithin(nodes, 0);
        ChainWithin(nodes, 1);
        ChainWithin(nodes, 2);
        PopNext(nodes, done);
        done := done + 1;
      }
    }

    /** One round of clear. */
    method PopNext(ghost nodes: seq<Node>, ghost done: nat)
      requires Scanning(nodes, done, 0, _ => true) && Nodes != []
      modifies this, Chain()[0], Chain()[1], Chain()[2]
      ensures Scanning(nodes, done + 1, 0, _ => true) && size < old(size)
    {
      ghost var chain := Chain();
      assert LinkAt(chain, 0) && LinkAt(chain, 1);
      assert |Nodes| > 1 ==> LinkAt(chain, 2);
      assert chain[1] == nodes[done];
      var _ := PopFront();
    }

    /** Leaves exactly the elements that do not satisfy the test, in order. */
    method RemoveIf(test: Node -> bool)
      requires Valid()
      modifies this, Chain()
      ensures Valid() && Nodes == Without(old(Nodes), test)
      ensures forall x :: x in old(Nodes) && test(x) ==> x.next == null
    {
      ghost var nodes := Nodes;
      ghost var done, kept := 0, 0;
      StartScan(test);
      var current := first.next;
      while current != last
        invariant Scanning(nodes, done, kept, test) && Chain()[kept + 1] == current
        decreases |nodes| - done
      {
        AtCurrent(nodes, done, kept, test);
        if test(current) {
          var next := current.next;
          EraseNext(current, nodes, done, kept, test);
          current := next;
        } else {
          KeepNext(nodes, done, kept, test);
          current := current.next;
          kept := kept + 1;
        }
        done := done + 1;
      }
    }
  }
}
