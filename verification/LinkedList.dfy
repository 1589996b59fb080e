/** The doubly linked lists of src/list.c and src/listds.c: two sentinel nodes, a cursor (the "pdi"), and a
    handle that may be copied by value, so that several handles work on one chain of nodes. */
module LinkedList {
  import opened Wrappers

  /** What a handle stands for: the elements in order and the place of the cursor, where -1 is the left
      sentinel and |items| the right one. */
  datatype View<E> = View(items: seq<E>, at: int) {

    predicate Valid() {
      -1 <= at <= |items|
    }

    predicate OnElement() {
      0 <= at < |items|
    }

    function InsertAfter(e: E): View<E>
      requires Valid()
    {
      if at == |items| then this else View(items[..at + 1] + [e] + items[at + 1..], at)
    }

    function InsertBefore(e: E): View<E>
      requires Valid()
    {
      if at == -1 then this else View(items[..at] + [e] + items[at..], at + 1)
    }

    function Remove(): View<E>
      requires Valid()
    {
      if OnElement() then View(items[..at] + items[at + 1..], at) else this
    }

    function Advance(): View<E> {
      if at == |items| then this else View(items, at + 1)
    }

    function Retreat(): View<E> {
      if at == -1 then this else View(items, at - 1)
    }
  }

  /** Inserting before the cursor, stepping back and removing restores list and cursor. */
  lemma InsertBeforeUndone<E>(v: View<E>, e: E)
    requires v.Valid() && v.at != -1
    ensures v.InsertBefore(e).Retreat().Remove() == v
  {
    assert v.InsertBefore(e).Retreat().Remove().items == v.items;
  }

  /** Inserting after the cursor, advancing and removing restores the list; the cursor ends one step right. */
  lemma InsertAfterUndone<E>(v: View<E>, e: E)
    requires v.Valid() && v.at != |v.items|
    ensures v.InsertAfter(e).Advance().Remove() == v.Advance()
  {
    assert v.InsertAfter(e).Advance().Remove().items == v.items;
  }

  class Node<E> {
    var e: Option<E>  // a sentinel holds no element
    var seg: Node?<E>
    var ant: Node?<E>

    constructor (e: Option<E>, seg: Node?<E>, ant: Node?<E>)
      ensures this.e == e && this.seg == seg && this.ant == ant
    {
      this.e, this.seg, this.ant := e, seg, ant;
    }

    /** The links that both insertions set: this node goes between the k-th node and the one before it. */
    method LinkIn(ghost c: Chain<E>, ghost k: nat)
      requires c.Valid() && 1 <= k < |c.nodes| && this !in c.space
      requires e.Some? && ant == c.nodes[k - 1] && seg == c.nodes[k]
      modifies c, c.space
      ensures c.Valid()
      ensures c.nodes == old(c.nodes)[..k] + [this] + old(c.nodes)[k..]
      ensures c.space == old(c.space) + {this}
      ensures c.items == old(c.items)[..k - 1] + [e.value] + old(c.items)[k - 1..]
    {
      ghost var before := c.nodes;
      ant.seg := this;
      seg.ant := this;
      c.nodes := before[..k] + [this] + before[k..];
      assert c.nodes[k - 1] == ant && c.nodes[k] == this && c.nodes[k + 1] == seg;
      c.space := c.space + {this};
      ghost var items := c.items;
      c.items := items[..k - 1] + [e.value] + items[k - 1..];
      c.InsertedNode(before, items, k, this);
    }

    /** The links that removal sets around this node, the k-th of the chain. */
    method LinkOut(ghost c: Chain<E>, ghost k: nat)
      requires c.Valid() && 1 <= k < |c.nodes| - 1 && c.nodes[k] == this
      modifies c, c.space
      ensures c.Valid() && seg == old(seg)
      ensures c.nodes == old(c.nodes)[..k] + old(c.nodes)[k + 1..]
      ensures c.space == old(c.space)
      ensures c.items == old(c.items)[..k - 1] + old(c.items)[k..]
    {
      ant.seg := seg;
      seg.ant := ant;
      c.nodes := c.nodes[..k] + c.nodes[k + 1..];
      c.items := c.items[..k - 1] + c.items[k..];
    }
  }

  /** The nodes that handles share, from sentinel to sentinel, and the elements they hold. */
  class Chain<E> {
    ghost var nodes: seq<Node<E>>
    ghost var items: seq<E>
    ghost var space: set<Node<E>>  // the nodes, and those that were removed

    constructor ()
    {
    }

    /** What an insertion leaves to show once the links are set: the nodes are still distinct and hold the elements. */
    lemma InsertedNode(before: seq<Node<E>>, held: seq<E>, k: nat, n: Node<E>)
      requires 1 <= k < |before| == |held| + 2 && n.e.Some? && n !in before
      requires nodes == before[..k] + [n] + before[k..]
      requires items == held[..k - 1] + [n.e.value] + held[k - 1..]
      requires forall i, j :: 0 <= i < j < |before| ==> before[i] != before[j]
      requires forall i {:trigger before[i].e} :: 1 <= i <= |held| ==> before[i].e == Some(held[i - 1])
      ensures forall i, j :: 0 <= i < j < |nodes| ==> nodes[i] != nodes[j]
      ensures forall i {:trigger nodes[i].e} :: 1 <= i <= |items| ==> nodes[i].e == Some(items[i - 1])
    {
    }

    ghost predicate Valid()
      reads this, space
    {
      && |nodes| == |items| + 2
      && (forall i :: 0 <= i < |nodes| ==> nodes[i] in space)
      && (forall i, j :: 0 <= i < j < |nodes| ==> nodes[i] != nodes[j])
      && nodes[0].ant == null && nodes[|nodes| - 1].seg == null
      && (forall i {:trigger nodes[i].seg} :: 0 <= i < |nodes| - 1 ==> nodes[i].seg == nodes[i + 1])
      && (forall i {:trigger nodes[i].ant} :: 1 <= i < |nodes| ==> nodes[i].ant == nodes[i - 1])
      && (forall i {:trigger nodes[i].e} :: 1 <= i <= |items| ==> nodes[i].e == Some(items[i - 1]))
    }
  }

  /** The list structure that the program passes around and copies. */
  class Handle<E> {
    var pri: Node?<E>
    var pdi: Node?<E>
    var ult: Node?<E>
    var elements: int
    ghost var chain: Chain<E>

    /** The ends of the handle are the sentinels of its chain; the cursor may dangle. */
    ghost predicate Anchored()
      reads this, chain, chain.space
    {
      chain.Valid() && pri == chain.nodes[0] && ult == chain.nodes[|chain.nodes| - 1]
    }

    /** The cursor, too, is on a node of the chain. */
    ghost predicate Attached()
      reads this, chain, chain.space
      ensures Attached() ==> Anchored()
    {
      Anchored() && pdi in chain.nodes
    }

    ghost function Spec(): (v: View<E>)
      requires Attached()
      reads this, chain, chain.space
      ensures v.Valid() && v.items == chain.items && chain.nodes[v.at + 1] == pdi
    {
      var i :| 0 <= i < |chain.nodes| && chain.nodes[i] == pdi;
      View(chain.items, i - 1)
    }

    lemma OnRightSentinel()
      requires Anchored() && pdi == ult
      ensures Attached()
    {
      assert pdi == chain.nodes[|chain.nodes| - 1];
    }

    /** Handles with the same sentinels on the same chain are anchored together. */
    lemma AnchoredTogether(other: Handle<E>)
      requires Anchored() && other.chain == chain && other.pri == pri && other.ult == ult
      ensures other.Anchored()
    {
    }

    lemma SpecIs(i: nat)
      requires Attached() && i < |chain.nodes| && chain.nodes[i] == pdi
      ensures Spec() == View(chain.items, i - 1)
    {
      var j := Spec().at + 1;
      assert chain.nodes[j] == chain.nodes[i];
    }

    /** LLISTABID_crea leaves the cursor on the left sentinel. */
    constructor AtStart()
      ensures Attached() && Spec() == View([], -1) && elements == 0
      ensures fresh(chain) && fresh(chain.space)
    {
      var first := new Node<E>(None, null, null);
      var last := new Node<E>(None, null, first);
      var c := new Chain<E>();
      pri, pdi, ult, elements := first, first, last, 0;
      chain := c;
      new;
      first.seg := last;
      c.nodes, c.items, c.space := [first, last], [], {first, last};
    }

    /** LLISTADS_crea leaves it on the right one. */
    constructor AtEnd()
      ensures Attached() && Spec() == View([], 0) && elements == 0 && pdi == ult
      ensures fresh(chain) && fresh(chain.space)
    {
      var first := new Node<E>(None, null, null);
      var last := new Node<E>(None, null, first);
      var c := new Chain<E>();
      pri, pdi, ult, elements := first, last, last, 0;
      chain := c;
      new;
      first.seg := last;
      c.nodes, c.items, c.space := [first, last], [], {first, last};
    }

    /** Assigning one list structure to another copies the pointers and the count, not the nodes. */
    constructor CopyOf(other: Handle<E>)
      ensures pri == other.pri && pdi == other.pdi && ult == other.ult
      ensures elements == other.elements && chain == other.chain
    {
      pri, pdi, ult, elements := other.pri, other.pdi, other.ult, other.elements;
      chain := other.chain;
    }

    /** What both insertions do once they have found the place: a new node between `left` and `right`. */
    method Link(e: E, left: Node<E>, right: Node<E>, ghost k: nat)
      requires Anchored() && 1 <= k < |chain.nodes|
      requires left == chain.nodes[k - 1] && right == chain.nodes[k]
      modifies this`elements, chain, chain.space
      ensures Anchored() && elements == old(elements) + 1
      ensures chain.items == old(chain.items)[..k - 1] + [e] + old(chain.items)[k - 1..]
      ensures chain.nodes[k - 1] == left && chain.nodes[k + 1] == right
      ensures old(chain.space) <= chain.space && fresh(chain.space - old(chain.space))
    {
      var n := new Node(Some(e), right, left);
      n.LinkIn(chain, k);
      elements := elements + 1;
    }

    method InsertAfter(e: E) returns (ok: bool)
      requires Attached()
      modifies this`elements, chain, chain.space
      ensures Attached() && Spec() == old(Spec()).InsertAfter(e)
      ensures ok <==> old(Spec().at) != |old(chain.items)|
      ensures elements - |chain.items| == old(elements - |chain.items|)
      ensures old(chain.space) <= chain.space && fresh(chain.space - old(chain.space))
    {
      if pdi == ult {
        return false;
      }
      ghost var k := Spec().at + 2;
      Link(e, pdi, pdi.seg, k);
      SpecIs(k - 1);
      return true;
    }

    method InsertBefore(e: E) returns (ok: bool)
      requires Attached()
      modifies this`elements, chain, chain.space
      ensures Attached() && Spec() == old(Spec()).InsertBefore(e)
      ensures ok <==> old(Spec().at) != -1
      ensures elements - |chain.items| == old(elements - |chain.items|)
      ensures old(chain.space) <= chain.space && fresh(chain.space - old(chain.space))
    {
      if pdi == pri {
        return false;
      }
      ghost var k := Spec().at + 1;
      Link(e, pdi.ant, pdi, k);
      SpecIs(k + 1);
      return true;
    }

    /** The element at the cursor; on a sentinel the program's result is uninitialised. */
    function Query(): (e: E)
      requires Attached() && Spec().OnElement()
      reads this, chain, chain.space
      ensures e == chain.items[Spec().at]
    {
      pdi.e.value
    }

    predicate IsEmpty()
      requires Anchored()
      reads this, chain, chain.space
      ensures IsEmpty() <==> chain.items == []
    {
      pri.seg == ult
    }

    predicate AtFirstSentinel()
      requires Attached()
      reads this, chain, chain.space
      ensures AtFirstSentinel() <==> Spec().at == -1
    {
      pdi == pri
    }

    predicate AtLastSentinel()
      requires Attached()
      reads this, chain, chain.space
      ensures AtLastSentinel() <==> Spec().at == |chain.items|
    {
      pdi == ult
    }

    method Remove() returns (ok: bool)
      requires Attached()
      modifies this`pdi, this`elements, chain, chain.space
      ensures Attached() && Spec() == old(Spec()).Remove()
      ensures ok <==> old(Spec()).OnElement()
      ensures elements - |chain.items| == old(elements - |chain.items|)
      ensures |chain.items| == |old(chain.items)| - if ok then 1 else 0
      ensures chain.space == old(chain.space)
    {
      if pdi == pri || pdi == ult {
        return false;
      }
      ghost var k := Spec().at + 1;
      pdi.LinkOut(chain, k);
      pdi := pdi.seg;
      elements := elements - 1;
      SpecIs(k);
      return true;
    }

    /** LLISTABID_eliminaAmbNode: the cursor is set on a given node of the chain, and that node is removed. */
    method RemoveNode(node: Node<E>, ghost k: nat) returns (ok: bool)
      requires Anchored() && k < |chain.nodes| && chain.nodes[k] == node
      modifies this`pdi, this`elements, chain, chain.space
      ensures Attached() && Spec() == View(old(chain.items), k - 1).Remove()
      ensures ok <==> View(old(chain.items), k - 1).OnElement()
      ensures elements - |chain.items| == old(elements - |chain.items|)
    {
      pdi := node;
      SpecIs(k);
      ok := Remove();
    }

    method Advance() returns (ok: bool)
      requires Attached()
      modifies this`pdi
      ensures Attached() && Spec() == old(Spec()).Advance()
      ensures ok <==> old(Spec().at) != |chain.items|
    {
      if pdi.seg == null {
        return false;
      }
      pdi := pdi.seg;
      return true;
    }

    method Retreat() returns (ok: bool)
      requires Attached()
      modifies this`pdi
      ensures Attached() && Spec() == old(Spec()).Retreat()
      ensures ok <==> old(Spec().at) != -1
    {
      if pdi.ant == null {
        return false;
      }
      pdi := pdi.ant;
      return true;
    }

    /** Works on a dangling cursor too. */
    method GoFirst()
      requires Anchored()
      modifies this`pdi
      ensures Attached() && Spec() == View(chain.items, 0)
    {
      pdi := pri.seg;
    }

    method GoLast()
      requires Anchored()
      modifies this`pdi
      ensures Attached() && Spec() == View(chain.items, |chain.items| - 1)
    {
      pdi := ult.ant;
    }

    /** Frees every node of the chain, sentinels included, once and in order. */
    method Destroy() returns (ghost freed: seq<Node<E>>)
      requires Anchored()
      modifies this
      ensures freed == chain.nodes && chain == old(chain) && |freed| == |chain.items| + 2
      ensures forall i, j :: 0 <= i < j < |freed| ==> freed[i] != freed[j]
      ensures pri == null && ult == null && pdi == null
    {
      freed := [];
      while pri != null
        invariant chain == old(chain) && chain.Valid()
        invariant |freed| <= |chain.nodes| && freed == chain.nodes[..|freed|]
        invariant pri == if |freed| < |chain.nodes| then chain.nodes[|freed|] else null
        decreases |chain.nodes| - |freed|
      {
        var aux := pri;
        pri := pri.seg;
        freed := freed + [aux];
      }
      ult, pdi := null, null;
    }
  }
}
