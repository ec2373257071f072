/** linked_list/src/main.rs: a doubly linked list of strings whose nodes are
    shared (`Rc`) and whose links are updated in place (`RefCell`). A node
    is an object with mutable `next` and `prev` links; the list holds its
    first and last node. */
module LinkedList {

  class Node {
    var val: string
    var next: Node?
    var prev: Node?

    /** `Rc::new(Node { val, next: None, prev: None })`. */
    constructor (val: string)
      ensures this.val == val && next == null && prev == null
    {
      this.val := val;
      next := null;
      prev := null;
    }
  }

  /** The concatenation of the strings of `vs`, in order. */
  function Concat(vs: seq<string>): string {
    if vs == [] then "" else Concat(vs[..|vs| - 1]) + vs[|vs| - 1]
  }

  /** Putting a string in front puts it in front of the concatenation. */
  lemma {:induction false} ConcatPrepend(v: string, vs: seq<string>)
    ensures Concat([v] + vs) == v + Concat(vs)
    decreases |vs|
  {
    if vs != [] {
      var init := vs[..|vs| - 1];
      assert ([v] + vs)[..|vs|] == [v] + init;
      ConcatPrepend(v, init);
    } else {
      assert [v][..0] == [];
    }
  }

  class List {
    var first: Node?
    var last: Node?
    /** The nodes from `first` to `last`, in `next` order. */
    ghost var nodes: seq<Node>
    /** Their values. */
    ghost var contents: seq<string>

    /** The links agree with `nodes`: `first` and `last` are its ends (both
        `None` for an empty list), each node's `next` is the one after it and
        its `prev` the one before, and no node occurs twice. */
    ghost predicate Valid()
      reads this, nodes
    {
      && |contents| == |nodes|
      && (nodes == [] ==> first == null && last == null)
      && (nodes != [] ==>
            && first == nodes[0] && first.prev == null
            && last == nodes[|nodes| - 1] && last.next == null)
      && (forall i :: 0 <= i < |nodes| ==> nodes[i].val == contents[i])
      && (forall i :: 0 <= i < |nodes| - 1 ==> nodes[i].next == nodes[i + 1])
      && (forall i :: 0 < i < |nodes| ==> nodes[i].prev == nodes[i - 1])
      && (forall i, j :: 0 <= i < j < |nodes| ==> nodes[i] != nodes[j])
    }

    /** `LinkedList::new`. */
    constructor ()
      ensures Valid() && contents == []
      ensures first == null && last == null
    {
      first := null;
      last := null;
      nodes := [];
      contents := [];
    }

    /** `append`: the new node goes after the old last one, which is linked
        to it both ways, and becomes `last`; on an empty list it becomes
        `first` as well. */
    method Append(val: string)
      requires Valid()
      modifies this, last
      ensures Valid()
      ensures contents == old(contents) + [val]
      ensures (first == null) == (last == null)
      ensures fresh(last) && last.val == val && last.prev == old(last)
      ensures old(last) == null ==> first == last
      ensures old(last) != null ==> first == old(first) && old(last).next == last
    {
      var node := new Node(val);
      if last == null {
        first := node;
      } else {
        last.next := node;
        node.prev := last;
      }
      last := node;
      nodes := nodes + [node];
      contents := contents + [val];
    }

    /** `prepend`, the mirror image of `append` at the front. */
    method Prepend(val: string)
      requires Valid()
      modifies this, first
      ensures Valid()
      ensures contents == [val] + old(contents)
      ensures (first == null) == (last == null)
      ensures fresh(first) && first.val == val && first.next == old(first)
      ensures old(first) == null ==> last == first
      ensures old(first) != null ==> last == old(last) && old(first).prev == first
    {
      var node := new Node(val);
      if first == null {
        last := node;
      } else {
        first.prev := node;
        node.next := first;
      }
      first := node;
      nodes := [node] + nodes;
      contents := [val] + contents;
    }

    /** `to_string`: the values from `first` along `next`, concatenated. */
    method ToString() returns (s: string)
      requires Valid()
      ensures s == Concat(contents)
    {
      s := "";
      if first == null {
        return;
      }
      var p := first;
      ghost var k := 0;
      while true
        invariant 0 <= k < |nodes| && p == nodes[k]
        invariant s == Concat(contents[..k])
        decreases |nodes| - k
      {
        assert contents[..k + 1][..k] == contents[..k];
        assert p.val == contents[k];
        assert p.next == (if k + 1 < |nodes| then nodes[k + 1] else null);
        s := s + p.val;
        if p.next == null {
          assert contents[..k + 1] == contents;
          return;
        }
        p := p.next;
        k := k + 1;
      }
    }
  }

  /** `main`: `world` and `!` appended, then ` ` and `Hello` prepended, give
      `Hello world!`. */
  method MainString() returns (s: string)
    ensures s == "Hello world!"
  {
    var list := new List();
    list.Append("world");
    list.Append("!");
    list.Prepend(" ");
    list.Prepend("Hello");
    s := list.ToString();
    assert list.contents == ["Hello", " ", "world", "!"];
    var c := list.contents;
    assert c[..3][..2][..1][..0] == [];
    assert Concat(c[..3][..2][..1]) == "Hello";
    assert Concat(c[..3][..2]) == "Hello ";
    assert Concat(c[..3]) == "Hello world";
  }
}
