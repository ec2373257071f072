/** The singly linked cons lists of smart_ptr/src/main.rs and
    smart_ptr-15/src/main.rs: `BoxList` (tails owned through `Box`) and
    `RcList` (tails shared through `Rc`). Both are immutable once built, so
    both are the one value type `ConsList`; sharing a tail through `Rc` is
    sharing a value. */
module ConsList {
  import LinkedList

  datatype ConsList = Null | Node(v: string, next: ConsList)

  /** The node values in order. */
  function Values(l: ConsList): seq<string> {
    match l
    case Null => []
    case Node(v, t) => [v] + Values(t)
  }

  /** What `to_string` computes: `""` for `Null`, and `v` followed by the
      rendering of the tail for `Node(v, l)`. */
  function Render(l: ConsList): string {
    match l
    case Null => ""
    case Node(v, t) => v + Render(t)
  }

  /** The rendering is the in-order concatenation of the node values. */
  lemma {:induction false} RenderConcat(l: ConsList)
    ensures Render(l) == LinkedList.Concat(Values(l))
  {
    match l
    case Null =>
    case Node(v, t) =>
      RenderConcat(t);
      LinkedList.ConcatPrepend(v, Values(t));
  }

  /** `BoxList::to_string` and `RcList::to_string`: a loop that appends the
      value of each node and moves the cursor to its tail until `Null`. */
  method ToString(l: ConsList) returns (s: string)
    ensures s == Render(l)
  {
    s := "";
    var p := l;
    while p.Node?
      invariant s + Render(p) == Render(l)
      decreases p
    {
      s := s + p.v;
      p := p.next;
    }
  }

  /** The node reached by `k` steps along the tails, stopping at `Null`. */
  function Drop(l: ConsList, k: nat): ConsList {
    if k == 0 || l.Null? then l else Drop(l.next, k - 1)
  }

  function Min(a: nat, b: nat): nat {
    if a <= b then a else b
  }

  /** The walk in `main`: `k` times, a `Node` moves the cursor to its tail
      and `Null` leaves it where it is. */
  method Walk(l: ConsList, k: nat) returns (p: ConsList)
    ensures p == Drop(l, k)
  {
    p := l;
    for i := 0 to k
      invariant Drop(p, k - i) == Drop(l, k)
    {
      match p {
        case Null =>
        case Node(_, pp) => p := pp;
      }
    }
  }

  /** After `k` steps the cursor holds the suffix of the values from
      position `k` on (none when the list is shorter). */
  lemma {:induction false} DropValues(l: ConsList, k: nat)
    ensures Values(Drop(l, k)) == Values(l)[Min(k, |Values(l)|)..]
    decreases k
  {
    if k != 0 && l.Node? {
      DropValues(l.next, k - 1);
    }
  }

  /** Walking `k` steps then calling `to_string` gives the concatenation of
      the values from position `k` on. */
  lemma WalkRender(l: ConsList, k: nat)
    ensures Render(Drop(l, k)) == LinkedList.Concat(Values(l)[Min(k, |Values(l)|)..])
  {
    DropValues(l, k);
    RenderConcat(Drop(l, k));
  }

  /** The list with the node reached after `k` steps overwritten by `Null`
      (through the `&mut` walk of `main`). */
  function Truncate(l: ConsList, k: nat): (r: ConsList)
    ensures Values(r) == Values(l)[..Min(k, |Values(l)|)]
    decreases k
  {
    if k == 0 || l.Null? then Null else Node(l.v, Truncate(l.next, k - 1))
  }

  /** `MyBox`, a tuple struct around one value. */
  datatype MyBox<T> = MyBox(inner: T)

  /** `MyBox::deref`: a reference to the wrapped value. */
  function Deref<T>(b: MyBox<T>): (r: T)
    ensures b == MyBox(r)
  {
    b.inner
  }

  /** `*MyBox::new(x)` is `x`: with `x = 5`, `*y == 5`. */
  lemma DerefNew<T>(x: T)
    ensures Deref(MyBox(x)) == x
  {
  }

  /** The list `Hello`, ` `, `world`, `!` of both `main`s. */
  function HelloList(): ConsList {
    Node("Hello", Node(" ", Node("world", Node("!", Null))))
  }

  /** The `Rc` list of smart_ptr-15's `main`, built by pushing `!`, `worlds`,
      ` ` and `Hi` at the front; `list2` is a clone of the `Rc`, so the same
      value. */
  function HiList(): ConsList {
    Node("Hi", Node(" ", Node("worlds", Node("!", Null))))
  }

  /** The lines smart_ptr/src/main.rs writes. */
  method BoxMain() returns (line: string)
    ensures line == "list=Hello world!"
  {
    var s := ToString(HelloList());
    line := "list=" + s;
  }

  /** The list lines smart_ptr-15/src/main.rs writes: the whole list, the
      suffix after two steps, the list cut after three nodes, the `Rc` list
      and its clone, and the clones walked two and one steps. */
  method SmartPtrMain() returns (lines: seq<string>)
    ensures lines == ["list=Hello world!", "p=world!", "list=Hello world",
                      "rc_list=Hi worlds!", "rc_list2=Hi worlds!",
                      "rc_list=worlds!", "rc_list2= worlds!"]
  {
    var list := HelloList();
    var s := ToString(list);
    lines := ["list=" + s];
    var p := Walk(list, 2);
    assert p == Drop(Node(" ", Node("world", Node("!", Null))), 1) == Node("world", Node("!", Null));
    s := ToString(p);
    lines := lines + ["p=" + s];
    list := Truncate(list, 3);
    assert list == Node("Hello", Node(" ", Node("world", Null)));
    s := ToString(list);
    lines := lines + ["list=" + s];
    var rc := HiList();
    var rc2 := rc;
    s := ToString(rc);
    lines := lines + ["rc_list=" + s];
    s := ToString(rc2);
    lines := lines + ["rc_list2=" + s];
    p := Walk(rc, 2);
    assert p == Drop(Node(" ", Node("worlds", Node("!", Null))), 1) == Node("worlds", Node("!", Null));
    var p2 := Walk(rc2, 1);
    assert p2 == Drop(Node(" ", Node("worlds", Node("!", Null))), 0);
    s := ToString(p);
    lines := lines + ["rc_list=" + s];
    s := ToString(p2);
    lines := lines + ["rc_list2=" + s];
    assert lines[0] == "list=Hello world!";
    assert lines[1] == "p=world!";
    assert lines[2] == "list=Hello world";
    assert lines[3] == "rc_list=Hi worlds!";
    assert lines[4] == "rc_list2=Hi worlds!";
    assert lines[5] == "rc_list=worlds!";
    assert lines[6] == "rc_list2= worlds!";
  }
}
