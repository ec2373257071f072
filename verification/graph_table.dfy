/** The handler table of graph_cpp/graph.cpp: handlers, ordered by name, that
    hold a strong (`shared_ptr`) or weak (`weak_ptr`) reference to a session.
    Reference counting is modelled abstractly: sessions are numbered in the
    order they are made, and a session is alive exactly when some handler in
    the table holds it strongly, since handlers are the only owners of
    sessions. */
module GraphTable {
  import opened Wrappers

  // ---------------------------------------------------------------- names

  /** `std::string`'s `<`: lexicographic by character code, a proper prefix
      coming first. */
  predicate Before(a: string, b: string)
    decreases |a|
  {
    if a == [] then b != []
    else b != [] && (a[0] < b[0] || (a[0] == b[0] && Before(a[1..], b[1..])))
  }

  lemma {:induction false} BeforeIrreflexive(a: string)
    ensures !Before(a, a)
    decreases |a|
  {
    if a != [] {
      BeforeIrreflexive(a[1..]);
    }
  }

  lemma {:induction false} BeforeTransitive(a: string, b: string, c: string)
    requires Before(a, b) && Before(b, c)
    ensures Before(a, c)
    decreases |a|
  {
    if a != [] && a[0] == b[0] && b[0] == c[0] {
      BeforeTransitive(a[1..], b[1..], c[1..]);
    }
  }

  lemma {:induction false} BeforeTotal(a: string, b: string)
    ensures a == b || Before(a, b) || Before(b, a)
    decreases |a|
  {
    if a != [] && b != [] && a[0] == b[0] {
      BeforeTotal(a[1..], b[1..]);
      if a[1..] == b[1..] {
        assert a == [a[0]] + a[1..] && b == [b[0]] + b[1..];
      }
    }
  }

  // ---------------------------------------------------------------- handlers

  /** A handler: its name and at most one reference, strong or weak, to a
      session, given by its number. */
  datatype Handler = Handler(name: string, strong: Option<nat>, weak: Option<nat>)

  /** `handler::is_shared`. */
  predicate IsShared(h: Handler) { h.strong.Some? }

  /** Handlers sorted strictly by name: a `std::set<handler>` ordered by
      `handler::operator<`, so no two handlers share a name. */
  predicate Ordered(hs: seq<Handler>) {
    forall i, j :: 0 <= i < j < |hs| ==> Before(hs[i].name, hs[j].name)
  }

  /** The position of the handler called `name`, if any. */
  function Find(hs: seq<Handler>, name: string): (r: Option<nat>)
    ensures r.Some? ==> r.value < |hs| && hs[r.value].name == name
    ensures r.None? ==> forall i :: 0 <= i < |hs| ==> hs[i].name != name
  {
    if hs == [] then None
    else if hs[0].name == name then Some(0)
    else match Find(hs[1..], name)
      case None => None
      case Some(i) => Some(i + 1)
  }

  /** The session `id` is alive: some handler in the table owns it. */
  predicate Alive(hs: seq<Handler>, id: nat) {
    exists h :: h in hs && h.strong == Some(id)
  }

  /** `handler::get_shared`: the strong reference if there is one, else the
      weak one locked, which fails once the session is no longer alive. */
  function GetShared(hs: seq<Handler>, h: Handler): (r: Option<nat>)
    ensures r.Some? ==> Alive(hs, r.value) || r == h.strong
    ensures r.Some? <==> h.strong.Some? || (h.weak.Some? && Alive(hs, h.weak.value))
  {
    if h.strong.Some? then h.strong
    else if h.weak.Some? && Alive(hs, h.weak.value) then h.weak
    else None
  }

  /** `std::set::emplace` of a handler whose name is new: it goes in at its
      place in name order. */
  function Insert(hs: seq<Handler>, h: Handler): (r: seq<Handler>)
    ensures |r| == |hs| + 1
    ensures forall x :: x in r <==> x == h || x in hs
  {
    if hs == [] || Before(h.name, hs[0].name) then [h] + hs
    else [hs[0]] + Insert(hs[1..], h)
  }

  lemma {:induction false} InsertOrdered(hs: seq<Handler>, h: Handler)
    requires Ordered(hs) && Find(hs, h.name).None?
    ensures Ordered(Insert(hs, h))
  {
    var r := Insert(hs, h);
    if hs == [] {
    } else if Before(h.name, hs[0].name) {
      forall j | 0 < j < |hs|
        ensures Before(h.name, hs[j].name)
      {
        BeforeTransitive(h.name, hs[0].name, hs[j].name);
      }
      assert forall j :: 0 < j < |r| ==> r[j] == hs[j - 1];
    } else {
      BeforeTotal(h.name, hs[0].name);
      assert Find(hs[1..], h.name).None?;
      InsertOrdered(hs[1..], h);
      var rest := Insert(hs[1..], h);
      assert r == [hs[0]] + rest;
      forall j | 0 <= j < |rest|
        ensures Before(hs[0].name, rest[j].name)
      {
        assert rest[j] in rest;
      }
    }
  }

  /** `std::set::erase` by name: every handler but the one called `name`
      stays, in the same order. */
  function Remove(hs: seq<Handler>, name: string): (r: seq<Handler>)
    ensures forall x :: x in r <==> x in hs && x.name != name
    ensures |r| <= |hs|
    ensures Find(hs, name).Some? ==> |r| < |hs|
  {
    if hs == [] then []
    else if hs[0].name == name then Remove(hs[1..], name)
    else [hs[0]] + Remove(hs[1..], name)
  }

  lemma {:induction false} RemoveOrdered(hs: seq<Handler>, name: string)
    requires Ordered(hs)
    ensures Ordered(Remove(hs, name))
  {
    if hs != [] {
      RemoveOrdered(hs[1..], name);
      var rest := Remove(hs[1..], name);
      forall j | 0 <= j < |rest|
        ensures Before(hs[0].name, rest[j].name)
      {
        assert rest[j] in rest;
      }
    }
  }

  // ---------------------------------------------------------------- the table

  /** The handler table and the names of the sessions made so far, numbered
      from 0. */
  datatype Table = Table(data: seq<Handler>, sessions: seq<string>)

  /** A handler refers to at most one session, and only to one made so
      far. */
  predicate Refers(h: Handler, made: nat) {
    (h.strong.None? || h.weak.None?)
    && (h.strong.Some? ==> h.strong.value < made)
    && (h.weak.Some? ==> h.weak.value < made)
  }

  predicate WellFormed(t: Table) {
    Ordered(t.data) && forall h :: h in t.data ==> Refers(h, |t.sessions|)
  }

  /** The table after a command, and the lines the command writes. */
  datatype Step = Step(t: Table, out: seq<string>)

  const Created := "Created"
  const HandlerExists := "Handler already exists"
  const NoTarget := "Target handler does not exist"
  const HandlerErased := "Handler erased"
  const NoHandler := "Handler does not exist"

  /** What `~session` writes when the session `id` dies. */
  function Deleted(t: Table, id: nat): string
    requires id < |t.sessions|
  {
    "deleted session " + t.sessions[id]
  }

  /** `hnd_table_t::create_session`: a session is made in any case; the
      handler holding it goes in only when its name is new, and otherwise the
      session dies at once, before the answer is written. */
  function Create(t: Table, hname: string, sname: string): (r: Step)
    requires WellFormed(t)
    ensures WellFormed(r.t)
  {
    var made := Table(t.data, t.sessions + [sname]);
    var h := Handler(hname, Some(|t.sessions|), None);
    if Find(t.data, hname).None? then
      InsertOrdered(t.data, h);
      Step(Table(Insert(t.data, h), made.sessions), [Created])
    else
      Step(made, [Deleted(made, |t.sessions|), HandlerExists])
  }

  /** `hnd_table_t::add_shared_ptr` (`strong`) and `add_weak_ptr`: a new
      handler `from` gets what `get_shared` of the handler `to` gives, as a
      strong or a weak reference. */
  function Link(t: Table, from: string, to: string, strong: bool): (r: Step)
    requires WellFormed(t)
    ensures WellFormed(r.t)
  {
    match Find(t.data, to)
    case None => Step(t, [NoTarget])
    case Some(i) =>
      var s := GetShared(t.data, t.data[i]);
      var h := if strong then Handler(from, s, None) else Handler(from, None, s);
      assert t.data[i] in t.data;
      if Find(t.data, from).None? then
        InsertOrdered(t.data, h);
        Step(Table(Insert(t.data, h), t.sessions), [Created])
      else
        Step(t, [HandlerExists])
  }

  /** `hnd_table_t::erase`: when the handler removed was the last owner of
      its session, the session dies, and says so, before the answer is
      written. */
  function Erase(t: Table, hname: string): (r: Step)
    requires WellFormed(t)
    ensures WellFormed(r.t)
  {
    match Find(t.data, hname)
    case None => Step(t, [NoHandler])
    case Some(i) =>
      var h := t.data[i];
      assert h in t.data;
      RemoveOrdered(t.data, hname);
      var rest := Table(Remove(t.data, hname), t.sessions);
      var dying := if h.strong.Some? && !Alive(rest.data, h.strong.value)
        then [Deleted(t, h.strong.value)] else [];
      Step(rest, dying + [HandlerErased])
  }

  /** One line of `hnd_table_t::display`: the handler's name and, when
      `get_shared` gives a session, ` => ` or ` -> ` and the session's
      name. */
  function Line(t: Table, h: Handler): (r: string)
    requires Refers(h, |t.sessions|)
  {
    h.name + match GetShared(t.data, h)
      case None => ""
      case Some(id) => (if IsShared(h) then " => " else " -> ") + t.sessions[id]
  }

  /** What `hnd_table_t::display` writes: one line per handler, in the
      table's order. */
  function Listing(t: Table): (r: seq<string>)
    requires WellFormed(t)
    ensures |r| == |t.data|
  {
    seq(|t.data|, i requires 0 <= i < |t.data| => Line(t, t.data[i]))
  }

  /** `hnd_table_t`, whose `data` the commands update in place. */
  class HandlerTable {
    var data: seq<Handler>
    var sessions: seq<string>

    function Value(): Table
      reads this
    {
      Table(data, sessions)
    }

    predicate Valid()
      reads this
    {
      WellFormed(Value())
    }

    constructor()
      ensures Valid() && Value() == Table([], [])
    {
      data := [];
      sessions := [];
    }

    method CreateSession(hname: string, sname: string) returns (out: seq<string>)
      requires Valid()
      modifies this
      ensures Valid()
      ensures Step(Value(), out) == Create(old(Value()), hname, sname)
    {
      var id := |sessions|;
      sessions := sessions + [sname];
      if Find(data, hname).None? {
        InsertOrdered(data, Handler(hname, Some(id), None));
        data := Insert(data, Handler(hname, Some(id), None));
        out := [Created];
      } else {
        out := [Deleted(Value(), id), HandlerExists];
      }
    }

    /** The part `add_shared_ptr` and `add_weak_ptr` have in common. */
    method AddPointer(from: string, to: string, strong: bool) returns (out: seq<string>)
      requires Valid()
      modifies this
      ensures Valid()
      ensures Step(Value(), out) == Link(old(Value()), from, to, strong)
    {
      var target := Find(data, to);
      if target.None? {
        out := [NoTarget];
        return;
      }
      var s := GetShared(data, data[target.value]);
      var h := if strong then Handler(from, s, None) else Handler(from, None, s);
      assert data[target.value] in data;
      if Find(data, from).None? {
        InsertOrdered(data, h);
        data := Insert(data, h);
        out := [Created];
      } else {
        out := [HandlerExists];
      }
    }

    method AddSharedPtr(from: string, to: string) returns (out: seq<string>)
      requires Valid()
      modifies this
      ensures Valid()
      ensures Step(Value(), out) == Link(old(Value()), from, to, true)
    {
      out := AddPointer(from, to, true);
    }

    method AddWeakPtr(from: string, to: string) returns (out: seq<string>)
      requires Valid()
      modifies this
      ensures Valid()
      ensures Step(Value(), out) == Link(old(Value()), from, to, false)
    {
      out := AddPointer(from, to, false);
    }

    method EraseHandler(hname: string) returns (out: seq<string>)
      requires Valid()
      modifies this
      ensures Valid()
      ensures Step(Value(), out) == Erase(old(Value()), hname)
    {
      var found := Find(data, hname);
      if found.None? {
        out := [NoHandler];
        return;
      }
      var h := data[found.value];
      assert h in data;
      RemoveOrdered(data, hname);
      data := Remove(data, hname);
      out := [HandlerErased];
      if h.strong.Some? && !Alive(data, h.strong.value) {
        out := [Deleted(Value(), h.strong.value)] + out;
      }
    }

    /** `hnd_table_t::display`: a walk over the set in order. */
    method Display() returns (lines: seq<string>)
      requires Valid()
      ensures lines == Listing(Value())
    {
      lines := [];
      for i := 0 to |data|
        invariant lines == Listing(Value())[..i]
      {
        lines := lines + [Line(Value(), data[i])];
      }
    }
  }
}
