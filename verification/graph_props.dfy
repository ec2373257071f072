/** What the commands of graph_cpp/graph.cpp do to the handler table: which
    handlers go in and out, which sessions stay alive, and what `display`
    shows. */
module GraphProps {
  import opened Wrappers
  import opened GraphTable

  /** Names in an ordered table are unique: the handler `Find` gives for a
      member's name is that member. */
  lemma FindMember(hs: seq<Handler>, x: Handler)
    requires Ordered(hs) && x in hs
    ensures Find(hs, x.name).Some? && hs[Find(hs, x.name).value] == x
  {
    var j :| 0 <= j < |hs| && hs[j] == x;
    var i := Find(hs, x.name).value;
    if i < j {
      BeforeIrreflexive(x.name);
    } else if j < i {
      BeforeIrreflexive(x.name);
    }
  }

  // ---------------------------------------------------------------- create_session

  /** `create_session` adds the handler, holding a fresh session, exactly when
      no handler has its name; otherwise the handlers are unchanged and the
      new session is dead at once. */
  lemma CreateInserts(t: Table, hname: string, sname: string)
    requires WellFormed(t)
    ensures var r := Create(t, hname, sname);
      var id := |t.sessions|;
      var h := Handler(hname, Some(id), None);
      && r.t.sessions == t.sessions + [sname]
      && (forall x :: x in t.data ==> x.strong != Some(id) && x.weak != Some(id))
      && (Find(t.data, hname).None? ==>
            r.out == [Created]
            && (forall x :: x in r.t.data <==> x == h || x in t.data)
            && Alive(r.t.data, id))
      && (Find(t.data, hname).Some? ==>
            r.out == ["deleted session " + sname, HandlerExists]
            && r.t.data == t.data
            && !Alive(r.t.data, id))
  {
    var r := Create(t, hname, sname);
    var id := |t.sessions|;
    if Find(t.data, hname).None? {
      assert Handler(hname, Some(id), None) in r.t.data;
    }
  }

  // ---------------------------------------------------------------- add_shared_ptr, add_weak_ptr

  /** With no target, or with the new name taken, nothing changes. */
  lemma LinkUnchanged(t: Table, from: string, to: string, strong: bool)
    requires WellFormed(t)
    requires Find(t.data, to).None? || Find(t.data, from).Some?
    ensures Link(t, from, to, strong).t == t
    ensures Link(t, from, to, strong).out
      == [if Find(t.data, to).None? then NoTarget else HandlerExists]
  {
  }

  /** Otherwise exactly one handler is added: it is called `from`, holds its
      reference strongly exactly when `strong` and the target has a session,
      and `get_shared` gives it the target's session. Every session alive
      before is alive after. */
  lemma LinkAddsOne(t: Table, from: string, to: string, strong: bool)
    requires WellFormed(t)
    requires Find(t.data, to).Some? && Find(t.data, from).None?
    ensures var r := Link(t, from, to, strong);
      var target := t.data[Find(t.data, to).value];
      var s := GetShared(t.data, target);
      exists h: Handler ::
        && h.name == from
        && (IsShared(h) <==> strong && s.Some?)
        && GetShared(r.t.data, h) == s
        && (forall x :: x in r.t.data <==> x == h || x in t.data)
        && r.t.sessions == t.sessions
        && r.out == [Created]
        && |r.t.data| == |t.data| + 1
        && (forall id :: Alive(t.data, id) ==> Alive(r.t.data, id))
  {
    var r := Link(t, from, to, strong);
    var target := t.data[Find(t.data, to).value];
    assert target in t.data;
    var s := GetShared(t.data, target);
    var h := if strong then Handler(from, s, None) else Handler(from, None, s);
    if s.Some? && !strong {
      if target.strong == s {
        assert target in r.t.data;
      } else {
        var o :| o in t.data && o.strong == s;
        assert o in r.t.data;
      }
    }
    forall id: nat | Alive(t.data, id)
      ensures Alive(r.t.data, id)
    {
      var o :| o in t.data && o.strong == Some(id);
      assert o in r.t.data;
    }
  }

  /** A handler copied from a target whose weak reference has expired gets
      no session, strong or weak. */
  lemma LinkFromExpired(t: Table, from: string, to: string, strong: bool)
    requires WellFormed(t)
    requires Find(t.data, to).Some? && Find(t.data, from).None?
    requires var target := t.data[Find(t.data, to).value];
      target.strong.None? && (target.weak.None? || !Alive(t.data, target.weak.value))
    ensures var r := Link(t, from, to, strong);
      forall x :: x in r.t.data && x.name == from ==> x.strong.None? && x.weak.None?
  {
    var r := Link(t, from, to, strong);
    forall x | x in r.t.data && x.name == from
      ensures x.strong.None? && x.weak.None?
    {
      assert x !in t.data;
    }
  }

  // ---------------------------------------------------------------- erase

  /** `erase` says whether the handler existed and leaves every other
      handler, and only those. */
  lemma EraseRemoves(t: Table, hname: string)
    requires WellFormed(t)
    ensures var r := Erase(t, hname);
      && r.t.sessions == t.sessions
      && (forall x :: x in r.t.data <==> x in t.data && x.name != hname)
      && Find(r.t.data, hname).None?
      && r.out[|r.out| - 1] == (if Find(t.data, hname).Some? then HandlerErased else NoHandler)
  {
    var r := Erase(t, hname);
    forall i | 0 <= i < |r.t.data|
      ensures r.t.data[i].name != hname
    {
      assert r.t.data[i] in r.t.data;
    }
  }

  /** Erasing the last handler that owns a session kills it: it says so, and
      from then on the weak handlers of that session get no session. */
  lemma EraseLastOwner(t: Table, hname: string, id: nat)
    requires WellFormed(t)
    requires Find(t.data, hname).Some? && t.data[Find(t.data, hname).value].strong == Some(id)
    requires forall x :: x in t.data && x.strong == Some(id) ==> x.name == hname
    ensures var r := Erase(t, hname);
      && !Alive(r.t.data, id)
      && id < |t.sessions|
      && r.out == ["deleted session " + t.sessions[id], HandlerErased]
      && forall x :: x in r.t.data && x.weak == Some(id) ==> GetShared(r.t.data, x).None?
  {
    var h := t.data[Find(t.data, hname).value];
    assert h in t.data;
  }

  /** A session that another handler also owns survives the erase of one of
      its owners, and nothing is said about it. */
  lemma EraseOtherOwner(t: Table, hname: string, id: nat, other: Handler)
    requires WellFormed(t)
    requires Find(t.data, hname).Some? && t.data[Find(t.data, hname).value].strong == Some(id)
    requires other in t.data && other.strong == Some(id) && other.name != hname
    ensures Alive(Erase(t, hname).t.data, id)
    ensures Erase(t, hname).out == [HandlerErased]
  {
    assert other in Erase(t, hname).t.data;
  }

  // ---------------------------------------------------------------- display

  /** `display` writes one line per handler, in name order, each starting
      with the handler's name; a line goes on past the name exactly when
      `get_shared` gives the handler a session. */
  lemma DisplayInOrder(t: Table)
    requires WellFormed(t)
    ensures var lines := Listing(t);
      && |lines| == |t.data|
      && (forall i, j :: 0 <= i < j < |lines| ==> Before(t.data[i].name, t.data[j].name))
      && forall i :: 0 <= i < |lines| ==>
           && t.data[i].name <= lines[i]
           && (|lines[i]| > |t.data[i].name| <==> GetShared(t.data, t.data[i]).Some?)
  {
    var lines := Listing(t);
    forall i | 0 <= i < |lines|
      ensures t.data[i].name <= lines[i]
      ensures |lines[i]| > |t.data[i].name| <==> GetShared(t.data, t.data[i]).Some?
    {
      assert t.data[i] in t.data;
      assert lines[i] == Line(t, t.data[i]);
    }
  }

  // ---------------------------------------------------------------- a scenario

  /** `A + S` then `B => A` or `B -> A` on a table holding neither name:
      both handlers are in, `A` owning the new session and `B` referring to
      it strongly or weakly. */
  lemma CreateThenLink(t: Table, a: string, b: string, sname: string, strong: bool)
    requires WellFormed(t) && a != b
    requires Find(t.data, a).None? && Find(t.data, b).None?
    ensures var id := |t.sessions|;
      var t2 := Link(Create(t, a, sname).t, b, a, strong).t;
      var hb := if strong then Handler(b, Some(id), None) else Handler(b, None, Some(id));
      && t2.sessions == t.sessions + [sname]
      && (forall x :: x in t2.data <==> x == hb || x == Handler(a, Some(id), None) || x in t.data)
      && (forall x :: x in t.data ==> x.strong != Some(id) && x.weak != Some(id))
  {
    var id := |t.sessions|;
    CreateInserts(t, a, sname);
    var t1 := Create(t, a, sname).t;
    var ha := Handler(a, Some(id), None);
    FindMember(t1.data, ha);
    assert Find(t1.data, b).None?;
  }

  /** `A + S`, then `B => A` or `B -> A`, then `! A`: a strong `B` keeps the
      session alive, a weak one loses it with `A`. */
  lemma StrongKeepsWeakLoses(t: Table, a: string, b: string, sname: string, strong: bool)
    requires WellFormed(t) && a != b
    requires Find(t.data, a).None? && Find(t.data, b).None?
    ensures var id := |t.sessions|;
      var t1 := Create(t, a, sname).t;
      var t2 := Link(t1, b, a, strong).t;
      var t3 := Erase(t2, a);
      && Find(t3.t.data, b).Some?
      && GetShared(t3.t.data, t3.t.data[Find(t3.t.data, b).value]) == (if strong then Some(id) else None)
      && t3.out == (if strong then [] else ["deleted session " + sname]) + [HandlerErased]
  {
    var id := |t.sessions|;
    var ha := Handler(a, Some(id), None);
    var hb := if strong then Handler(b, Some(id), None) else Handler(b, None, Some(id));
    CreateThenLink(t, a, b, sname, strong);
    var t2 := Link(Create(t, a, sname).t, b, a, strong).t;
    FindMember(t2.data, ha);
    var t3 := Erase(t2, a);
    assert forall x :: x in t3.t.data <==> x == hb || x in t.data;
    FindMember(t3.t.data, hb);
    if !strong {
      assert !Alive(t3.t.data, id);
    } else {
      assert Alive(t3.t.data, id);
    }
  }
}
