/** The main loop of graph_cpp/graph.cpp: each input line is split into
    tokens, recognised as a command and carried out on the handler table. */
module GraphRun {
  import opened GraphSplit
  import opened GraphTable
  import opened Wrappers

  /** The commands `run` recognises: `H + S`, `H1 => H2`, `H1 -> H2`, `! H`,
      `?`, and anything else. */
  datatype Command =
    | NewSession(hname: string, sname: string)
    | SharedTo(from: string, to: string)
    | WeakTo(from: string, to: string)
    | Delete(hname: string)
    | List
    | Unknown

  /** The dispatch of `run` on the tokens of a line. */
  function Classify(ts: seq<string>): (c: Command)
    ensures c.Unknown? <==>
      !((|ts| == 3 && (ts[1] == "+" || ts[1] == "=>" || ts[1] == "->"))
        || (|ts| == 2 && ts[0] == "!")
        || (|ts| == 1 && ts[0] == "?"))
  {
    if |ts| == 3 then
      if ts[1] == "+" then NewSession(ts[0], ts[2])
      else if ts[1] == "=>" then SharedTo(ts[0], ts[2])
      else if ts[1] == "->" then WeakTo(ts[0], ts[2])
      else Unknown
    else if |ts| == 2 && ts[0] == "!" then Delete(ts[1])
    else if |ts| == 1 && ts[0] == "?" then List
    else Unknown
  }

  const Unrecognised := "???"

  /** One command on the table. */
  function Apply(t: Table, c: Command): (r: Step)
    requires WellFormed(t)
    ensures WellFormed(r.t)
  {
    match c
    case NewSession(h, s) => Create(t, h, s)
    case SharedTo(f, to) => Link(t, f, to, true)
    case WeakTo(f, to) => Link(t, f, to, false)
    case Delete(h) => Erase(t, h)
    case List => Step(t, Listing(t))
    case Unknown => Step(t, [Unrecognised])
  }

  /** The lines written for the input `lines`, starting from the table
      `t`. */
  function Replay(t: Table, lines: seq<string>): (r: Step)
    requires WellFormed(t)
    ensures WellFormed(r.t)
    decreases |lines|
  {
    if lines == [] then Step(t, [])
    else
      var first := Apply(t, Classify(Tokens(lines[0])));
      var rest := Replay(first.t, lines[1..]);
      Step(rest.t, first.out + rest.out)
  }

  /** One more line of input: its answer comes first. */
  lemma ReplayNext(t: Table, lines: seq<string>, i: nat)
    requires WellFormed(t) && i < |lines|
    ensures var first := Apply(t, Classify(Tokens(lines[i])));
      Replay(t, lines[i..]).out == first.out + Replay(first.t, lines[i + 1..]).out
    ensures var first := Apply(t, Classify(Tokens(lines[i])));
      Replay(t, lines[i..]).t == Replay(first.t, lines[i + 1..]).t
  {
    assert lines[i..][1..] == lines[i + 1..];
  }

  /** The branches of `run`'s dispatch: one command on the table. */
  method Execute(table: HandlerTable, c: Command) returns (written: seq<string>)
    requires table.Valid()
    modifies table
    ensures table.Valid()
    ensures Step(table.Value(), written) == Apply(old(table.Value()), c)
  {
    match c {
      case NewSession(h, s) =>
        written := table.CreateSession(h, s);
      case SharedTo(f, to) =>
        written := table.AddSharedPtr(f, to);
      case WeakTo(f, to) =>
        written := table.AddWeakPtr(f, to);
      case Delete(h) =>
        written := table.EraseHandler(h);
      case List =>
        written := table.Display();
      case Unknown =>
        written := [Unrecognised];
    }
  }

  /** The sessions that die, in order, as the first `n` handlers are
      destroyed from the last to the first, the order in which libstdc++'s
      `std::set` frees its nodes (descending names): a session dies with the
      last of its strong owners to go, the first-named one. Each session
      alive among those handlers dies exactly once. */
  function DyingOrder(hs: seq<Handler>, n: nat): (r: seq<nat>)
    requires n <= |hs|
    ensures forall id: nat :: id in r <==> Alive(hs[..n], id)
    ensures forall i, j :: 0 <= i < j < |r| ==> r[i] != r[j]
  {
    if n == 0 then []
    else
      var rest := DyingOrder(hs, n - 1);
      var h := hs[n - 1];
      assert hs[..n] == hs[..n - 1] + [h];
      assert forall x :: x in hs[..n] <==> x in hs[..n - 1] || x == h;
      if h.strong.Some? && !Alive(hs[..n - 1], h.strong.value) then
        assert h.strong.value !in rest;
        [h.strong.value] + rest
      else rest
  }

  /** What the destruction of the table writes when `run` returns: the
      deletion line of each session still alive, in the order they die. */
  function Farewell(t: Table): (r: seq<string>)
    requires WellFormed(t)
  {
    var ids := DyingOrder(t.data, |t.data|);
    assert t.data[..|t.data|] == t.data;
    seq(|ids|, k requires 0 <= k < |ids| =>
      assert ids[k] in ids;
      assert Alive(t.data, ids[k]);
      Deleted(t, ids[k]))
  }

  /** `run`, with the lines of standard input given and the lines it writes
      returned; it starts from an empty table, and the table is destroyed
      when it returns. */
  method Run(lines: seq<string>) returns (out: seq<string>)
    ensures out == Replay(Table([], []), lines).out + Farewell(Replay(Table([], []), lines).t)
  {
    var table := new HandlerTable();
    out := [];
    for i := 0 to |lines|
      invariant table.Valid()
      invariant out + Replay(table.Value(), lines[i..]).out == Replay(Table([], []), lines).out
      invariant Replay(table.Value(), lines[i..]).t == Replay(Table([], []), lines).t
    {
      ReplayNext(table.Value(), lines, i);
      var tokens := Split(lines[i]);
      var written := Execute(table, Classify(tokens));
      out := out + written;
    }
    assert lines[|lines|..] == [];
    out := out + Farewell(table.Value());
  }

  lemma CreateLineTokens()
    ensures Tokens("A + S") == ["A", "+", "S"]
  {
    var line := "A + S";
    var s4 := line[4..];
    assert s4 == ['S'] && s4[1..] == [];
    assert FirstBlank(s4) == 1;
    assert Tokens(s4) == [s4[..1]] + Tokens(s4[1..]);
    assert s4[..1] == "S" && Tokens(s4[1..]) == [];
    var s3 := line[3..];
    assert s3[1..] == s4 && IsBlank(s3[0]);
    var s2 := line[2..];
    assert s2[0] == '+' && s2[1..] == s3 && FirstBlank(s3) == 0;
    assert FirstBlank(s2) == 1 && s2[..1] == "+" && s2[1..] == s3;
    var s1 := line[1..];
    assert s1[1..] == s2 && IsBlank(s1[0]);
    assert FirstBlank(s1) == 0 && FirstBlank(line) == 1 && line[..1] == "A";
    assert Tokens(s3) == Tokens(s4) == ["S"];
    assert Tokens(s2) == ["+"] + Tokens(s3);
    assert Tokens(s1) == Tokens(s2);
    assert Tokens(line) == ["A"] + Tokens(s1);
  }

  lemma CreateLineReplay()
    ensures Replay(Table([], []), ["A + S"]) == Step(Table([Handler("A", Some(0), None)], ["S"]), ["Created"])
  {
    CreateLineTokens();
    var h := Handler("A", Some(0), None);
    assert Insert([], h) == [h];
    assert Create(Table([], []), "A", "S") == Step(Table([h], ["S"]), ["Created"]);
  }

  lemma CreateLineFarewell()
    ensures Farewell(Table([Handler("A", Some(0), None)], ["S"])) == ["deleted session S"]
  {
    var h := Handler("A", Some(0), None);
    var t := Table([h], ["S"]);
    assert h in t.data;
    assert t.data[..0] == [] && t.data[..1] == t.data;
    assert !Alive(t.data[..0], 0);
    assert DyingOrder(t.data, 0) == [];
    var ids := DyingOrder(t.data, 1);
    assert ids == [0];
    assert |Farewell(t)| == 1 && Farewell(t)[0] == Deleted(t, 0);
    assert Deleted(t, 0) == "deleted session S";
  }

  /** Handlers are destroyed in descending name order, so with `A` owning
      `S` and `B` owning `T`, `T` dies first. */
  lemma FarewellDescending()
    ensures Farewell(Table([Handler("A", Some(0), None), Handler("B", Some(1), None)], ["S", "T"]))
      == ["deleted session T", "deleted session S"]
  {
    var a, b := Handler("A", Some(0), None), Handler("B", Some(1), None);
    var t := Table([a, b], ["S", "T"]);
    assert t.data[..0] == [] && t.data[..1] == [a] && t.data[..2] == t.data;
    assert a in t.data[..1] && b in t.data;
    assert !Alive(t.data[..0], 0);
    assert !Alive(t.data[..1], 1);
    assert DyingOrder(t.data, 0) == [];
    assert DyingOrder(t.data, 1) == [0];
    assert DyingOrder(t.data, 2) == [1, 0];
    assert |Farewell(t)| == 2 && Farewell(t)[0] == Deleted(t, 1) && Farewell(t)[1] == Deleted(t, 0);
    assert Deleted(t, 1) == "deleted session T" && Deleted(t, 0) == "deleted session S";
  }

  /** A session whose handler is still in the table when the input ends
      says so as the table is destroyed: `A + S` writes `Created` and then
      `deleted session S`. */
  lemma CreatedThenDestroyed()
    ensures Replay(Table([], []), ["A + S"]).out + Farewell(Replay(Table([], []), ["A + S"]).t)
      == ["Created", "deleted session S"]
  {
    CreateLineReplay();
    CreateLineFarewell();
  }

  /** Every command but `?` answers with one line, or two when a session
      dies on the way; `?` writes one line per handler. */
  lemma AnswerLength(t: Table, c: Command)
    requires WellFormed(t)
    ensures c.List? ==> |Apply(t, c).out| == |t.data|
    ensures !c.List? ==> 1 <= |Apply(t, c).out| <= 2
  {
  }

  /** A line of blanks only is not a command: the answer is `???` and the
      table stays as it was. */
  lemma BlankLineUnrecognised(t: Table, line: string)
    requires WellFormed(t)
    requires forall i :: 0 <= i < |line| ==> IsBlank(line[i])
    ensures Replay(t, [line]) == Step(t, [Unrecognised])
  {
    BlankLine(line);
  }
}
