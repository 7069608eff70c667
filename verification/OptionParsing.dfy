/** The popl parser: its options, their values and bound variables, and the leftovers. Every call is proved
    against the grammar of module Arguments. */
module OptionParsing {
  import opened Fifo
  import opened Arguments
  import opened ArgumentSpelling
  import opened ArgumentPositions
  import opened ArgumentMeaning
  import opened OptionValues

  // ---------------------------------------------------------------------------------------------
  // Everything a parse can change

  /** The options as the grammar sees them, the variable each is bound to (several may share one), the values
      and leftovers, and what the bound variables hold. */
  datatype Snapshot = Snapshot(specs: seq<OptionSpec>, bindings: seq<Cell?>, state: State, cells: map<Cell, Val>)

  /** A variable bound to some of the options: the last value stored by any of them, or what it held. */
  ghost function CellAfter(bindings: seq<Cell?>, events: seq<Event>, c: Cell, before: Val): Val {
    if events == [] then before
    else CellAfter(bindings, events[1..], c, if WritesTo(bindings, events[0], c) then events[0].value else before)
  }

  ghost predicate WritesTo(bindings: seq<Cell?>, e: Event, c: Cell) {
    e.Stored? && e.index < |bindings| && bindings[e.index] == c
  }

  ghost function AfterEvents(s: Snapshot, events: seq<Event>): Snapshot {
    s.(state := Apply(s.state, events), cells := map c | c in s.cells :: CellAfter(s.bindings, events, c, s.cells[c]))
  }

  lemma {:induction false} CellAfterConcat(bindings: seq<Cell?>, a: seq<Event>, b: seq<Event>, c: Cell, before: Val)
    ensures CellAfter(bindings, a + b, c, before) == CellAfter(bindings, b, c, CellAfter(bindings, a, c, before))
  {
    if a == [] {
      assert a + b == b;
    } else {
      ConcatTail(a, b);
      CellAfterConcat(bindings, a[1..], b, c, if WritesTo(bindings, a[0], c) then a[0].value else before);
    }
  }

  /** Events act one after another. */
  lemma AfterConcat(s: Snapshot, a: seq<Event>, b: seq<Event>)
    ensures AfterEvents(AfterEvents(s, a), b) == AfterEvents(s, a + b)
  {
    ApplyConcat(s.state, a, b);
    forall c | c in s.cells
      ensures AfterEvents(AfterEvents(s, a), b).cells[c] == AfterEvents(s, a + b).cells[c]
    {
      CellAfterConcat(s.bindings, a, b, c, s.cells[c]);
    }
    assert AfterEvents(AfterEvents(s, a), b).cells == AfterEvents(s, a + b).cells;
  }

  lemma {:induction false} LeftoversKeepCells(bindings: seq<Cell?>, events: seq<Event>, c: Cell, before: Val)
    requires forall i :: 0 <= i < |events| ==> !events[i].Stored?
    ensures CellAfter(bindings, events, c, before) == before
  {
    if events != [] {
      LeftoversKeepCells(bindings, events[1..], c, before);
    }
  }

  /** Events that store nothing leave every variable as it is. */
  lemma AfterLeftovers(s: Snapshot, events: seq<Event>)
    requires forall i :: 0 <= i < |events| ==> !events[i].Stored?
    ensures AfterEvents(s, events) == s.(state := Apply(s.state, events))
  {
    forall c | c in s.cells
      ensures CellAfter(s.bindings, events, c, s.cells[c]) == s.cells[c]
    {
      LeftoversKeepCells(s.bindings, events, c, s.cells[c]);
    }
    assert AfterEvents(s, events).cells == s.cells;
  }

  lemma AfterNothing(s: Snapshot)
    ensures AfterEvents(s, []) == s
  {
    ApplyNothing(s.state);
    AfterLeftovers(s, []);
  }

  /** One value stored, in the state `t` and the variables `cells` it leads to. */
  lemma AfterStored(s: Snapshot, k: nat, v: Val, t: Snapshot)
    requires k < |s.state.values| == |s.bindings|
    requires t.specs == s.specs && t.bindings == s.bindings
    requires t.state == s.state.(values := s.state.values[k := s.state.values[k] + [v]])
    requires t.cells.Keys == s.cells.Keys
    requires forall c :: c in s.cells ==> t.cells[c] == if s.bindings[k] == c then v else s.cells[c]
    ensures AfterEvents(s, [Stored(k, v)]) == t
  {
    var e := [Stored(k, v)];
    ApplyStored(s.state, k, v);
    forall c | c in s.cells
      ensures CellAfter(s.bindings, e, c, s.cells[c]) == t.cells[c]
    {
      assert e[1..] == [];
    }
    assert AfterEvents(s, e).cells == t.cells;
  }

  // ---------------------------------------------------------------------------------------------
  // Variables that are not shared

  /** Every option has a variable of its own, or none. */
  ghost predicate Unshared(bindings: seq<Cell?>) {
    forall i, j :: 0 <= i < j < |bindings| && bindings[i] != null ==> bindings[i] != bindings[j]
  }

  ghost predicate Complete(s: Snapshot) {
    && |s.specs| == |s.bindings| == |s.state.values|
    && forall k :: 0 <= k < |s.bindings| && s.bindings[k] != null ==> s.bindings[k] in s.cells
  }

  /** Every bound variable holds its option's last value, or else the default if there is one. */
  ghost predicate Agrees(s: Snapshot)
    requires Complete(s)
  {
    forall k :: 0 <= k < |s.bindings| ==> AgreesAt(s, k)
  }

  ghost predicate AgreesAt(s: Snapshot, k: nat)
    requires Complete(s) && k < |s.bindings|
  {
    var c := s.bindings[k];
    c != null ==> s.cells[c] == Reflected(s.state.values[k], s.specs[k].default, s.cells[c])
  }

  lemma {:induction false} OwnCellAfter(bindings: seq<Cell?>, events: seq<Event>, k: nat, before: Val)
    requires Unshared(bindings) && k < |bindings| && bindings[k] != null
    ensures
      var stored := ValuesOf(events, k);
      CellAfter(bindings, events, bindings[k], before) == if stored == [] then before else stored[|stored| - 1]
  {
    if events != [] {
      var e := events[0];
      assert WritesTo(bindings, e, bindings[k]) <==> e.Stored? && e.index == k;
      OwnCellAfter(bindings, events[1..], k, if WritesTo(bindings, e, bindings[k]) then e.value else before);
    }
  }

  /** An unshared variable that agrees with its option goes on agreeing, whatever is parsed. */
  lemma AgreementIsKept(s: Snapshot, events: seq<Event>)
    requires Complete(s) && Unshared(s.bindings) && Agrees(s)
    ensures Complete(AfterEvents(s, events)) && Agrees(AfterEvents(s, events))
  {
    forall k | 0 <= k < |s.bindings|
      ensures AgreesAt(AfterEvents(s, events), k)
    {
      if s.bindings[k] != null {
        assert AgreesAt(s, k);
        OwnCellAfter(s.bindings, events, k, s.cells[s.bindings[k]]);
      }
    }
  }

  // ---------------------------------------------------------------------------------------------
  // reset

  /** No values and no leftovers. */
  function Fresh(options: nat): State {
    State(seq(options, _ => []), [], [])
  }

  /** A variable after the first n options have been cleared, in order. */
  ghost function DefaultAfter(specs: seq<OptionSpec>, bindings: seq<Cell?>, n: nat, c: Cell, before: Val): Val
    requires n <= |specs| == |bindings|
  {
    if n == 0 then before
    else
      var so := DefaultAfter(specs, bindings, n - 1, c, before);
      if bindings[n - 1] == c then Reflected([], specs[n - 1].default, so) else so
  }

  /** A variable takes the default of the last option bound to it that has one. */
  ghost function AfterReset(s: Snapshot): Snapshot
    requires Complete(s)
  {
    s.(state := Fresh(|s.specs|),
       cells := map c | c in s.cells :: DefaultAfter(s.specs, s.bindings, |s.specs|, c, s.cells[c]))
  }

  /** One option cleared. */
  ghost function ClearOne(s: Snapshot, k: nat): Snapshot
    requires Complete(s) && k < |s.specs|
  {
    s.(state := s.state.(values := s.state.values[k := []]),
       cells := map c | c in s.cells ::
         if s.bindings[k] == c then Reflected([], s.specs[k].default, s.cells[c]) else s.cells[c])
  }

  /** The first n options cleared, one after another. */
  ghost function Cleared(s: Snapshot, n: nat): Snapshot
    requires Complete(s) && n <= |s.specs|
  {
    s.(state := s.state.(values := seq(|s.state.values|, i requires 0 <= i < |s.state.values| =>
                                         if i < n then [] else s.state.values[i])),
       cells := map c | c in s.cells :: DefaultAfter(s.specs, s.bindings, n, c, s.cells[c]))
  }

  lemma ClearedNone(s: Snapshot)
    requires Complete(s)
    ensures Cleared(s, 0) == s
  {
    assert Cleared(s, 0).state.values == s.state.values;
    assert Cleared(s, 0).cells == s.cells;
  }

  lemma ClearedStep(s: Snapshot, k: nat)
    requires Complete(s) && k < |s.specs|
    ensures Complete(Cleared(s, k)) && ClearOne(Cleared(s, k), k) == Cleared(s, k + 1)
  {
    var t, u := ClearOne(Cleared(s, k), k), Cleared(s, k + 1);
    assert t.state.values == u.state.values;
    assert t.cells == u.cells;
  }

  lemma ClearedAll(s: Snapshot, bare: Snapshot)
    requires Complete(s) && bare == s.(state := State(s.state.values, [], []))
    ensures Cleared(bare, |s.specs|) == AfterReset(s)
  {
    assert Cleared(bare, |s.specs|).state.values == Fresh(|s.specs|).values;
    assert Cleared(bare, |s.specs|).cells == AfterReset(s).cells;
  }

  lemma {:induction false} OwnDefault(specs: seq<OptionSpec>, bindings: seq<Cell?>, n: nat, k: nat, before: Val)
    requires n <= |specs| == |bindings| && k < |bindings| && bindings[k] != null && Unshared(bindings)
    ensures DefaultAfter(specs, bindings, n, bindings[k], before)
         == if k < n then Reflected([], specs[k].default, before) else before
  {
    if n > 0 {
      OwnDefault(specs, bindings, n - 1, k, before);
      assert bindings[n - 1] == bindings[k] <==> n - 1 == k;
    }
  }

  /** After a reset every unshared variable agrees with its option, whatever it held. */
  lemma ResetMakesAgree(s: Snapshot)
    requires Complete(s) && Unshared(s.bindings)
    ensures Complete(AfterReset(s)) && Agrees(AfterReset(s))
  {
    forall k | 0 <= k < |s.bindings|
      ensures AgreesAt(AfterReset(s), k)
    {
      if s.bindings[k] != null {
        OwnDefault(s.specs, s.bindings, |s.specs|, k, s.cells[s.bindings[k]]);
      }
    }
  }

  /** A variable none of whose options has a default keeps its content. */
  lemma {:induction false} NoDefaultKeeps(specs: seq<OptionSpec>, bindings: seq<Cell?>, n: nat, c: Cell, before: Val)
    requires n <= |specs| == |bindings|
    requires forall k :: 0 <= k < n && bindings[k] == c ==> specs[k].default.None?
    ensures DefaultAfter(specs, bindings, n, c, before) == before
  {
    if n > 0 {
      NoDefaultKeeps(specs, bindings, n - 1, c, before);
    }
  }

  /** No option bound to the variable has a default. */
  ghost predicate Undefaulted(s: Snapshot, c: Cell)
    requires Complete(s)
  {
    forall k :: 0 <= k < |s.specs| && s.bindings[k] == c ==> s.specs[k].default.None?
  }

  lemma UndefaultedAreKept(s: Snapshot)
    requires Complete(s)
    ensures forall c :: c in s.cells && Undefaulted(s, c) ==> AfterReset(s).cells[c] == s.cells[c]
  {
    forall c | c in s.cells && Undefaulted(s, c)
      ensures AfterReset(s).cells[c] == s.cells[c]
    {
      NoDefaultKeeps(s.specs, s.bindings, |s.specs|, c, s.cells[c]);
    }
  }

  // ---------------------------------------------------------------------------------------------
  // A caller's own calls

  /** One call on option k that binds no variable anew. */
  ghost function AfterCall(s: Snapshot, k: nat, c: Call): (r: Snapshot)
    requires Complete(s) && k < |s.specs| && !c.AssignTo?
    ensures Complete(r) && |r.specs| == |s.specs|
  {
    var h := Next(s.specs[k], HistoryAt(s, k), c);
    Snapshot(
      s.specs[k := s.specs[k].(default := h.default)], s.bindings,
      s.state.(values := s.state.values[k := h.values]), h.held)
  }

  /** An unshared variable that agrees with its option goes on agreeing, whatever the caller does. */
  lemma AgreementAfterCall(s: Snapshot, k: nat, c: Call)
    requires Complete(s) && k < |s.specs| && !c.AssignTo? && Unshared(s.bindings) && Agrees(s)
    ensures Agrees(AfterCall(s, k, c))
  {
    forall i | 0 <= i < |s.bindings|
      ensures AgreesAt(AfterCall(s, k, c), i)
    {
      assert AgreesAt(s, i);
    }
  }

  ghost function HistoryAt(s: Snapshot, k: nat): (h: History)
    requires Complete(s) && k < |s.specs|
    ensures h.cell != null ==> h.cell in h.held
  {
    History(s.state.values[k], s.specs[k].default, s.bindings[k], s.cells)
  }

  // ---------------------------------------------------------------------------------------------
  // Lookup

  lemma {:induction false} FirstLong(opts: seq<OptionSpec>, name: string, k: nat)
    requires k <= |opts| && forall i :: 0 <= i < k ==> opts[i].long != name
    requires k < |opts| ==> opts[k].long == name
    ensures FindLong(opts, name) == if k < |opts| then Some(k) else None
  {
    var r := FindLong(opts, name);
    assert k < |opts| ==> r.Some? && r.value == k;
  }

  lemma {:induction false} FirstShort(opts: seq<OptionSpec>, name: char, k: nat)
    requires k <= |opts| && forall i :: 0 <= i < k ==> opts[i].short != name
    requires k < |opts| ==> opts[k].short == name
    ensures FindShort(opts, name) == if k < |opts| then Some(k) else None
  {
    var r := FindShort(opts, name);
    assert k < |opts| ==> r.Some? && r.value == k;
  }

  // ---------------------------------------------------------------------------------------------
  // The parser

  /** How parse returns: normally, or with an invalid_option. */
  datatype Exit = Normal | InvalidArgument | MissingOption(index: nat)

  predicate MissingAt(specs: seq<OptionSpec>, values: seq<seq<Val>>, k: nat)
    requires k < |specs| == |values|
  {
    specs[k].attribute == Required && values[k] == []
  }

  /** The first required option without a value. */
  function FirstMissing(specs: seq<OptionSpec>, values: seq<seq<Val>>): (exit: Exit)
    requires |specs| == |values|
    ensures exit == Normal ==> forall k :: 0 <= k < |specs| ==> !MissingAt(specs, values, k)
    ensures exit.MissingOption? ==>
      && exit.index < |specs| && MissingAt(specs, values, exit.index)
      && forall k :: 0 <= k < exit.index ==> !MissingAt(specs, values, k)
    ensures exit != InvalidArgument
  {
    MissingFrom(specs, values, 0)
  }

  function MissingFrom(specs: seq<OptionSpec>, values: seq<seq<Val>>, n: nat): (exit: Exit)
    requires n <= |specs| == |values|
    ensures exit == Normal ==> forall k :: n <= k < |specs| ==> !MissingAt(specs, values, k)
    ensures exit.MissingOption? ==>
      && n <= exit.index < |specs| && MissingAt(specs, values, exit.index)
      && forall k :: n <= k < exit.index ==> !MissingAt(specs, values, k)
    ensures exit != InvalidArgument
    decreases |specs| - n
  {
    if n == |specs| then Normal
    else if MissingAt(specs, values, n) then MissingOption(n)
    else MissingFrom(specs, values, n + 1)
  }

  function ExitOf(specs: seq<OptionSpec>, values: seq<seq<Val>>, thrown: bool): Exit
    requires |specs| == |values|
  {
    if thrown then InvalidArgument else FirstMissing(specs, values)
  }

  /** What a parser with these options that has never parsed makes of a command line. */
  function FirstParse(specs: seq<OptionSpec>, argv: seq<string>): (State, Exit) {
    var p := ParseFrom(specs, argv, 1);
    var s := Apply(Fresh(|specs|), p.events);
    (s, ExitOf(specs, s.values, p.thrown))
  }

  /** The values grow by what the option makes of these texts. */
  predicate Gains(o: OptionSpec, texts: seq<string>, before: seq<Val>, after: seq<Val>) {
    before <= after && AllDenote(o, texts, after[|before|..])
  }

  /** What a parse means, said on the tokens and the options. It throws an invalid argument exactly if some
      token on its way reaches an option that refuses its argument, otherwise a missing option exactly if a
      required one has no value. Up to there each option gains what it makes of the texts the tokens give it,
      an inactive one nothing, and the two lists gain what the tokens put there. */
  ghost predicate MeansParse(s: Snapshot, argv: seq<string>, t: Snapshot, exit: Exit)
    requires Complete(s) && Complete(t) && t.specs == s.specs
  {
    && (exit == InvalidArgument <==> SomeThrows(s.specs, argv, Heads(s.specs, argv, 1)))
    && (exit == Normal ==> forall k :: 0 <= k < |t.specs| ==> !MissingAt(t.specs, t.state.values, k))
    && (exit.MissingOption? ==> exit.index < |t.specs| && MissingAt(t.specs, t.state.values, exit.index))
    && var hs := Heads(s.specs, argv, 1);
       && (forall k :: 0 <= k < |s.specs| ==>
             && Gains(s.specs[k], GatherTexts(s.specs, argv, hs, k), s.state.values[k], t.state.values[k])
             && (s.specs[k].attribute == Inactive ==> t.state.values[k] == s.state.values[k]))
       && t.state.nonOptions == s.state.nonOptions + GatherNonOptions(argv, Reached(s.specs, argv, hs))
       && t.state.unknown == s.state.unknown + GatherUnknown(s.specs, argv, Reached(s.specs, argv, hs))
  }

  lemma ParseMeans(s: Snapshot, argv: seq<string>)
    requires Complete(s)
    ensures
      var p := ParseFrom(s.specs, argv, 1);
      var t := AfterEvents(s, p.events);
      Complete(t) && MeansParse(s, argv, t, ExitOf(t.specs, t.state.values, p.thrown))
  {
    ParseThrowsIff(s.specs, argv, 1);
    ParseLeaves(s.specs, argv, 1);
    forall k | 0 <= k < |s.specs|
      ensures
        var before, after := s.state.values[k], AfterEvents(s, ParseFrom(s.specs, argv, 1).events).state.values[k];
        && Gains(s.specs[k], GatherTexts(s.specs, argv, Heads(s.specs, argv, 1), k), before, after)
        && (s.specs[k].attribute == Inactive ==> after == before)
    {
      ParseGains(s, argv, k);
    }
  }

  lemma ParseGains(s: Snapshot, argv: seq<string>, k: nat)
    requires Complete(s) && k < |s.specs|
    ensures
      var before, after := s.state.values[k], AfterEvents(s, ParseFrom(s.specs, argv, 1).events).state.values[k];
      && Gains(s.specs[k], GatherTexts(s.specs, argv, Heads(s.specs, argv, 1), k), before, after)
      && (s.specs[k].attribute == Inactive ==> after == before)
  {
    var events := ParseFrom(s.specs, argv, 1).events;
    ParseLeaves(s.specs, argv, 1);
    assert (s.state.values[k] + ValuesOf(events, k))[|s.state.values[k]|..] == ValuesOf(events, k);
    if s.specs[k].attribute == Inactive {
      InactiveIsUntouched(s.specs, argv, 1, k);
    }
  }

  class OptionParser {
    var options: seq<ValueOption>
    var nonOptionArgs: seq<string>
    var unknownOptions: seq<string>

    ghost function Specs(): (specs: seq<OptionSpec>)
      reads this, options
      ensures |specs| == |options|
    {
      seq(|options|, i requires 0 <= i < |options| reads this, options => options[i].Spec())
    }

    ghost function Bindings(): (bindings: seq<Cell?>)
      reads this, options
      ensures |bindings| == |options|
    {
      seq(|options|, i requires 0 <= i < |options| reads this, options => options[i].assignTo)
    }

    /** The values of all options, and the leftovers. */
    ghost function View(): (s: State)
      reads this, options
      ensures |s.values| == |options|
    {
      State(
        seq(|options|, i requires 0 <= i < |options| reads this, options => options[i].values),
        nonOptionArgs, unknownOptions)
    }

    ghost function Cells(): set<Cell>
      reads this, options
    {
      set c: Cell | c in Bindings()
    }

    ghost function Now(): (s: Snapshot)
      reads this, options, Cells()
      ensures Complete(s)
    {
      Snapshot(Specs(), Bindings(), View(), map c | c in Cells() :: c.v)
    }

    /** The options are different objects, and no name occurs twice. */
    ghost predicate Valid()
      reads this, options
    {
      && (forall i, j :: 0 <= i < j < |options| ==> options[i] != options[j])
      && UniqueNames(Specs())
    }

    constructor ()
      ensures Valid() && options == [] && View() == State([], [], [])
    {
      options, nonOptionArgs, unknownOptions := [], [], [];
    }

    /** Fails, with a std::invalid_argument, exactly when a name is taken already. */
    method Add(option: ValueOption) returns (ok: bool)
      requires Valid() && option !in options
      modifies this`options
      ensures ok <==> UniqueNames(old(Specs()) + [option.Spec()])
      ensures options == if ok then old(options) + [option] else old(options)
      ensures Valid()
    {
      ghost var specs := Specs();
      ok := true;
      for i := 0 to |options|
        invariant forall j :: 0 <= j < i ==> Compatible(options[j].Spec(), option.Spec())
      {
        if option.short != '\0' && option.short == options[i].short {
          TakenName(specs, option.Spec(), i);
          return false;
        }
        if option.long != "" && option.long == options[i].long {
          TakenName(specs, option.Spec(), i);
          return false;
        }
      }
      options := options + [option];
      FreshName(specs, option.Spec());
      assert Specs() == specs + [option.Spec()];
    }

    method FindLongOption(name: string) returns (r: Option<nat>)
      ensures r == FindLong(Specs(), name)
      ensures r.Some? ==> r.value < |options|
    {
      for k := 0 to |options|
        invariant forall i :: 0 <= i < k ==> options[i].long != name
      {
        if options[k].long == name {
          FirstLong(Specs(), name, k);
          return Some(k);
        }
      }
      FirstLong(Specs(), name, |options|);
      return None;
    }

    method FindShortOption(name: char) returns (r: Option<nat>)
      ensures r == FindShort(Specs(), name)
      ensures r.Some? ==> r.value < |options|
    {
      for k := 0 to |options|
        invariant forall i :: 0 <= i < k ==> options[i].short != name
      {
        if options[k].short == name {
          FirstShort(Specs(), name, k);
          return Some(k);
        }
      }
      FirstShort(Specs(), name, |options|);
      return None;
    }

    /** What is left to say when only the values of the option at k have changed. */
    twostate lemma OneOption(k: nat)
      requires options == old(options) && k < |options| && old(Valid())
      requires forall i :: 0 <= i < |options| ==>
        options[i].default == old(options[i].default) && options[i].assignTo == old(options[i].assignTo)
      requires forall i :: 0 <= i < |options| && i != k ==> options[i].values == old(options[i].values)
      ensures Specs() == old(Specs()) && Bindings() == old(Bindings()) && Cells() == old(Cells()) && Valid()
      ensures View().values == old(View()).values[k := options[k].values]
    {
      assert Specs() == old(Specs());
      assert Bindings() == old(Bindings());
    }

    /** Nothing about the options has changed. */
    twostate lemma SameOptions()
      requires options == old(options) && old(Valid())
      requires forall o :: o in options ==>
        o.values == old(o.values) && o.default == old(o.default) && o.assignTo == old(o.assignTo)
      requires forall c :: c in old(Cells()) ==> c.v == old(c.v)
      ensures Specs() == old(Specs()) && Bindings() == old(Bindings()) && Cells() == old(Cells()) && Valid()
      ensures View().values == old(View()).values && Now().cells == old(Now()).cells
    {
      assert Specs() == old(Specs()) && Bindings() == old(Bindings());
      assert View().values == old(View()).values;
    }

    /** option->parse for the option at k. */
    method StoreValue(k: nat, arg: string) returns (ok: bool)
      requires Valid() && k < |options|
      modifies options, Cells()
      ensures Valid() && options == old(options) && Cells() == old(Cells())
      ensures ok == !Store(old(Specs()), k, arg).thrown
      ensures Now() == AfterEvents(old(Now()), Store(old(Specs()), k, arg).events)
    {
      ghost var before := Now();
      assert options[k].assignTo == Bindings()[k];
      ok := options[k].Parse(arg);
      OneOption(k);
      if ok {
        AfterStored(before, k, Accept(before.specs[k], arg).value, Now());
      } else {
        assert View().values == before.state.values;
        assert Now().cells == before.cells;
        AfterNothing(before);
      }
    }

    method AddUnknown(arg: string)
      requires Valid()
      modifies this`unknownOptions
      ensures Valid() && options == old(options) && Cells() == old(Cells())
      ensures Now() == AfterEvents(old(Now()), [UnknownOption(arg)])
    {
      ApplyUnknown(View(), arg);
      AfterLeftovers(Now(), [UnknownOption(arg)]);
      unknownOptions := unknownOptions + [arg];
      SameOptions();
    }

    method AddNonOption(arg: string)
      requires Valid()
      modifies this`nonOptionArgs
      ensures Valid() && options == old(options) && Cells() == old(Cells())
      ensures Now() == AfterEvents(old(Now()), [NonOption(arg)])
    {
      assert NonOptionEvents([arg]) == [NonOption(arg)];
      ApplyNonOptions(View(), [arg]);
      AfterLeftovers(Now(), [NonOption(arg)]);
      nonOptionArgs := nonOptionArgs + [arg];
      SameOptions();
    }

    /** Every option agrees with its variable. */
    ghost predicate AllBound()
      reads this, options, Cells()
    {
      forall k :: 0 <= k < |options| ==> BoundAt(k)
    }

    ghost predicate BoundAt(k: nat)
      requires k < |options|
      reads this, options, Cells()
    {
      assert options[k].assignTo == Bindings()[k];
      options[k].Bound()
    }

    lemma AllBoundIsAgreement()
      ensures AllBound() <==> Agrees(Now())
    {
      forall k | 0 <= k < |options|
        ensures BoundAt(k) <==> AgreesAt(Now(), k)
      {
        assert options[k].assignTo == Bindings()[k];
      }
    }

    /** find_option, with inactive options taken for absent. */
    method ActiveLong(name: string) returns (r: Option<nat>)
      ensures r == Active(Specs(), FindLong(Specs(), name))
      ensures r.Some? ==> r.value < |options|
    {
      r := FindLongOption(name);
      if r.Some? && options[r.value].attribute == Inactive {
        r := None;
      }
    }

    method ActiveShort(name: char) returns (r: Option<nat>)
      ensures r == Active(Specs(), FindShort(Specs(), name))
      ensures r.Some? ==> r.value < |options|
    {
      r := FindShortOption(name);
      if r.Some? && options[r.value].attribute == Inactive {
        r := None;
      }
    }

    /** The option that `--name` or `--name=value` goes to, if any, its argument, and the position of the
        next token. */
    method LongTarget(argv: seq<string>, n: nat, ghost specs: seq<OptionSpec>)
      returns (option: Option<nat>, optarg: string, next: nat)
      requires n < |argv| && IsLong(argv[n]) && specs == Specs()
      ensures option.Some? ==> option.value < |options|
      ensures n + 1 <= next <= n + 2
      ensures LongStep(specs, argv[n], Following(argv, n)) == Step(Given(specs, option, optarg, argv[n]), next == n + 2)
    {
      var opt := argv[n][2..];
      optarg := "";
      var equalIdx := IndexOf(opt, '=');
      if equalIdx < |opt| {
        optarg := opt[equalIdx + 1..];
      }
      opt := opt[..equalIdx];
      option := ActiveLong(opt);
      next := n + 1;
      if option.Some? {
        if options[option.value].kind == Switch {
          if optarg != "" {
            option := None;
          }
        } else if options[option.value].kind == Value {
          if optarg == "" && n + 1 < |argv| {
            optarg, next := argv[n + 1], n + 2;
          }
        }
      }
    }

    /** The branch for `--name` and `--name=value`. */
    method LongArgument(argv: seq<string>, n: nat) returns (next: nat, ok: bool)
      requires Valid() && n < |argv| && IsLong(argv[n])
      modifies this`unknownOptions, options, Cells()
      ensures Valid() && options == old(options) && Cells() == old(Cells())
      ensures
        var s := LongStep(old(Specs()), argv[n], Following(argv, n));
        && ok == !s.outcome.thrown
        && next == (if s.tookNext then n + 2 else n + 1)
        && Now() == AfterEvents(old(Now()), s.outcome.events)
    {
      ghost var before := Now();
      ghost var step := LongStep(before.specs, argv[n], Following(argv, n));
      var option, optarg, position := LongTarget(argv, n, before.specs);
      assert Now() == before;
      next := position;
      ok := Give(option, optarg, argv[n], step.outcome);
    }

    /** The option takes the argument, or the token is unknown. */
    method Give(option: Option<nat>, optarg: string, token: string, ghost given: Outcome) returns (ok: bool)
      requires Valid() && (option.Some? ==> option.value < |options|)
      requires given == Given(Specs(), option, optarg, token)
      modifies this`unknownOptions, options, Cells()
      ensures Valid() && options == old(options) && Cells() == old(Cells())
      ensures ok == !given.thrown && Now() == AfterEvents(old(Now()), given.events)
    {
      ok := true;
      if option.Some? {
        ok := StoreValue(option.value, optarg);
      } else {
        AddUnknown(token);
      }
    }

    /** The option that the character at m of `-abc` goes to, if any, its argument, the next character to
        look at, and the position of the next token. */
    method LetterTarget(argv: seq<string>, n: nat, opt: string, m: nat, ghost specs: seq<OptionSpec>)
      returns (option: Option<nat>, optarg: string, k: nat, next: nat)
      requires n < |argv| && m < |opt| && specs == Specs()
      ensures option.Some? ==> option.value < |options| == |specs|
      ensures m < k <= |opt| && n + 1 <= next <= n + 2 && (k < |opt| ==> next == n + 1)
      ensures
        var f := Following(argv, n);
        var here, rest := ScanShort(specs, opt[m..], f), ScanShort(specs, opt[k..], f);
        if option.None? then Follows(here, [], true, next == n + 2, rest)
        else
          var stored := Store(specs, option.value, optarg);
          if stored.thrown then here == Scan(stored, false, next == n + 2)
          else Follows(here, stored.events, false, next == n + 2, rest)
    {
      option := ActiveShort(opt[m]);
      optarg, k, next := "", m + 1, n + 1;
      assert opt[m..][1..] == opt[m + 1..];
      if option.Some? {
        if options[option.value].kind == Value {
          optarg := opt[m + 1..];
          if optarg == "" && n + 1 < |argv| {
            optarg, next := argv[n + 1], n + 2;
          }
          k := |opt|;
        } else if options[option.value].kind == Implicit {
          optarg, k := opt[m + 1..], |opt|;
        }
      }
    }

    /** One character of `-abc`, at m; the next one to look at is k. */
    method Letter(argv: seq<string>, n: nat, opt: string, m: nat)
      returns (k: nat, next: nat, unknown: bool, ok: bool, ghost events: seq<Event>)
      requires Valid() && n < |argv| && m < |opt|
      modifies options, Cells()
      ensures Valid() && options == old(options) && Cells() == old(Cells())
      ensures m < k <= |opt| && n + 1 <= next <= n + 2 && (k < |opt| ==> next == n + 1)
      ensures Now() == AfterEvents(old(Now()), events)
      ensures
        var f := Following(argv, n);
        var here, rest := ScanShort(old(Specs()), opt[m..], f), ScanShort(old(Specs()), opt[k..], f);
        if ok then Follows(here, events, unknown, next == n + 2, rest)
        else events == [] && here == Scan(Outcome([], true), false, next == n + 2)
    {
      ghost var before := Now();
      var option, optarg, after, position := LetterTarget(argv, n, opt, m, before.specs);
      assert Now() == before;
      k, next := after, position;
      if option.Some? {
        ghost var stored := Store(before.specs, option.value, optarg);
        ok := StoreValue(option.value, optarg);
        unknown, events := false, stored.events;
      } else {
        ok, unknown, events := true, true, [];
        AfterNothing(before);
      }
    }

    /** The branch for `-abc`. */
    method ShortArgument(argv: seq<string>, n: nat) returns (next: nat, ok: bool)
      requires Valid() && n < |argv| && IsShort(argv[n])
      modifies this`unknownOptions, options, Cells()
      ensures Valid() && options == old(options) && Cells() == old(Cells())
      ensures
        var s := ShortStep(old(Specs()), argv[n], Following(argv, n));
        && ok == !s.outcome.thrown
        && next == (if s.tookNext then n + 2 else n + 1)
        && Now() == AfterEvents(old(Now()), s.outcome.events)
    {
      var opt, unknown, m := argv[n][1..], false, 0;
      next, ok := n + 1, true;
      ghost var before, f, done := Now(), Following(argv, n), [];
      ghost var all := ScanShort(before.specs, opt, f);
      AfterNothing(before);
      assert opt[0..] == opt && [] + all.stores.events == all.stores.events;
      while m < |opt|
        invariant m <= |opt| && Valid() && options == old(options) && Cells() == old(Cells())
        invariant Now() == AfterEvents(before, done)
        invariant n + 1 <= next <= n + 2 && (m < |opt| ==> next == n + 1)
        invariant Follows(all, done, unknown, next == n + 2, ScanShort(before.specs, opt[m..], f))
        decreases |opt| - m
      {
        ghost var events;
        var k, passed;
        k, next, passed, ok, events := Letter(argv, n, opt, m);
        AfterConcat(before, done, events);
        if !ok {
          assert done + [] == done;
          return;
        }
        FollowsOn(all, done, unknown, events, passed, next == n + 2, ScanShort(before.specs, opt[k..], f));
        done, unknown, m := done + events, unknown || passed, k;
      }
      assert done + [] == done;
      if unknown {
        AddUnknown(argv[n]);
        AfterConcat(before, done, [UnknownOption(argv[n])]);
      }
    }

    /** The branch for `--`: the inner loop has no effect on n, so the tokens are parsed again. */
    method CollectRest(argv: seq<string>, n: nat)
      requires Valid() && n < |argv|
      modifies this`nonOptionArgs
      ensures Valid() && options == old(options) && Cells() == old(Cells())
      ensures Now() == AfterEvents(old(Now()), NonOptionEvents(argv[n + 1..]))
    {
      for m := n + 1 to |argv|
        invariant nonOptionArgs == old(nonOptionArgs) + argv[n + 1..m]
      {
        assert argv[n + 1..m + 1] == argv[n + 1..m] + [argv[m]];
        nonOptionArgs := nonOptionArgs + [argv[m]];
      }
      assert argv[n + 1..|argv|] == argv[n + 1..];
      ApplyNonOptions(old(View()), argv[n + 1..]);
      AfterLeftovers(old(Now()), NonOptionEvents(argv[n + 1..]));
      SameOptions();
    }

    /** One round of the argv loop. */
    method Token(argv: seq<string>, n: nat) returns (next: nat, ok: bool)
      requires Valid() && n < |argv|
      modifies this`nonOptionArgs, this`unknownOptions, options, Cells()
      ensures Valid() && options == old(options) && Cells() == old(Cells())
      ensures
        var s := StepAt(old(Specs()), argv, n);
        && ok == !s.outcome.thrown
        && next == (if s.tookNext then n + 2 else n + 1)
        && Now() == AfterEvents(old(Now()), s.outcome.events)
    {
      next, ok := n + 1, true;
      if argv[n] == "--" {
        CollectRest(argv, n);
      } else if IsLong(argv[n]) {
        next, ok := LongArgument(argv, n);
      } else if IsShort(argv[n]) {
        next, ok := ShortArgument(argv, n);
      } else {
        AddNonOption(argv[n]);
      }
    }

    /** parse(argc, argv). An exception leaves what was stored before it. Every bound variable, shared or
        not, ends up with the value stored last by an option bound to it, or with what it held; and those
        that are not shared agree with their options if they did before. */
    method Parse(argv: seq<string>) returns (exit: Exit)
      requires Valid()
      modifies this`nonOptionArgs, this`unknownOptions, options, Cells()
      ensures Valid() && options == old(options) && Cells() == old(Cells())
      ensures
        var p := ParseFrom(old(Specs()), argv, 1);
        && Now() == AfterEvents(old(Now()), p.events)
        && exit == ExitOf(Specs(), View().values, p.thrown)
      ensures Unshared(Bindings()) && old(AllBound()) ==> AllBound()
      ensures old(View()) == Fresh(|options|) ==> (View(), exit) == FirstParse(old(Specs()), argv)
      ensures MeansParse(old(Now()), argv, Now(), exit)
    {
      ghost var before := Now();
      AllBoundIsAgreement();
      ParseMeans(before, argv);
      var ok := ArgvLoop(argv);
      if Unshared(before.bindings) && Agrees(before) {
        AgreementIsKept(before, ParseFrom(before.specs, argv, 1).events);
      }
      AllBoundIsAgreement();
      if !ok {
        return InvalidArgument;
      }
      for k := 0 to |options|
        invariant FirstMissing(Specs(), View().values) == MissingFrom(Specs(), View().values, k)
      {
        if options[k].attribute == Required && options[k].values == [] {
          return MissingOption(k);
        }
      }
      return Normal;
    }

    /** The loop over argv. */
    method ArgvLoop(argv: seq<string>) returns (ok: bool)
      requires Valid()
      modifies this`nonOptionArgs, this`unknownOptions, options, Cells()
      ensures Valid() && options == old(options) && Cells() == old(Cells())
      ensures
        var p := ParseFrom(old(Specs()), argv, 1);
        ok == !p.thrown && Now() == AfterEvents(old(Now()), p.events)
    {
      var n := 1;
      ok := true;
      ghost var before, done := Now(), [];
      ghost var all := ParseFrom(before.specs, argv, 1);
      AfterNothing(before);
      assert [] + all.events == all.events;
      while n < |argv|
        invariant 1 <= n && Valid() && options == old(options) && Cells() == old(Cells())
        invariant Now() == AfterEvents(before, done)
        invariant Remains(all, done, ParseFrom(before.specs, argv, n))
        decreases |argv| - n
      {
        ghost var step := StepAt(before.specs, argv, n);
        ParseStep(before.specs, argv, n);
        var next;
        next, ok := Token(argv, n);
        AfterConcat(before, done, step.outcome.events);
        if !ok {
          return;
        }
        RemainsOn(all, done, step.outcome.events, ParseFrom(before.specs, argv, next));
        done, n := done + step.outcome.events, next;
      }
      assert done + [] == done;
    }

    /** Every bound variable takes the default of the last option bound to it that has one; those that are
        not shared agree with their options, whatever they held. */
    method Reset()
      requires Valid()
      modifies this`nonOptionArgs, this`unknownOptions, options, Cells()
      ensures Valid() && options == old(options) && Cells() == old(Cells())
      ensures Now() == AfterReset(old(Now()))
      ensures Unshared(Bindings()) ==> AllBound()
      ensures forall c :: c in Cells() && Undefaulted(old(Now()), c) ==> c.v == old(c.v)
    {
      ghost var before := Now();
      unknownOptions, nonOptionArgs := [], [];
      SameOptions();
      ghost var bare := Now();
      ClearOptions();
      ClearedAll(before, bare);
      UndefaultedAreKept(before);
      assert forall c :: c in Cells() ==> Now().cells[c] == c.v;
      if Unshared(before.bindings) {
        ResetMakesAgree(before);
      }
      AllBoundIsAgreement();
    }

    /** The loop of reset. */
    method ClearOptions()
      requires Valid()
      modifies options, Cells()
      ensures Valid() && options == old(options) && Cells() == old(Cells())
      ensures Now() == Cleared(old(Now()), |options|)
    {
      ghost var before := Now();
      ClearedNone(before);
      for k := 0 to |options|
        invariant Valid() && options == old(options) && Cells() == old(Cells())
        invariant Now() == Cleared(before, k)
      {
        ClearAt(k);
        ClearedStep(before, k);
      }
    }

    /** A caller's own call on one of the options: it changes that option and its variable as the call says,
        and nothing else. */
    method CallOption(k: nat, call: Call)
      requires Valid() && k < |options| && !call.AssignTo?
      modifies options, Cells()
      ensures Valid() && options == old(options) && Cells() == old(Cells())
      ensures Now() == AfterCall(old(Now()), k, call)
      ensures Unshared(Bindings()) && old(AllBound()) ==> AllBound()
    {
      ghost var before := Now();
      AllBoundIsAgreement();
      PerformAt(k, call);
      if Unshared(before.bindings) && Agrees(before) {
        AgreementAfterCall(before, k, call);
      }
      AllBoundIsAgreement();
    }

    method PerformAt(k: nat, call: Call)
      requires Valid() && k < |options| && !call.AssignTo?
      modifies options, Cells()
      ensures Valid() && options == old(options) && Cells() == old(Cells())
      ensures Now() == AfterCall(old(Now()), k, call)
    {
      ghost var before := Now();
      assert options[k].assignTo == Bindings()[k];
      assert HistoryOf(options[k], Cells()) == HistoryAt(before, k);
      Perform(options[k], call, Cells());
      SameBindings();
      assert Specs() == AfterCall(before, k, call).specs;
      assert View().values == AfterCall(before, k, call).state.values;
      assert Now().cells == Contents(Cells());
    }

    /** Names never change. */
    twostate lemma SameBindings()
      requires options == old(options) && old(Valid())
      requires forall i :: 0 <= i < |options| ==> options[i].assignTo == old(options[i].assignTo)
      ensures Valid() && Bindings() == old(Bindings())
    {
      var specs, before := Specs(), old(Specs());
      forall i, j | 0 <= i < j < |specs|
        ensures Compatible(specs[i], specs[j])
      {
        assert Compatible(before[i], before[j]);
      }
      assert Bindings() == old(Bindings());
    }

    /** clear of one option. */
    method ClearAt(k: nat)
      requires Valid() && k < |options|
      modifies options, Cells()
      ensures Valid() && options == old(options) && Cells() == old(Cells())
      ensures Now() == ClearOne(old(Now()), k)
    {
      ghost var before := Now();
      assert options[k].assignTo == Bindings()[k];
      options[k].Clear();
      OneOption(k);
      assert Now().cells == ClearOne(before, k).cells;
    }

    /** reset and then parse: the values, the leftovers and the exit are those of a parser with the same
        options that has never parsed, whatever this one has parsed before. */
    method ResetAndParse(argv: seq<string>) returns (exit: Exit)
      requires Valid()
      modifies this`nonOptionArgs, this`unknownOptions, options, Cells()
      ensures Valid() && options == old(options) && Cells() == old(Cells())
      ensures
        var p := ParseFrom(old(Specs()), argv, 1);
        && Now() == AfterEvents(AfterReset(old(Now())), p.events)
        && exit == ExitOf(Specs(), View().values, p.thrown)
      ensures (View(), exit) == FirstParse(old(Specs()), argv)
      ensures Unshared(Bindings()) ==> AllBound()
    {
      Reset();
      exit := Parse(argv);
    }
  }

  // ---------------------------------------------------------------------------------------------
  // Any sequence of calls on the parser and on its options

  datatype Use = OnOption(index: nat, call: Call) | OnParser(argv: seq<string>) | Reset

  predicate Binds(u: Use) {
    u.OnOption? && u.call.AssignTo?
  }

  /** What one call leaves behind; none of them binds a variable anew. */
  ghost function AfterUse(s: Snapshot, u: Use): (r: Snapshot)
    requires Complete(s) && (u.OnOption? ==> u.index < |s.specs|) && !Binds(u)
    ensures Complete(r) && |r.specs| == |s.specs|
  {
    match u
    case OnOption(k, call) => AfterCall(s, k, call)
    case OnParser(argv) => AfterEvents(s, ParseFrom(s.specs, argv, 1).events)
    case Reset => AfterReset(s)
  }

  ghost predicate Usable(uses: seq<Use>, n: nat) {
    forall i :: 0 <= i < |uses| ==> (uses[i].OnOption? ==> uses[i].index < n) && !Binds(uses[i])
  }

  ghost function AfterUses(s: Snapshot, uses: seq<Use>): (r: Snapshot)
    requires Complete(s) && Usable(uses, |s.specs|)
    ensures Complete(r) && |r.specs| == |s.specs|
  {
    if uses == [] then s else AfterUse(AfterUses(s, uses[..|uses| - 1]), uses[|uses| - 1])
  }

  method UseOnce(p: OptionParser, u: Use)
    requires p.Valid() && (u.OnOption? ==> u.index < |p.options|) && !Binds(u)
    modifies p`nonOptionArgs, p`unknownOptions, p.options, p.Cells()
    ensures p.Valid() && p.options == old(p.options) && p.Bindings() == old(p.Bindings())
    ensures p.Now() == AfterUse(old(p.Now()), u)
    ensures Unshared(p.Bindings()) && old(p.AllBound()) ==> p.AllBound()
  {
    match u
    case OnParser(argv) => var _ := p.Parse(argv);
    case Reset => p.Reset();
    case OnOption(k, call) => p.CallOption(k, call);
  }

  /** Parses, resets and calls on single options, mixed in any way, leave exactly what they leave one after
      another; and a variable that no two options share holds its option's last value, or else its default if
      there is one, whenever it did so before. */
  method Session(p: OptionParser, uses: seq<Use>)
    requires p.Valid() && Usable(uses, |p.options|)
    modifies p`nonOptionArgs, p`unknownOptions, p.options, p.Cells()
    ensures p.Valid() && p.options == old(p.options)
    ensures p.Now() == AfterUses(old(p.Now()), uses)
    ensures Unshared(p.Bindings()) && old(p.AllBound()) ==> p.AllBound()
  {
    ghost var before := p.Now();
    for i := 0 to |uses|
      invariant p.Valid() && p.options == old(p.options) && p.Bindings() == old(p.Bindings())
      invariant p.Now() == AfterUses(before, uses[..i])
      invariant Unshared(p.Bindings()) && old(p.AllBound()) ==> p.AllBound()
    {
      assert uses[..i + 1][..i] == uses[..i];
      UseOnce(p, uses[i]);
    }
    assert uses[..|uses|] == uses;
  }

  /** Each option gains what it makes of the texts that the groups write for it, a string option the texts
      themselves. */
  ghost predicate AllGain(specs: seq<OptionSpec>, groups: seq<Group>, before: seq<seq<Val>>, after: seq<seq<Val>>)
    requires |before| == |after| == |specs|
  {
    forall k :: 0 <= k < |specs| ==>
      && Gains(specs[k], TextsInAll(groups, k), before[k], after[k])
      && (specs[k].kind == Value && specs[k].vtype.StringType? ==> after[k] == before[k] + AsText(TextsInAll(groups, k)))
  }

  lemma GroupsGain(specs: seq<OptionSpec>, groups: seq<Group>, s: State)
    requires AllProper(specs, groups) && |s.values| == |specs|
    ensures AllGain(specs, groups, s.values, Apply(s, MeaningOfAll(specs, groups)).values)
  {
    var t := Apply(s, MeaningOfAll(specs, groups));
    forall k | 0 <= k < |specs|
      ensures Gains(specs[k], TextsInAll(groups, k), s.values[k], t.values[k])
      ensures specs[k].kind == Value && specs[k].vtype.StringType? ==>
        t.values[k] == s.values[k] + AsText(TextsInAll(groups, k))
    {
      GroupsDenote(specs, groups, k);
      assert t.values[k][|s.values[k]|..] == ValuesOf(MeaningOfAll(specs, groups), k);
      if specs[k].kind == Value && specs[k].vtype.StringType? {
        StringsAreStored(specs, groups, k);
      }
    }
  }

  lemma LineGives(specs: seq<OptionSpec>, line: seq<string>, program: string, groups: seq<Group>, s: State)
    requires UniqueNames(specs) && AllProper(specs, groups) && line == [program] + RenderAll(specs, groups)
    requires |s.values| == |specs|
    ensures
      var p := ParseFrom(specs, line, 1);
      var t := Apply(s, p.events);
      !p.thrown && t.nonOptions == s.nonOptions && t.unknown == s.unknown && AllGain(specs, groups, s.values, t.values)
  {
    ParsesToMeaning(specs, program, groups);
    MeaningLeavesNothing(specs, groups);
    GroupsGain(specs, groups, s);
  }

  /** One way of writing a command line, parsed: each option gains what it makes of the texts that the line
      writes for it, a string option the texts themselves, and nothing is left over. So lines that write the
      same for each option, however spelled and interleaved, leave the same values and return alike. */
  method ParseGroups(p: OptionParser, line: seq<string>, ghost program: string, ghost groups: seq<Group>)
    returns (exit: Exit)
    requires p.Valid() && AllProper(p.Specs(), groups) && line == [program] + RenderAll(p.Specs(), groups)
    modifies p`nonOptionArgs, p`unknownOptions, p.options, p.Cells()
    ensures p.Valid() && p.options == old(p.options)
    ensures AllGain(old(p.Specs()), groups, old(p.View()).values, p.View().values)
    ensures p.nonOptionArgs == old(p.nonOptionArgs) && p.unknownOptions == old(p.unknownOptions)
    ensures exit == FirstMissing(old(p.Specs()), p.View().values)
  {
    LineGives(p.Specs(), line, program, groups, p.View());
    exit := p.Parse(line);
  }

  function Given(specs: seq<OptionSpec>, option: Option<nat>, optarg: string, token: string): Outcome
    requires option.Some? ==> option.value < |specs|
  {
    if option.Some? then Store(specs, option.value, optarg) else Outcome([UnknownOption(token)], false)
  }

  /** A parse is what has been done of it and then the rest. */
  predicate Remains(all: Outcome, done: seq<Event>, rest: Outcome) {
    all == Outcome(done + rest.events, rest.thrown)
  }

  lemma RemainsOn(all: Outcome, done: seq<Event>, events: seq<Event>, rest: Outcome)
    requires Remains(all, done, Outcome(events + rest.events, rest.thrown))
    ensures Remains(all, done + events, rest)
  {
    Assoc(done, events, rest.events);
  }

  /** A scan is what has been done of it and then the rest. */
  predicate Follows(all: Scan, done: seq<Event>, unknown: bool, took: bool, rest: Scan) {
    all == Scan(Outcome(done + rest.stores.events, rest.stores.thrown), unknown || rest.unknown, took || rest.tookNext)
  }

  lemma FollowsOn(all: Scan, done: seq<Event>, unknown: bool, events: seq<Event>, passed: bool, took: bool, rest: Scan)
    requires
      var stores := Outcome(events + rest.stores.events, rest.stores.thrown);
      var after := Scan(stores, passed || rest.unknown, took || rest.tookNext);
      Follows(all, done, unknown, false, after)
    ensures Follows(all, done + events, unknown || passed, took, rest)
  {
    Assoc(done, events, rest.stores.events);
  }

  lemma TakenName(specs: seq<OptionSpec>, s: OptionSpec, i: nat)
    requires i < |specs| && !Compatible(specs[i], s)
    ensures !UniqueNames(specs + [s])
  {
    assert (specs + [s])[i] == specs[i] && (specs + [s])[|specs|] == s;
  }

  lemma FreshName(specs: seq<OptionSpec>, s: OptionSpec)
    requires UniqueNames(specs) && forall i :: 0 <= i < |specs| ==> Compatible(specs[i], s)
    ensures UniqueNames(specs + [s])
  {
  }
}
