/** One popl option with its values and its bound variable, over any sequence of calls. */
module OptionValues {
  import opened Fifo
  import opened Arguments

  /** A variable of the caller that an option is bound to. */
  class Cell {
    var v: Val

    constructor (v: Val)
      ensures this.v == v
    {
      this.v := v;
    }
  }

  /** What a bound variable holds once the option has updated it. */
  function Reflected(values: seq<Val>, default: Option<Val>, before: Val): Val {
    if values != [] then values[|values| - 1] else if default.Some? then default.value else before
  }

  /** Value<T>, Implicit<T> or Switch, by `kind`. */
  class ValueOption {
    const short: char
    const long: string
    const attribute: Attribute
    const kind: Kind
    const vtype: ValueType
    var values: seq<Val>
    var default: Option<Val>
    var assignTo: Cell?

    function Spec(): OptionSpec
      reads this
    {
      OptionSpec(short, long, attribute, kind, vtype, default)
    }

    /** The bound variable holds the last value, or else the default if there is one. */
    ghost predicate Bound()
      reads this, assignTo
    {
      assignTo != null ==> assignTo.v == Reflected(values, default, assignTo.v)
    }

    constructor (short: char, long: string, attribute: Attribute, kind: Kind, vtype: ValueType, default: Option<Val>)
      ensures Spec() == OptionSpec(short, long, attribute, kind, vtype, default)
      ensures values == [] && assignTo == null && Bound()
    {
      this.short, this.long, this.attribute, this.kind, this.vtype := short, long, attribute, kind, vtype;
      this.default := default;
      values := [];
      assignTo := null;
    }

    method UpdateReference()
      modifies assignTo
      ensures assignTo != null && values != [] ==> assignTo.v == values[|values| - 1]
      ensures assignTo != null && values == [] && default.Some? ==> assignTo.v == default.value
      ensures assignTo != null && values == [] && default.None? ==> assignTo.v == old(assignTo.v)
    {
      if assignTo != null {
        if values == [] && default.Some? {
          assignTo.v := default.value;
        } else if values != [] {
          assignTo.v := values[|values| - 1];
        }
      }
    }

    method AssignTo(cell: Cell)
      modifies this`assignTo, cell
      ensures assignTo == cell && cell.v == Reflected(values, default, old(cell.v)) && Bound()
    {
      assignTo := cell;
      UpdateReference();
    }

    method AddValue(v: Val)
      modifies this`values, assignTo
      ensures values == old(values) + [v] && Bound()
    {
      values := values + [v];
      UpdateReference();
    }

    /** Without a default the bound variable keeps what it had. */
    method Clear()
      modifies this`values, assignTo
      ensures values == [] && Bound()
      ensures assignTo != null ==> assignTo.v == Reflected([], default, old(assignTo.v))
    {
      values := [];
      UpdateReference();
    }

    method SetValue(v: Val)
      modifies this`values, assignTo
      ensures values == [v] && Bound()
    {
      Clear();
      AddValue(v);
    }

    method SetDefault(v: Val)
      modifies this`default, assignTo
      ensures default == Some(v) && Bound()
    {
      default := Some(v);
      UpdateReference();
    }

    /** Option::parse; on an exception nothing changes. A switch stores true, an implicit option without an
        argument its default, and anything else what the text says in its type. */
    method Parse(arg: string) returns (ok: bool)
      modifies this`values, assignTo
      ensures ok == Accept(Spec(), arg).Some?
      ensures values == if ok then old(values) + [Accept(Spec(), arg).value] else old(values)
      ensures kind == Switch ==> ok && values == old(values) + [Flag(true)]
      ensures kind == Implicit && arg == "" ==> ok == default.Some? && (ok ==> values == old(values) + [default.value])
      ensures kind == Value || (kind == Implicit && arg != "") ==>
        match vtype
        case StringType => ok == (arg != "") && (ok ==> values == old(values) + [Text(arg)])
        case BoolType => ok && values == old(values) + [Flag(arg in {"1", "true", "True", "TRUE"})]
        case StreamType(read) =>
          ok == (arg != "" && read(arg).Some?) && (ok ==> values == old(values) + [read(arg).value])
      ensures !ok && assignTo != null ==> assignTo.v == old(assignTo.v)
      ensures ok || old(Bound()) ==> Bound()
    {
      var r := Accept(Spec(), arg);
      ok := r.Some?;
      if ok {
        AddValue(r.value);
      }
    }

    /** value(idx): the first value by default, while the bound variable holds the last. */
    method Get(idx: nat) returns (r: Option<Val>)
      ensures r == if values == [] && default.Some? then default else if idx < |values| then Some(values[idx]) else None
      ensures Bound() && idx == 0 && assignTo != null && r.Some? ==>
        (assignTo.v == r.value <==> values == [] || values[0] == values[|values| - 1])
    {
      if values == [] && default.Some? {
        r := default;
      } else if idx >= |values| {
        r := None;
      } else {
        r := Some(values[idx]);
      }
    }
  }

  // ---------------------------------------------------------------------------------------------
  // Any sequence of calls on one option

  datatype Call = SetValue(v: Val) | SetDefault(v: Val) | Parse(arg: string) | Clear | AssignTo(cell: Cell)

  /** An option's values, its default, the variable bound last, and what the variables hold. */
  datatype History = History(values: seq<Val>, default: Option<Val>, cell: Cell?, held: map<Cell, Val>)

  predicate Holds(h: History, c: Call) {
    (h.cell != null ==> h.cell in h.held) && (c.AssignTo? ==> c.cell in h.held)
  }

  function Next(spec: OptionSpec, h: History, c: Call): (next: History)
    requires Holds(h, c)
    ensures next.held.Keys == h.held.Keys && (next.cell != null ==> next.cell in next.held)
  {
    match c
    case SetValue(v) => Shown(h.(values := [v]))
    case SetDefault(v) => Shown(h.(default := Some(v)))
    case Parse(arg) =>
      var r := Accept(spec.(default := h.default), arg);
      if r.Some? then Shown(h.(values := h.values + [r.value])) else h
    case Clear => Shown(h.(values := []))
    case AssignTo(cell) => Shown(h.(cell := cell))
  }

  /** The bound variable brought up to date. */
  function Shown(h: History): History
    requires h.cell != null ==> h.cell in h.held
  {
    if h.cell == null then h
    else h.(held := h.held[h.cell := Reflected(h.values, h.default, h.held[h.cell])])
  }

  predicate AllHeld(held: map<Cell, Val>, calls: seq<Call>) {
    forall i :: 0 <= i < |calls| && calls[i].AssignTo? ==> calls[i].cell in held
  }

  function Replay(spec: OptionSpec, h: History, calls: seq<Call>): (r: History)
    requires (h.cell != null ==> h.cell in h.held) && AllHeld(h.held, calls)
    ensures r.held.Keys == h.held.Keys && (r.cell != null ==> r.cell in r.held)
  {
    if calls == [] then h else Next(spec, Replay(spec, h, calls[..|calls| - 1]), calls[|calls| - 1])
  }

  /** No values and no default. */
  predicate Unset(h: History) {
    h.values == [] && h.default.None?
  }

  /** As long as an option has neither values nor a default, no variable changes, whatever it is bound to. */
  lemma {:induction false} UnsetKeepsVariables(spec: OptionSpec, h: History, calls: seq<Call>)
    requires (h.cell != null ==> h.cell in h.held) && AllHeld(h.held, calls)
    requires forall i :: 0 <= i <= |calls| ==> Unset(Replay(spec, h, calls[..i]))
    ensures Replay(spec, h, calls).held == h.held
  {
    if calls != [] {
      var init := calls[..|calls| - 1];
      assert forall i :: 0 <= i <= |init| ==> init[..i] == calls[..i];
      UnsetKeepsVariables(spec, h, init);
      assert calls[..|calls|] == calls && Unset(Replay(spec, h, calls));
    }
  }

  ghost function Contents(cells: set<Cell>): (held: map<Cell, Val>)
    reads cells
    ensures held.Keys == cells
  {
    map c | c in cells :: c.v
  }

  ghost function HistoryOf(o: ValueOption, cells: set<Cell>): History
    reads o, cells
  {
    History(o.values, o.default, o.assignTo, Contents(cells))
  }

  /** One call of any kind; `cells` are the variables of interest. */
  method Perform(o: ValueOption, c: Call, ghost cells: set<Cell>)
    requires Holds(HistoryOf(o, cells), c)
    modifies o, o.assignTo, if c.AssignTo? then {c.cell} else {}
    ensures HistoryOf(o, cells) == Next(old(o.Spec()), old(HistoryOf(o, cells)), c)
    ensures old(o.Bound()) ==> o.Bound()
    ensures o.values == [] && o.default.None? ==> forall v :: v in cells ==> v.v == old(v.v)
  {
    match c
    case SetValue(v) => o.SetValue(v);
    case SetDefault(v) => o.SetDefault(v);
    case Parse(arg) => var _ := o.Parse(arg);
    case Clear => o.Clear();
    case AssignTo(cell) => o.AssignTo(cell);
    assert Contents(cells) == Next(old(o.Spec()), old(HistoryOf(o, cells)), c).held;
  }

  lemma ReplayStep(spec: OptionSpec, h: History, calls: seq<Call>, i: nat, default: Option<Val>)
    requires (h.cell != null ==> h.cell in h.held) && AllHeld(h.held, calls) && i < |calls|
    ensures Replay(spec, h, calls[..i + 1]) == Next(spec.(default := default), Replay(spec, h, calls[..i]), calls[i])
  {
    assert calls[..i + 1][..i] == calls[..i];
  }

  /** After any sequence of calls, in any order and with any rebinding: the values, the default, the binding
      and every variable are those of the calls replayed one by one, and the variable bound last holds
      the last value, else the default, if there is one. */
  method PerformAll(o: ValueOption, calls: seq<Call>, ghost cells: set<Cell>)
    requires (o.assignTo != null ==> o.assignTo in cells) && AllHeld(Contents(cells), calls)
    modifies o, cells
    ensures HistoryOf(o, cells) == Replay(old(o.Spec()), old(HistoryOf(o, cells)), calls)
    ensures old(o.Bound()) && o.assignTo != null && o.values != [] ==> o.assignTo.v == o.values[|o.values| - 1]
    ensures old(o.Bound()) && o.assignTo != null && o.values == [] && o.default.Some? ==> o.assignTo.v == o.default.value
  {
    ghost var spec, start := o.Spec(), HistoryOf(o, cells);
    for i := 0 to |calls|
      invariant old(o.Bound()) ==> o.Bound()
      invariant o.Spec() == spec.(default := o.default)
      invariant HistoryOf(o, cells) == Replay(spec, start, calls[..i])
    {
      ReplayStep(spec, start, calls, i, o.default);
      Perform(o, calls[i], cells);
    }
    assert calls[..|calls|] == calls;
  }
}
