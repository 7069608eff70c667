/** popl's command-line grammar: what each argv token does, for any set of options, and what a whole
    parse does. */
module Arguments {
  import opened Fifo

  // ---------------------------------------------------------------------------------------------
  // Options

  datatype Attribute = Inactive | Hidden | Required | Optional | Advanced | Expert

  datatype Val = Text(text: string) | Flag(flag: bool) | Other(id: int)

  /** T of Value<T>. For a type that is neither string nor bool, `read` is the stream extraction: no
      result if it fails, leaves part of the text or finds more than one value. */
  datatype ValueType = StringType | BoolType | StreamType(read: string -> Option<Val>)

  datatype Kind = Value | Implicit | Switch

  /** `short` is NUL for an option without a short name. */
  datatype OptionSpec = OptionSpec(
    short: char, long: string, attribute: Attribute, kind: Kind, vtype: ValueType, default: Option<Val>)

  /** Neither name of one is a name of the other. */
  predicate Compatible(a: OptionSpec, b: OptionSpec) {
    && (a.short == b.short ==> a.short == '\0')
    && (a.long == b.long ==> a.long == "")
  }

  /** What OptionParser::add guarantees. */
  predicate UniqueNames(opts: seq<OptionSpec>) {
    forall i, j :: 0 <= i < j < |opts| ==> Compatible(opts[i], opts[j])
  }

  /** Value<T>::parse; None is a thrown invalid_option. */
  function Convert(t: ValueType, arg: string): Option<Val> {
    match t
    case StringType => if arg == "" then None else Some(Text(arg))
    case BoolType => Some(Flag(arg == "1" || arg == "true" || arg == "True" || arg == "TRUE"))
    case StreamType(read) => if arg == "" then None else read(arg)
  }

  /** Option::parse for each kind. */
  function Accept(o: OptionSpec, arg: string): Option<Val> {
    match o.kind
    case Switch => Some(Flag(true))
    case Implicit => if arg == "" then o.default else Convert(o.vtype, arg)
    case Value => Convert(o.vtype, arg)
  }

  /** find_option: the first match. */
  function FindLong(opts: seq<OptionSpec>, name: string): (r: Option<nat>)
    ensures r.Some? ==> r.value < |opts| && opts[r.value].long == name
    ensures r.Some? ==> forall i :: 0 <= i < r.value ==> opts[i].long != name
    ensures r.None? ==> forall i :: 0 <= i < |opts| ==> opts[i].long != name
  {
    if opts == [] then None
    else if opts[0].long == name then Some(0)
    else match FindLong(opts[1..], name)
      case None => None
      case Some(k) => Some(k + 1)
  }

  function FindShort(opts: seq<OptionSpec>, name: char): (r: Option<nat>)
    ensures r.Some? ==> r.value < |opts| && opts[r.value].short == name
    ensures r.Some? ==> forall i :: 0 <= i < r.value ==> opts[i].short != name
    ensures r.None? ==> forall i :: 0 <= i < |opts| ==> opts[i].short != name
  {
    if opts == [] then None
    else if opts[0].short == name then Some(0)
    else match FindShort(opts[1..], name)
      case None => None
      case Some(k) => Some(k + 1)
  }

  /** Inactive options are as good as absent. */
  function Active(opts: seq<OptionSpec>, found: Option<nat>): (r: Option<nat>)
    requires found.Some? ==> found.value < |opts|
    ensures r.Some? ==> r == found
  {
    if found.Some? && opts[found.value].attribute == Inactive then None else found
  }

  // ---------------------------------------------------------------------------------------------
  // What one parse does, as a list of events

  datatype Event = Stored(index: nat, value: Val) | NonOption(arg: string) | UnknownOption(arg: string)

  /** `thrown`: an invalid_option left parse after these events. */
  datatype Outcome = Outcome(events: seq<Event>, thrown: bool)

  function Store(opts: seq<OptionSpec>, k: nat, arg: string): Outcome
    requires k < |opts|
  {
    match Accept(opts[k], arg)
    case None => Outcome([], true)
    case Some(v) => Outcome([Stored(k, v)], false)
  }

  function IndexOf(s: string, c: char): (i: nat)
    ensures i <= |s| && c !in s[..i] && (i < |s| ==> s[i] == c)
  {
    if s == "" then 0 else if s[0] == c then 0 else IndexOf(s[1..], c) + 1
  }

  /** `--name=value` without its dashes, cut at the first `=`. */
  function LongName(body: string): string {
    body[..IndexOf(body, '=')]
  }

  function LongValue(body: string): string {
    var i := IndexOf(body, '=');
    if i < |body| then body[i + 1..] else ""
  }

  predicate IsLong(arg: string) {
    |arg| >= 2 && arg[..2] == "--" && arg != "--"
  }

  predicate IsShort(arg: string) {
    |arg| >= 1 && arg[0] == '-' && !IsLong(arg) && arg != "--"
  }

  function Following(args: seq<string>, n: nat): Option<string> {
    if n + 1 < |args| then Some(args[n + 1]) else None
  }

  /** A token's events, and whether it used the token after it. */
  datatype Step = Step(outcome: Outcome, tookNext: bool)

  function LongStep(opts: seq<OptionSpec>, arg: string, following: Option<string>): Step
    requires IsLong(arg)
  {
    var body := arg[2..];
    var name, optarg := LongName(body), LongValue(body);
    var unknown := Step(Outcome([UnknownOption(arg)], false), false);
    match Active(opts, FindLong(opts, name))
    case None => unknown
    case Some(k) =>
      if opts[k].kind == Switch && optarg != "" then unknown
      else if opts[k].kind == Value && optarg == "" && following.Some? then Step(Store(opts, k, following.value), true)
      else Step(Store(opts, k, optarg), false)
  }

  /** The characters of a short token from some position on. */
  datatype Scan = Scan(stores: Outcome, unknown: bool, tookNext: bool)

  function ScanShort(opts: seq<OptionSpec>, s: string, following: Option<string>): Scan {
    if s == "" then Scan(Outcome([], false), false, false)
    else match Active(opts, FindShort(opts, s[0]))
      case None => ScanShort(opts, s[1..], following).(unknown := true)
      case Some(k) =>
        match opts[k].kind
        case Value =>
          if s[1..] == "" && following.Some? then Scan(Store(opts, k, following.value), false, true)
          else Scan(Store(opts, k, s[1..]), false, false)
        case Implicit => Scan(Store(opts, k, s[1..]), false, false)
        case Switch =>
          var rest := ScanShort(opts, s[1..], following);
          rest.(stores := Outcome([Stored(k, Flag(true))] + rest.stores.events, rest.stores.thrown))
  }

  /** An unknown character is reported once, after the whole token, and not at all if it throws. */
  function ShortStep(opts: seq<OptionSpec>, arg: string, following: Option<string>): Step
    requires IsShort(arg)
  {
    var r := ScanShort(opts, arg[1..], following);
    if r.unknown && !r.stores.thrown
    then Step(Outcome(r.stores.events + [UnknownOption(arg)], false), r.tookNext)
    else Step(r.stores, r.tookNext)
  }

  function NonOptionEvents(args: seq<string>): (events: seq<Event>)
    ensures |events| == |args|
  {
    seq(|args|, i requires 0 <= i < |args| => NonOption(args[i]))
  }

  function StepAt(opts: seq<OptionSpec>, args: seq<string>, n: nat): Step
    requires n < |args|
  {
    if args[n] == "--" then Step(Outcome(NonOptionEvents(args[n + 1..]), false), false)
    else if IsLong(args[n]) then LongStep(opts, args[n], Following(args, n))
    else if IsShort(args[n]) then ShortStep(opts, args[n], Following(args, n))
    else Step(Outcome([NonOption(args[n])], false), false)
  }

  function Steps(opts: seq<OptionSpec>, args: seq<string>): (steps: seq<Step>)
    ensures |steps| == |args|
  {
    seq(|args|, n requires 0 <= n < |args| => StepAt(opts, args, n))
  }

  /** The argv loop from position n on: the next token is the one not used yet, until one throws. */
  function RunSteps(steps: seq<Step>, n: nat): Outcome
    decreases |steps| - n
  {
    if n >= |steps| then Outcome([], false)
    else if steps[n].outcome.thrown then steps[n].outcome
    else
      var rest := RunSteps(steps, if steps[n].tookNext then n + 2 else n + 1);
      Outcome(steps[n].outcome.events + rest.events, rest.thrown)
  }

  function ParseFrom(opts: seq<OptionSpec>, args: seq<string>, n: nat): Outcome {
    RunSteps(Steps(opts, args), n)
  }

  lemma ParseStep(opts: seq<OptionSpec>, args: seq<string>, n: nat)
    requires n < |args|
    ensures
      var s := StepAt(opts, args, n);
      var rest := ParseFrom(opts, args, if s.tookNext then n + 2 else n + 1);
      ParseFrom(opts, args, n) ==
        if s.outcome.thrown then s.outcome else Outcome(s.outcome.events + rest.events, rest.thrown)
  {
  }

  // ---------------------------------------------------------------------------------------------
  // What the events leave behind

  /** Values by option, non_option_args_ and unknown_options_. */
  datatype State = State(values: seq<seq<Val>>, nonOptions: seq<string>, unknown: seq<string>)

  function ValueOf(e: Event, k: nat): seq<Val> {
    if e.Stored? && e.index == k then [e.value] else []
  }

  function NonOptionOf(e: Event): seq<string> {
    if e.NonOption? then [e.arg] else []
  }

  function UnknownOptionOf(e: Event): seq<string> {
    if e.UnknownOption? then [e.arg] else []
  }

  function ValuesOf(events: seq<Event>, k: nat): seq<Val> {
    if events == [] then [] else ValueOf(events[0], k) + ValuesOf(events[1..], k)
  }

  function NonOptionsOf(events: seq<Event>): seq<string> {
    if events == [] then [] else NonOptionOf(events[0]) + NonOptionsOf(events[1..])
  }

  function UnknownOf(events: seq<Event>): seq<string> {
    if events == [] then [] else UnknownOptionOf(events[0]) + UnknownOf(events[1..])
  }

  function Apply(s: State, events: seq<Event>): State {
    State(
      seq(|s.values|, k requires 0 <= k < |s.values| => s.values[k] + ValuesOf(events, k)),
      s.nonOptions + NonOptionsOf(events),
      s.unknown + UnknownOf(events))
  }

  lemma ConcatTail<T>(a: seq<T>, b: seq<T>)
    requires a != []
    ensures (a + b)[0] == a[0] && (a + b)[1..] == a[1..] + b
  {
  }

  lemma {:induction false} ValuesOfConcat(a: seq<Event>, b: seq<Event>, k: nat)
    ensures ValuesOf(a + b, k) == ValuesOf(a, k) + ValuesOf(b, k)
  {
    if a == [] {
      assert a + b == b;
    } else {
      ConcatTail(a, b);
      ValuesOfConcat(a[1..], b, k);
      Assoc(ValueOf(a[0], k), ValuesOf(a[1..], k), ValuesOf(b, k));
    }
  }

  lemma {:induction false} NonOptionsOfConcat(a: seq<Event>, b: seq<Event>)
    ensures NonOptionsOf(a + b) == NonOptionsOf(a) + NonOptionsOf(b)
  {
    if a == [] {
      assert a + b == b;
    } else {
      ConcatTail(a, b);
      NonOptionsOfConcat(a[1..], b);
      Assoc(NonOptionOf(a[0]), NonOptionsOf(a[1..]), NonOptionsOf(b));
    }
  }

  lemma {:induction false} UnknownOfConcat(a: seq<Event>, b: seq<Event>)
    ensures UnknownOf(a + b) == UnknownOf(a) + UnknownOf(b)
  {
    if a == [] {
      assert a + b == b;
    } else {
      ConcatTail(a, b);
      UnknownOfConcat(a[1..], b);
      Assoc(UnknownOptionOf(a[0]), UnknownOf(a[1..]), UnknownOf(b));
    }
  }

  predicate OnlyStores(events: seq<Event>) {
    forall i :: 0 <= i < |events| ==> events[i].Stored?
  }

  lemma {:induction false} StoresLeaveNothing(events: seq<Event>)
    requires OnlyStores(events)
    ensures NonOptionsOf(events) == [] && UnknownOf(events) == []
  {
    if events != [] {
      StoresLeaveNothing(events[1..]);
    }
  }

  /** Events act one after another. */
  lemma ApplyConcat(s: State, a: seq<Event>, b: seq<Event>)
    ensures Apply(Apply(s, a), b) == Apply(s, a + b)
  {
    forall k | 0 <= k < |s.values|
      ensures s.values[k] + ValuesOf(a, k) + ValuesOf(b, k) == s.values[k] + ValuesOf(a + b, k)
    {
      ValuesOfConcat(a, b, k);
      Assoc(s.values[k], ValuesOf(a, k), ValuesOf(b, k));
    }
    NonOptionsOfConcat(a, b);
    Assoc(s.nonOptions, NonOptionsOf(a), NonOptionsOf(b));
    UnknownOfConcat(a, b);
    Assoc(s.unknown, UnknownOf(a), UnknownOf(b));
    assert Apply(Apply(s, a), b).values == Apply(s, a + b).values;
  }

  lemma ApplyIs(s: State, events: seq<Event>, t: State)
    requires |t.values| == |s.values|
    requires forall k :: 0 <= k < |s.values| ==> t.values[k] == s.values[k] + ValuesOf(events, k)
    requires t.nonOptions == s.nonOptions + NonOptionsOf(events) && t.unknown == s.unknown + UnknownOf(events)
    ensures Apply(s, events) == t
  {
    assert Apply(s, events).values == t.values;
  }

  lemma ApplyNothing(s: State)
    ensures Apply(s, []) == s
  {
    ApplyIs(s, [], s);
  }

  lemma ApplyStored(s: State, k: nat, v: Val)
    requires k < |s.values|
    ensures Apply(s, [Stored(k, v)]) == s.(values := s.values[k := s.values[k] + [v]])
  {
    var e := [Stored(k, v)];
    assert e[1..] == [];
    ApplyIs(s, e, s.(values := s.values[k := s.values[k] + [v]]));
  }

  lemma ApplyUnknown(s: State, arg: string)
    ensures Apply(s, [UnknownOption(arg)]) == s.(unknown := s.unknown + [arg])
  {
    var e := [UnknownOption(arg)];
    assert e[1..] == [];
    ApplyIs(s, e, s.(unknown := s.unknown + [arg]));
  }

  lemma {:induction false} NonOptionEventsGive(args: seq<string>, k: nat)
    ensures NonOptionsOf(NonOptionEvents(args)) == args
    ensures UnknownOf(NonOptionEvents(args)) == [] && ValuesOf(NonOptionEvents(args), k) == []
  {
    if args != [] {
      assert NonOptionEvents(args)[1..] == NonOptionEvents(args[1..]);
      NonOptionEventsGive(args[1..], k);
      assert args == [args[0]] + args[1..];
    }
  }

  lemma ApplyNonOptions(s: State, args: seq<string>)
    ensures Apply(s, NonOptionEvents(args)) == s.(nonOptions := s.nonOptions + args)
  {
    forall k | 0 <= k < |s.values|
      ensures ValuesOf(NonOptionEvents(args), k) == []
    {
      NonOptionEventsGive(args, k);
    }
    NonOptionEventsGive(args, 0);
    ApplyIs(s, NonOptionEvents(args), s.(nonOptions := s.nonOptions + args));
  }
}
