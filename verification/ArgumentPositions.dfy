/** Where each argv token goes, stated on the tokens alone, and what `--` really does. */
module ArgumentPositions {
  import opened Fifo
  import opened Arguments

  // ---------------------------------------------------------------------------------------------
  // Classifying tokens without running the parser

  function NamedShort(opts: seq<OptionSpec>, c: char): (r: Option<nat>)
    ensures r.Some? ==> r.value < |opts|
  {
    Active(opts, FindShort(opts, c))
  }

  /** A character that does not end a short token: unknown, or a switch. */
  predicate Passes(opts: seq<OptionSpec>, c: char) {
    var r := NamedShort(opts, c);
    r.None? || opts[r.value].kind == Switch
  }

  predicate AllPass(opts: seq<OptionSpec>, s: string) {
    forall i :: 0 <= i < |s| ==> Passes(opts, s[i])
  }

  /** The last character is the first that takes an argument, and it must have one. */
  predicate EndsInValue(opts: seq<OptionSpec>, s: string) {
    && s != "" && AllPass(opts, s[..|s| - 1])
    && var r := NamedShort(opts, s[|s| - 1]);
       r.Some? && opts[r.value].kind == Value
  }

  /** Some character that is reached names nothing. */
  predicate ReachesUnknown(opts: seq<OptionSpec>, s: string) {
    exists j :: 0 <= j < |s| && AllPass(opts, s[..j]) && NamedShort(opts, s[j]).None?
  }

  predicate TakesNext(opts: seq<OptionSpec>, args: seq<string>, p: nat)
    requires p < |args|
  {
    p + 1 < |args| &&
    if IsLong(args[p]) then
      var r := Active(opts, FindLong(opts, LongName(args[p][2..])));
      r.Some? && opts[r.value].kind == Value && LongValue(args[p][2..]) == ""
    else
      IsShort(args[p]) && EndsInValue(opts, args[p][1..])
  }

  /** The token names an unknown or inactive option, or gives a switch a value. */
  predicate NamesUnknown(opts: seq<OptionSpec>, arg: string) {
    if IsLong(arg) then
      var r := Active(opts, FindLong(opts, LongName(arg[2..])));
      r.None? || (opts[r.value].kind == Switch && LongValue(arg[2..]) != "")
    else
      IsShort(arg) && ReachesUnknown(opts, arg[1..])
  }

  predicate IsPositional(arg: string) {
    arg == "" || arg[0] != '-'
  }

  /** What the token at p adds to non_option_args_. */
  function NonOptionsAt(args: seq<string>, p: nat): seq<string>
    requires p < |args|
  {
    if args[p] == "--" then args[p + 1..] else if IsPositional(args[p]) then [args[p]] else []
  }

  function UnknownAt(opts: seq<OptionSpec>, args: seq<string>, p: nat): seq<string>
    requires p < |args|
  {
    if NamesUnknown(opts, args[p]) then [args[p]] else []
  }

  /** The positions at which a token starts, from n on. */
  function Heads(opts: seq<OptionSpec>, args: seq<string>, n: nat): (hs: seq<nat>)
    ensures forall i :: 0 <= i < |hs| ==> n <= hs[i] < |args|
    ensures forall i, j :: 0 <= i < j < |hs| ==> hs[i] < hs[j]
    decreases |args| - n
  {
    if n >= |args| then [] else [n] + Heads(opts, args, if TakesNext(opts, args, n) then n + 2 else n + 1)
  }

  predicate InArgs(args: seq<string>, hs: seq<nat>) {
    forall i :: 0 <= i < |hs| ==> hs[i] < |args|
  }

  function GatherNonOptions(args: seq<string>, hs: seq<nat>): seq<string>
    requires InArgs(args, hs)
  {
    if hs == [] then [] else NonOptionsAt(args, hs[0]) + GatherNonOptions(args, hs[1..])
  }

  function GatherUnknown(opts: seq<OptionSpec>, args: seq<string>, hs: seq<nat>): seq<string>
    requires InArgs(args, hs)
  {
    if hs == [] then [] else UnknownAt(opts, args, hs[0]) + GatherUnknown(opts, args, hs[1..])
  }

  // ---------------------------------------------------------------------------------------------
  // The parser agrees

  lemma {:induction false} ScanStores(opts: seq<OptionSpec>, s: string, following: Option<string>)
    ensures OnlyStores(ScanShort(opts, s, following).stores.events)
  {
    if s != "" {
      ScanStores(opts, s[1..], following);
    }
  }

  lemma PrefixPasses(opts: seq<OptionSpec>, s: string, j: nat)
    requires 1 <= j <= |s|
    ensures AllPass(opts, s[..j]) <==> Passes(opts, s[0]) && AllPass(opts, s[1..][..j - 1])
  {
    var p, q := s[..j], s[1..][..j - 1];
    assert p[0] == s[0] && forall i :: 0 <= i < |q| ==> q[i] == p[i + 1];
    assert forall i :: 1 <= i < |p| ==> p[i] == q[i - 1];
  }

  lemma EndsInValueStep(opts: seq<OptionSpec>, s: string)
    requires |s| >= 2
    ensures EndsInValue(opts, s) <==> Passes(opts, s[0]) && EndsInValue(opts, s[1..])
  {
    PrefixPasses(opts, s, |s| - 1);
    assert s[1..][..|s| - 2] == s[1..][..|s[1..]| - 1] && s[1..][|s[1..]| - 1] == s[|s| - 1];
  }

  lemma {:induction false} ScanTakesNext(opts: seq<OptionSpec>, s: string, following: Option<string>)
    ensures ScanShort(opts, s, following).tookNext <==> following.Some? && EndsInValue(opts, s)
  {
    if s == "" {
    } else if |s| == 1 {
      assert ScanShort(opts, s[1..], following) == Scan(Outcome([], false), false, false);
    } else {
      ScanTakesNext(opts, s[1..], following);
      EndsInValueStep(opts, s);
    }
  }

  lemma ReachesUnknownStep(opts: seq<OptionSpec>, s: string)
    requires s != ""
    ensures ReachesUnknown(opts, s) <==>
      NamedShort(opts, s[0]).None? || (Passes(opts, s[0]) && ReachesUnknown(opts, s[1..]))
  {
    if NamedShort(opts, s[0]).None? {
      assert AllPass(opts, s[..0]);
    }
    if j :| 1 <= j < |s| && AllPass(opts, s[..j]) && NamedShort(opts, s[j]).None? {
      PrefixPasses(opts, s, j);
      assert s[1..][j - 1] == s[j];
    }
    if Passes(opts, s[0]) && ReachesUnknown(opts, s[1..]) {
      var i :| 0 <= i < |s[1..]| && AllPass(opts, s[1..][..i]) && NamedShort(opts, s[1..][i]).None?;
      PrefixPasses(opts, s, i + 1);
      assert s[1..][i] == s[i + 1];
    }
  }

  lemma {:induction false} ScanUnknown(opts: seq<OptionSpec>, s: string, following: Option<string>)
    ensures ScanShort(opts, s, following).unknown <==> ReachesUnknown(opts, s)
  {
    if s != "" {
      ReachesUnknownStep(opts, s);
      ScanUnknown(opts, s[1..], following);
    }
  }

  lemma ShortStepMeans(opts: seq<OptionSpec>, arg: string, following: Option<string>)
    requires IsShort(arg)
    ensures
      var s := ShortStep(opts, arg, following);
      && (s.tookNext <==> following.Some? && EndsInValue(opts, arg[1..]))
      && NonOptionsOf(s.outcome.events) == []
      && (!s.outcome.thrown ==> UnknownOf(s.outcome.events) == if ReachesUnknown(opts, arg[1..]) then [arg] else [])
  {
    var body := arg[1..];
    ScanStores(opts, body, following);
    ScanTakesNext(opts, body, following);
    ScanUnknown(opts, body, following);
    var stores := ScanShort(opts, body, following).stores.events;
    StoresLeaveNothing(stores);
    NonOptionsOfConcat(stores, [UnknownOption(arg)]);
    UnknownOfConcat(stores, [UnknownOption(arg)]);
  }

  /** The step uses the next token, and adds to the leftovers if it does not throw, as the text of the
      token says. */
  predicate DoesAsItSays(opts: seq<OptionSpec>, args: seq<string>, p: nat, s: Step)
    requires p < |args|
  {
    && (s.tookNext <==> TakesNext(opts, args, p))
    && (!s.outcome.thrown ==>
          && NonOptionsOf(s.outcome.events) == NonOptionsAt(args, p)
          && UnknownOf(s.outcome.events) == UnknownAt(opts, args, p))
  }

  lemma LongStepMeans(opts: seq<OptionSpec>, args: seq<string>, p: nat)
    requires p < |args| && IsLong(args[p])
    ensures DoesAsItSays(opts, args, p, LongStep(opts, args[p], Following(args, p)))
  {
  }

  lemma ShortTokenMeans(opts: seq<OptionSpec>, args: seq<string>, p: nat)
    requires p < |args| && IsShort(args[p])
    ensures DoesAsItSays(opts, args, p, ShortStep(opts, args[p], Following(args, p)))
  {
    ShortStepMeans(opts, args[p], Following(args, p));
  }

  lemma OtherTokenMeans(opts: seq<OptionSpec>, args: seq<string>, p: nat)
    requires p < |args| && !IsLong(args[p]) && !IsShort(args[p])
    ensures DoesAsItSays(opts, args, p, StepAt(opts, args, p))
  {
    NonOptionEventsGive(args[p + 1..], 0);
  }

  lemma StepMeans(opts: seq<OptionSpec>, args: seq<string>, p: nat)
    requires p < |args|
    ensures DoesAsItSays(opts, args, p, StepAt(opts, args, p))
  {
    if IsLong(args[p]) {
      LongStepMeans(opts, args, p);
    } else if IsShort(args[p]) {
      ShortTokenMeans(opts, args, p);
    } else {
      OtherTokenMeans(opts, args, p);
    }
  }

  /** The same for a whole run: on any parse that throws nothing, non_option_args_ gains exactly the
      positional tokens (and what follows a `--`) and unknown_options_ exactly the tokens that name an
      unknown option, in order. */
  lemma {:induction false} LeftoversAreGathered(opts: seq<OptionSpec>, args: seq<string>, steps: seq<Step>, n: nat)
    requires |steps| == |args| && forall p :: 0 <= p < |args| ==> steps[p] == StepAt(opts, args, p)
    requires !RunSteps(steps, n).thrown
    ensures NonOptionsOf(RunSteps(steps, n).events) == GatherNonOptions(args, Heads(opts, args, n))
    ensures UnknownOf(RunSteps(steps, n).events) == GatherUnknown(opts, args, Heads(opts, args, n))
    decreases |args| - n
  {
    if n < |args| {
      StepMeans(opts, args, n);
      var m := if steps[n].tookNext then n + 2 else n + 1;
      LeftoversAreGathered(opts, args, steps, m);
      NonOptionsOfConcat(steps[n].outcome.events, RunSteps(steps, m).events);
      UnknownOfConcat(steps[n].outcome.events, RunSteps(steps, m).events);
    }
  }

  lemma ParseGathers(opts: seq<OptionSpec>, args: seq<string>, n: nat)
    requires !ParseFrom(opts, args, n).thrown
    ensures NonOptionsOf(ParseFrom(opts, args, n).events) == GatherNonOptions(args, Heads(opts, args, n))
    ensures UnknownOf(ParseFrom(opts, args, n).events) == GatherUnknown(opts, args, Heads(opts, args, n))
  {
    LeftoversAreGathered(opts, args, Steps(opts, args), n);
  }

  /** Every position is used exactly once (Heads is strictly increasing): either a token starts there, or it
      is the value of the token that starts before it. */
  lemma {:induction false} PositionsAreConsumedOnce(opts: seq<OptionSpec>, args: seq<string>, n: nat, q: nat)
    requires n <= q < |args|
    ensures q in Heads(opts, args, n) <==> !(q > n && q - 1 in Heads(opts, args, n) && TakesNext(opts, args, q - 1))
    decreases |args| - n
  {
    var m := if TakesNext(opts, args, n) then n + 2 else n + 1;
    var hs := Heads(opts, args, n);
    assert hs[0] == n && hs[1..] == Heads(opts, args, m);
    if q < m {
      assert n in hs;
    } else {
      PositionsAreConsumedOnce(opts, args, m, q);
      assert q - 1 in hs <==> q - 1 == n || q - 1 in hs[1..];
    }
  }

  // ---------------------------------------------------------------------------------------------
  // `--`

  /** A token that leaves no trace. */
  predicate Silent(args: seq<string>, p: nat)
    requires p < |args|
  {
    args[p] == "-" || (args[p] == "--" && p == |args| - 1)
  }

  predicate OnlyDashes(args: seq<string>, n: nat) {
    forall q :: n <= q < |args| ==> Silent(args, q)
  }

  lemma {:induction false} ScanLeavesTrace(opts: seq<OptionSpec>, s: string, following: Option<string>)
    requires s != ""
    ensures
      var r := ScanShort(opts, s, following);
      r.stores.events != [] || r.stores.thrown || r.unknown
  {
  }

  lemma SilentStep(opts: seq<OptionSpec>, args: seq<string>, p: nat)
    requires p < |args|
    ensures StepAt(opts, args, p).outcome == Outcome([], false) <==> Silent(args, p)
    ensures Silent(args, p) ==> !StepAt(opts, args, p).tookNext
  {
    if IsShort(args[p]) && args[p][1..] != "" {
      ScanLeavesTrace(opts, args[p][1..], Following(args, p));
    }
    assert IsShort(args[p]) && args[p][1..] == "" ==> args[p] == "-";
  }

  lemma {:induction false} SilentRun(args: seq<string>, steps: seq<Step>, n: nat)
    requires |steps| == |args|
    requires forall p :: n <= p < |args| ==> (steps[p].outcome == Outcome([], false) <==> Silent(args, p))
    requires forall p :: n <= p < |args| ==> Silent(args, p) ==> !steps[p].tookNext
    ensures RunSteps(steps, n) == Outcome([], false) <==> OnlyDashes(args, n)
    decreases |args| - n
  {
    if n < |args| {
      SilentRun(args, steps, n + 1);
      assert OnlyDashes(args, n) <==> Silent(args, n) && OnlyDashes(args, n + 1);
    }
  }

  lemma SilentParse(opts: seq<OptionSpec>, args: seq<string>, n: nat)
    ensures ParseFrom(opts, args, n) == Outcome([], false) <==> OnlyDashes(args, n)
  {
    forall p | n <= p < |args|
      ensures Steps(opts, args)[p].outcome == Outcome([], false) <==> Silent(args, p)
      ensures Silent(args, p) ==> !Steps(opts, args)[p].tookNext
    {
      SilentStep(opts, args, p);
    }
    SilentRun(args, Steps(opts, args), n);
  }

  /** The documentation promises that `--` makes every later token a non-option argument and nothing
      else. The code keeps the promise exactly when every later token is "-", except that the last may
      be "--": it collects them all and then parses them again. */
  lemma DoubleDashPromise(opts: seq<OptionSpec>, args: seq<string>, p: nat)
    requires p < |args| && args[p] == "--"
    ensures ParseFrom(opts, args, p) == Outcome(NonOptionEvents(args[p + 1..]), false) <==> OnlyDashes(args, p + 1)
  {
    SilentParse(opts, args, p + 1);
    DoubleDashRun(opts, args, p);
    NothingAppended(NonOptionEvents(args[p + 1..]), ParseFrom(opts, args, p + 1).events);
  }

  lemma NothingAppended<T>(a: seq<T>, b: seq<T>)
    ensures a + b == a <==> b == []
  {
    assert b == [] ==> a + b == a;
  }

  lemma DoubleDashRun(opts: seq<OptionSpec>, args: seq<string>, p: nat)
    requires p < |args| && args[p] == "--"
    ensures
      var rest := ParseFrom(opts, args, p + 1);
      ParseFrom(opts, args, p) == Outcome(NonOptionEvents(args[p + 1..]) + rest.events, rest.thrown)
  {
  }

  lemma PositionalStep(opts: seq<OptionSpec>, args: seq<string>, p: nat)
    requires p < |args| && IsPositional(args[p])
    ensures StepAt(opts, args, p) == Step(Outcome([NonOption(args[p])], false), false)
  {
  }

  lemma NonOptionEventsSplit(args: seq<string>, n: nat)
    requires n < |args|
    ensures NonOptionEvents(args[n..]) == [NonOption(args[n])] + NonOptionEvents(args[n + 1..])
  {
  }

  /** The steps from n on are those of plain words. */
  lemma {:induction false} PositionalRun(args: seq<string>, steps: seq<Step>, n: nat)
    requires n <= |steps| == |args|
    requires forall p :: n <= p < |args| ==> steps[p] == Step(Outcome([NonOption(args[p])], false), false)
    ensures RunSteps(steps, n) == Outcome(NonOptionEvents(args[n..]), false)
    decreases |args| - n
  {
    if n < |args| {
      PositionalRun(args, steps, n + 1);
      NonOptionEventsSplit(args, n);
    }
  }

  lemma WordsParse(opts: seq<OptionSpec>, args: seq<string>, n: nat)
    requires n <= |args| && forall q :: n <= q < |args| ==> IsPositional(args[q])
    ensures ParseFrom(opts, args, n) == Outcome(NonOptionEvents(args[n..]), false)
  {
    forall p | n <= p < |args|
      ensures Steps(opts, args)[p] == Step(Outcome([NonOption(args[p])], false), false)
    {
      PositionalStep(opts, args, p);
    }
    PositionalRun(args, Steps(opts, args), n);
  }

  /** In particular plain words after `--` arrive twice. */
  lemma WordsAfterDoubleDashArriveTwice(opts: seq<OptionSpec>, args: seq<string>, p: nat)
    requires p < |args| && args[p] == "--" && forall q :: p < q < |args| ==> IsPositional(args[q])
    ensures NonOptionsOf(ParseFrom(opts, args, p).events) == args[p + 1..] + args[p + 1..]
  {
    var words := args[p + 1..];
    DoubleDashRun(opts, args, p);
    WordsParse(opts, args, p + 1);
    NonOptionsOfConcat(NonOptionEvents(words), NonOptionEvents(words));
    NonOptionEventsGive(words, 0);
  }
}
