/** Every spelling of the same options parses to the same result. */
module ArgumentSpelling {
  import opened Fifo
  import opened Arguments

  /** One way of writing some options. A cluster of switches may stand before the letter of an option
      that takes a value. */
  datatype Group =
    | LongAlone(k: nat)                                         // --name, of a switch or an implicit option
    | LongEquals(k: nat, value: string)                         // --name=value
    | LongSeparate(k: nat, value: string)                       // --name value
    | Cluster(switches: seq<nat>)                               // -abc
    | ShortAlone(switches: seq<nat>, k: nat)                    // -abcn, of an implicit option
    | ShortJoined(switches: seq<nat>, k: nat, value: string)    // -abcnvalue
    | ShortSeparate(switches: seq<nat>, k: nat, value: string)  // -abcn value

  predicate HasLongName(opts: seq<OptionSpec>, k: nat) {
    k < |opts| && opts[k].attribute != Inactive && opts[k].long != "" && '=' !in opts[k].long
  }

  predicate HasShortName(opts: seq<OptionSpec>, k: nat) {
    k < |opts| && opts[k].attribute != Inactive && opts[k].short != '-' && opts[k].short != '\0'
  }

  predicate AreSwitches(opts: seq<OptionSpec>, ks: seq<nat>) {
    forall i :: 0 <= i < |ks| ==> HasShortName(opts, ks[i]) && opts[ks[i]].kind == Switch
  }

  predicate TakesValue(opts: seq<OptionSpec>, k: nat, value: string) {
    k < |opts| && opts[k].kind != Switch && value != "" && Accept(opts[k], value).Some?
  }

  predicate NeedsValue(opts: seq<OptionSpec>, k: nat) {
    k < |opts| && opts[k].kind == Value
  }

  /** What option k makes of an argument it accepts. */
  function Reads(opts: seq<OptionSpec>, k: nat, arg: string): Event
    requires k < |opts| && Accept(opts[k], arg).Some?
  {
    Stored(k, Accept(opts[k], arg).value)
  }

  predicate Proper(opts: seq<OptionSpec>, g: Group) {
    match g
    case LongAlone(k) => HasLongName(opts, k) && !NeedsValue(opts, k) && Accept(opts[k], "").Some?
    case LongEquals(k, v) => HasLongName(opts, k) && TakesValue(opts, k, v)
    case LongSeparate(k, v) => HasLongName(opts, k) && TakesValue(opts, k, v) && NeedsValue(opts, k)
    case Cluster(ks) => ks != [] && AreSwitches(opts, ks)
    case ShortAlone(ks, k) =>
      AreSwitches(opts, ks) && HasShortName(opts, k) && opts[k].kind == Implicit && Accept(opts[k], "").Some?
    case ShortJoined(ks, k, v) => AreSwitches(opts, ks) && HasShortName(opts, k) && TakesValue(opts, k, v)
    case ShortSeparate(ks, k, v) =>
      AreSwitches(opts, ks) && HasShortName(opts, k) && TakesValue(opts, k, v) && NeedsValue(opts, k)
  }

  function Letters(opts: seq<OptionSpec>, ks: seq<nat>): string
    requires AreSwitches(opts, ks)
  {
    if ks == [] then "" else [opts[ks[0]].short] + Letters(opts, ks[1..])
  }

  /** The argv tokens of a group. */
  function Render(opts: seq<OptionSpec>, g: Group): (tokens: seq<string>)
    requires Proper(opts, g)
    ensures 1 <= |tokens| <= 2
  {
    match g
    case LongAlone(k) => ["--" + opts[k].long]
    case LongEquals(k, v) => ["--" + (opts[k].long + "=" + v)]
    case LongSeparate(k, v) => ["--" + opts[k].long, v]
    case Cluster(ks) => ["-" + Letters(opts, ks)]
    case ShortAlone(ks, k) => ["-" + (Letters(opts, ks) + [opts[k].short])]
    case ShortJoined(ks, k, v) => ["-" + (Letters(opts, ks) + ([opts[k].short] + v))]
    case ShortSeparate(ks, k, v) => ["-" + (Letters(opts, ks) + [opts[k].short]), v]
  }

  function SwitchEvents(ks: seq<nat>): (events: seq<Event>) {
    if ks == [] then [] else [Stored(ks[0], Flag(true))] + SwitchEvents(ks[1..])
  }

  /** What the group says, however it is spelled. */
  function Meaning(opts: seq<OptionSpec>, g: Group): seq<Event>
    requires Proper(opts, g)
  {
    match g
    case LongAlone(k) => [Reads(opts, k, "")]
    case LongEquals(k, v) => [Reads(opts, k, v)]
    case LongSeparate(k, v) => [Reads(opts, k, v)]
    case Cluster(ks) => SwitchEvents(ks)
    case ShortAlone(ks, k) => SwitchEvents(ks) + [Reads(opts, k, "")]
    case ShortJoined(ks, k, v) => SwitchEvents(ks) + [Reads(opts, k, v)]
    case ShortSeparate(ks, k, v) => SwitchEvents(ks) + [Reads(opts, k, v)]
  }

  predicate AllProper(opts: seq<OptionSpec>, groups: seq<Group>) {
    forall i :: 0 <= i < |groups| ==> Proper(opts, groups[i])
  }

  /** Tokens together with what they say. */
  datatype Phrase = Phrase(tokens: seq<string>, events: seq<Event>)

  function PhraseOf(opts: seq<OptionSpec>, g: Group): (p: Phrase)
    requires Proper(opts, g)
    ensures 1 <= |p.tokens| <= 2
  {
    Phrase(Render(opts, g), Meaning(opts, g))
  }

  function Phrases(opts: seq<OptionSpec>, groups: seq<Group>): (ps: seq<Phrase>)
    requires AllProper(opts, groups)
    ensures |ps| == |groups|
  {
    seq(|groups|, i requires 0 <= i < |groups| => PhraseOf(opts, groups[i]))
  }

  function TokensOf(ps: seq<Phrase>): seq<string> {
    if ps == [] then [] else ps[0].tokens + TokensOf(ps[1..])
  }

  function EventsOf(ps: seq<Phrase>): seq<Event> {
    if ps == [] then [] else ps[0].events + EventsOf(ps[1..])
  }

  /** The argv tokens of a list of groups. */
  function RenderAll(opts: seq<OptionSpec>, groups: seq<Group>): seq<string>
    requires AllProper(opts, groups)
  {
    TokensOf(Phrases(opts, groups))
  }

  function MeaningOfAll(opts: seq<OptionSpec>, groups: seq<Group>): seq<Event>
    requires AllProper(opts, groups)
  {
    EventsOf(Phrases(opts, groups))
  }

  // ---------------------------------------------------------------------------------------------
  // Finding the named option

  lemma FindsLong(opts: seq<OptionSpec>, k: nat)
    requires UniqueNames(opts) && HasLongName(opts, k)
    ensures Active(opts, FindLong(opts, opts[k].long)) == Some(k)
  {
    var r := FindLong(opts, opts[k].long);
    assert r.Some? && !(r.value < k);
  }

  lemma FindsShort(opts: seq<OptionSpec>, k: nat)
    requires UniqueNames(opts) && HasShortName(opts, k)
    ensures Active(opts, FindShort(opts, opts[k].short)) == Some(k)
  {
    var r := FindShort(opts, opts[k].short);
    assert r.Some? && !(r.value < k);
  }

  // ---------------------------------------------------------------------------------------------
  // Long tokens

  lemma {:induction false} FirstEquals(name: string, rest: string)
    requires '=' !in name
    ensures IndexOf(name + "=" + rest, '=') == |name|
  {
    var s := name + "=" + rest;
    var i := IndexOf(s, '=');
    assert s[|name|] == '=' && s[..|name|] == name;
    assert forall j :: 0 <= j < i ==> s[j] != '=' by {
      assert forall j :: 0 <= j < i ==> s[j] in s[..i];
    }
  }

  lemma {:induction false} NoEquals(name: string)
    requires '=' !in name
    ensures IndexOf(name, '=') == |name|
  {
  }

  lemma LongWithValue(opts: seq<OptionSpec>, k: nat, v: string, following: Option<string>)
    requires UniqueNames(opts) && Proper(opts, LongEquals(k, v))
    ensures
      var arg := "--" + (opts[k].long + "=" + v);
      IsLong(arg) && LongStep(opts, arg, following) == Step(Outcome([Reads(opts, k, v)], false), false)
  {
    var name := opts[k].long;
    var body := name + "=" + v;
    FirstEquals(name, v);
    assert body[..|name|] == name && body[|name| + 1..] == v;
    assert ("--" + body)[..2] == "--" && ("--" + body)[2..] == body;
    FindsLong(opts, k);
  }

  /** Without `=`: a value option takes the next token, any other takes nothing. */
  lemma LongBare(opts: seq<OptionSpec>, k: nat, following: Option<string>)
    requires UniqueNames(opts) && HasLongName(opts, k)
    requires NeedsValue(opts, k) ==> following.Some?
    requires Accept(opts[k], if NeedsValue(opts, k) then following.value else "").Some?
    ensures
      var arg := "--" + opts[k].long;
      var e := Reads(opts, k, if NeedsValue(opts, k) then following.value else "");
      IsLong(arg) && LongStep(opts, arg, following) == Step(Outcome([e], false), NeedsValue(opts, k))
  {
    var body := opts[k].long;
    NoEquals(body);
    assert body[..|body|] == body;
    assert ("--" + body)[..2] == "--" && ("--" + body)[2..] == body;
    FindsLong(opts, k);
  }

  // ---------------------------------------------------------------------------------------------
  // Short tokens

  lemma ScanOneSwitch(opts: seq<OptionSpec>, k: nat, s: string, tail: string, following: Option<string>)
    requires UniqueNames(opts) && HasShortName(opts, k) && opts[k].kind == Switch
    requires s != "" && s[0] == opts[k].short && s[1..] == tail
    ensures
      var rest := ScanShort(opts, tail, following);
      ScanShort(opts, s, following)
      == Scan(Outcome([Stored(k, Flag(true))] + rest.stores.events, rest.stores.thrown), rest.unknown, rest.tookNext)
  {
    FindsShort(opts, k);
  }

  lemma ConsTail(c: char, a: string, b: string)
    ensures ([c] + a + b)[0] == c && ([c] + a + b)[1..] == a + b
  {
  }

  lemma LettersTail(opts: seq<OptionSpec>, ks: seq<nat>, tail: string)
    requires ks != [] && AreSwitches(opts, ks)
    ensures
      var s := Letters(opts, ks) + tail;
      s != "" && s[0] == opts[ks[0]].short && s[1..] == Letters(opts, ks[1..]) + tail
  {
    ConsTail(opts[ks[0]].short, Letters(opts, ks[1..]), tail);
  }

  /** Switch letters are scanned one by one before whatever comes after them. */
  lemma {:induction false} ScanSwitches(opts: seq<OptionSpec>, ks: seq<nat>, tail: string, following: Option<string>)
    requires UniqueNames(opts) && AreSwitches(opts, ks)
    ensures
      var rest := ScanShort(opts, tail, following);
      ScanShort(opts, Letters(opts, ks) + tail, following)
      == Scan(Outcome(SwitchEvents(ks) + rest.stores.events, rest.stores.thrown), rest.unknown, rest.tookNext)
  {
    var rest := ScanShort(opts, tail, following);
    if ks == [] {
      assert Letters(opts, ks) + tail == tail;
      assert SwitchEvents(ks) + rest.stores.events == rest.stores.events;
    } else {
      var s, t := Letters(opts, ks) + tail, Letters(opts, ks[1..]) + tail;
      LettersTail(opts, ks, tail);
      ScanOneSwitch(opts, ks[0], s, t, following);
      ScanSwitches(opts, ks[1..], tail, following);
      Assoc([Stored(ks[0], Flag(true))], SwitchEvents(ks[1..]), rest.stores.events);
    }
  }

  /** The letter of an option that is no switch ends the token. */
  lemma ScanLast(opts: seq<OptionSpec>, k: nat, joined: string, following: Option<string>)
    requires UniqueNames(opts) && HasShortName(opts, k) && opts[k].kind != Switch
    requires NeedsValue(opts, k) && joined == "" ==> following.Some?
    requires Accept(opts[k], if NeedsValue(opts, k) && joined == "" then following.value else joined).Some?
    ensures
      var next := NeedsValue(opts, k) && joined == "";
      ScanShort(opts, [opts[k].short] + joined, following) ==
      Scan(Outcome([Reads(opts, k, if next then following.value else joined)], false), false, next)
  {
    var s := [opts[k].short] + joined;
    assert s[0] == opts[k].short && s[1..] == joined;
    FindsShort(opts, k);
  }

  lemma NotLong(opts: seq<OptionSpec>, ks: seq<nat>, tail: string)
    requires AreSwitches(opts, ks)
    requires if ks == [] then tail != "" && tail[0] != '-' else true
    ensures IsShort("-" + (Letters(opts, ks) + tail))
  {
    var body := Letters(opts, ks) + tail;
    assert body[0] != '-';
    assert ("-" + body)[..2] == ['-', body[0]];
    assert ("-" + body)[1] != '-';
  }

  lemma ShortGroup(opts: seq<OptionSpec>, g: Group, following: Option<string>)
    requires UniqueNames(opts) && Proper(opts, g) && (g.Cluster? || g.ShortAlone? || g.ShortJoined? || g.ShortSeparate?)
    requires g.ShortSeparate? ==> following == Some(g.value)
    ensures
      var arg := Render(opts, g)[0];
      IsShort(arg) && ShortStep(opts, arg, following) == Step(Outcome(Meaning(opts, g), false), g.ShortSeparate?)
  {
    var tail := match g
      case Cluster(_) => ""
      case ShortAlone(_, k) => [opts[k].short]
      case ShortJoined(_, k, v) => [opts[k].short] + v
      case ShortSeparate(_, k, _) => [opts[k].short];
    var body := Letters(opts, g.switches) + tail;
    NotLong(opts, g.switches, tail);
    ScanSwitches(opts, g.switches, tail, following);
    if g.Cluster? {
      assert body == Letters(opts, g.switches);
      assert Meaning(opts, g) == SwitchEvents(g.switches) + [];
    } else if g.ShortJoined? {
      ScanLast(opts, g.k, g.value, following);
    } else {
      assert [opts[g.k].short] + "" == [opts[g.k].short];
      ScanLast(opts, g.k, "", following);
    }
    assert ("-" + body)[1..] == body;
  }

  // ---------------------------------------------------------------------------------------------
  // Whole command lines

  /** Wherever the tokens stand in argv, they are consumed together and say this. */
  ghost predicate Understood(steps: seq<Step>, args: seq<string>, p: Phrase) {
    && |steps| == |args| && 1 <= |p.tokens| <= 2
    && forall n: nat {:trigger Occurs(args, p, n)} :: Occurs(args, p, n) ==> TakenAt(steps, p, n)
  }

  predicate Occurs(args: seq<string>, p: Phrase, n: nat) {
    n + |p.tokens| <= |args| && args[n..n + |p.tokens|] == p.tokens
  }

  predicate TakenAt(steps: seq<Step>, p: Phrase, n: nat) {
    n < |steps| && steps[n] == Step(Outcome(p.events, false), |p.tokens| == 2)
  }

  lemma GroupStep(opts: seq<OptionSpec>, g: Group, args: seq<string>, n: nat)
    requires UniqueNames(opts) && Proper(opts, g)
    requires n + |Render(opts, g)| <= |args| && args[n..n + |Render(opts, g)|] == Render(opts, g)
    ensures StepAt(opts, args, n) == Step(Outcome(Meaning(opts, g), false), |Render(opts, g)| == 2)
  {
    var tokens, f := Render(opts, g), Following(args, n);
    assert args[n] == args[n..n + |tokens|][0] == tokens[0];
    if |tokens| == 2 {
      assert args[n + 1] == args[n..n + |tokens|][1] == tokens[1];
    }
    match g
    case LongAlone(k) => LongBare(opts, k, f);
    case LongEquals(k, v) => LongWithValue(opts, k, v, f);
    case LongSeparate(k, v) => LongBare(opts, k, f);
    case _ => ShortGroup(opts, g, f);
  }

  lemma PhraseStep(opts: seq<OptionSpec>, g: Group, p: Phrase, args: seq<string>, n: nat)
    requires UniqueNames(opts) && Proper(opts, g) && p == PhraseOf(opts, g)
    requires n + |p.tokens| <= |args| && args[n..n + |p.tokens|] == p.tokens
    ensures StepAt(opts, args, n) == Step(Outcome(p.events, false), |p.tokens| == 2)
  {
    GroupStep(opts, g, args, n);
  }

  lemma GroupIsUnderstood(opts: seq<OptionSpec>, g: Group, p: Phrase, args: seq<string>)
    requires UniqueNames(opts) && Proper(opts, g) && p == PhraseOf(opts, g)
    ensures Understood(Steps(opts, args), args, p)
  {
    forall n: nat | Occurs(args, p, n)
      ensures TakenAt(Steps(opts, args), p, n)
    {
      PhraseStep(opts, g, p, args, n);
    }
  }

  lemma GroupsAreUnderstood(opts: seq<OptionSpec>, groups: seq<Group>, args: seq<string>)
    requires UniqueNames(opts) && AllProper(opts, groups)
    ensures forall i :: 0 <= i < |groups| ==> Understood(Steps(opts, args), args, Phrases(opts, groups)[i])
  {
    forall i | 0 <= i < |groups|
      ensures Understood(Steps(opts, args), args, Phrases(opts, groups)[i])
    {
      GroupIsUnderstood(opts, groups[i], Phrases(opts, groups)[i], args);
    }
  }

  /** Running from n gives these events and goes on from m. */
  predicate RunsAs(steps: seq<Step>, n: nat, events: seq<Event>, m: nat) {
    var rest := RunSteps(steps, m);
    RunSteps(steps, n) == Outcome(events + rest.events, rest.thrown)
  }

  /** From position n the steps are those of the phrases, one after another. */
  predicate Placed(steps: seq<Step>, ps: seq<Phrase>, n: nat) {
    ps == [] ||
    (1 <= |ps[0].tokens| <= 2 && TakenAt(steps, ps[0], n) && Placed(steps, ps[1..], n + |ps[0].tokens|))
  }

  lemma {:induction false} PlacedRuns(steps: seq<Step>, ps: seq<Phrase>, n: nat)
    requires Placed(steps, ps, n)
    ensures RunsAs(steps, n, EventsOf(ps), n + |TokensOf(ps)|)
    decreases |ps|
  {
    var rest := RunSteps(steps, n + |TokensOf(ps)|);
    if ps == [] {
      assert [] + rest.events == rest.events;
    } else {
      PlacedRuns(steps, ps[1..], n + |ps[0].tokens|);
      Assoc(ps[0].events, EventsOf(ps[1..]), rest.events);
    }
  }

  lemma OccursFirst(args: seq<string>, p: Phrase, n: nat, others: seq<string>, after: seq<string>)
    requires n <= |args| && args[n..] == p.tokens + others + after
    ensures Occurs(args, p, n) && args[n + |p.tokens|..] == others + after
  {
    var m := |p.tokens|;
    assert args[n..n + m] == args[n..][..m];
    assert args[n + m..] == args[n..][m..];
  }

  lemma {:induction false} PhrasesArePlaced(steps: seq<Step>, args: seq<string>, ps: seq<Phrase>, n: nat,
                                            after: seq<string>)
    requires forall i :: 0 <= i < |ps| ==> Understood(steps, args, ps[i])
    requires n <= |args| && args[n..] == TokensOf(ps) + after
    ensures Placed(steps, ps, n)
    decreases |ps|
  {
    if ps == [] {
    } else {
      OccursFirst(args, ps[0], n, TokensOf(ps[1..]), after);
      PhrasesArePlaced(steps, args, ps[1..], n + |ps[0].tokens|, after);
    }
  }

  lemma PhrasesParse(steps: seq<Step>, args: seq<string>, ps: seq<Phrase>, n: nat, after: seq<string>)
    requires forall i :: 0 <= i < |ps| ==> Understood(steps, args, ps[i])
    requires n <= |args| && args[n..] == TokensOf(ps) + after
    ensures RunsAs(steps, n, EventsOf(ps), n + |TokensOf(ps)|)
  {
    PhrasesArePlaced(steps, args, ps, n, after);
    PlacedRuns(steps, ps, n);
  }

  /** Any mixture of spellings, followed by any other tokens: the groups store exactly their values in
      order, nothing is left over, and parsing goes on after them. */
  lemma GroupsParse(opts: seq<OptionSpec>, groups: seq<Group>, args: seq<string>, n: nat, after: seq<string>)
    requires UniqueNames(opts) && AllProper(opts, groups)
    requires n <= |args| && args[n..] == RenderAll(opts, groups) + after
    ensures RunsAs(Steps(opts, args), n, MeaningOfAll(opts, groups), n + |RenderAll(opts, groups)|)
  {
    GroupsAreUnderstood(opts, groups, args);
    PhrasesParse(Steps(opts, args), args, Phrases(opts, groups), n, after);
  }

  lemma {:induction false} SwitchesStore(ks: seq<nat>)
    ensures OnlyStores(SwitchEvents(ks))
  {
    if ks != [] {
      SwitchesStore(ks[1..]);
    }
  }

  lemma GroupStores(opts: seq<OptionSpec>, g: Group)
    requires Proper(opts, g)
    ensures OnlyStores(Meaning(opts, g))
  {
    if g.Cluster? || g.ShortAlone? || g.ShortJoined? || g.ShortSeparate? {
      SwitchesStore(g.switches);
    }
  }

  lemma {:induction false} PhrasesStore(ps: seq<Phrase>)
    requires forall i :: 0 <= i < |ps| ==> OnlyStores(ps[i].events)
    ensures OnlyStores(EventsOf(ps))
  {
    if ps != [] {
      PhrasesStore(ps[1..]);
    }
  }

  lemma MeaningLeavesNothing(opts: seq<OptionSpec>, groups: seq<Group>)
    requires AllProper(opts, groups)
    ensures NonOptionsOf(MeaningOfAll(opts, groups)) == [] && UnknownOf(MeaningOfAll(opts, groups)) == []
  {
    forall i | 0 <= i < |groups|
      ensures OnlyStores(Phrases(opts, groups)[i].events)
    {
      GroupStores(opts, groups[i]);
    }
    PhrasesStore(Phrases(opts, groups));
    StoresLeaveNothing(MeaningOfAll(opts, groups));
  }

  lemma RunsToEnd(steps: seq<Step>, n: nat, events: seq<Event>)
    requires RunsAs(steps, n, events, |steps|)
    ensures RunSteps(steps, n) == Outcome(events, false)
  {
    assert events + [] == events;
  }

  lemma ParsesToMeaning(opts: seq<OptionSpec>, program: string, groups: seq<Group>)
    requires UniqueNames(opts) && AllProper(opts, groups)
    ensures ParseFrom(opts, [program] + RenderAll(opts, groups), 1) == Outcome(MeaningOfAll(opts, groups), false)
  {
    var tokens := RenderAll(opts, groups);
    var args := [program] + tokens;
    assert args[1..] == tokens + [];
    GroupsParse(opts, groups, args, 1, []);
    RunsToEnd(Steps(opts, args), 1, MeaningOfAll(opts, groups));
  }

  /** Two command lines that say the same of each option, however they are spelled and however the options
      are interleaved, leave the same state behind, with no leftovers. */
  lemma SpellingsAgree(opts: seq<OptionSpec>, program: string, one: seq<Group>, other: seq<Group>, s: State)
    requires UniqueNames(opts) && AllProper(opts, one) && AllProper(opts, other) && |s.values| == |opts|
    requires forall k :: 0 <= k < |opts| ==>
      ValuesOf(MeaningOfAll(opts, one), k) == ValuesOf(MeaningOfAll(opts, other), k)
    ensures
      var p := ParseFrom(opts, [program] + RenderAll(opts, one), 1);
      var q := ParseFrom(opts, [program] + RenderAll(opts, other), 1);
      && !p.thrown && !q.thrown
      && Apply(s, p.events) == Apply(s, q.events)
      && Apply(s, p.events).nonOptions == s.nonOptions && Apply(s, p.events).unknown == s.unknown
  {
    ParsesToMeaning(opts, program, one);
    ParsesToMeaning(opts, program, other);
    SameValuesSameState(s, MeaningOfAll(opts, one), MeaningOfAll(opts, other));
    MeaningLeavesNothing(opts, one);
    MeaningLeavesNothing(opts, other);
  }

  lemma SameValuesSameState(s: State, a: seq<Event>, b: seq<Event>)
    requires forall k :: 0 <= k < |s.values| ==> ValuesOf(a, k) == ValuesOf(b, k)
    ensures NonOptionsOf(a) == NonOptionsOf(b) && UnknownOf(a) == UnknownOf(b) ==> Apply(s, a) == Apply(s, b)
  {
    assert Apply(s, a).values == Apply(s, b).values;
  }
}
