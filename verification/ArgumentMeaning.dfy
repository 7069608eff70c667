/** What is stored and what is refused, stated on the text of the tokens and the options' attributes. */
module ArgumentMeaning {
  import opened Fifo
  import opened Arguments
  import opened ArgumentPositions
  import opened ArgumentSpelling

  // ---------------------------------------------------------------------------------------------
  // One argument

  /** The option makes this value of this text. */
  predicate Denotes(o: OptionSpec, text: string, v: Val) {
    if o.kind == Switch then v == Flag(true)
    else if o.kind == Implicit && text == "" then o.default == Some(v)
    else match o.vtype
      case StringType => text != "" && v == Text(text)
      case BoolType => v == Flag(text in {"1", "true", "True", "TRUE"})
      case StreamType(read) => text != "" && read(text) == Some(v)
  }

  /** The option makes nothing of this text: an implicit option without a default, an empty argument, or one
      that the stream extraction does not read as a single value. */
  predicate Refuses(o: OptionSpec, text: string) {
    && o.kind != Switch
    && if o.kind == Implicit && text == "" then o.default.None?
       else match o.vtype
         case StringType => text == ""
         case BoolType => false
         case StreamType(read) => text == "" || read(text).None?
  }

  lemma AcceptDenotes(o: OptionSpec, text: string, v: Val)
    ensures Accept(o, text) == Some(v) <==> Denotes(o, text, v)
    ensures Accept(o, text).None? <==> Refuses(o, text)
  {
  }

  // ---------------------------------------------------------------------------------------------
  // Names

  /** `--name` means option k: the first of that name, and not inactive. */
  predicate LongNames(opts: seq<OptionSpec>, name: string, k: nat) {
    k < |opts| && opts[k].long == name && opts[k].attribute != Inactive && forall i :: 0 <= i < k ==> opts[i].long != name
  }

  predicate ShortNames(opts: seq<OptionSpec>, c: char, k: nat) {
    k < |opts| && opts[k].short == c && opts[k].attribute != Inactive && forall i :: 0 <= i < k ==> opts[i].short != c
  }

  lemma NamedLong(opts: seq<OptionSpec>, name: string, k: nat)
    ensures Active(opts, FindLong(opts, name)) == Some(k) <==> LongNames(opts, name, k)
  {
    var r := FindLong(opts, name);
    assert r.Some? && LongNames(opts, name, k) ==> !(r.value < k) && !(k < r.value);
  }

  lemma NamedShortly(opts: seq<OptionSpec>, c: char, k: nat)
    ensures NamedShort(opts, c) == Some(k) <==> ShortNames(opts, c, k)
  {
    var r := FindShort(opts, c);
    assert r.Some? && ShortNames(opts, c, k) ==> !(r.value < k) && !(k < r.value);
  }

  // ---------------------------------------------------------------------------------------------
  // When parse throws

  /** The argument an option gets: what stands in its own token, or, where it needs one and there is none, the
      next token. */
  function ArgumentOf(o: OptionSpec, own: string, following: Option<string>): string {
    if o.kind == Value && own == "" && following.Some? then following.value else own
  }

  ghost predicate LongThrows(opts: seq<OptionSpec>, arg: string, following: Option<string>)
    requires IsLong(arg)
  {
    exists k: nat :: LongNames(opts, LongName(arg[2..]), k)
      && Refuses(opts[k], ArgumentOf(opts[k], LongValue(arg[2..]), following))
  }

  /** The character at j is reached, and its option refuses what follows. */
  ghost predicate LetterThrows(opts: seq<OptionSpec>, s: string, following: Option<string>, j: nat) {
    && j < |s| && AllPass(opts, s[..j])
    && exists k: nat :: ShortNames(opts, s[j], k) && Refuses(opts[k], ArgumentOf(opts[k], s[j + 1..], following))
  }

  ghost predicate ShortThrows(opts: seq<OptionSpec>, s: string, following: Option<string>) {
    exists j: nat :: LetterThrows(opts, s, following, j)
  }

  ghost predicate ThrowsAt(opts: seq<OptionSpec>, args: seq<string>, p: nat) {
    && p < |args|
    && if IsLong(args[p]) then LongThrows(opts, args[p], Following(args, p))
       else IsShort(args[p]) && ShortThrows(opts, args[p][1..], Following(args, p))
  }

  lemma LongThrowsIff(opts: seq<OptionSpec>, arg: string, following: Option<string>)
    requires IsLong(arg)
    ensures LongStep(opts, arg, following).outcome.thrown <==> LongThrows(opts, arg, following)
  {
    var name, own := LongName(arg[2..]), LongValue(arg[2..]);
    var r := Active(opts, FindLong(opts, name));
    if r.Some? {
      NamedLong(opts, name, r.value);
      AcceptDenotes(opts[r.value], ArgumentOf(opts[r.value], own, following), Flag(true));
      forall k: nat | LongNames(opts, name, k) ensures k == r.value {
        NamedLong(opts, name, k);
      }
    } else {
      forall k: nat ensures !LongNames(opts, name, k) {
        NamedLong(opts, name, k);
      }
    }
  }

  /** The first character throws, or it passes and the rest throws. */
  lemma ShortThrowsStep(opts: seq<OptionSpec>, s: string, following: Option<string>)
    requires s != ""
    ensures ShortThrows(opts, s, following) <==>
      LetterThrows(opts, s, following, 0) || (Passes(opts, s[0]) && ShortThrows(opts, s[1..], following))
  {
    forall j: nat | 1 <= j < |s|
      ensures LetterThrows(opts, s, following, j) <==> Passes(opts, s[0]) && LetterThrows(opts, s[1..], following, j - 1)
    {
      PrefixPasses(opts, s, j);
      assert s[1..][j - 1] == s[j] && s[1..][j..] == s[j + 1..];
    }
    if Passes(opts, s[0]) && ShortThrows(opts, s[1..], following) {
      var j: nat :| LetterThrows(opts, s[1..], following, j);
      assert LetterThrows(opts, s, following, j + 1);
    }
    if j: nat :| LetterThrows(opts, s, following, j) && j > 0 {
      assert LetterThrows(opts, s[1..], following, j - 1);
    }
  }

  lemma FirstLetterThrows(opts: seq<OptionSpec>, s: string, following: Option<string>)
    requires s != ""
    ensures
      var r := NamedShort(opts, s[0]);
      LetterThrows(opts, s, following, 0) <==>
        r.Some? && Refuses(opts[r.value], ArgumentOf(opts[r.value], s[1..], following))
  {
    var r := NamedShort(opts, s[0]);
    assert AllPass(opts, s[..0]);
    if r.Some? {
      NamedShortly(opts, s[0], r.value);
      forall k: nat | ShortNames(opts, s[0], k) ensures k == r.value {
        NamedShortly(opts, s[0], k);
      }
    } else {
      forall k: nat ensures !ShortNames(opts, s[0], k) {
        NamedShortly(opts, s[0], k);
      }
    }
  }

  lemma {:induction false} ScanThrowsIff(opts: seq<OptionSpec>, s: string, following: Option<string>)
    ensures ScanShort(opts, s, following).stores.thrown <==> ShortThrows(opts, s, following)
  {
    if s != "" {
      ShortThrowsStep(opts, s, following);
      FirstLetterThrows(opts, s, following);
      ScanThrowsIff(opts, s[1..], following);
      var r := NamedShort(opts, s[0]);
      if r.Some? {
        AcceptDenotes(opts[r.value], ArgumentOf(opts[r.value], s[1..], following), Flag(true));
      }
    }
  }

  /** A token makes parse throw exactly if it reaches an option that refuses its argument. */
  lemma StepThrowsIff(opts: seq<OptionSpec>, args: seq<string>, p: nat)
    requires p < |args|
    ensures StepAt(opts, args, p).outcome.thrown <==> ThrowsAt(opts, args, p)
  {
    if IsLong(args[p]) {
      LongThrowsIff(opts, args[p], Following(args, p));
    } else if IsShort(args[p]) {
      ScanThrowsIff(opts, args[p][1..], Following(args, p));
    }
  }

  ghost predicate SomeThrows(opts: seq<OptionSpec>, args: seq<string>, hs: seq<nat>) {
    exists i :: 0 <= i < |hs| && ThrowsAt(opts, args, hs[i])
  }

  lemma SomeThrowsStep(opts: seq<OptionSpec>, args: seq<string>, p: nat, hs: seq<nat>)
    ensures SomeThrows(opts, args, [p] + hs) <==> ThrowsAt(opts, args, p) || SomeThrows(opts, args, hs)
  {
    var all := [p] + hs;
    assert all[0] == p && forall i :: 0 <= i < |hs| ==> hs[i] == all[i + 1];
    assert forall i :: 1 <= i < |all| ==> all[i] == hs[i - 1];
  }

  ghost predicate StepsThrow(opts: seq<OptionSpec>, args: seq<string>, steps: seq<Step>) {
    |steps| == |args| && forall p :: 0 <= p < |args| ==>
      && (steps[p].outcome.thrown <==> ThrowsAt(opts, args, p))
      && (steps[p].tookNext <==> TakesNext(opts, args, p))
  }

  lemma {:induction false} RunThrowsIff(opts: seq<OptionSpec>, args: seq<string>, steps: seq<Step>, n: nat)
    requires StepsThrow(opts, args, steps)
    ensures RunSteps(steps, n).thrown <==> SomeThrows(opts, args, Heads(opts, args, n))
    decreases |args| - n
  {
    if n < |args| {
      var m := if TakesNext(opts, args, n) then n + 2 else n + 1;
      RunThrowsIff(opts, args, steps, m);
      SomeThrowsStep(opts, args, n, Heads(opts, args, m));
    }
  }

  /** parse throws an invalid argument exactly if some token on its way does. */
  lemma ParseThrowsIff(opts: seq<OptionSpec>, args: seq<string>, n: nat)
    ensures ParseFrom(opts, args, n).thrown <==> SomeThrows(opts, args, Heads(opts, args, n))
  {
    var steps := Steps(opts, args);
    forall p | 0 <= p < |args|
      ensures steps[p].outcome.thrown <==> ThrowsAt(opts, args, p)
      ensures steps[p].tookNext <==> TakesNext(opts, args, p)
    {
      StepThrowsIff(opts, args, p);
      StepMeans(opts, args, p);
    }
    RunThrowsIff(opts, args, steps, n);
  }

  // ---------------------------------------------------------------------------------------------
  // Inactive options

  predicate StoresActive(opts: seq<OptionSpec>, events: seq<Event>) {
    forall i :: 0 <= i < |events| && events[i].Stored? ==>
      events[i].index < |opts| && opts[events[i].index].attribute != Inactive
  }

  lemma {:induction false} ScanStoresActive(opts: seq<OptionSpec>, s: string, following: Option<string>)
    ensures StoresActive(opts, ScanShort(opts, s, following).stores.events)
  {
    if s != "" {
      ScanStoresActive(opts, s[1..], following);
      var r := NamedShort(opts, s[0]);
      if r.Some? {
        NamedShortly(opts, s[0], r.value);
      }
    }
  }

  lemma StepStoresActive(opts: seq<OptionSpec>, args: seq<string>, p: nat)
    requires p < |args|
    ensures StoresActive(opts, StepAt(opts, args, p).outcome.events)
  {
    if IsLong(args[p]) {
      var r := Active(opts, FindLong(opts, LongName(args[p][2..])));
      if r.Some? {
        NamedLong(opts, LongName(args[p][2..]), r.value);
      }
    } else if IsShort(args[p]) {
      ScanStoresActive(opts, args[p][1..], Following(args, p));
    }
  }

  lemma {:induction false} RunStoresActive(opts: seq<OptionSpec>, steps: seq<Step>, n: nat)
    requires forall p :: 0 <= p < |steps| ==> StoresActive(opts, steps[p].outcome.events)
    ensures StoresActive(opts, RunSteps(steps, n).events)
    decreases |steps| - n
  {
    if n < |steps| && !steps[n].outcome.thrown {
      RunStoresActive(opts, steps, if steps[n].tookNext then n + 2 else n + 1);
    }
  }

  lemma {:induction false} NothingForInactive(opts: seq<OptionSpec>, events: seq<Event>, k: nat)
    requires StoresActive(opts, events) && k < |opts| && opts[k].attribute == Inactive
    ensures ValuesOf(events, k) == []
  {
    if events != [] {
      assert events[0].Stored? ==> events[0].index != k;
      NothingForInactive(opts, events[1..], k);
    }
  }

  /** No parse stores anything in an inactive option. */
  lemma InactiveIsUntouched(opts: seq<OptionSpec>, args: seq<string>, n: nat, k: nat)
    requires k < |opts| && opts[k].attribute == Inactive
    ensures ValuesOf(ParseFrom(opts, args, n).events, k) == []
  {
    forall p | 0 <= p < |args|
      ensures StoresActive(opts, Steps(opts, args)[p].outcome.events)
    {
      StepStoresActive(opts, args, p);
    }
    RunStoresActive(opts, Steps(opts, args), n);
    NothingForInactive(opts, ParseFrom(opts, args, n).events, k);
  }

  /** A token that names an inactive option is unknown: it stores nothing, uses nothing and does not throw. */
  lemma InactiveIsUnknown(opts: seq<OptionSpec>, args: seq<string>, p: nat, k: nat)
    requires p < |args| && k < |opts| && opts[k].attribute == Inactive
    requires
      || (&& IsLong(args[p]) && opts[k].long == LongName(args[p][2..])
          && forall i :: 0 <= i < k ==> opts[i].long != opts[k].long)
      || (&& IsShort(args[p]) && args[p] == ['-', opts[k].short]
          && forall i :: 0 <= i < k ==> opts[i].short != opts[k].short)
    ensures StepAt(opts, args, p) == Step(Outcome([UnknownOption(args[p])], false), false)
  {
    if IsLong(args[p]) {
      var r := FindLong(opts, opts[k].long);
      assert r.Some? && !(r.value < k) && !(k < r.value);
    } else {
      var s := args[p][1..];
      var r := FindShort(opts, s[0]);
      assert s == [opts[k].short] && s[1..] == "";
      assert r.Some? && !(r.value < k) && !(k < r.value);
      assert ScanShort(opts, s[1..], Following(args, p)) == Scan(Outcome([], false), false, false);
      assert [] + [UnknownOption(args[p])] == [UnknownOption(args[p])];
    }
  }

  // ---------------------------------------------------------------------------------------------
  // What any command line leaves behind

  /** The values are what the option makes of the texts, one by one. */
  predicate AllDenote(o: OptionSpec, texts: seq<string>, values: seq<Val>) {
    |values| == |texts| && forall i :: 0 <= i < |texts| ==> Denotes(o, texts[i], values[i])
  }

  lemma DenoteConcat(o: OptionSpec, s: seq<string>, x: seq<Val>, t: seq<string>, y: seq<Val>)
    requires AllDenote(o, s, x) && AllDenote(o, t, y)
    ensures AllDenote(o, s + t, x + y)
  {
  }

  function Text1(given: bool, text: string): seq<string> {
    if given then [text] else []
  }

  /** The text that `--name` or `--name=value` gives to option k: a switch takes no value. */
  ghost function LongText(opts: seq<OptionSpec>, arg: string, following: Option<string>, k: nat): seq<string>
    requires IsLong(arg) && k < |opts|
  {
    var text := ArgumentOf(opts[k], LongValue(arg[2..]), following);
    var named := LongNames(opts, LongName(arg[2..]), k) && (opts[k].kind == Switch ==> text == "");
    Text1(named && !Refuses(opts[k], text), text)
  }

  /** The text that the character at j gives to option k, if it is reached. */
  ghost function LetterText(opts: seq<OptionSpec>, s: string, following: Option<string>, k: nat, j: nat): seq<string>
    requires j < |s| && k < |opts|
  {
    var text := ArgumentOf(opts[k], s[j + 1..], following);
    Text1(AllPass(opts, s[..j]) && ShortNames(opts, s[j], k) && !Refuses(opts[k], text), text)
  }

  function Joined(texts: seq<seq<string>>): seq<string> {
    if texts == [] then [] else texts[0] + Joined(texts[1..])
  }

  ghost function ByLetter(opts: seq<OptionSpec>, s: string, following: Option<string>, k: nat): (r: seq<seq<string>>)
    requires k < |opts|
    ensures |r| == |s|
  {
    seq(|s|, j requires 0 <= j < |s| => LetterText(opts, s, following, k, j))
  }

  /** The texts that the characters of a short token give to option k. */
  ghost function LetterTexts(opts: seq<OptionSpec>, s: string, following: Option<string>, k: nat): seq<string>
    requires k < |opts|
  {
    Joined(ByLetter(opts, s, following, k))
  }

  /** The texts that the token at p gives to option k. */
  ghost function TextsAt(opts: seq<OptionSpec>, args: seq<string>, p: nat, k: nat): seq<string>
    requires p < |args| && k < |opts|
  {
    if IsLong(args[p]) then LongText(opts, args[p], Following(args, p), k)
    else if IsShort(args[p]) then LetterTexts(opts, args[p][1..], Following(args, p), k)
    else []
  }

  /** What an option does with an argument. */
  lemma StoredDenotes(opts: seq<OptionSpec>, r: nat, text: string, k: nat)
    requires r < |opts| && k < |opts|
    ensures AllDenote(opts[k], Text1(r == k && !Refuses(opts[k], text), text), ValuesOf(Store(opts, r, text).events, k))
  {
    AcceptDenotes(opts[r], text, Flag(true));
    if Accept(opts[r], text).Some? {
      var v := Accept(opts[r], text).value;
      AcceptDenotes(opts[r], text, v);
      OneValue(r, v);
      if r != k {
        NoValue([Stored(r, v)], k);
      }
    }
  }

  lemma LongDenotes(opts: seq<OptionSpec>, arg: string, following: Option<string>, k: nat)
    requires IsLong(arg) && k < |opts|
    ensures AllDenote(opts[k], LongText(opts, arg, following, k),
                      ValuesOf(LongStep(opts, arg, following).outcome.events, k))
  {
    var name, own := LongName(arg[2..]), LongValue(arg[2..]);
    var r := Active(opts, FindLong(opts, name));
    NamedLong(opts, name, k);
    if r.None? || (opts[r.value].kind == Switch && own != "") {
      NoValue([UnknownOption(arg)], k);
    } else {
      StoredDenotes(opts, r.value, ArgumentOf(opts[r.value], own, following), k);
    }
  }

  lemma OneValue(k: nat, v: Val)
    ensures ValuesOf([Stored(k, v)], k) == [v]
  {
    assert [Stored(k, v)][1..] == [];
  }

  lemma {:induction false} NoValue(events: seq<Event>, k: nat)
    requires forall i :: 0 <= i < |events| && events[i].Stored? ==> events[i].index != k
    ensures ValuesOf(events, k) == []
  {
    if events != [] {
      NoValue(events[1..], k);
    }
  }

  lemma LetterTextShift(opts: seq<OptionSpec>, s: string, following: Option<string>, k: nat, j: nat)
    requires k < |opts| && 1 <= j < |s|
    ensures LetterText(opts, s, following, k, j)
         == if Passes(opts, s[0]) then LetterText(opts, s[1..], following, k, j - 1) else []
  {
    PrefixPasses(opts, s, j);
    assert s[1..][j - 1] == s[j] && s[1..][j..] == s[j + 1..];
  }

  lemma {:induction false} NothingJoined(texts: seq<seq<string>>)
    requires forall i :: 0 <= i < |texts| ==> texts[i] == []
    ensures Joined(texts) == []
  {
    if texts != [] {
      NothingJoined(texts[1..]);
    }
  }

  /** Behind a character that passes, the texts are those of the rest of the token; behind any other, there
      are none. */
  lemma LetterTextsTail(opts: seq<OptionSpec>, s: string, following: Option<string>, k: nat)
    requires k < |opts| && s != ""
    ensures LetterTexts(opts, s, following, k)
         == LetterText(opts, s, following, k, 0)
            + if Passes(opts, s[0]) then LetterTexts(opts, s[1..], following, k) else []
  {
    var all, rest := ByLetter(opts, s, following, k), ByLetter(opts, s[1..], following, k);
    forall j | 0 <= j < |rest|
      ensures all[1..][j] == if Passes(opts, s[0]) then rest[j] else []
    {
      ByLetterTail(opts, s, following, k, j);
      assert all[1..][j] == all[j + 1];
    }
    JoinedTail(all, rest, Passes(opts, s[0]));
  }

  lemma ByLetterTail(opts: seq<OptionSpec>, s: string, following: Option<string>, k: nat, j: nat)
    requires k < |opts| && j + 1 < |s|
    ensures ByLetter(opts, s, following, k)[j + 1]
         == if Passes(opts, s[0]) then ByLetter(opts, s[1..], following, k)[j] else []
  {
    LetterTextShift(opts, s, following, k, j + 1);
  }

  lemma JoinedTail(all: seq<seq<string>>, rest: seq<seq<string>>, same: bool)
    requires |all| == |rest| + 1 && forall j :: 0 <= j < |rest| ==> all[1..][j] == if same then rest[j] else []
    ensures Joined(all) == all[0] + if same then Joined(rest) else []
  {
    if same {
      assert all[1..] == rest;
    } else {
      NothingJoined(all[1..]);
    }
  }

  lemma FirstLetterText(opts: seq<OptionSpec>, s: string, following: Option<string>, k: nat)
    requires s != "" && k < |opts|
    ensures
      var text := ArgumentOf(opts[k], s[1..], following);
      LetterText(opts, s, following, k, 0) == Text1(NamedShort(opts, s[0]) == Some(k) && !Refuses(opts[k], text), text)
  {
    NamedShortly(opts, s[0], k);
    assert AllPass(opts, s[..0]);
  }

  /** A switch, and the rest of the token behind it. */
  lemma SwitchDenotes(opts: seq<OptionSpec>, r: nat, text: string, k: nat, texts: seq<string>, rest: seq<Event>)
    requires r < |opts| && k < |opts| && opts[r].kind == Switch && AllDenote(opts[k], texts, ValuesOf(rest, k))
    ensures AllDenote(opts[k], Text1(r == k, text) + texts, ValuesOf([Stored(r, Flag(true))] + rest, k))
  {
    var e := Stored(r, Flag(true));
    assert ([e] + rest)[1..] == rest;
    DenoteConcat(opts[k], Text1(r == k, text), ValueOf(e, k), texts, ValuesOf(rest, k));
  }

  lemma {:induction false} ScanDenotes(opts: seq<OptionSpec>, s: string, following: Option<string>, k: nat)
    requires k < |opts|
    ensures AllDenote(opts[k], LetterTexts(opts, s, following, k),
                      ValuesOf(ScanShort(opts, s, following).stores.events, k))
  {
    if s != "" {
      var r, text := NamedShort(opts, s[0]), ArgumentOf(opts[k], s[1..], following);
      var rest, texts := ScanShort(opts, s[1..], following).stores.events, LetterTexts(opts, s[1..], following, k);
      ScanDenotes(opts, s[1..], following, k);
      LetterTextsTail(opts, s, following, k);
      FirstLetterText(opts, s, following, k);
      if r.None? {
        assert [] + texts == texts;
      } else if opts[r.value].kind == Switch {
        SwitchDenotes(opts, r.value, text, k, texts, rest);
      } else {
        StoredDenotes(opts, r.value, ArgumentOf(opts[r.value], s[1..], following), k);
        assert LetterText(opts, s, following, k, 0) + [] == LetterText(opts, s, following, k, 0);
      }
    }
  }

  lemma ShortDenotes(opts: seq<OptionSpec>, arg: string, following: Option<string>, k: nat)
    requires IsShort(arg) && k < |opts|
    ensures AllDenote(opts[k], LetterTexts(opts, arg[1..], following, k),
                      ValuesOf(ShortStep(opts, arg, following).outcome.events, k))
  {
    ScanDenotes(opts, arg[1..], following, k);
    var events := ScanShort(opts, arg[1..], following).stores.events;
    ValuesOfConcat(events, [UnknownOption(arg)], k);
    NoValue([UnknownOption(arg)], k);
  }

  /** The values a token gives to option k are what the option makes of the texts the token has for it, also
      if the token throws in the end. */
  lemma StepDenotes(opts: seq<OptionSpec>, args: seq<string>, p: nat, k: nat)
    requires p < |args| && k < |opts|
    ensures AllDenote(opts[k], TextsAt(opts, args, p, k), ValuesOf(StepAt(opts, args, p).outcome.events, k))
  {
    if IsLong(args[p]) {
      LongDenotes(opts, args[p], Following(args, p), k);
    } else if IsShort(args[p]) {
      ShortDenotes(opts, args[p], Following(args, p), k);
    } else {
      NoValue(StepAt(opts, args, p).outcome.events, k);
    }
  }

  /** A token that throws leaves nothing in the two lists. */
  lemma ThrowingStepLeavesNothing(opts: seq<OptionSpec>, args: seq<string>, p: nat)
    requires p < |args| && StepAt(opts, args, p).outcome.thrown
    ensures
      var events := StepAt(opts, args, p).outcome.events;
      NonOptionsOf(events) == [] && UnknownOf(events) == []
  {
    if IsShort(args[p]) {
      ScanStores(opts, args[p][1..], Following(args, p));
    }
    StoresLeaveNothing(StepAt(opts, args, p).outcome.events);
  }

  /** The texts for option k up to the first token that throws. */
  ghost function GatherTexts(opts: seq<OptionSpec>, args: seq<string>, hs: seq<nat>, k: nat): seq<string>
    requires InArgs(args, hs) && k < |opts|
  {
    if hs == [] then []
    else TextsAt(opts, args, hs[0], k) + if ThrowsAt(opts, args, hs[0]) then [] else GatherTexts(opts, args, hs[1..], k)
  }

  /** The tokens before the first that throws. */
  ghost function Reached(opts: seq<OptionSpec>, args: seq<string>, hs: seq<nat>): (r: seq<nat>)
    requires InArgs(args, hs)
    ensures r <= hs && InArgs(args, r)
  {
    if hs == [] || ThrowsAt(opts, args, hs[0]) then [] else [hs[0]] + Reached(opts, args, hs[1..])
  }

  ghost predicate StepsMean(opts: seq<OptionSpec>, args: seq<string>, steps: seq<Step>) {
    |steps| == |args| && forall p :: 0 <= p < |args| ==> StepMeant(opts, args, p, steps[p])
  }

  ghost predicate StepMeant(opts: seq<OptionSpec>, args: seq<string>, p: nat, s: Step)
    requires p < |args|
  {
    && (s.outcome.thrown <==> ThrowsAt(opts, args, p)) && (s.tookNext <==> TakesNext(opts, args, p))
    && NonOptionsOf(s.outcome.events) == (if s.outcome.thrown then [] else NonOptionsAt(args, p))
    && UnknownOf(s.outcome.events) == (if s.outcome.thrown then [] else UnknownAt(opts, args, p))
    && forall k :: 0 <= k < |opts| ==> AllDenote(opts[k], TextsAt(opts, args, p, k), ValuesOf(s.outcome.events, k))
  }

  lemma StepIsMeant(opts: seq<OptionSpec>, args: seq<string>, p: nat)
    requires p < |args|
    ensures StepMeant(opts, args, p, StepAt(opts, args, p))
  {
    StepThrowsIff(opts, args, p);
    StepMeans(opts, args, p);
    if StepAt(opts, args, p).outcome.thrown {
      ThrowingStepLeavesNothing(opts, args, p);
    }
    forall k | 0 <= k < |opts|
      ensures AllDenote(opts[k], TextsAt(opts, args, p, k), ValuesOf(StepAt(opts, args, p).outcome.events, k))
    {
      StepDenotes(opts, args, p, k);
    }
  }

  lemma {:induction false} RunGathers(opts: seq<OptionSpec>, args: seq<string>, steps: seq<Step>, n: nat)
    requires StepsMean(opts, args, steps)
    ensures
      var events, hs := RunSteps(steps, n).events, Heads(opts, args, n);
      && NonOptionsOf(events) == GatherNonOptions(args, Reached(opts, args, hs))
      && UnknownOf(events) == GatherUnknown(opts, args, Reached(opts, args, hs))
    decreases |args| - n
  {
    if n < |args| {
      assert StepMeant(opts, args, n, steps[n]);
      var m := if steps[n].tookNext then n + 2 else n + 1;
      RunGathers(opts, args, steps, m);
      HeadsStep(opts, args, n);
      NonOptionsOfConcat(steps[n].outcome.events, RunSteps(steps, m).events);
      UnknownOfConcat(steps[n].outcome.events, RunSteps(steps, m).events);
    }
  }

  lemma HeadsStep(opts: seq<OptionSpec>, args: seq<string>, n: nat)
    requires n < |args|
    ensures
      var hs, rest := Heads(opts, args, n), Heads(opts, args, if TakesNext(opts, args, n) then n + 2 else n + 1);
      hs != [] && hs[0] == n && hs[1..] == rest
  {
  }

  lemma {:induction false} RunDenotes(opts: seq<OptionSpec>, args: seq<string>, steps: seq<Step>, n: nat, k: nat)
    requires StepsMean(opts, args, steps) && k < |opts|
    ensures AllDenote(opts[k], GatherTexts(opts, args, Heads(opts, args, n), k), ValuesOf(RunSteps(steps, n).events, k))
    decreases |args| - n
  {
    if n < |args| {
      assert StepMeant(opts, args, n, steps[n]);
      var m := if steps[n].tookNext then n + 2 else n + 1;
      HeadsStep(opts, args, n);
      var texts, values := TextsAt(opts, args, n, k), ValuesOf(steps[n].outcome.events, k);
      if steps[n].outcome.thrown {
        assert texts + [] == texts;
      } else {
        RunDenotes(opts, args, steps, m, k);
        ValuesOfConcat(steps[n].outcome.events, RunSteps(steps, m).events, k);
        DenoteConcat(opts[k], texts, values,
                     GatherTexts(opts, args, Heads(opts, args, m), k), ValuesOf(RunSteps(steps, m).events, k));
      }
    }
  }

  /** Any command line at all, also one that throws: each option gains what it makes of the texts the tokens
      give it, and the two lists gain what the tokens before the throwing one put there, in order. */
  lemma ParseLeaves(opts: seq<OptionSpec>, args: seq<string>, n: nat)
    ensures
      var events, hs := ParseFrom(opts, args, n).events, Heads(opts, args, n);
      && (forall k :: 0 <= k < |opts| ==> AllDenote(opts[k], GatherTexts(opts, args, hs, k), ValuesOf(events, k)))
      && NonOptionsOf(events) == GatherNonOptions(args, Reached(opts, args, hs))
      && UnknownOf(events) == GatherUnknown(opts, args, Reached(opts, args, hs))
  {
    var steps := Steps(opts, args);
    forall p | 0 <= p < |args| ensures StepMeant(opts, args, p, steps[p]) {
      StepIsMeant(opts, args, p);
    }
    RunGathers(opts, args, steps, n);
    forall k | 0 <= k < |opts|
      ensures AllDenote(opts[k], GatherTexts(opts, args, Heads(opts, args, n), k),
                        ValuesOf(ParseFrom(opts, args, n).events, k))
    {
      RunDenotes(opts, args, steps, n, k);
    }
  }

  // ---------------------------------------------------------------------------------------------
  // What a command line says of one option

  /** One empty text for each time the switch is written. */
  function SwitchTexts(ks: seq<nat>, k: nat): seq<string> {
    if ks == [] then [] else TextFor(ks[0], k, "") + SwitchTexts(ks[1..], k)
  }

  function TextFor(j: nat, k: nat, text: string): seq<string> {
    Text1(j == k, text)
  }

  /** The texts that a group writes for option k, in order; the empty text where it writes none. */
  function TextsIn(g: Group, k: nat): seq<string> {
    match g
    case LongAlone(j) => TextFor(j, k, "")
    case LongEquals(j, v) => TextFor(j, k, v)
    case LongSeparate(j, v) => TextFor(j, k, v)
    case Cluster(ks) => SwitchTexts(ks, k)
    case ShortAlone(ks, j) => SwitchTexts(ks, k) + TextFor(j, k, "")
    case ShortJoined(ks, j, v) => SwitchTexts(ks, k) + TextFor(j, k, v)
    case ShortSeparate(ks, j, v) => SwitchTexts(ks, k) + TextFor(j, k, v)
  }

  function TextsInAll(groups: seq<Group>, k: nat): seq<string> {
    if groups == [] then [] else TextsIn(groups[0], k) + TextsInAll(groups[1..], k)
  }

  lemma {:induction false} SwitchesDenote(opts: seq<OptionSpec>, ks: seq<nat>, k: nat)
    requires AreSwitches(opts, ks) && k < |opts|
    ensures AllDenote(opts[k], SwitchTexts(ks, k), ValuesOf(SwitchEvents(ks), k))
  {
    if ks != [] {
      SwitchesDenote(opts, ks[1..], k);
      var e := SwitchEvents(ks);
      assert e[0] == Stored(ks[0], Flag(true)) && e[1..] == SwitchEvents(ks[1..]);
      DenoteConcat(opts[k], TextFor(ks[0], k, ""), ValueOf(e[0], k), SwitchTexts(ks[1..], k), ValuesOf(e[1..], k));
    }
  }

  lemma ReadDenotes(opts: seq<OptionSpec>, j: nat, text: string, k: nat)
    requires j < |opts| && k < |opts| && Accept(opts[j], text).Some?
    ensures AllDenote(opts[k], TextFor(j, k, text), ValuesOf([Reads(opts, j, text)], k))
  {
    var e := [Reads(opts, j, text)];
    AcceptDenotes(opts[j], text, Accept(opts[j], text).value);
    assert e[1..] == [] && ValuesOf(e, k) == ValueOf(e[0], k);
  }

  lemma ClusterDenotes(opts: seq<OptionSpec>, ks: seq<nat>, j: nat, text: string, k: nat)
    requires AreSwitches(opts, ks) && j < |opts| && k < |opts| && Accept(opts[j], text).Some?
    ensures AllDenote(opts[k], SwitchTexts(ks, k) + TextFor(j, k, text),
                      ValuesOf(SwitchEvents(ks) + [Reads(opts, j, text)], k))
  {
    SwitchesDenote(opts, ks, k);
    ReadDenotes(opts, j, text, k);
    ValuesOfConcat(SwitchEvents(ks), [Reads(opts, j, text)], k);
    DenoteConcat(opts[k], SwitchTexts(ks, k), ValuesOf(SwitchEvents(ks), k),
                 TextFor(j, k, text), ValuesOf([Reads(opts, j, text)], k));
  }

  lemma GroupDenotes(opts: seq<OptionSpec>, g: Group, k: nat)
    requires Proper(opts, g) && k < |opts|
    ensures AllDenote(opts[k], TextsIn(g, k), ValuesOf(Meaning(opts, g), k))
  {
    match g
    case LongAlone(j) => ReadDenotes(opts, j, "", k);
    case LongEquals(j, v) => ReadDenotes(opts, j, v, k);
    case LongSeparate(j, v) => ReadDenotes(opts, j, v, k);
    case Cluster(ks) => SwitchesDenote(opts, ks, k);
    case ShortAlone(ks, j) => ClusterDenotes(opts, ks, j, "", k);
    case ShortJoined(ks, j, v) => ClusterDenotes(opts, ks, j, v, k);
    case ShortSeparate(ks, j, v) => ClusterDenotes(opts, ks, j, v, k);
  }

  /** The values a command line gives to an option are, in order, what the option makes of the texts written
      for it, however the line is spelled. */
  lemma {:induction false} GroupsDenote(opts: seq<OptionSpec>, groups: seq<Group>, k: nat)
    requires AllProper(opts, groups) && k < |opts|
    ensures AllDenote(opts[k], TextsInAll(groups, k), ValuesOf(MeaningOfAll(opts, groups), k))
  {
    if groups != [] {
      var g, rest := groups[0], groups[1..];
      assert Phrases(opts, groups)[1..] == Phrases(opts, rest);
      assert MeaningOfAll(opts, groups) == Meaning(opts, g) + MeaningOfAll(opts, rest);
      GroupDenotes(opts, g, k);
      GroupsDenote(opts, rest, k);
      ValuesOfConcat(Meaning(opts, g), MeaningOfAll(opts, rest), k);
      DenoteConcat(opts[k], TextsIn(g, k), ValuesOf(Meaning(opts, g), k),
                   TextsInAll(rest, k), ValuesOf(MeaningOfAll(opts, rest), k));
    }
  }

  function AsText(texts: seq<string>): (values: seq<Val>)
    ensures |values| == |texts|
  {
    seq(|texts|, i requires 0 <= i < |texts| => Text(texts[i]))
  }

  /** A string option stores the texts themselves. */
  lemma StringsAreStored(opts: seq<OptionSpec>, groups: seq<Group>, k: nat)
    requires AllProper(opts, groups) && k < |opts| && opts[k].kind == Value && opts[k].vtype.StringType?
    ensures ValuesOf(MeaningOfAll(opts, groups), k) == AsText(TextsInAll(groups, k))
  {
    GroupsDenote(opts, groups, k);
  }
}
