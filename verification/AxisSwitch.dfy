/** axis_switch at the level of its four queues: one clock edge, whole runs, and what the runs
    deliver. `D` is the payload of a beat (tdata, tkeep and tdest together). */
module AxisSwitch {
  import opened Fifo

  datatype Word<D> = Word(payload: D, last: bool)

  /** What the environment drives in one cycle. */
  datatype Input<D> = Input(
    aresetn: bool,
    headerValid: bool, header: D,
    data0Valid: bool, data0: D,
    data1Valid: bool, data1: D, data1Last: bool,
    outReady: bool)

  /** The `state` register and the contents of the four slices. */
  datatype Switch<D> = Switch(
    state: nat,
    headerQ: Queue<Word<D>>, data0Q: Queue<Word<D>>, data1Q: Queue<Word<D>>, outQ: Queue<Word<D>>)
  {
    /** The beat the output muxes select; in state 2'b11 they select nothing. */
    function Selected(): Option<Word<D>> {
      if state == 0 then headerQ.Head() else if state == 1 then data0Q.Head()
      else if state == 2 then data1Q.Head() else None
    }

    /** valid and ready on the wires in front of the output slice. */
    predicate Transfers() {
      Selected().Some? && outQ.CanAccept()
    }
  }

  function Reset<D>(): Switch<D> {
    Switch(0, Empty, Empty, Empty, Empty)
  }

  /** The state register after a beat `b` has gone through in state `st`. */
  function NextPhase<D>(st: nat, b: Word<D>): nat {
    if st == 0 then 1 else if st == 1 then 2 else if st == 2 && !b.last then 1 else 0
  }

  /** The output slice's tlast input is tied to zero. */
  function Strip<D>(b: Word<D>): Word<D> {
    Word(b.payload, false)
  }

  function StripOption<D>(b: Option<Word<D>>): Option<Word<D>> {
    if b.Some? then Some(Strip(b.value)) else None
  }

  function Header<D>(i: Input<D>): Option<Word<D>> {
    Some(Word(i.header, false)).If(i.headerValid)
  }

  function Data0<D>(i: Input<D>): Option<Word<D>> {
    Some(Word(i.data0, false)).If(i.data0Valid)
  }

  function Data1<D>(i: Input<D>): Option<Word<D>> {
    Some(Word(i.data1, i.data1Last)).If(i.data1Valid)
  }

  /** One rising edge of aclk. */
  function Step<D>(s: Switch<D>, i: Input<D>): Switch<D> {
    if !i.aresetn then Reset()
    else
      var ready := s.outQ.CanAccept();
      Switch(
        if s.state > 2 then 0 else if s.Transfers() then NextPhase(s.state, s.Selected().value) else s.state,
        s.headerQ.Step(Header(i), s.state == 0 && ready),
        s.data0Q.Step(Data0(i), s.state == 1 && ready),
        s.data1Q.Step(Data1(i), s.state == 2 && ready),
        s.outQ.Step(StripOption(s.Selected()), i.outReady))
  }

  // ---------------------------------------------------------------------------------------------
  // Runs

  /** The switch together with what has crossed its four ports since the last reset. */
  datatype Observation<D> = Observation(
    s: Switch<D>,
    headers: seq<Word<D>>, data0: seq<Word<D>>, data1: seq<Word<D>>, out: seq<Word<D>>)

  function Start<D>(): Observation<D> {
    Observation(Reset(), [], [], [], [])
  }

  /** One beat handed over if both sides are willing. */
  function Handed<T>(valid: bool, ready: bool, beat: T): seq<T> {
    if valid && ready then [beat] else []
  }

  function Observe<D>(o: Observation<D>, i: Input<D>): Observation<D> {
    if !i.aresetn then Start()
    else Observation(
      Step(o.s, i),
      o.headers + Handed(i.headerValid, o.s.headerQ.CanAccept(), Word(i.header, false)),
      o.data0 + Handed(i.data0Valid, o.s.data0Q.CanAccept(), Word(i.data0, false)),
      o.data1 + Handed(i.data1Valid, o.s.data1Q.CanAccept(), Word(i.data1, i.data1Last)),
      o.out + o.s.outQ.Head().If(i.outReady).Seq())
  }

  /** Any schedule of inputs, from any observation on; resets may occur anywhere in it. */
  function Run<D>(o: Observation<D>, inputs: seq<Input<D>>): Observation<D>
    decreases |inputs|
  {
    if inputs == [] then o else Run(Observe(o, inputs[0]), inputs[1..])
  }

  // ---------------------------------------------------------------------------------------------
  // The stream function

  /** What the three input streams determine, independently of any clock: from phase `st`, take a
      beat from the stream that phase reads, and stop when that stream has run out. */
  function Merge<D>(st: nat, h: seq<Word<D>>, a: seq<Word<D>>, b: seq<Word<D>>): seq<Word<D>>
    requires st <= 2
    decreases |h| + |a| + |b|
  {
    if st == 0 then
      if h == [] then [] else [Strip(h[0])] + Merge(1, h[1..], a, b)
    else if st == 1 then
      if a == [] then [] else [Strip(a[0])] + Merge(2, h, a[1..], b)
    else
      if b == [] then [] else [Strip(b[0])] + Merge(NextPhase(2, b[0]), h, a, b[1..])
  }

  ghost predicate EmitsBefore<D>(h: seq<Word<D>>, a: seq<Word<D>>, b: seq<Word<D>>, w: seq<Word<D>>, st: nat,
                                 x: seq<Word<D>>, y: seq<Word<D>>, z: seq<Word<D>>)
    requires st <= 2
  {
    Merge(0, h + x, a + y, b + z) == w + Merge(st, x, y, z)
  }

  /** `w` is what the consumed prefixes `h`, `a`, `b` contribute to the merge, leaving phase `st`,
      whatever follows them. */
  ghost predicate Emits<D(!new)>(h: seq<Word<D>>, a: seq<Word<D>>, b: seq<Word<D>>, w: seq<Word<D>>, st: nat)
    requires st <= 2
  {
    forall x, y, z :: EmitsBefore(h, a, b, w, st, x, y, z)
  }

  lemma MergeHeader<D>(v: Word<D>, h: seq<Word<D>>, a: seq<Word<D>>, b: seq<Word<D>>)
    ensures Merge(0, [v] + h, a, b) == [Strip(v)] + Merge(1, h, a, b)
  {
    assert ([v] + h)[1..] == h;
  }

  lemma MergeData0<D>(v: Word<D>, h: seq<Word<D>>, a: seq<Word<D>>, b: seq<Word<D>>)
    ensures Merge(1, h, [v] + a, b) == [Strip(v)] + Merge(2, h, a, b)
  {
    assert ([v] + a)[1..] == a;
  }

  lemma MergeData1<D>(v: Word<D>, h: seq<Word<D>>, a: seq<Word<D>>, b: seq<Word<D>>)
    ensures Merge(2, h, a, [v] + b) == [Strip(v)] + Merge(NextPhase(2, v), h, a, b)
  {
    assert ([v] + b)[1..] == b;
  }

  lemma EmitsHeader<D(!new)>(h: seq<Word<D>>, a: seq<Word<D>>, b: seq<Word<D>>, w: seq<Word<D>>, v: Word<D>)
    requires Emits(h, a, b, w, 0)
    ensures Emits(h + [v], a, b, w + [Strip(v)], 1)
  {
    forall x, y, z ensures EmitsBefore(h + [v], a, b, w + [Strip(v)], 1, x, y, z) {
      assert EmitsBefore(h, a, b, w, 0, [v] + x, y, z);
      Assoc(h, [v], x);
      MergeHeader(v, x, y, z);
      Assoc(w, [Strip(v)], Merge(1, x, y, z));
    }
  }

  lemma EmitsData0<D(!new)>(h: seq<Word<D>>, a: seq<Word<D>>, b: seq<Word<D>>, w: seq<Word<D>>, v: Word<D>)
    requires Emits(h, a, b, w, 1)
    ensures Emits(h, a + [v], b, w + [Strip(v)], 2)
  {
    forall x, y, z ensures EmitsBefore(h, a + [v], b, w + [Strip(v)], 2, x, y, z) {
      assert EmitsBefore(h, a, b, w, 1, x, [v] + y, z);
      Assoc(a, [v], y);
      MergeData0(v, x, y, z);
      Assoc(w, [Strip(v)], Merge(2, x, y, z));
    }
  }

  lemma EmitsData1<D(!new)>(h: seq<Word<D>>, a: seq<Word<D>>, b: seq<Word<D>>, w: seq<Word<D>>, v: Word<D>)
    requires Emits(h, a, b, w, 2)
    ensures Emits(h, a, b + [v], w + [Strip(v)], NextPhase(2, v))
  {
    forall x, y, z ensures EmitsBefore(h, a, b + [v], w + [Strip(v)], NextPhase(2, v), x, y, z) {
      assert EmitsBefore(h, a, b, w, 2, x, y, [v] + z);
      Assoc(b, [v], z);
      MergeData1(v, x, y, z);
      Assoc(w, [Strip(v)], Merge(NextPhase(2, v), x, y, z));
    }
  }

  /** The invariant of every run: the accepted streams are what the core has consumed followed by
      what the input slices hold, and what has left or waits to leave is what the consumed part emits. */
  ghost predicate Inv<D(!new)>(o: Observation<D>, h: seq<Word<D>>, a: seq<Word<D>>, b: seq<Word<D>>) {
    && o.s.state <= 2
    && o.headers == h + o.s.headerQ.Seq() && o.data0 == a + o.s.data0Q.Seq() && o.data1 == b + o.s.data1Q.Seq()
    && Emits(h, a, b, o.out + o.s.outQ.Seq(), o.s.state)
  }

  ghost predicate Consistent<D(!new)>(o: Observation<D>) {
    exists h, a, b :: Inv(o, h, a, b)
  }

  lemma StartIsConsistent<D(!new)>()
    ensures Consistent(Start<D>())
  {
    var e: seq<Word<D>> := [];
    forall x, y, z ensures EmitsBefore(e, e, e, e, 0, x, y, z) {
      assert e + x == x && e + y == y && e + z == z;
    }
    assert Inv(Start<D>(), e, e, e);
  }

  /** What one input slice gives up on an edge. */
  function Pulled<D>(s: Switch<D>, phase: nat, q: Queue<Word<D>>): seq<Word<D>> {
    q.Head().If(s.state == phase && s.outQ.CanAccept()).Seq()
  }

  lemma EmitsPulled<D(!new)>(s: Switch<D>, i: Input<D>, h: seq<Word<D>>, a: seq<Word<D>>, b: seq<Word<D>>, w: seq<Word<D>>)
    requires s.state <= 2 && i.aresetn && Emits(h, a, b, w, s.state)
    ensures Step(s, i).state <= 2
    ensures Emits(h + Pulled(s, 0, s.headerQ), a + Pulled(s, 1, s.data0Q), b + Pulled(s, 2, s.data1Q),
                  w + StripOption(s.Selected()).If(s.outQ.CanAccept()).Seq(), Step(s, i).state)
  {
    assert h + [] == h && a + [] == a && b + [] == b && w + [] == w;
    if s.Transfers() {
      var v := s.Selected().value;
      if s.state == 0 { EmitsHeader(h, a, b, w, v); }
      else if s.state == 1 { EmitsData0(h, a, b, w, v); }
      else { EmitsData1(h, a, b, w, v); }
    }
  }

  lemma ObserveKeepsInv<D(!new)>(o: Observation<D>, i: Input<D>, h: seq<Word<D>>, a: seq<Word<D>>, b: seq<Word<D>>)
    requires Inv(o, h, a, b) && i.aresetn
    ensures Inv(Observe(o, i), h + Pulled(o.s, 0, o.s.headerQ), a + Pulled(o.s, 1, o.s.data0Q),
                b + Pulled(o.s, 2, o.s.data1Q))
  {
    var s, ready := o.s, o.s.outQ.CanAccept();
    assert Observe(o, i).headers == h + Pulled(s, 0, s.headerQ) + Step(s, i).headerQ.Seq() by {
      QueueBooks(h, s.headerQ, Header(i), s.state == 0 && ready);
    }
    assert Observe(o, i).data0 == a + Pulled(s, 1, s.data0Q) + Step(s, i).data0Q.Seq() by {
      QueueBooks(a, s.data0Q, Data0(i), s.state == 1 && ready);
    }
    assert Observe(o, i).data1 == b + Pulled(s, 2, s.data1Q) + Step(s, i).data1Q.Seq() by {
      QueueBooks(b, s.data1Q, Data1(i), s.state == 2 && ready);
    }
    QueueBooks(o.out, s.outQ, StripOption(s.Selected()), i.outReady);
    EmitsPulled(s, i, h, a, b, o.out + s.outQ.Seq());
  }

  lemma ObserveKeepsConsistent<D(!new)>(o: Observation<D>, i: Input<D>)
    requires Consistent(o)
    ensures Consistent(Observe(o, i))
  {
    if i.aresetn {
      var h, a, b :| Inv(o, h, a, b);
      ObserveKeepsInv(o, i, h, a, b);
    } else {
      StartIsConsistent<D>();
    }
  }

  lemma {:induction false} RunKeepsConsistent<D(!new)>(o: Observation<D>, inputs: seq<Input<D>>)
    requires Consistent(o)
    ensures Consistent(Run(o, inputs))
    decreases |inputs|
  {
    if inputs == [] {
    } else {
      ObserveKeepsConsistent(o, inputs[0]);
      RunKeepsConsistent(Observe(o, inputs[0]), inputs[1..]);
    }
  }

  // ---------------------------------------------------------------------------------------------
  // Main results

  /** What the beats still waiting in the input slices will contribute. */
  function Inside<D>(s: Switch<D>): seq<Word<D>>
    requires s.state <= 2
  {
    Merge(s.state, s.headerQ.Seq(), s.data0Q.Seq(), s.data1Q.Seq())
  }

  /** For every schedule: state 2'b11 is never reached, and the beats delivered, then the beats
      held by the output slice, then the merge of what the input slices hold, are together the
      merge of everything accepted. */
  lemma OutputIsMergeOfInputs<D(!new)>(inputs: seq<Input<D>>)
    ensures
      var o := Run(Start<D>(), inputs);
      && o.s.state <= 2
      && o.out + o.s.outQ.Seq() + Inside(o.s)
         == Merge(0, o.headers, o.data0, o.data1)
      && o.out <= Merge(0, o.headers, o.data0, o.data1)
  {
    StartIsConsistent<D>();
    RunKeepsConsistent(Start<D>(), inputs);
    var o := Run(Start<D>(), inputs);
    var h, a, b :| Inv(o, h, a, b);
    assert EmitsBefore(h, a, b, o.out + o.s.outQ.Seq(), o.s.state, o.s.headerQ.Seq(), o.s.data0Q.Seq(), o.s.data1Q.Seq());
  }

  lemma {:induction false} MergeIsMonotone<D>(st: nat, h: seq<Word<D>>, a: seq<Word<D>>, b: seq<Word<D>>,
                                              x: seq<Word<D>>, y: seq<Word<D>>, z: seq<Word<D>>)
    requires st <= 2
    requires h <= x && a <= y && b <= z
    ensures Merge(st, h, a, b) <= Merge(st, x, y, z)
    decreases |h| + |a| + |b|
  {
    if st == 0 && h != [] {
      MergeIsMonotone(1, h[1..], a, b, x[1..], y, z);
    } else if st == 1 && a != [] {
      MergeIsMonotone(2, h, a[1..], b, x, y[1..], z);
    } else if st == 2 && b != [] {
      MergeIsMonotone(NextPhase(2, b[0]), h, a, b[1..], x, y, z[1..]);
    }
  }

  /** Stalls cannot change the output: if one run accepted at most what another accepted on each
      of the three inputs, then one of the two delivered streams is a prefix of the other. */
  lemma OutputIgnoresStalls<D(!new)>(inputs: seq<Input<D>>, others: seq<Input<D>>)
    requires
      var o, p := Run(Start<D>(), inputs), Run(Start<D>(), others);
      o.headers <= p.headers && o.data0 <= p.data0 && o.data1 <= p.data1
    ensures
      var o, p := Run(Start<D>(), inputs), Run(Start<D>(), others);
      o.out <= p.out || p.out <= o.out
  {
    var o, p := Run(Start<D>(), inputs), Run(Start<D>(), others);
    OutputIsMergeOfInputs(inputs);
    OutputIsMergeOfInputs(others);
    MergeIsMonotone(0, o.headers, o.data0, o.data1, p.headers, p.data0, p.data1);
  }

  // ---------------------------------------------------------------------------------------------
  // The stream function builds records

  /** One record: a header and at least one pair of data beats. */
  datatype Record<D> = Record(header: D, pairs: seq<(D, D)>)

  ghost predicate WellFormed<D>(rs: seq<Record<D>>) {
    forall i :: 0 <= i < |rs| ==> rs[i].pairs != []
  }

  function Headers<D>(rs: seq<Record<D>>): seq<Word<D>> {
    if rs == [] then [] else [Word(rs[0].header, false)] + Headers(rs[1..])
  }

  function Firsts<D>(ps: seq<(D, D)>): seq<Word<D>> {
    if ps == [] then [] else [Word(ps[0].0, false)] + Firsts(ps[1..])
  }

  /** tlast marks the second beat of the last pair only. */
  function Seconds<D>(ps: seq<(D, D)>): seq<Word<D>> {
    if ps == [] then [] else [Word(ps[0].1, |ps| == 1)] + Seconds(ps[1..])
  }

  function Pairs<D>(ps: seq<(D, D)>): seq<Word<D>> {
    if ps == [] then [] else [Word(ps[0].0, false), Word(ps[0].1, false)] + Pairs(ps[1..])
  }

  function AllFirsts<D>(rs: seq<Record<D>>): seq<Word<D>> {
    if rs == [] then [] else Firsts(rs[0].pairs) + AllFirsts(rs[1..])
  }

  function AllSeconds<D>(rs: seq<Record<D>>): seq<Word<D>> {
    if rs == [] then [] else Seconds(rs[0].pairs) + AllSeconds(rs[1..])
  }

  /** The record stream: each header followed by its pairs. */
  function Flatten<D>(rs: seq<Record<D>>): seq<Word<D>> {
    if rs == [] then [] else [Word(rs[0].header, false)] + Pairs(rs[0].pairs) + Flatten(rs[1..])
  }

  lemma {:induction false} MergeOfPairs<D>(ps: seq<(D, D)>, h: seq<Word<D>>, a: seq<Word<D>>, b: seq<Word<D>>)
    requires ps != []
    ensures Merge(1, h, Firsts(ps) + a, Seconds(ps) + b) == Pairs(ps) + Merge(0, h, a, b)
    decreases |ps|
  {
    var rest, first, second := ps[1..], Word(ps[0].0, false), Word(ps[0].1, |ps| == 1);
    var a', b' := Firsts(rest) + a, Seconds(rest) + b;
    Assoc([first], Firsts(rest), a);
    Assoc([second], Seconds(rest), b);
    MergeData0(first, h, a', [second] + b');
    MergeData1(second, h, a', b');
    var st := NextPhase(2, second);
    assert Merge(1, h, Firsts(ps) + a, Seconds(ps) + b) == [Strip(first), Strip(second)] + Merge(st, h, a', b');
    if rest == [] {
      assert a' == a && b' == b;
    } else {
      MergeOfPairs(rest, h, a, b);
      Assoc([Strip(first), Strip(second)], Pairs(rest), Merge(0, h, a, b));
    }
  }

  /** Streams that carry a list of records, headers on one input and the two halves of the pairs
      on the others, merge to exactly those records back to back. */
  lemma {:induction false} MergeOfRecords<D>(rs: seq<Record<D>>)
    requires WellFormed(rs)
    ensures Merge(0, Headers(rs), AllFirsts(rs), AllSeconds(rs)) == Flatten(rs)
    decreases |rs|
  {
    if rs == [] {
    } else {
      var r, rest := rs[0], rs[1..];
      MergeHeader(Word(r.header, false), Headers(rest), AllFirsts(rs), AllSeconds(rs));
      MergeOfPairs(r.pairs, Headers(rest), AllFirsts(rest), AllSeconds(rest));
      MergeOfRecords(rest);
    }
  }

  /** Hence a run fed with any part of such streams delivers a prefix of the record stream. */
  lemma RunDeliversRecords<D(!new)>(inputs: seq<Input<D>>, rs: seq<Record<D>>)
    requires WellFormed(rs)
    requires
      var o := Run(Start<D>(), inputs);
      o.headers <= Headers(rs) && o.data0 <= AllFirsts(rs) && o.data1 <= AllSeconds(rs)
    ensures Run(Start<D>(), inputs).out <= Flatten(rs)
  {
    var o := Run(Start<D>(), inputs);
    OutputIsMergeOfInputs(inputs);
    MergeIsMonotone(0, o.headers, o.data0, o.data1, Headers(rs), AllFirsts(rs), AllSeconds(rs));
    MergeOfRecords(rs);
  }

  // ---------------------------------------------------------------------------------------------
  // Handshake, throughput, progress

  /** An offered output beat stays offered, unchanged, for as long as it is not taken
      (section 2.2.1 of the AMBA 4 AXI4-Stream Protocol Specification). */
  lemma {:induction false} OutputIsHeld<D(!new)>(o: Observation<D>, inputs: seq<Input<D>>)
    requires o.s.outQ.Head().Some?
    requires forall k :: 0 <= k < |inputs| ==> inputs[k].aresetn && !inputs[k].outReady
    ensures
      var r := Run(o, inputs);
      r.s.outQ.Head() == o.s.outQ.Head() && r.out == o.out
    decreases |inputs|
  {
    if inputs == [] {
    } else {
      assert inputs[0].aresetn && !inputs[0].outReady;
      OutputIsHeld(Observe(o, inputs[0]), inputs[1..]);
    }
  }

  /** Every input offers a beat and the output is ready. */
  predicate Busy<D>(i: Input<D>) {
    i.aresetn && i.headerValid && i.data0Valid && i.data1Valid && i.outReady
  }

  /** No input offers a beat and the output is ready. */
  predicate Draining<D>(i: Input<D>) {
    i.aresetn && !i.headerValid && !i.data0Valid && !i.data1Valid && i.outReady
  }

  ghost predicate Streaming<D>(s: Switch<D>) {
    s.state <= 2 && !s.headerQ.Empty? && !s.data0Q.Empty? && !s.data1Q.Empty? && !s.outQ.Empty?
  }

  lemma {:induction false} StreamingRun<D>(o: Observation<D>, inputs: seq<Input<D>>)
    requires Streaming(o.s) && forall k :: 0 <= k < |inputs| ==> Busy(inputs[k])
    ensures |Run(o, inputs).out| == |o.out| + |inputs|
    decreases |inputs|
  {
    if inputs == [] {
    } else {
      assert Busy(inputs[0]);
      StreamingRun(Observe(o, inputs[0]), inputs[1..]);
    }
  }

  lemma WarmUp<D>(o: Observation<D>, inputs: seq<Input<D>>)
    requires o.s.state <= 2
    requires forall k :: 0 <= k < |inputs| ==> Busy(inputs[k])
    ensures |Run(o, inputs).out| >= |o.out| + |inputs| - 2
    ensures o.s == Reset() ==> |Run(o, inputs).out| == |o.out| + if |inputs| < 2 then 0 else |inputs| - 2
  {
    if inputs != [] {
      assert Busy(inputs[0]);
      var o1 := Observe(o, inputs[0]);
      if |inputs| > 1 {
        assert Busy(inputs[1]) && inputs[1..][0] == inputs[1];
        var o2 := Observe(o1, inputs[1]);
        StreamingRun(o2, inputs[1..][1..]);
      }
    }
  }

  /** Exact throughput: fed and read on every edge, the switch has delivered n - 2 beats after n
      edges from reset, however the records are cut; and from any reachable state it is never more
      than two beats behind one beat per edge, so it cannot deadlock. */
  lemma Throughput<D(!new)>(before: seq<Input<D>>, inputs: seq<Input<D>>)
    requires forall k :: 0 <= k < |inputs| ==> Busy(inputs[k])
    ensures |Run(Start<D>(), inputs).out| == if |inputs| < 2 then 0 else |inputs| - 2
    ensures
      var o := Run(Start<D>(), before);
      |Run(o, inputs).out| >= |o.out| + |inputs| - 2
  {
    OutputIsMergeOfInputs(before);
    WarmUp(Start<D>(), inputs);
    WarmUp(Run(Start<D>(), before), inputs);
  }

  /** Edges still needed to empty the switch: one per waiting output beat, two per beat still inside. */
  ghost function Pending<D>(s: Switch<D>): nat
    requires s.state <= 2
  {
    |s.outQ.Seq()| + 2 * |Inside(s)|
  }

  lemma MergeIsBounded<D>(st: nat, h: seq<Word<D>>, a: seq<Word<D>>, b: seq<Word<D>>)
    requires st <= 2
    ensures |Merge(st, h, a, b)| <= |h| + |a| + |b|
    decreases |h| + |a| + |b|
  {
  }

  lemma DrainStep<D>(s: Switch<D>, i: Input<D>)
    requires s.state <= 2 && Draining(i)
    ensures
      var s' := Step(s, i);
      && s'.state <= 2
      && s.outQ.Seq() + Inside(s) == s.outQ.Head().Seq() + (s'.outQ.Seq() + Inside(s'))
      && (Pending(s) > 0 ==> Pending(s') < Pending(s))
  {
    var s' := Step(s, i);
    if s.Transfers() {
      assert Inside(s) == [Strip(s.Selected().value)] + Inside(s');
    }
  }

  lemma {:induction false} Drain<D>(o: Observation<D>, inputs: seq<Input<D>>)
    requires o.s.state <= 2
    requires forall k :: 0 <= k < |inputs| ==> Draining(inputs[k])
    requires Pending(o.s) <= |inputs|
    ensures Run(o, inputs).out == o.out + o.s.outQ.Seq() + Inside(o.s)
    decreases |inputs|
  {
    if inputs == [] {
    } else {
      assert Draining(inputs[0]);
      var o' := Observe(o, inputs[0]);
      DrainStep(o.s, inputs[0]);
      Drain(o', inputs[1..]);
      Regroup(o.out, o.s.outQ.Seq(), Inside(o.s), o.s.outQ.Head().Seq(), o'.s.outQ.Seq(), Inside(o'.s));
    }
  }

  lemma Regroup<T>(a: seq<T>, b: seq<T>, c: seq<T>, d: seq<T>, e: seq<T>, f: seq<T>)
    requires b + c == d + (e + f)
    ensures a + b + c == a + d + e + f
  {
    assert a + b + c == a + (b + c);
    assert a + d + e + f == a + (d + (e + f));
  }

  /** Nothing is kept back: after any schedule, fourteen edges with a ready output and no new input
      deliver the whole merge of the accepted streams, which makes the prefix above an equality. */
  lemma EverythingIsDelivered<D(!new)>(inputs: seq<Input<D>>, tail: seq<Input<D>>)
    requires |tail| >= 14 && forall k :: 0 <= k < |tail| ==> Draining(tail[k])
    ensures
      var o := Run(Start<D>(), inputs);
      Run(o, tail).out == Merge(0, o.headers, o.data0, o.data1)
  {
    OutputIsMergeOfInputs(inputs);
    var o := Run(Start<D>(), inputs);
    MergeIsBounded(o.s.state, o.s.headerQ.Seq(), o.s.data0Q.Seq(), o.s.data1Q.Seq());
    Drain(o, tail);
  }

  lemma {:induction false} RunInTwo<D>(o: Observation<D>, inputs: seq<Input<D>>, n: nat)
    requires n <= |inputs|
    ensures Run(o, inputs) == Run(Run(o, inputs[..n]), inputs[n..])
    decreases n
  {
    if n == 0 {
      assert inputs[0..] == inputs;
    } else {
      assert inputs[..n][0] == inputs[0] && inputs[..n][1..] == inputs[1..][..n - 1] && inputs[1..][n - 1..] == inputs[n..];
      RunInTwo(Observe(o, inputs[0]), inputs[1..], n - 1);
    }
  }

  /** The same of the end of one run. */
  lemma DrainedRun<D(!new)>(inputs: seq<Input<D>>)
    requires |inputs| >= 14 && forall k :: |inputs| - 14 <= k < |inputs| ==> Draining(inputs[k])
    ensures
      var o := Run(Start<D>(), inputs);
      o.out == Merge(0, o.headers, o.data0, o.data1)
  {
    var n := |inputs| - 14;
    RunInTwo(Start<D>(), inputs, n);
    EverythingIsDelivered(inputs[..n], inputs[n..]);
    DrainingAcceptsNothing(Run(Start<D>(), inputs[..n]), inputs[n..]);
  }

  lemma {:induction false} DrainingAcceptsNothing<D>(o: Observation<D>, inputs: seq<Input<D>>)
    requires forall k :: 0 <= k < |inputs| ==> Draining(inputs[k])
    ensures
      var r := Run(o, inputs);
      r.headers == o.headers && r.data0 == o.data0 && r.data1 == o.data1
    decreases |inputs|
  {
    if inputs != [] {
      assert Draining(inputs[0]);
      DrainingAcceptsNothing(Observe(o, inputs[0]), inputs[1..]);
    }
  }
}
