/** ip_handler at the level of its queues: one clock edge, whole runs, and which packets reach which
    output. A slice built with BYPASS = 1 is a wire; its queue stays empty. */
module IpHandler {
  import opened Fifo
  import opened FrameClassifier

  /** The five BYPASS parameters. */
  datatype Bypass = Bypass(input: bool, outputs: PerClass<bool>)

  /** What the environment drives in one cycle. */
  datatype Input = Input(
    aresetn: bool, rawValid: bool, raw: Beat, ready: PerClass<bool>, myIp: bv32, rocePort: bv16)

  /** first_int, the is_*_packet_r latches, the configuration registers and the slices. */
  datatype Handler = Handler(
    first: bool, latched: PerClass<bool>, config: Config, inQ: Queue<Beat>, outQ: PerClass<Queue<Beat>>)

  function Reset(): Handler {
    Handler(true, PerClass(false, false, false, false), Config(0, 0), Empty, PerClass(Empty, Empty, Empty, Empty))
  }

  // ---------------------------------------------------------------------------------------------
  // axis_register_ip_handler: a slice, or with `wire` (BYPASS = 1) a plain connection. `routed` is the
  // valid beat on its input wires, if there is one.

  predicate SliceReady<T>(wire: bool, q: Queue<T>, mReady: bool) {
    if wire then mReady else q.CanAccept()
  }

  function SliceOffer<T>(wire: bool, q: Queue<T>, routed: Option<T>): Option<T> {
    if wire then routed else q.Head()
  }

  function SliceStep<T>(wire: bool, q: Queue<T>, routed: Option<T>, mReady: bool): Queue<T> {
    if wire then Empty else q.Step(routed, mReady)
  }

  predicate EmptyIfWire<T>(wire: bool, q: Queue<T>) {
    wire ==> q.Empty?
  }

  /** After `before` has left: whatever is accepted comes out or is held, in order. */
  lemma SliceBooks<T>(before: seq<T>, wire: bool, q: Queue<T>, routed: Option<T>, mReady: bool)
    requires EmptyIfWire(wire, q)
    ensures before + SliceOffer(wire, q, routed).If(mReady).Seq() + SliceStep(wire, q, routed, mReady).Seq()
         == before + q.Seq() + routed.If(SliceReady(wire, q, mReady)).Seq()
  {
  }

  /** What is offered and not taken is offered again, given that a refused input beat comes back. */
  lemma SliceHolds<T>(wire: bool, q: Queue<T>, routed: Option<T>, again: Option<T>)
    requires routed.Some? && !SliceReady(wire, q, false) ==> again == routed
    requires SliceOffer(wire, q, routed).Some?
    ensures SliceOffer(wire, SliceStep(wire, q, routed, false), again) == SliceOffer(wire, q, routed)
  {
  }

  // ---------------------------------------------------------------------------------------------
  // The wires of one cycle

  /** connect_*: the latched class inside a packet, the class wires `w` on its first beat. */
  function ConnectWires(first: bool, latched: PerClass<bool>, w: PerClass<bool>): PerClass<bool> {
    PerClass(
      (!first && latched.arp) || (first && w.arp),
      (!first && latched.icmp) || (first && w.icmp),
      (!first && latched.hivenet) || (first && w.hivenet),
      (!first && latched.other) || (first && w.other))
  }

  function Connect(s: Handler, w: PerClass<bool>): PerClass<bool> {
    ConnectWires(s.first, s.latched, w)
  }

  /** s_axis_tready of the four output slices. */
  function SlicesReady(wired: PerClass<bool>, q: PerClass<Queue<Beat>>, ready: PerClass<bool>): PerClass<bool> {
    PerClass(
      SliceReady(wired.arp, q.arp, ready.arp), SliceReady(wired.icmp, q.icmp, ready.icmp),
      SliceReady(wired.hivenet, q.hivenet, ready.hivenet), SliceReady(wired.other, q.other, ready.other))
  }

  function OutputsReady(bypass: Bypass, s: Handler, ready: PerClass<bool>): PerClass<bool> {
    SlicesReady(bypass.outputs, s.outQ, ready)
  }

  /** axis_int_tready: a priority multiplexer over connect_*. */
  predicate Select(connect: PerClass<bool>, ready: PerClass<bool>) {
    if connect.arp then ready.arp
    else if connect.icmp then ready.icmp
    else if connect.hivenet then ready.hivenet
    else if connect.other then ready.other
    else false
  }

  function Raw(i: Input): Option<Beat> {
    Some(i.raw).If(i.rawValid)
  }

  /** The settled wires of a cycle: the valid beat in the core (if any), the class wires for it, whether
      it moves on, and s_axis_raw_tready. */
  datatype Signals = Signals(present: Option<Beat>, wires: PerClass<bool>, moves: bool, rawReady: bool) {
    /** The beat that crosses the core on this edge. */
    function Crossing(): Option<Beat> {
      present.If(moves)
    }
  }

  function Settle(bypass: Bypass, s: Handler, i: Input): Signals {
    var present := SliceOffer(bypass.input, s.inQ, Raw(i));
    var wires := Wires(s.first, if present.Some? then present.value else i.raw, s.config);
    var coreReady := Select(Connect(s, wires), OutputsReady(bypass, s, i.ready));
    Signals(present, wires, present.Some? && coreReady, SliceReady(bypass.input, s.inQ, coreReady))
  }

  function SlicesOffer(wired: PerClass<bool>, q: PerClass<Queue<Beat>>, p: Option<Beat>, connect: PerClass<bool>)
    : PerClass<Option<Beat>>
  {
    PerClass(
      SliceOffer(wired.arp, q.arp, p.If(connect.arp)),
      SliceOffer(wired.icmp, q.icmp, p.If(connect.icmp)),
      SliceOffer(wired.hivenet, q.hivenet, p.If(connect.hivenet)),
      SliceOffer(wired.other, q.other, p.If(connect.other)))
  }

  /** The beats offered on the four outputs. */
  function Offers(bypass: Bypass, s: Handler, g: Signals): PerClass<Option<Beat>> {
    SlicesOffer(bypass.outputs, s.outQ, g.present, Connect(s, g.wires))
  }

  // ---------------------------------------------------------------------------------------------
  // One rising edge

  /** first_int after an edge on which `x` crosses the core. */
  predicate NextFirst(first: bool, x: Option<Beat>) {
    if first then !(x.Some? && !x.value.tlast) else x.Some? && x.value.tlast
  }

  /** The four output slices, each shown the beat `p` if it is connected. */
  function SlicesStep(wired: PerClass<bool>, q: PerClass<Queue<Beat>>, p: Option<Beat>, connect: PerClass<bool>,
                      ready: PerClass<bool>): PerClass<Queue<Beat>> {
    PerClass(
      SliceStep(wired.arp, q.arp, p.If(connect.arp), ready.arp),
      SliceStep(wired.icmp, q.icmp, p.If(connect.icmp), ready.icmp),
      SliceStep(wired.hivenet, q.hivenet, p.If(connect.hivenet), ready.hivenet),
      SliceStep(wired.other, q.other, p.If(connect.other), ready.other))
  }

  /** The registers after an edge on which the wires are `g`. */
  function Edge(bypass: Bypass, s: Handler, i: Input, g: Signals): Handler {
    Handler(
      NextFirst(s.first, g.Crossing()),
      if s.first && g.Crossing().Some? then g.wires else s.latched,
      Registered(i.myIp, i.rocePort),
      SliceStep(bypass.input, s.inQ, Raw(i), g.moves),
      SlicesStep(bypass.outputs, s.outQ, g.present, Connect(s, g.wires), i.ready))
  }

  /** Without a valid beat the class wires have no effect. */
  lemma IdleWiresDoNotCount(bypass: Bypass, s: Handler, i: Input, g: Signals, wires: PerClass<bool>)
    requires g.present.None? || wires == g.wires
    ensures Edge(bypass, s, i, g.(wires := wires)) == Edge(bypass, s, i, g)
  {
  }

  function Step(bypass: Bypass, s: Handler, i: Input): Handler {
    if i.aresetn then Edge(bypass, s, i, Settle(bypass, s, i)) else Reset()
  }

  // ---------------------------------------------------------------------------------------------
  // Runs

  /** A beat that crossed the core, with the configuration registers of that cycle. */
  datatype Arrival = Arrival(beat: Beat, config: Config)

  /** The handler together with what has crossed its ports, and its core, since the last reset. */
  datatype Observation = Observation(s: Handler, raw: seq<Beat>, core: seq<Arrival>, out: PerClass<seq<Beat>>)

  function Start(): Observation {
    Observation(Reset(), [], [], PerClass([], [], [], []))
  }

  function Crossed(core: seq<Arrival>, x: Option<Beat>, config: Config): seq<Arrival> {
    if x.Some? then core + [Arrival(x.value, config)] else core
  }

  function Record(bypass: Bypass, o: Observation, i: Input, g: Signals): Observation {
    var offers := Offers(bypass, o.s, g);
    Observation(
      Edge(bypass, o.s, i, g),
      o.raw + Raw(i).If(g.rawReady).Seq(),
      Crossed(o.core, g.Crossing(), o.s.config),
      PerClass(
        o.out.arp + offers.arp.If(i.ready.arp).Seq(), o.out.icmp + offers.icmp.If(i.ready.icmp).Seq(),
        o.out.hivenet + offers.hivenet.If(i.ready.hivenet).Seq(), o.out.other + offers.other.If(i.ready.other).Seq()))
  }

  function Observe(bypass: Bypass, o: Observation, i: Input): Observation {
    if i.aresetn then Record(bypass, o, i, Settle(bypass, o.s, i)) else Start()
  }

  /** Any schedule of inputs; resets may occur anywhere in it. */
  function Run(bypass: Bypass, o: Observation, inputs: seq<Input>): Observation
    decreases |inputs|
  {
    if inputs == [] then o else Run(bypass, Observe(bypass, o, inputs[0]), inputs[1..])
  }

  // ---------------------------------------------------------------------------------------------
  // Packets: the reference the outputs are measured against

  /** The beats end on a packet boundary. */
  predicate Closed(core: seq<Arrival>) {
    core == [] || core[|core| - 1].beat.tlast
  }

  /** The packets of a beat stream; the last one may still be open. */
  function Packets(core: seq<Arrival>): (ps: seq<seq<Arrival>>)
    ensures core != [] ==> ps != []
    ensures forall k :: 0 <= k < |ps| ==> ps[k] != []
  {
    if core == [] then []
    else
      var before, x := core[..|core| - 1], core[|core| - 1];
      var ps := Packets(before);
      if Closed(before) then ps + [[x]] else ps[..|ps| - 1] + [ps[|ps| - 1] + [x]]
  }

  /** A packet belongs to the class of its first beat under the configuration of that cycle. */
  function PacketClass(p: seq<Arrival>): Class
    requires p != []
  {
    ClassOf(p[0].beat, p[0].config)
  }

  function Beats(p: seq<Arrival>): (r: seq<Beat>)
    ensures |r| == |p|
  {
    if p == [] then [] else Beats(p[..|p| - 1]) + [p[|p| - 1].beat]
  }

  function Flatten(ps: seq<seq<Arrival>>): seq<Arrival> {
    if ps == [] then [] else Flatten(ps[..|ps| - 1]) + ps[|ps| - 1]
  }

  /** The packets of class `c`, whole and in order. */
  function StreamOf(c: Class, ps: seq<seq<Arrival>>): seq<Beat> {
    if ps == [] then [] else StreamOf(c, ps[..|ps| - 1]) + Share(c, ps[|ps| - 1])
  }

  function Share(c: Class, p: seq<Arrival>): seq<Beat> {
    if p != [] && PacketClass(p) == c then Beats(p) else []
  }

  lemma {:induction false} PacketsFlatten(core: seq<Arrival>)
    ensures Flatten(Packets(core)) == core
  {
    if core == [] {
    } else {
      var before, x := core[..|core| - 1], core[|core| - 1];
      PacketsFlatten(before);
      var ps, qs := Packets(core), Packets(before);
      assert core == before + [x];
      assert ps[..|ps| - 1] == if Closed(before) then qs else qs[..|qs| - 1];
    }
  }

  /** Only the last beat of a packet has tlast. */
  ghost predicate CutAtLast(p: seq<Arrival>, complete: bool) {
    p != [] && (forall j :: 0 <= j < |p| - 1 ==> !p[j].beat.tlast) && (complete ==> p[|p| - 1].beat.tlast)
  }

  lemma {:induction false} PacketsCut(core: seq<Arrival>)
    ensures
      var ps := Packets(core);
      && (forall k :: 0 <= k < |ps| ==> CutAtLast(ps[k], k < |ps| - 1))
      && (core != [] ==> ps[|ps| - 1][|ps[|ps| - 1]| - 1] == core[|core| - 1])
  {
    if core == [] {
    } else {
      var before, x := core[..|core| - 1], core[|core| - 1];
      PacketsCut(before);
      var ps, qs := Packets(core), Packets(before);
      forall k | 0 <= k < |ps| ensures CutAtLast(ps[k], k < |ps| - 1) {
        if k < |ps| - 1 || !Closed(before) {
          assert CutAtLast(qs[k], k < |qs| - 1);
        }
      }
    }
  }

  /** What `Packets` means: a division of the stream, cut after every beat with tlast and nowhere else. */
  lemma PacketsPartition(core: seq<Arrival>)
    ensures
      var ps := Packets(core);
      && Flatten(ps) == core
      && (forall k :: 0 <= k < |ps| ==> CutAtLast(ps[k], k < |ps| - 1 || Closed(core)))
  {
    PacketsFlatten(core);
    PacketsCut(core);
    var ps := Packets(core);
    forall k | 0 <= k < |ps| ensures CutAtLast(ps[k], k < |ps| - 1 || Closed(core)) {
      assert CutAtLast(ps[k], k < |ps| - 1);
    }
  }

  /** The class under which the next beat travels, if it is `x`. */
  function NextClass(core: seq<Arrival>, x: Arrival): Class {
    if Closed(core) then PacketClass([x])
    else var ps := Packets(core); PacketClass(ps[|ps| - 1])
  }

  lemma LastPacketGrows(core: seq<Arrival>, x: Arrival)
    ensures
      var ps := Packets(core);
      Packets(core + [x]) == if Closed(core) then ps + [[x]] else ps[..|ps| - 1] + [ps[|ps| - 1] + [x]]
    ensures NextClass(core, x) == PacketClass(Packets(core + [x])[|Packets(core + [x])| - 1])
  {
    assert (core + [x])[..|core|] == core;
  }

  lemma BeatsGrow(p: seq<Arrival>, x: Arrival)
    ensures Beats(p + [x]) == Beats(p) + [x.beat]
  {
    assert (p + [x])[..|p|] == p;
  }

  lemma StreamAppend(c: Class, ps: seq<seq<Arrival>>, p: seq<Arrival>)
    ensures StreamOf(c, ps + [p]) == StreamOf(c, ps) + Share(c, p)
  {
    assert (ps + [p])[..|ps|] == ps;
  }

  lemma ShareGrows(c: Class, p: seq<Arrival>, x: Arrival)
    ensures Share(c, p + [x]) == Share(c, p) + if PacketClass(p + [x]) == c then [x.beat] else []
  {
    BeatsGrow(p, x);
  }

  lemma StreamGrows(c: Class, core: seq<Arrival>, x: Arrival)
    ensures StreamOf(c, Packets(core + [x]))
         == StreamOf(c, Packets(core)) + if NextClass(core, x) == c then [x.beat] else []
  {
    LastPacketGrows(core, x);
    var ps := Packets(core);
    if Closed(core) {
      StreamAppend(c, ps, [x]);
      BeatsGrow([], x);
      assert [] + [x] == [x];
    } else {
      var init, p := ps[..|ps| - 1], ps[|ps| - 1];
      StreamAppend(c, init, p + [x]);
      StreamAppend(c, init, p);
      assert init + [p] == ps;
      ShareGrows(c, p, x);
      assert NextClass(core, x) == PacketClass(p + [x]);
    }
  }

  // ---------------------------------------------------------------------------------------------
  // The invariant of every run

  ghost predicate Tight(bypass: Bypass, s: Handler) {
    && EmptyIfWire(bypass.input, s.inQ)
    && EmptyIfWire(bypass.outputs.arp, s.outQ.arp) && EmptyIfWire(bypass.outputs.icmp, s.outQ.icmp)
    && EmptyIfWire(bypass.outputs.hivenet, s.outQ.hivenet) && EmptyIfWire(bypass.outputs.other, s.outQ.other)
  }

  /** The latches name the class of the packet under way. */
  ghost predicate Latched(s: Handler, core: seq<Arrival>) {
    && (s.first <==> Closed(core))
    && (!s.first ==> s.latched == OneHot(NextClass(core, core[0])))
  }

  /** What has left an output and what waits there are the packets of its class. */
  ghost predicate Balanced(c: Class, out: seq<Beat>, q: Queue<Beat>, core: seq<Arrival>) {
    out + q.Seq() == StreamOf(c, Packets(core))
  }

  ghost predicate AllBalanced(o: Observation) {
    forall c: Class :: Balanced(c, o.out.At(c), o.s.outQ.At(c), o.core)
  }

  ghost predicate Inv(bypass: Bypass, o: Observation) {
    && Tight(bypass, o.s)
    && Latched(o.s, o.core)
    && o.raw == Beats(o.core) + o.s.inQ.Seq()
    && AllBalanced(o)
  }

  /** In a state of some run exactly one connect_* wire is up, whatever beat is on the wires. */
  lemma ConnectIsOneHot(o: Observation, b: Beat)
    requires Latched(o.s, o.core)
    ensures Connect(o.s, Wires(o.s.first, b, o.s.config)) == OneHot(NextClass(o.core, Arrival(b, o.s.config)))
  {
    WiresAreOneHot(b, o.s.config);
  }

  /** What the rest of the proof needs to know about the wires of a cycle. */
  ghost predicate Sound(bypass: Bypass, o: Observation, i: Input, g: Signals) {
    && g.present == SliceOffer(bypass.input, o.s.inQ, Raw(i))
    && (g.moves ==> g.present.Some?)
    && (i.rawValid ==> (g.rawReady <==> SliceReady(bypass.input, o.s.inQ, g.moves)))
    && (g.present.Some? ==>
          var c := NextClass(o.core, Arrival(g.present.value, o.s.config));
          && Connect(o.s, g.wires) == OneHot(c)
          && (g.moves <==> OutputsReady(bypass, o.s, i.ready).At(c)))
  }

  lemma SettleIsSound(bypass: Bypass, o: Observation, i: Input)
    requires Latched(o.s, o.core)
    ensures Sound(bypass, o, i, Settle(bypass, o.s, i))
  {
    var g := Settle(bypass, o.s, i);
    if g.present.Some? {
      ConnectIsOneHot(o, g.present.value);
    }
  }

  /** What one edge does to output `c`: its queue, and the stream that has left it. */
  ghost predicate PortEdge(bypass: Bypass, o: Observation, i: Input, g: Signals, r: Observation, c: Class) {
    var wire, q, routed := bypass.outputs.At(c), o.s.outQ.At(c), g.present.If(Connect(o.s, g.wires).At(c));
    && r.out.At(c) == o.out.At(c) + SliceOffer(wire, q, routed).If(i.ready.At(c)).Seq()
    && r.s.outQ.At(c) == SliceStep(wire, q, routed, i.ready.At(c))
  }

  lemma RecordIsPortwise(bypass: Bypass, o: Observation, i: Input, g: Signals, c: Class)
    ensures PortEdge(bypass, o, i, g, Record(bypass, o, i, g), c)
  {
  }

  lemma OutputStaysBalanced(bypass: Bypass, o: Observation, i: Input, g: Signals, r: Observation, c: Class)
    requires EmptyIfWire(bypass.outputs.At(c), o.s.outQ.At(c))
    requires Balanced(c, o.out.At(c), o.s.outQ.At(c), o.core)
    requires PortEdge(bypass, o, i, g, r, c) && r.core == Crossed(o.core, g.Crossing(), o.s.config)
    requires g.moves ==> g.present.Some?
    requires g.present.Some? ==>
               && (Connect(o.s, g.wires).At(c) <==> NextClass(o.core, Arrival(g.present.value, o.s.config)) == c)
               && (Connect(o.s, g.wires).At(c) ==>
                     (g.moves <==> SliceReady(bypass.outputs.At(c), o.s.outQ.At(c), i.ready.At(c))))
    ensures Balanced(c, r.out.At(c), r.s.outQ.At(c), r.core)
  {
    SliceBooks(o.out.At(c), bypass.outputs.At(c), o.s.outQ.At(c), g.present.If(Connect(o.s, g.wires).At(c)), i.ready.At(c));
    if g.moves {
      StreamGrows(c, o.core, Arrival(g.present.value, o.s.config));
    }
  }

  /** The part of Sound and Tight that concerns output `c`. */
  lemma PortIsSound(bypass: Bypass, o: Observation, i: Input, g: Signals, c: Class)
    requires Tight(bypass, o.s) && Sound(bypass, o, i, g)
    ensures EmptyIfWire(bypass.outputs.At(c), o.s.outQ.At(c))
    ensures g.present.Some? ==>
              && (Connect(o.s, g.wires).At(c) <==> NextClass(o.core, Arrival(g.present.value, o.s.config)) == c)
              && (Connect(o.s, g.wires).At(c) ==>
                    (g.moves <==> SliceReady(bypass.outputs.At(c), o.s.outQ.At(c), i.ready.At(c))))
  {
  }

  lemma OutputsStayBalanced(bypass: Bypass, o: Observation, i: Input, g: Signals, r: Observation)
    requires Tight(bypass, o.s) && AllBalanced(o) && Sound(bypass, o, i, g)
    requires forall c: Class :: PortEdge(bypass, o, i, g, r, c)
    requires r.core == Crossed(o.core, g.Crossing(), o.s.config)
    ensures AllBalanced(r)
  {
    forall c: Class ensures Balanced(c, r.out.At(c), r.s.outQ.At(c), r.core) {
      PortIsSound(bypass, o, i, g, c);
      assert Balanced(c, o.out.At(c), o.s.outQ.At(c), o.core);
      assert PortEdge(bypass, o, i, g, r, c);
      OutputStaysBalanced(bypass, o, i, g, r, c);
    }
  }

  lemma InputStaysBalanced(bypass: Bypass, o: Observation, i: Input, g: Signals)
    requires EmptyIfWire(bypass.input, o.s.inQ) && Sound(bypass, o, i, g)
    requires o.raw == Beats(o.core) + o.s.inQ.Seq()
    ensures
      var r := Record(bypass, o, i, g);
      r.raw == Beats(r.core) + r.s.inQ.Seq()
  {
    SliceBooks(Beats(o.core), bypass.input, o.s.inQ, Raw(i), g.moves);
    if g.moves {
      BeatsGrow(o.core, Arrival(g.present.value, o.s.config));
    }
  }

  /** first_int and the latches after the beat `x` has crossed the core. */
  lemma LatchBooks(core: seq<Arrival>, x: Arrival)
    ensures Closed(core + [x]) <==> x.beat.tlast
    ensures !x.beat.tlast ==> NextClass(core + [x], (core + [x])[0]) == NextClass(core, x)
  {
    LastPacketGrows(core, x);
  }

  lemma LatchIsKept(bypass: Bypass, o: Observation, i: Input, g: Signals)
    requires Latched(o.s, o.core) && Sound(bypass, o, i, g)
    ensures
      var r := Record(bypass, o, i, g);
      Latched(r.s, r.core)
  {
    if g.moves {
      LatchBooks(o.core, Arrival(g.present.value, o.s.config));
    }
  }

  lemma RecordKeepsInv(bypass: Bypass, o: Observation, i: Input, g: Signals)
    requires Inv(bypass, o) && Sound(bypass, o, i, g)
    ensures Inv(bypass, Record(bypass, o, i, g))
  {
    InputStaysBalanced(bypass, o, i, g);
    var r := Record(bypass, o, i, g);
    forall c: Class ensures PortEdge(bypass, o, i, g, r, c) {
      RecordIsPortwise(bypass, o, i, g, c);
    }
    OutputsStayBalanced(bypass, o, i, g, r);
    LatchIsKept(bypass, o, i, g);
  }

  lemma ObserveKeepsInv(bypass: Bypass, o: Observation, i: Input)
    requires Inv(bypass, o)
    ensures Inv(bypass, Observe(bypass, o, i))
  {
    if i.aresetn {
      SettleIsSound(bypass, o, i);
      RecordKeepsInv(bypass, o, i, Settle(bypass, o.s, i));
    }
  }

  lemma {:induction false} RunKeepsInv(bypass: Bypass, o: Observation, inputs: seq<Input>)
    requires Inv(bypass, o)
    ensures Inv(bypass, Run(bypass, o, inputs))
    decreases |inputs|
  {
    if inputs == [] {
    } else {
      ObserveKeepsInv(bypass, o, inputs[0]);
      RunKeepsInv(bypass, Observe(bypass, o, inputs[0]), inputs[1..]);
    }
  }

  // ---------------------------------------------------------------------------------------------
  // Main results

  lemma ReachableInv(bypass: Bypass, inputs: seq<Input>)
    ensures Inv(bypass, Run(bypass, Start(), inputs))
  {
    RunKeepsInv(bypass, Start(), inputs);
  }

  /** For every schedule and every BYPASS setting: the accepted beats are those that crossed the core
      and then those the input slice holds; and each output has delivered, or holds in its slice,
      exactly the packets of its class, whole, in order, once. */
  lemma PacketsAreSteered(bypass: Bypass, inputs: seq<Input>)
    ensures
      var o := Run(bypass, Start(), inputs);
      && o.raw == Beats(o.core) + o.s.inQ.Seq()
      && (forall k :: 0 <= k < |Packets(o.core)| ==>
            CutAtLast(Packets(o.core)[k], k < |Packets(o.core)| - 1 || Closed(o.core)))
      && Flatten(Packets(o.core)) == o.core
      && forall c: Class :: o.out.At(c) + o.s.outQ.At(c).Seq() == StreamOf(c, Packets(o.core))
  {
    ReachableInv(bypass, inputs);
    var o := Run(bypass, Start(), inputs);
    PacketsPartition(o.core);
    forall c: Class ensures o.out.At(c) + o.s.outQ.At(c).Seq() == StreamOf(c, Packets(o.core)) {
      assert Balanced(c, o.out.At(c), o.s.outQ.At(c), o.core);
    }
  }

  /** In every reachable state: first_int says that the beats end on a packet boundary; whatever beat is
      on the wires, exactly one class is connected and it is the class of the packet under way; the core
      is ready iff that output is; and no other output slice is shown a beat. */
  lemma OneOutputIsConnected(bypass: Bypass, inputs: seq<Input>, i: Input, b: Beat)
    ensures
      var o := Run(bypass, Start(), inputs);
      var c := NextClass(o.core, Arrival(b, o.s.config));
      var connect := Connect(o.s, Wires(o.s.first, b, o.s.config));
      && (o.s.first <==> Closed(o.core))
      && connect == OneHot(c)
      && (Select(connect, OutputsReady(bypass, o.s, i.ready)) <==> OutputsReady(bypass, o.s, i.ready).At(c))
      && forall d: Class :: Some(b).If(connect.At(d)).Some? <==> d == c
  {
    ReachableInv(bypass, inputs);
    ConnectIsOneHot(Run(bypass, Start(), inputs), b);
  }

  lemma {:induction false} BeatsConcat(p: seq<Arrival>, q: seq<Arrival>)
    ensures Beats(p + q) == Beats(p) + Beats(q)
  {
    if q == [] {
      assert p + q == p;
    } else {
      var init := q[..|q| - 1];
      BeatsConcat(p, init);
      assert p + q == (p + init) + [q[|q| - 1]];
      BeatsGrow(p + init, q[|q| - 1]);
    }
  }

  /** The four streams together, each beat as often as it occurs. */
  function AllStreams(ps: seq<seq<Arrival>>): multiset<Beat> {
    multiset(StreamOf(Arp, ps)) + multiset(StreamOf(Icmp, ps))
    + multiset(StreamOf(Hivenet, ps)) + multiset(StreamOf(Other, ps))
  }

  lemma OneShare(p: seq<Arrival>)
    ensures multiset(Share(Arp, p)) + multiset(Share(Icmp, p)) + multiset(Share(Hivenet, p)) + multiset(Share(Other, p))
         == multiset(Beats(p))
  {
  }

  lemma {:induction false} StreamsCoverPackets(ps: seq<seq<Arrival>>)
    ensures AllStreams(ps) == multiset(Beats(Flatten(ps)))
  {
    if ps == [] {
    } else {
      var init, p := ps[..|ps| - 1], ps[|ps| - 1];
      StreamsCoverPackets(init);
      OneShare(p);
      BeatsConcat(Flatten(init), p);
      assert AllStreams(ps) == AllStreams(init) + multiset(Beats(p));
    }
  }

  /** What has left output c, and what waits there. */
  function Kept(o: Observation, c: Class): multiset<Beat> {
    multiset(o.out.At(c)) + multiset(o.s.outQ.At(c).Seq())
  }

  /** Every accepted beat is in exactly one place: the input slice, an output slice, or a delivered stream. */
  lemma BeatsAreConserved(bypass: Bypass, inputs: seq<Input>)
    ensures
      var o := Run(bypass, Start(), inputs);
      multiset(o.raw) == multiset(o.s.inQ.Seq()) + Kept(o, Arp) + Kept(o, Icmp) + Kept(o, Hivenet) + Kept(o, Other)
  {
    ReachableInv(bypass, inputs);
    var o := Run(bypass, Start(), inputs);
    PacketsPartition(o.core);
    StreamsCoverPackets(Packets(o.core));
    KeptIsStream(o, Arp);
    KeptIsStream(o, Icmp);
    KeptIsStream(o, Hivenet);
    KeptIsStream(o, Other);
  }

  lemma KeptIsStream(o: Observation, c: Class)
    requires AllBalanced(o)
    ensures Kept(o, c) == multiset(StreamOf(c, Packets(o.core)))
  {
    assert Balanced(c, o.out.At(c), o.s.outQ.At(c), o.core);
    assert StreamOf(c, Packets(o.core)) == o.out.At(c) + o.s.outQ.At(c).Seq();
  }

  // ---------------------------------------------------------------------------------------------
  // Progress

  /** Every output is ready and no beat comes in. */
  predicate Draining(i: Input) {
    i.aresetn && !i.rawValid && i.ready == PerClass(true, true, true, true)
  }

  predicate NoneFull(q: PerClass<Queue<Beat>>) {
    !q.arp.Two? && !q.icmp.Two? && !q.hivenet.Two? && !q.other.Two?
  }

  predicate AllEmpty(q: PerClass<Queue<Beat>>) {
    q.arp.Empty? && q.icmp.Empty? && q.hivenet.Empty? && q.other.Empty?
  }

  /** Edges still needed to empty the handler: a full output slice costs one, each beat in the input slice
      one, and the last beat in an output slice one. */
  function Waiting(s: Handler): nat {
    (if NoneFull(s.outQ) then 0 else 1) + |s.inQ.Seq()| + if s.inQ.Empty? && AllEmpty(s.outQ) then 0 else 1
  }

  /** A draining edge brings the handler one edge nearer to empty. */
  lemma DrainStep(bypass: Bypass, o: Observation, i: Input)
    requires Inv(bypass, o) && Draining(i)
    ensures Waiting(Observe(bypass, o, i).s) <= if Waiting(o.s) == 0 then 0 else Waiting(o.s) - 1
  {
    var s, g := o.s, Settle(bypass, o.s, i);
    SettleIsSound(bypass, o, i);
  }

  lemma {:induction false} Drain(bypass: Bypass, o: Observation, inputs: seq<Input>)
    requires Inv(bypass, o) && forall k :: 0 <= k < |inputs| ==> Draining(inputs[k])
    requires Waiting(o.s) <= |inputs|
    ensures
      var r := Run(bypass, o, inputs);
      Inv(bypass, r) && Waiting(r.s) == 0 && r.raw == o.raw
    decreases |inputs|
  {
    if inputs == [] {
    } else {
      assert Draining(inputs[0]);
      DrainStep(bypass, o, inputs[0]);
      ObserveKeepsInv(bypass, o, inputs[0]);
      Drain(bypass, Observe(bypass, o, inputs[0]), inputs[1..]);
    }
  }

  lemma EmptyHasDelivered(bypass: Bypass, r: Observation)
    requires Inv(bypass, r) && Waiting(r.s) == 0
    ensures r.raw == Beats(r.core) && forall c: Class :: r.out.At(c) == StreamOf(c, Packets(r.core))
  {
    forall c: Class
      ensures r.out.At(c) == StreamOf(c, Packets(r.core))
    {
      assert Balanced(c, r.out.At(c), r.s.outQ.At(c), r.core);
    }
  }

  /** Nothing is kept back: after any schedule, four edges with ready outputs and no new input deliver every
      packet of everything accepted. */
  lemma EverythingIsDelivered(bypass: Bypass, inputs: seq<Input>, tail: seq<Input>)
    requires |tail| >= 4 && forall k :: 0 <= k < |tail| ==> Draining(tail[k])
    ensures
      var o := Run(bypass, Start(), inputs);
      var r := Run(bypass, o, tail);
      && r.raw == o.raw == Beats(r.core)
      && forall c: Class :: r.out.At(c) == StreamOf(c, Packets(r.core))
  {
    ReachableInv(bypass, inputs);
    var o := Run(bypass, Start(), inputs);
    Drain(bypass, o, tail);
    EmptyHasDelivered(bypass, Run(bypass, o, tail));
  }

  lemma {:induction false} RunInTwo(bypass: Bypass, o: Observation, inputs: seq<Input>, n: nat)
    requires n <= |inputs|
    ensures Run(bypass, o, inputs) == Run(bypass, Run(bypass, o, inputs[..n]), inputs[n..])
    decreases n
  {
    if n == 0 {
      assert inputs[0..] == inputs;
    } else {
      assert inputs[..n][0] == inputs[0] && inputs[..n][1..] == inputs[1..][..n - 1] && inputs[1..][n - 1..] == inputs[n..];
      RunInTwo(bypass, Observe(bypass, o, inputs[0]), inputs[1..], n - 1);
    }
  }

  // ---------------------------------------------------------------------------------------------
  // Throughput

  /** Every output is ready and a beat comes in. */
  predicate Flowing(i: Input) {
    i.aresetn && i.rawValid && i.ready == PerClass(true, true, true, true)
  }

  lemma FlowingStep(bypass: Bypass, o: Observation, i: Input)
    requires Inv(bypass, o) && Flowing(i) && NoneFull(o.s.outQ) && !o.s.inQ.Two?
    ensures
      var r := Observe(bypass, o, i);
      NoneFull(r.s.outQ) && !r.s.inQ.Two? && |r.raw| == |o.raw| + 1
  {
    SettleIsSound(bypass, o, i);
  }

  lemma {:induction false} FlowingRun(bypass: Bypass, o: Observation, inputs: seq<Input>)
    requires Inv(bypass, o) && NoneFull(o.s.outQ) && !o.s.inQ.Two?
    requires forall k :: 0 <= k < |inputs| ==> Flowing(inputs[k])
    ensures |Run(bypass, o, inputs).raw| == |o.raw| + |inputs|
    decreases |inputs|
  {
    if inputs != [] {
      assert Flowing(inputs[0]);
      FlowingStep(bypass, o, inputs[0]);
      ObserveKeepsInv(bypass, o, inputs[0]);
      FlowingRun(bypass, Observe(bypass, o, inputs[0]), inputs[1..]);
    }
  }

  /** With ready outputs a beat is accepted on every edge, whatever the packets and the slices are. */
  lemma FullSpeed(bypass: Bypass, inputs: seq<Input>)
    requires forall k :: 0 <= k < |inputs| ==> Flowing(inputs[k])
    ensures |Run(bypass, Start(), inputs).raw| == |inputs|
  {
    FlowingRun(bypass, Start(), inputs);
  }

  // ---------------------------------------------------------------------------------------------
  // Constant configuration

  /** The configuration registers hold what their inputs were one cycle earlier. */
  lemma ConfigFollowsInputs(bypass: Bypass, inputs: seq<Input>)
    requires inputs != []
    ensures
      var last := inputs[|inputs| - 1];
      Run(bypass, Start(), inputs).s.config ==
        if last.aresetn then Config(last.myIp, SwapBytes(last.rocePort)) else Config(0, 0)
  {
    var n := |inputs| - 1;
    RunInTwo(bypass, Start(), inputs, n);
    assert inputs[n..] == [inputs[n]];
    var o := Run(bypass, Start(), inputs[..n]);
    assert Run(bypass, o, [inputs[n]]) == Observe(bypass, o, inputs[n]);
  }

  ghost predicate AllConfigured(core: seq<Arrival>, config: Config) {
    forall k :: 0 <= k < |core| ==> core[k].config == config
  }

  /** With an input slice no beat reaches the core before the registers are loaded. */
  ghost predicate Configured(o: Observation, config: Config) {
    AllConfigured(o.core, config) && (o.s.config == config || o.s.inQ.Empty?)
  }

  lemma {:induction false} ConfiguredRun(bypass: Bypass, o: Observation, inputs: seq<Input>, ip: bv32, port: bv16)
    requires !bypass.input && Configured(o, Registered(ip, port))
    requires forall k :: 0 <= k < |inputs| ==> inputs[k].myIp == ip && inputs[k].rocePort == port
    ensures Configured(Run(bypass, o, inputs), Registered(ip, port))
    decreases |inputs|
  {
    if inputs != [] {
      var i := inputs[0];
      assert i.myIp == ip && i.rocePort == port;
      ConfiguredRun(bypass, Observe(bypass, o, i), inputs[1..], ip, port);
    }
  }

  /** The first beat of the packet carries this frame, or its first 64 bytes. */
  ghost predicate Carries(p: seq<Arrival>, frame: seq<bv8>, fill: seq<bv8>) {
    p != [] && |frame| + |fill| == 64 && p[0].beat == FirstBeat(frame, fill, p[0].beat.tlast)
  }

  lemma {:induction false} PacketsAreConfigured(core: seq<Arrival>, config: Config)
    requires AllConfigured(core, config)
    ensures forall k :: 0 <= k < |Packets(core)| ==> AllConfigured(Packets(core)[k], config)
  {
    if core != [] {
      PacketsAreConfigured(core[..|core| - 1], config);
    }
  }

  /** With an input slice and a constant address and port, neither zero: the class of every packet, and so
      the output it is steered to, is what the byte-level parser makes of the frame. */
  lemma PacketsAreParsed(bypass: Bypass, inputs: seq<Input>, ip: bv32, port: bv16, k: nat, frame: seq<bv8>,
                         fill: seq<bv8>)
    requires !bypass.input && ip != 0 && port != 0
    requires forall j :: 0 <= j < |inputs| ==> inputs[j].myIp == ip && inputs[j].rocePort == port
    requires
      var ps := Packets(Run(bypass, Start(), inputs).core);
      k < |ps| && Carries(ps[k], frame, fill)
    ensures PacketClass(Packets(Run(bypass, Start(), inputs).core)[k]) == ParseFrame(frame, Octets(ip), port)
  {
    ConfiguredRun(bypass, Start(), inputs, ip, port);
    var core := Run(bypass, Start(), inputs).core;
    PacketsAreConfigured(core, Registered(ip, port));
    var p := Packets(core)[k];
    assert AllConfigured(p, Registered(ip, port));
    ConfiguredClassifierIsParser(frame, fill, p[0].beat.tlast, ip, port);
  }

  // ---------------------------------------------------------------------------------------------
  // Handshake

  /** The beat offered on output `c` in a cycle. */
  function Offered(bypass: Bypass, s: Handler, i: Input, c: Class): Option<Beat> {
    Offers(bypass, s, Settle(bypass, s, i)).At(c)
  }

  /** The upstream side of the handshake rule: a refused beat is presented again. */
  predicate UpstreamHolds(bypass: Bypass, s: Handler, i: Input, j: Input) {
    Raw(i).Some? && !Settle(bypass, s, i).rawReady ==> Raw(j) == Raw(i)
  }

  lemma OfferIsPortwise(bypass: Bypass, s: Handler, i: Input, c: Class)
    ensures
      var g := Settle(bypass, s, i);
      Offered(bypass, s, i, c) == SliceOffer(bypass.outputs.At(c), s.outQ.At(c), g.present.If(Connect(s, g.wires).At(c)))
  {
  }

  /** When an offer is refused and the core does not move either, the next cycle presents the same beat. */
  lemma CoreHolds(bypass: Bypass, o: Observation, i: Input, j: Input)
    requires Inv(bypass, o) && i.aresetn && UpstreamHolds(bypass, o.s, i, j)
    requires var g := Settle(bypass, o.s, i); g.present.Some? && !g.moves
    ensures
      var g, t := Settle(bypass, o.s, i), Step(bypass, o.s, i);
      && Settle(bypass, t, j).present == g.present
      && t.first == o.s.first && t.latched == o.s.latched
  {
    SettleIsSound(bypass, o, i);
    SliceHolds(bypass.input, o.s.inQ, Raw(i), Raw(j));
  }

  /** The handshake rule of section 2.2.1 of the AMBA 4 AXI4-Stream Protocol Specification, for every mix
      of slices: with an upstream that keeps the rule, and no reset, an offered beat that is not taken is
      offered again, unchanged, exactly unless it is the first beat of a packet on a sliceless output and
      the configuration registers change so that it no longer belongs there. */
  lemma OfferIsHeldIff(bypass: Bypass, inputs: seq<Input>, i: Input, j: Input, c: Class)
    requires
      var s := Run(bypass, Start(), inputs).s;
      i.aresetn && Offered(bypass, s, i, c).Some? && !i.ready.At(c) && UpstreamHolds(bypass, s, i, j)
    ensures
      var s := Run(bypass, Start(), inputs).s;
      var t, b := Step(bypass, s, i), Offered(bypass, s, i, c);
      Offered(bypass, t, j, c) == b <==> (bypass.outputs.At(c) && s.first ==> ClassOf(b.value, t.config) == c)
  {
    ReachableInv(bypass, inputs);
    var o := Run(bypass, Start(), inputs);
    var s, t, g := o.s, Step(bypass, o.s, i), Settle(bypass, o.s, i);
    SettleIsSound(bypass, o, i);
    OfferIsPortwise(bypass, s, i, c);
    OfferIsPortwise(bypass, t, j, c);
    if bypass.outputs.At(c) {
      PortIsSound(bypass, o, i, g, c);
      CoreHolds(bypass, o, i, j);
      WiresAreOneHot(g.present.value, t.config);
    } else {
      RecordIsPortwise(bypass, o, i, g, c);
    }
  }

  /** An ICMP packet to 0.0.0.0, in one beat of 34 bytes. */
  function ZeroPing(): Beat {
    Beat(
      seq(34, k => if k == 12 then 0x08 else if k == 14 then 0x45 else if k == 23 then 1 else 0),
      seq(34, _ => true), true)
  }

  /** The exception occurs: without slices, in the first cycle after reset, the address register is still
      zero and the packet is offered to ICMP; one edge later the register holds the own address and the
      offer, not taken and presented again, is gone. */
  lemma OfferCanBeWithdrawn()
    ensures
      var wires := PerClass(true, true, true, true);
      var i := Input(true, true, ZeroPing(), PerClass(false, false, false, false), 1, 0);
      var bypass, s := Bypass(true, wires), Run(Bypass(true, wires), Start(), []).s;
      && Offered(bypass, s, i, Icmp) == Some(ZeroPing()) && !i.ready.At(Icmp) && UpstreamHolds(bypass, s, i, i)
      && Offered(bypass, Step(bypass, s, i), i, Icmp) == None
  {
    ZeroPingIsIcmp();
  }

  lemma ZeroPingIsIcmp()
    ensures Wires(true, ZeroPing(), Config(0, 0)) == OneHot(Icmp)
    ensures forall port :: Wires(true, ZeroPing(), Config(1, port)) == OneHot(Other)
  {
    var b := ZeroPing();
    assert EtherType(true, b) == 0x0008 && IpProt(true, b) == 1 && IpHeaderLength(true, b) == 5;
    assert IpDestIp(true, b) == 0;
  }

  /** In particular the rule holds on all four outputs while the configuration registers do not change. */
  lemma OfferIsHeld(bypass: Bypass, inputs: seq<Input>, i: Input, j: Input, c: Class)
    requires
      var s := Run(bypass, Start(), inputs).s;
      && i.aresetn && Offered(bypass, s, i, c).Some? && !i.ready.At(c) && UpstreamHolds(bypass, s, i, j)
      && Step(bypass, s, i).config == s.config
    ensures
      var s := Run(bypass, Start(), inputs).s;
      Offered(bypass, Step(bypass, s, i), j, c) == Offered(bypass, s, i, c)
  {
    ReachableInv(bypass, inputs);
    var o := Run(bypass, Start(), inputs);
    OfferIsHeldIff(bypass, inputs, i, j, c);
    if bypass.outputs.At(c) {
      var b := Settle(bypass, o.s, i).present.value;
      ConnectIsOneHot(o, b);
      WiresAreOneHot(b, o.s.config);
    }
  }
}
