/** ip_handler as it is built: the packet latches, the configuration registers and five optional
    register slices, updated in place on each clock edge. Every edge is proved to be IpHandler.Step. */
module IpHandlerDevice {
  import opened Fifo
  import opened RegSlices
  import opened FrameClassifier
  import opened IpHandler

  /** axis_register_ip_handler: two entries when BYPASS = 0, wires when BYPASS = 1. */
  class AxisRegister<T> {
    const wire: bool
    const slice: RegSlice<T>

    ghost predicate Valid()
      reads slice, slice.data
    {
      slice.Valid() && EmptyIfWire(wire, slice.queue)
    }

    constructor (wire: bool, zero: T)
      ensures Valid() && slice.queue == Empty && this.wire == wire
      ensures fresh(slice) && fresh(slice.data)
    {
      this.wire := wire;
      slice := new RegSlice(zero);
    }

    /** s_axis_tready. */
    method Ready(mReady: bool) returns (sReady: bool)
      requires Valid()
      ensures sReady == SliceReady(wire, slice.queue, mReady)
    {
      if wire {
        sReady := mReady;
      } else {
        var ready, _, _ := slice.Ports();
        sReady := ready;
      }
    }

    /** m_axis_tvalid and the payload; without a valid beat the payload wires carry anything. */
    method Offer(sValid: bool, sBeat: T) returns (mValid: bool, mBeat: T)
      requires Valid()
      ensures Some(mBeat).If(mValid) == SliceOffer(wire, slice.queue, Some(sBeat).If(sValid))
      ensures wire ==> mBeat == sBeat
    {
      if wire {
        mValid, mBeat := sValid, sBeat;
      } else {
        var _, valid, beat := slice.Ports();
        mValid, mBeat := valid, beat;
      }
    }

    method ClockEdge(aresetn: bool, sValid: bool, sBeat: T, mReady: bool)
      requires Valid()
      modifies slice, slice.data
      ensures Valid()
      ensures slice.queue == if aresetn then SliceStep(wire, old(slice.queue), Some(sBeat).If(sValid), mReady) else Empty
    {
      if !wire {
        slice.ClockEdge(aresetn, sBeat, sValid, mReady);
      }
    }
  }

  /** The four output registers. */
  class OutputBank {
    const arp: AxisRegister<Beat>
    const icmp: AxisRegister<Beat>
    const hivenet: AxisRegister<Beat>
    const other: AxisRegister<Beat>

    /** The objects an edge writes to. */
    ghost function Registers(): set<object> {
      {arp.slice, arp.slice.data, icmp.slice, icmp.slice.data,
       hivenet.slice, hivenet.slice.data, other.slice, other.slice.data}
    }

    ghost predicate Valid()
      reads Registers()
    {
      && Apart(arp, icmp) && Apart(arp, hivenet) && Apart(arp, other)
      && Apart(icmp, hivenet) && Apart(icmp, other) && Apart(hivenet, other)
      && arp.Valid() && icmp.Valid() && hivenet.Valid() && other.Valid()
    }

    static ghost predicate Apart(x: AxisRegister<Beat>, y: AxisRegister<Beat>) {
      x.slice != y.slice && x.slice.data != y.slice.data
    }

    function Wired(): PerClass<bool> {
      PerClass(arp.wire, icmp.wire, hivenet.wire, other.wire)
    }

    ghost function Queues(): PerClass<Queue<Beat>>
      reads Registers()
    {
      PerClass(arp.slice.queue, icmp.slice.queue, hivenet.slice.queue, other.slice.queue)
    }

    constructor (wired: PerClass<bool>, zero: Beat)
      ensures Valid() && Wired() == wired && Queues() == PerClass(Empty, Empty, Empty, Empty)
      ensures fresh(Registers())
    {
      arp := new AxisRegister(wired.arp, zero);
      icmp := new AxisRegister(wired.icmp, zero);
      hivenet := new AxisRegister(wired.hivenet, zero);
      other := new AxisRegister(wired.other, zero);
    }

    method Readys(mReady: PerClass<bool>) returns (r: PerClass<bool>)
      requires Valid()
      ensures r == SlicesReady(Wired(), Queues(), mReady)
    {
      var a := arp.Ready(mReady.arp);
      var i := icmp.Ready(mReady.icmp);
      var h := hivenet.Ready(mReady.hivenet);
      var o := other.Ready(mReady.other);
      r := PerClass(a, i, h, o);
    }

    /** The four m_axis_* ports: a beat where tvalid is up. */
    method Outputs(valid: bool, beat: Beat, connect: PerClass<bool>) returns (r: PerClass<Option<Beat>>)
      requires Valid()
      ensures r == SlicesOffer(Wired(), Queues(), Some(beat).If(valid), connect)
    {
      var aValid, a := arp.Offer(valid && connect.arp, beat);
      var iValid, i := icmp.Offer(valid && connect.icmp, beat);
      var hValid, h := hivenet.Offer(valid && connect.hivenet, beat);
      var oValid, o := other.Offer(valid && connect.other, beat);
      r := PerClass(Some(a).If(aValid), Some(i).If(iValid), Some(h).If(hValid), Some(o).If(oValid));
    }

    method ArpIcmpEdge(aresetn: bool, valid: bool, beat: Beat, connect: PerClass<bool>, mReady: PerClass<bool>)
      requires arp.Valid() && icmp.Valid() && Apart(arp, icmp)
      modifies arp.slice, arp.slice.data, icmp.slice, icmp.slice.data
      ensures arp.Valid() && icmp.Valid()
      ensures arp.slice.queue ==
        if aresetn then SliceStep(arp.wire, old(arp.slice.queue), Some(beat).If(valid).If(connect.arp), mReady.arp)
        else Empty
      ensures icmp.slice.queue ==
        if aresetn then SliceStep(icmp.wire, old(icmp.slice.queue), Some(beat).If(valid).If(connect.icmp), mReady.icmp)
        else Empty
    {
      arp.ClockEdge(aresetn, valid && connect.arp, beat, mReady.arp);
      icmp.ClockEdge(aresetn, valid && connect.icmp, beat, mReady.icmp);
    }

    method HivenetOtherEdge(aresetn: bool, valid: bool, beat: Beat, connect: PerClass<bool>, mReady: PerClass<bool>)
      requires hivenet.Valid() && other.Valid() && Apart(hivenet, other)
      modifies hivenet.slice, hivenet.slice.data, other.slice, other.slice.data
      ensures hivenet.Valid() && other.Valid()
      ensures hivenet.slice.queue ==
        if !aresetn then Empty
        else SliceStep(hivenet.wire, old(hivenet.slice.queue), Some(beat).If(valid).If(connect.hivenet), mReady.hivenet)
      ensures other.slice.queue ==
        if aresetn then SliceStep(other.wire, old(other.slice.queue), Some(beat).If(valid).If(connect.other), mReady.other)
        else Empty
    {
      hivenet.ClockEdge(aresetn, valid && connect.hivenet, beat, mReady.hivenet);
      other.ClockEdge(aresetn, valid && connect.other, beat, mReady.other);
    }

    method ClockEdge(aresetn: bool, valid: bool, beat: Beat, connect: PerClass<bool>, mReady: PerClass<bool>)
      requires Valid()
      modifies Registers()
      ensures Valid()
      ensures Queues() == if aresetn then SlicesStep(Wired(), old(Queues()), Some(beat).If(valid), connect, mReady)
                          else PerClass(Empty, Empty, Empty, Empty)
    {
      ArpIcmpEdge(aresetn, valid, beat, connect, mReady);
      HivenetOtherEdge(aresetn, valid, beat, connect, mReady);
    }
  }

  class Device {
    const bypass: Bypass
    var firstInt: bool
    var latched: PerClass<bool>     // is_arp_packet_r, is_icmp_packet_r, is_hivenet_packet_r, is_other_packet_r
    var myIpAddressReg: bv32
    var rocePortReg: bv16
    const input: AxisRegister<Beat>
    const bank: OutputBank

    ghost predicate Valid()
      reads input.slice, input.slice.data, bank.Registers()
    {
      && input.Valid() && bank.Valid()
      && input.wire == bypass.input && bank.Wired() == bypass.outputs
      && input.slice !in bank.Registers() && input.slice.data !in bank.Registers()
    }

    ghost function View(): Handler
      reads this, input.slice, bank.Registers()
    {
      Handler(firstInt, latched, Config(myIpAddressReg, rocePortReg), input.slice.queue, bank.Queues())
    }

    constructor (bypass: Bypass, zero: Beat)
      ensures Valid() && View() == Reset() && this.bypass == bypass
    {
      this.bypass := bypass;
      firstInt, latched, myIpAddressReg, rocePortReg := true, PerClass(false, false, false, false), 0, 0;
      input := new AxisRegister(bypass.input, zero);
      bank := new OutputBank(bypass.outputs, zero);
    }

    /** The settled wires of a cycle. The class wires count only under a valid beat: with none, they are
        computed from whatever the input slice's read entry holds. */
    method Wires(i: Input) returns (valid: bool, beat: Beat, wires: PerClass<bool>, coreReady: bool, rawReady: bool)
      requires Valid()
      ensures
        var g := Settle(bypass, View(), i);
        && Some(beat).If(valid) == g.present
        && (valid ==> wires == g.wires)
        && (g.moves <==> valid && coreReady)
        && rawReady == g.rawReady
    {
      valid, beat := input.Offer(i.rawValid, i.raw);
      wires := FrameClassifier.Wires(firstInt, beat, Config(myIpAddressReg, rocePortReg));
      var readys := bank.Readys(i.ready);
      coreReady := Select(ConnectWires(firstInt, latched, wires), readys);
      rawReady := input.Ready(coreReady);
    }

    /** What the environment sees before the edge: s_axis_raw_tready and the four outputs. */
    method Ports(i: Input) returns (rawReady: bool, offers: PerClass<Option<Beat>>)
      requires Valid()
      ensures
        var g := Settle(bypass, View(), i);
        rawReady == g.rawReady && offers == Offers(bypass, View(), g)
    {
      var valid, beat, wires, coreReady, ready := Wires(i);
      rawReady := ready;
      offers := bank.Outputs(valid, beat, ConnectWires(firstInt, latched, wires));
    }

    /** The always blocks of first_int, the class latches and the configuration registers. */
    method LatchEdge(i: Input, x: Option<Beat>, wires: PerClass<bool>)
      modifies this
      ensures firstInt == if i.aresetn then NextFirst(old(firstInt), x) else true
      ensures latched == if !i.aresetn then PerClass(false, false, false, false)
                         else if old(firstInt) && x.Some? then wires else old(latched)
      ensures Config(myIpAddressReg, rocePortReg) == if i.aresetn then Registered(i.myIp, i.rocePort) else Config(0, 0)
    {
      if !i.aresetn {
        firstInt, latched, myIpAddressReg, rocePortReg := true, PerClass(false, false, false, false), 0, 0;
        return;
      }
      if firstInt && x.Some? {
        latched := wires;
      }
      if firstInt {
        if x.Some? && !x.value.tlast { firstInt := false; }
      } else {
        if x.Some? && x.value.tlast { firstInt := true; }
      }
      myIpAddressReg, rocePortReg := i.myIp, SwapBytes(i.rocePort);
    }

    /** The five slices take up the settled wires. */
    method SlicesEdge(i: Input, valid: bool, beat: Beat, connect: PerClass<bool>, moves: bool)
      requires Valid()
      modifies input.slice, input.slice.data, bank.Registers()
      ensures Valid()
      ensures input.slice.queue ==
        if i.aresetn then SliceStep(bypass.input, old(input.slice.queue), Raw(i), moves) else Empty
      ensures bank.Queues() ==
        if i.aresetn then SlicesStep(bypass.outputs, old(bank.Queues()), Some(beat).If(valid), connect, i.ready)
        else PerClass(Empty, Empty, Empty, Empty)
    {
      ghost var queues := bank.Queues();
      input.ClockEdge(i.aresetn, i.rawValid, i.raw, moves);
      assert bank.Queues() == queues && bank.Valid();
      ghost var q := input.slice.queue;
      bank.ClockEdge(i.aresetn, valid, beat, connect, i.ready);
      assert input.slice.queue == q && input.Valid();
    }

    /** The registers take up the settled wires. */
    method Update(i: Input, valid: bool, beat: Beat, wires: PerClass<bool>, moves: bool, ghost rawReady: bool)
      requires Valid()
      modifies this, input.slice, input.slice.data, bank.Registers()
      ensures Valid()
      ensures
        var g := Signals(Some(beat).If(valid), wires, moves, rawReady);
        View() == if i.aresetn then Edge(bypass, old(View()), i, g) else Reset()
    {
      var connect := ConnectWires(firstInt, latched, wires);
      ghost var queue, queues := input.slice.queue, bank.Queues();
      LatchEdge(i, Some(beat).If(valid).If(moves), wires);
      assert input.slice.queue == queue && bank.Queues() == queues && Valid();
      SlicesEdge(i, valid, beat, connect, moves);
    }

    /** One rising edge of aclk. */
    method ClockEdge(i: Input)
      requires Valid()
      modifies this, input.slice, input.slice.data, bank.Registers()
      ensures Valid()
      ensures View() == Step(bypass, old(View()), i)
    {
      var valid, beat, wires, coreReady, rawReady := Wires(i);
      ghost var settled := Settle(bypass, View(), i);
      IdleWiresDoNotCount(bypass, View(), i, settled, wires);
      Update(i, valid, beat, wires, valid && coreReady, rawReady);
    }
  }

  /** What has been received on each output after a cycle with these offers. */
  function Received(out: PerClass<seq<Beat>>, offers: PerClass<Option<Beat>>, ready: PerClass<bool>): PerClass<seq<Beat>> {
    PerClass(
      out.arp + offers.arp.If(ready.arp).Seq(), out.icmp + offers.icmp.If(ready.icmp).Seq(),
      out.hivenet + offers.hivenet.If(ready.hivenet).Seq(), out.other + offers.other.If(ready.other).Seq())
  }

  /** Any schedule, from reset, seen from outside: each output has received whole packets of its class, in
      order, up to what its slice still holds, and the packets are those of what the input has handed over,
      up to what the input slice still holds. Four draining edges at the end, and nothing is held. */
  method Drive(d: Device, inputs: seq<Input>) returns (raw: seq<Beat>, out: PerClass<seq<Beat>>, ghost o: Observation)
    requires d.Valid() && d.View() == Reset()
    modifies d, d.input.slice, d.input.slice.data, d.bank.Registers()
    ensures d.Valid() && o == Run(d.bypass, Start(), inputs) && d.View() == o.s
    ensures raw == o.raw && out == o.out
    ensures Beats(o.core) <= raw && forall c: Class :: out.At(c) <= StreamOf(c, Packets(o.core))
    ensures |inputs| >= 4 && (forall k :: |inputs| - 4 <= k < |inputs| ==> Draining(inputs[k])) ==>
      Beats(o.core) == raw && forall c: Class :: out.At(c) == StreamOf(c, Packets(o.core))
  {
    raw, out, o := [], PerClass([], [], [], []), Start();
    for k := 0 to |inputs|
      invariant d.Valid() && d.View() == o.s && raw == o.raw && out == o.out
      invariant Run(d.bypass, o, inputs[k..]) == Run(d.bypass, Start(), inputs)
    {
      var i := inputs[k];
      var rawReady, offers := d.Ports(i);
      d.ClockEdge(i);
      if i.aresetn {
        raw := raw + Some(i.raw).If(i.rawValid && rawReady).Seq();
        out := Received(out, offers, i.ready);
      } else {
        raw, out := [], PerClass([], [], [], []);
      }
      assert inputs[k..][0] == i && inputs[k..][1..] == inputs[k + 1..];
      o := Observe(d.bypass, o, i);
    }
    DeliveredSoFar(d.bypass, inputs);
  }

  lemma DeliveredSoFar(bypass: Bypass, inputs: seq<Input>)
    ensures
      var o := Run(bypass, Start(), inputs);
      Beats(o.core) <= o.raw && forall c: Class :: o.out.At(c) <= StreamOf(c, Packets(o.core))
    ensures |inputs| >= 4 && (forall k :: |inputs| - 4 <= k < |inputs| ==> Draining(inputs[k])) ==>
      var o := Run(bypass, Start(), inputs);
      Beats(o.core) == o.raw && forall c: Class :: o.out.At(c) == StreamOf(c, Packets(o.core))
  {
    var o := Run(bypass, Start(), inputs);
    PacketsAreSteered(bypass, inputs);
    forall c: Class
      ensures o.out.At(c) <= StreamOf(c, Packets(o.core))
    {
      assert o.out.At(c) + o.s.outQ.At(c).Seq() == StreamOf(c, Packets(o.core));
    }
    if |inputs| >= 4 && forall k :: |inputs| - 4 <= k < |inputs| ==> Draining(inputs[k]) {
      RunInTwo(bypass, Start(), inputs, |inputs| - 4);
      EverythingIsDelivered(bypass, inputs[..|inputs| - 4], inputs[|inputs| - 4..]);
    }
  }
}
