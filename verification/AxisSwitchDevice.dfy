/** axis_switch as it is built: a state register and four register slices, updated in place on each
    clock edge. Every edge is proved to be AxisSwitch.Step on the queues the registers stand for. */
module AxisSwitchDevice {
  import opened Fifo
  import opened RegSlices
  import opened AxisSwitch

  class Device<D> {
    const zero: D              // what the muxes give when they select nothing
    var state: nat
    const header: RegSlice<Word<D>>
    const data0: RegSlice<Word<D>>
    const data1: RegSlice<Word<D>>
    const out: RegSlice<Word<D>>

    ghost predicate Valid()
      reads this, header, header.data, data0, data0.data, data1, data1.data, out, out.data
    {
      && header != data0 && header != data1 && header != out && data0 != data1 && data0 != out && data1 != out
      && header.data != data0.data && header.data != data1.data && header.data != out.data
      && data0.data != data1.data && data0.data != out.data && data1.data != out.data
      && header.Valid() && data0.Valid() && data1.Valid() && out.Valid()
    }

    ghost function View(): (s: Switch<D>)
      requires Valid()
      reads this, header, header.data, data0, data0.data, data1, data1.data, out, out.data
    {
      Switch(state, header.queue, data0.queue, data1.queue, out.queue)
    }

    constructor (zero: D)
      ensures Valid() && View() == Reset()
    {
      this.zero := zero;
      state := 0;
      header := new RegSlice(Word(zero, false));
      data0 := new RegSlice(Word(zero, false));
      data1 := new RegSlice(Word(zero, false));
      out := new RegSlice(Word(zero, false));
    }

    /** The wires between the four slices, settled before the edge. */
    method Wires() returns (pullHeader: bool, pullData0: bool, pullData1: bool, valid: bool, payload: D, next: nat)
      requires Valid()
      ensures
        var s, ready := View(), View().outQ.CanAccept();
        && pullHeader == (s.state == 0 && ready)
        && pullData0 == (s.state == 1 && ready)
        && pullData1 == (s.state == 2 && ready)
        && valid == s.Selected().Some?
        && (valid ==> payload == s.Selected().value.payload)
        && next == if s.state > 2 then 0 else if s.Transfers() then NextPhase(s.state, s.Selected().value) else s.state
    {
      var _, hValid, hBeat := header.Ports();
      var _, aValid, aBeat := data0.Ports();
      var _, bValid, bBeat := data1.Ports();
      var outReady, _, _ := out.Ports();
      pullHeader := state == 0 && outReady;
      pullData0 := state == 1 && outReady;
      pullData1 := state == 2 && outReady;
      payload := if state == 0 then hBeat.payload else if state == 1 then aBeat.payload
                 else if state == 2 then bBeat.payload else zero;
      valid := if state == 0 then hValid else if state == 1 then aValid else if state == 2 then bValid else false;
      match state
      case 0 => next := if pullHeader && hValid then 1 else 0;
      case 1 => next := if pullData0 && aValid then 2 else 1;
      case 2 => next := if pullData1 && bValid then (if bBeat.last then 0 else 1) else 2;
      case _ => next := 0;
    }

    /** The handshake outputs the environment sees before the edge. */
    method Ports() returns (headerReady: bool, data0Ready: bool, data1Ready: bool, outValid: bool, outPayload: D)
      requires Valid()
      ensures headerReady == View().headerQ.CanAccept()
      ensures data0Ready == View().data0Q.CanAccept()
      ensures data1Ready == View().data1Q.CanAccept()
      ensures outValid == View().outQ.Head().Some?
      ensures outValid ==> outPayload == View().outQ.Head().value.payload
    {
      var hReady, _, _ := header.Ports();
      var aReady, _, _ := data0.Ports();
      var bReady, _, _ := data1.Ports();
      var _, oValid, oBeat := out.Ports();
      headerReady, data0Ready, data1Ready := hReady, aReady, bReady;
      outValid, outPayload := oValid, oBeat.payload;
    }

    /** One rising edge of aclk. */
    method ClockEdge(i: Input<D>)
      requires Valid()
      modifies this, header, header.data, data0, data0.data, data1, data1.data, out, out.data
      ensures Valid()
      ensures View() == Step(old(View()), i)
    {
      var pullHeader, pullData0, pullData1, valid, payload, next := Wires();
      state := if i.aresetn then next else 0;
      header.ClockEdge(i.aresetn, Word(i.header, false), i.headerValid, pullHeader);
      data0.ClockEdge(i.aresetn, Word(i.data0, false), i.data0Valid, pullData0);
      data1.ClockEdge(i.aresetn, Word(i.data1, i.data1Last), i.data1Valid, pullData1);
      out.ClockEdge(i.aresetn, Word(payload, false), valid, i.outReady);
    }
  }

  function Payloads<D>(beats: seq<Word<D>>): (payloads: seq<D>)
    ensures |payloads| == |beats|
  {
    seq(|beats|, k requires 0 <= k < |beats| => beats[k].payload)
  }

  lemma HandedIsTaken<D>(before: seq<Word<D>>, head: Option<Word<D>>, ready: bool, valid: bool, payload: D)
    requires valid == head.Some? && (valid ==> payload == head.value.payload)
    ensures Payloads(before + head.If(ready).Seq()) == Payloads(before) + Handed(valid, ready, payload)
  {
  }

  /** What the environment has handed over on the inputs and received on the output since the last reset. */
  datatype Traffic<D> = Traffic(headers: seq<Word<D>>, data0: seq<Word<D>>, data1: seq<Word<D>>, out: seq<D>)

  /** The traffic after a cycle in which the environment drives `i` and sees these handshake outputs. */
  function Seen<D>(t: Traffic<D>, i: Input<D>, headerReady: bool, data0Ready: bool, data1Ready: bool,
                   outValid: bool, outPayload: D): Traffic<D> {
    Traffic(
      t.headers + Handed(i.headerValid, headerReady, Word(i.header, false)),
      t.data0 + Handed(i.data0Valid, data0Ready, Word(i.data0, false)),
      t.data1 + Handed(i.data1Valid, data1Ready, Word(i.data1, i.data1Last)),
      t.out + Handed(outValid, i.outReady, outPayload))
  }

  ghost predicate Records<D>(t: Traffic<D>, o: Observation<D>) {
    t.headers == o.headers && t.data0 == o.data0 && t.data1 == o.data1 && t.out == Payloads(o.out)
  }

  /** Any schedule, from reset, seen from outside: whatever the environment does on the three inputs and
      the output, what it has received is a prefix of the merge of what it has handed over, and all of it
      after fourteen draining edges. */
  method Drive<D(!new)>(d: Device<D>, inputs: seq<Input<D>>) returns (t: Traffic<D>)
    requires d.Valid() && d.View() == Reset()
    modifies d, d.header, d.header.data, d.data0, d.data0.data, d.data1, d.data1.data, d.out, d.out.data
    ensures d.Valid() && Records(t, Run(Start<D>(), inputs)) && d.View() == Run(Start<D>(), inputs).s
    ensures t.out <= Payloads(Merge(0, t.headers, t.data0, t.data1))
    ensures |inputs| >= 14 && (forall k :: |inputs| - 14 <= k < |inputs| ==> Draining(inputs[k])) ==>
      t.out == Payloads(Merge(0, t.headers, t.data0, t.data1))
  {
    ghost var o := Start();
    t := Traffic([], [], [], []);
    for k := 0 to |inputs|
      invariant d.Valid() && d.View() == o.s && Records(t, o)
      invariant Run(o, inputs[k..]) == Run(Start<D>(), inputs)
    {
      var i := inputs[k];
      var headerReady, data0Ready, data1Ready, outValid, outPayload := d.Ports();
      HandedIsTaken(o.out, o.s.outQ.Head(), i.outReady, outValid, outPayload);
      d.ClockEdge(i);
      t := if i.aresetn then Seen(t, i, headerReady, data0Ready, data1Ready, outValid, outPayload)
           else Traffic([], [], [], []);
      assert inputs[k..][0] == i && inputs[k..][1..] == inputs[k + 1..];
      o := Observe(o, i);
    }
    OutputIsMergeOfInputs(inputs);
    var merged := Merge(0, o.headers, o.data0, o.data1);
    assert forall j :: 0 <= j < |o.out| ==> o.out[j] == merged[j];
    if |inputs| >= 14 && forall k :: |inputs| - 14 <= k < |inputs| ==> Draining(inputs[k]) {
      DrainedRun(inputs);
    }
  }
}
