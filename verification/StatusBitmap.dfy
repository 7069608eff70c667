/** The packet-status bitmap: register_writes, blk_mem_gen_0 and bram_wrapper as they are wired together,
    and why a pipelined read never returns stale data. */
module StatusBitmap {

  const DEPTH: nat := 1048576

  type Addr = a: nat | a < DEPTH

  /** One clock cycle at the cell's boundary: the write port (ce1, we1, d1, address1), the read port
      (ce0, address0), and what port B latches if this edge reads the word that port A writes. */
  datatype Input = Input(ce1: bool, we1: bool, d1: bv8, addr1: Addr, ce0: bool, addr0: Addr, collision: bv2)

  function Low2(d: bv8): bv2 {
    (d & 3) as bv2
  }

  /** The RAM stores a data byte modulo four. */
  lemma Low2Value(d: bv8)
    ensures Low2(d) as int == d as int % 4
  {
  }

  /** Every register. `mem` is the RAM; a latch is the RAM primitive's own output, a dout the register
      after it. */
  datatype State = State(
    mem: seq<bv2>,
    ceA: bool, weA: bool, dinA: bv2, addrA: Addr,
    latchA: bv2, doutA: bv2,
    latchB: bv2, doutB: bv2,
    readAddr1: Addr, readAddr2: Addr,
    writeAddr1: Addr, writeAddr2: Addr)
  {
    /** Port A is enabled by the delayed write enable or by a read. */
    predicate EnA(i: Input) {
      ceA || i.ce0
    }

    predicate Writes(i: Input) {
      EnA(i) && weA
    }

    /** bram_wrapper: the port A word if both addresses of two cycles ago were the same. */
    function OutToRead(): bv2 {
      if readAddr2 == writeAddr2 then doutA else doutB
    }

    predicate Valid() {
      |mem| == DEPTH
    }

    function NextMem(i: Input): (m: seq<bv2>)
      requires Valid()
      ensures |m| == DEPTH
    {
      if Writes(i) then mem[addrA := dinA] else mem
    }

    /** Port A is WRITE_FIRST: a write passes its own data to the latch. */
    function NextLatchA(i: Input): bv2
      requires Valid()
    {
      if !EnA(i) then latchA else if weA then dinA else mem[addrA]
    }

    function NextLatchB(i: Input): bv2
      requires Valid()
    {
      if !i.ce0 then latchB else if Writes(i) && addrA == i.addr0 then i.collision else mem[i.addr0]
    }

    /** One rising clock edge. */
    function Step(i: Input): (s: State)
      requires Valid()
      ensures s.Valid()
    {
      State(
        NextMem(i),
        i.ce1, i.we1, Low2(i.d1), i.addr1,
        NextLatchA(i), if EnA(i) then latchA else doutA,
        NextLatchB(i), if i.ce0 then latchB else doutB,
        i.addr0, readAddr1,
        addrA, writeAddr1)
    }

    function Run(ins: seq<Input>): (s: State)
      requires Valid()
      ensures s.Valid()
    {
      if ins == [] then this else Run(ins[..|ins| - 1]).Step(ins[|ins| - 1])
    }
  }

  /** All registers start at zero. */
  function Reset(mem: seq<bv2>): State {
    State(mem, false, false, 0, 0, 0, 0, 0, 0, 0, 0, 0, 0)
  }

  // ---------------------------------------------------------------------------------------------
  // The device

  class Bitmap {
    const ram: array<bv2>
    var ceA: bool
    var weA: bool
    var dinA: bv2
    var addrA: Addr
    var latchA: bv2
    var doutA: bv2
    var latchB: bv2
    var doutB: bv2
    var readAddr: (Addr, Addr)
    var writeAddr: (Addr, Addr)

    ghost predicate Valid()
      reads this, ram
    {
      ram.Length == DEPTH
    }

    ghost function View(): (s: State)
      requires Valid()
      reads this, ram
      ensures s.Valid()
    {
      State(ram[..], ceA, weA, dinA, addrA, latchA, doutA, latchB, doutB, readAddr.0, readAddr.1, writeAddr.0, writeAddr.1)
    }

    constructor ()
      ensures Valid() && fresh(ram) && View() == Reset(ram[..])
    {
      ram := new bv2[DEPTH](_ => 0);
      ceA, weA, dinA, addrA := false, false, 0, 0;
      latchA, doutA, latchB, doutB := 0, 0, 0, 0;
      readAddr, writeAddr := (0, 0), (0, 0);
    }

    /** What the read port's user sees during a cycle. */
    method OutToRead() returns (data: bv2)
      requires Valid()
      ensures data == View().OutToRead()
    {
      data := if readAddr.1 == writeAddr.1 then doutA else doutB;
    }

    /** Port B of blk_mem_gen_0. */
    method PortB(i: Input)
      requires Valid()
      modifies `latchB, `doutB
      ensures latchB == old(View()).NextLatchB(i)
      ensures doutB == if i.ce0 then old(latchB) else old(doutB)
    {
      if i.ce0 {
        doutB := latchB;
        latchB := if (ceA || i.ce0) && weA && addrA == i.addr0 then i.collision else ram[i.addr0];
      }
    }

    /** Port A of blk_mem_gen_0. */
    method PortA(ena: bool)
      requires Valid()
      modifies ram, `latchA, `doutA
      ensures ram[..] == if ena && weA then old(ram[..])[addrA := dinA] else old(ram[..])
      ensures latchA == if !ena then old(latchA) else if weA then dinA else old(ram[addrA])
      ensures doutA == if ena then old(latchA) else old(doutA)
    {
      if ena {
        doutA := latchA;
        latchA := if weA then dinA else ram[addrA];
        if weA {
          ram[addrA] := dinA;
        }
      }
    }

    /** register_writes, and the address delays of bram_wrapper. */
    method Latch(i: Input)
      modifies `ceA, `weA, `dinA, `addrA, `readAddr, `writeAddr
      ensures ceA == i.ce1 && weA == i.we1 && addrA == i.addr1
      ensures dinA == Low2(i.d1) && dinA as int == i.d1 as int % 4
      ensures readAddr == (i.addr0, old(readAddr).0) && writeAddr == (old(addrA), old(writeAddr).0)
    {
      readAddr := (i.addr0, readAddr.0);
      writeAddr := (addrA, writeAddr.0);
      ceA, weA, dinA, addrA := i.ce1, i.we1, (i.d1 & 3) as bv2, i.addr1;
      Low2Value(i.d1);
    }

    method ClockEdge(i: Input)
      requires Valid()
      modifies this, ram
      ensures Valid()
      ensures View() == old(View()).Step(i)
      ensures dinA as int == i.d1 as int % 4
    {
      PortB(i);
      PortA(ceA || i.ce0);
      Latch(i);
    }
  }

  // ---------------------------------------------------------------------------------------------
  // One read

  /** The second stage is enabled too: by the read port, or on a collision by port A's next access. */
  predicate Held(s: State, i: Input, j: Input) {
    j.ce0 || (s.addrA == i.addr0 && i.ce1)
  }

  /** From any state and whatever port B latches on a collision: a read that is held sees the memory as
      port A leaves it on the read's own edge, and one that is not shows an older access. */
  lemma ReadSeesMemory(s: State, i: Input, j: Input)
    requires s.Valid() && i.ce0
    ensures
      var t := s.Step(i);
      t.Step(j).OutToRead() ==
        if Held(s, i, j) then t.mem[i.addr0] else if s.addrA == i.addr0 then t.doutA else t.doutB
  {
    var t := s.Step(i);
    var u := t.Step(j);
    assert u.readAddr2 == i.addr0 && u.writeAddr2 == s.addrA;
  }

  // ---------------------------------------------------------------------------------------------
  // Any run

  /** Write k of the run reaches the RAM: it is enabled by its own ce1, or by a read in the cycle in
      which it gets there. */
  predicate Effective(ins: seq<Input>, k: nat) {
    k + 1 < |ins| && ins[k].we1 && (ins[k].ce1 || ins[k + 1].ce0)
  }

  /** The latest effective write to an address, if the run has one. */
  predicate LastWrite(ins: seq<Input>, k: nat, a: Addr) {
    && Effective(ins, k) && ins[k].addr1 == a
    && forall m :: k < m < |ins| && Effective(ins, m) ==> ins[m].addr1 != a
  }

  predicate NeverWritten(ins: seq<Input>, a: Addr) {
    forall m :: 0 <= m < |ins| && Effective(ins, m) ==> ins[m].addr1 != a
  }

  /** The registers in front of port A hold the last cycle's write. */
  lemma PendingWrite(start: State, ins: seq<Input>)
    requires start.Valid() && ins != []
    ensures
      var s, last := start.Run(ins), ins[|ins| - 1];
      s.ceA == last.ce1 && s.weA == last.we1 && s.dinA == Low2(last.d1) && s.addrA == last.addr1
  {
  }

  lemma EffectiveEarlier(ins: seq<Input>, k: nat)
    requires ins != []
    ensures k + 2 < |ins| ==> (Effective(ins, k) <==> Effective(ins[..|ins| - 1], k))
    ensures k + 2 == |ins| ==> !Effective(ins[..|ins| - 1], k)
  {
  }

  /** One more cycle writes what the previous one issued. */
  lemma MemoryStep(mem: seq<bv2>, ins: seq<Input>, a: Addr)
    requires |mem| == DEPTH && ins != []
    ensures
      var before, after, k := Reset(mem).Run(ins[..|ins| - 1]).mem[a], Reset(mem).Run(ins).mem[a], |ins| - 2;
      after == if |ins| >= 2 && Effective(ins, k) && ins[k].addr1 == a then Low2(ins[k].d1) else before
  {
    if |ins| >= 2 {
      PendingWrite(Reset(mem), ins[..|ins| - 1]);
    }
  }

  lemma {:induction false} LastWriteIsKept(mem: seq<bv2>, ins: seq<Input>, k: nat, a: Addr)
    requires |mem| == DEPTH && LastWrite(ins, k, a)
    ensures Reset(mem).Run(ins).mem[a] == Low2(ins[k].d1)
  {
    MemoryStep(mem, ins, a);
    if k + 2 < |ins| {
      forall m | k <= m < |ins| - 1
        ensures Effective(ins[..|ins| - 1], m) ==> Effective(ins, m)
      {
        EffectiveEarlier(ins, m);
      }
      EffectiveEarlier(ins, k);
      LastWriteIsKept(mem, ins[..|ins| - 1], k, a);
    }
  }

  /** A word holds the low two bits of the data byte that was written to it last. */
  lemma MemoryIsLastWrite(mem: seq<bv2>, ins: seq<Input>, k: nat, a: Addr)
    requires |mem| == DEPTH && LastWrite(ins, k, a)
    ensures Reset(mem).Run(ins).mem[a] as int == ins[k].d1 as int % 4
  {
    LastWriteIsKept(mem, ins, k, a);
    Low2Value(ins[k].d1);
  }

  lemma {:induction false} MemoryNeverWritten(mem: seq<bv2>, ins: seq<Input>, a: Addr)
    requires |mem| == DEPTH && NeverWritten(ins, a)
    ensures Reset(mem).Run(ins).mem[a] == mem[a]
  {
    if ins == [] {
    } else {
      MemoryStep(mem, ins, a);
      forall m | 0 <= m < |ins| - 1
        ensures Effective(ins[..|ins| - 1], m) ==> Effective(ins, m)
      {
        EffectiveEarlier(ins, m);
      }
      MemoryNeverWritten(mem, ins[..|ins| - 1], a);
    }
  }

  /** Cycle t of a run reads, and the read is held: by the read enable in the next cycle, or, if it meets a
      write issued in the cycle before (the write address register starts at 0), by that cycle's ce1. */
  predicate HeldInRun(ins: seq<Input>, t: nat) {
    && t + 1 < |ins| && ins[t].ce0
    && (ins[t + 1].ce0 || (ins[t].ce1 && ins[t].addr0 == if t == 0 then 0 else ins[t - 1].addr1))
  }

  lemma WriteAddress(mem: seq<bv2>, ins: seq<Input>)
    requires |mem| == DEPTH
    ensures Reset(mem).Run(ins).addrA == if ins == [] then 0 else ins[|ins| - 1].addr1
  {
    if ins != [] {
      PendingWrite(Reset(mem), ins);
    }
  }

  /** The last two edges of a run. */
  lemma LastTwo(mem: seq<bv2>, ins: seq<Input>, t: nat)
    requires |mem| == DEPTH && t + 2 == |ins|
    ensures
      var s := Reset(mem).Run(ins[..t]);
      Reset(mem).Run(ins[..t + 1]) == s.Step(ins[t]) && Reset(mem).Run(ins) == s.Step(ins[t]).Step(ins[t + 1])
  {
    assert ins[..t + 1][..t] == ins[..t];
  }

  lemma HeldRead(mem: seq<bv2>, ins: seq<Input>, t: nat)
    requires |mem| == DEPTH && t + 2 == |ins| && HeldInRun(ins, t)
    ensures Reset(mem).Run(ins).OutToRead() == Reset(mem).Run(ins[..t + 1]).mem[ins[t].addr0]
  {
    var s := Reset(mem).Run(ins[..t]);
    WriteAddress(mem, ins[..t]);
    assert Held(s, ins[t], ins[t + 1]);
    ReadSeesMemory(s, ins[t], ins[t + 1]);
    LastTwo(mem, ins, t);
  }

  /** `v` is the data byte of the latest of these writes to the address, modulo four, or the initial content. */
  ghost predicate Current(mem: seq<bv2>, ins: seq<Input>, a: Addr, v: bv2)
    requires |mem| == DEPTH
  {
    && (forall k: nat :: LastWrite(ins, k, a) ==> v as int == ins[k].d1 as int % 4)
    && (NeverWritten(ins, a) ==> v == mem[a])
  }

  /** For every run from reset, every initial content, any interleaving of writes and pipelined reads,
      and arbitrary data on collisions: two cycles after a held read, the output is the latest write to
      that address issued before the read cycle, or the initial content. The read cycle's own edge
      counts, so a write that meets the read in the RAM is seen. */
  lemma ReadIsNeverStale(mem: seq<bv2>, ins: seq<Input>, t: nat)
    requires |mem| == DEPTH && t + 2 == |ins| && HeldInRun(ins, t)
    ensures Current(mem, ins[..t + 1], ins[t].addr0, Reset(mem).Run(ins).OutToRead())
  {
    var a, upTo := ins[t].addr0, ins[..t + 1];
    HeldRead(mem, ins, t);
    forall k: nat | LastWrite(upTo, k, a)
      ensures Reset(mem).Run(upTo).mem[a] as int == ins[k].d1 as int % 4
    {
      MemoryIsLastWrite(mem, upTo, k, a);
    }
    if NeverWritten(upTo, a) {
      MemoryNeverWritten(mem, upTo, a);
    }
  }

  /** The same of the device itself, for all reads of a whole run; `seen[t]` is the output in cycle t. */
  method Drive(b: Bitmap, ins: seq<Input>) returns (seen: seq<bv2>)
    requires b.Valid() && b.View() == Reset(b.ram[..])
    modifies b, b.ram
    ensures b.Valid() && |seen| == |ins| + 1
    ensures forall t :: 0 <= t < |ins| - 1 && HeldInRun(ins, t) ==>
              Current(old(b.ram[..]), ins[..t + 1], ins[t].addr0, seen[t + 2])
  {
    ghost var mem := b.ram[..];
    var data := b.OutToRead();
    seen := [data];
    for k := 0 to |ins|
      invariant b.Valid() && |seen| == k + 1 && b.View() == Reset(mem).Run(ins[..k])
      invariant forall t :: 0 <= t <= k ==> seen[t] == Reset(mem).Run(ins[..t]).OutToRead()
    {
      b.ClockEdge(ins[k]);
      assert ins[..k + 1][..k] == ins[..k];
      data := b.OutToRead();
      seen := seen + [data];
    }
    forall t | 0 <= t < |ins| - 1 && HeldInRun(ins, t)
      ensures Current(mem, ins[..t + 1], ins[t].addr0, seen[t + 2])
    {
      assert ins[..t + 2][..t + 1] == ins[..t + 1];
      ReadIsNeverStale(mem, ins[..t + 2], t);
    }
  }

  /** Exactly one of the two cases applies to every address. */
  lemma {:induction false} WrittenOrNot(ins: seq<Input>, a: Addr)
    ensures NeverWritten(ins, a) <==> !exists k: nat :: LastWrite(ins, k, a)
  {
    if !NeverWritten(ins, a) {
      var m :| 0 <= m < |ins| && Effective(ins, m) && ins[m].addr1 == a;
      FindLast(ins, m, a);
    }
  }

  lemma {:induction false} FindLast(ins: seq<Input>, m: nat, a: Addr)
    requires m < |ins| && Effective(ins, m) && ins[m].addr1 == a
    ensures exists k: nat :: LastWrite(ins, k, a)
    decreases |ins| - m
  {
    if next :| m < next < |ins| && Effective(ins, next) && ins[next].addr1 == a {
      FindLast(ins, next, a);
    } else {
      assert LastWrite(ins, m, a);
    }
  }

  /** The enable has to be held: dropped after one edge, the output is an older read's. */
  lemma ReleasedReadCanBeStale(mem: seq<bv2>)
    requires |mem| == DEPTH && mem[1] != 0
    ensures
      var read := Input(false, false, 0, 0, true, 1, 0);
      var idle := Input(false, false, 0, 0, false, 0, 0);
      Reset(mem).Run([read, idle]).OutToRead() != mem[1]
  {
    var read := Input(false, false, 0, 0, true, 1, 0);
    var idle := Input(false, false, 0, 0, false, 0, 0);
    assert [read, idle][..1] == [read] && [read][..0] == [];
    assert Reset(mem).Run([read]) == Reset(mem).Step(read);
  }
}
