/** generator_collector: the generator's packets, the collector's check, and exactly what it detects. */
module SelfCheck {

  /** One 512-bit stream beat as its 64 bytes, with the side channels the generator drives. */
  datatype Packet = Packet(data: seq<bv8>, dest: bv13, last: bool) {
    function Byte(i: nat): bv8 {
      if i < |data| then data[i] else 0
    }
  }

  /** An hls::stream. */
  class Stream {
    var items: seq<Packet>

    constructor ()
      ensures items == []
    {
      items := [];
    }

    method Write(p: Packet)
      modifies this
      ensures items == old(items) + [p]
    {
      items := items + [p];
    }

    /** A blocking read; it returns once there is something to read. */
    method Read() returns (p: Packet)
      requires items != []
      modifies this
      ensures p == old(items)[0] && items == old(items)[1..]
    {
      p := items[0];
      items := items[1..];
    }
  }

  // ---------------------------------------------------------------------------------------------
  // Counters

  /** Bits 7..0 of a counter that has been incremented `n` times from zero. */
  function LowByte(n: nat): bv8 {
    if n == 0 then 0 else LowByte(n - 1) + 1
  }

  lemma {:induction false} LowByteSum(a: nat, b: nat)
    ensures LowByte(a + b) == LowByte(a) + LowByte(b)
  {
    if b == 0 {
    } else {
      LowByteSum(a, b - 1);
      assert a + b - 1 == a + (b - 1);
    }
  }

  lemma IncrementByte(x: bv8)
    ensures (x + 1) as int == if x == 255 then 0 else x as int + 1
  {
  }

  lemma {:induction false} LowByteValue(n: nat)
    ensures LowByte(n) as int == n % 256
  {
    if n == 0 {
    } else {
      LowByteValue(n - 1);
      IncrementByte(LowByte(n - 1));
      assert n % 256 == if (n - 1) % 256 == 255 then 0 else (n - 1) % 256 + 1;
    }
  }

  lemma LowByteIs(n: nat)
    ensures LowByte(n) == (n % 256) as bv8
  {
    LowByteValue(n);
    ByteOfValue(LowByte(n), n % 256);
  }

  lemma ByteOfValue(x: bv8, n: nat)
    requires n < 256 && x as int == n
    ensures n as bv8 == x
  {
  }

  lemma LowByteCongruence(m: nat, n: nat)
    ensures LowByte(m) == LowByte(n) <==> m % 256 == n % 256
  {
    LowByteValue(m);
    LowByteValue(n);
    ByteInjective(LowByte(m), LowByte(n));
  }

  lemma ByteInjective(x: bv8, y: bv8)
    ensures x as int == y as int ==> x == y
  {
    assert x < y ==> x as int < y as int;
    assert y < x ==> y as int < x as int;
  }

  lemma {:induction false} LowByteOfPackets(n: nat)
    ensures LowByte(64 * n) == LowByte(n) << 6
  {
    if n == 0 {
    } else {
      LowByteOfPackets(n - 1);
      LowByteSum(64 * (n - 1), 64);
      LowByteValue(64);
      ByteInjective(LowByte(64), 64);
    }
  }

  // ---------------------------------------------------------------------------------------------
  // What the two modes compute

  /** The 13-bit exclusive or is cut to eight bits when it is stored. */
  function IdByte(id: bv13): bv8 {
    (id & 0xFF) as bv8
  }

  /** What the byte counter has reached at byte `i` of the packet numbered `p`, all modulo 256: the
      counter is never reset, so it has advanced by 64 for each packet before. */
  function ByteCounter(p: bv8, i: bv8): bv8 {
    (p << 6) + i
  }

  /** The byte written for byte counter `c` and packet counter `p`. */
  function Compose(id: bv13, p: bv8, c: bv8): bv8 {
    IdByte(id) ^ c ^ p
  }

  /** The collector's comparison: eight bits on the left, all thirteen bits of the id on the right. */
  predicate Compare(id: bv13, p: bv8, c: bv8, x: bv8) {
    (x ^ p ^ c) as bv13 == id
  }

  function Encode(id: bv13, p: bv8, i: bv8): bv8 {
    Compose(id, p, ByteCounter(p, i))
  }

  predicate Decodes(id: bv13, p: bv8, i: bv8, x: bv8) {
    Compare(id, p, ByteCounter(p, i), x)
  }

  lemma ByteCounterValue(n: nat, i: nat)
    ensures LowByte(64 * n + i) == ByteCounter(LowByte(n), LowByte(i))
  {
    LowByteSum(64 * n, i);
    LowByteOfPackets(n);
  }

  /** Byte `i` of packet `n`. */
  function GeneratedByte(id: bv13, n: nat, i: nat): bv8 {
    Encode(id, LowByte(n), LowByte(i))
  }

  /** In closed form: the low byte of the id, exclusive or the byte's position in the whole stream, exclusive or
      the packet's number, both modulo 256. */
  function PacketByte(id: bv13, k: nat, i: nat): bv8 {
    ((id & 0xFF) as bv8) ^ (((64 * k + i) % 256) as bv8) ^ ((k % 256) as bv8)
  }

  ghost predicate HasBytes(id: bv13, k: nat, p: Packet) {
    forall i :: 0 <= i < 64 ==> p.Byte(i) == PacketByte(id, k, i)
  }

  /** What the generator sends as packet `k`: to the node `id`, as one frame. */
  ghost predicate IsPacket(id: bv13, k: nat, p: Packet) {
    |p.data| == 64 && p.dest == id && p.last && HasBytes(id, k, p)
  }

  lemma GeneratedByteValue(id: bv13, k: nat, i: nat)
    ensures GeneratedByte(id, k, i) == PacketByte(id, k, i)
  {
    ByteCounterValue(k, i);
    LowByteIs(64 * k + i);
    LowByteIs(k);
  }

  ghost predicate ArePackets(id: bv13, packets: seq<Packet>) {
    forall k :: 0 <= k < |packets| ==> IsPacket(id, k, packets[k])
  }

  lemma GeneratedIsPacket(id: bv13, k: nat)
    ensures IsPacket(id, k, GeneratedPacket(id, k))
  {
    forall i | 0 <= i < 64
      ensures GeneratedPacket(id, k).Byte(i) == GeneratedByte(id, k, i)
      ensures GeneratedByte(id, k, i) == PacketByte(id, k, i)
    {
      GeneratedByteValue(id, k, i);
    }
  }

  function GeneratedPacket(id: bv13, n: nat): Packet {
    Packet(seq(64, i requires 0 <= i => GeneratedByte(id, n, i)), id, true)
  }

  function Generated(id: bv13, n: nat): seq<Packet> {
    seq(n, k requires 0 <= k => GeneratedPacket(id, k))
  }

  predicate ByteAccepted(id: bv13, k: nat, i: nat, x: bv8) {
    Decodes(id, LowByte(k), LowByte(i), x)
  }

  ghost predicate AcceptedUpTo(id: bv13, k: nat, p: Packet, n: nat) {
    forall i :: 0 <= i < n ==> ByteAccepted(id, k, i, p.Byte(i))
  }

  lemma AcceptedGrows(id: bv13, k: nat, p: Packet, n: nat)
    ensures AcceptedUpTo(id, k, p, n + 1) <==> AcceptedUpTo(id, k, p, n) && ByteAccepted(id, k, n, p.Byte(n))
  {
  }

  lemma GeneratedArePackets(id: bv13, n: nat)
    ensures ArePackets(id, Generated(id, n))
  {
    forall k | 0 <= k < n ensures IsPacket(id, k, Generated(id, n)[k]) {
      GeneratedIsPacket(id, k);
    }
  }

  ghost predicate PacketAccepted(id: bv13, k: nat, p: Packet) {
    AcceptedUpTo(id, k, p, 64)
  }

  /** The collector with id `id` raises no error on these packets. */
  ghost predicate Clean(id: bv13, packets: seq<Packet>) {
    forall k :: 0 <= k < |packets| ==> PacketAccepted(id, k, packets[k])
  }

  /** One pass of the generator's inner loop, from the running byte counter. */
  method FillPacket(id: bv13, n: nat, byteCounter: bv8) returns (dat: Packet, next: bv8)
    requires byteCounter == LowByte(64 * n)
    ensures dat == GeneratedPacket(id, n) && IsPacket(id, n, dat)
    ensures next == LowByte(64 * (n + 1))
  {
    var data := seq(64, i => 0 as bv8);
    next := byteCounter;
    for i := 0 to 64
      invariant |data| == 64 && next == LowByte(64 * n + i)
      invariant forall j :: 0 <= j < i ==> data[j] == GeneratedByte(id, n, j)
    {
      ByteCounterValue(n, i);
      data := data[i := Compose(id, LowByte(n), next)];
      next := next + 1;
    }
    dat := Packet(data, id, true);
    assert dat.data == GeneratedPacket(id, n).data;
    GeneratedIsPacket(id, n);
  }

  method CompareByte(id: bv13, n: nat, i: nat, x: bv8, byteCounter: bv8) returns (differs: bool)
    requires byteCounter == LowByte(64 * n + i)
    ensures differs <==> !ByteAccepted(id, n, i, x)
  {
    ByteCounterValue(n, i);
    differs := !Compare(id, LowByte(n), byteCounter, x);
  }

  /** One pass of the collector's inner loop. */
  method CheckPacket(id: bv13, n: nat, dat: Packet, byteCounter: bv8, errorBefore: bool) returns (error: bool, next: bv8)
    requires byteCounter == LowByte(64 * n)
    ensures error <==> errorBefore || !PacketAccepted(id, n, dat)
    ensures next == LowByte(64 * (n + 1))
  {
    error, next := errorBefore, byteCounter;
    for i := 0 to 64
      invariant next == LowByte(64 * n + i)
      invariant error <==> errorBefore || !AcceptedUpTo(id, n, dat, i)
    {
      var differs := CompareByte(id, n, i, dat.Byte(i), next);
      AcceptedGrows(id, n, dat, i);
      if differs {
        error := true;
      }
      next := next + 1;
    }
  }

  /** The kernel. Its loop counter is a signed 32-bit int, which is why the packet count stays below 2^31
      although the argument is unsigned. A collector waits until its packets have arrived. */
  method GeneratorCollector(generate: bool, id: bv13, packetsNum: nat, input: Stream, output: Stream)
    returns (byteCounter: bv8, pktCnt: nat, error: bool)
    requires packetsNum < 0x8000_0000
    requires !generate ==> |input.items| >= packetsNum
    modifies input, output
    ensures byteCounter as int == 64 * packetsNum % 256 && pktCnt == packetsNum
    ensures generate ==> !error && output.items == old(output.items) + Generated(id, packetsNum)
    ensures generate ==> |output.items| == |old(output.items)| + packetsNum
    ensures generate ==> ArePackets(id, output.items[|old(output.items)|..])
    ensures !generate ==> input.items == old(input.items)[packetsNum..]
    ensures !generate ==> (error <==> !Clean(id, old(input.items)[..packetsNum]))
    ensures !generate ==>
      (error <==>
         packetsNum > 0 && (id >= 256 || exists k :: 0 <= k < packetsNum && !HasBytes(id, k, old(input.items)[k])))
    ensures input != output ==> if generate then input.items == old(input.items) else output.items == old(output.items)
  {
    byteCounter, error := 0, false;
    if generate {
      for i := 0 to packetsNum
        invariant byteCounter == LowByte(64 * i)
        invariant output.items == old(output.items) + Generated(id, i)
        invariant input != output ==> input.items == old(input.items)
      {
        var dat;
        dat, byteCounter := FillPacket(id, i, byteCounter);
        output.Write(dat);
        assert Generated(id, i + 1) == Generated(id, i) + [dat];
      }
    } else {
      for n := 0 to packetsNum
        invariant byteCounter == LowByte(64 * n)
        invariant input.items == old(input.items)[n..]
        invariant error <==> !Clean(id, old(input.items)[..n])
        invariant input != output ==> output.items == old(output.items)
      {
        var dat := input.Read();
        error, byteCounter := CheckPacket(id, n, dat, byteCounter, error);
        assert old(input.items)[..n + 1] == old(input.items)[..n] + [dat];
      }
    }
    pktCnt := packetsNum;
    LowByteValue(64 * packetsNum);
    GeneratedArePackets(id, packetsNum);
    assert generate ==> output.items[|old(output.items)|..] == Generated(id, packetsNum);
    if !generate && packetsNum > 0 {
      CleanMeansEveryByte(id, old(input.items)[..packetsNum]);
    }
  }

  // ---------------------------------------------------------------------------------------------
  // What the check detects

  lemma SmallByte(i: nat)
    requires i < 64
    ensures LowByte(i) < 64
  {
    LowByteValue(i);
    SmallValue(LowByte(i));
  }

  lemma SmallValue(x: bv8)
    ensures x as int < 64 ==> x < 64
  {
  }

  lemma DecodedIdIsSmall(id: bv13, p: bv8, i: bv8, x: bv8)
    ensures Decodes(id, p, i, x) ==> id < 256
  {
  }

  lemma DecodedIsEncoded(id: bv13, p: bv8, i: bv8, x: bv8)
    ensures Decodes(id, p, i, x) ==> x == Encode(id, p, i)
  {
  }

  lemma EncodedDecodes(id: bv13, p: bv8, i: bv8)
    ensures id < 256 ==> Decodes(id, p, i, Encode(id, p, i))
  {
  }

  lemma DecodeIff(id: bv13, p: bv8, i: bv8, x: bv8)
    ensures Decodes(id, p, i, x) <==> id < 256 && x == Encode(id, p, i)
  {
    DecodedIdIsSmall(id, p, i, x);
    DecodedIsEncoded(id, p, i, x);
    EncodedDecodes(id, p, i);
  }

  /** The part of a packet's bytes that depends on the packet number `p`. */
  function Mix(p: bv8): bv8 {
    (p << 6) ^ p
  }

  lemma DecodedPacketsFit(id: bv13, j: bv13, g: bv8, k: bv8)
    requires Decodes(id, k, 0, Encode(j, g, 0))
    ensures id < 256 && IdByte(j) ^ Mix(g) == IdByte(id) ^ Mix(k)
  {
  }

  lemma FittingPacketsDecode(id: bv13, j: bv13, g: bv8, k: bv8, i: bv8)
    requires i < 64 && id < 256 && IdByte(j) ^ Mix(g) == IdByte(id) ^ Mix(k)
    ensures Decodes(id, k, i, Encode(j, g, i))
  {
  }

  lemma MixIsInjective(i: bv8, g: bv8, k: bv8)
    requires i ^ Mix(g) == i ^ Mix(k)
    ensures g == k
  {
  }

  /** The collector with id `id` at position `k`, and a packet of id `j` and index `g`, fit together. */
  predicate Matches(id: bv13, k: nat, j: bv13, g: nat) {
    id < 256 && IdByte(j) ^ Mix(LowByte(g)) == IdByte(id) ^ Mix(LowByte(k))
  }

  lemma FittingByteIsAccepted(id: bv13, k: nat, j: bv13, g: nat, i: nat)
    requires i < 64 && Matches(id, k, j, g)
    ensures ByteAccepted(id, k, i, GeneratedByte(j, g, i))
  {
    SmallByte(i);
    FittingPacketsDecode(id, j, LowByte(g), LowByte(k), LowByte(i));
  }

  lemma PacketBytes(id: bv13, n: nat, i: nat)
    requires i < 64
    ensures GeneratedPacket(id, n).Byte(i) == GeneratedByte(id, n, i)
  {
  }

  lemma FittingPacketIsAccepted(id: bv13, k: nat, j: bv13, g: nat)
    requires Matches(id, k, j, g)
    ensures PacketAccepted(id, k, GeneratedPacket(j, g))
  {
    forall i | 0 <= i < 64 ensures ByteAccepted(id, k, i, GeneratedPacket(j, g).Byte(i)) {
      PacketBytes(j, g, i);
      FittingByteIsAccepted(id, k, j, g, i);
    }
  }

  lemma AcceptedPacketFits(id: bv13, k: nat, j: bv13, g: nat)
    requires PacketAccepted(id, k, GeneratedPacket(j, g))
    ensures Matches(id, k, j, g)
  {
    PacketBytes(j, g, 0);
    assert ByteAccepted(id, k, 0, GeneratedPacket(j, g).Byte(0));
    DecodedPacketsFit(id, j, LowByte(g), LowByte(k));
  }

  /** A generated packet, of any id and index, in any position: accepted exactly in this case. */
  lemma PacketIsAcceptedIff(id: bv13, k: nat, j: bv13, g: nat)
    ensures PacketAccepted(id, k, GeneratedPacket(j, g)) <==> Matches(id, k, j, g)
  {
    if PacketAccepted(id, k, GeneratedPacket(j, g)) {
      AcceptedPacketFits(id, k, j, g);
    }
    if Matches(id, k, j, g) {
      FittingPacketIsAccepted(id, k, j, g);
    }
  }

  lemma SameIdIsAcceptedIff(id: bv13, k: nat, g: nat)
    ensures PacketAccepted(id, k, GeneratedPacket(id, g)) <==> id < 256 && g % 256 == k % 256
  {
    PacketIsAcceptedIff(id, k, id, g);
    LowByteCongruence(g, k);
    if Matches(id, k, id, g) {
      MixIsInjective(IdByte(id), LowByte(g), LowByte(k));
    }
  }

  /** The packets of one generator, arriving with the indices `g`. */
  function Arriving(id: bv13, g: seq<nat>): seq<Packet> {
    seq(|g|, k requires 0 <= k < |g| => GeneratedPacket(id, g[k]))
  }

  /** The collector raises no error on arriving generator packets exactly when every index is congruent
      to its position: loss, duplication and reordering go unnoticed only in multiples of 256. */
  lemma DetectsDisplacement(id: bv13, g: seq<nat>)
    ensures Clean(id, Arriving(id, g)) <==> g == [] || (id < 256 && forall k :: 0 <= k < |g| ==> g[k] % 256 == k % 256)
  {
    forall k | 0 <= k < |g|
      ensures PacketAccepted(id, k, Arriving(id, g)[k]) <==> id < 256 && g[k] % 256 == k % 256
    {
      SameIdIsAcceptedIff(id, k, g[k]);
    }
    if g != [] {
      assert PacketAccepted(id, 0, Arriving(id, g)[0]) <==> id < 256 && g[0] % 256 == 0;
    }
  }

  /** Generator and collector with one id and one count agree, except that an id of 256 or more never passes. */
  lemma SelfCheckPassesIff(id: bv13, n: nat)
    ensures Clean(id, Generated(id, n)) <==> id < 256 || n == 0
  {
    var g := seq(n, k requires 0 <= k => k);
    DetectsDisplacement(id, g);
    assert Arriving(id, g) == Generated(id, n);
  }

  lemma ShiftModulo(k: nat, d: nat)
    ensures (k + d) % 256 == k % 256 <==> d % 256 == 0
  {
  }

  /** Losing `d` packets from position `p` on is noticed unless nothing follows them or 256 divides d. */
  lemma LossIsDetected(id: bv13, n: nat, p: nat, d: nat)
    requires id < 256
    ensures
      var g := seq(n, k requires 0 <= k => if k < p then k else k + d);
      Clean(id, Arriving(id, g)) <==> p >= n || d % 256 == 0
  {
    var g: seq<nat> := seq(n, k requires 0 <= k => if k < p then k else k + d);
    DetectsDisplacement(id, g);
    forall k | 0 <= k < n ensures g[k] % 256 == k % 256 <==> k < p || d % 256 == 0 {
      ShiftModulo(k, d);
    }
    if p < n {
      assert g[p] % 256 == p % 256 <==> d % 256 == 0;
    }
  }

  lemma AnyPacketIsAcceptedIff(id: bv13, k: nat, p: Packet)
    ensures PacketAccepted(id, k, p) <==> id < 256 && HasBytes(id, k, p)
  {
    forall i | 0 <= i < 64
      ensures ByteAccepted(id, k, i, p.Byte(i)) <==> id < 256 && p.Byte(i) == GeneratedByte(id, k, i)
      ensures GeneratedByte(id, k, i) == PacketByte(id, k, i)
    {
      DecodeIff(id, LowByte(k), LowByte(i), p.Byte(i));
      GeneratedByteValue(id, k, i);
    }
    assert ByteAccepted(id, k, 0, p.Byte(0)) <==> id < 256 && p.Byte(0) == GeneratedByte(id, k, 0);
  }

  /** No error means that every byte of every packet is the generated one, and that the id fits in eight
      bits: a single wrong byte anywhere sets the sticky error. */
  lemma CleanMeansEveryByte(id: bv13, packets: seq<Packet>)
    requires packets != []
    ensures Clean(id, packets) <==> id < 256 && forall k :: 0 <= k < |packets| ==> HasBytes(id, k, packets[k])
  {
    forall k | 0 <= k < |packets|
      ensures PacketAccepted(id, k, packets[k]) <==> id < 256 && HasBytes(id, k, packets[k])
    {
      AnyPacketIsAcceptedIff(id, k, packets[k]);
    }
    assert PacketAccepted(id, 0, packets[0]) <==> id < 256 && HasBytes(id, 0, packets[0]);
  }

  /** One kernel generates, another with the same id and count checks what arrives. */
  method LoopBack(id: bv13, packetsNum: nat) returns (error: bool)
    requires packetsNum < 0x8000_0000
    ensures error <==> id >= 256 && packetsNum > 0
  {
    var link := new Stream();
    var unused := new Stream();
    var _, _, _ := GeneratorCollector(true, id, packetsNum, unused, link);
    assert link.items == Generated(id, packetsNum);
    var _, _, e := GeneratorCollector(false, id, packetsNum, link, unused);
    error := e;
    assert Generated(id, packetsNum)[..packetsNum] == Generated(id, packetsNum);
    SelfCheckPassesIff(id, packetsNum);
  }
}
