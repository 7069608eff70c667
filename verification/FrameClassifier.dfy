/** The first-beat classifier of ip_handler, and the byte-level header parser it stands for. */
module FrameClassifier {

  /** A 512-bit beat as its 64 byte lanes: lane k is tdata[8*k +: 8] and its enable is tkeep[k]. */
  datatype Beat = Beat(tdata: seq<bv8>, tkeep: seq<bool>, tlast: bool) {
    function Lane(k: nat): bv8 {
      if k < |tdata| then tdata[k] else 0
    }

    predicate Keep(k: nat) {
      k < |tkeep| && tkeep[k]
    }
  }

  datatype Class = Arp | Icmp | Hivenet | Other

  datatype PerClass<X> = PerClass(arp: X, icmp: X, hivenet: X, other: X) {
    function At(c: Class): X {
      match c
      case Arp => arp
      case Icmp => icmp
      case Hivenet => hivenet
      case Other => other
    }
  }

  function OneHot(c: Class): PerClass<bool> {
    PerClass(c == Arp, c == Icmp, c == Hivenet, c == Other)
  }

  /** my_ip_address_reg and roce_port_reg. */
  datatype Config = Config(ip: bv32, port: bv16)

  /** The port register holds the configured port with its two bytes swapped. */
  function Registered(myIp: bv32, rocePort: bv16): Config {
    Config(myIp, SwapBytes(rocePort))
  }

  function Join16(hi: bv8, lo: bv8): bv16 {
    ((hi as bv16) << 8) | (lo as bv16)
  }

  function Join32(b3: bv8, b2: bv8, b1: bv8, b0: bv8): bv32 {
    ((b3 as bv32) << 24) | ((b2 as bv32) << 16) | ((b1 as bv32) << 8) | (b0 as bv32)
  }

  function EtherType(first: bool, b: Beat): bv16 {
    if first && b.Keep(12) && b.Keep(13) then Join16(b.Lane(13), b.Lane(12)) else 0
  }

  function IpProt(first: bool, b: Beat): bv8 {
    if first && b.Keep(23) then b.Lane(23) else 0
  }

  function IpHeaderLength(first: bool, b: Beat): bv8 {
    if first && b.Keep(14) then b.Lane(14) & 0x0F else 0
  }

  function IpDestIp(first: bool, b: Beat): bv32 {
    if first && b.Keep(30) && b.Keep(31) && b.Keep(32) && b.Keep(33)
    then Join32(b.Lane(33), b.Lane(32), b.Lane(31), b.Lane(30))
    else 0
  }

  function UdpDestPort(first: bool, b: Beat): bv16 {
    if first && b.Keep(36) && b.Keep(37) then Join16(b.Lane(37), b.Lane(36)) else 0
  }

  /** The is_*_packet_w wires. */
  function Wires(first: bool, b: Beat, cfg: Config): PerClass<bool> {
    var toMe := IpDestIp(first, b) == cfg.ip || IpDestIp(first, b) == 0xFFFFFFFF;
    var arp := EtherType(first, b) == 0x0608;
    var icmp := EtherType(first, b) == 0x0008 && IpProt(first, b) == 0x01 && IpHeaderLength(first, b) == 5 && toMe;
    var hivenet := EtherType(first, b) == 0x0008 && IpProt(first, b) == 0x11 && IpHeaderLength(first, b) == 5 && toMe
                   && UdpDestPort(first, b) == cfg.port;
    PerClass(arp, icmp, hivenet, !arp && !icmp && !hivenet)
  }

  /** The class of a packet whose first beat is `b`. */
  function ClassOf(b: Beat, cfg: Config): Class {
    var w := Wires(true, b, cfg);
    if w.arp then Arp else if w.icmp then Icmp else if w.hivenet then Hivenet else Other
  }

  /** The four wires never overlap and always name one class. */
  lemma WiresAreOneHot(b: Beat, cfg: Config)
    ensures Wires(true, b, cfg) == OneHot(ClassOf(b, cfg))
  {
  }

  // ---------------------------------------------------------------------------------------------
  // The byte-level parser

  /** Network byte order. */
  function BigEndian16(frame: seq<bv8>, at: nat): bv16
    requires at + 1 < |frame|
  {
    Join16(frame[at], frame[at + 1])
  }

  function Low8(x: bv32): bv8 {
    (x & 0xFF) as bv8
  }

  /** The four octets of an address register, in the order they travel. */
  function Octets(ip: bv32): (r: seq<bv8>)
    ensures |r| == 4
  {
    [Low8(ip), Low8(ip >> 8), Low8(ip >> 16), Low8(ip >> 24)]
  }

  const BROADCAST: seq<bv8> := [0xFF, 0xFF, 0xFF, 0xFF]

  /** An Ethernet II frame, of which the first |frame| bytes are at hand: EtherType at 12, then the IPv4
      header of section 3.1 of RFC 791 at 14 and the UDP header of RFC 768 ("Format") at 34. */
  function ParseFrame(frame: seq<bv8>, own: seq<bv8>, port: bv16): Class {
    if |frame| < 14 then Other
    else if BigEndian16(frame, 12) == 0x0806 then Arp
    else if BigEndian16(frame, 12) != 0x0800 || |frame| < 34 then Other
    else if frame[14] & 0x0F != 5 then Other
    else if frame[30..34] != own && frame[30..34] != BROADCAST then Other
    else if frame[23] == 1 then Icmp
    else if frame[23] == 17 && |frame| >= 38 && BigEndian16(frame, 36) == port then Hivenet
    else Other
  }

  /** The first beat of a frame: enables are contiguous, the remaining lanes carry anything. */
  function FirstBeat(frame: seq<bv8>, fill: seq<bv8>, last: bool): Beat
    requires |frame| + |fill| == 64
  {
    Beat(frame + fill, seq(64, i => i < |frame|), last)
  }

  /** The registered address or port is zero exactly where a cut-off header reads as zero. */
  predicate ZeroMatchesMissing(frame: seq<bv8>, ip: bv32, port: bv16) {
    && 24 <= |frame| < 38
    && BigEndian16(frame, 12) == 0x0800 && frame[14] & 0x0F == 5
    && (if |frame| < 34 then ip == 0 else frame[30..34] == Octets(ip) || frame[30..34] == BROADCAST)
    && if frame[23] == 1 then |frame| < 34 else frame[23] == 17 && port == 0
  }

  lemma SwapTypes(x: bv8, y: bv8)
    ensures Join16(y, x) == 0x0608 <==> Join16(x, y) == 0x0806
    ensures Join16(y, x) == 0x0008 <==> Join16(x, y) == 0x0800
  {
  }

  function SwapBytes(p: bv16): bv16 {
    (p << 8) | (p >> 8)
  }

  lemma JoinSwapped(x: bv8, y: bv8)
    ensures SwapBytes(Join16(x, y)) == Join16(y, x)
  {
  }

  lemma SwapTwice(p: bv16)
    ensures SwapBytes(SwapBytes(p)) == p
  {
  }

  lemma SwapPort(x: bv8, y: bv8, port: bv16)
    ensures Join16(y, x) == SwapBytes(port) <==> Join16(x, y) == port
    ensures SwapBytes(port) == 0 <==> port == 0
  {
    JoinSwapped(x, y);
    SwapTwice(Join16(x, y));
    SwapTwice(port);
  }

  lemma SplitAddress(d: bv8, c: bv8, b: bv8, a: bv8)
    ensures
      var ip := Join32(d, c, b, a);
      a == Low8(ip) && b == Low8(ip >> 8) && c == Low8(ip >> 16) && d == Low8(ip >> 24)
  {
  }

  lemma JoinOctets(ip: bv32)
    ensures Join32(Low8(ip >> 24), Low8(ip >> 16), Low8(ip >> 8), Low8(ip)) == ip
  {
  }

  lemma JoinIsAddress(d: bv8, c: bv8, b: bv8, a: bv8, ip: bv32)
    ensures Join32(d, c, b, a) == ip <==> a == Low8(ip) && b == Low8(ip >> 8) && c == Low8(ip >> 16) && d == Low8(ip >> 24)
  {
    SplitAddress(d, c, b, a);
    JoinOctets(ip);
  }

  lemma AllOnes(d: bv8, c: bv8, b: bv8, a: bv8)
    ensures Join32(d, c, b, a) == 0xFFFFFFFF <==> a == 0xFF && b == 0xFF && c == 0xFF && d == 0xFF
  {
    JoinIsAddress(d, c, b, a, 0xFFFFFFFF);
  }

  lemma EtherTypeAgrees(frame: seq<bv8>, fill: seq<bv8>, last: bool)
    requires |frame| + |fill| == 64
    ensures
      var t := EtherType(true, FirstBeat(frame, fill, last));
      && (t == 0x0608 <==> |frame| >= 14 && BigEndian16(frame, 12) == 0x0806)
      && (t == 0x0008 <==> |frame| >= 14 && BigEndian16(frame, 12) == 0x0800)
  {
    if |frame| >= 14 {
      SwapTypes(frame[12], frame[13]);
    }
  }

  lemma PortAgrees(frame: seq<bv8>, fill: seq<bv8>, last: bool, ip: bv32, port: bv16)
    requires |frame| + |fill| == 64
    ensures UdpDestPort(true, FirstBeat(frame, fill, last)) == Registered(ip, port).port
            <==> if |frame| >= 38 then BigEndian16(frame, 36) == port else port == 0
  {
    SwapPort(0, 0, port);
    if |frame| >= 38 {
      SwapPort(frame[36], frame[37], port);
    }
  }

  lemma AddressAgrees(frame: seq<bv8>, fill: seq<bv8>, last: bool, ip: bv32)
    requires |frame| + |fill| == 64
    ensures
      var v := IpDestIp(true, FirstBeat(frame, fill, last));
      (v == ip || v == 0xFFFFFFFF) <==>
        if |frame| >= 34 then frame[30..34] == Octets(ip) || frame[30..34] == BROADCAST else ip == 0
  {
    if |frame| >= 34 {
      JoinIsAddress(frame[33], frame[32], frame[31], frame[30], ip);
      AllOnes(frame[33], frame[32], frame[31], frame[30]);
      assert frame[30..34] == [frame[30], frame[31], frame[32], frame[33]];
    }
  }

  predicate AllKept(b: Beat, at: nat, n: nat) {
    forall k :: at <= k < at + n ==> b.Keep(k)
  }

  /** The destination octets, or a zero register where one of them is not enabled. */
  predicate LanesToMe(b: Beat, ip: bv32) {
    if AllKept(b, 30, 4) then
      var dest := [b.Lane(30), b.Lane(31), b.Lane(32), b.Lane(33)];
      dest == Octets(ip) || dest == BROADCAST
    else
      ip == 0
  }

  /** An IPv4 header without options, for this node. */
  predicate LanesIp(b: Beat, ip: bv32) {
    && AllKept(b, 12, 2) && b.Lane(12) == 0x08 && b.Lane(13) == 0x00
    && b.Keep(14) && b.Lane(14) & 0x0F == 5
    && LanesToMe(b, ip)
  }

  lemma TypeBytes(x: bv8, y: bv8)
    ensures Join16(y, x) == 0x0608 <==> x == 0x08 && y == 0x06
    ensures Join16(y, x) == 0x0008 <==> x == 0x08 && y == 0x00
  {
  }

  lemma DestinationByLanes(b: Beat, ip: bv32)
    ensures IpDestIp(true, b) == ip || IpDestIp(true, b) == 0xFFFFFFFF <==> LanesToMe(b, ip)
  {
    JoinIsAddress(b.Lane(33), b.Lane(32), b.Lane(31), b.Lane(30), ip);
    AllOnes(b.Lane(33), b.Lane(32), b.Lane(31), b.Lane(30));
    KeptFour(b, 30);
  }

  lemma KeptFour(b: Beat, at: nat)
    ensures AllKept(b, at, 4) <==> b.Keep(at) && b.Keep(at + 1) && b.Keep(at + 2) && b.Keep(at + 3)
    ensures AllKept(b, at, 2) <==> b.Keep(at) && b.Keep(at + 1)
  {
  }

  /** The wires lane by lane, for any pattern of enables: a field counts only if all its lanes are enabled. */
  lemma WiresByLanes(b: Beat, ip: bv32, port: bv16)
    ensures
      var w := Wires(true, b, Registered(ip, port));
      && (w.arp <==> AllKept(b, 12, 2) && b.Lane(12) == 0x08 && b.Lane(13) == 0x06)
      && (w.icmp <==> LanesIp(b, ip) && b.Keep(23) && b.Lane(23) == 1)
      && (w.hivenet <==>
            && LanesIp(b, ip) && b.Keep(23) && b.Lane(23) == 17
            && if AllKept(b, 36, 2) then Join16(b.Lane(36), b.Lane(37)) == port else port == 0)
      && (w.other <==> !w.arp && !w.icmp && !w.hivenet)
  {
    KeptFour(b, 12);
    KeptFour(b, 36);
    TypeBytes(b.Lane(12), b.Lane(13));
    DestinationByLanes(b, ip);
    SwapPort(b.Lane(36), b.Lane(37), port);
  }

  /** On a later beat of a packet the wires say nothing. */
  lemma LaterBeatsAreOther(b: Beat, cfg: Config)
    ensures Wires(false, b, cfg) == OneHot(Other)
  {
  }

  lemma HighByteFirst(hi: bv8, lo: bv8)
    ensures Join16(hi, lo) >> 8 == hi as bv16 && Join16(hi, lo) & 0xFF == lo as bv16
  {
  }

  /** For every frame, every padding and every configuration: the hardware classifies as the parser
      does unless a zero address or port is taken for a header field that is not there. */
  lemma ClassifierIsParser(frame: seq<bv8>, fill: seq<bv8>, last: bool, ip: bv32, port: bv16)
    requires |frame| + |fill| == 64
    ensures ClassOf(FirstBeat(frame, fill, last), Registered(ip, port)) == ParseFrame(frame, Octets(ip), port)
            <==> !ZeroMatchesMissing(frame, ip, port)
  {
    EtherTypeAgrees(frame, fill, last);
    PortAgrees(frame, fill, last, ip, port);
    AddressAgrees(frame, fill, last, ip);
  }

  /** The exception occurs: a UDP packet to 255.255.255.255 that is cut off after its IPv4 header is taken
      for a HiveNet packet while the port register is zero, as it is after reset. */
  lemma ZeroPortTakesCutOffFrame(fill: seq<bv8>, ip: bv32)
    requires |fill| == 30
    ensures
      var frame := CutOffDatagram();
      && ZeroMatchesMissing(frame, ip, 0)
      && ClassOf(FirstBeat(frame, fill, true), Registered(ip, 0)) == Hivenet
      && ParseFrame(frame, Octets(ip), 0) == Other
  {
    var frame := CutOffDatagram();
    assert frame[30..34] == BROADCAST;
    EtherTypeAgrees(frame, fill, true);
    PortAgrees(frame, fill, true, ip, 0);
    AddressAgrees(frame, fill, true, ip);
  }

  function CutOffDatagram(): (frame: seq<bv8>)
    ensures |frame| == 34
  {
    seq(34, k => if k == 12 then 0x08 else if k == 14 then 0x45 else if k == 23 then 17 else if k >= 30 then 0xFF else 0)
  }

  /** In particular with a non-zero address and port the two agree on every frame, and a header that
      is cut off always goes to `other`. */
  lemma ConfiguredClassifierIsParser(frame: seq<bv8>, fill: seq<bv8>, last: bool, ip: bv32, port: bv16)
    requires |frame| + |fill| == 64 && ip != 0 && port != 0
    ensures
      var c := ClassOf(FirstBeat(frame, fill, last), Registered(ip, port));
      && c == ParseFrame(frame, Octets(ip), port)
      && (|frame| < 34 ==> c == Arp || c == Other)
      && (|frame| < 14 ==> c == Other)
      && (c == Hivenet ==> |frame| >= 38)
  {
    ClassifierIsParser(frame, fill, last, ip, port);
  }
}
