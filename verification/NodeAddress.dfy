/** The IP and MAC address of a node, derived once in software (HiveNet.cpp, from the register file) and
    once in wiring (the Endianness and Mac cells), and what the frame classifier makes of them. */
module NodeAddress {
  import opened FrameClassifier

  // ---------------------------------------------------------------------------------------------
  // Byte order

  /** Four 8-bit slices of the word concatenated in the opposite order. */
  function Reverse32(x: bv32): bv32 {
    Join32(Low8(x), Low8(x >> 8), Low8(x >> 16), Low8(x >> 24))
  }

  lemma ReverseTwice(x: bv32)
    ensures Reverse32(Reverse32(x)) == x
  {
  }

  /** Six octets of a 48-bit word, concatenated in the opposite order. */
  function Reverse48(x: bv48): bv48 {
    ((x & 0xFF) << 40) | ((x & 0xFF00) << 24) | ((x & 0xFF0000) << 8)
    | ((x >> 8) & 0xFF0000) | ((x >> 24) & 0xFF00) | (x >> 40)
  }

  lemma Reverse48Twice(x: bv48)
    ensures Reverse48(Reverse48(x)) == x
  {
  }

  // ---------------------------------------------------------------------------------------------
  // The two derivations

  /** A host-order sum, put in network order. */
  function SumReversed(base: bv32, offset: bv32): bv32 {
    Reverse32(base + offset)
  }

  /** The address `offset` above a subnet, both in network order. */
  function At(subnet: bv32, offset: bv32): bv32 {
    SumReversed(Reverse32(subnet), offset)
  }

  /** The adder's B operand: 13 bits, sign- or zero-extended. */
  function Extend13(id: bv13, signedB: bool): bv32 {
    if signedB && id >= 0x1000 then (id as bv32) | 0xFFFFE000 else id as bv32
  }

  /** The output of the Endianness cell. */
  function Endianness(subnet: bv32, id: bv13, signedB: bool): bv32 {
    At(subnet, Extend13(id, signedB))
  }

  /** The address of a node, with all 16 bits of the id: what the software reports. */
  function IpAddress(subnet: bv32, id: bv16): bv32 {
    At(subnet, id as bv32)
  }

  /** The 13 wires that leave the register file. */
  function Wired(id: bv16): bv13 {
    (id & 0x1FFF) as bv13
  }

  /** 35 subnet bits above a 13-bit id. */
  function Fields48(subnet: bv48, id: bv13): bv48 {
    ((subnet >> 13) << 13) | (id as bv48)
  }

  /** The Mac cell. */
  function MacCell(subnet: bv48, id: bv13): bv48 {
    Reverse48(Fields48(subnet, id))
  }

  /** getMACAddress: the subnet with its low 13 bits cleared, plus the id. */
  function MacSum(subnet: bv64, id: bv64): bv64 {
    (subnet & 0xFFFFFFFFFFFFE000) + id
  }

  function MacAddress(subnet: bv64, id: bv16): bv64 {
    MacSum(subnet, id as bv64)
  }

  /** The masks and shifts that getIPAddress applies to the subnet and to the sum. */
  method SwapOctets(x: bv32) returns (y: bv32)
    ensures y == Reverse32(x)
  {
    y := ((x >> 24) & 0xff) | ((x << 8) & 0xff0000) | ((x >> 8) & 0xff00) | ((x << 24) & 0xff000000);
  }

  method AddAndSwap(base: bv32, offset: bv32) returns (ip: bv32)
    ensures ip == SumReversed(base, offset)
  {
    ip := SwapOctets(base + offset);
  }

  /** The arithmetic of getIPAddress on what it has read. */
  method DeriveIp(subnet: bv32, id: bv16) returns (ip: bv32)
    ensures ip == IpAddress(subnet, id)
  {
    var subnetLittle := SwapOctets(subnet);
    ip := AddAndSwap(subnetLittle, id as bv32);
  }

  /** The arithmetic of getMACAddress on what it has read. */
  method DeriveMac(macSubAddress: bv64, id: bv16) returns (mac: bv64)
    ensures mac == MacAddress(macSubAddress, id)
  {
    mac := macSubAddress & 0xFFFFFFFFFFFFE000;
    mac := mac + (id as bv64);
  }

  /** The subnet above bit 12 exactly if the id has 13 bits, and then the id below. */
  predicate SubnetThenId(subnet: bv64, id: bv16, mac: bv64) {
    && (mac >> 13 == subnet >> 13 <==> id < 0x2000)
    && (id < 0x2000 ==> mac & 0x1FFF == id as bv64)
  }

  // ---------------------------------------------------------------------------------------------
  // The register file

  const LOCAL_ID := 0x10
  const TIMEOUT := 0x18
  const IP_SUBNET := 0x24
  const MAC_SUBNET := 0x2c
  const RETRANSMISSIONS := 0x38
  const UDP_PORT := 0x40
  const RESET_ARP := 0x48

  function Low32(x: bv64): bv32 {
    (x & 0xFFFFFFFF) as bv32
  }

  function Double32(hi: bv32, lo: bv32): bv64 {
    ((hi as bv64) << 32) + (lo as bv64)
  }

  lemma SplitAndJoin(x: bv64)
    ensures Double32(Low32(x >> 32), Low32(x)) == x
  {
  }

  function Low16(x: bv32): bv16 {
    (x & 0xFFFF) as bv16
  }

  lemma Low16OfWide(x: bv16)
    ensures Low16(x as bv32) == x
  {
  }

  /** Reading a register into a uint16_t drops its high half. */
  lemma Low16IsMask(x: bv32)
    ensures Low16(x) as bv32 == x & 0xFFFF
  {
  }

  /** The software's handle on one HiveNet kernel. A register nothing has written yet reads as its
      reset value, which is not known here. */
  class HiveNet {
    const reset: int -> bv32
    var written: map<int, bv32>

    function Reg(off: int): bv32
      reads this
    {
      if off in written then written[off] else reset(off)
    }

    function Wide(off: int): bv64
      reads this
    {
      Double32(Reg(off + 4), Reg(off))
    }

    /** Every register except those at the given offsets. */
    twostate predicate OthersKept(offs: set<int>)
      reads this
    {
      forall off :: off !in offs ==> Reg(off) == old(Reg(off))
    }

    constructor (reset: int -> bv32)
      ensures forall off :: Reg(off) == reset(off)
    {
      this.reset := reset;
      written := map[];
    }

    method WriteReg(off: int, value: bv32)
      modifies this
      ensures Reg(off) == value && OthersKept({off})
    {
      written := written[off := value];
    }

    method ReadReg(off: int) returns (value: bv32)
      ensures value == Reg(off)
    {
      value := if off in written then written[off] else reset(off);
    }

    method SetLocalID(localID: bv16)
      modifies this
      ensures Reg(LOCAL_ID) == localID as bv32 && Low16(Reg(LOCAL_ID)) == localID && OthersKept({LOCAL_ID})
    {
      WriteReg(LOCAL_ID, localID as bv32);
      Low16OfWide(localID);
    }

    method SetIPSubnet(ipSubnet: bv32)
      modifies this
      ensures Reg(IP_SUBNET) == ipSubnet && OthersKept({IP_SUBNET})
    {
      WriteReg(IP_SUBNET, ipSubnet);
    }

    method SetTimeOut(timeout: bv64)
      modifies this
      ensures Reg(TIMEOUT) == (timeout & 0xFFFFFFFF) as bv32 && Reg(TIMEOUT + 4) == (timeout >> 32) as bv32
      ensures Wide(TIMEOUT) == timeout && OthersKept({TIMEOUT, TIMEOUT + 4})
    {
      WriteReg(TIMEOUT, Low32(timeout));
      WriteReg(TIMEOUT + 4, Low32(timeout >> 32));
      SplitAndJoin(timeout);
    }

    /** Two adjacent registers, the high half first. */
    method ReadWide(off: int) returns (value: bv64)
      ensures value == Wide(off)
    {
      var hi := ReadReg(off + 4);
      value := (hi as bv64) << 32;
      var lo := ReadReg(off);
      value := value + (lo as bv64);
    }

    method GetTimeOut() returns (timeout: bv64)
      ensures timeout == Wide(TIMEOUT)
    {
      timeout := ReadWide(TIMEOUT);
    }

    method SetMACSubnet(macSubnet: bv64)
      modifies this
      ensures Reg(MAC_SUBNET) == (macSubnet & 0xFFFFFFFF) as bv32 && Reg(MAC_SUBNET + 4) == (macSubnet >> 32) as bv32
      ensures Wide(MAC_SUBNET) == macSubnet && OthersKept({MAC_SUBNET, MAC_SUBNET + 4})
    {
      WriteReg(MAC_SUBNET, Low32(macSubnet));
      WriteReg(MAC_SUBNET + 4, Low32(macSubnet >> 32));
      SplitAndJoin(macSubnet);
    }

    /** The low 13 bits are not part of a subnet and read as zero. */
    method GetMACSubnet() returns (macSubnet: bv64)
      ensures macSubnet == Wide(MAC_SUBNET) & 0xFFFFFFFFFFFFE000
    {
      macSubnet := ReadWide(MAC_SUBNET);
      macSubnet := macSubnet & 0xFFFFFFFFFFFFE000;
    }

    method SetUDPPort(port: bv16)
      modifies this
      ensures Reg(UDP_PORT) == port as bv32 && Low16(Reg(UDP_PORT)) == port && OthersKept({UDP_PORT})
    {
      WriteReg(UDP_PORT, port as bv32);
      Low16OfWide(port);
    }

    method SetNretranssmitions(retranssmitions: bv16)
      modifies this
      ensures Reg(RETRANSMISSIONS) == retranssmitions as bv32 && Low16(Reg(RETRANSMISSIONS)) == retranssmitions
      ensures OthersKept({RETRANSMISSIONS})
    {
      WriteReg(RETRANSMISSIONS, retranssmitions as bv32);
      Low16OfWide(retranssmitions);
    }

    method InitCU()
      modifies this
      ensures Reg(RESET_ARP) == 1 && Wide(TIMEOUT) == 0xffff
      ensures Low16(Reg(RETRANSMISSIONS)) == 3 && Low16(Reg(UDP_PORT)) == 0x12b7
      ensures OthersKept({RESET_ARP, TIMEOUT, TIMEOUT + 4, RETRANSMISSIONS, UDP_PORT})
    {
      WriteReg(RESET_ARP, 1);
      SetTimeOut(0xffff);
      SetNretranssmitions(0x3);
      SetUDPPort(0x12b7);
    }

    /** Read in network byte order, the address is the subnet register plus the 16-bit id. */
    method GetIPAddress() returns (ip: bv32)
      ensures ip == IpAddress(Reg(IP_SUBNET), Low16(Reg(LOCAL_ID)))
      ensures NetworkOrder(Octets(ip)) == Plus(NetworkOrder(Octets(Reg(IP_SUBNET))), Low16(Reg(LOCAL_ID)) as bv32)
    {
      var idReg := ReadReg(LOCAL_ID);
      var id := Low16(idReg);
      var subnet := ReadReg(IP_SUBNET);
      ip := DeriveIp(subnet, id);
      AddressIsSubnetPlusId(subnet, id);
    }

    method GetMACAddress() returns (mac: bv64)
      ensures mac == MacAddress(Wide(MAC_SUBNET), Low16(Reg(LOCAL_ID)))
      ensures SubnetThenId(Wide(MAC_SUBNET), Low16(Reg(LOCAL_ID)), mac)
    {
      var macSubAddress := ReadWide(MAC_SUBNET);
      var idReg := ReadReg(LOCAL_ID);
      mac := DeriveMac(macSubAddress, Low16(idReg));
      MacIsSubnetThenId(macSubAddress, Low16(idReg));
    }
  }

  /** The setters disturb neither each other nor what initCU has written elsewhere. */
  method SetUp(node: HiveNet, id: bv16, ipSubnet: bv32, macSubnet: bv64, timeout: bv64)
    modifies node
    ensures Low16(node.Reg(LOCAL_ID)) == id
    ensures node.Reg(IP_SUBNET) == ipSubnet
    ensures node.Wide(MAC_SUBNET) == macSubnet && node.Wide(TIMEOUT) == timeout
    ensures Low16(node.Reg(RETRANSMISSIONS)) == 3 && Low16(node.Reg(UDP_PORT)) == 0x12b7
  {
    node.InitCU();
    node.SetMACSubnet(macSubnet);
    node.SetLocalID(id);
    assert node.Wide(MAC_SUBNET) == macSubnet;
    node.SetTimeOut(timeout);
    assert node.Wide(MAC_SUBNET) == macSubnet;
    assert Low16(node.Reg(RETRANSMISSIONS)) == 3 && Low16(node.Reg(UDP_PORT)) == 0x12b7;
    node.SetIPSubnet(ipSubnet);
  }

  /** Configuring a node and reading its addresses and timeout back. */
  method Configure(node: HiveNet, id: bv16, ipSubnet: bv32, macSubnet: bv64, timeout: bv64)
    returns (ip: bv32, mac: bv64, t: bv64)
    modifies node
    ensures ip == IpAddress(ipSubnet, id) && mac == MacAddress(macSubnet, id) && t == timeout
  {
    SetUp(node, id, ipSubnet, macSubnet, timeout);
    ip := node.GetIPAddress();
    mac := node.GetMACAddress();
    t := node.GetTimeOut();
  }

  // ---------------------------------------------------------------------------------------------
  // IP: software against wiring

  function Minus(x: bv32, y: bv32): bv32 {
    x - y
  }

  lemma Cancel(x: bv32, y: bv32)
    ensures Minus(x + y, x) == y
  {
  }

  /** How far an address is above a host-order base. */
  function Above(base: bv32, ip: bv32): bv32 {
    Minus(Reverse32(ip), base)
  }

  lemma ReverseOfSum(base: bv32, offset: bv32)
    ensures Reverse32(SumReversed(base, offset)) == base + offset
  {
    var sum := base + offset;
    ReverseTwice(sum);
  }

  lemma AboveOfSum(base: bv32, offset: bv32)
    ensures Above(base, SumReversed(base, offset)) == offset
  {
    ReverseOfSum(base, offset);
    Cancel(base, offset);
  }

  lemma SumReversedInjective(base: bv32, x: bv32, y: bv32)
    ensures SumReversed(base, x) == SumReversed(base, y) ==> x == y
  {
    AboveOfSum(base, x);
    AboveOfSum(base, y);
  }

  lemma AtInjective(subnet: bv32, x: bv32, y: bv32)
    ensures At(subnet, x) == At(subnet, y) <==> x == y
  {
    SumReversedInjective(Reverse32(subnet), x, y);
  }

  lemma WideInjective(x: bv16, y: bv16)
    ensures x as bv32 == y as bv32 ==> x == y
  {
  }

  lemma ExtendInjective(x: bv13, y: bv13, signedB: bool)
    ensures Extend13(x, signedB) == Extend13(y, signedB) ==> x == y
  {
  }

  lemma SurvivesUnsigned(id: bv16)
    ensures id as bv32 == Extend13(Wired(id), false) <==> id < 0x2000
  {
  }

  lemma SurvivesSigned(id: bv16)
    ensures id as bv32 == Extend13(Wired(id), true) <==> id < 0x1000
  {
  }

  /** The address the software reports is the one the hardware uses exactly for the ids that fit the
      wires: 13 bits, or 12 if the adder takes its B operand as signed. */
  lemma SoftwareAgreesWithEndianness(subnet: bv32, id: bv16, signedB: bool)
    ensures IpAddress(subnet, id) == Endianness(subnet, Wired(id), signedB) <==> id < if signedB then 0x1000 else 0x2000
  {
    AtInjective(subnet, id as bv32, Extend13(Wired(id), signedB));
    SurvivesUnsigned(id);
    SurvivesSigned(id);
  }

  /** Distinct ids under one subnet have distinct addresses, in software and in hardware. */
  lemma AddressesAreDistinct(subnet: bv32, id: bv16, id': bv16)
    ensures IpAddress(subnet, id) == IpAddress(subnet, id') <==> id == id'
  {
    AtInjective(subnet, id as bv32, id' as bv32);
    WideInjective(id, id');
  }

  lemma EndiannessIsInjective(subnet: bv32, id: bv13, id': bv13, signedB: bool)
    ensures Endianness(subnet, id, signedB) == Endianness(subnet, id', signedB) <==> id == id'
  {
    AtInjective(subnet, Extend13(id, signedB), Extend13(id', signedB));
    ExtendInjective(id, id', signedB);
  }

  /** Ids that agree in their low 13 bits have the same hardware address. */
  lemma HighIdBitsAreLost(subnet: bv32, id: bv16, id': bv16, signedB: bool)
    ensures Endianness(subnet, Wired(id), signedB) == Endianness(subnet, Wired(id'), signedB)
            <==> id & 0x1FFF == id' & 0x1FFF
  {
    EndiannessIsInjective(subnet, Wired(id), Wired(id'), signedB);
    WiredInjective(id, id');
  }

  lemma WiredInjective(id: bv16, id': bv16)
    ensures Wired(id) == Wired(id') <==> id & 0x1FFF == id' & 0x1FFF
  {
  }

  /** The four octets on the wire, read as one number in network byte order. */
  function NetworkOrder(octets: seq<bv8>): bv32
    requires |octets| == 4
  {
    Join32(octets[0], octets[1], octets[2], octets[3])
  }

  lemma NetworkOrderIsReverse(ip: bv32)
    ensures NetworkOrder(Octets(ip)) == Reverse32(ip)
  {
  }

  lemma ReverseOfAt(subnet: bv32, offset: bv32)
    ensures Reverse32(At(subnet, offset)) == Reverse32(subnet) + offset
  {
    ReverseOfSum(Reverse32(subnet), offset);
  }

  /** Addition modulo 2^32. */
  function Plus(x: bv32, y: bv32): bv32 {
    x + y
  }

  lemma NetworkOrderOfAt(subnet: bv32, offset: bv32)
    ensures NetworkOrder(Octets(At(subnet, offset))) == Plus(Reverse32(subnet), offset)
  {
    ReverseOfAt(subnet, offset);
    NetworkOrderIsReverse(At(subnet, offset));
  }

  /** Read that way, a node's address is the subnet plus the id. */
  lemma AddressIsSubnetPlusId(subnet: bv32, id: bv16)
    ensures NetworkOrder(Octets(IpAddress(subnet, id))) == Plus(NetworkOrder(Octets(subnet)), id as bv32)
  {
    NetworkOrderOfAt(subnet, id as bv32);
    NetworkOrderIsReverse(subnet);
  }

  lemma ExtendValue(id: bv13, signedB: bool)
    ensures Extend13(id, signedB) == if signedB && id >= 0x1000 then Minus(id as bv32, 0x2000) else id as bv32
  {
  }

  /** The hardware's address likewise, with the id as a signed 13-bit number if the adder reads it so. */
  lemma EndiannessIsSubnetPlusId(subnet: bv32, id: bv13, signedB: bool)
    ensures
      var offset := if signedB && id >= 0x1000 then Minus(id as bv32, 0x2000) else id as bv32;
      NetworkOrder(Octets(Endianness(subnet, id, signedB))) == Plus(NetworkOrder(Octets(subnet)), offset)
  {
    ExtendValue(id, signedB);
    NetworkOrderOfAt(subnet, Extend13(id, signedB));
    NetworkOrderIsReverse(subnet);
  }

  lemma OctetsInjective(x: bv32, y: bv32)
    requires Octets(x) == Octets(y)
    ensures x == y
  {
    JoinOctets(x);
    JoinOctets(y);
    assert Low8(x) == Octets(x)[0] == Octets(y)[0] && Low8(x >> 8) == Octets(x)[1] == Octets(y)[1];
    assert Low8(x >> 16) == Octets(x)[2] == Octets(y)[2] && Low8(x >> 24) == Octets(x)[3] == Octets(y)[3];
  }

  // ---------------------------------------------------------------------------------------------
  // One subnet of nodes

  /** Node `id`, on a subnet whose UDP port is `port`, takes the packet that starts with this beat as an
      ICMP or HiveNet packet of its own. */
  predicate Takes(b: Beat, subnet: bv32, id: bv13, signedB: bool, port: bv16) {
    ClassOf(b, Registered(Endianness(subnet, id, signedB), port)) in {Icmp, Hivenet}
  }

  /** Whatever the frame and however it is cut off: unless it is addressed to 255.255.255.255, at most
      one node of the subnet takes it, and if the destination address is there at all it is that
      node's. */
  lemma AtMostOneNodeTakes(frame: seq<bv8>, fill: seq<bv8>, last: bool, subnet: bv32, id: bv13, id': bv13,
                           signedB: bool, port: bv16)
    requires |frame| + |fill| == 64
    requires |frame| >= 34 ==> frame[30..34] != BROADCAST
    requires Takes(FirstBeat(frame, fill, last), subnet, id, signedB, port)
    ensures |frame| >= 34 ==> frame[30..34] == Octets(Endianness(subnet, id, signedB))
    ensures Takes(FirstBeat(frame, fill, last), subnet, id', signedB, port) ==> id' == id
  {
    AddressAgrees(frame, fill, last, Endianness(subnet, id, signedB));
    if Takes(FirstBeat(frame, fill, last), subnet, id', signedB, port) {
      AddressAgrees(frame, fill, last, Endianness(subnet, id', signedB));
      if |frame| >= 34 {
        OctetsInjective(Endianness(subnet, id, signedB), Endianness(subnet, id', signedB));
      }
      EndiannessIsInjective(subnet, id, id', signedB);
    }
  }

  /** A frame whose bytes 30 to 33 are the address the software reports for a node, and which is an ICMP
      packet or a UDP packet to the subnet's port by the byte-level reading, is taken by that node, as
      that class, and by no other. */
  lemma AddressedNodeTakes(frame: seq<bv8>, fill: seq<bv8>, last: bool, subnet: bv32, id: bv16, signedB: bool, port: bv16)
    requires |frame| + |fill| == 64 && |frame| >= 34
    requires id < if signedB then 0x1000 else 0x2000
    requires IpAddress(subnet, id) != 0 && port != 0 && frame[30..34] != BROADCAST
    requires frame[30..34] == Octets(IpAddress(subnet, id))
    ensures
      var b := FirstBeat(frame, fill, last);
      var c := ParseFrame(frame, Octets(IpAddress(subnet, id)), port);
      && ClassOf(b, Registered(Endianness(subnet, Wired(id), signedB), port)) == c
      && (c in {Icmp, Hivenet} ==> forall id': bv13 :: Takes(b, subnet, id', signedB, port) <==> id' == Wired(id))
  {
    SoftwareAgreesWithEndianness(subnet, id, signedB);
    ConfiguredClassifierIsParser(frame, fill, last, IpAddress(subnet, id), port);
    var b := FirstBeat(frame, fill, last);
    if ParseFrame(frame, Octets(IpAddress(subnet, id)), port) in {Icmp, Hivenet} {
      forall id': bv13
        ensures Takes(b, subnet, id', signedB, port) <==> id' == Wired(id)
      {
        AtMostOneNodeTakes(frame, fill, last, subnet, Wired(id), id', signedB, port);
      }
    }
  }

  // ---------------------------------------------------------------------------------------------
  // MAC: software against wiring

  function Fields64(subnet: bv64, id: bv64): bv64 {
    ((subnet >> 13) << 13) | id
  }

  lemma NoCarry(subnet: bv64, id: bv64)
    ensures id < 0x2000 ==> MacSum(subnet, id) == Fields64(subnet, id)
  {
  }

  lemma Carry(subnet: bv64, id: bv64)
    ensures 0x2000 <= id < 0x10000 ==> MacSum(subnet, id) >> 13 != subnet >> 13
  {
  }

  lemma FieldsOfMac(subnet: bv64, id: bv64)
    ensures id < 0x2000 ==> Fields64(subnet, id) >> 13 == subnet >> 13 && Fields64(subnet, id) & 0x1FFF == id
  {
  }

  lemma WideId(id: bv16)
    ensures id as bv64 < 0x10000 && (id as bv64 < 0x2000 <==> id < 0x2000)
  {
  }

  /** getMACAddress keeps the subnet above bit 12 exactly when nothing carries out of the id field, and
      then its low 13 bits are the id. */
  lemma MacIsSubnetThenId(subnet: bv64, id: bv16)
    ensures SubnetThenId(subnet, id, MacAddress(subnet, id))
  {
    WideId(id);
    NoCarry(subnet, id as bv64);
    Carry(subnet, id as bv64);
    FieldsOfMac(subnet, id as bv64);
  }

  function Low48(x: bv64): bv48 {
    (x & 0xFFFFFFFFFFFF) as bv48
  }

  lemma Low48OfFields(subnet: bv64, id: bv16)
    ensures id < 0x2000 ==> Low48(Fields64(subnet, id as bv64)) == Fields48(Low48(subnet), Wired(id))
  {
  }

  lemma Low48OfCarry(subnet: bv64, id: bv16)
    ensures id >= 0x2000 ==> Low48(MacAddress(subnet, id)) != Fields48(Low48(subnet), Wired(id))
  {
  }

  lemma Reverse48Injective(x: bv48, y: bv48)
    ensures Reverse48(x) == Reverse48(y) <==> x == y
  {
    Reverse48Twice(x);
    Reverse48Twice(y);
  }

  /** The low six octets of a word, counted from the lowest. */
  function Octet(x: bv64, k: nat): bv8 {
    if k == 0 then (x & 0xFF) as bv8 else if k == 1 then ((x >> 8) & 0xFF) as bv8
    else if k == 2 then ((x >> 16) & 0xFF) as bv8 else if k == 3 then ((x >> 24) & 0xFF) as bv8
    else if k == 4 then ((x >> 32) & 0xFF) as bv8 else ((x >> 40) & 0xFF) as bv8
  }

  /** Octet k of x is octet 5 - k of y. */
  predicate OctetsOpposite(x: bv48, y: bv64) {
    var w := x as bv64;
    && Octet(w, 0) == Octet(y, 5) && Octet(w, 1) == Octet(y, 4) && Octet(w, 2) == Octet(y, 3)
    && Octet(w, 3) == Octet(y, 2) && Octet(w, 4) == Octet(y, 1) && Octet(w, 5) == Octet(y, 0)
  }

  function Join48(o5: bv8, o4: bv8, o3: bv8, o2: bv8, o1: bv8, o0: bv8): bv48 {
    ((o5 as bv48) << 40) | ((o4 as bv48) << 32) | ((o3 as bv48) << 24)
    | ((o2 as bv48) << 16) | ((o1 as bv48) << 8) | (o0 as bv48)
  }

  lemma OctetsJoin(x: bv48)
    ensures
      var w := x as bv64;
      Join48(Octet(w, 5), Octet(w, 4), Octet(w, 3), Octet(w, 2), Octet(w, 1), Octet(w, 0)) == x
  {
  }

  lemma ReversedOctets(y: bv64)
    ensures
      var w := Reverse48(Low48(y)) as bv64;
      && Octet(w, 0) == Octet(y, 5) && Octet(w, 1) == Octet(y, 4) && Octet(w, 2) == Octet(y, 3)
      && Octet(w, 3) == Octet(y, 2) && Octet(w, 4) == Octet(y, 1) && Octet(w, 5) == Octet(y, 0)
  {
  }

  lemma ReversedIsOpposite(y: bv64)
    ensures OctetsOpposite(Reverse48(Low48(y)), y)
  {
    ReversedOctets(y);
  }

  lemma OppositeIsUnique(x: bv48, x': bv48, y: bv64)
    requires OctetsOpposite(x', y)
    ensures OctetsOpposite(x, y) <==> x == x'
  {
    OctetsJoin(x);
    OctetsJoin(x');
  }

  lemma OppositeIffReversed(x: bv48, y: bv64)
    ensures OctetsOpposite(Reverse48(x), y) <==> x == Low48(y)
  {
    ReversedIsOpposite(y);
    OppositeIsUnique(Reverse48(x), Reverse48(Low48(y)), y);
    Reverse48Injective(x, Low48(y));
  }

  lemma MacCellReverses(subnet: bv48, id: bv13)
    ensures MacCell(subnet, id) == Reverse48(Fields48(subnet, id))
  {
  }

  lemma FieldsAgree(subnet: bv64, id: bv16)
    ensures Fields48(Low48(subnet), Wired(id)) == Low48(MacAddress(subnet, id)) <==> id < 0x2000
  {
    WideId(id);
    NoCarry(subnet, id as bv64);
    Low48OfFields(subnet, id);
    Low48OfCarry(subnet, id);
  }

  /** The Mac cell drives the octets of what getMACAddress reports, the first where that has the last,
      exactly for 13-bit ids. */
  lemma SoftwareAgreesWithMacCell(subnet: bv64, id: bv16)
    ensures OctetsOpposite(MacCell(Low48(subnet), Wired(id)), MacAddress(subnet, id)) <==> id < 0x2000
  {
    MacCellReverses(Low48(subnet), Wired(id));
    OppositeIffReversed(Fields48(Low48(subnet), Wired(id)), MacAddress(subnet, id));
    FieldsAgree(subnet, id);
  }

  /** Slice by slice, what the Mac cell drives: the subnet's octets from the top down, then its bits 15..13
      above the high five bits of the id, then the low eight bits of the id. */
  lemma MacCellOctets(subnet: bv48, id: bv13)
    ensures
      var d := MacCell(subnet, id);
      && d & 0xFF == subnet >> 40 && (d >> 8) & 0xFF == (subnet >> 32) & 0xFF
      && (d >> 16) & 0xFF == (subnet >> 24) & 0xFF && (d >> 24) & 0xFF == (subnet >> 16) & 0xFF
      && (d >> 32) & 0xFF == ((subnet >> 8) & 0xE0) | ((id >> 8) as bv48) && d >> 40 == (id & 0xFF) as bv48
  {
  }

  lemma FieldsSeparate(subnet: bv48, id: bv13, id': bv13)
    ensures Fields48(subnet, id) == Fields48(subnet, id') ==> id == id'
  {
  }

  /** Distinct ids have distinct MAC addresses. */
  lemma MacCellIsInjective(subnet: bv48, id: bv13, id': bv13)
    ensures MacCell(subnet, id) == MacCell(subnet, id') <==> id == id'
  {
    Reverse48Injective(Fields48(subnet, id), Fields48(subnet, id'));
    FieldsSeparate(subnet, id, id');
  }
}
