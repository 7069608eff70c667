# AlveoLink in Dafny

A Dafny 4.11 model of AlveoLink's own logic, with proofs. AlveoLink connects Alveo FPGA cards over RoCE v2;
what is modelled here is the logic around its protocol core:

- `axis_switch` merges a header stream and two data streams into records for the retransmission buffer;
- `ip_handler` classifies each Ethernet frame on its first beat and steers whole packets to ARP, ICMP, HiveNet
  or other;
- the IP and MAC address of a node, derived once in C++ and once in block-design wiring, and compared by
  `ip_handler`;
- the packet-status bitmap, a dual-port RAM with a read/write forwarding bypass;
- the `generator_collector` example kernel and what its self-check detects;
- `WideType` and `WideConv`, which repack vectors of elements bit by bit;
- the popl command-line parser that the example host uses.

## How the model is laid out

Hardware is a step per clock edge; valid, ready, reset and data are arbitrary inputs of every cycle, and results
hold for every sequence of inputs. Where the source updates registers in place there is a class whose methods
update fields (`RegSlice`, the two `Device` classes, `Bitmap`); each edge is proved equal to a step on values,
and the results about runs are proved of that step. The C++ objects are classes too (`HiveNet`, `WideType`,
`WideConv`, `ValueOption`, `OptionParser`), and the kernel is a method with the source's loops.

| file | content |
|---|---|
| `Fifo.dfy`, `RegSlice.dfy` | the queue of capacity two and the ping-pong register slice that refines it |
| `AxisSwitch.dfy`, `AxisSwitchDevice.dfy` | the merge as a stream function, runs, throughput; the device |
| `FrameClassifier.dfy` | first-beat classification against a byte-level header parser |
| `IpHandler.dfy`, `IpHandlerDevice.dfy` | packets, steering, handshakes; the device |
| `NodeAddress.dfy` | register file, address derivations, one subnet of nodes |
| `StatusBitmap.dfy` | write registers, RAM, delays and forwarding |
| `SelfCheck.dfy` | generator, collector and the detection bound |
| `BitPacking.dfy` | packing, unpacking and conversion of element widths |
| `Arguments.dfy` | popl's grammar: what each token does, and whole parses |
| `ArgumentSpelling.dfy`, `ArgumentPositions.dfy` | equivalence of spellings; where tokens go, and `--` |
| `ArgumentMeaning.dfy` | what any command line stores, leaves over and refuses, said on the text |
| `OptionValues.dfy` | one option object, its bound variable, and any sequence of calls on it |
| `OptionParsing.dfy` | the parser object, all its options and bound variables |

## Where the code and its documentation disagree

The model follows the code.

- `popl.hpp:358-361` says that tokens after `--` are non-option arguments. The loop at `popl.hpp:999-1004` has
  no `break`, so they are collected and then parsed again. `ArgumentPositions.DoubleDashPromise` says exactly
  when the promise holds, `ArgumentPositions.WordsAfterDoubleDashArriveTwice` gives the failing case.
- `HiveNet.hpp` allows ids up to 8192; the wires and the MAC field hold 13 bits, so 8191 is the largest id for
  which software and hardware agree (`NodeAddress.SoftwareAgreesWithEndianness`,
  `NodeAddress.SoftwareAgreesWithMacCell`).
- `HiveNet.hpp` gives 4971 as the default UDP port; the code writes 0x12b7, which is 4791.
- The generator and collector take an unsigned packet count, but their loop counters are `int`: counts of 2^31
  and more overflow a signed counter and are outside the model.
- An id of 256 or more never passes the collector's check, because the generator stores only eight of its
  thirteen bits (`SelfCheck.SelfCheckPassesIff`).

## Assumptions

- The block RAM is WRITE_FIRST on port A, its output registers share the port enables, and port B reads arbitrary
  data when it meets a write to the same address; the data is an input of each cycle.
- The signedness of the adder in the Endianness cell is not set in the Tcl script; it is a parameter, and every
  result covers both readings. The adder's four-cycle latency is left out: its inputs are constant configuration.
- A register nobody has written reads as an unknown reset value, a parameter of `HiveNet`.
- The stream extraction of `Value<T>` for types other than string and bool is a partial function from text to
  values. An Implicit option is built with a default, as its constructor demands.
- A blocking stream read returns: the collector is given at least as many packets as it asks for.
- Element types are their bit patterns; a field that the source leaves uninitialised is an arbitrary parameter.

## Model

| member | source | states |
|---|---|---|
| Fifo.StepConserves | network/roce_v2/hw/HiveNet/src/ip/axis_switch.v:227-265 | one edge of a slice: what leaves and then what stays is what was held and then what was accepted, with acceptance decided by fullness before the edge |
| Fifo.Conservation | network/roce_v2/hw/HiveNet/src/ip/axis_switch.v:227-265 | any number of edges, any valid/ready pattern: held-at-start then accepted equals delivered then held-at-end, in order |
| Fifo.HeadIsHeld | network/roce_v2/hw/HiveNet/src/ip/axis_switch.v:229-235 | an offered beat stays offered and unchanged over any number of edges that do not take it |
| RegSlices.RegSlice.constructor | network/roce_v2/hw/HiveNet/src/ip/axis_switch.v:238-249 | after reset the toggles and status bits stand for the empty queue |
| RegSlices.RegSlice.Ports | network/roce_v2/hw/HiveNet/src/ip/axis_switch.v:227-235 | ready means the queue is not full, valid means it is not empty, and the payload is then the oldest beat |
| RegSlices.RegSlice.ClockEdge | network/roce_v2/hw/HiveNet/src/ip/axis_switch.v:237-265 | the two-entry ping-pong registers refine a queue of capacity two on every edge, simultaneous write and read included; the two status assignments never meet in one bit |
| AxisSwitch.OutputIsMergeOfInputs | network/roce_v2/hw/HiveNet/src/ip/axis_switch.v:75-189 | for every schedule of valid, ready and reset, state 2'b11 is not reached and delivered beats, then the output slice, then what the input slices will contribute, are the clock-free merge of the three accepted streams, read off the input wires (payload, valid, tlast of data_1); the delivered beats are a prefix of it |
| AxisSwitch.MergeIsMonotone | network/roce_v2/hw/HiveNet/src/ip/axis_switch.v:77-97 | more input never changes output already determined: the merge of prefixes is a prefix of the merge |
| AxisSwitch.OutputIgnoresStalls | network/roce_v2/hw/HiveNet/src/ip/axis_switch.v:75-189 | two runs, any stalls: if one accepted no more than the other on each input, one delivered stream is a prefix of the other |
| AxisSwitch.MergeOfRecords | network/roce_v2/hw/HiveNet/src/ip/axis_switch.v:81-97 | streams that carry records (a header, then pairs of 32-byte beats, tlast on the second beat of the last pair) merge to exactly those records back to back |
| AxisSwitch.RunDeliversRecords | network/roce_v2/hw/HiveNet/src/ip/axis_switch.v:75-189 | a run fed with any part of such streams delivers a prefix of the record stream |
| AxisSwitch.OutputIsHeld | network/roce_v2/hw/HiveNet/src/ip/axis_switch.v:168-189 | section 2.2.1 of the AMBA 4 AXI4-Stream Protocol Specification on the output: from any state, over any number of edges, whatever the inputs do |
| AxisSwitch.Throughput | network/roce_v2/hw/HiveNet/src/ip/axis_switch.v:77-97 | with all inputs valid and the output ready, exactly max(0, n-2) beats have left n edges after reset for every n, whatever the record lengths; from every reachable state at least n-2 |
| AxisSwitch.DrainStep | network/roce_v2/hw/HiveNet/src/ip/axis_switch.v:77-97 | an edge with a ready output and no new input loses no beat and strictly lowers the number of edges still needed to empty the switch |
| AxisSwitch.EverythingIsDelivered | network/roce_v2/hw/HiveNet/src/ip/axis_switch.v:77-97 | after any schedule, fourteen ready edges without new input deliver the whole merge of what was accepted: nothing is kept back |
| AxisSwitch.DrainedRun | network/roce_v2/hw/HiveNet/src/ip/axis_switch.v:75-189 | a run whose last fourteen cycles keep the output ready and offer nothing has delivered exactly the merge of everything it accepted |
| AxisSwitchDevice.Device.constructor | network/roce_v2/hw/HiveNet/src/ip/axis_switch.v:86-88 | the registers after reset are the reset state of the queue-level switch |
| AxisSwitchDevice.Device.Wires | network/roce_v2/hw/HiveNet/src/ip/axis_switch.v:77-84 | the ready, valid and payload multiplexers between the four slices, in terms of the queues |
| AxisSwitchDevice.Device.Ports | network/roce_v2/hw/HiveNet/src/ip/axis_switch.v:99-189 | the handshake outputs in terms of the queues |
| AxisSwitchDevice.Device.ClockEdge | network/roce_v2/hw/HiveNet/src/ip/axis_switch.v:86-189 | state register and four slices updated in place do exactly one step of the queue-level switch, so all results about runs hold of the device |
| AxisSwitchDevice.Drive | network/roce_v2/hw/HiveNet/src/ip/axis_switch.v:75-189 | the device seen from outside, from reset, under any schedule: what has been received on the output is a prefix of the merge of what was handed over on the three inputs, both collected from the ports alone, and all of it once the last fourteen cycles were ready and offered nothing |
| FrameClassifier.WiresAreOneHot | network/roce_v2/hw/HiveNet/src/ip/ip_handler.v:112-125 | the four class wires never overlap and always name one class |
| FrameClassifier.EtherTypeAgrees | network/roce_v2/hw/HiveNet/src/ip/ip_handler.v:106 | the little-endian comparisons with 0x0608 and 0x0008 hold exactly for frames of at least 14 bytes whose EtherType is 0x0806 or 0x0800 |
| FrameClassifier.AddressAgrees | network/roce_v2/hw/HiveNet/src/ip/ip_handler.v:109-123 | the destination comparison holds exactly if bytes 30 to 33 are all there and are the own octets or all ones, or if they are cut off and the own address is zero |
| FrameClassifier.PortAgrees | network/roce_v2/hw/HiveNet/src/ip/ip_handler.v:182-183 | comparing with the byte-swapped port register is comparing the big-endian UDP destination port with the configured one, where it is there |
| FrameClassifier.WiresByLanes | network/roce_v2/hw/HiveNet/src/ip/ip_handler.v:106-125 | lane by lane, for any pattern of byte enables, holes included: which enabled bytes raise which wire |
| FrameClassifier.LaterBeatsAreOther | network/roce_v2/hw/HiveNet/src/ip/ip_handler.v:106-125 | on a later beat of a packet the wires say other, whatever it carries |
| FrameClassifier.ClassifierIsParser | network/roce_v2/hw/HiveNet/src/ip/ip_handler.v:106-125 | for every frame, length, padding and configuration: the wires classify as a byte-level parser (RFC 791 section 3.1, RFC 768 "Format") if and only if no zero register is taken for a field that is cut off |
| FrameClassifier.ZeroPortTakesCutOffFrame | network/roce_v2/hw/HiveNet/src/ip/ip_handler.v:106-125 | the exception is real: with port register 0 a 34-byte UDP frame to 255.255.255.255 is taken as HiveNet, whatever the lanes beyond it hold, while the parser says other |
| FrameClassifier.ConfiguredClassifierIsParser | network/roce_v2/hw/HiveNet/src/ip/ip_handler.v:106-125 | with a non-zero address and port the two agree on every frame; cut-off headers go to other |
| IpHandler.SliceBooks | network/roce_v2/hw/HiveNet/src/ip/ip_handler.v:353-406 | a slice or, with BYPASS = 1, a wire: what is accepted comes out or is held, in order |
| IpHandler.PacketsPartition | network/roce_v2/hw/HiveNet/src/ip/ip_handler.v:158-173 | the reference division into packets loses nothing and cuts after every tlast beat and nowhere else |
| IpHandler.PacketsAreSteered | network/roce_v2/hw/HiveNet/src/ip/ip_handler.v:106-225 | for every schedule and all 32 BYPASS settings: each output has delivered, or holds in its slice, exactly the packets of its class, whole, in order and once, a packet's class being that of its first beat under the configuration of the cycle in which it was accepted |
| IpHandler.OneOutputIsConnected | network/roce_v2/hw/HiveNet/src/ip/ip_handler.v:127-156 | in every reachable state first_int holds exactly on a packet boundary, exactly one connect wire is up, it is the class of the packet under way, the core is ready if and only if that output is, and no other output is shown a beat |
| IpHandler.BeatsAreConserved | network/roce_v2/hw/HiveNet/src/ip/ip_handler.v:132-156 | the multiset of accepted beats is the sum of the multisets of what the input slice holds and, per class, of what the output has delivered and its slice holds: nothing is lost, duplicated or altered |
| IpHandler.DrainStep | network/roce_v2/hw/HiveNet/src/ip/ip_handler.v:132-156 | from every reachable state an edge with all outputs ready and no new input lowers the number of edges still needed |
| IpHandler.EverythingIsDelivered | network/roce_v2/hw/HiveNet/src/ip/ip_handler.v:106-225 | after any schedule, in every BYPASS mix, four ready edges without new input deliver every beat accepted before: each output has then received exactly the packets of its class |
| IpHandler.FullSpeed | network/roce_v2/hw/HiveNet/src/ip/ip_handler.v:127-156 | with ready outputs a beat is accepted on every edge, for every BYPASS setting and any packets |
| IpHandler.ConfigFollowsInputs | network/roce_v2/hw/HiveNet/src/ip/ip_handler.v:175-185 | after any run the configuration registers hold the address, and the port with its bytes swapped, of the last cycle, or zero after a reset |
| IpHandler.PacketsAreParsed | network/roce_v2/hw/HiveNet/src/ip/ip_handler.v:106-225 | with an input slice and a constant non-zero address and port: the class by which each packet is steered is what the byte-level parser makes of its frame |
| IpHandler.OfferIsHeldIff | network/roce_v2/hw/HiveNet/src/ip/ip_handler.v:127-156 | section 2.2.1 of the AXI4-Stream specification in every BYPASS mix, given an upstream that keeps it and no reset: a refused offer is repeated if and only if it is not a first beat on a sliceless output that the configuration registers move elsewhere |
| IpHandler.OfferCanBeWithdrawn | network/roce_v2/hw/HiveNet/src/ip/ip_handler.v:127-156 | the exception is real: in the first cycle after reset, with no slice anywhere, a refused ICMP packet to 0.0.0.0 is withdrawn because the address register takes its first value |
| IpHandler.OfferIsHeld | network/roce_v2/hw/HiveNet/src/ip/ip_handler.v:127-156 | hence it is always repeated while the configuration registers do not change |
| IpHandlerDevice.AxisRegister.Ready | network/roce_v2/hw/HiveNet/src/ip/ip_handler.v:353-406 | readiness of a register built as slice or as wire |
| IpHandlerDevice.AxisRegister.Offer | network/roce_v2/hw/HiveNet/src/ip/ip_handler.v:353-406 | the beat a register built as slice or as wire offers |
| IpHandlerDevice.AxisRegister.ClockEdge | network/roce_v2/hw/HiveNet/src/ip/ip_handler.v:373-398 | one edge of a register built as slice or as wire |
| IpHandlerDevice.OutputBank.ClockEdge | network/roce_v2/hw/HiveNet/src/ip/ip_handler.v:247-327 | the four output registers each see the beat only if connected |
| IpHandlerDevice.Device.constructor | network/roce_v2/hw/HiveNet/src/ip/ip_handler.v:158-225 | the registers start in the reset state of the queue-level handler |
| IpHandlerDevice.Device.Wires | network/roce_v2/hw/HiveNet/src/ip/ip_handler.v:106-156 | the settled valid, ready and class wires, which count only under a valid beat |
| IpHandlerDevice.Device.Ports | network/roce_v2/hw/HiveNet/src/ip/ip_handler.v:132-156 | the input's ready and the four offers the environment sees in a cycle |
| IpHandlerDevice.Device.LatchEdge | network/roce_v2/hw/HiveNet/src/ip/ip_handler.v:158-225 | first_int, the class latches and the configuration registers after an edge |
| IpHandlerDevice.Device.SlicesEdge | network/roce_v2/hw/HiveNet/src/ip/ip_handler.v:227-327 | the five slices after an edge, given the settled wires, reset included |
| IpHandlerDevice.Device.ClockEdge | network/roce_v2/hw/HiveNet/src/ip/ip_handler.v:158-327 | the registers updated in place do exactly one step of the queue-level handler, so all results about runs hold of the device |
| IpHandlerDevice.Drive | network/roce_v2/hw/HiveNet/src/ip/ip_handler.v:106-327 | the device seen from outside, from reset, under any schedule and BYPASS setting: each output has received a prefix of the whole packets of its class, in order, taken from what the input has handed over, and all of it once the last four cycles were ready and offered nothing |
| SelfCheck.FillPacket | examples/network/roce_v2/generator_collector/kernel/generator.cpp:46-54 | one packet, addressed to node id, with tlast and 64 bytes, each the low byte of id xor (64 n + i) mod 256 xor n mod 256, although the byte counter runs on across packets |
| SelfCheck.CheckPacket | examples/network/roce_v2/generator_collector/kernel/generator.cpp:60-66 | the error flag is sticky and set exactly if some byte of the packet is not accepted |
| SelfCheck.GeneratorCollector | examples/network/roce_v2/generator_collector/kernel/generator.cpp:24-73 | generator mode appends n packets, each with dest id, tlast and its 64 bytes in closed form; collector mode consumes n packets and reports an error if and only if there is one and the id is 256 or more or some byte is not the one in closed form; the final byte counter is 64 n modulo 256 |
| SelfCheck.LowByteValue | examples/network/roce_v2/generator_collector/kernel/generator.cpp:38-39 | the wrapping 8-bit counter is the count modulo 256 |
| SelfCheck.GeneratedByteValue | examples/network/roce_v2/generator_collector/kernel/generator.cpp:50-53 | the byte in closed form: low byte of the id, position in the stream and packet number, by exclusive or |
| SelfCheck.PacketIsAcceptedIff | examples/network/roce_v2/generator_collector/kernel/generator.cpp:52-64 | exactly which generated packets, of any id and number, a collector accepts in any position |
| SelfCheck.SameIdIsAcceptedIff | examples/network/roce_v2/generator_collector/kernel/generator.cpp:52-64 | with one id: accepted if and only if the id is below 256 and number and position agree modulo 256 |
| SelfCheck.DetectsDisplacement | examples/network/roce_v2/generator_collector/kernel/generator.cpp:57-68 | packets g(0), g(1), ... of one id pass if and only if g(k) is congruent to k modulo 256 for every k: loss, duplication and reordering escape only in multiples of 256 |
| SelfCheck.SelfCheckPassesIff | examples/network/roce_v2/generator_collector/kernel/generator.cpp:43-68 | generator output fed to the collector with the same id and count passes if and only if the id is below 256 or the count is zero |
| SelfCheck.LoopBack | examples/network/roce_v2/generator_collector/kernel/generator.cpp:24-73 | one kernel generating and another checking with the same id and count report an error if and only if the id is 256 or more and there is a packet |
| SelfCheck.LossIsDetected | examples/network/roce_v2/generator_collector/kernel/generator.cpp:57-68 | losing d packets is noticed unless nothing follows the gap or 256 divides d |
| SelfCheck.AnyPacketIsAcceptedIff | examples/network/roce_v2/generator_collector/kernel/generator.cpp:63-66 | any packet at all: accepted in position k if and only if the id fits in eight bits and all 64 bytes are those in closed form |
| SelfCheck.CleanMeansEveryByte | examples/network/roce_v2/generator_collector/kernel/generator.cpp:63-66 | no error if and only if the id fits in eight bits and every single byte is the one in closed form |
| BitPacking.CutIffConcat | common/hw/include/types.hpp:98-127 | cutting a bit string into w-bit elements and concatenating w-bit elements are inverse, in both directions |
| BitPacking.WideType.FromBits | common/hw/include/types.hpp:98-104 | the loop of range reads cuts the integer into elements whose concatenation it is |
| BitPacking.WideType.ToBits | common/hw/include/types.hpp:118-127 | the loop of range writes overwrites every bit of the uninitialised result with the elements in order |
| BitPacking.PackUnpack | common/hw/include/types.hpp:98-127 | packing after unpacking and unpacking after packing give back what went in, for every width |
| BitPacking.WideConv.Convert | common/hw/include/types.hpp:469-482 | for every pair of element widths and counts with equal products: the whole bit string is kept, whatever the buffer l_bits held before |
| BitPacking.ConvertsIffSameSum | common/hw/include/types.hpp:452-483 | keeping the bit string is the same as sum x_i 2^(bs i) = sum y_j 2^(bd j), even when neither width divides the other |
| BitPacking.ConversionsCompose | common/hw/include/types.hpp:452-483 | conversions compose, and a chain that returns to the first element width is the identity |
| BitPacking.ConvertThroughWideTypes | common/hw/include/types.hpp:469-482 | convert agrees with packing through one WideType and unpacking through the other |
| BitPacking.ConcatIsSum | common/hw/include/types.hpp:118-127 | the packed integer is the sum of the elements at their weights |
| BitPacking.ConvWideVal2Bits | common/hw/include/types.hpp:413-430 | entry i of the result is worth element i modulo 2^(t_Bits / t_Width): truncated or zero-extended, never mixed |
| BitPacking.ConvBits2WideType | common/hw/include/types.hpp:432-450 | element i is worth entry i of the bit string modulo 2 to the element width |
| BitPacking.ResizeValue | common/hw/include/types.hpp:424-426 | assigning to another width keeps the value modulo 2^n, hence whole when the width grows |
| BitPacking.ResizeAllBack | common/hw/include/types.hpp:424-425 | changing the element width and changing it back restores a vector if and only if every element fits the narrower width |
| BitPacking.NarrowAndWiden | common/hw/include/types.hpp:413-450 | converting to entries and back gives the vector if and only if every element fits in an entry |
| NodeAddress.HiveNet.SetTimeOut | network/roce_v2/sw/src/HiveNet.cpp:40-43 | low 32 bits at the lower address, high 32 bits at the next, and no other register changed |
| NodeAddress.HiveNet.GetTimeOut | network/roce_v2/sw/src/HiveNet.cpp:106-111 | reads back the 64 bits of the two registers |
| NodeAddress.HiveNet.SetMACSubnet | network/roce_v2/sw/src/HiveNet.cpp:52-55 | low 32 bits at the lower address, high 32 bits at the next, and no other register changed |
| NodeAddress.HiveNet.GetMACSubnet | network/roce_v2/sw/src/HiveNet.cpp:56-62 | reads back the subnet with its low 13 bits cleared |
| NodeAddress.HiveNet.SetLocalID | network/roce_v2/sw/src/HiveNet.cpp:33-35 | all 16 bits are stored and no other register changes |
| NodeAddress.HiveNet.SetIPSubnet | network/roce_v2/sw/src/HiveNet.cpp:45-47 | all 32 bits are stored and no other register changes |
| NodeAddress.HiveNet.SetNretranssmitions | network/roce_v2/sw/src/HiveNet.cpp:63-65 | all 16 bits are stored and no other register changes |
| NodeAddress.HiveNet.SetUDPPort | network/roce_v2/sw/src/HiveNet.cpp:70-72 | all 16 bits are stored and no other register changes |
| NodeAddress.HiveNet.InitCU | network/roce_v2/sw/src/HiveNet.cpp:23-31 | ARP reset register 1, timeout 0xffff, three retransmissions and UDP port 0x12b7, and no register outside these changed |
| NodeAddress.HiveNet.GetIPAddress | network/roce_v2/sw/src/HiveNet.cpp:78-87 | read in network byte order the result is the subnet register plus the 16-bit id register modulo 2^32 |
| NodeAddress.HiveNet.GetMACAddress | network/roce_v2/sw/src/HiveNet.cpp:88-97 | the result has subnet bits 63..13 if and only if the id register is below 8192, and then the id below them |
| NodeAddress.SwapOctets | network/roce_v2/sw/src/HiveNet.cpp:81-85 | the four masks and shifts put the octets in the opposite order |
| NodeAddress.DeriveIp | network/roce_v2/sw/src/HiveNet.cpp:78-87 | swapping the subnet, adding the id and swapping back is the address the lemmas are about |
| NodeAddress.SetUp | network/roce_v2/sw/src/HiveNet.cpp:23-76 | initCU and the four configuration setters disturb neither each other nor what initCU wrote elsewhere |
| NodeAddress.Configure | network/roce_v2/sw/src/HiveNet.cpp:23-111 | configuring a node through the setters and reading back gives the address of that id and subnet and the same timeout |
| NodeAddress.SoftwareAgreesWithEndianness | network/roce_v2/hw/HiveNet/src/HiveNet_bd_create.tcl:693-799 | getIPAddress equals the output of the Endianness cell if and only if the id fits the 13 wires, or 12 bits if the adder's B operand is signed |
| NodeAddress.AddressesAreDistinct | network/roce_v2/sw/src/HiveNet.cpp:78-87 | distinct ids under one subnet have distinct addresses in software |
| NodeAddress.EndiannessIsInjective | network/roce_v2/hw/HiveNet/src/HiveNet_bd_create.tcl:693-799 | and in hardware, for either signedness of the adder |
| NodeAddress.HighIdBitsAreLost | network/roce_v2/hw/HiveNet/src/HiveNet_bd_create.tcl:693-799 | ids that agree in their low 13 bits, and only those, have the same hardware address |
| NodeAddress.AddressIsSubnetPlusId | network/roce_v2/sw/src/HiveNet.cpp:78-87 | read in network byte order, the address is the subnet plus the id modulo 2^32 |
| NodeAddress.EndiannessIsSubnetPlusId | network/roce_v2/hw/HiveNet/src/HiveNet_bd_create.tcl:693-799 | the same of the hardware's address, the id counting as a signed 13-bit number if the adder reads it so |
| NodeAddress.AtMostOneNodeTakes | network/roce_v2/hw/HiveNet/src/ip/ip_handler.v:109-123 | unless addressed to 255.255.255.255, any frame, cut off or not, is taken as ICMP or HiveNet by at most one node of a subnet, and the destination address, if it is there, is that node's |
| NodeAddress.AddressedNodeTakes | network/roce_v2/hw/HiveNet/src/ip/ip_handler.v:109-123 | a frame whose bytes 30 to 33 are the address the software reports is classified by that node as the byte-level parser says, and if that is ICMP or HiveNet no other node takes it |
| NodeAddress.MacIsSubnetThenId | network/roce_v2/sw/src/HiveNet.cpp:88-97 | getMACAddress keeps subnet bits 63..13 if and only if the id is below 8192, and then its low 13 bits are the id |
| NodeAddress.SoftwareAgreesWithMacCell | network/roce_v2/hw/HiveNet/src/HiveNet_bd_create.tcl:848-944 | octet k of what the Mac cell drives is octet 5 - k of getMACAddress, for all six octets, if and only if the id is below 8192 |
| NodeAddress.MacCellOctets | network/roce_v2/hw/HiveNet/src/HiveNet_bd_create.tcl:848-944 | slice by slice: the subnet's octets from the top down, then its bits 15..13 above id bits 12..8, then id bits 7..0 |
| NodeAddress.MacCellIsInjective | network/roce_v2/hw/HiveNet/src/HiveNet_bd_create.tcl:848-944 | distinct ids have distinct MAC addresses |
| StatusBitmap.Bitmap.PortA | network/roce_v2/hw/HiveNet/src/HiveNet_bd_create.tcl:1254-1282 | port A: WRITE_FIRST, with the output register of the primitive on the same enable |
| StatusBitmap.Bitmap.PortB | network/roce_v2/hw/HiveNet/src/HiveNet_bd_create.tcl:1254-1282 | port B: arbitrary data if it reads the word that port A writes on the same edge |
| StatusBitmap.Bitmap.Latch | network/roce_v2/hw/HiveNet/src/HiveNet_bd_create.tcl:483-542 | the registers in front of port A take the write port, the data byte modulo four, and the address delays move on |
| StatusBitmap.Bitmap.ClockEdge | network/roce_v2/hw/HiveNet/src/HiveNet_bd_create.tcl:605-644 | write registers, address delays, RAM and output registers updated in place do one step of the value-level model |
| StatusBitmap.ReadSeesMemory | network/roce_v2/hw/HiveNet/src/ip/bram_wrapper.v:29-31 | from any state and any collision data: a held read gives the memory after its own edge's write, one that is not held gives an older access; held is by the read enable in the next cycle, or, on a meeting write, by port A's enable |
| StatusBitmap.ReadIsNeverStale | network/roce_v2/hw/HiveNet/src/ip/bram_wrapper.v:29-31 | for every run from reset and every initial content: two cycles after a read that is held, by the read enable or, meeting the write issued before, by ce1, the output is the data byte, modulo four, of the latest write to that address issued before the read cycle, or the initial content |
| StatusBitmap.Drive | network/roce_v2/hw/HiveNet/src/HiveNet_bd_create.tcl:1254-1282 | the device over a whole run: every held read in it shows, two cycles later, the data byte modulo four of the latest write to its address, or the initial content |
| StatusBitmap.WrittenOrNot | network/roce_v2/hw/HiveNet/src/ip/bram_wrapper.v:29-31 | exactly one of those two cases applies to each address |
| StatusBitmap.MemoryIsLastWrite | network/roce_v2/hw/HiveNet/src/HiveNet_bd_create.tcl:492-542 | the RAM holds the data byte modulo four of the latest effective write, a write being effective if its own ce1 or a read in the cycle of its arrival enables port A |
| StatusBitmap.ReleasedReadCanBeStale | network/roce_v2/hw/HiveNet/src/HiveNet_bd_create.tcl:1254-1282 | a concrete run in which the enable is dropped after one edge and the output is not the memory |
| Arguments.ApplyConcat | examples/network/roce_v2/generator_collector/host/popl.hpp:994-1083 | what a sequence of parse events leaves behind is what its parts leave behind one after the other |
| ArgumentSpelling.GroupsParse | examples/network/roce_v2/generator_collector/host/popl.hpp:994-1083 | any mixture of --name, --name=value, --name value, clusters, -nvalue and -n value, before any other tokens, stores exactly its values in order and parsing goes on after it |
| ArgumentSpelling.SpellingsAgree | examples/network/roce_v2/generator_collector/host/popl.hpp:994-1083 | two command lines that give each option the same values, however spelled and however the options are interleaved, leave the same value lists, and nothing in either leftover list |
| ArgumentSpelling.FindsLong | examples/network/roce_v2/generator_collector/host/popl.hpp:898-904 | with unique names the first match is the option meant |
| ArgumentSpelling.ScanSwitches | examples/network/roce_v2/generator_collector/host/popl.hpp:1043-1080 | a cluster of switches is the switches one by one before whatever follows in the token |
| ArgumentPositions.StepMeans | examples/network/roce_v2/generator_collector/host/popl.hpp:996-1083 | every token that does not throw uses the token after it, and adds to the leftovers, exactly as predicates on its text say |
| ArgumentPositions.ParseGathers | examples/network/roce_v2/generator_collector/host/popl.hpp:994-1083 | on any parse without exception the non-option list gains exactly the positional tokens (and what follows a --) and the unknown list exactly the tokens naming an unknown, inactive or wrongly valued option, in order |
| ArgumentPositions.PositionsAreConsumedOnce | examples/network/roce_v2/generator_collector/host/popl.hpp:996-1083 | the positions where tokens start are strictly increasing, and every argv position is exactly one of: such a start, or the value of the token before |
| ArgumentPositions.DoubleDashPromise | examples/network/roce_v2/generator_collector/host/popl.hpp:358-361 | the documented meaning of -- is kept if and only if every later token is -, except that the last may be -- |
| ArgumentPositions.WordsAfterDoubleDashArriveTwice | examples/network/roce_v2/generator_collector/host/popl.hpp:999-1004 | plain words after -- are in the non-option list twice |
| ArgumentMeaning.AcceptDenotes | examples/network/roce_v2/generator_collector/host/popl.hpp:709-831 | what each kind and type of option makes of a text, and which texts it refuses |
| ArgumentMeaning.StepThrowsIff | examples/network/roce_v2/generator_collector/host/popl.hpp:996-1083 | a token throws if and only if the text names an active option, in its long name or as a letter reached behind switches and unknown letters, that refuses its argument |
| ArgumentMeaning.ParseThrowsIff | examples/network/roce_v2/generator_collector/host/popl.hpp:994-1083 | a parse throws an invalid argument if and only if some token on its way does |
| ArgumentMeaning.InactiveIsUntouched | examples/network/roce_v2/generator_collector/host/popl.hpp:1017-1052 | no parse of any command line stores anything in an inactive option |
| ArgumentMeaning.InactiveIsUnknown | examples/network/roce_v2/generator_collector/host/popl.hpp:1017-1079 | a token that names an inactive option is put in the unknown list, stores nothing, uses no other token and does not throw |
| ArgumentMeaning.StepDenotes | examples/network/roce_v2/generator_collector/host/popl.hpp:996-1083 | the values one token gives to an option are what the option makes of the texts the token has for it, also if the token throws in the end |
| ArgumentMeaning.ParseLeaves | examples/network/roce_v2/generator_collector/host/popl.hpp:994-1083 | any argv at all, thrown or not: each option gains what it makes of the texts its tokens give it, and the two lists gain the tokens before the throwing one that belong there, in order |
| ArgumentMeaning.GroupsDenote | examples/network/roce_v2/generator_collector/host/popl.hpp:994-1083 | of a line in any spelling, each option gets what it makes of the texts written for it, in order |
| ArgumentMeaning.StringsAreStored | examples/network/roce_v2/generator_collector/host/popl.hpp:709-716 | a string option gets the written texts themselves |
| OptionValues.ValueOption.UpdateReference | examples/network/roce_v2/generator_collector/host/popl.hpp:764-774 | the bound variable takes the last value, else the default, else keeps its content |
| OptionValues.ValueOption.AssignTo | examples/network/roce_v2/generator_collector/host/popl.hpp:613-618 | binding updates the variable at once |
| OptionValues.ValueOption.AddValue | examples/network/roce_v2/generator_collector/host/popl.hpp:776-781 | one value more, and the bound variable holds it |
| OptionValues.ValueOption.SetValue | examples/network/roce_v2/generator_collector/host/popl.hpp:621-626 | exactly the new value is left, and the bound variable holds it |
| OptionValues.ValueOption.SetDefault | examples/network/roce_v2/generator_collector/host/popl.hpp:667-673 | the bound variable follows the default only while there is no value |
| OptionValues.ValueOption.Clear | examples/network/roce_v2/generator_collector/host/popl.hpp:784-789 | no values; the bound variable falls back to the default if there is one |
| OptionValues.ValueOption.Parse | examples/network/roce_v2/generator_collector/host/popl.hpp:709-831 | a switch adds true; an implicit option without argument its default; a string option the text, unless it is empty; a bool option whether the text is 1, true, True or TRUE; any other what the stream extraction reads, unless it reads nothing; a refused text changes neither the values nor the bound variable |
| OptionValues.ValueOption.Get | examples/network/roce_v2/generator_collector/host/popl.hpp:639-662 | in any state: the default if there are no values, else the value at that index, else nothing; while the bound variable agrees with its option it equals value() if and only if first and last value are equal |
| OptionValues.Perform | examples/network/roce_v2/generator_collector/host/popl.hpp:613-626 | one call of set_value, set_default, parse, clear or assign_to changes values, default, binding and bound variable as its definition over histories says; without values and default no variable changes |
| OptionValues.PerformAll | examples/network/roce_v2/generator_collector/host/popl.hpp:613-789 | after any sequence of calls, with any rebinding, values, default, binding and every variable are those of the calls replayed one by one; the variable bound last holds the last value, else the default |
| OptionValues.UnsetKeepsVariables | examples/network/roce_v2/generator_collector/host/popl.hpp:764-774 | as long as an option has neither values nor a default, no variable changes, whatever it is bound to |
| OptionParsing.OptionParser.Add | examples/network/roce_v2/generator_collector/host/popl.hpp:855-876 | refused if and only if a short or long name is taken; otherwise appended, and names stay unique |
| OptionParsing.OptionParser.FindLongOption | examples/network/roce_v2/generator_collector/host/popl.hpp:898-904 | the loop returns the first option of that name, or none if there is none |
| OptionParsing.OptionParser.FindShortOption | examples/network/roce_v2/generator_collector/host/popl.hpp:907-913 | the same for short names |
| OptionParsing.OptionParser.StoreValue | examples/network/roce_v2/generator_collector/host/popl.hpp:1034-1035 | an accepted argument adds one value to that option and to the variable it is bound to, also if others share it; a rejected one changes nothing |
| OptionParsing.OptionParser.ActiveLong | examples/network/roce_v2/generator_collector/host/popl.hpp:1017-1019 | the first option of that name, unless it is inactive |
| OptionParsing.OptionParser.LongTarget | examples/network/roce_v2/generator_collector/host/popl.hpp:1008-1033 | which option the token goes to, with which argument, and whether the next token is used up, as the grammar's step says |
| OptionParsing.OptionParser.LongArgument | examples/network/roce_v2/generator_collector/host/popl.hpp:1005-1038 | the long branch has exactly the effect of the grammar's step, on values, leftovers and every bound variable |
| OptionParsing.OptionParser.LetterTarget | examples/network/roce_v2/generator_collector/host/popl.hpp:1046-1070 | which option one character of a cluster goes to, with which argument, and where the scan goes on |
| OptionParsing.OptionParser.Letter | examples/network/roce_v2/generator_collector/host/popl.hpp:1045-1079 | one character of a cluster: what it does and then what the rest of the token does is what the token does from there, bound variables included |
| OptionParsing.OptionParser.ShortArgument | examples/network/roce_v2/generator_collector/host/popl.hpp:1039-1077 | the loop over a cluster has exactly the effect of the grammar's step on values, leftovers and bound variables, partial effects before an exception included |
| OptionParsing.OptionParser.CollectRest | examples/network/roce_v2/generator_collector/host/popl.hpp:999-1004 | the inner loop of -- appends every later token and moves no cursor |
| OptionParsing.OptionParser.Token | examples/network/roce_v2/generator_collector/host/popl.hpp:996-1083 | one round of the argv loop has exactly the effect of the grammar's step, whichever branch it takes, and leaves in each bound variable the value stored last by an option bound to it |
| OptionParsing.OptionParser.ArgvLoop | examples/network/roce_v2/generator_collector/host/popl.hpp:996-1083 | the whole loop leaves exactly what the events of the grammar's run leave, also when it throws |
| OptionParsing.OptionParser.Parse | examples/network/roce_v2/generator_collector/host/popl.hpp:994-1093 | values, leftovers and every bound variable, shared or not, are exactly those the grammar's run leaves; on the text: each option gains what it makes of the texts up to the throwing token, an inactive one nothing; invalid argument is thrown if and only if a token on the way is refused, otherwise missing option if and only if a required one has no value; unshared variables that agreed with their options still do |
| OptionParsing.OptionParser.Reset | examples/network/roce_v2/generator_collector/host/popl.hpp:1096-1102 | no values and no leftovers, options and bindings unchanged; every bound variable takes the default of the last option bound to it that has one; one whose options have none keeps its content |
| OptionParsing.OptionParser.ClearOptions | examples/network/roce_v2/generator_collector/host/popl.hpp:1100-1101 | the loop clears the options one after another, each with its effect on the variables |
| OptionParsing.OptionParser.ResetAndParse | examples/network/roce_v2/generator_collector/host/popl.hpp:994-1102 | reset and parse give the values, leftovers and exit of a parser with the same options that has never parsed, and unshared variables agree with their options whatever they held |
| OptionParsing.AfterConcat | examples/network/roce_v2/generator_collector/host/popl.hpp:994-1083 | values, leftovers and bound variables after two sequences of events are those after the second from where the first left off |
| OptionParsing.AgreementIsKept | examples/network/roce_v2/generator_collector/host/popl.hpp:764-781 | whatever is parsed, an unshared variable that agreed with its option (last value, else default) agrees afterwards |
| OptionParsing.ResetMakesAgree | examples/network/roce_v2/generator_collector/host/popl.hpp:784-789 | after a reset every unshared variable agrees with its option, whatever it held |
| OptionParsing.FirstMissing | examples/network/roce_v2/generator_collector/host/popl.hpp:1085-1092 | reports a required option without a value if and only if there is one, and then the first |
| OptionParsing.OptionParser.CallOption | examples/network/roce_v2/generator_collector/host/popl.hpp:613-626 | a caller's own call changes exactly that option's values or default, and its variable, as the call says, and nothing else in the parser; unshared variables go on agreeing with their options |
| OptionParsing.Session | examples/network/roce_v2/generator_collector/host/popl.hpp:613-1102 | any mixture of parses, resets and calls on single options leaves exactly what they leave one after another; unshared variables that agreed with their options agree at the end |
| OptionParsing.ParseGroups | examples/network/roce_v2/generator_collector/host/popl.hpp:994-1093 | a parser given any spelling of a command line: each option gains what it makes of the texts written for it, a string option the texts themselves; nothing is left over; the exit depends on the required options alone |

## Left out

- The RoCE v2 packet-sequence, acknowledgement and retransmission logic: only its port lists are in the
  repository, so its behaviour would be invented.
- `xNativeFPGA`, `cmac`, `netLayer`, `genColHost` and `main.cpp`: device calls, sleeps and console output.
- popl's help, groff and bash printers and its ini-file reader: text layout and file input.
- popl's option construction errors (a short name of two characters, no name at all) and `get_option`: no state
  survives them.
- GeneratorCollector: packet counts of 2^31 and more, where the source's signed loop counter overflows; the
  constant tkeep the generator drives and the side channels the collector ignores are not in the packet.
- Convert: element patterns only; the float and double overloads of BitConv are the identity on bit patterns.
- `WideType::shift` and `unshift`, scalar construction and comparison, `TriangSrl`, `WindowRm`, `BoolArr` and
  `TaggedFloat`: easy members, or parts of vendor types that are not in the repository.
- ClockEdge: registers power up in their reset values; clock-domain crossings, reset sequencing and vendor FIFOs
  around the modelled blocks are not part of this model.
- The plain single-register getters of `HiveNet`, `resetARPTable` beyond its use in `initCU`, and the register
  map behind them.
- `axi_address_remap` and the HBM bank table: a single OR.
- Session: calls of `assign_to` in the middle of it; rebinding is covered for one option by `OptionValues.PerformAll`.
