/** The R2DC configuration packet: its layout, its config ID and how the node builds it. */
module NetworkConfig {
  import opened Bits
  import opened Bytes
  import opened Wrappers
  import opened Fnv
  import opened FourBytes

  const SYSTEMS: nat := 4
  const DAQS: nat := 8

  const R2DC_NAME: seq<byte> := [0x52, 0x32, 0x44, 0x43]
  /** "ros2sonic" */
  const NODE_NAME: seq<byte> := [0x72, 0x6F, 0x73, 0x32, 0x73, 0x6F, 0x6E, 0x69, 0x63]

  /** The fields of the packet from subnet_mask on: the part that is hashed. */
  datatype Network = Network(subnetMask: u32, gatewayIp: u32, guiIp: u32, guiBaseport: u16, system: u16,
                             headIp: seq<u32>, headBaseport: seq<u16>, simboxIp: seq<u32>, simboxBaseport: seq<u16>,
                             daqIp: seq<u32>, daqBaseport: seq<u16>, spare: seq<u32>)
  {
    predicate Shaped() {
      && |headIp| == |headBaseport| == |simboxIp| == |simboxBaseport| == SYSTEMS
      && |daqIp| == |daqBaseport| == |spare| == DAQS
    }

    /** The i-th field of the packed struct. */
    function Value(i: nat): nat
      requires Shaped() && i < 45
    {
      if i == 0 then subnetMask else if i == 1 then gatewayIp else if i == 2 then guiIp
      else if i == 3 then guiBaseport else if i == 4 then system
      else if i < 9 then headIp[i - 5] else if i < 13 then headBaseport[i - 9]
      else if i < 17 then simboxIp[i - 13] else if i < 21 then simboxBaseport[i - 17]
      else if i < 29 then daqIp[i - 21] else if i < 37 then daqBaseport[i - 29] else spare[i - 37]
    }

    function Values(): (vs: seq<nat>)
      requires Shaped()
      ensures |vs| == 45
    {
      seq(45, i requires 0 <= i < 45 => Value(i))
    }
  }

  function Width(i: nat): nat {
    if 3 <= i < 5 || 9 <= i < 13 || 17 <= i < 21 || 29 <= i < 37 then 2 else 4
  }

  function Widths(): (ws: seq<nat>)
    ensures |ws| == 45
  {
    seq(45, i requires 0 <= i => Width(i))
  }

  lemma {:induction false} ValueFits(n: Network, i: nat)
    requires n.Shaped() && i < 45
    ensures n.Value(i) < Pow256(Width(i))
  {
    hide Pow256;
    Width2();
    Width4();
  }

  lemma {:induction false} ValuesFit(n: Network)
    requires n.Shaped()
    ensures Fit(Widths(), n.Values())
  {
    hide Pow256, Network.Value;
    forall i | 0 <= i < 45 ensures n.Values()[i] < Pow256(Widths()[i]) {
      ValueFits(n, i);
    }
  }

  /** The bytes of the packet from subnet_mask on. */
  function Block(n: Network): seq<byte>
    requires n.Shaped()
  {
    ValuesFit(n);
    Fields(Widths(), n.Values(), 45)
  }

  /** The exclusive or of two numbers, byte by byte. */
  function XorBytes(a: nat, b: nat, width: nat): (r: nat)
    ensures r < Pow256(width)
  {
    if width == 0 then 0 else XorBytes(a / 256, b / 256, width - 1) * 256 + Xor8(a % 256, b % 256)
  }

  /** hash ^= hash. */
  function Xor32(a: u32, b: u32): u32 {
    Width4();
    XorBytes(a, b, 4)
  }

  function ConfigId(nodeName: seq<byte>, n: Network): u32
    requires n.Shaped()
  {
    Xor32(Hash(nodeName), Hash(Block(n)))
  }

  /** strncpy: up to the terminator, padded with zeros. */
  function StrNCpy(s: seq<byte>, n: nat): (r: seq<byte>)
    ensures |r| == n
    decreases n
  {
    if n == 0 then [] else if s == [] || s[0] == 0 then [0] + StrNCpy([], n - 1) else [s[0]] + StrNCpy(s[1..], n - 1)
  }

  // ---- The packet object ----

  class R2DC {
    var serialNumber: seq<byte>
    var configId: u32
    var network: Network

    predicate Valid()
      reads this
    {
      |serialNumber| == 12 && network.Shaped()
    }

    /** serial_number is not initialised by the constructor. */
    constructor (junk: seq<byte>)
      requires |junk| == 12
      ensures Valid() && serialNumber == junk && configId == 2549138156
      ensures network == Network(0xFF00_0000, 0, 0x0A00_0166, 65400, 0,
                                 [0x0A00_0056, 0, 0, 0], [65500, 0, 0, 0], [0x0A00_0063, 0, 0, 0], [65500, 0, 0, 0],
                                 [0x0A00_0166, 0x0A00_0166, 0x0A00_0166, 0, 0, 0, 0, 0],
                                 [4100, 4200, 4300, 0, 0, 0, 0, 0],
                                 [0, 0, 0, 0, 0, 0, 0, 0])
    {
      serialNumber, configId := junk, 2549138156;
      network := Network(0xFF00_0000, 0, 0x0A00_0166, 65400, 0,
                         [0x0A00_0056, 0, 0, 0], [65500, 0, 0, 0], [0x0A00_0063, 0, 0, 0], [65500, 0, 0, 0],
                         [0x0A00_0166, 0x0A00_0166, 0x0A00_0166, 0, 0, 0, 0, 0], [4100, 4200, 4300, 0, 0, 0, 0, 0],
                         [0, 0, 0, 0, 0, 0, 0, 0]);
    }

    /** generateConfigID, with its two hash loops. */
    method GenerateConfigId(nodeName: seq<byte>) returns (id: u32)
      requires Valid()
      ensures id == ConfigId(nodeName, network)
    {
      hide Hash, Xor32, Block;
      id := Fnv1aHash(nodeName);
      var config := Fnv1aHash(Block(network));
      id := Xor32(id, config);
    }

    predicate ConfigIdIsValid(nodeName: seq<byte>)
      requires Valid()
      reads this
    {
      configId == ConfigId(nodeName, network)
    }

    method SetConfigId()
      requires Valid()
      modifies `configId
      ensures ConfigIdIsValid(NODE_NAME)
    {
      configId := GenerateConfigId(NODE_NAME);
    }

    function Serialize(): seq<byte>
      requires Valid()
      reads this
    {
      Serialized(serialNumber, configId, network)
    }
  }

  function Serialized(serialNumber: seq<byte>, configId: u32, n: Network): seq<byte>
    requires n.Shaped()
  {
    R2DC_NAME + serialNumber + Put32(configId) + Block(n)
  }

  // ---- sendNetworkConfig ----

  /** The network and sonar parameters of the node. */
  datatype Settings = Settings(subnetMask: string, gatewayIp: string, guiIp: string, guiBaseport: int, systemIndex: int,
                               headIps: seq<string>, headBaseports: seq<int>,
                               simboxIps: seq<string>, simboxBaseports: seq<int>,
                               daqIps: seq<string>, daqBaseports: seq<int>)
  {
    predicate Shaped() {
      && |headIps| == |headBaseports| == |simboxIps| == |simboxBaseports| == SYSTEMS
      && |daqIps| == |daqBaseports| == DAQS
    }
  }

  /** ip_str_to_u32: the address, or nothing when inet_pton rejects the string and it throws. */
  type AddressParser = string -> Option<u32>

  ghost predicate AllParse(ips: seq<string>, parse: AddressParser) {
    forall i :: 0 <= i < |ips| ==> parse(ips[i]).Some?
  }

  ghost predicate Parses(st: Settings, parse: AddressParser) {
    && parse(st.subnetMask).Some? && parse(st.gatewayIp).Some? && parse(st.guiIp).Some?
    && AllParse(st.headIps, parse) && AllParse(st.simboxIps, parse) && AllParse(st.daqIps, parse)
  }

  /** Conversion of an int to u16. */
  function ToU16(v: int): u16 {
    v % 0x1_0000
  }

  ghost function Addresses(ips: seq<string>, parse: AddressParser): (r: seq<u32>)
    requires AllParse(ips, parse)
    ensures |r| == |ips|
  {
    seq(|ips|, i requires 0 <= i < |ips| => parse(ips[i]).value)
  }

  function Ports(ports: seq<int>): (r: seq<u16>)
    ensures |r| == |ports|
  {
    seq(|ports|, i requires 0 <= i < |ports| => ToU16(ports[i]))
  }

  ghost function NetworkOf(st: Settings, parse: AddressParser): (n: Network)
    requires st.Shaped() && Parses(st, parse)
    ensures n.Shaped()
  {
    Network(parse(st.subnetMask).value, parse(st.gatewayIp).value, parse(st.guiIp).value,
            ToU16(st.guiBaseport), ToU16(st.systemIndex),
            Addresses(st.headIps, parse), Ports(st.headBaseports),
            Addresses(st.simboxIps, parse), Ports(st.simboxBaseports),
            Addresses(st.daqIps, parse), Ports(st.daqBaseports), seq(DAQS, _ => 0))
  }

  /** The addresses and ports of the heads, the simboxes or the DAQs, or failure when one throws. */
  method FillDevices(ips: seq<string>, ports: seq<int>, parse: AddressParser)
    returns (ok: bool, addresses: seq<u32>, baseports: seq<u16>)
    requires |ips| == |ports|
    ensures ok <==> AllParse(ips, parse)
    ensures ok ==> addresses == Addresses(ips, parse) && baseports == Ports(ports)
  {
    addresses, baseports := [], [];
    var i := 0;
    while i < |ips|
      invariant 0 <= i <= |ips| && |addresses| == |baseports| == i
      invariant forall j :: 0 <= j < i ==> parse(ips[j]).Some? && addresses[j] == parse(ips[j]).value
      invariant forall j :: 0 <= j < i ==> baseports[j] == ToU16(ports[j])
    {
      var address := parse(ips[i]);
      if address.None? {
        return false, addresses, baseports;
      }
      addresses, baseports := addresses + [address.value], baseports + [ToU16(ports[i])];
      i := i + 1;
    }
    return true, addresses, baseports;
  }

  /** make_config: nothing is sent when some address does not parse. */
  method MakeConfig(serial: seq<byte>, st: Settings, parse: AddressParser, junk: seq<byte>) returns (cfg: R2DC?)
    requires st.Shaped() && |junk| == 12
    ensures cfg == null <==> !Parses(st, parse)
    ensures cfg != null ==>
              && fresh(cfg) && cfg.Valid() && cfg.ConfigIdIsValid(NODE_NAME)
              && cfg.serialNumber == StrNCpy(serial, 12) && cfg.network == NetworkOf(st, parse)
  {
    hide StrNCpy, ConfigId, ToU16, Addresses, Ports, AllParse;
    cfg := new R2DC(junk);
    cfg.serialNumber := StrNCpy(serial, 12);
    var subnetMask, gatewayIp, guiIp := parse(st.subnetMask), parse(st.gatewayIp), parse(st.guiIp);
    if subnetMask.None? || gatewayIp.None? || guiIp.None? {
      return null;
    }
    var headsOk, headIp, headBaseport := FillDevices(st.headIps, st.headBaseports, parse);
    var simboxesOk, simboxIp, simboxBaseport := FillDevices(st.simboxIps, st.simboxBaseports, parse);
    var daqsOk, daqIp, daqBaseport := FillDevices(st.daqIps, st.daqBaseports, parse);
    if !headsOk || !simboxesOk || !daqsOk {
      return null;
    }
    cfg.network := Network(subnetMask.value, gatewayIp.value, guiIp.value, ToU16(st.guiBaseport), ToU16(st.systemIndex),
                           headIp, headBaseport, simboxIp, simboxBaseport, daqIp, daqBaseport, cfg.network.spare);
    assert cfg.network.spare == seq(DAQS, _ => 0);
    cfg.SetConfigId();
  }

  /** The head and the simbox are sent the same configuration under the same config ID; the two packets
      differ in nothing but the serial number. */
  method SendNetworkConfig(headSerial: seq<byte>, simSerial: seq<byte>, st: Settings, parse: AddressParser,
                           junk: seq<byte>) returns (sent: seq<seq<byte>>)
    requires st.Shaped() && |junk| == 12
    ensures sent == [] <==> !Parses(st, parse)
    ensures Parses(st, parse) ==>
              |sent| == 2 && IsPacketFor(sent[0], headSerial, st, parse) && IsPacketFor(sent[1], simSerial, st, parse)
    ensures Parses(st, parse) ==>
              var n := NetworkOf(st, parse);
              sent == [Serialized(StrNCpy(headSerial, 12), ConfigId(NODE_NAME, n), n),
                       Serialized(StrNCpy(simSerial, 12), ConfigId(NODE_NAME, n), n)]
  {
    hide StrNCpy, Serialized, ConfigId, NetworkOf, Parses, IsPacketFor;
    var head := MakeConfig(headSerial, st, parse, junk);
    if head == null {
      return [];
    }
    var simbox := MakeConfig(simSerial, st, parse, junk);
    sent := [head.Serialize(), simbox.Serialize()];
    SentIsPacket(headSerial, st, parse);
    SentIsPacket(simSerial, st, parse);
  }

  // ---- Layout ----

  /** The address of field k in the block. */
  function At(k: nat): nat {
    if k < 3 then 4 * k else if k < 5 then 12 + 2 * (k - 3)
    else if k < 9 then 16 + 4 * (k - 5) else if k < 13 then 32 + 2 * (k - 9)
    else if k < 17 then 40 + 4 * (k - 13) else if k < 21 then 56 + 2 * (k - 17)
    else if k < 29 then 64 + 4 * (k - 21) else if k < 37 then 96 + 2 * (k - 29) else 112 + 4 * (k - 37)
  }

  lemma {:induction false} OffsetIs(k: nat)
    requires k <= 45
    ensures Offset(Widths(), k) == At(k)
  {
    if k == 0 {
    } else {
      hide At;
      OffsetIs(k - 1);
      assert Widths()[k - 1] == Width(k - 1);
      NextAt(k - 1);
    }
  }

  lemma {:induction false} NextAt(k: nat)
    requires k < 45
    ensures At(k + 1) == At(k) + Width(k)
  {
  }

  /** The serialized packet is 164 bytes long, and whoever holds it in memory reads the name, the serial
      number, the config ID and every field of the configuration back at its place. */
  lemma {:induction false} SerializedReadsBack(mem: Memory, serialNumber: seq<byte>, configId: u32, n: Network)
    requires |serialNumber| == 12 && n.Shaped()
    requires Holds(mem, 0, Serialized(serialNumber, configId, n))
    ensures |Serialized(serialNumber, configId, n)| == 164
    ensures Holds(mem, 0, R2DC_NAME) && Holds(mem, 4, serialNumber) && U32(mem, 16) == configId
    ensures forall k :: 0 <= k < 45 && Width(k) == 4 ==> U32(mem, 20 + Offset(Widths(), k)) == n.Values()[k]
    ensures forall k :: 0 <= k < 45 && Width(k) == 2 ==> U16(mem, 20 + Offset(Widths(), k)) == n.Values()[k]
  {
    hide Holds, U32, U16, Put32, Fields, Network.Values, Offset;
    OffsetIs(45);
    ValuesFit(n);
    var a, b := R2DC_NAME + serialNumber, R2DC_NAME + serialNumber + Put32(configId);
    HoldsConcat(mem, 0, b, Block(n));
    HoldsConcat(mem, 0, a, Put32(configId));
    HoldsConcat(mem, 0, R2DC_NAME, serialNumber);
    ReadBack32(mem, 16, configId);
    forall k | 0 <= k < 45 && Width(k) == 4 ensures U32(mem, 20 + Offset(Widths(), k)) == n.Values()[k] {
      Field32(mem, 20, Widths(), n.Values(), k);
    }
    forall k | 0 <= k < 45 && Width(k) == 2 ensures U16(mem, 20 + Offset(Widths(), k)) == n.Values()[k] {
      Field16(mem, 20, Widths(), n.Values(), k);
    }
  }

  // ---- From the settings to the wire ----

  lemma {:induction false} HashOfNodeName()
    ensures Spells(NODE_NAME, "ros2sonic") && Hash(NODE_NAME) == 0x95D3_986D
  {
    hide Hash;
    HashOfNothing();
    var s: seq<byte> := [];
    s := Append(s, 0x72, 0x811C_9DC5, 0xC5, 0x72, 0x811C_9DB7, 0xF70C_4715);
    s := Append(s, 0x6F, 0xF70C_4715, 0x15, 0x6F, 0xF70C_477A, 0x6254_850E);
    s := Append(s, 0x73, 0x6254_850E, 0x0E, 0x73, 0x6254_857D, 0x480E_23C7);
    s := Append(s, 0x32, 0x480E_23C7, 0xC7, 0x32, 0x480E_23F5, 0x6342_9AAF);
    s := Append(s, 0x73, 0x6342_9AAF, 0xAF, 0x73, 0x6342_9ADC, 0x1DD9_C854);
    s := Append(s, 0x6F, 0x1DD9_C854, 0x54, 0x6F, 0x1DD9_C83B, 0x38D6_34E1);
    s := Append(s, 0x6E, 0x38D6_34E1, 0xE1, 0x6E, 0x38D6_348F, 0x0834_BD1D);
    s := Append(s, 0x69, 0x0834_BD1D, 0x1D, 0x69, 0x0834_BD74, 0x5F06_3D9C);
    s := Append(s, 0x63, 0x5F06_3D9C, 0x9C, 0x63, 0x5F06_3DFF, 0x95D3_986D);
    assert s == NODE_NAME;
  }

  /** The i-th character and all before it are there and are not the terminator. */
  ghost predicate Unterminated(s: seq<byte>, i: nat) {
    i < |s| && forall j :: 0 <= j <= i ==> s[j] != 0
  }

  lemma {:induction false} StrNCpyAt(s: seq<byte>, n: nat, i: nat)
    requires i < n
    ensures StrNCpy(s, n)[i] == if Unterminated(s, i) then s[i] else 0
    decreases n
  {
    if s == [] || s[0] == 0 {
      if i > 0 {
        StrNCpyAt([], n - 1, i - 1);
      }
    } else if i > 0 {
      StrNCpyAt(s[1..], n - 1, i - 1);
      assert Unterminated(s, i) <==> Unterminated(s[1..], i - 1) by {
        assert forall j :: 0 < j < |s| ==> s[j] == s[1..][j - 1];
      }
    }
  }

  /** The port modulo 2^16; a valid one arrives as it is. */
  predicate IsPort(v: u16, port: int) {
    (v as int - port) % 0x1_0000 == 0 && (0 <= port < 0x1_0000 ==> v == port)
  }

  /** Twelve bytes from address 4: the serial number up to its terminator, then zeros. */
  ghost predicate CarriesSerial(mem: Memory, serial: seq<byte>) {
    forall i :: 0 <= i < 12 ==> mem(4 + i) == if Unterminated(serial, i) then serial[i] else 0
  }

  /** The memory holds the settings of the node, each at its address. */
  ghost predicate CarriesSettings(mem: Memory, st: Settings, parse: AddressParser)
    requires st.Shaped()
  {
    && parse(st.subnetMask) == Some(U32(mem, 20)) && parse(st.gatewayIp) == Some(U32(mem, 24))
    && parse(st.guiIp) == Some(U32(mem, 28))
    && IsPort(U16(mem, 32), st.guiBaseport) && IsPort(U16(mem, 34), st.systemIndex)
    && (forall i :: 0 <= i < 4 ==>
          && parse(st.headIps[i]) == Some(U32(mem, 36 + 4 * i)) && IsPort(U16(mem, 52 + 2 * i), st.headBaseports[i])
          && parse(st.simboxIps[i]) == Some(U32(mem, 60 + 4 * i))
          && IsPort(U16(mem, 76 + 2 * i), st.simboxBaseports[i]))
    && forall i :: 0 <= i < 8 ==>
         && parse(st.daqIps[i]) == Some(U32(mem, 84 + 4 * i)) && IsPort(U16(mem, 116 + 2 * i), st.daqBaseports[i])
         && U32(mem, 132 + 4 * i) == 0
  }

  /** The packet the device gets: its name, the serial number, the settings, and as ID the exclusive or of the hash
      of "ros2sonic" and the hash of everything behind the ID. */
  ghost predicate IsPacketFor(r: seq<byte>, serial: seq<byte>, st: Settings, parse: AddressParser)
    requires st.Shaped()
  {
    && |r| == 164 && Spells(r[..4], "R2DC")
    && (forall mem :: Holds(mem, 0, r) ==> CarriesSerial(mem, serial) && CarriesSettings(mem, st, parse))
    && forall j :: 0 <= j < 4 ==>
         XorsTo(Bv([0x95, 0xD3, 0x98, 0x6D][j]), Bv(Put32(Hash(r[20..]))[j]), Bv(r[16 + j]))
  }

  /** The fields of a configuration at their addresses in the packet. */
  ghost predicate CarriesNetwork(mem: Memory, n: Network)
    requires n.Shaped()
  {
    && U32(mem, 20) == n.subnetMask && U32(mem, 24) == n.gatewayIp && U32(mem, 28) == n.guiIp
    && U16(mem, 32) == n.guiBaseport && U16(mem, 34) == n.system
    && (forall i :: 0 <= i < 4 ==>
          && U32(mem, 36 + 4 * i) == n.headIp[i] && U16(mem, 52 + 2 * i) == n.headBaseport[i]
          && U32(mem, 60 + 4 * i) == n.simboxIp[i] && U16(mem, 76 + 2 * i) == n.simboxBaseport[i])
    && forall i :: 0 <= i < 8 ==>
         && U32(mem, 84 + 4 * i) == n.daqIp[i] && U16(mem, 116 + 2 * i) == n.daqBaseport[i]
         && U32(mem, 132 + 4 * i) == n.spare[i]
  }

  lemma {:induction false} FieldOnWire(mem: Memory, serialNumber: seq<byte>, configId: u32, n: Network, k: nat)
    requires |serialNumber| == 12 && n.Shaped() && k < 45
    requires Holds(mem, 0, Serialized(serialNumber, configId, n))
    ensures Width(k) == 4 ==> U32(mem, 20 + At(k)) == n.Value(k)
    ensures Width(k) == 2 ==> U16(mem, 20 + At(k)) == n.Value(k)
  {
    hide Holds, U32, U16, Widths, Width, Serialized, Offset, At, Network.Value;
    SerializedReadsBack(mem, serialNumber, configId, n);
    OffsetIs(k);
    assert n.Values()[k] == n.Value(k);
  }

  lemma {:induction false} NetworkOnWire(mem: Memory, serialNumber: seq<byte>, configId: u32, n: Network)
    requires |serialNumber| == 12 && n.Shaped()
    requires Holds(mem, 0, Serialized(serialNumber, configId, n))
    ensures CarriesNetwork(mem, n)
  {
    hide Holds, U32, U16, Serialized, At, Width, Network.Value;
    forall k | 0 <= k < 45
      ensures Width(k) == 4 ==> U32(mem, 20 + At(k)) == n.Value(k)
      ensures Width(k) == 2 ==> U16(mem, 20 + At(k)) == n.Value(k)
    {
      FieldOnWire(mem, serialNumber, configId, n, k);
    }
    FirstFieldsOnWire(mem, n);
    forall i | 0 <= i < 4
      ensures U32(mem, 36 + 4 * i) == n.headIp[i] && U16(mem, 52 + 2 * i) == n.headBaseport[i]
      ensures U32(mem, 60 + 4 * i) == n.simboxIp[i] && U16(mem, 76 + 2 * i) == n.simboxBaseport[i]
    {
      DevicesOnWire(mem, n, i);
    }
    forall i | 0 <= i < 8
      ensures U32(mem, 84 + 4 * i) == n.daqIp[i] && U16(mem, 116 + 2 * i) == n.daqBaseport[i]
      ensures U32(mem, 132 + 4 * i) == n.spare[i]
    {
      DaqsOnWire(mem, n, i);
    }
  }

  /** Every field is found at its address. */
  ghost predicate AllAt(mem: Memory, n: Network)
    requires n.Shaped()
  {
    forall k :: 0 <= k < 45 ==>
      && (Width(k) == 4 ==> U32(mem, 20 + At(k)) == n.Value(k))
      && (Width(k) == 2 ==> U16(mem, 20 + At(k)) == n.Value(k))
  }

  lemma {:induction false} FirstFieldsOnWire(mem: Memory, n: Network)
    requires n.Shaped() && AllAt(mem, n)
    ensures U32(mem, 20) == n.subnetMask && U32(mem, 24) == n.gatewayIp && U32(mem, 28) == n.guiIp
    ensures U16(mem, 32) == n.guiBaseport && U16(mem, 34) == n.system
  {
    hide U32, U16;
    assert At(0) == 0 && At(1) == 4 && At(2) == 8 && At(3) == 12 && At(4) == 14;
  }

  lemma {:induction false} DevicesOnWire(mem: Memory, n: Network, i: nat)
    requires n.Shaped() && AllAt(mem, n) && i < 4
    ensures U32(mem, 36 + 4 * i) == n.headIp[i] && U16(mem, 52 + 2 * i) == n.headBaseport[i]
    ensures U32(mem, 60 + 4 * i) == n.simboxIp[i] && U16(mem, 76 + 2 * i) == n.simboxBaseport[i]
  {
    hide U32, U16;
    assert At(5 + i) == 16 + 4 * i && At(9 + i) == 32 + 2 * i && At(13 + i) == 40 + 4 * i && At(17 + i) == 56 + 2 * i;
  }

  lemma {:induction false} DaqsOnWire(mem: Memory, n: Network, i: nat)
    requires n.Shaped() && AllAt(mem, n) && i < 8
    ensures U32(mem, 84 + 4 * i) == n.daqIp[i] && U16(mem, 116 + 2 * i) == n.daqBaseport[i]
    ensures U32(mem, 132 + 4 * i) == n.spare[i]
  {
    hide U32, U16;
    assert At(21 + i) == 64 + 4 * i && At(29 + i) == 96 + 2 * i && At(37 + i) == 112 + 4 * i;
  }

  lemma {:induction false} PortArrives(port: int)
    ensures IsPort(ToU16(port), port)
  {
  }

  lemma {:induction false} NetworkIsSettings(mem: Memory, st: Settings, parse: AddressParser)
    requires st.Shaped() && Parses(st, parse) && CarriesNetwork(mem, NetworkOf(st, parse))
    ensures CarriesSettings(mem, st, parse)
  {
    hide U32, U16, ToU16, IsPort;
    var n := NetworkOf(st, parse);
    PortArrives(st.guiBaseport);
    PortArrives(st.systemIndex);
    forall i | 0 <= i < 4
      ensures parse(st.headIps[i]) == Some(U32(mem, 36 + 4 * i))
      ensures IsPort(U16(mem, 52 + 2 * i), st.headBaseports[i])
      ensures parse(st.simboxIps[i]) == Some(U32(mem, 60 + 4 * i))
      ensures IsPort(U16(mem, 76 + 2 * i), st.simboxBaseports[i])
    {
      assert U32(mem, 36 + 4 * i) == n.headIp[i] && U32(mem, 60 + 4 * i) == n.simboxIp[i];
      assert U16(mem, 52 + 2 * i) == n.headBaseport[i] && U16(mem, 76 + 2 * i) == n.simboxBaseport[i];
      PortArrives(st.headBaseports[i]);
      PortArrives(st.simboxBaseports[i]);
    }
    forall i | 0 <= i < 8
      ensures parse(st.daqIps[i]) == Some(U32(mem, 84 + 4 * i))
      ensures IsPort(U16(mem, 116 + 2 * i), st.daqBaseports[i]) && U32(mem, 132 + 4 * i) == 0
    {
      assert U32(mem, 84 + 4 * i) == n.daqIp[i] && U16(mem, 116 + 2 * i) == n.daqBaseport[i];
      assert U32(mem, 132 + 4 * i) == n.spare[i];
      PortArrives(st.daqBaseports[i]);
    }
  }

  /** The parsed settings, read back from memory that holds the packet. */
  lemma {:induction false} SettingsOnWire(mem: Memory, serial: seq<byte>, id: u32, st: Settings, parse: AddressParser)
    requires st.Shaped() && Parses(st, parse)
    requires Holds(mem, 0, Serialized(StrNCpy(serial, 12), id, NetworkOf(st, parse)))
    ensures CarriesSerial(mem, serial) && CarriesSettings(mem, st, parse)
  {
    hide Holds, Serialized, StrNCpy, CarriesNetwork, NetworkOf, Unterminated, CarriesSettings, Parses;
    var n := NetworkOf(st, parse);
    NetworkOnWire(mem, StrNCpy(serial, 12), id, n);
    NetworkIsSettings(mem, st, parse);
    SerializedReadsBack(mem, StrNCpy(serial, 12), id, n);
    SerialOnWire(mem, serial);
  }

  lemma {:induction false} SerialOnWire(mem: Memory, serial: seq<byte>)
    requires Holds(mem, 4, StrNCpy(serial, 12))
    ensures CarriesSerial(mem, serial)
  {
    hide StrNCpy;
    forall i | 0 <= i < 12 ensures mem(4 + i) == if Unterminated(serial, i) then serial[i] else 0 {
      StrNCpyAt(serial, 12, i);
    }
  }

  lemma {:induction false} PacketParts(serialNumber: seq<byte>, configId: u32, n: Network)
    requires |serialNumber| == 12 && n.Shaped()
    ensures var r := Serialized(serialNumber, configId, n);
            |r| == 164 && Spells(r[..4], "R2DC") && r[16..20] == Put32(configId) && r[20..] == Block(n)
  {
    hide Block, Put32;
    assert |Block(n)| == 144 by { BlockSize(n); }
  }

  lemma {:induction false} BlockSize(n: Network)
    requires n.Shaped()
    ensures |Block(n)| == 144
  {
    OffsetIs(45);
  }

  lemma {:induction false} NameBytes()
    ensures Put32(0x95D3_986D) == [0x95, 0xD3, 0x98, 0x6D]
  {
    BytesOf([0x95, 0xD3, 0x98, 0x6D], 0x95D3_986D);
  }

  /** What is sent is the packet for these settings. */
  lemma {:induction false} SentIsPacket(serial: seq<byte>, st: Settings, parse: AddressParser)
    requires st.Shaped() && Parses(st, parse)
    ensures var n := NetworkOf(st, parse);
            IsPacketFor(Serialized(StrNCpy(serial, 12), ConfigId(NODE_NAME, n), n), serial, st, parse)
  {
    hide Holds, Serialized, StrNCpy, NetworkOf, Parses, CarriesSerial, CarriesSettings, ConfigId, Hash, Put32, Bv,
         Block, XorsTo;
    var n := NetworkOf(st, parse);
    var id := ConfigId(NODE_NAME, n);
    var r := Serialized(StrNCpy(serial, 12), id, n);
    forall mem | Holds(mem, 0, r) ensures CarriesSerial(mem, serial) && CarriesSettings(mem, st, parse) {
      SettingsOnWire(mem, serial, id, st, parse);
    }
    PacketParts(StrNCpy(serial, 12), id, n);
    forall j | 0 <= j < 4
      ensures XorsTo(Bv([0x95, 0xD3, 0x98, 0x6D][j]), Bv(Put32(Hash(r[20..]))[j]), Bv(r[16 + j]))
    {
      assert r[16 + j] == r[16..20][j];
      IdIsXor(NODE_NAME, n, j);
      HashOfNodeName();
      NameBytes();
    }
  }

  // ---- What enters the config ID ----

  lemma {:induction false} BytesXor(x: byte, y: byte)
    ensures XorsTo(Bv(x), Bv(y), Bv(Xor8(x, y)))
  {
    hide Bv, Xor8, XorsTo;
    XorIsXor(x, y);
    XorBack(Bv(x), Bv(y));
  }

  lemma {:induction false} XorBytesAt(a: nat, b: nat, width: nat, j: nat)
    requires j < width
    ensures XorsTo(Bv(ToBigEndian(a, width)[j]), Bv(ToBigEndian(b, width)[j]),
                   Bv(ToBigEndian(XorBytes(a, b, width), width)[j]))
  {
    hide Bv, Xor8, XorsTo;
    if j == width - 1 {
      BytesXor(a % 256, b % 256);
    } else {
      XorBytesAt(a / 256, b / 256, width - 1, j);
    }
  }

  lemma {:induction false} XorWordAt(a: u32, b: u32, j: nat)
    requires j < 4
    ensures XorsTo(Bv(Put32(a)[j]), Bv(Put32(b)[j]), Bv(Put32(Xor32(a, b))[j]))
  {
    hide Bv, XorBytes, ToBigEndian, XorsTo, Pow256;
    XorBytesAt(a, b, 4, j);
  }

  /** Bit by bit, the ID is the exclusive or of the two hashes, so either hash is that of the ID and the other. */
  lemma {:induction false} IdIsXor(nodeName: seq<byte>, n: Network, j: nat)
    requires n.Shaped() && j < 4
    ensures XorsTo(Bv(Put32(Hash(nodeName))[j]), Bv(Put32(Hash(Block(n)))[j]), Bv(Put32(ConfigId(nodeName, n))[j]))
  {
    hide Bv, Hash, Block, Xor32, Put32, XorsTo;
    XorWordAt(Hash(nodeName), Hash(Block(n)), j);
  }

  /** Two node names share the ID of one configuration if and only if they share the hash. */
  lemma {:induction false} NamesShareIdIff(a: seq<byte>, b: seq<byte>, n: Network)
    requires n.Shaped()
    ensures ConfigId(a, n) == ConfigId(b, n) <==> Hash(a) == Hash(b)
  {
    hide Bv, Hash, Block, ConfigId, Put32, XorsTo;
    forall j | 0 <= j < 4
      ensures Put32(ConfigId(a, n))[j] == Put32(ConfigId(b, n))[j] <==> Put32(Hash(a))[j] == Put32(Hash(b))[j]
    {
      IdIsXor(a, n, j);
      IdIsXor(b, n, j);
      SameXors(Put32(Hash(a))[j], Put32(Hash(b))[j], Put32(Hash(Block(n)))[j], Put32(ConfigId(a, n))[j],
               Put32(ConfigId(b, n))[j]);
    }
    if ConfigId(a, n) == ConfigId(b, n) {
      SameWord(Hash(a), Hash(b));
    } else if Hash(a) == Hash(b) {
      SameWord(ConfigId(a, n), ConfigId(b, n));
    }
  }

  lemma {:induction false} SameXors(a: byte, b: byte, x: byte, c: byte, d: byte)
    requires XorsTo(Bv(a), Bv(x), Bv(c)) && XorsTo(Bv(b), Bv(x), Bv(d))
    ensures a == b <==> c == d
  {
    hide Bv;
    if a == b {
      BvInjective(c, d);
    }
    if c == d {
      BvInjective(a, b);
    }
  }

  lemma {:induction false} SameWord(a: u32, b: u32)
    requires forall j :: 0 <= j < 4 ==> Put32(a)[j] == Put32(b)[j]
    ensures a == b
  {
    hide ToBigEndian;
    assert Put32(a) == Put32(b);
    Width4();
    if a != b {
      BytesDiffer(a, b, 4);
    }
  }

  // ---- Sensitivity of the config ID ----

  lemma {:induction false} XorBytesCancels(a: nat, b: nat, c: nat, width: nat)
    requires b < Pow256(width) && c < Pow256(width) && XorBytes(a, b, width) == XorBytes(a, c, width)
    ensures b == c
  {
    hide Xor8;
    if width == 0 {
    } else {
      Xor8Cancels(a % 256, b % 256, c % 256);
      XorBytesCancels(a / 256, b / 256, c / 256, width - 1);
    }
  }

  lemma {:induction false} Xor32Cancels(a: u32, b: u32, c: u32)
    requires Xor32(a, b) == Xor32(a, c)
    ensures b == c
  {
    hide XorBytes;
    Width4();
    XorBytesCancels(a, b, c, 4);
  }

  /** Two structs that differ in field k only. */
  lemma {:induction false} FieldsSplit(ws: seq<nat>, vs: seq<nat>, us: seq<nat>, k: nat, n: nat)
    returns (before: seq<byte>, after: seq<byte>)
    requires Fit(ws, vs) && Fit(ws, us) && k < n <= |ws|
    requires forall i :: 0 <= i < |vs| && i != k ==> vs[i] == us[i]
    ensures Fields(ws, vs, n) == before + ToBigEndian(vs[k], ws[k]) + after
    ensures Fields(ws, us, n) == before + ToBigEndian(us[k], ws[k]) + after
    ensures before == Fields(ws, vs, k)
    decreases n
  {
    hide ToBigEndian, Pow256;
    if k == n - 1 {
      before, after := Fields(ws, vs, k), [];
      SameFields(ws, vs, us, k);
    } else {
      before, after := FieldsSplit(ws, vs, us, k, n - 1);
      var last := ToBigEndian(vs[n - 1], ws[n - 1]);
      assert before + ToBigEndian(vs[k], ws[k]) + after + last == before + ToBigEndian(vs[k], ws[k]) + (after + last);
      assert before + ToBigEndian(us[k], ws[k]) + after + last == before + ToBigEndian(us[k], ws[k]) + (after + last);
      after := after + last;
    }
  }

  lemma {:induction false} SameFields(ws: seq<nat>, vs: seq<nat>, us: seq<nat>, n: nat)
    requires Fit(ws, vs) && Fit(ws, us) && n <= |ws|
    requires forall i :: 0 <= i < n ==> vs[i] == us[i]
    ensures Fields(ws, vs, n) == Fields(ws, us, n)
  {
    hide ToBigEndian, Pow256;
    if n == 0 {
    } else {
      SameFields(ws, vs, us, n - 1);
    }
  }

  /** Different values have different bytes. */
  lemma {:induction false} BytesDiffer(v: nat, u: nat, width: nat)
    requires v < Pow256(width) && u < Pow256(width) && v != u
    ensures ToBigEndian(v, width) != ToBigEndian(u, width)
  {
    hide ToBigEndian, Pow256;
    BigEndianRoundTrip(v, width);
    BigEndianRoundTrip(u, width);
  }

  /** Two configurations that differ in field k only. */
  ghost predicate DifferOnlyIn(n: Network, m: Network, k: nat) {
    && n.Shaped() && m.Shaped() && k < 45 && n.Values()[k] != m.Values()[k]
    && forall i :: 0 <= i < 45 && i != k ==> n.Values()[i] == m.Values()[i]
  }

  /** The octets in which the address in field k differs. */
  ghost function ChangedOctets(n: Network, m: Network, k: nat): set<nat>
    requires n.Shaped() && m.Shaped() && k < 45 && Width(k) == 4
  {
    ValuesFit(n);
    ValuesFit(m);
    Changed(ToBigEndian(n.Values()[k], Width(k)), ToBigEndian(m.Values()[k], Width(k)))
  }

  /** Sensitivity: configurations whose bytes differ only within three adjacent ones never share an ID, even where
      these belong to two or three fields. */
  lemma {:induction false} WindowChangesId(nodeName: seq<byte>, n: Network, m: Network, before: seq<byte>,
                                           s: seq<byte>, t: seq<byte>, after: seq<byte>)
    requires n.Shaped() && m.Shaped() && |s| == |t| <= 3 && s != t
    requires Block(n) == before + s + after && Block(m) == before + t + after
    ensures ConfigId(nodeName, n) != ConfigId(nodeName, m)
  {
    hide Hash, Xor32, Block;
    WindowDiffers(before, s, t, after);
    if ConfigId(nodeName, n) == ConfigId(nodeName, m) {
      Xor32Cancels(Hash(nodeName), Hash(Block(n)), Hash(Block(m)));
    }
  }

  /** Changing one port or the system index, or one address within three adjacent octets or in
      the first and the last octet only, always changes the config ID. */
  lemma {:induction false} OneFieldChangesId(nodeName: seq<byte>, n: Network, m: Network, k: nat)
    requires DifferOnlyIn(n, m, k) && (Width(k) == 4 ==> AlwaysSeen(ChangedOctets(n, m, k)))
    ensures ConfigId(nodeName, n) != ConfigId(nodeName, m)
  {
    hide Network.Values, ToBigEndian, Hash, Xor32, Fields, Pow256, AlwaysSeen, Changed;
    ValuesFit(n);
    ValuesFit(m);
    var v, u, w := n.Values()[k], m.Values()[k], Width(k);
    var before, after := FieldsSplit(Widths(), n.Values(), m.Values(), k, 45);
    BytesDiffer(v, u, w);
    if w == 4 {
      SeenChangeDiffers(before, ToBigEndian(v, w), ToBigEndian(u, w), after);
    } else {
      WindowDiffers(before, ToBigEndian(v, w), ToBigEndian(u, w), after);
    }
    if ConfigId(nodeName, n) == ConfigId(nodeName, m) {
      Xor32Cancels(Hash(nodeName), Hash(Block(n)), Hash(Block(m)));
    }
  }

  /** Whatever the node name and the rest of the configuration, changing the address in field k in exactly these
      octets changes the config ID. */
  ghost predicate AlwaysChangesId(k: nat, octets: set<nat>)
    requires k < 45 && Width(k) == 4
  {
    forall nodeName, n, m :: DifferOnlyIn(n, m, k) && ChangedOctets(n, m, k) == octets ==>
      ConfigId(nodeName, n) != ConfigId(nodeName, m)
  }

  /** For every address: exactly the changes within three adjacent octets and those of the first and the last
      octet are always seen; every other set of octets has a change that leaves the ID as it is. */
  lemma {:induction false} AlwaysChangesIdIff(k: nat, octets: set<nat>)
    requires k < 45 && Width(k) == 4
    requires octets != {} && octets <= {0, 1, 2, 3}
    ensures AlwaysChangesId(k, octets) <==> AlwaysSeen(octets)
  {
    hide ConfigId, ChangedOctets, Width;
    if AlwaysSeen(octets) {
      forall nodeName, n, m | DifferOnlyIn(n, m, k) && ChangedOctets(n, m, k) == octets
        ensures ConfigId(nodeName, n) != ConfigId(nodeName, m)
      {
        OneFieldChangesId(nodeName, n, m, k);
      }
    } else {
      var n, m := UnseenChange(k, octets);
      assert ConfigId(NODE_NAME, n) == ConfigId(NODE_NAME, m);
    }
  }

  // ---- A change that is not seen, in any address ----

  lemma {:induction false} Bounds(vs: seq<nat>)
    requires Fit(Widths(), vs)
    ensures forall i :: 0 <= i < 45 ==> vs[i] < if Width(i) == 2 then 0x1_0000 else 0x1_0000_0000
  {
    hide Pow256;
    Width2();
    Width4();
    forall i | 0 <= i < 45 ensures vs[i] < if Width(i) == 2 then 0x1_0000 else 0x1_0000_0000 {
      assert vs[i] < Pow256(Widths()[i]);
    }
  }

  /** The configuration with these fields. */
  function FromValues(vs: seq<nat>): (n: Network)
    requires Fit(Widths(), vs)
    ensures n.Shaped()
  {
    Bounds(vs);
    Network(vs[0], vs[1], vs[2], vs[3], vs[4],
            seq(SYSTEMS, i requires 0 <= i < SYSTEMS => vs[5 + i]),
            seq(SYSTEMS, i requires 0 <= i < SYSTEMS => vs[9 + i]),
            seq(SYSTEMS, i requires 0 <= i < SYSTEMS => vs[13 + i]),
            seq(SYSTEMS, i requires 0 <= i < SYSTEMS => vs[17 + i]),
            seq(DAQS, i requires 0 <= i < DAQS => vs[21 + i]),
            seq(DAQS, i requires 0 <= i < DAQS => vs[29 + i]),
            seq(DAQS, i requires 0 <= i < DAQS => vs[37 + i]))
  }

  lemma {:induction false} FromValuesHas(vs: seq<nat>)
    requires Fit(Widths(), vs)
    ensures FromValues(vs).Values() == vs
  {
    hide Pow256;
  }

  /** All fields are zero but the one before field k, which steers the hash to the low byte of the offset basis. */
  lemma {:induction false} SteeredValues(k: nat) returns (vs: seq<nat>)
    requires k < 45
    ensures Fit(Widths(), vs)
    ensures HashFrom(OFFSET_BASIS, Fields(Widths(), vs, k)) % 256 == OFFSET_BASIS % 256
  {
    hide HashFrom, Width, ToBigEndian;
    var zeros := seq(45, _ => 0);
    vs := zeros;
    if k == 0 {
      assert HashFrom(OFFSET_BASIS, []) == OFFSET_BASIS by { HashNothing(); }
    } else {
      WidthAtLeast2(k - 1);
      var front := Fields(Widths(), zeros, k - 1) + ToBigEndian(0, Width(k - 1) - 1);
      var b := SteeringByte(HashFrom(OFFSET_BASIS, front));
      vs := zeros[k - 1 := b];
      assert b < Pow256(Width(k - 1)) by { ByteFits(b, Width(k - 1)); }
      SameFields(Widths(), vs, zeros, k - 1);
      LastByte(b, Width(k - 1));
      assert Fields(Widths(), vs, k) == front + [b];
      HashFromConcat(OFFSET_BASIS, front, [b]);
      HashUnroll(HashFrom(OFFSET_BASIS, front), [b]);
    }
  }

  lemma {:induction false} HashNothing()
    ensures HashFrom(OFFSET_BASIS, []) == OFFSET_BASIS
  {
  }

  lemma {:induction false} WidthAtLeast2(i: nat)
    ensures Width(i) >= 2
  {
  }

  lemma {:induction false} ByteFits(b: byte, width: nat)
    requires width > 0
    ensures b < Pow256(width)
  {
    assert Pow256(width) == Pow256(width - 1) * 256;
  }

  lemma {:induction false} LastByte(b: byte, width: nat)
    requires width > 0
    ensures ToBigEndian(b, width) == ToBigEndian(0, width - 1) + [b]
  {
  }

  /** Two configurations that differ in the address k only, in exactly these octets, and share every ID. */
  lemma {:induction false} UnseenChange(k: nat, octets: set<nat>) returns (n: Network, m: Network)
    requires k < 45 && Width(k) == 4
    requires octets <= {0, 1, 2, 3} && !AlwaysSeen(octets)
    ensures DifferOnlyIn(n, m, k) && ChangedOctets(n, m, k) == octets
    ensures forall nodeName :: ConfigId(nodeName, n) == ConfigId(nodeName, m)
  {
    hide HashFrom, Width, ToBigEndian, AlwaysSeen, Changed, Xor32, FromValues, Pow256, BigEndian;
    var vs := SteeredValues(k);
    var (s, t) := CollidingPair(octets);
    PairChanges(octets);
    BigEndianOnto(s);
    BigEndianOnto(t);
    var us, ws := vs[k := BigEndian(s)], vs[k := BigEndian(t)];
    FromValuesHas(us);
    FromValuesHas(ws);
    n, m := FromValues(us), FromValues(ws);
    var before, after := FieldsSplit(Widths(), us, ws, k, 45);
    SameFields(Widths(), us, vs, k);
    PairCollides(octets, before, after);
  }

  /** The ID is called unique, but these pairs of subnet masks share every ID, whatever the rest of the
      configuration and the node name. */
  lemma {:induction false} IdIsNotUnique(nodeName: seq<byte>, n: Network)
    requires n.Shaped()
    ensures ConfigId(nodeName, n.(subnetMask := 0x00E6_0568)) == ConfigId(nodeName, n.(subnetMask := 0x0670_8003))
    ensures ConfigId(nodeName, n.(subnetMask := 0x3CC0_1500)) == ConfigId(nodeName, n.(subnetMask := 0x6CF9_1545))
    ensures ConfigId(nodeName, n.(subnetMask := 0x604D_F600)) == ConfigId(nodeName, n.(subnetMask := 0x854D_00D5))
  {
    hide Hash, Xor32, Block;
    var rest := BlockTail(n);
    MaskFirst(n, rest, 0x00E6_0568, [0x00, 0xE6, 0x05, 0x68]);
    MaskFirst(n, rest, 0x0670_8003, [0x06, 0x70, 0x80, 0x03]);
    MaskFirst(n, rest, 0x3CC0_1500, [0x3C, 0xC0, 0x15, 0x00]);
    MaskFirst(n, rest, 0x6CF9_1545, [0x6C, 0xF9, 0x15, 0x45]);
    MaskFirst(n, rest, 0x604D_F600, [0x60, 0x4D, 0xF6, 0x00]);
    MaskFirst(n, rest, 0x854D_00D5, [0x85, 0x4D, 0x00, 0xD5]);
    FourBytesCollide(rest);
  }

  lemma {:induction false} BytesOf(s: seq<byte>, v: nat)
    requires |s| == 4
    requires v == 0x100_0000 * (s[0] as nat) + 0x1_0000 * (s[1] as nat) + 0x100 * (s[2] as nat) + s[3]
    ensures ToBigEndian(v, 4) == s
  {
    BigEndian4(s);
    BigEndianOnto(s);
  }

  /** The hashed block starts with the subnet mask. */
  lemma {:induction false} BlockTail(n: Network) returns (rest: seq<byte>)
    requires n.Shaped()
    ensures forall mask: u32 :: Block(n.(subnetMask := mask)) == ToBigEndian(mask, 4) + rest
  {
    hide Block;
    MaskInBlock(n, 0);
    rest := Block(n)[4..];
    forall mask: u32 ensures Block(n.(subnetMask := mask)) == ToBigEndian(mask, 4) + rest {
      MaskInBlock(n, mask);
    }
  }

  lemma {:induction false} MaskInBlock(n: Network, mask: u32)
    requires n.Shaped()
    ensures |Block(n)| >= 4 && Block(n.(subnetMask := mask)) == ToBigEndian(mask, 4) + Block(n)[4..]
  {
    hide Fields, ToBigEndian;
    var m := n.(subnetMask := mask);
    ValuesFit(n);
    ValuesFit(m);
    var before, after := FieldsSplit(Widths(), n.Values(), m.Values(), 0, 45);
    assert before == [] by { assert Offset(Widths(), 0) == 0; }
    assert Block(n) == ToBigEndian(n.subnetMask, 4) + after;
  }

  lemma {:induction false} MaskFirst(n: Network, rest: seq<byte>, mask: u32, s: seq<byte>)
    requires n.Shaped() && |s| == 4
    requires forall other: u32 :: Block(n.(subnetMask := other)) == ToBigEndian(other, 4) + rest
    requires mask == 0x100_0000 * (s[0] as nat) + 0x1_0000 * (s[1] as nat) + 0x100 * (s[2] as nat) + s[3]
    ensures Block(n.(subnetMask := mask)) == s + rest
  {
    hide Block, ToBigEndian;
    BytesOf(s, mask);
  }
}
