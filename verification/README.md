# Verification of ros2sonic

This project models the part of the ros2sonic driver that turns R2Sonic datagrams into messages and
parameters into command packets, and proves properties of the model with Dafny 4.11. Nothing of the driver
was executed.

`dafny verify dfyconfig.toml --resource-limit 2000000 --verification-time-limit 0` checks everything.

## What is modelled

- `Bits`, `Words`, `Bytes`: bytes and bit vectors, memory as a total function from addresses (a C++ accessor follows
  a pointer that nothing bounds), big-endian fields, the byte-reversal loop, packed structs.
- `Sections`, `Packets`: the chain of optional sections, and the AID0 packet decoded from memory, together
  with the datagrams the sonar writes.
- `AcousticImage`: the tile scatter and the class `Assembler`, in the widths of the source. The functions on
  values (`AfterPacket`, `Scatter`) are total; the class asks for `Defined`, which says that the loops of the
  source end, stay in the buffer and do not overflow an int.
- `Reassembly`: what sequences of packets do to one image.
- `Node`, `Runs`, `RoundTrip`: the map of assemblers, the class `R2SonicNode`, all its runs, and the way of an
  image from matrix to datagrams to published message.
- `Quality`, `Detections`, `BathyPackets`: Q0 flags, the BTH0 conversion with the class `SonarDetections`, and the
  BTH0 datagrams the sonar writes.
- `Fnv`, `FourBytes`, `NetworkConfig`: the FNV-1a hash (draft-eastlake-fnv, section 2), which changes of four bytes
  it always sees, and the configuration packet `R2DC`.
- `Commands`, `Parameters`: the `CmdSet` packet, the command tables and their updates.

Imperative sources are classes and loops whose postconditions name a function on values; the results about
those functions are lemmas. A datatype `Step` holds a packet together with the value that uninitialised memory
has when `std::map::operator[]` creates an assembler (`h0_data_` has no initialiser), so runs quantify over it.

## Main results

1. Last writer wins, on whole runs (`Reassembly.LastWriterWins`, `Runs.PublishedPixel`).
2. Cut any matrix into tile datagrams, interleave them with any other pings: it is published once, is the matrix,
   and says what the header datagram says (`RoundTrip.CutAndReassemble`), and the node object then holds it
   (`RoundTrip.ReceiveImage`). In general a published image is the matrix exactly if the tiles up to the first that
   reaches the last bin cover every nonzero cell, and it is the only one exactly if what comes later is quiet (`RoundTrip.PublishedOnce`). The datagrams may
   arrive in any order (`RoundTrip.AnyArrivalOrder`).
3. Non-interference without a hypothesis: what the node does for one ping is the life of a lone assembler that is
   discarded at the evictions (`Runs.LifeOfPing`); it is a lone assembler throughout exactly if there are none
   (`Runs.AloneIffUndisturbed`). Provenance, purity and boundedness of the assembler map over every run (`Runs`).
4. Any two configurations whose bytes differ only within three adjacent bytes have different config IDs
   (`NetworkConfig.WindowChangesId`). For every address: a change of a given set of octets is always seen if and only
   if they are within three adjacent ones or are the first and the last (`NetworkConfig.AlwaysChangesIdIff`). The
   case of the first and the last is a question about short vectors of a lattice (`FourBytes.FirstAndLastDiffer`).
5. The section chain reads back what was written if and only if the stale bytes behind it are clear
   (`Sections.ChainRoundTrip`); so a BTH0 datagram ends up in the message (`BathyPackets.Detect`).

6. From the settings of the node to the bytes it sends, and from there to what a device reads: configuration packets
   (`NetworkConfig.SendNetworkConfig`) and command packets (`Parameters.ParameterStore.SendSimCmds`,
   `Parameters.ParameterStore.SendHeadCmds`).

Where the code does not do what its documentation says, the exact condition is proved, with an input on which it
fails:

- The receive buffer is reused and no accessor looks at the packet size, so an absent trailing section may be
  found in stale bytes (`Sections.ChainRoundTrip`, `Packets.HeaderDatagramDecodes`; `BathyPackets.StaleFlagsReject`,
  `Packets.StaleTileInHeader`).
- `magnitude` takes a 16-bit bin number, so bins from 65536 on are misread, and so are the beams after the beam
  counter has wrapped (`AcousticImage.TileReadCorrectly`; `AcousticImage.HighBinMisread`).
- The 16-bit beam counter must be able to pass its bound (`AcousticImage.BeamLoopEnds`;
  `AcousticImage.LastBeamNeverEnds`).
- Completion looks at bins only: beam groups publish too early (`RoundTrip.PublishedOnce`;
  `RoundTrip.BeamGroupsPublishTooEarly`).
- Tiles that come after the publication make a new assembler over uninitialised memory; if that holds the ping
  number, the ping is published again (`RoundTrip.QuietIff`; `RoundTrip.PublishedTwice`).
- `ping_no - 10` wraps for the first ten pings, and pruning then removes young messages
  (`Node.PruneIsRecent`; `Runs.YoungPingDiscarded`).
- The config ID is documented as unique; some changes of one address leave it as it is
  (`NetworkConfig.AlwaysChangesIdIff`; `NetworkConfig.IdIsNotUnique`).
- A single beam with A0 angles is reported at angle zero (`Detections.FirstBeamAtAngleFirst`;
  `BathyPackets.SingleBeamAtZero`).
- A parameter call reported as failed may have changed the tables (`Parameters.CallSucceedsIff`,
  `Parameters.CallChangesNothingIff`; `Parameters.FailedCallChanges`).

## Model

| member | source | states |
|---|---|---|
| `Bytes.RevPrimitive` | r2sonic/include/r2sonic/sections/primatives.hpp:21-38 | the byte-reversal loop reverses the bytes of any width |
| `Bytes.ReversedInvolution` | r2sonic/include/r2sonic/sections/primatives.hpp:21-38 | reversing twice is the identity |
| `Bytes.BigEndianPrimative.Get` | r2sonic/include/r2sonic/sections/primatives.hpp:53-55 | on a little-endian host get is the base-256 value of the wire bytes |
| `Bytes.BigEndianPrimative.Set` | r2sonic/include/r2sonic/sections/primatives.hpp:56-58 | set stores the big-endian bytes of its argument |
| `Bytes.GetIsBigEndian` | r2sonic/include/r2sonic/sections/primatives.hpp:21-55 | reverse-then-read-little-endian equals big-endian reading, at every width |
| `Bytes.SetIsBigEndian` | r2sonic/include/r2sonic/sections/primatives.hpp:56-58 | write-little-endian-then-reverse equals big-endian writing, at every width |
| `Bytes.BigEndianRoundTrip` | r2sonic/include/r2sonic/sections/primatives.hpp:45-58 | get after set is the identity |
| `Bytes.BigEndianOnto` | r2sonic/include/r2sonic/sections/primatives.hpp:45-58 | set after get is the identity |
| `Sections.ChainLetters` | r2sonic/include/r2sonic/packets/bth0.hpp:30-101 | the letters each accessor of the two packets looks for, in nesting order |
| `Sections.AccessorsFind` | r2sonic/include/r2sonic/packets/bth0.hpp:30-101 | every accessor starts after the present earlier sections and exists exactly if it was written |
| `Sections.ChainRoundTrip` | r2sonic/include/r2sonic/sections/section.hpp:40-75 | for every subset of optional sections the accessors recover what was written iff the tail is clear |
| `Sections.StaleBytesMislead` | r2sonic/include/r2sonic/packets/packet.hpp:42-58 | whatever the mini header, whenever the last section is absent some buffer holding the datagram misleads an accessor |
| `Packets.TileAddresses` | r2sonic/include/r2sonic/sections/m0.hpp:15-48 | the absolute addresses of the M0 fields and magnitudes of a packet that starts with M0 |
| `Packets.HeaderAddresses` | r2sonic/include/r2sonic/sections/h0.hpp:15-42 | the absolute addresses of the H0 fields of a packet that starts with H0 |
| `Packets.PingAddresses` | r2sonic/include/r2sonic/packets/aid0.hpp:103-112 | the ping a packet is filed under, by address |
| `Packets.TileDatagramDecodes` | r2sonic/include/r2sonic/packets/aid0.hpp:63-86 | a tile datagram decodes to its M0 fields and payload and nothing else, whatever follows it |
| `Packets.HeaderDatagramDecodes` | r2sonic/include/r2sonic/sections/h0.hpp:15-42 | a header datagram decodes to its H0 fields and A1, and to no M0 iff the stale bytes do not read M0 |
| `Packets.HeaderAnglesDecode` | r2sonic/include/r2sonic/sections/a1.hpp:22-31 | the i-th beam angle is the i-th float after the reserved bytes |
| `Packets.StaleQualityFlags` | r2sonic/include/r2sonic/packets/bth0.hpp:30-101 | every accepted BTH0 datagram without Q0 has a buffer in which Q0 is seen, while every accessor stands at its place |
| `Packets.StaleTileInHeader` | r2sonic/include/r2sonic/packets/aid0.hpp:63-86 | every header datagram has a buffer in which an M0 section is seen that nobody sent |
| `AcousticImage.MagnitudeIsLocal` | r2sonic/include/r2sonic/sections/m0.hpp:40-48 | the computed address is the tile-local one iff the bin fits 16 bits |
| `AcousticImage.TileReadCorrectly` | r2sonic/src/conversions.cpp:165-172 | every byte the nested loops read, wrapping counters included, is the one at its payload position iff the tile is empty or its bins and beams fit 16 bits |
| `AcousticImage.HighBinMisread` | r2sonic/include/r2sonic/sections/m0.hpp:40-48 | an input on which a byte is read from the wrong place |
| `AcousticImage.BeamLoopEnds` | r2sonic/src/conversions.cpp:165 | the u16 beam loop ends iff FirstBeam + Beams is at most 65535 |
| `AcousticImage.LastBeamNeverEnds` | r2sonic/src/conversions.cpp:165 | an input on which the beam loop does not end |
| `AcousticImage.InBoundsIsEveryIndex` | r2sonic/src/conversions.cpp:156-172 | a check on the tile header says exactly that the beam loop ends, that every written index is in the buffer and in an int, and that the product in magnitude() is in an int |
| `AcousticImage.Assembler.AddPacket` | r2sonic/src/conversions.cpp:112-182 | the in-place method computes AfterPacket of the old state, result included |
| `AcousticImage.TileEffect` | r2sonic/src/conversions.cpp:138-181 | an accepted tile keeps everything the header said, notes the bins only when it sizes the buffer and the sample rate only when it completes the image |
| `AcousticImage.Assembler.AddHeader` | r2sonic/src/conversions.cpp:114-135 | the header branch computes AfterHeader, also when it throws half way |
| `AcousticImage.Assembler.FillBeams` | r2sonic/src/conversions.cpp:124-131 | the beam loop fills the three vectors or throws in its first iteration |
| `AcousticImage.Assembler.ScatterInto` | r2sonic/src/conversions.cpp:165-172 | the nested loops write Scatter of the old buffer |
| `AcousticImage.Assembler.ScatterBeam` | r2sonic/src/conversions.cpp:166-171 | the inner loop writes the bins of one beam |
| `Reassembly.CellsDistinct` | r2sonic/src/conversions.cpp:167 | distinct bin and beam pairs have distinct image indices |
| `Reassembly.ScatterPixel` | r2sonic/src/conversions.cpp:165-172 | the scatter writes each cell of the rectangle with its tile-local byte and no other cell |
| `Reassembly.FeedSize` | r2sonic/src/conversions.cpp:156-163 | the buffer has the size of the geometry once a tile was accepted, and is untouched before |
| `Reassembly.LastWriterWins` | r2sonic/src/conversions.cpp:138-172 | after any packets each cell holds the byte of the last accepted tile covering it |
| `Reassembly.LastHeaderWins` | r2sonic/src/conversions.cpp:114-135 | after any packets the image has the stamp, beams, steering and angles of the last header |
| `Reassembly.TilesKeepHead` | r2sonic/src/conversions.cpp:138-181 | without headers everything a header says stays as it is |
| `Reassembly.BinsNoted` | r2sonic/src/conversions.cpp:158-160 | samples_per_beam is the bins iff a tile had to size the buffer |
| `Reassembly.OrderIndependence` | r2sonic/src/conversions.cpp:156-172 | the same agreeing tiles, with anything behind their payload, in any order and multiplicity leave the same bytes |
| `Reassembly.DisjointTilesAgree` | r2sonic/src/conversions.cpp:156-172 | disjoint tiles meet the hypothesis of order independence |
| `Reassembly.ReassembledIff` | r2sonic/src/conversions.cpp:138-181 | tiles cut from a matrix reassemble it iff they cover every nonzero cell |
| `Node.PruneIsRecent` | r2sonic/src/r2sonic_node.cpp:437-449 | pruning removes exactly what is more than ten pings old iff the ping is at least 10 or no entry is hit by the wrap |
| `Node.R2SonicNode.CleanMsgMap` | r2sonic/src/r2sonic_node.cpp:437-449 | the erasing loop in key order leaves exactly the keys at or above the threshold |
| `Node.R2SonicNode.Assemble` | r2sonic/src/r2sonic_node.cpp:240-247 | find or create, feed, publish, erase and prune, as one step on the map of values |
| `Node.R2SonicNode.Publish` | r2sonic/src/r2sonic_node.cpp:223-252 | from the receive buffer: wrong types are ignored, raw bytes and image are published as configured |
| `Node.RawPacketIsWhole` | r2sonic/src/conversions.cpp:107-110 | the raw message is the memory from the start of the packet, as long as its size field says |
| `Node.RawPacketIsDatagram` | r2sonic/src/conversions.cpp:107-110 | a datagram that states its length is republished byte for byte |
| `Runs.OwnStep` | r2sonic/src/r2sonic_node.cpp:240-247 | a packet does to its ping what it does to a lone assembler |
| `Runs.OtherStep` | r2sonic/src/r2sonic_node.cpp:240-247 | a packet of another ping changes nothing for this one iff it does not evict its entry |
| `Runs.LifeOfPing` | r2sonic/src/r2sonic_node.cpp:223-252 | over any interleaving the node does for one ping what a lone assembler does that is discarded at the evictions |
| `Runs.EventsHoldOnly` | r2sonic/src/r2sonic_node.cpp:230-247 | the packets among the events of a ping are all packets of the ping, in order |
| `Runs.NonInterference` | r2sonic/src/r2sonic_node.cpp:223-252 | over any interleaving the node does for one ping what a lone assembler does |
| `Runs.AloneIffUndisturbed` | r2sonic/src/r2sonic_node.cpp:223-252 | a lone assembler explains the node at every moment iff no publication evicts an entry of the ping |
| `Runs.NearbyIsUndisturbed` | r2sonic/src/r2sonic_node.cpp:437-449 | a ping that is complete in the end is undisturbed if no packet between two of its own is of another ping that could prune it |
| `Runs.CloseIsUndisturbed` | r2sonic/src/r2sonic_node.cpp:437-449 | among pings from ten on and at most ten ahead a ping is never disturbed |
| `Runs.Provenance` | r2sonic/src/r2sonic_node.cpp:238-248 | every entry is what a new assembler becomes when fed the latest packets of its ping, none left out; every published image comes from packets of its ping in a row, published by the first that completes it |
| `Runs.FedFromOnePing` | r2sonic/src/conversions.cpp:117-142 | fed with one ping, an assembler stores that ping once a header came and accepts tiles of that ping only |
| `Runs.Purity` | r2sonic/src/r2sonic_node.cpp:230-247 | entries with a header store their key; published images are tiles of one ping with its header |
| `Runs.PublishedPixel` | r2sonic/src/r2sonic_node.cpp:240-247 | every cell of every published image is the last byte of its own ping, or zero |
| `Runs.PublishedHeader` | r2sonic/src/r2sonic_node.cpp:240-247 | every published image has what the last header of its packets says, and the sample rate of that header and of the completing tile |
| `Runs.PublishedWithoutHeader` | r2sonic/src/conversions.cpp:138-181 | an image published without a header has an empty stamp and no beams |
| `Runs.ReceiveAll` | r2sonic/src/datatype_receiver.cpp:12-19 | handling datagrams one after the other is the run of their decoded packets |
| `Runs.AtMostTenRemain` | r2sonic/src/r2sonic_node.cpp:241-246 | with ascending pings at most ten assemblers remain after publishing a ping from 10 on |
| `Runs.YoungPingDiscarded` | r2sonic/include/r2sonic/r2sonic_node.hpp:274-281 | a run in which publishing ping 5 discards ping 20 |
| `RoundTrip.LonePublishes` | r2sonic/src/conversions.cpp:114-181 | a header and tiles of which only the last reaches the last bin publish what the tiles have assembled, under the header |
| `RoundTrip.QuietIff` | r2sonic/src/conversions.cpp:139-142 | whatever happens to a ping without an entry, evictions included, it publishes nothing iff no tile that reaches the last bin finds its ping number stored by a header or by uninitialised memory |
| `RoundTrip.PublishedTwice` | r2sonic/src/r2sonic_node.cpp:236-247 | an input that is published twice |
| `RoundTrip.PublishedOnce` | r2sonic/src/r2sonic_node.cpp:240-247 | among other pings: published on the first tile that reaches the last bin unless evicted before, and exactly once iff what comes later is quiet; with what the header says; equal to the matrix iff the tiles cover its nonzero cells |
| `RoundTrip.TileDatagramIsCut` | r2sonic/include/r2sonic/sections/m0.hpp:15-48 | the bytes of a tile of a matrix decode to a tile cut from that matrix |
| `RoundTrip.CutAndReassemble` | r2sonic/src/r2sonic_node.cpp:223-252 | any matrix cut into datagrams is published once, is the matrix, and says what the bytes of the header datagram say |
| `RoundTrip.ReceiveImage` | r2sonic/src/r2sonic_node.cpp:223-252 | the node object fed with the datagrams, among others, has published the matrix once |
| `RoundTrip.AnyArrivalOrder` | r2sonic/src/conversions.cpp:156-172 | tile datagrams of a matrix in any order and multiplicity, before any stale bytes, leave the same image bytes |
| `RoundTrip.BeamGroupsPublishTooEarly` | r2sonic/src/conversions.cpp:174-178 | an input, all tiles delivered in order, for which the published image is incomplete |
| `Quality.DecodersAgree` | r2sonic/include/r2sonic/sections/q0.hpp:27-32 | read_be_u32, get and the base-256 value of four bytes agree |
| `Quality.FlagIsByteNibble` | r2sonic/include/r2sonic/sections/q0.hpp:43-52 | the shifted word form is the left or right nibble of byte beam / 2 |
| `Quality.PackedReadsBack` | r2sonic/include/r2sonic/sections/q0.hpp:35-52 | packing flags and reading them back is the identity, with all reads inside the words |
| `Quality.DetectionBits` | r2sonic/include/r2sonic/sections/q0.hpp:54-63 | phase detection is the leftmost bit of the nibble, magnitude detection the next |
| `Quality.GoodIsAtLeastFour` | r2sonic/src/conversions.cpp:94-98 | phase or magnitude detection holds exactly for flags from four on |
| `Detections.StepSumBound` | r2sonic/src/conversions.cpp:63 | the 32-bit running sum cannot wrap |
| `Detections.NextAngle` | r2sonic/src/conversions.cpp:82-90 | the angle of one beam with the running 32-bit sum is the documented closed formula |
| `Detections.BeamFlag` | r2sonic/src/conversions.cpp:94-101 | a beam is good unless Q0 is there and its flag is below four |
| `Detections.SonarDetections.Fill` | r2sonic/src/conversions.cpp:21-103 | the loop fills every vector of the message, per beam |
| `Detections.StepAnglesAscending` | r2sonic/include/r2sonic/sections/a2.hpp:34-42 | A2 angles do not decrease when the factor is not negative |
| `Detections.EqualAnglesInterpolate` | r2sonic/src/conversions.cpp:53-60 | A0 angles run from first to last in equal steps |
| `Detections.FirstBeamAtAngleFirst` | r2sonic/src/conversions.cpp:56 | beam 0 gets AngleFirst iff there is more than one beam or it is zero |
| `BathyPackets.Detect` | r2sonic/src/conversions.cpp:21-103 | the message holds what the sonar wrote into a BTH0 datagram of any sections |
| `BathyPackets.AngleReadsBack` | r2sonic/include/r2sonic/sections/a2.hpp:34-42 | the angle is the documented formula over the written A2 or A0 values |
| `BathyPackets.GoodReadsBack` | r2sonic/include/r2sonic/sections/q0.hpp:35-63 | a beam is good iff its written flag is at least four or no flags were written |
| `BathyPackets.StaleFlagsReject` | r2sonic/src/conversions.cpp:94-101 | every datagram without flags has a buffer for which every beam is marked bad |
| `BathyPackets.SingleBeamAtZero` | r2sonic/src/conversions.cpp:53-60 | for every angle a datagram of one beam at it that is reported at zero |
| `Fnv.Fnv1aHash` | r2sonic/include/r2sonic/packets/r2dc.hpp:35-48 | the hash loop computes the fold of rounds |
| `Fnv.TestVectors` | r2sonic/include/r2sonic/packets/r2dc.hpp:35-48 | the published hashes of "a" and "foobar" |
| `Fnv.TimesPrimeInvertible` | r2sonic/include/r2sonic/packets/r2dc.hpp:44 | multiplying by the prime modulo 2^32 is undone by its inverse |
| `Fnv.MixInjective` | r2sonic/include/r2sonic/packets/r2dc.hpp:42-45 | a round is injective in the state and in the byte |
| `Fnv.HashFromInjective` | r2sonic/include/r2sonic/packets/r2dc.hpp:42-45 | different states stay different through any bytes |
| `Fnv.WindowDiffers` | r2sonic/include/r2sonic/packets/r2dc.hpp:35-48 | strings that differ within three adjacent bytes have different hashes |
| `FourBytes.ShortVectors` | r2sonic/include/r2sonic/packets/r2dc.hpp:42-45 | three rounds bring a byte difference with even drifts back to a byte difference for ten vectors only, up to sign |
| `FourBytes.FirstAndLastDiffer` | r2sonic/include/r2sonic/packets/r2dc.hpp:42-45 | a different first byte cannot be made up for by the fourth alone |
| `FourBytes.SeenChangeDiffers` | r2sonic/include/r2sonic/packets/r2dc.hpp:35-48 | a change of four bytes within three adjacent ones or in the first and the last always changes the hash |
| `FourBytes.FourBytesCollide` | r2sonic/include/r2sonic/packets/r2dc.hpp:35-48 | for every other set of positions two strings that collide whatever follows |
| `FourBytes.CollisionMoves` | r2sonic/include/r2sonic/packets/r2dc.hpp:42-45 | what collides from one state collides from every state with the same low byte |
| `FourBytes.PairCollides` | r2sonic/include/r2sonic/packets/r2dc.hpp:35-48 | for every set of positions that is not always seen two strings that differ there and collide, after any bytes that steer the low byte |
| `NetworkConfig.SerializedReadsBack` | r2sonic/include/r2sonic/packets/r2dc.hpp:53-68 | 164 bytes, from which name, serial, ID and all 45 fields read back |
| `NetworkConfig.R2DC.constructor` | r2sonic/include/r2sonic/packets/r2dc.hpp:74-120 | the default configuration |
| `NetworkConfig.R2DC.GenerateConfigId` | r2sonic/include/r2sonic/packets/r2dc.hpp:127-133 | the ID is the hash of the name combined with the hash of the block from subnet_mask on |
| `NetworkConfig.IdIsXor` | r2sonic/include/r2sonic/packets/r2dc.hpp:127-133 | bit by bit the ID and either of the two hashes give the other |
| `NetworkConfig.NamesShareIdIff` | r2sonic/include/r2sonic/packets/r2dc.hpp:127-133 | two node names share the ID of one configuration iff they share the hash |
| `NetworkConfig.HashOfNodeName` | r2sonic/include/r2sonic/packets/r2dc.hpp:139-141 | the hash of "ros2sonic" is 0x95D3986D |
| `NetworkConfig.R2DC.SetConfigId` | r2sonic/include/r2sonic/packets/r2dc.hpp:139-150 | after setConfigId the packet validates for ros2sonic |
| `NetworkConfig.FillDevices` | r2sonic/src/r2sonic_node.cpp:357-367 | the loops fill addresses and ports, or fail iff an address does not parse |
| `NetworkConfig.MakeConfig` | r2sonic/src/r2sonic_node.cpp:346-370 | the built packet has the configured network, the padded serial and a valid ID, or nothing is built |
| `NetworkConfig.SettingsOnWire` | r2sonic/src/r2sonic_node.cpp:346-370 | memory that holds the packet has every parsed address, every port and the serial number at its absolute address |
| `NetworkConfig.SendNetworkConfig` | r2sonic/src/r2sonic_node.cpp:340-379 | two packets for the same settings, read by address: each with its own serial and with the ID of the name and of its own block; or nothing iff an address does not parse |
| `NetworkConfig.WindowChangesId` | r2sonic/include/r2sonic/packets/r2dc.hpp:122-133 | configurations whose bytes differ only within three adjacent ones have different IDs |
| `NetworkConfig.OneFieldChangesId` | r2sonic/include/r2sonic/packets/r2dc.hpp:122-133 | changing one port, or one address within three adjacent octets or in the first and the last, changes the ID |
| `NetworkConfig.AlwaysChangesIdIff` | r2sonic/include/r2sonic/packets/r2dc.hpp:122-133 | for every address field: changes in exactly a given set of octets always change the ID iff they are within three adjacent octets or are the first and the last |
| `NetworkConfig.IdIsNotUnique` | r2sonic/include/r2sonic/packets/r2dc.hpp:122-133 | pairs of subnet masks that always share the ID, one for each other set of octets |
| `Commands.CmdSet.Append` | r2sonic/include/r2sonic/packets/cmd_packet.hpp:60-62 | append adds one command at the end |
| `Commands.CmdSet.Serialize` | r2sonic/include/r2sonic/packets/cmd_packet.hpp:68-88 | the loop yields the packet name and the commands in order |
| `Commands.PacketReadsBack` | r2sonic/include/r2sonic/packets/cmd_packet.hpp:68-88 | 4 + 8n bytes that give back every name and value in order |
| `Commands.SerializationInjective` | r2sonic/include/r2sonic/packets/cmd_packet.hpp:41-88 | two command lists serialize alike iff they agree up to the type tag |
| `Parameters.UpdateOutcome` | r2sonic/src/r2sonic_node.cpp:263-318 | an update succeeds iff name and type fit and an address is valid, and then stores the value |
| `Parameters.UpdateIsLocal` | r2sonic/src/r2sonic_node.cpp:263-313 | an update touches the value of its own name only |
| `Parameters.UpdatesKeep` | r2sonic/src/r2sonic_node.cpp:254-327 | any calls keep keys and command names, and valid addresses valid |
| `Parameters.IntIsStored` | r2sonic/src/r2sonic_node.cpp:263-313 | a 32-bit number is stored unchanged under its literal parameter name |
| `Parameters.TextAndFloatAreStored` | r2sonic/src/r2sonic_node.cpp:270-303 | a valid address is stored as its text, a double as its float |
| `Parameters.SlotAfterAll` | r2sonic/src/r2sonic_node.cpp:254-327 | after any call a value is what the last acceptable parameter of its name stores |
| `Parameters.CallChangesNothingIff` | r2sonic/src/r2sonic_node.cpp:254-327 | any call leaves the tables alone iff for each name the last acceptable parameter stores what is there already |
| `Parameters.CallSucceedsIff` | r2sonic/src/r2sonic_node.cpp:254-327 | a call is reported as successful iff every parameter is acceptable |
| `Parameters.FailureReasons` | r2sonic/src/r2sonic_node.cpp:278-323 | which failure a parameter meets, and what it names |
| `Parameters.LastFailureReported` | r2sonic/src/r2sonic_node.cpp:254-327 | a call reports its last failure, as that parameter would have failed alone |
| `Parameters.FailedCallChanges` | r2sonic/src/r2sonic_node.cpp:290-323 | a call that is reported as failed and has changed the tables |
| `Parameters.ParameterStore.OnParameterUpdate` | r2sonic/src/r2sonic_node.cpp:254-327 | the loop applies every update and reports the last failure |
| `Parameters.ParameterStore.ApplyParameter` | r2sonic/src/r2sonic_node.cpp:260-323 | the branches of one update, with its exceptions |
| `Parameters.SimPacketSays` | r2sonic/src/r2sonic_node.cpp:383-403 | a reader finds CMD0, then every name in order with its int in two's complement or its parsed address |
| `Parameters.HeadPacketSays` | r2sonic/src/r2sonic_node.cpp:409-431 | a reader finds CMD0, then every name in order with its float bits or its int in two's complement |
| `Parameters.ParameterStore.SendSimCmds` | r2sonic/src/r2sonic_node.cpp:383-403 | the packet of the tables in order, of constant length, or an exception iff a name or address is bad |
| `Parameters.ParameterStore.SendHeadCmds` | r2sonic/src/r2sonic_node.cpp:409-431 | the packet of the tables in order, of constant length, or an exception iff a name is bad |
| `Parameters.SendingStaysPossible` | r2sonic/src/r2sonic_node.cpp:254-431 | after any updates both packets are still built, with the same length and names in place |

## Left out

- Sockets, threads, mutexes, timers, publishers and logging: a publication appends to a list, and each handler call is one atomic step. An exception leaves the mutexes locked and ends the receiving thread; runs go on after it here, which only adds runs.
- Undefined behaviour: a tile whose loops do not end or leave the buffer is excluded by `AcousticImage.Defined`, and `magnitude` reads are not bounded by the packet. The functions on values give such a tile a meaning of no consequence.
- IEEE arithmetic: floats are 32-bit patterns in the assembler and the tables; `Detections` computes over the reals with the value of a pattern as a parameter. `sample_rate` keeps its three operands unevaluated.
- ping_info, dtype, sample0 and frame_id of the messages, and the accessors of G0, G1 and I1 beyond their place in the chain: copies of fields.
- `inet_pton` and the double-to-float conversion: parameters of the members that use them.
- The default rows of the command tables: the results hold for any tables whose command names have four characters.
- Parameters.ParameterStore.SendSimCmds: the ascending key order of std::map is an arbitrary order given as an argument, which shows that the result does not depend on it.
- NetworkConfig.OneFieldChangesId: configurations that differ in several fields are decided only when the bytes that differ lie within three adjacent ones (`NetworkConfig.WindowChangesId`).
- discover.cpp, rtcm_converter.cpp, launch and configuration files: no algorithm of this kind.
