# Verified model of the ECS CNI plugins: the address allocator and the bridge

Two parts of the repository are modelled and proved about.

**The IPAM allocator** (`plugins/ipam`) hands out the addresses of one IPv4 and one IPv6 subnet. Records live in
a key/value store: the text of an address is the key, the id of a container (or a gateway's name) the value. Two
more keys hold the cursors from which the next searches start. Each ADD or DEL is one process that opens the store.

**The bridge plugin** (`plugins/ecs-bridge/engine`) creates a bridge in the kernel, gives it one address per
family, and rewrites the route table of the container's interface. Any number of its processes may race.

## How the model is laid out

| file | what it holds |
|---|---|
| `Bits`, `Bytes` | bitwise operators on bytes, addresses as byte slices, masks, and the numbers they stand for |
| `Cycle` | the order in which hosts are visited, as numbers; the search along it |
| `Subnets` | `net.IPNet`, `Contains`, and the loops of `NextIP` and `NextIPv6` |
| `Text`, `Keys`, `Networks` | the texts of addresses (section 4 of RFC 5952 for IPv6), the store's keys and their order, CIDR texts |
| `Store` | the key/value store, a class over a map |
| `IPStore` | `IPManager`, method by method |
| `Config` | the validation of `LoadIPAMConfig` |
| `Commands` | the imperative commands over `IPManager`, each proved to do to the store's data what a function of the data says |
| `CommandOutcomes` | what one ADD or DEL answers and writes, by keys, names and ids |
| `StoreRuns` | what any sequence of commands does to the records, for any subnets: replies are exclusive |
| `StoreLiveness`, `EndlessSearch` | exactly which sequences of commands end |
| `Allocation` | ADD and DEL on numbers instead of texts: the specification of the allocator |
| `Runs`, `RunTheorems`, `LeaseTheorems`, `CapacityTheorems` | what every run of the specification keeps, and the theorems about runs |
| `Refinement`, `CommandRefinement`, `Sessions` | the commands on the store refine the specification, and so do their replies |
| `Deployment` | which accepted configurations are served, and what ADD's results mean to the bridge |
| `Bridge`, `BridgeTheorems` | `CreateBridge` and `ConfigureBridge` over a netlink class; successive calls |
| `BridgeRace` | many processes interleaved one netlink call at a time |
| `Veth`, `VethTheorems` | `configureVethContext.run` over a route table; the final table |

The levels are joined. `Commands.Session` proves what any sequence of the imperative commands does to the store and
replies, as functions of the data. About those functions it is proved, for any subnets and any store, that no address is
handed out twice without a DEL between (`StoreRuns.RepliesAreExclusive`), and exactly when every search ends
(`EndlessSearch.SessionsEndIff`). Where IPv4 texts start with 1, as the code takes for granted, they refine the
specification (`CommandRefinement.SessionRefines`): the store holds what `Allocation.Run` leaves, and the replies are
what it answers, so the theorems about runs are about the code's store and replies.
`BridgeRace.AloneIsSequential` ties the interleaved model of the bridge to the sequential one in the same way.

## Where the code does less than intended

Each of these is stated exactly, with the condition under which the code does what is wanted.

- The search runs for ever from the network address of a full pool, because the successor functions never return
  to it (`Cycle.LoopExitsIff`). A sequence of commands gets there if and only if an IPv4 host's text starts with "6."
  (`EndlessSearch.SessionsEndIff`): a release by id takes that record for an IPv6 one, and what it stores as the IPv6
  cursor is no address (`EndlessSearch.DelMisreads`). For subnets of at least eight bits that means 6.0.0.0/8 and its
  parts (`Deployment.SixByFirstOctet`). From 60.0.0.0 to 69.255.255.255 the cursor becomes an IPv4 address instead, and
  IPv6 searches fail until it moves again (`EndlessSearch.DelBlocksSearch`).
- `NextIP` does not pad the successor to four bytes, so in subnets below 1.0.0.0 the step from the network address
  gives a slice that is no address (`Subnets.NextIPIsSuccessor`).
- IPv4 ids are guarded, and found by a release, exactly for addresses whose text starts with 1
  (`Refinement.IdGuardIff`); for subnets of at least eight bits that is a matter of the first octet
  (`Deployment.TrackedByFirstOctet`).
- The IPv6 search cannot cross mapped IPv4 addresses (`Deployment.WalksOnIffServed`).
- Explicit and dynamic allocation agree exactly in the subnets that the two points above leave
  (`Deployment.AgreementIffServed`). An IPv6 subnet yields addresses if and only if it is not written with a mapped
  address, and a mapped one is accepted all the same (`Deployment.YieldsIffPlain`).
- A default gateway is a host only under the condition of `Config.DefaultGatewayIsHost`.
- Explicitly requested IPv6 addresses are not guarded by id (`RunTheorems.ExplicitV6IdsCollide`), which matters for
  exactly the ids of `RunTheorems.ReleasedExactlyIff`.
- A DEL with the configuration of its ADD undoes it if and only if the configuration does not mix an explicit and a
  found address, and finds by id nothing else (`LeaseTheorems.AddThenDel`).
- Explicit addresses can lead the bridge plugin to different bridge addresses (`Deployment.ResultsAgreeIff`).
- An id equal to the IPv6 gateway's name makes the first dual-stack ADD fail (`CapacityTheorems.DualStackOrder`).
- Two processes that want different addresses of one family on one bridge can both succeed, which only link-local
  addresses survive (`BridgeRace.DisagreementBreaksStability`).
- A repeated `ConfigureBridge` call is refused beside a link-local address that shadows one of its targets, once the
  bridge has a global IPv6 address (`BridgeTheorems.RepeatIsNoOp`, with `BridgeTheorems.ForeignPrefixBreaksRepeat` as the
  instance where it fails, `BridgeTheorems.RepeatAtOnce` and `BridgeTheorems.RepeatLater`).
- A process may report success while the bridge has no static hardware address yet (`BridgeRace.DoneBeforeMAC`); it has
  one once all have ended (`BridgeRace.MACIsSet`).
- A default route with neither gateway nor source among those the helper adds, or there before, makes every run fail:
  the library refuses to delete it (`Veth.Run`).

Where documentation and code disagree the code is followed. `plugins/ipam/README.md:82` and `:96` speak of IPv6
prefixes up to /128, but the code refuses those above /126 (`plugins/ipam/config/config.go:142`). The comment on
the default gateway calls it the first address of the subnet (`plugins/ipam/config/config.go:235`), but the code takes
the successor of the configured address, whether or not that is the network address.

## Model

| member | source | states |
|---|---|---|
| Bytes.MaskArithmetic | plugins/ipam/ipstore/ipstore.go:503-514 | masking byte by byte rounds the address's number down to its block, and filling in the complement of the mask adds the block's size less one: no carries, no overflow |
| Subnets.SubnetNumbers | plugins/ipam/ipstore/ipstore.go:555-559 | a subnet's lowest number is the multiple of its size at or below its address, by division, and the highest is its size less one above |
| Subnets.ContainsIsInterval | plugins/ipam/ipstore/ipstore.go:498-501 | an address is in a subnet exactly when its number lies between the subnet's lowest and highest |
| Subnets.HostPoolShape | plugins/ipam/ipstore/ipstore.go:26-30 | under the largest allowed prefix a pool has 2^(32-p)-2 IPv4 or 2^(128-p)-1 IPv6 hosts, never fewer than two: all numbers between the lowest and the highest, for IPv6 also the highest |
| Subnets.UsableIff | plugins/ipam/ipstore/ipstore.go:26-30 | every subnet with two free bits is usable, and no other |
| Subnets.Bounds | plugins/ipam/ipstore/ipstore.go:555-559 | the computed slices spell the subnet's lowest and highest numbers |
| Subnets.NextIP | plugins/ipam/ipstore/ipstore.go:540-574 | every refusal in the code's order; else the unpadded spelling of the successor, after at most two rounds of the loop |
| Subnets.NextIPLoop | plugins/ipam/ipstore/ipstore.go:561-571 | the loop ends within two rounds and skips the start, the network and the broadcast address |
| Subnets.NextIPIsSuccessor | plugins/ipam/ipstore/ipstore.go:561-573 | that spelling is a 4-byte address and the next host on the cycle exactly in subnets at or above 1.0.0.0; below, the step from the network address is shorter than four bytes |
| Subnets.NextIPOutcome | plugins/ipam/ipstore/ipstore.go:540-574 | which error NextIP answers when, in numbers; else exactly which number it spells, without leading zeros, in subnets below 1.0.0.0 as well |
| Subnets.NextIPv6 | plugins/ipam/ipstore/ipstore.go:485-537 | every refusal in the code's order; else the 16-byte spelling of the next host on the cycle, after at most one round |
| Subnets.NextIPv6Loop | plugins/ipam/ipstore/ipstore.go:516-534 | increment, wrap and padding give exactly sixteen bytes of the successor |
| Subnets.NextIPv6Outcome | plugins/ipam/ipstore/ipstore.go:485-537 | which error NextIPv6 answers when; else the sixteen bytes of the next number, or after the highest of the lowest host's |
| Cycle.FullCycle | plugins/ipam/ipstore/ipstore.go:485-574 | iterating the successor visits every host exactly once before it returns, each at its own distance |
| Cycle.FirstFreeIsNearest | plugins/ipam/ipstore/ipstore.go:155-219 | the search's answer is the free host nearest after the cursor in cyclic order, and exhaustion is reported if and only if every host is in use |
| Cycle.LoopExitsIff | plugins/ipam/ipstore/ipstore.go:155-177 | the loop ends if and only if it starts at a host or some host is free |
| Text.Text4RoundTrip | plugins/ipam/commands/commands.go:249 | reading back the dotted-decimal text of an address gives the address |
| Text.Text4Form | plugins/ipam/commands/commands.go:249 | an IPv4 address prints as its four octets in decimal between dots |
| Text.Text6RoundTrip | plugins/ipam/commands/commands.go:367 | reading back the shortened IPv6 text gives the address, and the text contains a colon |
| Text.Text6Form | plugins/ipam/commands/commands.go:367 | an IPv6 address prints as its groups in hexadecimal between colons, with a run of at least two zero groups left out |
| Text.LongestRunIsFirst | plugins/ipam/commands/commands.go:367 | that run is a longest one, the first of its length, and ends at a group that is not zero |
| Text.NumeralForm | plugins/ipam/commands/commands.go:367 | numerals have no leading zeros |
| Keys.ParsesBack | plugins/ipam/ipstore/ipstore.go:339 | ParseIP undoes String for every IPv4 address and every IPv6 one that is not mapped IPv4; only IPv6 texts contain a colon |
| Keys.ListedUnderPrefix | plugins/ipam/ipstore/ipstore.go:31-35 | listing under "1" finds exactly the IPv4 texts whose first octet starts with 1; listing under "6" also finds IPv4 texts that start with 6 |
| Keys.KeysDistinct | plugins/ipam/ipstore/ipstore.go:31-37 | keys of different addresses, families and cursors never coincide |
| Keys.PrecedesByFirstDifference | vendor/github.com/docker/libkv/store/boltdb/boltdb.go:264-307 | of two keys the one with the smaller character at their first difference is listed first, and a key before its extensions |
| KeyValueStore.Store.List | vendor/github.com/docker/libkv/store/boltdb/boltdb.go:264-307 | all pairs whose key has the prefix, each once, in key order |
| IPStore.IPManager.constructor | plugins/ipam/ipstore/ipstore.go:101-138 | both cursors start at the network addresses |
| IPStore.IPManager.SetLastKnownIP | plugins/ipam/ipstore/ipstore.go:141-143 | the cursor becomes the address given |
| IPStore.IPManager.SetLastKnownIPv6 | plugins/ipam/ipstore/ipstore.go:146-152 | the cursor becomes the 16-byte form, or nil |
| IPStore.IPManager.UniqueID | plugins/ipam/ipstore/ipstore.go:443-460 | refuses exactly the ids that some record listed under "1" carries |
| IPStore.IPManager.UniqueIDv6 | plugins/ipam/ipstore/ipstore.go:252-267 | refuses exactly the ids that some record listed under "6" carries |
| IPStore.IPManager.Exists | plugins/ipam/ipstore/ipstore.go:468-475 | whether the key is recorded |
| IPStore.IPManager.Get | plugins/ipam/ipstore/ipstore.go:301-311 | the recorded id, empty when there is none |
| IPStore.IPManager.Update | plugins/ipam/ipstore/ipstore.go:463-465 | writes that key and no other |
| IPStore.IPManager.Assign | plugins/ipam/ipstore/ipstore.go:314-341 | records a new key under an id no "1" record carries; otherwise says which of the two failed and changes neither store nor cursor |
| IPStore.IPManager.AssignIPv6 | plugins/ipam/ipstore/ipstore.go:222-249 | the same with the ids of the "6" records |
| IPStore.IPManager.Release | plugins/ipam/ipstore/ipstore.go:345-362 | removes that key only, and reports whether it was recorded |
| IPStore.IPManager.ReleaseIPv6 | plugins/ipam/ipstore/ipstore.go:419-440 | the same, for a key with the IPv6 prefix |
| IPStore.IPManager.FindBearer | plugins/ipam/ipstore/ipstore.go:375-384 | the first key listed for the id, or none if no listed record carries it |
| IPStore.IPManager.ReleaseByID | plugins/ipam/ipstore/ipstore.go:366-415 | removes the first bearer under each prefix, nothing else, and fails only when there is neither |
| IPStore.IPManager.GetAvailableIP | plugins/ipam/ipstore/ipstore.go:155-177 | terminates wherever some probe is free or the start is a host; records the nearest free host, or reports exhaustion or the refused id and leaves the store alone |
| IPStore.IPManager.GetAvailableIPv6 | plugins/ipam/ipstore/ipstore.go:180-219 | the same for IPv6, from the network address when there is no cursor |
| IPStore.IPManager.SearchFrom | plugins/ipam/ipstore/ipstore.go:195-218 | the loop of the IPv6 search from a given start |
| IPStore.AssignOutcome | plugins/ipam/ipstore/ipstore.go:314-341 | a key that is present is refused; else an id that a listed record carries; else just that key is written |
| IPStore.SearchOutcome | plugins/ipam/ipstore/ipstore.go:155-219 | which error a search answers when: a start of the wrong form or outside, every host's key present, the id listed under "1" or "6"; else it records the free host nearest after the start |
| IPStore.SearchGoesOn | plugins/ipam/ipstore/ipstore.go:158-176 | one round: success ends the search with the nearest free host, a return to the start with exhaustion, anything else leaves one host fewer to probe |
| Config.IsNetworkOrBroadcast | plugins/ipam/config/config.go:241-252 | true exactly for the subnet's lowest and highest IPv4 address |
| Config.CheckIPv4 | plugins/ipam/config/config.go:100-133 | the first problem, in order, of the prefix, the address and the gateway, in terms of numbers: too small a subnet, outside it, reserved |
| Config.CheckIPv6 | plugins/ipam/config/config.go:136-196 | the same for IPv6, which has no broadcast address |
| Config.CheckIPv6Host | plugins/ipam/config/config.go:153-172 | accepts exactly the hosts of the subnet |
| Config.LoadIPAMConfig | plugins/ipam/config/config.go:91-198 | the first problem of the configuration if there is one; else id, subnets, addresses and given gateways stay, and a missing gateway of a configured subnet is the number after the configured address |
| Config.AcceptedIff | plugins/ipam/config/config.go:91-198 | a configuration is accepted exactly if it has a subnet and each of its sections is good; the IPv4 section's problem comes first |
| Config.SectionOutcome | plugins/ipam/config/config.go:100-196 | a section is refused exactly if the subnet has fewer than two free bits, or the address or the gateway is not strictly between its lowest and highest number (for IPv6 it may be the highest), and the error says which check failed |
| Config.MappedOutcome | plugins/ipam/config/config.go:136-196 | in a section written with a mapped address neither an address nor a gateway may be given |
| Config.DefaultGatewayIsNext | plugins/ipam/config/config.go:236-238 | the default gateway is the number after the configured address |
| Config.DefaultGatewayIsHost | plugins/ipam/config/config.go:236-257 | exactly when the default gateway is a host of the subnet |
| Refinement.HasKey | plugins/ipam/ipstore/ipstore.go:468-475 | an address's key is in the store if and only if the specification holds the address |
| Refinement.ScanFindsIds | plugins/ipam/ipstore/ipstore.go:443-460 | scanning a prefix for an id is looking it up among that family's records |
| Refinement.AssignRefines | plugins/ipam/ipstore/ipstore.go:314-341 | assigning in the store is assigning in the specification, in result and effect |
| Refinement.SearchRefines | plugins/ipam/ipstore/ipstore.go:155-219 | allocating near the cursor in the store is the specification's search |
| Refinement.OtherFamilyUntouched | plugins/ipam/ipstore/ipstore.go:31-37 | a change of one family leaves every key listed for the other, and its cursor, as they were |
| Refinement.IdGuardIff | plugins/ipam/ipstore/ipstore.go:31-35 | when one IPv4 record alone bears an id, the id is refused to another address, and a release finds the record, if and only if its text starts with 1; the IPv6 scan finds it if and only if the text starts with 6 |
| Commands.VerifyGateway | plugins/ipam/commands/commands.go:321-341 | an unrecorded gateway is recorded under its name, one recorded so is accepted, an address recorded otherwise is refused; nothing else changes |
| Commands.VerifyGatewayV6 | plugins/ipam/commands/commands.go:403-426 | the same for IPv6, whose name is looked up among the records listed under "1" |
| Commands.FoundIsHost | plugins/ipam/ipstore/ipstore.go:155-219 | what a search takes is a host whose key was absent, and recording it under the id is its only change |
| Commands.GetIPV4AddressFromDB | plugins/ipam/commands/commands.go:256-277 | the search from the stored cursor, or from the network address without one; answers the text of the host it records |
| Commands.GetIPV6AddressFromDB | plugins/ipam/commands/commands.go:374-400 | the same for IPv6, where a cursor that is no address counts as none |
| Commands.GetIPV4Address | plugins/ipam/commands/commands.go:231-253 | the address asked for with its own mask, or the one found with the subnet's; recorded under the id |
| Commands.GetIPV6Address | plugins/ipam/commands/commands.go:345-371 | the same for IPv6, an explicit address recorded under the suffixed id |
| Commands.AddIPv4 | plugins/ipam/commands/commands.go:70-88 | gateway, address and cursor in turn; a refused address leaves the gateway recorded and the cursor where it was |
| Commands.AddIPv6 | plugins/ipam/commands/commands.go:91-109 | the same for IPv6 |
| Commands.AddCommand | plugins/ipam/commands/commands.go:66-116 | the configured halves in turn up to the first error, which leaves what was written; the result lists IPv4 first |
| Commands.UpdateCursors | plugins/ipam/commands/commands.go:206-224 | each released address becomes its family's cursor, nothing else changes |
| Commands.DelCommand | plugins/ipam/commands/commands.go:159-227 | releases the named addresses, or the first record listed for the id under each prefix, and moves the cursors of what was released; a second address that is not recorded leaves the first released |
| Commands.Process | plugins/ipam/commands/commands.go:118-157 | one process over the store alone: its reply and what it leaves depend on the request and the data only |
| Commands.Session | plugins/ipam/commands/commands.go:66-227 | any number of processes on one store come to their end, and leave and reply what the requests do applied in turn |
| CommandOutcomes.GatewayOutcome | plugins/ipam/commands/commands.go:321-426 | a gateway recorded as "GateWay" or "GateWayV6" is accepted, one recorded under another id refused, a new one recorded unless its name is listed under "1" |
| CommandOutcomes.AskedOutcome | plugins/ipam/commands/commands.go:231-241 | an address asked for is refused if its key is present or its id listed under "1"; else recorded under the id, for IPv6 with "-v6" added |
| CommandOutcomes.FoundOutcome | plugins/ipam/commands/commands.go:256-277 | the search starts from the stored cursor, or from the network address; what it finds is answered with the subnet's mask |
| CommandOutcomes.HalfOutcome | plugins/ipam/commands/commands.go:70-109 | the gateway comes first, and a failure leaves what was written before it |
| CommandOutcomes.HalfWrites | plugins/ipam/commands/commands.go:70-109 | a half changes at most its gateway's record, its address's and its own cursor, which on success is the text of the address |
| CommandOutcomes.AddOutcome | plugins/ipam/commands/commands.go:66-116 | ADD succeeds exactly if a family is configured and each configured half does; the reply has one entry for each, IPv4 first; after a failed IPv4 half nothing is done for IPv6 |
| CommandOutcomes.AddRecordsGateways | plugins/ipam/commands/commands.go:321-341 | after a successful ADD every configured gateway is recorded under its name, and it was recorded under no other before |
| CommandOutcomes.DelAddressOutcome | plugins/ipam/commands/commands.go:177-227 | a DEL by address succeeds exactly if all named addresses are recorded, and then makes them their families' cursors; otherwise no cursor moves |
| CommandOutcomes.DelIdOutcome | plugins/ipam/commands/commands.go:196-227 | a DEL by id succeeds exactly if a record listed under "1" or "6" carries it; the first under each becomes the family's cursor, and the other cursor stays |
| CommandOutcomes.DelNothing | plugins/ipam/commands/commands.go:161-169 | a DEL with neither address nor id changes nothing |
| CommandRefinement.AllocationRefines | plugins/ipam/commands/commands.go:256-277 | from the stored cursor the store's search ends and is the specification's |
| CommandRefinement.GatewayRefines | plugins/ipam/commands/commands.go:321-426 | recording the gateway in the store is recording it in the specification, or fails with the same error |
| CommandRefinement.TakeRefines | plugins/ipam/commands/commands.go:231-371 | so is taking the address, asked for or found, and the address answered is the specification's with the right mask |
| CommandRefinement.AddRefines | plugins/ipam/commands/commands.go:66-116 | ADD ends, and is the specification's in records, cursors and result, also when it fails half-way |
| CommandRefinement.BearerIsOwner | plugins/ipam/ipstore/ipstore.go:366-407 | the first record listed for an id is the one the specification releases |
| CommandRefinement.DelAddressRefines | plugins/ipam/commands/commands.go:177-195 | DEL by address is the specification's, including the half-done failure |
| CommandRefinement.DelIdRefines | plugins/ipam/commands/commands.go:196-204 | DEL by id is the specification's |
| CommandRefinement.DelRefines | plugins/ipam/commands/commands.go:159-227 | DEL is the specification's in records, cursors and outcome |
| CommandRefinement.SessionRefines | plugins/ipam/commands/commands.go:66-227 | any sequence of requests on an empty store ends, leaves what the specification's run of them leaves, and each reply is what it answers |
| Sessions.HandedIsLeased | plugins/ipam/commands/commands.go:281-318 | an address in the reply of an ADD is the one its specification leases |
| StoreRuns.HalfTakes | plugins/ipam/commands/commands.go:70-109 | for any subnet and store, a half loses and changes no record; if it succeeds its address was free, is recorded under the id, and is the one asked for or a host, and the gateway is recorded under "GateWay" or "GateWayV6" |
| StoreRuns.AddTakes | plugins/ipam/commands/commands.go:66-116 | so does a whole ADD, for every address it replies |
| StoreRuns.DelFrees | plugins/ipam/commands/commands.go:171-227 | a DEL loses a record if and only if it names the address, all IPv4 addresses it names being recorded, or the record is the first listed for its id; it changes none |
| StoreRuns.KeyStays | plugins/ipam/commands/commands.go:66-227 | through any requests a record stays until a DEL frees it |
| StoreRuns.RepliesAreExclusive | plugins/ipam/commands/commands.go:66-227 | whatever the store held and whatever the subnets, two replies hand out one address only if a DEL between them freed it |
| StoreLiveness.SearchStops | plugins/ipam/ipstore/ipstore.go:155-219 | the search ends from a stored host, from a text refused at once, and, with no cursor, while only the gateway is recorded |
| StoreLiveness.SixtyReads | plugins/ipam/ipstore/ipstore.go:390-407 | the text of an IPv4 address from 60.0.0.0 to 69.255.255.255 without its first character is that of another IPv4 address |
| StoreLiveness.StepKeepsKeys | plugins/ipam/commands/commands.go:66-227 | every request ends and keeps: keys are hosts' and cursors', a cursor is a text from which searches end, without one only the gateway is recorded |
| StoreLiveness.SessionsEnd | plugins/ipam/ipstore/ipstore.go:155-219 | every sequence of requests on an empty store ends, if no IPv4 host's text starts with "6." or no ADD uses the IPv6 subnet |
| EndlessSearch.SixReads | plugins/ipam/ipstore/ipstore.go:390-407 | a text that starts with "6." is no address without its first character |
| EndlessSearch.TakenForV6 | plugins/ipam/ipstore/ipstore.go:366-415 | a release by id takes an IPv4 record whose text starts with 6, if it alone bears the id, for an IPv6 one: it makes the rest of the text the IPv6 cursor |
| EndlessSearch.DelBlocksSearch | plugins/ipam/ipstore/ipstore.go:485-496 | from 60.0.0.0 on that rest is an IPv4 address, and the next IPv6 search is refused |
| EndlessSearch.DelMisreads | plugins/ipam/ipstore/ipstore.go:366-415 | a release by the id that such a record alone bears leaves the IPv6 cursor unreadable and every IPv6 record in place |
| EndlessSearch.SearchStuck | plugins/ipam/ipstore/ipstore.go:180-219 | with such a cursor and all IPv6 hosts recorded the next search never ends |
| EndlessSearch.SessionsEndIff | plugins/ipam/commands/commands.go:66-227 | every sequence of requests on given subnets ends if and only if no IPv4 host's text starts with "6." |
| Runs.AddFamilyEffect | plugins/ipam/commands/commands.go:70-88 | a half that succeeds takes an unheld host that is not the gateway and makes it the cursor; one that fails records at most the gateway |
| Runs.RunKeeps | plugins/ipam/commands/commands.go:66-227 | every run keeps: records are hosts, only the gateway has its name, a cursor is a host, without a cursor only the gateway is recorded, and ids are distinct, except IPv6 ids that end in the suffix when some command asks for an IPv6 address |
| RunTheorems.EveryAddTerminates | plugins/ipam/ipstore/ipstore.go:155-219 | after any run both halves of any ADD leave their loops |
| RunTheorems.HeldUntilReleased | plugins/ipam/commands/commands.go:171-227 | a record stays until a DEL removes it |
| RunTheorems.LeaseIsFresh | plugins/ipam/commands/commands.go:66-116 | an address that an ADD of any run returns was unheld, is a host of its subnet, is not the gateway, and is recorded afterwards |
| RunTheorems.NoDoubleLease | plugins/ipam/commands/commands.go:66-227 | no address is returned by two ADDs of a run unless a DEL between them released it |
| RunTheorems.ReleaseByIdIsExact | plugins/ipam/ipstore/ipstore.go:366-415 | in every reachable state an id has at most one record per family, and a DEL by id removes that record only; for IPv6 ids that end in the suffix only if no command asked for an IPv6 address |
| RunTheorems.ExplicitV6IdsCollide | plugins/ipam/commands/commands.go:354-357 | in every state the invariant allows, any id gets any two free IPv6 addresses it asks for explicitly, and both are recorded under it |
| RunTheorems.ReleasedExactlyIff | plugins/ipam/ipstore/ipstore.go:366-415 | an id has at most one record and a DEL by id is exact after every run, for IPv4 always, and for IPv6 if and only if the id does not end in the suffix or there is one host beside the gateway |
| LeaseTheorems.AddThenDel | plugins/ipam/commands/commands.go:66-227 | DEL with the configuration of a successful ADD restores every address record but the gateways, if and only if it names all its addresses, or has an id that no record of an unconfigured family bears; of a mixed ADD it leaves the found address recorded |
| CapacityTheorems.FindsUntilFull | plugins/ipam/ipstore/ipstore.go:155-219 | a dynamic half succeeds if and only if the records, the gateway among them, are fewer than the hosts; otherwise it reports exhaustion |
| CapacityTheorems.ExactCapacity | plugins/ipam/commands/commands.go:231-277 | from the empty store exactly one ADD fewer than there are hosts succeeds, and the next reports exhaustion |
| CapacityTheorems.ReusedLast | plugins/ipam/ipstore/ipstore.go:155-219 | an address at the cursor is found again only when every other host is in use |
| CapacityTheorems.ReleasedThenReused | plugins/ipam/commands/commands.go:206-277 | the address released last is handed out again by the next ADD that has to find one of its family, single or dual stack, only when no other host is free |
| CapacityTheorems.DualStackOrder | plugins/ipam/commands/commands.go:66-116 | a dual-stack ADD that succeeds has the combined effect of its halves in either order, and exactly when the halves succeed but the whole does not |
| Deployment.FirstOctet | plugins/ipam/ipstore/ipstore.go:31-33 | all addresses of an IPv4 subnet of at least eight bits share its first octet |
| Deployment.TrackedByFirstOctet | plugins/ipam/ipstore/ipstore.go:31-33 | such a subnet's records are all listed under "1" if and only if its first octet's text starts with 1 |
| Deployment.MappedInterval | plugins/ipam/ipstore/ipstore.go:493-496 | the addresses NextIPv6 takes for IPv4 ones are an interval |
| Deployment.ServedByInterval | plugins/ipam/ipstore/ipstore.go:493-496 | no address of a subnet is a mapped one if and only if the subnet avoids that interval |
| Deployment.WalksOnIffServed | plugins/ipam/ipstore/ipstore.go:485-537 | NextIPv6 goes on from everything it returns if and only if the subnet avoids that interval; elsewhere it returns a mapped address and refuses it as the next start |
| Deployment.ExplicitAgreesWithDynamic | plugins/ipam/config/config.go:111-195 | in a served subnet validation finds no problem with an address or gateway if and only if some call of NextIP or NextIPv6 returns it |
| Deployment.ValidationAgrees | plugins/ipam/config/config.go:100-196 | a section of a served subnet is accepted if and only if the address and the gateway it gives can be returned |
| Deployment.DefaultGatewayAgrees | plugins/ipam/config/config.go:236-257 | exactly when the successor functions can return the default gateway |
| Deployment.DefaultGatewayIsSuccessor | plugins/ipam/config/config.go:236-257 | a default gateway that is a host is what NextIP or NextIPv6 answers from the configured address |
| Deployment.AgreementIffServed | plugins/ipam/config/config.go:100-196 | validation and the successor functions agree on all addresses of a usable subnet if and only if it lies at or above 1.0.0.0, or avoids the mapped addresses |
| Deployment.YieldsIffPlain | plugins/ipam/config/config.go:136-196 | NextIPv6 returns an address from some start, and validation accepts some explicit address and some gateway, if and only if the subnet is not written with a mapped address; without them it is accepted either way |
| Deployment.SixByFirstOctet | plugins/ipam/ipstore/ipstore.go:31-33 | for IPv4 subnets of at least eight bits, texts start with "6." exactly in those whose first octet is 6 |
| Deployment.AcceptedIsDeployed | plugins/ipam/config/config.go:91-198 | an accepted configuration of servable subnets meets everything the commands are proved under |
| Deployment.ResultsAgreeIff | plugins/ipam/commands/commands.go:281-318 | the results of ADDs on the same subnets and gateways lead the bridge plugin to the same bridge addresses if and only if each explicit address has its subnet's prefix length or the gateway's kind fixes the mask; results of found addresses always do |
| Networks.CIDRInjective | plugins/ecs-bridge/engine/engine.go:316-326 | comparing printed networks is comparing networks |
| Bridge.Netlink.LinkByName | plugins/ecs-bridge/engine/engine.go:121-128 | the link of that name, or the not-found answer; or a failure of its own |
| Bridge.Netlink.LinkAdd | plugins/ecs-bridge/engine/engine.go:167-171 | adds the link unless the name is taken, and then answers that it exists |
| Bridge.Netlink.AddrList | plugins/ecs-bridge/engine/engine.go:289-294 | the link's addresses of the family, all of them |
| Bridge.Netlink.AddrAdd | plugins/ecs-bridge/engine/engine.go:349-355 | adds the address unless the kernel takes one that is there for it |
| Bridge.LookupBridge | plugins/ecs-bridge/engine/engine.go:120-139 | nil when there is no such link, an error when it is not a bridge |
| Bridge.CreateNewBridge | plugins/ecs-bridge/engine/engine.go:158-192 | a new link with the given MTU and hardware address; what a failure leaves behind |
| Bridge.CreateBridge | plugins/ecs-bridge/engine/engine.go:83-115 | an existing bridge is only brought up, a missing one made; another kind of link is refused untouched; a call fails it exactly if one was denied, and every state that can leave is stated |
| BridgeTheorems.CreateOutcome | plugins/ecs-bridge/engine/engine.go:83-115 | field by field: what is new has the given MTU and hardware address and no addresses, of an existing bridge only that it is up changes |
| Bridge.Inspect | plugins/ecs-bridge/engine/engine.go:323-336 | finds whether the address is listed, and if not whether another is in the way: for IPv4 any, for IPv6 any that is not link-local |
| Bridge.ListingDecides | plugins/ecs-bridge/engine/engine.go:323-348 | what the loop finds in a listing is what decides, whatever the order of the listing |
| Bridge.ConfigureBridge | plugins/ecs-bridge/engine/engine.go:279-359 | the bridge's addresses and the answer are those of the entries applied in order; a call fails it exactly if one was denied, and leaves a prefix of them applied; other links are untouched |
| BridgeTheorems.EntryOutcome | plugins/ecs-bridge/engine/engine.go:323-355 | an entry is refused exactly if its target is missing and an address of its family, other than a link-local IPv6 one, is there; else the target is added unless it is there |
| BridgeTheorems.RefusalHasCause | plugins/ecs-bridge/engine/engine.go:343-347 | a refused call has an entry whose target is missing beside another such address of its family |
| BridgeTheorems.BridgeIsGateway | plugins/ecs-bridge/engine/engine.go:297-319 | the bridge gets the gateway's own address |
| BridgeTheorems.OtherBridgeReaches | plugins/ecs-bridge/engine/engine.go:297-319 | for gateways neither link-local nor under fd00::/8 it has the container's prefix length, and reaches the container's subnet |
| BridgeTheorems.LinkLocalIsSubnet | plugins/ecs-bridge/engine/engine.go:302-314 | link-local addresses are those of 169.254.0.0/16 and fe80::/10 |
| BridgeTheorems.ConfigureKeeps | plugins/ecs-bridge/engine/engine.go:281-356 | a call takes no address away, adds only its targets, and keeps at most one IPv4 address and one IPv6 address that is not link-local; on success each target is there, unless an IPv6 link-local one was shadowed by its own address under another prefix length |
| BridgeTheorems.NothingShadowed | plugins/ecs-bridge/engine/engine.go:323-336 | where link-local addresses have the /64 that the kernel gives them, no target is shadowed, so a successful call leaves them all there |
| BridgeTheorems.AddressStability | plugins/ecs-bridge/engine/engine.go:281-356 | any sequence of calls, whichever of them fail, takes no address away and keeps at most one IPv4 address and one IPv6 address that is not link-local |
| BridgeTheorems.RepeatIsNoOp | plugins/ecs-bridge/engine/engine.go:325-346 | repeating a successful call, whatever calls came between, changes nothing; it is refused if and only if a target was shadowed by its own address under another prefix length and the bridge now has a global IPv6 address |
| BridgeTheorems.RepeatAtOnce | plugins/ecs-bridge/engine/engine.go:325-346 | repeated at once, a successful call is a no-op if and only if it does not have a shadowed target and ask for a global address too; with one entry per family it always is |
| BridgeTheorems.RepeatLater | plugins/ecs-bridge/engine/engine.go:325-346 | repeated later, it is a no-op if and only if it does not have a shadowed target while it, or an entry reached by a call between, asks for a global address |
| BridgeTheorems.DaemonBridgeReaches | plugins/ecs-bridge/engine/engine.go:297-319 | which addresses the bridge reaches under the fixed masks: the /24 neighbours sharing six bits of the third octet, the same first eight bytes, the same first fourteen |
| BridgeRace.CallKeeps | plugins/ecs-bridge/engine/engine.go:83-359 | any one call of a process leaves it where its achievements say, and only adds to the link |
| BridgeRace.ExecutionKeeps | plugins/ecs-bridge/engine/engine.go:83-359 | so does every interleaving: agreed addresses only, one creator, a hardware address once set stays |
| BridgeRace.WaitFree | plugins/ecs-bridge/engine/engine.go:83-359 | a process ends within a number of its own calls that depends on its result only |
| BridgeRace.FailsOnlyByDenial | plugins/ecs-bridge/engine/engine.go:89-107 | no process fails because of the race |
| BridgeRace.Convergence | plugins/ecs-bridge/engine/engine.go:83-359 | under any interleaving at most one LinkAdd succeeds, undisturbed processes finish, and then an up bridge carries exactly the agreed address of each family, kernel-assigned ones aside |
| BridgeRace.MACIsSet | plugins/ecs-bridge/engine/engine.go:173-178 | once all processes have ended, none of them denied, a bridge they made has its static hardware address |
| BridgeRace.DoneBeforeMAC | plugins/ecs-bridge/engine/engine.go:83-115 | while the creator pauses, another process can be done before that address is set |
| BridgeRace.AloneIsSequential | plugins/ecs-bridge/engine/engine.go:83-359 | a process with the kernel to itself does what CreateBridge and ConfigureBridge do in sequence |
| BridgeRace.DisagreementBreaksStability | plugins/ecs-bridge/engine/engine.go:289-355 | any two processes that want different addresses of one family can both end well; the bridge then carries both as wanted if and only if both are link-local, and has two rivals unless one is or the kernel takes them for one |
| Veth.Interface.RouteAdd | plugins/ecs-bridge/engine/configureveth.go:92-96 | adds the route unless one to the destination exists |
| Veth.Interface.RouteList | plugins/ecs-bridge/engine/configureveth.go:136-141 | every route once, in no particular order |
| Veth.Interface.RouteDel | vendor/github.com/vishvananda/netlink/route_linux.go:167-176 | refuses a route without destination, source and gateway; else removes the route, or answers that there is none |
| Veth.DefaultByText | plugins/ecs-bridge/engine/configureveth.go:151-153 | a destination prints as one of the two default texts exactly when its prefix is empty |
| Veth.SubnetIsCanonical | plugins/ecs-bridge/engine/configureveth.go:201-204 | cutting an address to a prefix leaves no host bits and never turns an IPv6 address into an IPv4 one |
| Veth.AddGatewayRoutes | plugins/ecs-bridge/engine/configureveth.go:75-97 | every gateway's host route that was missing is added, none is lost; it fails exactly if a call is denied, not for a route that exists |
| Veth.SetHardwareAddress | plugins/ecs-bridge/engine/configureveth.go:110-132 | the helper gets the first address of each family |
| Veth.ShouldDelete | plugins/ecs-bridge/engine/configureveth.go:145-168 | exactly the gateway-less routes that are default ones or, in a family with prefix length 0, not host routes |
| Veth.DeleteRoutes | plugins/ecs-bridge/engine/configureveth.go:144-175 | exactly those are deleted; on failure no other is gone; it succeeds only if no route without destination, source and gateway is there |
| Veth.AddSubnetRoutes | plugins/ecs-bridge/engine/configureveth.go:180-222 | the missing connected-subnet routes of families with a prefix length are added, none is lost; it fails exactly if a call is denied, not for a route that exists |
| Veth.Run | plugins/ecs-bridge/engine/configureveth.go:62-225 | it fails exactly if a call is denied or a route that the library refuses to delete was prepared; else the table is the final one; even on failure no route with a gateway is gone |
| VethTheorems.WithRoutesExactly | plugins/ecs-bridge/engine/configureveth.go:92-96 | adding routes in turn, in closed form: one link-scope route for each destination that had none |
| VethTheorems.FinalTable | plugins/ecs-bridge/engine/configureveth.go:75-222 | exactly which routes the final table holds; every gateway itself is reached, and by its family's prefix length a subnet around every address; no default or unwanted subnet route without a gateway is left, none with a gateway is gone |
| VethTheorems.ConnectedIsSubnet | plugins/ecs-bridge/engine/configureveth.go:201-204 | the connected subnet is the one of the given prefix length, without host bits, that contains the address |
| VethTheorems.FirstAddressIsFirst | plugins/ecs-bridge/engine/configureveth.go:110-132 | the hardware address helper gets the first address of each family, and nothing where there is none |
| VethTheorems.RunAgain | plugins/ecs-bridge/engine/configureveth.go:62-225 | transforming the final table again changes nothing |

## Left out

- Failing reads and writes of the store, and boltdb's transactions and file lock: the store is an atomic map, and one command is at work at a time.
- Decoding of JSON and of environment variables: validation starts from decoded values whose subnets carry prefix masks.
- Config.LoadIPAMConfig: the `ipv4-subnet` is taken to be an IPv4 one, and IPv4 addresses to be in their 4-byte form.
- IPv4 addresses are held in their 4-byte form, whichever of Go's two forms the code holds; `To4` and `Equal` still tell the forms apart.
- Text.ParseIP: is defined on the texts that `String` prints, the only ones the allocator stores; other spellings of an address are not modelled.
- IPStore.IPManager.GetAvailableIP: requires an IPv4 subnet at or above 1.0.0.0, and a search that ends; below, the first step gives a slice that is no address (`Subnets.NextIPIsSuccessor`), and what the code then records is not modelled.
- IPStore.IPManager.GetAvailableIPv6: requires an IPv6 subnet that avoids the mapped addresses, and a search that ends; elsewhere the walk stops at a mapped address (`Deployment.WalksOnIffServed`).
- IPStore.IPManager.SearchFrom: the same.
- Commands.Session: and the commands below it require such subnets and searches that end; `EndlessSearch.SessionsEndIff` says when all do.
- StoreRuns.RepliesAreExclusive: requires usable subnets only, but beyond the served ones it is about the data functions and not about the methods.
- CommandRefinement.SessionRefines: requires fixed subnets and gateways, IPv4 subnets whose texts all start with 1, IPv6 subnets that avoid mapped IPv4 addresses, gateways and explicit addresses that are hosts, and explicit addresses of their own family; `Deployment.AcceptedIsDeployed` says which accepted configurations meet this. Below other IPv4 subnets the id scans miss records, so the numbered specification is not theirs.
- EndlessSearch.SessionsEndIff: requires fixed served subnets, gateways that are hosts, explicit addresses of their own family, and those asked of a subnet to be hosts.
- RunTheorems.ReleaseByIdIsExact: for IPv6 it exempts ids that end in the suffix of explicit addresses, unless no command of the run asks for one; `RunTheorems.ReleasedExactlyIff` shows that nothing less would do.
- Deployment.AcceptedIsDeployed: an explicit address comes with its subnet; the code validates no other.
- The routes of a result, its printing, logging, versions, capabilities and `main` packages: input and output.
- `UniqueIDDualStack`, `isIPv4`, `isIPv6`, `NewIPAllocator` and the field `lastKnownIPv4`: the commands do not use them.
- Bridge.ConfigureBridge: requires gateways of their address's version, which the allocator's results have; a listing that answers ENOENT is not modelled; every other failure of a netlink call is, as a call that changes nothing.
- Kernel removals: no other program deletes the bridge, its addresses or the interface's routes while the plugin is at work; without that no convergence holds.
- BridgeRace.Convergence: requires the processes to agree on one address per family, and a name that is free or a bridge's, with no addresses but agreed or kernel-assigned ones; agreement is needed by `BridgeRace.DisagreementBreaksStability` and its condition for results is `Deployment.ResultsAgreeIff`.
- Veth.Run: gateways are of their address's version and prefix lengths within 0 to 32 or 128; the helper `ConfigureIface` only adds routes, which are a parameter; a deletion removes just the route passed, and link indices and scopes are not kept.
- Generation of hardware addresses, veth pairs, namespaces, the ENI plugin and `pkg`: foreign calls, or only easy members.
