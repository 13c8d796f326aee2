# A verified model of qarax's control protocols

qarax is a control plane for virtual machines with an agent on every node and an init
process in every guest. This project models the parts of it that are real protocols, each as
the source runs it (objects whose fields change step by step, loops, pure functions), and
proves what those parts promise. Commands, row updates and calls to other machines are
single steps that may fail; what the outside world answers is always a parameter, so every
theorem holds for every answer.

| module | what it models |
|---|---|
| `Common` | optional values, order-preserving filters, least elements |
| `IptablesKernel` | the kernel's filter table: chains, the commands used, what `-S` prints, how a packet walks a chain |
| `Validation` | the interface-name, address and CIDR checks |
| `FirewallCompiler` | security-group rules, their translation, and the policy they mean |
| `ForwardText` | recognising FORWARD rules by substring and token set in printed text |
| `FirewallState` | what is in force between two commands; the safety condition |
| `FirewallSync` | `sync_vm_firewall` and `teardown_vm_firewall`, command by command, with faults |
| `FirewallTheorems` | packet verdicts, whole runs with retries, exactness of the jumps |
| `NetworkPolicy` | VXLAN overlays and blocked subnets computed from a cluster snapshot |
| `NetworkIsolation` | the per-bridge chains that enforce blocked subnets, for one bridge and for a whole host |
| `AddressText` | what the address checks accept: exactly the texts the control plane writes |
| `NatExemption` | reconciling the NAT exemptions of a bridge in POSTROUTING |
| `IsolationTeardown` | taking a bridge's isolation down, and whose rules that reaches |
| `Vxlan` | reconciling VXLAN devices, addresses, flood entries and routes |
| `OverlayNetwork` | the two together: what the kernels of two hosts hold |
| `ExitRegistry`, `ExitProtocol` | the guest's exit registry, and every interleaving of its users |
| `HaTiming`, `HaFailover`, `HaPlacement`, `HostGpus` | the failover monitor: when it acts, what it writes and reverts, where it places a VM, and the GPU allocator |
| `StorageCleanup` | the durable cleanup queue |
| `SandboxPool` | trimming and refilling a warm pool while watchers and claims interfere |
| `VsockCid` | the lock-free CID counter |
| `FirecrackerLifecycle` | the per-VM client and status state machine |
| `ShellQuote` | two levels of shell quoting, read back by a shell lexer |

## Where the code does less than promised

Each of these is proved, with the exact condition under which the promise holds.

- A jump left over for an address survives reconciliation exactly when some desired jump has
  that address and a bridge called `FORWARD` or like the parent chain
  (`FirewallTheorems.StaleSurvivesIff`, with `StaleJumpSurvives`), and the jumps to a parent
  are exactly the desired ones iff there is none such (`FirewallTheorems.JumpsExactIff`).
- Searching printed rules for `-j CHAIN` also finds chains whose name merely starts with
  `CHAIN`. An ordinary sync of one VM therefore deletes another VM's jumps, and so does a
  teardown, exactly when its sanitized identifier is a proper prefix of the other's (for a
  sync, unless the jump passes for a desired one): `FirewallTheorems.SyncReach`,
  `TeardownReach`, `PrefixVmLosesJumps`. Identifiers with 21 letters and digits, such as
  UUIDs, are safe (`ForwardText.FullNamesDoNotNest`).
- The same search makes taking down one bridge's isolation unhook another's exactly when its
  sanitized name is a prefix of the other's, as `br1` is of `br12`
  (`IsolationTeardown.TeardownReach`, `PrefixBridgeUnhooked`).
- A NAT exemption no longer wanted survives exactly when the local subnet itself is among the
  wanted ones (`NatExemption.StaleExemptionIff`, `StaleExemptionSurvives`). A sync deletes
  exemptions of other bridges whose name and subnet merely start alike
  (`NatExemption.SyncReach`, `PrefixBridgeLosesExemption`).
- While its chains are rewritten a bridge lets blocked packets pass: only the rules appended so
  far apply (`NetworkIsolation.HalfBuiltMeaning`).
- Bridges share their isolation chains exactly when their names have the same letters and
  digits, and a bridge keeps its own list exactly when the last bridge that shares its chains
  has the same one (`NetworkIsolation.ChainsSharedIff`, `OwnListIff`, `LaterBridgeUnblocks`).
- A thread can be sent another process's exit code. A thread whose exit record was pruned leaves
  a waiter that is never removed, and `waitpid` frees a pid before the exit is recorded. Handing
  out a free pid again is harmless exactly when nobody is still to be told about it
  (`ExitProtocol.SpawnHarmlessIff`, `StrayHarmlessIff`, with the failing runs
  `StaleWaiterArises`, `StaleWaiterTakesCode` and `CollectedPidMisleads`).
- A failover whose configuration update lands while its host update fails leaves the marker
  naming the VM's own host; the next clean-up of that host then deletes the only copy
  (`HaFailover.MarkerKeptIff`, `HaFailover.TornWriteLosesLastCopy`).
- The opening comment of `qarax/src/ha_monitor.rs` says stale copies are always deleted when
  their host returns. Every copy stays known exactly until a VM is moved while another copy of
  it still waits on a third host (`HaFailover.CopiesKnownIff`,
  `RunKnowsCopies`, `SecondFailoverForgetsCopy`).
- The request derived from a VM's GPUs fits those GPUs exactly when they are uniform
  (`HostGpus.RequestFitsIff`). After a move away the way back works exactly when enough suitable
  GPUs at home are free or were its own (`HostGpus.ReturnIff`, `HostGpus.MixedCannotReturn`).
- A subnet has one next hop exactly when at most one other host of the VPC has it
  (`NetworkPolicy.NextHopUniqueIff`).
- A VXLAN device keeps wrong attributes exactly when their text merely starts with the wanted
  text (`Vxlan.AttributesConvergeIff`).
- With no hosts recorded, the hosts listed by a clean-up attempt must all confirm exactly when
  that attempt's lookups, write and commit land, or when they had all confirmed anyway
  (`StorageCleanup.FirstListingBindsIff`, `RolledBackListingIsForgotten`).
- A refill that provisions ends above its target exactly when more members turned ready than
  were claimed between its two counts (`SandboxPool.OverfullIff`, `SandboxPool.RaceOverfills`).
- `advance_vsock_cid_past` moves the counter past its argument exactly when that is not the
  largest 64-bit value (`VsockCid.AdvancePastIff`).

## Assumptions

- Whether an address lies in a CIDR, and what a match the agent never uses means, are
  uninterpreted. `iptables -S` prints rules in the fixed order of `IptablesKernel.Print`, and
  `-D` with a specification removes the first rule that prints as it.
- A faulty command either has no effect or has its whole effect; both are reported as errors.
  `Vxlan` commands that fail have no effect, and a deleted address may take routes and other
  addresses with it.
- The kernel hands out no process identifier that a process not yet returned by `waitpid` has,
  and any other. Clocks never run backwards. A listing of down hosts names each once.
- Rows of one cluster snapshot agree on each host's address; underlay resolution is a function of
  the address; network identifiers identify networks; `Uuid::new_v5` is a parameter.
- The scheduler's pick is an eligible host outside the excluded list, or nothing when there
  is none. Marker theorems over runs assume the database accepts writes and the target is
  never the dead host. A start that is refused leaves no copy behind.
- Kernel listings show addresses, flood entries and static routes in the text in which they
  were configured.

## Model

| member | source | states |
|---|---|---|
| `FirewallCompiler.TranslateMeans` | qarax-node/src/networking/iptables.rs:231-291 | a translated rule matches a packet exactly when the security-group rule covers it, unknown enumeration values falling back to ingress and any protocol |
| `FirewallCompiler.WalkLowered` | qarax-node/src/networking/iptables.rs:231-291 | a lowered rule list accepts exactly what some rule of that direction covers and leaves every other packet to what follows |
| `FirewallCompiler.IngressMeaning` | qarax-node/src/networking/iptables.rs:179-293 | the built ingress chain accepts a packet iff it is established or covered by a rule of any interface whose direction is not 1, and drops it otherwise |
| `FirewallCompiler.EgressMeaning` | qarax-node/src/networking/iptables.rs:192-299 | the built egress chain accepts a packet iff it is established, or covered by a rule of direction 1, or no rule at all has direction 1 |
| `FirewallCompiler.OnlyTheRuleSetCounts` | qarax-node/src/networking/iptables.rs:208-291 | interface order, rule order and duplicates never change a verdict |
| `FirewallCompiler.CompiledNeverJump` | qarax-node/src/networking/iptables.rs:179-299 | a built chain never depends on any other chain |
| `AddressText.DottedIff` | qarax-node/src/networking/mod.rs:46-51 | the text of four numbers passes the address check iff each is below 256 |
| `AddressText.AddressIsDotted` | qarax-node/src/networking/mod.rs:46-51 | and nothing but such texts passes |
| `AddressText.CidrIff` | qarax-node/src/networking/mod.rs:30-44 | an address and a decimal length pass the CIDR check iff the address passes and the length is at most 32 |
| `AddressText.NameIff` | qarax-node/src/networking/mod.rs:12-26 | a name of letters, digits and hyphens passes iff it has at most 15 of them |
| `ForwardText.NamesDistinct` | qarax-node/src/networking/iptables.rs:19-32 | the six chains of a VM never coincide with each other or with FORWARD |
| `ForwardText.SanitizeMeans` | qarax-node/src/networking/iptables.rs:335-341 | a sanitized identifier is the first letters and digits of the text, cut only at the limit |
| `ForwardText.ContainsJump` | qarax-node/src/networking/iptables.rs:402-406 | searching a printed line for the text of a jump finds exactly the neighbouring tokens that spell it |
| `ForwardText.TargetIsMentioned` | qarax-node/src/networking/iptables.rs:402-406 | the line filter finds every rule that jumps to the parent, whatever else the rule matches on |
| `ForwardText.MentionsIsPrefix` | qarax-node/src/networking/iptables.rs:402-406 | for the agent's own jump rules the filter accepts exactly the chains whose name starts with the parent's |
| `ForwardText.TokenSetMeans` | qarax-node/src/networking/iptables.rs:505-510 | when a printed jump, to whatever chain, passes the token test for a desired one |
| `ForwardText.TokenSetIsEquality` | qarax-node/src/networking/iptables.rs:505-510 | for validated names and the same chain, token-set containment is equality of the jump rules, up to bridges named like FORWARD or the parent |
| `ForwardText.FullNamesDoNotNest` | qarax-node/src/networking/iptables.rs:335-341 | names from identifiers of equal sanitized length are prefixes of each other only when equal |
| `FirewallState.ParentVerdict` | qarax-node/src/networking/iptables.rs:367-394 | in a well-formed table a packet sent to the parent chain gets exactly the verdict of the child it points to |
| `FirewallState.SpareSafe` | qarax-node/src/networking/iptables.rs:170-299 | rewriting the child that is not in force changes nothing for any packet |
| `FirewallState.SwapSafe` | qarax-node/src/networking/iptables.rs:379-394 | pointing the parent at the finished child puts exactly the wanted rules in force |
| `FirewallSync.Agent.NextChild` | qarax-node/src/networking/iptables.rs:367-377 | the child chosen from the printed text is never the one in force |
| `FirewallSync.Agent.PointParent` | qarax-node/src/networking/iptables.rs:379-394 | the parent is untouched or holds exactly one jump to the new child, at every command and after any failure |
| `FirewallSync.Agent.EnsureJump` | qarax-node/src/networking/iptables.rs:355-365 | at most one insertion, and success means the jump is present |
| `FirewallSync.Agent.DeleteStale` | qarax-node/src/networking/iptables.rs:402-420 | success leaves exactly the lines that do not mention the parent or match a desired rule, in their order |
| `FirewallSync.Agent.SyncForward` | qarax-node/src/networking/iptables.rs:396-423 | FORWARD afterwards holds, as a set, exactly the desired jumps and those earlier rules, anybody's, that the text comparison keeps; rules that do not mention the parent keep their order; nothing else changes |
| `FirewallSync.Agent.RemoveReferences` | qarax-node/src/networking/iptables.rs:531-548 | without faults FORWARD keeps exactly the unrelated rules and the chain is gone |
| `FirewallSync.Agent.DeleteIfExists` | qarax-node/src/networking/iptables.rs:550-563 | only the named chain changes, and without faults it is gone unless something refers to it |
| `FirewallSync.Agent.Teardown` | qarax-node/src/networking/iptables.rs:322-333 | every intermediate table has the old rules or none in force; without faults all six chains are gone, so each deletion met an empty unreferenced chain |
| `FirewallSync.Agent.Build` | qarax-node/src/networking/iptables.rs:179-299 | the append loops fill the spare children with exactly the compiled chains, and succeed without faults exactly on valid requests |
| `FirewallSync.Agent.Install` | qarax-node/src/networking/iptables.rs:166-302 | choosing, filling and swapping keeps every intermediate table safe and ends with both parents on the wanted rules |
| `FirewallSync.Agent.Sync` | qarax-node/src/networking/iptables.rs:161-320 | after every command, wherever the sync stops, each direction has its whole old or whole new rules in force and foreign chains and rules are as they were; without faults it succeeds exactly on valid requests; success puts the request in force, gives every interface its jump in both directions and leaves only those and the kept rules in FORWARD |
| `FirewallTheorems.OldOrNewVerdict` | qarax-node/src/networking/iptables.rs:161-320 | in every intermediate table every packet gets the whole old verdict or the one the new policy demands |
| `FirewallTheorems.InForceVerdict` | qarax-node/src/networking/iptables.rs:161-320 | once a request is in force the parents accept exactly what its policy allows and drop the rest |
| `FirewallTheorems.SyncAll` | qarax-node/src/networking/iptables.rs:161-320 | over any number of syncs aborted anywhere, the rules in force are always the initial ones or one complete request's; a last sync without faults succeeds exactly on a valid request, and success puts it in force |
| `FirewallTheorems.ValidRequestIff` | qarax-node/src/networking/iptables.rs:199-291 | a request is valid iff every bridge, address and given CIDR is well formed and the ports of TCP and UDP rules are in order and in range |
| `FirewallTheorems.KeptForIff` | qarax-node/src/networking/iptables.rs:402-420 | when a sync of one VM keeps a jump of the same or another VM |
| `FirewallTheorems.JumpsExactIff` | qarax-node/src/networking/iptables.rs:396-423 | the jumps to a parent are, as a set, exactly one per interface of the request iff no stale jump can be mistaken for one |
| `FirewallTheorems.EveryInterfaceGuarded` | qarax-node/src/networking/iptables.rs:212-231 | after a successful sync every packet to or from the address of any interface of the request, through its bridge, matches a jump to the parent chain of its direction |
| `FirewallTheorems.OwnJumpsKept` | qarax-node/src/networking/iptables.rs:396-423 | what exactness needs of FORWARD holds again afterwards, so it holds for every later sync |
| `FirewallTheorems.StaleSurvivesIff` | qarax-node/src/networking/iptables.rs:407-412 | when a stale jump survives, for any list of desired jumps |
| `FirewallTheorems.StaleJumpSurvives` | qarax-node/src/networking/iptables.rs:407-412 | an address that moved to a bridge called FORWARD keeps its old jump |
| `FirewallTheorems.SyncReach` | qarax-node/src/networking/iptables.rs:396-423 | when an ordinary sync of one VM deletes another VM's jump, in either direction |
| `FirewallTheorems.TeardownReach` | qarax-node/src/networking/iptables.rs:531-545 | when one VM's teardown deletes another VM's jump, in either direction |
| `FirewallTheorems.PrefixVmLosesJumps` | qarax-node/src/networking/iptables.rs:402-420 | VMs 1 and 12: every sync of the first takes away the jumps of the second |
| `NetworkPolicy.NamingInRange` | qarax/src/network_policy.rs:327-352 | the VNI is a non-zero 24-bit number (section 5 of RFC 7348); an address is given exactly for the first 254 hosts and lies in 100.64.0.0/10 (section 7 of RFC 6598) with last octet 1 to 254 |
| `NetworkPolicy.VniSharedIff` | qarax/src/network_policy.rs:332-337 | two VPCs share a segment iff the first three bytes of their seeds agree or are [0, 0, 0] and [0, 0, 1] |
| `NetworkPolicy.NameSharedIff` | qarax/src/network_policy.rs:327-330 | two VPCs share a device name iff the first four bytes of their seeds agree |
| `NetworkPolicy.Participants` | qarax/src/network_policy.rs:298-312 | each participating host with exactly its attachments to the VPC, in snapshot order |
| `NetworkPolicy.SortedHosts` | qarax/src/network_policy.rs:314-318 | a strictly ascending listing of exactly the participants |
| `NetworkPolicy.PositionIsRank` | qarax/src/network_policy.rs:226-235 | a host's place in the list is the number of smaller participants, so every host computes the same one |
| `NetworkPolicy.Position` | qarax/src/network_policy.rs:226-235 | the search finds that number for participants and nothing for others |
| `NetworkPolicy.Neighbours` | qarax/src/network_policy.rs:241-273 | flood list and routes are those of all other participants, or an error exactly when one of their addresses does not resolve |
| `NetworkPolicy.OverlayFor` | qarax/src/network_policy.rs:213-286 | the overlay is the one the snapshot defines, and is produced exactly when the host takes part, at most 254 hosts do and all addresses resolve |
| `NetworkPolicy.OverlayDescribed` | qarax/src/network_policy.rs:230-287 | what a host computes, field by field from snapshot, seed and resolver: name and identifier spell the seed, the local address counts the participants that sort before it, peers and routes are exactly those of the other participants |
| `NetworkPolicy.Overlays` | qarax/src/network_policy.rs:193-287 | a host gets an overlay for exactly those of its VPCs that span several hosts, or an error exactly when one of them cannot be computed |
| `NetworkPolicy.HostsAgree` | qarax/src/network_policy.rs:193-356 | two hosts computing independently agree on VNI and interface, list each other as peers, take different addresses, and one routes a subnet through the other's own address exactly when it is attached there |
| `NetworkPolicy.NothingElse` | qarax/src/network_policy.rs:241-273 | every route and every peer belongs to some other participant |
| `NetworkPolicy.NextHopUniqueIff` | qarax/src/network_policy.rs:241-273 | when a subnet has a single next hop |
| `NetworkPolicy.SharedSubnetHasTwoHops` | qarax/src/network_policy.rs:269-273 | a concrete snapshot in which one subnet has two next hops |
| `NetworkPolicy.BlockedInOnePass` | qarax/src/network_policy.rs:77-104 | the host-local part plus the remote part of the cluster is one pass over the whole cluster, whichever host asks |
| `NetworkPolicy.NetworksOnMembers` | qarax/src/network_policy.rs:164-173 | the host-local list holds exactly the networks attached to the host |
| `NetworkPolicy.NamedVpcsBlockEachOther` | qarax/src/network_policy.rs:77-104 | networks of two named VPCs block each other wherever they are attached |
| `NetworkPolicy.ExemptOrBlocked` | qarax/src/network_policy.rs:77-126 | for an isolated network every other attached network is exempt from NAT or blocked |
| `NetworkPolicy.BlockedIff` | qarax/src/network_policy.rs:77-104 | a subnet is blocked for a network of a VPC iff some attached network outside that VPC has it, on whichever host |
| `NetworkPolicy.ExemptIff` | qarax/src/network_policy.rs:106-126 | a subnet is exempt from NAT iff the network is isolated and another attached network of its VPC has it |
| `NetworkIsolation.WantedMeaning` | qarax-node/src/networking/iptables.rs:139-145 | a finished chain drops a packet iff its far end lies in a blocked subnet and returns otherwise |
| `NetworkIsolation.HalfBuiltMeaning` | qarax-node/src/networking/iptables.rs:136-145 | a chain that holds the first n rules drops exactly the packets whose far end lies in the first n blocked subnets, so one just flushed drops nothing |
| `NetworkIsolation.HalfBuiltIsLenient` | qarax-node/src/networking/iptables.rs:136-145 | a chain left half built never drops what the finished one would let through |
| `NetworkIsolation.OwnListIff` | qarax/src/network_policy.rs:46-75 | after a host's sync a bridge's chains hold its own list iff the last bridge that shares them has the same one |
| `NetworkIsolation.HostKeepsVpcsApart` | qarax/src/network_policy.rs:46-75 | in the table after a host's whole sync, a network's own chains drop every packet to or from another named VPC, given that condition |
| `NetworkIsolation.SameVpcSameBlocked` | qarax/src/network_policy.rs:77-104 | sharing chains within one VPC is harmless: the lists are the same |
| `NetworkIsolation.LaterBridgeUnblocks` | qarax/src/network_policy.rs:46-75 | a concrete pair of bridges after whose sync a blocked packet passes |
| `NetworkIsolation.ChainsSharedIff` | qarax-node/src/networking/iptables.rs:128-129 | bridges share chains iff the first 20 letters and digits of their names agree |
| `NetworkIsolation.BridgesMayShareChains` | qarax-node/src/networking/iptables.rs:128-129 | two valid bridge names with the same chains |
| `NetworkIsolation.Isolator.Sync` | qarax-node/src/networking/iptables.rs:113-148 | success installs exactly the wanted chains, their jumps and the NAT exemptions; after any failure other chains are untouched, FORWARD only gained jumps, and the two chains are old or a prefix of the new; invalid input changes nothing |
| `NetworkIsolation.Isolator.SyncHost` | qarax/src/network_policy.rs:46-75 | one bridge after the other: every bridge is hooked and its chains hold the list of the last bridge that shares them; chains of no bridge are untouched |
| `NatExemption.NatChain.Sync` | qarax-node/src/networking/iptables.rs:453-503 | POSTROUTING afterwards is new exemptions in front and, in their order, exactly the lines that the text comparison keeps; every wanted exemption is there; a failure loses no line that would be kept |
| `NatExemption.StaleExemptionIff` | qarax-node/src/networking/iptables.rs:477-490 | when an exemption no longer wanted survives |
| `NatExemption.StaleExemptionSurvives` | qarax-node/src/networking/iptables.rs:477-490 | a concrete one that does |
| `NatExemption.ExemptionsExactIff` | qarax-node/src/networking/iptables.rs:453-503 | the exemptions of a bridge and subnet are exactly the wanted ones iff none survives that way |
| `NatExemption.LooksOursIff` | qarax-node/src/networking/iptables.rs:477-484 | a line of another bridge and subnet passes for one of these iff both their texts start with these |
| `NatExemption.SyncReach` | qarax-node/src/networking/iptables.rs:453-510 | a sync deletes the exemption of any bridge and subnet iff they start with the synced ones and no wanted exemption is spelled by its tokens |
| `NatExemption.MasqueradeKept` | qarax-node/src/networking/iptables.rs:44-59 | no sync ever takes the masquerading rule of any valid bridge and subnet for an exemption |
| `NatExemption.PrefixBridgeLosesExemption` | qarax-node/src/networking/iptables.rs:477-503 | a sync of `br1` deletes an exemption of `br12` for the same subnet |
| `IsolationTeardown.Teardown` | qarax-node/src/networking/iptables.rs:150-159 | without faults the bridge's chains are gone, unless another chain refers to them, and FORWARD holds exactly the rules that mention neither; in any case no other chain changes and FORWARD loses no such rule |
| `IsolationTeardown.TeardownReach` | qarax-node/src/networking/iptables.rs:531-552 | it unhooks another bridge's isolation iff its sanitized name is a prefix of the other's |
| `IsolationTeardown.PrefixBridgeUnhooked` | qarax-node/src/networking/iptables.rs:531-552 | taking down `br1` leaves `br12` without isolation |
| `Vxlan.SyncConverges` | qarax-node/src/networking/vxlan.rs:10-57 | from any kernel state the managed devices end up exactly the desired ones, each with one address, its peers as flood set and its last-wins routes; other devices are untouched |
| `Vxlan.SyncIsIdempotent` | qarax-node/src/networking/vxlan.rs:10-57 | a second run changes nothing |
| `Vxlan.AttributesConvergeIff` | qarax-node/src/networking/vxlan.rs:88-111 | identifier, address, port and learning end up as wanted iff no lookalike with other attributes was there, whose attributes stay |
| `Vxlan.ResemblesIff` | qarax-node/src/networking/vxlan.rs:106-112 | the four searches in the printed device text accept exactly the devices whose identifier, address and port start with the wanted ones and that do not learn |
| `Vxlan.OtherSegmentMaySurvive` | qarax-node/src/networking/vxlan.rs:105-110 | a device of segment 12 is kept when segment 1 is wanted |
| `Vxlan.LastWinsKeys` | qarax-node/src/networking/vxlan.rs:262-265 | the desired route map covers exactly the listed subnets |
| `Vxlan.LastWinsValue` | qarax-node/src/networking/vxlan.rs:258-290 | a subnet is routed through the hop of its last entry |
| `Vxlan.Node.SyncAddress` | qarax-node/src/networking/vxlan.rs:141-167 | the device ends with exactly the one address even if deletions take other addresses with them, in which case the run may be reported as failed; tunnel, state and flood entries stay, and routes are only lost |
| `Vxlan.Node.SyncFlood` | qarax-node/src/networking/vxlan.rs:186-239 | the flood set ends up equal to the peers |
| `Vxlan.Node.SyncRoutes` | qarax-node/src/networking/vxlan.rs:258-318 | the static routes end up equal to the desired list read last-wins |
| `Vxlan.Node.Reconcile` | qarax-node/src/networking/vxlan.rs:29-57 | one device ends as desired from any state; invalid overlays are refused before any command; other devices never change |
| `Vxlan.Node.Sync` | qarax-node/src/networking/vxlan.rs:10-27 | the whole run computes that state, succeeds whenever commands and validation do, and never touches unmanaged devices even when it fails |
| `OverlayNetwork.KernelsMeet` | qarax/src/network_policy.rs:230-287 | after both nodes synced, one host's kernel routes a subnet that only the other has to the very address the other's device holds, and each floods to the other |
| `OverlayNetwork.KernelsMeetSome` | qarax/src/network_policy.rs:230-287 | a subnet that several other hosts have is routed to the overlay address of one of them |
| `OverlayNetwork.KernelHolds` | qarax/src/network_policy.rs:230-287 | every host's device holds exactly its own overlay address |
| `OverlayNetwork.NodeAccepts` | qarax/src/network_policy.rs:230-287 | whatever the control plane computes passes the node's checks of names, addresses, subnets and hops, given valid subnets and resolvable hosts |
| `ExitRegistry.PruneCause` | qarax-init/src/main.rs:64-85 | a record vanishes only over age, or when 128 records at least as new are kept |
| `ExitRegistry.PruneLeaves` | qarax-init/src/main.rs:64-85 | pruning alters no record and leaves at most 128, none older than 30 seconds |
| `ExitRegistry.SurvivesIff` | qarax-init/src/main.rs:64-85 | of at most 129 records some pruning keeps each one, except one that alone is the oldest of 129 |
| `ExitRegistry.Shared.Prune` | qarax-init/src/main.rs:64-85 | what remains is every recent record, or the newest 128 |
| `ExitRegistry.Shared.Begin` | qarax-init/src/main.rs:87-91 | the critical section is one step of the protocol |
| `ExitRegistry.Shared.Register` | qarax-init/src/main.rs:93-103 | a recorded exit is handed over at once and forgotten; otherwise the thread waits |
| `ExitRegistry.Shared.Cancel` | qarax-init/src/main.rs:105-109 | the critical section is one step of the protocol |
| `ExitRegistry.Shared.RecordExit` | qarax-init/src/main.rs:111-126 | a waiter gets the code; without one it is kept only while some registration is pending |
| `ExitProtocol.StepKeeps` | qarax-init/src/main.rs:87-126 | every critical section, every return of waitpid and every pid handed out keep the protocol invariant, unless somebody is still to be told about that pid |
| `ExitProtocol.RunKeeps` | qarax-init/src/main.rs:358-518 | the invariant holds in every state of every interleaving without such a pid, waitpid and the record of the exit being separate steps |
| `ExitProtocol.ExactlyOnce` | qarax-init/src/main.rs:358-518 | in those interleavings a registered thread whose child's exit is recorded has been sent exactly its own child's code, once, whichever came first, unless its record was pruned; nobody else is sent anything |
| `ExitProtocol.SentStaysSent` | qarax-init/src/main.rs:93-126 | what a thread was sent stays sent: its channel only ever carries more |
| `ExitProtocol.SpawnHarmlessIff` | qarax-init/src/main.rs:98-126 | giving a new child any pid the kernel has free leaves every thread served whatever follows iff no thread is yet to ask for the pid or waits for a pruned code of it, waitpid has returned no exit of it that is not recorded, and no record of it can outlive the next pruning |
| `ExitProtocol.StrayHarmlessIff` | qarax-init/src/main.rs:111-126 | for a process that belongs to no exec thread the same holds iff no thread is yet to ask for the pid or waits for a pruned code of it |
| `ExitProtocol.StaleWaiterTakesCode` | qarax-init/src/main.rs:98-102 | a failing case: the old thread receives the new child's code and the new thread waits for ever |
| `ExitProtocol.StaleWaiterArises` | qarax-init/src/main.rs:64-102 | its concrete input: a run from the empty registry in which forty seconds pass between exit and registration |
| `ExitProtocol.CollectedPidMisleads` | qarax-init/src/main.rs:506-518 | another failing case: between waitpid and the record the pid goes to a new child, whose thread is sent the earlier process's code while its own child runs |
| `ExitProtocol.RegistryKeeps` | qarax-init/src/main.rs:55-126 | bounds, disjointness and the pending count survive every step whatever pids are handed out |
| `ExitProtocol.RegistryBounds` | qarax-init/src/main.rs:55-61 | in every interleaving at most 129 records, no pid both awaited and recorded, and the pending counter equals the threads between begin and register or cancel |
| `ExitProtocol.LostOnlyByPruning` | qarax-init/src/main.rs:64-85 | a code is lost only in a critical section that prunes the record by age or by count |
| `ExitProtocol.ReusedPidMisleads` | qarax-init/src/main.rs:98-102 | a third: with a record of the pid kept, its new thread receives somebody else's code before its own child exits |
| `HaTiming.Monitor.TryVm` | qarax/src/ha_monitor.rs:192-201 | a candidate is skipped exactly while its cooldown runs, and otherwise attempted at the clock reading taken |
| `HaTiming.Monitor.FailoverHost` | qarax/src/ha_monitor.rs:179-203 | every candidate that is due is attempted, nothing else is, and each attempt is stamped with a clock reading of this call |
| `HaTiming.Monitor.Visit` | qarax/src/ha_monitor.rs:85-111 | a reachable host is forgotten and never failed over; an unreachable one keeps its first mark and is failed over exactly when that is at least the grace period old, on the strength of exactly the log so far |
| `HaTiming.Monitor.RunCycle` | qarax/src/ha_monitor.rs:72-112 | a cycle adds exactly its listing to the log, at the clock readings it took; exactly the hosts that failed their probe are marked, with their first mark kept; each host is judged at the reading after its probe, and failed over then exactly when it did not answer and its mark is at least the grace period old, so only overdue hosts and all hosts overdue when the cycle began; attempts are on candidates of unreachable hosts; a failed listing changes nothing else |
| `HaTiming.Monitor.Watch` | qarax/src/ha_monitor.rs:45-70 | in every run the log is tick by tick what was listed and probed, each cycle at its own clock readings; each failover was made in one cycle, at a reading of that cycle, and earned by failed probes up to that very cycle; attempts on one VM are at least the cooldown apart |
| `HaTiming.ListingsMean` | qarax/src/ha_monitor.rs:45-70 | the listings of a run are, in order, those of the ticks outside maintenance |
| `HaTiming.EarnedByTicks` | qarax/src/ha_monitor.rs:99-111 | a failover means failed probes in every working listing from some cycle on through the cycle that made it, the first at least the grace period before |
| `HaTiming.AnswerRestartsGrace` | qarax/src/ha_monitor.rs:81-97 | a cycle in which the host answers or is no longer listed restarts the grace period: no failover comes sooner than that after any clock reading up to that cycle |
| `HaTiming.OverdueIff` | qarax/src/ha_monitor.rs:99-111 | settling each host it saw, a cycle fails over no host early and forgets no host whose mark was old enough when it began |
| `HaFailover.MarkerRoundTrip` | qarax/src/model/vms.rs:98-122 | the marker reads back as written and no other setting changes |
| `HaFailover.MarkerKeptIff` | qarax/src/ha_monitor.rs:273-324 | when a failover leaves the marker different from the recorded host |
| `HaFailover.FailureRestores` | qarax/src/ha_monitor.rs:281-324 | with a working database a failover that does not succeed restores host, status and configuration exactly |
| `HaFailover.SuccessForgetsEarlierSource` | qarax/src/ha_monitor.rs:273-276 | a successful failover names its own source and drops an earlier one |
| `HaFailover.TornWriteLosesLastCopy` | qarax/src/ha_monitor.rs:273-278 | the configuration update without the host update makes the next clean-up delete the only copy and forget it |
| `HaFailover.Database.ExecuteFailover` | qarax/src/ha_monitor.rs:256-314 | at every exit every setting but the marker is as before; success means planned, written, moved and started, and then host, status and marker are the new ones; GPUs move all or nothing, whether the move goes through being decided by the target's free GPUs |
| `HaFailover.FinalFields` | qarax/src/ha_monitor.rs:256-324 | host, status, marker and settings after a failover, each from which of the six updates reach the database |
| `HaFailover.Database.CleanupStale` | qarax/src/ha_monitor.rs:116-162 | a delete that worked or found nothing clears the marker that names the host, an error leaves the row as it was, and nothing but that marker ever changes |
| `HaFailover.CopiesCleaned` | qarax/src/ha_monitor.rs:138-162 | a failed delete leaves the copies of a VM as they were, any other removes the marked one |
| `HaFailover.Database.RunSteps` | qarax/src/ha_monitor.rs:72-162 | every run is a history of specified steps; with a working database no marker ever names the recorded host, and a marker disappears only behind a confirmed delete on its host or a newer failover |
| `HaFailover.CopiesKnownIff` | qarax/src/ha_monitor.rs:116-324 | a step keeps every copy on the recorded or the marked host iff it is not a failover that succeeds for a VM whose marker names a copy on a host other than the target |
| `HaFailover.RunKnowsCopies` | qarax/src/ha_monitor.rs:72-162 | over whole runs, every copy stays known exactly until the first such move |
| `HaFailover.SecondFailoverForgetsCopy` | qarax/src/ha_monitor.rs:273-276 | the concrete run: two hosts die one after the other, and the copy on the first is on no record |
| `HaPlacement.PickFailoverHost` | qarax/src/ha_monitor.rs:412-455 | the search terminates, returns only an eligible host with every required pool, and fails only when there is none |
| `HostGpus.TakeFirst` | qarax/src/model/host_gpus.rs:162-175 | the lowest PCI addresses among the available rows, as many as asked for or all |
| `HostGpus.GpuTable.Allocate` | qarax/src/model/host_gpus.rs:151-188 | exactly those rows change owner |
| `HostGpus.GpuTable.Reallocate` | qarax/src/ha_monitor.rs:343-373 | all or nothing: the VM ends with exactly the requested count on the target, all suitable, everyone else unchanged, or the table is unchanged; success is decided by what is free after its own rows are released |
| `HostGpus.MovedMeans` | qarax/src/model/host_gpus.rs:151-189 | from the columns: a move gives the VM exactly as many eligible GPUs as asked for, those first on the bus, iff there are that many; every other row is as before, and a failed move changes nothing |
| `HostGpus.RequestCounts` | qarax/src/ha_monitor.rs:326-338 | a VM without GPUs asks for none and any other for as many as it has |
| `HostGpus.LeastVramMeans` | qarax/src/ha_monitor.rs:326-338 | the least memory asked for is the least any of the GPUs is known to have |
| `HostGpus.FirstVendorIsFirst` | qarax/src/ha_monitor.rs:326-338 | the vendor asked for is the first one known |
| `HostGpus.FirstModelIsFirst` | qarax/src/ha_monitor.rs:326-338 | and so is the model |
| `HostGpus.RequestFitsIff` | qarax/src/ha_monitor.rs:326-339 | the derived request fits the GPUs it came from iff they are uniform |
| `HostGpus.MoveAwayAndBack` | qarax/src/ha_monitor.rs:294-304 | a uniform allocation can always return home if nobody allocates in between |
| `HostGpus.ReturnIff` | qarax/src/ha_monitor.rs:294-304 | after any successful move away the way back succeeds iff the suitable GPUs at home that are free or were the VM's own are enough |
| `HostGpus.MixedRefusesOwn` | qarax/src/ha_monitor.rs:326-339 | a mixed allocation has a row its own request refuses |
| `HostGpus.MixedCannotReturn` | qarax/src/ha_monitor.rs:294-304 | a concrete inventory in which the move away succeeds and the move back fails |
| `HostGpus.MixedRequest` | qarax/src/ha_monitor.rs:326-339 | the request in that example is the one derived from the VM's GPUs |
| `StorageCleanup.Cleanup.Contact` | qarax/src/storage_cleanup.rs:43-65 | the loop ends exactly when enough nodes confirmed, a lookup failed or none is left; the remaining list is exactly the targets whose nodes did not confirm; completion needs one confirming reply on a shared pool and all of them on a local one |
| `StorageCleanup.Cleanup.Process` | qarax/src/storage_cleanup.rs:23-86 | row, confirmations and obligations after an attempt are an exact function of what was there, the replies and the database's answers; errors are reported exactly when the outcome did not land or its commit went unreported |
| `StorageCleanup.SharedAttempt` | qarax/src/storage_cleanup.rs:36-90 | on a shared pool an attempt deletes the row iff some listed host is known and confirms before any failed lookup; without one the row keeps the whole listing, and any failure leaves it alone |
| `StorageCleanup.SharedStopsAtFirst` | qarax/src/storage_cleanup.rs:43-60 | nobody is contacted after the first host that confirms |
| `StorageCleanup.LocalAttempt` | qarax/src/storage_cleanup.rs:36-90 | on a local pool an attempt deletes the row iff there are targets and each confirms before any failed lookup; otherwise the row keeps exactly the targets that did not confirm |
| `StorageCleanup.AnswerMeans` | qarax/src/storage_cleanup.rs:49-61 | a host counts as having answered iff it was contacted, exists, and that very call was confirmed |
| `StorageCleanup.ConfirmedByReply` | qarax/src/storage_cleanup.rs:43-65 | over any attempts a host counts as confirmed iff its node confirmed during one of them |
| `StorageCleanup.Cleanup.Retry` | qarax/src/storage_cleanup.rs:21-86 | any sequence of attempts leaves exactly the specified state |
| `StorageCleanup.LocalRetriesSafe` | qarax/src/storage_cleanup.rs:21-86 | over any attempts, rolled back or not, a local row goes only after every obliged host confirmed, and always names those that did not |
| `StorageCleanup.SharedRowGone` | qarax/src/storage_cleanup.rs:36-65 | a shared row goes only in an attempt in which a host of its listing confirmed |
| `StorageCleanup.FirstListingBindsIff` | qarax/src/storage_cleanup.rs:38-83 | whether all hosts of a first listing must confirm, whatever attempts follow: iff the attempt landed, or they had confirmed anyway |
| `StorageCleanup.RolledBackListingIsForgotten` | qarax/src/storage_cleanup.rs:38-40 | two concrete attempts after which a listed host never confirmed and the row is gone |
| `SandboxPool.Pool.Destroy` | qarax/src/sandbox_pool_manager.rs:238-265 | at most one ready member is lost however marking and deleting fail |
| `SandboxPool.Pool.Trim` | qarax/src/sandbox_pool_manager.rs:68-86 | trimming alone never takes the ready members below the target, and undisturbed removes exactly the oldest surplus ones |
| `SandboxPool.Pool.ProvisionOne` | qarax/src/sandbox_pool_manager.rs:138-193 | one attempt adds no row, a provisioning one, or an error; a start failure that cannot be recorded leaves a provisioning row nobody watches |
| `SandboxPool.Pool.Refill` | qarax/src/sandbox_pool_manager.rs:88-135 | its two counts see exactly the rows of their moments; the live members end at most at the old number or at the target plus those missed between the counts, and exactly there when provisioning is undisturbed |
| `SandboxPool.OverfullIff` | qarax/src/sandbox_pool_manager.rs:88-135 | a refill that provisions ends above its target iff more members turned ready than were claimed between its counts |
| `SandboxPool.RaceOverfills` | qarax/src/sandbox_pool_manager.rs:88-135 | a pool with target 1 ends with two live members |
| `SandboxPool.Pool.Sync` | qarax/src/sandbox_pool_manager.rs:50-136 | every second count directly follows its first; the live members stay within the target plus what the transcript says those counts missed; undisturbed, errors are cleared and the pool is trimmed and refilled exactly, and a full pool is left as it is |
| `SandboxPool.Pool.Syncs` | qarax/src/sandbox_pool_manager.rs:33-39 | over any syncs and events the live members exceed the largest target by at most what some refill's two counts missed, hence only if a member turned ready just before a second count |
| `SandboxPool.Pool.Converge` | qarax/src/sandbox_pool_manager.rs:50-136 | once all provisioning succeeds an undisturbed pool holds exactly its target of ready members, however many syncs follow |
| `VsockCid.StepKeeps` | qarax-node/src/firecracker/helpers.rs:28-48 | every atomic access, including a compare-and-swap that fails spuriously, keeps the invariant and never lowers the counter |
| `VsockCid.CounterGrows` | qarax-node/src/firecracker/helpers.rs:28-48 | over every interleaving the counter never decreases |
| `VsockCid.CidsNeverMeet` | qarax-node/src/firecracker/helpers.rs:28-48 | over all interleavings, as long as the counter is not pushed to the top, assigned CIDs are at least 0x5000 and pairwise different and none issued after an advance returned is at or below its argument |
| `VsockCid.AdvancePastIff` | qarax-node/src/firecracker/helpers.rs:34-48 | an undisturbed advance leaves the counter just past its argument, or where it was if already past, iff the argument is not the largest 64-bit value |
| `VsockCid.CidsInOrder` | qarax-node/src/firecracker/helpers.rs:28-48 | without recovered VMs the CIDs issued are 0x5000, 0x5001 and so on |
| `VsockCid.AdvanceGoesOn` | qarax-node/src/firecracker/helpers.rs:34-48 | a thread inside an advance always has exactly one next step: leaving once the counter it saw is past, swapping until then |
| `FirecrackerLifecycle.Manager.Start` | qarax-node/src/firecracker/mod.rs:341-364 | which error each state gives; a failed start loses the client and never leaves the VM marked running or paused |
| `FirecrackerLifecycle.Manager.Pause` | qarax-node/src/firecracker/mod.rs:410-435 | refused exactly without a live client; failure changes nothing |
| `FirecrackerLifecycle.Manager.Resume` | qarax-node/src/firecracker/mod.rs:437-457 | succeeds exactly with a live client and an accepting SDK; failure changes nothing |
| `FirecrackerLifecycle.Manager.Describe` | qarax-node/src/firecracker/mod.rs:510-533 | an explicit shutdown is never overruled; otherwise a live VM's status becomes what it says, and nothing else changes |
| `FirecrackerLifecycle.Manager.Snapshot` | qarax-node/src/firecracker/mod.rs:540-585 | the second look at the client never fails |
| `FirecrackerLifecycle.Manager.Recover` | qarax-node/src/firecracker/mod.rs:719-752 | a recovered VM has the status it reports, or an unknown one when it was not reached, does not answer or was never started |
| `FirecrackerLifecycle.Manager.Run` | qarax-node/src/firecracker/mod.rs:341-752 | every run is a sequence of exactly specified operations; a VM marked running or paused has a live client, and one whose client was lost is never marked so again until it is replaced |
| `FirecrackerLifecycle.StatusExplained` | qarax-node/src/firecracker/mod.rs:341-752 | in every run from the empty manager each VM's status was given by one operation on it that came out accordingly, and nothing changed it since |
| `FirecrackerLifecycle.LostStays` | qarax-node/src/firecracker/mod.rs:341-365 | after a failed start nothing that needs the client succeeds until the VM is replaced |
| `FirecrackerLifecycle.FailureKeepsStatus` | qarax-node/src/firecracker/mod.rs:341-640 | a failed operation leaves the status alone, save a snapshot that got as far as pausing |
| `ShellQuote.LexQuoted` | qarax/src/host_deployer.rs:338-340 | anywhere in any word the shell reads a quoted text as exactly that text, with nothing left to interpret |
| `ShellQuote.QuoteRoundTrip` | qarax/src/host_deployer.rs:338-340 | quoting round-trips for every string: the shell reads one word, that text, ends outside quotes and has run nothing before it |
| `ShellQuote.InertInjective` | qarax/src/host_deployer.rs:338-340 | the word read back determines the text that was quoted |
| `ShellQuote.RemoteCommandParses` | qarax/src/host_deployer.rs:109-110 | the remote shell ends outside quotes with exactly one command, `bash`, `-lc` and the script, and no other before it |
| `ShellQuote.BuildScript` | qarax/src/host_deployer.rs:122-160 | whatever the image text, the script runs its fixed preparation, one `bootc switch` whose only argument is the trimmed image, and at most the reboot |
| `ShellQuote.RenderPieces` | qarax/src/host_deployer.rs:122-147 | the script text is its pieces in order, the quoted ones inside double quotes |
| `ShellQuote.TrimMeans` | qarax/src/host_deployer.rs:152 | trimming removes white space at both ends and nothing else |
| `ShellQuote.DeployCommand` | qarax/src/host_deployer.rs:109-160 | both levels together: the shell that reads the remote command passes on a script that does exactly that |

## Left out

- `setup_nat`, `teardown_nat` and `remove_nat_exemption_rules`: fixed commands whose failures are ignored; the last finds its lines by the same text as a sync, which `NatExemption.LooksOursIff` characterises.
- Whole-FORWARD verdicts over several VMs and bridges: the code fixes no order between their jumps.
- FirewallTheorems.JumpsExactIff: assumes that rules mentioning the parent are plain jumps; the agent deletes or keeps a hand-made rule with extra matches by its tokens only, as `FirewallSync.Agent.SyncForward` states.
- NatExemption.ExemptionsExactIff: speaks of one bridge and subnet; lines of others are the subject of `NatExemption.SyncReach`.
- ExitProtocol.ExactlyOnce: holds of the runs `ExitProtocol.SpawnHarmlessIff` and `ExitProtocol.StrayHarmlessIff` single out; in the others the code sends foreign codes.
- ExitRegistry: the timeout path of an exec request only stops listening on its channel and does not touch the registry.
- Vxlan.AttributesConvergeIff: assumes that the device text shows each attribute once, and that the device there shows a well-formed local address.
- NetworkPolicy: the cache of resolved addresses and the sorted order in which overlays and subnets are sent; results are sets and maps.
- HaFailover: the best-effort stop and delete on the dead host before a failover, and job bookkeeping; no row depends on them.
- HostGpus: `sync_gpus` inventories a host and takes no part in failover; a failed commit is a rolled-back move.
- StorageCleanup: the wording of errors and the retry time.
- SandboxPool: a claimed member that was already listed for trimming loses its VM; only member rows are modelled.
- VsockCid: CIDs chosen by the user are not advanced past and may meet assigned ones; termination of the compare-and-swap loop depends on the processor.
- FirecrackerLifecycle: TAP devices, sockets and files; clean-up on error paths is partial in the source.
- ShellQuote: NUL characters, which no argument can carry, and locale-dependent blanks; expansions are not performed, only shown to be impossible in quoted text.
- `cli`, the SDK, the REST handlers, schedulers, storage back ends, DHCP, bridges and image handling: plumbing around the protocols above.
