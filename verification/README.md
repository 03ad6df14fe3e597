# SovereignMesh: a verified model

A Dafny model of the parts of SovereignMesh that carry its guarantees, with proofs that the code keeps them.
`dafny verify dfyconfig.toml` checks the whole project.

The modules follow the source, one or two for each file.

- **The SVRN channel** (`Primitives`, `Wire`, `Replay`, `Transport`, `Handshake`, `KeySchedule`, `Ratchet`,
  `Channel`, `Rekeying`, `Interleaving`). Cryptography is a record of functions, and its laws (Diffie-Hellman
  agrees, opening undoes sealing, a tag has 16 bytes) are hypotheses of the theorems that use them. `Handshake` has
  the two sides' own chains of steps; `KeySchedule` proves that both follow one symmetric state, updated step by
  step, and that the pre-shared key decides. The replay filter is the sixteen words of the source, shifted in place,
  proved against the set of counters accepted. `Ratchet` has the manager's methods one call at a time, `Channel`
  whole runs over a network that loses, duplicates and reorders, `Rekeying` the same through any number of key
  rotations with the 15-second grace period, and `Interleaving` concurrent calls as atomic actions. Words are natural
  numbers below 2^64 with bitwise operations on their binary digits (`Bits`).
- **Access control** (`Policy`, `Engine`, `Duality`, `Netfilter`, `ConntrackRuns`, `Vip`). The engine and its
  compiler, the filter that interprets the tables, and the allocator of the addresses both rely on. What a table
  decides is stated over its rules (the first that meets the packet, deny by default). The compiled tables mean what
  the policies say, and sender and receiver agree. `GetPeerGroups` reports group:all for every node while the compiler
  reads the listed peers, so the agreement fails for some nodes: it holds exactly when both are listed in group:all
  or neither is listed anywhere.
- **Codecs** (`Cell`, `Onion`, `Stun`, `Checksum`). Buffers are arrays filled as in the source. The checksum of a
  rewritten header verifies for every packet that claims at least 12 header bytes. The code accepts packets that
  claim less; what happens to those is part of the exact condition.
- **Bounds and orders** (`Limiter`, `Bursts`, `Text`, `Semver`, `Posture`, `Groups`, `Networks`, `RouteHealth`,
  `Routes`, `VipRows`). Token buckets over the reals, bounded from above (`Limiter`) and from below (`Bursts`);
  versions as a total preorder; longest-prefix routing with failover; the allocator that reads its rows from a
  database, with the pigeonhole argument behind it. Two hopes about routing fail, each with its exact condition: the
  ECMP index can leave its range, and the longest mask need not be the most specific network when an IPv4 network is
  written in its IPv6 form.

A map that the source ranges over is visited in an arbitrary order. Clocks, random values and database rows are
parameters. Where the source's comments and its code differ, the model follows the code: the handshake named after
IKpsk2 mixes the pre-shared key in act 1, and `shiftRight` moves bits towards higher positions (here `ShiftUp`).

## Model

| member | source | states |
|---|---|---|
| `Primitives.NoncesDiffer` | pkg/crypto/chacha.go:19-25 | Two counters that give the same 12-byte nonce are the same counter. |
| `Primitives.NonceMeans` | pkg/crypto/chacha.go:19-25 | A nonce is four zero bytes and then the counter, least significant byte first. |
| `Primitives.LawsAreConsistent` | pkg/crypto/chacha.go:28-50 | The laws assumed of the ciphers and of Diffie-Hellman can all hold at once: a concrete suite meets them. |
| `Wire.EncodeDirectFrame` | pkg/crypto/wire.go:54-69 | The buffer written field by field is the wire image of the frame. |
| `Wire.DecodeDirectFrame` | pkg/crypto/wire.go:72-109 | Every byte string is read as the image says, the first failing test deciding the error; no index leaves the buffer. |
| `Wire.FrameRoundTrip` | pkg/crypto/wire.go:54-109 | Decoding an encoded frame gives the frame back, or the magic or version error when those fields are not current. |
| `Wire.ParsedFrameIsCanonical` | pkg/crypto/wire.go:72-109 | Bytes that decode are the encoding of what they decode to: a frame has one wire image. |
| `Wire.FrameLayout` | pkg/crypto/wire.go:54-69 | Magic, version, type, sender, receiver, counter, ciphertext and tag stand at offsets 0, 4, 5, 6, 10, 14, 22 and after the ciphertext. |
| `Wire.MagicBytes` | pkg/crypto/wire.go:14-16 | The magic read is the current one exactly when the four bytes are the letters SVRN. |
| `Replay.FreshTestIsExact` | pkg/crypto/replay.go:35-37 | The test on one word, maxSeq and bitmap[0] both zero, holds exactly when nothing has been accepted. |
| `Replay.AdmitsExactly` | pkg/crypto/replay.go:30-59 | A counter is admitted exactly when it is new and no accepted counter is 1024 or more above it. |
| `Replay.CarriedBit` | pkg/crypto/replay.go:137-144 | Bit i of word k after the carry loop is bit 64k+i-s of the old bitmap, from the word below when it crosses the boundary. |
| `Replay.CarryLoopMovesUp` | pkg/crypto/replay.go:137-144 | The carry loop moves every bit d of the sixteen words to d+s. |
| `Replay.WordLoopsMoveUp` | pkg/crypto/replay.go:128-135 | The two word loops move every bit up by 64 for each word. |
| `Replay.NewerIsRepresented` | pkg/crypto/replay.go:81-94 | Moving the bitmap by the distance and setting bit 0 represents the accepted set with the newer counter added. |
| `Replay.LateIsRepresented` | pkg/crypto/replay.go:96-113 | Setting one bit represents the accepted set with a late counter added. |
| `Replay.FirstIsRepresented` | pkg/crypto/replay.go:75-79 | The first counter of a window leaves exactly bit 0 set. |
| `Replay.AntiReplayWindow.Check` | pkg/crypto/replay.go:30-59 | True exactly when the counter is admitted by the set of counters accepted so far: none yet, above the highest, or new and less than 1024 behind; nothing changes. |
| `Replay.AntiReplayWindow.CheckAndAdd` | pkg/crypto/replay.go:70-114 | The same answer as Check, and on every run bit d is set exactly when maxSeq-d has been accepted; the accepted set grows by the counter or stays. |
| `Replay.AntiReplayWindow.ShiftUp` | pkg/crypto/replay.go:117-145 | shiftRight(n) moves bit d to d+n across words for every n, bits below n becoming 0. |
| `Replay.AntiReplayWindow.ShiftBits` | pkg/crypto/replay.go:137-144 | The carry loop on the array does what the bitmap law says. |
| `Replay.AntiReplayWindow.ShiftWords` | pkg/crypto/replay.go:128-135 | The in-place word loops do not overwrite a word before it is moved. |
| `Replay.AntiReplayWindow.Reset` | pkg/crypto/replay.go:148-155 | After Reset the window represents the empty set again. |
| `Handshake.InitiatorHandshakeState.ProcessHandshakeAct2` | pkg/crypto/noise.go:322-374 | The session and payload are those of the initiator's derivation; the session ID error comes exactly when the receiver does not match; the ephemeral secret is wiped on success and only then. |
| `Handshake.HkdfExpands` | pkg/crypto/noise.go:93-107 | Both derivations hand out, in order, the outputs of the HKDF expansion of RFC 5869, section 2.3, without info. |
| `Handshake.SplitInOrder` | pkg/crypto/noise.go:295-356 | The initiator sends with the first key of the final split and receives with the second; the responder the other way round. |
| `Handshake.SessionIdsAreChecked` | pkg/crypto/noise.go:326-328 | Act 2 is refused with the session ID error exactly when its receiver is not the initiator's session ID. |
| `Handshake.ZeroIdIsRefused` | pkg/crypto/noise.go:213-215 | Act 1 is refused for its session ID exactly when that is zero. |
| `Handshake.SharedSecret` | pkg/crypto/noise.go:150-171 | Two genuine keypairs compute the same Diffie-Hellman secret at either end. |
| `Handshake.Act1IsAccepted` | pkg/crypto/noise.go:124-259 | The responder opens the static key and the 0-RTT payload of act 1 and reaches the initiator's chaining key and hash. |
| `Handshake.KeyAgreement` | pkg/crypto/noise.go:124-374 | Act 1, its processing and act 2 with matching keys never fail; what one side sends with the other receives with, session IDs cross, each side holds the other's static key, both payloads arrive unchanged. |
| `KeySchedule.Act1FollowsPattern` | pkg/crypto/noise.go:124-204 | Against a symmetric state that each step of the pattern updates: act 1 carries the static key sealed before, and the payload sealed after, the pre-shared key is mixed into chaining key, hash and cipher key, and leaves the initiator with the state that follows; it fails exactly when one of its two secrets does. |
| `KeySchedule.ResponderFollowsPattern` | pkg/crypto/noise.go:207-319 | On every packet whatever, honest or not, the responder's outcome, every error, key and byte of act 2, is that of the same symmetric state. |
| `KeySchedule.InitiatorFollowsPattern` | pkg/crypto/noise.go:322-374 | On every act 2 whatever, the initiator's outcome is that of the same symmetric state. |
| `KeySchedule.OtherPskExactly` | pkg/crypto/noise.go:173-175 | For any lawful suite, an honest act 1 processed under another pre-shared key is refused exactly when the cipher does not open, in the state with that key mixed in, what was sealed in the state with the first. |
| `KeySchedule.PskDecides` | pkg/crypto/noise.go:250-257 | For a concrete lawful suite whose cipher checks key and transcript, an honest act 1 is refused with the authentication error if and only if the two pre-shared keys differ in their first eight bytes, which its tag holds, for all keypairs, payloads and pairs of keys. |
| `Transport.TransportCipherState.constructor` | pkg/crypto/noise.go:28-38 | A new cipher state starts at counter 0 with an empty replay window of its own. |
| `Ratchet.SealedFrameOpens` | pkg/crypto/ratchet.go:86-113 | A frame sealed under a counter and header opens with the same key to the same plaintext. |
| `Ratchet.HeaderIsBound` | pkg/crypto/ratchet.go:86-164 | A frame is sealed, and opened, under its own session IDs and counter as associated data and under the nonce of its counter. |
| `Ratchet.SessionRatchetManager.EncryptPacket` | pkg/crypto/ratchet.go:75-116 | The frame carries the packet sealed under the current counter, which moves on by one in 64 bits; on a closed or empty manager nothing changes. |
| `Ratchet.SessionRatchetManager.DecryptPacket` | pkg/crypto/ratchet.go:120-171 | Routing, grace period, replay check, opening and recording give the outcome of the receive side read as a value; a failed call changes no window. |
| `Ratchet.SessionRatchetManager.RotateKeys` | pkg/crypto/ratchet.go:174-185 | The active state becomes the previous one with its window, the new one becomes active, and the keys of the old previous state are zero. |
| `Ratchet.SessionRatchetManager.Close` | pkg/crypto/ratchet.go:188-203 | Both states are dropped with their keys zero. |
| `Channel.ImageDecrypts` | pkg/crypto/ratchet.go:120-171 | A frame from the peer decrypts to what was sent exactly when the window admits its counter, and is reported as a replay otherwise. |
| `Channel.NoiseChangesNothing` | pkg/crypto/ratchet.go:161-164 | Bytes that the receiver's key does not open leave the receiver as it was. |
| `Channel.EveryRunIsSound` | pkg/crypto/ratchet.go:75-171 | On every run over a network that loses, duplicates, reorders and injects bytes that do not open, the outputs are messages that were sent, each counter at most once. |
| `Channel.DeliveredExactlyInWindow` | pkg/crypto/ratchet.go:157-170 | After any run an arriving frame is output if and only if its counter is new and above, or less than 1024 behind, the highest output so far. |
| `Channel.SentInOrder` | pkg/crypto/ratchet.go:83-84 | On every run message k is sealed under counter k modulo 2^64. |
| `Channel.NothingInWindowIsLost` | pkg/crypto/ratchet.go:120-171 | Of fewer than 2^64 messages, one that arrives while the highest output is less than 1024 above it is among the outputs at the end of the run. |
| `Channel.EndToEnd` | pkg/crypto/noise.go:124-374 | After a handshake with genuine keys, both directions of the channel are sound on every run. |
| `Rekeying.PreviousDecrypts` | pkg/crypto/ratchet.go:145-171 | A frame of the session before the active one gives its packet when the active session is at most 15 s old and the window admits the counter, the replay error when only the window refuses, and the ciphertext error once the period is over. |
| `Rekeying.StrangerIsRefused` | pkg/crypto/ratchet.go:145-155 | A frame addressed to neither session is refused with the ciphertext error. |
| `Rekeying.ClosedRefuses` | pkg/crypto/ratchet.go:120-143 | Bytes that are no frame are reported as such even by a closed manager; the closed error comes for all other bytes exactly when the manager is closed or has no session. |
| `Rekeying.MailDecrypts` | pkg/crypto/ratchet.go:120-171 | In any sound state a frame of any session, older or newer ones included, decrypts to its packet exactly when its session is the active one, or the one before within the period, and the window of that session admits it. |
| `Rekeying.EveryRunIsSound` | pkg/crypto/ratchet.go:75-185 | On every run with any number of rotations, over a network that mixes the frames of all sessions, each message is output at most once and was sent, and each slot holds the right session with the counters output in it. |
| `Rekeying.DeliveredExactlyAcrossRotations` | pkg/crypto/ratchet.go:120-185 | After any such run an arriving frame of any session is output if and only if it is new and within 1024 of the highest output in its session, and that session is the active one, or the one before within 15 s of the active one's creation. |
| `Interleaving.NextKeepsInv` | pkg/crypto/ratchet.go:120-203 | Every atomic action, of any call or of RotateKeys and Close, keeps: accepted counters are the delivered ones, each delivered once and opened by its key, every pending call well routed. |
| `Interleaving.EveryInterleavingIsSafe` | pkg/crypto/ratchet.go:120-203 | For every interleaving of DecryptPacket calls with RotateKeys and Close, no cipher state delivers a counter twice, before or after it becomes the previous one. |
| `Interleaving.RotationMeans` | pkg/crypto/ratchet.go:174-185 | As an atomic action a rotation wipes only the session before the previous one, keeps all windows and moves the slots on. |
| `Interleaving.CloseMeans` | pkg/crypto/ratchet.go:188-203 | As an atomic action closing wipes both sessions, empties the slots and keeps all windows. |
| `Interleaving.OnlyOpenedFramesChangeWindows` | pkg/crypto/ratchet.go:157-168 | A step changes a window only by committing the counter of a frame that the state's key has opened. |
| `Interleaving.RejectedCheckIsAtomic` | pkg/crypto/ratchet.go:157-159 | A call rejected at Check returns what an uninterrupted call would return at that moment. |
| `Interleaving.RejectedOpenIsAtomic` | pkg/crypto/ratchet.go:161-164 | A call whose frame does not open returns what an uninterrupted call would have returned at its Check. |
| `Interleaving.CommitIsAtomic` | pkg/crypto/ratchet.go:166-170 | A call that reaches CheckAndAdd returns, delivers and records what an uninterrupted call would at that moment. |
| `Interleaving.UnroutedCallsAreAtomic` | pkg/crypto/ratchet.go:121-155 | A call that stops before routing changes nothing and returns an error an uninterrupted call would return. |
| `Policy.FirstMatchOfConcat` | pkg/acl/netfilter.go:96-113 | The first match in two tables one after the other is that of the first, or else of the second. |
| `Policy.FirstMatchExactly` | pkg/acl/netfilter.go:96-113 | A table accepts, drops or ignores a packet exactly when some rule k has the address, protocol ALL or the packet's, and a range with start <= port <= end, no earlier rule does, and its action is ACCEPT, is not, or there is no such rule. |
| `Policy.DirectVerdictExactly` | pkg/acl/netfilter.go:96-113 | Read directly, policies accept exactly when the first item that covers the packet, over all policies that relate the nodes, has the action ACCEPT. |
| `Policy.SortKeepsElements` | pkg/acl/engine.go:335-341 | Sorting by ID orders the policies and keeps exactly the same ones. |
| `Policy.AscendingIsUnique` | pkg/acl/engine.go:334-341 | Two lists of the same policies in ID order are equal, so the order in which the map was read does not matter. |
| `Policy.SmallerIdComesFirst` | pkg/acl/engine.go:335-341 | Of two policies whose IDs first differ at one character, the one with the smaller character comes first. |
| `Text.FirstDifferenceDecides` | pkg/acl/engine.go:339-341 | Strings compare by the first character in which they differ. |
| `Text.PrefixComesFirst` | pkg/acl/engine.go:339-341 | A string comes before its proper extensions and after none of its prefixes. |
| `Engine.PolicyEngine.constructor` | pkg/acl/engine.go:28-62 | A new engine has the system groups, all empty, no policy, and epoch 1. |
| `Engine.PolicyEngine.UpsertGroup` | pkg/acl/engine.go:65-93 | A group is stored with its system flag preserved and the epoch advanced, or refused without an ID. |
| `Engine.PolicyEngine.DeleteGroup` | pkg/acl/engine.go:129-144 | A group is removed and the epoch advanced, unless it is missing or a system group. |
| `Engine.PolicyEngine.AssignPeerToGroup` | pkg/acl/engine.go:147-166 | A node is added once; assigning it again changes nothing, the epoch included. |
| `Engine.PolicyEngine.RemovePeerFromGroup` | pkg/acl/engine.go:169-194 | All occurrences of a node are removed, and the epoch advances exactly when there was one. |
| `Engine.PolicyEngine.UpsertPolicy` | pkg/acl/engine.go:219-244 | A policy is stored and the epoch advanced, or refused for want of an ID, of groups or of rules, in that order. |
| `Engine.PolicyEngine.DeletePolicy` | pkg/acl/engine.go:277-287 | A policy is removed and the epoch advanced, or reported missing. |
| `Engine.PolicyEngine.GetPeerGroups` | pkg/acl/engine.go:197-216 | The names of group:all and of every group that lists the node, in ascending order of their characters. |
| `Engine.PolicyEngine.SortedPolicies` | pkg/acl/engine.go:335-341 | Every policy once, in ID order, whatever the order of the map. |
| `Engine.PolicyEngine.CompilePolicyForPeer` | pkg/acl/engine.go:300-483 | Both tables are, for any listing of the policies in ID order, the blocks the policies call for; the engine is unchanged. |
| `Engine.PolicyEngine.CompilePolicy` | pkg/acl/engine.go:343-480 | One policy adds its blocks to both tables, the reverse ones only when bidirectional. |
| `Duality.GroupBlocksVerdict` | pkg/acl/engine.go:367-391 | However often a node's block is repeated, the blocks decide for its address as the policy's items do, or not at all. |
| `Duality.PolicyOutboundVerdict` | pkg/acl/engine.go:343-480 | The outbound blocks of one policy decide for a destination as its items do exactly when the policy relates the two nodes. |
| `Duality.PolicyInboundVerdict` | pkg/acl/engine.go:343-480 | Likewise for the inbound blocks and a source. |
| `Duality.OutboundMeansPolicies` | pkg/acl/engine.go:300-483 | Evaluating the compiled outbound table equals reading the enabled, relating policies in ID order and taking the first item that matches protocol and port. |
| `Duality.InboundMeansPolicies` | pkg/acl/engine.go:300-483 | Evaluating the compiled inbound table equals the same direct reading from the receiver's side. |
| `Duality.RelationMeans` | pkg/acl/engine.go:343-480 | A policy lets a node reach another exactly when it is enabled and the one belongs to a source group, group:all always counting, and the other is listed in a destination group, or the reverse and it is bidirectional; inbound is the mirror image. |
| `Duality.OutboundAcceptsExactly` | pkg/acl/engine.go:300-483 | The compiled outbound table accepts a packet exactly when the first item that covers it, over the enabled policies in ID order that let the node reach the other, accepts. |
| `Duality.TableRulesComeFrom` | pkg/acl/engine.go:367-480 | Every compiled rule carries protocol, ranges and action of an item of an enabled policy, is for the address of another node, and is directional exactly when its policy is not bidirectional. |
| `Duality.CompilerDuality` | pkg/acl/engine.go:197-483 | For nodes listed alike with addresses of their own, the verdict of A's outbound table for B equals that of B's inbound table for A, for every protocol and port. |
| `Duality.DisagreementWitness` | pkg/acl/engine.go:197-216 | For nodes not listed alike, one accept-all policy makes the two ends disagree. |
| `Duality.DualityExactlyWhenListedAlike` | pkg/acl/engine.go:197-483 | The two ends agree under every policy list if and only if both nodes are listed in group:all or neither is listed in any group. |
| `Netfilter.FlowKeyInjective` | pkg/acl/netfilter.go:161-161 | Two flows have the same key text only when they are the same flow. |
| `Netfilter.OutboundExactly` | pkg/acl/netfilter.go:81-114 | Deny by default: accepted exactly when the first rule that meets the packet accepts, dropped when it does not, refused as default when no rule meets it, and refused without a policy. |
| `Netfilter.InboundExactly` | pkg/acl/netfilter.go:117-149 | Accepted exactly when tracked or the inbound table accepts; each of the three refusals exactly in its case. |
| `Netfilter.OutboundRecordsExactly` | pkg/acl/netfilter.go:106-114 | An accepted outbound packet opens its exact return path, from the given source or else the node's own address, until now plus the TTL; any other changes nothing. |
| `Netfilter.PurgingChangesNoVerdict` | pkg/acl/netfilter.go:222-229 | Purging at any earlier time never changes the verdict on an inbound packet. |
| `Netfilter.NetstackFilter.FirstMatching` | pkg/acl/netfilter.go:96-111 | The nested loops over rules and port ranges find the first matching rule's verdict. |
| `Netfilter.NetstackFilter.EvaluateOutbound4Tuple` | pkg/acl/netfilter.go:81-114 | The four outcomes tied, over the loaded table, to the first rule that meets the packet; deny by default; only an accepted packet is recorded. |
| `Netfilter.NetstackFilter.RecordConntrack` | pkg/acl/netfilter.go:152-184 | The exact reverse key and, for source port 0, the wildcard key are set to expire after the TTL; other entries stay. |
| `Netfilter.NetstackFilter.EvaluateInbound` | pkg/acl/netfilter.go:117-149 | A tracked packet is admitted, any other judged by the first rule of the loaded table that meets it, denied by default; the table is purged, with two readings of the clock. |
| `Netfilter.NetstackFilter.CheckConntrack` | pkg/acl/netfilter.go:186-213 | True exactly when one of the three keys has a live entry and the policy has an overlay address. |
| `Netfilter.NetstackFilter.PurgeExpired` | pkg/acl/netfilter.go:222-229 | In whatever order the map is visited, exactly the expired entries go. |
| `ConntrackRuns.KeysMeetExactly` | pkg/acl/netfilter.go:161-210 | The three keys looked up meet the keys recorded for a flow exactly when the packet answers the flow, the two uses of port 0 as a wildcard included. |
| `ConntrackRuns.FlowsGrowExactly` | pkg/acl/netfilter.go:81-114 | The flows on record grow by exactly the outbound packets that the table then loaded accepts. |
| `ConntrackRuns.EveryRunKeepsInv` | pkg/acl/netfilter.go:81-229 | On every run every entry comes from an accepted flow, and every unexpired flow has entries at least as long-lived as itself. |
| `ConntrackRuns.TrackedExactly` | pkg/acl/netfilter.go:186-213 | A packet is tracked exactly when it answers a flow accepted less than the TTL ago. |
| `ConntrackRuns.AdmittedExactly` | pkg/acl/netfilter.go:117-149 | After any run an inbound packet is admitted if and only if the loaded policy accepts it or it answers an outbound packet accepted less than the TTL ago. |
| `ConntrackRuns.ReplyAdmitted` | pkg/acl/netfilter.go:152-213 | The exact reverse packet of an accepted outbound packet is admitted until expiry, whatever policies are loaded meanwhile for the same local address. |
| `Vip.DottedQuadInjective` | pkg/control/vip.go:69-73 | Different addresses have different dotted texts. |
| `Vip.DottedQuadMeans` | pkg/control/vip.go:69-73 | The text is the four bytes in network order, in decimal. |
| `Text.DecimalMeans` | pkg/control/vip.go:69-73 | A number written in decimal means that number in positional notation, without a leading zero. |
| `Vip.Ipv6TextInjective` | pkg/control/vip.go:57-57 | Different suffixes have different IPv6 texts. |
| `Vip.Ipv6TextMeans` | pkg/control/vip.go:57-57 | The text is fd7a:115c:a1e0:: and the suffix in hexadecimal without leading zeros. |
| `Text.HexMeans` | pkg/control/vip.go:57-57 | A number written in hexadecimal means that number in positional notation, without a leading zero. |
| `Vip.AssignmentsAreFresh` | pkg/control/vip.go:40-67 | Over any run of requests the k-th new assignment is 100.64.0.2 + k: in range, never assigned before, even after release; no two holders share; no uint32 addition wraps. |
| `Vip.ExhaustedExactlyWhenAllAssigned` | pkg/control/vip.go:48-50 | A new node is refused exactly after 4,194,301 new assignments. |
| `Vip.AssignedTextsDiffer` | pkg/control/vip.go:56-59 | All address texts ever newly handed out differ. |
| `Vip.AllocatedAddressHasOneHolder` | pkg/control/vip.go:40-60 | A lookup that reports held addresses gives each address one holder, as the policy compiler needs. |
| `Vip.VipAllocator.Allocate` | pkg/control/vip.go:40-60 | A held node gets the texts of the address it holds and nothing changes, a new one those of the next address of the pool, or the pool is exhausted. |
| `Vip.VipAllocator.AllocateAddress` | pkg/control/vip.go:40-60 | The IPv6 suffix is the same for the first and for every repeated call of a held node. |
| `Vip.VipAllocator.Release` | pkg/control/vip.go:63-67 | Releasing forgets exactly that holder and takes back no address: the next one assigned is still new. |
| `Cell.EncodeCell` | pkg/routing/cell.go:37-64 | A payload of at most 1406 bytes gives the 1420-byte image, a longer one an error. |
| `Cell.DecodeCell` | pkg/routing/cell.go:67-92 | Every byte string is read as the image says, within bounds. |
| `Cell.CellRoundTrip` | pkg/routing/cell.go:37-92 | Whatever the padding, decoding gives the cell back with the low 24 bits of its stream ID, and the length field holds the length. |
| `Cell.CellLayout` | pkg/routing/cell.go:37-64 | Circuit, command, stream, digest, length and payload stand at offsets 0, 4, 5, 8, 12 and 14, in network order. |
| `Onion.PeelLayer` | pkg/routing/onion.go:146-209 | The peeling of every byte string, each failing test with its error and an out-of-range index told apart. |
| `Onion.PeelRefusals` | pkg/routing/onion.go:146-209 | Each refusal exactly in its case: short payload, failed agreement, failed opening, empty plaintext, exit layer under 5 bytes, relay layer under 33. |
| `Onion.FitsExactly` | pkg/routing/onion.go:86-134 | The three layers fit the cell exactly when target and payload have at most 1255 bytes together. |
| `Onion.LengthFieldsHold` | pkg/routing/onion.go:86-92 | In a layer that fits, marker, both untruncated 16-bit lengths, target and data stand where they are read. |
| `Onion.OnionRoundTrip` | pkg/routing/onion.go:82-209 | For any circuit, any target and payload that fit and any padding, the cell carries the circuit ID, the data command, digest 0 and the ephemeral key, and decoding and peeling with the three hop keys yields hop 2, hop 3, then exactly target and payload. |
| `Onion.OnionCircuit.EncryptLayeredData` | pkg/routing/onion.go:82-135 | Succeeds exactly up to 1255 bytes, always with 1420 bytes, the image of the cell around the sealed layers. |
| `Onion.OnionCircuit.SealLayers` | pkg/routing/onion.go:85-124 | The buffers filled by index and sealed innermost first are the three nested layers. |
| `Onion.LabelTexts` | pkg/routing/onion.go:94-160 | The labels written out for sealing are those formatted for peeling. |
| `Onion.Build3HopCircuit` | pkg/routing/onion.go:37-74 | Each hop gets the secret shared with the circuit's ephemeral key; the first failing hop decides the error. |
| `Stun.StunRoundTrip` | pkg/nat/stun.go:57-135 | For every message and every order of its attribute map, decoding the encoding restores type, transaction ID and attributes if and only if the cookie is right and the encoded attributes have at most 65535 bytes. |
| `Stun.DecodesAll` | pkg/nat/stun.go:110-126 | Decoding the encoded attributes from any point on adds exactly those that are left. |
| `Stun.CutShortMissesLast` | pkg/nat/stun.go:110-126 | Cut short on a 4-byte boundary, the decoder never reaches the last attribute. |
| `Stun.SetGet` | pkg/nat/stun.go:138-197 | Setting and getting an IPv4 address gives it back, with the port reduced to 16 bits. |
| `Stun.XorValueMeans` | pkg/nat/stun.go:182-197 | The attribute is 0, family 1, the port masked with 0x2112 and the address masked with 0x2112A442. |
| `Stun.V6Reads` | pkg/nat/stun.go:160-172 | An IPv6 address masked with the cookie and the transaction ID is read back, with its port. |
| `Stun.FallbackReads` | pkg/nat/stun.go:140-152 | A plain MAPPED-ADDRESS is read, unmasked, when there is no XOR-MAPPED-ADDRESS. |
| `Stun.GetterErrorsExactly` | pkg/nat/stun.go:138-179 | Each error of the getter exactly in its case. |
| `Stun.RefusalsExactly` | pkg/nat/stun.go:86-104 | Bytes are refused exactly when they are shorter than a header, carry another cookie, or end before the stated length. |
| `Stun.AttributeLayout` | pkg/nat/stun.go:64-81 | Type, length and value in network order, then zeros up to a 4-byte boundary. |
| `Stun.AddressSurvivesTheWire` | pkg/nat/stun.go:57-197 | Set, Encode, Decode, Get returns the same IPv4 address and port, whatever else the message carries. |
| `Stun.StunMessage.Encode` | pkg/nat/stun.go:57-83 | The buffer is the image of the message for the order in which the map was visited. |
| `Stun.StunMessage.DecodeStun` | pkg/nat/stun.go:86-135 | Terminates and stays within bounds on every byte string, with the outcome of the decoder read as a function. |
| `Stun.StunMessage.DecodeBody` | pkg/nat/stun.go:106-126 | The loop over attributes, padding past the end included. |
| `Stun.StunMessage.SetXorMappedAddress` | pkg/nat/stun.go:182-197 | Only the XOR-MAPPED-ADDRESS attribute changes, and only for an IPv4 address. |
| `Stun.StunMessage.GetXorMappedAddress` | pkg/nat/stun.go:138-179 | Both families, the fallback and every error of the getter. |
| `Checksum.CalculateChecksum` | pkg/ebpf/router.go:260-277 | The complement of the one's-complement sum of the words modulo 2^32; the fold loop terminates. |
| `Checksum.OddBlockIsPadded` | pkg/ebpf/router.go:268-270 | An odd block sums as if padded with a zero byte. |
| `Checksum.Rfc1071Example` | pkg/ebpf/router.go:260-277 | The numerical example of RFC 1071, section 3, comes out. |
| `Checksum.FoldKeepsSum` | pkg/ebpf/router.go:272-274 | Adding the carries back in keeps the one's-complement sum and makes the number smaller. |
| `Checksum.FilledBlockVerifies` | pkg/ebpf/router.go:241-244 | Filling a zeroed word with the checksum makes any block of at most 65536 bytes sum to zero. |
| `Checksum.OneWordChangeIsDetected` | pkg/ebpf/router.go:260-277 | A verifying block stops verifying when one word changes, unless between 0x0000 and 0xFFFF. |
| `Checksum.RewriteIPv4Packet` | pkg/ebpf/router.go:223-257 | The clone carries the rewrite; the input is untouched; short packets are refused. |
| `Checksum.OnlyTheseBytesChange` | pkg/ebpf/router.go:237-254 | Only the checksum, the destination, the UDP port and the UDP checksum bytes change, under the conditions of the code. |
| `Checksum.RewriteWrites` | pkg/ebpf/router.go:237-254 | The target stands at offset 16; for UDP with room for a header and a port given, the port stands behind the header and the UDP checksum is zero; without target and port nothing changes. |
| `Checksum.RefusedExactly` | pkg/ebpf/router.go:223-235 | Refused exactly when shorter than 20 bytes or than the claimed header. |
| `Checksum.TargetHeaderVerifies` | pkg/ebpf/router.go:238-245 | With a non-zero target, a header of at least 12 bytes is left with a checksum that verifies. |
| `Checksum.RewrittenHeaderVerifiesExactly` | pkg/ebpf/router.go:223-257 | With a non-zero target, the rewritten header sums to zero if and only if the packet claims at least 12 header bytes or the shorter header summed to zero before. |
| `Checksum.EmptyHeaderNeverVerifies` | pkg/ebpf/router.go:232-245 | A concrete packet that claims an empty header is rewritten to one that does not verify. |
| `Limiter.TokenBucket.Allow` | cmd/sovereign-security-daemon/limiter.go:27-38 | The bucket refills up to its capacity, pays for a granted request, and grants exactly when it can. |
| `Limiter.EvictionKeepsCredit` | cmd/sovereign-security-daemon/limiter.go:128-138 | Only full buckets are evicted, and a full bucket grants as much as a missing one, even when the tick lags behind the clock. |
| `Limiter.ChangePaysFromCredit` | cmd/sovereign-security-daemon/limiter.go:73-141 | Charging, creating or sweeping a bucket never grants more than the credit at hand and the refill since. |
| `Limiter.StepPays` | cmd/sovereign-security-daemon/limiter.go:73-141 | One request, with its four readings of the clock, or one sweep, for any address and any subnet: what is accepted is paid for out of credit. |
| `Limiter.RunPays` | cmd/sovereign-security-daemon/limiter.go:73-141 | The same over a whole run. |
| `Limiter.WindowBound` | cmd/sovereign-security-daemon/limiter.go:73-141 | For any steady refill, any history and any window: at most the capacity and the refill of the window. |
| `Limiter.RateBound` | cmd/sovereign-security-daemon/limiter.go:27-141 | In every window of every history, at most ipCap + ipRefill * time requests of one address and subnetCap + subnetRefill * time of one subnet are accepted, evictions included. |
| `Limiter.DualTokenBucketLimiter.Allow` | cmd/sovereign-security-daemon/limiter.go:73-104 | The subnet bucket is charged only when the address bucket granted; both exist afterwards; a missing address is refused. |
| `Limiter.DualTokenBucketLimiter.CleanupTick` | cmd/sovereign-security-daemon/limiter.go:128-141 | Both maps lose exactly the buckets that are idle and full, in whatever order they are visited. |
| `Limiter.KeptExactly` | cmd/sovereign-security-daemon/limiter.go:128-138 | A sweep takes exactly the buckets idle for more than half an hour that are full. |
| `Limiter.SameSubnetExactly` | cmd/sovereign-security-daemon/limiter.go:106-119 | IPv4 addresses share a subnet exactly when their first three bytes agree, IPv6 addresses when their first 48 bits do. |
| `Bursts.BucketGrantsExactly` | cmd/sovereign-security-daemon/limiter.go:27-38 | A bucket grants exactly when its tokens, with the elapsed time at its rate and capped, amount to one; it keeps the rest. |
| `Bursts.AllowedExactly` | cmd/sovereign-security-daemon/limiter.go:73-104 | In any sound state a request is allowed if and only if the credit of its address and that of its subnet, each when asked, are at least one token. |
| `Bursts.RequestTakesExactly` | cmd/sovereign-security-daemon/limiter.go:73-104 | A request takes a token from its address whenever that has one, even if the subnet then refuses, one from its subnet exactly when it is allowed, and touches no other bucket. |
| `Bursts.IpFloor` | cmd/sovereign-security-daemon/limiter.go:27-141 | Over any run the credit of an address is at least what it was and the refill since, up to the capacity, less the requests its bucket granted, sweeps included. |
| `Bursts.SubnetFloor` | cmd/sovereign-security-daemon/limiter.go:27-141 | Likewise the credit of a subnet, less the requests accepted from it. |
| `Bursts.BurstIsAllowed` | cmd/sovereign-security-daemon/limiter.go:27-141 | After any history of a new limiter a request is allowed as long as fewer requests than either capacity have been made from its subnet. |
| `Semver.CompareSemver` | pkg/posture/posture.go:392-457 | The result is -1, 1 or 0 exactly as the version the first text means precedes, follows or equals the other. |
| `Semver.CompareNumbers` | pkg/posture/posture.go:425-442 | The loop over the parts decides the order of the zero-padded number lists. |
| `Semver.CompareSigns` | pkg/posture/posture.go:392-457 | The comparison is antisymmetric in sign and reflexive, and zero means the same version. |
| `Semver.CompareTransitive` | pkg/posture/posture.go:392-457 | The comparison is transitive, strictly so when one step is strict. |
| `Semver.EqualVersionsCompareAlike` | pkg/posture/posture.go:392-457 | Zero is an equivalence that the order respects. |
| `Semver.FirstNumberDecides` | pkg/posture/posture.go:424-442 | For versions written out, the first number that differs decides, as a number and not as text, whatever prerelease or build follows. |
| `Semver.PrereleaseDecides` | pkg/posture/posture.go:444-456 | With the same numbers a prerelease comes before its release, two prereleases go by the order of their texts, and the build does not count. |
| `Semver.ParseNumeral` | pkg/posture/posture.go:427-432 | A numeral is read as its value, capped to 64 bits. |
| `Semver.ParseJunk` | pkg/posture/posture.go:427-432 | A part that is not a number counts as zero, unless its digits have exceeded 64 bits before the stray character. |
| `Semver.WrittenVersion` | pkg/posture/posture.go:393-418 | A well-formed version text means its numbers and its prerelease; a leading v and the build metadata are ignored. |
| `Semver.TrimExactly` | pkg/posture/posture.go:393-394 | Trimming takes the spaces at both ends and nothing else. |
| `Posture.PostureEngine.EvaluateAttestation` | pkg/posture/posture.go:262-390 | Compliant exactly when every enabled policy that applies is met; the failed checks are those of the policies in the order visited; a named node is quarantined with them or released. |
| `Posture.NothingFailsExactlyWhenCompliant` | pkg/posture/posture.go:279-368 | In whatever order the policies are visited, nothing is reported exactly when the attestation is compliant. |
| `Posture.PostureEngine.CheckPolicy` | pkg/posture/posture.go:298-365 | One policy's checks, in order: client, OS, country, ASN, security state. |
| `Posture.MetExactly` | pkg/posture/posture.go:298-365 | A policy is met exactly when no minimum that is set is above the version reported (a missing client version passes, a missing OS version is compared), country and network are allowed, and no safeguard it requires is missing. |
| `Posture.CountryRefusedExactly` | pkg/posture/posture.go:314-342 | A country is refused exactly when its code, trimmed and in upper case, is not blank and either is a prohibited one's or, where some are allowed, none of theirs. |
| `Posture.AppliesExactly` | pkg/posture/posture.go:279-296 | A policy applies exactly when it is enabled and names no group, or group:all, or a group of the caller. |
| `Posture.ReportsAreGenuine` | pkg/posture/posture.go:298-365 | Every failure reported is one the attestation has, with the values reported and asked, and one policy's failures come in a fixed order. |
| `Posture.RaisingNeverForgives` | pkg/posture/posture.go:299-312 | Raising minimum versions that are set, in any policies at once, never turns a failing attestation into a compliant one. |
| `Posture.StricterExactlyWhenRaised` | pkg/posture/posture.go:299-303 | Between two minimums that are set, one refuses all that the other refuses if and only if it compares at least as high. |
| `Groups.IsTargeted` | pkg/posture/posture.go:283-296 | The loop with its early exit finds a target group of the caller exactly when there is one, or when no group is named; the route table tests its routes the same way. |
| `Groups.TargetsExactly` | pkg/posture/posture.go:283-296 | A list of target groups takes in a caller exactly when it is empty, names group:all, or names a group of the caller. |
| `Networks.SameLengthSameNetwork` | pkg/routes/route.go:213-219 | Of the networks that hold an address, those with the same mask length are one network. |
| `Networks.LongerIsNarrowerExactly` | pkg/routes/route.go:213-219 | Of two networks that hold an address, the one with the longer mask is the more specific, except exactly when a mask counted on the IPv6 form of an IPv4 network outranks a narrower IPv4 one. |
| `Networks.V4ContainsExactly` | pkg/routes/route.go:213-215 | An IPv4 network holds exactly the IPv4 addresses, in either form, that agree with it on the masked bits. |
| `Networks.V6ContainsExactly` | pkg/routes/route.go:213-215 | An IPv6 network holds exactly the IPv6 addresses that agree with it on the masked bits, and no IPv4 address. |
| `Networks.HashFlow` | pkg/routes/route.go:252-260 | The loop computes the base-31 hash of the IPv6 form in wrapping 64-bit arithmetic. |
| `Networks.FlowBytesMean` | pkg/routes/route.go:252-255 | An IPv4 address is hashed behind the mapped prefix, an IPv6 address as it is. |
| `Networks.IndexInRangeExactly` | pkg/routes/route.go:258-264 | The ECMP index lies in range if and only if the hash is not -2^63 or the number of gateways divides 2^63. |
| `Networks.WrappingAddressLeavesRange` | pkg/routes/route.go:258-264 | A concrete IPv6 address whose hash is -2^63: among three gateways the index is -2. |
| `RouteHealth.UnhealthyExactlyAfterThree` | pkg/routes/route.go:278-295 | After any probes a gateway that started healthy is unhealthy exactly when its last three failed, however often the 32-bit count has wrapped. |
| `RouteHealth.LatencyIsOfLastSuccess` | pkg/routes/route.go:278-295 | The latency is that of the last probe that did not fail. |
| `RouteHealth.FixedMeans` | pkg/routes/route.go:86-94 | A new gateway is healthy exactly when it comes healthy or without failures, and is otherwise as given. |
| `RouteHealth.GatewaysGoByTheirProbes` | pkg/routes/route.go:268-305 | In any history each gateway of a route with distinct nodes is what its own probes make of it. |
| `RouteHealth.UnhealthyExactlyAfterThreeFailures` | pkg/routes/route.go:86-94 | From a fresh AddRoute with no failures counted and distinct nodes, a gateway is unhealthy exactly when the last three probes of its node on that route failed. |
| `RouteHealth.EpochRisesExactlyOnFlips` | pkg/routes/route.go:278-305 | A probe advances the epoch exactly when it flips some gateway's health. |
| `Routes.RoutingPeer.Record` | pkg/routes/route.go:278-295 | One gateway's update, and whether its health flipped. |
| `Routes.RouteTable.AddRoute` | pkg/routes/route.go:68-112 | A route with copies of the gateways, those unhealthy without failures taken for healthy; or the CIDR or duplicate error with nothing changed. |
| `Routes.RouteTable.UpdatePeerHealth` | pkg/routes/route.go:268-305 | Only the first gateway of the node changes, and the result tells whether the health of any gateway differs. |
| `Routes.RouteTable.SelectNextHop` | pkg/routes/route.go:180-265 | An eligible route of maximal mask length, or none exactly when none is eligible; then a healthy gateway that no healthy one beats in priority and latency, or the hashed one. |
| `Routes.RouteTable.LongestMatch` | pkg/routes/route.go:192-221 | In whatever order the routes are visited, the loop keeps an eligible route with the longest mask. |
| `Routes.TiesAreOneNetwork` | pkg/routes/route.go:213-219 | Routes that tie for the longest mask are for the same network. |
| `Routes.EligibleExactly` | pkg/routes/route.go:192-215 | A route is eligible exactly when it is enabled, open to the client by its groups, and its network holds the address. |
| `Routes.ChoiceFailsExactly` | pkg/routes/route.go:228-265 | The hashed choice fails exactly for the hash -2^63 with a number of gateways that does not divide it; no gateway is reported exactly when none is healthy. |
| `Routes.GatewayExactly` | pkg/routes/route.go:228-265 | With some gateway healthy: in active-passive mode a healthy one of least priority, then least latency; in any other mode the healthy one that as many healthy ones precede as the absolute value of the hash leaves modulo their number. |
| `VipRows.AllocateVipFromRows` | console/backend/utils/crypto.js:182-214 | The address is that of the least usable offset that no row blocks; the random one is used only when all are blocked, and never with at most 2,080,766 rows. |
| `VipRows.TemplateWritesAddress` | console/backend/utils/crypto.js:188-199 | The three computed octets write the text of 100.64.0.0 plus the offset. |
| `VipRows.UsedMeansTaken` | console/backend/utils/crypto.js:183-184 | Looking a text up in the two sets of cleaned columns tells exactly whether some row blocks the offset. |
| `VipRows.FreeMeansUnused` | console/backend/utils/crypto.js:183-197 | An offset is free exactly when it is usable and no row holds, after cleaning, its IPv4 or its IPv6 text. |
| `VipRows.FallbackIsAddress` | console/backend/utils/crypto.js:206-213 | The random address lies in 100.64.1.1 to 100.64.1.250, with the offset in hexadecimal behind the prefix. |
| `VipRows.UsableCount` | console/backend/utils/crypto.js:192-195 | 254 of every 256 offsets are usable. |
| `VipRows.OneOfEachKind` | console/backend/utils/crypto.js:198-199 | A row blocks at most one offset by its IPv4 column and at most one by its IPv6 column. |
| `VipRows.SomeOffsetIsFree` | console/backend/utils/crypto.js:186-214 | With at most 2,080,766 rows some usable offset is free. |
| `VipRows.GuaranteedExactly` | console/backend/utils/crypto.js:186-214 | Lists of n rows always leave an offset free if and only if n is at most 2,080,766. |

## Left out

- Curve25519, ChaCha20, Poly1305, BLAKE2s and HMAC are functions with laws; secrecy and unforgeability are not modelled. The network injects only bytes that the receiver's key does not open. The message type is outside the associated data, so a frame altered there alone is not such bytes and lies outside the networks of `Channel` and `Rekeying`.
- Random generation, `generateSessionID` and `GenerateKeypair`: their results are parameters.
- `NeedsRekey`, `RecvNonce`, and the manager's `isInitiator`, `staticKeypair`, `peerStaticPub` and `psk`, which no operation reads.
- Rekeying.DeliveredExactlyAcrossRotations: for sessions whose receivers have different session IDs, as random ones do but for a collision; frames of two sessions with one ID go to the newer.
- Ratchet.SessionRatchetManager.DecryptPacket: is one atomic call; the interleaving with other calls is the subject of `Interleaving`, on values.
- Locks: each critical section is one atomic action. `EncryptPacket` takes the write lock and is not among the actions of `Interleaving`.
- Engine.PolicyEngine.UpsertPolicy: the engine holds values, so a caller's later change to a stored group or policy through its pointer is not seen; timestamps are left out here and in the other tables.
- Addresses in policies and in the filter are their canonical texts, so that `net.IP.Equal` is equality of texts; IPv4-mapped forms of the same address and missing packet addresses are not distinguished.
- Netfilter.NetstackFilter.EvaluateOutbound4Tuple: reads the clock once and runs as one atomic step, where the source releases the lock between reading the policy and recording.
- ConntrackRuns.AdmittedExactly: holds with a fixed TTL; `SetConntrackTTL` in the middle of a run is not an event of the runs.
- Onion.PeelLayer: an index past the end of a malformed exit layer, a run-time fault in the source, is the error `OutOfRange`.
- `ComputeJitterDelay`, `QuerySTUN`, the STUN server, sockets, HTTP handlers and the flow table of the eBPF router: input and output.
- Limiter.RateBound: arithmetic over the reals, so rounding of float64 is not modelled; bucket keys are addresses and subnets, not their texts.
- Semver.CompareSemver: texts are sequences of Unicode characters, so invalid UTF-8 is not modelled.
- Posture.PostureEngine.EvaluateAttestation: case folding is a parameter, `strings.EqualFold` and `strings.ToUpper` being library functions; failed checks are values, and their messages are written only into the reason; the quarantine's timestamps and listings are left out.
- Routes.RouteTable.AddRoute: takes the parsed network; `net.ParseCIDR` is a library function. Networks with masks that are not prefixes, reachable only through `UpsertRoute`, are not modelled.
- Routes.RouteTable.SelectNextHop: latencies are reals, so NaN is not modelled; an index out of range, a run-time fault in the source, is the outcome `IndexOutOfRange`.
- `UpsertRoute`, `DeleteRoute`, `GetRoutesForNode` and the lookups and listings of all tables: easy members.
- VipRows.AllocateVipFromRows: `trim` and `toLowerCase` are parameters; the exact bound assumes that they leave address texts alone.
- `LookupRoute` of the eBPF router repeats the longest-prefix loop of `SelectNextHop`.
