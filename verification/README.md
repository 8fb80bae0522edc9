# Tobira, verified model

Tobira is a VMess relay: it tunnels bytes through gRPC streams, pools HTTP/2 connections, derives keys,
and keeps subscriptions, routing table and rendered links in step over reloads. This project models
that behaviour in Dafny and proves what it guarantees for every input, schedule, interleaving and run.

Check everything with `dafny verify dfyconfig.toml`.

## The parts

- **Tunnel** (`Varint`, `GrpcFrame`, `FrameReader`, `Tunnel`, `TunnelTheorems`, `InboundRelay`): the
  varint and frame codecs, the sender that cuts frames to HTTP/2 flow-control grants, the reader that
  reassembles them, and the relays built on both. The loops and objects of the source are methods and
  classes tied to specification functions; the theorems are about those functions. Read sizes, grants
  and DATA boundaries are sequences over which the theorems quantify. The format is the
  Length-Prefixed-Message of the gRPC over HTTP2 protocol document around a protobuf bytes field.
- **Connection pool** (`PoolKeys`, `GrpcPool`, `GrpcPoolTheorems`, `GrpcPoolPruning`, `GrpcPoolRuns`): a
  state machine over the steps of `get_or_create`, the closing watchers, `evict` and the two pruners,
  with cancelled and failing handshakes. A critical section without an await is one action; a handshake
  keeps the slot lock across actions; a pruner reads the key map shard by shard, for any hash.
- **Key derivation** (`Kdf`): the mutable, cloned, nested hash objects against the HMAC of section 2 of
  RFC 2104. SHA-256 is any function to 32 bytes, given as a parameter.
- **Subscriptions** (`Nodes`, `Rename`, `Selecting`, `Pipeline`, `Manager`, `Uuid`, `Routing`, `Reload`):
  both deduplications, the pipeline, the cache fallback over runs of reloads, the routing table, and the
  reload state machine.
- **Links** (`Base64`, `Query`, `UrlAuthority`, `Shadowrocket`): written by the server, read by the parser.
  The authority follows the opaque-host rules of the WHATWG URL Standard.
- **Supports** (`BufPool`, `IdleTimeout`, `CoreJoin`).

## What turned out false, with the exact condition

- Decoding a frame does not always return: a declared inner length whose end does not fit 64 bits makes
  the decoding task panic, with and without overflow checks (`GrpcFrame.PanicExactly`). No frame made by the
  encoder does (`GrpcFrame.RoundTripExactly`).
- Renaming does not always make names unique: `Rename.RenameDistinctExactly`, `Rename.RenameCollides`.
- The buffer pool's documented minimum capacity is not always met: `BufPool.MinimumCapacityExactly`,
  `BufPool.MinimumCapacityFails`.
- An eviction does not always drop the connection it is about: `GrpcPoolTheorems.EvictDropsExactly` says
  when it drops that one and when another, `GrpcPoolTheorems.EvictReachesExactly` when it finds the slot,
  and `GrpcPoolRuns.EvictDropsNewer` is a run in which it drops a newer one.
- A pruner does not always close the slot it removes: `GrpcPoolPruning.PruneClosesRemoved` has the
  condition, which always holds with one pruner at a time (`GrpcPoolPruning.PruneClosesAlone`);
  `GrpcPoolRuns.PruneOrphans` is a run of two.
- A full reload that fails at the handle of the log filter is not rolled back: `Reload.FailedReloadExactly`,
  `Reload.SettingsOverRuns` and `Reload.SubsAfterLogFailure`.
- Encoding does not always run to completion when relay ended well: `CoreJoin.RelayOkExactly`,
  `CoreJoin.EncodingDropped`.
- A repeated source name does not contribute each of its fetches: `Manager.OwnFetchExactly`,
  `Manager.DuplicateSourceFails`.
- A UUID spelled in two ways is not refused as a duplicate and its second node is never reached:
  `Routing.ReachedExactly`, `Routing.SpellingShadows`.
- A Shadowrocket link does not always parse back to what it was built from: `Shadowrocket.LinkRoundTrip`
  has the condition, and a bare IPv6 host comes back in brackets (`Shadowrocket.Ipv6LinkRead`).

## Model

| member | source | states |
|---|---|---|
| Varint.VarintSize | src/relay/transport/grpc.rs:324-331 | the loop returns the least n in 1..10 with v < 128^n, for every 64-bit v |
| Varint.WriteVarint | src/relay/transport/grpc.rs:334-343 | the loop appends the encoding of v and leaves the buffer's earlier bytes alone |
| Varint.ReadVarint | src/relay/transport/grpc.rs:346-360 | the loop answers the positional value, cut to 64 bits, of the bytes up to the first without continuation bit, if that is among the first ten; each bitwise or meets no bit already set |
| Varint.RoundTrip | src/relay/transport/grpc.rs:324-360 | for every 64-bit v and any tail, reading what was written gives v and exactly the bytes written, at most ten |
| Varint.Shortest | src/relay/transport/grpc.rs:324-360 | no byte string that reads as v is shorter than the one written for v |
| Varint.KnownVarint | src/relay/transport/grpc.rs:334-360 | 300 is AC 02, as in the protobuf encoding guide: low groups come first |
| GrpcFrame.EncodeGrpcFrame | src/relay/transport/grpc.rs:366-377 | the frame is a function of the data alone, whatever the buffer pool hands out |
| GrpcFrame.WireImage | src/relay/transport/grpc.rs:366-377 | for every data, byte 0 is 0, bytes 1 to 4 are the base-256 digits, highest first, of the length behind the header cut to 32 bits, byte 5 is 0x0A, then comes the shortest varint worth the data's length, then the data |
| GrpcFrame.GrammarAccepted | src/relay/transport/grpc.rs:380-394 | tag, any varint worth the length of d, d, and any further bytes decode to d |
| GrpcFrame.GrammarOnly | src/relay/transport/grpc.rs:380-394 | a non-empty payload that decodes has that form |
| GrpcFrame.DecodeExactly | src/relay/transport/grpc.rs:380-394 | the decoder answers d exactly on payloads of that form, and on the empty payload if d is empty |
| GrpcFrame.PanicExactly | src/relay/transport/grpc.rs:387-393 | the decoder dies on exactly the payloads whose declared end does not fit 64 bits |
| GrpcFrame.PanicHappens | src/relay/transport/grpc.rs:387-393 | such a payload of at most eleven bytes exists |
| GrpcFrame.RoundTripExactly | src/relay/transport/grpc.rs:366-394 | decoding an encoded frame gives the data back if and only if the outer length is at most 16 MiB, for data of every length, also where the 32-bit cast cuts the length; encoded frames never make the decoder die |
| FrameReader.GrpcFrameReader.NextFrame | src/relay/transport/grpc.rs:495-519 | one call takes a whole frame off the buffer, or reads chunks until there is one, the header is oversized, the stream fails or ends |
| FrameReader.PeekExactly | src/relay/transport/grpc.rs:497-505 | over the header's own bytes: refused exactly above 16 MiB, ready exactly if the whole frame is there |
| FrameReader.CutSound | src/relay/transport/grpc.rs:497-505 | cutting a byte string loses nothing, yields whole frames only and leaves none behind |
| FrameReader.CutUnique | src/relay/transport/grpc.rs:497-505 | it is the only cut of that kind |
| FrameReader.ChunkingIndependence | src/relay/transport/grpc.rs:495-519 | frames, and whether and where the reader gives up, depend only on the concatenated bytes, for every split into chunks, with a stream failure anywhere |
| FrameReader.NextConserves | src/relay/transport/grpc.rs:502-514 | each call takes events off the front and neither drops nor invents a byte |
| FrameReader.Conservation | src/relay/transport/grpc.rs:495-519 | after any number of calls, frames yielded followed by bytes buffered are all the bytes received |
| Tunnel.SendStream.SendGrpcData | src/relay/transport/grpc.rs:449-480 | the loop sends, grant by grant, what the specification function says, and appends it to what was sent before |
| TunnelTheorems.SendIsPrefix | src/relay/transport/grpc.rs:461-477 | for every sequence of grants a prefix of the data goes out, all of it exactly on success, with END_STREAM on the last DATA frame only and only when asked for |
| TunnelTheorems.SendRespectsGrants | src/relay/transport/grpc.rs:462-476 | each DATA frame is non-empty and no longer than the grant it was sent under |
| TunnelTheorems.SendSucceedsExactly | src/relay/transport/grpc.rs:461-480 | data goes out whole if and only if the grants before any refusal add up to its length; grants of zero do no harm |
| TunnelTheorems.SendTakesGrants | src/relay/transport/grpc.rs:461-480 | sending takes the grants up to the one that completes the data, up to a refusal, or all of them, and leaves the others |
| Tunnel.RawToGrpc | src/relay/transport/grpc.rs:411-446 | the read loop sends one frame per read, then END_STREAM at a clean end, and stops at the first failure |
| Tunnel.CleanEndExactly | src/relay/transport/grpc.rs:425-428 | the input ends cleanly exactly if what stopped the reading was no error |
| Tunnel.WriteFrame | src/relay/transport/grpc.rs:557-568 | one frame is decoded and written, if it holds data; says exactly when it stops the loop and what a failing writer has taken by then |
| Tunnel.GrpcToRaw | src/relay/transport/grpc.rs:550-574 | the receive loop writes the decoded frames in order up to the byte at which the writer fails, skips undecodable ones, and ends well exactly if every byte was taken, no frame was fatal, the stream ended cleanly and the writer could be flushed and shut down |
| Tunnel.WriteOutFatal | src/relay/transport/grpc.rs:557-568 | writing dies exactly if some frame is fatal |
| Tunnel.WriteOutEach | src/relay/transport/grpc.rs:557-568 | frame by frame, what decodes is appended and what does not adds nothing |
| Tunnel.ForwardFrames | src/relay/transport/grpc.rs:576-592 | the forwarding loop sends the frames verbatim, then END_STREAM only after a clean end |
| TunnelTheorems.TransferIsPrefix | src/relay/transport/grpc.rs:420-441 | success, and END_STREAM, only after all frames went out and the source had ended cleanly |
| TunnelTheorems.TransferSucceedsExactly | src/relay/transport/grpc.rs:420-441 | success is reported exactly if all frames went out and the source ended cleanly, and then END_STREAM went out too unless the stream refused something |
| TunnelTheorems.TunnelTransparent | src/relay/transport/grpc.rs:411-574 | for all read sizes, grants and DATA boundaries the far side has at every moment written a prefix of the bytes read and never fails on a frame; at END_STREAM or after success it has written exactly the bytes read |
| TunnelTheorems.ForwardingTransparent | src/relay/transport/grpc.rs:576-592 | the far side of a forwarded stream reads a prefix of the very same frames, and all of them in the end |
| InboundRelay.ReadInitialAuth | src/relay/inbound/grpc.rs:202-220 | within the time limit, returns the shortest run of leading frames that decodes to sixteen bytes and those bytes; says exactly when it ends without them, dies on a fatal frame or runs out of time |
| InboundRelay.SkipAuthIdBytes | src/relay/inbound/grpc.rs:562-566 | drops the bytes still to be skipped and counts them down |
| InboundRelay.DecodeOne | src/relay/inbound/grpc.rs:422-427 | one frame keeps the account of skipped and written bytes, or stops: fatal, or refused by the writer |
| InboundRelay.DecodeTask | src/relay/inbound/grpc.rs:418-442 | writes all decoded bytes but the first sixteen, over the cached frames and the rest of the stream, up to the byte at which the writer fails |
| InboundRelay.OutcomeExactly | src/relay/inbound/grpc.rs:418-442 | the decode task finishes well exactly if every byte behind the first sixteen was taken, no frame was fatal and the stream ended cleanly; it dies exactly of a fatal frame |
| InboundRelay.RelayFast | src/relay/inbound/grpc.rs:240-254 | forwards the cached frames and then the rest of the stream as one transfer |
| InboundRelay.DrainGrpcRequest | src/relay/inbound/grpc.rs:183-200 | the draining loop decodes further frames until it has enough bytes, the time is over or the stream stops, and dies as its specification function says |
| InboundRelay.DrainDiesExactly | src/relay/inbound/grpc.rs:183-200 | draining dies exactly if a fatal frame comes in time while the frames before it hold too few bytes |
| FrameReader.NothingLater | src/relay/transport/grpc.rs:495-519 | a reader that stopped yields nothing more when it is asked again, unless the stream had failed |
| InboundRelay.RelayRequest | src/relay/inbound/grpc.rs:118-200 | the first sixteen decoded bytes, if they come in time, alone decide the way; nothing reaches an upstream they are not routed to; any other request is drained and rejected, unless a fatal frame in the auth id or among the drained frames kills it |
| InboundRelay.FastRefinesCore | src/relay/inbound/grpc.rs:202-245 | for every inbound stream with an auth id, decoding what the fast path forwards gives the auth id followed by exactly what the core path writes, and a prefix of that at every earlier moment |
| InboundRelay.RelayOutbound | src/relay/outbound/grpc.rs:67-87 | sends the auth id as a frame of its own before the inbound bytes |
| InboundRelay.OutboundDelivers | src/relay/outbound/grpc.rs:67-87 | the upstream then reads the auth id followed by the inbound bytes |
| GrpcPool.InvStep | src/relay/transport/grpc.rs:62-204 | every action of every task keeps the pool invariant: locks belong to handshakes, ids are fresh, each connection stored or about to be has an unfinished watcher on its slot |
| GrpcPool.SpawnedWatchedStep | src/relay/transport/grpc.rs:260-275 | the held slot lock keeps a watcher from finishing before its connection is stored |
| GrpcPool.StoredWatchedStep | src/relay/transport/grpc.rs:77-91 | every stored connection has an unfinished watcher on its slot |
| GrpcPoolTheorems.RunInv | src/relay/transport/grpc.rs:62-204 | the invariant holds in every reachable state |
| GrpcPoolTheorems.StoredIdsUnique | src/relay/transport/grpc.rs:77-91 | no two slots hold the same connection, and each stored one has an unfinished watcher on its own slot |
| GrpcPoolTheorems.NeverAfterWatcher | src/relay/transport/grpc.rs:260-275 | once the watcher of a connection has finished, no slot ever holds that connection again |
| GrpcPoolTheorems.WatcherClearsOwnOnly | src/relay/transport/grpc.rs:264-274 | a watcher changes a slot only by clearing its own connection |
| GrpcPoolTheorems.WatcherRunsAfterClose | src/relay/transport/grpc.rs:260-275 | in every run a watcher acts only after its connection has ended |
| GrpcPoolTheorems.DeadConnectionDropped | src/relay/transport/grpc.rs:260-275 | once a connection has ended its watcher can act whenever its slot's lock is free, until it has, and then no slot holds the connection |
| GrpcPoolTheorems.CallersGoOn | src/relay/transport/grpc.rs:62-95 | a waiting caller can reuse what a free slot holds, or connect if it is empty; a slot that is not free is held by a caller that can go on |
| GrpcPoolTheorems.FailureFreesSlot | src/relay/transport/grpc.rs:76-86 | a handshake may fail or be cancelled until its watcher is spawned, and leaves its slot free and empty |
| GrpcPoolTheorems.PrunersGoOn | src/relay/transport/grpc.rs:107-199 | both pruners read shard after shard, then act on what they listed as soon as the slot is free, and the pruner of keys ends when its list is empty |
| GrpcPoolTheorems.AnyoneMayStart | src/relay/transport/grpc.rs:62-204 | calls, pruners, scans, the end of a connection and the passing of time can always begin, and a holder can evict while its key's slot is free |
| GrpcPoolTheorems.ClockIsElapsed | src/relay/transport/grpc.rs:169-199 | the clock that decides idleness shows the time that has passed |
| GrpcPoolTheorems.StoredWhileWatched | src/relay/transport/grpc.rs:77-91 | when a connection is stored its watcher is still there |
| GrpcPoolTheorems.SingleFlight | src/relay/transport/grpc.rs:56-86 | no two tasks perform a handshake for one slot at the same time |
| GrpcPoolTheorems.DifferentIdsNeedClear | src/relay/transport/grpc.rs:62-104 | two calls on one slot return different connections only if a watcher, an eviction or a pruner cleared it in between |
| GrpcPoolTheorems.HeldExactly | src/relay/transport/grpc.rs:62-204 | in every reachable state a slot holds a connection exactly if that was stored there and no watcher, eviction or pruner cleared the slot since |
| GrpcPoolTheorems.EvictDropsExactly | src/relay/transport/grpc.rs:97-104 | an eviction by a caller that got connection id from slot s empties the slot u its key has now; it drops id exactly if u is s and s was not cleared since, and another connection exactly if that was stored in u, after the answer if u is s, and u not cleared since |
| GrpcPoolTheorems.SameSlotExactly | src/relay/transport/grpc.rs:64-68 | a key has the same slot at two moments exactly if it was never out of the pool in between |
| GrpcPoolTheorems.EvictReachesExactly | src/relay/transport/grpc.rs:97-104 | an eviction reaches the slot its caller was served from exactly if the key stayed in the pool since |
| GrpcPoolRuns.EvictDropsNewer | src/relay/transport/grpc.rs:97-104 | a concrete run: two callers share connection 1, the first evicts it, a third connects anew, and the second's eviction drops connection 2: evict has no id check |
| GrpcPoolTheorems.IdleSparesRecent | src/relay/transport/grpc.rs:169-199 | a connection handed out at time u is closed as idle only by a scan that began at least the limit after u |
| GrpcPoolTheorems.ScanClosesIdle | src/relay/transport/grpc.rs:169-199 | when a scan is over, no key in the pool is left with a connection that had reached the limit when the scan began, whatever was removed, inserted, reconnected or reused meanwhile |
| GrpcPoolTheorems.ScanClosesListed | src/relay/transport/grpc.rs:169-199 | every slot the scan found is still on its list or holds no such connection, also if its key is gone |
| GrpcPoolPruning.PruneLeavesActive | src/relay/transport/grpc.rs:107-145 | when pruning ends, each endpoint with a key in the pool is active or was inserted after the pruner began, although the key map is read shard by shard |
| GrpcPoolPruning.PruneLeavesRouted | src/main.rs:362-363 | after a reload each gRPC endpoint left in the pool has the address and TLS server name of a gRPC node of the new table, or was inserted after the pruner began |
| GrpcPoolPruning.PruneSparesActive | src/relay/transport/grpc.rs:112-134 | a pruner removes no key that is active for it |
| GrpcPoolPruning.PruneClosesRemoved | src/relay/transport/grpc.rs:131-144 | a pruner that removes a key empties, before it ends, the slot it had read for the key; that is the slot it removes exactly if the key was never out of the pool since it was read |
| GrpcPoolPruning.PruneClosesAlone | src/main.rs:105-145 | with one pruner at a time, as the main loop runs them, the slot of every key that is removed is emptied before the pruner ends |
| GrpcPoolPruning.PruneClearsOnlyRemoved | src/relay/transport/grpc.rs:131-144 | a pruner empties a slot only after it removed the key for which it had read that slot |
| GrpcPoolRuns.PruneOrphans | src/relay/transport/grpc.rs:131-144 | a concrete run of two pruners at once that leaves a stored connection in a slot no key reaches |
| PoolKeys.SameKeyExactly | src/relay/transport/grpc.rs:52-54 | for all texts, two endpoints share a key exactly if they are equal or one address is cut from the other at a colon that moved to the server name |
| PoolKeys.SocketTexts | src/subscription/manager.rs:180-182 | which address texts count as socket addresses |
| PoolKeys.PoolKeyInjective | src/relay/transport/grpc.rs:52-54 | over socket addresses and any server names, pool keys are injective |
| PoolKeys.ActiveKeysExact | src/relay/transport/grpc.rs:108-116 | the key of an endpoint is among the active keys exactly if the endpoint is active |
| Kdf.Pads | src/vmess/auth.rs:53-59 | the in-place xor loop gives the two pads of section 2 of RFC 2104, over the zero-padded key |
| Kdf.VmessHash.CloneState | src/vmess/auth.rs:73-80 | a clone has the same state and shares no object with the original |
| Kdf.VmessHash.Update | src/vmess/auth.rs:81-83 | absorbs the data into the innermost hash and nothing else |
| Kdf.VmessHash.Finalize | src/vmess/auth.rs:84-89 | digest and left-over state are those of the pure description, for every object, also one finalized before |
| Kdf.CreateRecursive | src/vmess/auth.rs:52-69 | the clone absorbs the inner pad, the given object becomes the outer one |
| Kdf.KdfDigest | src/vmess/auth.rs:93-103 | for every path the loop of clones and updates computes the nested HMAC |
| Kdf.FinishIsNestedHmac | src/vmess/auth.rs:44-90 | at every depth an object finalizes to the HMAC whose hash function is the level below |
| Kdf.KdfRefinesNestedHmac | src/vmess/auth.rs:93-103 | the same for every split of the input into update calls |
| Kdf.LabelText | src/vmess/auth.rs:93-97 | the outermost key is the text VMess prescribes |
| Kdf.KdfOneItem | src/vmess/auth.rs:93-103 | written out for one path item: HMAC keyed with the item over HMAC keyed with the label over SHA-256 |
| Kdf.FinishUsed | src/vmess/auth.rs:84-89 | digest and left-over state of one more finalization, at every depth and after any number of earlier ones |
| Kdf.FirstDigest | src/vmess/auth.rs:84-89 | the first of these digests is the nested HMAC |
| Kdf.EveryFinalize | src/vmess/auth.rs:81-89 | for every sequence of update and finalize calls on an object over any number of keys, the n-th digest is that of the outer hash gone on with each earlier inner digest |
| Kdf.SecondFinalize | src/vmess/auth.rs:84-89 | written out for one key: the second digest is the hash of the outer input twice over, not the first digest |
| Kdf.SamePadsExactly | src/vmess/auth.rs:53-59 | two keys make the same pads exactly if one is the other with zero bytes appended |
| Rename.RenameDuplicates | src/subscription/process.rs:234-249 | order, length and all other fields are kept; the i-th name is the original or "n (k)" with k the number of earlier occurrences |
| Rename.NumberedInjective | src/subscription/process.rs:242-242 | generated names coincide only if both name and number do |
| Rename.GeneratedDiffer | src/subscription/process.rs:240-245 | two generated names never coincide, whatever the input |
| Rename.RenameDistinctExactly | src/subscription/process.rs:234-249 | all output names are distinct if and only if no input name equals "n (k)" for a name n that occurs more than k times, k at least 1 |
| Rename.RenameCollides | src/subscription/process.rs:234-249 | with the names a, a, "a (1)" the output has one name twice |
| Rename.RenameKeepsDistinct | src/subscription/process.rs:240-245 | distinct names are left alone |
| Selecting.CollectIndices | src/subscription/process.rs:253-256 | the first pass gives exactly the places of each name, ascending |
| Selecting.SelectIndex | src/subscription/process.rs:261-282 | the selected index is the earliest of highest priority of its name, the latest for Last |
| Selecting.ChooseAll | src/subscription/process.rs:259-284 | whatever order the map is visited in, the kept indices are exactly the chosen ones |
| Selecting.DeduplicateSelecting | src/subscription/process.rs:251-293 | the result is the kept nodes in their order |
| Selecting.SelectKeepsBest | src/subscription/process.rs:251-293 | a subsequence with distinct names that loses no name, each node the best of its name |
| Selecting.SelectIdempotent | src/subscription/process.rs:251-293 | selecting twice changes nothing more |
| Selecting.DocumentedPreference | src/subscription/process.rs:173-201 | the documented orders of address kinds decide between two nodes of one name, strictly |
| Pipeline.ApplyPipeline | src/subscription/process.rs:49-55 | the loop applies the steps in order |
| Pipeline.StepsInOrder | src/subscription/process.rs:49-55 | steps apply one after the other, the last one last |
| Pipeline.SelectedExactly | src/subscription/process.rs:57-78 | a node is selected exactly if both lists let it through, its name and its source, a list doing so if none of its patterns compiles or one matches; inverted, if not |
| Pipeline.RenamedInOrder | src/subscription/process.rs:85-104 | renaming rules apply one after the other, the last one last; one that does not compile is skipped |
| Pipeline.TransformedFields | src/subscription/process.rs:85-104 | a selected node is renamed, then stripped of emoji if asked, and gets the security and packet encoding the step gives, all else unchanged |
| Pipeline.StripEmojiParts | src/subscription/process.rs:118-120 | an emoji disappears, any other character stays in its place |
| Pipeline.EmojiBlocks | src/subscription/process.rs:122-133 | the edges of the blocks of emoji |
| Pipeline.PipelineDerived | src/subscription/process.rs:49-105 | for all steps and patterns nodes are only dropped or rewritten in name, security and packet encoding, in order |
| Pipeline.RemovePartitions | src/subscription/process.rs:64-78 | a removing step and its inverse split the nodes between them |
| Pipeline.TransformPointwise | src/subscription/process.rs:85-104 | other steps rewrite exactly the selected nodes, each in its place |
| Pipeline.RemovesAllExactly | src/subscription/process.rs:64-78 | a removing step leaves nothing exactly if it selects every node, and everything exactly if it selects none |
| Pipeline.BrokenFilterRemovesAll | src/subscription/process.rs:64-78 | a removing step none of whose name and source patterns compiles removes every node, and no node if it is inverted |
| Manager.FetchAll | src/subscription/manager.rs:107-135 | the loop over the sources updates cache and contributions source by source |
| Manager.MergeAll | src/subscription/manager.rs:144-156 | the loop concatenates the contributions |
| Manager.MergedBlocks | src/subscription/manager.rs:142-156 | the contribution of each place of the configuration stands in the merged list as one block right behind those of the places before it, and the blocks make up the list |
| Manager.TaggedExactly | src/subscription/manager.rs:115-117 | a node gets the name of its source and nothing else changes |
| Manager.DeduplicateNodes | src/subscription/process.rs:231-293 | renaming or selecting, by the strategy named in the configuration |
| Manager.DocumentedStrategies | src/subscription/process.rs:212-222 | under the documented strategy names, over the address texts themselves, the node that is not wanted is not kept; first, last and unknown names go by position |
| Manager.RenamingKeepsAll | src/subscription/process.rs:234-249 | renaming, the default, keeps every node and changes nothing but names |
| Manager.SubscriptionManager.Reload | src/subscription/manager.rs:101-169 | a reload replaces both shared fields and returns the cache to be saved, none if no file is configured |
| Manager.LoadedFor | src/subscription/manager.rs:107-135 | for every list of sources, also with repeated names: what the loop leaves for a name in the cache, and what the name contributes |
| Manager.CacheHoldsLatest | src/subscription/manager.rs:101-140 | after any run of reloads the cache holds exactly the latest successful fetch of each source name that reached the file |
| Manager.LatestContribution | src/subscription/manager.rs:101-169 | after any history of fetch failures a source contributes its latest successful fetch, nothing if there was none |
| Manager.NoCacheContribution | src/subscription/manager.rs:102-103 | without a cache file a source contributes only what was fetched now |
| Manager.OwnFetchExactly | src/subscription/manager.rs:107-156 | a place of the configuration that was fetched contributes its own nodes exactly if the last fetched place of that name gave the same nodes |
| Manager.DuplicateSourceFails | src/subscription/manager.rs:107-156 | a concrete case: with one name given twice both places contribute the later fetch |
| Uuid.ParseUuid | src/vmess/auth.rs:110-123 | the loop packs the 32 hexadecimal digits of a text, whatever else it holds, into sixteen bytes; any other number of digits is refused |
| Uuid.SameUuidExactly | src/vmess/auth.rs:110-123 | two texts spell the same UUID exactly if they have the same digits, in either case and with any separators |
| Uuid.CaseIgnored | src/vmess/auth.rs:110-123 | digits of either case are read alike |
| Uuid.UuidRoundTrip | src/vmess/auth.rs:110-123 | the hexadecimal text of any sixteen bytes is read back |
| Routing.NewValidator | src/vmess/validator.rs:53-68 | succeeds exactly on distinct parsable UUID texts, with one entry per pair in order |
| Routing.BuildValidator | src/subscription/manager.rs:174-192 | succeeds exactly if every node can be reached and identified and no UUID repeats, with one entry per node |
| Routing.RoutableExactly | src/subscription/manager.rs:174-214 | that condition over the texts given to the parsers |
| Routing.TableExactly | src/subscription/manager.rs:174-214 | entry i has the UUID of node i, an address that splits at its last colon into the node's server and port, and is a gRPC one exactly if the node's network is grpc, then with the node's service name, TLS server name and request URI |
| Routing.EndpointsExactly | src/vmess/validator.rs:82-92 | the endpoints given to the pruner are exactly the addresses and TLS server names of the gRPC nodes |
| Routing.MatchAuthId | src/vmess/validator.rs:72-79 | the first entry whose verifier accepts, none exactly if none accepts |
| Routing.MatchExactly | src/vmess/validator.rs:72-79 | an auth id is routed to an entry exactly if that accepts it and no earlier one does |
| Routing.ReachedExactly | src/vmess/validator.rs:72-79 | for every verifier no auth id reaches an entry behind one with the same UUID bytes; where some auth id is accepted by the entry's key alone, an auth id reaches the entry exactly if it is not behind such a one |
| Routing.SpellingShadows | src/vmess/validator.rs:53-79 | with two spellings of one UUID a table is built, and no auth id is ever routed to the second node |
| Routing.SpellingShadowsAny | src/vmess/validator.rs:53-79 | every node has such a double |
| Reload.PreserveRunningRelay | src/main.rs:378-392 | the running listener settings with the reloaded timeouts; reported as changed exactly if the settings differ |
| Reload.Daemon.ReloadFull | src/main.rs:326-376 | a full reload moves the whole shared state as the transition says, with every way to fail |
| Reload.Daemon.ReloadSubs | src/main.rs:437-466 | a subscription reload replaces table and links only |
| Reload.StepAgrees | src/main.rs:326-466 | every reload, succeeding or failing anywhere, keeps table, links and listener in agreement |
| Reload.RunAgrees | src/main.rs:105-145 | so does every run of reloads |
| Reload.InForceOverRuns | src/main.rs:286-466 | after start-up and any run of reloads the table has one entry per node, in order, of the last full reload that succeeded or subscription reload that made a table, and the links are rendered from that same list for the outputs of the configuration stored at that moment |
| Reload.BootExactly | src/main.rs:286-303 | the daemon starts exactly if its nodes make a table |
| Reload.RenderedExactly | src/http/server.rs:356-382 | an output renders one link per node its pipeline leaves, in order, with the node's UUID and name behind the output's host and port and the relay's transport |
| Reload.LinkHasNode | src/http/server.rs:356-382 | a rendered link belongs to a node of the list it was rendered from, behind the output's host and port |
| Reload.LinksAgree | src/main.rs:286-466 | after start-up and any run of reloads the UUID of every rendered link has exactly one routing entry, and its transport and service name are those of the listener started at boot |
| Reload.LinkRoutedExactly | src/main.rs:286-466 | after start-up and any run of reloads an auth id that the UUID of a rendered link accepts is routed to the entry of that link exactly if no earlier entry accepts it; none is if an earlier entry spells the same UUID, and otherwise one that this UUID alone accepts is |
| Reload.FailedReloadExactly | src/main.rs:326-376 | a failing full reload leaves the state alone exactly if the file could not be read, its nodes make no table, or it changes nothing but listener settings |
| Reload.SettingsOverRuns | src/main.rs:326-466 | after any run of reloads the stored configuration is that of the last full reload that wrote one, the users and timeouts in force those of the last that succeeded; each agrees with the configuration exactly if these two do |
| Reload.SubsAfterLogFailure | src/main.rs:351-466 | after the log handle failed any number of subscription reloads load the new sources and render the new outputs behind the old users and timeouts |
| BufPool.ClassFor | src/buf.rs:25-27 | the first size class that holds the size, none exactly if none does |
| BufPool.Pool.Get | src/buf.rs:29-39 | hands out an empty buffer and keeps the pool's bounds |
| BufPool.Pool.Put | src/buf.rs:41-49 | pools the buffer under its class unless the bucket is full, and keeps the bounds |
| BufPool.PutThenGet | src/buf.rs:29-49 | a buffer given back is the next one handed out for its class, emptied, and the pool is then as before; it is dropped if its bucket holds sixty-four |
| BufPool.ClassesAreKibibytes | src/buf.rs:4-7 | the classes are the powers of two from one to sixty-four KiB |
| BufPool.MinimumCapacityOverRuns | src/buf.rs:56-64 | over any run in which only class-sized buffers come back, a request gets an empty buffer of at least the size asked for |
| BufPool.MinimumCapacityExactly | src/buf.rs:56-59 | the documented minimum capacity holds of every next request if and only if the top buffer of each bucket has exactly its class capacity |
| BufPool.MinimumCapacityFails | src/buf.rs:56-59 | a returned 1500-byte buffer is handed out for 2000 bytes |
| IdleTimeout.IdleCheckInterval | src/relay/activity.rs:35-39 | a quarter of the timeout, but at least one and at most five seconds |
| IdleTimeout.CopyWithIdleTimeout | src/relay/activity.rs:50-78 | the select loop ends at the first tick that finds the relay silent for the timeout, or with the copy |
| IdleTimeout.WatchExactly | src/relay/activity.rs:64-78 | the watch ends exactly with the first event at which the copy ends or a tick finds the relay silent for the timeout, and as that says |
| IdleTimeout.NeverWhileActive | src/relay/activity.rs:64-78 | a relay closed as idle had no activity within the timeout before |
| IdleTimeout.IdleBound | src/relay/activity.rs:35-78 | with punctual ticks of period p, a relay silent since a is closed, or has ended, before a + T + p |
| CoreJoin.InvStep | src/relay/inbound/grpc.rs:462-503 | each step keeps the account of which results were taken where |
| CoreJoin.ReadyTaken | src/relay/inbound/grpc.rs:462-503 | a select can take each part exactly if it is ready |
| CoreJoin.EncodeOnlyPolled | src/relay/inbound/grpc.rs:459-503 | encoding makes no progress while the tasks are joined |
| CoreJoin.ExitJoinsAll | src/relay/inbound/grpc.rs:462-503 | at return both tasks have settled and each result was taken exactly once; an error is returned if a task that was never aborted has failed, and otherwise encoding has run to completion and its outcome is returned |
| CoreJoin.RelayOkExactly | src/relay/inbound/grpc.rs:462-503 | when relay ended well, encoding has run to completion and its outcome is returned exactly unless decode failed and was never aborted; then an error is returned |
| CoreJoin.EncodingDropped | src/relay/inbound/grpc.rs:478-482 | a concrete run: relay ends well and its result is taken, decode fails, and encoding is dropped unfinished |
| CoreJoin.TakenAtMostOnce | src/relay/inbound/grpc.rs:462-503 | no result is ever taken twice |
| CoreJoin.Progress | src/relay/inbound/grpc.rs:462-503 | before the return something can always happen, and whatever happens is progress |
| CoreJoin.RunsEnd | src/relay/inbound/grpc.rs:462-503 | so every run has returned within seven steps |
| Base64.TryDecodeRoundTrip | src/subscription/parser.rs:170-189 | whichever of the four engines answers first, an unpadded URL-safe encoding comes back as it was |
| Base64.TryDecodeAnyPadding | src/subscription/parser.rs:170-189 | so does an encoding in either alphabet, with right, wrong or no padding behind it |
| Base64.AlphabetTables | src/subscription/parser.rs:184-187 | the alphabets of sections 4 and 5 of RFC 4648 |
| Base64.KnownText | src/subscription/parser.rs:184-187 | a test vector of section 10 of RFC 4648 |
| Query.PercentEncode | src/http/server.rs:511-526 | the loop percent-encodes byte by byte |
| Query.EncodedRoundTrip | src/http/server.rs:511-526 | form decoding gives every byte back |
| Query.EncodedParts | src/http/server.rs:511-526 | unreserved characters stay, any other byte becomes a percent sign and its two digits |
| Query.HexText | src/http/server.rs:513-520 | the digits are upper-case hexadecimal |
| Query.UnreservedTable | src/http/server.rs:516-516 | the unreserved characters of section 2.3 of RFC 3986 |
| Query.PushQueryPair | src/http/server.rs:502-509 | appends one pair to the query rendered so far |
| Query.QueryRoundTrip | src/http/server.rs:502-526 | a query string parses back into all its pairs, in order, whatever bytes they hold |
| Shadowrocket.BuildShadowrocketLink | src/http/server.rs:467-500 | pushes the pairs in order and puts payload and query together |
| Shadowrocket.LinkFormat | src/http/server.rs:499-499 | scheme, encoded payload, query |
| Shadowrocket.QueryFormat | src/http/server.rs:467-500 | the keys and values of the query, in order, with packet encodings numbered from one |
| UrlAuthority.AuthorityRead | src/subscription/parser.rs:270-283 | the URL library finds a user name, host and port of the kinds it keeps, and what it makes of the host decides |
| UrlAuthority.AuthorityRange | src/subscription/parser.rs:270-283 | whatever it reads, the user name has kept characters only and the host too, or is a bracketed address |
| UrlAuthority.AuthorityReadAny | src/subscription/parser.rs:270-283 | before the last at sign stands a user name up to its first colon, escaped, and a password |
| Shadowrocket.LinkRead | src/subscription/parser.rs:261-272 | base64, query and percent-encoding of a built link are undone, for every node and output |
| Shadowrocket.LinkRoundTrip | src/subscription/parser.rs:261-322 | parsing a built link recovers name, UUID, alter id, security and packet encoding behind the output's host and port, with the relay's transport, TLS flag and service name, if and only if the security is named and has no colon, the UUID and the host are kept by a URL as they are, and the port is not zero |
| Shadowrocket.Ipv6LinkRead | src/http/server.rs:536-547 | an IPv6 output host, with or without brackets, is read back as the canonical address in brackets |
| Shadowrocket.NodeRebuilt | src/subscription/parser.rs:336-400 | the common builder makes that node from the options read |
| Shadowrocket.RefusedExactly | src/subscription/parser.rs:336-347 | a node is refused exactly without a port of sixteen bits, a server or an id |
| Shadowrocket.BuiltFields | src/subscription/parser.rs:349-400 | what options become: defaults, fallbacks of the server name, the TLS texts, and the fields of gRPC and WebSocket nodes |
| Shadowrocket.KeyPreference | src/subscription/parser.rs:273-318 | a newer key wins over an older one, and both over the default |
| Shadowrocket.AlterIdPreference | src/subscription/parser.rs:291-297 | the alter id is the number under its newer key, or else under the older one, or zero |

## Left out

- TCP, TLS and HTTP/2 handshakes, listeners, accept loops, signals and the file watcher: I/O around libraries; they appear only as steps that succeed or fail.
- Clocks and random numbers: how many frames come within a time limit, and how many bytes are drained, are parameters.
- Returning the reader's buffer and the frame buffers to the pool on drop: encoding is proved not to depend on the pool's content.
- GrpcPool.InvStep: connection ids are unbounded, so the wrap-around of the 64-bit counter after 2^64 handshakes is not modelled.
- An eviction that finds its key gone or the slot locked changes nothing and is no action of the pool; nor are the counts logged at debug level.
- IdleTimeout.IdleBound: times are real numbers, so the rounding of a duration divided by four is not modelled.
- `wait_grpc_relay` and `wait_grpc_fast_relay`: the same idle watch around two joins, with easy claims.
- The retries of `load_config_with_retry`, and the `tracing` handle beyond whether it fails.
- `AuthVerifier::verify`, AES, MD5 and CRC32: which UUID bytes accept an auth id is a parameter of the routing table.
- Regular expressions, the parsers of IP and socket addresses and URIs, and UTF-8 validation are parameters.
- Shadowrocket.BuiltFields: the network name is lower-cased over ASCII only, while the source lower-cases all of Unicode.
- Shadowrocket.LinkRoundTrip: texts are UTF-8 byte strings, and the library's two readers of IPv6 addresses are parameters that deal in hexadecimal digits, colons and dots.
- The v2rayN JSON and standard URL link formats: they rest on JSON and URL serialisation; `Reload` keeps of all three formats what they carry of a node and of the relay.
- A cache file that someone else damages: it then reads as empty.
- HTTP routing, User-Agent detection, Basic Auth, logging and the command line: short branches with easy claims.
