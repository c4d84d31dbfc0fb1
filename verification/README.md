# Dafny models of the proxy's protocol code

Each module models one part of the repository in Dafny and proves what that part promises.

- **Streaming HTTP/1.1 request rewriter** (`Bytes`, `ChunkedTracker`, `ChunkedBody`, `ChunkedVerdicts`, `RequestHeader`,
  `RequestStream`, `OrderedConn`). A byte-at-a-time machine is the reference; the wrapper's `Write`, with its buffer, counters and the
  preview and commit of the chunked tracker, is an object proved against it over a connection that may take few bytes or fail.
- **Optimistic replay caches** (`ReplayProtocol`, `AntigravityCache`, `HomeReplay`, `ClaudeReplay`, `CodexTurns`,
  `CodexAppends`, `Eviction`). One abstract protocol of snapshots, revisions, tombstones and branches is refined by the
  in-process cache and by any number of clients on an atomic compare-and-swap store. Methods are atomic, as under the cache mutex.
- **Bounded LRU cache** (`BoundedLru`), against recency defined by last use.
- **Cumulative release protocol and Home recovery** (`ReleaseFlusher`, `HomeRecovery`, `HomeProbe`), over runs of events
  and, for recovery, over chains of client lifetimes; `HomeProbe` takes the probe apart into ping and store.
- **YAML merge** (`YamlTree`, `YamlMatching`, `YamlAgreement`, `YamlDeletions`, `YamlWeights`, `YamlNodes`, `YamlMerge`,
  `YamlGraph`). Functions on trees say what the merge computes, the next four modules what that means, and `YamlMerge` changes node objects in place and leaves them
  standing for those trees. `YamlGraph` is the memoised copy of cyclic graphs.
- **Parsers and printers** (`Resp`, `Wav`).

A random name, a clock, a short write, an interfering client or a lost reply is an argument or a field with arbitrary
content, so that every statement holds for all of them.

Where code and documentation part:

- `internal/config/config_yaml.go:315` says that an explicit zero weight must be preserved. Below a key that is
  new it may be lost (`YamlWeights.ZeroWeightInNewMappingIsLost`, `YamlWeights.ZeroWeightLostOrKept`,
  `YamlWeights.ZeroWeightBelowVanishingPair`); `YamlWeights.WeightAfterMerge` gives the exact condition at any depth.
- The request-header bound is checked only at the end of a call, so acceptance of an over-long header depends on how the
  stream is cut (`RequestStream.OverlongHeaderDependsOnCut`); `RequestStream.SplitInvariance` gives the exact condition.
- Doubling the retry delay wraps around when the maximum is 2^62 nanoseconds or more (`ReleaseFlusher.ExponentialBackoff`).
- Appending a Codex turn twice may differ from once on a stored chain beyond the limits (`CodexTurns.AppendTwice` gives the
  condition, `CodexTurns.OverlongChainAppendsAgain` such a chain). This code stores none, since every write is trimmed.
- The probe of a Home client stores the stable state without looking whether the address has changed since its ping
  (`internal/home/client.go:1785-1792`). `HomeProbe.RightIffTimely` says when the switching bit stays right,
  `HomeProbe.LateStoreGivesUnproven` gives the run in which it does not.

## Model

| member | source | states |
|---|---|---|
| ChunkedTracker.ScanConcat | internal/httpwire/ordered_conn.go:220-280 | Consuming `a` and then `b` equals consuming `a + b`, as long as `a` leaves the body unfinished; otherwise `b` is not looked at. |
| ChunkedTracker.ScanPositive | internal/httpwire/ordered_conn.go:220-280 | Every strict prefix of what a scan takes leaves the tracker running, so the verdict comes exactly with the last byte taken. |
| ChunkedTracker.ChunkTracker.Consume | internal/httpwire/ordered_conn.go:220-280 | The byte loop, fields updated in place, leaves the tracker, count and verdict of the scan of the same bytes, for every starting state. |
| ChunkedTracker.ChunkTracker.Clone | internal/httpwire/ordered_conn.go:213-218 | A fresh tracker with the same state: consuming the clone leaves the original alone. |
| ChunkedBody.ChunkedExactness | internal/httpwire/ordered_conn.go:220-280 | On the encoding of any chunk list (data may contain line ends; extensions and trailers within the line bounds) followed by any bytes, the tracker finishes after exactly the encoded length. |
| ChunkedBody.TrackerRecognizesBodies | internal/httpwire/ordered_conn.go:220-280 | The tracker finishes at the last byte of a byte string if and only if the string is a chunked body in the sense of section 7.1 of RFC 9112 as the code reads it. |
| ChunkedBody.PrintedSizeLine | internal/httpwire/ordered_conn.go:229-238 | The usual hexadecimal size line, with or without an extension, is read back as its size. |
| ChunkedVerdicts.SizeLineMeans | internal/httpwire/ordered_conn.go:232-239 | A size line announces a size if and only if it is written as one: padding, a sign or none, hexadecimal digits in either case with any leading zeros, padding, and anything behind a semicolon. Every other line, and every size beyond 64 bits, is refused. |
| ChunkedVerdicts.TrailersMean | internal/httpwire/ordered_conn.go:265-274 | The trailers end with a single line end, or with the first blank line behind a field, within 1 MiB. |
| ChunkedVerdicts.VerdictsMean | internal/httpwire/ordered_conn.go:220-280 | For every byte string: the tracker waits if and only if it has read whole chunks and a beginning of what may follow, finishes if and only if a body stands in front, and refuses exactly everything else, applied to each prefix: at the first byte that cannot belong to a body. |
| RequestHeader.StableReordering | internal/httpwire/ordered_conn.go:130-147 | The reordered lines are a permutation of the old ones, sorted by the configured names, and the lines of one name keep their order (section 5.3 of RFC 9110). |
| RequestHeader.ReorderingKeepsFraming | internal/httpwire/ordered_conn.go:130-192 | Reordering changes neither the announced Content-Length nor the chunked announcement nor the total length. |
| RequestHeader.ReorderedHeader | internal/httpwire/ordered_conn.go:115-156 | The forwarded header is again a header of the same length with the same lines and framing, the request line first; reordering it again changes nothing; without configured names it is the original. |
| RequestHeader.PlaceNamed | internal/httpwire/ordered_conn.go:134-142 | One pass over the header lines for one name takes exactly the unused lines of that name, in order, and marks them. |
| RequestHeader.PlaceLines | internal/httpwire/ordered_conn.go:130-147 | The marking loops produce the stable reordering. |
| RequestHeader.OrderRequestHeader | internal/httpwire/ordered_conn.go:115-156 | The header to forward, and the framing of the original lines. |
| RequestHeader.RequestContentLength | internal/httpwire/ordered_conn.go:163-177 | The first line named Content-Length decides: the length is n > 0 exactly when its text behind the colon is n in decimal, with padding, a plus sign and leading zeros allowed, and n has 64 bits; otherwise, or without such a line, it is zero. |
| RequestHeader.RequestUsesChunked | internal/httpwire/ordered_conn.go:179-192 | True exactly when some Transfer-Encoding line has, among the texts between its commas, one that is the chunked coding up to padding and case. |
| RequestHeader.LengthAnnounced | internal/httpwire/ordered_conn.go:163-177 | The length that all stream results speak of is the number the first Content-Length line says in decimal. |
| RequestHeader.ChunkedAnnounced | internal/httpwire/ordered_conn.go:179-192 | The chunked announcement that all stream results speak of, said without the search. |
| RequestHeader.NamedLine | internal/httpwire/ordered_conn.go:158-161 | A line has a name exactly when the text in front of its first colon is not empty and is that name up to case. |
| RequestHeader.DesiredByRequestLine | internal/httpwire/ordered_conn.go:118-129 | The order is asked for the texts in front of the first and between the first two spaces; a request line with fewer is not reordered. |
| RequestHeader.PlainLengthLine | internal/httpwire/ordered_conn.go:163-177 | The line "Content-Length: 10" says ten. |
| RequestStream.RunConcat | internal/httpwire/ordered_conn.go:47-111 | What the stream machine does to `a + b` is what it does to `a` and then, from the state reached, to `b`. |
| RequestStream.Pipelined | internal/httpwire/ordered_conn.go:81-111 | Any sequence of well-formed requests leaves as reordered header and identical body of each, one after the other, and the connection is idle again. |
| RequestStream.FramedByLength | internal/httpwire/ordered_conn.go:81-111 | From the bytes alone: a header whose first Content-Length line says the length of the body, without Transfer-Encoding, is followed by exactly that body, and the connection is idle again. |
| RequestStream.FramedByNothing | internal/httpwire/ordered_conn.go:81-111 | Without either line nothing follows the header. |
| RequestStream.FramedByChunks | internal/httpwire/ordered_conn.go:81-111 | A header that says chunked is followed by a chunked body, whatever length it announces besides. |
| RequestStream.SameBoundaries | internal/httpwire/ordered_conn.go:97-110 | A forwarded request is a request with the same body and announces the same framing: the next hop cuts the stream at the same places (section 6.3 of RFC 9112). |
| RequestStream.SecondPass | internal/httpwire/ordered_conn.go:47-111 | For every byte stream and state: forwarding the forwarded bytes once more forwards the same bytes and stands at the same point of the same message. |
| RequestStream.SplitInvariance | internal/httpwire/ordered_conn.go:40-113 | A stream cut into `Write` calls is accepted if and only if the whole stream is well formed and no header still open at the end of a call exceeds 1 MiB; output and final state are then those of the uncut stream. |
| RequestStream.AnyTwoCuts | internal/httpwire/ordered_conn.go:40-113 | Any two accepted ways of cutting the same stream forward the same bytes and end in the same state. |
| RequestStream.OverlongHeaderDependsOnCut | internal/httpwire/ordered_conn.go:84-89 | The bound is only checked when a call ends without the blank line: some over-long header passes in one call and is refused in two. |
| OrderedConn.WriteAll | internal/httpwire/ordered_conn.go:282-296 | Against any writer that may take few bytes or fail: exactly the reported prefix has been sent, and everything when no failure is reported; a healthy writer never fails. |
| OrderedConn.OrderedConn.WriteBody | internal/httpwire/ordered_conn.go:48-58 | The body branch leaves exactly the state reached by the bytes it managed to send. |
| OrderedConn.OrderedConn.WriteChunked | internal/httpwire/ordered_conn.go:59-79 | The preview, write and commit of the chunked branch leave the state reached by the bytes sent, also when the connection stops part way; a refused preview sends nothing. |
| OrderedConn.OrderedConn.TakeHeader | internal/httpwire/ordered_conn.go:81-110 | The header branch holds back, forwards, or gives up with the reordered header torn, and says which; the buffered bytes and the remaining input are accounted for. |
| OrderedConn.OrderedConn.Write | internal/httpwire/ordered_conn.go:40-113 | The whole call, for any connection: a success returns the full length and has done what the uncut machine does; every failure says how far the stream got and what was sent. |
| OrderedConn.PartialWriteResume | internal/httpwire/ordered_conn.go:48-79 | After a call that stopped inside a body or chunked section at `n`, writing the rest sends exactly what was missing and ends in the state of an unfailing call. |
| OrderedConn.WholeWrite | internal/httpwire/ordered_conn.go:47-113 | A call that got through everything is one accepted call of the stream model, refused only for an over-long open header. |
| ReplayProtocol.InvStep | internal/cache/antigravity_reasoning_replay_cache.go:337-384 | Every step of the snapshot protocol keeps revisions and branch names unique and all chains of a branch ordered by prefix. |
| ReplayProtocol.PublishExtends | internal/cache/antigravity_reasoning_replay_cache.go:339-348 | An accepted chain goes to a new branch, or extends the live chain of its branch. |
| ReplayProtocol.NoLostUpdate | internal/cache/antigravity_reasoning_replay_cache.go:337-348 | In every run, all chains ever stored under one branch are ordered by prefix, and the live one is the longest. |
| ReplayProtocol.PublishFindsItsState | internal/cache/antigravity_reasoning_replay_cache.go:337-342 | In every run, a publish that goes through found exactly what its snapshot read, or extends a live chain of the snapshot's branch that extends what the snapshot read. |
| ReplayProtocol.LosingBranchFences | internal/cache/antigravity_reasoning_replay_cache.go:256-275 | Deletion, eviction, expiry, clearing, an overwrite or a move to a new branch fences every snapshot handed out before. |
| ReplayProtocol.PermanentFencing | internal/cache/antigravity_reasoning_replay_cache.go:333-417 | In every run: once a key has lost its branch, no snapshot handed out before can ever again publish or delete for that key, whatever happens later. |
| ReplayProtocol.ReaderMayPublish | internal/cache/antigravity_reasoning_replay_cache.go:337-384 | Whoever has just read a cell may publish any chain, on the same branch exactly when it extends what was read, and may delete. |
| ReplayProtocol.ContinuationIsAccepted | internal/cache/antigravity_reasoning_replay_cache.go:339-348 | After a publish that extends its snapshot, the same snapshot may publish exactly the chains that extend that one too, and may no longer delete. |
| AntigravityCache.AntigravityCache.Get | internal/cache/antigravity_reasoning_replay_cache.go:230-251 | A live hit is refreshed and read, and nothing else changes; a miss or an expired entry leaves a tombstone on a branch of its own, and the other entries stay unless a full cache loses its oldest batch. Either way the snapshot is issued and the call is a given run of the protocol. |
| AntigravityCache.AntigravityCache.ReserveAbsent | internal/cache/antigravity_reasoning_replay_cache.go:256-275 | A miss is fenced under a new revision and branch, after the oldest batch has made room in a full cache. |
| AntigravityCache.AntigravityCache.Replace | internal/cache/antigravity_reasoning_replay_cache.go:333-353 | Accepts exactly the snapshot state or a live prefix of its branch, stores the chain under the next revision, evicts the oldest batch beyond the capacity, and is a publish step of the protocol. |
| AntigravityCache.AntigravityCache.DeleteIfUnchanged | internal/cache/antigravity_reasoning_replay_cache.go:372-384 | Puts a tombstone on a new branch exactly when the entry still is what the snapshot read. |
| AntigravityCache.AntigravityCache.Overwrite | internal/cache/antigravity_reasoning_replay_cache.go:100-143 | An unconditional write or delete takes a new revision and branch and keeps the capacity. |
| AntigravityCache.AntigravityCache.EvictOldest | internal/cache/antigravity_reasoning_replay_cache.go:623-645 | Removes the entries with the least timestamps and counts them in the eviction epoch. |
| AntigravityCache.AntigravityCache.Clear | internal/cache/antigravity_reasoning_replay_cache.go:478-483 | Everything goes, the revision counter stays, and the protocol sees every key lose its branch. |
| AntigravityCache.AntigravityCache.PurgeExpired | internal/cache/antigravity_reasoning_replay_cache.go:647-656 | Exactly the expired entries go, as a drop step of the protocol. |
| AntigravityCache.PrefixOf | internal/cache/antigravity_reasoning_replay_cache.go:456-466 | The comparison loop decides the prefix relation. |
| AntigravityCache.StorableChains | internal/cache/antigravity_reasoning_replay_cache.go:333-353 | Up to 4096 items of up to 4 KiB may be stored; no item above 16 MiB, no more items, and not none. |
| HomeReplay.SwapIsPublish | internal/cache/antigravity_reasoning_replay_cache.go:296-331 | Whenever a compare-and-swap of the publish loop finds its value, that value passes the local acceptance test and the branch written is the local one. |
| HomeReplay.InterleavingsRunProtocol | internal/cache/antigravity_reasoning_replay_cache.go:296-331 | Any interleaving of any number of clients, in which each acts on nothing but its own call and the atomic store, is a run of the same protocol as the in-process cache. |
| HomeReplay.SwapRefinesLocal | internal/cache/antigravity_reasoning_replay_cache.go:303-329 | Under any interleaving, a successful swap replaced what the request had read or a live chain of the snapshot's branch that it extends, and then keeps that branch; a chain that does not extend its snapshot gets a new one. |
| HomeReplay.HomeFencing | internal/cache/antigravity_reasoning_replay_cache.go:296-385 | Permanent fencing holds on the shared store too: once an action has taken the branch of a key away, no snapshot read before changes that key again, neither by a swap nor by a conditional delete. |
| HomeReplay.ReplaceIfUnchanged | internal/cache/antigravity_reasoning_replay_cache.go:296-331 | The four-attempt loop against a store that others change arbitrarily and whose calls may fail, decided from the store alone: an attempt follows another exactly when that one met another value and may replace what is read back; it succeeds exactly when the last swap meets its value and is answered, and fails exactly when a call of the last attempt is answered by an error. A success wrote exactly the new chain over an acceptable value. Left alone it succeeds at the first attempt, or at the second over a live chain it may replace. It takes the steps of the interleaving machine. |
| ClaudeReplay.TrimmedIsLongestSuffix | internal/cache/claude_thinking_replay_cache.go:376-381 | Trimming a session returns its longest suffix within 64 turns and 8 MiB. |
| ClaudeReplay.NewTurnIsKeptLast | internal/cache/claude_thinking_replay_cache.go:367-382 | A new turn is always kept, as the last one, and only the shortest sufficient prefix of older turns is dropped. |
| ClaudeReplay.TurnAppended | internal/cache/claude_thinking_replay_cache.go:367-382 | An append said from the contents alone: nothing changes exactly for a turn whose canonical JSON a stored turn has; any other becomes the last one, behind as many of the latest turns as fit. |
| ClaudeReplay.AppendTwice | internal/cache/claude_thinking_replay_cache.go:367-375 | Appending a turn that canonical JSON comparison finds present changes nothing. |
| ClaudeReplay.Append | internal/cache/claude_thinking_replay_cache.go:367-382 | The duplicate search and the trimming loop compute that append. |
| ClaudeReplay.TotalRemove | internal/cache/claude_thinking_replay_cache.go:392-398 | The sum over all sessions loses exactly the bytes of a removed session, in whatever order the map is walked. |
| ClaudeReplay.EnforcedIdle | internal/cache/claude_thinking_replay_cache.go:438-446 | Within the limits, enforcement removes nothing. |
| ClaudeReplay.ClaudeCache.Enforce | internal/cache/claude_thinking_replay_cache.go:438-446 | The eviction loop terminates, removes the smallest sufficient number of batches of the oldest entries, and takes its zero-reset branch exactly when the running total exceeds the real sum by more than the whole budget. |
| ClaudeReplay.ClaudeCache.EvictOldest | internal/cache/claude_thinking_replay_cache.go:448-471 | The oldest entries leave with their bytes; the difference of running total and real sum stays. |
| ClaudeReplay.ClaudeCache.Store | internal/cache/claude_thinking_replay_cache.go:354-365 | A stored session keeps the total equal to the sum of all stored bytes, at most 10240 entries and at most 256 MiB; the reset is not needed. |
| ClaudeReplay.ClaudeCache.Get | internal/cache/claude_thinking_replay_cache.go:143-161 | A live hit is refreshed; anything else leaves a tombstone of a new generation, which stays even when the eviction it causes takes it; the limits hold. |
| ClaudeReplay.ClaudeCache.Replace | internal/cache/claude_thinking_replay_cache.go:195-213 | Succeeds exactly for the generation the snapshot read, and appends to exactly the contents that generation stood for. |
| ClaudeReplay.ClaudeCache.DeleteIfUnchanged | internal/cache/claude_thinking_replay_cache.go:239-249 | Puts a tombstone exactly for the generation read. It does not evict: the limits survive if and only if the snapshot was a found one (the getter hands out no other), the key existed, or the cache was not full. |
| ClaudeReplay.ClaudeCache.Overwrite | internal/cache/claude_thinking_replay_cache.go:71-101 | A valid content replaces the session under a new generation, within the limits. |
| ClaudeReplay.ClaudeCache.Delete | internal/cache/claude_thinking_replay_cache.go:268-275 | The session leaves with its bytes. |
| ClaudeReplay.ClaudeCache.PurgeExpired | internal/cache/claude_thinking_replay_cache.go:473-482 | Exactly the expired sessions leave, with their bytes. |
| CodexTurns.TrimmedIsLongest | internal/cache/codex_reasoning_replay_cache.go:212-231 | Trimming returns the longest suffix that begins at a turn boundary and is within 256 turns and 16 MiB, and nothing exactly when no such suffix exists. |
| CodexTurns.Trim | internal/cache/codex_reasoning_replay_cache.go:212-231 | The re-slicing loop computes that suffix and terminates. |
| CodexTurns.FittingTurnSurvives | internal/cache/codex_reasoning_replay_cache.go:190-210 | A fitting turn opened by a marker with an identifier is, unless its identifier is present, the end of the new chain, behind the most whole earlier turns the limits allow. |
| CodexTurns.AppendTwice | internal/cache/codex_reasoning_replay_cache.go:190-210 | Appending a fitting turn twice equals once if and only if trimming the chain does not drop a turn of the same identifier. |
| CodexTurns.OverlongChainAppendsAgain | internal/cache/codex_reasoning_replay_cache.go:190-231 | A chain where twice differs from once: 257 turns, the first with the identifier of the new one. |
| CodexTurns.AppendTwiceWithin | internal/cache/codex_reasoning_replay_cache.go:190-210 | On a chain within the limits, as every append leaves it, appending twice equals once. |
| CodexTurns.Append | internal/cache/codex_reasoning_replay_cache.go:190-210 | Marker check, identifier search, concatenation and trimming compute the append. |
| CodexTurns.TurnAppended | internal/cache/codex_reasoning_replay_cache.go:190-210 | An append said from the items alone: a chain that does not begin with a marker is dropped, a turn whose identifier a marker of the chain names is not added, and the rest is its longest fitting suffix at a turn boundary. |
| CodexTurns.Normalize | internal/cache/codex_reasoning_replay_cache.go:347-357 | The accepted items are those at a strictly increasing list of indices, exactly the ones with a normal form, in their order; the result is their longest suffix that begins at a turn boundary and is within the limits, and it is accepted exactly when it is not empty. |
| CodexTurns.AllAccepted | internal/cache/codex_reasoning_replay_cache.go:347-357 | When every item is accepted and they fit, the result is item by item the normal form of the input. |
| CodexTurns.CountedTurns | internal/cache/codex_reasoning_replay_cache.go:212-231 | What counts as a turn: the beginning and every later marker, once each and in order. |
| CodexTurns.CountedBytes | internal/cache/codex_reasoning_replay_cache.go:212-231 | The size of a chain is the sum of the bytes of its items. |
| CodexAppends.ConcurrentAppendsAreSequential | internal/cache/codex_reasoning_replay_cache.go:136-168 | Any interleaving of any number of compare-and-swap appends, with lost replies, retries, overwrites and expiry, leaves the value of the effects applied one after the other in swap order; no call is applied twice, and every reported success was applied. |
| CodexAppends.FittingTurnsAllSurvive | internal/cache/codex_reasoning_replay_cache.go:190-231 | Turns with new identifiers that fit together with what was there are all kept, in the order of their swaps. |
| CodexAppends.AppendHome | internal/cache/codex_reasoning_replay_cache.go:136-168 | The 32-attempt loop against arbitrary interference, decided from the store alone: an attempt follows another exactly when that one found the value changed; it succeeds exactly when the last attempt is answered and finds it unchanged, and then appended the turn to the very value it replaced; otherwise a call failed, the request was cancelled, or every attempt met a change. Left alone it succeeds at the first attempt. |
| CodexAppends.CodexCache.AppendLocal | internal/cache/codex_reasoning_replay_cache.go:171-187 | The accepted items, in their order and trimmed, go behind the live chain (an expired one counts as absent); entries stay within 10240 and every chain within its limits. |
| CodexAppends.CodexCache.Overwrite | internal/cache/codex_reasoning_replay_cache.go:77-116 | The accepted items, in their order and trimmed, replace the chain, and the oldest batch leaves beyond the capacity. |
| CodexAppends.CodexCache.Get | internal/cache/codex_reasoning_replay_cache.go:276-295 | A live chain is returned and refreshed, an expired one removed. |
| BoundedLru.RecentByLastUse | internal/cache/bounded_lru.go:13-15 | The reference: recency lists the keys of a trace once each, by the position of their last use. |
| BoundedLru.BoundedStep | internal/cache/bounded_lru.go:38-65 | A bounded recency list is, access by access, the beginning of the unbounded one. |
| BoundedLru.SmallerCacheContained | internal/cache/bounded_lru.go:38-77 | After the same calls, lookups included, a larger cache contains every smaller one and lists their common keys in the same order. |
| BoundedLru.SmallerLruContained | internal/cache/bounded_lru.go:38-77 | Of two cache objects that received the same calls, the larger holds every key of the smaller, in the same order. |
| BoundedLru.Lru.GetOrAdd | internal/cache/bounded_lru.go:38-65 | Map and list keep the same distinct keys, the `capacity` most recently used ones in order; a miss stores the created pair, and exactly the least recently used pair leaves a full cache; created pairs are the stored plus the evicted ones. |
| BoundedLru.Lru.Get | internal/cache/bounded_lru.go:68-77 | A hit moves the key to the front, a miss changes nothing. |
| BoundedLru.Lru.Len | internal/cache/bounded_lru.go:79-83 | The map has as many entries as the list, never more than the capacity. |
| Resp.ArrayRoundTrip | internal/api/redis_queue_protocol.go:413-438 | Reading a printed array returns its items, any bytes included, and leaves the rest of the stream untouched; a nil item reads back as the empty string. |
| Resp.FramesRoundTrip | internal/api/redis_queue_protocol.go:413-485 | Reading a concatenation of printed frames returns each argument list in order and leaves the remaining bytes. |
| Resp.ArrayStable | internal/api/redis_queue_protocol.go:413-485 | For every stream: once a frame has been accepted or refused, bytes that arrive later change neither the verdict nor what is left before them. |
| Resp.CutFrameWaits | internal/api/redis_queue_protocol.go:413-485 | A printed frame that has not fully arrived is never taken for a frame and never refused. |
| Resp.ReplyRoundTrip | internal/home/certificate.go:350-382 | The certificate reader returns a printed payload whatever two bytes end it, where the queue reader insists on a line end. |
| Resp.Reader.ReadArray | internal/api/redis_queue_protocol.go:413-438 | The array loop, advancing the stream, returns and leaves what the frame functions say, failures included. |
| Resp.Reader.ReadBulkString | internal/api/redis_queue_protocol.go:455-475 | Length line, payload and terminator, with the negative length, the short read and the 64-bit overflow of the buffer size. |
| Resp.Reader.ReadReply | internal/home/certificate.go:350-382 | The certificate reader, with its error replies. |
| Resp.Writer.WriteArrayOfBulkStrings | internal/api/redis_queue_protocol.go:528-541 | The writer appends exactly the encoding the reader understands, nil items included. |
| Resp.EncodeArray | internal/home/certificate.go:335-348 | The other printer writes the same encoding for the same arguments. |
| Resp.LiteralFrame | internal/api/redis_queue_protocol.go:528-541 | A frame byte for byte. |
| Resp.SimpleReads | internal/api/redis_queue_protocol.go:440-453 | A simple string or an integer reads as the text up to its line end. |
| Resp.ReplyRefusals | internal/home/certificate.go:350-382 | An error reply and a missing value are told apart from a payload. |
| Resp.OtherPrefixes | internal/api/redis_queue_protocol.go:413-453 | Every other first byte is a protocol error, for each of the three readers. |
| ReleaseFlusher.ReleaseProtocol | internal/home/concurrency_release.go:77-100 | Under any interleaving of marks and acknowledgements: a group's latest sequence is the largest marked, its acknowledged one the largest sent and never ahead; a ticket is closed exactly when its sequence is acknowledged; idle means that no ticket is open. |
| ReleaseFlusher.StepKeeps | internal/home/concurrency_release.go:77-233 | Each step keeps the ledger in order; sequences only grow, tickets are never forgotten, closed channels stay closed. |
| ReleaseFlusher.SequencesFollowEvents | internal/home/concurrency_release.go:81-92 | From any state, later marks and sends determine both sequences by their maxima. |
| ReleaseFlusher.AcknowledgementCloses | internal/home/concurrency_release.go:216-230 | An acknowledgement closes exactly the open tickets of its group up to its sequence, each for the first time. |
| ReleaseFlusher.IdleMeansClosed | internal/home/concurrency_release.go:258-267 | Idle if and only if every ticket handed out is closed. |
| ReleaseFlusher.Flusher.MarkDirty | internal/home/concurrency_release.go:77-100 | Refuses blank groups and non-positive sequences; otherwise hands out a new ticket, closed at once when already acknowledged, and raises the latest sequence. |
| ReleaseFlusher.Flusher.CloseDue | internal/home/concurrency_release.go:219-227 | The closing loop closes every channel waiting up to the sequence, none twice, and forgets exactly those waiters. |
| ReleaseFlusher.Flusher.Flush | internal/home/concurrency_release.go:187-233 | With marks arriving during sends that may fail: every group that is behind is sent exactly once with its latest sequence at the snapshot; the flush fails exactly when one of these sends is answered by an error, and that stops no other; each answered send acknowledges its group up to the sequence sent, and nothing else is acknowledged. Every mark that arrived is recorded, and the flush is a run of the protocol. |
| ReleaseFlusher.Flusher.IsIdle | internal/home/concurrency_release.go:258-267 | The loop decides idleness, and with it whether every ticket is closed. |
| ReleaseFlusher.DelayWithinBounds | internal/home/concurrency_release.go:136-149 | Whatever the previous delay and even if doubling wraps around 64 bits, the next delay lies between flush interval and maximum. |
| ReleaseFlusher.ExponentialBackoff | internal/home/concurrency_release.go:136-149 | After k failures the delay is min(F * 2^k, M) for every k if and only if M is below 2^62 nanoseconds or equals F; otherwise doubling wraps and the delay falls back to F. |
| ReleaseFlusher.ConfiguredTimings | internal/home/concurrency_release.go:166-185 | A positive flush interval is the first delay, a missing one is 250 milliseconds, and a maximum below the interval is raised to it. |
| HomeRecovery.AddressChange | internal/home/client.go:830-845 | The target address changes in a refresh or failover only, and every change drops all pools, sets the switching bit and keeps the takeover bit. |
| HomeRecovery.OnlyProbeClearsSwitching | internal/home/client.go:363-370 | Operations act on the switching and the takeover bit independently; only a successful command probe clears the first. |
| HomeRecovery.SwitchingMeansUnprobed | internal/home/client.go:830-845 | In every run over any number of lifetimes the switching bit says exactly that the address changed with no successful probe since; every pool belongs to the current address. |
| HomeRecovery.SwitchSafety | internal/home/client.go:1458-1493 | In every run, across lifetimes: a release client is handed out only when no address change waits for a probe, the client is not fenced and no takeover is pending, and it belongs to the current address. |
| HomeRecovery.FencedForever | internal/home/client.go:291-355 | A closed or aborted client stays fenced and without pools until its next lifetime. |
| HomeRecovery.LegacyNeverTakesOver | internal/home/client.go:261-269 | Once downgraded, no later lifetime ever asks for a takeover. |
| HomeRecovery.ThirdFailureSwitches | internal/home/client.go:854-910 | With discovery on and another node known, consecutive failures change the address no later than at the third. |
| HomeRecovery.FailoverSwitches | internal/home/client.go:889-910 | A failover goes to a candidate that is a different valid node, and stays if and only if there is none. |
| HomeRecovery.FailoverToNode | internal/home/client.go:889-910 | A failover goes to the first of the known nodes, in their order, that is a different valid node. |
| HomeRecovery.FailoverToSeed | internal/home/client.go:889-910 | Only when no known node is, it goes to the configured seed. |
| HomeRecovery.RefreshGoesToBest | internal/home/client.go:783-787 | A refresh with discovery remembers the received nodes, forgets the failures, and goes to the first node when it is valid. |
| HomeRecovery.HomeClient.SwitchToNode | internal/home/client.go:830-845 | The two compare-and-swaps and the closing of the pools make the move, and report whether the node was a different valid one. |
| HomeRecovery.HomeClient.SwitchToNextNode | internal/home/client.go:889-910 | The candidate loop finds the first different valid node, the seed last. |
| HomeRecovery.HomeClient.MarkReconnectFailure | internal/home/client.go:854-872 | Counts to three before failing over; without discovery it never does; reports exactly whether the address changed. |
| HomeRecovery.HomeClient.MarkSubscriptionTimeout | internal/home/client.go:874-887 | Fails over at once, with discovery only, and reports exactly whether the address changed. |
| HomeRecovery.HomeClient.RefreshClusterNodes | internal/home/client.go:783-787 | The received nodes, already normalised, replace the old ones and the best becomes the target; reports exactly whether the address changed. |
| HomeRecovery.HomeClient.MarkMembershipTakeoverEligible | internal/home/client.go:1776-1783 | Sets the takeover bit in both switching states. |
| HomeRecovery.HomeClient.SuppressTakeover | internal/home/client.go:363-370 | Clears the takeover bit in both switching states. |
| HomeRecovery.HomeClient.PingThroughNewPool | internal/home/client.go:1785-1808 | A new command pool at the current address, and whether the ping through it is answered; the recovery state stays. |
| HomeRecovery.HomeClient.RebuildCommandPoolAndProbe | internal/home/client.go:1785-1808 | With nothing between ping and store: a new command pool at the current address, and only an answered ping stabilises the state. |
| HomeRecovery.HomeClient.EnsureClients | internal/home/client.go:475-510 | Connects the missing pools to the current address exactly when the client is enabled, not fenced and addressable. |
| HomeRecovery.HomeClient.Close | internal/home/client.go:291-311 | Fences the client and drops every pool. |
| HomeRecovery.HomeClient.AbortAmbiguousDispatch | internal/home/client.go:325-355 | Fences the client, drops every pool and marks the dispatch ambiguous. |
| HomeRecovery.HomeClient.EnableLegacyMembership | internal/home/client.go:261-269 | Downgrades the membership and clears the takeover bit. |
| HomeRecovery.HomeClient.ConcurrencyReleaseClient | internal/home/client.go:1458-1493 | Hands out the cached or a new client for the current address exactly when stable, enabled, not fenced and addressable, and gives the reason otherwise. |
| HomeRecovery.HomeClient.SubscriptionParameters | internal/home/client.go:1751-1774 | The takeover argument is sent exactly with a revision, a modern membership and the takeover bit. |
| HomeRecovery.HomeClient.NextOf | internal/home/client.go:221-238 | A new lifetime keeps address, nodes, failures, membership and recovery state, and starts without pools and unfenced. |
| HomeRecovery.HomeClient.CloseBootstrapPools | internal/home/client.go:313-322 | Drops the bootstrap pools, keeps the release client and the lifetime. |
| HomeProbe.HalvesMakeProbe | internal/home/client.go:1785-1792 | A ping followed at once by its store is the atomic probe of the recovery model. |
| HomeProbe.RightIffTimely | internal/home/client.go:1785-1792 | With the ping and the store as separate steps and anything in between: the switching bit says throughout the run that the address changed without a probe since, if and only if no address change falls between an answered ping and its store. |
| HomeProbe.PoolsFollowAddress | internal/home/client.go:1785-1792 | Every pool belongs to the current address in all such runs, late stores included. |
| HomeProbe.SplitSwitchSafety | internal/home/client.go:1458-1493 | Without a late store, a release client is handed out only when the current address has answered a probe. |
| HomeProbe.LateStoreGivesUnproven | internal/home/client.go:1785-1792 | Ping, address change, store: for every client that can connect and every different node, a release client is then handed out for an address that no ping has reached. |
| Wav.RoundTrip | examples/realtime-openai-go/wav.go:17-142 | Reading the written form of PCM data returns it if and only if the data is not empty, at most 15 MiB and made of whole samples. |
| Wav.UnknownChunksIgnored | examples/realtime-openai-go/wav.go:40-67 | Two files within the size limit whose known chunks agree read the same: unknown chunks of any size, odd ones padded, may stand anywhere, and the sizes in the header do not matter. |
| Wav.DecodeBounds | examples/realtime-openai-go/wav.go:59-89 | Whatever the file, accepted data is not empty, within the limit and made of whole samples. |
| Wav.AcceptedExactly | examples/realtime-openai-go/wav.go:25-89 | A file of any chunks reads as the given data if and only if every format chunk is whole, the last of them says 24 kHz mono PCM of 16 bits, and the data is that of all data chunks in order, not empty, within the limit and of whole samples. |
| Wav.LayoutWalk | examples/realtime-openai-go/wav.go:40-67 | The walk over a laid-out file visits its chunks one after the other. |
| Wav.ReadPcm | examples/realtime-openai-go/wav.go:25-89 | The offset loop terminates and returns what the chunk walk says, every error included, also when the last chunk lacks its padding. |
| Wav.WritePcm | examples/realtime-openai-go/wav.go:92-141 | The writer prints the header and the data, and refuses empty, over-long and odd data. |
| Wav.WrittenBytes | examples/realtime-openai-go/wav.go:103-136 | The 44 bytes in front of the data, one by one: magic texts, both sizes, format, rate, byte rate, alignment and sample width. |
| YamlAgreement.MergeAgrees | internal/config/config_yaml.go:221-284 | After a merge, whichever old elements the heuristics reuse: every source scalar is in its place with equal tag and value, sequences have the source's length and agree elementwise (an empty one may leave an explicit null), and a source subtree is missing only if all its leaves are zero or listed defaults. |
| YamlAgreement.ExistingKeysStay | internal/config/config_yaml.go:179-216 | Existing keys stay where they are, and a value whose key the source does not mention is not touched. |
| YamlAgreement.PrunedAgrees | internal/config/config_yaml.go:359-393 | A pruned new subtree still agrees with its source. |
| YamlAgreement.SkippedIsOmittable | internal/config/config_yaml.go:207-213 | A new key is left out only when everything below it is a zero or a default. |
| YamlAgreement.WithoutMissingAgrees | internal/config/config_yaml.go:721-750 | Removing the keys the source does not have keeps the agreement. |
| YamlDeletions.MergeLeavesNoStaleKeys | internal/config/config_yaml.go:258-262 | After a merge no list element, at any depth, has a key that its source element lacks: what has been cleared in a list element leaves the file. |
| YamlDeletions.WithoutMissingLeaves | internal/config/config_yaml.go:721-750 | Of two mappings exactly the pairs stay whose key is nil or has a trimmed text that is not blank and stands among the trimmed source keys, in their order. |
| YamlTree.Matches | internal/config/config_yaml.go:486-549 | Each old sequence element is used for at most one new one, and only existing, unused ones are used. |
| YamlMatching.MatchIsFirst | internal/config/config_yaml.go:508-549 | A new element takes the first free old element of its identity; without one, the first free one of its structure; without that, none. |
| YamlMatching.UnchangedIsMatched | internal/config/config_yaml.go:508-549 | An element that has not changed always finds an old one while its own is free. |
| YamlMatching.PreferredIdentity | internal/config/config_yaml.go:551-573 | The identity of a mapping is its first preferred key that has a value, with that value. |
| YamlMatching.ValueUnder | internal/config/config_yaml.go:575-591 | The value of a key is that of the first scalar pair whose trimmed key is this one up to case. |
| YamlMatching.PlainZeros | internal/config/config_yaml.go:398-438 | False, zero, the empty string and null are zero; true, other numbers and other strings are not. |
| YamlMatching.PlainDefaults | internal/config/config_yaml.go:334-355 | The listed defaults at their paths, and not elsewhere. |
| YamlWeights.WeightAfterMerge | internal/config/config_yaml.go:314-331 | The comment at line 315 promises that an explicit zero weight is preserved. Exactly when it is, for a weight at any depth of any source, below keys and list elements, merged into any destination: where its place leaves the destination at a new key, the value of that key must not vanish and no pair on the rest of the way may be a known default; a new list element is copied whole. Otherwise nothing stands at its place. |
| YamlWeights.PrunedWeight | internal/config/config_yaml.go:359-393 | In the pruned copy of a new subtree a weight stands at its place if and only if no pair on the way is a known default. |
| YamlWeights.PrunedZeroIff | internal/config/config_yaml.go:398-438 | The pruned copy counts as zero exactly when everything in the source vanishes, weights included. |
| YamlWeights.ZeroWeightInNewMappingIsLost | internal/config/config_yaml.go:207-213 | A failing input: a new mapping whose only entry is a zero weight is dropped, while the same entry is kept in an existing mapping. |
| YamlWeights.ZeroWeightInNewElement | internal/config/config_yaml.go:207-213 | A zero weight alone in the first element of a list under a new key is lost if and only if every element of the list vanishes. |
| YamlWeights.ZeroWeightLostOrKept | internal/config/config_yaml.go:207-213 | Two such lists: a lone element loses its zero weight, a sibling that holds something keeps it. |
| YamlWeights.LostBelowPair | internal/config/config_yaml.go:359-393 | Whatever else a new key holds, a weight is lost when a pair on the way to it is a known default. |
| YamlWeights.ZeroWeightBelowVanishingPair | internal/config/config_yaml.go:359-393 | A concrete new key that holds something else, and still loses the zero weight of a nested mapping. |
| YamlGraph.DeepCopyNode | internal/config/config_yaml.go:441-464 | Of any finite node graph, cyclic or shared, exactly the nodes reachable from the start are copied, each once, into new nodes with the same fields and corresponding pointers. |
| YamlGraph.DeepCopySeen | internal/config/config_yaml.go:445-464 | The recursion terminates because every call with a new node enlarges the finite set of seen nodes; nothing that existed before changes; unfinished copies of outer calls are respected. |
| YamlNodes.DeepCopy | internal/config/config_yaml.go:441-464 | On a tree: a copy of new nodes that stands for the same tree. |
| YamlNodes.FindMapKeyIndex | internal/config/config_yaml.go:288-298 | The first pair with the key, or none. |
| YamlNodes.IsKnownDefaultValue | internal/config/config_yaml.go:314-355 | Decides the default test of the tree model. |
| YamlNodes.IsZeroValueNode | internal/config/config_yaml.go:398-438 | Decides whether everything below a node is zero. |
| YamlNodes.NodesStructurallyEqual | internal/config/config_yaml.go:593-631 | Decides structural equality. |
| YamlNodes.SequenceElementIdentity | internal/config/config_yaml.go:551-573 | Finds the identity of a mapping: the preferred keys in order, then the first scalar. |
| YamlMerge.PruneKnownDefaults | internal/config/config_yaml.go:359-393 | Prunes a node in place: the same nodes, standing for the pruned tree. |
| YamlMerge.CopyNodeShallow | internal/config/config_yaml.go:468-484 | The node keeps its identity and stands for the source tree, built of new nodes. |
| YamlMerge.MatchSequenceElement | internal/config/config_yaml.go:508-549 | The three searches find the match of the tree model. |
| YamlMerge.ReorderSequence | internal/config/config_yaml.go:486-506 | Each place gets the very old node that is matched to it, and a nil where nothing matches; each old node goes to at most one place. |
| YamlMerge.PruneMissingMapKeys | internal/config/config_yaml.go:721-750 | The in-place deletion loop leaves exactly the pairs whose key is nil or not blank and among the trimmed source keys, in their order and as the same objects, and touches no node below. |
| YamlMerge.MergeChild | internal/config/config_yaml.go:199-206 | Merging into one child changes nothing its siblings stand for: in-place merges do not disturb each other. |
| YamlMerge.MergeNodePreserve | internal/config/config_yaml.go:221-284 | Changes nodes of the destination only, and leaves it standing for the merged tree. The node objects of a mapping stay in place, and every old sequence node that is matched stands, as the same object, in the place of its match. |
| YamlMerge.MergeMappingPreserve | internal/config/config_yaml.go:182-216 | The pair loop does the same for mappings; existing key and value nodes stay the same objects in the same order. |
| YamlMerge.MergeElementsInPlace | internal/config/config_yaml.go:248-271 | The element loops merge, append and truncate to exactly the merged elements; every reused element stays the same object. |
| YamlMerge.MergeGenerated | internal/config/config_yaml.go:60-61 | The in-place merge of the generated configuration into the one on disk: afterwards they agree, no list element keeps a key that its generated element lacks, and the generated one is unchanged. |

## Left out

- HTTP white space and case: header values are trimmed of ASCII white space only, and case folding is an arbitrary function
  that maps equal names to one representative; the configured order is a pure function of method and target.
- Error texts, logging, nil receivers, closed writers, and failing buffered writes.
- Sockets, TLS, the Redis client, files, timers, goroutine scheduling and context cancellation beyond one flag per attempt.
- JSON normalisation, signature inspection, hashing and key building of the caches: items are opaque normalised byte strings,
  a session key is any string, and canonical JSON and content validity are arbitrary functions.
- Random names and generations never repeat, and revisions are unbounded numbers.
- Snapshots that were not loaded, Home values without a marker, a mode switch in the middle of a run, and the time to live of
  Home values (expiry there is one more arbitrary change of the value).
- Compare-and-swap on the Home store compares stored values, where the code compares their serialised text; serialised-size
  limits are not modelled.
- The Home mode of the Claude cache: only its in-process mode is modelled; the Antigravity and Codex caches are modelled in both.
- Kimi, xAI and signature caches, which are weaker copies of the modelled ones.
- Resp.Reader.ReadArray: the allocation for an announced count always succeeds, where the code panics on a huge one.
- Allocation limits of the other RESP readers: a length beyond 64 bits with its terminator is a failure of its own kind, any
  smaller one is allocated.
- The waiting for closed pools; a pool is its address.
- HomeRecovery.HomeClient.RefreshClusterNodes: starts after the node list has been received, filtered and ordered.
- HomeProbe.RightIffTimely: takes one probe at a time and the other methods as atomic; a new lifetime is another object, which a store of the old one does not reach.
- ReleaseFlusher.Flusher.Flush: the run loop with its wake-up and force channels, and the callers that wait for idleness, are not modelled, only the flushes they cause.
- YAML aliases in the merge (they are in the graph copy), comments and styles attached to nodes, and the removal of legacy
  sections before the merge. That kept nodes stay the same objects, which is what keeps their comments, is proved.
- YamlMerge.MergeMappingPreserve: skips a nil key of the source, on which the code would fail; a parsed source has none.
- YamlNodes.NodesStructurallyEqual: alias nodes are compared by value, because trees have no alias targets.
- Idempotence of the YAML merge, which may fail when omitted defaults change the identity of an element.
- The RESP command loop and its replies other than arrays and bulk strings.
- Routes, authentication, login flows, plugin synchronisation, and the validators and parsers of single settings, which would
  add easy members only.
