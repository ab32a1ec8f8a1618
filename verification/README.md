# NexusCore engines: a verified model

This project models four engines of the NexusCore platform in Dafny 4.11 and proves what
each is for. `dafny verify dfyconfig.toml` checks all of it.

- **CSR edge store** (`CsrModel`, `CsrLayout`, `CsrGraph`). A compressed-sparse-row index
  kept in one byte region (packed header, row pointers, column indices) and rebuilt on every
  batch by collect, sort, degree count, prefix sum and scatter. The abstract state is the
  log of accepted edges in arrival order. `CsrLayout.Represents` says which log the bytes
  hold; every method of the class is proved against it, down to the bytes it may not touch.
- **Document graph** (`GraphBlob`, `Levels`, `LevelQueue`, `BfsLevels`, `BfsQueue`). The
  packed blob and its generator round-trip both ways. `Levels` defines breadth-first levels
  without a queue and ties them to shortest paths; `BfsQueue.BfsPosts` is the loop over a
  first-in first-out queue, and returns exactly what the levels prescribe.
- **Latency histograms** (`Histogram`, `Probe`). Entry and exit probes as a state machine
  over every interleaving, per-CPU log2 counters, summation over CPUs, and the percentile
  scan, from raw samples to the reported figures.
- **Schema protocol** (`Schema`, `ControlPlane`). Version-gated descriptors, the frame
  decoder, and the control plane's descriptor filler and payload writer.

`LatencyWindow` is the query host's sample window. `Bytes`, `Sequences` and `Sorting` hold
codecs, sequence facts and counting that the engines share.

Machine integers are written out: counters wrap modulo 2^64, the store's header offsets are
computed modulo 2^32, documents are cut to 20-bit lengths. Values read from memory are
little endian, frame fields and payloads big endian. A library sort appears as
`Sorting.Sort`; `Sorting.SortedUnique` shows that nothing more can be observed of it.

## What turned out to hold only under a condition

- The store's size check does not make its layout safe: `init` computes the offsets in u32.
  Header, row pointers and columns share no byte exactly when there are no columns, or they
  start below 2^32, or their wrapped start and all of them fall between the header and the
  row pointers (`CsrLayout.LayoutSafeExactly`, for a header of any size within its 64-byte
  block). The watermark is right exactly when the whole size is below 2^32
  (`CsrLayout.WatermarkExactly`). `CsrLayout.LayoutWraps` has a capacity for each case;
  `CsrLayout.OverlapCorrupts` shows what the overlapping one does to the first row.
- After `init` the bytes hold the empty store, with its columns clear of the row pointers and
  of every header field in use, exactly when the columns are so placed and, for the largest
  node capacity, whose row count wraps to 0, the row pointers were clear beforehand
  (`CsrGraph.InitMeaning`). The header's last 16 bytes are padding that is never read.
- `from_blob` accepts graphs whose rows run past the columns. A search on one aborts exactly
  when it comes to such a slot before its result is full (`BfsQueue.BfsPosts`); without a
  limit in the way, exactly when some node nearer than the depth has such a row
  (`BfsLevels.OverrunsByRows`). `BfsLevels.AcceptedOverrun` is an accepted blob on which it
  aborts, `BfsLevels.UnscannedRow` a bad row that does no harm.
- A document survives the generator exactly when it is shorter than 2^20 bytes, and the
  arena is fully accounted for exactly when all are (`GraphBlob.GeneratedGraph`,
  `GraphBlob.GeneratedFragmentation`).
- The bucket midpoint is within a factor of sqrt 2 of a latency exactly when the latency is
  not 0 (`Histogram.MidpointAccuracy`).
- Reported totals are the sample count modulo 2^64, so percentiles are claimed below 2^64
  samples (`Histogram.ReportHistogram`).
- The final schema does not depend on the order or repetition of deliveries exactly when the
  delivered descriptors of the highest version agree, or none of them is newer than the
  schema (`Schema.ConvergesExactly`). Two conflicting descriptors end differently in their
  two orders, the first to arrive stays, until a newer one settles it
  (`Schema.ConflictResolved`; `Schema.ConflictExists` has such a pair).
- A well-placed spec round-trips exactly when it has at most 64 fields
  (`ControlPlane.PayloadRoundTrip`; `ControlPlane.CrowdedSpec` has more). Pushed with more
  than 64 fields, counted modulo 2^16, it makes the component abort on every matching frame
  until a newer version is accepted
  (`ControlPlane.OversizedSpecTraps`).

## Where code and documentation disagree

The model follows the code.

- `lesson2/nexuscore-graph/wit/edges.wit:13` allows a batch to be inserted in part; the code
  takes all of it or none.
- A unit test of the store (`lesson2/nexuscore-graph/src/csr_graph.rs:284`) checks rows for
  strict order; the code keeps duplicate edges, so rows are ordered by <=.
- `lesson5/nexuscore-day5/orchestrator/wit/world.wit:19` numbers buckets from below 1 ns;
  the probe puts 0 and 1 ns in bucket 0.
- `lesson4/nexuscore-day4/wasi-component/wit/nexuscore.wit:23` declares a version conflict
  result; the code never returns it.

## Model

| member | source | states |
|---|---|---|
| `CsrModel.ScatterLandsOnIndex` | lesson2/nexuscore-graph/src/csr_graph.rs:189-196 | over the sorted edge list, a source's row start plus the edges of it already placed is the current edge's own index |
| `CsrModel.ArraysAreCsr` | lesson2/nexuscore-graph/src/csr_graph.rs:148-199 | the rebuilt arrays index the log: row pointer i counts the edges with a smaller source, the last one is the edge count, each row is the <=-sorted multiset of its source's targets |
| `CsrModel.TargetsCount` | lesson2/nexuscore-graph/src/csr_graph.rs:133-143 | a row holds a target as many times as its edge was accepted |
| `CsrModel.CanonicalForm` | lesson2/nexuscore-graph/src/csr_graph.rs:148-199 | any two CSR indexes of logs with the same edges are equal arrays, whatever the order of arrival |
| `CsrModel.BatchAtomicity` | lesson2/nexuscore-graph/src/csr_graph.rs:108-125 | a batch fails just if it is non-empty and exceeds the free capacity or names an id outside the node capacity, each with its own error, capacity first; failure and empty batches change nothing |
| `CsrModel.RunRefinesAcceptedEdges` | lesson2/nexuscore-graph/src/csr_graph.rs:108-202 | after every run of batches the arrays index exactly the edges of the accepted ones, within capacity, and the generation counts the accepted non-empty batches |
| `CsrModel.BatchSplitting` | lesson2/nexuscore-graph/src/csr_graph.rs:108-202 | splitting or permuting a batch changes neither its outcome nor arrays and counts, only the generation, by one |
| `CsrModel.RunsConverge` | lesson2/nexuscore-graph/src/csr_graph.rs:108-202 | any two runs that took in the same multiset of edges end in the same arrays and counts |
| `CsrLayout.LayoutSafeExactly` | lesson2/nexuscore-graph/src/csr_graph.rs:36-72 | header, row pointers and columns share no byte, are aligned and inside the region if and only if there are no columns, or they start below 2^32, or they wrap to a place between header and row pointers with room for all of them |
| `CsrLayout.WatermarkExactly` | lesson2/nexuscore-graph/src/csr_graph.rs:56 | the watermark is the required size modulo 2^32, and where the arrays end if and only if that is below 2^32 |
| `CsrLayout.LayoutWraps` | lesson2/nexuscore-graph/src/csr_graph.rs:54-56 | three capacities that pass the size check: the only column overlaps the first row pointer, the only column falls behind the header, only the watermark wraps |
| `CsrLayout.OverlapCorrupts` | lesson2/nexuscore-graph/src/csr_graph.rs:194 | in the overlapping capacity, storing the first target overwrites where node 0's row starts |
| `CsrLayout.FieldWritten` | lesson2/nexuscore-graph/src/csr_graph.rs:16-28 | writing one header field reads back and leaves every other byte alone, so every field apart from it keeps its value |
| `CsrLayout.HeaderBytes` | lesson2/nexuscore-graph/src/csr_graph.rs:15-28 | the bytes of a store's header: which field stands where, the magic number, both offsets and the watermark |
| `CsrGraph.CountDegrees` | lesson2/nexuscore-graph/src/csr_graph.rs:167-170 | the row-pointer words hold every source's degree; no byte outside them changes |
| `CsrGraph.PrefixSums` | lesson2/nexuscore-graph/src/csr_graph.rs:172-179 | degrees become row starts in place and the saturating sum never saturates |
| `CsrGraph.Scatter` | lesson2/nexuscore-graph/src/csr_graph.rs:181-196 | the targets land in sorted order, slots are written once each in order, every cursor ends at the next row's start, the out-of-capacity error is unreachable |
| `CsrGraph.Collect` | lesson2/nexuscore-graph/src/csr_graph.rs:131-146 | reading all rows back gives exactly the sorted edges the index was built from; the out-of-range error is unreachable |
| `CsrGraph.MaxSource` | lesson2/nexuscore-graph/src/csr_graph.rs:154-159 | one more than the maximum is the smallest node count covering every source |
| `CsrGraph.InitMeaning` | lesson2/nexuscore-graph/src/csr_graph.rs:44-66 | the formatted bytes hold the empty store, columns clear of row pointers and of the header fields in use, if and only if the columns are so placed and the row pointers, not cleared for the largest node capacity, are clear |
| `CsrGraph.CsrGraph.Init` | lesson2/nexuscore-graph/src/csr_graph.rs:36-66 | fails exactly on a region that is too small, leaving it alone; otherwise the bytes hold the empty store if and only if the region is initializable, and nothing past the row pointers is written |
| `CsrGraph.CsrGraph.GetWatermark` | lesson2/nexuscore-graph/src/csr_graph.rs:242 | the watermark is the required size modulo 2^32, exact just below 2^32 |
| `CsrGraph.CsrGraph.AddEdgeBatch` | lesson2/nexuscore-graph/src/csr_graph.rs:108-202 | the bytes hold the log after the batch and the answer is the batch's; on failure no byte has changed; nothing past the watermark is ever written |
| `CsrGraph.CsrGraph.GetFollowing` | lesson2/nexuscore-graph/src/csr_graph.rs:204-217 | a row is sorted and is exactly the multiset of accepted targets; it fails just for ids outside the capacity |
| `CsrGraph.BinarySearch` | lesson2/nexuscore-graph/src/csr_graph.rs:219-224 | on a sorted row the search succeeds exactly for the row's members |
| `CsrGraph.CsrGraph.EdgeExists` | lesson2/nexuscore-graph/src/csr_graph.rs:219-224 | true exactly for the accepted edges |
| `CsrGraph.CsrGraph.GetFollowers` | lesson2/nexuscore-graph/src/csr_graph.rs:226-237 | the strictly increasing list of exactly the sources with an edge to the id, although only sources below the node count are scanned |
| `GraphBlob.ReadOfWritten` | lesson3/nexuscore-day3/src/nexuscore_graph/src/lib.rs:15-57 | reading a written blob gives back the graph |
| `GraphBlob.WriteOfRead` | lesson3/nexuscore-day3/src/nexuscore_graph/src/lib.rs:15-57 | every accepted blob re-serialises to itself byte for byte |
| `GraphBlob.AcceptedExactly` | lesson3/nexuscore-day3/src/nexuscore_graph/src/lib.rs:15-29 | the accepted blobs are exactly the written ones, and are told apart by length against the header alone |
| `GraphBlob.RejectedExactly` | lesson3/nexuscore-day3/src/nexuscore_graph/src/lib.rs:16-29 | each rejection, by the blob's length and its header's numbers |
| `GraphBlob.BlobLayout` | lesson3/nexuscore-day3/src/nexuscore_graph/src/lib.rs:19-49 | which bytes of an accepted blob hold the counts, every row pointer, column and document offset, and the arena |
| `GraphBlob.DocExactly` | lesson3/nexuscore-day3/src/nexuscore_graph/src/lib.rs:84-90 | for every graph and slot: there is a document if and only if its whole extent lies inside the arena, and it is that extent |
| `GraphBlob.CutInsideArena` | lesson3/nexuscore-day3/src/nexuscore_graph/src/lib.rs:27-29 | a blob cut short inside its arena is still accepted and yields exactly the documents that end by the cut, unchanged |
| `GraphBlob.PackAll` | lesson3/nexuscore-day3/scripts/gen_graph.py:33-40 | packing a list fails exactly if some value does not fit, and otherwise is its encoding |
| `GraphBlob.Gen` | lesson3/nexuscore-day3/scripts/gen_graph.py:15-41 | writes the blob of the described graph, unless some value overflows its field |
| `GraphBlob.GeneratedGraph` | lesson3/nexuscore-day3/scripts/gen_graph.py:15-31 | the generated graph is well formed, row i is adjacency list i, slot i holds document i cut to its length mod 2^20, whole exactly below 2^20 |
| `GraphBlob.ArenaFragmentationPct` | lesson3/nexuscore-day3/src/nexuscore_graph/src/lib.rs:116-127 | 100 times the uncovered part of the arena over its length, 0 exactly when document lengths cover it; the u64 sum does not wrap |
| `GraphBlob.UsedMore` | lesson3/nexuscore-day3/src/nexuscore_graph/src/lib.rs:121-124 | a slot adds the length in its low 20 bits to the used bytes |
| `GraphBlob.GeneratedFragmentation` | lesson3/nexuscore-day3/scripts/gen_graph.py:22-31 | a generated arena is fully covered exactly when no document was cut |
| `Levels.LevelIsDistance` | lesson3/nexuscore-day3/src/nexuscore_graph/src/lib.rs:70-95 | level k consists of exactly the nodes whose shortest path from the root has k edges |
| `Levels.ExpandsByDistance` | lesson3/nexuscore-day3/src/nexuscore_graph/src/lib.rs:72-74 | a search of depth d expands exactly the nodes with a path shorter than d, each once |
| `Levels.NearerFirst` | lesson3/nexuscore-day3/src/nexuscore_graph/src/lib.rs:70-95 | nodes are expanded in nondecreasing distance |
| `LevelQueue.ExpandEntry` | lesson3/nexuscore-day3/src/nexuscore_graph/src/lib.rs:70-94 | popping a new node above the depth bound keeps the queue invariant: the rest of level k, then the targets of the expanded nodes of level k |
| `LevelQueue.DropEntry` | lesson3/nexuscore-day3/src/nexuscore_graph/src/lib.rs:72-74 | popping a visited node, or one at the depth bound, keeps the same invariant |
| `LevelQueue.Finished` | lesson3/nexuscore-day3/src/nexuscore_graph/src/lib.rs:70-97 | when the queue is empty every node the levels prescribe has been expanded |
| `BfsLevels.SuccIsRow` | lesson3/nexuscore-day3/src/nexuscore_graph/src/lib.rs:80-84 | the arrows the search follows are the rows of the index |
| `BfsLevels.ScansExactly` | lesson3/nexuscore-day3/src/nexuscore_graph/src/lib.rs:80-90 | the scanned edges are those leaving nodes with a path shorter than the depth; the documents are those of the scanned edges |
| `BfsLevels.ReturnedExactly` | lesson3/nexuscore-day3/src/nexuscore_graph/src/lib.rs:80-90 | the documents of a search are exactly the whole in-arena extents of its scanned slots; an extent past the arena yields nothing |
| `BfsLevels.ReturnedCount` | lesson3/nexuscore-day3/src/nexuscore_graph/src/lib.rs:86-90 | there are as many documents as scanned slots whose extent fits |
| `BfsLevels.EachEdgeOnce` | lesson3/nexuscore-day3/src/nexuscore_graph/src/lib.rs:72-95 | on a well-formed graph no edge is scanned twice and at most one document per edge is returned |
| `BfsLevels.SlotsNearerFirst` | lesson3/nexuscore-day3/src/nexuscore_graph/src/lib.rs:70-95 | edges are scanned in nondecreasing distance of the nodes they leave |
| `BfsLevels.DocsNearerFirst` | lesson3/nexuscore-day3/src/nexuscore_graph/src/lib.rs:70-95 | documents are returned in nondecreasing distance of the nodes their edges leave |
| `BfsLevels.DeeperExtends` | lesson3/nexuscore-day3/src/nexuscore_graph/src/lib.rs:60-98 | the result for a smaller depth is a prefix of the result for a larger one |
| `BfsLevels.BoundedNeverOverruns` | lesson3/nexuscore-day3/src/nexuscore_graph/src/lib.rs:77-81 | no search comes to a slot past the columns when the rows are in bounds |
| `BfsLevels.OverrunsByRows` | lesson3/nexuscore-day3/src/nexuscore_graph/src/lib.rs:70-81 | a search its limit does not stop aborts if and only if some node with a path shorter than the depth has a non-empty row ending past the columns |
| `BfsLevels.AcceptedOverrun` | lesson3/nexuscore-day3/src/nexuscore_graph/src/lib.rs:15-57 | the reader accepts a blob on which a search does come to such a slot |
| `BfsQueue.StopsMeaning` | lesson3/nexuscore-day3/src/nexuscore_graph/src/lib.rs:80-93 | the slot a search stops at decides whether it aborts, and that it returns the first L documents of the level-by-level search |
| `BfsQueue.BfsPosts` | lesson3/nexuscore-day3/src/nexuscore_graph/src/lib.rs:60-98 | on every accepted blob: aborts exactly when the search comes to a slot past the columns before the result is full, and otherwise returns exactly the first L documents of the level-by-level search; the nodes ever queued are the root and the targets of the slots scanned in full, in order, so at most one more than there are edges on a well-formed graph; terminates on cyclic graphs |
| `BfsQueue.LimitTruncates` | lesson3/nexuscore-day3/src/nexuscore_graph/src/lib.rs:64-68 | limit 0 returns everything on a well-formed graph, limit L > 0 its first L documents |
| `Histogram.Log2Bucket` | lesson5/nexuscore-day5/bpf/src/nexuscore_probe.bpf.c:85-96 | the shift cascade computes the floor of log2 for every u64, below 64 |
| `Histogram.BucketBounds` | lesson5/nexuscore-day5/bpf/src/nexuscore_probe.bpf.c:85-96 | a latency lies between 2^b and 2^(b+1) for its bucket b, 0 only below |
| `Histogram.MidpointAccuracy` | lesson5/nexuscore-day5/bpf/main.go:225-226 | the bucket's geometric midpoint is within a factor sqrt 2 of the latency if and only if the latency is not 0 |
| `Histogram.MidpointMeaning` | lesson5/nexuscore-day5/bpf/main.go:225-226 | the midpoint of bucket b is the integer part of 2^b times sqrt 2 |
| `Histogram.PercpuHistogram.Update` | lesson5/nexuscore-day5/bpf/src/nexuscore_probe.bpf.c:98-104 | exactly one more sample is counted, in its CPU's counter of its bucket |
| `Histogram.PercpuHistogram.Combine` | lesson5/nexuscore-day5/bpf/main.go:171-191 | the combined map holds, per bucket, the samples of all CPUs modulo 2^64, zero buckets left out |
| `Histogram.Total` | lesson5/nexuscore-day5/bpf/main.go:211-213 | the total is the sum of the counts modulo 2^64 in whatever order the map is walked |
| `Histogram.ComputePercentiles` | lesson5/nexuscore-day5/bpf/main.go:209-231 | each percentile is the midpoint of the first slot whose cumulative count reaches its threshold |
| `Histogram.ThresholdsInNumbers` | lesson5/nexuscore-day5/bpf/main.go:218-224 | the three thresholds are a half, 99 hundredths and 999 thousandths of the total, reached when at least met |
| `Histogram.SelectsOrderStatistic` | lesson5/nexuscore-day5/bpf/main.go:222-229 | that slot is the bucket of the ceil(q n)-th smallest sample, for q = 1/2, 99/100, 999/1000 |
| `Histogram.ReportHistogram` | lesson5/nexuscore-day5/bpf/main.go:171-206 | from raw samples on any CPUs: nothing is reported exactly without samples, the total is their number modulo 2^64, and below 2^64 p50 is the midpoint of the bucket of a sample with at least half of all at most it and fewer than half below it; p99 and p999 likewise |
| `Probe.EventRoundTrip` | lesson5/nexuscore-day5/bpf/main.go:159-169 | parsing an event record gives back the event |
| `Probe.EventBytes` | lesson5/nexuscore-day5/bpf/main.go:159-169 | which bytes of a record hold which field |
| `Probe.Conservation` | lesson5/nexuscore-day5/bpf/src/nexuscore_probe.bpf.c:108-184 | over every trace, increments plus pending entries equal the opened intervals and never exceed the tracked entries; pending entries are of tracked pids and at most 1024 |
| `Probe.EventsAreReads` | lesson5/nexuscore-day5/bpf/src/nexuscore_probe.bpf.c:135-152 | the emitted latencies are a sub-multiset of the recorded read latencies |
| `Probe.EventsDescribeReads` | lesson5/nexuscore-day5/bpf/src/nexuscore_probe.bpf.c:142-152 | every event carries pid, stack, latency and clamped size of a read exit that recorded the same sample in that stack's histogram |
| `Probe.EventsExactly` | lesson5/nexuscore-day5/bpf/src/nexuscore_probe.bpf.c:122-154 | over every trace the events are, one each and in order, those of the read exits with a granted reservation, of a registered pid with an entry to consume |
| `Probe.StartsMeaning` | lesson5/nexuscore-day5/bpf/src/nexuscore_probe.bpf.c:115-133 | the start map holds for each pid exactly the time of its latest unconsumed entry, of either kind |
| `Probe.TargetsMeaning` | lesson5/nexuscore-day5/bpf/src/nexuscore_probe.bpf.c:112-113 | exactly the registered pids are tracked, each with the stack it was last registered for |
| `Probe.EntryCounts` | lesson5/nexuscore-day5/bpf/src/nexuscore_probe.bpf.c:109-118 | an entry of either kind counts exactly when the kernel takes it, the pid is registered, and it is pending already or fewer than 1024 pids are |
| `Probe.LatenciesArePaired` | lesson5/nexuscore-day5/bpf/src/nexuscore_probe.bpf.c:122-184 | with a monotone clock every latency in a histogram is an exit of that histogram's kind minus the latest unconsumed entry of its pid, without wrap |
| `Probe.Probe.OnEnter` | lesson5/nexuscore-day5/bpf/src/nexuscore_probe.bpf.c:108-118 | the entry hook takes exactly the entry step of the state machine |
| `Probe.Probe.OnReadExit` | lesson5/nexuscore-day5/bpf/src/nexuscore_probe.bpf.c:122-154 | the read exit hook takes exactly the read-exit step, over the real counters |
| `Probe.Probe.OnSendExit` | lesson5/nexuscore-day5/bpf/src/nexuscore_probe.bpf.c:170-184 | the send exit hook takes exactly the send-exit step, over the real counters |
| `Schema.DescriptorRoundTrip` | lesson4/nexuscore-day4/wasi-component/src/lib.rs:11-17 | decoding a packed descriptor gives it back, trailing bytes ignored |
| `Schema.DescriptorImage` | lesson4/nexuscore-day4/wasi-component/src/lib.rs:39-41 | decoding loses none of the 202 bytes |
| `Schema.DescriptorBytes` | lesson4/nexuscore-day4/wasi-component/src/lib.rs:11-17 | which of the 202 bytes hold the version, the count, every offset and every type |
| `Schema.DecodesExactly` | lesson4/nexuscore-day4/wasi-component/src/lib.rs:68-101 | a field decodes to a known value exactly when that value's wire form, of the field's type, lies at its offset inside the frame |
| `Schema.AsciiIsValid` | lesson4/nexuscore-day4/wasi-component/src/lib.rs:92-95 | ASCII is well-formed UTF-8 |
| `Schema.Utf8Exactly` | lesson4/nexuscore-day4/wasi-component/src/lib.rs:92-95 | the texts the decoder takes are exactly the UTF-8 encodings of sequences of Unicode scalar values |
| `Schema.TenantComponent.ApplySchemaUpdate` | lesson4/nexuscore-day4/wasi-component/src/lib.rs:33-52 | the component takes the update step; fewer than 202 bytes are invalid, lower or equal versions stale, all others accepted |
| `Schema.NewerInstalled` | lesson4/nexuscore-day4/wasi-component/src/lib.rs:33-52 | every newer descriptor is accepted and installed whatever bytes follow it |
| `Schema.TenantComponent.ProcessFrame` | lesson4/nexuscore-day4/wasi-component/src/lib.rs:54-109 | frames of another version count as errors; others are decoded field by field, or abort past 64 fields without touching any state |
| `Schema.MismatchExactly` | lesson4/nexuscore-day4/wasi-component/src/lib.rs:56-59 | in every run a frame counts as an error exactly when its version, lower or higher, is not the one in force |
| `Schema.DeliverMeaning` | lesson4/nexuscore-day4/wasi-component/src/lib.rs:43-51 | after any deliveries the schema is the starting one or a delivered descriptor, of the highest version |
| `Schema.ConvergesExactly` | lesson4/nexuscore-day4/wasi-component/src/lib.rs:43-51 | every reordering, and every repetition, of the deliveries ends in the same schema if and only if the newest delivered descriptors agree |
| `Schema.Convergence` | lesson4/nexuscore-day4/wasi-component/src/lib.rs:43-51 | in particular if versions determine descriptors, reordering and repeating deliveries does not change the final schema |
| `Schema.ConflictResolved` | lesson4/nexuscore-day4/wasi-component/src/lib.rs:43-51 | conflicting deliveries end differently in their two orders, and agree in every order once a newer descriptor is among them |
| `Schema.OrderMatters` | lesson4/nexuscore-day4/wasi-component/src/lib.rs:44-46 | of two newer descriptors with one version the first to arrive stays |
| `Schema.AcceptedIncrease` | lesson4/nexuscore-day4/wasi-component/src/lib.rs:44-48 | accepted versions strictly increase over every run |
| `Schema.DecodedByItsVersion` | lesson4/nexuscore-day4/wasi-component/src/lib.rs:56-59 | a version-v frame is decoded by the single accepted version-v descriptor, the initial one for version 0 |
| `Schema.NeverDecodedAgain` | lesson4/nexuscore-day4/wasi-component/src/lib.rs:56-59 | once a higher version is accepted, older frames are errors for ever |
| `Schema.StatsCount` | lesson4/nexuscore-day4/wasi-component/src/lib.rs:115-117 | the three counters count decoded frames, version mismatches and accepted updates modulo 2^64 |
| `ControlPlane.FillDescriptor` | lesson4/nexuscore-day4/control-plane/main.go:42-78 | the version, the count cut to 16 bits, and for each of the first 64 fields its offset and the type code of its name: 1 exactly for f64, 2 for bytes, 3 for str, else 0 |
| `ControlPlane.OversizedSpecTraps` | lesson4/nexuscore-day4/control-plane/main.go:70-75 | in every run, once a pushed spec is accepted and until a newer version is, its frames are decoded if and only if its 16-bit field count is at most 64, and otherwise abort without a state change; afterwards they are mismatches |
| `ControlPlane.BuildTestPayload` | lesson4/nexuscore-day4/control-plane/main.go:168-189 | the in-place writes give the payload of the fields in order, and panic exactly if a number starts past 240 or a text past 246 |
| `ControlPlane.WrittenByName` | lesson4/nexuscore-day4/control-plane/main.go:175-187 | the bytes each type name writes, and where; a text is cut at the end of the buffer, other names write nothing |
| `ControlPlane.PayloadHeader` | lesson4/nexuscore-day4/control-plane/main.go:169-173 | the first eight bytes are the tenant, the length and zeros whatever the fields |
| `ControlPlane.RegionAfter` | lesson4/nexuscore-day4/control-plane/main.go:175-187 | writes to disjoint extents do not disturb one another: written regions hold their image, the others zeros |
| `ControlPlane.PayloadRoundTrip` | lesson4/nexuscore-day4/control-plane/main.go:168-189 | decoding the payload past its header under the spec's descriptor gives back in order exactly the written values, empty for bytes fields, if and only if there are at most 64 fields |
| `ControlPlane.DecodedByName` | lesson4/nexuscore-day4/control-plane/main.go:168-189 | for a well-placed spec, what is decoded from the payload for each type name |
| `ControlPlane.PushThenDecode` | lesson4/nexuscore-day4/wasi-component/src/lib.rs:33-109 | a component receiving a newer pushed descriptor accepts it and decodes the spec's payload to the written values |
| `LatencyWindow.WindowIsSuffix` | lesson3/nexuscore-day3/src/host/src/main.rs:55-61 | the window is a suffix of everything recorded: all of it up to 12288 samples, between 9217 and 12288 ever after |
| `LatencyWindow.WindowLength` | lesson3/nexuscore-day3/src/host/src/main.rs:58-61 | the exact window length as a function of the number of samples |
| `LatencyWindow.RankIsP99` | lesson3/nexuscore-day3/src/host/src/main.rs:77-80 | the sample at the computed rank has more than 99 in 100 samples at or below it and at most 99 in 100 strictly below |
| `LatencyWindow.P99Once` | lesson3/nexuscore-day3/src/host/src/main.rs:77-80 | at most one value has more than 99 in 100 samples at most it and at most 99 in 100 below it |
| `LatencyWindow.Agg.RecordQuery` | lesson3/nexuscore-day3/src/host/src/main.rs:55-61 | the window stays that of the recorded history |
| `LatencyWindow.RankedOnce` | lesson3/nexuscore-day3/src/host/src/main.rs:77-80 | any two sorted permutations of the window have the same sample at a rank |
| `LatencyWindow.Agg.P99LatencyUs` | lesson3/nexuscore-day3/src/host/src/main.rs:73-81 | reports in microseconds the sample of rank min(floor(0.99 n), n - 1) in a sorted permutation of the window, 0 for an empty window |

## Left out

- Gen: adjacency lists and documents are inputs, one document per edge; the random choices and the file output are not modelled.
- ComputePercentiles: thresholds are exact rationals and midpoints exact integer parts; floating-point rounding is not modelled. Counts beyond 64 bits get the wrapped total and no percentile claim.
- P99LatencyUs: the rank is the exact integer part of 0.99 n; floating-point rounding is not modelled.
- ArenaFragmentationPct: over reals, without floating-point rounding.
- ProcessFrame: f64 fields are 64-bit patterns; after an abort the component may be called again, which a host may not allow.
- OnReadExit: map and ring-buffer operations are atomic steps with a given verdict; eviction, attach mechanics and true concurrency are not modelled.
- Combine: a failed bucket lookup, which ends the summation early, is not modelled.
- Init: wraps as a release build does; a debug build aborts instead. Sizes are computed for a 64-bit host.
- Lesson 1 host, guest and adapters, and the simpler probes of lessons 1 and 2: wrappers over libraries, or special cases of the probe modelled here.
- The XDP classifier of lesson 4: fixed header checks and kernel calls.
- The orchestrator and load generator of lesson 5: fixed formulas, wall-clock pacing and sockets.
- Dashboards, shell scripts, HTTP handlers, clocks, query-rate windows and slot pruning: user interface and I/O.
