# Verified models of Lightwave's client-side cores

Lightwave is a directory, certificate and key service written in C. This project models the
self-contained algorithms in its client and common libraries and proves what callers rely on.
`dafny verify dfyconfig.toml` checks the whole project.

- **The IPC stack.** `Bytes` (little-endian integers), `Wire` (the message format), `Marshal`
  (length computation, marshaller, unmarshaller over buffers), `NestedCodecs` (string arrays and
  containers inside blobs), `Transport` (length-prefixed frames over a stream whose calls may be
  short, fail or be interrupted) and `LocalClient` (the request that composes all of them).
- **Concurrent protocols.** `LogContext` and `Histogram` are state machines over the atomic steps
  of any number of threads; `Threads` has the counting lemmas both use.
- **Heap structures.** `Chain`, `LinkedList`, `Deque` and `CircularBuffer` are classes that refine
  a sequence; `MetricsExport` is the two-pass text export into a growing buffer, and
  `MetricsReader` a reader of that text for which the export is a round trip.
- **Directory algorithms.** `SubtreeDelete`, `Superlog`, `HighWatermark`, `RaftCluster` and
  `RaftState`; `Text` has the case-insensitive comparison and decimal printing they share.
- **Controllers and encoders.** `JoinRetry`, `SignedRequest` and `DomainDn`.

Operating-system calls, the LDAP server, hashing, RSA and the clock are parameters: a script of
outcomes for socket calls, a set of entries for the directory, functions for digest, sign and
verify, and functions from attempt number to result code for join, refresh and certificate calls.

## What the code does differently from what one would expect

The models follow the code. Where an expected property fails, a lemma gives the exact condition.

- `VmDirCheckMemory` subtracts into a signed 32-bit number, so it is not the test
  `size <= remaining` everywhere: `Marshal.CheckMemoryMeaning` says exactly where it is, and
  `Marshal.ComputedLengthSuffices` says that a message of its own computed length is accepted
  exactly below 2^31 + 4 bytes.
- A NULL string and an empty string have one encoding. A narrow or wide wire string with a NUL
  inside does not survive re-encoding, and a blob shorter than its length field cannot be
  re-encoded (`Wire.ReencodeArgs`, `Wire.WideNulIsLost`). A NULL container, or one with count zero, does not
  come back as it was (`NestedCodecs.ContainerRoundTrip`).
- The result of the four-byte length prefix call is compared as an unsigned number, so a failed
  call (-1) is taken for a whole one, and a short one passes when errno is zero. Writing then
  reports success without the frame on the wire (`Transport.FailedPrefixPasses`, exactly when:
  `Transport.SuccessWithoutFrame`). Reading does so only after a short call
  (`Transport.ShortPrefixPasses`, `Transport.ReceivedWithoutFrame`). `VmDirReadDataImpl` reports
  the size of the last chunk, not of the message.
- A log context may be freed under a call that was given it if the application releases its last
  reference before the call has taken its own (`LogContext.EarlyReleaseUnsafe`); callers who wait
  for that are safe (`LogContext.Safety`).
- A label with a comma is not quoted in a DN, so different domain names can get one DN
  (`DomainDn.NamesCollide`); the labels can be read back exactly when there is no comma
  (`DomainDn.ComponentsOfJoined`).
- Raft counters are printed unsigned and read with `atoll`, which is exact only below 2^63
  (`RaftState.ParsePrinted`).
- The overflow test of the circular buffer lets some wrapped products through
  (`CircularBuffer.WrappedCapacityAccepted`); the buffer is usable exactly when the product of an
  accepted capacity fits 32 bits. A refused creation still hands out an object.
- `VmDirDeleteDITSubtree` returns the result of its last delete only; since the base comes last,
  that result still says whether the whole subtree went (`SubtreeDelete.DeleteDitSubtree`).
- The superlog key joins columns with `||`, so text that contains bars can merge different tuples:
  keys tell all tuples apart exactly when at most one text column is selected
  (`Superlog.SeparatingIff`, `Superlog.BarsCollide`).
- The high watermark is cast to 32 bits, which is exact only below 2^32 (`HighWatermark.StoredExact`).
- A request whose body is nonempty but all blank is signed over no body hash and verified over the
  hash of the empty text, so it does not verify (`SignedRequest.SignedVerifies`).
- A request that fails to verify does not make `VmHttpClientVerifySignedRequest` return an error:
  its bad-authorization exits log the code without assigning it
  (vmcommon/include/defines.h:80-85). `SignedRequest.FailureWithoutError` is such a request and
  `SignedRequest.ErrorReported` says exactly when there is an error.

## Model

| member | source | states |
|---|---|---|
| `Wire.RoundTrip` | lwraft/common/marshalutil.c:111-458 | decoding the encoding of any supported argument list, whatever bytes follow, gives the same arguments up to NULL scalar = 0, empty string = NULL, NULL blob = the 4-byte blob holding 4, and consumes exactly the encoding |
| `Wire.DecodeArgsOfEncoding` | lwraft/common/marshalutil.c:344-452 | the argument part of the round trip from any carried blob size, by induction over the list |
| `Wire.EncodingIsUnambiguous` | lwraft/common/marshalutil.c:111-302 | two messages of the same kinds of arguments that agree on the wire carry the same arguments and leave the same tail |
| `Wire.ReencodeArgs` | lwraft/common/marshalutil.c:111-458 | for arbitrary bytes that parse, the marshaller accepts the parsed list and prints those bytes again if and only if every payload is whole: inside the message, no NUL in a narrow or wide string, no wrapped wide length, no blob shorter than its length field, no field of 2 GiB |
| `Wire.MessageReprints` | lwraft/common/marshalutil.c:111-458 | the same for a whole message with its header: a message that parses has one argument per expected kind and is printed again if and only if every payload was whole |
| `Wire.HeaderDecides` | lwraft/common/marshalutil.c:326-342 | for arbitrary bytes: fewer than 12 are read past the end, 12 that are not this API, version and argument count are refused, and nothing parses without them |
| `Wire.WrongTagRefused` | lwraft/common/marshalutil.c:344-357 | at any position the parser reaches, a tag on the wire other than the expected one makes it refuse the message |
| `Wire.ArgBytes` | lwraft/common/marshalutil.c:143-288 | the exact bytes on the wire for every kind of argument, NULL included, with the tag numbers of lwraft/include/type_spec.h:30-46 written out |
| `Wire.WideNulIsLost` | lwraft/common/marshalutil.c:384-399 | every wide wire string with a NUL inside comes back cut at the NUL, so its re-encoding is shorter |
| `Marshal.CheckMemoryMeaning` | lwraft/common/marshalutil.c:966-990 | for all 64-bit sizes and 32-bit remainders, exactly when the signed test agrees with `size <= remaining`; it always does below 2^31, and then returns the difference |
| `Marshal.ArgLength` | lwraft/common/marshalutil.c:46-99 | the length added for one argument is the length of its encoding |
| `Marshal.GetMarshalLength` | lwraft/common/marshalutil.c:23-109 | the computed size is the length of the encoding modulo 2^32; an unsupported argument kind anywhere is refused with size zero |
| `Marshal.Put` | lwraft/common/marshalutil.c:143-154 | one checked copy appends its bytes and keeps the rest of the scratch buffer blank, or reports not-enough-memory exactly when it does not fit |
| `Marshal.PutPayload` | lwraft/common/marshalutil.c:160-288 | the payload of each argument kind is written as specified, or not-enough-memory exactly when it does not fit |
| `Marshal.ArgsCodeMeaning` | lwraft/common/marshalutil.c:143-288 | checking argument by argument refuses exactly when the whole argument encoding does not fit |
| `Marshal.MarshalCodeMeaning` | lwraft/common/marshalutil.c:121-291 | for every buffer size, the marshaller succeeds exactly when the encoding fits and the size is below 2^31 + 4 |
| `Marshal.ComputedLengthSuffices` | lwraft/common/marshalutil.c:23-302 | marshalling into the computed length succeeds if and only if the message is shorter than 2^31 + 4 bytes |
| `Marshal.Marshal` | lwraft/common/marshalutil.c:111-302 | success puts the encoding at the front of the response, zeroes up to the size and leaves what lies beyond alone; failure leaves the response untouched |
| `Marshal.UnMarshal` | lwraft/common/marshalutil.c:305-458 | the cursor loop over any bytes reads what the recursive parser reads, keeps the argument kinds and counts the bytes modulo 2^32; a header with another API, version or count is refused with the arguments untouched, and success means the header matched; a last string longer than the message is read when a NUL comes first, and every other read past the end is reported |
| `Marshal.ReadArgs` | lwraft/common/marshalutil.c:342-452 | the loop behind the header: from any place in the message it reads what the recursive parser reads from there |
| `Marshal.ThreeWaySize` | lwraft/common/marshalutil.c:23-458 | computed length, bytes written and bytes read agree; that size succeeds and every smaller nonzero size gives not-enough-memory |
| `NestedCodecs.StringArraySize` | lwraft/common/marshalutil.c:460-515 | the size loop gives the length of the blob modulo 2^32 |
| `NestedCodecs.PutStrings` | lwraft/common/marshalutil.c:570-609 | the element loop appends exactly the encoded elements, or not-enough-memory exactly when they do not fit |
| `NestedCodecs.MarshalStringArray` | lwraft/common/marshalutil.c:517-621 | for every size, when it succeeds, what the blob then holds, and that failure leaves the blob untouched |
| `NestedCodecs.ReadAll` | lwraft/common/marshalutil.c:690-727 | the element loop reads what the recursive reader reads, including every error case and 64-bit wrap of the size |
| `NestedCodecs.UnMarshalStringArray` | lwraft/common/marshalutil.c:623-753 | the header checks and the loop agree with the recursive reader on all blobs below 2^32 bytes |
| `NestedCodecs.ArrayHeaderDecides` | lwraft/common/marshalutil.c:641-688 | for every blob below 2 GiB: shorter than its two fields or with another length in front it is refused, and otherwise read element by element |
| `NestedCodecs.FirstFailure` | lwraft/common/marshalutil.c:690-727 | behind any number of elements that can be read, one that cannot decides the outcome with its own error |
| `NestedCodecs.StringArrayRoundTrip` | lwraft/common/marshalutil.c:460-753 | a string array at its computed size is a self-describing blob that decodes to the array, empty strings as NULL |
| `NestedCodecs.StringArrayReprints` | lwraft/common/marshalutil.c:460-753 | for every blob that decodes, the marshaller accepts the decoded array at the same size and prints the blob again if and only if no length wrapped, no string holds a NUL and only zeroes follow the elements |
| `NestedCodecs.ContainerRoundTrip` | lwraft/common/marshalutil.c:808-964 | a container at its computed size is a self-describing blob; it decodes to the container if and only if the count is at least one and the data is not NULL |
| `NestedCodecs.ContainerRefused` | lwraft/common/marshalutil.c:901-964 | for every blob: it is refused if and only if it is shorter than its two fields, does not start with its own length or counts no bytes; the only other failure is a count beyond the end |
| `NestedCodecs.ContainerReprints` | lwraft/common/marshalutil.c:808-964 | every blob that decodes gives its count and data, and is printed again at the same size if and only if only zeroes follow the data |
| `NestedCodecs.BlobSurvives` | lwraft/common/marshalutil.c:221-426 | a self-describing blob comes back unchanged from any position of a message, and a blob-size argument right behind it reports its length |
| `NestedCodecs.StringArrayThroughMessage` | lwraft/common/marshalutil.c:111-753 | a string array sent as a blob argument among any others decodes to the array at the other end |
| `NestedCodecs.ContainerThroughMessage` | lwraft/common/marshalutil.c:221-964 | a container sent as a blob argument among any others arrives as it was if and only if the count is at least one and the data is not NULL |
| `Transport.Connection.WriteCall` | lwraft/common/networkutiluniximpl.c:294-297 | one call retried while interrupted: what it moved, what reached the wire, which errno it left |
| `Transport.Connection.ReadCall` | lwraft/common/networkutiluniximpl.c:241-243 | the same for reading: the bytes returned are the ones taken from the stream |
| `Transport.WriteData` | lwraft/common/networkutiluniximpl.c:281-336 | for every script of short, failed and interrupted calls and every errno, exactly which code is returned and which bytes reach the wire; without failures a whole prefix call means success |
| `Transport.SuccessWithoutFrame` | lwraft/common/networkutiluniximpl.c:294-327 | success is reported if and only if the prefix call passes and the body goes out; it is reported without the frame on the wire if and only if that call passed without being whole |
| `Transport.FailedPrefixPasses` | lwraft/common/networkutiluniximpl.c:299-304 | a failed prefix call: success for every request, which is on the wire without its length |
| `Transport.ShortWritePrefix` | lwraft/common/networkutiluniximpl.c:294-327 | a prefix call that moves fewer than 4 bytes: success with the cut prefix on the wire if and only if errno is zero, otherwise that errno; an interruption before it left EINTR |
| `Transport.WriteBody` | lwraft/common/networkutiluniximpl.c:308-327 | how far the chunk loop gets and with which error it stops |
| `Transport.ReadPrefix` | lwraft/common/networkutiluniximpl.c:215-232 | the bytes the prefix call took, exactly when it passes, and the size then announced |
| `Transport.ReadBody` | lwraft/common/networkutiluniximpl.c:236-263 | how the chunk loop ends for every script and every stream: the announced bytes and the size of the last chunk, or which error |
| `Transport.LastChunk` | lwraft/common/networkutiluniximpl.c:236-263 | when calls move all they can, chunks are 64 KiB and the reported size is that of the last one |
| `Transport.ReadData` | lwraft/common/networkutiluniximpl.c:201-279 | code, response and reported size for every script, errno and stream; success took the prefix bytes and as many body bytes as they announce, one whole frame if and only if the prefix call got its four bytes; without failures a complete frame is always read |
| `Transport.ReceivedWithoutFrame` | lwraft/common/networkutiluniximpl.c:220-264 | success without a whole frame is reported if and only if the prefix call was short with errno zero, its bytes announce something, and that much was read |
| `Transport.ShortPrefixPasses` | lwraft/common/networkutiluniximpl.c:220-264 | such a stream: one prefix byte, one body byte, success |
| `LocalClient.Send` | lwraft/client/vmdirlocalclient.c:473-494 | code and wire bytes for every supported message below 2^31 + 4 bytes are those of writing its encoding; a longer or unsupported one sends nothing; success is a frame if and only if the prefix call was whole |
| `LocalClient.Receive` | lwraft/client/vmdirlocalclient.c:508-516 | the result for every script and stream: the error of reading, or the outcome of decoding what was read, which is never success for another API, version or argument count; a complete frame is consumed |
| `LocalClient.Deliver` | lwraft/common/marshalutil.c:111-458 | end to end: marshalled, framed, written and read in any chunking with any interruptions, and unmarshalled, the arguments arrive and nothing is left on the stream |
| `LocalClient.LocalIpcRequest` | lwraft/client/vmdirlocalclient.c:456-533 | the request goes out framed, and a framed reply of the right kinds is returned in the output arguments while later bytes stay unread; a framed reply with another header is refused |
| `LogContext.InvStep` | config/cfgutils/logging.c:139-268 | every atomic step of any thread keeps the invariant that ties refcounts, the installed context, the mutex and the frees together |
| `LogContext.CountedStep` | config/cfgutils/logging.c:245-268 | every step keeps each refcount equal to the references that exist, with one free due exactly when there are none |
| `LogContext.CountedRelease` | config/cfgutils/logging.c:245-254 | the atomic decrement hands the free to exactly one thread |
| `LogContext.UsedIsLive` | config/cfgutils/logging.c:164-268 | a thread that touches a context, whether borrowed from a caller, acquired, or passed to the log callback, touches one that has not been freed |
| `LogContext.Safety` | config/cfgutils/logging.c:139-197 | in every state of every run of any number of threads, several of them installing the same context through one reference included: refcounts are exact, no context is freed twice or used after its free, and the critical sections exclude each other; callers only keep a reference until no call relies on it |
| `LogContext.SharedArgument` | config/cfgutils/logging.c:139-162 | a run in which two threads are inside the set call with one and the same context |
| `LogContext.LastReferenceReleased` | config/cfgutils/logging.c:245-268 | in any state, releasing a context with one reference frees it and leaves a call that borrowed it where it stands |
| `LogContext.AboutToAcquireReached` | config/cfgutils/logging.c:139-156 | a state with a call between loading the global slot and its own increment is reached |
| `LogContext.EarlyReleaseUnsafe` | config/cfgutils/logging.c:139-268 | from there, without the rule for callers, three steps of another thread lead to a use after free |
| `LogContext.NoLeakAtRest` | config/cfgutils/logging.c:245-268 | when all threads rest, a context has been freed if and only if no caller owns it and it is not installed |
| `LogContext.SetAlone` | config/cfgutils/logging.c:139-162 | a set call left alone installs its argument with one more reference and goes out with what was installed before |
| `LogContext.SetCall` | config/cfgutils/logging.c:139-162 | in every run, whatever other threads do: when a set call leaves the critical section its argument is installed, and what it goes on to release is what the slot held right before its store |
| `LogContext.LogAlone` | config/cfgutils/logging.c:164-182 | a log call left alone takes a reference to what is installed |
| `LogContext.LogCall` | config/cfgutils/logging.c:164-182 | in every run a log call leaves the critical section with what is installed at that moment |
| `LogContext.LogDecides` | config/cfgutils/logging.c:184-197 | the callback runs, on the context held, exactly when there is one and the level allows it |
| `Histogram.CellStep` | vmcommon/vmmetrics.c:484-502 | every atomic step keeps each bucket equal to the finished observations it takes plus the running updates already past it |
| `Histogram.ObservedIsCount` | vmcommon/vmmetrics.c:489-495 | what a bucket counts is the number of observations that are at most its key |
| `Histogram.BucketsExact` | vmcommon/vmmetrics.c:484-502 | in every state of every run each bucket is the number of finished observations up to its key plus the number of running updates past it with such a value, and the sum holds modulo 2^64 |
| `Histogram.QuiescentExact` | vmcommon/vmmetrics.c:484-502 | with no update running, every bucket is the number of observations up to its key, the count is the number of observations, and the sum is theirs |
| `Histogram.CellsNested` | vmcommon/vmmetrics.c:484-502 | a bucket exceeds a wider one by at most the updates caught between the two |
| `Histogram.CloneBound` | vmcommon/vmmetrics.c:562-585 | what a clone returns beside any updates: no bucket exceeds the returned count, nor a wider returned bucket, by more than the updates in flight when that one was read, which are fewer than the threads |
| `Histogram.CloneReadsCount` | vmcommon/vmmetrics.c:562-585 | at the step that reads the count, every bucket copied before is within the updates then in flight, and that is the number the bound of the result uses |
| `Histogram.CloneRecent` | vmcommon/vmmetrics.c:562-585 | every bucket that a clone returns holds at least the number of observations up to its key, and the count at least the number of observations, completed when it began |
| `LinkedList.List.constructor` | lwraft/common/linkedlist.c:17-44 | a new list is a well-formed empty chain |
| `LinkedList.List.InsertHead` | lwraft/common/linkedlist.c:86-134 | the chain stays well formed and its contents grow by the element in front; NULL is refused without change |
| `LinkedList.List.InsertTail` | lwraft/common/linkedlist.c:136-184 | the same at the other end |
| `LinkedList.List.Remove` | lwraft/common/linkedlist.c:186-222 | removing a member at any position frees it and leaves a well-formed chain of the others in their order |
| `LinkedList.List.GetSize` | lwraft/common/linkedlist.c:224-236 | the size field is the number of elements |
| `LinkedList.List.FreeAll` | lwraft/common/linkedlist.c:246-259 | freeing terminates with an empty list and every node freed |
| `Deque.Deque.Push` | lwraft/common/deque.c:82-124 | appends to the contents of a well-formed chain; NULL is refused |
| `Deque.Deque.Pop` | lwraft/common/deque.c:126-175 | takes the last element and frees its node, or reports an empty deque |
| `Deque.Deque.PopLeft` | lwraft/common/deque.c:177-226 | takes the first element and frees its node, or reports an empty deque |
| `Deque.Deque.Drain` | lwraft/common/deque.c:250-262 | draining terminates, yields all elements in order and frees every node |
| `CircularBuffer.AcceptedCapacity` | lwraft/common/circularbuffer.c:57-69 | an accepted capacity makes the +1 steps of the indices wrap-free, and the memory holds all entries if and only if the true product fits 32 bits |
| `CircularBuffer.WrappedCapacityAccepted` | lwraft/common/circularbuffer.c:151-152 | a capacity and element size whose product wraps and is accepted |
| `CircularBuffer.CircularBuffer.Create` | lwraft/common/circularbuffer.c:39-83 | the code returned, the object handed out in either case, and that it is usable if and only if accepted and unwrapped |
| `CircularBuffer.KeepsPush` | lwraft/common/circularbuffer.c:185-209 | writing the next slot of the ring keeps the latest entries in their slots, for any number of entries so far |
| `CircularBuffer.CircularBuffer.GetNextEntry` | lwraft/common/circularbuffer.c:185-209 | hands out the slot behind the newest entry, keeping head < capacity, size <= capacity and head = size while not full |
| `CircularBuffer.CircularBuffer.Push` | lwraft/common/circularbuffer.c:185-209 | the buffer refines "the last capacity entries": the entry joins, and the oldest leaves when the buffer was full |
| `CircularBuffer.CircularBuffer.Reset` | lwraft/common/circularbuffer.c:103-113 | the buffer is empty and usable again |
| `CircularBuffer.CircularBuffer.SetCapacity` | lwraft/common/circularbuffer.c:137-173 | of any buffer: a refused capacity changes nothing, an accepted one empties the buffer and leaves it usable if and only if the product did not wrap |
| `CircularBuffer.CircularBuffer.ElementAt` | lwraft/common/circularbuffer.c:175-183 | the bytes of a slot, within the memory |
| `CircularBuffer.CircularBuffer.GetStartIndex` | lwraft/common/circularbuffer.c:211-225 | the slot of the oldest retained entry |
| `CircularBuffer.CircularBuffer.Select` | lwraft/common/circularbuffer.c:227-270 | visits the oldest min(count, size) retained entries in insertion order and stops right after the first one the callback declines |
| `MetricsExport.OneHeaderPerName` | vmcommon/vmmetrics.c:650-658 | among all metrics of one case-insensitive name exactly one gets the header, and it is the first |
| `MetricsExport.Snprintf` | vmcommon/vmmetrics.c:1094-1105 | what a bounded print writes, NUL included, and the length it reports |
| `MetricsExport.GetSampleData` | vmcommon/vmmetrics.c:1081-1153 | measuring leaves the buffer alone and gives the length; writing prints exactly the metric's text |
| `MetricsExport.EmitBuckets` | vmcommon/vmmetrics.c:1176-1193 | the bucket loop prints all bucket lines in order, within the room measured |
| `MetricsExport.EmitTotals` | vmcommon/vmmetrics.c:1195-1221 | the +Inf, count and sum lines follow |
| `MetricsExport.GetHistogramData` | vmcommon/vmmetrics.c:1155-1224 | as for samples, for a histogram of any number of buckets |
| `MetricsExport.Append` | vmcommon/vmmetrics.c:660-681 | measure, grow and write append one metric's text inside the buffer, with less than one step unused |
| `MetricsExport.GetPrometheusData` | vmcommon/vmmetrics.c:607-779 | the export is the concatenation of the metrics' texts in list order, NUL-terminated, inside the allocated buffer |
| `MetricsReader.SampleReadsBack` | vmcommon/vmmetrics.c:1094-1112 | a sample line can be read back: name up to the brace or blank, labels between the braces, value behind the last blank |
| `MetricsReader.BucketReadsBack` | vmcommon/vmmetrics.c:1176-1193 | the same for a bucket line with the bound as its first label |
| `MetricsReader.BoundReadsBack` | vmcommon/vmmetrics.c:1176-1193 | bound and further labels can be read back from the labels of a bucket line |
| `MetricsReader.HeaderReadsBack` | vmcommon/vmmetrics.c:1092-1174 | the header lines give name, description and kind |
| `MetricsReader.HistogramReadsBack` | vmcommon/vmmetrics.c:1155-1224 | from the text of a histogram of any size: every key with its bucket value in order, the count under +Inf, count and sum |
| `MetricsReader.ExportReadsBack` | vmcommon/vmmetrics.c:607-779 | for any list of metrics with printable names: reading the whole export line by line gives exactly their names, descriptions, kinds, labels and values, in list order, with one header per name |
| `SubtreeDelete.DescendantIsLonger` | lwraft/client/ldaputil.c:2670-2671 | a proper descendant's DN is strictly longer than its ancestor's |
| `SubtreeDelete.TurnOf` | lwraft/client/ldaputil.c:2673-2693 | when a name's turn comes it still exists, and it is a deletable leaf exactly when nothing at or below it is locked |
| `SubtreeDelete.BaseComesFirst` | lwraft/client/ldaputil.c:2670-2671 | the base is the shortest name, so it is deleted last |
| `SubtreeDelete.DeleteNames` | lwraft/client/ldaputil.c:2673-2693 | after the loop exactly the names free of locked descendants are gone, they are counted, and the code tells whether the base was one |
| `SubtreeDelete.DeleteDitSubtree` | lwraft/client/ldaputil.c:2614-2693 | for every directory tree: nothing outside the subtree changes, and success is returned if and only if the whole subtree is gone, if and only if nothing in it is locked |
| `Superlog.KeySeparates` | lwraft/client/superlogutil.c:226-340 | for two entries without a vertical bar in their fields, keys agree if and only if the selected fields do |
| `Superlog.TupleIsFields` | lwraft/client/superlogutil.c:226-340 | for any two entries, the tuples of columns agree if and only if each selected field does, numbers included |
| `Superlog.BarsCollide` | lwraft/client/superlogutil.c:226-340 | for any entry, any two selected text columns and any texts, moving text that repeats what stands between the columns gives different columns and the same key |
| `Superlog.SeparatingIff` | lwraft/client/superlogutil.c:226-340 | equal keys always mean equal columns if and only if at most one of the four text columns is selected |
| `Superlog.GroupStep` | lwraft/client/superlogutil.c:187-224 | adding an entry keeps every row equal to the count and time of the entries with its key |
| `Superlog.Populate` | lwraft/client/superlogutil.c:187-224 | the map has a row for exactly the keys that occur, with their counts and times modulo 2^64 |
| `Superlog.TimesAddUp` | lwraft/client/superlogutil.c:209-209 | the times added for any entries are the sum of their end times minus the sum of their start times, in 64 bits, and exactly so when no entry ends before it starts |
| `Superlog.Convert` | lwraft/client/superlogutil.c:434-489 | the table lists each key once; counts sum to the number of entries and times to the total modulo 2^64 |
| `Superlog.Sort` | lwraft/client/superlogutil.c:541-562 | rows end in non-increasing count order and are the same rows |
| `Superlog.GetTable` | lwraft/client/superlogutil.c:72-117 | the table is a conserving group-by: counts sum to the entries, times to end times minus start times modulo 2^64 (exactly when no entry ends before it starts and the total fits), each row likewise for its own entries; order, averages, one row per key, no tuple of columns in two rows; with one text column or bar-free fields each row holds exactly the entries of its tuple and every tuple has its row |
| `HighWatermark.IsClassReplicable` | lwraft/client/repadmin.c:604-627 | false exactly when some class is "vmwDirServer" or "vmwReplicationAgreement", letter case aside |
| `HighWatermark.CoversMeaning` | lwraft/client/repadmin.c:530-556 | an originating USN is covered if and only if the vector has its id and the first element with that id has at least that USN |
| `HighWatermark.ScanMeaning` | lwraft/client/repadmin.c:511-558 | a change is a hit if and only if some uSNChanged value is covered and none before it is malformed; it is skipped if and only if none is either |
| `HighWatermark.CoveredMeaning` | lwraft/client/repadmin.c:503-558 | a change is covered if and only if its USN lies between 0 and the maximum, none of its classes is a local one, and its metadata hits |
| `HighWatermark.Examine` | lwraft/client/repadmin.c:507-560 | whether a change is covered by the vector, not covered, or has metadata that cannot be parsed, in the order the code meets them |
| `HighWatermark.WindowBounds` | lwraft/client/repadmin.c:447-460 | the windows of 100 partition the range from 0 to the maximum: every number lies in exactly one |
| `HighWatermark.SearchWindow` | lwraft/client/repadmin.c:462-560 | a window yields its first deciding change, or none and then there is none |
| `HighWatermark.GetHighWatermark` | lwraft/client/repadmin.c:447-571 | the search terminates; the first deciding change of the newest window that has one determines the result, 0 without one; when all metadata parses the result is 0 if no replicable change is covered, and else the stored value of a covered change in the newest window that holds any |
| `HighWatermark.WatermarkMeaning` | lwraft/client/repadmin.c:447-571 | the second reading of the result follows from the first |
| `HighWatermark.SomeChosen` | lwraft/client/repadmin.c:447-571 | whenever some change decides, one is chosen |
| `HighWatermark.StoredExact` | lwraft/client/repadmin.c:540-544 | the stored value is max(u - 10000, 0) if and only if that fits 32 bits |
| `RaftCluster.Cluster.AddNode` | lwraft/client/raftclient.c:660-703 | what an offered node changes in the list, the leader and the two counters, by role and by whether the name is known |
| `RaftCluster.Cluster.ListCluster` | lwraft/client/raftclient.c:179-211 | for all attribute values: the node list merges the offers, active followers are the follower nodes in it, the member count is the number of member values, the leader is the first one named |
| `RaftCluster.MergedDistinct` | lwraft/client/raftclient.c:660-703 | merged names are case-insensitively distinct |
| `RaftCluster.NamedIffOffered` | lwraft/client/raftclient.c:660-703 | exactly the offered names are in the list |
| `RaftCluster.MergedKeepsFirst` | lwraft/client/raftclient.c:660-703 | a node is in the list if and only if it is the first offer of its name, so it keeps that role |
| `RaftState.ParseLines` | lwraft/client/raftclient.c:713-803 | parsing succeeds if and only if no field or separator stands outside a node and no node opens inside another; the list is the reverse of the completed records, an unterminated one is dropped |
| `RaftState.RecordFields` | lwraft/client/raftclient.c:734-807 | each field of a parsed node is as the last line says that gives it |
| `RaftState.RecordDefaults` | lwraft/client/raftclient.c:734-807 | a field that no line gives is zero, and the role that of a candidate |
| `RaftState.ClassifyRole` | lwraft/client/raftclient.c:749-767 | a line "role: " and any text sets the role that the text names |
| `RaftState.ClassifyLastIndex` | lwraft/client/raftclient.c:768-776 | a line "lastIndex: " and any text sets the number the text starts with |
| `RaftState.ClassifyLastApplied` | lwraft/client/raftclient.c:777-785 | the same for "lastAppliedIndex: ", which is not taken for the previous one |
| `RaftState.ParseCluster` | lwraft/client/raftclient.c:713-828 | leader, follower and member totals match the list |
| `RaftState.LastLeaderMeaning` | lwraft/client/raftclient.c:809-816 | there is a leader if and only if some node has that role, and it is the last such node in list order |
| `RaftState.SummaryAppend` | lwraft/client/raftclient.c:713-803 | the index-based reading of a line sequence can be computed line by line |
| `RaftState.AtollOfDecimal` | lwraft/client/raftclient.c:765-790 | reading a printed number gives it back if and only if it is below 2^63 |
| `RaftState.AtollSigned` | lwraft/client/raftclient.c:765-790 | a sign and blanks before the number are understood, and a number out of range saturates at -2^63 |
| `RaftState.ParsePrinted` | lwraft/server/replication/thread.c:3066-3150 | the client parser accepts whatever the servers print, for any list of reports, ignoring the peer lines, and reads the nodes back if and only if their numbers are below 2^63 |
| `JoinRetry.SettledMeaning` | config/cfgutils/cfgutils.c:1109-1142 | a retry loop succeeds if and only if one of its first 21 calls, less those used up before, succeeds after only retriable failures |
| `JoinRetry.SettledFailure` | config/cfgutils/cfgutils.c:1109-1142 | a loop that fails returns the code of the first failure that must not be retried, or of the last call allowed |
| `JoinRetry.Loop` | config/cfgutils/cfgutils.c:1109-1142 | for every sequence of results: termination, at most 21 failures, which call the result is from |
| `JoinRetry.FinishSetup` | config/cfgutils/cfgutils.c:1144-1223 | success means the requested certificate was obtained and installed, with its own retry budget |
| `JoinRetry.SetupClientWithDc` | config/cfgutils/cfgutils.c:1109-1223 | at most 21 failing join and refresh calls together; success implies a join and, if asked for, a certificate obtained and installed |
| `JoinRetry.SetupClient` | config/cfgutils/cfgutils.c:1367-1480 | at most 21 failing calls in each loop, with the same meaning of success |
| `JoinRetry.SetupSucceedsWhen` | config/cfgutils/cfgutils.c:1109-1480 | exactly when each form succeeds, and that no refresh outcome changes either result |
| `SignedRequest.TrimIsUnique` | vmcommon/vmstring.c:114-141 | the trimmed text is the only cut between blank ends that starts and ends with a non-blank |
| `SignedRequest.TrimmedMeaning` | vmcommon/vmstring.c:114-141 | for every text: only blanks, tabs and line ends are cut off, and what remains neither starts nor ends with one |
| `SignedRequest.TrimSpace` | vmcommon/vmstring.c:114-141 | the in-place shift leaves exactly the trimmed text and a NUL |
| `SignedRequest.EncodeHex` | vmcommon/vmutil.c:66-96 | the encoding loop prints the hexadecimal form |
| `SignedRequest.DecodeHex` | vmcommon/vmutil.c:98-154 | refuses exactly empty and odd-length texts, and else decodes pair by pair |
| `SignedRequest.DecodedOfHex` | vmcommon/vmutil.c:66-154 | decoding inverts encoding on all byte strings |
| `SignedRequest.HexValueMeaning` | vmcommon/vmutil.c:66-154 | a character is a digit if and only if it stands among the sixteen of either case, with its place as value |
| `SignedRequest.TwoCharsMeaning` | vmcommon/vmutil.c:127-132 | two characters decode to what strtoul in base 16 makes of them, cut to a byte, for digits and all other characters |
| `SignedRequest.SignRequest` | vmcommon/vmhttpclient.c:694-791 | the signature is over verb, hash of the trimmed body if any is left, content type, time and URI; the error cases |
| `SignedRequest.MethodNames` | vmcommon/vmhttpclient.c:1008-1045 | each method is signed under its own standard name, and an unsupported one has none |
| `SignedRequest.VerifySignedRequest` | vmcommon/vmhttpclient.c:793-914 | code and flag for every header, body and signature: missing authorization data or a mismatch leave the code at success and only the flag unset |
| `SignedRequest.ErrorReported` | vmcommon/vmhttpclient.c:793-914 | the code is an error if and only if key and signature are present and either the signature has odd length or, with content type and date present, verb or URI is missing; an error leaves the flag unset |
| `SignedRequest.FailureWithoutError` | vmcommon/vmhttpclient.c:889-894 | a request whose signature does not match and that is reported without an error |
| `SignedRequest.SignedVerifies` | vmcommon/vmhttpclient.c:694-914 | with any hash and any matching key pair, verifying a signed JSON request returns success, and sets the flag if and only if the body is empty or has a non-blank character |
| `SignedRequest.TextDetermines` | vmcommon/vmhttpclient.c:1052-1085 | for parts without newlines, two texts to sign agree if and only if verb, body hash, content type, time and URI all do |
| `SignedRequest.SignatureBinds` | vmcommon/vmhttpclient.c:694-914 | with any hash and any matching key pair, a signature verifies for another request if and only if that has the same verb, content type, time, URI and body hash |
| `DomainDn.Measure` | config/cfgutils/certificate.c:449-472 | the measuring pass gives the length of the text that the writing pass produces |
| `DomainDn.WriteAll` | config/cfgutils/certificate.c:483-512 | the writing pass fills the measured buffer with the comma-join of "DC=" and each label, never past its end |
| `DomainDn.GetDomainDn` | config/cfgutils/certificate.c:433-531 | the DN of the nonempty labels, or an error exactly when there is no label |
| `DomainDn.LabelsWellFormed` | config/cfgutils/certificate.c:449-472 | every label found is nonempty and has no dot |
| `DomainDn.LabelsOfDotted` | config/cfgutils/certificate.c:449-472 | a dotted name has exactly the labels it is spelled from |
| `DomainDn.ComponentsOfJoined` | config/cfgutils/certificate.c:483-512 | the labels can be read back from the DN if and only if none contains a comma |
| `DomainDn.DnKeepsLabels` | config/cfgutils/certificate.c:433-531 | domain name to DN to labels is the identity if and only if no label contains a comma |
| `DomainDn.NamesCollide` | config/cfgutils/certificate.c:433-531 | a family of pairs of different domain names with one DN |
| `Text.SameTextMeaning` | lwraft/common/string.c:146-154 | the comparison without regard to case holds if and only if the texts agree letter by letter, case aside |
| `Bytes.LEWord` | lwraft/common/marshalutil.c:121-160 | a 32-bit number is stored as its four bytes, the low-order one first |

## Left out

- Allocation failure and the NULL checks of out-pointers: they only add error branches.
- LDAP, RPC, Kerberos, curl, OpenSSL and registry calls: parameters, as described above.
- The request wrappers of `lwraft/client/client.c` and the server side of the IPC socket: connect, call and clean-up around the modelled core.
- Raft election and log replication: the client entry points for them are stubs.
- `VmHttpClientGetQueryString`, `VmDirGetTargetDN`, `VmDirMarshalUINT32` and `_VmMetricsMakeLabel`: single-pass formatting that would only add easy members.
- Creating and deleting metrics in the metric list: the export takes the list as it is, with values that do not change between its two passes.
- Log output formats, keytab reading, error tables, sleeps between retries and Windows-only branches.
- Reading past the end of a message in `VmDirUnMarshal` and of a blob in `VmDirUnMarshalStringArray`: undefined in C; the models report it as an outcome of its own and do not say what follows.
- Integer layout: little-endian, `size_t` of 8 bytes, wide characters of 2, `BOOL` of 4 and `BOOLEAN` of 1 byte; fields of one message are shorter than 2 GiB and blobs start with their own length.
- NestedCodecs.ContainerRoundTrip: the container codec is a function on values, so update in place is not captured there.
- LogContext.Safety: refcounts are unbounded, so 32-bit wrap-around after 2^32 references is not modelled; callers keep their reference until every call they passed the context to has its own or is protected by the global slot.
- Histogram.BucketsExact: buckets and count are unbounded, so their 64-bit wrap-around is not modelled; the sum's is.
- LinkedList.List.GetSize: the size is unbounded, so wrap-around of the `size_t` field is not modelled.
- CircularBuffer.CircularBuffer.Push: the mutex is not modelled, and buffers whose product wrapped are shown unusable rather than followed further.
- MetricsExport.GetPrometheusData: lengths are unbounded, so wrap-around of the 32-bit lengths for texts of 2^32 characters is not modelled.
- MetricsReader.ExportReadsBack: for names without blank, brace, newline or leading `#` and labels and descriptions without newline; the export escapes nothing, so other texts cannot be told apart by line.
- SubtreeDelete.DeleteDitSubtree: the sorted name array is a parameter, any ascending-length order of the subtree's names; searching and sorting are library calls.
- Superlog.Sort: `qsort` is replaced by selection with an arbitrary choice among equal counts, so the order of ties is open, as in the code.
- RaftState.ParseLines: the active flags of peers are not modelled; `atoll` saturates, as the C library does it where the C standard leaves overflow undefined.
- SignedRequest.SignedVerifies: digest, sign and verify are functions; that a digest is never empty and a key pair matches are its hypotheses.
