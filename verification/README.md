# netidx: a verified model

This project models the parts of netidx where a mistake would be hard to see, and proves what
those parts promise:

- the transaction engine of the container and its cache of published values
  (`Store`, `TombstoneGc`, `ContainerDb`, `LockTree`, `PublishedCache`, `Container`);
- the Pack wire codec and the types its derive generates (`Varint`, `Pack`, `Evolution`,
  `WireFormat`),
  abstract types that travel through programs that do not know them (`AbstractType`), and the
  field extraction of the FromValue derive (`FromValue`, over `Sorting`);
- the algebra of paths (`Paths`, over the byte order of `Bytes`);
- four smaller kernels: slices of slices (`ValArray`), the batching stream (`Batched`), the
  primary election of a cluster (`Cluster`) and the disjointness of glob sets (`Glob`,
  `GlobMatch`).

Code that updates things in place is modelled by classes and methods with loops, each proved
against a function of the old state: the database and its update lists, the container's indexes
and its publisher, encode and decode buffers, the type registry, the batching adapter, a
cluster member. Concurrent behaviour is modelled as step systems whose runs are arbitrary
interleavings.

`dafny verify dfyconfig.toml` checks everything.

## Reading guide

**Container.** `Store.ParallelCommitSerializable` says that any interleaving that keeps each
path's own order leaves the data tree of the submission order and the same updates for each
path; the method `ContainerDb.Db.CommitSimple` does the grouping and inherits it. Lock
operations do not have this property: `LockTree.ScheduleIndependentIffUnnested` proves that a
transaction's locks are independent of the schedule exactly when no lock operation's path lies
strictly below another's, and `LockTree.MirrorsAlwaysIff` says exactly which transactions leave the
container's mirror of the lock tree equal to it. `TombstoneGc.GcInvisible` lets the collector's compare-and-swap
happen between any two steps of an operation, also in the middle of a subtree scan, and still
gets the live values and the whole stream of updates of a run without tombstones.
`PublishedCache.CacheCoherent` is coherence of the cache over every interleaving; a write that
asks for no update breaks it (`SilentWriteStale`, and exactly when in `SilentWriteExact`), and a
request for a path whose own destroy event still waits breaks the indexes, exactly then
(`RequestAgrees`), and can leave subscribers stale from any such state (`EarlyRequestStale`).

**Codec.** Schemas and values are datatypes; `Pack.Encode` and `Pack.Decode` interpret them.
`Evolution.Translate` says, without looking at bytes, what a reader of one version should make
of a value of another, and `Evolution.Exact` proves that decoding does just that at any nesting:
the round trip, dropped fields, defaulted fields, unknown cases and the size check of vectors are
all instances. The code has two deviations from a plain round trip, both stated exactly: a
vector whose elements are large in memory but small on the wire is written and then refused by
the reader's size check (`Sized`, with inputs in `LargeElement`), and a field marked `default`
whose type can be decoded from no bytes at all never takes its default (`Fill`, with inputs in
`DefaultNotTaken`). Frames are self-synchronising for readers of any
unrelated type (`Pack.StreamResync`).

**Slices and globs.** `ValArray.SubsliceExact` covers every bound on every slice: the families
where a call goes wrong are empty inclusive ranges, an exclusive start in an empty array, an
inclusive end one past the last element, the empty tail of a slice with an inclusive end, bounds
of a slice with an exclusive start, and sums that wrap around. `GlobMatch` reads globs as
documented (`?`, `*`, `**`, `{a,b}`, `[ab]`, `[!ab]`, ranges and escapes, with one byte as the character,
and for either choice of whether `?` and `*` cross separators) and decides whether two globs have
a common match.

**Paths.** `Paths.ParentIffPartsPrefix` ties the byte test to the list of parts and isolates
the one family where they differ.

Modelling choices: a path or key is a byte string and compared byte by byte, as Rust compares
strings. The escaping library is modelled by its documented behaviour: a character is escaped
when an odd run of backslashes precedes it, splitting cuts at unescaped separators, and
unescaping drops a backslash before any character. sled is an ordered map whose scans yield the
keys that are present, in order; keys are absolute paths. A subtree removal reports its paths in
key order, as an order-keeping fold and reduce does. Buffers are contiguous. Disjoint bits are
combined by addition. Machine integers are modelled where they can overflow: varints, frame
lengths, zigzag and slice positions. Encoded values are at most `isize::MAX` bytes long, like
every Rust object. What the resolver, the publisher, the inner stream and the clock would answer
are parameters.

## Model

| member | source | states |
|---|---|---|
| `Paths.RfindSep` | netidx-core/src/path.rs:565-598 | the loop that cuts at escaped separators finds the last unescaped separator of the whole text |
| `Paths.SplitGlue` | netidx-core/src/path.rs:437-448 | splitting commutes with joining at a separator no escape swallows |
| `Paths.CutIsSep` | netidx-core/src/path.rs:437-448 | every cut of a split is made at an unescaped separator |
| `Paths.ParentIffPartsPrefix` | netidx-core/src/path.rs:287-297 | the byte test equals "parts are a prefix" for every absolute path without a dangling escape, and fails to exactly when the parent dangles and the other path continues it |
| `Paths.DanglingParentCounterexample` | netidx-core/src/path.rs:287-297 | `/a\` is a byte-wise parent of `/a\/b` without being one by parts |
| `Paths.ParentOrder` | netidx-core/src/path.rs:287-297 | ancestry is reflexive, antisymmetric and transitive, the root is below all, and the ancestors of a path form a chain |
| `Paths.DirnameStep` | netidx-core/src/path.rs:514-517 | every proper ancestor of a path is an ancestor of its dirname |
| `Paths.BasenameIs` | netidx-core/src/path.rs:545-563 | the basename is the last piece of any text but the empty one and the root |
| `Paths.DirnameIs` | netidx-core/src/path.rs:514-517 | the dirname is the text of the pieces before it, if there is any |
| `Paths.Lcp` | netidx-core/src/path.rs:339-358 | terminates on all texts and returns the greatest common ancestor of clean absolute paths |
| `Paths.CheckCanonical` | netidx-core/src/path.rs:24-29 | true exactly when no part is empty |
| `Paths.AppendParts` | netidx-core/src/path.rs:37-45 | the push loop joins exactly the nonempty parts |
| `Paths.Canonize` | netidx-core/src/path.rs:31-48 | the loop computes the canonical text |
| `Paths.From` | netidx-core/src/path.rs:101-149 | keeping canonical text and canonizing the rest is always the canonical text |
| `Paths.CanonicalParts` | netidx-core/src/path.rs:31-48 | canonizing keeps exactly the nonempty parts in order, for every text but the empty one |
| `Paths.CanonicalIdempotent` | netidx-core/src/path.rs:31-48 | canonizing twice is canonizing once, and the result is canonical |
| `Paths.CanonicalFixed` | netidx-core/src/path.rs:24-48 | canonical text is left as it is |
| `Paths.AppendDirnameBasename` | netidx-core/src/path.rs:400-411 | appending the basename to the dirname, or to the root, restores every canonical absolute path but the root |
| `Paths.AppendKeepsParts` | netidx-core/src/path.rs:400-411 | appending any nonempty text to an absolute path without a dangling escape adds the nonempty parts of the text to those of the path |
| `Paths.UnescapeEscape` | netidx-core/src/path.rs:371-386 | unescaping undoes escaping |
| `Paths.UnescapePlain` | netidx-core/src/path.rs:384-386 | a text without escapes is left as it is |
| `Paths.EscapeLength` | netidx-core/src/path.rs:371-373 | escaping adds exactly one byte for each separator and escape, so exactly the components without them are printed as they are |
| `Paths.EscapeShortest` | netidx-core/src/path.rs:371-373 | no escaped spelling of a component is shorter |
| `Paths.EscapeSafe` | netidx-core/src/path.rs:371-373 | an escaped component has no separator and no dangling escape |
| `Paths.FromIter` | netidx-core/src/path.rs:151-169 | pushing each component with a separator and popping the last prints the components |
| `Paths.PrintParse` | netidx-core/src/path.rs:151-169 | parts of the printed path unescape to the components exactly unless the list is one empty component |
| `LockTree.IsLocked` | netidx-container/src/db.rs:934-952 | the reverse key scan returns the entry of the deepest stored ancestor, false if there is none |
| `LockTree.StatusAtDeepest` | netidx-container/src/db.rs:934-952 | the state a path has is the entry of its deepest stored ancestor |
| `LockTree.ApplyEffect` | netidx-container/src/db.rs:954-972 | locking or unlocking a path gives its state to exactly the paths below it whose deepest stored ancestor is at or above it, also when the entry is dropped as inherited, and leaves all others |
| `LockTree.ApplyInherited` | netidx-container/src/db.rs:954-972 | the path itself ends in the requested state and inherits what it did before |
| `LockTree.UnnestedSuffices` | netidx-container/src/db.rs:1145-1187 | lock operations none of which lies below another leave the same tree in every interleaving that keeps each path's order |
| `LockTree.NestedDiffers` | netidx-container/src/db.rs:1145-1187 | for any nested pair of lock operations there are a reachable tree and two interleavings that end differently |
| `LockTree.ScheduleIndependentIffUnnested` | netidx-container/src/db.rs:1145-1187 | over all reachable trees lock operations are independent of the schedule exactly when none lies strictly below another |
| `LockTree.SplitUnnested` | netidx-container/src/db.rs:954-972 | with the scan and the edit of each operation as steps of their own, interleaved at will between paths, unnested lock operations still leave the tree of the submission order |
| `LockTree.SplitIndependentIffUnnested` | netidx-container/src/db.rs:1145-1187 | over all reachable trees and all interleavings of scans and edits, lock operations leave the tree of the submission order exactly when none lies strictly below another |
| `LockTree.MirrorOneKind` | netidx-container/src/lib.rs:575-590 | with lists in running order, applying every lock and then every unlock of a transaction that only locks or only unlocks is what the database did |
| `LockTree.MirrorExact` | netidx-container/src/lib.rs:575-590 | with lists in running order and no operation below another, the mirror ends as the database exactly when every path that is unlocked is unlocked last |
| `LockTree.MirrorsAlwaysIff` | netidx-container/src/db.rs:1145-1187 | after a parallel commit the mirror is the database's tree, for every interleaving of scans and edits and every order in which the lists are merged, exactly when no operation lies below another and every unlocked path is unlocked last |
| `LockTree.MirrorsOneKindIff` | netidx-container/src/db.rs:1145-1187 | so a transaction that only locks, or only unlocks, is always mirrored exactly when it is unnested |
| `LockTree.NestedLocksMirror` | netidx-container/src/db.rs:1151-1186 | for any path below another: locked lower first and listed upper first, the database keeps both entries and the mirror only the upper one |
| `Store.CellAtPath` | netidx-container/src/db.rs:378-417 | what a path holds after a run depends only on its own operations |
| `Store.EventsAtPath` | netidx-container/src/db.rs:378-417 | the updates emitted for a path depend only on what it held and on its own operations |
| `Store.ParallelCommitSerializable` | netidx-container/src/db.rs:1145-1187 | every interleaving that keeps per-path order leaves the same data tree and the same updates per path as the submission order |
| `TombstoneGc.CollectKeepsGoal` | netidx-container/src/db.rs:1265-1283 | a collector's compare-and-swap never drops live data and changes nothing an operation under way will do |
| `TombstoneGc.CollectEffect` | netidx-container/src/db.rs:1272-1276 | a step of the collector removes its key exactly when that held a tombstone, and changes nothing else |
| `TombstoneGc.PassCollectsAll` | netidx-container/src/db.rs:1265-1283 | a pass over every key leaves no tombstone and exactly the live values |
| `TombstoneGc.ScanKeepsGoal` | netidx-container/src/db.rs:974-983 | a step of the subtree scan keeps what the removal will do in the end |
| `TombstoneGc.DrainKeepsGoal` | netidx-container/src/db.rs:984-1000 | a removal of the drained list keeps it as well |
| `TombstoneGc.BeginSubtree` | netidx-container/src/db.rs:974-1000 | a subtree removal removes exactly the live paths below its root and reports each once, in key order |
| `TombstoneGc.RunTracks` | netidx-container/src/db.rs:974-1000 | at every point of every run the machine is on its way to the reference run of the operations begun |
| `TombstoneGc.GcInvisible` | netidx-container/src/db.rs:1265-1283 | however collection interleaves, live values and the whole update stream are those of the operations on live values alone |
| `TombstoneGc.GcUnobservable` | netidx-container/src/db.rs:1265-1283 | two runs of the same operations agree wherever collection happened in either |
| `TombstoneGc.ParallelCommitWithGc` | netidx-container/src/db.rs:1145-1187 | a parallel commit with collection between its operations has the live values and the per-path updates of the submission order without collection |
| `ContainerDb.Db.Remove` | netidx-container/src/db.rs:378-391 | writes a tombstone and reports a deletion exactly when live data was overwritten |
| `ContainerDb.Db.SetData` | netidx-container/src/db.rs:393-417 | writes the value and reports it, if asked, as updated over live data and as inserted otherwise |
| `ContainerDb.Db.SetLocked` | netidx-container/src/db.rs:954-962 | applies the lock to the tree and records the path |
| `ContainerDb.Db.SetUnlocked` | netidx-container/src/db.rs:964-972 | applies the unlock to the tree and records the path |
| `ContainerDb.Db.ScanSubtree` | netidx-container/src/db.rs:977-983 | draining the collected keys reaches what the interleavable scan reaches |
| `ContainerDb.Db.RemoveSubtree` | netidx-container/src/db.rs:974-1000 | exactly the live paths below the root go, reported in key order |
| `ContainerDb.Db.CommitComplex` | netidx-container/src/db.rs:1075-1143 | at every path the last operation that touches it, a set, a removal or a subtree removal above it, decides what is live, and the updates are those of its operations in order; the locks and the two lists of locked and unlocked paths are those of the submission order |
| `ContainerDb.LiveLaw` | netidx-container/src/db.rs:1075-1143 | what is live at a path after a transaction, from its operations alone: the last set leaves its value, the last removal nothing |
| `ContainerDb.UpdatesLaw` | netidx-container/src/db.rs:1075-1143 | the updates of a path: a set that asks for one reports inserted or updated by what was live, a removal reports only what was live |
| `ContainerDb.LockLaw` | netidx-container/src/db.rs:954-972 | the last operation of a transaction gives its state to exactly the paths below it that no deeper entry covers, if it locks or unlocks, and else leaves the locks alone |
| `ContainerDb.LastLockLaw` | netidx-container/src/db.rs:954-972 | a path neither locked nor unlocked, nor any above it, is as it was; one locked or unlocked last is as asked |
| `ContainerDb.ListedLaw` | netidx-container/src/db.rs:954-972 | exactly the locked paths are listed as locked, and the unlocked ones as unlocked |
| `ContainerDb.Db.CollectTombstones` | netidx-container/src/db.rs:1265-1283 | the loop over all keys leaves exactly the live entries |
| `ContainerDb.Db.CommitGroup` | netidx-container/src/db.rs:1154-1165 | one path's operations run in their order |
| `ContainerDb.Db.RunGroups` | netidx-container/src/db.rs:1151-1184 | the groups in any order: each emits exactly its own path's updates of the submission order |
| `ContainerDb.Merge` | netidx-container/src/db.rs:1186-1186 | merging the groups' lists in any order keeps each path's updates |
| `ContainerDb.Db.CommitSimple` | netidx-container/src/db.rs:1145-1187 | running the groups in one order and merging their lists in another leaves at every path what its last operation wrote and its updates in order; the locks are those of the submission order when none is nested, and the lists are a schedule of the transaction that need not be the one that ran |
| `ContainerDb.GroupByPath` | netidx-container/src/db.rs:1147-1150 | every group holds its path's operations in submission order |
| `ContainerDb.ScheduleEffect` | netidx-container/src/db.rs:1145-1187 | any schedule of a simple transaction has the data and per-path updates of the submission order |
| `ContainerDb.ScheduleLocks` | netidx-container/src/db.rs:1145-1187 | the locks are those of the submission order, in any schedule and any interleaving of scans and edits, exactly when none is nested |
| `PublishedCache.RunSound` | netidx-container/src/lib.rs:620-665 | over every interleaving, the last waiting update of a path tells what the database holds, and a path with none waiting already shows it; writes without update to other paths do not matter |
| `PublishedCache.CacheCoherent` | netidx-container/src/lib.rs:332-358 | once the queue and the open transaction are drained a path still held, none of whose writes was silent, shows the database's live value, or Null |
| `PublishedCache.RequestServes` | netidx-container/src/lib.rs:332-358 | a request publishes exactly a path with live data or an absent one that may be published, showing that value or Null, and changes no other path |
| `PublishedCache.RequestAgrees` | netidx-container/src/lib.rs:332-358 | a request keeps the two indexes inverse and complete exactly when it does not publish a path whose own destroyed value is still indexed |
| `PublishedCache.RunAgrees` | netidx-container/src/lib.rs:360-369 | without such requests the indexes stay inverse and cover everything published, over every run |
| `PublishedCache.SubscribersCoherent` | netidx-container/src/lib.rs:620-665 | then what subscribers reach is coherent as well |
| `PublishedCache.SilentWriteStale` | netidx-container/src/db.rs:413-415 | a single write that asks for no update can leave a held path stale in a drained system, until a later write with update |
| `PublishedCache.SilentWriteExact` | netidx-container/src/db.rs:413-415 | from any drained sound state such a write keeps a held path coherent exactly when it repeats the value shown |
| `PublishedCache.EarlyRequestStale` | netidx-container/src/lib.rs:360-369 | from any state whose indexes are in order such a request can be followed, without a silent write, so that a drained system leaves subscribers with the old value whatever is written |
| `PublishedCache.StrayForever` | netidx-container/src/lib.rs:360-369 | that value outlasts every further run in which the publisher does not drop it |
| `PublishedCache.EarlyReachable` | netidx-container/src/lib.rs:360-369 | a path published and dropped is in that position until its destroy event is seen |
| `Container.Publisher.Publish` | netidx/src/publisher/mod.rs:914-925 | a path is published under a fresh id unless it is published already |
| `Container.ContainerInner.PublishData` | netidx-container/src/lib.rs:254-267 | indexes a new value both ways, or changes nothing when the publisher refuses |
| `Container.ContainerInner.CheckPath` | netidx-container/src/lib.rs:226-252 | true exactly when the greatest root up to the path is a prefix of it |
| `Container.RootedLaw` | netidx-container/src/lib.rs:226-252 | a root is under itself, and a path that continues no root is under none |
| `Container.ContainerInner.ProcessPublishRequest` | netidx-container/src/lib.rs:332-358 | under a root, a live value is published and shown, an absent path as Null unless it is locked or below the api path, in which case nothing changes: the system's publish step |
| `Container.LockedNotPublished` | netidx-container/src/lib.rs:343-353 | after a path is locked nothing absent below it that no deeper entry covers is published |
| `Container.ContainerInner.ProcessPublishEvent` | netidx-container/src/lib.rs:360-369 | forgets a destroyed value in both indexes: the system's destroy step |
| `Container.ContainerInner.RemoveDeletedPublished` | netidx-container/src/lib.rs:523-528 | drops a deleted path from both indexes and from the publisher |
| `Container.ContainerInner.ApplyData` | netidx-container/src/lib.rs:561-574 | the loop over an update's data is the system's steps one after another |
| `Container.ContainerInner.ApplyLocks` | netidx-container/src/lib.rs:575-590 | the mirror's scan-and-edit loop is the lock tree's operation on each path |
| `Container.ContainerInner.ApplyRoots` | netidx-container/src/lib.rs:548-560 | adds the new roots the publisher takes, then drops the removed ones |
| `Container.ContainerInner.ProcessUpdate` | netidx-container/src/lib.rs:544-603 | roots, data in order, then every lock, then every unlock of the transaction |
| `Container.MirrorFollows` | netidx-container/src/lib.rs:575-590 | after a sequential commit a mirror equal to the database's lock tree is so again if the transaction only locks or only unlocks, and, for unnested ones, exactly when unlocked paths are unlocked last |
| `Container.MirrorFollowsParallel` | netidx-container/src/lib.rs:575-590 | after a parallel commit it is so again whatever the two orders were, under the exact condition of `LockTree.MirrorsAlwaysIff` |
| `Container.UpdateIsSteps` | netidx-container/src/lib.rs:561-574 | handling a whole update at once is that many process steps of the system |
| `Varint.EncodeVarint` | netidx-core/src/pack.rs:476-486 | ten rounds are enough and write the LEB128 bytes of every u64 |
| `Varint.DecodeVarintLoop` | netidx-core/src/pack.rs:504-520 | the loop is the recursive reading of seven-bit groups, with its short-buffer and unterminated errors |
| `Varint.VarintRoundTrip` | netidx-core/src/pack.rs:504-520 | every u64 comes back from its bytes and nothing after them is touched |
| `WireFormat.VarintLayout` | netidx-core/src/pack.rs:476-486 | seven bits to the byte, least significant first, the top bit set on every byte but the last |
| `WireFormat.VarintMalformed` | netidx-core/src/pack.rs:504-520 | bytes that never end a varint are a short buffer left alone, or ten bytes consumed as invalid |
| `WireFormat.VarintOverlong` | netidx-core/src/pack.rs:504-520 | a varint need not be the shortest |
| `Varint.VarintLenExact` | netidx-core/src/pack.rs:472-474 | the multiply-and-shift formula is the number of bytes written, for every u64 |
| `Varint.LenWrappedFixpoint` | netidx-core/src/pack.rs:522-525 | len_wrapped_len is the least length that counts its own header |
| `Varint.HeaderFits` | netidx-core/src/pack.rs:537-555 | the header's length never exceeds a positive announced length, so the subtraction cannot underflow |
| `Varint.Zigzag` | netidx-core/src/pack.rs:488-502 | zigzag is a bijection of signed and unsigned words that keeps small numbers small |
| `Pack.BigEndianRoundTrip` | netidx-core/src/pack.rs:669-689 | a fixed width number comes back from its bytes |
| `WireFormat.BigEndianOrder` | netidx-core/src/pack.rs:669-689 | the bytes of fixed width numbers sort as the numbers do |
| `WireFormat.PlainExamples` | netidx-core/src/pack.rs:1389-1431 | booleans and options start with 0 or 1, numbers are big endian, texts start with their length, a pair is one after the other |
| `WireFormat.VectorExample` | netidx-core/src/pack.rs:941-951 | a vector starts with its count |
| `WireFormat.EmptyFrame` | netidx-core/src/pack.rs:543-545 | an empty wrapped struct is the single byte 1 |
| `WireFormat.StructExample` | netidx-derive/src/lib.rs:229-384 | a wrapped struct starts with the length of its frame, and skipped fields do not show |
| `WireFormat.CaseExample` | netidx-derive/src/lib.rs:229-384 | a wrapped case has its tag first |
| `WireFormat.UnknownByte` | netidx-core/src/pack.rs:1407-1414 | a boolean or option that starts with neither 0 nor 1 is an unknown tag |
| `WireFormat.UnknownCase` | netidx-derive/src/lib.rs:566-599 | an unknown case is an error unless the enum names a case for it |
| `WireFormat.CutOff` | netidx-core/src/pack.rs:456-470 | a number that is cut off stays, a text longer than the buffer is too big, one that is not UTF-8 is consumed and refused |
| `WireFormat.DefaultOnlyWhenShort` | netidx-derive/src/lib.rs:392-407 | a default stands in exactly when the buffer is too short for the field; any other error is the record's |
| `WireFormat.FirstErrorWins` | netidx-core/src/pack.rs:1407-1431 | the first error of a part is the error of the pair, option, vector or record |
| `WireFormat.ItemsFailAt` | netidx-core/src/pack.rs:953-961 | an element that fails after any number of good ones is the failure of the vector |
| `WireFormat.Utf8Exact` | netidx-core/src/pack.rs:456-470 | a text is accepted exactly when it is the UTF-8 of some characters |
| `Pack.ExactLength` | netidx-derive/src/lib.rs:91-384 | encode writes exactly encoded_len bytes for every schema and value |
| `Pack.DecodeSuffix` | netidx-derive/src/lib.rs:435-604 | on any bytes a decoder only ever moves forward, also when it fails |
| `Pack.DecodeTyped` | netidx-derive/src/lib.rs:435-604 | on any bytes a decoder that succeeds returns a value of its type |
| `Pack.FrameResync` | netidx-core/src/pack.rs:537-555 | when the whole announced frame is there the inner decoder sees its body only and decoding goes on right after it, whatever happened inside; the frame spans the announced length exactly when its header is the shortest |
| `WireFormat.TruncatedFrame` | netidx-core/src/pack.rs:537-555 | of a frame that is cut off the decoder sees what there is and leaves nothing |
| `WireFormat.ZeroFrame` | netidx-core/src/pack.rs:543-548 | a frame of length zero is a short buffer |
| `Pack.FrameIndependent` | netidx-core/src/pack.rs:527-555 | a reader of any other wrapped type consumes exactly the writer's frame |
| `Pack.StreamResync` | netidx-core/src/pack.rs:527-555 | readers that fail on some frames of a stream read all others as if alone and end where the stream ends |
| `Pack.LenWrappedDecode` | netidx-core/src/pack.rs:537-555 | limiting the buffer, decoding and dropping the rest of the frame is the decoder of a wrapped type |
| `Pack.DecodeEmpty` | netidx-derive/src/lib.rs:392-407 | from no bytes at all a type decodes exactly when it needs none, and otherwise reports a short buffer |
| `Pack.DecodeFieldsEmpty` | netidx-derive/src/lib.rs:392-407 | an exhausted record decodes exactly when every field may be missing, and then takes its defaults |
| `Pack.DefaultTakenIff` | netidx-derive/src/lib.rs:392-401 | on an exhausted buffer a field marked default takes its default exactly when its type needs a byte or decodes from nothing to that value |
| `Pack.DefaultNotTaken` | netidx-derive/src/lib.rs:392-401 | an input: a record without a frame whose flag is false by default, as a field whose default has it set, comes back with the flag false |
| `Pack.DecodeElements` | netidx-core/src/pack.rs:956-960 | the push loop decodes the announced number of elements in order, or stops at the first failure |
| `Pack.DecodeVec` | netidx-core/src/pack.rs:953-961 | count, size check and loop are the vector's decoder |
| `Pack.CheckSize` | netidx-core/src/pack.rs:919-932 | the check refuses the same counts although its product saturates |
| `Evolution.Exact` | netidx-derive/src/lib.rs:392-604 | decoding what any compatible writer wrote gives the translated value and leaves what followed, or fails for the reason the translation gives, at any nesting |
| `Evolution.FieldsExact` | netidx-derive/src/lib.rs:392-454 | the same for the fields of a record, with missing, extra, skipped and defaulted ones |
| `Evolution.CaseExact` | netidx-derive/src/lib.rs:482-599 | the same for a tagged case, with unknown tags and the other case |
| `Evolution.ItemsExact` | netidx-core/src/pack.rs:934-961 | the same for the elements of a vector |
| `Evolution.RoundTrip` | netidx-derive/src/lib.rs:91-604 | a value comes back and leaves what follows exactly when the size check passes and its skipped fields hold defaults; otherwise it is refused as too big, or comes back with the defaults |
| `Evolution.UnsizedRoundTrip` | netidx-core/src/pack.rs:919-961 | every encoding can be read back by a reader that spends no memory on elements |
| `Evolution.PrefixCode` | netidx-derive/src/lib.rs:91-604 | no encoding runs on into another: equal bytes mean equal remainders and values equal up to skipped fields |
| `Evolution.ResetNothing` | netidx-derive/src/lib.rs:386-390 | without skipped fields the value itself comes back |
| `Evolution.ResetBytes` | netidx-derive/src/lib.rs:91-384 | what is in skipped fields does not show in the bytes |
| `Evolution.SizedEncodable` | netidx-core/src/pack.rs:941-951 | whatever passes the reader's size check the writer did not refuse |
| `Evolution.LargeElement` | netidx-core/src/pack.rs:941-961 | a vector of one element that is a byte on the wire and holds a skipped field in memory is always written, and comes back exactly when the element takes at most 256 bytes in memory for each byte left |
| `Evolution.VectorExact` | netidx-core/src/pack.rs:917-961 | a vector of elements that come back by themselves comes back exactly when they take at most 2 GiB in memory and at most 256 bytes for each byte left, and is too big otherwise |
| `Evolution.CompactVector` | netidx-core/src/pack.rs:917-961 | elements of at most 256 bytes in memory for each byte on the wire come back, up to 2 GiB of them, wherever the vector stands |
| `Evolution.PrefixTranslate` | netidx-derive/src/lib.rs:392-454 | fields shared by two versions translate to themselves whatever follows on either side |
| `Evolution.OldReader` | netidx-derive/src/lib.rs:392-454 | an old reader gets its projection of a newer record and consumes the whole frame |
| `Evolution.NewReader` | netidx-derive/src/lib.rs:392-454 | a new reader accepts an old record exactly when every added field may be missing, and fills it in; otherwise it reports a short buffer and still consumes the frame |
| `AbstractType.Registry.Insert` | netidx-value/src/abstract_type.rs:129-152 | binds a free id and a free type to each other, returns an existing binding, and refuses any other pair unchanged |
| `AbstractType.RegisterLaws` | netidx-value/src/abstract_type.rs:229-241 | registration succeeds exactly when id and type are bound to each other afterwards, is idempotent, and keeps earlier bindings |
| `AbstractType.RegistryReachable` | netidx-value/src/abstract_type.rs:123-164 | in every reachable registry ids and types correspond one to one and the unknown type stays registered |
| `AbstractType.UnknownIdBytes` | netidx-value/src/abstract_type.rs:155-158 | the bytes of the id of the unknown type |
| `AbstractType.DecodeFits` | netidx-value/src/abstract_type.rs:277-297 | whatever arrives decodes to content of the type it is labelled with |
| `AbstractType.HopIdentical` | netidx-value/src/abstract_type.rs:104-121 | a program that does not know the type, or knows the same one, forwards the very bytes, unless its own size check refuses the value |
| `AbstractType.RelayIdentical` | netidx-value/src/abstract_type.rs:263-298 | so does any chain of such programs |
| `AbstractType.RelayRecovers` | netidx-value/src/abstract_type.rs:263-298 | a last program that knows the type, in this or a compatible version, decodes as if it were the first |
| `Sorting.SortLaws` | netidx-derive/src/lib.rs:895 | sorting is ascending and keeps the pairs of each key in order |
| `FromValue.Seek` | netidx-derive/src/lib.rs:855-857 | pairs below the wanted name can be skipped without changing any field |
| `FromValue.MergeJoin` | netidx-derive/src/lib.rs:839-868 | one pass over sorted pairs gives each field the first pair with its name not yet taken |
| `FromValue.FromPairs` | netidx-derive/src/lib.rs:889-900 | the same for fields and pairs in any order, unknown keys ignored |
| `FromValue.DistinctPlain` | netidx-derive/src/lib.rs:839-868 | with distinct names every field is plain lookup of the first pair; it fails exactly when a required key is absent or a conversion fails, with the first such failure in name order |
| `FromValue.DistinctMeans` | netidx-derive/src/lib.rs:839-868 | with distinct names, by positions alone: a field holds the converted first pair with its name, or its default exactly when there is none; it fails exactly for a missing required name or an unconvertible first pair |
| `FromValue.DistinctSorted` | netidx-derive/src/lib.rs:707-719 | the sorted names are distinct exactly when the declared ones are |
| `FromValue.SharedDiffers` | netidx-derive/src/lib.rs:680-684 | for every list of fields two of which share a name, extraction differs from plain lookup on pairs that hold one value for each name |
| `FromValue.PlainIffDistinct` | netidx-derive/src/lib.rs:839-868 | extraction is plain lookup on all pairs exactly when the names are distinct |
| `FromValue.DeclaredPlainIff` | netidx-derive/src/lib.rs:889-900 | from_value, which sorts the declared fields first, is plain lookup on all pairs exactly when the declared names are distinct |
| `FromValue.WriteRead` | netidx-derive/src/lib.rs:721-733 | a struct comes back from the pairs it was written as, in any order and among other keys |
| `ValArray.SubsliceExact` | netidx-value/src/array.rs:338-531 | on any array or slice and with any bounds a call is right, in success and in failure, exactly outside six families of requests |
| `ValArray.SliceSlides` | netidx-value/src/array.rs:400-531 | the checks and the result of a slice of a slice as arithmetic on positions in the word |
| `ValArray.AcceptsExactly` | netidx-value/src/array.rs:400-531 | without wrapping, which bounds are accepted and which positions of the base result, for every kind of own and requested bound |
| `ValArray.HalfOpenExact` | netidx-value/src/array.rs:400-531 | half-open ranges of half-open slices stay half-open and are wrong exactly where a sum wraps around and passes |
| `ValArray.WholeExact` | netidx-value/src/array.rs:339-399 | on a base array check_bounds is right exactly outside empty inclusive ranges and an exclusive start in an empty array |
| `ValArray.NestedExact` | netidx-value/src/array.rs:400-531 | at any depth and with any bounds all calls are right exactly when none is in a family, and then the nest succeeds exactly when each range fits its view, and the view is that range of the base |
| `ValArray.HalfOpenNest` | netidx-value/src/array.rs:400-531 | half-open ranges with bounds up to 2^63 are never in a family |
| `ValArray.ExcludedParent` | netidx-value/src/array.rs:439-445 | an instance: below an exclusive start an end bound is off by one |
| `ValArray.PastLastAccepted` | netidx-value/src/array.rs:474-483 | an instance: an inclusive end one past the last element is accepted and cannot be looked at |
| `ValArray.IncludedParent` | netidx-value/src/array.rs:401-405 | an instance: below an inclusive end the empty tail is refused |
| `Batched.Batched.PollNext` | netidx-core/src/utils.rs:314-345 | each poll is one step of the state machine and polls the inner stream exactly when that step does |
| `Batched.BatchesWellFormed` | netidx-core/src/utils.rs:314-345 | over any inner polls batches are nonempty, at most max long and closed before the stream is pending or ends |
| `Batched.ItemsInOrder` | netidx-core/src/utils.rs:314-345 | items out, then items still to come, are the inner stream's items in order |
| `Batched.EndFollowed` | netidx-core/src/utils.rs:326-334 | in every run the inner stream is polled up to its end and never after, and the flag says exactly whether it has ended |
| `Batched.EndReported` | netidx-core/src/utils.rs:314-345 | the end is reported only after the inner stream has ended; the poll that meets it closes an open batch first |
| `Batched.EndIsFinal` | netidx-core/src/utils.rs:315-316 | from then on every poll reports the end and takes nothing |
| `Batched.ItemsBeforeEnd` | netidx-core/src/utils.rs:314-345 | exactly the items before the end of the inner stream come out, in order |
| `Batched.EndIsMet` | netidx-core/src/utils.rs:314-345 | every second poll at least takes one of the inner stream until that has ended |
| `Batched.EveryItemClosed` | netidx-core/src/utils.rs:314-345 | every item is followed by an end of batch within max further outputs |
| `Batched.MaxZero` | netidx-core/src/utils.rs:317-319 | with a maximum of zero nothing is ever polled and only empty batches come out |
| `Batched.WellFormedIffMax` | netidx-core/src/utils.rs:276-296 | batches are well formed exactly when the maximum is at least one |
| `Cluster.Cluster.PollMembers` | netidx-protocols/src/cluster.rs:113-133 | the view becomes the listing without ourselves, kept subscriptions are the old ones, and the flag says whether our path is least |
| `Cluster.AlwaysHonest` | netidx-protocols/src/cluster.rs:113-133 | over any joins, leaves and polls of any listings a flag says exactly whether the path is least in its own view |
| `Cluster.MembersAre` | netidx-protocols/src/cluster.rs:55-88 | the members of a run are those whose last move was to join |
| `Cluster.OnePrimaryOfTwo` | netidx-protocols/src/cluster.rs:36-39 | in every reachable state two members that see each other are not both primary |
| `Cluster.Agreement` | netidx-protocols/src/cluster.rs:36-39 | when every view is the membership exactly the least member is primary |
| `Cluster.StableAgreement` | netidx-protocols/src/cluster.rs:36-39 | from any reachable state, once each member of a stable set has listed the members, in any order and among polls that see no change, all agree |
| `Cluster.BothPrimary` | netidx-protocols/src/cluster.rs:71-81 | two members that have not polled are both primary |
| `Glob.FirstGlobCharLoop` | netidx-netproto/src/glob.rs:78-95 | the loop returns the index of the first special character that is not escaped, counted from behind the last escaped one before it, which is the documented index exactly when no escaped one precedes it |
| `Glob.FirstGlobCharExact` | netidx-netproto/src/glob.rs:77-95 | the index is the first special character that is not escaped exactly when no escaped one precedes it |
| `Glob.EscapedFirstWitness` | netidx-netproto/src/glob.rs:77-95 | on `/a\*bc?` the index is 2 instead of 6 |
| `Glob.PlainPanicsExact` | netidx-netproto/src/glob.rs:63-69 | the plain string panics exactly when an escaped special character comes first and the index falls inside a character |
| `Glob.PlainPanicsWitness` | netidx-netproto/src/glob.rs:63-69 | `/é\*ab?` does |
| `Glob.PlainHasNoMeta` | netidx-netproto/src/glob.rs:64-69 | a plain prefix without escapes is literal text of the pattern all the same |
| `Glob.PlainLongest` | netidx-netproto/src/glob.rs:63-69 | without escapes the plain string is the longest prefix without `?`, `*`, `{` and `[` |
| `Glob.Disjoint` | netidx-netproto/src/glob.rs:303-317 | true exactly when all plain prefixes can be taken and are pairwise incomparable; false, or a panic, only for a reason |
| `Glob.PlainTextsExact` | netidx-netproto/src/glob.rs:303-317 | for plain texts the answer is true exactly when no text of one set is a prefix of a text of the other |
| `Glob.DisjointSound` | netidx-netproto/src/glob.rs:295-317 | then, if no plain prefix holds an escape, no text is matched by both sets, whatever the special characters match |
| `GlobMatch.OverlapExact` | netidx-netproto/src/glob.rs:35-53 | two patterns have a common match exactly when a recursion on them alone says so |
| `GlobMatch.WildcardsMatch` | netidx-netproto/src/glob.rs:38-39 | `?` is one character and `*` any number of them, none a separator |
| `GlobMatch.ClassesMatch` | netidx-netproto/src/glob.rs:45-45 | `[ab]` is a or b, `[!ab]` any other character, a range those between |
| `GlobMatch.BracesMatch` | netidx-netproto/src/glob.rs:44-44 | `{a,b}` is a or b |
| `GlobMatch.DeepMatch` | netidx-netproto/src/glob.rs:40-43 | a final `**` is everything below |
| `GlobMatch.DeepEndMatch` | netidx-netproto/src/glob.rs:40-43 | `/**/f` is every path whose last component is f |
| `GlobMatch.SetsOverlapExact` | netidx-netproto/src/glob.rs:295-317 | two sets match a common text, under the documented matching, exactly when they overlap; so true is the right answer exactly when they do not |
| `GlobMatch.DocumentedMatches` | netidx-netproto/src/glob.rs:35-53 | the documented matching gives literal text the meaning `Glob.DisjointSound` relies on |
| `GlobMatch.DocumentedSound` | netidx-netproto/src/glob.rs:295-317 | sets that are apart and hold no escapes in their plain prefixes do not overlap |
| `GlobMatch.LiteralExact` | netidx-netproto/src/glob.rs:35-53 | globs without unescaped special characters overlap exactly when they spell the same text |
| `GlobMatch.EscapesUnsound` | netidx-netproto/src/glob.rs:303-317 | `/\c` and `/c` count as disjoint and overlap, for every ordinary character |

## Left out

- PublishedCache.SubscribersCoherent: assumes that no request publishes a path whose own destroy event still waits; the run loop takes destroy events first but the channels do not rule it out.
- ContainerDb.Db.CommitSimple: runs a path's group without interruption; arbitrary interleavings of the groups' operations, and of the scans and edits of lock operations, are covered by the lemmas on schedules.
- Container.MirrorFollows: says nothing of sequential commits that both lock and unlock nested paths.
- GlobMatch.SetsOverlapExact: the syntax errors of the matching library are not modelled.
- Sheet and table operations, whose column widths use floating point and whose ranges do not follow the requested counts.
- Adding and deleting roots in the database, and advertisements.
- `relative_column` and `relative_row` of the container database.
- Formula values, which nothing writes.
- Forward separator search and forward directory names, which stop at an escaped separator.
- Floating point, decimal, date and duration encodings, maps, sets and fixed arrays on the wire.
- Recursive types as schemas, and buffers made of several chunks.
- Overflow of the remaining length when the size check shifts it by eight.
- Order, equality and hashing of abstract values, and tuple and enum forms of FromValue.
- Pools, reference counts and the unsafe code of value arrays.
- Parsing and printing of values as text, configuration, the foreign function interface and the command line tools.
- The internals of sled, rayon, tokio, the publisher and the resolver.
