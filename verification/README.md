# Verification of the CD2N cache node and client

This project models the parts of the CESS decentralised CDN that hold real state and arithmetic, and proves what they
promise. The code is Go; the model is Dafny. Network, chain, disk and erasure-coding answers are inputs: every theorem
holds for all of them, or names the condition they must meet.

| file | models |
|---|---|
| `Common.dfy` | shared types, and the `Reading` of a line (see below) |
| `Recovery.dfy`, `Storage.dfy` | downloading a file from storage: fragments to segments to the original bytes |
| `Chunks.dfy` | the 1024-byte copy loops and the cache download built on them |
| `FileBox.dfy`, `BoxLayout.dfy`, `BoxRoundTrip.dfy` | packing a directory into plates and finding a file again |
| `BoxUpload.dfy`, `BoxDirectory.dfy` | uploading a box, which segment sizes are safe, and what all this means for a directory listing |
| `Upload.dfy`, `UploadQueue.dfy` | placing the fragments of an upload, pass after pass, and the queue around it |
| `ParallelFetch.dfy` | the workers that fetch one segment from several cache nodes, as interleaved atomic steps |
| `FetchRuns.dfy`, `FetchReturns.dfy` | which configurations can record a fragment twice, return, or get stuck |
| `Shuffle.dfy`, `Selection.dfy`, `SelectionMeaning.dfy` | which segments a cache node fetches, and what it takes from its neighbours |
| `Credit.dfy`, `CreditRuns.dfy`, `Settlement.dfy` | the credit ledger, debt over all interleavings, paying for service |
| `CacheKeys.dfy`, `CacheIndex.dfy`, `CacheRuns.dfy` | the cache's counters, queries, and queueing for download |

Code that changes state is modelled as classes and methods with loops, each proved against a function of the old state;
what the code is for is then proved about those functions, for all inputs and all runs. Sizes and shard counts are
parameters.

## Readings

Three places do something else than all their callers expect. They take a parameter of type `Reading`: `AsWritten` is
the code, `Intended` is what the callers rely on. The theorems below say exactly what each reading achieves.

- `cd2n-lib/credit/credit.go:76` sets the "found" flag when decoding fails, so a good record counts as missing. Debt is
  then unbounded; it is bounded exactly when the flag means that a decodable record exists (`CreditRuns.DebtBoundIff`).
- `cd2n-client/client/files.go:711-714` drops the plate still open and writes its end to the plate before.
  `BoxRoundTrip.AsWrittenRoundTripIff` says which files survive; the last one never does. With the open plate closed
  instead, all files come back in the cases of the next section.
- `cd2n-node/actors/cache_actor.go:114` and `:134` keep counters under a directory with a trailing slash, queries look
  them up without it. As written a query finds cached fragments exactly when there are none (`CacheRuns.EarlyReturnIff`).

Other findings, proved of the code as it is:

- A copy succeeds exactly when its length is not a multiple of 1024, so fetching a full fragment from a cache node
  writes the whole file and reports an error (`Chunks.WriteData`, `Chunks.DownloadFileFromCache`). For fragment sizes
  that are multiples of 1024 every request of the parallel fetch is then a failure, and neighbours never share anything
  (`ParallelFetch.FullFragmentsNeverArrive`, `Selection.FullFragmentsAreNeverShared`).
- The limit test is unsigned: an account with enough credit is reported limited (`Credit.LimitedIffOverLimit`).
- A bill is counted in fragments and booked in bytes: paying it lets an account in again exactly when it was over the
  limit by one byte (`Settlement.SettledAccountAdmittedIff`).
- Fragments fetched from storage are filed under the segment that was asked for, whichever segment they belong to
  (`Selection.FiledUnderOwnSegmentIff`, `Selection.AdjacentSegmentIsMisfiled`).
- Fetching from cache nodes records failed fragments like the others, so that one failure can record a fragment twice
  (`FetchRuns.RecordsOnceIff`, `FetchRuns.SingleNodeRepeatsIff`).
- Without failures that fetch can return exactly when the nodes together offer enough different fragments, and can get
  stuck exactly when some node alone does not (`FetchReturns.ReturnsIff`, `FetchReturns.JamsIff`).
- Items whose key parses as a request URI are not counted when cached but subtracted when deleted. The counters are
  right exactly when no such key is added, and hash keys are none (`CacheRuns.IndexAgreesIff`,
  `CacheRuns.HashKeysAreNoUris`).
- A trust level can leave its range, but only for a quotient of 2^63 or more (`Credit.LevelRangeIff`).
- The box of a directory is packed in plates of one constant, the size of a fragment, and read back in segments of
  another. Every box gives all its files back exactly when the two are equal (`BoxUpload.RoundTripsIff`); a box of one
  plate does whenever that plate is not longer than a segment (`BoxRoundTrip.SinglePlateIff`). The check in
  `UploadDirAsBoxFile` does not compare sizes but counts, and what passes it comes back exactly when the sizes are
  equal or at least a factor of two apart (`BoxUpload.UploadedRoundTripsIff`). With segments of at least three plates
  only a box of one plate passes it, or, as written, of two, the last of which is lost (`BoxUpload.LargeSegments`).

## Model

| member | source | states |
|---|---|---|
| `Recovery.RecoveryFileViaSegments` | cd2n-lib/lib.go:279-313 | writes what the recursive specification of the loop gives, for any metadata, path list, cipher and disk, and ends the same way: done, failed or panicked |
| `Recovery.RecoveryFailsIff` | cd2n-lib/lib.go:279-313 | an error is reported exactly when some segment is missing, cannot be read or cannot be decoded |
| `Recovery.RecoveredIsAssembled` | cd2n-lib/lib.go:294-311 | success means that every segment was found and decoded, and that the pieces in front and the last one cut to the recorded size are what is written, in the order of the metadata |
| `Recovery.RecoveryInvertsSplit` | cd2n-lib/lib.go:279-313 | a complete set of segments gives back exactly the original bytes, plain or ciphered, whatever the order of the paths and whatever else is among them |
| `Recovery.SplitIsSplit` | cd2n-lib/lib.go:294-299 | cutting a file into padded pieces meets the conditions under which recovery inverts it |
| `Recovery.MissingSegmentFails` | cd2n-lib/lib.go:280-311 | a missing segment always ends in an error and never in an out-of-range slice, whatever the files hold |
| `Recovery.CompleteRecoveryPanicsIff` | cd2n-lib/lib.go:294-299 | on a complete set the final slice is out of range exactly when the recorded size ends before or after the last segment |
| `Recovery.RecoveryIsOrderIndependent` | cd2n-lib/lib.go:281-306 | two path lists that agree on the segments' paths recover the same, in any order and with any repetitions or extra paths |
| `Storage.GatherSegment` | cd2n-lib/lib.go:210-236 | restores an honest segment exactly when enough fragments arrive before a miner lookup fails, and any segment only then; touches no file but the segment's own |
| `Storage.GatherSegments` | cd2n-lib/lib.go:208-242 | all segments are restored, and still on disk at the end, exactly when each of them is reachable |
| `Storage.DownloadFileFromStorage` | cd2n-lib/lib.go:182-249 | on any network: success only when every segment is reachable, found and decoded, and then the file is put together from them; on an honest one: success exactly when every segment is reachable, then the original bytes, and never a panic; always: temporary files are gone and no other file has changed |
| `Storage.EnoughFragmentsMakeReachable` | cd2n-lib/lib.go:211-236 | when all miner lookups succeed, reachable means that at least the needed number of fragments of each segment arrive, wherever the failures are |
| `Storage.SomeNetworkIsHonest` | cd2n-lib/lib.go:194-197 | the conditions on the network can be met, with every segment reachable: two segments of three fragments, any two or three of which restore them |
| `Chunks.ReadData` | cd2n-lib/lib.go:321-336 | returns the reads up to the first short one put together, and an error exactly when the stream ends before a short read |
| `Chunks.ReadDataIsWholeIff` | cd2n-lib/lib.go:321-336 | returns the whole message exactly when its last read and no earlier one is short |
| `Chunks.WriteData` | cd2n-lib/lib.go:338-355 | always copies everything, and reports success exactly when the length is not a multiple of 1024 |
| `Chunks.DownloadFileFromCache` | cd2n-lib/lib.go:84-106 | a downloaded fragment is on disk whole, and success is reported exactly when its length is not a multiple of 1024 |
| `FileBox.DownloadFileInBox` | cd2n-client/client/files.go:227-255 | for any box: not found exactly when no plate lists the name; otherwise the segment of the last plate that lists it is cut from the offset at its first place there to the next offset, or to the end, or is returned whole, and offsets that do not fit panic |
| `FileBox.FindFile` | cd2n-client/client/files.go:228-240 | nothing is found exactly when no plate lists the name; otherwise the last plate and the first place |
| `BoxLayout.PackEncodes` | cd2n-client/client/files.go:669-705 | the packing loop lays out exactly the next-fit grouping of the files: names, offsets, padding and bytes of every plate |
| `BoxLayout.GroupingIsNextFit` | cd2n-client/client/files.go:679-691 | a plate is closed only when it is full or the next file does not fit, and otherwise the next file goes on it |
| `BoxLayout.GroupingKeepsFiles` | cd2n-client/client/files.go:671-696 | every file is in the box once, in the order of the listing |
| `BoxLayout.BoxAccounting` | cd2n-client/client/files.go:669-705 | bytes written are file bytes plus padding; they are whole plates plus the open one exactly when no file exceeds a plate |
| `BoxLayout.RecordedTotal` | cd2n-client/client/files.go:711-711 | the recorded padding is what the box is longer than its files; the recorded total is the length of the box with the intended ending, and longer by the open plate as written |
| `BoxLayout.OnePlateIff` | cd2n-client/client/files.go:679-691 | one plate is enough exactly when the files together are not larger than it |
| `BoxRoundTrip.SegmentsArePlatesIff` | cd2n-client/client/files.go:679-691 | the segments of the stored box are the padded plates exactly when segments are as large as plates |
| `BoxRoundTrip.ComesBackIff` | cd2n-client/client/files.go:227-255 | for segments of any size and under both readings, a packed file comes back exactly when its plate is listed, its recorded end is its own and inside the segment, and its bytes are at that place of that segment |
| `BoxRoundTrip.BoxRoundTrip` | cd2n-client/client/files.go:671-714 | with the intended ending every packed file comes back byte for byte, from padded plates, full plates and the last one, when segments are as large as plates and no file is larger; also from a single plate that is not longer than a segment |
| `BoxRoundTrip.BoxRoundTripIff` | cd2n-client/client/files.go:679-691 | with segments as large as plates, all packed files come back exactly when none is larger than a plate |
| `BoxRoundTrip.SinglePlateIff` | cd2n-client/client/files.go:679-714 | from a box of one plate all files come back exactly when the plate is not longer than a segment |
| `BoxRoundTrip.AbsentIsNotFound` | cd2n-client/client/files.go:237-240 | a name that was not packed is reported as not found, under both readings |
| `BoxRoundTrip.AsWrittenRoundTripIff` | cd2n-client/client/files.go:711-714 | as written there is a box exactly when a plate was closed; a file of the first plate, or of any plate when segments are as large as plates, comes back exactly when its plate was closed, it ends inside the segment and its end was not left out or replaced by a wrong one |
| `BoxRoundTrip.AsWrittenLosesTheLast` | cd2n-client/client/files.go:712-714 | as written the file packed last is never found, whatever the size of the segments |
| `BoxUpload.UploadAcceptsIff` | cd2n-client/client/files.go:212-215 | the check passes exactly when the number of plates is the length of the box over the segment size, rounded up |
| `BoxUpload.PlateCount` | cd2n-client/client/files.go:212-215 | the same in plates, for both endings: n closed plates and what is in the open one against n + 1 segments, or n as written |
| `BoxUpload.PlateSizedSegments` | cd2n-client/client/files.go:212-215 | with segments as large as plates the check always passes with the intended ending and never as written |
| `BoxUpload.LargeSegments` | cd2n-client/client/files.go:212-215 | with segments of at least three plates it passes exactly for one plate with the intended ending, and for two as written |
| `BoxUpload.RoundTripsIff` | cd2n-client/client/files.go:671-714 | every directory of files that fit a plate comes back exactly when segments are as large as plates; two files are enough to tell |
| `BoxUpload.UploadedRoundTripsIff` | cd2n-client/client/files.go:198-225 | every directory that passes the check comes back exactly when segments are as large as plates, at least twice as large, or at most half as large |
| `BoxDirectory.CreateAFileBox` | cd2n-client/client/files.go:645-716 | for any directory listing: an error exactly when a listed file cannot be read; intended, every file that is not skipped comes back byte for byte under its name exactly when each fits a plate, nothing comes back under another name, and sizes, padding and total add up; as written, a panic exactly when one plate is enough |
| `BoxDirectory.UploadDirAsBoxFile` | cd2n-client/client/files.go:195-225 | intended, what is accepted comes back for safe sizes of plates and segments, and which directories are accepted is exact for equal and for larger segments; as written, nothing that is accepted comes back whole |
| `Upload.ServePass` | cd2n-client/client/files.go:567-633 | one pass over the slots in place equals the slot-by-slot specification, and its count is the number of slots on chain |
| `Upload.PassMeaning` | cd2n-client/client/files.go:585-631 | each slot, said by the places of nodes in the iterator's order alone: on chain with the miner of the first entry that lists it; left alone while recent; else moved to the first node not passed yet that is new and takes every fragment, and left as it was only when there is none |
| `Upload.NoNodeIsWasted` | cd2n-client/client/files.go:601-631 | a node that a due slot did not get was another slot's, or went to an earlier due slot, or was refused by this or an earlier one |
| `Upload.DueSlotsGetNodesInOrder` | cd2n-client/client/files.go:601-631 | when all nodes accept and none is taken, the due slots get them in order, one each |
| `Upload.PlacementStaysIndependent` | cd2n-client/client/files.go:568-633 | over any number of passes no two slots are on the same node, slots on chain never change, and what is on chain or placed is saved |
| `Upload.OnChainCountAll` | cd2n-client/client/files.go:594-597 | the count reaches the number of slots exactly when every slot is on chain |
| `UploadQueue.Server.Enqueue` | cd2n-client/client/files.go:520-528 | a new task has blank slots and is at the end of the queue |
| `UploadQueue.Server.Serve` | cd2n-client/client/files.go:548-642 | tasks enqueued are tasks queued plus finished, plus the one that stopped the server; a pass finishes its task exactly when every slot is on chain, and every other outcome requeues it |
| `UploadQueue.Server.Cancel` | cd2n-client/client/files.go:551-553 | a cancelled server takes no more tasks and loses none |
| `UploadQueue.ServeTask` | cd2n-client/client/files.go:559-641 | what one turn does to the task itself: slots stay independent, slots on chain are kept |
| `ParallelFetch.OvershootIsBounded` | cd2n-client/client/files.go:428-472 | in every interleaving the count equals the results, which exceed the number needed by less than the number of workers; at the end all of them are credited |
| `ParallelFetch.OvershootWithoutFailures` | cd2n-client/client/files.go:430-440 | however many workers there are, fewer than twice the fragments needed are fetched, and each failure allows one more |
| `ParallelFetch.FetchesAreExclusive` | cd2n-client/client/files.go:447-453 | no fragment is being fetched by two workers at once |
| `ParallelFetch.ResultsLessFailures` | cd2n-client/client/files.go:461-470 | the results hold at least as many different fragments that arrived as their number less the failures; without failures they are all different |
| `ParallelFetch.FullFragmentsNeverArrive` | cd2n-client/client/files.go:455-470 | when fragments are a multiple of 1024 bytes, every recorded fragment stems from a request taken to have failed |
| `FetchRuns.RecordsOnceIff` | cd2n-client/client/files.go:461-470 | if one node lists some fragments but fewer than are needed, or two nodes list the same one early enough, all runs with at most n failures record different fragments exactly when n is zero |
| `FetchRuns.RetryRepeats` | cd2n-client/client/files.go:461-470 | a node that lists fewer different fragments than are needed can record any one of them twice after failing it once |
| `FetchRuns.SecondNodeRepeats` | cd2n-client/client/files.go:461-470 | a fragment that one node failed can be recorded again by another |
| `FetchRuns.SingleNodeRepeatsIff` | cd2n-client/client/files.go:430-470 | a single node can record a fragment twice exactly when it lists some but fewer than are needed, whatever fails |
| `ParallelFetch.ReturnsOnlyIf` | cd2n-client/client/files.go:428-440 | the call returns only if the different fragments offered and the failures together reach the number needed |
| `ParallelFetch.StuckForever` | cd2n-client/client/files.go:434-440 | once all rounds are used up below that number no worker moves again |
| `FetchReturns.ReturnsIff` | cd2n-client/client/files.go:428-446 | some run without failures returns exactly when the nodes together offer enough different fragments |
| `FetchReturns.JamsIff` | cd2n-client/client/files.go:434-440 | some run without failures gets stuck exactly when some node offers fewer different fragments than are needed |
| `Shuffle.ShuffleSegments` | cd2n-node/actors/resource_actor.go:405-410 | the in-place swaps compute the shuffle of the drawn numbers |
| `Shuffle.ShuffleIsPermutation` | cd2n-node/actors/resource_actor.go:405-410 | every run is a permutation of the input, repeated elements included |
| `Shuffle.ShuffleIsInjective` | cd2n-node/actors/resource_actor.go:406-408 | different draws give different results on different elements |
| `Shuffle.ShuffleReaches` | cd2n-node/actors/resource_actor.go:406-408 | every permutation is the result of some draws |
| `Shuffle.ShuffleIsBijection` | cd2n-node/actors/resource_actor.go:405-410 | draws and orderings correspond one to one |
| `Selection.SharedSegmentFromNeighborCacher` | cd2n-node/actors/resource_actor.go:356-403 | the loop over the neighbours computes the specified fragments |
| `Selection.SharingIsSound` | cd2n-node/actors/resource_actor.go:357-402 | for every order and failure pattern: keys differ, loading neighbours are not asked, and the result is shorter than the number needed plus the longest list |
| `Selection.AskedIff` | cd2n-node/actors/resource_actor.go:361-367 | a neighbour is asked exactly when it is not loading and fewer fragments than are needed have arrived before its turn |
| `Selection.SharingIsComplete` | cd2n-node/actors/resource_actor.go:368-390 | whatever an asked neighbour sends is in the result |
| `Selection.SharedIsSent` | cd2n-node/actors/resource_actor.go:368-390 | whatever is in the result was sent, by the first asked neighbour that sends it, and is filed under its own key and that neighbour's account |
| `Selection.SharingBringsIff` | cd2n-node/actors/resource_actor.go:361-390 | something is shared exactly when some neighbour that is not loading sends a file it lists, in every order |
| `Selection.FullFragmentsAreNeverShared` | cd2n-node/actors/resource_actor.go:374-382 | nothing is shared when fragments are a multiple of 1024 bytes |
| `Selection.DownloadStoragedFiles` | cd2n-node/actors/resource_actor.go:193-276 | shuffles the segments in place and then selects by the specified loop |
| `SelectionMeaning.SelectIs` | cd2n-node/actors/resource_actor.go:206-274 | a segment is examined exactly while fewer than the cache number are counted before it, one place being kept until the segment asked for is seen; what the examined ones bring is put together in order |
| `SelectionMeaning.ExamineIs` | cd2n-node/actors/resource_actor.go:215-235 | an examined segment counts exactly when fewer neighbours have it than wanted, and brings what they share, or else what storage has |
| `SelectionMeaning.StorageIs` | cd2n-node/actors/resource_actor.go:236-262 | exactly the first fragments that can be read, as many as are needed, in order |
| `SelectionMeaning.CacheNumIs` | cd2n-node/actors/resource_actor.go:200-204 | the cache number with its defaults, as the whole number of times the neighbours go into the segments |
| `Selection.RequestedIsExaminedIff` | cd2n-node/actors/resource_actor.go:206-274 | for every order and every answer the segment asked for is examined exactly when the cache number is positive, and never more segments than that number are counted |
| `Selection.PositiveStrategy` | cd2n-node/actors/resource_actor.go:106-126 | with the defaults, a strategy without negative values always has a positive cache number |
| `Selection.FiledUnderOwnSegmentIff` | cd2n-node/actors/resource_actor.go:215-262 | fragments are filed under their own segment exactly when it is the one asked for, or enough neighbours have it, or one of them sends some of it, or none of it can be read from storage, or none is needed |
| `Selection.AdjacentSegmentIsMisfiled` | cd2n-node/actors/resource_actor.go:236-262 | what is read of a segment beside the one asked for, unknown to the neighbours, is never filed under it |
| `Selection.StorageFilesUnderAsked` | cd2n-node/actors/resource_actor.go:236-262 | at most the needed number of a segment's fragments are read from storage |
| `Credit.LimitedIffOverLimit` | cd2n-lib/credit/credit.go:104-104 | the unsigned test agrees with the true balance exactly when the account is not in credit by less than 2^64 minus the limit |
| `Credit.AdvertisedIsBranchIndependent` | cd2n-lib/credit/credit.go:99-115 | all three branches, with the sign applied when advertising, give the limit less the balance as a wrapping 64-bit number |
| `Credit.AdvertisedIsExactIff` | cd2n-node/actors/cache_actor.go:272-277 | the advertised number is the true one exactly when that fits in 64 bits |
| `Credit.AdvertisedToUserIff` | cd2n-lib/credit/credit.go:89-97 | what a user is told is that number exactly when the flag means found, or the record is balanced |
| `Credit.LevelRangeIff` | cd2n-lib/credit/credit.go:64-64 | a computed trust level is between trusted and untrusted exactly when the quotient fits in 63 bits or is one more than a multiple of 3; and trusted for accounts that gave at least what they were sent |
| `Credit.LevelIs` | cd2n-lib/credit/credit.go:64-64 | the level is 1, 2 or 3 as the times over that an account was sent what it gave leave 0, 1 or 2 by three; and what it is when that number wraps around |
| `Credit.PointsAreAdded` | cd2n-lib/credit/credit.go:57-66 | one counter grows by the points, with wrap-around, the record is readable afterwards, no other account is touched, and nothing happens when the level cannot be computed |
| `Credit.CheckIs` | cd2n-lib/credit/credit.go:117-154 | who is admitted by a check, exactly, with and without an order, and what is booked |
| `Credit.Manager.GetCreditRecord` | cd2n-lib/credit/credit.go:68-81 | the record read and the flag, under both readings |
| `Credit.Manager.AddPoint` | cd2n-lib/credit/credit.go:57-66 | the ledger after adding points, unchanged when the level's division panics |
| `Credit.Manager.Limit` | cd2n-lib/credit/credit.go:89-97 | the answer and the ledger after it |
| `Credit.Manager.Check` | cd2n-lib/credit/credit.go:117-154 | the answer of a credit check with or without an order, and the ledger after it |
| `Credit.Manager.Pay` | cd2n-lib/credit/credit.go:156-179 | the payer's ledger after a bill |
| `CreditRuns.DebtBound` | cd2n-node/actors/cache_actor.go:377-424 | for every interleaving of checks, charges, orders and rewards, debt never exceeds the limit plus one largest file for each download an account may have under way |
| `CreditRuns.DebtBoundIsAttained` | cd2n-node/actors/cache_actor.go:377-424 | some run reaches that bound exactly |
| `CreditRuns.DebtBoundIff` | cd2n-lib/credit/credit.go:68-81 | the bound holds of every run within its assumptions, with or without credit, exactly when the flag means that a decodable record exists |
| `CreditRuns.AsWrittenThereIsNoBound` | cd2n-lib/credit/credit.go:76-78 | with the flag as written, one download at a time reaches any debt |
| `CreditRuns.UrlDownloadsAreUnbounded` | cd2n-node/actors/cache_actor.go:370-371 | downloads by URL are charged without a check and reach any debt under both readings |
| `Settlement.RecoveredCountIff` | cd2n-client/client/client.go:108-119 | the node recovers the billed fragment count exactly when the price has a nonzero low word and the advertised limit is not the smallest 64-bit integer |
| `Settlement.BillCoversOverrun` | cd2n-client/client/client.go:108-114 | the billed fragments are within one fragment of the overrun, and at least one |
| `Settlement.SettledAccountAdmittedIff` | cd2n-lib/credit/credit.go:136-153 | paying the bill admits a limited account exactly when it was over by one byte |
| `Settlement.PaymentCacheOrder` | cd2n-client/client/client.go:105-165 | the bills of a queue of offers, in order, and the payer's ledger after them |
| `Settlement.BillsAre` | cd2n-client/client/client.go:107-119 | one bill for each offer that is not in credit and names a price, in order: the price times the overrun in whole fragments, rounded down but at least one |
| `Settlement.BookAddsBills` | cd2n-lib/credit/credit.go:156-178 | whatever prices are advertised, every account's counter grows by exactly its accepted bills at the payer's own price |
| `Settlement.OrderCountIs` | cd2n-lib/credit/credit.go:144-148 | that price makes of a value its quotient rounded down, a price whose low word is zero counting as one |
| `Settlement.BookRecordsBilledCounts` | cd2n-lib/credit/credit.go:156-178 | with one price on both sides the payer's ledger records for every account exactly the fragments billed |
| `CacheKeys.ContainsIff` | cd2n-node/actors/cache_actor.go:230-237 | on hash keys the substring test finds the items under a segment, and those whose segment and fragment spell the key |
| `CacheIndex.CacheActor.AddItem` | cd2n-node/actors/cache_actor.go:109-130 | the counters after an item is added |
| `CacheIndex.CacheActor.DeleteItem` | cd2n-node/actors/cache_actor.go:132-150 | the counters after an item is deleted |
| `CacheIndex.CacheActor.QueryCacheResource` | cd2n-node/actors/cache_actor.go:200-246 | the request is counted, the key queued when admitted, with the task it is first queued for; a segment gets exactly its cached fragments, each once, a URL its own key when cached |
| `CacheIndex.CacheActor.Query` | cd2n-node/actors/cache_actor.go:347-364 | a queued segment answers loading and changes nothing; otherwise a hit lists exactly the cached fragments of the segment, each once, and a miss says that there are none; a URL is answered by whether it is cached |
| `CacheIndex.LookupIs` | cd2n-node/actors/cache_actor.go:226-238 | when counters agree, what is found for a segment is exactly its cached fragments, each once; as written, nothing |
| `CacheRuns.IndexAgreesIff` | cd2n-node/actors/cache_actor.go:109-150 | from an empty cache, over any additions of absent and deletions of cached items and any queries, the counters agree throughout exactly when no added key parses as a request URI |
| `CacheRuns.IndexAgrees` | cd2n-node/actors/cache_actor.go:109-150 | then each counter is the number of cached items under its key |
| `CacheRuns.HashKeysAreNoUris` | cd2n-node/actors/cache_actor.go:111-113 | the hash keys of the cache never parse as a request URI, which is an absolute path or has a scheme |
| `CacheRuns.DeleteKeepsAgreement` | cd2n-node/actors/cache_actor.go:138-141 | deleting a cached item finds its counter positive: the saturating decrement never saturates |
| `CacheRuns.DeleteResetsIff` | cd2n-node/actors/cache_actor.go:143-148 | a deletion sets the request counter of its directory to zero exactly when fewer fragments are left there than restore a segment, and no other |
| `CacheRuns.QueryCounts` | cd2n-node/actors/cache_actor.go:210-212 | a query adds one to the request counter of its key and to no other |
| `CacheRuns.TaskIsOfItsQuery` | cd2n-node/actors/cache_actor.go:217-220 | a queued key has the task of the query that queued it, and has been queued ever since |
| `CacheRuns.AddKeepsAgreementIff` | cd2n-node/actors/cache_actor.go:111-113 | adding an absent item to any agreeing state keeps agreement exactly when its key does not parse as a request URI |
| `CacheRuns.EarlyReturnIff` | cd2n-node/actors/cache_actor.go:226-238 | the early return answers like the full traversal, and with the key as written exactly when there is nothing to find |
| `CacheRuns.EarlyReturnInRunsIff` | cd2n-node/actors/cache_actor.go:226-238 | so after every run from an empty cache that adds no request URI |
| `CacheRuns.AdmissionIsBounded` | cd2n-node/actors/cache_actor.go:210-221 | at most four queries leave a key unqueued between two resets of its counter, whatever the levels and loads |
| `CacheRuns.QueryQueuesIff` | cd2n-node/actors/cache_actor.go:213-221 | in any state a query queues its key exactly when the key has been asked for as often before as the account's patience says |
| `CacheRuns.QueuedAfterPatience` | cd2n-node/actors/cache_actor.go:210-221 | how often an account is turned away before the key of a segment or URL is queued, for every level and load: never, once or four times; so the bound of four is reached |
| `CacheRuns.AsWrittenDeletionsNeverReset` | cd2n-node/actors/cache_actor.go:144-148 | with the key as written a deletion never resets the request counter that queries use |
| `CacheRuns.QueuedStaysQueued` | cd2n-node/actors/cache_actor.go:353-356 | over any events but its removal a queued segment stays queued, and its request counter stands still or is set back to zero once by a deletion |

## Left out

- Streams, discovery, the DHT, the actor framework, logging, command line and configuration: plumbing without state of
  interest here.
- Signatures, key recovery, orders on the chain and the contract bindings: a credit check gets the account key and the
  value of an accepted order as inputs, and a request whose public key does not decode is not modelled.
- Reed-Solomon, AES, LevelDB, JSON, the cache and the scheduler libraries: their answers are inputs. The storage theorem
  assumes that any set of different correct fragments of the needed size restores the segment, whatever their order.
- Storage.DownloadFileFromStorage: file, segment and fragment names are taken not to collide, and the bytes for the user's file reach the disk when the call ends.
- Recovery.RecoveryFileViaSegments: a slice beyond the length of a file's content counts as a panic; Go would allow it up to the spare capacity of the buffer. Failures of the writer are ignored, as in the code.
- FileBox.DownloadFileInBox: the box is stored without a cipher. The sizes of fragments and segments are constants of a library that is not part of this model, so both are parameters.
- BoxRoundTrip.ComesBackIff: from the second plate on, for segments of another size than plates, the condition compares bytes, since the wrong place may hold equal ones by chance.
- BoxDirectory.CreateAFileBox: failures to write, and a listing that contains the box file itself.
- BoxRoundTrip.BoxRoundTrip: files that change between being examined and being read are excluded.
- Upload.ServePass: the flush interval is an input of each pass; feedback to the scheduler is not modelled.
- UploadQueue.Server.Serve: a turn is one step, so that a full channel never blocks the server while it serves a task.
- ParallelFetch.ReturnsOnlyIf: no converse for every run, since the scheduler may starve a worker and the code promises no progress; `FetchReturns.ReturnsIff` has the converse for some run.
- FetchRuns.RecordsOnceIff: the condition is exact for one node (`FetchRuns.SingleNodeRepeatsIff`) and sufficient for more, where other nodes may hold fragments back meanwhile. It cannot be left out: one node listing two fragments, when two are needed, never records one twice.
- Selection.SharingIsSound: keys are triples; two file names that a path library would clean to one are taken as different. Announcing a segment to the network is not modelled.
- CreditRuns.DebtBound: each operation on a record is one atomic step, so updates lost inside one are not modelled, and sums stay below 2^64 - 1.
- Credit.Manager.AddPoint: the time of last access is a clock value and is left out.
- Settlement.RecoveredCountIff: Go leaves the low word of a big integer out of range undefined; the model takes the low 64 bits of its magnitude.
- CacheIndex.CacheActor.QueryCacheResource: store errors other than a missing key, and restoring a cache directory at start are not modelled; runs start from an empty cache.
- CacheRuns.QueuedStaysQueued: queries for URLs that hash to the key are excluded, since they are counted while it is queued.
- The storage fallback of `DownloadFile` and `DownloadSegment` in the client, and the gateway calls: variants of what is
  modelled.
- `DownloadSegmentFromStorage` and `QuerySegmentFromNeighborCacher`: they would add easier versions of the storage and
  sharing results.
