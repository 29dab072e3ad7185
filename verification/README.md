# Another S3 Manager: a verified model

This project models the parts of Another S3 Manager that are easy to get subtly wrong, and proves what they promise.
`dafny verify dfyconfig.toml` checks all of it.

| file | models |
|---|---|
| `Keys`, `ObjectStore` | keys in S3's order; a bucket as a finite map; ListObjectsV2 with and without a delimiter |
| `Listing`, `ChunkedListing`, `RecursiveListing` | one folder level in one pass, in resumable chunks and drained; the flat recursive pager |
| `SummaryWalk`, `Summary`, `Tallies` | the capped walk of the bucket summary, its coverage labels and its bounded top lists |
| `RetriedOperations` | exact and recursive delete, and upload, under the two-attempt retry loop |
| `ClientCache` | the per-role client cache: double-checked locking, probing, invalidation, clearing, as an interleaving of steps |
| `ConfigMigration`, `ConfigPublication` | the in-place migration of a configuration; reload, migrate and publish with lock-free readers |
| `Access` | path sanitizing, allowed prefixes, and what a listing or a delete can reach |
| `Utf8`, `TextSniff`, `Base64`, `PathCodec`, `FolderUpload` | UTF-8 and the text sniffer; base64 and the upload limits; browser paths; flattening a dropped folder |
| `ApiTokens`, `AdminPassword` | the token ledger; who governs the admin password |
| `Sorting`, `Sequences`, `Wrappers`, `Bytes` | stable sorting, flat-mapping, options and results, octets |

How the world is modelled:

- A bucket does not change while it is listed. A continuation token is the number of entries already handed out. A page may be
  thinner than MaxKeys but is not empty while entries remain; the parameter `full` says that pages are filled.
- Python's `str.lower` is any function on strings. Characters are Unicode scalar values; S3's byte order on keys is their order.
- Any call to S3 may fail, also after it took effect, and any failure may count as an expired credential.
- The retry loop's own invalidation of the client is part of `ClientCache`, not of `RetriedOperations`; `RetryGetsAnotherClient`
  is what the second try relies on.
- Clocks, salts, schedules and the service's choices are inputs or free choices: a statement holds for all of them.

Where the code and its own text differ, or where a plausible claim is false, the model follows the code:

- The recursive pager loses keys when a page is cut in the middle. `RecursiveListing.DrainRecursive` says exactly when it does
  not: with full pages, when no call overruns its limit within a page; without markers, when the limit is at most 1000, a
  multiple of 1000, or enough for one call. One marker can spoil a small limit (`RecursiveListing.MarkerCutsAPage`). One call can
  also leave keys out without a token and without `is_truncated`: 1700 keys under a limit of 1500
  (`RecursiveListing.QuietLoss`; exactly when, in `QuietLossExactly`).
- A path with whitespace around it can pass the prefix check and still name a folder or a key outside the prefix.
  `Access.TidyPathsStayInside` gives the exact condition on the path for listings, `Access.TidyDeletesStayInside` for deletes.
  The web route trims the path, so its deletes are not affected. The MCP tools `delete_file`, and `copy_object` with
  `delete_source`, hand the path on as it came, so theirs are: under a role scoped to "a/" they delete the key " a"
  (`Access.SpacedKeyIsDeleted`).
- `_migrate_config` leaves `upload_inline_extensions` missing exactly when it is missing and the preview list is already there
  (`ConfigMigration.UploadListCanStayMissing`; an input in `PreviewListAloneStaysAlone`).
- The comment on the base64 estimate says a malformed tail is never under-counted. `Base64.EstimateCoversLetters` gives the exact
  exceptions; `Base64.ExtraPadIsUndercounted` is one, and the shortfall is never more than one octet. That nothing over the
  limit is stored (`Base64.UploadIsExact`) assumes a decoder that refuses superfluous padding, as strict validation should; for
  one that overlooks it the bound is the limit plus one octet (`Base64.AnyDecoderIsBounded`).
- The description of the upload tool says there is no size ceiling; the code has one.
- `delete_objects` reports refused keys in a field the code does not read. They are the ghost result `refused`: a successful
  delete leaves exactly those. After a retry, "not found" can mean that the first run deleted everything.
- A top-level folder with an empty name makes two distinct files collide (`FolderUpload.EmptyRootNameCollides`). Exactly which
  files do is `CollisionsExactly`; with every top-level folder named none do (`PathsAreDistinct`), whatever names there are
  below. In the browsers' File and Directory Entries API only the root of a file system has an empty name; a dropped item
  normally is not that root, but the walk does not check.
- The docstring of `create_token` allows for one token over the limit. With `k` overlapping creates the bound is 10 + k - 1,
  and it is reached (`ApiTokens.LimitIsReached`).

## Model

| member | source | states |
|---|---|---|
| Listing.ListObjects | src/another_s3_manager/s3_client.py:1234-1265 | shows each direct subfolder and each direct, non-marker file exactly once and nothing else, however the pages fall; no folder after a file, and folded names ascending within each kind |
| Listing.LevelRowsAreExact | src/another_s3_manager/s3_client.py:1239-1263 | a row stands for an entry of the delimited listing exactly when an object of the bucket calls for it; no row comes twice |
| Listing.AtMostTwoSkipped | src/another_s3_manager/s3_client.py:1927-1968 | of one level's entries at most two yield no row |
| ObjectStore.LevelMembers | src/another_s3_manager/s3_client.py:1238-1250 | the delimited listing has an entry exactly for the objects under the prefix, grouped by the next slash |
| ObjectStore.LevelIsSorted | src/another_s3_manager/s3_client.py:1238-1250 | each common prefix and each object once, in key order |
| ChunkedListing.LoadChunk | src/another_s3_manager/s3_client.py:1905-1999 | a chunk is the rows of the entries between its token and the next, folders and files each in their list and in name order; it stays in the clamped budget and in budget/1000 + 8 round trips, never ends early while entries remain, and with full pages the page bound is never what stops it |
| ChunkedListing.Drain | src/another_s3_manager/s3_client.py:1914-1999 | for any sequence of budgets, following the tokens yields what the flat listing shows, each row once, in boundedly many calls; with a search term that does not end in a slash, exactly what the folder it points into shows under names that start with it |
| ChunkedListing.SearchedLevel | src/another_s3_manager/s3_client.py:1908-1912 | the level listed for a search is the folder's level restricted to the matching entries |
| ChunkedListing.SearchIsExact | src/another_s3_manager/s3_client.py:1908-1912 | a search shows a row exactly when the folder does and its name starts with the term, once |
| ChunkedListing.SearchBelowIsExact | src/another_s3_manager/s3_client.py:1908-1912 | the same for a term with slashes that does not end in one: the rows of the folder it points into whose full name starts with it |
| RecursiveListing.ListRecursive | src/another_s3_manager/s3_client.py:1317-1372 | a call returns the non-marker keys of one stretch, never more than the limit; there is a token exactly when S3 has further pages, whatever was left of the last one; truncated means that the limit was met with a token or a full last page; it leaves keys of its pages out if and only if they hold more real keys than the limit; with full pages where it resumes, and without markers also where it stops and what it reports |
| RecursiveListing.QuietLossExactly | src/another_s3_manager/s3_client.py:1353-1359 | with full pages and no markers a call leaves keys out and reports neither truncation nor a token if and only if there are more keys than the limit but too few to fill the limit's whole pages |
| RecursiveListing.QuietLoss | src/another_s3_manager/s3_client.py:1353-1359 | 1700 keys under a limit of 1500 are such a case: 200 keys are left out |
| RecursiveListing.DrainRecursive | src/another_s3_manager/s3_client.py:1342-1372 | over resumed calls no key comes twice and keys come in order; the number lost is exact; nothing is lost, under any paging and markers, when one call is enough or the limit is 1; with full pages and any markers nothing is lost if and only if no call overruns its limit within a page; without markers, if and only if the limit is aligned or one call suffices |
| RecursiveListing.MarkerCutsAPage | src/another_s3_manager/s3_client.py:1342-1359 | one marker before three keys under a limit of 2 is a listing on which a call overruns |
| ObjectStore.RealMembers | src/another_s3_manager/s3_client.py:1338-1341 | what a walk skips are exactly the empty objects whose key ends in a slash |
| SummaryWalk.WalkObjects | src/another_s3_manager/s3_client.py:1536-1617 | the walk visits the first keys in order up to the cap; folder, root and extension counts, bytes, dates and the bounded heap all describe exactly the visited objects; root plus folder counts make the scanned count; it is incomplete only with the cap met and more entries behind the last key |
| SummaryWalk.PushBounded | src/another_s3_manager/s3_client.py:1598-1603 | push then pop keeps the k objects visited that are greatest by size and, among equal sizes, by key |
| SummaryWalk.ExtensionOfName | src/another_s3_manager/s3_client.py:1586-1591 | an object's extension is what follows the last dot of its name, folded and cut at 16 characters |
| SummaryWalk.NoExtension | src/another_s3_manager/s3_client.py:1586-1593 | a name without a dot, or that ends in one, has none |
| Summary.EnumeratePrefixes | src/another_s3_manager/s3_client.py:1512-1534 | the child prefixes of the pages read; a list that is not complete has used up the page budget, and with full pages exactly the budgeted thousands of entries were read |
| Summary.EveryLabelIsHonest | src/another_s3_manager/s3_client.py:1629-1646 | "complete" carries exactly the count and bytes under the prefix, "partial" never more than the truth, "not scanned" had no object visited |
| Summary.LabelsAdvance | src/another_s3_manager/s3_client.py:1648-1658 | in key order labels run complete, at most one partial, not scanned |
| Summary.LabelsAreDecided | src/another_s3_manager/s3_client.py:1630-1637 | a finished walk leaves every folder complete; otherwise partial is exactly the folder it stopped in and not scanned are exactly those behind it |
| Summary.SelectionIsFair | src/another_s3_manager/s3_client.py:1648-1658 | the twenty rendered prefixes are as many as there is room for, in key order; none left out is busier than one kept, and unscanned ones are the first in key order |
| Summary.RankExtensions | src/another_s3_manager/s3_client.py:1660-1661 | every extension exactly once with its count, most frequent first |
| Summary.Summarize | src/another_s3_manager/s3_client.py:1511-1725 | complete means exact totals, incomplete means the cap was scanned; labels are honest, selection is fair; the extensions are counted exactly, each rendered once, none left out more frequent than one kept; dates and the ten largest are exact over what was scanned |
| RetriedOperations.ExactKeyComesFirst | src/another_s3_manager/s3_client.py:2485-2503 | among the keys with a prefix, the prefix itself sorts first, so one key is enough to decide existence |
| Keys.LessByFirstDifference | src/another_s3_manager/s3_client.py:2485-2488 | in the order of keys the first character that differs decides, and a prefix comes first |
| RetriedOperations.Session.DeleteDirectory | src/another_s3_manager/s3_client.py:2460-2483 | one run removes only the subtree; on success all of it but what was refused, and the count is the subtree's size; it fails only if a call to S3 raised or nothing was there |
| RetriedOperations.Session.DeleteKey | src/another_s3_manager/s3_client.py:2484-2504 | one run removes only the exact key; not found means it was not there, and any other failure that a call to S3 raised |
| RetriedOperations.Session.RunUpload | src/another_s3_manager/s3_client.py:2365-2378 | after the rewind the whole file is stored, wherever an earlier run left the stream; it fails only if a call to S3 raised |
| RetriedOperations.Session.ExecuteWithRetryInner | src/another_s3_manager/s3_client.py:768-866 | there is a second try exactly when the first failed with an expired credential, in getting the client or in the callback; retries are counted so, the last try alone decides what is returned or raised, counters move exactly on success, and the final "without exception" raise is not reached |
| RetriedOperations.Session.ExecuteWithRetry | src/another_s3_manager/s3_client.py:869-904 | each call records one outcome, retries exactly as above, and over both tries nothing outside the target is removed and the count is bounded by what was removed or refused, with equality when nothing was retried; an upload stores the whole file or changes nothing else |
| RetriedOperations.OneMoreAttempt | src/another_s3_manager/s3_client.py:776-866 | a run on top of a failed run's leftovers still keeps the promises measured from the first state |
| ClientCache.CacheSafety | src/another_s3_manager/s3_client.py:637-765 | in every interleaving only probed clients are cached, a store never replaces a live client, and stores minus effective removals of a role is 0 or 1 |
| ClientCache.ReturnedWasCached | src/another_s3_manager/s3_client.py:637-765 | every returned client was in the cache at some moment of that call |
| ClientCache.InvalidationRemoves | src/another_s3_manager/s3_client.py:99-114 | an invalidation that is over has had its role out of the cache |
| ClientCache.ClearEmpties | src/another_s3_manager/s3_client.py:924-926 | a clear that is over has had the cache empty |
| ClientCache.RemovalHasACause | src/another_s3_manager/s3_client.py:99-114 | a role leaves the cache only at the hands of an invalidation of that role or of a clear |
| ClientCache.GetReturnsUnlessRefused | src/another_s3_manager/s3_client.py:637-765 | a get that is over has returned a client unless configuration, building or probing failed |
| ClientCache.HitReturnsTheCachedClient | src/another_s3_manager/s3_client.py:637-650 | while a client stays cached, a get of its role goes from the first look straight to returning it |
| ClientCache.RemovedIsNeverReturned | src/another_s3_manager/s3_client.py:637-765 | in every interleaving, a client that has been cached and removed is not returned by any call that starts afterwards |
| ClientCache.RetryGetsAnotherClient | src/another_s3_manager/s3_client.py:776-866 | once an invalidation of a role has run from start to end, a client given out for the role before it is returned by no call started since, the retry's included |
| ClientCache.RunKeepsInv | src/another_s3_manager/s3_client.py:99-114 | both locks are held exactly in their regions, and the cache and its ledger stay sound through get, invalidate and clear |
| ClientCache.NoDeadlock | src/another_s3_manager/s3_client.py:924-927 | while some call is under way some call can go on, also with the configuration lock taken inside the cache lock |
| ClientCache.SchedulesEnd | src/another_s3_manager/s3_client.py:637-765 | any schedule of the calls under way is over in boundedly many steps |
| ClientCache.AllCallsCanFinish | src/another_s3_manager/s3_client.py:637-765 | from every reachable state all calls can be brought to an end |
| ConfigMigration.Dict.Migrate | src/another_s3_manager/config.py:122-237 | the in-place edits end in the migrated dictionary, and the result flag says exactly whether anything changed |
| ConfigMigration.FixedPoints | src/another_s3_manager/config.py:122-237 | a configuration is left alone if and only if nothing is missing |
| ConfigMigration.Idempotent | src/another_s3_manager/config.py:122-237 | migrating again, even in another environment, changes nothing |
| ConfigMigration.SettingsSurvive | src/another_s3_manager/config.py:122-237 | no present setting is lost or changed, the two legacy fields apart |
| ConfigMigration.LegacyExtensionsSurvive | src/another_s3_manager/config.py:142-176 | the split keeps the preview list as it was and every extension inline, adding only pdf and the image types |
| ConfigMigration.FreshListsAreTheDefaults | src/another_s3_manager/config.py:149-176 | without a legacy list both lists start from the built-in ones, and the legacy fields are gone |
| ConfigMigration.UploadListCanStayMissing | src/another_s3_manager/config.py:149-170 | the upload list is there after the migration if and only if it was there before or the preview list, the marker of the split, was not |
| ConfigMigration.PreviewListAloneStaysAlone | src/another_s3_manager/config.py:149-149 | an empty preview list alone is a configuration that never gets an upload list |
| ConfigMigration.DefaultConfigIsMigrated | src/another_s3_manager/config.py:240-277 | the built-in configuration, written out, has every field the migration fills in and is not empty |
| ConfigPublication.ReadersSeeMigratedConfigs | src/another_s3_manager/config.py:45-96 | in every interleaving of loads, saves of migrated dictionaries and outside edits of the file, whatever a load returns and whatever is published is a fixed point, and a free lock means the migrating flag is down |
| ConfigPublication.ConfigsHaveAnOrigin | src/another_s3_manager/config.py:45-96 | in every interleaving, whatever is returned or published is the migration of something the file held before, a configuration some thread started to save, or the built-in one after the file was missing |
| ConfigPublication.FilesHaveAnOrigin | src/another_s3_manager/config.py:361-375 | and so is whatever the program itself writes to the file |
| ConfigPublication.LoadReturnsItsFile | src/another_s3_manager/config.py:64-96 | a load that reads the file and is not overtaken by another publication returns that file, migrated |
| ConfigPublication.StaleLoadReadsTheFile | src/another_s3_manager/config.py:52-67 | a load returns without reading the file only if it found itself up to date or found no file |
| ConfigPublication.MissingFileKeepsTheCache | src/another_s3_manager/config.py:45-50 | while a configuration is published, a load rebinds the cache only to publish what it has read, under the lock; a missing file does not bring the built-in one back |
| ConfigPublication.LoadReturnsUnlessFailed | src/another_s3_manager/config.py:45-96 | a load that is over has returned a configuration unless the file was gone, unreadable or could not be written though not read-only |
| ConfigPublication.SaveIsPublished | src/another_s3_manager/config.py:361-375 | a save that gets to its last step has put its configuration in the file and before the readers |
| ConfigPublication.StepKeepsConfig | src/another_s3_manager/config.py:361-375 | what any thread carries towards publication is migrated, and the cache stays so |
| ConfigPublication.StepKeepsLock | src/another_s3_manager/config.py:56-96 | the lock is held exactly inside the region and the flag is up only under it |
| Access.NormalizedPath | src/another_s3_manager/s3_client.py:1076-1088 | the normalized key is the stripped path less its trailing slashes |
| Access.PrefixMeansItsTree | src/another_s3_manager/s3_client.py:1091-1106 | an allowed prefix allows its own name and what lies below it at a slash, and nothing if it is blank |
| Access.ReadableKeys | src/another_s3_manager/utils.py:22-45 | a key is read exactly when it is no URI and, stripped, has no "..", no leading slash and no control character; it is read without its trailing slashes |
| Access.TidyPathsStayInside | src/another_s3_manager/s3_client.py:1091-1106 | the folder of an accepted path lies in the tree for every prefix list that accepts it if and only if the path has no whitespace in front and none behind unless after a slash |
| Access.UntidyPathLeaks | src/another_s3_manager/s3_client.py:1091-1106 | for every other accepted path, a prefix list that accepts it and does not hold its folder |
| Access.AcceptedFolderIsConfined | src/another_s3_manager/s3_client.py:1091-1106 | an accepted, tidy path's folder begins with an allowed prefix at a segment boundary |
| Access.EmptyPathNeverMeansTheRoot | src/another_s3_manager/s3_client.py:1052-1070 | under prefixes the empty path goes to the one prefix there is if the gate allows it, is answered by the distinct prefixes as folder names in folded order if there are several, and is denied otherwise |
| Access.SinglePrefixIsConfined | src/another_s3_manager/s3_client.py:1061-1064 | the prefix put in place of an empty path is listed inside its own tree |
| Access.ListingIsConfined | src/another_s3_manager/s3_client.py:1011-1073 | whatever key a listing finds under a role with prefixes lies in an allowed tree, and the listed prefix is not the root |
| Access.ListingUsesTheGate | src/another_s3_manager/s3_client.py:1072-1073 | on every path but the empty one the listing door and the storage gate give the same verdict |
| Access.GateKeepsToPrefixes | src/another_s3_manager/s3_client.py:1109-1152 | past the gate a role with prefixes has one that allows the key, and the empty key never passes |
| Access.GateIsStable | src/another_s3_manager/s3_client.py:935-968 | checking again under the resolved role gives the same verdict |
| Access.RoleIsOwn | src/another_s3_manager/s3_client.py:935-968 | an admin runs under the role asked for, anybody else under an own one: the one asked for, else the default, else the first; refused exactly when there is none |
| Access.FirstOfThatName | src/another_s3_manager/s3_client.py:1036-1039 | a role's entry is the first of its name |
| Access.GateIsExact | src/another_s3_manager/s3_client.py:1109-1152 | a request passes if and only if the user may use the role, the bucket is one of the role's own list or, without a list, the shared one, and some prefix of the role allows the key |
| Access.ListingKeepsToOwnBuckets | src/another_s3_manager/s3_client.py:1034-1046 | the listing door admits only an own role and a bucket of the role's list, else the shared one, for the empty path too |
| Access.EmptyPathAtTheDoor | src/another_s3_manager/s3_client.py:1034-1064 | for the empty path, once role and bucket are accepted, a role without prefixes lists the root and one with prefixes is sent on to them |
| Access.DeleteIsConfined | src/another_s3_manager/s3_client.py:2452-2464 | each key a delete of an accepted, tidy path may remove is covered by a prefix, and a recursive delete stays inside a tree |
| Access.TidyDeletesStayInside | src/another_s3_manager/s3_client.py:2452-2464 | every delete of an accepted path stays where the prefixes let it, for every prefix list that accepts it, if and only if the path is tidy |
| Access.UntidyDeleteLeaks | src/another_s3_manager/s3_client.py:2452-2464 | for every other accepted path, a prefix list that accepts it and a key outside of it that the delete removes |
| Access.SpacedKeyIsDeleted | src/another_s3_manager/mcp_server.py:1231-1232 | the path " a" passes the gate of a role scoped to "a/" and its delete removes the key " a", outside "a/" |
| Access.RoutedPathIsTrimmed | src/another_s3_manager/main.py:1712-1731 | the route hands on a trimmed, non-empty path that ends in a slash exactly when the raw one did, and that is otherwise the sanitized one |
| Access.RoutedDeleteIsConfined | src/another_s3_manager/main.py:1707-1740 | whatever is sent to the route, its delete removes only covered keys, and a folder delete stays in a tree |
| TextSniff.CutTextIsAccepted | src/another_s3_manager/mcp_server.py:443-462 | every cut of a valid text without an early NUL is accepted |
| TextSniff.AcceptedExactly | src/another_s3_manager/mcp_server.py:443-462 | accepted if and only if there is no early NUL and the sample is a valid text and at most three more octets |
| TextSniff.StrayOctetsPass | src/another_s3_manager/mcp_server.py:455-460 | three octets that begin no text are accepted all the same |
| TextSniff.ReadsExactlyText | src/another_s3_manager/mcp_server.py:1373-1414 | a sniffed file is read if and only if it is valid text without an early NUL, and the content encodes back to the file less a byte order mark |
| Utf8.DecodeEncode | src/another_s3_manager/mcp_server.py:452-453 | strict decoding undoes encoding |
| Utf8.EncodeDecode | src/another_s3_manager/mcp_server.py:1403-1404 | encoding undoes strict decoding, octet for octet |
| Utf8.CutLosesAtMostThree | src/another_s3_manager/mcp_server.py:455-460 | a valid text cut anywhere is a valid text and at most three stray octets |
| Base64.DecodeEncode | src/another_s3_manager/main.py:258-259 | decoding undoes encoding, and the encoded size is the one the body limit counts with |
| Base64.DecodeReadsTheAlphabet | src/another_s3_manager/mcp_server.py:1142-1145 | only letters of the alphabet are read, and padding only in the last two places |
| Base64.EstimateIsExact | src/another_s3_manager/mcp_server.py:1064-1068 | on every well-formed string the estimate is the decoded size |
| Base64.EstimateOfEncoded | src/another_s3_manager/mcp_server.py:1064-1068 | the estimate of an encoded file is the file's size |
| Base64.EstimateCoversLetters | src/another_s3_manager/mcp_server.py:1041-1061 | on any letters and any padding: exactly when the estimate covers what the letters carry |
| Base64.EstimateMissesAtMostOne | src/another_s3_manager/mcp_server.py:1064-1068 | on any letters and any padding the estimate falls short by at most one octet |
| Base64.ExtraPadIsUndercounted | src/another_s3_manager/mcp_server.py:1056-1058 | an input on which the estimate falls short |
| Base64.AllowedFileFits | src/another_s3_manager/main.py:236-260 | a file within the limit, in an envelope of up to 8192 bytes, passes the body limit and the size estimate; for a file of exactly the limit the headroom is exactly 8192 |
| Base64.UploadIsExact | src/another_s3_manager/mcp_server.py:1127-1147 | an encoded file is stored whole if and only if it is within the limit, and nothing larger is ever stored, under a decoder that refuses superfluous padding |
| Base64.AnyDecoderIsBounded | src/another_s3_manager/mcp_server.py:1127-1142 | under any decoder that gives no more than the letters carry, what passes the size check is at most one octet over the limit |
| PathCodec.JoinSplit | frontend/src/utils/pathUtils.ts:8-11 | joining undoes splitting, and split segments have no slash |
| PathCodec.SplitJoin | frontend/src/utils/pathUtils.ts:16-19 | splitting undoes joining on slash-free segments |
| PathCodec.ComponentRoundTrip | frontend/src/utils/pathUtils.ts:6-20 | percent-decoding undoes percent-encoding on every well-formed string |
| PathCodec.PathRoundTrip | frontend/src/utils/pathUtils.ts:6-20 | decodePath undoes encodePath on every path, segment by segment; the encoding holds only letters, digits, -_.!~*'(), percent signs and the slashes |
| PathCodec.PlainSegmentStays | frontend/src/utils/pathUtils.ts:6-12 | a segment of unreserved characters is left as it is |
| PathCodec.EscapesAreUpperCase | frontend/src/utils/pathUtils.ts:6-12 | an escape is a percent sign and two upper-case hexadecimal digits for each octet |
| PathCodec.EitherCaseIsRead | frontend/src/utils/pathUtils.ts:14-20 | escapes are read in either case |
| PathCodec.BadEscapeFails | frontend/src/utils/pathUtils.ts:14-20 | a percent sign that starts no escape is an error |
| PathCodec.StrayOctetFails | frontend/src/utils/pathUtils.ts:14-20 | so is an escaped octet that leads no character |
| PathCodec.BrokenCharacterFails | frontend/src/utils/pathUtils.ts:14-20 | and so are escaped octets that are no character |
| PathCodec.JoinPathOfNames | frontend/src/utils/pathUtils.ts:22-27 | segments without slashes at their ends are joined by one slash |
| PathCodec.JoinPathOfOne | frontend/src/utils/pathUtils.ts:22-27 | a single segment loses the slashes around it |
| PathCodec.JoinPathSkips | frontend/src/utils/pathUtils.ts:22-27 | a segment of nothing but slashes leaves no trace |
| PathCodec.JoinPathNests | frontend/src/utils/pathUtils.ts:22-27 | a path joined beforehand may stand for its segments anywhere |
| PathCodec.JoinPathAssociates | frontend/src/utils/pathUtils.ts:22-27 | joinPath is associative |
| PathCodec.CrumbsSpellThePath | frontend/src/utils/pathUtils.ts:41-48 | a path has one breadcrumb for each name, with the path up to it |
| PathCodec.CrumbsSkipEmptySegments | frontend/src/utils/pathUtils.ts:41-48 | empty segments give no breadcrumb |
| PathCodec.ParentOfCrumb | frontend/src/utils/pathUtils.ts:29-48 | the parent of each breadcrumb is the one before it, and of the first the root |
| PathCodec.ParentIgnoresTrailingSlash | frontend/src/utils/pathUtils.ts:29-34 | slashes at the end of a path do not change its parent |
| PathCodec.CrumbKeepsTheTrail | frontend/src/utils/pathUtils.ts:41-48 | following a breadcrumb keeps the trail up to it |
| PathCodec.ClampIsExact | frontend/src/utils/pathUtils.ts:70-75 | a path inside the entry folder is left alone, any other becomes the entry folder |
| PathCodec.UpStaysInside | frontend/src/utils/pathUtils.ts:70-75 | going up from inside the entry folder is the plain parent, and stays put at the entry itself |
| FolderUpload.DrainReader | frontend/src/utils/folderUpload.ts:37-46 | every child is read, in order, however they are batched |
| FolderUpload.RootOfItem | frontend/src/utils/folderUpload.ts:103-117 | an item counts by its entry, or without one by the loose file it holds, or not at all |
| FolderUpload.WalkEntry | frontend/src/utils/folderUpload.ts:64-87 | the recursive walk over drained readers is the flattening of the tree |
| FolderUpload.ExpandDirectoryEntries | frontend/src/utils/folderUpload.ts:99-119 | a drop, loose files included, is the flattening of its top-level entries |
| FolderUpload.WalkPlacesEveryLeaf | frontend/src/utils/folderUpload.ts:64-87 | the flattening lists each file of the forest once, in order |
| FolderUpload.FlatteningIsExact | frontend/src/utils/folderUpload.ts:64-119 | a file is listed under a path exactly when names leading to it, joined by slashes, make that path |
| FolderUpload.SamePathExactly | frontend/src/utils/folderUpload.ts:76-77 | two lists of slash-free names make the same path if and only if they agree after their leading empty names |
| FolderUpload.CollisionsExactly | frontend/src/utils/folderUpload.ts:64-119 | two files of a drop share a path if and only if their names agree after the leading empty ones |
| FolderUpload.PathsAreDistinct | frontend/src/utils/folderUpload.ts:64-119 | with distinct, slash-free sibling names and no unnamed top-level folder no two files share a path; empty names elsewhere do no harm |
| FolderUpload.EmptyRootNameCollides | frontend/src/utils/folderUpload.ts:77-77 | with an unnamed top-level folder two files share a path |
| ApiTokens.Ledger.CreateToken | src/another_s3_manager/api_tokens.py:32-80 | the limit refuses at ten active tokens; below it a creation is refused exactly when the active name is taken or the read size is out of range, and otherwise adds one row; the ledger stays valid |
| ApiTokens.Ledger.RevokeToken | src/another_s3_manager/api_tokens.py:124-141 | only the owner or an admin revokes; the first revocation time stays; nothing else changes |
| ApiTokens.Ledger.UpdateToken | src/another_s3_manager/api_tokens.py:144-198 | exactly which update is refused and why; a refused one changes nothing and a revoked token is never updated |
| ApiTokens.Ledger.TouchLastUsed | src/another_s3_manager/api_tokens.py:212-230 | last-used moves exactly when it is unset or older than the throttle |
| ApiTokens.ActiveCountsRows | src/another_s3_manager/api_tokens.py:58-62 | what is counted against the limit are the user's rows that are not revoked |
| ApiTokens.RunsKeepTheLedger | src/another_s3_manager/models.py:86-99 | over every interleaving of sessions active names of a user stay distinct, a revoked token stays revoked, and last-used moves only by more than the throttle |
| ApiTokens.SessionRevokes | src/another_s3_manager/api_tokens.py:130-141 | a session that reads and writes undisturbed revokes the token asked for, if allowed, and changes nothing else |
| ApiTokens.RevocationSticks | src/another_s3_manager/api_tokens.py:130-141 | whatever happened between its read and its write, and whatever follows, the token stays revoked |
| ApiTokens.SessionCreates | src/another_s3_manager/api_tokens.py:58-80 | a session that counts and inserts undisturbed adds the token exactly when the limit, the name and the read size allow |
| ApiTokens.SessionUpdates | src/another_s3_manager/api_tokens.py:169-198 | a session that reads and updates undisturbed sets exactly the fields asked for when all checks pass |
| ApiTokens.LimitHolds | src/another_s3_manager/api_tokens.py:58-80 | with at most k overlapping creates of a user, never more than 10 + k - 1 active tokens |
| ApiTokens.LimitFromTheStart | src/another_s3_manager/api_tokens.py:58-80 | the same for every schedule from an empty ledger |
| ApiTokens.LimitIsReached | src/another_s3_manager/api_tokens.py:46-57 | for every k a schedule that reaches the bound |
| AdminPassword.AdminAccount.SyncFromEnv | src/another_s3_manager/users.py:133-267 | a startup rewrites the password exactly when the environment governs it and names another; the whole row afterwards |
| AdminPassword.AdminAccount.ResetAdminPassword | src/another_s3_manager/users.py:270-305 | the given hash is in force, stamped as set by the command |
| AdminPassword.AdminAccount.UpdateUser | src/another_s3_manager/users.py:546-569 | the source moves only with the hash |
| AdminPassword.StartupLeavesHumanPassword | src/another_s3_manager/users.py:167-251 | a password in human hands is left alone if and only if no force with a password of its own is on |
| AdminPassword.HumanPasswordSurvives | src/another_s3_manager/users.py:167-267 | without force, it survives every startup and every edit that leaves the hash as it is |
| AdminPassword.HumanWriteLasts | src/another_s3_manager/users.py:167-305 | whatever happened before, a password set by the reset command or by a changed hash is in force through all later startups without force and edits that leave the hash, until someone sets another |
| AdminPassword.NoStartupInstallsTheDefault | src/another_s3_manager/users.py:167-267 | no run of startups, forced or not, brings the built-in default in |
| AdminPassword.RestartIsIdle | src/another_s3_manager/users.py:195-267 | starting again in the same environment changes nothing |
| AdminPassword.EnvironmentGoverns | src/another_s3_manager/users.py:252-267 | an environment-governed password is always the last one named |
| AdminPassword.SeededPasswordFollowsTheEnvironment | src/another_s3_manager/users.py:44-72 | from the first boot on, the password is the last one any boot named, or the built-in default if none did |
| AdminPassword.FirstNamedPasswordDecides | src/another_s3_manager/users.py:122-130 | a legacy password that is not the default: the first startup that names a password decides for good, and a password it does not name is never overwritten |
| AdminPassword.LegacyDefaultIsGoverned | src/another_s3_manager/users.py:122-124 | a legacy password still on the default passes to the environment |

## Left out

- Building boto3 clients, STS, credential refresh, and the text matching that calls an error "expired".
- The branch of the retry loop for HTTP exceptions: the modelled callbacks do not raise them.
- Routing, middleware, sessions, metrics export and logging; plain counters stay where a promise speaks of them.
- `list_objects_paginated_for_role`: one page of the listing that is modelled in full and in chunks.
- The multi-prefix answer of the summary, its note, and sizes in human units.
- Error classification tables, extension lists and URL lifetimes.
- Role fields that are not strings or lists: the code refuses them before the modelled part.
- Reading ADMIN_PASSWORD_FORCE and other environment values: they are inputs, taken as already parsed.
- JSON values other than string lists are opaque to the configuration migration.
- The three reads of the configuration's freshness check are one step with an open outcome.
- `save_users`, which applies the hash rule of `update_user` to a whole list of users.
- Deleting a user together with the user's tokens; listing tokens; token hashes.
- Strings with lone surrogates in the browser: `encodeURIComponent` throws on them.
- ChunkedListing.Drain: for a search term that ends in a slash the rows are those of the entries S3 lists under it, not told
  from the bucket's objects one by one.
- Listing.ListObjects: works on a bucket held fixed; writes between two pages of one listing are not modelled.
- RetriedOperations.Session.ExecuteWithRetry: other writers to the same bucket during a call are not modelled.
- Multipart, streamed and ranged downloads, copying and presigned URLs.
