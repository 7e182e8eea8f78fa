# A model of nostrdb

nostrdb stores nostr notes in LMDB, keeps five sorted indexes beside the note table, plans
and runs filter queries over them, and keeps counters for each note as it writes. This
project models its hard parts in Dafny and proves what they promise.

- `Tables`, `Keys`: an index is a strictly sorted sequence, a cursor a position in it. The
  comparators on packed keys are proved to be that order, and text search keys to unpack.
- `Database`, `NoteStore`: `ndb_write_note` with its deduplication, fresh keys, in-place
  promotion and UNWRAPPED overwrites, over every run of the writer.
- `Merger`, `Filters`, `Query`, `QueryEngine`: the index scanners and their heap, the filter
  matcher, the planner and the time-ordered plans, up to `ndb_query` with one or many filters.
- `MetadataRows`, `Counters`, `Recount`: metadata rows, the counters kept online, and when a
  recount from the tag index agrees with them.
- `Unwrap`, `Queues`, `Delivery`, `Monitors`, `Reports`: ingester threads, the ring buffer,
  the writer's batches and the subscriptions, as atomic steps.
- `Jsmn`, `JsonTrees`: the JSON tokenizer with its stop at the id, and what it makes of
  the texts of RFC 8259.
- `Layout`: the packed note, its builder and its readers. `Commitment`, `CommitmentJson`:
  the text an event's id commits to, and that it is JSON.
- `Blocks`, `ContentScan`, `ContentFinds`, `ContentParser`: the scanners of a note's content,
  what they find there, and the row of blocks stored for it. `Blocks` also holds the
  variable-length integers.
- `Base64`, `Padding`, `Nip44`: the encrypted envelope of NIP-44.
- `Midl`: LMDB's lists of ids. `Basics`: notions that several of these share.

Code that changes state is written as classes and methods with loops; each is tied to a
function of the old state, and the theorems are lemmas about those functions. Numbers are
unbounded, so casts and wraps of the source are written out where they matter; the ones
that are not are listed at the end.

Where a method and a result about it share a function, further lemmas say what it means in
terms of their own: the filter matcher is that of NIP-01, a note counts by its references,
the JSON texts are those of the RFC, the finds of a content are patterns of its bytes.

Where the code and its documentation part ways the model follows the code, and a lemma says
so: `until` is exclusive, where NIP-01 includes it (`Filters.MatcherIsNip01`), kinds of a
filter are read modulo 2^32 (`Filters.KindsAreRead32`), a limit is cast to a 32-bit `int`
(`Filters.LimitCastCutsResults`), markers of NIP-10 are never recognised because only
strings of up to two characters carry the flag that is asked for
(`Counters.MarkersGoUnseen`; when that does no harm: `Counters.MarkersAgreeIff`), the length
of a tag value is cast to a byte before it is indexed, so that a long value is found under a
short one (`TagPlan.LongValueIsStray`; when that does no harm: `TagPlan.TagAnswerIff`), a
recount visits values that merely start with an id (`Recount.OverhangCountsTwice`),
`next_pow2_32` wraps above 2^31 (`Padding.NextPow2IsLeastIff`), an empty plaintext is sealed
but cannot be opened (`Nip44.DecryptEncryptIff`), a time from 2^31 on is committed to with a
minus sign (`Commitment.PrintsAsItselfIff`), a control character without a letter of its own
is committed to as it is, which is no JSON (`CommitmentJson.CommitIsJsonIff`), the rewriting
of a stored note as a rumor takes an UNWRAPPED mark off it (`Database.PromotionClearsMark`),
a block cut off by the end of the buffer goes unnoticed (`ContentParser.CutOffUnnoticed`),
the note of a damus.io link overlaps the text behind it when something else than a path, a
query or a fragment follows the host (`ContentScan.StrayExample`), and an invoice with a
hash that comes last in a row does not read back (`ContentParser.AllBlocksIterateIff`).

## Model

| member | source | states |
|---|---|---|
| Database.EveryRunIsExact | src/nostrdb.c:7090-7171 | over every run of pushes and writes from an empty store, duplicates, promotions and UNWRAPPED overwrites included, note keys are 1..n, ids are unique and the five indexes are exact images of the note table, given that ids commit to bodies |
| Database.KeyByIdExact | src/nostrdb.c:3379-3398 | looking an id up gives the key of the row that holds it, and 0 exactly when none does |
| NoteStore.Store.Write | src/nostrdb.c:7090-7196 | the writer's table updates, made one after the other, come to the write that the runs are about, and so does what it reports and queues |
| Database.QueuedIff | src/nostrdb.c:7047-7088 | the write of a rumor that is not refused as a duplicate queues the row that holds its giftwrap, marked UNWRAPPED and under its own key, if and only if there is such a row and it is not marked yet; no other write queues anything |
| Database.GiftwrapIsMarked | src/nostrdb.c:7047-7134 | when the writer takes a rumor that is no duplicate and its giftwrap is stored, the giftwrap carries the mark once the inbox is drained, whatever else is written |
| Database.PromotionClearsMark | src/nostrdb.c:7101-7128 | but for the giftwrap itself coming again as a rumor not unwrapped, which takes the mark off |
| Database.DupRankIsMemcmp | src/nostrdb.c:3379-3398 | where duplicates are compared byte by byte, note keys are ordered by their ranks, that is by their little-endian bytes |
| Filters.AnyValueMatches | src/nostrdb.c:1258-1332 | a tag field accepts a tag exactly when one of its values, alone in a field, accepts it |
| Filters.OneValueMatches | src/nostrdb.c:1258-1332 | a value alone accepts the tags that start with the field's letter and the value |
| Filters.MatcherIsNip01 | src/nostrdb.c:1406-1513 | the matcher accepts what the filters of NIP-01 do, every field by one of its values, but for notes of exactly the time `until` |
| Filters.KindsAreRead32 | src/nostrdb.c:1428-1433 | kinds of a filter are read modulo 2^32 |
| Answers.AcceptedByOneValue | src/nostrdb.c:1313-1332 | the keys that a filter with many tag values accepts are the union of those its one-value filters accept |
| Answers.AnswerIsUnion | src/nostrdb.c:1313-1332 | so its newest notes are the newest of that union |
| Merger.IndexMerger.Add | src/nostrdb.c:5232-5262 | opening a group adds exactly its entries in the time window to what is owed, and fails exactly when there is no room for another scanner |
| Merger.IndexMerger.Next | src/nostrdb.c:5266-5285 | delivers a newest entry still owed by any group, removes exactly that entry from what is owed, and fails exactly when nothing is owed; the heap stays a heap of the unfinished scanners |
| Query.Drain | src/nostrdb.c:5349-5380 | draining the merger picks, newest first, the newest passing entries that fit the limit, and nothing else |
| Query.AllKinds | src/nostrdb.c:5290-5346 | hopping through the kind index finds exactly the kinds present, each once |
| Query.ExecuteKinds | src/nostrdb.c:5735-5785 | the kinds plan answers with exactly the newest accepted notes, newest first |
| Query.ExecuteAuthorKinds | src/nostrdb.c:5526-5590 | the author and kind plan answers with exactly the newest accepted notes |
| Query.ExecuteAuthors | src/nostrdb.c:4925-5012 | the single-author plan answers with exactly the newest accepted notes |
| Query.ExecuteCreated | src/nostrdb.c:5385-5431 | the plan over all kinds answers with exactly the newest accepted notes |
| TagPlan.ExecuteTags | src/nostrdb.c:5433-5524 | in any store, the tag plan for one value answers with the newest notes that pass the rest of the filter and have a tag filed under the value, ties in time left free; it fails exactly when the value makes no key |
| TagPlan.FiledIff | src/nostrdb.c:6073-6126 | the index files a tag under the wanted value exactly when it matches or is misfiled, and never both: a misfiled tag has that name and equals the value once its length is cast to a byte, but is longer, of the other type, or named by no packed string |
| TagPlan.TakenIff | src/nostrdb.c:5459-5515 | the plan takes the accepted notes and the strays, whose only such tags are misfiled; and nothing when the index cannot hold the value |
| TagPlan.TagAnswerIff | src/nostrdb.c:5489-5515 | its answer is the newest accepted notes if and only if no stray is in it |
| TagPlan.StrayGetsIn | src/nostrdb.c:5489-5515 | a stray is in every answer that has room to spare |
| TagPlan.LongValueIsStray | src/nostrdb.c:6094-6104 | in any store, a note tagged with a value of 257 bytes that starts with "a" is a stray of the filter for "a" |
| QueryEngine.InDomainIff | src/nostrdb.c:5791-5832 | the planner sends to the time-ordered plans exactly the filters without ids, search and relays |
| QueryEngine.PlanIff | src/nostrdb.c:5791-5832 | and to which: few authors with kinds, a lone author, a lone tag value, kinds, in this order |
| QueryEngine.QueryFilter | src/nostrdb.c:5885-5940 | whatever time-ordered plan the planner picks, the answer is the newest notes that plan serves; but for the tag plan it is the list that filtering and sorting the whole table gives |
| QueryEngine.RightAnswerIff | src/nostrdb.c:5885-5940 | such an answer is the newest accepted notes if and only if no stray of the tag plan is in it |
| QueryEngine.UnreachableIff | src/nostrdb.c:5459-5498 | when the index cannot hold the wanted value nothing is served, which is right if and only if nothing is accepted or there is no room |
| QueryEngine.RunQuery | src/nostrdb.c:5985-6008 | one filter: the newest notes served that fit limit and capacity, in descending time; the newest accepted ones if and only if no stray is among them |
| QueryEngine.RunQueryAfterWrites | src/nostrdb.c:5977-6008 | the same in the store that any run of the writer leaves behind, whatever notes it was given |
| QueryEngine.RunQueries | src/nostrdb.c:6010-6071 | several filters: the newest of the multiset union of the filters' own answers, up to the capacity; it fails exactly when there is no filter, or one whose plan does not run |
| QueryEngine.MergedMissesNothing | src/nostrdb.c:6010-6071 | no filter is starved by the others: a note served for one that its own limit does not cut short is left out only when all results are at least as new |
| Filters.LimitIsRespectedIff | src/nostrdb.c:5865-5883 | with a result capacity, the cast of the limit is harmless exactly when the cast value is not positive, is the limit, or reaches the capacity |
| Keys.CompareTagEntries | src/nostrdb.c:541-565 | comparing the packed tag keys of two entries gives their order in the table: group, then time |
| Keys.CompareIdKindEntries | src/nostrdb.c:2865-2890 | comparing packed pubkey and kind keys gives the order of the table, pubkey and kind making the group |
| Keys.CompareKindKeys | src/nostrdb.c:2894-2911 | the kind comparator is the lexicographic order on kind and time |
| Keys.CompareIdKeys | src/nostrdb.c:2913-2932 | the id comparator is the lexicographic order on id and time |
| Keys.CompareRelayKeys | src/nostrdb.c:4045-4091 | the relay comparator is the lexicographic order on relay, kind, time and note key |
| Keys.CompareSearchKeys | src/nostrdb.c:4093-4123 | the profile search comparator is the lexicographic order on name with id, and time |
| Keys.CompareTextKeys | src/nostrdb.c:567-616 | on keys that unpack, the text comparator is the lexicographic order on string, time, note key and word index |
| Keys.FieldsTotal | src/nostrdb.c:525-616 | the order all comparators share is total, and no two keys are below each other |
| Keys.RelayKeyRoundTrip | src/nostrdb.c:1911-1984 | a relay key is made exactly when url and padding fit its buffer, and reads back kind, time, note key and the url, cut by the cast of its length to a byte: the url itself if and only if it is shorter than 256 bytes |
| Keys.UnpackMake | src/nostrdb.c:450-489 | unpacking a text key that was made gives its string in lower case, its word index, and time and note key through 32 signed bits; or nothing, exactly when the buffer cut it off |
| Keys.TextKeyLayout | src/nostrdb.c:450-489 | the key byte by byte: note, length, the string in lower case, time, word |
| Keys.UnpackMakeIff | src/nostrdb.c:618-682 | what was packed comes back exactly when it was lower case and its numbers are signed 32-bit ones |
| MetadataRows.UpsertUpdates | src/metadata.c:307-381 | editing a row is a map update on exactly one key |
| MetadataRows.Builder.CloneWithEntry | src/metadata.c:307-381 | cloning a row with an entry gives the sorted row with a blank entry under the key, or the row itself where the key is there, and says where; it fails exactly for want of room |
| Counters.ParseReply | src/nostrdb.c:2208-2270 | the loop over a note's tags computes root, reply and mention |
| Counters.MarkersGoUnseen | src/nostrdb.c:2230-2262 | no NIP-10 marker is ever recognised: a tag assigns by position, or with a packed fourth element not at all |
| Counters.ReadByPosition | src/nostrdb.c:2208-2270 | where no fourth element is packed, the first reference is the root and the second the reply, whatever the markers |
| Counters.MarkersAgreeIff | src/nostrdb.c:2208-2270 | such a note is read as its markers say if and only if they name the first reference as root and the second as reply |
| Counters.UnmarkedIsRead | src/nostrdb.c:2208-2270 | a note without long markers is read as its markers and positions say |
| Counters.LoneReplyIsTakenForRoot | src/nostrdb.c:2208-2270 | a lone reference marked as the reply is taken for the root |
| Counters.RepliesGoByReference | src/nostrdb.c:2208-2280 | in every note the thread is that of the first heeded reference, and the reply is to the second, or to the only one; heeded are those before the first with a packed fourth element |
| Counters.FirstIdIsFirst | src/nostrdb.c:6792-6814 | the first id tag is the first reference |
| Counters.LastIdIsLast | src/nostrdb.c:2181-2205 | the last id tag is the last reference |
| Counters.BumpGains | src/metadata.c:285-298 | a change adds one to its own counter of a row, wrapping at its width, and moves none of the other five kinds |
| Counters.NoteGains | src/nostrdb.c:7173-7191 | a note adds one to exactly the counters its references count for: first quote, reply and thread, last reaction target by emoji and in total, first repost |
| Counters.EveryCounterCounts | src/nostrdb.c:7173-7191 | after any sequence of notes each of the six counters of an id is the number of notes that count for it there, up to its width |
| Counters.EveryRowIsGood | src/nostrdb.c:7173-7191 | every row that any sequence of notes leads to is sorted with one entry per key, and its total is the sum of its reaction counts |
| MetaTables.MetaTable.Process | src/nostrdb.c:7015-7045 | the counting at the end of a write, made through the scratch buffer, makes exactly the changes of the note; which these are `Counters.NoteGains` says |
| Recount.CountReplies | src/nostrdb.c:2283-2353 | the scan of the tag index counts direct and thread replies, modulo their widths |
| Recount.CountsIffGains | src/nostrdb.c:2283-2428 | what counter and recount count a note for is what its references say |
| Recount.WriteGains | src/nostrdb.c:7173-7191 | one write moves, on the rows, the counters of exactly those ids, by one |
| Recount.KeptAndRecounted | src/nostrdb.c:2283-2428 | after any sequence of first-time writes a counter is the number of stored notes that count for the id, and a recount finds each once per group it has under the id |
| Recount.CountersEqualRecount | src/nostrdb.c:2356-2428 | after any sequence of first-time writes of notes that are counted alike, total reactions, reactions of each kind, direct replies and thread replies of every id equal their recount |
| Recount.AgreeIff | src/nostrdb.c:2283-2428 | for a store of one note, counters and recount agree on every id exactly when the note is counted alike |
| Recount.TagsDecideIff | src/nostrdb.c:2283-2428 | a note is counted alike if and only if it is no long-form reply and its tags have one group under each id it counts for: the id itself and no value overhanging it, or else one such value |
| Recount.PlainNamesDecide | src/nostrdb.c:2300-2330 | where packed names starting with `e` are bare, that is: no longer `e` value starts with the id |
| Recount.OverhangCountsTwice | src/nostrdb.c:2380-2420 | a reaction that also has an `e` value one byte longer than the id counts once and is recounted twice |
| Unwrap.EveryInterleavingIsSafe | src/nostrdb.c:7347-7402 | in every interleaving of ingester threads and the writer, an UNWRAPPED note is stored or queued only behind its rumor |
| Unwrap.PeelKeepsInv | src/nostrdb.c:8302-8335 | peeling a stored giftwrap again, from any snapshot and whether or not it is marked by now, keeps that |
| Queues.ProtQueue.Push | src/protected_queue.h:102-123 | the wrapping ring buffer appends one element, and refuses exactly when it is full |
| Queues.ProtQueue.PushAll | src/protected_queue.h:134-165 | appends all elements in order, or none when they do not all fit |
| Queues.ProtQueue.TryPopAll | src/protected_queue.h:174-194 | takes a prefix, as far as the buffer runs on |
| Queues.ProtQueue.Pop | src/protected_queue.h:233-244 | takes the oldest element |
| Delivery.SubscribersGetTheirNotes | src/nostrdb.c:7827-7873 | over every run, what a live subscriber polled and has waiting is exactly the matching keys reported since, in order, if and only if its inbox never filled |
| Delivery.GroupIsUnion | src/nostrdb.c:1660-1676 | a group of filters accepts what one of them does, and without filters everything |
| Delivery.MatchingIff | src/nostrdb.c:7827-7873 | a key is due exactly when a note was reported under it that some filter of the group matches |
| Delivery.SubscribeSucceedsIff | src/nostrdb.c:11730-11771 | subscribing succeeds exactly while there are fewer than 255 subscriptions, for up to 16 filters, and gives an id that was never used |
| Delivery.UnsubscribedForGood | src/nostrdb.c:11697-11723 | once unsubscribed, an id is never live again and polls nothing |
| Monitors.Monitor.NotifySubscriptions | src/nostrdb.c:7827-7873 | on the slots and their ring buffers, notifying is the step of the runs |
| Monitors.Monitor.Subscribe | src/nostrdb.c:11730-11771 | subscribing takes a free slot with an empty inbox and a new id, or fails, as in the runs |
| Monitors.Monitor.Unsubscribe | src/nostrdb.c:11697-11723 | removing a slot leaves all others as they were |
| Monitors.Monitor.Poll | src/nostrdb.c:11642-11661 | polling takes a prefix of the inbox, empty only when there is nothing to take |
| Reports.BatchReports | src/nostrdb.c:7966-8139 | a writer's batch reports every new row, and only stored notes under their keys |
| Reports.PolledKeysAreStored | src/nostrdb.c:7966-8139 | in every run, whatever a poll hands out names a stored note that matched the subscription |
| Jsmn.StopAndResume | src/jsmn.h:271-473 | stopping at the id and resuming gives the result, tokens and state of one uninterrupted parse |
| Jsmn.StopsIff | src/jsmn.h:271-473 | it stops behind the first string of 64 characters that has an "id" before it, and exactly if there is one |
| Jsmn.Parser.Run | src/jsmn.h:271-473 | the parser object, changing its position, tokens and parents step by step, computes that parse |
| JsonTrees.ParsesPrinted | src/jsmn.h:271-473 | parsing any text of RFC 8259, white space between its tokens included, yields its tokens in pre-order with spans, parents and sizes; a number or literal that is the whole text needs white space behind it |
| JsonTrees.BarePrimitiveIsPartial | src/jsmn.h:138-191 | without that the parser asks for more |
| JsonTrees.StringEndsIff | src/jsmn.h:196-266 | a string ends exactly where a quote stands behind characters and escapes of the RFC, control characters passing as well |
| JsonTrees.NoEscapeIsRefused | src/jsmn.h:226-262 | a backslash before what is no escape there refuses the text |
| JsonTrees.ShortEscapeIsRefused | src/jsmn.h:241-256 | so does "u" with fewer than four hex digits |
| JsonTrees.PrimitiveEndsIff | src/jsmn.h:138-191 | numbers and literals run over printable characters up to white space, comma or closing bracket |
| JsonTrees.StrayCharacterIsRefused | src/jsmn.h:455-459 | a character that begins no token refuses the text |
| JsonTrees.OnlyStringsAreKeys | src/jsmn.h:295-440 | behind an opening brace nothing but a string may stand for a key |
| JsonTrees.WrongBracketIsRefused | src/jsmn.h:312-340 | an array closed by a brace refuses the text |
| JsonTrees.OpenArrayIsPartial | src/jsmn.h:463-470 | an array left open asks for more |
| JsonTrees.ParsedObjectHasTags | src/jsmn.h:271-473 | in the tokens of any parsed object, the tags under one of its keys stand where the walk starts |
| JsonTrees.VisitTags | src/nostrdb.c:10277-10292 | the walk over a tag list's tokens visits each inner array once |
| Layout.Builder.PushTagStr | src/nostrdb.c:11035-11043 | a pushed string is added to the last tag as itself, or as an id where it is one and there is room for one |
| Layout.Builder.PushTagId | src/nostrdb.c:11045-11053 | a pushed id is added to the last tag, exactly when it fits |
| Layout.Builder.ViewEncodes | src/nostrdb.c:11257-11274 | while a note is built, its memory encodes the tags and content pushed so far |
| Layout.Builder.Finalize | src/nostrdb.c:9974-10012 | and so it does once the strings table has moved |
| Layout.StandsIff | src/nostrdb.h:14-15 | the four bytes of a packed string, by the flag in the last: characters in place, or the offset of a C string or an id |
| Layout.ReadTags | src/nostrdb.c:11413-11444 | iterating such a note reads back exactly the pushed tags |
| Commitment.CommitsExactly | src/nostrdb.c:9567-9712 | two events commit to the same text exactly when they read the same: pubkey, time, kind, tags with ids as hex, content |
| CommitmentJson.CommitIsJsonIff | src/nostrdb.c:9567-9712 | that text is the array of NIP-01 as it prints without white space, and JSON if and only if no string has a control character without an escape of one letter |
| CommitmentJson.UnescapeEscape | src/nostrdb.c:9567-9580 | an escaped string reads as the string it was |
| CommitmentJson.EscapedIff | src/nostrdb.c:9567-9580 | exactly the seven characters that NIP-01 names are escaped |
| CommitmentJson.HexReadsBack | src/hex.h:25-41 | the hex of bytes decodes to them, and that of an id is taken for one |
| Commitment.PrintsAsItselfIff | src/nostrdb.c:9678-9712 | a 32-bit number is printed as itself exactly below 2^31 |
| Varints.VarintRoundTrip | src/cursor.h:289-322 | every 64-bit number reads back as it was pushed, wherever it stands |
| Varints.VarintIsLeb128 | src/cursor.h:289-301 | a varint is the shortest spelling of its number in seven bits a byte, lowest first |
| Blocks.ReadableIff | src/nostr_bech32.c:29-253 | a mention reads exactly when its entries, 32 at most, hold the special one and no key or id of the wrong size, or when it has 32 bytes |
| Blocks.BlockRoundTrip | src/block.c:36-121 | a pushed block is pulled back, or stops the iterator exactly when it is a mention with malformed data or a hash invoice with nothing behind it |
| Blocks.IterateDelivers | src/block.c:135-153 | iterating any prefix of an encoding delivers its blocks in order up to the first that is cut off or does not read back |
| Blocks.DeliversAllIff | src/block.c:135-153 | all blocks are delivered exactly when none is cut off and all read back |
| Blocks.StoredBlocksOk | src/nostrdb.c:2740-2774 | accepts exactly the rows whose sizes agree and whose strings lie inside the content |
| ContentScan.Cursor.ConsumeUntilBoundary | src/cursor.h:621-654 | stops at the first boundary or byte that is no UTF-8, going by whole characters |
| ContentScan.Cursor.ParseUrl | src/content_parser.c:378-460 | scheme, host, path and fragment of a url, parentheses, and the note of a damus.io link; the cursor is restored on failure |
| ContentScan.Cursor.ParseHashtag | src/content_parser.c:72-92 | a hashtag up to the next boundary, or the cursor as it was; `ContentFinds.HashtagIff` says what that is |
| ContentScan.Cursor.ParseMentionIndex | src/content_parser.c:41-70 | up to three digits in brackets, or the cursor as it was |
| ContentScan.Cursor.ParseInvoice | src/content_parser.c:462-488 | an invoice up to white space; without one, a "lightning:" stays consumed |
| ContentScan.Cursor.ParseTurn | src/content_parser.c:559-592 | one turn of the loop over the content finds what the scanners find, and moves on; `ContentFinds.TurnIff` says what there is to find |
| ContentFinds.BoundaryEndsWord | src/cursor.h:567-611 | what ends a word: white space, printable ASCII but letters, digits and underscore, and six blocks of Unicode but for two characters |
| ContentFinds.Utf8Iff | src/cursor.h:501-565 | reading a character reads exactly one of UTF-8, longer forms included |
| ContentFinds.HashtagIff | src/content_parser.c:72-92 | a hashtag is found exactly at a "#" with neither white space nor another one behind it, and is the word behind it: whole characters up to the first that ends a word or is no UTF-8 |
| ContentFinds.IndexIff | src/content_parser.c:41-70 | an index mention is found exactly where "#[", one to three digits and "]" stand, and is the number they spell |
| ContentFinds.UrlIff | src/content_parser.c:378-460 | a url is found exactly where scheme, host, path and fragment stand, and ends where white space does, a final point or comma, or what goes on with no part; with the host damus.io the find is the note behind it |
| ContentFinds.NoteIff | src/nostr_bech32.c:256-280 | a bech32 string is read exactly where one of seven prefixes and 59 letters or digits more stand, with the type of its prefix, up to what is neither |
| ContentFinds.MentionIff | src/content_parser.c:491-509 | a mention is found exactly where such a string stands, bare or behind "@", "nostr:" or both |
| ContentFinds.InvoiceIff | src/content_parser.c:462-488 | an invoice is found exactly where "lnbc" and more stand, up to white space, bare or behind "lightning:" |
| ContentFinds.TurnIff | src/content_parser.c:559-592 | a turn finds exactly what there is to find at a place where something may start, and else moves on by one byte, or past a "lightning:" |
| ContentFinds.TextIsTheRest | src/content_parser.c:554-600 | the texts pushed hold exactly the bytes that no find has moved over |
| ContentScan.InOrderIff | src/content_parser.c:524-607 | the spans of all that is found in a content, texts included, come in order and do not overlap, if and only if no damus.io link comes up that has a note behind something else than a path, a query or a fragment |
| ContentScan.StrayOverlaps | src/content_parser.c:410-452 | where such a link comes up, its note and a text overlap |
| ContentScan.StrayExample | src/content_parser.c:410-452 | "http://damus.io:npub" with 60 letters behind it is such a content |
| ContentParser.Parser.PushBlock | src/content_parser.c:212-266 | pushing a find appends its block, or its text where it does not decode or fit, up to the end of the buffer |
| ContentParser.Parser.Parse | src/content_parser.c:554-600 | the loop pushes all the finds of the content, with the text between them |
| ContentParser.ParseContent | src/content_parser.c:524-607 | succeeds exactly when header and padding fit; the row is the encoding of the blocks, cut off where the buffer ends |
| ContentParser.ParsedRowIsStored | src/nostrdb.c:2737-2774 | every row that parsing makes is accepted as a stored row, and iterates to its blocks up to the first cut off or unreadable one |
| ContentParser.AllBlocksIterateIff | src/content_parser.c:524-607 | the iterator gives back every block stored if and only if all fit and all read back |
| ContentParser.EnoughRoom | src/content_parser.c:108-194 | with room enough, parsing succeeds and stores every find as what it decodes to |
| ContentParser.CutOffUnnoticed | src/cursor.h:289-301 | in a buffer for the header alone, parsing "A" succeeds and stores nothing |
| Base64.DecodeEncode | src/base64.c:88-204 | decoding inverts encoding on every byte string |
| Base64.TripletIsRfc4648 | src/base64.c:63-74 | three bytes are encoded by the letters of their 24 bits, six at a time, highest first |
| Base64.TailIsRfc4648 | src/base64.c:76-86 | the last one or two bytes by the letters that hold them, with zero bits and "=" behind |
| Base64.EncodeInto | src/base64.c:88-114 | the encoder writes the encoding and zeros behind it, and fails exactly when it does not fit |
| Base64.DecodeInto | src/base64.c:175-204 | the decoder writes what the letters decode to, and fails exactly when they do not or it does not fit |
| Base64.InitMaps | src/base64.c:47-56 | the decode map inverts the alphabet |
| Padding.NextPow2IsLeastIff | src/nip44.c:167-181 | the bit smearing gives the least power of two exactly up to 2^31, and wraps to 0 beyond |
| Padding.PaddedLenIsSpecIff | src/nip44.c:190-210 | the padded length is that of NIP-44 exactly up to 2^31 |
| Nip44.UnpadPadIff | src/nip44.c:212-252 | unpadding inverts padding exactly on plaintexts that are not empty |
| Nip44.PadLayout | src/nip44.c:561-567 | a padded plaintext is its length, higher byte first, the plaintext, and zeros up to the padded length |
| Nip44.EncryptSucceedsIff | src/nip44.c:533-589 | encryption fails exactly when the sealed bytes and their encoding do not both fit |
| Nip44.DecryptEncryptIff | src/nip44.c:367-382 | decrypting what was encrypted gives the plaintext back exactly when it is not empty |
| Nip44.DecryptedIsAuthentic | src/nip44.c:288-322 | whatever decrypts carries the MAC of its nonce and ciphertext and has the padded size of its plaintext |
| Midl.Search | deps/lmdb/midl.c:34-67 | on any descending list, repeated ids included, finds a match if there is one and the one insertion point otherwise |
| Midl.XMerge | deps/lmdb/midl.c:201-213 | merges two descending lists in place into the descending permutation of both |
| Midl.Sort | deps/lmdb/midl.c:221-279 | sorts in place into a descending permutation, every access in bounds and the stack within its 64 slots |

## Left out

- LMDB itself: tables are ordered sequences, a put of an entry already there changes nothing, and transactions do not fail.
- QueryEngine.RunQuery: filters with a relay field, and the plans for ids, search, profile search, relays and all notes, are outside `InDomain`; so are repeated kinds or authors and more than one tag field.
- QueryEngine.RunQueries: the filters are in that domain too; visitor queries (`ndb_query_visit`) are not modelled.
- Filters.LimitIsRespectedIff: only the branch with a result capacity; without one, for visitors, the limit is not cast.
- TagPlan.ExecuteTags: for one value, which is all that the planner sends, and without a relay field.
- Query.ExecuteKinds: without a relay field; so are the other plans, which with one look at the relays a note was seen on.
- Filter construction, its sorting of elements and the binary search in it are modelled as membership.
- Keys.CompareTextKeys: both keys unpack; the source returns 0 for a key that does not.
- Counters.EveryRowIsGood: zap receipts (kind 9735) are not counted; their counters are entries of their own in the same rows.
- Recount.CountersEqualRecount: first-time writes of plain notes only; a promotion counts again. Quotes, reposts and zaps are not recounted, and the recount has room for its entries.
- MetadataRows.Builder.CloneWithEntry: entries are values, not their 16 packed bytes, the sort is by its contract, and the 16-bit count of entries does not wrap.
- Unwrap.EveryInterleavingIsSafe: decryption is a fixed function, the inbox is never full and commits do not fail; only giftwraps, not the other wrapped kinds, are peeled.
- Delivery.SubscribersGetTheirNotes: a filter with a relay field matches nothing, as where the source is built without assertions; each critical section is one step; waiting, wake-ups and shutdown are not modelled.
- Queues.ProtQueue.Pop: once it has stopped waiting.
- Jsmn.Parser.Run: strict mode with parent links and a token array; counting without one is left out.
- JsonTrees.ParsesPrinted: texts of RFC 8259; what else the tokenizer lets pass, numbers and literals spelled wrong or commas too many, is said of single tokens only.
- JsonTrees.VisitTags: the walk over tokens; turning a whole JSON note into a packed one is left out, as is unescaping.
- Layout.Builder.PushTagStr: fewer than 65536 elements to a tag, which the source does not check.
- Commitment.CommitsExactly: with room for the text.
- Filters.MatcherIsNip01: for filters without custom functions and relays, kinds within 32 bits, and names of tags that are C strings.
- ContentFinds.Utf8Iff: longer forms than needed and surrogates pass, as they do in the code.
- Blocks.BlockRoundTrip: what a readable mention decodes to beyond its bytes is not modelled, and a size that runs past the row is taken to be unreadable.
- ContentParser.ParseContent: bech32 and bolt11 decoding are parameters; the header's counts of words and blocks are left out, and a block that falls back to text is counted twice there.
- Nip44.DecryptEncryptIff: cipher, MAC and key expansion are parameters; XOR with a stream is its own inverse.
- Padding.PaddedLenIsSpecIff: shifts and masks are arithmetic on bits of 32-bit words.
- Midl.Sort: fewer than 2^30 ids, so that the middle of two C ints does not overflow; the other list kinds of that file are left out.
- Profile records, full-text search and its ranking, migrations, relay indexes, the verification of signatures, the command line and the platform layers.
