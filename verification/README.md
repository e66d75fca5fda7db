# Switchgear: a verified model of discovery, balancing, offers and codecs

Switchgear balances LNURL invoice requests over Lightning nodes. This project models its core as state machines and
proves what that core is for:

* **Discovery stores** — a versioned set of backends kept in memory (`MemoryDiscovery`) or in SQL (`DbDiscovery`). The
  first serves as specification of the second (`DiscoveryRefinement`). The REST handler over the REST client
  (`HttpLayer`) can be stacked on either store to any depth (`HttpTowers`).
* **The cache in front of a store** — `ServiceDiscovery` remembers the last etag and a projection of the rows.
  `Coherence` interleaves store mutations with the two-query conditional read and shows that every answer is the
  projection of one version that was current during the call.
* **The balancer** — `Balancer` is the retry loop with its one-shot capacity bias; `ClientPool` the two maps it rests on;
  `SystemRun` puts store edits, discover calls, health checks and any number of invoice calls, each stepping through
  that loop, into one machine.
* **The offer store** — `MemoryOffers` with two maps; `OfferConcurrency` the same operations under any number of
  threads, one lock, check, write or unlock at a time; `DbOffers` the SQL upserts.
* **Codecs** — `EtagCodec` (base 16, section 8 of RFC 4648), `Base64` (section 4 of RFC 4648) and `LnUrlMetadata` (the
  metadata array of LUD-06).

`Types`, `DiscoveryApi` and `Listing` hold what the others share. Objects that the program changes in place are classes
here, each method proved against a function of the old state (`Step`, `Apply`, `After`, `Discovered`); the theorems are about
those functions. `dafny verify dfyconfig.toml` checks everything.

## Assumptions

* A public key is a number ordered as its bytes are, and so is a UUID; times are integers, in nanoseconds, and each
  operation is given its clock reading.
* `ServiceDiscovery.Separate`: no two records get one identity, that is, key hashing does not collide for the records
  concerned, and identities with equal hashes are equally enabled. It is a precondition wherever it matters.
* Whether a client can be built for a backend is a fixed predicate of its record.
* SQL statements succeed, or the transaction they are in aborts and leaves the tables as they were; one commit is one
  step. The etag column is signed and 64 bits wide; a transaction that would take it out of range aborts.
* The database rounds timestamps by a monotone function that commutes with adding one second (`DbDiscovery.Rounding`).
* A store lives once: the in-memory etag starts at 0 and fewer than 2^64 mutations happen to it. What goes wrong when
  the counter does wrap is shown by `Coherence.WrappedEtagMisleads`.
* `discover` calls on one service do not overlap each other. Store mutations may land anywhere, also inside a call.
* Calls of the in-memory offer store are not cancelled while they wait for a mutex.
* The load balancer offers the selector only backends it was given by earlier discover calls.
* Printing a JSON value that was printed before gives the same bytes (`HttpLayer.Stable`). A parser that does not read
  back every floating-point number as it was printed can fail this, so records with such numbers are not claimed for.
* Whether a client can be built does not depend on how an implementation is printed (`HttpTowers.PrintingBlind`).
* The backoff grants finitely many waits. A balancer backend is identified by address and weight, not by the partitions
  it carries.

## Where the code differs from what one would expect

Each of these is a lemma; the theorem beside it holds under the exact condition that shuts the difference out.

* SQL `put` over an existing backend keeps the old partitions, the map store takes the new ones
  (`DiscoveryRefinement.PutLeavesPartitions`).
* SQL weights pass through a signed 32-bit column: exactly the weights below 2^31 and the top 2^31 of the 64-bit range
  survive (`DbDiscovery.WeightSurvives`, `DiscoveryRefinement.WeightWraps`).
* Rounding timestamps can reorder a listing; it does exactly when it merges two creation times whose keys stand the other
  way round (`DiscoveryRefinement.ListingsAgreeExactly`; `RoundingReorders` is an instance).
* SQL `put` reads "created" off two timestamps. That is right exactly when the row was not created at the very stamp the
  update gives, one second ahead of the put's clock reading (`DbDiscovery.PutFlagExact`). Serial calls on a clock that
  never steps back are always right (`PutFlagInOrder`); a clock that steps back by that second makes the answer wrong
  (`PutFlagNeedsClock`). Concurrent calls need no such step: each reads the clock before its transaction begins, and in a
  database that keeps coarse timestamps two puts can both answer "created" (`PutOvertaken`).
* For offers and their metadata the upsert and the select are separate statements as well, and other writes can land in
  between (`DbOffers.PutFlagDisturbed`, `PutOvertaken`). `PutFlagExactly` says when the answer is right for any writes and
  any readings at all. Apart from readings that coincide as above it is right exactly when the writes in between leave
  the row created, or updated, as the put left it (`PutFlagApart`).
* A patch that clears a backend's name is lost by one HTTP layer, which answers that it was applied
  (`HttpTowers.ClearingNameIsLost`).
* An HTTP layer keeps Downstream errors for all requests but the listing, whose error responses carry no etag header and
  so become Upstream (`HttpLayer.TowerCollapses`).
* In-memory `put` of an existing offer sets its creation time anew and so moves it in the listing, to the end when the
  others are older (`MemoryOffers.PutMovesByClock`); the SQL stores and the in-memory discovery store keep the time.
* The in-memory offer store takes its two mutexes in one order for getting, posting and putting offers and in the other
  for deleting metadata. Integrity is safe, but two such calls can block each other and then all others for good
  (`OfferConcurrency.EmbraceIsReachable`, `EmbraceIsForever`). Nothing else can stop the store (`StuckExactly`): it goes
  on as long as no deletion of metadata is in flight together with a get, post or put of an offer
  (`NoCrossingNoStandstill`), and any such pair can stop it (`CrossingExactly`).

## Model

| member | source | states |
|---|---|---|
| Listing.SortIsCanonical | components/src/offer/memory.rs:84-88 | however the map is enumerated, sorting by (created, id) gives one and the same listing, which shows each record once and in order |
| Listing.ListingIsUnique | components/src/discovery/memory.rs:50-56 | a set of records has exactly one listing in (created, key) order |
| Listing.PagesTile | components/src/offer/memory.rs:90-95 | for every page size above 0, pages read one after the other until one is empty concatenate to the whole listing |
| Listing.RetimingExactly | components/src/discovery/db.rs:175-177 | listing by coarser timestamps keeps the order of ids if and only if the coarsening merges no two times whose ids are inverted |
| Listing.ReplaceKeepsPlaces | components/src/discovery/memory.rs:94-98 | replacing a record by one with its creation time and key changes its place in the listing and no other |
| Listing.RemoveKeepsOrder | components/src/discovery/memory.rs:125-132 | removing a record cuts its place out of the listing and leaves the rest as it was |
| MemoryDiscovery.MemoryDiscoveryBackendStore.GetAll | components/src/discovery/memory.rs:48-72 | not modified exactly when the caller's etag is current, else the listing, which holds each stored backend and nothing else |
| MemoryDiscovery.MemoryDiscoveryBackendStore.Post | components/src/discovery/memory.rs:74-89 | new state and answer of creating: an existing key changes nothing, not even the etag |
| MemoryDiscovery.MemoryDiscoveryBackendStore.Put | components/src/discovery/memory.rs:91-101 | new state and answer of replacing: an existing record keeps its creation time, and the answer is whether the key is new |
| MemoryDiscovery.MemoryDiscoveryBackendStore.Patch | components/src/discovery/memory.rs:103-123 | the field-by-field update gives the record with the present fields replaced; a missing key changes nothing |
| MemoryDiscovery.MemoryDiscoveryBackendStore.Delete | components/src/discovery/memory.rs:125-132 | the key is gone, and the etag moves only if it was there |
| MemoryDiscovery.SortedListing | components/src/discovery/memory.rs:48-56 | collecting the map in arbitrary order and sorting gives the unique listing |
| MemoryDiscovery.ReadAfterWrite | components/src/discovery/memory.rs:43-132 | what every request leaves to be read at every key: a put as it was given, a post only where nothing was, a patch field by field with null distinct from absent, a deletion nothing, all else as before |
| MemoryDiscovery.AnswersTell | components/src/discovery/memory.rs:43-132 | each answer in terms of what was there to be read; a conditional listing is left out exactly when its etag is current |
| MemoryDiscovery.ListsWhatIsRead | components/src/discovery/memory.rs:43-72 | a listing holds a backend if and only if asking for its key finds that backend |
| MemoryDiscovery.EtagTracksContent | components/src/discovery/memory.rs:74-132 | content never changes under an unchanged etag, and a request writes no record but its own |
| MemoryDiscovery.UpdateKeepsPlaces | components/src/discovery/memory.rs:91-123 | put over an existing key and patch change the listing at that record's place only |
| MemoryDiscovery.DeleteKeepsOrder | components/src/discovery/memory.rs:125-132 | delete takes one place out of the listing and keeps the order of the rest |
| MemoryDiscovery.CreateKeepsOrder | components/src/discovery/memory.rs:74-101 | a created record enters at one place and the old listing is what remains around it |
| DbDiscovery.DbDiscoveryBackendStore.GetAll | components/src/discovery/db.rs:155-197 | the two queries with nothing between them give the etag and the ordered rows of one state |
| DbDiscovery.DbDiscoveryBackendStore.Post | components/src/discovery/db.rs:199-267 | new rows, etag and answer of the insert transaction, with a duplicate key and an aborted transaction leaving all as it was |
| DbDiscovery.DbDiscoveryBackendStore.Put | components/src/discovery/db.rs:269-383 | new rows, etag and answer of the upsert transaction: four columns and a stamp one second ahead on conflict, the answer read off the two stamps |
| DbDiscovery.DbDiscoveryBackendStore.Patch | components/src/discovery/db.rs:385-462 | new rows, etag and answer of the update transaction |
| DbDiscovery.DbDiscoveryBackendStore.Delete | components/src/discovery/db.rs:464-522 | new rows, etag and answer of the delete transaction |
| DbDiscovery.WeightSurvives | components/src/discovery/db.rs:205 | a weight comes back from the column as it went in if and only if it is below 2^31 or in the top 2^31 of the 64-bit range (the way back is line 125) |
| DbDiscovery.ReadAfterWrite | components/src/discovery/db.rs:137-522 | what every request leaves to be read at every key: as the map store has it, but with weights narrowed to the column, the old partitions after a put over an old record, and nothing changed by a request that failed |
| DbDiscovery.AnswersTell | components/src/discovery/db.rs:137-522 | a write fails if and only if it has something to do and the etag column is at its limit; the other answers in terms of what was there to be read |
| DbDiscovery.EtagTracksRows | components/src/discovery/db.rs:199-522 | rows never change under an unchanged etag, and a request writes no row but its own |
| DbDiscovery.PutFlagCondition | components/src/discovery/db.rs:381-382 | in any state whatever, put's answer is "the key was absent" if and only if it was, or the row's creation stamp is not the clock plus one second |
| DbDiscovery.PutFlagExact | components/src/discovery/db.rs:269-383 | after any requests from migration on, whatever their clock readings and whatever the rounding, put answers "the key was absent" rightly if and only if the key is new or the reading that created its row is not stored as this put's reading a second on |
| DbDiscovery.PutFlagInOrder | components/src/discovery/db.rs:269-383 | in particular it is right after any requests none of which had read the clock later |
| DbDiscovery.PutOvertaken | components/src/discovery/db.rs:270-285 | with whole seconds stored, a put that read 10.501 s commits first, then one of the same key that read 10.499 s, and both answer that they created the record |
| DbDiscovery.PutFlagNeedsClock | components/src/discovery/db.rs:270-283 | with a clock that steps back one second, put calls an existing record new |
| DiscoveryRefinement.ListingsAgreeExactly | components/src/discovery/db.rs:175-191 | SQL and map listings of the same records agree if and only if rounding merges no inverted pair |
| DiscoveryRefinement.RoundingReorders | components/src/discovery/db.rs:175-177 | with timestamps kept to the microsecond, two backends created within one are listed by the map store in the order of creation and by the SQL store by key |
| DiscoveryRefinement.StepAgreesExactly | components/src/discovery/db.rs:199-522 | one forward-simulation step at any clock reading: from corresponding states the two stores give equal answers and corresponding states if and only if the request is agreeable (fitting weight, unchanged partitions on put, a creation not stored one second ahead of the put, uninverted listing) |
| DiscoveryRefinement.RunsAgree | components/src/discovery/db.rs:155-522 | from corresponding states, any agreeable sequence of requests, at any clock readings, gets equal answers, etags and listings from both stores |
| DiscoveryRefinement.DbRefinesMemory | components/src/discovery/memory.rs:43-132 | the same from creation on |
| DiscoveryRefinement.DbRefinesMemoryInOrder | components/src/discovery/memory.rs:43-132 | where clock readings are in the order of the requests, fitting weights, unchanged partitions and uninverted listings are enough |
| DiscoveryRefinement.PutLeavesPartitions | components/src/discovery/db.rs:291-299 | put with other partitions: the map store returns them, the SQL store the old ones |
| DiscoveryRefinement.WeightWraps | components/src/discovery/db.rs:125 | weight 2^31 comes back as 2^64 - 2^31 |
| ClientPool.LnClientPool.Connect | components/src/pool/client_pool.rs:102-121 | a client enters the pool only if it could be built, and metrics stay grounded in clients |
| ClientPool.LnClientPool.GetMetrics | components/src/pool/client_pool.rs:89-100 | metrics are cached under the key exactly when they were fetched through its client; metrics stay grounded in clients |
| ClientPool.LnClientPool.GetInvoice | components/src/pool/client_pool.rs:64-87 | a key with cached metrics never misses its client |
| ClientPool.LnClientPool.GetCachedMetrics | components/src/pool/client_pool.rs:123-128 | the metrics last fetched, which prove that there is a client |
| ServiceDiscovery.LnServiceDiscovery.Discover | pingora/src/discovery.rs:42-103 | a failed provider leaves state and pool alone; not modified returns the cache and no flags; rows become exactly the partition-and-connect projection and its flags, cached under the answer's etag; the pool gains the clients of the published backends and no others |
| ServiceDiscovery.DiscoveredExactly | pingora/src/discovery.rs:58-102 | given rows, a call returns, of exactly the records that share a partition with the service and connect, the hashed address of the key, the record's own weight and its own partitions; the flags are under the hashes of those and hold what is stored; the pool gains those keys; the answer's etag is kept |
| ServiceDiscovery.DiscoveredOtherwise | pingora/src/discovery.rs:44-54 | told that nothing changed a call returns what it holds and no flags, and an error as it is; neither changes anything |
| ServiceDiscovery.ProjectionExactly | pingora/src/discovery.rs:60-84 | the same of every set of records the coherence results speak of |
| ServiceDiscovery.InjectiveSeparates | pingora/src/discovery.rs:73-79 | injective hashing of keys and of identities separates any records with distinct keys |
| ServiceDiscovery.Enablement | pingora/src/discovery.rs:93-97 | the flag map has an entry for each published backend and no other, with the stored flag |
| ServiceDiscovery.EnablementIsUnique | pingora/src/discovery.rs:58-97 | flags with those keys and stored values are determined, whatever order the loop takes |
| Coherence.ReadsMatchStores | components/src/discovery/db.rs:155-197 | the read used in the interleavings is what the two stores themselves return |
| Coherence.MutationExtends | components/src/discovery/db.rs:212-231 | every mutation of either store extends its version history: etags never fall, and equal etags mean equal states |
| Coherence.NotModifiedIsTrue | components/src/discovery/db.rs:156-174 | an etag read at one version and rows at a later one: whoever is later told "not modified" for that etag holds exactly the rows, in order, that the store then has |
| Coherence.EtagMustBeReadFirst | components/src/discovery/db.rs:156-180 | reading rows before the etag would let a caller keep stale rows for good |
| Coherence.WrappedEtagMisleads | pingora/src/discovery.rs:31 | 2^64 mutations of a new in-memory store wrap its etag to 0, and a fresh service then takes the filled store for an empty one |
| Coherence.CacheCoherence | pingora/src/discovery.rs:42-103 | over every interleaving of mutations with serialised calls, with the store at hand or records re-printed on their way, each successful call returns exactly the projection of a version current during that call as it reaches the service, leaves the consumer with exactly that version's flags, and versions never go back |
| Coherence.ExactlyTheRecords | pingora/src/discovery.rs:58-102 | being exact for a version, record by record: exactly the records that share a partition and connect are published, each with its address, its own weight and its own partitions, and its flag is as stored |
| Coherence.QuietCallCatchesUp | pingora/src/discovery.rs:42-56 | after any such interleaving, one undisturbed call brings cache and flags up to the current version, if its records can be sent |
| Coherence.ListingDelivers | components/src/discovery/http.rs:206-220 | a listing reaches the service if and only if each record can be sent, and holds the records as sent |
| Balancer.SelectsFirst | pingora/src/balance.rs:128-163 | the backend selected is that of the first candidate within the limit that is healthy, carries the partition, has cached metrics and, under a bias, has amount <= inbound * (1 + bias); there is none exactly if no candidate within the limit is so |
| Balancer.GetInvoice | pingora/src/balance.rs:200-264 | the loop ends, at the first attempt that succeeds, fails Downstream or finds the backoff spent; it returns that attempt's own result, and selections, calls and waits are exactly those of the attempts up to it, in order |
| Balancer.EndsExactly | pingora/src/balance.rs:221-251 | an attempt ends the call if and only if no backoff is left for another, or it chose a backend and the pool answered with an invoice or a Downstream error; finding no node is retried |
| Balancer.FinishedExactly | pingora/src/balance.rs:209-264 | on result and trace: every earlier attempt chose nothing or heard another error, the last one ended the call, the result is the pool's own answer or that there is no node, and it is the last event |
| Balancer.TraceIsGenuine | pingora/src/balance.rs:209-264 | in the trace of any number of attempts, the n-th selection is what `Select` makes of the n-th candidates, limit and the bias it names, each pool call goes to the backend selected just before it and has the n-th answer, and a wait comes only after a call or an unbiased selection that found nothing |
| Balancer.FinishedOnce | pingora/src/balance.rs:200-264 | what the balancer meets determines its result, its last attempt and all it does |
| Balancer.TakeFollows | pingora/src/balance.rs:210-218 | in any environment, a selection takes the loop from where the attempt-by-attempt definition has it to where that has it next |
| Balancer.HearFollows | pingora/src/balance.rs:220-262 | so does a pool reply |
| Balancer.TraceCounts | pingora/src/balance.rs:209-264 | k waits go with k + 1 attempts, at most k + 1 pool calls (one per attempt that selects), k + 1 selections, and one more exactly when the biased pass found nothing |
| Balancer.NothingAfterTheEnd | pingora/src/balance.rs:230-235 | only a retryable reply is ever followed by anything, and the bias is used in no selection but the first |
| Balancer.BiasThenFallback | pingora/src/balance.rs:210-218 | the first pool call goes to the first suitable backend of the biased pass, with room for the amount, or exactly if that pass has none to the first of the unbiased pass, before any wait |
| SystemRun.WinnerIsSelected | pingora/src/balance.rs:138-162 | the candidate the machine picks is the one `Balancer.Select` returns, and it is acceptable |
| SystemRun.SelectionSafety | pingora/src/balance.rs:138-229 | in every run, each backend handed to the pool had been chosen by that thread while healthy, of the offer's partition, with room for the amount under any bias, and with metrics fetched earlier under the same key through a client connected before; "client not found" never happens |
| SystemRun.InvoicesAreGetInvoice | pingora/src/balance.rs:200-264 | in every run of the whole system, an ended invoice call of any thread has the result, last attempt and trace that `Balancer.GetInvoice` has for the candidates and replies met there, and no pool call in any trace, nor any result, is "client not found" |
| SystemRun.ChoicesComeFromTheStore | pingora/src/balance.rs:138-158 | each backend ever chosen goes back to a record the store held during an earlier discover call, with that record's address, weight and partitions, among them the offer's and one of the service's, and one a client could be built for |
| SystemRun.DiscoveryIsDiscover | pingora/src/discovery.rs:42-103 | each discovery step of the machine either leaves memory and pool alone or changes them, and answers, as a whole call of the service does for a conditional read of that store |
| SystemRun.ChooseTakesFirst | pingora/src/balance.rs:138-162 | a selection takes the first backend offered that is healthy, of the partition, with known metrics and room, if there is one within the limit |
| SystemRun.AskReachesNode | pingora/src/balance.rs:165-185 | a pool call of a chosen backend is answered with exactly what the node says |
| HttpLayer.WireIsThrough | components/src/discovery/http.rs:158-331 | what the handler makes of the client's request is the request itself with implementation bytes re-printed and a null name dropped; it is not sent exactly when its implementation is not JSON |
| HttpLayer.WireIsSeen | service/src/discovery/handler.rs:16-168 | what the client makes of the handler's response is the store's answer with implementation bytes re-printed and errors re-attributed |
| HttpLayer.RequestsOnTheWire | components/src/discovery/http.rs:131-331 | which method and path each request takes, and that exactly a conditional listing carries an etag |
| HttpLayer.StatusesOnTheWire | service/src/discovery/handler.rs:16-168 | the status of each answer: 200, 201, 204, 304, 404, 409, and for errors 400, 502 and 500 by their source |
| HttpLayer.StatusesHeard | components/src/discovery/http.rs:105-330 | what a client makes of every status there is: those it knows are answers, other 400s are Downstream, all else Upstream, and so is a listing without a readable etag |
| HttpLayer.TowerCollapses | service-api/src/service.rs:24-32 | over any store, every number of layers from one up does the same to states and answers: Downstream stays Downstream except for the listing, all other errors become Upstream, and more layers change nothing more |
| HttpLayer.TransparentExactly | service-api/src/discovery.rs:75-114 | a request reaches the store unaltered if and only if its implementation prints as it is and it does not patch the name to null |
| HttpTowers.LayersActExactly | components/src/discovery/http.rs:128-331 | over any state of either store, any number of layers acts as the store, up to the printing of implementations, if and only if a posted or put implementation is JSON and a patch does not clear a name there is |
| HttpTowers.TowerFollowsRun | service/src/discovery/handler.rs:16-168 | over whole runs of such requests, whatever the formatting of implementations, any tower over either store answers what the bare store answers as seen after printing, 304 included |
| HttpTowers.LayersAreTheStoreExactly | service-api/src/discovery.rs:75-114 | over a store whose implementations print as they are, layers are the store to the last byte if and only if the request stores nothing that prints otherwise, sends JSON, and clears no name there is |
| HttpTowers.TowerIsTransparent | README.md:605 | over whole runs of such requests, no number of layers over either store can be told from the store |
| HttpTowers.LayersDeliver | components/src/discovery/http.rs:158-230 | what reaches a discovery service through any number of layers, wherever mutations land between the two queries beneath them, is the re-printed conditional read, or an Upstream error if a record cannot be printed |
| HttpTowers.CoherenceBehindLayers | README.md:605 | over every run, a discovery service behind any number of layers gets exactly the projection and flags of the store's own records, as of a version current during the call, and versions never go back |
| HttpTowers.ClearingNameIsLost | service-api/src/discovery.rs:107-108 | through any positive number of layers, patching a name to null leaves the name and is answered as done |
| EtagCodec.HexRoundTrip | service-api/src/discovery.rs:50-52 | two digits a byte, and decoding gives the bytes back |
| EtagCodec.HexDecodeExactly | service-api/src/discovery.rs:40 | accepted are exactly the even-length strings of hexadecimal digits, and printing again gives their lower case |
| EtagCodec.EtagRoundTrip | service-api/src/discovery.rs:38-53 | every 64-bit etag is printed in sixteen characters and read back as itself |
| EtagCodec.EtagIsNumeral | service-api/src/discovery.rs:50-52 | the string is the etag in base 16, most significant digit first, in sixteen digits |
| EtagCodec.EtagAcceptsExactly | service-api/src/discovery.rs:39-48 | a header is accepted if and only if it is sixteen hexadecimal digits, and its etag prints as its lower case |
| Base64.EncodeDecode | service-api/src/lnurl.rs:56-60 | decoding an encoding gives the bytes back |
| Base64.SymbolsAreTheAlphabet | service-api/src/lnurl.rs:56-60 | the characters are those of section 4 of RFC 4648, in their order |
| Base64.GroupIsNumeral | service-api/src/lnurl.rs:56-60 | three bytes as one number are the four characters as digits in base 64, most significant first |
| Base64.LastIsNumeral | service-api/src/lnurl.rs:56-60 | one or two bytes left over are filled up with zeros, and padded |
| Base64.DecodeEncode | service-api/src/lnurl.rs:117-123 | a string is accepted only if it is the canonical encoding of what it decodes to |
| LnUrlMetadata.Serialize | service-api/src/lnurl.rs:25-83 | the announced length is the number of elements written, and the elements are the slots present, in order |
| LnUrlMetadata.PrintsTypes | service-api/src/lnurl.rs:164-169 | exactly which entries are printed, under the type names of LUD-06, text first |
| LnUrlMetadata.Deserialize | service-api/src/lnurl.rs:99-157 | the loop over four variables computes: first unreadable entry decides the error, last entry of a slot decides its value, text is required |
| LnUrlMetadata.ReadsTypes | service-api/src/lnurl.rs:108-142 | which slot each type name of LUD-06 sets, and to what |
| LnUrlMetadata.DropRedundant | service-api/src/lnurl.rs:108-144 | an entry of unknown type, or one whose slot is set again later, can be taken out anywhere; PNG and JPEG share a slot, and so do both identifiers |
| LnUrlMetadata.BadSpoils | service-api/src/lnurl.rs:116-139 | one unreadable entry makes the whole array an error, even if a later entry would have replaced it |
| LnUrlMetadata.RoundTrip | service-api/src/lnurl.rs:25-162 | parsing what is printed gives the metadata back if and only if its identifier, if any, is a bare address |
| MemoryOffers.MemoryOfferStore.GetOffer | components/src/offer/memory.rs:46-69 | the offer, with its metadata attached when asked for |
| MemoryOffers.MemoryOfferStore.GetOffers | components/src/offer/memory.rs:71-98 | the asked-for page of the partition's unique listing |
| MemoryOffers.MemoryOfferStore.PostOffer | components/src/offer/memory.rs:100-125 | new state and answer; missing metadata is a Downstream error, an existing offer stays; integrity is kept |
| MemoryOffers.MemoryOfferStore.PutOffer | components/src/offer/memory.rs:127-151 | new state and answer, with a fresh creation time also for an existing offer; integrity is kept |
| MemoryOffers.MemoryOfferStore.DeleteOffer | components/src/offer/memory.rs:153-156 | the offer is gone, the answer is whether it was there; integrity is kept |
| MemoryOffers.MemoryOfferStore.GetAllMetadata | components/src/offer/memory.rs:174-201 | the asked-for page of the partition's unique listing |
| MemoryOffers.MemoryOfferStore.PostMetadata | components/src/offer/memory.rs:203-217 | new state and answer; integrity is kept |
| MemoryOffers.MemoryOfferStore.PutMetadata | components/src/offer/memory.rs:219-231 | new state and answer; integrity is kept |
| MemoryOffers.MemoryOfferStore.DeleteMetadata | components/src/offer/memory.rs:233-251 | the scan finds a referring offer if and only if there is one, and then refuses; else the metadata is gone; integrity is kept |
| MemoryOffers.SortedPage | components/src/offer/memory.rs:77-95 | filtering, sorting and cutting gives the page of the unique listing, whatever order the map is walked in |
| MemoryOffers.ApplyKeepsIntegrity | components/src/offer/memory.rs:100-251 | no operation leaves an offer without its metadata or a record under a foreign key |
| MemoryOffers.ReadAfterWrite | components/src/offer/memory.rs:46-157 | in terms of the read operation: an accepted put or post is read back, a deletion leaves nothing to read, no other key and no other operation changes what is read |
| MemoryOffers.ReadMetadataAfterWrite | components/src/offer/memory.rs:163-251 | the same of metadata |
| MemoryOffers.OfferWritesStamp | components/src/offer/memory.rs:113-156 | from reply to contents: which replies mean that the record was stored with the clock reading, and all other records keep their times |
| MemoryOffers.MetadataWritesStamp | components/src/offer/memory.rs:203-251 | the same of metadata |
| MemoryOffers.GetOfferExactly | components/src/offer/memory.rs:46-69 | where integrity holds, an offer is found exactly if one is stored, as stored by default and when asked for sparsely, and with its own metadata's details attached exactly when asked for in full |
| MemoryOffers.RepliesTell | components/src/offer/memory.rs:100-251 | each reply of a write, in terms of what was there to be read: missing metadata and metadata in use are refused, and the flags and ids say whether the key was there |
| MemoryOffers.OfferPagesExactly | components/src/offer/memory.rs:71-98 | a page is `count` offers of the partition's listing from `start` on, or what there is |
| MemoryOffers.MetadataPagesExactly | components/src/offer/memory.rs:174-201 | the same of metadata |
| MemoryOffers.PutMovesByClock | components/src/offer/memory.rs:141-149 | an accepted put, also over an existing offer, leaves the listing of the other offers with this one inserted where the clock reading belongs; it shows last if and only if all others come before that reading |
| MemoryOffers.PagesShowAll | components/src/offer/memory.rs:71-98 | for every page size above 0, the pages show every record of the partition once and no more, oldest first |
| OfferConcurrency.OneWriter | components/src/offer/memory.rs:101-102 | between check and write of an operation that uses both maps, no other thread is about to write |
| OfferConcurrency.Linearizable | components/src/offer/memory.rs:46-251 | in every interleaving of any number of threads: integrity holds, the maps are those of the logged operations done one by one, each reply is the one of that sequential order, and each caller was told its own replies |
| OfferConcurrency.UndisturbedCall | components/src/offer/memory.rs:46-251 | a call started with no lock held and left alone comes to its end, has the effect and gives the reply of the operation in one piece, and gives its locks back |
| OfferConcurrency.RealTimeOrder | components/src/offer/memory.rs:46-251 | a call answered before another was invoked stands before it in that sequential order |
| OfferConcurrency.AlwaysServable | components/src/offer/memory.rs:46-69 | in every reachable state, full retrieval succeeds exactly when sparse retrieval does and differs only in the attached metadata |
| OfferConcurrency.LocksCover | components/src/offer/memory.rs:46-251 | an operation neither reads nor writes a map whose lock it does not take |
| OfferConcurrency.StuckExactly | components/src/offer/memory.rs:234-235 | in a reachable state with threads in it, all of them wait if and only if two hold one lock each and want the other's |
| OfferConcurrency.NoCrossingNoStandstill | components/src/offer/memory.rs:53-54 | as long as no deletion of metadata is in flight together with a get, post or put of an offer, some call can go on |
| OfferConcurrency.CrossingExactly | components/src/offer/memory.rs:234-235 | from a reachable state with no lock held, the calls in flight can come to stand still, with no further call, if and only if such a pair is among them |
| OfferConcurrency.EmbraceIsForever | components/src/offer/memory.rs:101-102 | from such a state no step of any thread leads out, and nobody is answered any more |
| OfferConcurrency.EmbraceIsReachable | components/src/offer/memory.rs:128-129 | it is reached from the empty store by one put of an offer and one deletion of metadata |
| DbOffers.DbOfferStore.GetOffer | components/src/offer/db.rs:66-113 | an offer is found exactly when its row exists, with its stored columns; metadata is attached exactly when asked for |
| DbOffers.GetReadsLastWrites | components/src/offer/db.rs:66-113 | after any writes, asking for an offer gives the one last put or posted that took effect, with its times at database precision; with the details last written of its metadata exactly when asked for in full, and then they are always there |
| DbOffers.WriteLeaves | components/src/offer/db.rs:226-241 | what one statement leaves in every row of offers and of metadata: an accepted put or effective post its own values, on conflict too, a deletion that is not refused nothing, and anything else what was there |
| DbOffers.DbOfferStore.PutOffer | components/src/offer/db.rs:210-316 | new tables and answer of the upsert and the select with nothing between them; a violated foreign key is a Downstream error |
| DbOffers.DbOfferStore.PutMetadata | components/src/offer/db.rs:464-545 | new tables and answer of the upsert and the select with nothing between them; what the tables hold is stated by `GetReadsLastWrites` |
| DbOffers.ColumnsRoundTrip | components/src/offer/db.rs:214-221 | an offer comes back from its columns as stored, all 64-bit amounts included, if and only if its own times are at database precision |
| DbOffers.AfterKeepsForeignKey | migration/src/m20250724_182058_create_table.rs:99-110 | no statement leaves an offer row without its metadata row |
| DbOffers.PutFlagExactly | components/src/offer/db.rs:210-316 | in any state, with any writes between upsert and select and any clock readings, a put of an offer answers what its own write and those in between make of the row, and is right if and only if they leave a row that was there with differing stamps or one that was not with equal stamps; the same of a put of metadata (lines 464-545) |
| DbOffers.SerialPutFlag | components/src/offer/db.rs:464-545 | with nothing in between, a put of metadata, or of an offer, is right if and only if the row is new or was not created at the stamp an update now gives |
| DbOffers.PutFlagApart | components/src/offer/db.rs:210-316 | after any writes and with any in between, in any order of readings: if no reading, a second on, is stored as an earlier write's reading, either put is right if and only if the writes in between leave the row as the put left it, created or updated |
| DbOffers.PutFlagInOrder | components/src/offer/db.rs:464-545 | the same wherever statements are carried out in the order of their readings |
| DbOffers.PutFlagsExact | components/src/offer/db.rs:314-315 | the foreign key holds after any writes; and where statements are carried out in the order of their clock readings, an undisturbed put of an offer or of metadata is right |
| DbOffers.PutOvertaken | components/src/offer/db.rs:211-243 | with whole seconds stored, a put that read 10.501 s creates an offer, then one that read 10.499 s updates it, and both answer that they created it |
| DbOffers.PutFlagBetween | components/src/offer/db.rs:226-293 | with no clock to rely on, other writes between upsert and select do no harm if none is to the same offer |
| DbOffers.PutFlagDisturbed | components/src/offer/db.rs:281-312 | a second put of the same new offer in between makes both answer false; a deletion in between makes the carried-out put fail |

## Left out

- Coherence.CacheCoherence: does not cover `discover` calls that overlap each other on one service, because the etag and the cache are separate writes there.
- Coherence.QuietCallCatchesUp: does not say that a quiet call ever comes; the schedule that makes calls belongs to the load-balancer library.
- Balancer.GetInvoice: does not model a backoff without limit, with which the loop need not end.
- Balancer.SelectsFirst: does not model the iteration order of the load-balancer library nor the logarithm of the random selector's limit; candidates and limit are arbitrary, so it is not claimed that all backends are tried. Capacity is compared in reals, without rounding.
- SystemRun.SelectionSafety: does not model the library's own update of its backend set and health flags; which of the backends it was ever given it offers, and as how healthy, is arbitrary.
- OfferConcurrency.Linearizable: does not model fairness of the mutexes, nor calls dropped while they wait.
- DbDiscovery.DbDiscoveryBackendStore.GetAll: does not interleave anything between its two queries; that is done by `GetAllAcross` and `Coherence`.
- DbOffers.DbOfferStore.PutOffer: does not interleave anything between its two statements; `PutFlagExactly` does.
- Failing statements of a transaction that is still committed, for example an upsert that fails while the etag update after it succeeds.
- Malformed rows: stored public keys or metadata that cannot be read back.
- The post, delete and listing methods of the SQL offer store as methods; its writes are the cases of `DbOffers.After`. Which of two violated constraints a database reports is left open.
- The offer store over HTTP, and the handlers of offers and metadata.
- Network failures, requests cut off half way, authentication, TLS and health probes of the REST client; JSON text and HTTP framing are taken as faithful carriers apart from the three things listed above (null names, re-printed implementations, missing etag headers).
- Error messages; an error is its source.
- Poisoned mutexes and the memory ordering of the in-memory store's atomic etag, which is only touched under the store's lock.
- The e-mail grammar and the reading of a JSON string pair: parameters of `LnUrlMetadata`. SHA-256 of the metadata and bech32.
- gRPC node clients, invoices' descriptions, configuration, dependency injection, command line, logging and QR codes.
