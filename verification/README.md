# tsdns, modelled and proved in Dafny

tsdns answers TeamSpeak TSDNS queries from an in-memory index that is rebuilt from a record
repository. This project models its matching, its query protocol, its two storage backends, its
write-through cache under concurrency and its INI import, and proves what they promise.

The files, from the ground up:

- `Text`, `Decimal`, `NetAddr`, `Json`, `Regex`: the parts of Go's `strings`, `strconv`, `net/netip`,
  `encoding/json`, `regexp` and `unicode` packages that the server leans on. A string is a sequence of Unicode scalar values;
  `len` is its number of UTF-8 bytes (`Text.ByteLen`).
- `Glob`, `MatchIndex`, `Patterns`, `ListOrder`: the glob compiler, the index with its lookup, what regular
  expressions mean for it, and when the order of the repository's listing matters.
- `Query`, `Targets`, `Repository`, `Server`: the query parser, the response printer, the abstract
  repository, and the server object that joins them.
- `CacheProtocol`: any number of writers, refreshers and readers of the cache, step by step.
- `RecordCodec`, `RedisStore`, `RedisTables`, `RedisRepository`, `RedisClients`: the Redis backend
  from its string keys up to many interleaved clients.
- `RedisCache`: the cache over Redis, its Find taken read by read among other clients.
- `SqlTable`, `SqlRepository`: the SQL backend as a table of rows.
- `Backends`: both backends run side by side.
- `Ini`, `Importer`: the settings-file parser and the import of its entries.

## What is assumed

Four things are left without a value, as module constants of a non-empty type, so that every theorem
holds for whatever they are: `Regex.ENGINE` (which patterns outside the concrete fragment compile and
what they match), `NetAddr.V6TEXT` (IPv6 text: a printer with an inverse, and a parser that outside a
zone accepts only characters of netip's alphabet), `RecordCodec.TIMETEXT` (time text: a printer with an
inverse) and `SqlRepository.COLLATION` (how the database orders texts: any total preorder).
`NetAddr.SampleCodecValid` and `RecordCodec.SampleTimeValid` prove that the requirements on the two codecs
can be met.

Redis executes a MULTI/EXEC block atomically; a SQL transaction is atomic and `domain = ?` is exact
equality. The order in which SMEMBERS or a SELECT answers, the row an unordered `LIMIT 1` picks, the
clock, and whether a call fails are parameters, so the theorems hold for every choice. A call that
changes a store may fail before it takes effect, or after it, with the answer lost
(`Repository.Fault`).

## Where the code and its description differ

- `$PORT` is described as a placeholder, and the settings-file example in the parser's own test uses
  `12.13.14.15:$PORT`; the importer cannot read a value that holds it, the zone of an IPv6 address aside,
  and aborts (`Importer.DollarPortRejected`, `Importer.DollarPortAbortsImport`). Which values it can read
  is `Importer.ReadValueExact`. Only port 0, or a target without a port, stands for the port of the query.
- The two kinds of star differ: in a compiled glob it takes no newline, in the suffix test of a plain
  wildcard it does. `MatchIndex.SuffixTestAgainstCompiler` says exactly when the two agree; they part on
  the domain `*` and a host with a newline (`MatchIndex.NewlineDivides`).
- An upsert reports success once its own reload has installed, but an older refresh may still install
  over it (`CacheProtocol.OlderRefreshHidesWrite`); `CacheProtocol.WriteVisibleAfterReload` says
  exactly when it cannot.
- `DeleteByInstanceID` over Redis removes the domains it has read, also those whose records have moved to
  another instance since (`RedisClients.DropTakesMovedRecord`), and the index entry it leaves behind can
  cost another instance a record later (`RedisClients.StaleIndexTakesOther`);
  `RedisTables.DropRemovesInstanceExactlyWhen` says exactly when it removes its instance's records only.
- Over Redis, Find need not be a snapshot of the store: with commits on two domains between its reads its
  result can list no version at all (`RedisClients.FindIsNoSnapshot`).
  `RedisClients.ListsVersionExactlyWhen` says exactly which versions it lists, and
  `RedisClients.OneDomainIsHarmless` that commits on one domain, however many, leave it a snapshot;
  `RedisCache` lifts both to what the cache shows (`RedisCache.ShowsVersionExactlyWhen`,
  `RedisCache.OneDomainShowsVersion`).
- With several matching patterns the answer depends on the order of the listing;
  `ListOrder.OrderIndependence` says exactly when it does not.
- The backends part on an upsert that brings its own CreatedAt: Redis keeps it, SQL ignores it
  (`Backends.CreatedAtAgreesExactlyWhen`).

## Model

| member | source | states |
|---|---|---|
| Glob.GlobCompilationPreservesMeaning | core/cache.go:103-111 | for every domain and host, the compiled pattern exists and matches exactly the hosts the glob means: a star any newline-free run, a question mark any one character but a newline, all else itself |
| Glob.CompilerAligned | core/cache.go:103-111 | the two raw replacements over the quoted domain act character by character: each hits exactly the escapes QuoteMeta produced, backslashes included |
| Glob.StarPass | core/cache.go:105-107 | the star pass rewrites the escapes of stars and nothing else |
| Glob.MarkPass | core/cache.go:108 | the question-mark pass, after the star pass, rewrites the escapes of question marks and nothing else |
| Glob.GlobCompiles | core/cache.go:88-95 | compiling a glob never fails, so the error branch for globs is dead |
| Glob.NodesMatch | core/cache.go:103-111 | the parsed pattern, run from any position, accepts exactly what the glob accepts on the rest of the host |
| Glob.LeadingStarGlob | core/cache.go:103-111 | a single leading star accepts a host iff the suffix agrees and what the star takes has no newline |
| MatchIndex.IndexRefinesFlatList | core/cache.go:23-64 | for every list of records, duplicates included, and every host the lookup over the built index is the best match of the flat list |
| MatchIndex.BestMatchUnique | core/handler.go:76-106 | the flat list determines the answer: exact domain, else first matching pattern in list order, else longest matching plain wildcard, else none |
| MatchIndex.SortByLengthStable | core/cache.go:25-28 | the sort is by descending byte length and keeps the order of records of equal length |
| MatchIndex.SortedByBytes | core/cache.go:25-28 | an earlier domain has at least as many UTF-8 bytes as a later one |
| MatchIndex.StableSortUnique | core/cache.go:25-28 | any other stable sort gives the same list, so the sort algorithm does not matter |
| MatchIndex.CompiledMatches | core/cache.go:66-101 | a kept pattern matches a host exactly when the record's domain does under the declarative reading |
| Patterns.SearchIsUnanchored | core/handler.go:85-90 | for every text and host, the quoted text after reg: matches iff it stands somewhere in the host |
| Patterns.CaretTiesTheFront | core/handler.go:85-90 | with a leading ^ iff the host begins with it |
| Patterns.DollarTiesTheBack | core/handler.go:85-90 | with a closing $ iff the host ends with it |
| Patterns.AnchorsTieBoth | core/handler.go:85-90 | with both iff the host is it |
| Patterns.StarredLetter | core/cache.go:66-79 | a starred letter between anchors matches exactly the runs of that letter |
| Patterns.MetaCharacters | core/cache.go:103-111 | which characters QuoteMeta escapes, and that bare metacharacters and escaped letters are not taken for themselves |
| Patterns.EngineDecidesTheRest | core/cache.go:66-79 | any other pattern matches what the regular expression engine says, if that accepts it |
| Patterns.QuotedRecordAnswers | core/handler.go:76-106 | a lone reg: record of a quoted text answers exactly its own domain text and the hosts in which the text stands |
| Patterns.ExactNameWins | core/handler.go:80-83 | a record for the very name wins over every other, the last listed over earlier ones |
| Patterns.PatternBeatsWildcard | core/handler.go:85-103 | a matching regular expression beats a matching wildcard, in either order of listing |
| Patterns.FirstPatternWins | core/handler.go:85-90 | of two matching regular expressions the one listed first wins |
| Patterns.LongerWildcardWins | core/handler.go:92-103 | of two matching wildcards the longer one wins, in either order of listing |
| MatchIndex.ExactMapIsLast | core/cache.go:46-48 | the exact map holds, for each domain, the last record listed with it |
| MatchIndex.RegexesFindFirst | core/handler.go:85-90 | scanning the compiled patterns finds the first listed record whose pattern matches, or none exists |
| MatchIndex.WildcardsFindLongest | core/handler.go:92-103 | scanning the sorted wildcards finds the longest matching wildcard, the first listed among equals |
| MatchIndex.WildcardLengths | core/cache.go:25-28 | two plain wildcards matching one host compare alike in bytes and characters, and are equal when equally long |
| MatchIndex.DomainKinds | core/cache.go:81-101 | a domain without the reg: prefix is a plain wildcard iff it is a star before a text without wildcards, only exact iff it has no wildcard, else an advanced glob |
| MatchIndex.EveryDomainIsAGlob | core/cache.go:41-64 | however such a domain is indexed, on newline-free hosts it answers exactly what its glob matches, besides its own text |
| MatchIndex.SuffixTestAgainstCompiler | core/handler.go:94-102 | for every plain wildcard and host, the compiled glob accepts iff the suffix test does and the starred part has no newline |
| MatchIndex.NewlineDivides | core/handler.go:94-102 | the wildcard * and a host with an inner newline: the suffix test accepts, the compiled glob does not |
| MatchIndex.FastPathAgrees | core/handler.go:94-102 | on newline-free hosts the suffix test and the compiled glob agree |
| ListOrder.OrderIndependence | core/handler.go:80-103 | with distinct domains, every permutation of the listing gives the same answer iff the host has an exact record or at most one pattern matches it |
| ListOrder.BestMatchOfPermutation | core/cache.go:46-61 | under that condition the best match of a list is the best match of each permutation |
| ListOrder.TwoPatternsDepend | core/handler.go:85-90 | two matching patterns and no exact record: some permutation changes the answer |
| Query.ParseQueryCharacterised | core/handler.go:108-139 | on every input a bracketed reading wins, else a plain one, else the trimmed text with port 0, which is given only then; the host is empty only for blank input |
| Query.BracketSplitExact | core/handler.go:114-125 | the bracket branch succeeds exactly on texts of the form [host]:port with a non-empty host without a closing bracket and a 16-bit decimal port |
| Query.ColonSplitExact | core/handler.go:127-136 | the colon branch succeeds exactly on texts of the form host:port with a non-empty host and a 16-bit decimal port |
| Query.ParseQueryOfPlain | core/handler.go:127-136 | host:port parses back iff the host is not itself bracketed: a leading [ whose first ] is its last character, with something between |
| Query.ParseQueryOfBracketed | core/handler.go:114-125 | [host]:port parses back for every non-empty host without a closing bracket |
| Query.LineEndsAreCut | core/handler.go:23-27 | a closing CR LF, and blanks and tabs at either end of a query, change nothing |
| Query.BuildResponse | core/handler.go:141-182 | the loop writes the tokens of all targets in order with one blank between two |
| Query.WriteTarget | core/handler.go:153-178 | one round appends the address, bracketed for IPv6, and the target's port, or the query's port for port 0, or no port |
| Query.ResponseRoundTrip | core/handler.go:141-182 | splitting a response on blanks and reading each token gives back every target in order: as it is if it has a port, else with the query's port if there is one |
| Query.ResponseEmpty | core/handler.go:141-145 | only an empty target list has an empty response |
| Query.TokenReadsBack | core/handler.go:153-178 | a target with a port is told as it is for every query port; port 0 is told as the query's port, or as the bare address when the query has none |
| Targets.BareHostReadsBack | internal/cli/import.go:117-126 | an address printed without a port, bracketed for IPv6, is read as that address with port 0 |
| Targets.PairReadsBack | internal/cli/import.go:117-126 | a printed address-port pair is read as itself |
| Targets.TrimBracketsShape | internal/cli/import.go:123 | the trim cuts brackets and blanks, and only those, from both ends |
| NetAddr.AddrRoundTrip | repository/sql/sql.go:302-306 | parsing undoes printing for every address |
| NetAddr.AddrPortRoundTrip | repository/redis/redis.go:300-318 | parsing undoes printing for every address-port pair |
| NetAddr.AddressTexts | repository/redis/redis.go:234-236 | how addresses and pairs are written, brackets around IPv6 included |
| Decimal.ParseFormatInt64 | repository/redis/redis.go:244 | parsing undoes printing over the whole int64 range |
| Server.Server.constructor | core/server.go:62-84 | a new server has an empty, valid cache |
| Server.Server.TryProcessRegex | core/cache.go:66-79 | handles exactly the reg: domains and keeps the pattern iff it compiles |
| Server.Server.TryProcessAdvancedGlob | core/cache.go:81-101 | handles exactly the advanced globs and keeps their compiled pattern |
| Server.Server.ProcessRecords | core/cache.go:41-64 | the loop yields the exact map, the plain wildcards and the patterns of the whole list, in list order |
| Server.Server.LoadCache | core/cache.go:12-39 | success makes the cache the index of a listing of the repository; a failed Find changes nothing |
| Server.Server.LookupRecord | core/handler.go:76-106 | returns the best match of the flat list the cache was loaded from |
| Server.Server.HandleQuery | core/handler.go:13-39 | blank text is not answered; no match is answered 404 and a miss; a match without targets silence and a hit; any other match a hit and a reply whose fields read as its targets with their ports, or the error metric when the write fails |
| Server.Server.HandleHit | core/handler.go:50-74 | the same of one matched record |
| Server.Server.HandleNotFound | core/handler.go:41-48 | answers 404, and counts a miss even when the write fails |
| Server.Server.Mutate | core/record.go:51-66 | write then reload: a write that fails leaves the cache alone, whether or not the store has changed; a failed reload keeps the old cache; success leaves a cache loaded from exactly the contents written |
| Server.Server.UpsertRecord | core/record.go:50-66 | the same for an upsert; a nil record is refused without effect |
| Server.Server.DeleteRecord | core/record.go:108-120 | the same for a deletion by domain |
| Server.Server.DeleteInstanceRecords | core/record.go:122-134 | the same for a deletion by instance |
| Server.MutationVisible | core/record.go:51-66 | after a successful reload a stored domain is answered with its record, and a deleted one never with its own |
| Repository.MapRepository.Perform | core/record.go:24-31 | one repository call: the abstract operation, or an error before it or after it |
| Repository.MapRepository.Find | core/record.go:24-31 | lists every record once, in any order |
| Repository.ApplyKeeps | core/record.go:24-31 | stored records keep their key and a creation time through every operation, failed calls included |
| Repository.UpsertMeaning | core/record.go:27 | an upsert stores the instance, targets and times of its argument under its domain and leaves every other record, the creation time coming from the argument where it is honoured, else from the stored record, else from the clock |
| Repository.OtherOperationsMeaning | core/record.go:27-29 | a nil record and a blank domain are refused without effect; a deletion takes the domain it names or reports not found; a deletion by instance takes exactly the records of the instance |
| Repository.FaultMeaning | core/record.go:24-31 | a call that fails before its effect changes nothing, one whose answer is lost changes all, both are errors |
| CacheProtocol.SnapshotConsistency | core/cache.go:12-39 | in every state of every run each lookup is the best match over one list of one single past repository version, or over nothing before the first load |
| CacheProtocol.StepKeepsInv | core/cache.go:12-39 | every step of every thread, writes with lost answers included, keeps the cache the index of one version, and versions are only appended |
| CacheProtocol.OnlyInstallChangesAnswers | core/cache.go:14-36 | between any two states of a run every host keeps its answer, or the later answers are those of a refresh installed in between, from its listing of the version it had read |
| CacheProtocol.OwnReloadShowsWrite | core/record.go:56-65 | the reload that belongs to a write shows a version no older than the write |
| CacheProtocol.FreshnessBarrier | core/cache.go:30-34 | every continuation shows a given version or a newer one iff it is shown now and no pending refresh holds an older snapshot |
| CacheProtocol.WriteVisibleAfterReload | core/record.go:51-66 | when a write's own reload installs, the write stays visible forever iff no other pending refresh took its snapshot before it |
| CacheProtocol.OlderRefreshHidesWrite | core/cache.go:115-136 | from every initial state a run exists in which an older refresh installs over a write whose own reload had installed |
| RecordCodec.CodecRoundTrip | repository/redis/redis.go:232-298 | decoding undoes encoding: instance id over the whole int64 range, times, exact ordered target list |
| RecordCodec.EncodeRecordMap | repository/redis/redis.go:232-251 | the loop encodes all targets in order into the four fields |
| RecordCodec.DecodeRecordMap | repository/redis/redis.go:254-298 | computes the decoding of every hash, blank or unreadable fields becoming their zero values |
| RecordCodec.UnreadableIsZero | repository/redis/redis.go:254-298 | each field that is missing or unreadable is zero, the others unaffected |
| RecordCodec.StoredForms | repository/redis/redis.go:300-318 | a stored address without a port reads with port 0, and text that is no address is skipped |
| RecordCodec.ParseTargetStrings | repository/redis/redis.go:300-318 | the loop keeps every readable target in order, an address alone getting port 0 |
| Json.JsonRoundTrip | repository/redis/redis.go:237-245 | the JSON array of any slice of strings reads back, whatever characters they hold |
| Json.QuotedReadsBack | repository/redis/redis.go:281-286 | the decoder finds the end of a quoted string and its value, whatever follows |
| Json.EscapeReadsBack | repository/redis/redis.go:237 | each of the escapes the encoder writes reads back as its character |
| Json.OtherEscapes | repository/redis/redis.go:281-286 | escapes the encoder does not write are read: a slash, hexadecimal digits in either case |
| Json.Surrogates | repository/redis/redis.go:281-286 | two escaped surrogates are one character, a lone one the replacement character |
| Json.BlanksAllowed | repository/redis/redis.go:281-286 | blanks, tabs and line ends around an element and around the array change nothing |
| Json.NullForms | repository/redis/redis.go:281-286 | null reads as no strings, and as an element as the empty string |
| RedisStore.KeysApart | repository/redis/redis.go:219-229 | the domain-set key, record keys and instance keys never collide under one prefix |
| RedisStore.KeyTexts | repository/redis/redis.go:219-229 | the three kinds of keys under the prefix tsdns, letter by letter |
| RedisStore.KeyRecordInjective | repository/redis/redis.go:223-225 | record keys are injective in the domain |
| RedisStore.KeyInstanceInjective | repository/redis/redis.go:227-229 | instance keys are injective in the id, through its decimal printing |
| RedisStore.RunSimulates | repository/redis/redis.go:158-164 | each command on a prefixed key does to the string-keyed store what it does to three separate tables, and never meets a value of the wrong type |
| RedisStore.ExecSimulates | repository/redis/redis.go:203-209 | the same for every batch |
| RedisTables.CreateEffect | repository/redis/redis.go:158-165 | what the create batch does to every hash, the domain set and every instance set |
| RedisTables.DeleteEffect | repository/redis/redis.go:182-186 | what the delete batch does to every hash, the domain set and every instance set |
| RedisTables.DropEffect | repository/redis/redis.go:203-209 | what the drop batch does to every hash, the domain set and every instance set |
| RedisTables.CreateKeeps | repository/redis/redis.go:125-168 | however stale the reads before it, the create batch keeps domain set and hashes in agreement, stores the record, leaves the others and keeps records listed |
| RedisTables.DeleteKeeps | repository/redis/redis.go:171-189 | however stale the read before it, the delete batch keeps the agreement and the listing |
| RedisTables.DropKeeps | repository/redis/redis.go:192-212 | the drop batch keeps the agreement, and keeps records listed iff every record of the instance was among the members read |
| RedisTables.CreateExact | repository/redis/redis.go:133-164 | with exact indexes, an upsert keeps them exact iff the domain is new, keeps its instance, or the instance read before the batch is the stored one |
| RedisTables.DeleteExact | repository/redis/redis.go:172-186 | with exact indexes, a deletion keeps them exact iff the domain is gone already or the instance read before the batch is the stored one |
| RedisTables.DropExact | repository/redis/redis.go:193-209 | with exact indexes, a DeleteByInstanceID keeps them exact iff the domains read are, among the stored ones, those whose record has the instance now |
| RedisTables.CreateContents | repository/redis/redis.go:158-165 | however stale the reads before it, the create batch is one update of the stored map |
| RedisTables.DeleteContents | repository/redis/redis.go:182-186 | however stale the read before it, the delete batch is one removal |
| RedisTables.DropContents | repository/redis/redis.go:203-209 | the drop batch removes the domains read before it, wherever their records have gone |
| RedisTables.DropRemovesInstanceExactlyWhen | repository/redis/redis.go:193-209 | it removes exactly the records of its instance iff the domains read are, among the stored ones, those whose record has that instance now |
| RedisTables.RedisRefines | repository/redis/redis.go:125-212 | every operation run alone keeps the exact instance index and refines the abstract map with the same outcome |
| RedisTables.StampAgrees | repository/redis/redis.go:142-154 | the times Create writes are those of the abstract upsert |
| RedisTables.StampUnread | repository/redis/redis.go:142-154 | when the stored CreatedAt cannot be read they are those of an upsert of a new domain |
| RedisRepository.RedisRepository.constructor | repository/redis/redis.go:42-69 | an empty store stands for the empty map |
| RedisRepository.NewRepository | repository/redis/redis.go:42-69 | refuses a blank address, fails when the ping does, else opens a valid repository under the given prefix, or the default one when that is blank |
| RedisRepository.RedisRepository.ReadExisting | repository/redis/redis.go:133-154 | reads the stored instance id and stamps the record, a failed read counting as nothing stored |
| RedisRepository.RedisRepository.Create | repository/redis/redis.go:125-168 | the abstract upsert on the string-keyed store for every combination of failing reads and a failing EXEC, the stamped argument, and exactly when the instance index stays exact |
| RedisRepository.CreateIndex | repository/redis/redis.go:133-164 | an unread instance id leaves the index exact iff the domain is new, unmoved or in instance 0 |
| RedisRepository.RedisRepository.ExecBatch | repository/redis/redis.go:158-167 | a MULTI block runs whole, or not at all when the call fails before it; a lost answer is an error all the same |
| RedisRepository.RedisRepository.Delete | repository/redis/redis.go:171-189 | removes the record, reports not found exactly when there is none, and passes on errors of the read and of the block |
| RedisRepository.RedisRepository.DeleteByInstanceID | repository/redis/redis.go:192-212 | removes exactly the members read, which with an exact index are the records of the instance; passes on errors of the read and of the block |
| RedisRepository.RedisRepository.FindByDomain | repository/redis/redis.go:112-122 | returns the record of the domain, not found exactly when there is none, or the read error |
| RedisRepository.RedisRepository.Find | repository/redis/redis.go:72-109 | with no other client, lists the contents in the order of SMEMBERS; fails when SMEMBERS fails, or the pipeline does and there is a domain to read |
| RedisClients.DomainSetMatchesRecords | repository/redis/redis.go:125-212 | in every interleaving of any number of clients a domain is in the domain set iff its record hash exists, and each hash is a proper encoding |
| RedisClients.RecordsAreIndexed | repository/redis/redis.go:125-189 | without DeleteByInstanceID commits, in every interleaving each record is listed in the index of its instance |
| RedisClients.DropKeepsListedExactlyWhen | repository/redis/redis.go:192-212 | a DeleteByInstanceID commit keeps that iff no record of the instance appeared after its members were read |
| RedisClients.CommitsAreMapSteps | repository/redis/redis.go:125-212 | in every interleaving each commit is one step on the stored map: an update, a removal, or the removal of the domains read; nothing else changes it |
| RedisClients.DropTakesMovedRecord | repository/redis/redis.go:192-212 | from the empty store, a run in which DeleteByInstanceID deletes a record that moved to another instance, whose index then lists a domain that is not stored |
| RedisClients.StaleIndexTakesOther | repository/redis/redis.go:192-212 | from every state with such an entry, a run without concurrency in which DeleteByInstanceID deletes a record of a third instance |
| RedisClients.FindIsRegular | repository/redis/redis.go:72-109 | in every interleaving each record Find returns was stored at some moment of the call, no domain repeats, and each domain stored throughout is returned |
| RedisClients.ListsVersionExactlyWhen | repository/redis/redis.go:72-109 | the result of a Find lists a version of the store iff every domain of the version was among the members and each member was read as that version has it |
| RedisClients.OneDomainIsHarmless | repository/redis/redis.go:72-109 | when all versions during the call agree outside one domain, the result lists one of them |
| RedisClients.FindIsSnapshotExactlyWhen | repository/redis/redis.go:72-109 | both in every interleaving of any number of clients |
| RedisClients.FindIsNoSnapshot | repository/redis/redis.go:81-106 | from the empty store, a run in which the result of a Find lists the contents of no version the store has ever had |
| RedisClients.StepKeepsInv | repository/redis/redis.go:72-212 | every read and every batch of every client keeps the invariant behind these theorems |
| RedisCache.AnswersAreRegular | core/cache.go:12-39 | over Redis, in every state of every run each lookup is the best match over the result of one finished Find, and an answered record was stored at some moment of that Find |
| RedisCache.SteadyDomainIsAnswered | core/handler.go:76-83 | a domain whose record stayed the same throughout that Find is answered with it, and one that was never stored during it never with a record of its own |
| RedisCache.ShowsVersionExactlyWhen | core/cache.go:12-39 | in every state of every run the cache is the index of a listing of a version iff the Find that is shown read every domain as that version has it |
| RedisCache.OneDomainShowsVersion | core/cache.go:12-39 | when the commits during that Find were all on one domain, the cache shows one version that was current during it |
| RedisCache.FreshnessBarrier | core/cache.go:30-34 | every continuation shows a Find that began at a given version or later iff the one shown, every finished one not yet installed and every pending one did |
| RedisCache.ReloadHoldsExactlyWhen | core/record.go:56-65 | after a reload that began at that version installs, this stays so forever iff no other Find that began earlier may still install |
| RedisCache.FreshAnswers | core/handler.go:76-106 | from then on every answer was stored at that version or later, and a domain that has kept one record since is answered with it |
| RedisCache.StepKeepsInv | core/cache.go:12-39 | every store step, finished Find and install keeps the cache on one finished Find |
| SqlTable.NewRowsExplode | repository/sql/sql.go:242-272 | Create inserts one empty-IP row, or one row per target with priorities 0..n-1, sharing instance and times |
| SqlTable.GroupModels | repository/sql/sql.go:279-315 | the two loops yield one group per domain in order of first rows |
| SqlTable.GroupsInRowOrder | repository/sql/sql.go:288-312 | the first row of an earlier group stands before every row of a later one |
| SqlTable.GroupUndoesExplode | repository/sql/sql.go:302-307 | grouping the rows of a record gives back its targets in order, its instance and its times |
| SqlRepository.CreateRowsPerDomain | repository/sql/sql.go:236-272 | Create leaves exactly the new rows for its domain and the old rows for every other |
| SqlRepository.CreateContents | repository/sql/sql.go:236-272 | replacing the rows of a domain is one update of the stored map, whatever CreatedAt the transaction used |
| SqlRepository.DeleteInstanceRows | repository/sql/sql.go:337-341 | a deletion by instance takes all rows of a record or none |
| SqlRepository.AnyRowWillDo | repository/sql/sql.go:229-234 | whichever row the unordered LIMIT 1 returns carries the record's CreatedAt |
| SqlRepository.SqlRefines | repository/sql/sql.go:217-341 | every operation keeps the row invariant and refines the abstract map with the same outcome |
| SqlRepository.GroupingInvertsExplosion | repository/sql/sql.go:188-197 | for every answer of the ordered SELECT, grouping lists exactly the abstract records, targets in order |
| SqlRepository.GroupsAscend | repository/sql/sql.go:191 | the records are listed in the order of their domains under the collation of the database |
| SqlRepository.ListedId | repository/sql/sql.go:290-297 | a listed record has the id of its row with priority 0 |
| SqlRepository.SelectionPerDomain | repository/sql/sql.go:191 | the priorities fix the order of the rows of each domain |
| SqlRepository.SqlRepository.constructor | repository/sql/sql.go:115-119 | an empty table stands for the empty map |
| SqlRepository.SqlRepository.Create | repository/sql/sql.go:217-276 | the abstract upsert with rollback on an error; when the SELECT of the existing row fails, the upsert of a new domain |
| SqlRepository.SqlRepository.InsertRows | repository/sql/sql.go:242-272 | the loop appends exactly the rows of the record |
| SqlRepository.SqlRepository.Delete | repository/sql/sql.go:318-334 | removes the record, or reports not found exactly when no row was affected, or fails before or after the effect |
| SqlRepository.SqlRepository.DeleteByInstanceID | repository/sql/sql.go:337-341 | removes exactly the records of the instance, or fails before or after the effect |
| SqlRepository.SqlRepository.Find | repository/sql/sql.go:188-197 | lists the contents, ascending by domain and with the ids of the first rows, or fails |
| SqlRepository.SqlRepository.FindByDomain | repository/sql/sql.go:200-214 | returns the record of the domain, not found exactly when there is none, or the error |
| Backends.BackendsAgree | repository/redis/redis.go:112-212 | any common sequence of operations from empty stores gives the same outcomes and, after every step, the same domains, instances, ordered targets and update times, and the same creation times when no upsert brings its own |
| Backends.CreatedAtAgreesExactlyWhen | repository/sql/sql.go:226-234 | the backends agree on an upsert iff its CreatedAt is zero or the one SQL would keep or set |
| Backends.CreatedAtKeptUntilDeletion | repository/redis/redis.go:142-154 | a stored domain keeps its creation time until it is deleted or, where the backend honours one, an upsert of it brings its own |
| Backends.RedisKeepsCreatedAt | repository/redis/redis.go:142-154 | the same of the records in the Redis tables along any sequence of operations |
| Backends.SqlKeepsCreatedAt | repository/sql/sql.go:226-234 | and of the records in the SQL rows, whatever CreatedAt upserts bring |
| Ini.Parse | internal/importer/tsdnsini/parser.go:43-95 | the parse result of all scanned lines, or an error exactly for a nil reader, a reader that breaks, or a line of a megabyte; never a partial result |
| Ini.RawLinesExact | internal/importer/tsdnsini/parser.go:59-61 | on every text the lines hold no newline, and with a newline after each they are the text, or the text with the final newline it lacks |
| Ini.RawLinesOfJoined | internal/importer/tsdnsini/parser.go:59-61 | lines without newlines come back from their text |
| Ini.CarriageReturnsVanish | internal/importer/tsdnsini/parser.go:59-61 | a carriage return at the end of a line changes nothing |
| Ini.ParseLine | internal/importer/tsdnsini/parser.go:61-87 | one round of the loop adds the line's entry, counts it as skipped, or ignores it |
| Ini.ClassifyExact | internal/importer/tsdnsini/parser.go:61-87 | a line is an entry iff, trimmed and no comment, it reads ident = value around its first equals sign with neither side blank; it is ignored iff blank or a comment |
| Ini.ParseUndoesPrint | internal/importer/tsdnsini/parser.go:58-94 | parsing printed entries returns them, numbered from 1, with nothing skipped, with and without a final newline |
| Ini.EveryLineAccounted | internal/importer/tsdnsini/parser.go:60-88 | entries and skipped lines together are the lines that are neither blank nor comments |
| Ini.EntriesInOrder | internal/importer/tsdnsini/parser.go:83-87 | line numbers strictly increase and each entry is how its line reads |
| Ini.NoPairLost | internal/importer/tsdnsini/parser.go:66-87 | every line that reads as a pair has its entry, with its line number |
| Importer.ReadValueLoop | internal/cli/import.go:115-130 | the loop reads all targets of a value, NORESPONSE and blank being none, and stops at the first unreadable token |
| Importer.ImportEntries | internal/cli/import.go:111-144 | the loops compute the import of the entries, failures included |
| Importer.ImportMeaning | internal/cli/import.go:111-144 | a successful import counts every entry and leaves, for each ident, its last entry, and all other records untouched |
| Importer.ImportStores | internal/cli/import.go:111-144 | an imported domain has the instance, the targets of the last entry that names it, the creation time it had before or now, and is updated now; any other domain keeps what it had |
| Importer.ImportSucceedsExactlyWhen | internal/cli/import.go:111-144 | an import succeeds iff every value is blank, NORESPONSE or a list of target texts, no ident is blank and no repository call fails |
| Importer.ImportFailure | internal/cli/import.go:120-139 | a failed import names the failing line and has written exactly the entries before it, and that one only if its call failed after taking effect |
| Importer.ReadValueExact | internal/cli/import.go:116-129 | a value can be read iff it is blank, NORESPONSE, or each of its tokens is a target text |
| Importer.ReadsAsNothingExactly | internal/cli/import.go:115-117 | a value reads as no targets iff it spells NORESPONSE in any case or holds only spaces and commas |
| Importer.NoResponseImported | internal/cli/import.go:115-140 | importing such an entry stores a record without targets |
| Targets.ParseTargetExact | internal/cli/import.go:119-126 | a token is a target iff it is an address-port pair, or an address once brackets and blanks around it are dropped |
| NetAddr.ParseAddrPortExact | internal/cli/import.go:119 | a pair is a dotted IPv4 address or a bracketed IPv6 one, a colon and a 16-bit decimal port |
| NetAddr.ParseAddrExact | internal/cli/import.go:123 | an address is IPv4 iff it is four octets as they print, IPv6 iff a colon comes first among its separators and the IPv6 parser accepts it |
| Importer.ForeignCharacterRejected | internal/cli/import.go:117-126 | a character that no address holds makes a value unreadable wherever it stands outside an IPv6 zone |
| Importer.ValueRoundTrip | internal/cli/import.go:115-130 | a comma-separated list of printed targets reads back in order |
| Importer.DollarPortRejected | internal/cli/import.go:117-126 | a value with a dollar sign, so the $PORT placeholder, in any token and outside an IPv6 zone is unreadable |
| Importer.DollarPortWithoutZone | internal/cli/import.go:117-126 | in particular every value with a dollar sign and no percent sign |
| Importer.DollarPortAbortsImport | internal/cli/import.go:111-144 | an import with such a value anywhere fails |

## Left out

- Sockets, the accept loop, the 512-byte read, listener lifecycle, signals: I/O; a query is a function of its text.
- The ticker of cacheUpdater: a refresh is a thread of CacheProtocol that may start at any time.
- HTTP API, authentication, command line, DSN and configuration parsing: wrappers over libraries.
- Metrics other than the query outcome, logging, durations: no behaviour to prove.
- Regular expressions outside the fragment of literals, escapes, dots, stars on single atoms and the two anchors: left to an arbitrary engine.
- IPv6 text, IPv6 zones, invalid zero addresses and RFC 3339 text: the two codecs stand for them; an address that is read from text with a zone keeps no zone.
- MySQL collations, the Postgres `inet` column (which has no empty address for the NORESPONSE row), and the clock resolution of SQL columns.
- NetAddr.AddrRoundTrip: the IPv6 half rests on the assumed inverse of the IPv6 codec, and zones are left out.
- CacheProtocol.SnapshotConsistency: takes Find as one atomic snapshot, as the SQL backend gives it; over Redis with concurrent writers RedisCache.ShowsVersionExactlyWhen says when that holds, and RedisCache.AnswersAreRegular what holds always.
- RedisRepository.RedisRepository.DeleteByInstanceID: with no members the code sends a lone DEL instead of a MULTI block; the model runs the batch of that one command.
- An instance id outside int64 in the store: not reachable from the operations modelled.
- The in-place stable sort of the wildcard slice is modelled on values; MatchIndex.StableSortUnique shows that its result is the same.
