# Verified models of SpoofDPI-Turkiye

SpoofDPI-Turkiye is a local proxy. Most of it moves bytes and parses flags, but four parts of it
are algorithms or protocols whose correctness is not visible in any one function. This project
models those parts in Dafny and proves what they promise.

1. **Destination ordering** (RFC 6724): the address types, the policy table, the ten-rule
   comparator, and the stable sort over four parallel slices.
   Files `netaddr.dfy`, `policy.dfy`, `lexorder.dfy`, `selection.dfy`, `ordering.dfy`, `sorter.dfy`.
2. **The coalescing cache**: a step system with any number of callers, a mutex, a clock and an
   arbitrary inner resolver, and beside it the cache object with its maps and slices.
   Files `cachekey.dfy`, `cacheprotocol.dfy`, `cachetheorems.dfy`, `cacherate.dfy`, `cache.dfy`.
3. **The two fan-out/fan-in protocols**: the race of all resolvers, and one exchange per query
   type. Files `workers.dfy`, `fanin.dfy`, `chain.dfy`.
4. **The tunnel**: header block, TLS record, chunked ClientHello, the two copy loops of the pipe,
   and the request rewriting `Tidy`.
   Files `streams.dfy`, `httpheader.dfy`, `headerblock.dfy`, `tls.dfy`, `tunnel.dfy`, `pipe.dfy`,
   `http.dfy`, `tidylines.dfy`.

`options.dfy` and `collections.dfy` hold an optional type and facts about sequences. The whole
project is checked with `dafny verify dfyconfig.toml`.

## Form

Code that works in place is modelled in place: the sorter is a class over four arrays, the cache a
class with its two maps, readers and connections are objects, and a loop of the original is a loop,
but for the read-only search of the policy table, which is a recursive function. Goroutines are step
systems: a state, a step relation that lets the environment choose the interleaving, results, failures
and cancellation, an invariant that every step keeps, and theorems about every state of every run. `NeverStuck` and `StepsAreFinite` together say that a system ends:
until it has ended one of its own goroutines can move, and each such move lowers a measure.

What the environment decides is a parameter or a nondeterministic choice: the source information of
a destination (`srcAddrs`), the responses of name servers, what the inner resolver returns, how many
bytes a read or write moves and whether it fails, the clock, the map iteration order of eviction,
and the connection that a dial produced. Times are integers, and the clock never runs backwards.

Library routines are modelled where the properties need them: `sort.Stable` as insertion by
exchanges of neighbours (`StableSortIsUnique` says that every stable algorithm gives the same
result), the `netip` predicates as of Go 1.22.4 (they look at the unmapped address; `go.mod` asks for a
later Go), `strings.Index` and `strings.Split`, `slices.Chunk`, `io.ReadFull` and `ReadString`.

## Findings

- **Rule 9 depends on the policy table.** The comparator applies the longest-prefix rule only to
  two IPv6 destinations (dns/addrselect/addrselect.go:296). This alone would make it no ordering:
  `SeparationIsNeeded` gives a table and three destinations for which ties are not transitive. It is a
  strict weak order for every table that tells the families apart by precedence, and the table in the
  program does, because precedence 35 belongs to the IPv4 addresses and to no other.
- **Comment and code of `commonPrefixLen` disagree.** The comment (dns/addrselect/addrselect.go:434)
  promises that an IPv4 address in 16-byte form is compared as IPv4, for either argument, and that
  different IP versions give 0. The code converts the second argument only. `UnmappedComparisonIff` says
  exactly when the result is nevertheless the promised one. Two inputs for which it is not: a source in
  mapped form and the same IPv4 address as destination (`MappedSourceNeverCompared`, 0 in place of 32),
  and the source ::ffff:1.2.3.4 with the destination ::1 (`MappedSourceAgainstIPv6`, 64 in place of 0).
  Rule 9 asks for IPv6 destinations only, so the second kind is the one that could reach it. The model
  follows the code. The program unmaps the sources it finds itself.
- **Cache keys are not injective in general** (`KeysCanCollide`). `KeysCollideIff` says exactly when two
  queries share a key; the program's own queries, which all ask for the same number of types, never do.
- **`Tidy` loses header lines that end in a bare LF.** The reading loop ends a line at LF (packet/http.go:65),
  `Tidy` at CRLF (packet/http.go:123). After "GET / HTTP/1.1", LF, "Host: a", LF, LF nothing is left
  but the new request line (`BareLfLosesHost`). `TidyKeepsTheOtherLines` gives the exact condition for
  every block: a bare LF does harm between a line that is to go and one that is to stay, where the
  request line counts as one that goes, and at the blank line unless the last line goes with it. Without
  bare LFs all is well (`TidyIsRightWithoutBareLf`).
- **`Tidy` is not idempotent on every input.** It is exactly when three things hold (`TidyIdempotentIff`): the
  rebuilt request line does not start with Proxy-Connection; the block has CRLFCRLF or does not end with
  CRLF; and the request line brings no header lines of its own that are kept or, if it has an empty line in
  it, exactly those that are kept of the block. The first condition fails for the method
  Proxy-Connection, a valid token (`DroppedRequestLineSpoils`; `Tidy` comes before the check of the method,
  proxy/proxy.go:118-125); the second one for a block that ends with a bare LF and CRLF
  (`BareLfBeforeEndSpoils`, `EndsProperlyIff`); the third one because the path was percent-decoded and may
  hold CR LF (`CrlfInPathSpoils`).
- **The leader of a lookup and its waiters share a slice.** The leader returns the slice of the inner
  resolver itself, and the waiters copy from that same slice (dns/resolver/cache.go:98, 116). If the
  leader's caller writes to it before a waiter has copied, the waiter is handed what was written, which the
  inner resolver never returned (`LeaderOverwritesForWaiter`); a waiter gets what was published exactly when
  that is an error or the slice is untouched (`WaiterReads`). The step system has such writes, too, and its
  theorems say what they can do. What is filed in the cache is a copy, so hits are safe from all callers.
  The program's own callers do not write to the slices they get.
- **The rank of the address that is dialled depends on the race.** One resolver's lookup always gives a
  head of the same rank (`RankingIgnoresInterleaving`). The race of several resolvers does so if and only if
  the heads of all their answers have equal rank (`HeadRankIsFixedIff`, `HeadRankCanDiffer`).
- **An empty answer without errors** makes `processResults` and the race return no address and a nil error.
  This happens exactly when nothing failed and nothing has an address (`FanIn.NothingFoundIff`,
  `Chain.NothingFoundIff`).
- CHANGELOG.md says that `cacheKey` avoids the final copy of its buffer; the code makes it. It also
  says, in one entry, that the system resolver joins the race; a later entry and the code
  (dns/dns.go:64-70) say that it does not. Neither matters for what is proved here.

## Model

| member | source | states |
|---|---|---|
| NetAddr.UnmapMappedForm | dns/addrselect/addrselect.go:440 | the 16-byte form of an IPv4 address is recognised as IPv4 by both address types, and each gives the 4 bytes back |
| AddrBits.LeadingZeros8 | dns/addrselect/addrselect.go:460 | every bit before the result is clear, and the bit at the result, if there is one, is set |
| AddrBits.LeadingZerosOfXor | dns/addrselect/addrselect.go:453-460 | the leading zeros of the xor of two different octets count the leading bits on which they agree |
| AddrBits.CountAgreement | dns/addrselect/addrselect.go:452-463 | the counting loop finds the length of the longest common bit prefix |
| AddrBits.CommonPrefixLen | dns/addrselect/addrselect.go:439-464 | octet by octet it computes the number defined bit by bit, for any two addresses, also of different lengths |
| AddrBits.PrefixLenIsGreatest | dns/addrselect/addrselect.go:429-464 | for any two addresses the result is the greatest k, up to 64 for IPv6 and 32 for IPv4, such that the first k bits agree; 0 for different lengths |
| AddrBits.PrefixLenInBits | dns/addrselect/addrselect.go:439-464 | the same on the bytes of the addresses: the greatest k up to 32 for 4 bytes and up to 64 for 16, and a mapped destination counts as its 4 bytes |
| AddrBits.PrefixLenSymmetric | dns/addrselect/addrselect.go:429-464 | within one family the two addresses can be exchanged |
| AddrBits.PrefixLenUltrametric | dns/addrselect/addrselect.go:429-464 | within one family, cpl(a, c) is at least the smaller one of cpl(a, b) and cpl(b, c) |
| AddrBits.UnmappedComparisonIff | dns/addrselect/addrselect.go:429-464 | for any two addresses the result is that for the unmapped source, as the comment promises, if and only if the source is not mapped, the destination is no address, or the first bits differ (of the IPv4 addresses, or of the 16-byte forms for an IPv6 destination) |
| AddrBits.MappedSourceNeverCompared | dns/addrselect/addrselect.go:434-446 | against the comment: a source in mapped form gives 0 with every IPv4 destination, even with itself |
| AddrBits.MappedSourceAgainstIPv6 | dns/addrselect/addrselect.go:434-451 | against the comment: a mapped source and an IPv6 destination, which rule 9 may compare, give 64 in place of 0 |
| Policy.LookupFindsFirst | dns/addrselect/addrselect.go:392-397 | the search answers with the first entry that contains the address, and with the zero entry exactly when none does |
| Policy.LookupIsLongestMatch | dns/addrselect/addrselect.go:384-397 | in every table sorted by decreasing prefix length the answer is a longest match |
| Policy.TableOrdered | dns/addrselect/addrselect.go:322-382 | the program's table meets the demand in the comment on Classify |
| Policy.EqualLengthsAreDisjoint | dns/addrselect/addrselect.go:324-382 | no address lies in two of its prefixes of the same length |
| Policy.ClassifyIsTheLongestMatch | dns/addrselect/addrselect.go:324-398 | every valid address gets an entry that contains it, and each other entry that contains it is strictly shorter |
| Policy.Precedence35IsIPv4 | dns/addrselect/addrselect.go:331-337 | precedence 35 belongs to exactly the addresses that have an IPv4 form, for byte slices of every length |
| Policy.SiteLocalScopeIsTableEntry | dns/addrselect/addrselect.go:412-427 | for non-multicast addresses the scope rule says site-local exactly when the table answers with fec0::/10 |
| Policy.ClassifyIsPolicyOf | dns/addrselect/addrselect.go:322-398 | every address gets the precedence and label that RFC 6724 section 2.1 gives for its leading bytes |
| Policy.ScopeOfIPv4 | dns/addrselect/addrselect.go:412-427 | link-local for 127.0.0.0/8 and 169.254.0.0/16, else global |
| Policy.ScopeOfIPv6 | dns/addrselect/addrselect.go:412-427 | link-local for ::1 and fe80::/10, the scope nibble for multicast, site-local for fec0::/10, else global |
| Policy.MappedFormIsClassifiedAlike | dns/addrselect/addrselect.go:387-427 | writing an IPv4 address in 16 bytes changes neither table entry nor scope, for every table |
| LexOrder.LexTransitive | dns/addrselect/addrselect.go:182-312 | the order on keys is transitive |
| LexOrder.LexTotal | dns/addrselect/addrselect.go:182-312 | two different keys of one length are always ordered |
| LexOrder.LexLessIff | dns/addrselect/addrselect.go:182-312 | the first component in which two keys differ decides, the smaller one being less |
| Selection.RealTableSeparates | dns/addrselect/addrselect.go:324-382 | the program's table never gives an IPv4 and an IPv6 destination the same precedence |
| Selection.LessIsLexOrder | dns/addrselect/addrselect.go:182-312 | under every separating table the ladder of ten rules is the lexicographic comparison of one nine-part key, computed from each destination alone |
| Selection.KeyParts | dns/addrselect/addrselect.go:27-47 | what each part of the key says of the destination and source record: scope match, deprecated, home, label match, precedence, native, scope, prefix length |
| Selection.UnreachableKey | dns/addrselect/addrselect.go:195-207 | the key of an unreachable destination is all zeros, and no other key is |
| Selection.RulesInOrder | dns/addrselect/addrselect.go:182-312 | of two destinations alike in all earlier respects the one that is ahead in the next respect is better |
| Selection.DeprecatedSourceLoses | dns/addrselect/addrselect.go:220-229 | a concrete pair decided by rule 3 |
| Selection.LadderIsLexOrder | dns/addrselect/addrselect.go:182-312 | the same for arbitrary attributes, provided that destinations of different families differ in precedence |
| Selection.LessIsStrictWeakOrder | dns/addrselect/addrselect.go:182-312 | irreflexive, transitive, and ties are transitive, for every separating table |
| Selection.TiedMeansSameKey | dns/addrselect/addrselect.go:308-311 | rule 10 is reached exactly for equal keys |
| Selection.ReachableFirst | dns/addrselect/addrselect.go:195-207 | in a sorted list no reachable destination stands behind an unreachable one |
| Selection.SeparationIsNeeded | dns/addrselect/addrselect.go:287-306 | with the one-entry table ::/0 two IPv6 destinations of different prefix length both tie with an IPv4 one, so the comparator is no weak order |
| Selection.RewritingKeepsPreference | dns/addrselect/addrselect.go:150-160 | a destination in 16-byte mapped form has the attributes and the key of its 4-byte form |
| Selection.RewritingKeepsLess | dns/addrselect/addrselect.go:182-312 | no comparison changes when either side is rewritten so |
| Selection.WrittenFormKeepsSortedOrder | dns/addrselect/addrselect.go:27-47 | whichever IPv4 destinations are rewritten, the sorted arrangements are the same but for the written form |
| Selection.RewritingKeepsSortedOrder | dns/addrselect/addrselect.go:27-47 | rewriting all IPv4 destinations commutes with sorting |
| Ordering.AdjacentSwapKeepsTies | dns/addrselect/addrselect.go:41-46 | exchanging two neighbours that are out of order never reorders tied elements |
| Ordering.SameTiesIsPermutation | dns/addrselect/addrselect.go:41-46 | a list with the same tied runs has the same elements |
| Ordering.StableSortIsUnique | dns/addrselect/addrselect.go:41-46 | under a strict weak order there is one stable sorted arrangement, whatever algorithm makes it |
| Ordering.SameTiesKeepOrder | dns/addrselect/addrselect.go:41-46 | what stable means: the outcome takes each element from one place of the input, and of two tied ones the one that came first comes first |
| Ordering.StableSortExists | dns/addrselect/addrselect.go:41-46 | and there always is one |
| Ordering.SortedArrangementsRankAlike | dns/addrselect/addrselect.go:41-46 | two sorted arrangements of the same elements have tied elements at every place |
| Sorter.ByRFC6724.Less | dns/addrselect/addrselect.go:182-312 | read from the stored attributes, it is the order on (destination, source) rows |
| Sorter.ByRFC6724.Swap | dns/addrselect/addrselect.go:171-176 | all four slices exchange the two rows, so attributes still belong to their addresses |
| Sorter.ByRFC6724.Stable | dns/addrselect/addrselect.go:41-46 | the rows end up sorted, tied rows in their old order |
| Sorter.ByRFC6724.Insert | dns/addrselect/addrselect.go:41-46 | one more row sinks to its place and passes no row tied with it |
| Sorter.NewByRFC6724 | dns/addrselect/addrselect.go:31-46 | every attribute is that of the address at its index; the three flags of a source are those of its record |
| Sorter.SortByRFC6724WithSrcs | dns/addrselect/addrselect.go:27-47 | addresses and sources move together into the stable sorted arrangement by the program's table; the panic on unequal lengths is the precondition |
| Sorter.SortByRFC6724 | dns/addrselect/addrselect.go:20-25 | the slice becomes the stable selection of its old contents, and a permutation of them, also for fewer than two addresses |
| Sorter.SelectionIsPermutation | dns/addrselect/addrselect.go:20-25 | sorting loses and invents no address |
| Sorter.SelectionIsUnique | dns/addrselect/addrselect.go:20-25 | sorting has one outcome, and sorting again changes nothing |
| Sorter.RanksIgnoreArrivalOrder | dns/addrselect/addrselect.go:20-25 | the same addresses in two orders come out with equal preference ranks at every place |
| WorkerPool.SendNeverBlocks | dns/resolver/chain.go:49-65 | what is buffered and received never exceeds the buffer size, so a worker that wants to send has room |
| WorkerPool.AllSentLog | dns/resolver/resolver.go:57-79 | once every worker has sent, what was sent is a permutation of all results |
| FanIn.ParseAddrsFromMsg | dns/resolver/resolver.go:37-51 | the addresses of all A and AAAA records in order, nothing else; none for a nil message; said by the places of these records in the message |
| FanIn.ProcessResults | dns/resolver/resolver.go:97-128 | for every series of selects the loop stops at the first that is no result and returns the sorted addresses of all results before it, the joined errors, or the context's error, whichever the branches prescribe; addresses if and only if a result before the stop has an A or AAAA record |
| FanIn.SortAddrs | dns/resolver/resolver.go:53-55 | the sorted copy is the stable selection |
| FanIn.InvRun | dns/resolver/resolver.go:57-128 | in every state of every run the consumer holds exactly the addresses and errors of what it received, and what was sent is each sender's result once |
| FanIn.NoSendAfterClose | dns/resolver/resolver.go:73-76 | in every run nothing is sent on the closed channel, it is closed at most once, and only after all producers ended |
| FanIn.NothingLost | dns/resolver/resolver.go:57-128 | an uncancelled lookup returns a permutation of all records of all successful responses or, if there are none, the errors of all failed ones; these are, by their places, exactly the A and AAAA records and the failed exchanges |
| FanIn.CancelledAnswerIsPartial | dns/resolver/resolver.go:118-126 | a cancelled answer is a permutation of the records of some of the responses, each taken once |
| FanIn.RankingIgnoresInterleaving | dns/resolver/resolver.go:57-128 | two uncancelled runs of one resolver's lookup with the same responses give equally long answers with equal preference ranks at every place, the head included |
| FanIn.NothingFoundIff | dns/resolver/resolver.go:103-106 | an uncancelled lookup returns neither address nor error if and only if no exchange failed and no answer has an address record |
| FanIn.StepsAreFinite | dns/resolver/resolver.go:57-128 | every step but a cancellation lowers a measure |
| FanIn.CancellationIsPrompt | dns/resolver/resolver.go:57-122 | a lookup can be given up at any moment, and then the consumer returns with one more step what it has received, sorted, or the context's error, and no producer has to wait |
| FanIn.NeverStuck | dns/resolver/resolver.go:57-128 | until producers, closer and consumer have ended, one of them can move, with or without cancellation |
| Chain.Resolve | dns/resolver/chain.go:67-81 | for every series of selects the loop returns the first non-empty answer, all errors if there is none, or the context's error; with no resolvers its own error |
| Chain.InvRun | dns/resolver/chain.go:41-82 | in every state of every run the consumer's errors are those of what it received, none of it was an answer, and a result is dropped only after a cancellation |
| Chain.WorkersNeverBlock | dns/resolver/chain.go:49-65 | no worker waits for room, and before the consumer has returned a result is dropped only if the caller's context is done; the shared context is cancelled exactly when the consumer has returned |
| Chain.RaceIsCorrect | dns/resolver/chain.go:67-81 | uncancelled, the race finds an answer if and only if some resolver has one; it is the first non-empty one to arrive, else the joined errors are exactly those of all resolvers, each with its resolver's name |
| Chain.NothingFoundIff | dns/resolver/chain.go:67-81 | an uncancelled race returns neither address nor error if and only if no resolver has either |
| Chain.AnyAnswerCanWin | dns/resolver/chain.go:51-72 | for every resolver with a non-empty answer there is a run in which its answer wins |
| Chain.HeadRankIsFixedIff | dns/dns.go:100-110 | the head that ResolveHost takes has the same rank in every pair of uncancelled races if and only if the heads of all non-empty answers have equal rank |
| Chain.HeadRankCanDiffer | dns/dns.go:100-110 | two resolvers, and two races of them whose heads differ in rank |
| Chain.StepsAreFinite | dns/resolver/chain.go:41-82 | every step but a cancellation lowers a measure |
| Chain.CancellationIsPrompt | dns/resolver/chain.go:56-82 | an undecided race can be given up at any moment, and then the consumer returns the context's error with nobody's help, and no worker has to wait |
| Chain.NeverStuck | dns/resolver/chain.go:41-82 | resolvers that return are enough for the consumer and every worker to end |
| CacheKeys.CacheKey | dns/resolver/cache.go:55-63 | the buffer filled in place is the host followed by each type in two bytes |
| CacheKeys.KeysCollideIff | dns/resolver/cache.go:55-63 | two queries share a key if and only if leading types of one, written out, are the tail of the other's host and the other types are the same |
| CacheKeys.SameCountInjective | dns/resolver/cache.go:55-63 | for a fixed number of types the key determines the query |
| CacheKeys.PlainNamesInjective | dns/resolver/cache.go:55-63 | so it does for NUL-free hosts and types below 256 |
| CacheKeys.KeysCanCollide | dns/resolver/cache.go:55-63 | two different queries with one key |
| CacheProtocol.ShapeStep | dns/resolver/cache.go:65-117 | every step, of every caller and of the environment, keeps the invariant that ties entries, pending lookups, callers and the mutex together |
| CacheProtocol.StepGrows | dns/resolver/cache.go:65-117 | no step takes back a published answer, a finished call or a sampled clock |
| CacheTheorems.RunShape | dns/resolver/cache.go:65-117 | the invariant holds in every state of every run |
| CacheTheorems.RunGrows | dns/resolver/cache.go:65-117 | what was published stays as it was in all later states |
| CacheTheorems.AnswersComeFromInner | dns/resolver/cache.go:65-117 | every result was returned by the inner resolver for the caller's own key, or is the error of a waiter's own context; a hit was published less than its TTL, positive or negative as its answer dictates, before the caller's clock sample. Callers may write to the slices they get: no hit is affected, and a waiter may get as many other addresses in place of the published ones only after the leader's caller has written; with an error nobody but the leader gets addresses |
| CacheTheorems.HitsAreFresh | dns/resolver/cache.go:65-113 | a hit on addresses was published less than posTTL, a hit on an error or an empty answer less than negTTL before the clock sample |
| CacheTheorems.EntriesExpire | dns/resolver/cache.go:102-113 | every entry is the published answer of a lookup of its key and expires posTTL or negTTL after it was published, and that TTL is positive |
| CacheTheorems.StoreFilesIff | dns/resolver/cache.go:102-113 | an answer whose TTL is not positive changes nothing; any other is filed, and with room left nothing else changes |
| CacheTheorems.SampledIsAClockReading | dns/resolver/cache.go:67 | the sample is the clock at the moment at which the call began |
| CacheTheorems.AnswersAreForTheQueryAsked | dns/resolver/cache.go:55-117 | with equally many types in all queries, it was returned for the very query asked, but for a waiter whose shared slice was written to |
| CacheTheorems.SingleFlight | dns/resolver/cache.go:77-100 | per key at most one lookup is under way, pending holds the key exactly as long, and each done channel is closed once |
| CacheTheorems.WaitersReadFinalFields | dns/resolver/cache.go:77-99 | after done is closed the fields never change again, and a waiter returns them unless the leader's caller has written to the shared slice |
| CacheTheorems.SizeBound | dns/resolver/cache.go:119-142 | at most maxSize entries in every reachable state |
| CacheTheorems.ArbitraryEvictionDropsOne | dns/resolver/cache.go:131-141 | whatever the run, the arbitrary phase drops at most one live entry |
| CacheRate.LookupsWaitForExpiry | dns/resolver/cache.go:67-113 | for an answer with a positive TTL and any later lookup of its key: unless an entry filed by that or a lookup in between had been evicted before the later one began, its leader sampled the clock at or after the expiry, even if it sampled before the answer was filed and locked after |
| CacheRate.EvictedIff | dns/resolver/cache.go:106-142 | the record of evicted entries grows by exactly those that the publishing region removed |
| CacheRate.GoneWhenBegun | dns/resolver/cache.go:90-92 | what a lookup remembers of it is its state when the lookup began |
| CacheRate.NextLookupWaitsForExpiry | dns/resolver/cache.go:67-113 | for the next lookup of a key only the entry of the one before it counts, whatever was evicted earlier |
| CacheRate.LookupsAreATtlApart | dns/resolver/cache.go:67-113 | so with positive TTLs such lookups start at least the smaller TTL apart |
| CacheRate.SweepLetsEarlySamplerLead | dns/resolver/cache.go:67-128 | a run in which the entry had been evicted and the rate fails: another key's lookup sweeps the expired entry out, and a caller that sampled early leads |
| CacheTheorems.CallersOnlyAdvance | dns/resolver/cache.go:65-117 | every step of a caller lowers a measure |
| CacheTheorems.CancelledWaiterLeaves | dns/resolver/cache.go:81-88 | a waiter whose context ends returns that context's error at once, and the lookup, the entries and the other callers stay as they were |
| CacheTheorems.NeverStuck | dns/resolver/cache.go:65-117 | while any caller has not returned, some caller can move: no deadlock and no forgotten waiter |
| CacheObject.CloneAddrs | dns/resolver/cache.go:144-151 | a new slice with equal contents; nil stays nil |
| CacheObject.Cache.constructor | dns/resolver/cache.go:37-49 | an empty cache; a limit that is not positive becomes 1024 |
| CacheObject.Cache.Enter | dns/resolver/cache.go:67-92 | a hit exactly for a live entry, answered with a fresh copy or with the error alone; otherwise the pending lookup is joined or a new one registered |
| CacheObject.Cache.WaiterReads | dns/resolver/cache.go:81-86 | a waiter gets the error alone or a fresh copy of the shared slice, which is what was published if and only if it is an error or the slice is untouched |
| CacheObject.Cache.LeaderOverwritesForWaiter | dns/resolver/cache.go:79-116 | publish, a write of the leader's caller, then a waiter: the waiter gets what was written and not what was published |
| CacheObject.Cache.Publish | dns/resolver/cache.go:97-116 | the answer reaches the waiters' object, the key leaves pending, and with a positive TTL exactly that answer is filed and the size restored; no stored slice becomes one that a caller holds; it is posTTL for an answer with addresses and no error, else negTTL |
| CacheObject.Cache.EvictLocked | dns/resolver/cache.go:119-142 | within the limit nothing changes; above it exactly the live entries stay if they fit, otherwise maxSize of them, all unchanged |
| CacheObject.Cache.DropExpired | dns/resolver/cache.go:124-128 | exactly the live entries stay, in whatever order the map is walked |
| CacheObject.Cache.DropExcess | dns/resolver/cache.go:134-141 | exactly the asked number of entries goes and the others are untouched |
| CacheObject.Cache.CallerWrites | dns/resolver/cache.go:106-116 | a caller that overwrites an element of a slice it got leaves the contents of the cache as they were |
| Streams.Reader.ReadFull | packet/https.go:35-40 | on success exactly the requested bytes in order; on failure fewer were consumed |
| HttpHeader.ReadLine | packet/http.go:64-68 | the bytes up to and including the next line feed |
| HttpHeader.ReadHeaderBlock | packet/http.go:62-78 | unless the stream fails, the block is read if and only if there is one of at most 64 KiB, and exactly that block is consumed |
| HttpHeader.LineEndIsFirst | packet/http.go:65 | a line ends at the first line feed |
| HttpHeader.BlockEndIsFirstBlankLine | packet/http.go:74-77 | no blank line stands before the one that ends the block |
| HttpHeader.BlockEndsWithBlankLine | packet/http.go:74-77 | the block ends with a blank line |
| HeaderBlock.BlockLinesAreTheBlock | packet/http.go:64-78 | the lines of a block, split at LF with an optional CR, written out again are its bytes; only the last one is blank |
| HeaderBlock.BlockIsReadBack | packet/http.go:64-78 | lines written out as a block are read back as these lines, whatever follows |
| HeaderBlock.BlockStandsAlone | packet/http.go:62-80 | what the reading loop cuts out of the stream is a block of the same lines |
| Tls.ReadTLSMessage | packet/https.go:35-65 | exactly the record that is returned is consumed; unless the stream fails, a record is returned if and only if a whole one of allowed length stands there |
| Tls.RecordIsUnique | packet/https.go:35-65 | the bytes determine the record |
| Tls.RecordBytes | packet/https.go:35-65 | a record byte by byte: type, version and length with the high byte first, at most 16384 bytes |
| Tls.ClientHelloIff | packet/https.go:67-73 | a ClientHello is a handshake record of at least one byte that begins with 1 |
| Tls.RecordSizeExact | packet/https.go:46-51 | the length check is what keeps the 16-bit sum for the buffer from wrapping round, which it would for the last five lengths |
| Tunnel.SplitCovers | proxy/handler/https.go:121-138 | both modes give non-empty chunks that together are the record, all of the window size but the last, or one byte and the rest |
| Tunnel.WriteChunks | proxy/handler/https.go:140-151 | whatever the writes do the connection gets the first `total` bytes of the chunks, and all of them unless a write failed; and a failure is reported if and only if a write failed; without one each chunk goes out in a write of its own |
| Tunnel.SendHello | proxy/handler/https.go:94-110 | chunked or plain, the server gets a prefix of the ClientHello, and all of it unless a write failed; a failure is reported if and only if a write failed; without one a hidden ClientHello goes out in writes of the window size with a shorter last one, or as one byte and the rest, and a plain one in a single write |
| Tunnel.Serve | proxy/handler/https.go:54-115 | at every exit the server has been sent a prefix of the bytes taken from the client, nothing unless they are a ClientHello; the pipe starts only when it has all of them, in the writes that hiding asks for; an abort leaves both connections closed; without faults the pipe starts if and only if there are a port, a connection and a ClientHello |
| Tunnel.TargetPortIff | proxy/handler/https.go:58-67 | 443 by default, else the number given if it is between 1 and 65535 |
| Tunnel.EstablishedIsItsText | proxy/handler/https.go:78 | the bytes sent after the version are those of the text in the source |
| Tunnel.CopyWithTimeout | proxy/handler/https.go:177-212 | it stops where Forwarded allows: what was read is written in order without a gap, and without a fault everything; only a failed write loses bytes, from the last read; it stops at end of file if and only if no read, deadline or write failed |
| Pipe.InvRun | proxy/handler/https.go:156-212 | in every state of every run each direction stands where Forwarded, the predicate proved of the copy loop, allows, only what it holds in its buffer is missing unless it faulted, and buffers and half-closed sides have one owner |
| Pipe.BytesArriveInOrder | proxy/handler/https.go:156-212 | in every state of every run the server has been sent exactly the client's bytes from the end of the header block up to some point, and the client the server's bytes up to some point |
| Pipe.WholeStreamArrives | proxy/handler/https.go:156-212 | a direction that met no fault of its own has forwarded its whole stream when its loop has stopped, whatever the other direction met |
| Pipe.HalfCloseIsOrderly | proxy/handler/https.go:156-175 | a direction shuts the side it wrote to and then the one it read from, for certain and only after its loop has stopped; connections are closed only after both directions ended, and no read or write ever meets a side that was shut |
| Pipe.BuffersHaveOneHolder | proxy/handler/https.go:24-32 | a buffer in use is held by one direction of one connection and is not in the pool; a buffer that a direction has used is given back |
| Pipe.StepsAreFinite | proxy/handler/https.go:156-212 | every step of the two directions lowers a measure |
| Pipe.FaultEndsOneDirection | proxy/handler/https.go:186-222 | at any moment of a copy its read, deadline or write can fail, the write after any part of its bytes; that ends this direction and touches neither the other one nor a connection |
| Pipe.NeverStuck | proxy/handler/https.go:156-175 | reads that return are enough: until both connections are closed, a direction or the closing code can move |
| Session.Connect | proxy/proxy.go:100-158 | the pipe starts with the server having been sent exactly the client's bytes that follow the CONNECT header block, as Pipe.BytesArriveInOrder asks; at every exit, aborted ones too, it has been sent a prefix of them; a failed start closes the client's connection; without faults it starts if and only if there are a header block of at most 64 KiB, a port, a connection and a ClientHello |
| Http.HttpRequest.Tidy | packet/http.go:113-143 | the loops write the header block as specified by split, filter and join; unless it is dropped the new request line, method, path and version with single spaces, comes first |
| Http.RequestLineParts | packet/http.go:127 | method, space, path, space, version, and nothing else |
| Http.KeptInOrder | packet/http.go:130-137 | exactly the lines without the prefix are kept, in their order |
| Http.ProxyConnectionIsItsName | packet/http.go:133 | the prefix is the text Proxy-Connection |
| Http.SplitJoin | packet/http.go:123 | splitting undoes joining for lines without CRLF |
| Http.SplitPieces | packet/http.go:123 | joining undoes splitting, and no piece holds CRLF |
| Http.PiecesNotEmpty | packet/http.go:123 | without an empty line in the text, the only piece after the first that can be empty is the last, exactly when the text ends with CRLF |
| Http.RenderedEnd | packet/http.go:130-140 | written out, non-empty lines have the empty line at their end and nowhere before |
| Http.TidyKeepsTheOtherPieces | packet/http.go:113-143 | split at CRLF, the result has the new request line and then exactly the pieces without prefix Proxy-Connection, in order, and CRLFCRLF only at the very end |
| TidyLines.TidyKeepsTheOtherLines | packet/http.go:58-143 | for every block that is read, whatever its line ends: the tidied text is read back as the new request line and exactly the header lines without prefix Proxy-Connection, in order, if and only if the new request line is one line and is not dropped and no bare LF does harm; and nothing follows the blank line if and only if besides the blank line was clean |
| TidyLines.OthersInOrder | packet/http.go:130-137 | the other header lines are exactly those without the prefix, in their order |
| TidyLines.TidyIsRightWithoutBareLf | packet/http.go:58-143 | no LF without a CR before it is enough for both |
| TidyLines.BareLfLosesHost | packet/http.go:64-143 | a block with bare LFs that is read and whose Host line Tidy loses |
| TidyLines.EndsProperlyIff | packet/http.go:64-122 | of the blocks that are read, exactly those with a CRLF right after a bare LF at their end are not properly ended |
| TidyLines.OutputIsSieve | packet/http.go:123-139 | dropping pieces between CRLFs is dropping lines: a bare LF binds a line to the fate of the line before it |
| Http.TidyIdempotentIff | packet/http.go:113-143 | for every raw block and every path: tidying twice is tidying once if and only if the request line is not itself dropped, the block is properly ended, and the request line brings no kept lines of its own (or, if it has an empty line inside, the same lines that are kept of the block) |
| Http.PlainPathsAreTidiedOnce | packet/http.go:113-143 | for a path without CR the first two of these conditions decide |
| TidyLines.CrlfInPathSpoils | packet/http.go:97-143 | "GET /%0D%0AB HTTP/1.1" and an empty line, a block that is read: tidying twice differs from tidying once |
| TidyLines.DroppedRequestLineSpoils | packet/http.go:126-139 | so it does for "Proxy-Connection / HTTP/1.1" and an empty line, whose request line is dropped |
| TidyLines.BareLfBeforeEndSpoils | packet/http.go:64-143 | so it does for "GET / HTTP/1.1", LF, CRLF, which is read but not properly ended |

## Left out

- Source discovery (`defaultSrcAddrs`, `isNative`, `/proc/net/if_inet6`): probing of the operating system; an arbitrary function from destinations to source information stands for it.
- Exchanges over DoH and plain DNS, message packing and the system resolver: clients over libraries that are not part of this model; arbitrary responses stand for them.
- `http.ReadRequest`, URL parsing and `SplitHostPort`: method, path, version, domain and port are taken as given.
- The handler for plain HTTP requests, the 502 answer, pattern matching, the loop check, the accept loop, flags, configuration, banner and logging: plumbing or short branches.
- `NewDns`, query type names and networks, the method table and trace ids: finite facts seen in the code.
- Real time and scheduling: clocks are integers that never run backwards, and progress is proved on the assumption that inner calls, exchanges, reads and writes return.
- Buffers of another size than the pool's: the program always copies with the default size.
- Panics inside the inner resolver: it is assumed to return.
- Changes of the bytes inside a `net.IP`: addresses are immutable values, so aliasing is modelled for the slices of addresses and not for the bytes of one address.
- Zones of a `netip.Addr`: `AddrFromSlice` makes none.
- The goroutines of cache, fan-in, race and pipe are step systems over values, not heap objects; the loops inside them are modelled a second time as methods (`FanIn.ProcessResults`, `Chain.Resolve`, `Tunnel.CopyWithTimeout`, the methods of `CacheObject.Cache`). Methods and runs are proved against the same predicates (`IsOutcome`, `Evicts`, `Served`, `Ttl`, `Forwarded`).
- Tls.ReadTLSMessage: which error a failing stream reports (`io.EOF` or `io.ErrUnexpectedEOF`) is not told apart.
- Streams.Reader.ReadFull: a read that returns no byte and no error is not modelled, which `io.Reader` discourages.
- Http.TidyIdempotentIff: method and version are assumed to hold no CR, which `http.ReadRequest` enforces.
- Session.Connect: what lies between the header block and the dial (parsing, name resolution, the loop check) appears only as its results.
