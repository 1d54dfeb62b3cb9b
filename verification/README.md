# A verified model of irixmail's core

irixmail is a self-hosted mail server. This project models six of its parts in Dafny and proves what
they promise: the directory of domains, accounts and addresses; the id generator; the IP rule list and
its shared cache; the calendar and contact store with its synchronization report; DNS TXT printing and
live verification, with the base32 encoder of API keys; and signing in, from the failure throttle to the
second factor, with the lists of credentials and Sieve scripts.

`dafny verify dfyconfig.toml` checks everything.

## How it is laid out

| files | part |
|---|---|
| `Common`, `Bytes`, `Utf8`, `Text`, `Store` | results, byte order, UTF-8, string normalization, the key-value store |
| `DirectoryTables`, `DirectoryInvariant` | the five logical tables, what each operation does to them, and the invariant it keeps |
| `DirectoryKeys`, `DirectoryRegistry`, `DomainRegistry` | the byte keys, and the registries as objects that read and write one byte map |
| `DirectoryMeaning` | which record a request leaves, field by field, and which account an address leads to, character by character |
| `DirectoryAnswers`, `DirectoryRuns`, `DirectoryServer` | when an operation is refused, every run of directory commands, and the registries serving one |
| `Snowflake`, `SnowflakeProtocol` | id arithmetic, and `generate` as interleaved threads |
| `IpRules`, `IpRuleCache` | prefix arithmetic and the rule loop; the cache as a concurrent protocol |
| `DavStore`, `DavSync`, `DavRuns`, `DavObjects`, `DavFamilies` | the record store, the report and its client, runs of both, the store as objects, and runs of whole families |
| `ZoneText`, `Base32` | TXT printing, reading and checking; base32 and the key comparison |
| `Throttle`, `Credentials` | failure chains, and one account's list of credentials |
| `SignIn`, `SignInRuns`, `Lockout`, `Login` | the two steps of signing in, every run of them, what failures lead to, and the server that performs them |
| `SecondFactorRace`, `ThrottleRace` | second steps of one account, and failures of one subject, served at the same time |
| `Sieve` | the script list |

Pure code is functions with lemmas. Code that edits state is classes and methods with loops, each proved
against a function of the old state. Concurrent code (`generate`, the document id allocator, the rule
cache, overlapping second steps and failures) is a state machine over single steps, with spurious failures and a clock
that may run backwards where the code allows for them.
Hash checks, code checks, decryption, address parsing, clock readings and store failures are parameters.

## What is proved

- **Directory.** In every state reached from an empty store, the name index, the local-part index, the
  address index and the catch-all entries are exactly what the records say, so no two accounts share an
  address and no account outlives its domain. The single byte map refines the five tables, and an operation
  that fails leaves it unchanged; the registries serving commands from an empty store make exactly these
  runs. Each operation is refused exactly for a conflict among the records
  themselves, never for an accident of the indexes. An accepted one stores the record asked for, field by
  field, and an address other than a catch-all, in whatever case and with whatever white space around it,
  leads to an account exactly when that account lists it or it is its local part at its domain.
- **Renames.** A rename moves every primary of the domain and changes nothing else it should not, and it
  keeps the index exact if and only if no account of the domain also lists its old primary as an alias.
- **Ids.** For every interleaving, ids leave the generator strictly increasing while the packed word fits
  2^54; two words of one node give the same id exactly when they agree modulo 2^54; different nodes never
  collide at all. An id's timestamp is its word's, never before the clock reading it was drawn from and that
  very second where the clock had moved on.
- **IP rules.** A peer is allowed exactly when a rule that allows covers its number, and blocked exactly when
  one that blocks does and none allows, an IPv4 peer shown in mapped form counting as that IPv4 address. A
  cached list that is out of date has a writer between its commit and its invalidation, so a decision that begins after a change returned reflects it, and decisions never go back in time. A deletion
  that finds nothing to delete invalidates nothing; later decisions are sure to work without the rule, until
  somebody puts it back, if and only if no list made with it is cached or about to be at that moment, and if
  one is, another deletion of that rule has yet to invalidate.
- **Synchronization.** However edits, failed writes, prunes, listings and cut or whole pages interleave, a
  page that comes back whole leaves the client with exactly the live collection, as long as pruning has not
  passed its token; and that condition is exact, over all collections and over those a run reaches. In every run of a family no object is ever without its
  parent if and only if none was ever written under a parent not alive, deletions cut short and failed
  writes included.
- **TXT records.** What a name server reads from the printed text is the value, in strings of at most 255
  bytes, and the live check passes.
- **Base32.** The streaming encoder is RFC 4648 base32 for every length and is undone by a decoder.
- **Signing in.** With requests served one at a time, throttle counters are the saturated lengths of failure
  chains, and no chain of an address or an account ever passes the limit. As many failures as the
  limit, each within the window of the one before and no right password in between, turn the next request away
  while the window lasts, and nothing else does. Served by k workers at the same
  time, the longest chain of a subject is exactly (limit + k choose k) - 1, limit + k - 1 where no write loses
  a count, and the counter is exact if and only if every write finds the count it was made from. In every run of the server from its start, every session is the recovery
  administrator's, or followed a correct password on a list without an enabled factor, or came through the
  latest challenge under its key, opened by a correct password for that account and kind, in time, within
  five attempts and by a code its factor accepted; a challenge yields one session. With requests served one
  at a time recovery codes are neither lost nor accepted twice; served at the same time this holds if and
  only if every write finds the codes its request had read.

## Where the code does not do what it says

- A rename deletes the old primary even when the account also lists it as an alias
  (`DirectoryRuns.RenameLosesAlias`, three commands from an empty store). The exact condition is
  `DirectoryInvariant.DomainUpdateKeepsIff`.
- `normalize_name` is not idempotent: "a ." becomes "a " (`Text.NameThatStaysBlank`). It is exactly when no
  blank is left before the trailing dots (`Text.NormalizeNameIdempotent`).
- Beyond 2^54 the generator repeats ids although its word still moves (`SnowflakeProtocol.ClockWrapRepeatsAnId`).
- A rule for an IPv4-mapped IPv6 network never matches a peer when its prefix is 96 or longer, because peers
  are reduced to IPv4 first (`IpRules.MappedRuleIsLiveIff`).
- A synchronization report never asks whether its token is below the prune floor, although the change log
  offers that question (crates/store/src/changelog.rs:256-263). Below the floor it leaves changes out, in
  states the store reaches (`DavRuns.ReportSufficesIff`, `DavRuns.ReachedSufficesIff`).
- `constant_time_eq` is named and used as equality. It also accepts a multiple of 256 zero bytes appended to
  either side (`Base32.AcceptsIff`).
- Deleting an IP rule that is already gone returns without invalidating the cache, so a decision begun after
  that return may still apply the rule (`IpRuleCache.AbsentDeleteCanMiss`); exactly when is
  `IpRuleCache.AbsentDeleteIsSeenIff`.
- The second step looks at neither the active flag nor the role, so an account disabled or demoted between
  the steps still gets its session (`SignInRuns.DemotedStillGetsIn`). What the record then decides is
  `SignInRuns.StandingNotRechecked`.
- Two second steps that overlap can both be let in by one recovery code (`SecondFactorRace.OneCodeTwice`);
  the exact condition is `SecondFactorRace.ConservesIff`.
- Failures recorded at the same time can pass the limit and lose counts: it holds if and only if there is no
  second worker (`ThrottleRace.LimitHoldsIff`), and how far a chain can get is `ThrottleRace.LongestChainIff`.

## Hypotheses

- Directory runs: a domain name does not end blank once normalized; an account names a live domain; a local
  part and an alias do not begin with `@`; a rename is one the exact condition above allows; extra write
  operations passed to account creation stay out of the directory's keys; the clock is before the year 2163.
- The registries: a stored record carries the id of its key.
- Synchronization: fewer than 2^32 record ids have been drawn in a collection.
- The throttle: each of its calls happens at one instant of its own, and the clock does not run backwards.
- Locking out: in addition, a password request starts no earlier than the one before it ended, and the limit
  is at least one. That only failures lock is stated for a run that starts with none recorded.
- Credential, throttle, Sieve and calendar code take no lock across their reads and writes and are modelled
  one operation at a time, except in `SecondFactorRace` and `ThrottleRace`.

## Model

| member | source | states |
|---|---|---|
| `Text.NormalizeNameIdempotent` | crates/directory/src/domain_registry.rs:288-290 | normalizing a name twice changes it exactly when the first pass leaves a blank at its end |
| `Text.NameThatStaysBlank` | crates/directory/src/domain_registry.rs:288-290 | a name for which it does |
| `Text.WhitespaceExact` | crates/directory/src/address_index.rs:207-209 | the white space that is trimmed is these twenty-five characters |
| `Text.LowerCharExact` | crates/directory/src/address_index.rs:207-209 | the k-th capital letter becomes the k-th small one and no other character changes |
| `Text.TrimExact` | crates/directory/src/address_index.rs:207-209 | trimming gives exactly the text that white space is around |
| `Text.NormalizeExact` | crates/directory/src/address_index.rs:207-209 | a key is the one text without capitals and without white space at its ends that differs only in these |
| `Text.NormalizeNameExact` | crates/directory/src/domain_registry.rs:288-290 | a domain name is read as what white space around, then dots at its end, and case leave of it |
| `Utf8.DecodeOfEncode` | crates/dns/src/verify.rs:75-80 | lossy decoding of well-formed UTF-8 gives the string back |
| `Bytes.BigEndianOrder` | crates/directory/src/account_registry.rs:266-281 | big-endian bytes of one width order as the numbers do |
| `Store.Store.Batch` | crates/directory/src/domain_registry.rs:213-213 | a batch applies its writes in order, all at once |
| `Store.Store.Iterate` | crates/directory/src/domain_registry.rs:153-170 | a prefix scan meets exactly the keys under the prefix, in ascending byte order |
| `DirectoryKeys.RowKeysInjective` | crates/directory/src/account_registry.rs:266-281 | two rows of any tables share a key exactly when they are the same row |
| `DirectoryKeys.KeysReadBack` | crates/directory/src/account_registry.rs:266-281 | the two tag bytes of every key, and the id and text that can be read back from the rest |
| `DirectoryKeys.RepresentsUnique` | crates/directory/src/address_index.rs:181-191 | a byte map stands for at most one set of tables |
| `DirectoryKeys.BatchRefines` | crates/directory/src/domain_registry.rs:190-213 | a batch on the byte map does to the tables what its operations say |
| `DirectoryKeys.ForeignBatchKeeps` | crates/directory/src/account_registry.rs:120-120 | operations outside the directory's keys leave the tables alone |
| `DirectoryKeys.ScanOrder` | crates/directory/src/account_registry.rs:222-249 | record keys order as their ids |
| `DirectoryKeys.IdsInExact` | crates/directory/src/account_registry.rs:283-287 | filtering keys by tag and length finds exactly the record keys |
| `DirectoryKeys.IdsInAscending` | crates/directory/src/domain_registry.rs:272-276 | and their ids come out ascending |
| `DirectoryInvariant.OwnerUnique` | crates/directory/src/address_index.rs:54-104 | under the invariant an address has one owner |
| `DirectoryInvariant.DomainCreateKeeps` | crates/directory/src/domain_registry.rs:85-126 | creating a domain keeps all five tables exact |
| `DirectoryInvariant.DomainDeleteKeeps` | crates/directory/src/domain_registry.rs:217-241 | so does deleting one, which needs it to have no accounts |
| `DirectoryInvariant.RekeyExactIff` | crates/directory/src/domain_registry.rs:59-83 | moving the primaries keeps the address index exact if and only if no account of the domain also lists its retired primary as an alias |
| `DirectoryInvariant.DomainUpdateKeepsIff` | crates/directory/src/domain_registry.rs:177-215 | a successful update keeps the invariant if and only if it does not rename, or no account of the domain lists its retired primary as an alias |
| `DirectoryInvariant.RenameResolution` | crates/directory/src/domain_registry.rs:194-213 | after a rename every account resolves at its new primary, none at its old one, and every other address as before |
| `DirectoryInvariant.AccountCreateKeeps` | crates/directory/src/account_registry.rs:70-130 | creating an account keeps the invariant |
| `DirectoryInvariant.AccountUpdateKeeps` | crates/directory/src/account_registry.rs:154-199 | so does changing one, its local part, domain and aliases included |
| `DirectoryInvariant.AccountDeleteKeeps` | crates/directory/src/account_registry.rs:201-220 | and deleting one |
| `DirectoryAnswers.TakenIffContested` | crates/directory/src/address_index.rs:73-84 | an address counts as taken exactly when another live account answers to it |
| `DirectoryAnswers.AccountCreateAnswers` | crates/directory/src/account_registry.rs:78-88 | an account is refused exactly when its local part in that domain, or one of its addresses, is another's |
| `DirectoryAnswers.AccountUpdateAnswers` | crates/directory/src/account_registry.rs:154-196 | a change is refused exactly for an unknown id, a place or an address that is another's |
| `DirectoryAnswers.AccountDeleteAnswers` | crates/directory/src/account_registry.rs:201-220 | a deletion succeeds exactly for a known id |
| `DirectoryAnswers.DomainCreateAnswers` | crates/directory/src/domain_registry.rs:86-94 | a domain is refused exactly for a blank name or one that another domain bears |
| `DirectoryAnswers.DomainDeleteAnswers` | crates/directory/src/domain_registry.rs:217-226 | a domain is deleted exactly when it exists and nobody lives in it |
| `DirectoryAnswers.PrimaryTakenIffCollides` | crates/directory/src/domain_registry.rs:69-78 | a rename is blocked exactly when some account would move onto an address another account answers to |
| `DirectoryAnswers.DomainUpdateAnswers` | crates/directory/src/domain_registry.rs:177-211 | the whole answer to an update: unknown, blank, name of another domain, or such a collision |
| `DirectoryMeaning.NormalizedIsSaved` | crates/directory/src/domain_registry.rs:177-193 | a domain saved agrees with the request in id, flag, catch-all, keys, status and time; its name and, in order, its non-blank aliases are what they are read as |
| `DirectoryMeaning.NewDomainIsOpened` | crates/directory/src/domain_registry.rs:95-112 | a new domain is enabled, unverified, without catch-all or keys; its name and, in order, its non-blank aliases are what they are read as |
| `DirectoryMeaning.TidiedIsSaved` | crates/directory/src/account_registry.rs:154-170 | an account saved agrees with the request in every field but its local part, which is plain, and its aliases, of which the blank ones are left out |
| `DirectoryMeaning.NewAccountIsOpened` | crates/directory/src/account_registry.rs:89-109 | a new account is enabled, without aliases, in the role, domain and name asked for, its local part in plain form |
| `DirectoryMeaning.UpdateSaves` | crates/directory/src/domain_registry.rs:177-215 | an accepted update saves that domain as asked and changes no other |
| `DirectoryMeaning.CatchAllFollows` | crates/directory/src/domain_registry.rs:42-57 | in a coherent directory, unless the name ends blank once normalized, an accepted update makes "@" and the name lead to the catch-all asked for, and nowhere without one |
| `DirectoryMeaning.CatchAllFound` | crates/directory/src/domain_registry.rs:42-57 | whatever the directory and the name, a catch-all asked for is found under every way of writing "@" and the name |
| `DirectoryMeaning.OwnsExact` | crates/directory/src/account_registry.rs:20-32 | the addresses of an account are, up to case and white space around, its non-blank aliases and its local part at its domain's name |
| `DirectoryMeaning.LeadsToIff` | crates/directory/src/address_index.rs:31-37 | in a coherent directory an address other than a catch-all leads to an account exactly when it is one of these |
| `DirectoryMeaning.LookedUpAlike` | crates/directory/src/address_index.rs:31-37 | two addresses that differ only in case and white space around are looked up alike |
| `DirectoryRegistry.IdGenerator.Generate` | crates/core/src/id.rs:34-67 | an uncontended draw moves the word to its candidate and returns that word's id |
| `DirectoryRegistry.AddressIndex.Resolve` | crates/directory/src/address_index.rs:31-37 | finds the entry whose plain key is the address up to case and white space around it, and nothing exactly when there is none |
| `DirectoryRegistry.AddressIndex.CheckFree` | crates/directory/src/address_index.rs:73-84 | the check passes exactly when no new address is another account's |
| `DirectoryRegistry.AddressIndex.AddressOps` | crates/directory/src/address_index.rs:86-103 | the operations give up exactly the addresses dropped and set exactly the current ones |
| `DirectoryRegistry.AddressIndex.AccountAddressOps` | crates/directory/src/address_index.rs:54-104 | blank or taken addresses are refused, otherwise the index is reassigned |
| `DirectoryRegistry.AccountRegistry.Get` | crates/directory/src/account_registry.rs:132-137 | a read by id gives the record of the table or not-found |
| `DirectoryRegistry.AccountRegistry.LookupId` | crates/directory/src/account_registry.rs:251-263 | a lookup gives what the local-part index holds |
| `DirectoryRegistry.AccountRegistry.Collect` | crates/directory/src/account_registry.rs:222-249 | the scan lists exactly the accounts kept, ascending by id |
| `DirectoryRegistry.AccountRegistry.AddressesOf` | crates/directory/src/account_registry.rs:20-32 | the addresses are the non-blank aliases and the primary if the domain exists |
| `DirectoryRegistry.AccountRegistry.Create` | crates/directory/src/account_registry.rs:70-130 | the store afterwards is the tables' account creation, or unchanged with the error; the record stored is enabled, in the role, domain and name asked for, its local part in plain form, without aliases |
| `DirectoryRegistry.AccountRegistry.Update` | crates/directory/src/account_registry.rs:154-199 | the same for an update; the record stored is the one asked for but for the plain form of its local part and the blank aliases left out, in order |
| `DirectoryRegistry.AccountRegistry.Delete` | crates/directory/src/account_registry.rs:201-220 | the same for a deletion |
| `DomainRegistry.RekeyOpsEffect` | crates/directory/src/domain_registry.rs:69-81 | run in order, the removals and settings never undo one another |
| `DomainRegistry.RekeyLoopIsRekeyed` | crates/directory/src/domain_registry.rs:59-83 | the loop over a domain's accounts is the rename of its primaries as one map |
| `DomainRegistry.UpdatesAreUpdate` | crates/directory/src/domain_registry.rs:177-215 | in a coherent directory renaming account by account is renaming all primaries at once |
| `DomainRegistry.UpdatesSave` | crates/directory/src/domain_registry.rs:177-215 | so does the update written row by row, whatever the directory |
| `DomainRegistry.DomainRegistry.Get` | crates/directory/src/domain_registry.rs:128-133 | a read by id gives the record of the table or not-found |
| `DomainRegistry.DomainRegistry.LookupId` | crates/directory/src/domain_registry.rs:243-253 | a lookup gives what the name index holds |
| `DomainRegistry.DomainRegistry.List` | crates/directory/src/domain_registry.rs:150-175 | the scan lists exactly the domains, ascending by id |
| `DomainRegistry.DomainRegistry.GetByName` | crates/directory/src/domain_registry.rs:135-144 | a canonical name finds its owner ahead of any alias, or an error if the index names a domain that is gone; otherwise the oldest domain that bears it, letter by letter but for case, or nothing |
| `DomainRegistry.DomainRegistry.Create` | crates/directory/src/domain_registry.rs:85-126 | the store afterwards is the tables' domain creation, or unchanged with the error; the record stored is enabled, unverified, without catch-all or keys, its name and aliases as they are read |
| `DomainRegistry.DomainRegistry.RekeyPrimaryOps` | crates/directory/src/domain_registry.rs:59-83 | on any store: fails exactly when a new primary is held by another account; else takes each account of the domain, by ascending id, off its old primary and onto its new one |
| `DomainRegistry.DomainRegistry.Update` | crates/directory/src/domain_registry.rs:177-215 | on any store: refused, with nothing written, exactly as the tables' update is, else the record, the name row, the primaries account by account and the catch-all are written; where the invariant holds that is the tables' update; on any store the record saved is the one asked for, its name and aliases as they are read |
| `DomainRegistry.DomainRegistry.Delete` | crates/directory/src/domain_registry.rs:217-241 | the same for a deletion |
| `DirectoryRuns.DrawnIsNew` | crates/core/src/id.rs:34-67 | an id drawn for a record is larger than every id in use |
| `DirectoryRuns.StepKeeps` | crates/directory/src/server.rs:40-45 | every command, successful or not, keeps the invariant |
| `DirectoryRuns.ReachableStatesExact` | crates/directory/src/server.rs:40-45 | in every state of every run the indexes are exact, addresses have one owner and domains outlive their accounts |
| `DirectoryRuns.ReachedAddressesLead` | crates/directory/src/server.rs:40-45 | in every state of every run an address other than a catch-all, however it is written, leads to an account exactly when that account lists it or it is its local part at its domain |
| `DirectoryRuns.RenameLosesAlias` | crates/directory/src/domain_registry.rs:79-80 | three commands from an empty store lead to a coherent directory whose rename succeeds and breaks the address index |
| `DirectoryServer.Directory.Perform` | crates/directory/src/server.rs:40-45 | each command, by the registry method that serves it, does to the tables what the run says |
| `DirectoryServer.Directory.Serve` | crates/directory/src/server.rs:40-45 | serving any admissible commands ends in the state the run leads to, still coherent |
| `DirectoryServer.ServeFromStart` | crates/directory/src/server.rs:40-45 | from an empty store, the byte map the registries leave resolves an ordinary address exactly to the one account that owns it |
| `Snowflake.CandidateIsLater` | crates/core/src/id.rs:43-54 | a step takes the word to the later of its successor and the clock's first word |
| `Snowflake.PackFields` | crates/core/src/id.rs:62-62 | milliseconds, node and sequence can be read back from an id |
| `Snowflake.SameNodeCollision` | crates/core/src/id.rs:54-62 | ids of one node are equal exactly when their words agree modulo 2^54 |
| `Snowflake.NodesNeverCollide` | crates/core/src/id.rs:22-28 | ids of different nodes differ, whatever the clocks hold |
| `Snowflake.IdOrder` | crates/core/src/id.rs:54-62 | below 2^54 ids order as their words |
| `Snowflake.TimestampExact` | crates/core/src/id.rs:69-71 | the timestamp of an id is its word's milliseconds in whole seconds after the start of 2024 |
| `SnowflakeProtocol.NodesDisjoint` | crates/core/src/id.rs:34-67 | in any two runs, generators whose nodes differ modulo 1024 return no common id |
| `SnowflakeProtocol.RunCollisions` | crates/core/src/id.rs:34-67 | in every run of one generator, with any clocks, two ids are equal exactly when the words they were drawn from agree modulo 2^54 |
| `SnowflakeProtocol.GenerateIsMonotone` | crates/core/src/id.rs:34-71 | for every interleaving ids are strictly increasing, the word is the later of successor and clock, at most T * 4096 + n after n ids, and each timestamp is its word's: not before the clock reading, that very second where the clock had moved on, and within the bound |
| `SnowflakeProtocol.ClockWrapRepeatsAnId` | crates/core/src/id.rs:54-62 | a run past 2^54 that returns the same id twice |
| `SnowflakeProtocol.AllocatorIsExact` | crates/core/src/id.rs:92-115 | document ids are handed out consecutively from the one after the highest, each once, and none at the maximum |
| `IpRules.ParseCidrExact` | crates/directory/src/ip_rules.rs:137-161 | exactly which texts denote which network: an address alone, or an address, the first slash and a number below 256 that fits its family |
| `IpRules.ParseU8Exact` | crates/directory/src/ip_rules.rs:139-143 | exactly the texts read as a prefix: an optional plus sign, zeros, and a number below 256 as it is written |
| `IpRules.ParseCidrReadsBack` | crates/directory/src/ip_rules.rs:137-161 | a network written as address, slash and decimal prefix is read back |
| `IpRules.ContainsIffInBlock` | crates/directory/src/ip_rules.rs:163-181 | comparing shifted prefixes is membership in the aligned block of 2^(width - prefix) addresses |
| `IpRules.CanonicalExact` | crates/directory/src/ip_rules.rs:92-97 | a mapped IPv6 address becomes its IPv4 address, every other stays |
| `IpRules.MatchesIffCovers` | crates/directory/src/ip_rules.rs:92-181 | a rule matches exactly the peers of its family whose number is in its block of 2^(32 - prefix) or 2^(128 - prefix), mapped peers counting as IPv4 |
| `IpRules.ZeroPrefixMatchesFamily` | crates/directory/src/ip_rules.rs:176-181 | prefix 0 matches the whole family and nothing of the other |
| `IpRules.MappedRuleIsLiveIff` | crates/directory/src/ip_rules.rs:92-97 | a rule for a mapped network can match a reduced peer exactly when its prefix is below 96 |
| `IpRules.Decide` | crates/directory/src/ip_rules.rs:92-105 | the early-return loop gives Allow exactly if a rule that allows covers the peer's number, else Block exactly if one that blocks does |
| `IpRules.CompileExact` | crates/directory/src/ip_rules.rs:115-127 | the compiled list holds exactly the stored rules that parse |
| `IpRuleCache.StepKeeps` | crates/directory/src/ip_rules.rs:48-134 | every step of every thread keeps the cache invariant |
| `IpRuleCache.StaleCacheHasPendingWriter` | crates/directory/src/ip_rules.rs:107-134 | a cached list that differs from the compiled stored rules has a writer that committed and has not invalidated |
| `IpRuleCache.ChangeIsSeen` | crates/directory/src/ip_rules.rs:48-134 | a decision that begins after a change returned uses a version that holds it or a later one, and its list is that version compiled |
| `IpRuleCache.DecisionsAdvance` | crates/directory/src/ip_rules.rs:92-134 | a decision never uses older rules than one that had returned before it began |
| `IpRuleCache.LatestIsSeenIff` | crates/directory/src/ip_rules.rs:92-134 | in every reached state, all later decisions use the latest rules if and only if no cache, fill or reader holds older ones |
| `IpRuleCache.GoneIsSeenIff` | crates/directory/src/ip_rules.rs:77-134 | the same for any rule gone from the store, in any state that satisfies the invariant |
| `IpRuleCache.AbsentDeleteIsSeenIff` | crates/directory/src/ip_rules.rs:77-86 | when a deletion finds nothing, the rule is gone from the store, and decisions begun later use it only if it was put back since, if and only if no list made with it is then cached or about to be; if one is, another deletion of that rule is between commit and invalidation |
| `IpRuleCache.AbsentDeleteCanMiss` | crates/directory/src/ip_rules.rs:77-86 | for every rule, a run in which a decision begun after such a deletion returned still uses it |
| `IpRuleCache.VerdictOfTable` | crates/directory/src/ip_rules.rs:92-105 | the verdict on a version of the rules, said rule by rule |
| `DavStore.UpsertKeeps` | crates/dav/src/storage.rs:238-271 | upserting keeps names unique within a parent, ids single-use and the log faithful |
| `DavStore.DropKeeps` | crates/dav/src/storage.rs:108-141 | so does deleting a record |
| `DavStore.DeleteByNameKeeps` | crates/dav/src/storage.rs:273-281 | and deleting by name |
| `DavStore.LostKeeps` | crates/dav/src/storage.rs:92-102 | a write that fails after drawing ids leaves gaps and nothing else |
| `DavStore.PruneKeeps` | crates/store/src/changelog.rs:265-310 | pruning keeps the invariant |
| `DavStore.PruneExact` | crates/store/src/changelog.rs:265-310 | pruning changes the floor only: it passes every entry but the last ids kept and the newest, none of those, and moves only past an entry |
| `DavStore.DeleteParentPrefixes` | crates/dav/src/storage.rs:207-216 | whatever prefix of the batches has been applied, no live object has lost its parent |
| `DavStore.DeleteParentExact` | crates/dav/src/storage.rs:207-216 | after the last one the parent and exactly its children are gone, the rest is as it was and without orphans if it was, and each child and the parent leave a tombstone with their name |
| `DavRuns.UpsertReadsBack` | crates/dav/src/storage.rs:238-271 | what was written under a name is read under it: new body and time, the old id and birth if it was there, else an id never used |
| `DavRuns.UpsertKeepsNames` | crates/dav/src/storage.rs:238-271 | every other name leads where it did |
| `DavRuns.DeleteReadsBack` | crates/dav/src/storage.rs:273-281 | a deleted name leads nowhere, every other name where it did |
| `DavSync.LastOfSince` | crates/store/src/changelog.rs:199-249 | the last change a window shows for a document is its last change if that is in the window |
| `DavSync.AllRowsAreDue` | crates/dav/src/handler/sync.rs:83-112 | the rows of a report are the last changes since the token, of this parent, without what came and went |
| `DavSync.PageIsExact` | crates/dav/src/handler/sync.rs:83-124 | a page, cut or not, carries exactly the rows due up to its own token |
| `DavSync.DeletionIsFinal` | crates/dav/src/handler/sync.rs:87-101 | if a page's last word on a name is a deletion, nobody bears the name |
| `DavSync.SilenceMeansNobody` | crates/dav/src/handler/sync.rs:45-47 | if a page is silent on a name that changed, nobody bears it and nobody did |
| `DavSync.PageKeepsSync` | crates/dav/src/handler/sync.rs:113-124 | applying a page takes a client true at its token to one true at the page's token |
| `DavSync.FullPageIsInSync` | crates/dav/src/handler/sync.rs:83-118 | a page that is not cut leaves the client with the live collection |
| `DavSync.PagingProgresses` | crates/dav/src/handler/sync.rs:117-122 | a cut page with room for one row moves the token forward |
| `DavRuns.EditKeepsSync` | crates/dav/src/storage.rs:85-141 | an edit of any object keeps a client true at the token it holds |
| `DavRuns.ListingIsSynced` | crates/dav/src/handler/sync.rs:75-82 | a report without a token gives the live collection and a token for it |
| `DavRuns.StepKeeps` | crates/dav/src/handler/sync.rs:58-133 | every event of a run keeps store and client healthy |
| `DavRuns.ClientConverges` | crates/dav/src/handler/sync.rs:58-133 | in every run, a page that comes back whole leaves the client with the live collection |
| `DavRuns.ReportSufficesIff` | crates/dav/src/handler/sync.rs:83-84 | a whole report serves every client at token t if and only if the prune floor is at most t |
| `DavRuns.OvertakenMisses` | crates/dav/src/handler/sync.rs:83-84 | below the floor, a client that stays without an object |
| `DavRuns.OvertakenIsReached` | crates/dav/src/handler/sync.rs:83-84 | for every token below a floor, events from an empty store lead to such a client |
| `DavRuns.ReachedSufficesIff` | crates/dav/src/handler/sync.rs:83-84 | over reached states, too, a whole report serves every client at token t if and only if the prune floor is at most t |
| `DavRuns.ReplayGivesLive` | crates/dav/src/storage.rs:406-424 | between any two states of a run, replaying the changes since the first on its records gives the records of the second, and what they do not mention is unchanged |
| `DavObjects.Collection.AllocateId` | crates/dav/src/storage.rs:55-58 | a 64-bit counter cut to 32 bits |
| `DavObjects.Collection.WriteRecord` | crates/dav/src/storage.rs:85-106 | record and change entry are written together |
| `DavObjects.Collection.DeleteRecord` | crates/dav/src/storage.rs:108-141 | record, tombstone and change entry change together |
| `DavObjects.Collection.ChangesSince` | crates/store/src/changelog.rs:188-249 | the stored entries alone answer for the whole history above the floor |
| `DavObjects.Collection.Prune` | crates/store/src/changelog.rs:265-310 | the scan that stops at the first entry kept removes exactly those up to the cutoff |
| `DavObjects.DavFamily.List` | crates/dav/src/storage.rs:218-225 | exactly the objects of the parent, ascending by id |
| `DavObjects.DavFamily.ByName` | crates/dav/src/storage.rs:227-236 | the object of that name with the least id |
| `DavObjects.DavFamily.Create` | crates/dav/src/storage.rs:173-194 | a parent is written under a newly drawn id and logged as an insert |
| `DavObjects.DavFamily.Upsert` | crates/dav/src/storage.rs:238-271 | the new collection, who was created, that names stay unique, and that nothing is orphaned exactly when the parent is alive |
| `DavObjects.DavFamily.Delete` | crates/dav/src/storage.rs:273-281 | the new collection, whether something was found, and that nothing is orphaned |
| `DavObjects.DavFamily.DeleteParent` | crates/dav/src/storage.rs:207-216 | children by ascending id, one batch each, then the parent; nothing when the parent is unknown; nothing is orphaned |
| `DavObjects.DavFamily.Report` | crates/dav/src/handler/sync.rs:83-124 | items and token are those of the specified page |
| `DavObjects.CoalesceChanges` | crates/dav/src/handler/sync.rs:31-56 | one row per document that did not both come and go, ordered by change id; on an ascending log these are the entries that stand |
| `DavObjects.TakeIsApply` | crates/dav/src/handler/sync.rs:87-111 | a client that sees only names gone and objects present ends where the rows would take it |
| `DavFamilies.StepOrphansIff` | crates/dav/src/storage.rs:173-281 | a step of any kind, a deletion cut short or a failed write included, orphans nothing exactly when it does not write under a parent not alive |
| `DavFamilies.NeverOrphansIff` | crates/dav/src/storage.rs:173-281 | in every run and up to every moment, no object has been without its parent if and only if none was written under a parent not alive |
| `DavFamilies.Serve` | crates/dav/src/storage.rs:173-281 | the store serving commands from empty makes such a run |
| `ZoneText.SplitChunks` | crates/dns/src/zone.rs:37-52 | offsets fall between characters, chunks rejoin to the value, and each is as long as the limit allows |
| `ZoneText.EscapeStep` | crates/dns/src/zone.rs:54-56 | the two replacement passes together escape character by character |
| `ZoneText.ReadEscaped` | crates/dns/src/zone.rs:54-56 | escaped text up to its closing quote is read as the original octets |
| `ZoneText.ReadPrinted` | crates/dns/src/zone.rs:29-35 | printed chunks are read back as they were, in the presentation format of section 5.1 of RFC 1035 |
| `ZoneText.PrintedIsObserved` | crates/dns/src/verify.rs:75-80 | and are observed, decoded one by one, as the value |
| `ZoneText.TxtValue` | crates/dns/src/zone.rs:29-35 | the printed text reads back as strings of at most 255 bytes that add up to the value |
| `ZoneText.NormalizeSameIff` | crates/dns/src/verify.rs:99-106 | two values count as the same exactly when they say the same words, up to case where case does not count |
| `ZoneText.DecideExact` | crates/dns/src/verify.rs:85-97 | the three verdicts in terms of words |
| `ZoneText.PublishedPasses` | crates/dns/src/verify.rs:85-97 | publishing what is printed, among any other records, passes |
| `Base32.Encode` | crates/directory/src/api_key.rs:60-78 | the letters are the five-bit groups of the bytes, the last filled with zeros, ceil(8n/5) of them, stale high bits notwithstanding |
| `Base32.DecodeOfEncode` | crates/directory/src/api_key.rs:60-78 | a decoder gives the bytes back, for every length |
| `Base32.TextsDiffer` | crates/directory/src/api_key.rs:50-56 | texts are equal exactly when the bytes are |
| `Base32.ConstantTimeEq` | crates/directory/src/api_key.rs:80-89 | accepts exactly when lengths agree modulo 256 and bytes agree with the shorter filled with zeros |
| `Base32.AcceptsIff` | crates/directory/src/api_key.rs:80-89 | that is equality, but for a multiple of 256 zero bytes at the end of one side |
| `Base32.ZerosCompareEqual` | crates/directory/src/api_key.rs:80-89 | a pair on which it differs from equality |
| `Throttle.TtlStore.Put` | crates/store/src/ttl.rs:33-39 | a value reads until its lifetime ends, other keys as before |
| `Throttle.TtlStore.Get` | crates/store/src/ttl.rs:41-52 | reading removes what has expired and changes no later reading |
| `Throttle.TtlStore.Sweep` | crates/store/src/ttl.rs:69-75 | sweeping changes no later reading |
| `Throttle.ChainLengthIsChain` | crates/directory/src/throttle.rs:82-97 | the recursive length is that of the chain of failures alive now, maximal and back to the last success |
| `Throttle.ChainUnique` | crates/directory/src/throttle.rs:82-97 | there is only one such chain |
| `Throttle.Throttle.constructor` | crates/directory/src/throttle.rs:21-28 | a limit of zero becomes one, and nothing is counted yet |
| `Throttle.Throttle.Count` | crates/directory/src/throttle.rs:82-88 | a counter reads as the saturated length of its chain |
| `Throttle.Throttle.Bump` | crates/directory/src/throttle.rs:90-97 | after a failure it still does, at every later instant |
| `Throttle.Throttle.RecordFailure` | crates/directory/src/throttle.rs:54-61 | address and account are each extended by one failure |
| `Throttle.Throttle.RecordSuccess` | crates/directory/src/throttle.rs:63-70 | both chains end |
| `Throttle.Throttle.IsLocked` | crates/directory/src/throttle.rs:72-80 | locked exactly when either chain has reached the limit |
| `Throttle.AttemptLogin` | crates/directory/src/login.rs:32-62 | when the secret is checked, the answer to every attempt, and what it leaves counted for every subject it names: one failure more when denied, nothing when granted, as it was when throttled or in error; any other subject as it was |
| `Throttle.AnswerExact` | crates/directory/src/login.rs:39-61 | throttled exactly when a subject has failed as often as the limit at one of the two looks, granted exactly for a right secret, denied exactly for a wrong one or an unknown user |
| `Throttle.AttemptCounts` | crates/directory/src/login.rs:39-61 | what each answer leaves counted for the address, the account and everybody else |
| `Throttle.AttemptKeepsLimits` | crates/directory/src/login.rs:32-62 | an attempt keeps every chain, of addresses and of accounts, within the limit |
| `Throttle.FailureRate` | crates/directory/src/login.rs:32-62 | among limit + 1 failures of an account in a row, two neighbours lie at least a window apart, whatever addresses they came from |
| `ThrottleRace.CountsIff` | crates/directory/src/throttle.rs:82-97 | in every interleaving the counter reads as the chain at every moment if and only if every write finds the count its request had read |
| `ThrottleRace.LongestChainIff` | crates/directory/src/login.rs:32-62 | with k workers every chain is at most b if and only if (limit + k choose k) - 1 is: the bound over every interleaving, and a run that attains it |
| `ThrottleRace.LimitHoldsIff` | crates/directory/src/login.rs:32-62 | the limit holds in every run if and only if there is no second worker |
| `ThrottleRace.CarefulChainIff` | crates/directory/src/throttle.rs:54-97 | where no write loses a count every chain is at most b if and only if limit + k - 1 is |
| `ThrottleRace.Play` | crates/directory/src/throttle.rs:90-97 | how idle workers attain it: one reads and waits, the others go on, its write takes the counter back |
| `Credentials.CredentialRegistry.SetPrimaryPassword` | crates/directory/src/credential_registry.rs:28-36 | the one primary password is replaced, everything else stays |
| `Credentials.CredentialRegistry.AddAppPassword` | crates/directory/src/credential_registry.rs:38-42 | one entry is added |
| `Credentials.CredentialRegistry.RevokeAppPassword` | crates/directory/src/credential_registry.rs:55-66 | exactly the app passwords of that id go, and whether any did |
| `Credentials.CredentialRegistry.SetTotp` | crates/directory/src/credential_registry.rs:68-73 | the one factor is replaced |
| `Credentials.CredentialRegistry.ClearTotp` | crates/directory/src/credential_registry.rs:75-83 | no factor is left, everything else stays |
| `Credentials.CredentialRegistry.RemoveAll` | crates/directory/src/credential_registry.rs:85-89 | the account's list is gone, other accounts keep theirs |
| `Credentials.CredentialRegistry.Write` | crates/directory/src/credential_registry.rs:91-102 | an empty list is removed, other accounts keep theirs, and every list has at most one primary password and one factor |
| `Credentials.WithoutPrimaryExact` | crates/directory/src/credential_registry.rs:30-30 | dropping primary passwords keeps every other entry, as often as it was there |
| `Credentials.WithoutFactorExact` | crates/directory/src/credential_registry.rs:70-70 | the same for factors |
| `Credentials.WithoutAppExact` | crates/directory/src/credential_registry.rs:58-60 | the same for the app passwords of one id |
| `Credentials.EditedListExact` | crates/directory/src/credential_registry.rs:28-89 | an edit puts in exactly what it names, takes out exactly what that replaces, and leaves everything else as often as it was there |
| `Credentials.Authenticate` | crates/directory/src/authenticate.rs:69-113 | every candidate is tried, any error is an error, and the first match decides and says whether a factor is owed |
| `Credentials.LetsExact` | crates/directory/src/authenticate.rs:69-113 | an interactive login is let in exactly for an active account when every password check succeeds and one says yes |
| `Credentials.MailExact` | crates/directory/src/authenticate.rs:69-113 | a mail login is granted exactly by the first entry its secret opens, password or app password, and owes no second factor |
| `Credentials.Begin` | crates/directory/src/totp_flow.rs:36-53 | let in exactly by a correct password without an enabled factor, a factor owed exactly with one |
| `Credentials.ConsumeRecoveryCode` | crates/directory/src/totp.rs:65-79 | the first matching hash is removed, and nothing on an error or without a match |
| `Credentials.Complete` | crates/directory/src/totp_flow.rs:55-87 | exactly when a code is accepted and when the step errs; only the first enabled factor decides, and at most its recovery codes change |
| `Credentials.WrittenIsConsumed` | crates/http/src/auth_totp.rs:40-49 | with at most one factor, the factor written back is the one consumed |
| `Credentials.TwoFactorsMismatch` | crates/http/src/auth_totp.rs:40-49 | with two it need not be |
| `Credentials.EditConserves` | crates/http/src/auth_totp.rs:37-57 | each change of a list keeps stored and spent codes together constant |
| `Credentials.CodesConserved` | crates/directory/src/totp_flow.rs:55-87 | between enrolments the codes stored and the codes spent are together the codes enrolled, as multisets |
| `Credentials.AcceptedConserves` | crates/http/src/auth_totp.rs:37-57 | a code accepted and written back takes from the stored codes exactly what proved it |
| `Credentials.AcceptedKeepsOthers` | crates/http/src/auth_totp.rs:40-49 | and changes no other entry, and of the factor nothing else |
| `SignIn.ChallengeIff` | crates/http/src/auth_login.rs:85-110 | a challenge is opened exactly for a request past the throttle, with the correct password of an active account that may have this kind of session, when its list has an enabled factor |
| `SignIn.PasswordSessionIff` | crates/http/src/auth_login.rs:40-120 | a password alone opens a session exactly for the recovery administrator asking for an administrator session, or for such a request when the list has no enabled factor; and which session |
| `SignIn.CodeSessionIff` | crates/http/src/auth_totp.rs:20-77 | a code opens a session exactly on an open challenge of an existing account whose first enabled factor accepts it, when both writes succeed; and which session |
| `SignIn.TooManyIff` | crates/http/src/auth_login.rs:40-95 | a request is turned away exactly when, at one of its looks, a subject it names has failed as often as the limit |
| `SignIn.PasswordCounts` | crates/http/src/auth_login.rs:40-120 | what each reply leaves counted for every subject: a refusal one failure more, unless it was an error of the server's own, any other reply leaves nothing counted, and being turned away changes nothing; so too for the recovery administrator |
| `SignIn.DanglingErrs` | crates/directory/src/login.rs:43-47 | a name that resolves to an account that is gone is refused and counts for nobody |
| `SignIn.PasswordFrame` | crates/http/src/auth_login.rs:40-120 | a password request leaves accounts and lists alone, and opens at most the challenge under its own key |
| `SignIn.CodeFrame` | crates/http/src/auth_totp.rs:20-77 | a code leaves accounts, the throttle, other challenges and other accounts' lists alone, and a refused one every list |
| `SignIn.CodeUsesUp` | crates/http/src/app.rs:51-66 | a code takes one attempt and leaves the rest of its challenge, which is gone once out of time or attempts or after a session, and stays after a wrong code in time |
| `SignInRuns.PendingGoesBack` | crates/http/src/app.rs:39-65 | in every run a pending challenge is the latest one opened under its key, never closed since, and its attempts left are five less those made since |
| `SignInRuns.OpeningsAreRightful` | crates/http/src/auth_totp.rs:20-77 | in every run, each session given is the recovery administrator's, one for a correct password on a list without an enabled factor, or came through the latest challenge under its key, opened for its account and kind, in time, within five attempts, by an acceptable code that was used up |
| `SignInRuns.SessionsAreRightful` | crates/http/src/auth_totp.rs:58-68 | every session stored in any state of any run was given so by some command before |
| `SignInRuns.FactorNeedsChallenge` | crates/http/src/auth_login.rs:98-110 | an account with an enabled factor gets a session only by a code, through a challenge |
| `SignInRuns.OneSessionPerChallenge` | crates/http/src/app.rs:63-65 | two sessions through one challenge are one and the same |
| `SignInRuns.StandingNotRechecked` | crates/http/src/auth_totp.rs:28-67 | replacing the account's record between the steps changes neither whether a session results nor anything in it but the role |
| `SignInRuns.AdminByCode` | crates/http/src/auth_totp.rs:58-67 | an administrator session by code was opened for an administrator and carries the role of its own moment |
| `SignInRuns.DemotedStillGetsIn` | crates/http/src/auth_totp.rs:28-67 | a run in which an account disabled and demoted between the steps gets an administrator session |
| `SignInRuns.LimitsHold` | crates/directory/src/login.rs:32-62 | in every run no chain of failures, of an address or of an account, passes the limit |
| `Lockout.LocksOut` | crates/directory/src/throttle.rs:54-97 | in every run with an orderly clock, as many failures of an address or account as the limit, each within the window of the one before and no right password since the first, turn away a request that names it and looks within the window of the last |
| `Lockout.CountedIsStreak` | crates/directory/src/throttle.rs:54-97 | in every run from nothing recorded, everything counted for a subject is such a streak, its last failure still within the window |
| `Lockout.OnlyStreaksLock` | crates/directory/src/throttle.rs:72-80 | and a request is turned away only for such a streak of a subject it names, at least as long as the limit |
| `SignInRuns.RunConservesCodes` | crates/http/src/auth_totp.rs:37-57 | in every run, requests one at a time, the codes stored for an account and those spent since are together those it had, between enrolments |
| `SecondFactorRace.StoreLeaves` | crates/directory/src/credential_registry.rs:68-73 | whatever list is found, a write leaves the codes its request had read less the one it accepted |
| `SecondFactorRace.ConservesIff` | crates/http/src/auth_totp.rs:31-57 | in every interleaving of second steps, codes stored and accepted stay together those at the start if and only if every write finds the codes its request had read |
| `SecondFactorRace.NoneTwice` | crates/http/src/auth_totp.rs:31-57 | while they do, no code is accepted more often than it was enrolled |
| `SecondFactorRace.SerialConserves` | crates/http/src/auth_totp.rs:31-57 | requests that do not overlap conserve the codes |
| `SecondFactorRace.OneCodeTwice` | crates/http/src/auth_totp.rs:31-57 | two that overlap accept one code twice |
| `Login.PendingChallenges.TakeAttempt` | crates/http/src/app.rs:51-61 | an open challenge gives account and kind for one attempt, a spent or expired one is dropped |
| `Login.Server.RecoveryLogin` | crates/http/src/auth_login.rs:54-83 | the whole new state and reply of a recovery login, success and failure |
| `Login.Server.ProceedWith` | crates/http/src/auth_login.rs:98-118 | after a correct password: refusal before any challenge for a non-administrator, a challenge with an enabled factor, else a session; and the whole new state |
| `Login.Server.CheckPassword` | crates/directory/src/login.rs:43-52 | the trial of every candidate comes down to whether the account is active and some primary password matches, and changes nothing |
| `Login.Server.LogIn` | crates/http/src/auth_login.rs:40-120 | the whole new state and reply of the password step, from the throttle to the session, are those of the step, under the plain form of the user name |
| `Login.Server.Prove` | crates/http/src/auth_totp.rs:31-57 | accepted exactly when the first enabled factor accepts and the write succeeds, refused exactly when it does not accept without error; the list gives up exactly the proof |
| `Login.Server.RedeemCode` | crates/http/src/auth_totp.rs:28-68 | the whole new state and reply of a granted attempt |
| `Login.Server.AnswerChallenge` | crates/http/src/auth_totp.rs:25-68 | the whole new state and reply of an answer are those of the step |
| `Login.Server.SecondStep` | crates/http/src/auth_totp.rs:20-77 | refused unchanged exactly for a code blank once trimmed or over 64 bytes, else that step |
| `Login.Server.Serve` | crates/http/src/auth_login.rs:40-120 | serving commands one after the other is a run of the steps, with these replies |
| `Login.ServeFromStart` | crates/http/src/auth_totp.rs:20-77 | from a new server, whatever is asked: every session given and every session stored is rightful in the sense above, and no failure chain passes the limit |
| `Sieve.DecodeOfEncode` | crates/directory/src/sieve_registry.rs:165-191 | reading back what was written gives the scripts, active flags included |
| `Sieve.DecodeReads` | crates/directory/src/sieve_registry.rs:38-62 | each field is read from the field of its name: text as it is and anything else as an empty text, the flag as it is and, outside a legacy list, anything else as off |
| `Sieve.LegacyReadsOneActive` | crates/directory/src/sieve_registry.rs:38-62 | a list without flags reads with its first script active and no other |
| `Sieve.SieveScriptRegistry.List` | crates/directory/src/sieve_registry.rs:30-64 | the two passes over the stored entries decode them |
| `Sieve.SieveScriptRegistry.ActiveScript` | crates/directory/src/sieve_registry.rs:73-78 | the one active script, or none |
| `Sieve.SieveScriptRegistry.Create` | crates/directory/src/sieve_registry.rs:80-103 | a name in use is refused and nothing changes, else the script is appended, active exactly when it is the first |
| `Sieve.SieveScriptRegistry.Update` | crates/directory/src/sieve_registry.rs:105-138 | a name another script bears is refused, an unknown id changes nothing, else that script has what was given and is otherwise as it was, as is every other |
| `Sieve.SieveScriptRegistry.SetActive` | crates/directory/src/sieve_registry.rs:140-152 | exactly the chosen script is active, or none; an unknown id changes nothing |
| `Sieve.SieveScriptRegistry.Destroy` | crates/directory/src/sieve_registry.rs:154-163 | exactly the scripts of that id go |

## Left out

- The key-value store on disk, the change notifier and their failures other than a refused write: the model has an ordered byte map with atomic batches.
- JSON and TOML text: values are stored typed, except the shape of Sieve entries, which their migration needs.
- Parsing of IP address text: a parameter; the prefix after the slash is modelled.
- Account and domain fields that no modelled operation reads (quota, forwarding, vacation, DKIM keys and the like).
- Catch-all entries whose target account was deleted: the code makes no claim about them.
- The account list's search by address and the thin wrappers around the modelled operations.
- `zone_file` beyond the value column of TXT records.
- Rendering of observed A, AAAA, CNAME, MX and SRV values, and DNS resolution.
- The XML of DAV requests and replies, etags, properties and the text form of sync tokens; iCalendar and vCard parsing.
- Byte keys of the calendar, credential, throttle and Sieve records: those stores are modelled as typed maps.
- A 64-bit overflow of the change counter, and a 64-bit token of the largest value.
- Password hashing, one-time code generation, encryption and random numbers: parameters.
- Session storage, idle limits and renewal, HTTP routing and middleware.
- Interleavings inside Sieve and calendar operations, and of whole password steps beyond one subject's counter, which take no lock: the model runs them one at a time and does not show what two at once could do.
- Key listing, key revocation and the recovery code generator.
- The SMTP, IMAP, JMAP, Sieve execution, TLS, backup and push crates.
