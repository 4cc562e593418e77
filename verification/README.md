# PantherAPI chat-bot back end, modelled in Dafny

This project models PantherAPI, the HTTP back end of a Nightbot chat bot. It covers three features:

- **Queue.** `QueueController` keeps one play queue per streaming channel. Viewers join a game's queue (`QueueUser`), leave it (`DeQueueUser`) or ask for their place (`UserPosition`). The streamer pulls the next players (`NextInQueue`), clears a queue (`ClearQueue`) and configures games, positions and position aliases (`AddGame`, `AddPosition`, `AddAlias`). Every endpoint first loads or creates the channel's settings record (`Setup`).
- **Counters.** `CountController` and `Counter` keep named per-channel tallies ("@channel has died 17 times"): `Count`, `Subtract`, `Reset` and `Define`.
- **Bonk.** `BonkController` and `BonkedUser` keep a per-channel "jail": `Bonk` jails a user, `Jailed` lists who is still in jail, and `Jailbreak` is a coin-flip escape attempt.
- **Text helpers.** From `Utils`: `Stringify` (ordinals), `MultiStringify` ("once", "twice", "N times") and the "@" prefix rule for user names.

## How things are modelled

**Stored data.**
- Each LiteDB collection is a sequence of records in store order.
- `FindOne` and `FirstOrDefault` return the first match.
- `Update` writes back at the record's index.
- The queue database (`QueueController.QueueDb`) holds two things: the shared settings collection, and one queue collection per channel.
- The counter and bonk endpoints work on the caller's channel collection, given as a sequence.

**Records and time.**
- Records are immutable datatypes, and every endpoint is a pure function returning the new state and its reply.
- A nullable string or date is an `Option`.
- A C# `int` is `Int32.Int32`; unchecked overflow is written out with `Int32.Wrap`.
- Instants and durations are whole .NET ticks (`BonkedUsers.TicksPerMinute`).
- The clock is a `now` parameter.

**Queue order.** LINQ's `OrderBy(Priority).ThenBy(TimeQueued).ThenByDescending(LastPlayed)` is stable. It is modelled by a generic stable insertion sort (`StableSort.Sort`) with the key order `QueueOrder.RanksNoLater`. This module proves:
- the sort returns a sorted permutation;
- records with equal keys keep store order.

**Behaviours of the code that the model keeps on purpose.** Where a comment in the code or a parameter's documentation promises otherwise, the model follows the code:
- **New entries.** A user who joins for the first time gets priority 0. The constructor never sets `Priority`, although the parameter's documentation says it defaults to 10. `ClearQueue` writes 10.
- **Never-played users rank last.** `ThenByDescending` on a nullable date ranks records that have never played (null `LastPlayed`) after those that have. The property comment on `LastPlayed` says they get priority.
- **Position lookup.** `UserPosition` searches only the next five records, the default `Take(5)`. A user further back reads as -1, which prints "next", the same word as for the first in line.
- **"Any" in `QueueUser`.** Only `QueueUser` resolves "Any" to the channel's default game. `DeQueueUser`, `NextInQueue`, `UserPosition` and `ClearQueue` take the game literally. For `ClearQueue`, "Any" means every game.
- **`Skip` does nothing.** `DeQueueUser` removes the record whatever `Skip` says.
- **A played record always re-queues.** A record that has ever been played (non-null `LastPlayed`) takes the reactivation branch on every later join, which resets its queue time.
- **An empty in-game name overwrites.** Updating an active record with an empty in-game name overwrites the stored one.
- **Pulled records come back removed.** `GetQueue` with `Remove` returns records that already carry `Removed == true`, because the lazy query is enumerated again after the update.
- **An alias on an existing position is never stored.** `AddAlias` changes the object in memory but never calls `coll.Update`, yet it reports success. `ChannelConfig.AliasAppended` is that lost in-memory change.
- **Unused settings.** `DefaultLimit`, `DefaultPosition` and `RequireApprovedAlias` are never read.
- **`Define` does not touch the label.** On an existing counter, the reply says the label has been updated, but nothing is written.
- **The jailbreak test is inverted.** An attempt is refused once `NextJailBreakChance` has passed, and allowed while it is still ahead. So a freshly bonked user can never escape after the instant of the bonk. After an attempt, more attempts are open for one hour.
- **`MaxSentence` is never applied.** The cap of 24 hours is declared but no code path uses it.
- **Ordinal suffixes.** `Stringify` picks the suffix from the last digit only ("11st", "12nd", "13rd"). Its `number + 1` wraps at `int.MaxValue`.

## Model

| member | source | states |
|---|---|---|
| `Int32.Wrap` | PantherAPI/Counter.cs:26 | the stored `int` differs from the exact result by a multiple of 2^32 and equals it when in range |
| `Int32.AddThenSubtractWraps` | PantherAPI/Counter.cs:24-35 | adding and then subtracting the same `int` restores any `int`, overflow or not |
| `SeqSearch.FirstIndex` | PantherAPI/Controllers/QueueController.cs:332 | the index found is a match, nothing before it matches, and none is found exactly when nothing matches |
| `QueueRecords.NewQueuedUser` | PantherAPI/QueuedUser.cs:56-63 | a new entry carries the given user, game, position and in-game name, is queued now, and has priority 0, no last-played date, and is neither skipped nor removed |
| `QueueRecords.NewGamePosition` | PantherAPI/GamePosition.cs:16-19 | a new position has the given name and no aliases |
| `QueueRecords.NewGameSettings` | PantherAPI/GameSettings.cs:12-15 | a new game has squads of five, requires an in-game name, needs no approved alias and has no positions |
| `QueueRecords.NewChannelQueueSettings` | PantherAPI/ChannelQueueSettings.cs:12-25 | new channel settings have limit 5, "Any" as default game and position, no games, and are valid |
| `SeqSearch.Take` | PantherAPI/Controllers/QueueController.cs:355 | `Take(n)` is the prefix of length n, or all of the sequence, or nothing for n <= 0 |
| `StableSort.SortPermutes` | PantherAPI/Controllers/QueueController.cs:352-354 | the LINQ order-by returns a permutation of its input |
| `StableSort.SortSorted` | PantherAPI/Controllers/QueueController.cs:352-354 | under a total preorder the result is sorted |
| `StableSort.SortStable` | PantherAPI/Controllers/QueueController.cs:352-354 | elements with the same key keep their input order (LINQ's sort is stable) |
| `Utils.NatToString` | PantherAPI/Utils.cs:21 | `int.ToString()` of a non-negative number is non-empty decimal digits, no leading zero, ending in the last digit |
| `Utils.NatToStringRoundTrip` | PantherAPI/Utils.cs:56 | reading the digits back gives the number |
| `Utils.Stringify` | PantherAPI/Utils.cs:12-37 | zero and negatives give the zero message; otherwise number+1 in digits followed by the suffix of its last digit |
| `Utils.StringifyWrapsAtMax` | PantherAPI/Utils.cs:19 | at int.MaxValue the increment wraps and the text starts with '-' and ends in "th" |
| `Utils.StringifyTeens` | PantherAPI/Utils.cs:21-36 | 10, 11, 12 come out as "11st", "12nd", "13rd" |
| `Utils.MultiStringify` | PantherAPI/Utils.cs:39-58 | the zero message, "once", "twice", else the number and " times" |
| `Utils.MultiStringifyCountReadable` | PantherAPI/Utils.cs:56 | above two the digits before " times" parse back to the count |
| `Utils.AtPrefixed` | PantherAPI/Utils.cs:80 | the result starts with "@", a name with "@" is kept, otherwise "@" is prepended |
| `Utils.IntToString` | PantherAPI/Utils.cs:56 | `int.ToString()`: non-empty, a leading '-' exactly for negatives, and the last character is the last decimal digit |
| `Utils.IntToStringRoundTrip` | PantherAPI/Utils.cs:56 | after an optional '-', the text is all digits and reads back as the number's magnitude |
| `Utils.OrdinalSuffix` | PantherAPI/Utils.cs:21-36 | "st", "nd", "rd" for a last digit of 1, 2, 3 and "th" for every other last character |
| `QueueOrder.RanksNoLaterIsTotalPreorder` | PantherAPI/Controllers/QueueController.cs:352-354 | the (Priority, TimeQueued, LastPlayed descending) order is reflexive, total and transitive |
| `QueueOrder.RanksNoLaterAntisymmetric` | PantherAPI/Controllers/QueueController.cs:352-354 | two keys that rank no later than each other are equal |
| `QueueOrder.NeverPlayedRanksLast` | PantherAPI/Controllers/QueueController.cs:354 | with equal priority and queue time, a never-played record ranks after a played one |
| `QueueSelection.Candidates` | PantherAPI/Controllers/QueueController.cs:348-351 | exactly the records of the game that are not removed, each with its store index, in store order |
| `QueueSelection.RankingSpec` | PantherAPI/Controllers/QueueController.cs:348-355 | the queue order lists every selectable record once and nothing else, sorted, with ties in store order |
| `QueueSelection.RankingTieInStoreOrder` | PantherAPI/Controllers/QueueController.cs:352-354 | two places of the queue order with the same key hold records in store order |
| `QueueSelection.RankingLength` | PantherAPI/Controllers/QueueController.cs:350-354 | sorting keeps the number of candidates |
| `QueueSelection.ChosenFromQueue` | PantherAPI/Controllers/QueueController.cs:350-355 | `Take(Limit ?? 5)` of the order: distinct selectable records in queue order |
| `QueueSelection.RankOf` | PantherAPI/Controllers/QueueController.cs:350-354 | every selectable record has a place in the queue order |
| `QueueSelection.RankedBefore` | PantherAPI/Controllers/QueueController.cs:352-354 | an earlier place in the queue order ranks no later |
| `QueueSelection.ChosenAreBest` | PantherAPI/Controllers/QueueController.cs:352-355 | no selectable record left behind ranks before a chosen one |
| `QueueSelection.GetQueue` | PantherAPI/Controllers/QueueController.cs:343-368 | the chosen records are returned with `Removed` set to the flag; with `Remove` exactly they are marked removed, without it nothing changes |
| `QueueSelection.PickedFromQueue` | PantherAPI/Controllers/QueueController.cs:350-366 | each returned record is a selectable record of the collection with `Removed` set to the flag |
| `QueueSelection.PickedInOrder` | PantherAPI/Controllers/QueueController.cs:352-355 | the returned records come in queue order |
| `QueueSelection.GetQueueSelects` | PantherAPI/Controllers/QueueController.cs:343-366 | what `GetQueue` returns: at most the limit, from the game, best first, none better left behind |
| `QueueSelection.GetUserPositionInQueue` | PantherAPI/Controllers/QueueController.cs:330-333 | the first index of the user among the next five, or -1 |
| `QueueMembership.Join` | PantherAPI/Controllers/QueueController.cs:89-141 | the in-game-name gate refuses exactly when the rule says; the only insert is one fresh record; others untouched; no record changes its key or loses its last-played date; every reply names the caller, and "now queued" names the game "Any" resolved to |
| `QueueMembership.JoinKeepsValid` | PantherAPI/Controllers/QueueController.cs:104-139 | joining keeps one record per (game, user): a record is inserted only when none matches; nobody is stored skipped |
| `QueueMembership.Dequeue` | PantherAPI/Controllers/QueueController.cs:152-171 | not found exactly when no record matches; the reply carries the user and game asked for; the match is marked removed and played now; unique keys kept |
| `QueueMembership.Clear` | PantherAPI/Controllers/QueueController.cs:180-196 | every record in scope ends removed; active ones are unskipped, stamped played and reset to priority 10; the rest untouched |
| `ChannelConfig.AddGame` | PantherAPI/Controllers/QueueController.cs:208-243 | updated exactly when the name exists, the reply carrying the game name; an existing game is edited in place, a new one appended; the default game is adopted only for a sole game while it is "Any" |
| `ChannelConfig.AddGameKeepsValid` | PantherAPI/Controllers/QueueController.cs:215-237 | game, position and alias names stay unique after `AddGame` |
| `ChannelConfig.AddPositionKeepsValid` | PantherAPI/Controllers/QueueController.cs:259-270 | a position is appended only when none of its name is there, so names stay unique |
| `ChannelConfig.AddAliasKeepsValid` | PantherAPI/Controllers/QueueController.cs:296-314 | the stored settings stay valid: a new position is appended only when none of its name exists |
| `ChannelConfig.AddGameLeavesOneGame` | PantherAPI/Controllers/QueueController.cs:215-232 | afterwards exactly one game has the name |
| `ChannelConfig.AddPosition` | PantherAPI/Controllers/QueueController.cs:253-277 | unknown game exactly when no game has the name; "exists" exactly when the position is there; otherwise one position appended; each reply carries the position and game asked for |
| `ChannelConfig.AddPositionTwice` | PantherAPI/Controllers/QueueController.cs:259-270 | a repeated `AddPosition` finds the position and changes nothing |
| `ChannelConfig.AddAlias` | PantherAPI/Controllers/QueueController.cs:288-321 | unknown game exactly when no game has the name; in the first game of that name a missing position is stored holding just the alias and reported added, an existing position leaves the stored settings as they were; the alias is reported as known exactly when the first position of that name already lists it |
| `ChannelConfig.AliasAppendedKeepsValid` | PantherAPI/Controllers/QueueController.cs:296-305 | the lost in-memory change would append only an alias not yet listed, so aliases stay distinct |
| `ChannelConfig.AliasAppended` | PantherAPI/Controllers/QueueController.cs:296-305 | the in-memory change: the first position of that name in the first game of that name gains the alias unless it lists it already; every other game, position and field is as it was |
| `ChannelConfig.AliasOnExistingPositionIsLost` | PantherAPI/Controllers/QueueController.cs:296-314 | an alias for an existing position is reported added, not stored, and reported added again next time |
| `QueueController.StoreQueue` | PantherAPI/Controllers/QueueController.cs:362 | writing a channel's queue leaves the settings and every other channel's queue unchanged |
| `QueueController.Setup` | PantherAPI/Controllers/QueueController.cs:28-45 | the channel's first settings record is used, or exactly one default record is appended; channels stay unique |
| `QueueController.NextInQueue` | PantherAPI/Controllers/QueueController.cs:56-62 | returns `GetQueue` with the given limit; the channel's queue afterwards is the one `GetQueue` leaves, so with `Remove` the picked records are written back marked removed; other channels untouched; without `Remove` the queue is untouched |
| `QueueController.UserPosition` | PantherAPI/Controllers/QueueController.cs:72-77 | the lookup changes no queue |
| `QueueController.QueueUser` | PantherAPI/Controllers/QueueController.cs:89-141 | the channel's queue and reply are those of `Join` for the "@"-prefixed caller; other channels untouched |
| `QueueController.DeQueueUser` | PantherAPI/Controllers/QueueController.cs:152-171 | the queue and reply are those of `Dequeue` for the explicit or calling user |
| `QueueController.ClearQueue` | PantherAPI/Controllers/QueueController.cs:180-196 | the channel's queue is `Clear`ed, other channels untouched |
| `QueueController.StoreSettings` | PantherAPI/Controllers/QueueController.cs:239 | the record `Setup` found or inserted becomes the given settings; every other record and every queue is unchanged |
| `QueueController.AddGame` | PantherAPI/Controllers/QueueController.cs:208-243 | queues untouched; the channel's record (found or inserted by `Setup`) becomes the settings `ChannelConfig.AddGame` gives, every other record is unchanged; the reply is `ChannelConfig.AddGame`'s |
| `QueueController.AddPosition` | PantherAPI/Controllers/QueueController.cs:253-277 | queues untouched; the channel's record becomes the settings `ChannelConfig.AddPosition` gives, every other record is unchanged; the reply is `ChannelConfig.AddPosition`'s |
| `QueueController.AddAlias` | PantherAPI/Controllers/QueueController.cs:288-321 | queues untouched; the channel's record becomes the settings `ChannelConfig.AddAlias` stores, every other record is unchanged; the reply is `ChannelConfig.AddAlias`'s |
| `QueueProperties.ApplyKeepsValid` | PantherAPI/Controllers/QueueController.cs:28-368 | every endpoint keeps one settings record per channel, unique names, one queue record per (game, user) and no skipped record |
| `QueueProperties.PullKeepsValid` | PantherAPI/Controllers/QueueController.cs:357-364 | marking pulled records removed keeps keys unique and nobody skipped |
| `QueueProperties.ApplyKeepsHistory` | PantherAPI/Controllers/QueueController.cs:104-192 | no record is ever deleted or re-keyed, a last-played date is never cleared, other channels are untouched |
| `QueueProperties.SetupOnce` | PantherAPI/Controllers/QueueController.cs:35-43 | a second `Setup` changes nothing: the defaults are inserted at most once |
| `QueueProperties.FreshJoinHasPriorityZero` | PantherAPI/Controllers/QueueController.cs:135-138 | a first join stores a record with priority 0 whatever was asked |
| `QueueProperties.RejoinReactivates` | PantherAPI/Controllers/QueueController.cs:111-118 | an inactive record is reactivated in place: flags cleared, queued now, in-game name filled only when null |
| `QueueProperties.JoinWhileQueuedUpdates` | PantherAPI/Controllers/QueueController.cs:120-127 | an active record gets the new priority and position, and a non-null in-game name |
| `QueueProperties.PlayedRecordRequeuesOnJoin` | PantherAPI/Controllers/QueueController.cs:111 | a record with a last-played date is re-queued at now on every admitted join |
| `QueueProperties.RequireIgnReadsOnlyTheNameFlag` | PantherAPI/Controllers/QueueController.cs:99 | the in-game-name rule does not depend on `RequireApprovedAlias` |
| `QueueProperties.JoinAnyMeansDefault` | PantherAPI/Controllers/QueueController.cs:94-97 | joining "Any" is joining the channel's default game (or "Any" when none is set) |
| `QueueProperties.ChannelDefaultsUnused` | PantherAPI/ChannelQueueSettings.cs:12-18 | changing `DefaultLimit` or `DefaultPosition` does not change what a join does |
| `QueueProperties.DequeueIgnoresSkip` | PantherAPI/Controllers/QueueController.cs:152-171 | `DeQueueUser` does the same with and without `Skip` |
| `QueueProperties.NextIgnoresPosition` | PantherAPI/Controllers/QueueController.cs:56-62 | the `Position` argument of `NextInQueue` makes no difference |
| `QueueProperties.PeekIsRepeatable` | PantherAPI/Controllers/QueueController.cs:343-366 | a look without `Remove` changes nothing, so a second look returns the same records |
| `QueueProperties.JoinLeaveJoin` | PantherAPI/Controllers/QueueController.cs:104-163 | join, leave, join again reactivates the same record and adds none |
| `QueueProperties.JoinedRecord` | PantherAPI/Controllers/QueueController.cs:111-138 | after "now queued" the user has an active record the gate accepts |
| `QueueProperties.EmptyNameOverwritesStoredName` | PantherAPI/Controllers/QueueController.cs:124 | an empty in-game name replaces a stored one, and the next join without a name is refused |
| `QueueProperties.DequeueLeavesRanking` | PantherAPI/Controllers/QueueController.cs:159-163 | after leaving, the user is nowhere in that game's queue order |
| `QueueProperties.ClearEmptiesSelection` | PantherAPI/Controllers/QueueController.cs:186-192 | after clearing a game (or "Any") nothing of it can be selected or pulled |
| `QueueProperties.PullsAreDisjoint` | PantherAPI/Controllers/QueueController.cs:357-363 | two pulls with `Remove` never hand out the same record |
| `QueueProperties.RankingUsersDistinct` | PantherAPI/Controllers/QueueController.cs:350-354 | in a valid queue one game's order holds each user once |
| `QueueProperties.PositionIsRank` | PantherAPI/Controllers/QueueController.cs:330-333 | the reported position is the user's rank when below five, else -1 |
| `QueueProperties.PositionOfAbsentUser` | PantherAPI/Controllers/QueueController.cs:330-333 | a user without a selectable record is at -1 |
| `QueueProperties.PositionRendersNext` | PantherAPI/Controllers/QueueController.cs:76 | the reply says "next" exactly for positions -1 and 0 |
| `Counters.Add` | PantherAPI/Counter.cs:24-28 | the count grows by the amount, modulo 2^32; name and label kept |
| `Counters.Subtract` | PantherAPI/Counter.cs:30-35 | never below zero; without overflow the count shrinks by the amount (floored at zero); an overflow below `int.MinValue` wraps to the difference plus 2^32, an overflow above `int.MaxValue` wraps negative and is floored to zero |
| `Counters.SubtractOverflowGrows` | PantherAPI/Counter.cs:30-35 | subtracting `int.MaxValue` from a count of -5 makes the count grow to `int.MaxValue - 3` |
| `Counters.Reset` | PantherAPI/Counter.cs:37-40 | the count is zero, name and label kept |
| `Counters.AddThenSubtractRestores` | PantherAPI/Counter.cs:24-35 | subtracting what was added restores a non-negative counter, even across overflow |
| `Counters.SubtractThenAddFloors` | PantherAPI/Counter.cs:30-35 | subtracting then adding back yields the larger of the old count and the amount |
| `Counters.AddWrapsAtMax` | PantherAPI/Counter.cs:26 | adding one at int.MaxValue gives int.MinValue |
| `CountController.Tally` | PantherAPI/Controllers/CountController.cs:46-70 | the first counter of the name is changed and takes a non-null label, or a new one is appended; the reply reports it |
| `CountController.Count` | PantherAPI/Controllers/CountController.cs:40-72 | adds to the counter or starts it at the amount; others untouched; names stay unique |
| `CountController.Subtract` | PantherAPI/Controllers/CountController.cs:83-115 | subtracts with the floor, or starts a missing counter at zero; the count is never negative |
| `CountController.Reset` | PantherAPI/Controllers/CountController.cs:124-143 | zeroes the first counter of the name and replies that it has been reset; "not tracked" exactly when there is none |
| `CountController.Define` | PantherAPI/Controllers/CountController.cs:154-171 | an existing counter is left as it is, while the reply shows its count and claims the label was updated; otherwise one counter with the label and seed is appended and the reply shows a sample with the label and the example count |
| `CountController.CountThenSubtractRestores` | PantherAPI/Controllers/CountController.cs:40-115 | counting then subtracting the same amount restores the collection |
| `CountController.DefineKeepsExistingLabel` | PantherAPI/Controllers/CountController.cs:160-163 | `Define` never changes an existing label, whatever its reply says |
| `CountController.DefineThenCount` | PantherAPI/Controllers/CountController.cs:40-171 | after `Define` of a new name, the next count adds to the seed, keeps the label, and is reported for that counter |
| `CountController.CountAppended` | PantherAPI/Controllers/CountController.cs:47-55 | a counter found last, with none of its name before it, gets the amount added in place |
| `CountController.LabelledReport` | PantherAPI/Controllers/CountController.cs:68-69 | a labelled counter is reported as "@channel has label N times" |
| `CountController.ResetThenCount` | PantherAPI/Controllers/CountController.cs:124-143 | after a reset the next count reports exactly the amount |
| `BonkedUsers.NewBonkedUser` | PantherAPI/BonkedUser.cs:40-46 | a first bonk is dated now, released after the sentence, eligible for a jailbreak from now |
| `BonkController.RemoveSpaces` | PantherAPI/Controllers/BonkController.cs:55 | no space is left, every other character is kept as often as it occurs, a space-free string is unchanged |
| `BonkController.RemoveSpacesAppend` | PantherAPI/Controllers/BonkController.cs:55 | removing spaces from a concatenation is the concatenation of the pieces with spaces removed, so the kept characters stay in order |
| `BonkController.Normalize` | PantherAPI/Controllers/BonkController.cs:53-55 | the name starts with "@" and has no space; it is the raw name with its spaces removed when the raw name starts with "@", and "@" followed by that otherwise |
| `BonkController.NormalizeIdempotent` | PantherAPI/Controllers/BonkController.cs:53-55 | normalising a normalised name changes nothing |
| `BonkController.LeadingSpaceDoublesAt` | PantherAPI/Controllers/BonkController.cs:53-55 | a space-free name starting with "@", sent with a leading space, ends up with two "@" |
| `BonkController.JailTime` | PantherAPI/Controllers/BonkController.cs:52 | five minutes for 0, otherwise the minutes capped at 300 with no lower bound: any non-zero value up to 300, negatives included, is taken as it is |
| `BonkController.Bonk` | PantherAPI/Controllers/BonkController.cs:39-78 | placeholder and missing channel change nothing; a known user's release moves a sentence past max(release, now); a new user is appended; only the bonked user's record changes |
| `BonkController.BonkKeepsUnique` | PantherAPI/Controllers/BonkController.cs:57-73 | bonking keeps one record per user name |
| `BonkController.BonkAgain` | PantherAPI/Controllers/BonkController.cs:62-68 | bonking a user still in jail adds the sentence to the current release date |
| `BonkController.MaxSentenceNotEnforced` | PantherAPI/Controllers/BonkController.cs:30 | a user already a day in jail is jailed longer by a further bonk |
| `BonkController.StillJailed` | PantherAPI/Controllers/BonkController.cs:96 | exactly the records whose release date is ahead, with their multiplicities |
| `BonkController.StillJailedIndices` | PantherAPI/Controllers/BonkController.cs:95-96 | the kept records are those of the collection at strictly increasing positions, covering every record still in jail: the `Where` keeps store order |
| `BonkController.Jailed` | PantherAPI/Controllers/BonkController.cs:86-102 | the names of the jailed records in the order of `InJail` |
| `BonkController.InJailSpec` | PantherAPI/Controllers/BonkController.cs:95-99 | the jailed records, each as often as stored, by date bonked, ties in store order |
| `BonkController.Jailbreak` | PantherAPI/Controllers/BonkController.cs:111-160 | not in jail exactly when no record; refused once the next chance has passed; otherwise freed or 300 minutes added, next chance in an hour, only that record changing; no record changes its user |
| `BonkController.Attempt` | PantherAPI/Controllers/BonkController.cs:143-145 | an allowed attempt frees the record now on success or adds 300 minutes to its release, sets the next chance an hour ahead, and leaves every other record as it was |
| `BonkController.FirstBonkBlocksLaterJailbreaks` | PantherAPI/Controllers/BonkController.cs:134-140 | after a first bonk, a jailbreak is refused exactly when attempted later than the bonk |
| `BonkController.JailbreakCooldownInverted` | PantherAPI/Controllers/BonkController.cs:137-144 | after an attempt, another is refused exactly when more than an hour later |

## Left out

- HTTP routing, query binding, JSON output and the header parsing of `GetChannel`/`GetUser`: the channel name, the raw caller name and (for the bonk endpoints) whether the channel header was present are parameters. The exceptions thrown for missing headers are not modelled.
- Null query parameters other than those the code tests for null (`User`, `InGameName`, `Label`): a null `Bonkee`, `Name` or `Game` throws or queries for null in the code and is not modelled.
- String comparison inside LiteDB queries: the lookups `FindOne` and `Query().Where` in QueueController.cs (lines 35, 104, 159, 350), CountController.cs (lines 47, 90, 131, 160) and BonkController.cs (lines 62, 134) run under the database's collation. The databases are opened without one, so LiteDB 5's default collation applies, which is documented to ignore case. The model compares channel, game, user and counter names by exact equality, so "Foo" and "foo" name different records here. The in-memory lookups on `Games`, `Positions` and `Aliases` are ordinal in the code too.
- String mapping on storage: the databases use LiteDB's default `BsonMapper`, which is documented to trim strings and to store an empty string as null. The model stores strings exactly as given. With a name ending in a space, the stored name and the name looked up in memory then differ, so game, position and in-game names can behave differently from the model. The members below rest on this.
- ChannelConfig.AddGameKeepsValid: unique game names are proved for the strings as given; after trimming, `AddGame("League ")` twice can store two games named "League".
- ChannelConfig.AddPositionKeepsValid: likewise for position names that differ only by surrounding spaces.
- QueueProperties.ApplyKeepsValid: rests on the two lemmas above for the settings part of the invariant.
- QueueProperties.EmptyNameOverwritesStoredName: states the overwrite with `Some("")`; once stored, LiteDB reads that back as null, so a later join's `??=` refill would fill it in.
- QueueMembership.Join: the program compares the request's untrimmed game name with the stored, trimmed game names, so it can miss the game's in-game-name flag and let a user in where the model refuses.
- LiteDB itself: database paths, ids, `EnsureIndex`, the millisecond truncation of stored dates, and the order of `OrderBy` in a LiteDB query, which `Jailed` is assumed to keep stable in store order.
- The clock is read several times in one request in the code; the model reads it once (`now`).
- `DateTime` range limits: instants are unbounded integers, so adding a sentence never overflows.
- Randomness: the jailbreak's coin flip is the `success` parameter and `Define`'s sample count is the `example` parameter (1 to 46).
- Concurrency: every request runs alone on the state it is given; races between requests on the same collection are not modelled.
- Reply wording: `QueueUser`, `DeQueueUser`, `AddGame`, `AddPosition`, `AddAlias`, `Bonk` and `Jailbreak` replies are tags carrying the values the text shows; the rendering of dates in bonk replies is not modelled. `UserPosition`, `ClearQueue` and the counter replies are modelled as text.
- `StartsWith("@")` is culture-sensitive in .NET; the model compares the first character.
- QueueController.UserPosition: its contract covers the state only; the reply is stated by `QueueProperties.PositionIsRank` and `QueueProperties.PositionRendersNext`.
- QueueController.ClearQueue: its contract covers the state only; the reply text is not stated.
- BonkController.BonkAgain: assumes one record per user name, an invariant `Bonk` keeps (`BonkController.BonkKeepsUnique`); with duplicate names the code would still update only the first.
