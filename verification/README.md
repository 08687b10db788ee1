# Verified models of the gateway's core algorithms

This project models the parts of the API gateway whose behaviour is hardest to see
from the code alone, and proves what they promise, for every input, every run and
every interleaving. It covers:

- the worker pool that tests channels concurrently, as a state machine over the steps
  of its goroutines (`WorkerPool`);
- the in-memory rate limiter with its cleaner (`RateLimiter`);
- the injection of a configuration into the signing block of an APK
  (`Bytes`, `ApkSigningBlock`), and the rewriting of JSON to pure ASCII (`AsciiJson`);
- the reconciliation of a channel's models with its upstream
  (`NameLists`, `Text`, `UpstreamModels`), and the bookkeeping of multi-key channels
  (`MultiKey`);
- request bodies kept in memory or on disk (`BodyStorage`) and the gauges that count
  them under concurrency (`UsageGauges`);
- the distribution of disk space (`DiskAllocation`), the duration of Opus files
  (`OpusScanner`), the refund of failed Midjourney tasks (`MidjourneyRefund`), mail
  messages (`Base64`, `HtmlText`, `HtmlLaws`, `MailMessage`, `MailReader`, `MailHeaders`),
  verification codes (`VerificationStore`) and quota conversion (`QuotaMath`); `Basics`
  holds what they share.

Objects that the program updates in place are classes with the same fields; loops are
methods with invariants; each is proved equal to a specification function, and the
lemmas about that function state what the program promises. Clocks, network replies,
regular expression matching, UTF-8 encoding and the failure of a disk write are
parameters. Run `dafny verify dfyconfig.toml` to check the whole project.

## Where the code does not do what it seems to promise

Each of these is kept as the code has it; the lemmas show failing cases and the exact
condition under which the promise holds.

- The rate limiter is exact when the limit is at least one and the window is at most
  one second longer than the horizon of the cleaner, if one runs, and only then
  (`RateLimiter.ExactWhen`, `RateLimiter.LongWindowIsCut`).
- After an APK injection the file parses again exactly when the rewritten end record
  does not happen to spell its own signature (`ApkSigningBlock.InjectParsed`,
  `ApkSigningBlock.OffsetCanSpellTheSignature`).
- Detecting, applying everything and detecting again stages nothing exactly when no staged
  name contains a comma, at which it is split when it is stored, and no upstream model is
  named like an ignore rule that alone hides another model (`UpstreamModels.ConvergesWhen`,
  `UpstreamModels.CommaNameDoesNotConverge`, `UpstreamModels.RegexNameDoesNotConverge`).
  Auto-sync adds a name with a comma again at every check
  (`UpstreamModels.AutoSyncConvergesWhen`).
- Deleting the disabled keys of a channel whose keys are all auto-disabled deletes
  nothing and enables every key (`MultiKey.DeletedDisabledViews`). Replacing the keys lets
  the new ones inherit the status of the old, and leaves times and reasons behind that a
  later key can show (`MultiKey.ReplacedStaysAlignedWhen`, `MultiKey.StaleReasonComesBack`).
- A read into an empty buffer at the end of a body is an end of file in memory and a
  success on disk, a file system refuses positions that memory grants, and a whence beyond
  the three standard ones may succeed on disk; everything else is the same
  (`BodyStorage.MediaAgreeWhen`). With the largest 64-bit limit a non-empty body is stored
  empty (`BodyStorage.BodyCache.CreateBodyStorageFromReader`).
- The limit on disk usage is a check before an increment, and a streamed body is checked by
  its announced length, which for a decompressed body is the compressed one. The limit holds
  exactly when creators do not overlap and no streamed body can be longer than announced, or
  bodies are empty; otherwise it is really exceeded, by up to k - 1 bodies for k racing
  creators and by the surplus of one stream (`UsageGauges.LimitIsKeptWhen`,
  `UsageGauges.OvershootIsReached`).
- The disk distribution starts with the smallest partition, although its comment says
  it starts with the largest (`DiskAllocation.LargestIsNotFirst`); the comment is right
  exactly when the order makes no difference (`DiskAllocation.LargestFirstWhen`). Its
  second result is the amount asked for when there are no partitions and zero otherwise
  (`DiskAllocation.ReportedAmountIsRightWhen`).
- Mail falls back to the account as sender, but its message id is made from the sender
  setting alone, so the fallback always fails (`MailMessage.AccountIsNeverUsed`). An
  additional content type header hides the parts of a message
  (`MailReader.ReadsBackWhen`, `MailReader.AdditionalTypeHidesTheParts`).
- Two pollers and a polling pass that mentions a task twice refund it twice
  (`MidjourneyRefund.NeverTwiceWhen`).
- The strict quota conversions reject the two bounds of the 32-bit range although they
  fit (`QuotaMath.StrictIs`).

## Model

| member | source | states |
|---|---|---|
| WorkerPool.TestChannelForHealthCheck | controller/channel-test.go:1221-1265 | one test counts one channel or, when cancelled, nothing; it failed exactly on an error or a late answer that automatic disabling minds, and the exact conditions under which a channel is counted as disabled or as enabled again |
| WorkerPool.NormalizeConcurrency | setting/operation_setting/monitor_setting.go:65-73 | the worker count lies between 1 and 32; a count in that range is taken as it is, a smaller one becomes 1 and a larger one 32 |
| WorkerPool.InitInv | controller/channel-test.go:1270-1293 | the pool starts in its invariant |
| WorkerPool.StepInv | controller/channel-test.go:1294-1357 | every step of a worker, the feeder, the closer and the collector, and a cancellation at any point, keeps the invariant: positions are held once, started at most once, tallied once, and channels close in order |
| WorkerPool.RunInv | controller/channel-test.go:1288-1357 | the invariant holds after every schedule |
| WorkerPool.Progress | controller/channel-test.go:1294-1357 | in every non-final state of the invariant some step other than a cancellation is enabled: no deadlock |
| WorkerPool.NothingLost | controller/channel-test.go:1294-1342 | in a final state, cancelled or not, a position was started exactly when run returned for it, and then its result was counted |
| WorkerPool.StepDecreases | controller/channel-test.go:1294-1357 | every step lowers a measure |
| WorkerPool.PoolIsSafe | controller/channel-test.go:1270-1358 | in every schedule, cancelled or not: there are as many workers as the normalized count, or as channels if these are fewer, the runs in flight never exceed it, no position is shared or run twice, every counted result is the one run returned for its position, each of the five counters of the summary is the sum of that counter over the counted results and its total the number of channels, the reports count up from zero, and no worker is left when the results channel is closed; at the end every run that was started has returned and is counted |
| WorkerPool.PoolTerminates | controller/channel-test.go:1270-1358 | every schedule has at most seven steps a channel and four more, and a schedule that cannot be continued has finished |
| WorkerPool.UncancelledPoolIsComplete | controller/channel-test.go:1270-1358 | without a cancellation every position is counted exactly once, run is called once and returns once for each channel that is not skipped and for no other, each counter of the summary is the sum of that counter over what run returned, and the reports are 0, 1, ..., total |
| WorkerPool.OrderDoesNotMatter | controller/channel-test.go:1344-1357 | if run returns f(p) for position p, each of the five counters of the summary is the sum of that counter of f(p) over the channels that are not skipped, whatever the number of workers and the order of events |
| WorkerPool.PoolKeepsCounters | controller/channel-test.go:1214-1265 | when every run reports what a health check may report, the cycle's counters satisfy tested = succeeded + failed and disabled + enabled <= tested |
| RateLimiter.InMemoryRateLimiter.constructor | common/rate-limit.go:14-26 | a limiter starts with an empty store; only a positive expiration starts the cleaner, which then compares whole seconds |
| RateLimiter.InMemoryRateLimiter.Request | common/rate-limit.go:45-70 | the answer and the new store are those of the specification; a new key with a negative limit panics and nothing else does; a request that passes is the newest entry of its queue, one that does not leaves the store alone; a queue is never empty and other keys are untouched |
| RateLimiter.InMemoryRateLimiter.ClearExpiredItems | common/rate-limit.go:28-42 | one sweep removes exactly the queues whose newest entry is too old |
| RateLimiter.DecisionIsExact | common/rate-limit.go:45-70 | the bounded queue answers what the whole history of accepted requests answers |
| RateLimiter.StepKeeps | common/rate-limit.go:28-70 | requests and sweeps keep the queue the newest part of the history |
| RateLimiter.LimiterIsExact | common/rate-limit.go:28-70 | over every run with sweeps anywhere, or without a cleaner, a request passes exactly when fewer than the limit were accepted in its window, and no queue outgrows its limit |
| RateLimiter.EveryDecisionIsExact | common/rate-limit.go:28-70 | for every run and every request behind it: it passes if and only if the number of accepted requests of its key less than a window back is below the limit, and if and only if it passes it joins them |
| RateLimiter.AcceptsAreSpaced | common/rate-limit.go:45-70 | the (i + limit)-th accepted request comes at least a window after the i-th |
| RateLimiter.FirstRequestsPass | common/rate-limit.go:45-70 | in every run, a key with fewer accepted requests so far than its limit is let through, at any time and for any window |
| RateLimiter.LongWindowIsCut | common/rate-limit.go:28-42 | for every window beyond the cleaner's horizon there is a run with a wrong decision |
| RateLimiter.ExactWhen | common/constants.go:257-258 | every run of a key is exact if and only if its limit is positive and, where a cleaner runs, its window is at most one second longer than the expiration |
| ApkSigningBlock.InjectApkConfig | controller/byog.go:90-141 | the imperative injection computes on every input the outcome whose error cases and contents the next three rows state |
| ApkSigningBlock.NotFoundWhen | controller/byog.go:91-95 | the missing end record is reported if and only if its four signature bytes occur nowhere in the file |
| ApkSigningBlock.OutcomeIs | controller/byog.go:97-130 | with the last end record at p, read in bytes: each error, each out-of-range slice and success occurs if and only if its condition on the record, the directory offset, the magic and the size field holds |
| ApkSigningBlock.WrittenIs | controller/byog.go:112-141 | on success, byte for byte: what precedes the block, the new size, the pair with its length, its number and the configuration, the old pairs, the size and the magic again, the directory, and the end record with the offset moved, all numbers little-endian, size and offset modulo their width |
| ApkSigningBlock.ParsePairsBytes | controller/byog.go:112-124 | the pairs of a block read back as they were written |
| ApkSigningBlock.ParsePairsSound | controller/byog.go:112-124 | pairs that were read write back to the same bytes |
| ApkSigningBlock.ParseSerialize | controller/byog.go:90-141 | a well-formed file parses to its parts |
| ApkSigningBlock.ParseSound | controller/byog.go:90-141 | a file that parses is the serialization of what was read: both size fields, the magic and the offset agree |
| ApkSigningBlock.InjectSerialized | controller/byog.go:90-141 | injection yields the same file with the new pair in front of the old ones, both sizes and the offset updated, and every other byte unchanged |
| ApkSigningBlock.InjectParsed | controller/byog.go:90-141 | the same for every file that parses, and the result parses again if and only if the new end record contains no further signature |
| ApkSigningBlock.OffsetCanSpellTheSignature | controller/byog.go:128-130 | a file that parses and a configuration after which the result does not parse at all, because the new offset completes a second signature |
| ApkSigningBlock.InjectionsStack | controller/byog.go:112-141 | repeated injections stack their pairs, newest first |
| AsciiJson.ToAsciiJson | controller/byog.go:2609-2632 | the loop over the bytes computes the rewriting that the next four rows determine for every string of bytes |
| AsciiJson.DecodeEncoded | controller/byog.go:2618-2622 | section 3 of RFC 3629: at the encoding of any character, whatever follows, that character and the length of its encoding are decoded |
| AsciiJson.MalformedWhen | controller/byog.go:2619-2622 | bytes are malformed if and only if the encoding of no character begins there |
| AsciiJson.AsciiOfCharacter | controller/byog.go:2609-2632 | a character becomes itself below 0x80, else a backslash, a "u" and the four hexadecimal digits of its number or of each of its two surrogates, and the rest is rewritten on its own |
| AsciiJson.AsciiOfNonsense | controller/byog.go:2619-2622 | where no character begins, one byte is dropped and the rest is rewritten on its own |
| AsciiJson.OutputIsAscii | controller/byog.go:2603-2632 | every output byte is below 0x80, for every input |
| AsciiJson.ItemsOfAscii | controller/byog.go:2609-2632 | the lexical items of the output are those of the input with each wide character as its escapes |
| AsciiJson.ExpandKeepsMeaning | controller/byog.go:2609-2632 | writing a character as escapes never pairs with, or splits, an escape that was there before |
| AsciiJson.RewritingKeepsMeaning | controller/byog.go:2603-2632 | a decoder with surrogate pairing reads the same structure and the same code points from output and input |
| AsciiJson.RewritingIsIdempotent | controller/byog.go:2609-2632 | rewriting twice changes nothing more |
| DiskAllocation.SettlePlace | controller/byog.go:2185-2191 | one pass puts the smallest remaining partition in its place and keeps the permutation |
| DiskAllocation.FillOrder | controller/byog.go:2180-2192 | the order is a permutation of the partitions sorted by free space |
| DiskAllocation.Deal | controller/byog.go:2193-2211 | the loop gives each partition in the order its share of what is left, and panics if and only if an entry of the list is null |
| DiskAllocation.DealtIsSmallestFirst | controller/byog.go:2180-2211 | allocations lie in [0, whole free space], sum to the smaller of the request and the capacity, leave at most one partition in part, and touch a partition only when every smaller one is full |
| DiskAllocation.DistributeDiskAllocation | controller/byog.go:2169-2222 | the whole function on every list: it panics if and only if an entry is null; a list without partitions comes back with the amount asked for, otherwise the allocation is smallest first and the second result is zero |
| DiskAllocation.ReportedAmountIsRightWhen | controller/byog.go:2163-2222 | the second result is the amount really shared if and only if nothing was asked for, or there are partitions and none has a whole gigabyte; without partitions only if exactly zero was asked for |
| DiskAllocation.LargestIsNotFirst | controller/byog.go:2163-2192 | an allocation in which the largest partition is not used first |
| DiskAllocation.LargestFirstWhen | controller/byog.go:2163-2211 | the documented order is kept if and only if nothing is asked for, everything is, or all partitions with a whole gigabyte have equal free space |
| Text.TrimmedIs | controller/channel_upstream_update.go:102-102 | trimming takes away white space at both ends, all of it, and nothing else |
| UpstreamModels.NormalizeIs | controller/channel_upstream_update.go:100-105 | normalized names are trimmed, not empty and distinct |
| UpstreamModels.NormalizedNames | controller/channel_upstream_update.go:100-105 | a name is in the normalized list if and only if it is not empty and the trimmed form of an entry, and the names stand in the order of their first occurrences |
| UpstreamModels.NormalizeOfNormal | controller/channel_upstream_update.go:100-105 | normalizing again changes nothing |
| UpstreamModels.MergeModelNames | controller/channel_upstream_update.go:107-121 | the merge is the base followed by the names the other list adds, in its order; it has exactly the names of both, each once |
| UpstreamModels.SubtractIs | controller/channel_upstream_update.go:123-132 | subtraction keeps exactly the names outside the other list, in order |
| UpstreamModels.IntersectIs | controller/channel_upstream_update.go:134-143 | intersection keeps exactly the names inside the other list, in order |
| UpstreamModels.SelectedInOrder | controller/channel_upstream_update.go:145-150 | the new model list is the survivors in their old order followed by the new ones |
| UpstreamModels.PendingAddIs | controller/channel_upstream_update.go:179-227 | staged additions are, in upstream order and each once, exactly the upstream names that are not local and no redirect target, that are no entry of the ignore list without the regex prefix, and that the trimmed expression of no entry with the prefix matches |
| UpstreamModels.RuleIs | controller/channel_upstream_update.go:213-221 | an entry of the ignore list hides a name if and only if it is that name and lacks the prefix, or it is the prefix and an expression that matches the name once trimmed |
| UpstreamModels.PlainIgnoreList | controller/channel_upstream_update.go:213-221 | an ignore list without expressions hides exactly its own members |
| UpstreamModels.PendingRemoveIs | controller/channel_upstream_update.go:228-238 | staged removals are, in local order, exactly the local names that upstream does not list and no redirect starts from |
| UpstreamModels.ChannelRecord.CheckAndPersist | controller/channel_upstream_update.go:502-549 | a check leaves the specified channel for every upstream list, its models read back from the one string they are stored as, and reports how many models auto-sync added; a check that is not due changes nothing, one whose fetch fails changes the time only, and without auto-sync the models stay |
| UpstreamModels.ChannelRecord.ApplyUpdates | controller/channel_upstream_update.go:947-995 | an apply request leaves the specified channel, its models read back from the one string they are stored as, and returns exactly what it added, removed and left |
| UpstreamModels.Selections | controller/channel_upstream_update.go:961-966 | what is added and ignored is what the request names and is staged, what is removed is what it names and is staged for removal, and nothing is both added and removed |
| UpstreamModels.IgnoredAfter | controller/channel_upstream_update.go:975-978 | the ignore list afterwards has exactly its old names and the newly ignored ones, without the added ones |
| UpstreamModels.StagingStaysApart | controller/channel_upstream_update.go:502-549 | over every run of checks, apply requests and edits the staged additions and removals stay distinct and disjoint |
| UpstreamModels.ApplySplitsStaged | controller/channel_upstream_update.go:947-995 | every staged addition is added, ignored or left, exactly one of them; no added model stays ignored, and an added name is a model of the stored channel if and only if it has no comma |
| UpstreamModels.ModelsChangeWithTheSet | controller/channel_upstream_update.go:947-995 | the change flag is set if and only if the set of models changed, and survivors keep their order |
| UpstreamModels.ApplyTwice | controller/channel_upstream_update.go:947-995 | repeating an apply request changes nothing but the time |
| UpstreamModels.ConvergesWhen | controller/channel_upstream_update.go:179-238 | on the stored channel, detect, apply all, detect again: nothing is staged again if and only if no staged name contains a comma and no name lost the rule that hid it; without commas no removal is staged, and the additions are exactly the names that lost their rule |
| UpstreamModels.ConvergesWithoutRegexNames | controller/channel_upstream_update.go:179-238 | when no upstream model is named like a regular expression rule of the ignore list, nothing is staged again if and only if no staged name contains a comma |
| UpstreamModels.RegexNameDoesNotConverge | controller/channel_upstream_update.go:213-227 | a channel whose second detection stages a model because a rule was lost |
| UpstreamModels.CommaNameDoesNotConverge | controller/channel_upstream_update.go:965-971 | a channel whose second detection stages a model because a name was split |
| UpstreamModels.StoredModels | model/channel.go:291-296 | a list of names survives being stored as one string if and only if no name contains a comma |
| UpstreamModels.AutoSyncConvergesWhen | controller/channel_upstream_update.go:526-549 | on the stored channel, auto-sync has nothing left to add at the second check if and only if no adopted name contains a comma; then the first check added exactly the pending names and the second changes nothing but the time |
| UpstreamModels.NameSurvives | model/channel.go:291-296 | a name without a comma is read back whatever the other names are |
| UpstreamModels.CommaNameComesBack | controller/channel_upstream_update.go:179-227 | an upstream name with a comma that nothing covers is pending at every check |
| MultiKey.MultiKeyChannel.Update | model/channel.go:544-591 | saving counts the keys and drops status entries beyond them; an empty key list is not written |
| MultiKey.MultiKeyChannel.Disable | controller/channel.go:1671-1713 | a key in range is disabled by hand, an index out of range is refused without effect |
| MultiKey.MultiKeyChannel.Enable | controller/channel.go:1714-1755 | a key in range loses its status, time and reason |
| MultiKey.MultiKeyChannel.EnableAllKeys | controller/channel.go:1756-1779 | every key is enabled; the number of status entries is reported |
| MultiKey.MultiKeyChannel.DisableAllKeys | controller/channel.go:1780-1826 | every enabled key is disabled by hand and the others keep their status; refused exactly when none was enabled |
| MultiKey.MultiKeyChannel.Delete | controller/channel.go:1827-1906 | one key is removed and every other shows what it showed, moved up; an index out of range and the last key are refused without effect |
| MultiKey.MultiKeyChannel.DeleteDisabledKeys | controller/channel.go:1907-1974 | the auto-disabled keys are removed; their number is reported |
| MultiKey.MultiKeyChannel.DisableFailing | model/channel.go:659-709 | a failing key is auto-disabled at its first position with time and reason |
| MultiKey.MultiKeyChannel.AppendKeys | controller/channel.go:1024-1096 | the old keys stay in front, unchanged; behind them stand exactly the trimmed new keys that are not empty and not the trimmed form of an old key, each once and in the order of their first occurrences |
| MultiKey.RebuiltViews | controller/channel.go:1852-1892 | re-indexing keeps the order of the survivors and what each of them shows |
| MultiKey.DeletedKeyViews | controller/channel.go:1827-1906 | after deleting one key the others show what they showed before |
| MultiKey.DeletedDisabledViews | controller/channel.go:1907-1974 | exactly the keys that were not auto-disabled remain, in order, if and only if one of them exists or there were no keys; otherwise all keys stay and become enabled |
| MultiKey.DeletedDisabledKeeps | controller/channel.go:1907-1974 | when a key is not auto-disabled, the positions with a status other than 3, in order, are those whose keys remain, each with what it showed |
| MultiKey.DisabledOneByOne | controller/channel.go:1907-1974 | deleting the disabled keys agrees with deleting them singly from the highest index down |
| MultiKey.RunStaysAligned | controller/channel.go:1671-1974 | over every run the three maps name existing positions only |
| MultiKey.OthersUntouched | controller/channel.go:1671-1826 | an action other than a deletion changes what it says, with status, time and reason, and nothing about any other key: by hand means status 2, a failing key gets status 3 at its first position; disabling all keys leaves the disabled ones as they were |
| MultiKey.FreshIs | controller/channel.go:1073-1092 | of the trimmed input the keys that are not empty and not seen are found, each once, and none is missed |
| MultiKey.AppendedKeys | controller/channel.go:1073-1096 | appending in terms of trimmed keys only: which keys are behind the old ones, that each is there once, and their order |
| MultiKey.NewKeysAreNew | controller/channel.go:1073-1092 | no appended key is the trimmed form of an old one |
| MultiKey.AppendMissesNothing | controller/channel.go:1073-1096 | every key that was entered and is not blank is the trimmed form of a key of the result |
| MultiKey.AppendedAreEnabled | controller/channel.go:1024-1096 | appended keys start enabled whatever positions were disabled before |
| MultiKey.MultiKeyChannel.ReplaceKeys | controller/channel.go:1097-1105 | replacing the keys keeps the maps but for the status entries beyond the new list |
| MultiKey.ReplacedStaysAlignedWhen | model/channel.go:573-581 | after replacing the keys the maps stay within the list if and only if no time or reason lies beyond it |
| MultiKey.ReplacedInherit | controller/channel.go:1097-1105 | a new key shows the status, time and reason of the key it replaces |
| MultiKey.StaleReasonComesBack | model/channel.go:573-581 | a key appended and disabled by hand after the list was cut shows the time and reason of a key that no longer exists |
| BodyStorage.MemoryStorage.Read | common/body_storage.go:62-69 | reading is the read of the common object |
| BodyStorage.MemoryStorage.Seek | common/body_storage.go:71-78 | seeking is that of the common object, errors included |
| BodyStorage.MemoryStorage.Close | common/body_storage.go:80-87 | closing never fails and may be repeated |
| BodyStorage.MemoryStorage.AllBytes | common/body_storage.go:89-96 | all bytes, the cursor unmoved, an error once closed |
| BodyStorage.MemoryStorage.NewReader | common/body_storage.go:98-108 | a new object at the start of the same bytes, or an error once closed |
| BodyStorage.DiskStorage.Read | common/body_storage.go:196-203 | reading is the read of the common object |
| BodyStorage.DiskStorage.Seek | common/body_storage.go:205-212 | seeking is that of the common object, unless the system refuses it or knows a whence of its own |
| BodyStorage.DiskStorage.Close | common/body_storage.go:214-223 | closing unlinks the file once, never fails and may be repeated |
| BodyStorage.DiskStorage.AllBytes | common/body_storage.go:225-257 | all bytes, and the cursor is back where it was |
| BodyStorage.DiskStorage.NewReader | common/body_storage.go:259-275 | a new object at the start of the same bytes, or an error once closed |
| BodyStorage.BodyReader.Read | common/body_storage.go:98-108 | a reader moves its own cursor only |
| BodyStorage.MediaAgreeWhen | common/body_storage.go:62-275 | for every sequence of calls, on the storage and on its readers, both media give the same replies if and only if nobody reads into an empty buffer at the end, no seek that memory grants is refused by the system, and no whence is used that only the system knows; then they also end in the same state |
| BodyStorage.SeekAddresses | common/body_storage.go:71-78 | a position reached from the start, from the cursor or from the end is the same one, and a read returns the bytes from there on, as many as were asked for or as are left |
| BodyStorage.EmptyReadTellsThemApart | common/body_storage.go:62-69 | the replies differ on an empty body |
| BodyStorage.UnknownWhenceTellsThemApart | common/body_storage.go:205-212 | the replies differ for a whence that the system supports and memory does not |
| BodyStorage.FarSeekTellsThemApart | common/body_storage.go:205-212 | the replies differ for every position that the system refuses |
| BodyStorage.ReaderReplays | common/body_storage.go:98-108 | under every interleaving, closing included, a reader returns the stored bytes from the start as far as it was asked |
| BodyStorage.BodyCache.CreateBodyStorage | common/body_storage.go:286-304 | the medium is the disk if and only if it is enabled, the body reaches the threshold, usage plus size is within the maximum and the write succeeds; the content is complete and counted on that medium |
| BodyStorage.BodyCache.CreateBodyStorageFromReader | common/body_storage.go:307-348 | a stream goes straight to disk if and only if the cache is enabled and the announced length is positive, reaches the threshold and fits beside the usage, and fails if and only if the disk then fails; otherwise its real size decides in the same way; a body within the limit is stored whole and a longer one refused, on either path, if and only if the limit is not the largest 64-bit number or the body is empty; exactly one storage and one hit are counted, on that medium, for a stored body and nothing otherwise |
| BodyStorage.LimitKeepsPromise | common/body_storage.go:159-194 | one byte more than the limit is enough to tell, unless the sum wraps |
| UsageGauges.StepInv | common/disk_cache_config.go:109-134 | every atomic step of every creation and closing keeps the gauges equal to sums over the storages, and no gauge needs its clamp |
| UsageGauges.GaugesAreExact | common/body_storage.go:214-223 | in every interleaving the gauges are never negative, and when nothing is under way they are the number and the bytes of the open storages on that medium, however often Close was called |
| UsageGauges.OvershootIsBounded | common/body_storage.go:307-327 | with at most k creators between check and increment, bodies of at most S bytes and streamed bodies at most E longer than announced, disk usage stays within the maximum plus (k - 1) * S plus the smaller of E and S - 1 |
| UsageGauges.OvershootIsReached | common/body_storage.go:159-194 | for every k, S and E of at least one creator and one byte there is a run that reaches that bound |
| UsageGauges.LimitIsKeptWhen | common/disk_cache_config.go:170-177 | no such run exceeds the maximum if and only if nothing is created, bodies are empty, or creators do not overlap and no streamed body can be longer than announced |
| OpusScanner.PageSize | common/audio.go:241-245 | the loop over the segment table is its sum |
| OpusScanner.OpusDuration | common/audio.go:196-254 | the scan ends on every input and returns the greatest granule position of the headers it stops at, at least zero, over 48000 |
| OpusScanner.PageIsVisited | common/audio.go:219-248 | at a whole page the scan reads its signed granule position and continues right behind it |
| OpusScanner.PageIsOgg | common/audio.go:219-245 | section 6 of RFC 3533: the bytes of a page, the capture pattern first, the granule position as a little-endian two's complement number, the table behind its length |
| OpusScanner.SkipQuiet | common/audio.go:219-226 | bytes in which no header begins are skipped |
| OpusScanner.ScannerFindsThePages | common/audio.go:196-254 | on pages with other bytes before, between and after them the scan stops exactly at the pages and finds the greatest granule position, at least zero |
| MidjourneyRefund.ClosedFailure | controller/midjourney.go:160-211 | a credible report never leaves a failed task unfinished, and a refund is only owed for a failed one |
| MidjourneyRefund.FailureIsOwed | controller/midjourney.go:160-217 | a current poller stores a failure or a timeout of an unfinished task as final, and owes a refund exactly when a quota was paid |
| MidjourneyRefund.FailureIsPaid | controller/midjourney.go:160-218 | such a failure, refunded and cleared, leaves the quota credited once more and the row failed, final and without a quota |
| MidjourneyRefund.ReportIsStored | controller/midjourney.go:160-217 | any other report is stored as it is, without a refund, if and only if the copy is current and the report differs from it |
| MidjourneyRefund.StaleCopyStoresNothing | controller/midjourney.go:204-217 | a poller whose copy is out of date changes nothing in the row and owes nothing, whatever the report |
| MidjourneyRefund.HandleOnce | controller/midjourney.go:153-218 | handling one response item keeps the invariant of the pollers and the row |
| MidjourneyRefund.RefundedAtMostOnce | controller/midjourney.go:153-218 | over any number of pollers and every run in which a polling pass mentions the task at most once, it is refunded at most once, in full, and only when the row is failed and final |
| MidjourneyRefund.RunAlone | controller/midjourney.go:40-218 | a single poller refunds at most once however often its responses repeat the task |
| MidjourneyRefund.DoubleRefundRuns | controller/midjourney.go:153-218 | for every two or more pollers and two or more mentions in a polling pass there is a run with two refunds |
| MidjourneyRefund.NeverTwiceWhen | controller/midjourney.go:153-218 | no run refunds twice if and only if there is at most one poller or at most one mention in a polling pass |
| Base64.DecodeEncoded | common/email_message.go:150-150 | section 4 of RFC 4648: decoding undoes encoding for all bytes |
| Base64.EncodedDigits | common/email_message.go:150-150 | the encoding uses the alphabet and the padding only |
| Base64.DigitIs | common/email_message.go:150-150 | table 1 of RFC 4648: the character of each digit |
| Base64.EncodedIs | common/email_message.go:150-150 | section 4 of RFC 4648: every three bytes are a number of 24 bits written with four digits, missing bytes count as zero and missing digits are equals signs; the length is four for every three bytes begun |
| MailMessage.EncodeBase64Body | common/email_message.go:149-158 | the loop joins the wrapped lines of the encoding |
| MailMessage.WrappedIs | common/email_message.go:151-157 | no line is longer than 76 characters, all but the last are full, and together they are the encoding |
| MailMessage.WriteHeader | common/email_message.go:123-131 | a header takes exactly one line, or none when its value is blank |
| MailMessage.AlternativeText | common/email_message.go:68-74 | the text part is the trimmed text, else the text of the HTML, else a space |
| MailMessage.BuildMailMessage | common/email_message.go:50-120 | the errors for receiver, sender and message id, and otherwise every header in its order, the optional and the additional ones included, the content type with the boundary last, and the two parts, line by line |
| MailMessage.AccountIsNeverUsed | common/email_message.go:54-65 | a message is built if and only if a receiver is named and the sender setting contains an at sign, so the fallback to the account never takes effect |
| MailHeaders.HeadersReadBack | common/email_message.go:76-87 | the first lines of a message are sender, receiver, the address for answers if there is one, and the subject: each address can be read between angle brackets, and names and subject decode from encoded words of RFC 2047 to their bytes |
| MailHeaders.MessageIdIs | common/email.go:12-19 | the message id is the stamp, an at sign and what stands behind the first at sign of the sender, up to a second one |
| MailHeaders.ListHeadersWhen | common/email_message.go:86-102 | date, message id, version and the headers against automatic answers are always there, the precedence if and only if the message is bulk, the unsubscribe headers of RFC 8058 if and only if there is an address for it |
| MailHeaders.HeaderIsALine | common/email_message.go:123-131 | each of the own headers with a value is one line of the message |
| MailHeaders.PartsAnnounced | common/email_message.go:108-117 | the two parts say that they are plain text and HTML in base64 |
| MailReader.LinesOfTerminated | common/email_message.go:123-131 | the lines a reader sees are those of each written line in turn, whatever breaks a header name contains |
| MailReader.BodyLinesAreSafe | common/email_message.go:112-117 | no line of an encoded body can be a delimiter or break a line |
| MailReader.BoundaryIsFoundWhen | common/email_message.go:103-106 | a reader finds the boundary in the headers if and only if the additional headers bring no content type before any blank line, or one with the same boundary, and no blank line if none |
| MailReader.OrdinaryIsHarmless | common/email_message.go:103-105 | additional headers with one-line names other than the content type never disturb the reader, whatever their values |
| MailReader.AdditionalTypeHidesTheParts | common/email_message.go:103-106 | with an additional content type that has no quoted boundary the reader does not find the boundary |
| MailReader.MessageReadsBack | common/email_message.go:50-120 | sections 5.1.1 of RFC 2046 and 6.8 of RFC 2045: a reader that knows only the built message finds exactly two parts, which decode to the plain text and the HTML, whatever receiver, subject, header values and bodies are |
| MailReader.ReadsBackWhen | common/email_message.go:103-117 | when the additional headers bring no blank line, the reader gets the two parts if and only if they bring no content type of their own, or one with the same boundary first |
| MailReader.OneLineNames | common/email_message.go:123-131 | additional headers whose names are on one line bring no blank line |
| MailReader.GeneratedIsTame | common/email_message.go:67-67 | the boundaries the program makes of the time and a random string meet what the reader needs |
| HtmlText.StripTags | common/email_message.go:172-187 | the loop keeps the characters outside all brackets |
| HtmlText.CleanLines | common/email_message.go:189-204 | the loop cleans the lines and keeps no two blank ones in a row |
| HtmlText.HtmlToText | common/email_message.go:165-206 | the conversion is the specified one on every document |
| HtmlText.NothingLeft | common/email_message.go:193-193 | no non-breaking space entity survives the replacement, not even a new one |
| HtmlText.PlainTextHasNone | common/email_message.go:165-206 | no angle bracket is left |
| HtmlText.TagVanishes | common/email_message.go:172-187 | a tag vanishes with everything in it and nothing around it |
| HtmlLaws.TagBecomes | common/email_message.go:165-187 | for every tag behind any text: the ends of the listed blocks become a line break, a list item a bullet, every other tag nothing; the text before it stays and the rest is converted on its own |
| HtmlLaws.NestedVanishes | common/email_message.go:172-187 | brackets inside brackets have to be closed before anything is text again |
| HtmlLaws.StrayBracket | common/email_message.go:172-187 | a closing bracket that closes nothing vanishes by itself |
| HtmlLaws.EntityBecomesSpace | common/email_message.go:193-193 | each non-breaking space entity becomes a space |
| HtmlLaws.LinesAreKept | common/email_message.go:189-206 | the lines of the text that are not blank are, in order, the cleaned lines of the stripped document that are not blank |
| HtmlText.UnchangedWhen | common/email_message.go:165-206 | the conversion leaves a text alone if and only if it has no brackets, no entity, no loose space and no two blank lines in a row |
| HtmlText.ConvertingTwice | common/email_message.go:165-206 | converting the result again changes nothing |
| VerificationStore.CodeStore.Register | common/verification.go:35-45 | the entry is stored; when there are then more than ten, exactly the entries younger than ten minutes are kept, otherwise all |
| VerificationStore.CodeStore.Verify | common/verification.go:47-56 | accepted exactly for a stored, equal code younger than ten minutes |
| VerificationStore.CodeStore.Delete | common/verification.go:58-62 | exactly this entry is removed |
| VerificationStore.CodeStore.RemoveExpiredPairs | common/verification.go:65-72 | the loop removes exactly the expired entries |
| VerificationStore.IdsDiffer | common/verification.go:16-19 | keys of the two purposes never meet in the map |
| VerificationStore.RunReflects | common/verification.go:35-72 | over every run with a monotone clock an entry is what was last registered, and one that is missing was deleted or has expired |
| VerificationStore.AcceptsTheLastCode | common/verification.go:35-72 | a code is accepted if and only if it was the last one registered for this key and purpose, was not deleted since and is younger than ten minutes |
| QuotaMath.SaturateIs | common/quota_math.go:72-86 | the result is in the 32-bit range, an unclamped value is cut towards zero by less than one, and not-a-number, overflow and underflow are reported exactly outside the open range, with zero and the two bounds |
| QuotaMath.SaturateMonotone | common/quota_math.go:72-107 | conversion is monotone on everything but NaN, infinities included |
| QuotaMath.QuotaRoundIs | common/quota_math.go:119-128 | rounding is within one half, halves away from zero, in range, and clamps exactly from the half before each bound on |
| QuotaMath.QuotaRoundMonotone | common/quota_math.go:119-128 | rounding is monotone |
| QuotaMath.UnitsAreRounded | common/quota_math.go:145-148 | rounding a decimal in whole numbers, tenths cut off and five tenths away from zero, rounds the number it stands for to the nearest, halves away from zero |
| QuotaMath.DecimalAgrees | common/quota_math.go:138-148 | so a decimal becomes the quota, and the report, that rounding its value gives |
| QuotaMath.StrictIs | common/quota_math.go:88-154 | each of the three strict forms fails exactly when its checked form reports a clamp: at or beyond a bound for floats, from the half before a bound on when rounding floats and decimals |

## Left out

- HTTP handlers, relaying, billing sessions, Redis and the database layer: plumbing around the modelled logic; database writes are assumed to succeed unless a parameter says otherwise.
- WorkerPool.PoolTerminates: the panic of a run function and the scheduler's fairness are not modelled; the bound holds for every schedule.
- ApkSigningBlock.InjectApkConfig: a slice is assumed to have no spare capacity, and integers of the host are 64 bits wide.
- DiskAllocation: the merging of stored and reported partitions, the default share and the conversion of free space beyond the integer range.
- UpstreamModels: the fetching of upstream lists, the notifications, and the regular expression engine, which is a parameter.
- MultiKey: the encoding of keys in one string or a JSON array, the polling order and the status of the channel as a whole; that a save skips zero values is assumed of the database library. RunStaysAligned is about runs without a replacement of the keys, whose effect ReplacedStaysAlignedWhen describes.
- BodyStorage: positions beyond 64 bits, sharing of the returned byte slice with the storage, use of a reader after closing it, short reads, and I/O failures other than the creation of a file and a refused seek.
- UsageGauges: the manual reset, the synchronisation with the directory and the cleanup of old files.
- OpusScanner.OpusDuration: a read is assumed to fill the buffer when enough bytes are left; the other audio formats are not modelled.
- MidjourneyRefund: the callback that upstream sends for a task, which saves the whole row without a comparison; the theorem is about pollers and assumes a compare-and-swap on the status.
- MailReader.MessageReadsBack: asks for a boundary without line breaks and quotes, which GeneratedIsTame shows of the generated ones, and for additional headers that are harmless; ReadsBackWhen gives the exact condition when their names bring no blank line, and BoundaryIsFoundWhen covers all names.
- MailMessage: the generation of stamps, dates and random strings, and the sending of the message.
- HtmlText: works on characters, so malformed UTF-8 is not modelled.
- VerificationStore: the generation of codes.
- QuotaMath: the rounding errors of floating point arithmetic, before the conversion and in the step from a rounded decimal to a float.
