# SSH credential table, session cache and quantile-binning combinators — a Dafny model

This project models two pieces of the FATE repository and proves properties about them.

**The SSH service of FATE-Board (`SshService`).**
- A property source of the form `ip=user|password|port` is parsed into `SshInfo` records. An entry that throws while being parsed is skipped. The rest still load.
- Sessions are cached in a map under the key `user + "_" + host + "_" + port`.
  - A cached session is reused while it reports connected.
  - A disconnected one is evicted.
  - A new session is cached only if its handshake succeeds.
- `executeCmd` null-checks its arguments and opens an exec channel only on a connected session.

**The list and dict logic of `QuantileBinning`.**
- Percentile generation.
- Per-column split points with first-occurrence de-duplication.
- The `None`-aware `merge_summary_dict`.
- The summary cache.
- Normalisation of `query_points`.
- The dense path of `insert_datas`.

All of this runs over an abstract quantile summary.

Modules:

| file | module | models |
|---|---|---|
| `Wrappers.dfy` | `Wrappers` | `Option` (Java `null` / Python `None`) and `Result` (a value or the exception raised) |
| `JavaText.dfy` | `JavaText` | Java's `String.split("\\|")`, including its removal of trailing empty fields; `Integer.toString` and `new Integer(String)` on 32-bit ints |
| `SshCredentials.dfy` | `SshCredentials` | `load`, `getSSHInfo`, and the choice of configuration file in `afterPropertiesSet` |
| `SshSessions.dfy` | `SshSessions` | both `connect` overloads, as a state transformer over the session map |
| `SshCommands.dfy` | `SshCommands` | `executeCmd`: as written, and with the channel release corrected (see Findings) |
| `QuantileBinning.dfy` | `QuantileBinning` | `fit_split_points`, `merge_summary_dict`, `query_quantile_point`, `insert_datas` (dense) |

Things outside the code become parameters:
- The transport is a parameter.
  - `Transport` says whether `getSession` returns null, whether the 30-second `connect` throws, or whether the handshake succeeds with a new handle.
  - `ChannelAttempt` says whether `openChannel` or the channel's `connect` throws.
- `isConnected()` is the `connected` field of a `Session`. `Connect` reads it once. `ConnectObserved` also covers a session that drops between the two reads at lines 130 and 134.
- The quantile summary is a type parameter `S`. Its `query`, `merge` and `insert` are passed in as total functions.
- The summaries that `mapPartitions`/`reduce` would compute are passed in as `computed`.
- Python floats are exact reals.

Quirks of the source that the model keeps:
- A value made only of pipes splits into zero fields. It is stored as a record with only the ip set.
- The value `u|p|n|extra` loads like `u|p|n`.
- A value without a pipe is rejected, and so is the empty value.
- The port may be any 32-bit int, including `+22`, `0` or a negative number.
- A trailing blank after the port makes the entry unparseable.
- The session key can collide: user `a_b` on host `c` and user `a` on host `b_c` share a cache entry (`KeyCollisionSharesSession`). When user names contain no `_`, the key is injective (`SessionKeyInjective`).
- The password is not part of the key. A second connect with another password reuses the cached session.
- The session map is a plain static map with no synchronisation.
- If a session was already dropped when `connect` first checks it, the stale entry is gone even when re-establishing it fails. If it drops between the two checks, the dead session stays cached after a failed handshake (`DropBetweenReadsKeepsDeadSession`).
- `executeCmd` on a disconnected session returns `null` (`Success(None)`). It does not fail.
- `executeCmd` rejects only a `null` command. The empty command is sent like any other (`EmptyCommandNotRejected`).
- `merge_summary_dict` keeps only the columns of its first argument. A reduction over many partitions therefore has exactly the first partition's columns.
- `query_quantile_point` fills the summary cache before it looks at the type of `query_points`. A `ValueError` still leaves the cache filled.

## Model

| member | source | states |
|---|---|---|
| `JavaText.Split` | arch/fateboard/src/main/java/com/webank/ai/fate/board/ssh/SshService.java:51 | `split("\\|")` gives the whole text as the only field when no pipe occurs. Otherwise it gives the pipe-separated fields minus the run of empty fields at the end, with nothing else dropped. |
| `JavaText.JoinRawSplit` | arch/fateboard/src/main/java/com/webank/ai/fate/board/ssh/SshService.java:51 | Joining the fields of a split with `\|` restores the original text, so splitting loses nothing. |
| `JavaText.RawSplitJoin` | arch/fateboard/src/main/java/com/webank/ai/fate/board/ssh/SshService.java:51 | Splitting undoes joining when no field contains a pipe. |
| `JavaText.NoFieldsIffOnlyPipes` | arch/fateboard/src/main/java/com/webank/ai/fate/board/ssh/SshService.java:51-53 | The split yields zero fields (so `params.length > 0` is false) exactly when the value is one or more pipes and nothing else. |
| `JavaText.ParseInt` | arch/fateboard/src/main/java/com/webank/ai/fate/board/ssh/SshService.java:56 | An accepted text is an optional sign followed by digits. A leading `-` gives a non-positive value; anything else gives a non-negative one. The exact accepted set and the value are stated by `ParseIntMeaning`. |
| `JavaText.ParseIntMeaning` | arch/fateboard/src/main/java/com/webank/ai/fate/board/ssh/SshService.java:56 | `new Integer(s)` succeeds exactly on an optional `+` or `-` followed by one or more digits whose signed value fits in 32 bits, and yields that value. It throws on everything else, overflow included. |
| `JavaText.ParseIntPlusSign` | arch/fateboard/src/main/java/com/webank/ai/fate/board/ssh/SshService.java:56 | An explicit `+` before the digits changes nothing: `"+22"` parses like `"22"`. |
| `JavaText.ParseIntLeadingZero` | arch/fateboard/src/main/java/com/webank/ai/fate/board/ssh/SshService.java:56 | A leading zero changes nothing: `"022"` parses like `"22"`. |
| `JavaText.ParseIntDigits` | arch/fateboard/src/main/java/com/webank/ai/fate/board/ssh/SshService.java:56 | Every digit string whose value is below 2^31 parses to that value. Every larger one overflows and throws. |
| `JavaText.ParseIntToString` | arch/fateboard/src/main/java/com/webank/ai/fate/board/ssh/SshService.java:56 | Parsing the decimal text of any 32-bit int gives that int back. |
| `JavaText.IntToString` | arch/fateboard/src/main/java/com/webank/ai/fate/board/ssh/SshService.java:127 | The port as appended to the session key is non-empty and made of digits and `-` only, so it holds neither `_` nor `\|`. |
| `JavaText.IntToStringInjective` | arch/fateboard/src/main/java/com/webank/ai/fate/board/ssh/SshService.java:127 | Distinct ports print as distinct texts. |
| `SshCredentials.ParseEntry` | arch/fateboard/src/main/java/com/webank/ai/fate/board/ssh/SshService.java:49-58 | The record's ip is the property key. User, password and port are all set or all unset. A value without a pipe throws. One or two fields throw. Set fields come from split positions 0, 1 and 2. |
| `SshCredentials.ParseEntryRoundTrip` | arch/fateboard/src/main/java/com/webank/ai/fate/board/ssh/SshService.java:49-58 | Parsing `user\|password\|port` gives back exactly that user, password and port under the key, for any pipe-free user and password and any 32-bit port. |
| `SshCredentials.ExtraFieldsIgnored` | arch/fateboard/src/main/java/com/webank/ai/fate/board/ssh/SshService.java:51-56 | Anything after a third pipe is ignored. |
| `SshCredentials.OnlyPipesStoresIpOnly` | arch/fateboard/src/main/java/com/webank/ai/fate/board/ssh/SshService.java:51-58 | A value made of pipes alone is stored as a record with only the ip set. |
| `SshCredentials.IpOnlyRecordMeansOnlyPipes` | arch/fateboard/src/main/java/com/webank/ai/fate/board/ssh/SshService.java:51-58 | Conversely, an ip-only record arises from nothing but a pipe-only value. |
| `SshCredentials.Load` | arch/fateboard/src/main/java/com/webank/ai/fate/board/ssh/SshService.java:40-64 | Every entry that parses is stored under its key. Every entry that throws is reported as skipped and leaves its key as it was. No other key changes. |
| `SshCredentials.GetSshInfo` | arch/fateboard/src/main/java/com/webank/ai/fate/board/ssh/SshService.java:35-37 | The lookup answers the stored record for the ip, or nothing when none is stored. |
| `SshCredentials.ResolveAfterLoad` | arch/fateboard/src/main/java/com/webank/ai/fate/board/ssh/SshService.java:35-37 | After a load into an empty table, an ip resolves exactly when its entry parsed, and it resolves to that entry's record. |
| `SshCredentials.WellFormedEntryResolves` | arch/fateboard/src/main/java/com/webank/ai/fate/board/ssh/SshService.java:47-58 | A well-formed entry `ip=user\|password\|port` resolves to exactly those fields, whatever else the source contains. |
| `SshCredentials.EntriesLoadIndependently` | arch/fateboard/src/main/java/com/webank/ai/fate/board/ssh/SshService.java:47-63 | An entry's outcome depends only on its own text. A bad neighbour never stops it from loading. |
| `SshCredentials.ConfigLocation` | arch/fateboard/src/main/java/com/webank/ai/fate/board/ssh/SshService.java:67-78 | An absent or empty override uses the bundled `ssh.properties` resource. Otherwise the file is `<override>/ssh.properties`. |
| `SshSessions.Connect` | arch/fateboard/src/main/java/com/webank/ai/fate/board/ssh/SshService.java:124-157 | A connected cached session is returned, with the map unchanged. Otherwise the stale entry is dropped and a new session is cached and returned only if the handshake succeeds. A failed call leaves no entry under the key. A returned session is connected and is the one stored under the key. Other keys never change. |
| `SshSessions.ConnectObserved` | arch/fateboard/src/main/java/com/webank/ai/fate/board/ssh/SshService.java:124-157 | With the two `isConnected()` reads kept apart: when the session does not drop between them, this is exactly `Connect`. In every case a returned session is connected and cached under the key, and other keys never change. |
| `SshSessions.DropBetweenReadsKeepsDeadSession` | arch/fateboard/src/main/java/com/webank/ai/fate/board/ssh/SshService.java:130-152 | A cached session that drops after the eviction check is not removed. When the new handshake fails, that same session stays in the map, now disconnected. |
| `SshSessions.ConnectInfo` | arch/fateboard/src/main/java/com/webank/ai/fate/board/ssh/SshService.java:116-122 | A null record, or one without a port, fails and leaves the map unchanged. A complete record connects with its user, password, ip and port. |
| `SshSessions.ConnectToEmptyPool` | arch/fateboard/src/main/java/com/webank/ai/fate/board/ssh/SshService.java:137-156 | The first connect to an empty map establishes a session with the requested user, password, host and port, and caches it as the map's only entry. |
| `SshSessions.ConnectPreservesWellKeyed` | arch/fateboard/src/main/java/com/webank/ai/fate/board/ssh/SshService.java:127-154 | Connecting keeps every cached session under the key of its own user, host and port. The session returned carries the requested key. |
| `SshSessions.SecondConnectReuses` | arch/fateboard/src/main/java/com/webank/ai/fate/board/ssh/SshService.java:128-135 | After a successful connect, connecting again with the same user, host and port returns the same session and map. This holds whatever the password or the transport would do, so no second handshake happens. |
| `SshSessions.DroppedSessionReplaced` | arch/fateboard/src/main/java/com/webank/ai/fate/board/ssh/SshService.java:130-154 | A disconnected cached session is replaced by the newly established one. |
| `SshSessions.FailedReconnectEvicts` | arch/fateboard/src/main/java/com/webank/ai/fate/board/ssh/SshService.java:130-152 | When re-establishing a dropped session fails, the map is the old map without that key. |
| `SshSessions.KeyCollisionSharesSession` | arch/fateboard/src/main/java/com/webank/ai/fate/board/ssh/SshService.java:127-135 | User `a_b` on host `c` and user `a` on host `b_c` have the same key. The second is handed the first's session. |
| `SshSessions.SessionKeyInjective` | arch/fateboard/src/main/java/com/webank/ai/fate/board/ssh/SshService.java:127 | If neither user name contains `_`, equal keys mean equal user, host and port. |
| `SshCommands.ExecuteCmdAsWritten` | arch/fateboard/src/main/java/com/webank/ai/fate/board/ssh/SshService.java:85-114 | A null session or command is rejected before any channel operation. A disconnected session yields `null`. A channel exists only on a connected session. |
| `SshCommands.OpenFailureAsWritten` | arch/fateboard/src/main/java/com/webank/ai/fate/board/ssh/SshService.java:101-108 | On a connected session whose `openChannel` throws, the caller receives a NullPointerException, not the transport's exception. |
| `SshCommands.ExecuteCmd` | arch/fateboard/src/main/java/com/webank/ai/fate/board/ssh/SshService.java:85-114 | It makes the same checks as the as-written function. A returned channel is connected and bound to the command. Every transport failure reaches the caller as itself, with an opened channel released. No null dereference is ever raised. |
| `SshCommands.ExecuteCmdAgreesElsewhere` | arch/fateboard/src/main/java/com/webank/ai/fate/board/ssh/SshService.java:85-114 | The corrected and as-written functions agree on every input except a failing `openChannel` on a connected session. |
| `SshCommands.EmptyCommandNotRejected` | arch/fateboard/src/main/java/com/webank/ai/fate/board/ssh/SshService.java:88 | Only a null command is refused. The empty command is dispatched. |
| `SshCommands.LoadConnectExecute` | arch/fateboard/src/main/java/com/webank/ai/fate/board/ssh/SshService.java:116-122 | End to end: a loaded well-formed entry resolves, connects through an empty map to a session with that entry's user, host and port, and runs a command on a connected channel. |
| `QuantileBinning.PercentileRates` | federatedml/feature/binning/quantile_binning.py:69-72 | `bin_num = 0` raises ZeroDivisionError. Otherwise there are `bin_num - 1` rates (none when `bin_num <= 1`), each `(j+1)/bin_num`, strictly increasing and inside (0, 1). |
| `QuantileBinning.SplitPointsOf` | federatedml/feature/binning/quantile_binning.py:93-99 | A column's split points are its percentile answers without repeats, in first-occurrence order, and no more of them than there are percentiles. |
| `QuantileBinning.DedupOfUnique` | federatedml/feature/binning/quantile_binning.py:94-99 | The de-duplication property fixes the list completely: only one list satisfies it. |
| `QuantileBinning.FitSplitPoints` | federatedml/feature/binning/quantile_binning.py:68-102 | The summaries are computed only when the cache is empty; otherwise the cached ones are reused unchanged. Every summarised column, and no other, gets split points, which are de-duplicated percentile answers, at most `bin_num - 1` per column. With `bin_num = 0` it raises ZeroDivisionError and the cache is untouched. |
| `QuantileBinning.MergeSummaryDict` | federatedml/feature/binning/quantile_binning.py:181-194 | `None` with `None` gives `None`. One `None` gives the other argument. Two dicts give a dict with exactly the first one's columns, each merged with the second's summary for that column, or with `None`. |
| `QuantileBinning.ReduceKeepsFirstColumns` | federatedml/feature/binning/quantile_binning.py:180-194 | Reducing any number of per-partition dicts gives a dict with exactly the first partition's columns. |
| `QuantileBinning.QueryDict` | federatedml/feature/binning/quantile_binning.py:214-221 | A number is broadcast to every column in `cols`. A dict is used as it is. Anything else raises ValueError. |
| `QuantileBinning.QueryQuantilePoint` | federatedml/feature/binning/quantile_binning.py:196-227 | The cache is filled even when the query fails. The answer has exactly the query dict's columns, each the summary's answer at its point. It raises ValueError for a bad type and KeyError for a column without a summary. |
| `QuantileBinning.NumberQueriesEveryColumn` | federatedml/feature/binning/quantile_binning.py:214-227 | A numeric query over summarised columns answers exactly the listed columns, each at that number. |
| `QuantileBinning.InsertDatas` | federatedml/feature/binning/quantile_binning.py:161-172 | It succeeds exactly when every summarised column can be read from every row. Each summary then equals the original fed that column's values in row order, with the same columns. Otherwise it raises a lookup error. |

## Left out

- `JobDetailController.java`: HTTP forwarding and JSON envelopes, with no state of interest.
- The JSch transport is not modelled: `openChannel`, `session.connect(30000)` with its timeout, `StrictHostKeyChecking=no`, `setPassword`, `setCommand` and `setInputStream(null)`. Their outcomes enter as `Transport` and `ChannelAttempt` values.
- File and classpath I/O in `afterPropertiesSet` is left out, including the `file.exists() && file.isFile()` precondition. Only the choice of location is modelled.
- `Properties.load` syntax (comments, escapes, continuation lines, leading-blank trimming) is left out. The property source enters as the key/value map it produces.
- `JavaText.ParseInt`: `new Integer(String)` also accepts non-ASCII Unicode digits, such as Arabic-Indic ones. The model accepts ASCII digits only.
- Logging and `printStackTrace` have no effect on state.
- Thread safety of the static, unsynchronised session map is left out. The model is sequential.
- `SshSessions.Connect` and `SshSessions.FailedReconnectEvicts` assume the cached session does not drop between the `isConnected()` reads at lines 130 and 134. `SshSessions.ConnectObserved` models that drop. There, a failed handshake leaves the dead session in the map, so the eviction promise does not hold.
- `SshSessions.ConnectInfo` assumes the `SshInfo` class, which is not part of this model, stores its port as a boxed `Integer`. Under that assumption an ip-only record fails when its null port is unboxed, before the map is touched. A record with a port but no user or password cannot come out of `load`; the model fails it in the same way instead of appending `"null"` to the key.
- `SshCommands.ExecuteCmd` returns the channel as a value. The later draining of output and the exit status are outside `executeCmd`.
- The internals of the Greenwald–Khanna quantile summary, its error bounds and the sparse `SparseQuantileSummaries` path with `set_total_count` are left out. So are `approxiQuantile`'s construction of empty summaries, `_init_cols`, `_show_split_points` and `is_sparse_data`.
- The distribution of `mapPartitions`/`reduce` is left out. `ReduceSummaryDicts` folds partitions left to right, one of the orders a reduce may take.
- `QuantileBinning.PercentileRates`: exact reals stand in for Python floats, so float rounding of `i * (1.0 / bin_num)` is not modelled.
- `QuantileBinning.MergeSummaryDict`: value semantics stand in for the in-place `summary1.merge(summary2)`. The aliasing between the merged dict and the first argument's summary objects is not modelled.
- `QuantileBinning.InsertDatas`: KeyError (column missing from `cols_dict`) and IndexError (row too short) are reported as one `LookupError`. The partial in-place inserts made before the raise are not modelled.
- `query_quantile_point` also assigns `self.cols` and `fit_split_points` also assigns `self.split_points`. These attribute writes are not modelled.

## Findings

| source | as written | input that shows it | evidently intended | confidence | as-written member | corrected member |
|---|---|---|---|---|---|---|
| arch/fateboard/src/main/java/com/webank/ai/fate/board/ssh/SshService.java:101-108 | The catch block calls `channel.disconnect()` even when `openChannel("exec")` itself threw, while `channel` is still `null`. | A connected session on which `openChannel("exec")` throws. | Release the channel only if one was opened, then rethrow the transport's exception. | high; not executed | `SshCommands.OpenFailureAsWritten` | `SshCommands.ExecuteCmd` |
