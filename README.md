# kafka-filter, modelled in Dafny

kafka-filter is a terminal tool. It consumes one Kafka topic and runs a jq
filter over each message payload. It keeps a running count of matching
messages per partition and draws these counts as a bar chart, refreshed on
every key press and every timer tick, until the user presses `q`.

This project models the sequential logic of that tool:

- **The counter store** (`AppState.PartitionCounts`): a map from partition
  key (the decimal text of an `i32` partition id) to a count. It is built
  with a zero counter for every partition the topic metadata lists.
- **The application state** (`AppState.App`): the command-line options, plus
  the optional partition list and counter store. Each getter fails until its
  setter or builder has run.
- **Topic selection** (`Kafka.TopicPartitions`): the metadata must list
  exactly one topic, whose partition ids are then recorded.
- **The consume loop** (`Kafka.CountMatches`). A message is counted when its
  payload is UTF-8 text, the jq program runs on it without error, and the
  output is not `null`. Counting is increment-or-insert. The message is then
  committed. The loop stops at the first error: one the stream itself yields,
  or a failed commit.
- **The offset policy** (`Config.OffsetFromStr`, `Config.OffsetToString`).
  Parsing ignores letter case and printing is lower case.
- **The display** (`Ui`). Each redraw shows the title and a snapshot of the
  store, with entries sorted by key as strings, so "10" comes before "2". The
  control loop redraws once before each event and ends only on `Quit`. The
  key handler answers `q` or `Q` by sending `Quit`.

The broker, the jq engine and the terminal are not modelled. They become inputs:

- The metadata answer is a `Result<Metadata, string>` (the `?` on
  `fetch_metadata` is its error case).
- The stream is a finite sequence of `Kafka.StreamItem`s: either a delivered
  `Kafka.Message` or an error the stream yields. Each message carries its
  partition, its payload as seen by `payload_view::<str>()`, and the outcome
  of its commit.
- The compiled jq filter is a total function `string -> Option<string>`
  (`None` is an evaluation error).
- The control loop's input is the sequence of values `recv()` returns.

The files are `wrappers.dfy` (Option, Result), `sequences.dfy` (first index
with a property), `decimal.dfy` (`i32::to_string`), `config.dfy`,
`app_state.dfy`, `kafka.dfy` and `ui.dfy`.

## Model

| member | source | states |
|---|---|---|
| `Decimal.NatToString` | src/app_state.rs:17 | the text of a number is a non-empty string of digits with no leading zero |
| `Decimal.IntToString` | src/kafka.rs:74 | the key text is non-empty; it starts with a digit exactly for a non-negative id and with `-` otherwise, and all other characters are digits |
| `Decimal.IntToStringRoundTrip` | src/app_state.rs:17 | reading back the decimal text of any integer gives that integer |
| `Decimal.IntToStringInjective` | src/kafka.rs:74 | two partition ids have the same counter key exactly when they are equal |
| `Config.ToLower` | src/config.rs:40 | lower-casing keeps the length and lowers each character in place |
| `Config.OffsetFromStr` | src/config.rs:39-48 | the result is `Earliest` exactly when the argument is "earliest" ignoring case, and `Latest` exactly when it is "latest" ignoring case; every other string is an error naming the argument |
| `Config.OffsetToString` | src/config.rs:51-57 | the printed name is lower case, and the parser's case-insensitive match recognises it as exactly its own policy |
| `Config.OffsetToStringLowercase` | src/config.rs:51-57 | the printed name is all lower case and the two policies print differently |
| `Config.OffsetRoundTrip` | src/config.rs:39-57 | parsing the printed name of a policy gives the policy back |
| `Config.OffsetParsePrint` | src/config.rs:39-57 | printing a parsed policy gives the lower-cased argument |
| `AppState.ZeroCounts` | src/app_state.rs:14-22 | the built store's keys are exactly the texts of the listed ids, and every count is 0 |
| `AppState.PartitionKeysSize` | src/app_state.rs:16-17 | there are as many keys as distinct partition ids |
| `AppState.ZeroCountsSize` | src/app_state.rs:16-19 | repeated ids collapse: the store has one entry per distinct id |
| `AppState.PartitionCounts.FromPartitions` | src/app_state.rs:14-22 | the insertion loop builds exactly `ZeroCounts(partitions)` |
| `AppState.App.constructor` | src/app_state.rs:32-38 | a new App keeps the options and has neither partitions nor a store |
| `AppState.App.CliOptions` | src/app_state.rs:40-42 | returns the options given at construction (a `const`: nothing can change them) |
| `AppState.App.SetPartitions` | src/app_state.rs:44-46 | records the ids, replacing earlier ones, and leaves the store alone |
| `AppState.App.Partitions` | src/app_state.rs:48-54 | succeeds exactly when ids were set, returning them; otherwise the fixed error |
| `AppState.App.PartitionCountsFromPartitions` | src/app_state.rs:56-59 | fails exactly when no ids were set, and then leaves the store unchanged; otherwise installs a fresh store equal to `ZeroCounts` of the ids |
| `AppState.App.GetPartitionCounts` | src/app_state.rs:61-71 | succeeds exactly when the store was built, returning that same shared store; otherwise the fixed error |
| `Kafka.PartitionIds` | src/kafka.rs:36-40 | the topic's partition ids, one per partition, in metadata order |
| `Kafka.TopicPartitions` | src/kafka.rs:26-52 | a failed metadata fetch is passed on; otherwise it succeeds exactly when one topic is listed and records that topic's ids; on error the recorded ids are unchanged and the message gives the topic and the number of topics found |
| `Kafka.IsMatch` | src/kafka.rs:70-73 | a message that is not text, whose jq run fails, or whose output is `null` does not match; a text message with any other output does |
| `Kafka.Bump` | src/kafka.rs:74-81 | an existing key goes up by one, a missing key is inserted with 1, no other key changes |
| `Kafka.CountOne` | src/kafka.rs:70-81 | a non-matching message leaves the store as it is; a matching one adds its own key if missing, raises that key's count by one, and keeps every other count |
| `Kafka.CountOneEffect` | src/kafka.rs:70-84 | one message raises the count under its own key by exactly one if it is text, jq succeeds and the output is not `null`; otherwise nothing changes |
| `Kafka.CountMessage` | src/kafka.rs:70-84 | the per-message branches change the store exactly as `CountOne` says |
| `Kafka.CountedAt` | src/kafka.rs:67-84 | after any messages each key's count is its starting count plus its number of matching messages; a key is present exactly when it was at the start or one of its messages matched |
| `Kafka.CountedGrows` | src/kafka.rs:67-84 | counting never removes a key and never lowers a count |
| `Kafka.CountedAppend` | src/kafka.rs:67-91 | counting a longer stream continues from the counts of its prefix |
| `Kafka.CountedSnoc` | src/kafka.rs:67-91 | counting one more message continues from the counts so far |
| `Kafka.CountedPrefixGrows` | src/kafka.rs:67-91 | between any two processed prefixes no key is lost and no count drops |
| `Kafka.TotalRemove` | src/kafka.rs:74-81 | the total of the counts can be split at any key |
| `Kafka.TotalBump` | src/kafka.rs:74-81 | increment-or-insert adds exactly one to the total |
| `Kafka.CountedTotal` | src/kafka.rs:67-84 | the total grows by exactly the number of matching messages |
| `Kafka.ZeroTotal` | src/app_state.rs:18 | a store whose counts are all zero totals zero |
| `Kafka.ZeroCountsTotal` | src/app_state.rs:14-22 | a freshly built store totals zero |
| `Kafka.CountMatches` | src/kafka.rs:62-92 | the loop stops at the first item that fails. A stream error stops it with that error, the messages before it counted and nothing after. A failed commit stops it with the commit's error, its own message counted too. If the given prefix holds no failure, every message in it is counted |
| `Kafka.ZeroCountsExample` | src/app_state.rs:14-22 | partitions 0, 1, 2 give the store {"0": 0, "1": 0, "2": 0} |
| `Kafka.ErrorMessageCounts` | src/kafka.rs:70-81 | with the error-selecting filter, an error document bumps its partition |
| `Kafka.InfoMessageSkipped` | src/kafka.rs:72 | with the error-selecting filter, an info document gives `null` and is not counted |
| `Kafka.ExampleFirstTwo` | src/kafka.rs:67-84 | an info message then an error message on partition 1 leave {"0": 0, "1": 1, "2": 0} |
| `Kafka.ExampleLastTwo` | src/kafka.rs:67-84 | two more error messages, on partitions 2 and 1, give {"0": 0, "1": 2, "2": 1} |
| `Kafka.ThreePartitionsExample` | src/kafka.rs:67-84 | on partitions 0, 1, 2, one info and three error messages end as counts 0, 2 and 1 |
| `Kafka.UnseenPartitionExample` | src/kafka.rs:78-81 | a match for a partition missing from an empty store is inserted with count 1 |
| `Sequences.FirstWhere` | src/kafka.rs:86-89 | the index found is the first element with the property; no index means no element has it |
| `Ui.StrLt` | src/ui.rs:65 | nothing sorts before the empty string, and a proper prefix sorts before the longer string |
| `Ui.StrLtLexicographic` | src/ui.rs:65 | one key sorts before another exactly when, at the first position where they differ, it has ended or has the smaller character |
| `Ui.StrLtIrreflexive` | src/ui.rs:65 | no key sorts before itself |
| `Ui.StrLtTransitive` | src/ui.rs:65 | the string order is transitive |
| `Ui.StrLtTotal` | src/ui.rs:65 | any two different keys are ordered one way or the other |
| `Ui.TenBeforeTwo` | src/ui.rs:65 | the order is lexicographic: the key of partition 10 sorts before that of partition 2 |
| `Ui.EntryLe` | src/ui.rs:65 | entries with different keys are ordered by key alone; entries with the same key are ordered by count |
| `Ui.EntryLeTotal` | src/ui.rs:65 | any two (key, count) entries are comparable |
| `Ui.EntryLeTransitive` | src/ui.rs:65 | the entry order is transitive |
| `Ui.SortedDistinctIncreasing` | src/ui.rs:65 | sorted entries with distinct keys are in strictly increasing key order, so the count never decides |
| `Ui.SwapKeepsKeysDistinct` | src/ui.rs:65 | swapping two neighbours keeps the keys distinct |
| `Ui.InsertSwap` | src/ui.rs:65 | one insertion swap keeps the entries a permutation and the rest ordered |
| `Ui.InsertDone` | src/ui.rs:65 | when insertion stops, the prefix is sorted |
| `Ui.SortEntries` | src/ui.rs:65 | the in-place sort leaves the entries sorted, as a permutation of the input, with keys still distinct |
| `Ui.CollectEntries` | src/ui.rs:61-64 | the collected entries hold each key of the store once, with its count, in the map's own order |
| `Ui.SortedCollectedIsSnapshot` | src/ui.rs:61-65 | sorting the collected entries yields the snapshot |
| `Ui.Snapshot` | src/ui.rs:60-65 | the snapshot has one entry per key of the store with that key's count, in strictly increasing key order |
| `Ui.SnapshotHead` | src/ui.rs:60-65 | two snapshots of the same contents begin with the same entry |
| `Ui.SnapshotTail` | src/ui.rs:60-65 | without its first entry a snapshot is the snapshot of the remaining keys |
| `Ui.SnapshotUnique` | src/ui.rs:60-65 | the snapshot depends only on the contents, not on the order the map is read in |
| `Ui.SnapshotGrows` | src/ui.rs:60-65 | a later snapshot, taken after more counting, still shows every earlier bar, with a count no lower |
| `Ui.Title` | src/ui.rs:55-59 | the title is "Topic: ", the topic, ", Filter: ", then the filter, each at its stated position |
| `Ui.Draw` | src/ui.rs:54-69 | a frame carries that title and the snapshot of the current store |
| `Ui.OnKey` | src/ui.rs:116-124 | `q` and `Q` send exactly one `Quit`; every other character sends nothing |
| `Ui.KeySendsAreQuits` | src/ui.rs:116-124 | over any events, the key handler sends only `Quit`, one per quit key |
| `Ui.Handled` | src/ui.rs:40-47 | the loop handles every event before the first `Quit`, and stops at that `Quit` when there is one |
| `Ui.Run` | src/ui.rs:37-51 | one draw before each receive. The loop ends only on `Quit`, after as many draws as events up to it, with nothing drawn after. With no `Quit` it draws once more and waits. Every frame shows the title and the store's snapshot, and only character keys send events |

## Left out

- `consumer_connect` and every rdkafka call (`create`, `fetch_metadata`, `subscribe`, `stream`, `commit_message`) are foreign broker code and network I/O. Metadata, messages and commit outcomes are inputs instead.
- Kafka.CountMatches: the stream never runs out in the source. The model takes a finite prefix of it, and its `Ok` when that prefix holds no failure marks where the input ends, not a result the source returns.
- The `expect` panics of the consuming task (subscribe failure, and the stream's error after `try_for_each`) are not modelled. `Kafka.CountMatches` returns the stream's result instead of panicking on it.
- `jq_rs::compile` and `run` are a foreign query engine. The compiled filter is a function parameter. The per-message recompilation and its `expect` panic are not modelled: compilation is taken to succeed.
- Kafka.CountOneEffect: counts are unbounded naturals, so the `u64` overflow of `*entry += 1` after 2^64 matches on one partition is not modelled.
- Config.OffsetFromStr: Rust's `to_lowercase` is Unicode lower-casing; the model lowers ASCII letters only. Both accept the same strings unless some non-ASCII character lower-cases into one of the letters of "earliest" or "latest". To our knowledge none does; this is not proved.
- The clap derive and the option defaults in src/config.rs:6-29 are library behaviour; `CliOptions` is a plain record.
- Concurrency is not modelled: the `tokio::spawn` tasks, the `Arc<DashMap>` sharding and the concurrent reads of the store, the bounded channel of 32 events, its backpressure and the 250 ms tick. The store has one writer, and `Ui.Run` draws from a store that does not change during the loop. `Ui.SnapshotGrows` covers what a concurrent writer could do between two redraws.
- `events_listener`, the keyboard and tick producers, are left out: their events appear only as the input of `Ui.Run`. So the order in which a re-injected `Quit` comes back is an input, not derived.
- Ui.Run: three error exits of `run` are not modelled: a failed `terminal.draw` (src/ui.rs:38), a failed `terminal.show_cursor` on `Quit` (src/ui.rs:46), and a failed `on_key` send of `Quit` on a closed channel. The first two are terminal I/O, which the model treats as always succeeding. The third cannot happen, because `run` holds the receiver. A send that blocks on a full channel is not modelled either.
- The terminal set-up, the alternate screen and `show_cursor`, and the bar chart's rendering and styling are terminal I/O. A frame records only the title and the ordered bars.
- Ui.Draw: the `unwrap()` on `partition_counts()` is modelled as a precondition (the store has been built), not as a panic.
- src/main.rs is start-up wiring only: new App, then `consumer_connect`, then `topic_partitions`, then `partition_counts_from_partitions`, then `count_matches`, then `run`. Each step except `consumer_connect` (left out above) is modelled on its own; main.rs's composition of them is not.
