# ros2bag_tools test bags, modelled in Dafny

This project models the test fixtures of `ros2bag_tools` that write small bags
with exactly placed timestamps. It also models the synchronization expectation
those fixtures encode for a tolerance-based synchronizer.

- `rosbag2.dfy` (module `Rosbag2`) models the rosbag2 sequential writer as an
  in-memory, append-only log. A `SequentialWriter` holds the declared topics
  (`name`, message type, serialization format) and the records written so far
  (`topic`, payload, timestamp in nanoseconds), in write order. `CreateTopic`
  refuses a name that is already declared. `Write` refuses a topic that was
  never declared. A refused call reports a `Status` and leaves the bag as it
  was. The invariant `Valid()` says that topic names are unique and that every
  record names a declared topic. Both methods preserve it. Payloads are
  structured values (`StringMsg`, `EmptyDiagnostics`, `StampedDiagnostics`,
  `ImageMsg`), not serialized bytes.
- `create_test_bags.dfy` (module `CreateTestBags`) models the five fixtures.
  Each one is a method that opens a fresh writer at `path`, declares its
  topics and writes its records. The loops are the source's loops, with their
  invariants. For each fixture a function gives the log it must produce
  (`StringBagLog`, `DiagnosticsBagLog`, `DayTimeBagLog`, `ImagesBagLog`,
  `SyncedBagLog`). Each method is proved to leave exactly that log and topic
  list. Lemmas then state what the tests rely on: exact timestamps, write order,
  payloads, well-formedness and fit in a signed 64-bit timestamp.
- The synced bag is also an oracle. `Match(a, b)` is the tolerance rule from
  the comment in `create_synced_bag`: two times match when they differ by
  strictly less than 10 ms. The lemmas read each topic's times back from the
  written log. They prove that:
  - the index-aligned `/sync0`-`/sync1` pairs match as m, m, x, x;
  - the pair at exactly 10 ms does not match;
  - over all cross pairs, exactly (0 ms, 0 ms) and (100 ms, 109 ms) match;
  - the `/offsync0` event matches nothing.

Each fixture method returns the writer object as `bag`. It stands for the bag
written at `path`, so the contracts can talk about what was written. The Python
functions return nothing. A refused writer call raises an exception in Python
and ends the fixture. In the model, each fixture stops at the first refused call
and returns its `Status`. Each fixture's `ensures status == Ok` says that none of
its calls is refused.

- `create_day_time_bag` places its outer records 1000 ns (1 µs) from the hour
  marks: one before 13:00 and one after 14:00.
- The two string-bag records are 10^9 + 1000 ns apart (1000 ns, then
  10^9 + 2000 ns).
- `create_synced_bag` is annotated as returning a tuple of topics and records,
  but its body has no `return`. The model returns no topic or record list.

## Model

| member | source | states |
|---|---|---|
| `Rosbag2.SequentialWriter.Open` | ros2bag_tools/test/create_test_bags.py:34-36 | a newly opened writer holds an empty, well-formed bag at the given path |
| `Rosbag2.SequentialWriter.CreateTopic` | ros2bag_tools/test/create_test_bags.py:38-39 | a new name is appended to the declared topics; a name already declared is refused with `DuplicateTopic` and nothing changes; records are untouched and the bag stays well formed |
| `Rosbag2.SequentialWriter.Write` | ros2bag_tools/test/create_test_bags.py:43 | a record on a declared topic is appended at the end of the log; an undeclared topic is refused with `UnknownTopic` and nothing changes; topics are untouched |
| `Rosbag2.SingleTopicLog` | ros2bag_tools/test/create_test_bags.py:38-45 | a log whose every record is on the one declared topic is well formed and, when not empty, uses that topic |
| `Rosbag2.TopicTimestampsAppend` | ros2bag_tools/test/create_test_bags.py:119-125 | the times read back for one topic from two logs written one after the other are the first log's followed by the second's |
| `CreateTestBags.CreateStringBag` | ros2bag_tools/test/create_test_bags.py:33-45 | no writer call is refused (`status == Ok`); the fixture leaves exactly the `/data` topic and the two records of `StringBagLog` |
| `CreateTestBags.StringBagContents` | ros2bag_tools/test/create_test_bags.py:20-45 | exactly two `/data` records, at 1000 ns then 10^9 + 2000 ns, 10^9 + 1000 ns apart; the log is well formed and uses its topic |
| `CreateTestBags.CreateDiagnosticsBag` | ros2bag_tools/test/create_test_bags.py:48-58 | no writer call is refused; the fixture leaves exactly the `/diagnostics` topic and its one record |
| `CreateTestBags.DiagnosticsBagContents` | ros2bag_tools/test/create_test_bags.py:53-58 | one `/diagnostics` record at 1000 ns whose diagnostics array has no field set; well formed, topic used |
| `CreateTestBags.CreateDayTimeBag` | ros2bag_tools/test/create_test_bags.py:61-79 | no writer call is refused; the fixture leaves exactly the `/data` topic and the four records of `DayTimeBagLog` |
| `CreateTestBags.DayTimeBagContents` | ros2bag_tools/test/create_test_bags.py:69-79 | an hour is 3.6 * 10^12 ns; the times are 13h - 1000, 13h, 14h, 14h + 1000 ns, strictly increasing; the payloads are msg0, msg1, msg2 and msg2, the last two equal at distinct times |
| `CreateTestBags.CreateImagesBag` | ros2bag_tools/test/create_test_bags.py:82-99 | no writer call is refused; the loop leaves exactly the `/image` topic and the three records of `ImagesBagLog` |
| `CreateTestBags.ImageRecordsAt` | ros2bag_tools/test/create_test_bags.py:89-99 | after n iterations there are n records; record i is on `/image` at i seconds, its header stamp equals its envelope time, and all its other fields equal those of every other record |
| `CreateTestBags.ImagesBagContents` | ros2bag_tools/test/create_test_bags.py:89-99 | exactly three records at 0, 10^9 and 2 * 10^9 ns, strictly increasing, each with header stamp equal to envelope time; well formed, topic used |
| `CreateTestBags.ImageStampsFitNanosecField` | ros2bag_tools/test/create_test_bags.py:91-93 | every header `nanosec` value lies within the unsigned 32-bit range, and the last one exceeds 10^9, so the stamp is not normalised |
| `CreateTestBags.SyncedTopics` | ros2bag_tools/test/create_test_bags.py:107-110 | the declared topics are the dictionary's keys in the same order, each name once, each a `diagnostic_msgs/msg/DiagnosticArray` topic in `cdr` |
| `CreateTestBags.MsToNs` | ros2bag_tools/test/create_test_bags.py:121 | a whole number of milliseconds becomes a whole multiple of 10^6 ns that converts back to the same count; non-negative input gives non-negative output |
| `CreateTestBags.Match` | ros2bag_tools/test/create_test_bags.py:112-113 | two times match exactly when their absolute difference is strictly less than the 10 ms tolerance |
| `CreateTestBags.CreateSyncedBag` | ros2bag_tools/test/create_test_bags.py:102-125 | no topic declaration or write is refused; both loops leave exactly the topics `/sync0`, `/sync1`, `/offsync0` and the log `SyncedBagLog` |
| `CreateTestBags.WriteEntry` | ros2bag_tools/test/create_test_bags.py:120-125 | no write of the inner loop is refused; it appends one record per listed time of the entry, in order, and keeps the topics |
| `CreateTestBags.EntryRecordsAt` | ros2bag_tools/test/create_test_bags.py:120-125 | the inner loop writes one record per listed time, the i-th at MsToNs(ms[i]) with that time also in its header stamp |
| `CreateTestBags.EntryRecordsTopicTimestamps` | ros2bag_tools/test/create_test_bags.py:119-125 | reading one entry's records back by topic gives its times in nanoseconds on its own topic and nothing on any other |
| `CreateTestBags.SyncedBagLogOrder` | ros2bag_tools/test/create_test_bags.py:111-125 | the log is the `/sync0` records, then the `/sync1` records, then the `/offsync0` record |
| `CreateTestBags.SyncedBagLogAt` | ros2bag_tools/test/create_test_bags.py:111-125 | the log has nine records; record k is on `/sync0` for k < 4, `/sync1` for k < 8, `/offsync0` otherwise, at the k-th listed millisecond value |
| `CreateTestBags.SyncedBagContents` | ros2bag_tools/test/create_test_bags.py:111-125 | the envelope times in write order are 0, 100, 200, 300, 0, 109, 210, 311, 20 ms; each header stamp equals its envelope time; some record is written after a strictly later one (300 ms before 0 ms) |
| `CreateTestBags.SyncedBagWellFormed` | ros2bag_tools/test/create_test_bags.py:107-125 | every record names a declared topic, no topic is declared twice, and every declared topic is used |
| `CreateTestBags.SyncedLogTopicTimestamps` | ros2bag_tools/test/create_test_bags.py:111-125 | reading the log back by any name yields exactly the times of the entries with that name |
| `CreateTestBags.SyncedTopicTimesAreEntryTimes` | ros2bag_tools/test/create_test_bags.py:115-125 | each topic's times, read back from the log, are its dictionary list in nanoseconds, in order |
| `CreateTestBags.SyncedTopicTimestamps` | ros2bag_tools/test/create_test_bags.py:115-121 | read back from the log: `/sync0` at 0, 100, 200, 300 ms; `/sync1` at 0, 109, 210, 311 ms; `/offsync0` at 20 ms, all in nanoseconds |
| `CreateTestBags.AlignedPairsMatchAsExpected` | ros2bag_tools/test/create_test_bags.py:112-116 | the i-th `/sync0` and i-th `/sync1` times match exactly when the comment row says m (pairs 0 and 1) and not when it says x (pairs 2 and 3) |
| `CreateTestBags.ToleranceIsExclusive` | ros2bag_tools/test/create_test_bags.py:113-116 | the pair (200 ms, 210 ms) differs by exactly the tolerance and does not match |
| `CreateTestBags.PrimaryTimesMatchedPairs` | ros2bag_tools/test/create_test_bags.py:112-116 | among all cross pairs of the two primary lists in nanoseconds, exactly (0, 0) and (100 ms, 109 ms) match |
| `CreateTestBags.SyncTopicsMatchedPairs` | ros2bag_tools/test/create_test_bags.py:112-116 | the same set of matching pairs, now for the `/sync0` and `/sync1` times read back from the written log |
| `CreateTestBags.OffsyncTimeMatchesNoPrimaryTime` | ros2bag_tools/test/create_test_bags.py:112-117 | the off-sync time, 20 ms in nanoseconds, matches no time of either primary list, in either argument order |
| `CreateTestBags.OffsyncMatchesNothing` | ros2bag_tools/test/create_test_bags.py:112-117 | the single `/offsync0` event matches no `/sync0` and no `/sync1` event, in either argument order |
| `CreateTestBags.TimestampsFitInt64` | ros2bag_tools/test/create_test_bags.py:43-125 | every timestamp written by any of the five fixtures is between 0 and the largest signed 64-bit value |

## Left out

- Storage I/O: `default_rosbag_options`, the storage and converter options, and
  the failure of `open` on an invalid or occupied path. A bag is the writer's
  in-memory log; `path` is only recorded as the writer's `uri`.
- Flushing and closing: the fixtures never close their writers.
- `serialize_message` and the CDR format: it is a foreign library. Payloads are
  structured values.
- `Time(nanoseconds=ns).to_msg()`, which splits a time into seconds and
  nanoseconds in an external library. A stamped diagnostics array carries the
  raw nanosecond value. An image stamp carries only its `nanosec` field; `sec`
  is never set, so it stays 0.
- `int(ms*1e6)` is floating point. It is modelled as `ms * 1_000_000`. This is
  exact for the small whole-number millisecond values used.
- The writer's own timestamp range check: `Write` takes any integer. The model
  proves instead (`TimestampsFitInt64`) that every fixture timestamp fits.
- Messages of types the fixtures do not write: `Payload` has only the four
  kinds they use.
- The synchronizer or filter that consumes these bags is not part of this
  model. Only its tolerance rule, as stated in the comment, is modelled, as
  `Match`.
- Reading a bag back through the storage library is not modelled. The
  "read-back" lemmas filter the in-memory log by topic.
- Determinism across two calls has no separate statement. Each fixture's
  `ensures` fixes its log to a constant that does not depend on `path`.
