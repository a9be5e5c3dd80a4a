/**
 The test-bag fixtures of ros2bag_tools. Each fixture opens a fresh bag at a path,
 declares its topics and writes records with exactly placed nanosecond timestamps.
 For each fixture a function gives the log it must produce; the fixture method is
 proved to produce it, and lemmas state what the tests rely on about that log. The
 synced bag is, in addition, an oracle for a tolerance-based synchronizer: `Match`
 is the tolerance rule and the lemmas at the end prove which events match.
 */
module CreateTestBags {
  import opened Rosbag2

  /** Nanoseconds per second. */
  const CONVERSION_CONSTANT: int := 1_000_000_000
  /** Nanoseconds per hour, as computed inside `create_day_time_bag`. */
  const HOUR_TO_NS: int := 60 * 60 * CONVERSION_CONSTANT
  /** `int(ms * 1e6)`: nanoseconds per millisecond. */
  const NS_PER_MS: int := 1_000_000

  const STRING_TOPIC := TopicMetadata("/data", "example_interfaces/msg/String", "cdr")
  const DIAGNOSTICS_TOPIC := TopicMetadata("/diagnostics", "diagnostic_msgs/msg/DiagnosticArray", "cdr")
  const IMAGE_TOPIC := TopicMetadata("/image", "sensor_msgs/msg/Image", "cdr")

  /** The largest value of a signed 64-bit timestamp, the type rosbag2 stores. */
  const INT64_MAX: int := 0x7fff_ffff_ffff_ffff
  /** The largest value of the unsigned 32-bit `nanosec` field of a ROS time stamp. */
  const UINT32_MAX: int := 0xffff_ffff

  // ---------------------------------------------------------------- string bag

  /** The log `create_string_bag` writes. */
  function StringBagLog(): seq<Record>
  {
    [Record("/data", StringMsg("test_start"), 1000),
     Record("/data", StringMsg("test_end"), CONVERSION_CONSTANT + 2000)]
  }

  /**
   Each fixture stops at the first refused writer call and reports its status, as the
   exception the writer raises would end it; `status == Ok` says that no call was refused.
   */
  method CreateStringBag(path: string) returns (bag: SequentialWriter, status: Status)
    ensures fresh(bag) && bag.Valid() && bag.uri == path
    ensures status == Ok
    ensures bag.topics == [STRING_TOPIC] && bag.records == StringBagLog()
  {
    bag := new SequentialWriter.Open(path);
    status := bag.CreateTopic(STRING_TOPIC);
    if !status.Ok? { return; }
    assert bag.topics[0].name == "/data";
    var msg := StringMsg("test_start");
    status := bag.Write("/data", msg, 1000);
    if !status.Ok? { return; }
    msg := msg.(data := "test_end");
    status := bag.Write("/data", msg, CONVERSION_CONSTANT + 2000);
  }

  /** Two `/data` records, 1000 ns and then one second plus 2000 ns: 10^9 + 1000 ns apart. */
  lemma StringBagContents()
    ensures Timestamps(StringBagLog()) == [1000, 1_000_002_000]
    ensures StringBagLog()[1].timestamp - StringBagLog()[0].timestamp == 1_000_001_000
    ensures TopicTimestamps(StringBagLog(), "/data") == Timestamps(StringBagLog())
    ensures WellFormed([STRING_TOPIC], StringBagLog()) && EveryTopicUsed([STRING_TOPIC], StringBagLog())
  {
    SingleTopicLog(STRING_TOPIC, StringBagLog());
  }

  // ----------------------------------------------------------- diagnostics bag

  /** The log `create_diagnostics_bag` writes: one empty diagnostics array. */
  function DiagnosticsBagLog(): seq<Record>
  {
    [Record("/diagnostics", EmptyDiagnostics, 1000)]
  }

  method CreateDiagnosticsBag(path: string) returns (bag: SequentialWriter, status: Status)
    ensures fresh(bag) && bag.Valid() && bag.uri == path
    ensures status == Ok
    ensures bag.topics == [DIAGNOSTICS_TOPIC] && bag.records == DiagnosticsBagLog()
  {
    bag := new SequentialWriter.Open(path);
    status := bag.CreateTopic(DIAGNOSTICS_TOPIC);
    if !status.Ok? { return; }
    assert bag.topics[0].name == "/diagnostics";
    var msg := EmptyDiagnostics;
    status := bag.Write("/diagnostics", msg, 1000);
  }

  lemma DiagnosticsBagContents()
    ensures |DiagnosticsBagLog()| == 1 && TopicTimestamps(DiagnosticsBagLog(), "/diagnostics") == [1000]
    ensures DiagnosticsBagLog()[0].payload.EmptyDiagnostics?
    ensures WellFormed([DIAGNOSTICS_TOPIC], DiagnosticsBagLog())
    ensures EveryTopicUsed([DIAGNOSTICS_TOPIC], DiagnosticsBagLog())
  {
    SingleTopicLog(DIAGNOSTICS_TOPIC, DiagnosticsBagLog());
  }

  // -------------------------------------------------------------- day time bag

  /** The log `create_day_time_bag` writes: around 13:00 and 14:00 of the first day. */
  function DayTimeBagLog(): seq<Record>
  {
    [Record("/data", StringMsg("msg0"), 13 * HOUR_TO_NS - 1000),
     Record("/data", StringMsg("msg1"), 13 * HOUR_TO_NS),
     Record("/data", StringMsg("msg2"), 14 * HOUR_TO_NS),
     Record("/data", StringMsg("msg2"), 14 * HOUR_TO_NS + 1000)]
  }

  method CreateDayTimeBag(path: string) returns (bag: SequentialWriter, status: Status)
    ensures fresh(bag) && bag.Valid() && bag.uri == path
    ensures status == Ok
    ensures bag.topics == [STRING_TOPIC] && bag.records == DayTimeBagLog()
  {
    bag := new SequentialWriter.Open(path);
    status := bag.CreateTopic(STRING_TOPIC);
    if !status.Ok? { return; }
    assert bag.topics[0].name == "/data";
    assert Declared(bag.topics, "/data");
    var msg := StringMsg("msg0");
    status := bag.Write("/data", msg, 13 * HOUR_TO_NS - 1000);
    if !status.Ok? { return; }
    msg := msg.(data := "msg1");
    status := bag.Write("/data", msg, 13 * HOUR_TO_NS);
    if !status.Ok? { return; }
    msg := msg.(data := "msg2");
    status := bag.Write("/data", msg, 14 * HOUR_TO_NS);
    if !status.Ok? { return; }
    msg := msg.(data := "msg2");
    status := bag.Write("/data", msg, 14 * HOUR_TO_NS + 1000);
  }

  /** Exact timestamps, strictly increasing; payloads msg0, msg1, msg2, msg2. */
  lemma DayTimeBagContents()
    ensures HOUR_TO_NS == 3_600_000_000_000
    ensures Timestamps(DayTimeBagLog())
         == [46_799_999_999_000, 46_800_000_000_000, 50_400_000_000_000, 50_400_000_001_000]
    ensures StrictlyIncreasing(Timestamps(DayTimeBagLog()))
    ensures DayTimeBagLog()[0].payload == StringMsg("msg0") && DayTimeBagLog()[1].payload == StringMsg("msg1")
    ensures DayTimeBagLog()[2].payload == DayTimeBagLog()[3].payload == StringMsg("msg2")
    ensures DayTimeBagLog()[2].timestamp != DayTimeBagLog()[3].timestamp
    ensures WellFormed([STRING_TOPIC], DayTimeBagLog()) && EveryTopicUsed([STRING_TOPIC], DayTimeBagLog())
  {
    SingleTopicLog(STRING_TOPIC, DayTimeBagLog());
  }

  // ---------------------------------------------------------------- images bag

  /** How many images `create_images_bag` writes (`range(3)`). */
  const IMAGE_COUNT: nat := 3

  /** The 2x2 mono8 image written at time `t`, with `t` also in its header stamp. */
  function ImageMessage(t: int): Payload
  {
    ImageMsg("camera_optical_frame", t, 2, 2, 2, "mono8", [0, 128, 128, 255])
  }

  /** The records of the first `n` iterations of the image loop. */
  function ImageRecords(n: nat): seq<Record>
  {
    if n == 0 then []
    else
      var t := 1000 * 1000 * 1000 * (n - 1);
      ImageRecords(n - 1) + [Record("/image", ImageMessage(t), t)]
  }

  function ImagesBagLog(): seq<Record>
  {
    ImageRecords(IMAGE_COUNT)
  }

  method CreateImagesBag(path: string) returns (bag: SequentialWriter, status: Status)
    ensures fresh(bag) && bag.Valid() && bag.uri == path
    ensures status == Ok
    ensures bag.topics == [IMAGE_TOPIC] && bag.records == ImagesBagLog()
  {
    bag := new SequentialWriter.Open(path);
    status := bag.CreateTopic(IMAGE_TOPIC);
    if !status.Ok? { return; }
    assert bag.topics[0].name == "/image";
    for i := 0 to IMAGE_COUNT
      invariant bag.Valid() && bag.topics == [IMAGE_TOPIC]
      invariant status == Ok && bag.records == ImageRecords(i)
    {
      var t := 1000 * 1000 * 1000 * i;
      var msg := ImageMsg("camera_optical_frame", t, 2, 2, 2, "mono8", [0, 128, 128, 255]);
      status := bag.Write("/image", msg, t);
      if !status.Ok? { return; }
    }
  }

  /**
   Record `i` of the image loop is on `/image` at `i` seconds, its header stamp equals
   its envelope timestamp, and every other field is the same in all records.
   */
  lemma {:induction false} ImageRecordsAt(n: nat, i: nat)
    requires i < n
    ensures |ImageRecords(n)| == n
    ensures ImageRecords(n)[i].topic == "/image"
    ensures ImageRecords(n)[i].timestamp == i * CONVERSION_CONSTANT
    ensures ImageRecords(n)[i].payload.ImageMsg?
    ensures ImageRecords(n)[i].payload.stampNanosec == ImageRecords(n)[i].timestamp
    ensures ImageRecords(n)[i].payload.(stampNanosec := 0) == ImageMessage(0)
  {
    if i < n - 1 {
      ImageRecordsAt(n - 1, i);
    } else if n > 1 {
      ImageRecordsAt(n - 1, 0);
    }
  }

  /** Three records at 0, 1 and 2 seconds, strictly increasing by exactly one second. */
  lemma ImagesBagContents()
    ensures |ImagesBagLog()| == IMAGE_COUNT == 3
    ensures Timestamps(ImagesBagLog()) == [0, CONVERSION_CONSTANT, 2 * CONVERSION_CONSTANT]
    ensures StrictlyIncreasing(Timestamps(ImagesBagLog()))
    ensures forall k :: 0 <= k < |ImagesBagLog()| ==>
      ImagesBagLog()[k].payload.ImageMsg? && ImagesBagLog()[k].payload.stampNanosec == ImagesBagLog()[k].timestamp
    ensures WellFormed([IMAGE_TOPIC], ImagesBagLog()) && EveryTopicUsed([IMAGE_TOPIC], ImagesBagLog())
  {
    var log := ImagesBagLog();
    forall k | 0 <= k < 3
      ensures log[k].topic == "/image" && log[k].timestamp == k * CONVERSION_CONSTANT
      ensures log[k].payload.ImageMsg? && log[k].payload.stampNanosec == log[k].timestamp
    {
      ImageRecordsAt(3, k);
    }
    TimestampsAt(log, 0);
    TimestampsAt(log, 1);
    TimestampsAt(log, 2);
    assert Timestamps(log) == [0, CONVERSION_CONSTANT, 2 * CONVERSION_CONSTANT];
    SingleTopicLog(IMAGE_TOPIC, log);
  }

  /**
   The header stamp's `nanosec` field receives the whole timestamp, up to 2 * 10^9: above
   10^9 (the stamp is not normalised), but within the field's unsigned 32-bit range.
   */
  lemma ImageStampsFitNanosecField()
    ensures forall k :: 0 <= k < |ImagesBagLog()| ==>
      ImagesBagLog()[k].payload.ImageMsg? && 0 <= ImagesBagLog()[k].payload.stampNanosec <= UINT32_MAX
    ensures ImagesBagLog()[2].payload.ImageMsg? && ImagesBagLog()[2].payload.stampNanosec > CONVERSION_CONSTANT
  {
  }

  // ---------------------------------------------------------------- synced bag

  /** A topic and its event times in milliseconds, as in the `entries` dictionary. */
  type Entry = (string, seq<int>)

  const SYNC_TOPIC_NAMES: seq<string> := ["/sync0", "/sync1", "/offsync0"]

  /** The event times, in milliseconds, of the two primary topics and of the off-sync topic. */
  const SYNC0_MS: seq<int> := [0, 100, 200, 300]
  const SYNC1_MS: seq<int> := [0, 109, 210, 311]
  const OFFSYNC0_MS: seq<int> := [20]

  /**
   The `entries` dictionary, in insertion order (the order a Python dictionary
   iterates in): both primary topics, then the off-sync topic.
   */
  const SYNC_ENTRIES: seq<Entry> := [("/sync0", SYNC0_MS), ("/sync1", SYNC1_MS), ("/offsync0", OFFSYNC0_MS)]

  /**
   The topics `create_synced_bag` declares: the dictionary's keys, in its order, each
   once, all diagnostic arrays in CDR.
   */
  function SyncedTopics(): (topics: seq<TopicMetadata>)
    ensures |topics| == |SYNC_ENTRIES|
    ensures forall k :: 0 <= k < |topics| ==>
      topics[k].name == SYNC_ENTRIES[k].0 &&
      topics[k].msgType == "diagnostic_msgs/msg/DiagnosticArray" && topics[k].serializationFormat == "cdr"
    ensures UniqueNames(topics)
  {
    seq(|SYNC_TOPIC_NAMES|, i requires 0 <= i < |SYNC_TOPIC_NAMES| =>
      TopicMetadata(SYNC_TOPIC_NAMES[i], "diagnostic_msgs/msg/DiagnosticArray", "cdr"))
  }

  /** `int(ms * 1e6)` for a whole number of milliseconds: exact, a whole multiple of 10^6 ns. */
  function MsToNs(ms: int): (ns: int)
    ensures ns % NS_PER_MS == 0 && ns / NS_PER_MS == ms
    ensures 0 <= ms ==> 0 <= ns
  {
    ms * NS_PER_MS
  }

  function NsTimes(ms: seq<int>): seq<int>
  {
    seq(|ms|, i requires 0 <= i < |ms| => MsToNs(ms[i]))
  }

  /** The record written for an event at `ms` milliseconds on `topic`; its header carries the same time. */
  function SyncRecord(topic: string, ms: int): Record
  {
    Record(topic, StampedDiagnostics(MsToNs(ms)), MsToNs(ms))
  }

  /** The records of the inner loop over one entry's times. */
  function EntryRecords(topic: string, ms: seq<int>): seq<Record>
  {
    if ms == [] then [] else EntryRecords(topic, ms[..|ms| - 1]) + [SyncRecord(topic, ms[|ms| - 1])]
  }

  /** The records of the outer loop over the entries. */
  function EntriesRecords(entries: seq<Entry>): seq<Record>
  {
    if entries == [] then []
    else EntriesRecords(entries[..|entries| - 1]) + EntryRecords(entries[|entries| - 1].0, entries[|entries| - 1].1)
  }

  /** The log `create_synced_bag` writes. */
  function SyncedBagLog(): seq<Record>
  {
    EntriesRecords(SYNC_ENTRIES)
  }

  method CreateSyncedBag(path: string) returns (bag: SequentialWriter, status: Status)
    ensures fresh(bag) && bag.Valid() && bag.uri == path
    ensures status == Ok
    ensures bag.topics == SyncedTopics() && bag.records == SyncedBagLog()
  {
    bag := new SequentialWriter.Open(path);
    status := Ok;
    var topics := SyncedTopics();
    for k := 0 to |topics|
      invariant bag.Valid() && bag.records == []
      invariant status == Ok && bag.topics == topics[..k]
    {
      assert forall i :: 0 <= i < k ==> topics[..k][i].name != topics[k].name;
      status := bag.CreateTopic(topics[k]);
      if !status.Ok? { return; }
      assert topics[..k + 1] == topics[..k] + [topics[k]];
    }
    assert topics[..|topics|] == topics;
    var entries := SYNC_ENTRIES;
    for k := 0 to |entries|
      invariant bag.Valid() && bag.topics == topics
      invariant status == Ok && bag.records == EntriesRecords(entries[..k])
    {
      var (topic, ts) := entries[k];
      assert topics[k].name == topic;
      status := WriteEntry(bag, topic, ts);
      if !status.Ok? { return; }
      assert entries[..k + 1] == entries[..k] + [entries[k]];
      EntriesRecordsSnoc(entries[..k], entries[k]);
    }
    assert entries[..|entries|] == entries;
  }

  /** The inner loop of `create_synced_bag`: one stamped diagnostics record per listed time. */
  method WriteEntry(bag: SequentialWriter, topic: string, ts: seq<int>) returns (status: Status)
    requires bag.Valid() && Declared(bag.topics, topic)
    modifies bag
    ensures status == Ok
    ensures bag.Valid() && bag.topics == old(bag.topics)
    ensures bag.records == old(bag.records) + EntryRecords(topic, ts)
  {
    status := Ok;
    for j := 0 to |ts|
      invariant bag.Valid() && bag.topics == old(bag.topics)
      invariant status == Ok && bag.records == old(bag.records) + EntryRecords(topic, ts[..j])
    {
      var ns := MsToNs(ts[j]);
      var msg := StampedDiagnostics(ns);
      status := bag.Write(topic, msg, ns);
      if !status.Ok? { return; }
      assert ts[..j + 1][..j] == ts[..j];
    }
    assert ts[..|ts|] == ts;
  }

  /** The records of one entry's inner loop, one per event, in the entry's order. */
  lemma {:induction false} EntryRecordsAt(topic: string, ms: seq<int>, i: nat)
    requires i < |ms|
    ensures |EntryRecords(topic, ms)| == |ms| && EntryRecords(topic, ms)[i] == SyncRecord(topic, ms[i])
  {
    if i < |ms| - 1 {
      EntryRecordsAt(topic, ms[..|ms| - 1], i);
    } else if |ms| > 1 {
      EntryRecordsAt(topic, ms[..|ms| - 1], 0);
    }
  }

  /** The times of an entry's records on a topic: the entry's times in nanoseconds on its own topic, none elsewhere. */
  lemma {:induction false} EntryRecordsTopicTimestamps(topic: string, ms: seq<int>, name: string)
    ensures TopicTimestamps(EntryRecords(topic, ms), name) == if name == topic then NsTimes(ms) else []
  {
    if ms != [] {
      var init := ms[..|ms| - 1];
      EntryRecordsTopicTimestamps(topic, init, name);
      TopicTimestampsAppend(EntryRecords(topic, init), [SyncRecord(topic, ms[|ms| - 1])], name);
      assert NsTimes(ms) == NsTimes(init) + [MsToNs(ms[|ms| - 1])];
    }
  }

  lemma EntriesRecordsSnoc(entries: seq<Entry>, e: Entry)
    ensures EntriesRecords(entries + [e]) == EntriesRecords(entries) + EntryRecords(e.0, e.1)
  {
  }

  /** The synced log is the three entries' records one after the other. */
  lemma SyncedBagLogOrder()
    ensures SyncedBagLog()
         == EntryRecords("/sync0", SYNC0_MS) + EntryRecords("/sync1", SYNC1_MS) + EntryRecords("/offsync0", OFFSYNC0_MS)
  {
    var e := SYNC_ENTRIES;
    EntriesRecordsSnoc([], e[0]);
    EntriesRecordsSnoc([e[0]], e[1]);
    EntriesRecordsSnoc([e[0], e[1]], e[2]);
    assert [] + [e[0]] == [e[0]];
    assert [e[0]] + [e[1]] == [e[0], e[1]];
    assert [e[0], e[1]] + [e[2]] == e;
  }

  /** The topic of the `k`-th record of the synced log. */
  function SyncedTopicAt(k: nat): string
  {
    if k < 4 then "/sync0" else if k < 8 then "/sync1" else "/offsync0"
  }

  /** Record `k` of the synced log is the event at the `k`-th listed time, on its entry's topic. */
  lemma SyncedBagLogAt(k: nat)
    requires k < 9
    ensures |SyncedBagLog()| == 9
    ensures SyncedBagLog()[k] == SyncRecord(SyncedTopicAt(k), (SYNC0_MS + SYNC1_MS + OFFSYNC0_MS)[k])
  {
    SyncedBagLogOrder();
    EntryRecordsAt("/sync0", SYNC0_MS, 0);
    EntryRecordsAt("/sync1", SYNC1_MS, 0);
    EntryRecordsAt("/offsync0", OFFSYNC0_MS, 0);
    if k < 4 {
      EntryRecordsAt("/sync0", SYNC0_MS, k);
    } else if k < 8 {
      EntryRecordsAt("/sync1", SYNC1_MS, k - 4);
    }
  }

  /**
   Write order and envelope times of the synced log: `/sync0` four times, `/sync1` four
   times, then `/offsync0`; each header stamp equals the envelope time; the log as a
   whole is not time-sorted.
   */
  lemma SyncedBagContents()
    ensures Timestamps(SyncedBagLog())
         == [0, 100 * NS_PER_MS, 200 * NS_PER_MS, 300 * NS_PER_MS,
             0, 109 * NS_PER_MS, 210 * NS_PER_MS, 311 * NS_PER_MS,
             20 * NS_PER_MS]
    ensures forall k :: 0 <= k < |SyncedBagLog()| ==>
      SyncedBagLog()[k].topic == SyncedTopicAt(k) &&
      SyncedBagLog()[k].payload == StampedDiagnostics(SyncedBagLog()[k].timestamp)
    ensures OutOfOrder(Timestamps(SyncedBagLog()))
  {
    var log := SyncedBagLog();
    SyncedBagLogAt(0);
    TimestampsAt(log, 0);
    var expected := [0, 100 * NS_PER_MS, 200 * NS_PER_MS, 300 * NS_PER_MS,
                     0, 109 * NS_PER_MS, 210 * NS_PER_MS, 311 * NS_PER_MS,
                     20 * NS_PER_MS];
    forall k | 0 <= k < 9
      ensures Timestamps(log)[k] == expected[k]
      ensures log[k].topic == SyncedTopicAt(k) && log[k].payload == StampedDiagnostics(log[k].timestamp)
    {
      SyncedBagLogAt(k);
      TimestampsAt(log, k);
    }
    assert Timestamps(log)[3] > Timestamps(log)[4];
  }

  /** Every record names a declared topic, no name is declared twice, and every topic is used. */
  lemma SyncedBagWellFormed()
    ensures WellFormed(SyncedTopics(), SyncedBagLog())
    ensures EveryTopicUsed(SyncedTopics(), SyncedBagLog())
  {
    var topics := SyncedTopics();
    var log := SyncedBagLog();
    SyncedBagLogAt(0);
    forall k | 0 <= k < |log| ensures Declared(topics, log[k].topic) {
      SyncedBagLogAt(k);
      var i := if k < 4 then 0 else if k < 8 then 1 else 2;
      assert topics[i].name == log[k].topic;
    }
    forall i | 0 <= i < |topics| ensures exists k :: 0 <= k < |log| && log[k].topic == topics[i].name {
      SyncedBagLogAt(4 * i);
      assert log[4 * i].topic == topics[i].name;
    }
  }

  /** Filtering the synced log by any name collects that name's entry times, in nanoseconds. */
  lemma SyncedLogTopicTimestamps(name: string)
    ensures TopicTimestamps(SyncedBagLog(), name)
         == (if name == "/sync0" then NsTimes(SYNC0_MS) else [])
          + (if name == "/sync1" then NsTimes(SYNC1_MS) else [])
          + (if name == "/offsync0" then NsTimes(OFFSYNC0_MS) else [])
  {
    SyncedBagLogOrder();
    var a := EntryRecords("/sync0", SYNC0_MS);
    var b := EntryRecords("/sync1", SYNC1_MS);
    var c := EntryRecords("/offsync0", OFFSYNC0_MS);
    TopicTimestampsAppend(a + b, c, name);
    TopicTimestampsAppend(a, b, name);
    EntryRecordsTopicTimestamps("/sync0", SYNC0_MS, name);
    EntryRecordsTopicTimestamps("/sync1", SYNC1_MS, name);
    EntryRecordsTopicTimestamps("/offsync0", OFFSYNC0_MS, name);
  }

  /** Each topic of the synced bag carries exactly its entry's times, in nanoseconds, in order. */
  lemma SyncedTopicTimesAreEntryTimes()
    ensures TopicTimestamps(SyncedBagLog(), "/sync0") == NsTimes(SYNC0_MS)
    ensures TopicTimestamps(SyncedBagLog(), "/sync1") == NsTimes(SYNC1_MS)
    ensures TopicTimestamps(SyncedBagLog(), "/offsync0") == NsTimes(OFFSYNC0_MS)
  {
    assert "/sync0" != "/sync1" && "/sync0" != "/offsync0" && "/sync1" != "/offsync0";
    SyncedLogTopicTimestamps("/sync0");
    SyncedLogTopicTimestamps("/sync1");
    SyncedLogTopicTimestamps("/offsync0");
    assert NsTimes(SYNC0_MS) + [] + [] == NsTimes(SYNC0_MS);
    assert [] + NsTimes(SYNC1_MS) + [] == NsTimes(SYNC1_MS);
    assert [] + [] + NsTimes(OFFSYNC0_MS) == NsTimes(OFFSYNC0_MS);
  }

  /** The event times of each topic of the synced bag, in nanoseconds, read back from its log. */
  lemma SyncedTopicTimestamps()
    ensures TopicTimestamps(SyncedBagLog(), "/sync0") == [0, 100 * NS_PER_MS, 200 * NS_PER_MS, 300 * NS_PER_MS]
    ensures TopicTimestamps(SyncedBagLog(), "/sync1") == [0, 109 * NS_PER_MS, 210 * NS_PER_MS, 311 * NS_PER_MS]
    ensures TopicTimestamps(SyncedBagLog(), "/offsync0") == [20 * NS_PER_MS]
  {
    SyncedTopicTimesAreEntryTimes();
    EntryTimesInNs();
  }

  /** The entries' millisecond times, converted to nanoseconds. */
  lemma EntryTimesInNs()
    ensures NsTimes(SYNC0_MS) == [0, 100 * NS_PER_MS, 200 * NS_PER_MS, 300 * NS_PER_MS]
    ensures NsTimes(SYNC1_MS) == [0, 109 * NS_PER_MS, 210 * NS_PER_MS, 311 * NS_PER_MS]
    ensures NsTimes(OFFSYNC0_MS) == [20 * NS_PER_MS]
  {
  }

  // ------------------------------------------------------- synchronization oracle

  /** The synchronizer's match tolerance the synced bag assumes: 10 ms. */
  const TOLERANCE_NS: int := 10 * NS_PER_MS

  function Abs(x: int): int
  {
    if x < 0 then -x else x
  }

  /** Two event times match when they differ by strictly less than the tolerance. */
  predicate Match(a: int, b: int)
    ensures Match(a, b) <==> Abs(a - b) < TOLERANCE_NS
  {
    -TOLERANCE_NS < a - b < TOLERANCE_NS
  }

  /** The comment row above the `/sync0` and `/sync1` lists: index-aligned pairs m, m, x, x. */
  const SYNC_EXPECTATION: seq<bool> := [true, true, false, false]

  /** All cross pairs of event times in `a` and `b` that match. */
  ghost function MatchedPairs(a: seq<int>, b: seq<int>): set<(int, int)>
  {
    set i, j | 0 <= i < |a| && 0 <= j < |b| && Match(a[i], b[j]) :: (a[i], b[j])
  }

  /** The index-aligned `/sync0`-`/sync1` pairs of the bag match exactly as the comment row says. */
  lemma AlignedPairsMatchAsExpected()
    ensures
      var s0 := TopicTimestamps(SyncedBagLog(), "/sync0");
      var s1 := TopicTimestamps(SyncedBagLog(), "/sync1");
      |s0| == |s1| == |SYNC_EXPECTATION| &&
      forall i :: 0 <= i < |s0| ==> (Match(s0[i], s1[i]) <==> SYNC_EXPECTATION[i])
  {
    SyncedTopicTimestamps();
  }

  /** The boundary pair (200 ms, 210 ms) differs by exactly the tolerance and does not match. */
  lemma ToleranceIsExclusive()
    ensures
      var s0 := TopicTimestamps(SyncedBagLog(), "/sync0");
      var s1 := TopicTimestamps(SyncedBagLog(), "/sync1");
      |s0| == |s1| == 4 && s1[2] - s0[2] == TOLERANCE_NS && !Match(s0[2], s1[2])
  {
    SyncedTopicTimestamps();
  }

  /** Among all cross pairs of the primary event times, exactly (0 ms, 0 ms) and (100 ms, 109 ms) match. */
  lemma PrimaryTimesMatchedPairs()
    ensures MatchedPairs(NsTimes(SYNC0_MS), NsTimes(SYNC1_MS)) == {(0, 0), (100 * NS_PER_MS, 109 * NS_PER_MS)}
  {
    EntryTimesInNs();
    var s0 := NsTimes(SYNC0_MS);
    var s1 := NsTimes(SYNC1_MS);
    var matched := MatchedPairs(s0, s1);
    forall p | p in matched ensures p == (0, 0) || p == (100 * NS_PER_MS, 109 * NS_PER_MS) {
      var i, j :| 0 <= i < 4 && 0 <= j < 4 && Match(s0[i], s1[j]) && p == (s0[i], s1[j]);
      if i == 0 {
        assert j == 0;
      } else if i == 1 {
        assert j == 1;
      } else {
        assert false;
      }
    }
    assert Match(s0[0], s1[0]) && (s0[0], s1[0]) in matched;
    assert Match(s0[1], s1[1]) && (s0[1], s1[1]) in matched;
  }

  /** Across all pairs of `/sync0` and `/sync1` events of the bag, exactly (0 ms, 0 ms) and (100 ms, 109 ms) match. */
  lemma SyncTopicsMatchedPairs()
    ensures MatchedPairs(TopicTimestamps(SyncedBagLog(), "/sync0"), TopicTimestamps(SyncedBagLog(), "/sync1"))
         == {(0, 0), (100 * NS_PER_MS, 109 * NS_PER_MS)}
  {
    SyncedTopicTimesAreEntryTimes();
    PrimaryTimesMatchedPairs();
  }

  /** The off-sync event time matches no primary event time. */
  lemma OffsyncTimeMatchesNoPrimaryTime()
    ensures forall t :: t in NsTimes(SYNC0_MS) + NsTimes(SYNC1_MS) ==>
      !Match(NsTimes(OFFSYNC0_MS)[0], t) && !Match(t, NsTimes(OFFSYNC0_MS)[0])
    ensures MatchedPairs(NsTimes(OFFSYNC0_MS), NsTimes(SYNC0_MS)) == {}
    ensures MatchedPairs(NsTimes(OFFSYNC0_MS), NsTimes(SYNC1_MS)) == {}
  {
    EntryTimesInNs();
  }

  /** The single `/offsync0` event of the bag matches no `/sync0` and no `/sync1` event. */
  lemma OffsyncMatchesNothing()
    ensures
      var s0 := TopicTimestamps(SyncedBagLog(), "/sync0");
      var s1 := TopicTimestamps(SyncedBagLog(), "/sync1");
      var off := TopicTimestamps(SyncedBagLog(), "/offsync0");
      |off| == 1 &&
      (forall t :: t in s0 + s1 ==> !Match(off[0], t) && !Match(t, off[0])) &&
      MatchedPairs(off, s0) == {} && MatchedPairs(off, s1) == {}
  {
    SyncedTopicTimesAreEntryTimes();
    OffsyncTimeMatchesNoPrimaryTime();
  }

  /** Every timestamp any fixture writes is a non-negative signed 64-bit value. */
  lemma TimestampsFitInt64()
    ensures forall r :: r in StringBagLog() + DiagnosticsBagLog() + DayTimeBagLog() + ImagesBagLog() + SyncedBagLog() ==>
      0 <= r.timestamp <= INT64_MAX
  {
    var images := ImagesBagLog();
    var synced := SyncedBagLog();
    SyncedBagLogAt(0);
    forall k | 0 <= k < |images| ensures 0 <= images[k].timestamp <= INT64_MAX {
      ImageRecordsAt(3, k);
    }
    forall k | 0 <= k < |synced| ensures 0 <= synced[k].timestamp <= INT64_MAX {
      SyncedBagLogAt(k);
    }
  }
}
