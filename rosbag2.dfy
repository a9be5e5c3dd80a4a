/**
 An in-memory model of the rosbag2 sequential writer as the test fixtures use it.
 A bag is the list of topics declared on it and the append-only list of records
 written to it, in write order. Storage, serialization and closing are not modelled:
 a payload is kept as a structured value instead of serialized bytes.
 */
module Rosbag2 {

  /** Topic metadata as given to `create_topic`: name, message type and serialization format. */
  datatype TopicMetadata = TopicMetadata(name: string, msgType: string, serializationFormat: string)

  /** The messages the fixtures serialize, as values. */
  datatype Payload =
    | StringMsg(data: string)              // example_interfaces/msg/String
    | EmptyDiagnostics                     // diagnostic_msgs/msg/DiagnosticArray with no field set
    | StampedDiagnostics(stampNs: int)     // DiagnosticArray whose header stamp is set, in nanoseconds
    | ImageMsg(frameId: string, stampNanosec: int, width: int, height: int, step: int,
               encoding: string, imageData: seq<int>)  // sensor_msgs/msg/Image

  /** One written message: its topic, its payload and its timestamp in nanoseconds. */
  datatype Record = Record(topic: string, payload: Payload, timestamp: int)

  /** What a writer call reports; a failed call leaves the bag as it was. */
  datatype Status = Ok | DuplicateTopic(name: string) | UnknownTopic(name: string)

  predicate Declared(topics: seq<TopicMetadata>, name: string)
  {
    exists i :: 0 <= i < |topics| && topics[i].name == name
  }

  /** No topic name is declared twice. */
  predicate UniqueNames(topics: seq<TopicMetadata>)
  {
    forall i, j :: 0 <= i < j < |topics| ==> topics[i].name != topics[j].name
  }

  /** Topic names are unique and every record names a declared topic. */
  predicate WellFormed(topics: seq<TopicMetadata>, records: seq<Record>)
  {
    UniqueNames(topics) && forall k :: 0 <= k < |records| ==> Declared(topics, records[k].topic)
  }

  /** Every declared topic carries at least one record (no unused declaration). */
  predicate EveryTopicUsed(topics: seq<TopicMetadata>, records: seq<Record>)
  {
    forall i :: 0 <= i < |topics| ==> exists k :: 0 <= k < |records| && records[k].topic == topics[i].name
  }

  /** A log that writes only to one declared topic is well formed, and uses that topic unless it is empty. */
  lemma SingleTopicLog(topic: TopicMetadata, records: seq<Record>)
    requires forall k :: 0 <= k < |records| ==> records[k].topic == topic.name
    ensures WellFormed([topic], records)
    ensures records != [] ==> EveryTopicUsed([topic], records)
  {
    forall k | 0 <= k < |records| ensures Declared([topic], records[k].topic) {
      assert [topic][0].name == records[k].topic;
    }
    if records != [] {
      assert records[0].topic == [topic][0].name;
    }
  }

  /** The envelope timestamps of a log, in write order. */
  function Timestamps(records: seq<Record>): seq<int>
  {
    if records == [] then [] else [records[0].timestamp] + Timestamps(records[1..])
  }

  /** The envelope timestamps of the records on one topic, in write order. */
  function TopicTimestamps(records: seq<Record>, name: string): seq<int>
  {
    if records == [] then []
    else (if records[0].topic == name then [records[0].timestamp] else []) + TopicTimestamps(records[1..], name)
  }

  predicate StrictlyIncreasing(ts: seq<int>)
  {
    forall i, j :: 0 <= i < j < |ts| ==> ts[i] < ts[j]
  }

  /** Some time is written after a strictly later one. */
  predicate OutOfOrder(ts: seq<int>)
  {
    exists i, j :: 0 <= i < j < |ts| && ts[i] > ts[j]
  }

  lemma {:induction false} TimestampsAt(records: seq<Record>, k: nat)
    requires k < |records|
    ensures |Timestamps(records)| == |records| && Timestamps(records)[k] == records[k].timestamp
  {
    if k > 0 {
      TimestampsAt(records[1..], k - 1);
    } else if |records| > 1 {
      TimestampsAt(records[1..], 0);
    }
  }

  /** Filtering a log by topic distributes over appending logs. */
  lemma {:induction false} TopicTimestampsAppend(a: seq<Record>, b: seq<Record>, name: string)
    ensures TopicTimestamps(a + b, name) == TopicTimestamps(a, name) + TopicTimestamps(b, name)
  {
    if a == [] {
      assert a + b == b;
    } else {
      var head := if a[0].topic == name then [a[0].timestamp] else [];
      assert (a + b)[0] == a[0] && (a + b)[1..] == a[1..] + b;
      assert TopicTimestamps(a + b, name) == head + TopicTimestamps(a[1..] + b, name);
      TopicTimestampsAppend(a[1..], b, name);
      assert TopicTimestamps(a, name) == head + TopicTimestamps(a[1..], name);
    }
  }

  /**
   The writer. `topics` and `records` are the bag being written; `uri` is where
   it was opened.
   */
  class SequentialWriter {
    const uri: string
    var topics: seq<TopicMetadata>
    var records: seq<Record>

    ghost predicate Valid()
      reads this
    {
      WellFormed(topics, records)
    }

    /** `SequentialWriter()` followed by `open`: an empty bag at `uri`. */
    constructor Open(uri: string)
      ensures Valid() && this.uri == uri
      ensures topics == [] && records == []
    {
      this.uri := uri;
      topics := [];
      records := [];
    }

    /** Declares a topic; a name that is already declared is refused and nothing changes. */
    method CreateTopic(topic: TopicMetadata) returns (status: Status)
      requires Valid()
      modifies this
      ensures Valid()
      ensures status == if Declared(old(topics), topic.name) then DuplicateTopic(topic.name) else Ok
      ensures topics == if status.Ok? then old(topics) + [topic] else old(topics)
      ensures records == old(records)
    {
      if Declared(topics, topic.name) {
        status := DuplicateTopic(topic.name);
      } else {
        topics := topics + [topic];
        status := Ok;
        forall k | 0 <= k < |records|
          ensures Declared(topics, records[k].topic)
        {
          var i :| 0 <= i < |old(topics)| && old(topics)[i].name == records[k].topic;
          assert topics[i] == old(topics)[i];
        }
      }
    }

    /** Appends a record; a topic that was never declared is refused and nothing changes. */
    method Write(topic: string, payload: Payload, timestamp: int) returns (status: Status)
      requires Valid()
      modifies this
      ensures Valid()
      ensures status == if Declared(topics, topic) then Ok else UnknownTopic(topic)
      ensures records == if status.Ok? then old(records) + [Record(topic, payload, timestamp)] else old(records)
      ensures topics == old(topics)
    {
      if Declared(topics, topic) {
        records := records + [Record(topic, payload, timestamp)];
        status := Ok;
      } else {
        status := UnknownTopic(topic);
      }
    }
  }
}
