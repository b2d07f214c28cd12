/**
 * The consumer side: choosing the topic's partitions from broker metadata,
 * and counting the messages that match the filter, partition by partition.
 * The broker client and the jq engine are outside the model: metadata and
 * messages are inputs, and the compiled filter is a function parameter.
 */
module Kafka {
  import opened Wrappers
  import opened Sequences
  import opened Decimal
  import opened AppState

  // ---------------------------------------------------------------------------
  // Topic metadata

  datatype PartitionMetadata = PartitionMetadata(id: I32)
  datatype TopicMetadata = TopicMetadata(name: string, partitions: seq<PartitionMetadata>)
  /** The broker's answer to a metadata query for one topic name. */
  datatype Metadata = Metadata(topics: seq<TopicMetadata>)

  /** The ids of a topic's partitions, in metadata order. */
  function PartitionIds(ps: seq<PartitionMetadata>): (ids: seq<I32>)
    ensures |ids| == |ps|
    ensures forall i :: 0 <= i < |ps| ==> ids[i] == ps[i].id
  {
    if ps == [] then [] else [ps[0].id] + PartitionIds(ps[1..])
  }

  function TopicCountError(topic: string, found: nat): string
  {
    "Error fetching metadata for topic: " + topic + ". Found " + NatToString(found) + " topics."
  }

  /**
   * `topic_partitions`: `fetched` is the outcome of the metadata query for the
   * configured topic. Exactly one topic must come back; its partition ids are
   * then recorded in the application state.
   */
  method TopicPartitions(app: App, fetched: Result<Metadata, string>) returns (r: Result<(), string>)
    modifies app
    ensures app.partitionCounts == old(app.partitionCounts)
    ensures fetched.Err? ==> r == Err(fetched.error)
    ensures fetched.Ok? ==> (r.Ok? <==> |fetched.value.topics| == 1)
    ensures fetched.Ok? && r.Err? ==>
      r.error == TopicCountError(app.cliOptions.topic, |fetched.value.topics|)
    ensures r.Ok? ==> app.partitions == Some(PartitionIds(fetched.value.topics[0].partitions))
    ensures r.Err? ==> app.partitions == old(app.partitions)
  {
    if fetched.Err? {
      return Err(fetched.error);
    }
    var topics := fetched.value.topics;
    if |topics| == 1 {
      var topic := topics[0];
      app.SetPartitions(PartitionIds(topic.partitions));
      r := Ok(());
    } else {
      r := Err(TopicCountError(app.CliOptions().topic, |topics|));
    }
  }

  // ---------------------------------------------------------------------------
  // Messages and the match decision

  /** What `payload_view::<str>()` gives: no payload, bytes that are not UTF-8, or text. */
  datatype PayloadView = NoPayload | NotUtf8 | Text(text: string)

  /** The outcome of committing a message's offset. */
  datatype CommitResult = Committed | CommitFailed(error: string)

  /** One consumed message: its partition, its payload and how its commit turns out. */
  datatype Message = Message(partition: I32, payload: PayloadView, commit: CommitResult)

  /** jq's output for a document that does not match the filter. */
  const NoMatchOutput := "null\n"

  /**
   * A message matches when its payload is text, the compiled filter `run`
   * evaluates without error on it, and the output is not `null`.
   */
  predicate IsMatch(run: string -> Option<string>, m: Message): (b: bool)
    ensures !m.payload.Text? ==> !b
    ensures m.payload.Text? && run(m.payload.text).None? ==> !b
    ensures m.payload.Text? && run(m.payload.text) == Some(NoMatchOutput) ==> !b
    ensures m.payload.Text? && run(m.payload.text).Some? && run(m.payload.text).value != NoMatchOutput ==> b
  {
    && m.payload.Text?
    && run(m.payload.text).Some?
    && run(m.payload.text).value != NoMatchOutput
  }

  /** The counter key of a message: the decimal text of its partition. */
  function MessageKey(m: Message): string
  {
    IntToString(m.partition)
  }

  // ---------------------------------------------------------------------------
  // The counting step, as a function of the store's contents

  /** The count under `k`, zero when there is none. */
  function CountOf(m: map<string, nat>, k: string): nat
  {
    if k in m then m[k] else 0
  }

  /** Increment-or-insert: the existing counter goes up by one, a missing one starts at one. */
  function Bump(m: map<string, nat>, key: string): (r: map<string, nat>)
    ensures r.Keys == m.Keys + {key}
    ensures r[key] == CountOf(m, key) + 1
    ensures forall k :: k in m && k != key ==> r[k] == m[k]
  {
    if key in m then m[key := m[key] + 1] else m[key := 1]
  }

  /** The store after one message: bumped under the message's key when it matches. */
  function CountOne(m: map<string, nat>, run: string -> Option<string>, msg: Message): (r: map<string, nat>)
    ensures !IsMatch(run, msg) ==> r == m
    ensures IsMatch(run, msg) ==> r.Keys == m.Keys + {MessageKey(msg)}
    ensures IsMatch(run, msg) ==> r[MessageKey(msg)] == CountOf(m, MessageKey(msg)) + 1
    ensures forall k :: k in m && k != MessageKey(msg) ==> r[k] == m[k]
  {
    if IsMatch(run, msg) then Bump(m, MessageKey(msg)) else m
  }

  /** The store after a sequence of messages, counted in order. */
  function Counted(m: map<string, nat>, run: string -> Option<string>, msgs: seq<Message>): map<string, nat>
  {
    if msgs == [] then m else CountOne(Counted(m, run, msgs[..|msgs| - 1]), run, msgs[|msgs| - 1])
  }

  /** How many of `msgs` match and belong under key `k`. */
  function MatchesFor(run: string -> Option<string>, msgs: seq<Message>, k: string): nat
  {
    if msgs == [] then 0
    else
      var last := msgs[|msgs| - 1];
      MatchesFor(run, msgs[..|msgs| - 1], k) + (if IsMatch(run, last) && MessageKey(last) == k then 1 else 0)
  }

  /** How many of `msgs` match. */
  function Matches(run: string -> Option<string>, msgs: seq<Message>): nat
  {
    if msgs == [] then 0
    else Matches(run, msgs[..|msgs| - 1]) + (if IsMatch(run, msgs[|msgs| - 1]) then 1 else 0)
  }

  /** One message raises its own key's count by exactly one if it matches, and changes nothing otherwise. */
  lemma CountOneEffect(m: map<string, nat>, run: string -> Option<string>, msg: Message, k: string)
    ensures k in CountOne(m, run, msg) <==> k in m || (IsMatch(run, msg) && k == MessageKey(msg))
    ensures CountOf(CountOne(m, run, msg), k)
      == CountOf(m, k) + (if IsMatch(run, msg) && k == MessageKey(msg) then 1 else 0)
  {
  }

  /**
   * After any sequence of messages, each key's count is its starting count plus
   * the number of matching messages for it; a key is present exactly when it
   * was at the start or some message for it matched.
   */
  lemma {:induction false} CountedAt(m: map<string, nat>, run: string -> Option<string>, msgs: seq<Message>, k: string)
    ensures k in Counted(m, run, msgs) <==> k in m || MatchesFor(run, msgs, k) > 0
    ensures CountOf(Counted(m, run, msgs), k) == CountOf(m, k) + MatchesFor(run, msgs, k)
  {
    if msgs != [] {
      var init := msgs[..|msgs| - 1];
      CountedAt(m, run, init, k);
      CountOneEffect(Counted(m, run, init), run, msgs[|msgs| - 1], k);
    }
  }

  /** Counting never removes a key and never lowers a count. */
  lemma {:induction false} CountedGrows(m: map<string, nat>, run: string -> Option<string>, msgs: seq<Message>)
    ensures m.Keys <= Counted(m, run, msgs).Keys
    ensures forall k :: k in m ==> m[k] <= Counted(m, run, msgs)[k]
  {
    forall k | k in m
      ensures k in Counted(m, run, msgs) && m[k] <= Counted(m, run, msgs)[k]
    {
      CountedAt(m, run, msgs, k);
    }
  }

  /** Counting one more message continues from the count so far. */
  lemma CountedSnoc(m: map<string, nat>, run: string -> Option<string>, xs: seq<Message>, x: Message)
    ensures Counted(m, run, xs + [x]) == CountOne(Counted(m, run, xs), run, x)
  {
    assert (xs + [x])[..|xs|] == xs;
  }

  /** Counting a longer sequence continues from the count of its prefix. */
  lemma {:induction false} CountedAppend(m: map<string, nat>, run: string -> Option<string>, xs: seq<Message>, ys: seq<Message>)
    ensures Counted(m, run, xs + ys) == Counted(Counted(m, run, xs), run, ys)
  {
    if ys == [] {
      assert xs + ys == xs;
    } else {
      var init := ys[..|ys| - 1];
      assert (xs + ys)[..|xs + ys| - 1] == xs + init;
      assert (xs + ys)[|xs + ys| - 1] == ys[|ys| - 1];
      CountedAppend(m, run, xs, init);
    }
  }

  /** Over processed prefixes the store only grows: no key lost, no count lowered. */
  lemma CountedPrefixGrows(m: map<string, nat>, run: string -> Option<string>, msgs: seq<Message>, i: nat, j: nat)
    requires i <= j <= |msgs|
    ensures Counted(m, run, msgs[..i]).Keys <= Counted(m, run, msgs[..j]).Keys
    ensures forall k :: k in Counted(m, run, msgs[..i]) ==>
      Counted(m, run, msgs[..i])[k] <= Counted(m, run, msgs[..j])[k]
  {
    assert msgs[..j] == msgs[..i] + msgs[i..j];
    CountedAppend(m, run, msgs[..i], msgs[i..j]);
    CountedGrows(Counted(m, run, msgs[..i]), run, msgs[i..j]);
  }

  // ---------------------------------------------------------------------------
  // The total of all counts

  /** The sum of all counts in the store. */
  ghost function Total(m: map<string, nat>): nat
    decreases |m|
  {
    if m == map[] then 0
    else
      var k :| k in m;
      assert |m - {k}| < |m| by { assert (m - {k}).Keys == m.Keys - {k}; }
      m[k] + Total(m - {k})
  }

  /** The total can be split at any key. */
  lemma {:induction false} TotalRemove(m: map<string, nat>, k: string)
    requires k in m
    ensures Total(m) == m[k] + Total(m - {k})
    decreases |m|
  {
    var j :| j in m && Total(m) == m[j] + Total(m - {j});
    if j != k {
      assert (m - {j}).Keys == m.Keys - {j};
      assert (m - {k}).Keys == m.Keys - {k};
      TotalRemove(m - {j}, k);
      TotalRemove(m - {k}, j);
      assert m - {j} - {k} == m - {k} - {j};
    }
  }

  /** Increment-or-insert adds exactly one to the total. */
  lemma TotalBump(m: map<string, nat>, key: string)
    ensures Total(Bump(m, key)) == Total(m) + 1
  {
    var r := Bump(m, key);
    TotalRemove(r, key);
    assert r - {key} == m - {key};
    if key in m {
      TotalRemove(m, key);
    } else {
      assert m - {key} == m;
    }
  }

  /** The total grows by exactly the number of matching messages. */
  lemma {:induction false} CountedTotal(m: map<string, nat>, run: string -> Option<string>, msgs: seq<Message>)
    ensures Total(Counted(m, run, msgs)) == Total(m) + Matches(run, msgs)
  {
    if msgs != [] {
      var init := msgs[..|msgs| - 1];
      CountedTotal(m, run, init);
      if IsMatch(run, msgs[|msgs| - 1]) {
        TotalBump(Counted(m, run, init), MessageKey(msgs[|msgs| - 1]));
      }
    }
  }

  /** A freshly built store totals zero. */
  lemma ZeroCountsTotal(ps: seq<I32>)
    ensures Total(ZeroCounts(ps)) == 0
  {
    ZeroTotal(ZeroCounts(ps));
  }

  /** A store whose counts are all zero totals zero. */
  lemma {:induction false} ZeroTotal(m: map<string, nat>)
    requires forall k :: k in m ==> m[k] == 0
    ensures Total(m) == 0
    decreases |m|
  {
    if m != map[] {
      var k :| k in m && Total(m) == m[k] + Total(m - {k});
      assert (m - {k}).Keys == m.Keys - {k};
      ZeroTotal(m - {k});
    }
  }

  // ---------------------------------------------------------------------------
  // The consume loop

  /** One item of the consumer's stream: a delivered message, or an error the stream itself yields. */
  datatype StreamItem = Received(msg: Message) | StreamError(error: string)

  /** An item that ends `try_for_each`: a stream error, or a message whose commit fails. */
  predicate Stops(it: StreamItem)
  {
    it.StreamError? || it.msg.commit.CommitFailed?
  }

  /** The messages among the items, in stream order. */
  function Messages(items: seq<StreamItem>): seq<Message>
  {
    if items == [] then []
    else
      var last := items[|items| - 1];
      Messages(items[..|items| - 1]) + (if last.Received? then [last.msg] else [])
  }

  /** The counting half of the per-message body: bump the message's key if it matches. */
  method CountMessage(store: PartitionCounts, run: string -> Option<string>, msg: Message)
    modifies store
    ensures store.counts == CountOne(old(store.counts), run, msg)
  {
    if msg.payload.Text? {
      var output := run(msg.payload.text);
      if output.Some? && output.value != NoMatchOutput {
        var key := IntToString(msg.partition);
        if key in store.counts {
          store.counts := store.counts[key := store.counts[key] + 1];
        } else {
          store.counts := store.counts[key := 1];
        }
      }
    }
  }

  /**
   * `count_matches`'s stream loop under `try_for_each`. Each delivered message
   * is counted if it matches and is then committed. The loop stops at the first
   * item that fails: a stream error stops it before the closure runs, and a
   * failed commit stops it after its own message has been counted. `items` is
   * a finite prefix of the stream; when it runs out with no failure, the result
   * is `Ok`.
   */
  method CountMatches(store: PartitionCounts, run: string -> Option<string>, items: seq<StreamItem>)
    returns (r: Result<(), string>)
    modifies store
    ensures match FirstWhere(items, Stops)
      case None => r == Ok(()) && store.counts == Counted(old(store.counts), run, Messages(items))
      case Some(i) =>
        match items[i]
        case StreamError(e) =>
          r == Err(e) && store.counts == Counted(old(store.counts), run, Messages(items[..i]))
        case Received(msg) =>
          r == Err(msg.commit.error) && store.counts == Counted(old(store.counts), run, Messages(items[..i + 1]))
  {
    ghost var start := store.counts;
    var i := 0;
    while i < |items|
      invariant 0 <= i <= |items|
      invariant forall j :: 0 <= j < i ==> !Stops(items[j])
      invariant store.counts == Counted(start, run, Messages(items[..i]))
    {
      assert items[..i + 1][..i] == items[..i];
      match items[i] {
        case StreamError(e) =>
          assert FirstWhere(items, Stops) == Some(i);
          return Err(e);
        case Received(msg) =>
          CountMessage(store, run, msg);
          CountedSnoc(start, run, Messages(items[..i]), msg);
          if msg.commit.CommitFailed? {
            assert FirstWhere(items, Stops) == Some(i);
            return Err(msg.commit.error);
          }
      }
      i := i + 1;
    }
    assert items[..i] == items;
    r := Ok(());
  }

  // ---------------------------------------------------------------------------
  // Worked examples

  const ErrorDoc := "{\"level\":\"error\"}"
  const InfoDoc := "{\"level\":\"info\"}"

  /**
   * A filter written to give `null` for every document that is not an error,
   * as `if .level == "error" then . else null end` does.
   */
  function SelectErrors(doc: string): Option<string>
  {
    if doc == ErrorDoc then Some(doc + "\n") else Some(NoMatchOutput)
  }

  lemma ZeroCountsExample()
    ensures ZeroCounts([0, 1, 2]) == map["0" := 0, "1" := 0, "2" := 0]
  {
    assert IntToString(0) == "0" && IntToString(1) == "1" && IntToString(2) == "2";
    assert [0, 1, 2][..2] == [0, 1] && [0, 1][..1] == [0] && [0][..0] == [];
  }

  lemma ErrorMessageCounts(m: map<string, nat>, p: I32)
    ensures CountOne(m, SelectErrors, Message(p, Text(ErrorDoc), Committed)) == Bump(m, IntToString(p))
  {
  }

  lemma InfoMessageSkipped(m: map<string, nat>, p: I32)
    ensures CountOne(m, SelectErrors, Message(p, Text(InfoDoc), Committed)) == m
  {
    assert InfoDoc != ErrorDoc by { assert InfoDoc[10] != ErrorDoc[10]; }
  }

  lemma ExampleFirstTwo(m0: map<string, nat>, a: Message, b: Message)
    requires m0 == map["0" := 0, "1" := 0, "2" := 0]
    requires a == Message(0, Text(InfoDoc), Committed) && b == Message(1, Text(ErrorDoc), Committed)
    ensures Counted(m0, SelectErrors, [a, b]) == map["0" := 0, "1" := 1, "2" := 0]
  {
    assert IntToString(1) == "1";
    CountedSnoc(m0, SelectErrors, [], a);
    InfoMessageSkipped(m0, 0);
    CountedSnoc(m0, SelectErrors, [a], b);
    ErrorMessageCounts(m0, 1);
    assert [] + [a] == [a] && [a] + [b] == [a, b];
  }

  lemma ExampleLastTwo(m0: map<string, nat>, a: Message, b: Message, c: Message)
    requires Counted(m0, SelectErrors, [a, b]) == map["0" := 0, "1" := 1, "2" := 0]
    requires b == Message(1, Text(ErrorDoc), Committed) && c == Message(2, Text(ErrorDoc), Committed)
    ensures Counted(m0, SelectErrors, [a, b, c, b]) == map["0" := 0, "1" := 2, "2" := 1]
  {
    assert IntToString(1) == "1" && IntToString(2) == "2";
    var m2 := map["0" := 0, "1" := 1, "2" := 0];
    CountedSnoc(m0, SelectErrors, [a, b], c);
    ErrorMessageCounts(m2, 2);
    var m3 := map["0" := 0, "1" := 1, "2" := 1];
    assert Bump(m2, "2") == m3;
    CountedSnoc(m0, SelectErrors, [a, b, c], b);
    ErrorMessageCounts(m3, 1);
    assert [a, b] + [c] == [a, b, c] && [a, b, c] + [b] == [a, b, c, b];
  }

  /** Partitions 0, 1 and 2; one info and three error messages end as counts 0, 2 and 1. */
  lemma ThreePartitionsExample(ps: seq<I32>, msgs: seq<Message>)
    requires ps == [0, 1, 2]
    requires msgs == [ Message(0, Text(InfoDoc), Committed), Message(1, Text(ErrorDoc), Committed),
                       Message(2, Text(ErrorDoc), Committed), Message(1, Text(ErrorDoc), Committed) ]
    ensures Counted(ZeroCounts(ps), SelectErrors, msgs) == map["0" := 0, "1" := 2, "2" := 1]
  {
    ZeroCountsExample();
    var m0 := ZeroCounts(ps);
    ExampleFirstTwo(m0, msgs[0], msgs[1]);
    ExampleLastTwo(m0, msgs[0], msgs[1], msgs[2]);
    assert msgs == [msgs[0], msgs[1], msgs[2], msgs[1]];
  }

  /** A matching message for a partition the store has never seen is inserted with count 1. */
  lemma UnseenPartitionExample()
    ensures Counted(ZeroCounts([]), SelectErrors, [Message(5, Text(ErrorDoc), Committed)]) == map["5" := 1]
  {
    assert IntToString(5) == "5";
  }
}
