/**
 * The display side: the snapshot of the counters that each redraw shows,
 * the title, the key handler, and the loop that redraws once per event
 * until it receives `Quit`. Terminal set-up, the bar chart's rendering and
 * the producer tasks feeding the event channel are outside the model.
 */
module Ui {
  import opened Wrappers
  import opened Sequences
  import opened AppState
  import Kafka

  // ---------------------------------------------------------------------------
  // Ordering of keys and entries

  /** Rust's `Ord` on strings: lexicographic; comparing the UTF-8 bytes orders as comparing the characters does. */
  predicate StrLt(a: string, b: string): (r: bool)
    ensures r ==> |b| > 0
    ensures |a| < |b| && a == b[..|a|] ==> r
  {
    |b| > 0 && (|a| == 0 || a[0] < b[0] || (a[0] == b[0] && StrLt(a[1..], b[1..])))
  }

  /** `a` and `b` agree before position `k`, where `a` has ended or has the smaller character. */
  predicate FirstLessAt(a: string, b: string, k: nat)
  {
    k <= |a| && k < |b| && a[..k] == b[..k] && (k == |a| || a[k] < b[k])
  }

  /** The recursive order is the textbook lexicographic one: decided at the first difference. */
  lemma {:induction false} StrLtLexicographic(a: string, b: string)
    ensures StrLt(a, b) <==> exists k: nat :: FirstLessAt(a, b, k)
  {
    if |a| > 0 && |b| > 0 {
      StrLtLexicographic(a[1..], b[1..]);
      if StrLt(a, b) {
        if a[0] < b[0] {
          assert FirstLessAt(a, b, 0);
        } else {
          var k: nat :| FirstLessAt(a[1..], b[1..], k);
          assert a[..k + 1] == [a[0]] + a[1..][..k];
          assert b[..k + 1] == [b[0]] + b[1..][..k];
          assert FirstLessAt(a, b, k + 1);
        }
      }
      if exists k: nat :: FirstLessAt(a, b, k) {
        var k: nat :| FirstLessAt(a, b, k);
        if k > 0 {
          assert a[0] == a[..k][0] && b[0] == b[..k][0];
          assert a[1..][..k - 1] == a[..k][1..] && b[1..][..k - 1] == b[..k][1..];
          assert FirstLessAt(a[1..], b[1..], k - 1);
        }
      }
    } else if |b| > 0 {
      assert FirstLessAt(a, b, 0);
    }
  }

  lemma {:induction false} StrLtIrreflexive(a: string)
    ensures !StrLt(a, a)
  {
    if |a| > 0 {
      StrLtIrreflexive(a[1..]);
    }
  }

  lemma {:induction false} StrLtTransitive(a: string, b: string, c: string)
    requires StrLt(a, b) && StrLt(b, c)
    ensures StrLt(a, c)
  {
    if |a| > 0 && a[0] == b[0] && b[0] == c[0] {
      StrLtTransitive(a[1..], b[1..], c[1..]);
    }
  }

  lemma {:induction false} StrLtTotal(a: string, b: string)
    ensures a == b || StrLt(a, b) || StrLt(b, a)
  {
    if |a| > 0 && |b| > 0 && a[0] == b[0] {
      StrLtTotal(a[1..], b[1..]);
      if a[1..] == b[1..] {
        assert a == [a[0]] + a[1..] && b == [b[0]] + b[1..];
      }
    }
  }

  /** The order is lexicographic, not numeric: partition 10 sorts before partition 2. */
  lemma TenBeforeTwo()
    ensures StrLt(Decimal.IntToString(10), Decimal.IntToString(2))
  {
    assert Decimal.IntToString(10) == "10";
    assert Decimal.IntToString(2) == "2";
  }

  /** One bar of the chart: a partition key and its count. */
  type Entry = (string, nat)

  /** Rust's `Ord` on `(String, u64)`: by key, then by count. */
  predicate EntryLe(x: Entry, y: Entry): (r: bool)
    ensures x.0 != y.0 ==> (r <==> StrLt(x.0, y.0))
    ensures x.0 == y.0 ==> (r <==> x.1 <= y.1)
  {
    StrLtIrreflexive(x.0);
    StrLt(x.0, y.0) || (x.0 == y.0 && x.1 <= y.1)
  }

  lemma EntryLeTotal(x: Entry, y: Entry)
    ensures EntryLe(x, y) || EntryLe(y, x)
  {
    StrLtTotal(x.0, y.0);
  }

  lemma EntryLeTransitive(x: Entry, y: Entry, z: Entry)
    requires EntryLe(x, y) && EntryLe(y, z)
    ensures EntryLe(x, z)
  {
    if StrLt(x.0, y.0) && StrLt(y.0, z.0) {
      StrLtTransitive(x.0, y.0, z.0);
    }
  }

  ghost predicate Sorted(s: seq<Entry>)
  {
    forall i, j :: 0 <= i < j < |s| ==> EntryLe(s[i], s[j])
  }

  ghost predicate KeysDistinct(s: seq<Entry>)
  {
    forall i, j :: 0 <= i < j < |s| ==> s[i].0 != s[j].0
  }

  /** Sorted entries with distinct keys are in strictly increasing key order. */
  lemma SortedDistinctIncreasing(s: seq<Entry>)
    requires Sorted(s) && KeysDistinct(s)
    ensures forall i, j :: 0 <= i < j < |s| ==> StrLt(s[i].0, s[j].0)
  {
  }

  lemma SwapKeepsKeysDistinct(s: seq<Entry>, i: nat)
    requires i + 1 < |s| && KeysDistinct(s)
    ensures KeysDistinct(s[i := s[i + 1]][i + 1 := s[i]])
  {
    var t := s[i := s[i + 1]][i + 1 := s[i]];
    forall p, q | 0 <= p < q < |t|
      ensures t[p].0 != t[q].0
    {
      var p' := if p == i then i + 1 else if p == i + 1 then i else p;
      var q' := if q == i then i + 1 else if q == i + 1 then i else q;
      assert t[p] == s[p'] && t[q] == s[q'] && p' != q';
    }
  }

  // ---------------------------------------------------------------------------
  // The snapshot

  /** Position `j` is being inserted into `s[..i + 1]`: all other pairs are in order. */
  ghost predicate SortedExcept(s: seq<Entry>, i: nat, j: nat)
    requires j <= i < |s|
  {
    forall p, q :: 0 <= p < q <= i && p != j && q != j ==> EntryLe(s[p], s[q])
  }

  /** The entry being inserted is no greater than every entry after it. */
  ghost predicate LeAfter(s: seq<Entry>, i: nat, j: nat)
    requires j <= i < |s|
  {
    forall q :: j < q <= i ==> EntryLe(s[j], s[q])
  }

  /** One step of insertion: swapping the entry past a greater neighbour. */
  lemma InsertSwap(s: seq<Entry>, i: nat, j: nat)
    requires 0 < j <= i < |s|
    requires SortedExcept(s, i, j) && LeAfter(s, i, j) && !EntryLe(s[j - 1], s[j])
    ensures SortedExcept(s[j - 1 := s[j]][j := s[j - 1]], i, j - 1)
    ensures LeAfter(s[j - 1 := s[j]][j := s[j - 1]], i, j - 1)
    ensures multiset(s[j - 1 := s[j]][j := s[j - 1]]) == multiset(s)
    ensures KeysDistinct(s) ==> KeysDistinct(s[j - 1 := s[j]][j := s[j - 1]])
  {
    EntryLeTotal(s[j - 1], s[j]);
    if KeysDistinct(s) {
      SwapKeepsKeysDistinct(s, j - 1);
    }
  }

  /** Insertion stops at the front or behind a smaller entry; then the prefix is sorted. */
  lemma InsertDone(s: seq<Entry>, i: nat, j: nat)
    requires j <= i < |s|
    requires SortedExcept(s, i, j) && LeAfter(s, i, j)
    requires j == 0 || EntryLe(s[j - 1], s[j])
    ensures Sorted(s[..i + 1])
  {
    forall p | 0 <= p < j
      ensures EntryLe(s[p], s[j])
    {
      if p < j - 1 {
        EntryLeTransitive(s[p], s[j - 1], s[j]);
      }
    }
  }

  /**
   * The `sort` of the collected entries, modelled as an insertion sort by
   * adjacent swaps. Rust's own sort is a different algorithm, but with
   * distinct keys every sorted arrangement is the same (`SnapshotUnique`).
   */
  method SortEntries(a: array<Entry>)
    modifies a
    ensures Sorted(a[..])
    ensures multiset(a[..]) == old(multiset(a[..]))
    ensures KeysDistinct(old(a[..])) ==> KeysDistinct(a[..])
  {
    for i := 0 to a.Length
      invariant Sorted(a[..i])
      invariant multiset(a[..]) == old(multiset(a[..]))
      invariant KeysDistinct(old(a[..])) ==> KeysDistinct(a[..])
    {
      var j := i;
      assert SortedExcept(a[..], i, j) && LeAfter(a[..], i, j);
      while j > 0 && !EntryLe(a[j - 1], a[j])
        invariant 0 <= j <= i
        invariant SortedExcept(a[..], i, j) && LeAfter(a[..], i, j)
        invariant multiset(a[..]) == old(multiset(a[..]))
        invariant KeysDistinct(old(a[..])) ==> KeysDistinct(a[..])
      {
        InsertSwap(a[..], i, j);
        a[j - 1], a[j] := a[j], a[j - 1];
        j := j - 1;
      }
      InsertDone(a[..], i, j);
    }
    assert a[..a.Length] == a[..];
  }

  /**
   * `s` is the display snapshot of the store contents `m`: one entry per key
   * with its count, in strictly increasing key order.
   */
  ghost predicate IsSnapshot(s: seq<Entry>, m: map<string, nat>)
  {
    && |s| == |m|
    && (forall i :: 0 <= i < |s| ==> s[i].0 in m && s[i].1 == m[s[i].0])
    && (forall k :: k in m ==> exists i :: 0 <= i < |s| && s[i].0 == k)
    && (forall i, j :: 0 <= i < j < |s| ==> StrLt(s[i].0, s[j].0))
  }

  /** `collected` holds each key of `m` once, with its count, in any order. */
  ghost predicate CollectedFrom(collected: seq<Entry>, m: map<string, nat>)
  {
    && |collected| == |m|
    && (forall i :: 0 <= i < |collected| ==> collected[i].0 in m && collected[i].1 == m[collected[i].0])
    && (forall k :: k in m ==> exists i :: 0 <= i < |collected| && collected[i].0 == k)
    && KeysDistinct(collected)
  }

  /** The `iter().map(..).collect()` step: the store's entries in the map's own (unspecified) order. */
  method CollectEntries(m: map<string, nat>) returns (collected: seq<Entry>)
    ensures CollectedFrom(collected, m)
  {
    var rest := m.Keys;
    collected := [];
    while rest != {}
      invariant rest <= m.Keys
      invariant |collected| + |rest| == |m|
      invariant forall i :: 0 <= i < |collected| ==>
        collected[i].0 in m && collected[i].0 !in rest && collected[i].1 == m[collected[i].0]
      invariant forall k :: k in m && k !in rest ==> exists i :: 0 <= i < |collected| && collected[i].0 == k
      invariant KeysDistinct(collected)
      decreases |rest|
    {
      var k :| k in rest;
      ghost var before := collected;
      collected := collected + [(k, m[k])];
      forall k' | k' in m && k' !in rest - {k}
        ensures exists i :: 0 <= i < |collected| && collected[i].0 == k'
      {
        if k' == k {
          assert collected[|before|].0 == k';
        } else {
          var i :| 0 <= i < |before| && before[i].0 == k';
          assert collected[i].0 == k';
        }
      }
      rest := rest - {k};
    }
    assert |m.Keys| == |m|;
  }

  /** Sorting the collected entries yields the snapshot. */
  lemma SortedCollectedIsSnapshot(collected: seq<Entry>, s: seq<Entry>, m: map<string, nat>)
    requires CollectedFrom(collected, m)
    requires multiset(s) == multiset(collected) && Sorted(s) && KeysDistinct(s)
    ensures IsSnapshot(s, m)
  {
    assert |s| == |multiset(s)| == |multiset(collected)| == |collected|;
    forall i | 0 <= i < |s|
      ensures s[i].0 in m && s[i].1 == m[s[i].0]
    {
      assert s[i] in multiset(collected);
    }
    forall k | k in m
      ensures exists i :: 0 <= i < |s| && s[i].0 == k
    {
      var i :| 0 <= i < |collected| && collected[i].0 == k;
      assert collected[i] in multiset(s);
    }
    SortedDistinctIncreasing(s);
  }

  /** The snapshot of the store's contents: collect the entries, then sort them in place. */
  method Snapshot(store: PartitionCounts) returns (s: seq<Entry>)
    ensures IsSnapshot(s, store.counts)
  {
    var collected := CollectEntries(store.counts);
    var a := new Entry[|collected|](i requires 0 <= i < |collected| => collected[i]);
    assert a[..] == collected;
    SortEntries(a);
    s := a[..];
    SortedCollectedIsSnapshot(collected, s, store.counts);
  }

  /** Two snapshots of the same contents start with the same entry: the least key. */
  lemma SnapshotHead(s: seq<Entry>, t: seq<Entry>, m: map<string, nat>)
    requires IsSnapshot(s, m) && IsSnapshot(t, m) && |s| > 0
    ensures |t| > 0 && s[0] == t[0]
  {
    var k := s[0].0;
    var j :| 0 <= j < |t| && t[j].0 == k;
    var i :| 0 <= i < |s| && s[i].0 == t[0].0;
    if j > 0 {
      if i > 0 {
        StrLtTransitive(k, t[0].0, k);
      }
      StrLtIrreflexive(k);
    }
  }

  /** Dropping the first entry of a snapshot leaves the snapshot of the other keys. */
  lemma SnapshotTail(s: seq<Entry>, m: map<string, nat>)
    requires IsSnapshot(s, m) && |s| > 0
    ensures IsSnapshot(s[1..], m - {s[0].0})
  {
    var k := s[0].0;
    var m' := m - {k};
    assert m'.Keys == m.Keys - {k};
    forall i | 1 <= i < |s|
      ensures s[i].0 != k
    {
      StrLtIrreflexive(k);
    }
    forall k' | k' in m'
      ensures exists i :: 0 <= i < |s[1..]| && s[1..][i].0 == k'
    {
      var i :| 0 <= i < |s| && s[i].0 == k';
      assert s[1..][i - 1].0 == k';
    }
  }

  /** The snapshot is determined by the store's contents alone, whatever order they were read in. */
  lemma {:induction false} SnapshotUnique(s: seq<Entry>, t: seq<Entry>, m: map<string, nat>)
    requires IsSnapshot(s, m) && IsSnapshot(t, m)
    ensures s == t
    decreases |s|
  {
    if |s| == 0 {
      assert |t| == 0;
    } else {
      SnapshotHead(s, t, m);
      SnapshotTail(s, m);
      SnapshotTail(t, m);
      SnapshotUnique(s[1..], t[1..], m - {s[0].0});
      assert |s| == |t|;
      forall i | 0 <= i < |s|
        ensures s[i] == t[i]
      {
        if i > 0 {
          assert s[i] == s[1..][i - 1] && t[i] == t[1..][i - 1];
        }
      }
    }
  }

  /**
   * Between two snapshots the counting pipeline can only have grown the
   * store, so every bar of the earlier one is still shown, no lower.
   */
  lemma SnapshotGrows(s: seq<Entry>, t: seq<Entry>, m: map<string, nat>,
                      run: string -> Option<string>, msgs: seq<Kafka.Message>)
    requires IsSnapshot(s, m) && IsSnapshot(t, Kafka.Counted(m, run, msgs))
    ensures forall i :: 0 <= i < |s| ==> exists j :: 0 <= j < |t| && t[j].0 == s[i].0 && s[i].1 <= t[j].1
  {
    Kafka.CountedGrows(m, run, msgs);
    forall i | 0 <= i < |s|
      ensures exists j :: 0 <= j < |t| && t[j].0 == s[i].0 && s[i].1 <= t[j].1
    {
      var j :| 0 <= j < |t| && t[j].0 == s[i].0;
    }
  }

  // ---------------------------------------------------------------------------
  // Drawing

  /** The chart's title line. */
  function Title(topic: string, filter: string): (t: string)
    ensures |t| == 17 + |topic| + |filter|
    ensures t[..7] == "Topic: " && t[7..7 + |topic|] == topic
    ensures t[7 + |topic|..17 + |topic|] == ", Filter: " && t[17 + |topic|..] == filter
  {
    "Topic: " + topic + ", Filter: " + filter
  }

  /** What one redraw puts on the screen: the title and the bars, in order. */
  datatype Frame = Frame(title: string, bars: seq<Entry>)

  /** `draw`: the frame for the application's options and the current store contents. */
  method Draw(app: App) returns (f: Frame)
    requires app.partitionCounts.Some?
    ensures f.title == Title(app.cliOptions.topic, app.cliOptions.filter)
    ensures IsSnapshot(f.bars, app.partitionCounts.value.counts)
  {
    var options := app.CliOptions();
    var title := Title(options.topic, options.filter);
    var store := app.GetPartitionCounts();
    var bars := Snapshot(store.value);
    f := Frame(title, bars);
  }

  // ---------------------------------------------------------------------------
  // Events and the control loop

  /** A terminal key: a character, or any key that is not one (arrows, function keys, ...). */
  datatype Key = Char(c: char) | NonChar

  datatype Event = Input(key: Key) | Quit | Tick

  /** `on_key`: the events the key handler sends back into the channel for character `c`. */
  function OnKey(c: char): (sent: seq<Event>)
    ensures sent == [Quit] <==> c == 'q' || c == 'Q'
    ensures sent == [] <==> c != 'q' && c != 'Q'
  {
    match c
    case 'q' => [Quit]
    case 'Q' => [Quit]
    case _ => []
  }

  /** Everything the key handler sends while the events `received` are dispatched. */
  function KeySends(received: seq<Option<Event>>): seq<Event>
  {
    if received == [] then []
    else
      var last := received[|received| - 1];
      KeySends(received[..|received| - 1]) + (if last.Some? && last.value.Input? && last.value.key.Char?
        then OnKey(last.value.key.c) else [])
  }

  /** The number of quit keys (`q` or `Q`) among the received events. */
  function QuitKeys(received: seq<Option<Event>>): nat
  {
    if received == [] then 0
    else
      var last := received[|received| - 1];
      QuitKeys(received[..|received| - 1]) + (if last == Some(Input(Char('q'))) || last == Some(Input(Char('Q')))
        then 1 else 0)
  }

  /** The key handler sends nothing but `Quit`, exactly one per quit key. */
  lemma {:induction false} KeySendsAreQuits(received: seq<Option<Event>>)
    ensures |KeySends(received)| == QuitKeys(received)
    ensures forall e :: e in KeySends(received) ==> e == Quit
  {
    if received != [] {
      KeySendsAreQuits(received[..|received| - 1]);
    }
  }

  predicate IsQuit(e: Option<Event>) { e == Some(Quit) }

  /** How the control loop stops: on `Quit`, or still waiting once the events run out. */
  datatype RunOutcome = Terminated | AwaitingEvent

  /** `f` shows the title `title` and the snapshot of `counts`. */
  ghost predicate Shows(f: Frame, title: string, counts: map<string, nat>)
  {
    f.title == title && IsSnapshot(f.bars, counts)
  }

  /** How many events the loop handles before it stops: those before the first `Quit`, or all of them. */
  function Handled(received: seq<Option<Event>>): (n: nat)
    ensures n <= |received|
    ensures forall j :: 0 <= j < n ==> !IsQuit(received[j])
    ensures n < |received| ==> IsQuit(received[n])
  {
    match FirstWhere(received, IsQuit)
    case Some(i) => i
    case None => |received|
  }

  /**
   * The loop of `run`. `received` is what successive `recv()` calls return
   * (`None` for a closed channel); it includes the `Quit` events the key
   * handler sent. Before each receive the screen is redrawn; only `Quit`
   * ends the loop, and nothing is drawn after it. When the events run out the
   * loop has drawn once more and waits.
   */
  method Run(app: App, received: seq<Option<Event>>)
    returns (frames: seq<Frame>, sent: seq<Event>, outcome: RunOutcome)
    requires app.partitionCounts.Some?
    ensures outcome == Terminated <==> FirstWhere(received, IsQuit).Some?
    ensures |frames| == Handled(received) + 1
    ensures sent == KeySends(received[..Handled(received)])
    ensures forall f :: f in frames ==>
      Shows(f, Title(app.cliOptions.topic, app.cliOptions.filter), app.partitionCounts.value.counts)
  {
    ghost var title := Title(app.cliOptions.topic, app.cliOptions.filter);
    ghost var counts := app.partitionCounts.value.counts;
    frames, sent := [], [];
    var i := 0;
    while true
      invariant 0 <= i <= |received|
      invariant |frames| == i
      invariant forall j :: 0 <= j < i ==> !IsQuit(received[j])
      invariant sent == KeySends(received[..i])
      invariant forall f :: f in frames ==> Shows(f, title, counts)
      decreases |received| - i
    {
      var f := Draw(app);
      frames := frames + [f];
      if i == |received| {
        return frames, sent, AwaitingEvent;
      }
      assert received[..i + 1][..i] == received[..i];
      match received[i] {
        case Some(Input(Char(c))) => sent := sent + OnKey(c);
        case Some(Input(_)) =>
        case Some(Tick) =>
        case Some(Quit) =>
          assert FirstWhere(received, IsQuit) == Some(i);
          return frames, sent, Terminated;
        case None =>
      }
      i := i + 1;
    }
  }
}
