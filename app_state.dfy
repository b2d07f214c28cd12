/** The shared partition counters and the application state that owns them. */
module AppState {
  import opened Wrappers
  import opened Decimal
  import Config

  /** The counter keys of a list of partition ids: their decimal texts. */
  function PartitionKeys(ps: seq<I32>): set<string>
  {
    set p | p in ps :: IntToString(p)
  }

  /** The store `from_partitions` builds: inserting key 0 for each id in turn. */
  function ZeroCounts(ps: seq<I32>): (m: map<string, nat>)
    ensures m.Keys == PartitionKeys(ps)
    ensures forall k :: k in m ==> m[k] == 0
  {
    if ps == [] then map[] else ZeroCounts(ps[..|ps| - 1])[IntToString(ps[|ps| - 1]) := 0]
  }

  /** The distinct ids of a list. */
  function DistinctIds(ps: seq<I32>): set<I32>
  {
    set p | p in ps
  }

  lemma PartitionKeysSnoc(init: seq<I32>, last: I32)
    ensures PartitionKeys(init + [last]) == PartitionKeys(init) + {IntToString(last)}
    ensures DistinctIds(init + [last]) == DistinctIds(init) + {last}
  {
  }

  lemma FreshIdFreshKey(init: seq<I32>, last: I32)
    requires last !in init
    ensures IntToString(last) !in PartitionKeys(init)
  {
    forall p | p in init
      ensures IntToString(p) != IntToString(last)
    {
      IntToStringInjective(p, last);
    }
  }

  /** Distinct ids have distinct keys, so there are as many keys as distinct ids. */
  lemma {:induction false} PartitionKeysSize(ps: seq<I32>)
    ensures |PartitionKeys(ps)| == |DistinctIds(ps)|
  {
    if ps != [] {
      var init, last := ps[..|ps| - 1], ps[|ps| - 1];
      assert ps == init + [last];
      PartitionKeysSize(init);
      PartitionKeysSnoc(init, last);
      if last !in init {
        FreshIdFreshKey(init, last);
        assert last !in DistinctIds(init);
      } else {
        assert IntToString(last) in PartitionKeys(init);
        assert last in DistinctIds(init);
      }
    }
  }

  /** Repeated ids collapse into one entry: there is one counter per distinct id. */
  lemma ZeroCountsSize(ps: seq<I32>)
    ensures |ZeroCounts(ps)| == |DistinctIds(ps)|
  {
    PartitionKeysSize(ps);
    assert |ZeroCounts(ps)| == |ZeroCounts(ps).Keys|;
  }

  /** The shared map from partition key to match count (`Arc<DashMap<String, u64>>`). */
  class PartitionCounts {
    var counts: map<string, nat>

    /** `PartitionCountsExt::from_partitions`: a zero counter for every listed partition. */
    constructor FromPartitions(partitions: seq<I32>)
      ensures counts == ZeroCounts(partitions)
    {
      var m: map<string, nat> := map[];
      for i := 0 to |partitions|
        invariant m == ZeroCounts(partitions[..i])
      {
        assert partitions[..i + 1][..i] == partitions[..i];
        m := m[IntToString(partitions[i]) := 0];
      }
      assert partitions[..|partitions|] == partitions;
      counts := m;
    }
  }

  const PartitionsUnset := "Error accessing partitions from App state. It is not set at this point."
  const CountsUnset := "Error accessing partition_counts from App state. It is not set at this point."

  /** The application state: the options, then the partition ids and the counter store once known. */
  class App {
    const cliOptions: Config.CliOptions
    var partitions: Option<seq<I32>>
    var partitionCounts: Option<PartitionCounts>

    /** `App::new`: neither the partitions nor the store is known yet. */
    constructor (cliOptions: Config.CliOptions)
      ensures this.cliOptions == cliOptions
      ensures partitions == None && partitionCounts == None
    {
      this.cliOptions := cliOptions;
      partitions := None;
      partitionCounts := None;
    }

    /** `App::cli_options`: the options given at construction. */
    function CliOptions(): (o: Config.CliOptions)
      ensures o == cliOptions
    {
      cliOptions
    }

    /** `App::set_partitions`: records the ids, replacing any earlier ones. */
    method SetPartitions(ps: seq<I32>)
      modifies this
      ensures partitions == Some(ps)
      ensures partitionCounts == old(partitionCounts)
    {
      partitions := Some(ps);
    }

    /** `App::partitions`: the recorded ids, or an error before any were set. */
    function Partitions(): (r: Result<seq<I32>, string>)
      reads this
      ensures r.Ok? <==> partitions.Some?
      ensures r.Ok? ==> r.value == partitions.value
      ensures r.Err? ==> r.error == PartitionsUnset
    {
      match partitions
      case Some(ps) => Ok(ps)
      case None => Err(PartitionsUnset)
    }

    /** `App::partition_counts_from_partitions`: builds a fresh zeroed store from the recorded ids. */
    method PartitionCountsFromPartitions() returns (r: Result<(), string>)
      modifies this
      ensures partitions == old(partitions)
      ensures r.Err? <==> old(partitions).None?
      ensures r.Err? ==> r.error == PartitionsUnset && partitionCounts == old(partitionCounts)
      ensures r.Ok? ==> partitionCounts.Some? && fresh(partitionCounts.value)
      ensures r.Ok? ==> partitionCounts.value.counts == ZeroCounts(partitions.value)
    {
      var ps := Partitions();
      if ps.Err? {
        return Err(ps.error);
      }
      var store := new PartitionCounts.FromPartitions(ps.value);
      partitionCounts := Some(store);
      r := Ok(());
    }

    /** `App::partition_counts`: a handle to the shared store, or an error before it is built. */
    function GetPartitionCounts(): (r: Result<PartitionCounts, string>)
      reads this
      ensures r.Ok? <==> partitionCounts.Some?
      ensures r.Ok? ==> r.value == partitionCounts.value
      ensures r.Err? ==> r.error == CountsUnset
    {
      match partitionCounts
      case Some(store) => Ok(store)
      case None => Err(CountsUnset)
    }
  }
}
