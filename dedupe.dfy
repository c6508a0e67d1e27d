/**
 * The result-writing part of src/Dedupe.py: the loop over the clusters
 * returned by the linker, which records each record's cluster and builds the
 * list of linked id-pairs, and the output pass, which gives every row its
 * cluster id and hands fresh ids to rows that belong to no cluster.
 *
 * A dataset is a map from record key to the record's `unique_id` field; a
 * file is the sequence of the keys of its rows, in row order. Scores are of an
 * arbitrary type `S`: they are only carried along.
 */
module Dedupe {
  import opened Wrappers
  import opened Sequences

  /** A dataset: record key to the record's `unique_id`. */
  type Dataset = map<string, string>

  /** One entry of `linked_records`: the keys of the records in a cluster and the cluster's score. */
  datatype Cluster<S> = Cluster(ids: seq<string>, score: S)

  /** One entry of `record_pairs`: a data_1 `unique_id`, a data_2 `unique_id` and the cluster score. */
  datatype LinkedPair<S> = LinkedPair(id1: string, id2: string, score: S)

  /** The value `cluster_membership` holds for a record: its cluster index and that cluster's score. */
  datatype ClusterDetails<S> = ClusterDetails(clusterId: nat, score: S)

  type Membership<S> = map<string, ClusterDetails<S>>

  // ---------------------------------------------------------------------------
  // The cluster loop, as functions of its input
  // ---------------------------------------------------------------------------

  /** `match_data_1` of a cluster: the `unique_id`s of its records that data_1 holds, in cluster order. */
  function MatchData1(ids: seq<string>, data1: Dataset): seq<string>
  {
    if ids == [] then []
    else
      var id := ids[|ids| - 1];
      MatchData1(ids[..|ids| - 1], data1) + (if id in data1 then [data1[id]] else [])
  }

  /** `match_data_2` of a cluster: the `unique_id`s of its records that data_2 holds and data_1 does not. */
  function MatchData2(ids: seq<string>, data1: Dataset, data2: Dataset): seq<string>
  {
    if ids == [] then []
    else
      var id := ids[|ids| - 1];
      MatchData2(ids[..|ids| - 1], data1, data2) + (if id !in data1 && id in data2 then [data2[id]] else [])
  }

  /** The pairs `(a, b)` for one data_1 id `a` and every data_2 id `b`, in order. */
  function PairsWith<S>(a: string, m2: seq<string>, score: S): seq<LinkedPair<S>>
  {
    if m2 == [] then [] else PairsWith(a, m2[..|m2| - 1], score) + [LinkedPair(a, m2[|m2| - 1], score)]
  }

  /** The cross product of the two sides, data_1 id outermost. */
  function CrossPairs<S>(m1: seq<string>, m2: seq<string>, score: S): seq<LinkedPair<S>>
  {
    if m1 == [] then [] else CrossPairs(m1[..|m1| - 1], m2, score) + PairsWith(m1[|m1| - 1], m2, score)
  }

  /** The pairs one cluster contributes: the cross product when it has members on both sides, else none. */
  function ClusterPairs<S>(cluster: Cluster<S>, data1: Dataset, data2: Dataset): seq<LinkedPair<S>>
  {
    var m1 := MatchData1(cluster.ids, data1);
    var m2 := MatchData2(cluster.ids, data1, data2);
    if |m1| > 0 && |m2| > 0 then CrossPairs(m1, m2, cluster.score) else []
  }

  /** `record_pairs` after the loop: the contributions of the clusters, in cluster order. */
  function AllPairs<S>(clusters: seq<Cluster<S>>, data1: Dataset, data2: Dataset): seq<LinkedPair<S>>
  {
    if clusters == [] then []
    else AllPairs(clusters[..|clusters| - 1], data1, data2) + ClusterPairs(clusters[|clusters| - 1], data1, data2)
  }

  /** `membership` after `membership[id] = details` for every `id` of `ids`, in order. */
  function RecordAll<S>(membership: Membership<S>, ids: seq<string>, details: ClusterDetails<S>): Membership<S>
  {
    if ids == [] then membership
    else RecordAll(membership, ids[..|ids| - 1], details)[ids[|ids| - 1] := details]
  }

  /** `cluster_membership` after the loop. */
  function MembershipOf<S>(clusters: seq<Cluster<S>>): Membership<S>
  {
    if clusters == [] then map[]
    else
      var last := |clusters| - 1;
      RecordAll(MembershipOf(clusters[..last]), clusters[last].ids, ClusterDetails(last, clusters[last].score))
  }

  /** The value of the loop variable `cluster_id` after the loop: `None` when there was no cluster. */
  function LastClusterIndex<S>(clusters: seq<Cluster<S>>): Option<nat>
  {
    if clusters == [] then None else Some(|clusters| - 1)
  }

  // ---------------------------------------------------------------------------
  // The cluster loop
  // ---------------------------------------------------------------------------

  /**
   * The inner loop over one cluster's keys: each key is recorded in the
   * membership with the cluster's index and score, and its `unique_id` goes to
   * the data_1 side if data_1 holds it, else to the data_2 side if data_2 does.
   */
  method CollectCluster<S>(cluster: seq<string>, clusterId: nat, score: S, data1: Dataset, data2: Dataset, membership: Membership<S>)
    returns (matchData1: seq<string>, matchData2: seq<string>, membership': Membership<S>)
    ensures matchData1 == MatchData1(cluster, data1)
    ensures matchData2 == MatchData2(cluster, data1, data2)
    ensures membership' == RecordAll(membership, cluster, ClusterDetails(clusterId, score))
  {
    matchData1, matchData2, membership' := [], [], membership;
    var j := 0;
    while j < |cluster|
      invariant 0 <= j <= |cluster|
      invariant matchData1 == MatchData1(cluster[..j], data1)
      invariant matchData2 == MatchData2(cluster[..j], data1, data2)
      invariant membership' == RecordAll(membership, cluster[..j], ClusterDetails(clusterId, score))
    {
      var recordId := cluster[j];
      membership' := membership'[recordId := ClusterDetails(clusterId, score)];
      if recordId in data1 {
        matchData1 := matchData1 + [data1[recordId]];
      } else if recordId in data2 {
        matchData2 := matchData2 + [data2[recordId]];
      }
      assert cluster[..j + 1][..j] == cluster[..j];
      j := j + 1;
    }
    assert cluster[..j] == cluster;
  }

  /** The nested loops that append, for each data_1 id in turn, its pair with each data_2 id. */
  method AppendCrossPairs<S>(recordPairs: seq<LinkedPair<S>>, matchData1: seq<string>, matchData2: seq<string>, score: S)
    returns (recordPairs': seq<LinkedPair<S>>)
    ensures recordPairs' == recordPairs + CrossPairs(matchData1, matchData2, score)
  {
    recordPairs' := recordPairs;
    var p := 0;
    while p < |matchData1|
      invariant 0 <= p <= |matchData1|
      invariant recordPairs' == recordPairs + CrossPairs(matchData1[..p], matchData2, score)
    {
      ghost var before := recordPairs';
      var q := 0;
      while q < |matchData2|
        invariant 0 <= q <= |matchData2|
        invariant recordPairs' == before + PairsWith(matchData1[p], matchData2[..q], score)
      {
        assert matchData2[..q + 1][..q] == matchData2[..q];
        ConcatAssociates(before, PairsWith(matchData1[p], matchData2[..q], score), [LinkedPair(matchData1[p], matchData2[q], score)]);
        recordPairs' := recordPairs' + [LinkedPair(matchData1[p], matchData2[q], score)];
        q := q + 1;
      }
      assert matchData2[..q] == matchData2;
      assert matchData1[..p + 1][..p] == matchData1[..p];
      ConcatAssociates(recordPairs, CrossPairs(matchData1[..p], matchData2, score), PairsWith(matchData1[p], matchData2, score));
      p := p + 1;
    }
    assert matchData1[..p] == matchData1;
  }

  /**
   * The loop over `enumerate(linked_records)`: every key of every cluster is
   * recorded in `cluster_membership`, its `unique_id` goes to the data_1 side
   * or, failing that, the data_2 side, and a cluster with both sides adds the
   * cross product of its sides to `record_pairs`.
   */
  method LinkClusters<S>(linkedRecords: seq<Cluster<S>>, data1: Dataset, data2: Dataset)
    returns (recordPairs: seq<LinkedPair<S>>, clusterMembership: Membership<S>, clusterId: Option<nat>)
    ensures recordPairs == AllPairs(linkedRecords, data1, data2)
    ensures clusterMembership == MembershipOf(linkedRecords)
    ensures clusterId == LastClusterIndex(linkedRecords)
  {
    recordPairs := [];
    clusterMembership := map[];
    clusterId := None;
    var i := 0;
    while i < |linkedRecords|
      invariant 0 <= i <= |linkedRecords|
      invariant recordPairs == AllPairs(linkedRecords[..i], data1, data2)
      invariant clusterMembership == MembershipOf(linkedRecords[..i])
      invariant clusterId == LastClusterIndex(linkedRecords[..i])
    {
      var cluster, score := linkedRecords[i].ids, linkedRecords[i].score;
      clusterId := Some(i);
      var matchData1, matchData2;
      matchData1, matchData2, clusterMembership := CollectCluster(cluster, i, score, data1, data2, clusterMembership);
      ghost var pairs := recordPairs;
      LoopStep(linkedRecords, i, data1, data2);
      if |matchData1| > 0 && |matchData2| > 0 {
        recordPairs := AppendCrossPairs(recordPairs, matchData1, matchData2, score);
        assert ClusterPairs(linkedRecords[i], data1, data2) == CrossPairs(matchData1, matchData2, score);
      } else {
        assert ClusterPairs(linkedRecords[i], data1, data2) == [];
        assert recordPairs == pairs + [];
      }
      i := i + 1;
    }
    assert linkedRecords[..i] == linkedRecords;
  }

  /** One more turn of the cluster loop adds the next cluster's pairs and memberships. */
  lemma LoopStep<S>(linkedRecords: seq<Cluster<S>>, i: nat, data1: Dataset, data2: Dataset)
    requires i < |linkedRecords|
    ensures AllPairs(linkedRecords[..i + 1], data1, data2)
         == AllPairs(linkedRecords[..i], data1, data2) + ClusterPairs(linkedRecords[i], data1, data2)
    ensures MembershipOf(linkedRecords[..i + 1])
         == RecordAll(MembershipOf(linkedRecords[..i]), linkedRecords[i].ids, ClusterDetails(i, linkedRecords[i].score))
    ensures LastClusterIndex(linkedRecords[..i + 1]) == Some(i)
  {
    assert linkedRecords[..i + 1][..i] == linkedRecords[..i];
  }

  // ---------------------------------------------------------------------------
  // What the cluster loop produces
  // ---------------------------------------------------------------------------

  /** A `unique_id` is on the data_1 side exactly when a key of the cluster held by data_1 carries it. */
  lemma {:induction false} MatchData1Members(ids: seq<string>, data1: Dataset, x: string)
    ensures x in MatchData1(ids, data1) <==> exists k :: 0 <= k < |ids| && ids[k] in data1 && data1[ids[k]] == x
  {
    if ids != [] {
      var init := ids[..|ids| - 1];
      MatchData1Members(init, data1, x);
      if exists k :: 0 <= k < |ids| && ids[k] in data1 && data1[ids[k]] == x {
        var k :| 0 <= k < |ids| && ids[k] in data1 && data1[ids[k]] == x;
        if k < |init| {
          assert init[k] == ids[k];
        }
      }
      if exists k :: 0 <= k < |init| && init[k] in data1 && data1[init[k]] == x {
        var k :| 0 <= k < |init| && init[k] in data1 && data1[init[k]] == x;
        assert ids[k] == init[k];
      }
    }
  }

  /**
   * A `unique_id` is on the data_2 side exactly when a key of the cluster held
   * by data_2 but not by data_1 carries it: a key data_1 holds never counts
   * on the data_2 side.
   */
  lemma {:induction false} MatchData2Members(ids: seq<string>, data1: Dataset, data2: Dataset, x: string)
    ensures x in MatchData2(ids, data1, data2) <==>
      exists k :: 0 <= k < |ids| && ids[k] !in data1 && ids[k] in data2 && data2[ids[k]] == x
  {
    if ids != [] {
      var init := ids[..|ids| - 1];
      MatchData2Members(init, data1, data2, x);
      if exists k :: 0 <= k < |ids| && ids[k] !in data1 && ids[k] in data2 && data2[ids[k]] == x {
        var k :| 0 <= k < |ids| && ids[k] !in data1 && ids[k] in data2 && data2[ids[k]] == x;
        if k < |init| {
          assert init[k] == ids[k];
        }
      }
      if exists k :: 0 <= k < |init| && init[k] !in data1 && init[k] in data2 && data2[init[k]] == x {
        var k :| 0 <= k < |init| && init[k] !in data1 && init[k] in data2 && data2[init[k]] == x;
        assert ids[k] == init[k];
      }
    }
  }

  /**
   * Each key adds at most one id to at most one side; when every key is in
   * one of the datasets, the two sides together have one id per key.
   */
  lemma {:induction false} SidesCount(ids: seq<string>, data1: Dataset, data2: Dataset)
    ensures |MatchData1(ids, data1)| + |MatchData2(ids, data1, data2)| <= |ids|
    ensures (forall k :: 0 <= k < |ids| ==> ids[k] in data1 || ids[k] in data2) ==>
      |MatchData1(ids, data1)| + |MatchData2(ids, data1, data2)| == |ids|
  {
    if ids != [] {
      var init := ids[..|ids| - 1];
      SidesCount(init, data1, data2);
      if forall k :: 0 <= k < |ids| ==> ids[k] in data1 || ids[k] in data2 {
        assert forall k :: 0 <= k < |init| ==> init[k] == ids[k];
      }
    }
  }

  /** `PairsWith(a, m2)` pairs `a` with each data_2 id in turn. */
  lemma {:induction false} PairsWithIndex<S>(a: string, m2: seq<string>, score: S)
    ensures |PairsWith(a, m2, score)| == |m2|
    ensures forall j :: 0 <= j < |m2| ==> PairsWith(a, m2, score)[j] == LinkedPair(a, m2[j], score)
  {
    if m2 != [] {
      PairsWithIndex(a, m2[..|m2| - 1], score);
    }
  }

  /** The cross product has `|m1| * |m2|` pairs. */
  lemma {:induction false} CrossPairsLength<S>(m1: seq<string>, m2: seq<string>, score: S)
    ensures |CrossPairs(m1, m2, score)| == |m1| * |m2|
  {
    if m1 != [] {
      var init := m1[..|m1| - 1];
      CrossPairsLength(init, m2, score);
      PairsWithIndex(m1[|m1| - 1], m2, score);
      assert |m1| * |m2| == |init| * |m2| + |m2|;
    }
  }

  /**
   * Pair `i * |m2| + j` of the cross product links the `i`-th data_1 id with
   * the `j`-th data_2 id: the order is data_1 member first, then data_2 member.
   */
  lemma {:induction false} CrossPairsAt<S>(m1: seq<string>, m2: seq<string>, score: S, i: nat, j: nat)
    requires i < |m1| && j < |m2|
    ensures i * |m2| + j < |CrossPairs(m1, m2, score)|
    ensures CrossPairs(m1, m2, score)[i * |m2| + j] == LinkedPair(m1[i], m2[j], score)
  {
    var init := m1[..|m1| - 1];
    CrossPairsLength(init, m2, score);
    PairsWithIndex(m1[|m1| - 1], m2, score);
    var front := CrossPairs(init, m2, score);
    if i < |init| {
      CrossPairsAt(init, m2, score, i, j);
      assert init[i] == m1[i];
    } else {
      assert i * |m2| + j == |front| + j;
    }
  }

  /** Every pair of `PairsWith(a, m2)` has `a` first and a member of `m2` second. */
  lemma {:induction false} PairsWithMembers<S>(a: string, m2: seq<string>, score: S, p: LinkedPair<S>)
    requires p in PairsWith(a, m2, score)
    ensures p.id1 == a && p.id2 in m2 && p.score == score
  {
    var init := m2[..|m2| - 1];
    if p in PairsWith(a, init, score) {
      PairsWithMembers(a, init, score, p);
    }
  }

  /** Every pair of a cross product joins a member of the first side with a member of the second. */
  lemma {:induction false} CrossPairMembers<S>(m1: seq<string>, m2: seq<string>, score: S, p: LinkedPair<S>)
    requires p in CrossPairs(m1, m2, score)
    ensures p.id1 in m1 && p.id2 in m2 && p.score == score
  {
    var init := m1[..|m1| - 1];
    if p in CrossPairs(init, m2, score) {
      CrossPairMembers(init, m2, score, p);
    } else {
      PairsWithMembers(m1[|m1| - 1], m2, score, p);
    }
  }

  /** A cluster with members on both sides adds exactly `|match_data_1| * |match_data_2|` pairs; any other adds none. */
  lemma ClusterPairsCount<S>(cluster: Cluster<S>, data1: Dataset, data2: Dataset)
    ensures var m1, m2 := MatchData1(cluster.ids, data1), MatchData2(cluster.ids, data1, data2);
      |ClusterPairs(cluster, data1, data2)| == if |m1| > 0 && |m2| > 0 then |m1| * |m2| else 0
  {
    CrossPairsLength(MatchData1(cluster.ids, data1), MatchData2(cluster.ids, data1, data2), cluster.score);
  }

  /** The pairs of a list of clusters are the pairs of its first part followed by those of the rest. */
  lemma {:induction false} AllPairsAppend<S>(a: seq<Cluster<S>>, b: seq<Cluster<S>>, data1: Dataset, data2: Dataset)
    ensures AllPairs(a + b, data1, data2) == AllPairs(a, data1, data2) + AllPairs(b, data1, data2)
    decreases |b|
  {
    if b == [] {
      assert a + b == a;
    } else {
      var init, last := b[..|b| - 1], b[|b| - 1];
      assert b == init + [last];
      AllPairsAppend(a, init, data1, data2);
      AllPairsAppendStep(a, init, last, data1, data2);
    }
  }

  lemma AllPairsAppendStep<S>(a: seq<Cluster<S>>, init: seq<Cluster<S>>, last: Cluster<S>, data1: Dataset, data2: Dataset)
    requires AllPairs(a + init, data1, data2) == AllPairs(a, data1, data2) + AllPairs(init, data1, data2)
    ensures AllPairs(a + (init + [last]), data1, data2) == AllPairs(a, data1, data2) + AllPairs(init + [last], data1, data2)
  {
    assert a + (init + [last]) == (a + init) + [last];
    AllPairsSnoc(a + init, last, data1, data2);
    AllPairsSnoc(init, last, data1, data2);
    ConcatAssociates(AllPairs(a, data1, data2), AllPairs(init, data1, data2), ClusterPairs(last, data1, data2));
  }

  /** The pairs of a list of clusters followed by one more are those of the list followed by that cluster's. */
  lemma AllPairsSnoc<S>(clusters: seq<Cluster<S>>, c: Cluster<S>, data1: Dataset, data2: Dataset)
    ensures AllPairs(clusters + [c], data1, data2) == AllPairs(clusters, data1, data2) + ClusterPairs(c, data1, data2)
  {
    assert (clusters + [c])[..|clusters|] == clusters;
  }

  /**
   * Every emitted pair comes from a single cluster: its first id is that
   * cluster's data_1 `unique_id`, its second a data_2 `unique_id`, its score
   * the cluster's score.
   */
  lemma {:induction false} PairsComeFromOneCluster<S>(clusters: seq<Cluster<S>>, data1: Dataset, data2: Dataset, p: LinkedPair<S>)
    requires p in AllPairs(clusters, data1, data2)
    ensures exists i :: (0 <= i < |clusters| && p.score == clusters[i].score &&
      p.id1 in MatchData1(clusters[i].ids, data1) && p.id2 in MatchData2(clusters[i].ids, data1, data2))
  {
    var last := |clusters| - 1;
    var init := clusters[..last];
    if p in AllPairs(init, data1, data2) {
      PairsComeFromOneCluster(init, data1, data2, p);
      var i :| 0 <= i < |init| && p.score == init[i].score &&
        p.id1 in MatchData1(init[i].ids, data1) && p.id2 in MatchData2(init[i].ids, data1, data2);
      assert init[i] == clusters[i];
    } else {
      var c := clusters[last];
      CrossPairMembers(MatchData1(c.ids, data1), MatchData2(c.ids, data1, data2), c.score, p);
    }
  }

  /** The guard on the cross product never changes the result: a cross product with an empty side is empty. */
  lemma ClusterPairsIsCrossProduct<S>(cluster: Cluster<S>, data1: Dataset, data2: Dataset)
    ensures ClusterPairs(cluster, data1, data2)
         == CrossPairs(MatchData1(cluster.ids, data1), MatchData2(cluster.ids, data1, data2), cluster.score)
  {
    CrossPairsLength(MatchData1(cluster.ids, data1), MatchData2(cluster.ids, data1, data2), cluster.score);
  }

  /** Recording `ids` adds exactly the keys of `ids`, each mapped to `details`, and leaves the other keys alone. */
  lemma {:induction false} RecordAllEntries<S>(membership: Membership<S>, ids: seq<string>, details: ClusterDetails<S>, key: string)
    ensures key in RecordAll(membership, ids, details) <==> key in membership || key in ids
    ensures key in ids ==> RecordAll(membership, ids, details)[key] == details
    ensures key !in ids && key in membership ==> RecordAll(membership, ids, details)[key] == membership[key]
  {
    if ids != [] {
      var init := ids[..|ids| - 1];
      RecordAllEntries(membership, init, details, key);
      assert key in ids <==> key in init || key == ids[|ids| - 1];
    }
  }

  /** Exactly the keys listed by some cluster have an entry in `cluster_membership`. */
  lemma {:induction false} MembershipDomain<S>(clusters: seq<Cluster<S>>, key: string)
    ensures key in MembershipOf(clusters) <==> exists i :: 0 <= i < |clusters| && key in clusters[i].ids
  {
    if clusters != [] {
      var last := |clusters| - 1;
      var init := clusters[..last];
      MembershipDomain(init, key);
      RecordAllEntries(MembershipOf(init), clusters[last].ids, ClusterDetails(last, clusters[last].score), key);
      if exists i :: 0 <= i < |clusters| && key in clusters[i].ids {
        var i :| 0 <= i < |clusters| && key in clusters[i].ids;
        if i < last {
          assert init[i] == clusters[i];
        }
      }
      if exists i :: 0 <= i < |init| && key in init[i].ids {
        var i :| 0 <= i < |init| && key in init[i].ids;
        assert clusters[i] == init[i];
      }
    }
  }

  /** A key listed by several clusters ends up with the index and score of the last one that lists it. */
  lemma {:induction false} MembershipIsLastCluster<S>(clusters: seq<Cluster<S>>, key: string, i: nat)
    requires i < |clusters| && key in clusters[i].ids
    requires forall j :: i < j < |clusters| ==> key !in clusters[j].ids
    ensures key in MembershipOf(clusters)
    ensures MembershipOf(clusters)[key] == ClusterDetails(i, clusters[i].score)
  {
    var last := |clusters| - 1;
    var init := clusters[..last];
    RecordAllEntries(MembershipOf(init), clusters[last].ids, ClusterDetails(last, clusters[last].score), key);
    if i < last {
      assert init[i] == clusters[i];
      MembershipIsLastCluster(init, key, i);
    }
  }

  /** Every cluster index in `cluster_membership` is an index of `linked_records`. */
  lemma {:induction false} MembershipIndexBound<S>(clusters: seq<Cluster<S>>, key: string)
    requires key in MembershipOf(clusters)
    ensures MembershipOf(clusters)[key].clusterId < |clusters|
  {
    var last := |clusters| - 1;
    var init := clusters[..last];
    RecordAllEntries(MembershipOf(init), clusters[last].ids, ClusterDetails(last, clusters[last].score), key);
    if key !in clusters[last].ids {
      MembershipIndexBound(init, key);
    }
  }

  // ---------------------------------------------------------------------------
  // The first fresh cluster id
  // ---------------------------------------------------------------------------

  /**
   * `unique_id` as the source computes it: `cluster_id + 1` when `cluster_id`
   * is truthy, else 0. Python's `0` is falsy, so a single cluster (index 0)
   * also starts the counter at 0.
   */
  function InitialFreshIdAsWritten(clusterId: Option<nat>): (r: nat)
    ensures r == 0 <==> clusterId.None? || clusterId.value == 0
    ensures clusterId.Some? && r != 0 ==> r > clusterId.value
  {
    if clusterId.Some? && clusterId.value != 0 then clusterId.value + 1 else 0
  }

  /** With exactly one cluster, the counter as written starts at that cluster's own index. */
  lemma AsWrittenReusesClusterZero<S>(clusters: seq<Cluster<S>>, key: string)
    requires |clusters| == 1 && key in clusters[0].ids
    ensures key in MembershipOf(clusters)
    ensures InitialFreshIdAsWritten(LastClusterIndex(clusters)) == MembershipOf(clusters)[key].clusterId
  {
    MembershipIsLastCluster(clusters, key, 0);
  }

  /** The intended counter: one past the last cluster index, or 0 when there is no cluster. */
  function InitialFreshId(clusterId: Option<nat>): (r: nat)
    ensures clusterId.Some? ==> clusterId.value < r
    ensures clusterId.None? ==> r == 0
  {
    if clusterId.Some? then clusterId.value + 1 else 0
  }

  /**
   * Where the counter starts after the cluster loop: the intended counter at the
   * number of clusters, that is one past the last index; the counter as written
   * at the same place unless there is exactly one cluster.
   */
  lemma CounterStart<S>(clusters: seq<Cluster<S>>)
    ensures InitialFreshId(LastClusterIndex(clusters)) == |clusters|
    ensures |clusters| != 1 ==> InitialFreshIdAsWritten(LastClusterIndex(clusters)) == |clusters|
    ensures |clusters| == 1 ==> InitialFreshIdAsWritten(LastClusterIndex(clusters)) == 0
  {
  }

  /** The intended counter starts above every cluster index recorded in `cluster_membership`. */
  lemma InitialFreshIdAboveClusters<S>(clusters: seq<Cluster<S>>)
    ensures forall key :: key in MembershipOf(clusters) ==>
      MembershipOf(clusters)[key].clusterId < InitialFreshId(LastClusterIndex(clusters))
  {
    forall key | key in MembershipOf(clusters)
      ensures MembershipOf(clusters)[key].clusterId < InitialFreshId(LastClusterIndex(clusters))
    {
      MembershipIndexBound(clusters, key);
    }
  }

  // ---------------------------------------------------------------------------
  // The output pass, as functions of its input
  // ---------------------------------------------------------------------------

  /** A row of one of the input files: the file's position in `(file1, file2)` and the row's key. */
  datatype RowRef = RowRef(fileNo: nat, key: string)

  /** A written row: the prepended cluster id, score and file number, and the row itself, stood for by its key. */
  datatype OutputRow<S> = OutputRow(clusterId: nat, score: Option<S>, fileNo: nat, key: string)

  /** The rows of one file, tagged with its number. */
  function Tag(fileNo: nat, keys: seq<string>): seq<RowRef>
  {
    if keys == [] then [] else Tag(fileNo, keys[..|keys| - 1]) + [RowRef(fileNo, keys[|keys| - 1])]
  }

  lemma TagSnoc(fileNo: nat, keys: seq<string>, j: nat)
    requires j < |keys|
    ensures Tag(fileNo, keys[..j + 1]) == Tag(fileNo, keys[..j]) + [RowRef(fileNo, keys[j])]
  {
    assert keys[..j + 1][..j] == keys[..j];
  }

  /** The rows of all files, in file order and then row order. */
  function Flatten(files: seq<seq<string>>): seq<RowRef>
  {
    if files == [] then [] else Flatten(files[..|files| - 1]) + Tag(|files| - 1, files[|files| - 1])
  }

  /** How many of `rows` belong to no cluster. */
  function Unclustered<S>(membership: Membership<S>, rows: seq<RowRef>): nat
  {
    if rows == [] then 0
    else Unclustered(membership, rows[..|rows| - 1]) + (if rows[|rows| - 1].key in membership then 0 else 1)
  }

  lemma UnclusteredSnoc<S>(membership: Membership<S>, rows: seq<RowRef>, row: RowRef)
    ensures Unclustered(membership, rows + [row]) == Unclustered(membership, rows) + (if row.key in membership then 0 else 1)
  {
    assert (rows + [row])[..|rows|] == rows;
  }

  /** The columns written for a row: its cluster's details, or `freshId` and no score. */
  function RowFor<S>(membership: Membership<S>, freshId: nat, row: RowRef): (r: OutputRow<S>)
    ensures r.fileNo == row.fileNo && r.key == row.key
    ensures r.score.Some? <==> row.key in membership
    ensures row.key in membership ==> r.clusterId == membership[row.key].clusterId
    ensures row.key !in membership ==> r.clusterId == freshId
  {
    if row.key in membership then
      OutputRow(membership[row.key].clusterId, Some(membership[row.key].score), row.fileNo, row.key)
    else
      OutputRow(freshId, None, row.fileNo, row.key)
  }

  /**
   * The written rows: a row in a cluster keeps that cluster's id and score; the
   * `n`-th row in no cluster (counting from 0 across both files) gets id
   * `start + n` and no score.
   */
  function OutputRows<S>(membership: Membership<S>, start: nat, rows: seq<RowRef>): (r: seq<OutputRow<S>>)
    ensures |r| == |rows|
  {
    if rows == [] then []
    else
      var init := rows[..|rows| - 1];
      OutputRows(membership, start, init) + [RowFor(membership, start + Unclustered(membership, init), rows[|rows| - 1])]
  }

  lemma OutputRowsSnoc<S>(membership: Membership<S>, start: nat, rows: seq<RowRef>, row: RowRef)
    ensures OutputRows(membership, start, rows + [row])
         == OutputRows(membership, start, rows) + [RowFor(membership, start + Unclustered(membership, rows), row)]
  {
    assert (rows + [row])[..|rows|] == rows;
  }

  /** Row `k` of the output is written with the count of unclustered rows before it as its fresh id. */
  lemma {:induction false} OutputRowsAt<S>(membership: Membership<S>, start: nat, rows: seq<RowRef>, k: nat)
    requires k < |rows|
    ensures OutputRows(membership, start, rows)[k] == RowFor(membership, start + Unclustered(membership, rows[..k]), rows[k])
  {
    var init := rows[..|rows| - 1];
    if k < |init| {
      OutputRowsAt(membership, start, init, k);
      assert init[..k] == rows[..k];
    }
  }

  // ---------------------------------------------------------------------------
  // The output pass
  // ---------------------------------------------------------------------------

  /**
   * The loop over one file's rows: a row whose key `cluster_membership` holds
   * gets that cluster's id and score; any other row gets `unique_id`, which
   * then goes up by one, and no score. `done` stands for the rows already
   * written.
   */
  method WriteFileRows<S>(clusterMembership: Membership<S>, start: nat, fileNo: nat, keys: seq<string>,
                          ghost done: seq<RowRef>, rows: seq<OutputRow<S>>, uniqueId: nat)
    returns (rows': seq<OutputRow<S>>, uniqueId': nat)
    requires rows == OutputRows(clusterMembership, start, done)
    requires uniqueId == start + Unclustered(clusterMembership, done)
    ensures rows' == OutputRows(clusterMembership, start, done + Tag(fileNo, keys))
    ensures uniqueId' == start + Unclustered(clusterMembership, done + Tag(fileNo, keys))
  {
    rows', uniqueId' := rows, uniqueId;
    var rowId := 0;
    ghost var written := done;
    assert done + Tag(fileNo, keys[..rowId]) == written by {
      assert keys[..rowId] == [];
    }
    while rowId < |keys|
      invariant 0 <= rowId <= |keys|
      invariant written == done + Tag(fileNo, keys[..rowId])
      invariant rows' == OutputRows(clusterMembership, start, written)
      invariant uniqueId' == start + Unclustered(clusterMembership, written)
    {
      var row := RowRef(fileNo, keys[rowId]);
      var clusterId, score;
      if row.key !in clusterMembership {
        clusterId := uniqueId';
        uniqueId' := uniqueId' + 1;
        score := None;
      } else {
        clusterId, score := clusterMembership[row.key].clusterId, Some(clusterMembership[row.key].score);
      }
      assert OutputRow(clusterId, score, fileNo, row.key) == RowFor(clusterMembership, start + Unclustered(clusterMembership, written), row);
      OutputRowsSnoc(clusterMembership, start, written, row);
      UnclusteredSnoc(clusterMembership, written, row);
      TagAfter(done, fileNo, keys, rowId);
      rows' := rows' + [OutputRow(clusterId, score, fileNo, row.key)];
      written := written + [row];
      rowId := rowId + 1;
    }
    assert keys[..rowId] == keys;
  }

  /** The rows written after one more row of the file are those before it followed by that row. */
  lemma TagAfter(done: seq<RowRef>, fileNo: nat, keys: seq<string>, j: nat)
    requires j < |keys|
    ensures done + Tag(fileNo, keys[..j + 1]) == (done + Tag(fileNo, keys[..j])) + [RowRef(fileNo, keys[j])]
  {
    TagSnoc(fileNo, keys, j);
  }

  /** The loop over `enumerate((file1, file2))`, writing each file's rows in turn. */
  method AssignClusterIds<S>(clusterMembership: Membership<S>, start: nat, file1: seq<string>, file2: seq<string>)
    returns (rows: seq<OutputRow<S>>, uniqueId: nat)
    ensures rows == OutputRows(clusterMembership, start, Flatten([file1, file2]))
    ensures uniqueId == start + Unclustered(clusterMembership, Flatten([file1, file2]))
  {
    var files := [file1, file2];
    rows, uniqueId := [], start;
    var fileNo := 0;
    while fileNo < |files|
      invariant 0 <= fileNo <= |files|
      invariant rows == OutputRows(clusterMembership, start, Flatten(files[..fileNo]))
      invariant uniqueId == start + Unclustered(clusterMembership, Flatten(files[..fileNo]))
    {
      rows, uniqueId := WriteFileRows(clusterMembership, start, fileNo, files[fileNo], Flatten(files[..fileNo]), rows, uniqueId);
      assert files[..fileNo + 1][..fileNo] == files[..fileNo];
      fileNo := fileNo + 1;
    }
    assert files[..fileNo] == files;
  }

  // ---------------------------------------------------------------------------
  // What the output pass produces
  // ---------------------------------------------------------------------------

  /** A row in no cluster raises the count of unclustered rows before every later row. */
  lemma {:induction false} UnclusteredGrows<S>(membership: Membership<S>, rows: seq<RowRef>, k1: nat, k2: nat)
    requires k1 < k2 <= |rows|
    ensures Unclustered(membership, rows[..k1]) <= Unclustered(membership, rows[..k2])
    ensures rows[k1].key !in membership ==> Unclustered(membership, rows[..k1]) < Unclustered(membership, rows[..k2])
    decreases k2 - k1
  {
    assert rows[..k1 + 1][..k1] == rows[..k1];
    if k1 + 1 < k2 {
      UnclusteredGrows(membership, rows, k1 + 1, k2);
    }
  }

  lemma UnclusteredBound<S>(membership: Membership<S>, rows: seq<RowRef>, k: nat)
    requires k < |rows| && rows[k].key !in membership
    ensures Unclustered(membership, rows[..k]) < Unclustered(membership, rows)
  {
    UnclusteredGrows(membership, rows, k, |rows|);
    assert rows[..|rows|] == rows;
  }

  /** Rows in no cluster get strictly increasing ids, in file and row order, and no score. */
  lemma FreshIdsIncrease<S>(membership: Membership<S>, start: nat, rows: seq<RowRef>, k1: nat, k2: nat)
    requires k1 < k2 < |rows|
    requires rows[k1].key !in membership && rows[k2].key !in membership
    ensures OutputRows(membership, start, rows)[k1].score == None
    ensures OutputRows(membership, start, rows)[k2].score == None
    ensures OutputRows(membership, start, rows)[k1].clusterId < OutputRows(membership, start, rows)[k2].clusterId
  {
    OutputRowsAt(membership, start, rows, k1);
    OutputRowsAt(membership, start, rows, k2);
    UnclusteredGrows(membership, rows, k1, k2);
  }

  /** Every fresh id lies between `start` and the final value of the counter. */
  lemma FreshIdsInRange<S>(membership: Membership<S>, start: nat, rows: seq<RowRef>, k: nat)
    requires k < |rows| && rows[k].key !in membership
    ensures start <= OutputRows(membership, start, rows)[k].clusterId < start + Unclustered(membership, rows)
  {
    OutputRowsAt(membership, start, rows, k);
    UnclusteredBound(membership, rows, k);
  }

  /** Every id from `start` up to the final value of the counter goes to some row in no cluster: the fresh ids are consecutive. */
  lemma {:induction false} FreshIdsConsecutive<S>(membership: Membership<S>, start: nat, rows: seq<RowRef>, n: nat)
    requires start <= n < start + Unclustered(membership, rows)
    ensures exists k :: 0 <= k < |rows| && rows[k].key !in membership && OutputRows(membership, start, rows)[k].clusterId == n
  {
    var last := |rows| - 1;
    var init := rows[..last];
    var out := OutputRows(membership, start, rows);
    assert out == OutputRows(membership, start, init) + [RowFor(membership, start + Unclustered(membership, init), rows[last])];
    if n < start + Unclustered(membership, init) {
      FreshIdsConsecutive(membership, start, init, n);
      var k :| 0 <= k < |init| && init[k].key !in membership && OutputRows(membership, start, init)[k].clusterId == n;
      assert rows[k] == init[k] && out[k] == OutputRows(membership, start, init)[k];
    } else {
      assert rows[last].key !in membership && out[last].clusterId == n;
    }
  }

  /** A row in a cluster is written with that cluster's id and score. */
  lemma ClusteredRowsKeepDetails<S>(membership: Membership<S>, start: nat, rows: seq<RowRef>, k: nat)
    requires k < |rows| && rows[k].key in membership
    ensures OutputRows(membership, start, rows)[k].clusterId == membership[rows[k].key].clusterId
    ensures OutputRows(membership, start, rows)[k].score == Some(membership[rows[k].key].score)
  {
    OutputRowsAt(membership, start, rows, k);
  }

  /** A row is written without a score exactly when it belongs to no cluster. */
  lemma UnscoredRowsAreUnclustered<S>(membership: Membership<S>, start: nat, rows: seq<RowRef>, k: nat)
    requires k < |rows|
    ensures OutputRows(membership, start, rows)[k].score.None? <==> rows[k].key !in membership
  {
    OutputRowsAt(membership, start, rows, k);
  }

  /**
   * When the counter starts above every cluster index, a row in no cluster
   * shares its id with no other row.
   */
  lemma FreshIdsAreUnique<S>(membership: Membership<S>, start: nat, rows: seq<RowRef>, k1: nat, k2: nat)
    requires forall key :: key in membership ==> membership[key].clusterId < start
    requires k1 < |rows| && k2 < |rows| && k1 != k2 && rows[k1].key !in membership
    ensures OutputRows(membership, start, rows)[k1].clusterId != OutputRows(membership, start, rows)[k2].clusterId
  {
    if rows[k2].key !in membership {
      if k1 < k2 {
        FreshIdsIncrease(membership, start, rows, k1, k2);
      } else {
        FreshIdsIncrease(membership, start, rows, k2, k1);
      }
    } else {
      OutputRowsAt(membership, start, rows, k1);
      OutputRowsAt(membership, start, rows, k2);
    }
  }

  /**
   * The counter as written breaks that: with one cluster, listing key `a`,
   * and a first file whose rows are `a` and `b`, both rows are written with
   * cluster id 0 although only the first is in the cluster.
   */
  lemma AsWrittenCollision<S>(a: string, b: string, score: S)
    requires a != b
    ensures var clusters := [Cluster([a], score)];
      var rows := OutputRows(MembershipOf(clusters), InitialFreshIdAsWritten(LastClusterIndex(clusters)), Flatten([[a, b], []]));
      |rows| == 2 && rows[0].clusterId == rows[1].clusterId == 0 && rows[0].score == Some(score) && rows[1].score == None
  {
    var clusters := [Cluster([a], score)];
    var membership := MembershipOf(clusters);
    assert membership == map[a := ClusterDetails(0, score)] by {
      assert clusters[..0] == [];
      assert MembershipOf(clusters[..0]) == map[];
      assert [a][..0] == [];
      assert RecordAll(map[], [a], ClusterDetails(0, score)) == map[a := ClusterDetails(0, score)];
    }
    var files := [[a, b], []];
    var flat := [RowRef(0, a), RowRef(0, b)];
    assert Flatten(files) == flat by {
      assert files[..1] == [[a, b]] && files[..1][..0] == [];
      assert [a, b][..1] == [a] && [a, b][..1][..0] == [];
      assert Tag(0, [a]) == [RowRef(0, a)];
      assert Tag(0, [a, b]) == flat;
      assert Flatten(files[..1]) == flat;
    }
    assert InitialFreshIdAsWritten(LastClusterIndex(clusters)) == 0;
    OutputRowsAt(membership, 0, flat, 0);
    OutputRowsAt(membership, 0, flat, 1);
    assert Unclustered(membership, flat[..1]) == 0 by {
      assert flat[..1][..0] == [];
    }
  }

  // ---------------------------------------------------------------------------
  // The whole write-out
  // ---------------------------------------------------------------------------

  /**
   * The cluster loop followed by the output pass, with the counter starting
   * one past the last cluster index: every written row in no cluster carries
   * an id that no other written row carries, and every pair comes from one
   * cluster.
   */
  method WriteResults<S>(linkedRecords: seq<Cluster<S>>, data1: Dataset, data2: Dataset, file1: seq<string>, file2: seq<string>)
    returns (recordPairs: seq<LinkedPair<S>>, rows: seq<OutputRow<S>>)
    ensures recordPairs == AllPairs(linkedRecords, data1, data2)
    ensures rows == OutputRows(MembershipOf(linkedRecords), |linkedRecords|, Flatten([file1, file2]))
    ensures forall k1, k2 :: 0 <= k1 < |rows| && 0 <= k2 < |rows| && k1 != k2 && rows[k1].score.None? ==>
      rows[k1].clusterId != rows[k2].clusterId
  {
    var clusterMembership, clusterId;
    recordPairs, clusterMembership, clusterId := LinkClusters(linkedRecords, data1, data2);
    var uniqueId := InitialFreshId(clusterId);
    InitialFreshIdAboveClusters(linkedRecords);
    rows, uniqueId := AssignClusterIds(clusterMembership, uniqueId, file1, file2);
    var flat := Flatten([file1, file2]);
    forall k1, k2 | 0 <= k1 < |rows| && 0 <= k2 < |rows| && k1 != k2 && rows[k1].score.None?
      ensures rows[k1].clusterId != rows[k2].clusterId
    {
      UnscoredRowsAreUnclustered(clusterMembership, InitialFreshId(clusterId), flat, k1);
      FreshIdsAreUnique(clusterMembership, InitialFreshId(clusterId), flat, k1, k2);
    }
  }
}
