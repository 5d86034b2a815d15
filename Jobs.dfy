/** cluster_jobs from lib/ivoxoar/util.py: greedy packing of weighted jobs. */
module Jobs {
  import opened Seqs

  /** A job as cluster_jobs sees it: an identity and a weight. */
  datatype Job = Job(id: nat, weight: real)

  /** The jobs dispatched together. */
  type Cluster = seq<Job>

  /** Ascending by weight, the order sorted(jobs, key=weight) produces. */
  predicate SortedByWeight(s: seq<Job>)
  {
    forall i, j :: 0 <= i < j < |s| ==> s[i].weight <= s[j].weight
  }

  /** The jobs of s that weigh exactly w, in their order in s. */
  function WithWeight(s: seq<Job>, w: real): seq<Job>
  {
    if s == [] then []
    else (if s[0].weight == w then [s[0]] else []) + WithWeight(s[1..], w)
  }

  /** Inserts x in front of the first job at least as heavy as x. */
  function Insert(x: Job, s: seq<Job>): (r: seq<Job>)
    ensures multiset(r) == multiset(s) + multiset{x}
  {
    if s == [] || x.weight <= s[0].weight then [x] + s
    else
      assert s == [s[0]] + s[1..];
      [s[0]] + Insert(x, s[1..])
  }

  /**
   * sorted(jobs, key=lambda job: job.weight): a stable sort, here by
   * insertion. It yields an ascending permutation of its input.
   */
  function SortByWeight(s: seq<Job>): (r: seq<Job>)
    ensures multiset(r) == multiset(s)
    ensures SortedByWeight(r)
  {
    if s == [] then []
    else
      assert s == [s[0]] + s[1..];
      InsertSorted(s[0], SortByWeight(s[1..]));
      Insert(s[0], SortByWeight(s[1..]))
  }

  /** Inserting into an ascending sequence keeps it ascending. */
  lemma {:induction false} InsertSorted(x: Job, s: seq<Job>)
    requires SortedByWeight(s)
    ensures SortedByWeight(Insert(x, s))
  {
    if s != [] && x.weight > s[0].weight {
      var t := s[1..];
      InsertSorted(x, t);
      var r := Insert(x, t);
      assert forall k :: 0 <= k < |r| ==> s[0].weight <= r[k].weight by {
        forall k | 0 <= k < |r|
          ensures s[0].weight <= r[k].weight
        {
          assert r[k] in multiset(r);
          assert r[k] == x || r[k] in multiset(t);
        }
      }
    }
  }

  lemma {:induction false} WithWeightPrepend(x: Job, s: seq<Job>, w: real)
    ensures WithWeight([x] + s, w) == (if x.weight == w then [x] else []) + WithWeight(s, w)
  {
    assert ([x] + s)[1..] == s;
  }

  /** Insert puts x behind no job of its own weight. */
  lemma {:induction false} InsertKeepsWeightOrder(x: Job, s: seq<Job>, w: real)
    ensures WithWeight(Insert(x, s), w) == WithWeight([x] + s, w)
  {
    if s == [] || x.weight <= s[0].weight {
    } else {
      var t := s[1..];
      assert s == [s[0]] + t;
      WithWeightPrepend(s[0], Insert(x, t), w);
      InsertKeepsWeightOrder(x, t, w);
      WithWeightPrepend(x, t, w);
      WithWeightPrepend(s[0], t, w);
      WithWeightPrepend(x, s, w);
    }
  }

  /**
   * The sort is stable: the jobs of any one weight come out in the order
   * they went in.
   */
  lemma {:induction false} SortByWeightStable(s: seq<Job>, w: real)
    ensures WithWeight(SortByWeight(s), w) == WithWeight(s, w)
  {
    if s != [] {
      assert s == [s[0]] + s[1..];
      InsertKeepsWeightOrder(s[0], SortByWeight(s[1..]), w);
      WithWeightPrepend(s[0], SortByWeight(s[1..]), w);
      SortByWeightStable(s[1..], w);
      WithWeightPrepend(s[0], s[1..], w);
    }
  }

  /** Picking out one weight's jobs distributes over concatenation. */
  lemma {:induction false} WithWeightAppend(a: seq<Job>, b: seq<Job>, w: real)
    ensures WithWeight(a + b, w) == WithWeight(a, w) + WithWeight(b, w)
  {
    if a == [] {
      assert a + b == b;
    } else {
      assert (a + b)[0] == a[0] && (a + b)[1..] == a[1..] + b;
      WithWeightAppend(a[1..], b, w);
    }
  }

  /** A sequence without a job of weight w has none to pick out. */
  lemma {:induction false} WithWeightNone(s: seq<Job>, w: real)
    requires forall k :: 0 <= k < |s| ==> s[k].weight != w
    ensures WithWeight(s, w) == []
  {
    if s != [] {
      WithWeightNone(s[1..], w);
    }
  }

  /**
   * Of each weight's jobs in pool, taken holds the latest ones, latest
   * first, and left keeps the earlier ones in their order: the order in
   * which jobs.pop() and the downward scan reach jobs of equal weight.
   */
  ghost predicate LatestTakenFirst(pool: seq<Job>, taken: seq<Job>, left: seq<Job>)
  {
    forall w :: WithWeight(pool, w) == WithWeight(left, w) + Reverse(WithWeight(taken, w))
  }

  /** Popping the last job of a pool takes the latest job of its weight. */
  lemma PopLatestFirst(pool: seq<Job>)
    requires pool != []
    ensures LatestTakenFirst(pool, [pool[|pool| - 1]], pool[..|pool| - 1])
  {
    var job, rest := pool[|pool| - 1], pool[..|pool| - 1];
    assert pool == rest + [job];
    forall w
      ensures WithWeight(pool, w) == WithWeight(rest, w) + Reverse(WithWeight([job], w))
    {
      WithWeightAppend(rest, [job], w);
      assert Reverse(WithWeight([job], w)) == WithWeight([job], w);
    }
  }

  /** Taking jobs in two rounds takes them as one round would. */
  lemma LatestTakenFirstTwice(pool: seq<Job>, taken: seq<Job>, mid: seq<Job>, more: seq<Job>, left: seq<Job>)
    requires LatestTakenFirst(pool, taken, mid) && LatestTakenFirst(mid, more, left)
    ensures LatestTakenFirst(pool, taken + more, left)
  {
    forall w
      ensures WithWeight(pool, w) == WithWeight(left, w) + Reverse(WithWeight(taken + more, w))
    {
      WithWeightAppend(taken, more, w);
      ReverseAppend(WithWeight(taken, w), WithWeight(more, w));
    }
  }

  /** list.pop(i): the list without its element at index i, later ones moved down. */
  function RemoveAt(s: seq<Job>, i: nat): (r: seq<Job>)
    requires i < |s|
    ensures |r| == |s| - 1
    ensures forall k :: 0 <= k < i ==> r[k] == s[k]
    ensures forall k :: i <= k < |r| ==> r[k] == s[k + 1]
    ensures multiset(r) + multiset{s[i]} == multiset(s)
  {
    assert s == s[..i] + [s[i]] + s[i + 1..];
    s[..i] + s[i + 1..]
  }

  /** The summed weight of a cluster, cluster_jobs' running size. */
  function Total(c: Cluster): (t: real)
    ensures NonNegative(c) ==> t >= 0.0
    ensures NonNegative(c) ==> forall m :: 0 <= m < |c| ==> c[m].weight <= t
  {
    if c == [] then 0.0
    else
      var init := c[..|c| - 1];
      assert forall m :: 0 <= m < |init| ==> init[m] == c[m];
      Total(init) + c[|c| - 1].weight
  }

  lemma TotalSnoc(c: Cluster, x: Job)
    ensures Total(c + [x]) == Total(c) + x.weight
  {
    assert (c + [x])[..|c|] == c;
  }

  /** A job at or over the target, dispatched alone. */
  predicate Oversized(c: Cluster, target: real)
  {
    |c| == 1 && c[0].weight >= target
  }

  /** A non-empty cluster of jobs each under the target, together within it. */
  predicate Packed(c: Cluster, target: real)
  {
    |c| > 0 && (forall m :: 0 <= m < |c| ==> c[m].weight < target) && Total(c) <= target
  }

  /** Heaviest first. */
  predicate NonIncreasing(c: Cluster)
  {
    forall a, b :: 0 <= a < b < |c| ==> c[a].weight >= c[b].weight
  }

  predicate NonNegative(s: seq<Job>)
  {
    forall k :: 0 <= k < |s| ==> s[k].weight >= 0.0
  }

  /** Every job of the input is in exactly one cluster, and nothing else is. */
  predicate Partitions(clusters: seq<Cluster>, jobs: seq<Job>)
  {
    multiset(Flatten(clusters)) == multiset(jobs)
  }

  /** Every cluster is a lone oversized job or a packed cluster, and the oversized ones come first. */
  predicate WellShaped(clusters: seq<Cluster>, target: real)
  {
    && (forall i :: 0 <= i < |clusters| ==> Oversized(clusters[i], target) || Packed(clusters[i], target))
    && (forall i, j :: 0 <= i < j < |clusters| && Oversized(clusters[j], target) ==> Oversized(clusters[i], target))
  }

  /**
   * Each cluster starts with the heaviest job that was left when it was
   * built: its first job weighs at least as much as every job of its own
   * and of every later cluster.
   */
  predicate HeaviestFirst(clusters: seq<Cluster>)
  {
    && (forall i :: 0 <= i < |clusters| ==> clusters[i] != [])
    && forall i, j, m :: 0 <= i <= j < |clusters| && 0 <= m < |clusters[j]| ==> clusters[j][m].weight <= clusters[i][0].weight
  }

  /** No job of a later cluster would still have fitted into a packed cluster. */
  predicate GreedyMaximal(clusters: seq<Cluster>, target: real)
  {
    forall i, j, m :: 0 <= i < j < |clusters| && Packed(clusters[i], target) && 0 <= m < |clusters[j]| ==>
      Total(clusters[i]) + clusters[j][m].weight > target
  }

  /**
   * Each packed cluster took the jobs in the order the scan reached them: a
   * job of a later cluster that outweighs member k of an earlier packed
   * cluster did not fit that cluster's members before k.
   */
  predicate TakenInScanOrder(clusters: seq<Cluster>, target: real)
  {
    forall i, j, k, m :: (0 <= i < j < |clusters| && Packed(clusters[i], target) && 0 <= k < |clusters[i]|
      && 0 <= m < |clusters[j]| && clusters[j][m].weight > clusters[i][k].weight) ==>
        Total(clusters[i][..k]) + clusters[j][m].weight > target
  }

  /** Popping a job keeps the rest in ascending order. */
  lemma RemoveAtSorted(s: seq<Job>, i: nat)
    requires i < |s| && SortedByWeight(s)
    ensures SortedByWeight(RemoveAt(s, i))
  {
    var r := RemoveAt(s, i);
    forall a, b | 0 <= a < b < |r|
      ensures r[a].weight <= r[b].weight
    {
      var a', b' := if a < i then a else a + 1, if b < i then b else b + 1;
      assert r[a] == s[a'] && r[b] == s[b'];
    }
  }

  /**
   * What holds while cluster_jobs scans the pool downward from index i:
   * the pool below i is untouched and lighter than every member, the pool
   * from i on holds the jobs that did not fit, and size is the cluster's
   * total, within the target. With non-negative weights, a scanned job
   * heavier than some member was reached before that member was taken and
   * did not fit the cluster as it was then.
   */
  ghost predicate ScanInvariant(pool: seq<Job>, target: real, cluster: Cluster, rest: seq<Job>, size: real, i: nat)
    requires pool != []
  {
    && i <= |rest|
    && PoolSplit(pool, cluster, rest)
    && ClusterWithin(target, cluster, size)
    && LighterBelow(cluster, rest, i)
    && (NonNegative(pool) ==> RejectedAbove(target, rest, size, i))
    && (NonNegative(pool) ==> ScanRejected(target, cluster, rest, i))
    && SameWeightRejected(target, rest, size, i)
    && LatestTakenFirst(pool, cluster, rest)
  }

  /**
   * A scanned job left in the pool whose weight still occurs below i did
   * not fit the cluster as it is now: jobs of one weight are scanned one
   * after another, and skipping a job leaves the size as it was.
   */
  ghost predicate SameWeightRejected(target: real, rest: seq<Job>, size: real, i: nat)
  {
    forall k, j :: 0 <= k < i <= j < |rest| && rest[k].weight == rest[j].weight ==> size + rest[j].weight > target
  }

  /** The job skipped at i - 1 did not fit, so it joins the rejected ones. */
  lemma SkipSameWeight(target: real, rest: seq<Job>, size: real, i: nat)
    requires 0 < i <= |rest|
    requires SameWeightRejected(target, rest, size, i)
    requires size + rest[i - 1].weight > target
    ensures SameWeightRejected(target, rest, size, i - 1)
  {}

  /**
   * A job that fits is the last of its weight in the pool, since an equal
   * job scanned before it would have fitted too; and no rejected job
   * shares a weight with the jobs still to scan.
   */
  lemma TakeSameWeight(target: real, rest: seq<Job>, size: real, i: nat)
    requires 0 < i <= |rest| && SortedByWeight(rest)
    requires SameWeightRejected(target, rest, size, i)
    requires size + rest[i - 1].weight <= target
    ensures forall j :: i <= j < |rest| ==> rest[j].weight > rest[i - 1].weight
    ensures SameWeightRejected(target, RemoveAt(rest, i - 1), size + rest[i - 1].weight, i - 1)
  {
    var rest' := RemoveAt(rest, i - 1);
    forall k, j | 0 <= k < i - 1 <= j < |rest'|
      ensures rest'[k].weight < rest'[j].weight
    {
      assert rest'[k] == rest[k] && rest'[j] == rest[j + 1];
    }
  }

  /** Taking the last job of its weight takes the latest one left. */
  lemma TakeLatestFirst(pool: seq<Job>, cluster: Cluster, rest: seq<Job>, i: nat)
    requires 0 < i <= |rest|
    requires LatestTakenFirst(pool, cluster, rest)
    requires forall j :: i <= j < |rest| ==> rest[j].weight != rest[i - 1].weight
    ensures LatestTakenFirst(pool, cluster + [rest[i - 1]], RemoveAt(rest, i - 1))
  {
    var x, before, after := rest[i - 1], rest[..i - 1], rest[i..];
    assert rest == before + [x] + after;
    assert RemoveAt(rest, i - 1) == before + after;
    WithWeightNone(after, x.weight);
    assert LatestTakenFirst(rest, [x], before + after) by {
      forall w
        ensures WithWeight(rest, w) == WithWeight(before + after, w) + Reverse(WithWeight([x], w))
      {
        WithWeightAppend(before + [x], after, w);
        WithWeightAppend(before, [x], w);
        WithWeightAppend(before, after, w);
        assert Reverse(WithWeight([x], w)) == WithWeight([x], w);
      }
    }
    LatestTakenFirstTwice(pool, cluster, rest, [x], before + after);
  }

  /** The pool's jobs are split between the cluster, seeded with the heaviest, and the rest. */
  ghost predicate PoolSplit(pool: seq<Job>, cluster: Cluster, rest: seq<Job>)
    requires pool != []
  {
    var seed := pool[|pool| - 1];
    && SortedByWeight(rest)
    && multiset(cluster) + multiset(rest) == multiset(pool)
    && |cluster| > 0 && cluster[0] == seed
    && (forall k :: 0 <= k < |rest| ==> rest[k].weight <= seed.weight)
    && (NonNegative(pool) ==> forall k :: 0 <= k < |rest| ==> rest[k].weight >= 0.0)
  }

  /** size is the cluster's total, within the target; the members are each under it, heaviest first. */
  ghost predicate ClusterWithin(target: real, cluster: Cluster, size: real)
  {
    && size == Total(cluster) && size <= target
    && (forall m :: 0 <= m < |cluster| ==> cluster[m].weight < target)
    && NonIncreasing(cluster)
  }

  /** The unscanned jobs, below index i, weigh no more than any member. */
  ghost predicate LighterBelow(cluster: Cluster, rest: seq<Job>, i: nat)
    requires i <= |rest|
  {
    forall k, m :: 0 <= k < i && 0 <= m < |cluster| ==> rest[k].weight <= cluster[m].weight
  }

  /** The scanned jobs left in the pool, from index i on, do not fit. */
  ghost predicate RejectedAbove(target: real, rest: seq<Job>, size: real, i: nat)
  {
    forall k :: i <= k < |rest| ==> size + rest[k].weight > target
  }

  /**
   * Every scanned job left in the pool that outweighs member k did not fit
   * the members before k, the cluster as it was when the scan reached it.
   */
  ghost predicate ScanRejected(target: real, cluster: Cluster, rest: seq<Job>, i: nat)
  {
    forall k, j :: 0 <= k < |cluster| && i <= j < |rest| && rest[j].weight > cluster[k].weight ==>
      Total(cluster[..k]) + rest[j].weight > target
  }

  /** The job skipped at i - 1 outweighs no member, so it adds nothing to ScanRejected. */
  lemma SkipScanRejected(target: real, cluster: Cluster, rest: seq<Job>, i: nat)
    requires 0 < i <= |rest|
    requires ScanRejected(target, cluster, rest, i) && LighterBelow(cluster, rest, i)
    ensures ScanRejected(target, cluster, rest, i - 1)
  {
    forall k, j | 0 <= k < |cluster| && i - 1 <= j < |rest| && rest[j].weight > cluster[k].weight
      ensures Total(cluster[..k]) + rest[j].weight > target
    {
      if j == i - 1 {
        assert false;
      }
    }
  }

  /**
   * Taking rest[i - 1]: the scanned jobs it leaves behind did not fit the
   * cluster as it was, which is the new member's prefix.
   */
  lemma TakeScanRejected(target: real, cluster: Cluster, rest: seq<Job>, size: real, i: nat)
    requires 0 < i <= |rest| && size == Total(cluster)
    requires ScanRejected(target, cluster, rest, i) && RejectedAbove(target, rest, size, i)
    ensures ScanRejected(target, cluster + [rest[i - 1]], RemoveAt(rest, i - 1), i - 1)
  {
    var cluster', rest' := cluster + [rest[i - 1]], RemoveAt(rest, i - 1);
    forall k, j | 0 <= k < |cluster'| && i - 1 <= j < |rest'| && rest'[j].weight > cluster'[k].weight
      ensures Total(cluster'[..k]) + rest'[j].weight > target
    {
      assert rest'[j] == rest[j + 1];
      if k < |cluster| {
        assert cluster'[..k] == cluster[..k];
        assert cluster'[k] == cluster[k];
      } else {
        assert cluster'[..k] == cluster;
      }
    }
  }

  /** A job that does not fit stays in the pool. */
  lemma ScanSkip(pool: seq<Job>, target: real, cluster: Cluster, rest: seq<Job>, size: real, i: nat)
    requires pool != [] && 0 < i
    requires ScanInvariant(pool, target, cluster, rest, size, i)
    requires size + rest[i - 1].weight > target
    ensures ScanInvariant(pool, target, cluster, rest, size, i - 1)
  {
    if NonNegative(pool) {
      SkipScanRejected(target, cluster, rest, i);
    }
    SkipSameWeight(target, rest, size, i);
  }

  /** Popping rest[i - 1] into the cluster keeps the pool's jobs split between the two. */
  lemma TakePoolSplit(pool: seq<Job>, cluster: Cluster, rest: seq<Job>, i: nat)
    requires pool != [] && 0 < i <= |rest|
    requires PoolSplit(pool, cluster, rest)
    ensures PoolSplit(pool, cluster + [rest[i - 1]], RemoveAt(rest, i - 1))
  {
    var job := rest[i - 1];
    RemoveAtSorted(rest, i - 1);
    assert multiset(cluster + [job]) == multiset(cluster) + multiset{job};
  }

  /** Adding a job that fits, no heavier than any member, keeps the cluster within the target. */
  lemma TakeClusterWithin(target: real, cluster: Cluster, size: real, job: Job)
    requires ClusterWithin(target, cluster, size)
    requires size + job.weight <= target && job.weight < target
    requires forall m :: 0 <= m < |cluster| ==> job.weight <= cluster[m].weight
    ensures ClusterWithin(target, cluster + [job], size + job.weight)
  {
    TotalSnoc(cluster, job);
  }

  /** The unscanned jobs below rest[i - 1] are no heavier than it, by sortedness. */
  lemma TakeLighterBelow(cluster: Cluster, rest: seq<Job>, i: nat)
    requires 0 < i <= |rest|
    requires SortedByWeight(rest) && LighterBelow(cluster, rest, i)
    ensures LighterBelow(cluster + [rest[i - 1]], RemoveAt(rest, i - 1), i - 1)
  {}

  /** With a non-negative weight added, the jobs that did not fit still do not. */
  lemma TakeRejectedAbove(target: real, rest: seq<Job>, size: real, i: nat)
    requires 0 < i <= |rest| && rest[i - 1].weight >= 0.0
    requires RejectedAbove(target, rest, size, i)
    ensures RejectedAbove(target, RemoveAt(rest, i - 1), size + rest[i - 1].weight, i - 1)
  {}

  /** A job that fits is popped into the cluster. */
  lemma ScanTake(pool: seq<Job>, target: real, cluster: Cluster, rest: seq<Job>, size: real, i: nat)
    requires pool != [] && 0 < i
    requires ScanInvariant(pool, target, cluster, rest, size, i)
    requires size + rest[i - 1].weight <= target
    ensures ScanInvariant(pool, target, cluster + [rest[i - 1]], RemoveAt(rest, i - 1), size + rest[i - 1].weight, i - 1)
  {
    var job := rest[i - 1];
    TakePoolSplit(pool, cluster, rest, i);
    assert job.weight < target by {
      assert job.weight <= cluster[0].weight;
    }
    TakeClusterWithin(target, cluster, size, job);
    TakeLighterBelow(cluster, rest, i);
    if NonNegative(pool) {
      TakeRejectedAbove(target, rest, size, i);
      TakeScanRejected(target, cluster, rest, size, i);
    }
    TakeSameWeight(target, rest, size, i);
    TakeLatestFirst(pool, cluster, rest, i);
  }

  /** Popping the seed splits the pool into it and an ascending rest no heavier than it. */
  lemma StartPoolSplit(pool: seq<Job>)
    requires pool != [] && SortedByWeight(pool)
    ensures PoolSplit(pool, [pool[|pool| - 1]], pool[..|pool| - 1])
  {
    var seed, rest := pool[|pool| - 1], pool[..|pool| - 1];
    assert pool == rest + [seed];
  }

  /** The scan starts with the seed alone and nothing scanned. */
  lemma ScanStart(pool: seq<Job>, target: real)
    requires pool != [] && SortedByWeight(pool)
    requires pool[|pool| - 1].weight < target
    ensures var seed := pool[|pool| - 1];
      ScanInvariant(pool, target, [seed], pool[..|pool| - 1], seed.weight, |pool| - 1)
  {
    StartPoolSplit(pool);
    StartCluster(target, pool[|pool| - 1], pool[..|pool| - 1]);
    PopLatestFirst(pool);
  }

  /** The seed alone, under the target and with nothing scanned, meets the cluster's part of the scan invariant. */
  lemma StartCluster(target: real, seed: Job, rest: seq<Job>)
    requires seed.weight < target
    requires forall k :: 0 <= k < |rest| ==> rest[k].weight <= seed.weight
    ensures ClusterWithin(target, [seed], seed.weight)
    ensures LighterBelow([seed], rest, |rest|)
    ensures RejectedAbove(target, rest, seed.weight, |rest|)
    ensures ScanRejected(target, [seed], rest, |rest|)
    ensures SameWeightRejected(target, rest, seed.weight, |rest|)
  {
    TotalSnoc([], seed);
  }

  /**
   * What one pass of the packing scan leaves: the pool's jobs split between a
   * packed cluster, seeded with the heaviest job and heaviest first, and
   * the rest, still ascending and no heavier than the seed; of each
   * weight, the cluster holds the pool's latest jobs; with non-negative
   * weights, no job of the rest fits into the cluster.
   */
  ghost predicate PackedFrom(pool: seq<Job>, target: real, cluster: Cluster, rest: seq<Job>)
    requires pool != []
  {
    && multiset(cluster) + multiset(rest) == multiset(pool)
    && SortedByWeight(rest)
    && Packed(cluster, target) && NonIncreasing(cluster)
    && cluster[0] == pool[|pool| - 1]
    && (forall x :: x in rest ==> x.weight <= cluster[0].weight)
    && (NonNegative(pool) ==> forall x :: x in rest ==> Total(cluster) + x.weight > target)
    && (NonNegative(pool) ==> HeavierDidNotFit(target, cluster, rest))
    && LatestTakenFirst(pool, cluster, rest)
  }

  /**
   * The top-down scan takes each job that fits when it is reached: a job
   * left out that outweighs member k did not fit the members before k.
   */
  ghost predicate HeavierDidNotFit(target: real, cluster: Cluster, rest: seq<Job>)
  {
    forall k, x :: 0 <= k < |cluster| && x in rest && x.weight > cluster[k].weight ==>
      Total(cluster[..k]) + x.weight > target
  }

  /** Once the whole pool is scanned, ScanRejected covers every job left. */
  lemma ScanRejectedAll(target: real, cluster: Cluster, rest: seq<Job>)
    requires ScanRejected(target, cluster, rest, 0)
    ensures HeavierDidNotFit(target, cluster, rest)
  {
    forall k, x | 0 <= k < |cluster| && x in rest && x.weight > cluster[k].weight
      ensures Total(cluster[..k]) + x.weight > target
    {
      var j :| 0 <= j < |rest| && rest[j] == x;
    }
  }

  /** A finished scan leaves a packed cluster that no remaining job fits. */
  lemma ScanDone(pool: seq<Job>, target: real, cluster: Cluster, rest: seq<Job>, size: real)
    requires pool != []
    requires ScanInvariant(pool, target, cluster, rest, size, 0)
    ensures PackedFrom(pool, target, cluster, rest)
  {
    if NonNegative(pool) {
      ScanRejectedAll(target, cluster, rest);
    }
  }

  /**
   * One pass of the packing scan: takes the heaviest job of the sorted pool as seed, then
   * scans the rest from the top index down and pops every job that still
   * fits under the target into the cluster.
   */
  method PackCluster(pool: seq<Job>, target: real) returns (cluster: Cluster, rest: seq<Job>)
    requires pool != [] && SortedByWeight(pool)
    requires pool[|pool| - 1].weight < target
    ensures PackedFrom(pool, target, cluster, rest)
  {
    var seed := pool[|pool| - 1];
    rest := pool[..|pool| - 1];
    cluster := [seed];
    var size := seed.weight;
    var i: nat := |rest|;
    ScanStart(pool, target);
    while i > 0
      invariant ScanInvariant(pool, target, cluster, rest, size, i)
    {
      if size + rest[i - 1].weight <= target {
        ScanTake(pool, target, cluster, rest, size, i);
        size := size + rest[i - 1].weight;
        cluster := cluster + [rest[i - 1]];
        rest := RemoveAt(rest, i - 1);
      } else {
        ScanSkip(pool, target, cluster, rest, size, i);
      }
      i := i - 1;
    }
    ScanDone(pool, target, cluster, rest, size);
  }

  /**
   * What holds between clusters once the oversized jobs are out: the pool
   * is ascending, under the target and lighter than every seed so far; the
   * clusters and the pool together hold exactly the input's jobs; with
   * non-negative weights, no pooled job fits into an earlier packed cluster.
   */
  ghost predicate PackingInvariant(jobs: seq<Job>, target: real, clusters: seq<Cluster>, pool: seq<Job>)
  {
    && SortedByWeight(pool)
    && (forall x :: x in pool ==> x.weight < target)
    && (NonNegative(jobs) ==> NonNegative(pool))
    && multiset(Flatten(clusters)) + multiset(pool) == multiset(jobs)
    && WellShaped(clusters, target)
    && (forall i :: 0 <= i < |clusters| ==> NonIncreasing(clusters[i]))
    && HeaviestFirst(clusters)
    && PoolBelowSeeds(clusters, pool)
    && (NonNegative(jobs) ==> GreedyMaximal(clusters, target) && PoolRejected(clusters, pool, target))
    && (NonNegative(jobs) ==> TakenInScanOrder(clusters, target) && PoolPassedOver(clusters, pool, target))
    && LatestTakenFirst(jobs, Flatten(clusters), pool)
  }

  /** A pooled job that outweighs member k of a packed cluster did not fit the members before k. */
  ghost predicate PoolPassedOver(clusters: seq<Cluster>, pool: seq<Job>, target: real)
  {
    forall i, k, x :: (0 <= i < |clusters| && Packed(clusters[i], target) && 0 <= k < |clusters[i]|
      && x in pool && x.weight > clusters[i][k].weight) ==>
        Total(clusters[i][..k]) + x.weight > target
  }

  /** No pooled job is heavier than the first job of any cluster. */
  ghost predicate PoolBelowSeeds(clusters: seq<Cluster>, pool: seq<Job>)
  {
    forall i, x :: 0 <= i < |clusters| && clusters[i] != [] && x in pool ==> x.weight <= clusters[i][0].weight
  }

  /** No pooled job fits into any packed cluster. */
  ghost predicate PoolRejected(clusters: seq<Cluster>, pool: seq<Job>, target: real)
  {
    forall i, x :: 0 <= i < |clusters| && Packed(clusters[i], target) && x in pool ==> Total(clusters[i]) + x.weight > target
  }

  /** What holds while the oversized jobs are popped off the top of the sorted pool. */
  ghost predicate OversizedInvariant(jobs: seq<Job>, target: real, clusters: seq<Cluster>, pool: seq<Job>)
  {
    && SortedByWeight(pool)
    && multiset(Flatten(clusters)) + multiset(pool) == multiset(jobs)
    && (forall i :: 0 <= i < |clusters| ==> Oversized(clusters[i], target))
    && HeaviestFirst(clusters)
    && PoolBelowSeeds(clusters, pool)
    && LatestTakenFirst(jobs, Flatten(clusters), pool)
  }

  /** Emitting a cluster taken from the pool keeps the input's jobs accounted for. */
  lemma EmitPartition(jobs: seq<Job>, clusters: seq<Cluster>, pool: seq<Job>, c: Cluster, rest: seq<Job>)
    requires multiset(Flatten(clusters)) + multiset(pool) == multiset(jobs)
    requires multiset(c) + multiset(rest) == multiset(pool)
    ensures multiset(Flatten(clusters + [c])) + multiset(rest) == multiset(jobs)
  {
    FlattenSnoc(clusters, c);
  }

  /** What is split off a pool is drawn from it. */
  lemma SplitMembers(pool: seq<Job>, c: Cluster, rest: seq<Job>)
    requires multiset(c) + multiset(rest) == multiset(pool)
    ensures forall x :: x in c ==> x in pool
    ensures forall x :: x in rest ==> x in pool
  {
    forall x | x in c || x in rest
      ensures x in pool
    {
      assert multiset(pool)[x] == multiset(c)[x] + multiset(rest)[x];
    }
  }

  /**
   * Emitting a cluster drawn from the pool, heaviest first, with nothing
   * heavier than its first job left behind, keeps every cluster's first
   * job the heaviest of what remained.
   */
  lemma EmitHeaviestFirst(clusters: seq<Cluster>, pool: seq<Job>, c: Cluster, rest: seq<Job>)
    requires HeaviestFirst(clusters) && PoolBelowSeeds(clusters, pool)
    requires c != [] && NonIncreasing(c)
    requires forall x :: x in c ==> x in pool
    requires forall x :: x in rest ==> x in pool && x.weight <= c[0].weight
    ensures HeaviestFirst(clusters + [c]) && PoolBelowSeeds(clusters + [c], rest)
  {
    var clusters': seq<Cluster> := clusters + [c];
    forall i, j, m | 0 <= i <= j < |clusters'| && 0 <= m < |clusters'[j]|
      ensures clusters'[j][m].weight <= clusters'[i][0].weight
    {
      if j == |clusters| {
        assert clusters'[j][m] in c;
        if i == j {
          assert m == 0 || c[0].weight >= c[m].weight;
        }
      }
    }
  }

  /** jobs.pop() on an ascending list: the heaviest job, and the rest still ascending. */
  lemma PopHeaviest(pool: seq<Job>)
    requires pool != [] && SortedByWeight(pool)
    ensures var job, rest := pool[|pool| - 1], pool[..|pool| - 1];
      && multiset([job]) + multiset(rest) == multiset(pool)
      && SortedByWeight(rest)
      && forall x :: x in rest ==> x.weight <= job.weight
  {
    var job, rest := pool[|pool| - 1], pool[..|pool| - 1];
    assert pool == rest + [job];
    forall x | x in rest
      ensures x.weight <= job.weight
    {
      var k :| 0 <= k < |rest| && rest[k] == x;
      assert pool[k] == x;
    }
  }

  /** A job at or over the target, emitted alone after the others like it. */
  lemma EmitOversized(clusters: seq<Cluster>, target: real, job: Job)
    requires forall i :: 0 <= i < |clusters| ==> Oversized(clusters[i], target)
    requires job.weight >= target
    ensures forall i :: 0 <= i < |clusters + [[job]]| ==> Oversized((clusters + [[job]])[i], target)
  {}

  /** The heaviest job, at or over the target, leaves alone. */
  lemma OversizedStep(jobs: seq<Job>, target: real, clusters: seq<Cluster>, pool: seq<Job>)
    requires pool != [] && pool[|pool| - 1].weight >= target
    requires OversizedInvariant(jobs, target, clusters, pool)
    ensures OversizedInvariant(jobs, target, clusters + [[pool[|pool| - 1]]], pool[..|pool| - 1])
  {
    var job, rest := pool[|pool| - 1], pool[..|pool| - 1];
    PopHeaviest(pool);
    EmitPartition(jobs, clusters, pool, [job], rest);
    SplitMembers(pool, [job], rest);
    EmitHeaviestFirst(clusters, pool, [job], rest);
    EmitOversized(clusters, target, job);
    PopLatestFirst(pool);
    EmitLatestFirst(jobs, clusters, pool, [job], rest);
  }

  /** An ascending pool whose heaviest job is under the target is wholly under it. */
  lemma SortedBelow(pool: seq<Job>, target: real)
    requires SortedByWeight(pool)
    requires pool == [] || pool[|pool| - 1].weight < target
    ensures forall x :: x in pool ==> x.weight < target
  {
    forall x | x in pool
      ensures x.weight < target
    {
      var k :| 0 <= k < |pool| && pool[k] == x;
      assert k == |pool| - 1 || pool[k].weight <= pool[|pool| - 1].weight;
    }
  }

  /** Jobs still held out of non-negative input are non-negative. */
  lemma HeldNonNegative(jobs: seq<Job>, held: multiset<Job>, pool: seq<Job>)
    requires held + multiset(pool) == multiset(jobs)
    ensures NonNegative(jobs) ==> NonNegative(pool)
  {
    if NonNegative(jobs) {
      forall k | 0 <= k < |pool|
        ensures pool[k].weight >= 0.0
      {
        assert multiset(jobs)[pool[k]] > 0;
        var j :| 0 <= j < |jobs| && jobs[j] == pool[k];
      }
    }
  }

  /** The oversized jobs are out: what the first loop leaves starts the second. */
  lemma PackingStart(jobs: seq<Job>, target: real, clusters: seq<Cluster>, pool: seq<Job>)
    requires pool == [] || pool[|pool| - 1].weight < target
    requires OversizedInvariant(jobs, target, clusters, pool)
    ensures PackingInvariant(jobs, target, clusters, pool)
  {
    SortedBelow(pool, target);
    HeldNonNegative(jobs, multiset(Flatten(clusters)), pool);
    assert WellShaped(clusters, target);
  }

  /** A packed cluster after the oversized ones keeps the oversized ones first. */
  lemma EmitWellShaped(clusters: seq<Cluster>, target: real, c: Cluster)
    requires WellShaped(clusters, target) && Packed(c, target)
    ensures WellShaped(clusters + [c], target)
  {
    assert !Oversized(c, target);
  }

  /**
   * With non-negative weights: if nothing in the pool fits any earlier
   * packed cluster and nothing left fits the new one, that stays so.
   */
  lemma EmitMaximal(clusters: seq<Cluster>, pool: seq<Job>, target: real, c: Cluster, rest: seq<Job>)
    requires GreedyMaximal(clusters, target) && PoolRejected(clusters, pool, target)
    requires forall x :: x in c ==> x in pool
    requires forall x :: x in rest ==> x in pool && Total(c) + x.weight > target
    ensures GreedyMaximal(clusters + [c], target) && PoolRejected(clusters + [c], rest, target)
  {
    var clusters': seq<Cluster> := clusters + [c];
    forall i, j, m | 0 <= i < j < |clusters'| && Packed(clusters'[i], target) && 0 <= m < |clusters'[j]|
      ensures Total(clusters'[i]) + clusters'[j][m].weight > target
    {
      if j == |clusters| {
        assert clusters'[j][m] in c;
      }
    }
  }

  /** Jobs drawn from the pool stay under the target, and non-negative when the pool is. */
  lemma DrawnBounds(pool: seq<Job>, rest: seq<Job>, target: real)
    requires forall x :: x in pool ==> x.weight < target
    requires forall x :: x in rest ==> x in pool
    ensures forall x :: x in rest ==> x.weight < target
    ensures NonNegative(pool) ==> NonNegative(rest)
  {
    if NonNegative(pool) {
      forall k | 0 <= k < |rest|
        ensures rest[k].weight >= 0.0
      {
        assert rest[k] in pool;
        var j :| 0 <= j < |pool| && pool[j] == rest[k];
      }
    }
  }

  /** Emitting a non-increasing cluster keeps every cluster non-increasing. */
  lemma EmitNonIncreasing(clusters: seq<Cluster>, c: Cluster)
    requires forall i :: 0 <= i < |clusters| ==> NonIncreasing(clusters[i])
    requires NonIncreasing(c)
    ensures forall i :: 0 <= i < |clusters + [c]| ==> NonIncreasing((clusters + [c])[i])
  {}

  /**
   * With non-negative weights: emitting a cluster drawn from the pool that
   * took its jobs in scan order keeps every cluster in scan order.
   */
  lemma EmitScanOrder(clusters: seq<Cluster>, pool: seq<Job>, target: real, c: Cluster, rest: seq<Job>)
    requires TakenInScanOrder(clusters, target) && PoolPassedOver(clusters, pool, target)
    requires forall x :: x in c ==> x in pool
    requires forall x :: x in rest ==> x in pool
    requires HeavierDidNotFit(target, c, rest)
    ensures TakenInScanOrder(clusters + [c], target) && PoolPassedOver(clusters + [c], rest, target)
  {
    var clusters': seq<Cluster> := clusters + [c];
    forall i, j, k, m | 0 <= i < j < |clusters'| && Packed(clusters'[i], target) && 0 <= k < |clusters'[i]|
      && 0 <= m < |clusters'[j]| && clusters'[j][m].weight > clusters'[i][k].weight
      ensures Total(clusters'[i][..k]) + clusters'[j][m].weight > target
    {
      if j == |clusters| {
        assert clusters'[j][m] in c;
      }
    }
  }

  /** Emitting the jobs a cluster took from the pool keeps each weight's jobs in reverse input order. */
  lemma EmitLatestFirst(jobs: seq<Job>, clusters: seq<Cluster>, pool: seq<Job>, c: Cluster, rest: seq<Job>)
    requires LatestTakenFirst(jobs, Flatten(clusters), pool)
    requires LatestTakenFirst(pool, c, rest)
    ensures LatestTakenFirst(jobs, Flatten(clusters + [c]), rest)
  {
    FlattenSnoc(clusters, c);
    LatestTakenFirstTwice(jobs, Flatten(clusters), pool, c, rest);
  }

  /** The stable sort leaves each weight's jobs in input order, none taken yet. */
  lemma SortedNoneTaken(jobs: seq<Job>)
    ensures LatestTakenFirst(jobs, Flatten<Job>([]), SortByWeight(jobs))
  {
    forall w
      ensures WithWeight(jobs, w) == WithWeight(SortByWeight(jobs), w) + Reverse(WithWeight(Flatten<Job>([]), w))
    {
      SortByWeightStable(jobs, w);
    }
  }

  /** Once the pool is empty, each weight's jobs were emitted in reverse input order. */
  lemma AllTakenLatestFirst(jobs: seq<Job>, clusters: seq<Cluster>)
    requires LatestTakenFirst(jobs, Flatten(clusters), [])
    ensures forall w :: WithWeight(Flatten(clusters), w) == Reverse(WithWeight(jobs, w))
  {
    forall w
      ensures WithWeight(Flatten(clusters), w) == Reverse(WithWeight(jobs, w))
    {
      ReverseReverse(WithWeight(Flatten(clusters), w));
    }
  }

  /** Emitting a freshly packed cluster keeps the invariant. */
  lemma PackingStep(jobs: seq<Job>, target: real, clusters: seq<Cluster>, pool: seq<Job>, cluster: Cluster, rest: seq<Job>)
    requires pool != []
    requires PackingInvariant(jobs, target, clusters, pool)
    requires PackedFrom(pool, target, cluster, rest)
    ensures PackingInvariant(jobs, target, clusters + [cluster], rest)
  {
    SplitMembers(pool, cluster, rest);
    DrawnBounds(pool, rest, target);
    EmitPartition(jobs, clusters, pool, cluster, rest);
    EmitWellShaped(clusters, target, cluster);
    EmitNonIncreasing(clusters, cluster);
    EmitHeaviestFirst(clusters, pool, cluster, rest);
    if NonNegative(jobs) {
      EmitMaximal(clusters, pool, target, cluster, rest);
      EmitScanOrder(clusters, pool, target, cluster, rest);
    }
    EmitLatestFirst(jobs, clusters, pool, cluster, rest);
  }

  /**
   * cluster_jobs(jobs, target_weight), the yielded clusters in order: the
   * jobs sorted by weight, then every job at or over the target alone,
   * heaviest first, then greedily packed clusters until no job is left.
   * Jobs of equal weight come out latest input job first.
   */
  method ClusterJobs(jobs: seq<Job>, target: real) returns (clusters: seq<Cluster>)
    ensures Partitions(clusters, jobs)
    ensures WellShaped(clusters, target)
    ensures forall i :: 0 <= i < |clusters| ==> NonIncreasing(clusters[i])
    ensures HeaviestFirst(clusters)
    ensures NonNegative(jobs) ==> GreedyMaximal(clusters, target)
    ensures NonNegative(jobs) ==> TakenInScanOrder(clusters, target)
    ensures forall w :: WithWeight(Flatten(clusters), w) == Reverse(WithWeight(jobs, w))
  {
    var pool := SortByWeight(jobs);
    clusters := [];
    SortedNoneTaken(jobs);
    while pool != [] && pool[|pool| - 1].weight >= target
      invariant OversizedInvariant(jobs, target, clusters, pool)
    {
      OversizedStep(jobs, target, clusters, pool);
      clusters := clusters + [[pool[|pool| - 1]]];
      pool := pool[..|pool| - 1];
    }
    PackingStart(jobs, target, clusters, pool);
    while pool != []
      invariant PackingInvariant(jobs, target, clusters, pool)
      decreases |pool|
    {
      var cluster, rest := PackCluster(pool, target);
      PackingStep(jobs, target, clusters, pool, cluster, rest);
      clusters := clusters + [cluster];
      pool := rest;
    }
    AllTakenLatestFirst(jobs, clusters);
  }

  /**
   * Two jobs of weight 3 under a seed of weight 6, target 9: the cluster
   * must take the later one, Job 2, and leave Job 1 in the pool.
   */
  lemma PackedFromEqualWeights()
    ensures !PackedFrom([Job(1, 3.0), Job(2, 3.0), Job(3, 6.0)], 9.0, [Job(3, 6.0), Job(1, 3.0)], [Job(2, 3.0)])
  {
    var pool, cluster, rest := [Job(1, 3.0), Job(2, 3.0), Job(3, 6.0)], [Job(3, 6.0), Job(1, 3.0)], [Job(2, 3.0)];
    assert WithWeight(pool, 3.0) == [Job(1, 3.0), Job(2, 3.0)] by {
      WithWeightPrepend(Job(1, 3.0), pool[1..], 3.0);
      WithWeightPrepend(Job(2, 3.0), pool[2..], 3.0);
    }
    assert WithWeight(cluster, 3.0) == [Job(1, 3.0)];
    assert WithWeight(rest, 3.0) + Reverse(WithWeight(cluster, 3.0)) == [Job(2, 3.0), Job(1, 3.0)];
  }
}
