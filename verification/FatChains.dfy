/** The FAT of fat16/vfs.c as a set of chains, and the byte view of a chain. */
module FatChains {
  // `fat[c]` is 0 for a free cluster, `EOC` for the last cluster of a chain, and otherwise the next
  // cluster.  A chain is named by its first cluster.

  import opened Bytes

  const CLUSTER_SIZE := 4096
  const NUM_CLUSTERS := 125
  const FIRST_CLUSTER := 2
  const EOC := 0xFFFF

  type Chain = seq<nat>
  type Chains = map<nat, Chain>

  // ---------------------------------------------------------------- chains in the FAT

  predicate IsCluster(c: int) { FIRST_CLUSTER <= c < NUM_CLUSTERS }

  ghost predicate Clusters(c: Chain) {
    forall i :: 0 <= i < |c| ==> IsCluster(c[i])
  }

  /** Which chain a cluster belongs to, and where in it. */
  datatype Tag = Free | In(head: nat, index: nat)

  ghost predicate TagsAre(tags: seq<Tag>, chains: Chains) {
    && |tags| == NUM_CLUSTERS
    && (forall p, i :: p in chains && 0 <= i < |chains[p]| ==> IsCluster(chains[p][i]) && tags[chains[p][i]] == In(p, i))
    && (forall c :: IsCluster(c) && tags[c].In? ==>
          tags[c].head in chains && tags[c].index < |chains[tags[c].head]| && chains[tags[c].head][tags[c].index] == c)
  }

  /** What the FAT holds for cluster `i` of a chain. */
  ghost function Link(c: Chain, i: nat): nat
    requires i < |c|
  {
    if i + 1 < |c| then c[i + 1] else EOC
  }

  ghost predicate LinkedBy(fat: seq<nat>, c: Chain)
    requires |fat| == NUM_CLUSTERS
  {
    && Clusters(c)
    && forall i {:trigger Link(c, i)} :: 0 <= i < |c| ==> fat[c[i]] == Link(c, i)
  }

  /** Following the FAT from cluster `i`: the end of the chain, or its next cluster. */
  lemma Follow(fat: seq<nat>, c: Chain, i: nat)
    requires |fat| == NUM_CLUSTERS && LinkedBy(fat, c) && i < |c|
    ensures IsCluster(c[i])
    ensures if i == |c| - 1 then fat[c[i]] == EOC else IsCluster(c[i + 1]) && fat[c[i]] == c[i + 1]
  {
    assert fat[c[i]] == Link(c, i);
  }

  /** The chains are threaded through the FAT, and every other cluster is free. */
  ghost predicate Threaded(fat: seq<nat>, chains: Chains, tags: seq<Tag>) {
    && |fat| == NUM_CLUSTERS && TagsAre(tags, chains)
    && (forall p :: p in chains ==> chains[p] != [] && chains[p][0] == p)
    && (forall p :: p in chains ==> LinkedBy(fat, chains[p]))
    && (forall c :: IsCluster(c) ==> (fat[c] == 0 <==> tags[c].Free?))
  }

  /** `c` is an acyclic chain in the FAT that ends in `EOC`. */
  ghost predicate IsChain(fat: seq<nat>, c: Chain) {
    && |fat| == NUM_CLUSTERS && c != []
    && (forall i :: 0 <= i < |c| ==> IsCluster(c[i]))
    && (forall i :: 0 <= i < |c| - 1 ==> fat[c[i]] == c[i + 1])
    && fat[c[|c| - 1]] == 0xFFFF
    && (forall i, j :: 0 <= i < j < |c| ==> c[i] != c[j])
  }

  ghost predicate Apart(c: Chain, d: Chain) {
    forall i, j :: 0 <= i < |c| && 0 <= j < |d| ==> c[i] != d[j]
  }

  /** The FAT is exactly a set of pairwise disjoint, acyclic chains; every other cluster is free. */
  ghost predicate Forest(fat: seq<nat>, chains: Chains) {
    && |fat| == NUM_CLUSTERS
    && (forall p :: p in chains ==> IsChain(fat, chains[p]))
    && (forall p, q :: p in chains && q in chains && p != q ==> Apart(chains[p], chains[q]))
    && (forall c :: IsCluster(c) ==> (fat[c] == 0 <==> forall p :: p in chains ==> c !in chains[p]))
  }

  lemma ThreadedIsForest(fat: seq<nat>, chains: Chains, tags: seq<Tag>)
    requires Threaded(fat, chains, tags)
    ensures Forest(fat, chains)
  {
    forall p | p in chains ensures IsChain(fat, chains[p]) {
      var last := |chains[p]| - 1;
      Follow(fat, chains[p], last);
      forall i | 0 <= i < last ensures fat[chains[p][i]] == chains[p][i + 1] {
        Follow(fat, chains[p], i);
      }
      forall i, j | 0 <= i < j < |chains[p]| ensures chains[p][i] != chains[p][j] {
        assert tags[chains[p][i]] != tags[chains[p][j]];
      }
    }
    forall p, q | p in chains && q in chains && p != q ensures Apart(chains[p], chains[q]) {
      forall i, j | 0 <= i < |chains[p]| && 0 <= j < |chains[q]| ensures chains[p][i] != chains[q][j] {
        assert tags[chains[p][i]] != tags[chains[q][j]];
      }
    }
    forall c | IsCluster(c) ensures fat[c] == 0 <==> forall p :: p in chains ==> c !in chains[p] {
      if tags[c].In? {
        assert c in chains[tags[c].head];
      }
    }
  }

  /** Only chain `p` has changed, and it has only grown at its end. */
  ghost predicate OnlyLonger(was: Chains, now: Chains, p: nat) {
    && p in was && now.Keys == was.Keys
    && was[p] <= now[p] && forall q :: q in was && q != p ==> now[q] == was[q]
  }

  /** A free cluster becomes a chain of its own. */
  lemma StartChain(fat: seq<nat>, chains: Chains, tags: seq<Tag>, c: nat)
    requires Threaded(fat, chains, tags) && IsCluster(c) && fat[c] == 0
    ensures c !in chains && |tags| == NUM_CLUSTERS
    ensures Threaded(fat[c := EOC], chains[c := [c]], tags[c := In(c, 0)])
  {
    assert tags[c].Free?;
    forall q | q in chains ensures tags[q] == In(q, 0) {
      assert chains[q][0] == q;
    }
    var chains' := chains[c := [c]];
    assert chains'[c][0] == c;
    assert forall q, i :: q in chains' && 0 <= i < |chains'[q]| && q != c ==> chains[q][i] == chains'[q][i] && chains[q][i] != c;
    assert forall x :: IsCluster(x) && tags[x].In? ==> tags[x].head != c;
  }

  lemma ExtendTags(chains: Chains, tags: seq<Tag>, p: nat, c: nat)
    requires TagsAre(tags, chains) && p in chains && IsCluster(c) && tags[c].Free?
    ensures TagsAre(tags[c := In(p, |chains[p]|)], chains[p := chains[p] + [c]])
  {
    assert forall q, i :: q in chains && 0 <= i < |chains[q]| ==> chains[q][i] != c;
  }

  /** A free cluster is linked behind the last one of chain `p`. */
  lemma ExtendChain(fat: seq<nat>, chains: Chains, tags: seq<Tag>, p: nat, c: nat)
    requires Threaded(fat, chains, tags) && p in chains && IsCluster(c) && fat[c] == 0
    ensures var last := chains[p][|chains[p]| - 1];
      Threaded(fat[c := EOC][last := c], chains[p := chains[p] + [c]], tags[c := In(p, |chains[p]|)])
  {
    var chain, n := chains[p], |chains[p]|;
    var last := chain[n - 1];
    assert tags[c].Free? && tags[last] == In(p, n - 1);
    ExtendTags(chains, tags, p, c);
    var fat', chains' := fat[c := EOC][last := c], chains[p := chain + [c]];
    forall q | q in chains' ensures LinkedBy(fat', chains'[q]) {
      forall i | 0 <= i < |chains'[q]| ensures IsCluster(chains'[q][i]) && fat'[chains'[q][i]] == Link(chains'[q], i) {
        if q != p || i < n {
          assert tags[chains[q][i]] == In(q, i);
          Follow(fat, chains[q], i);
        }
      }
    }
  }

  ghost function Untagged(tags: seq<Tag>, p: nat): (r: seq<Tag>)
    ensures |r| == |tags|
    ensures forall i :: 0 <= i < |tags| ==> r[i] == if tags[i].In? && tags[i].head == p then Free else tags[i]
  {
    seq(|tags|, i requires 0 <= i < |tags| => if tags[i].In? && tags[i].head == p then Free else tags[i])
  }

  lemma TaggedAre(chains: Chains, tags: seq<Tag>, p: nat)
    requires TagsAre(tags, chains) && p in chains
    ensures forall x :: IsCluster(x) ==> (tags[x].In? && tags[x].head == p <==> x in chains[p])
  {
  }

  /** Clearing every cluster of chain `p`, and nothing else, removes the chain. */
  lemma FreeChain(fat: seq<nat>, fat': seq<nat>, chains: Chains, tags: seq<Tag>, p: nat)
    requires Threaded(fat, chains, tags) && p in chains && |fat'| == NUM_CLUSTERS
    requires forall x :: IsCluster(x) ==> fat'[x] == if tags[x].In? && tags[x].head == p then 0 else fat[x]
    ensures Threaded(fat', chains - {p}, Untagged(tags, p))
  {
  }

  // ---------------------------------------------------------------- conservation of clusters

  ghost function FreeClusters(fat: seq<nat>): set<nat>
    requires |fat| == NUM_CLUSTERS
  {
    set c: nat | c < NUM_CLUSTERS && IsCluster(c) && fat[c] == 0
  }

  /** Marking a free cluster leaves the chains as they are, and takes it from the free ones. */
  lemma MarkedCluster(fat: seq<nat>, chains: Chains, tags: seq<Tag>, p: nat, c: nat)
    requires Threaded(fat, chains, tags) && p in chains && IsCluster(c) && fat[c] == 0
    ensures LinkedBy(fat[c := EOC], chains[p])
    ensures FreeClusters(fat[c := EOC]) == FreeClusters(fat) - {c} && c in FreeClusters(fat)
  {
    var chain := chains[p];
    forall i | 0 <= i < |chain| ensures IsCluster(chain[i]) && fat[c := EOC][chain[i]] == Link(chain, i) {
      Follow(fat, chain, i);
      assert tags[chain[i]] == In(p, i);
    }
  }

  lemma MarkedFree(fat: seq<nat>, c: nat)
    requires |fat| == NUM_CLUSTERS && IsCluster(c) && fat[c] == 0
    ensures |FreeClusters(fat[c := EOC])| == |FreeClusters(fat)| - 1 && c in FreeClusters(fat)
  {
    assert FreeClusters(fat[c := EOC]) == FreeClusters(fat) - {c};
  }

  /** Linking it behind a chain frees nothing and takes nothing more. */
  lemma LinkedCluster(fat: seq<nat>, chains: Chains, tags: seq<Tag>, p: nat, c: nat)
    requires Threaded(fat, chains, tags) && p in chains && IsCluster(c) && fat[c] == 0
    ensures var last := chains[p][|chains[p]| - 1];
      FreeClusters(fat[c := EOC][last := c]) == FreeClusters(fat) - {c}
  {
    var n := |chains[p]|;
    assert tags[chains[p][n - 1]] == In(p, n - 1);
  }

  ghost function TotalLength(chains: Chains): nat
    decreases |chains|
  {
    if chains == map[] then 0
    else
      var p :| p in chains;
      |chains[p]| + TotalLength(chains - {p})
  }

  ghost function TaggedBelow(tags: seq<Tag>, p: nat, n: nat): set<nat>
    requires |tags| == NUM_CLUSTERS
  {
    set c: nat | c < NUM_CLUSTERS && IsCluster(c) && tags[c].In? && tags[c].head == p && tags[c].index < n
  }

  /** A chain has as many clusters as it is long. */
  lemma {:induction false} ChainCount(chains: Chains, tags: seq<Tag>, p: nat, n: nat)
    requires TagsAre(tags, chains) && p in chains && n <= |chains[p]|
    ensures |TaggedBelow(tags, p, n)| == n
  {
    if n == 0 {
      assert TaggedBelow(tags, p, 0) == {};
    } else {
      ChainCount(chains, tags, p, n - 1);
      TaggedNext(chains, tags, p, n);
    }
  }

  lemma TaggedNext(chains: Chains, tags: seq<Tag>, p: nat, n: nat)
    requires TagsAre(tags, chains) && p in chains && 0 < n <= |chains[p]|
    ensures |TaggedBelow(tags, p, n)| == |TaggedBelow(tags, p, n - 1)| + 1
  {
    var c, below := chains[p][n - 1], TaggedBelow(tags, p, n - 1);
    assert tags[c] == In(p, n - 1);
    forall x | x in TaggedBelow(tags, p, n) ensures x in below + {c} {
      if x !in below {
        assert chains[p][tags[x].index] == x;
      }
    }
    assert TaggedBelow(tags, p, n) == below + {c};
  }

  ghost function TaggedClusters(tags: seq<Tag>): set<nat>
    requires |tags| == NUM_CLUSTERS
  {
    set c: nat | c < NUM_CLUSTERS && IsCluster(c) && tags[c].In?
  }

  lemma UntagTags(chains: Chains, tags: seq<Tag>, p: nat)
    requires TagsAre(tags, chains)
    ensures TagsAre(Untagged(tags, p), chains - {p})
  {
  }

  lemma TaggedSplit(chains: Chains, tags: seq<Tag>, p: nat)
    requires TagsAre(tags, chains) && p in chains
    ensures |TaggedClusters(tags)| == |TaggedBelow(tags, p, |chains[p]|)| + |TaggedClusters(Untagged(tags, p))|
  {
    var own, others := TaggedBelow(tags, p, |chains[p]|), TaggedClusters(Untagged(tags, p));
    assert TaggedClusters(tags) == own + others;
    assert own !! others;
  }

  lemma {:induction false} TaggedCount(chains: Chains, tags: seq<Tag>)
    requires TagsAre(tags, chains)
    ensures |TaggedClusters(tags)| == TotalLength(chains)
    decreases |chains|
  {
    if chains == map[] {
      assert TaggedClusters(tags) == {};
    } else {
      var p :| p in chains && TotalLength(chains) == |chains[p]| + TotalLength(chains - {p});
      ChainCount(chains, tags, p, |chains[p]|);
      UntagTags(chains, tags, p);
      TaggedCount(chains - {p}, Untagged(tags, p));
      TaggedSplit(chains, tags, p);
    }
  }

  ghost function DataClusters(below: nat): set<nat> {
    set c: nat | c < below && IsCluster(c)
  }

  lemma {:induction false} DataClusterCount(below: nat)
    requires FIRST_CLUSTER <= below <= NUM_CLUSTERS
    ensures |DataClusters(below)| == below - FIRST_CLUSTER
  {
    if below == FIRST_CLUSTER {
      assert DataClusters(below) == {};
    } else {
      DataClusterCount(below - 1);
      assert DataClusters(below) == DataClusters(below - 1) + {below - 1};
    }
  }

  lemma DataSplit(fat: seq<nat>, chains: Chains, tags: seq<Tag>)
    requires Threaded(fat, chains, tags)
    ensures DataClusters(NUM_CLUSTERS) == FreeClusters(fat) + TaggedClusters(tags)
    ensures FreeClusters(fat) !! TaggedClusters(tags)
  {
  }

  /** Free clusters and chain lengths always add up to the 123 data clusters. */
  lemma Conservation(fat: seq<nat>, chains: Chains, tags: seq<Tag>)
    requires Threaded(fat, chains, tags)
    ensures |FreeClusters(fat)| + TotalLength(chains) == 123
  {
    TaggedCount(chains, tags);
    DataClusterCount(NUM_CLUSTERS);
    DataSplit(fat, chains, tags);
  }

  /** No chain is longer than there are data clusters. */
  lemma ChainFits(chains: Chains, tags: seq<Tag>, p: nat)
    requires TagsAre(tags, chains) && p in chains
    ensures |chains[p]| <= NUM_CLUSTERS - FIRST_CLUSTER
  {
    var own, all := TaggedBelow(tags, p, |chains[p]|), DataClusters(NUM_CLUSTERS);
    ChainCount(chains, tags, p, |chains[p]|);
    DataClusterCount(NUM_CLUSTERS);
    assert all == own + (all - own);
  }

  lemma ChainOf(fat: seq<nat>, chains: Chains, tags: seq<Tag>, p: nat)
    requires Threaded(fat, chains, tags) && p in chains
    ensures |fat| == NUM_CLUSTERS && chains[p] != [] && chains[p][0] == p && LinkedBy(fat, chains[p])
    ensures TagsAre(tags, chains) && |chains[p]| < NUM_CLUSTERS && IsCluster(p) && tags[p] == In(p, 0)
  {
    ChainFits(chains, tags, p);
    assert IsCluster(chains[p][0]);
  }

  // ---------------------------------------------------------------- the bytes of a chain

  const DATA_SIZE := NUM_CLUSTERS * CLUSTER_SIZE

  /** Where byte `k` of a chain is stored. */
  function Place(c: Chain, k: nat): (x: int)
    requires k / CLUSTER_SIZE < |c|
    ensures Clusters(c) ==> 0 <= x < DATA_SIZE && x / CLUSTER_SIZE + FIRST_CLUSTER == c[k / CLUSTER_SIZE]
  {
    (c[k / CLUSTER_SIZE] - FIRST_CLUSTER) * CLUSTER_SIZE + k % CLUSTER_SIZE
  }

  /** The first `size` bytes of the clusters of a chain, in chain order. */
  ghost function FileBytes(data: seq<Byte>, c: Chain, size: nat): (s: seq<Byte>)
    requires |data| == DATA_SIZE && Clusters(c) && size <= |c| * CLUSTER_SIZE
    ensures |s| == size
    ensures forall k :: 0 <= k < size ==> s[k] == data[Place(c, k)]
  {
    seq(size, k requires 0 <= k < size => data[Place(c, k)])
  }

  /** The data area starts with cluster 2; clusters have 4096 bytes. */
  lemma ByteOfFile(data: seq<Byte>, c: Chain, size: nat, k: nat)
    requires |data| == 512000 && Clusters(c) && k < size <= |c| * 4096
    ensures var at := 4096 * (c[k / 4096] - 2) + k % 4096;
      0 <= at < 503808 && FileBytes(data, c, size)[k] == data[at]
  {
    assert IsCluster(c[k / 4096]);
  }

  /** `data` and `now` agree outside the clusters of chain `p`. */
  ghost predicate ChangedOnlyIn(data: seq<Byte>, now: seq<Byte>, tags: seq<Tag>, p: nat)
    requires |tags| == NUM_CLUSTERS
  {
    && |data| == |now| == DATA_SIZE
    && forall x :: 0 <= x < DATA_SIZE && now[x] != data[x] ==>
         var c := x / CLUSTER_SIZE + FIRST_CLUSTER; IsCluster(c) && tags[c].In? && tags[c].head == p
  }

  /** What is written into the clusters of `p` is invisible to every other file. */
  lemma OthersKept(data: seq<Byte>, now: seq<Byte>, chains: Chains, tags: seq<Tag>, p: nat, q: nat, size: nat)
    requires TagsAre(tags, chains) && q in chains && q != p && size <= |chains[q]| * CLUSTER_SIZE
    requires ChangedOnlyIn(data, now, tags, p)
    ensures FileBytes(now, chains[q], size) == FileBytes(data, chains[q], size)
  {
    forall k | 0 <= k < size ensures now[Place(chains[q], k)] == data[Place(chains[q], k)] {
      assert tags[chains[q][k / CLUSTER_SIZE]] == In(q, k / CLUSTER_SIZE);
    }
  }

  /** Lengthening a chain does not change the bytes it already had. */
  lemma LongerChain(data: seq<Byte>, c: Chain, more: Chain, size: nat)
    requires |data| == DATA_SIZE && Clusters(c) && Clusters(more) && size <= |c| * CLUSTER_SIZE && c <= more
    ensures FileBytes(data, more, size) == FileBytes(data, c, size)
  {
  }

  /** Position `intra` of cluster `i` of the chain. */
  lemma PlaceAt(c: Chain, i: nat, intra: nat)
    requires i < |c| && intra < CLUSTER_SIZE
    ensures var k := i * CLUSTER_SIZE + intra;
      k / CLUSTER_SIZE == i && k % CLUSTER_SIZE == intra && Place(c, k) == (c[i] - FIRST_CLUSTER) * CLUSTER_SIZE + intra
  {
  }

  // ---------------------------------------------------------------- writing through a chain

  /** `now` is `data` with `bytes` written into the chain of `p` from `offset` on, and nothing else changed. */
  ghost predicate Written(data: seq<Byte>, now: seq<Byte>, chains: Chains, tags: seq<Tag>, p: nat, offset: nat, bytes: seq<Byte>) {
    && TagsAre(tags, chains) && p in chains && Clusters(chains[p])
    && ChangedOnlyIn(data, now, tags, p)
    && forall k :: 0 <= k < |chains[p]| * CLUSTER_SIZE ==>
         now[Place(chains[p], k)] == if offset <= k < offset + |bytes| then bytes[k - offset] else data[Place(chains[p], k)]
  }

  lemma NothingWritten(data: seq<Byte>, chains: Chains, tags: seq<Tag>, p: nat, offset: nat)
    requires TagsAre(tags, chains) && p in chains && |data| == DATA_SIZE
    ensures Written(data, data, chains, tags, p, offset, [])
  {
  }

  /** `now` is `data` with `chunk` at `base`. */
  ghost predicate Patched(data: seq<Byte>, now: seq<Byte>, base: int, chunk: seq<Byte>) {
    && |data| == |now|
    && forall x :: 0 <= x < |data| ==> now[x] == if base <= x < base + |chunk| then chunk[x - base] else data[x]
  }

  /** Another byte of the chain lies in a chunk inside cluster `i` exactly when its position does. */
  lemma PlaceInChunk(chains: Chains, tags: seq<Tag>, p: nat, i: nat, intra: nat, n: nat, k: nat)
    requires TagsAre(tags, chains) && p in chains
    requires i < |chains[p]| && k / CLUSTER_SIZE < |chains[p]| && intra + n <= CLUSTER_SIZE
    ensures var c, o := chains[p], i * CLUSTER_SIZE + intra;
            var base := (c[i] - FIRST_CLUSTER) * CLUSTER_SIZE + intra;
      (base <= Place(c, k) < base + n <==> o <= k < o + n) && (o <= k < o + n ==> Place(c, k) - base == k - o)
  {
    var c, j := chains[p], k / CLUSTER_SIZE;
    assert tags[c[i]] == In(p, i) && tags[c[j]] == In(p, j);
    assert k == j * CLUSTER_SIZE + k % CLUSTER_SIZE;
    PlaceAt(c, j, k % CLUSTER_SIZE);
    if c[i] == c[j] {
      assert i == j;
    }
  }

  /** The first `n` bytes of `buf` are bytes `offset` to `offset + n` of the chain. */
  ghost predicate CopiedOut(data: seq<Byte>, buf: seq<Byte>, c: Chain, offset: nat, n: nat) {
    && |data| == DATA_SIZE && Clusters(c) && n <= |buf| && offset + n <= |c| * CLUSTER_SIZE
    && forall k :: 0 <= k < n ==> buf[k] == data[Place(c, offset + k)]
  }

  /** One `memcpy` of the read loop extends what has been copied by its chunk. */
  lemma CopyChunk(data: seq<Byte>, mid: seq<Byte>, now: seq<Byte>, c: Chain, offset: nat, done: nat, n: nat, i: nat, intra: nat)
    requires CopiedOut(data, mid, c, offset, done) && done + n <= |mid|
    requires i < |c| && offset + done == i * CLUSTER_SIZE + intra && intra + n <= CLUSTER_SIZE
    requires var base := (c[i] - FIRST_CLUSTER) * CLUSTER_SIZE + intra; Patched(mid, now, done, data[base..base + n])
    ensures CopiedOut(data, now, c, offset, done + n)
  {
    forall k | 0 <= k < done + n ensures now[k] == data[Place(c, offset + k)] {
      if done <= k {
        PlaceAt(c, i, intra + (k - done));
      }
    }
  }

  /** One `memcpy` of the write loop extends what has been written by its chunk. */
  lemma AppendChunk(data: seq<Byte>, mid: seq<Byte>, now: seq<Byte>, chains: Chains, tags: seq<Tag>, p: nat,
                    offset: nat, bytes: seq<Byte>, chunk: seq<Byte>, i: nat, intra: nat)
    requires Written(data, mid, chains, tags, p, offset, bytes)
    requires i < |chains[p]| && offset + |bytes| == i * CLUSTER_SIZE + intra && intra + |chunk| <= CLUSTER_SIZE
    requires Patched(mid, now, (chains[p][i] - FIRST_CLUSTER) * CLUSTER_SIZE + intra, chunk)
    ensures Written(data, now, chains, tags, p, offset, bytes + chunk)
  {
    var c, o := chains[p], offset + |bytes|;
    var base := (c[i] - FIRST_CLUSTER) * CLUSTER_SIZE + intra;
    forall k | 0 <= k < |c| * CLUSTER_SIZE
      ensures now[Place(c, k)] == if offset <= k < offset + |bytes + chunk| then (bytes + chunk)[k - offset] else data[Place(c, k)]
    {
      PlaceInChunk(chains, tags, p, i, intra, |chunk|, k);
    }
    assert tags[c[i]] == In(p, i);
    forall x | 0 <= x < DATA_SIZE && now[x] != data[x]
      ensures var cl := x / CLUSTER_SIZE + FIRST_CLUSTER; IsCluster(cl) && tags[cl].In? && tags[cl].head == p
    {
      if base <= x < base + |chunk| {
        assert x / CLUSTER_SIZE == c[i] - FIRST_CLUSTER;
      }
    }
  }
}
