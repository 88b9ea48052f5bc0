/**
  The FAT reader: following cluster chains, reading a file along its chain, and unpacking the
  12-bit table.  The chain walk keeps no visited set, so that it ends is a theorem about the
  table it walks.
*/
module FatChain {

  datatype Kind = Fat12 | Fat16 | Fat32

  function BadCluster(kind: Kind): (c: nat) {
    match kind
    case Fat12 => 0xFF7
    case Fat16 => 0xFFF7
    case Fat32 => 0x0FFF_FFF7
  }

  predicate IsEndOfChain(kind: Kind, c: nat) {
    c >= match kind case Fat12 => 0xFF8 case Fat16 => 0xFFF8 case Fat32 => 0x0FFF_FFF8
  }

  predicate IsBadCluster(kind: Kind, c: nat) {
    c == BadCluster(kind)
  }

  /** Where build_cluster_chain stops. */
  predicate Stops(kind: Kind, c: nat) {
    IsEndOfChain(kind, c) || IsBadCluster(kind, c)
  }

  function Pow2(n: nat): (p: nat) {
    if n == 0 then 1 else 2 * Pow2(n - 1)
  }

  /** The bits of a table entry that number a cluster. */
  function Bits(kind: Kind): (bits: nat) {
    match kind case Fat12 => 12 case Fat16 => 16 case Fat32 => 28
  }

  /** The bad-cluster marker is the ninth value from the end. */
  lemma MarkersEndTheRange(kind: Kind)
    ensures Pow2(Bits(kind)) - 9 == BadCluster(kind)
  {
    assert Pow2(12) == 0x1000 && Pow2(16) == 0x1_0000 && Pow2(28) == 0x1000_0000;
  }

  /** The walk stops at the last nine values of an entry's bits, and beyond them, and nowhere else. */
  lemma StopsIff(kind: Kind, c: nat)
    ensures Stops(kind, c) <==> c >= Pow2(Bits(kind)) - 9
  {
    MarkersEndTheRange(kind);
  }

  /** get_type: a volume whose clusters are numbered with 16 bits is FAT12 when it has few of them. */
  function TypeOf(wide: bool, totalClusters: nat): (kind: Kind) {
    if wide then Fat32 else if totalClusters < 4085 then Fat12 else Fat16
  }

  /** create_filesystem: whether a volume's clusters are numbered with 32 bits. */
  predicate IsWide(totalClusters: nat) {
    totalClusters >= 65525
  }

  /** A volume of this type has the clusters 2 to totalClusters + 1, and the walk stops at none of them. */
  ghost predicate AllGoOn(kind: Kind, totalClusters: nat) {
    forall c :: 2 <= c <= totalClusters + 1 ==> !Stops(kind, c)
  }

  /** No cluster of a volume is taken for a marker, exactly when the markers lie behind the last one. */
  lemma GoOnIff(kind: Kind, totalClusters: nat)
    ensures AllGoOn(kind, totalClusters) <==> totalClusters == 0 || totalClusters + 1 < Pow2(Bits(kind)) - 9
  {
    MarkersEndTheRange(kind);
    assert totalClusters > 0 && AllGoOn(kind, totalClusters) ==> !Stops(kind, totalClusters + 1);
  }

  /** On a volume of the type chosen for its size, up to the 28 bits of a FAT32 entry, that is always so. */
  lemma MountedGoesOnIff(totalClusters: nat)
    ensures AllGoOn(TypeOf(IsWide(totalClusters), totalClusters), totalClusters) <==>
            totalClusters + 1 < 0x0FFF_FFF7
  {
    var kind := TypeOf(IsWide(totalClusters), totalClusters);
    GoOnIff(kind, totalClusters);
    MarkersEndTheRange(kind);
  }

  /** One cluster more, and the last one has the number of the bad-cluster marker. */
  lemma OneClusterTooMany()
    ensures !AllGoOn(TypeOf(IsWide(0x0FFF_FFF6), 0x0FFF_FFF6), 0x0FFF_FFF6)
  {
    MountedGoesOnIff(0x0FFF_FFF6);
  }

  /** The walk from start visits exactly the clusters of chain, inside the table, and then stops. */
  predicate IsChain(kind: Kind, fat: seq<nat>, start: nat, chain: seq<nat>)
    decreases |chain|
  {
    if chain == [] then Stops(kind, start)
    else
      && chain[0] == start
      && !Stops(kind, start)
      && start < |fat|
      && IsChain(kind, fat, fat[start], chain[1..])
  }

  /** build_cluster_chain, for a walk that ends inside the table. */
  method BuildClusterChain(kind: Kind, fat: seq<nat>, start: nat, ghost chain: seq<nat>) returns (clusters: seq<nat>)
    requires IsChain(kind, fat, start, chain)
    ensures clusters == chain
  {
    clusters := [];
    var current := start;
    ghost var rest := chain;
    while !IsEndOfChain(kind, current) && !IsBadCluster(kind, current)
      invariant IsChain(kind, fat, current, rest)
      invariant clusters + rest == chain
      decreases |rest|
    {
      clusters := clusters + [current];
      current := fat[current];
      rest := rest[1..];
    }
  }

  // ---------------------------------------------------------------------------------
  // Walks that end visit nothing twice
  // ---------------------------------------------------------------------------------

  predicate NoRepeats(chain: seq<nat>) {
    forall i, j :: 0 <= i < j < |chain| ==> chain[i] != chain[j]
  }

  /** The walk can be joined at any of its clusters. */
  lemma {:induction false} ChainFrom(kind: Kind, fat: seq<nat>, start: nat, chain: seq<nat>, k: nat)
    requires IsChain(kind, fat, start, chain) && k < |chain|
    ensures IsChain(kind, fat, chain[k], chain[k..])
    decreases k
  {
    if k > 0 {
      ChainFrom(kind, fat, fat[start], chain[1..], k - 1);
      assert chain[1..][k - 1..] == chain[k..];
    }
  }

  /** The start decides the chain. */
  lemma {:induction false} ChainIsUnique(kind: Kind, fat: seq<nat>, start: nat, a: seq<nat>, b: seq<nat>)
    requires IsChain(kind, fat, start, a) && IsChain(kind, fat, start, b)
    ensures a == b
    decreases |a|
  {
    if a != [] {
      ChainIsUnique(kind, fat, fat[start], a[1..], b[1..]);
      assert a == [a[0]] + a[1..] && b == [b[0]] + b[1..];
    }
  }

  lemma EndingWalkHasNoRepeats(kind: Kind, fat: seq<nat>, start: nat, chain: seq<nat>)
    requires IsChain(kind, fat, start, chain)
    ensures NoRepeats(chain)
  {
    forall i, j | 0 <= i < j < |chain|
      ensures chain[i] != chain[j]
    {
      if chain[i] == chain[j] {
        ChainFrom(kind, fat, start, chain, i);
        ChainFrom(kind, fat, start, chain, j);
        ChainIsUnique(kind, fat, chain[i], chain[i..], chain[j..]);
      }
    }
  }

  lemma {:induction false} ChainLinks(kind: Kind, fat: seq<nat>, start: nat, chain: seq<nat>, k: nat)
    requires IsChain(kind, fat, start, chain) && k < |chain|
    ensures chain[k] < |fat| && !Stops(kind, chain[k])
    ensures k > 0 ==> chain[k - 1] < |fat| && fat[chain[k - 1]] == chain[k]
    decreases k
  {
    if k > 0 {
      ChainLinks(kind, fat, fat[start], chain[1..], k - 1);
    }
  }

  // ---------------------------------------------------------------------------------
  // A well-formed table
  // ---------------------------------------------------------------------------------

  /**
    The clusters of `used` form files: each links inside `used` or holds an end or bad marker,
    and no two of them hold the same link.
  */
  ghost predicate WellFormed(kind: Kind, fat: seq<nat>, used: set<nat>) {
    && (forall c :: c in used ==> c < |fat| && !Stops(kind, c))
    && (forall c :: c in used ==> Stops(kind, fat[c]) || fat[c] in used)
    && (forall c, d :: c in used && d in used && fat[c] == fat[d] && !Stops(kind, fat[c]) ==> c == d)
  }

  /** A cluster no other cluster links to, as the first cluster of a file is. */
  ghost predicate IsHead(fat: seq<nat>, used: set<nat>, start: nat)
    requires forall c :: c in used ==> c < |fat|
  {
    start in used && forall c :: c in used ==> fat[c] != start
  }

  /** What the walk has seen after a while, all of it linked, and where it is. */
  ghost predicate Visited(fat: seq<nat>, used: set<nat>, start: nat, seen: seq<nat>, current: nat)
    requires forall c :: c in used ==> c < |fat|
  {
    && NoRepeats(seen)
    && (forall k :: 0 <= k < |seen| ==> seen[k] in used)
    && (forall k :: 0 < k < |seen| ==> fat[seen[k - 1]] == seen[k])
    && (if seen == [] then current == start else seen[0] == start && fat[seen[|seen| - 1]] == current)
  }

  /** The next cluster has not been seen: nobody else links to it. */
  lemma NextIsNew(kind: Kind, fat: seq<nat>, used: set<nat>, start: nat, seen: seq<nat>, current: nat)
    requires WellFormed(kind, fat, used) && IsHead(fat, used, start)
    requires Visited(fat, used, start, seen, current) && !Stops(kind, current)
    ensures current in used && current !in seen
  {
    if seen != [] {
      var last := seen[|seen| - 1];
      forall k | 0 <= k < |seen|
        ensures seen[k] != current
      {
        if k > 0 {
          var before := seen[k - 1];
          assert before in used && before != last && fat[before] == seen[k];
        }
      }
    }
  }

  lemma SeenAreFew(used: set<nat>, seen: seq<nat>)
    requires NoRepeats(seen)
    requires forall k :: 0 <= k < |seen| ==> seen[k] in used
    ensures |seen| <= |used|
    decreases |seen|
  {
    if seen != [] {
      var n := |seen| - 1;
      SeenAreFew(used - {seen[n]}, seen[..n]);
    }
  }

  /** In a well-formed table the walk from a head ends. */
  lemma {:induction false} WalkEnds(kind: Kind, fat: seq<nat>, used: set<nat>, start: nat, seen: seq<nat>, current: nat)
    returns (rest: seq<nat>)
    requires WellFormed(kind, fat, used) && IsHead(fat, used, start)
    requires Visited(fat, used, start, seen, current)
    ensures IsChain(kind, fat, current, rest)
    decreases |used| - |seen|
  {
    if Stops(kind, current) {
      rest := [];
    } else {
      NextIsNew(kind, fat, used, start, seen, current);
      SeenAreFew(used, seen + [current]);
      var tail := WalkEnds(kind, fat, used, start, seen + [current], fat[current]);
      rest := [current] + tail;
      assert rest[1..] == tail;
    }
  }

  /** Every head of a well-formed table has a chain, and it visits no cluster twice. */
  lemma ChainExists(kind: Kind, fat: seq<nat>, used: set<nat>, start: nat) returns (chain: seq<nat>)
    requires WellFormed(kind, fat, used) && IsHead(fat, used, start)
    ensures IsChain(kind, fat, start, chain)
    ensures NoRepeats(chain) && chain != []
    ensures forall k :: 0 <= k < |chain| ==> chain[k] in used
  {
    chain := WalkEnds(kind, fat, used, start, [], start);
    EndingWalkHasNoRepeats(kind, fat, start, chain);
    ChainStaysInside(kind, fat, used, start, chain);
  }

  lemma {:induction false} ChainStaysInside(kind: Kind, fat: seq<nat>, used: set<nat>, start: nat, chain: seq<nat>)
    requires WellFormed(kind, fat, used) && (Stops(kind, start) || start in used)
    requires IsChain(kind, fat, start, chain)
    ensures forall k :: 0 <= k < |chain| ==> chain[k] in used
    decreases |chain|
  {
    if chain != [] {
      ChainStaysInside(kind, fat, used, fat[start], chain[1..]);
      forall k | 0 <= k < |chain|
        ensures chain[k] in used
      {
        if k > 0 { assert chain[k] == chain[1..][k - 1]; }
      }
    }
  }

  /** Chains from two different heads share no cluster. */
  lemma {:induction false} ChainsAreDisjoint(kind: Kind, fat: seq<nat>, used: set<nat>, s: nat, t: nat,
                                             a: seq<nat>, b: seq<nat>, i: nat, j: nat)
    requires WellFormed(kind, fat, used) && IsHead(fat, used, s) && IsHead(fat, used, t) && s != t
    requires IsChain(kind, fat, s, a) && IsChain(kind, fat, t, b)
    requires i < |a| && j < |b|
    ensures a[i] != b[j]
    decreases i
  {
    ChainStaysInside(kind, fat, used, s, a);
    ChainStaysInside(kind, fat, used, t, b);
    ChainLinks(kind, fat, s, a, i);
    ChainLinks(kind, fat, t, b, j);
    if i > 0 && j > 0 {
      ChainsAreDisjoint(kind, fat, used, s, t, a, b, i - 1, j - 1);
    }
  }

  /** What the table holds for each cluster of a walk that ends. */
  lemma ChainNext(kind: Kind, fat: seq<nat>, start: nat, chain: seq<nat>, i: nat)
    requires IsChain(kind, fat, start, chain) && i < |chain|
    ensures chain[i] < |fat| && !Stops(kind, chain[i])
    ensures if i + 1 < |chain| then fat[chain[i]] == chain[i + 1] else Stops(kind, fat[chain[i]])
  {
    ChainLinks(kind, fat, start, chain, i);
    if i + 1 < |chain| {
      ChainLinks(kind, fat, start, chain, i + 1);
    } else {
      ChainFrom(kind, fat, start, chain, i);
    }
  }

  /** The clusters of a walk that ends are well-formed by themselves. */
  lemma ChainIsWellFormed(kind: Kind, fat: seq<nat>, start: nat, chain: seq<nat>, used: set<nat>)
    requires IsChain(kind, fat, start, chain) && chain != []
    requires used == set c | c in chain
    ensures WellFormed(kind, fat, used) && IsHead(fat, used, start)
  {
    EndingWalkHasNoRepeats(kind, fat, start, chain);
    forall c | c in used
      ensures c < |fat| && !Stops(kind, c) && (Stops(kind, fat[c]) || fat[c] in used) && fat[c] != start
    {
      var i :| 0 <= i < |chain| && chain[i] == c;
      ChainNext(kind, fat, start, chain, i);
      ChainNext(kind, fat, start, chain, 0);
    }
    forall c, d | c in used && d in used && fat[c] == fat[d] && !Stops(kind, fat[c])
      ensures c == d
    {
      var i :| 0 <= i < |chain| && chain[i] == c;
      var j :| 0 <= j < |chain| && chain[j] == d;
      ChainNext(kind, fat, start, chain, i);
      ChainNext(kind, fat, start, chain, j);
    }
    assert chain[0] in used;
  }

  ghost predicate WalkEndsFrom(kind: Kind, fat: seq<nat>, start: nat) {
    exists chain: seq<nat> :: IsChain(kind, fat, start, chain)
  }

  ghost predicate HeadsFile(kind: Kind, fat: seq<nat>, start: nat) {
    exists used: set<nat> :: WellFormed(kind, fat, used) && IsHead(fat, used, start)
  }

  /** The walk ends inside the table exactly when its start heads some well-formed set of clusters. */
  lemma WalkEndsIff(kind: Kind, fat: seq<nat>, start: nat)
    ensures WalkEndsFrom(kind, fat, start) <==> Stops(kind, start) || HeadsFile(kind, fat, start)
  {
    if Stops(kind, start) {
      assert IsChain(kind, fat, start, []);
    } else {
      if HeadsFile(kind, fat, start) {
        var used: set<nat> :| WellFormed(kind, fat, used) && IsHead(fat, used, start);
        var chain := ChainExists(kind, fat, used, start);
        assert IsChain(kind, fat, start, chain);
      }
      if WalkEndsFrom(kind, fat, start) {
        var chain: seq<nat> :| IsChain(kind, fat, start, chain);
        ChainIsWellFormed(kind, fat, start, chain, set c | c in chain);
      }
    }
  }

  /** A FAT12 table for one cluster, which links to itself: the walk from it never ends. */
  lemma CycleHasNoEnd()
    ensures !WalkEndsFrom(Fat12, [0xFF0, 0xFFF, 2], 2)
  {
    var fat: seq<nat> := [0xFF0, 0xFFF, 2];
    forall chain: seq<nat>
      ensures !IsChain(Fat12, fat, 2, chain)
    {
      if IsChain(Fat12, fat, 2, chain) {
        ChainIsUnique(Fat12, fat, 2, chain, chain[1..]);
        assert false;
      }
    }
  }

  /** build_cluster_chain on a well-formed table ends, without any chain being given. */
  method BuildFromHead(kind: Kind, fat: seq<nat>, start: nat, ghost used: set<nat>) returns (clusters: seq<nat>)
    requires WellFormed(kind, fat, used) && IsHead(fat, used, start)
    ensures IsChain(kind, fat, start, clusters) && NoRepeats(clusters)
    ensures forall k :: 0 <= k < |clusters| ==> clusters[k] in used
  {
    ghost var chain := ChainExists(kind, fat, used, start);
    clusters := BuildClusterChain(kind, fat, start, chain);
  }
}

/** Reading a file along its chain. */
module FatFile {
  import opened FatChain
  import opened Prelude

  const WORD32 := 0x1_0000_0000
  const WORD64 := 0x1_0000_0000_0000_0000
  /** seekg takes a signed offset and fails for a negative one. */
  const SEEK_LIMIT := 0x8000_0000_0000_0000

  /** What find_file gives: the first cluster and the size of a directory entry. */
  datatype Entry = Entry(firstCluster: nat, fileSize: nat)

  function Zeros(n: nat): (z: seq<bv8>)
    ensures |z| == n && forall k :: 0 <= k < n ==> z[k] == 0
  {
    seq(n, _ => 0)
  }

  function Min(a: nat, b: nat): (m: nat) {
    if a <= b then a else b
  }

  /** The first n bytes of s, or all of it. */
  function Prefix(s: seq<bv8>, n: nat): (p: seq<bv8>) {
    if n <= |s| then s[..n] else s
  }

  /** std::vector::resize: cut, or fill up with zeros. */
  function Resize(s: seq<bv8>, n: nat): (r: seq<bv8>)
    ensures |r| == n && forall k :: 0 <= k < n ==> r[k] == if k < |s| then s[k] else 0
  {
    if n <= |s| then s[..n] else s + Zeros(n - |s|)
  }

  lemma PrefixAppend(s: seq<bv8>, t: seq<bv8>, n: nat)
    ensures |Prefix(s, n)| <= n
    ensures Prefix(s + t, n) == Prefix(s, n) + t[..Min(|t|, n - |Prefix(s, n)|)]
  {}

  lemma ResizePrefix(s: seq<bv8>, n: nat)
    ensures Resize(Prefix(s, n), n) == Resize(s, n)
  {}

  lemma ResizeLonger(s: seq<bv8>, t: seq<bv8>, n: nat)
    requires s <= t
    requires n <= |s| || s == t
    ensures Resize(s, n) == Resize(t, n)
  {}

  lemma OneMoreTimes(n: int, b: int)
    ensures (n + 1) * b == n * b + b
  {}

  /** A negative index as a 64-bit word still counts backwards. */
  lemma FromBehind(d: nat, k: int, b: nat)
    requires 0 <= d + k * b < WORD64
    ensures (d + (WORD64 + k) * b) % WORD64 == d + k * b
  {
    assert (WORD64 + k) * b == WORD64 * b + k * b;
    WholeTurns(d + k * b, b);
  }

  lemma {:induction false} WholeTurns(x: nat, n: nat)
    requires x < WORD64
    ensures (x + WORD64 * n) % WORD64 == x
  {
    assert (x + WORD64 * n) / WORD64 == n;
  }

  class Volume {
    const kind: Kind
    const fat: seq<nat>
    const image: seq<bv8>
    const dataOffset: nat
    const bytesPerCluster: nat
    /** The stream's fail bit: once a read runs past the end, nothing more is read. */
    var failed: bool

    constructor (kind: Kind, fat: seq<nat>, image: seq<bv8>, dataOffset: nat, bytesPerCluster: nat)
      ensures this.kind == kind && this.fat == fat && this.image == image
      ensures this.dataOffset == dataOffset && this.bytesPerCluster == bytesPerCluster && !failed
    {
      this.kind, this.fat, this.image := kind, fat, image;
      this.dataOffset, this.bytesPerCluster := dataOffset, bytesPerCluster;
      failed := false;
    }

    /** cluster - 2 as a uint64_t: 16-bit numbers are widened first, 32-bit numbers wrap at 32 bits. */
    function Index(c: nat): (index: int) {
      if 2 <= c then c - 2 else if kind == Fat32 then WORD32 + c - 2 else WORD64 + c - 2
    }

    /** Where read_cluster seeks to, in 64-bit arithmetic. */
    function Seek(c: nat): (offset: nat) {
      (dataOffset + Index(c) * bytesPerCluster) % WORD64
    }

    /** The seek succeeds and the whole cluster is there. */
    predicate Inside(c: nat) {
      Seek(c) < SEEK_LIMIT && Seek(c) + bytesPerCluster <= |image|
    }

    predicate AllInside(chain: seq<nat>) {
      forall k :: 0 <= k < |chain| ==> Inside(chain[k])
    }

    /** The bytes of a cluster on the device. */
    function Cluster(c: nat): (data: seq<bv8>)
      requires Inside(c)
      ensures |data| == bytesPerCluster
    {
      image[Seek(c)..Seek(c) + bytesPerCluster]
    }

    /** The clusters of a chain one after the other. */
    function Chained(chain: seq<nat>): (data: seq<bv8>)
      requires AllInside(chain)
    {
      if chain == [] then []
      else
        var n := |chain| - 1;
        Chained(chain[..n]) + Cluster(chain[n])
    }

    /**
      Clusters lie one after the other from dataOffset on.  On FAT12 and FAT16 the numbers 0 and 1
      come to lie in front of it, where there is room.
    */
    lemma SeekMeans(c: nat)
      requires c < 2 ==> kind != Fat32
      requires 0 <= dataOffset + (c - 2) * bytesPerCluster < WORD64
      ensures Seek(c) == dataOffset + (c - 2) * bytesPerCluster
    {
      if c < 2 {
        FromBehind(dataOffset, c - 2, bytesPerCluster);
      }
    }

    /** The image from an offset on; nothing from its end on. */
    function From(offset: nat): (rest: seq<bv8>) {
      if offset <= |image| then image[offset..] else []
    }

    /**
      read_cluster: a buffer of zeros that the stream fills as far as it can.  A stream that has
      failed, or cannot seek so far, fills nothing; one that runs short has failed from then on.
    */
    method ReadCluster(c: nat) returns (data: seq<bv8>)
      modifies this
      ensures data == Resize(if old(failed) || Seek(c) >= SEEK_LIMIT then [] else From(Seek(c)), bytesPerCluster)
      ensures failed <==> old(failed) || Seek(c) >= SEEK_LIMIT || |From(Seek(c))| < bytesPerCluster
      ensures !old(failed) && Inside(c) ==> !failed && data == Cluster(c)
    {
      var offset := Seek(c);
      if failed || offset >= SEEK_LIMIT || offset > |image| {
        failed := failed || offset >= SEEK_LIMIT || bytesPerCluster > 0;
        data := Zeros(bytesPerCluster);
      } else {
        var available := Min(bytesPerCluster, |image| - offset);
        data := image[offset..offset + available] + Zeros(bytesPerCluster - available);
        failed := available < bytesPerCluster;
      }
    }

    lemma ChainedLast(chain: seq<nat>, k: nat)
      requires AllInside(chain) && k < |chain|
      ensures Chained(chain[..k + 1]) == Chained(chain[..k]) + Cluster(chain[k])
    {
      assert chain[..k + 1][..k] == chain[..k];
    }

    /**
      read_file on what find_file gives; `buffer` is what the caller's vector held.  A file
      without a first cluster leaves the vector as it was.
    */
    method ReadFile(entry: Option<Entry>, buffer: seq<bv8>, ghost chain: seq<nat>) returns (ok: bool, data: seq<bv8>)
      requires entry.Some? && entry.value.firstCluster != 0 ==> IsChain(kind, fat, entry.value.firstCluster, chain)
      modifies this
      ensures ok <==> entry.Some?
      ensures entry.None? || entry.value.firstCluster == 0 ==> data == buffer
      ensures entry.Some? && entry.value.firstCluster != 0 ==> |data| == entry.value.fileSize
      ensures entry.Some? && entry.value.firstCluster != 0 && !old(failed) ==>
        var needed := Needed(chain, entry.value.fileSize);
        AllInside(needed) ==> data == Resize(Chained(needed), entry.value.fileSize)
    {
      data := buffer;
      if entry.None? {
        return false, data;
      }
      ok := true;
      var size := entry.value.fileSize;
      if entry.value.firstCluster == 0 {
        return;
      }
      var clusters := BuildClusterChain(kind, fat, entry.value.firstCluster, chain);
      data := CopyClusters(clusters, size);
      ghost var needed := Needed(clusters, size);
      if AllInside(needed) {
        assert needed[..|needed|] == needed;
        ResizePrefix(Chained(needed), size);
      }
      data := Resize(data, size);
    }

    /** The clusters that the loop of read_file reads: enough for size bytes, and at least one. */
    function Needed(chain: seq<nat>, size: nat): (needed: seq<nat>)
      ensures needed <= chain
    {
      if chain == [] then []
      else if size <= bytesPerCluster then chain[..1]
      else chain[..1] + Needed(chain[1..], size - bytesPerCluster)
    }

    /** data is what the first k of the needed clusters give, cut off at size. */
    ghost predicate Gathered(needed: seq<nat>, k: nat, size: nat, data: seq<bv8>) {
      AllInside(needed) && k <= |needed| && data == Prefix(Chained(needed[..k]), size)
    }

    /** The first k clusters are needed, and then those for the bytes that are left. */
    predicate NeedsMore(needed: seq<nat>, clusters: seq<nat>, k: nat, left: nat) {
      k <= |clusters| && needed == clusters[..k] + Needed(clusters[k..], left)
    }

    lemma GatherNext(needed: seq<nat>, k: nat, size: nat, data: seq<bv8>, cluster: seq<bv8>)
      requires Gathered(needed, k, size, data) && k < |needed| && cluster == Cluster(needed[k])
      ensures |data| <= size
      ensures Gathered(needed, k + 1, size, data + cluster[..Min(bytesPerCluster, size - |data|)])
    {
      ChainedLast(needed, k);
      PrefixAppend(Chained(needed[..k]), Cluster(needed[k]), size);
    }

    /** The next cluster is needed; after it, either no more are or those for the bytes left. */
    lemma NeedNext(needed: seq<nat>, clusters: seq<nat>, k: nat, left: nat)
      requires NeedsMore(needed, clusters, k, left) && k < |clusters|
      ensures if left <= bytesPerCluster then needed == clusters[..k + 1]
              else NeedsMore(needed, clusters, k + 1, left - bytesPerCluster)
    {
      assert clusters[k..][1..] == clusters[k + 1..];
      assert clusters[..k + 1] == clusters[..k] + [clusters[k]];
    }

    lemma NeededAt(needed: seq<nat>, clusters: seq<nat>, k: nat, left: nat)
      requires NeedsMore(needed, clusters, k, left) && k < |clusters|
      ensures k < |needed| && needed[k] == clusters[k]
    {}

    /** One round of the copying loop. */
    method CopyNext(clusters: seq<nat>, k: nat, size: nat, data: seq<bv8>, ghost needed: seq<nat>)
      returns (data': seq<bv8>)
      requires k < |clusters| && |data| <= size && NeedsMore(needed, clusters, k, size - |data|)
      modifies this
      ensures |data'| == |data| + Min(bytesPerCluster, size - |data|)
      ensures !old(failed) && Gathered(needed, k, size, data) ==> !failed && Gathered(needed, k + 1, size, data')
    {
      NeededAt(needed, clusters, k, size - |data|);
      var clusterData := ReadCluster(clusters[k]);
      var copySize := Min(bytesPerCluster, size - |data|);
      if !old(failed) && Gathered(needed, k, size, data) {
        GatherNext(needed, k, size, data, clusterData);
      }
      data' := data + clusterData[..copySize];
    }

    /** The copying loop of read_file. */
    method CopyClusters(clusters: seq<nat>, size: nat) returns (data: seq<bv8>)
      modifies this
      ensures |data| <= size
      ensures var needed := Needed(clusters, size);
              !old(failed) && AllInside(needed) ==> Gathered(needed, |needed|, size, data)
    {
      data := [];
      ghost var needed := Needed(clusters, size);
      ghost var good := !failed && Gathered(needed, 0, size, []);
      var k := 0;
      assert clusters[0..] == clusters && clusters[..0] + needed == needed;
      while k < |clusters|
        invariant 0 <= k <= |clusters| && |data| <= size
        invariant NeedsMore(needed, clusters, k, size - |data|)
        invariant good ==> !failed && Gathered(needed, k, size, data)
      {
        NeedNext(needed, clusters, k, size - |data|);
        data := CopyNext(clusters, k, size, data, needed);
        k := k + 1;
        if |data| >= size {
          return;
        }
      }
      assert needed == clusters[..k] + [];
    }

    /** The needed clusters hold the same first size bytes as the whole chain, if that is all there. */
    lemma NeededIsEnough(chain: seq<nat>, size: nat)
      requires AllInside(chain)
      ensures AllInside(Needed(chain, size))
      ensures Resize(Chained(Needed(chain, size)), size) == Resize(Chained(chain), size)
    {
      var needed := Needed(chain, size);
      ChainedPrefix(chain, |needed|);
      EnoughOrAll(chain, size);
      ChainedLength(needed);
      assert chain[..|needed|] == needed;
      ResizeLonger(Chained(needed), Chained(chain), size);
    }

    lemma {:induction false} EnoughOrAll(chain: seq<nat>, size: nat)
      ensures Needed(chain, size) == chain || |Needed(chain, size)| * bytesPerCluster >= size
      decreases |chain|
    {
      if chain != [] && size > bytesPerCluster {
        EnoughOrAll(chain[1..], size - bytesPerCluster);
        OneMoreTimes(|Needed(chain[1..], size - bytesPerCluster)|, bytesPerCluster);
      }
    }

    lemma {:induction false} ChainedLength(chain: seq<nat>)
      requires AllInside(chain)
      ensures |Chained(chain)| == |chain| * bytesPerCluster
      decreases |chain|
    {
      if chain != [] {
        var n := |chain| - 1;
        ChainedLength(chain[..n]);
        OneMoreTimes(n, bytesPerCluster);
      }
    }

    /** The bytes of the first k clusters come first. */
    /** Cluster k of a chain stands at k times the size of a cluster. */
    lemma ChainedAt(chain: seq<nat>, k: nat)
      requires AllInside(chain) && k < |chain|
      ensures var at := k * bytesPerCluster;
              at + bytesPerCluster <= |Chained(chain)|
              && Chained(chain)[at..at + bytesPerCluster] == Cluster(chain[k])
    {
      ChainedLength(chain[..k]);
      ChainedLast(chain, k);
      ChainedPrefix(chain, k + 1);
    }

    lemma {:induction false} ChainedPrefix(chain: seq<nat>, k: nat)
      requires AllInside(chain) && k <= |chain|
      ensures Chained(chain[..k]) <= Chained(chain)
      decreases |chain|
    {
      if k < |chain| {
        var n := |chain| - 1;
        ChainedPrefix(chain[..n], k);
        assert chain[..n][..k] == chain[..k];
      } else {
        assert chain[..k] == chain;
      }
    }
  }
}

/** The packed 12-bit table. */
module Fat12Table {

  function Even(lo: bv8, hi: bv8): (entry: bv16) {
    (lo as bv16) | (((hi & 0x0F) as bv16) << 8)
  }

  function Odd(lo: bv8, hi: bv8): (entry: bv16) {
    ((lo >> 4) as bv16) | ((hi as bv16) << 4)
  }

  /** Entry i as read_fat takes it from the bytes at i * 3 / 2. */
  function Entry(bytes: seq<bv8>, i: nat): (entry: bv16)
    requires i * 3 / 2 + 1 < |bytes|
  {
    var at := i * 3 / 2;
    if i % 2 == 0 then Even(bytes[at], bytes[at + 1]) else Odd(bytes[at], bytes[at + 1])
  }

  /** The FAT12 branch of read_fat. */
  method ReadFat12(bytes: seq<bv8>, n: nat) returns (fat: seq<bv16>)
    requires n > 0 ==> (n - 1) * 3 / 2 + 1 < |bytes|
    ensures |fat| == n
    ensures forall i :: 0 <= i < n ==> fat[i] == Entry(bytes, i)
  {
    fat := [];
    for i := 0 to n
      invariant |fat| == i
      invariant forall k :: 0 <= k < i ==> fat[k] == Entry(bytes, k)
    {
      var at := i * 3 / 2;
      if i % 2 == 0 {
        fat := fat + [(bytes[at] as bv16) | (((bytes[at + 1] & 0x0F) as bv16) << 8)];
      } else {
        fat := fat + [((bytes[at] >> 4) as bv16) | ((bytes[at + 1] as bv16) << 4)];
      }
    }
  }

  /** The three bytes two 12-bit entries share, as the FAT format lays them out. */
  function PackPair(a: bv16, b: bv16): (bytes: seq<bv8>)
    ensures |bytes| == 3
  {
    [(a & 0xFF) as bv8, (((a >> 8) & 0x0F) | ((b & 0x0F) << 4)) as bv8, ((b >> 4) & 0xFF) as bv8]
  }

  function Pack(entries: seq<bv16>): (bytes: seq<bv8>)
    ensures |bytes| == (|entries| + 1) / 2 * 3
  {
    if entries == [] then []
    else if |entries| == 1 then PackPair(entries[0], 0)
    else PackPair(entries[0], entries[1]) + Pack(entries[2..])
  }

  lemma UnpackFirst(a: bv16, b: bv16)
    requires a < 0x1000
    ensures Even((a & 0xFF) as bv8, (((a >> 8) & 0x0F) | ((b & 0x0F) << 4)) as bv8) == a
  {}

  lemma UnpackSecond(a: bv16, b: bv16)
    requires b < 0x1000
    ensures Odd((((a >> 8) & 0x0F) | ((b & 0x0F) << 4)) as bv8, ((b >> 4) & 0xFF) as bv8) == b
  {}

  /** Unpacking gives back every 12-bit entry that was packed. */
  lemma {:induction false} UnpackPacked(entries: seq<bv16>, i: nat)
    requires i < |entries|
    requires forall k :: 0 <= k < |entries| ==> entries[k] < 0x1000
    ensures Entry(Pack(entries), i) == entries[i]
    decreases i
  {
    if i == 0 {
      UnpackFirst(entries[0], if |entries| == 1 then 0 else entries[1]);
    } else if i == 1 {
      UnpackSecond(entries[0], entries[1]);
    } else {
      UnpackPacked(entries[2..], i - 2);
      SkipPair(PackPair(entries[0], entries[1]), Pack(entries[2..]), i);
    }
  }

  lemma SkipPair(pair: seq<bv8>, rest: seq<bv8>, i: nat)
    requires |pair| == 3 && 2 <= i && (i - 2) * 3 / 2 + 1 < |rest|
    ensures Entry(pair + rest, i) == Entry(rest, i - 2)
  {
    assert i * 3 / 2 == (i - 2) * 3 / 2 + 3;
  }
}
