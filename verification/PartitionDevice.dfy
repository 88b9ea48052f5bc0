/**
  Partition devices that share one parent block device.  Block addresses are 64-bit and block
  counts 32-bit unsigned; the range checks add them with wrap-around.  Whether the driver
  succeeds is an input of every request.
*/
module PartitionDevice {

  const WORD64 := 0x1_0000_0000_0000_0000
  const WORD32 := 0x1_0000_0000
  const EINVAL := 22
  const EIO := 5

  /** A request: read count blocks from lba, or write the given blocks there. */
  datatype Request<B> = Read(lba: nat, count: nat) | Write(lba: nat, data: seq<B>) {
    function Count(): (n: nat) {
      if Read? then count else |data|
    }

    /** The arguments fit their C types. */
    predicate Typed() {
      lba < WORD64 && Count() < WORD32
    }

    /** lba + count does not wrap around. */
    predicate Plain() {
      lba + Count() < WORD64
    }
  }

  /** The returned int, and the blocks read. */
  datatype Reply<B> = Reply(code: int, data: seq<B>)

  function Wrap64(x: nat): (r: nat) {
    x % WORD64
  }

  /** A uint32_t returned as an int. */
  function AsInt(count: nat): (code: int) {
    if count < WORD32 / 2 then count else count - WORD32
  }

  /** Blocks with data put over the ones from at on. */
  function Overwrite<B>(blocks: seq<B>, at: nat, data: seq<B>): (r: seq<B>)
    requires at + |data| <= |blocks|
    ensures |r| == |blocks|
  {
    blocks[..at] + data + blocks[at + |data|..]
  }

  /** A transfer that lies inside the blocks. */
  function Transfer<B>(blocks: seq<B>, r: Request<B>): (result: (seq<B>, Reply<B>))
    requires r.lba + r.Count() <= |blocks|
  {
    if r.Read? then (blocks, Reply(AsInt(r.count), blocks[r.lba..r.lba + r.count]))
    else (Overwrite(blocks, r.lba, r.data), Reply(AsInt(|r.data|), []))
  }

  /** AHCIBlockDevice: check the wrapped range, then ask the driver, which cannot leave the disk. */
  function ServeDevice<B>(blocks: seq<B>, r: Request<B>, ok: bool): (result: (seq<B>, Reply<B>)) {
    if Wrap64(r.lba + r.Count()) > |blocks| then (blocks, Reply(-EINVAL, []))
    else if !ok || r.lba + r.Count() > |blocks| then (blocks, Reply(-EIO, []))
    else Transfer(blocks, r)
  }

  /** start_lba and size_blocks of a partition. */
  datatype Partition = Partition(start: nat, size: nat)

  /** size_blocks of a GPT entry, whose last_lba is inclusive. */
  function GptPartition(first: nat, last: nat): (p: Partition)
    requires first < WORD64 && last < WORD64
  {
    Partition(first, Wrap64(WORD64 + last - first + 1))
  }

  function Move<B>(r: Request<B>, lba: nat): (r': Request<B>) {
    if r.Read? then Read(lba, r.count) else Write(lba, r.data)
  }

  /** PartitionedBlockDevice: check the wrapped range, translate, forward. */
  function ServePartition<B>(p: Partition, blocks: seq<B>, r: Request<B>, ok: bool): (result: (seq<B>, Reply<B>)) {
    if Wrap64(r.lba + r.Count()) > p.size then (blocks, Reply(-EINVAL, []))
    else ServeDevice(blocks, Move(r, Wrap64(p.start + r.lba)), ok)
  }

  // ---------------------------------------------------------------------------------
  // The devices
  // ---------------------------------------------------------------------------------

  class Device<B> {
    var blocks: seq<B>

    constructor (blocks: seq<B>)
      ensures this.blocks == blocks
    {
      this.blocks := blocks;
    }

    /**
      read_blocks and write_blocks.  Only a request that lies on the device and that the driver
      serves moves blocks, and then exactly those it names.
    */
    method Serve(r: Request<B>, ok: bool) returns (reply: Reply<B>)
      modifies this
      ensures (blocks, reply) == ServeDevice(old(blocks), r, ok)
      ensures |blocks| == |old(blocks)|
      ensures ok && r.lba + r.Count() <= |blocks| < WORD64 ==>
        && reply.code == AsInt(r.Count())
        && (forall k :: 0 <= k < |blocks| && (r.Read? || !(r.lba <= k < r.lba + r.Count())) ==>
              blocks[k] == old(blocks)[k])
        && (r.Read? ==> |reply.data| == r.count && forall k :: 0 <= k < r.count ==> reply.data[k] == blocks[r.lba + k])
        && (r.Write? ==> forall k :: 0 <= k < |r.data| ==> blocks[r.lba + k] == r.data[k])
      ensures !(ok && r.lba + r.Count() <= |blocks|) ==> blocks == old(blocks) && reply.code < 0
    {
      if Wrap64(r.lba + r.Count()) > |blocks| {
        return Reply(-EINVAL, []);
      }
      var success := ok && r.lba + r.Count() <= |blocks|;
      if !success {
        return Reply(-EIO, []);
      }
      match r
      case Read(lba, count) =>
        reply := Reply(AsInt(count), blocks[lba..lba + count]);
      case Write(lba, data) =>
        blocks := Overwrite(blocks, lba, data);
        reply := Reply(AsInt(|data|), []);
    }
  }

  datatype Stats = Stats(ops: nat, bytes: nat, errors: nat)

  /** The statistics after a forwarded request. */
  function Counted(s: Stats, code: int, blockSize: nat): (s': Stats) {
    if code > 0 then s.(ops := Wrap64(s.ops + 1), bytes := Wrap64(s.bytes + code * blockSize))
    else if code < 0 then s.(errors := Wrap64(s.errors + 1))
    else s
  }

  class PartitionedBlockDevice<B> {
    const parent: Device<B>
    const partition: Partition
    const blockSize: nat
    var readStats: Stats
    var writeStats: Stats

    constructor (parent: Device<B>, partition: Partition, blockSize: nat)
      ensures this.parent == parent && this.partition == partition && this.blockSize == blockSize
      ensures readStats == Stats(0, 0, 0) && writeStats == Stats(0, 0, 0)
    {
      this.parent, this.partition, this.blockSize := parent, partition, blockSize;
      readStats, writeStats := Stats(0, 0, 0), Stats(0, 0, 0);
    }

    /** read_blocks. */
    method ReadBlocks(lba: nat, count: nat, ok: bool) returns (reply: Reply<B>)
      modifies this, parent
      ensures (parent.blocks, reply) == ServePartition(partition, old(parent.blocks), Read(lba, count), ok)
      ensures writeStats == old(writeStats)
      ensures readStats == if Wrap64(lba + count) > partition.size then old(readStats)
                       else Counted(old(readStats), reply.code, blockSize)
    {
      if Wrap64(lba + count) > partition.size {
        return Reply(-EINVAL, []);
      }
      var parentLba := Wrap64(partition.start + lba);
      reply := parent.Serve(Read(parentLba, count), ok);
      readStats := Counted(readStats, reply.code, blockSize);
    }

    /** write_blocks. */
    method WriteBlocks(lba: nat, data: seq<B>, ok: bool) returns (reply: Reply<B>)
      modifies this, parent
      ensures (parent.blocks, reply) == ServePartition(partition, old(parent.blocks), Write(lba, data), ok)
      ensures readStats == old(readStats)
      ensures writeStats == if Wrap64(lba + |data|) > partition.size then old(writeStats)
                        else Counted(old(writeStats), reply.code, blockSize)
    {
      if Wrap64(lba + |data|) > partition.size {
        return Reply(-EINVAL, []);
      }
      var parentLba := Wrap64(partition.start + lba);
      reply := parent.Serve(Write(parentLba, data), ok);
      writeStats := Counted(writeStats, reply.code, blockSize);
    }
  }

  // ---------------------------------------------------------------------------------
  // Ranges
  // ---------------------------------------------------------------------------------

  lemma WrapMeans(x: nat)
    ensures x < WORD64 ==> Wrap64(x) == x
    ensures WORD64 <= x < 2 * WORD64 ==> Wrap64(x) == x - WORD64
  {}

  /** The partition lies on a device of n blocks. */
  predicate Fits(p: Partition, n: nat) {
    p.start + p.size <= n < WORD64
  }

  /**
    A request that passes the check is translated into the partition exactly when lba + count
    does not wrap.
  */
  lemma AcceptedStaysInsideIff<B>(p: Partition, n: nat, r: Request<B>)
    requires Fits(p, n) && r.Typed() && r.Count() > 0
    requires Wrap64(r.lba + r.Count()) <= p.size
    ensures var at := Wrap64(p.start + r.lba);
            p.start <= at && at + r.Count() <= p.start + p.size <==> r.Plain()
  {
    WrapMeans(r.lba + r.Count());
    WrapMeans(p.start + r.lba);
  }

  /** The last 64-bit address and one block: the sum wraps to 0, and the block is the one before. */
  lemma WrappedRequest<B>(p: Partition, r: Request<B>)
    requires 0 < p.start < WORD64 && r == Read(WORD64 - 1, 1)
    ensures Wrap64(r.lba + r.Count()) <= p.size && Wrap64(p.start + r.lba) == p.start - 1
  {
    WrapMeans(WORD64);
    WrapMeans(p.start + WORD64 - 1);
  }

  /** A GPT entry has last - first + 1 blocks unless it runs backwards or is the whole 64-bit range. */
  lemma GptSizeIff(first: nat, last: nat)
    requires first < WORD64 && last < WORD64
    ensures GptPartition(first, last).size == last - first + 1 <==> 0 <= last - first + 1 < WORD64
  {
    WrapMeans(WORD64 + last - first + 1);
  }

  // ---------------------------------------------------------------------------------
  // Isolation
  // ---------------------------------------------------------------------------------

  /** The blocks of a partition. */
  function View<B>(p: Partition, blocks: seq<B>): (view: seq<B>)
    requires p.start + p.size <= |blocks|
    ensures |view| == p.size
  {
    blocks[p.start..p.start + p.size]
  }

  /** A device of its own, without any wrap-around. */
  function ServePrivate<B>(own: seq<B>, r: Request<B>, ok: bool): (result: (seq<B>, Reply<B>)) {
    if r.lba + r.Count() > |own| then (own, Reply(-EINVAL, []))
    else if !ok then (own, Reply(-EIO, []))
    else Transfer(own, r)
  }

  predicate Apart(p: Partition, q: Partition) {
    p.start + p.size <= q.start || q.start + q.size <= p.start
  }

  /** What happened outside a partition: nothing. */
  ghost predicate SameOutside<B>(p: Partition, before: seq<B>, after: seq<B>) {
    && |after| == |before|
    && forall k :: 0 <= k < |before| && !(p.start <= k < p.start + p.size) ==> after[k] == before[k]
  }

  /** Without wrap-around a request that fits reaches the parent at the partition's start plus lba. */
  lemma ServedInside<B>(p: Partition, blocks: seq<B>, r: Request<B>, ok: bool)
    requires Fits(p, |blocks|) && r.Plain()
    ensures ServePartition(p, blocks, r, ok) ==
            if r.lba + r.Count() > p.size then (blocks, Reply(-EINVAL, []))
            else if !ok then (blocks, Reply(-EIO, []))
            else Transfer(blocks, Move(r, p.start + r.lba))
  {
    WrapMeans(r.lba + r.Count());
    if r.lba + r.Count() <= p.size {
      WrapMeans(p.start + r.lba);
      WrapMeans(p.start + r.lba + r.Count());
    }
  }

  /** A partition answers like a device of its own and leaves everything else alone. */
  lemma PartitionIsPrivate<B>(p: Partition, blocks: seq<B>, r: Request<B>, ok: bool)
    requires Fits(p, |blocks|) && r.Plain()
    ensures var (after, reply) := ServePartition(p, blocks, r, ok);
            && SameOutside(p, blocks, after)
            && (View(p, after), reply) == ServePrivate(View(p, blocks), r, ok)
  {
    ServedInside(p, blocks, r, ok);
    if ok && r.lba + r.Count() <= p.size {
      if r.Read? {
        ReadView(p, blocks, r.lba, r.count);
      } else {
        OverwriteView(p, blocks, r.lba, r.data);
      }
    }
  }

  lemma ReadView<B>(p: Partition, blocks: seq<B>, lba: nat, count: nat)
    requires p.start + p.size <= |blocks| && lba + count <= p.size
    ensures View(p, blocks)[lba..lba + count] == blocks[p.start + lba..p.start + lba + count]
  {
    var x, y := View(p, blocks)[lba..lba + count], blocks[p.start + lba..p.start + lba + count];
    assert |x| == |y| == count;
    forall k | 0 <= k < count
      ensures x[k] == y[k]
    {
      assert x[k] == View(p, blocks)[lba + k] == blocks[p.start + lba + k];
    }
  }

  lemma OverwriteView<B>(p: Partition, blocks: seq<B>, lba: nat, data: seq<B>)
    requires p.start + p.size <= |blocks| && lba + |data| <= p.size
    ensures View(p, Overwrite(blocks, p.start + lba, data)) == Overwrite(View(p, blocks), lba, data)
    ensures SameOutside(p, blocks, Overwrite(blocks, p.start + lba, data))
  {
    var after := Overwrite(blocks, p.start + lba, data);
    OverwriteAt(blocks, p.start + lba, data);
    OverwriteAt(View(p, blocks), lba, data);
    var x, y := View(p, after), Overwrite(View(p, blocks), lba, data);
    forall k | 0 <= k < p.size
      ensures x[k] == y[k]
    {
      assert x[k] == after[p.start + k];
      assert View(p, blocks)[k] == blocks[p.start + k];
    }
  }

  /** What an overwritten sequence holds at each place. */
  lemma OverwriteAt<B>(blocks: seq<B>, at: nat, data: seq<B>)
    requires at + |data| <= |blocks|
    ensures forall k :: 0 <= k < |blocks| ==>
      Overwrite(blocks, at, data)[k] == if at <= k < at + |data| then data[k - at] else blocks[k]
  {
    var r := Overwrite(blocks, at, data);
    forall k | 0 <= k < |blocks|
      ensures r[k] == if at <= k < at + |data| then data[k - at] else blocks[k]
    {
      if k < at {
        assert r[k] == blocks[..at][k];
      } else if k < at + |data| {
        assert r[k] == data[k - at];
      } else {
        assert r[k] == blocks[at + |data|..][k - at - |data|];
      }
    }
  }

  /** One step of a run: which partition, what request, whether the driver succeeds. */
  datatype Step<B> = Step(part: nat, request: Request<B>, ok: bool)

  ghost predicate ValidLayout(parts: seq<Partition>, n: nat) {
    && (forall i :: 0 <= i < |parts| ==> Fits(parts[i], n))
    && (forall i, j :: 0 <= i < j < |parts| ==> Apart(parts[i], parts[j]))
  }

  ghost predicate ValidRun<B>(parts: seq<Partition>, run: seq<Step<B>>) {
    forall k :: 0 <= k < |run| ==> run[k].part < |parts| && run[k].request.Plain()
  }

  /** The shared device under a run, and the replies. */
  function RunShared<B>(parts: seq<Partition>, blocks: seq<B>, run: seq<Step<B>>): (result: (seq<B>, seq<Reply<B>>))
    requires forall k :: 0 <= k < |run| ==> run[k].part < |parts|
    decreases |run|
  {
    if run == [] then (blocks, [])
    else
      var (after, reply) := ServePartition(parts[run[0].part], blocks, run[0].request, run[0].ok);
      var (final, replies) := RunShared(parts, after, run[1..]);
      (final, [reply] + replies)
  }

  /** Private devices under the same run. */
  function RunPrivate<B>(own: seq<seq<B>>, run: seq<Step<B>>): (result: (seq<seq<B>>, seq<Reply<B>>))
    requires forall k :: 0 <= k < |run| ==> run[k].part < |own|
    decreases |run|
  {
    if run == [] then (own, [])
    else
      var (after, reply) := ServePrivate(own[run[0].part], run[0].request, run[0].ok);
      var (final, replies) := RunPrivate(own[run[0].part := after], run[1..]);
      (final, [reply] + replies)
  }

  function Views<B>(parts: seq<Partition>, blocks: seq<B>): (views: seq<seq<B>>)
    requires forall i :: 0 <= i < |parts| ==> parts[i].start + parts[i].size <= |blocks|
  {
    seq(|parts|, i requires 0 <= i < |parts| => View(parts[i], blocks))
  }

  lemma StepIsPrivate<B>(parts: seq<Partition>, blocks: seq<B>, s: Step<B>)
    requires ValidLayout(parts, |blocks|)
    requires s.part < |parts| && s.request.Plain()
    ensures var (after, reply) := ServePartition(parts[s.part], blocks, s.request, s.ok);
            var views := Views(parts, blocks);
            var (own, reply') := ServePrivate(views[s.part], s.request, s.ok);
            |after| == |blocks| && reply == reply' && Views(parts, after) == views[s.part := own]
  {
    var p := parts[s.part];
    var (after, reply) := ServePartition(p, blocks, s.request, s.ok);
    PartitionIsPrivate(p, blocks, s.request, s.ok);
    forall i | 0 <= i < |parts| && i != s.part
      ensures View(parts[i], after) == View(parts[i], blocks)
    {
      if i < s.part {
        assert Apart(parts[i], parts[s.part]);
      } else {
        assert Apart(parts[s.part], parts[i]);
      }
      OtherView(p, parts[i], blocks, after);
    }
  }

  lemma OtherView<B>(p: Partition, q: Partition, before: seq<B>, after: seq<B>)
    requires SameOutside(p, before, after) && Apart(p, q)
    requires q.start + q.size <= |before|
    ensures View(q, after) == View(q, before)
  {}

  /**
    Over every interleaving of requests, partitions that do not overlap behave like private
    devices: the same replies, and in the end the same blocks.
  */
  lemma {:induction false} PartitionsAreIsolated<B>(parts: seq<Partition>, blocks: seq<B>, run: seq<Step<B>>)
    requires ValidLayout(parts, |blocks|) && ValidRun(parts, run)
    ensures var (final, replies) := RunShared(parts, blocks, run);
            var (own, replies') := RunPrivate(Views(parts, blocks), run);
            |final| == |blocks| && replies == replies' && Views(parts, final) == own
    decreases |run|
  {
    if run != [] {
      var (after, reply) := ServePartition(parts[run[0].part], blocks, run[0].request, run[0].ok);
      StepIsPrivate(parts, blocks, run[0]);
      PartitionsAreIsolated(parts, after, run[1..]);
    }
  }

  /** A negative answer to a request of fewer than 2^31 blocks means that nothing was changed or read. */
  lemma RejectedChangesNothing<B>(p: Partition, blocks: seq<B>, r: Request<B>, ok: bool)
    requires r.Count() < WORD32 / 2
    ensures var (after, reply) := ServePartition(p, blocks, r, ok);
            reply.code < 0 ==> after == blocks && reply.data == []
  {}

  /**
    A request answers with a negative number exactly when it does not fit the partition, the driver
    fails, or its count does not fit an int; in the first two cases nothing happens.
  */
  lemma NegativeIff<B>(p: Partition, blocks: seq<B>, r: Request<B>, ok: bool)
    requires Fits(p, |blocks|) && r.Typed() && r.Plain()
    ensures var (after, reply) := ServePartition(p, blocks, r, ok);
            var served := ok && r.lba + r.Count() <= p.size;
            && (reply.code < 0 <==> !served || r.Count() >= WORD32 / 2)
            && (!served ==> after == blocks && reply.data == [])
            && (served && r.Count() < 0x8000_0000 ==> reply.code == r.Count())
            && (!served ==> reply.code == if r.lba + r.Count() <= p.size then -5 else -22)
  {
    WrapMeans(r.lba + r.Count());
    if r.lba + r.Count() <= p.size {
      WrapMeans(p.start + r.lba);
      WrapMeans(p.start + r.lba + r.Count());
    }
  }

  /** What is left of a counter that does not overflow. */
  lemma CountsOn(x: nat, more: nat)
    requires x + more < WORD64
    ensures Wrap64(x + more) == x + more
  {}

  /**
    A request inside the partition is counted as one operation of its bytes when it is served, and
    as one error when the driver fails, until a counter is full.
  */
  lemma RequestsAreCounted<B>(p: Partition, blocks: seq<B>, r: Request<B>, ok: bool, s: Stats, blockSize: nat)
    requires Fits(p, |blocks|) && r.Typed() && r.lba + r.Count() <= p.size && 0 < r.Count() < 0x8000_0000
    requires s.ops + 1 < WORD64 && s.errors + 1 < WORD64 && s.bytes + r.Count() * blockSize < WORD64
    ensures Counted(s, ServePartition(p, blocks, r, ok).1.code, blockSize) ==
            if ok then Stats(s.ops + 1, s.bytes + r.Count() * blockSize, s.errors)
            else Stats(s.ops, s.bytes, s.errors + 1)
  {
    NegativeIff(p, blocks, r, ok);
    CountsOn(s.ops, 1);
    CountsOn(s.errors, 1);
    CountsOn(s.bytes, r.Count() * blockSize);
  }
}
