/**
  The dynamic linker's _malloc: first fit over a list of 4096-byte pages, never freeing.

  `unit` is sizeof(void*) * 2, that is 16 on 64-bit and 8 on 32-bit targets; it is both the
  allocation granule and the size of the two words in front of a page's data area.
*/
module PageHeap {
  import opened Prelude

  predicate ValidUnit(unit: nat) {
    unit == 8 || unit == 16
  }

  /** x % unit, for the two units there are. */
  function Rem(unit: nat, x: int): (r: nat) {
    if unit == 8 then x % 8 else x % 16
  }

  /** sizeof(heap->data). */
  function DataSize(unit: nat): (size: int) {
    4096 - unit
  }

  /** A returned pointer: the page it lies in, its offset into the data area, the bytes reserved. */
  datatype Block = Block(page: nat, offset: int, size: nat)

  /** A call: the requested length, and whether mmap would succeed. */
  datatype Request = Request(length: nat, mapped: bool)

  /** The rounding at the head of _malloc. */
  function RoundUp(unit: nat, l: nat): (r: nat)
    requires ValidUnit(unit)
  {
    if Rem(unit, l) != 0 then l + unit - Rem(unit, l + unit) else l
  }

  /** RoundUp is the least multiple of the unit that is not below l, and never leaves the data area. */
  lemma RoundUpMeans(unit: nat, l: nat)
    requires ValidUnit(unit)
    ensures Rem(unit, RoundUp(unit, l)) == 0
    ensures l <= RoundUp(unit, l) < l + unit
    ensures l <= DataSize(unit) ==> RoundUp(unit, l) <= DataSize(unit)
  {
    if unit == 8 { RoundUp8(l / 8, l % 8); } else { RoundUp16(l / 16, l % 16); }
  }

  lemma Rem8(q: int, r: int)
    requires 0 <= r < 8
    ensures (8 * q + r) % 8 == r
  {}

  lemma Rem16(q: int, r: int)
    requires 0 <= r < 16
    ensures (16 * q + r) % 16 == r
  {}

  lemma RoundUp8(q: nat, r: nat)
    requires r < 8
    ensures RoundUp(8, 8 * q + r) == if r == 0 then 8 * q else 8 * (q + 1)
    ensures Rem(8, RoundUp(8, 8 * q + r)) == 0
  {
    Rem8(q, r);
    Rem8(q + 1, r);
    Rem8(q, 0);
    Rem8(q + 1, 0);
  }

  lemma RoundUp16(q: nat, r: nat)
    requires r < 16
    ensures RoundUp(16, 16 * q + r) == if r == 0 then 16 * q else 16 * (q + 1)
    ensures Rem(16, RoundUp(16, 16 * q + r)) == 0
  {
    Rem16(q, r);
    Rem16(q + 1, r);
    Rem16(q, 0);
    Rem16(q + 1, 0);
  }

  /** The first page with at least l bytes left, or the number of pages. */
  function FirstFit(pages: seq<nat>, l: nat): (p: nat)
    ensures p <= |pages|
    ensures p < |pages| ==> pages[p] >= l
    ensures forall q :: 0 <= q < p ==> pages[q] < l
  {
    if pages == [] || pages[0] >= l then 0 else 1 + FirstFit(pages[1..], l)
  }

  /** Hand out the next l bytes of page p. */
  function Take(unit: nat, pages: seq<nat>, p: nat, l: nat): (result: (seq<nat>, Option<Block>))
    requires p < |pages| && l <= pages[p]
  {
    (pages[p := pages[p] - l], Some(Block(p, DataSize(unit) - pages[p], l)))
  }

  /** The heap as a value: the bytes left in each page, and the answer of one call. */
  function Allocate(unit: nat, pages: seq<nat>, r: Request): (result: (seq<nat>, Option<Block>))
    requires ValidUnit(unit)
  {
    if r.length > DataSize(unit) then (pages, None)
    else
      var l := RoundUp(unit, r.length);
      var p := FirstFit(pages, l);
      if p == |pages| && !r.mapped then (pages, None)
      else
        RoundUpMeans(unit, r.length);
        Take(unit, if p == |pages| then pages + [DataSize(unit)] else pages, p, l)
  }

  lemma FirstFitIs(pages: seq<nat>, l: nat, p: nat)
    requires p <= |pages|
    requires forall q :: 0 <= q < p ==> pages[q] < l
    requires p < |pages| ==> pages[p] >= l
    ensures p == FirstFit(pages, l)
  {
  }

  /**
    A call is answered with a block exactly if the request fits a data area, and either a page has
    room for it or another one can be mapped.  A page is mapped only if no page has room.
  */
  lemma AnswersIff(unit: nat, pages: seq<nat>, r: Request)
    requires ValidUnit(unit)
    ensures var (pages', block) := Allocate(unit, pages, r);
            var fits := exists q :: 0 <= q < |pages| && pages[q] >= RoundUp(unit, r.length);
            && (block.Some? <==> r.length <= 4096 - unit && (fits || r.mapped))
            && |pages'| == (if block.Some? && !fits then |pages| + 1 else |pages|)
            && (block.None? ==> pages' == pages)
  {
    var p := FirstFit(pages, RoundUp(unit, r.length));
    assert p < |pages| ==> pages[p] >= RoundUp(unit, r.length);
  }

  /** The rounding steps of _malloc. */
  method Round(unit: nat, l: nat) returns (r: nat)
    requires ValidUnit(unit) && l <= DataSize(unit)
    ensures r == RoundUp(unit, l) <= DataSize(unit)
  {
    RoundUpMeans(unit, l);
    r := l;
    if Rem(unit, r) != 0 {
      r := r + unit;
      r := r - Rem(unit, r);
    }
  }

  class Heap {
    const unit: nat
    var pages: seq<nat>

    constructor (unit: nat)
      requires ValidUnit(unit)
      ensures this.unit == unit && pages == []
    {
      this.unit := unit;
      pages := [];
    }

    /** _malloc. */
    method Malloc(r: Request) returns (block: Option<Block>)
      requires ValidUnit(unit)
      modifies this
      ensures (pages, block) == Allocate(unit, old(pages), r)
      ensures block.Some? ==> r.length <= block.value.size < r.length + unit
    {
      RoundUpMeans(unit, r.length);
      var l := r.length;
      if l > DataSize(unit) {
        return None;
      }
      l := Round(unit, l);
      var p := 0;
      while p < |pages| && pages[p] < l
        invariant 0 <= p <= |pages|
        invariant forall q :: 0 <= q < p ==> pages[q] < l
      {
        p := p + 1;
      }
      FirstFitIs(pages, l, p);
      if p == |pages| {
        if !r.mapped {
          return None;
        }
        pages := pages + [DataSize(unit)];
      }
      if l <= pages[p] {
        block := Some(Block(p, DataSize(unit) - pages[p], l));
        pages := pages[p := pages[p] - l];
      } else {
        // can't happen
        assert false;
      }
    }
  }

  // ---------------------------------------------------------------------------------
  // Runs
  // ---------------------------------------------------------------------------------

  /** The pages and the blocks handed out after a run of calls on an empty heap. */
  function Run(unit: nat, calls: seq<Request>): (result: (seq<nat>, seq<Block>))
    requires ValidUnit(unit)
  {
    if calls == [] then ([], [])
    else
      var n := |calls| - 1;
      var (pages, blocks) := Run(unit, calls[..n]);
      var (pages', block) := Allocate(unit, pages, calls[n]);
      (pages', if block.Some? then blocks + [block.value] else blocks)
  }

  function Used(blocks: seq<Block>, page: nat): (bytes: nat) {
    if blocks == [] then 0
    else
      var n := |blocks| - 1;
      Used(blocks[..n], page) + (if blocks[n].page == page then blocks[n].size else 0)
  }

  /** The block lies in the part of its page's data area that has been handed out, on a granule. */
  predicate Placed(unit: nat, pages: seq<nat>, b: Block)
    requires ValidUnit(unit)
  {
    && b.page < |pages|
    && 0 <= b.offset
    && b.offset + b.size <= DataSize(unit) - pages[b.page]
    && Rem(unit, b.offset) == 0
    && Rem(unit, b.size) == 0
  }

  predicate Apart(a: Block, b: Block) {
    a.page != b.page || a.offset + a.size <= b.offset || b.offset + b.size <= a.offset
  }

  ghost predicate Consistent(unit: nat, pages: seq<nat>, blocks: seq<Block>)
    requires ValidUnit(unit)
  {
    && (forall p :: 0 <= p < |pages| ==>
          pages[p] <= DataSize(unit) && Rem(unit, pages[p]) == 0 && Used(blocks, p) == DataSize(unit) - pages[p])
    && (forall p: nat :: |pages| <= p ==> Used(blocks, p) == 0)
    && (forall i :: 0 <= i < |blocks| ==> Placed(unit, pages, blocks[i]))
    && (forall i, j :: 0 <= i < j < |blocks| ==> Apart(blocks[i], blocks[j]))
  }

  lemma UsedAppend(blocks: seq<Block>, b: Block, page: nat)
    ensures Used(blocks + [b], page) == Used(blocks, page) + (if b.page == page then b.size else 0)
  {
    assert (blocks + [b])[..|blocks|] == blocks;
  }

  lemma GranuleFacts(unit: nat, x: nat, l: nat)
    requires ValidUnit(unit)
    requires Rem(unit, x) == 0 && Rem(unit, l) == 0 && l <= x <= DataSize(unit)
    ensures Rem(unit, x - l) == 0 && Rem(unit, DataSize(unit) - x) == 0
  {
    if unit == 8 {
      Rem8(x / 8 - l / 8, 0);
      Rem8(511 - x / 8, 0);
    } else {
      Rem16(x / 16 - l / 16, 0);
      Rem16(255 - x / 16, 0);
    }
  }

  /** Handing out the next l bytes of page p. */
  lemma TakeKeeps(unit: nat, pages: seq<nat>, blocks: seq<Block>, p: nat, l: nat)
    requires ValidUnit(unit) && Consistent(unit, pages, blocks)
    requires p < |pages| && l <= pages[p] && Rem(unit, l) == 0
    ensures var (pages', block) := Take(unit, pages, p, l);
            Consistent(unit, pages', blocks + [block.value])
  {
    var b := Block(p, DataSize(unit) - pages[p], l);
    var pages' := pages[p := pages[p] - l];
    GranuleFacts(unit, pages[p], l);
    forall q: nat
      ensures Used(blocks + [b], q) == Used(blocks, q) + (if q == p then l else 0)
    {
      UsedAppend(blocks, b, q);
    }
    forall i | 0 <= i < |blocks|
      ensures Placed(unit, pages', blocks[i]) && Apart(blocks[i], b)
    {
      assert Placed(unit, pages, blocks[i]);
    }
    assert Placed(unit, pages', b);
  }

  /** A fresh page. */
  lemma MapKeeps(unit: nat, pages: seq<nat>, blocks: seq<Block>)
    requires ValidUnit(unit) && Consistent(unit, pages, blocks)
    ensures Consistent(unit, pages + [DataSize(unit)], blocks)
  {
    forall i | 0 <= i < |blocks|
      ensures Placed(unit, pages + [DataSize(unit)], blocks[i])
    {
      assert Placed(unit, pages, blocks[i]);
    }
  }

  lemma AllocateKeeps(unit: nat, pages: seq<nat>, blocks: seq<Block>, r: Request)
    requires ValidUnit(unit) && Consistent(unit, pages, blocks)
    ensures var (pages', block) := Allocate(unit, pages, r);
            Consistent(unit, pages', if block.Some? then blocks + [block.value] else blocks)
  {
    var (pages', block) := Allocate(unit, pages, r);
    if block.Some? {
      var l := RoundUp(unit, r.length);
      var p := FirstFit(pages, l);
      RoundUpMeans(unit, r.length);
      if p == |pages| {
        MapKeeps(unit, pages, blocks);
        TakeKeeps(unit, pages + [DataSize(unit)], blocks, p, l);
      } else {
        TakeKeeps(unit, pages, blocks, p, l);
      }
    }
  }

  lemma {:induction false} RunIsConsistent(unit: nat, calls: seq<Request>)
    requires ValidUnit(unit)
    ensures var (pages, blocks) := Run(unit, calls); Consistent(unit, pages, blocks)
    decreases |calls|
  {
    if calls != [] {
      var n := |calls| - 1;
      RunIsConsistent(unit, calls[..n]);
      var (pages, blocks) := Run(unit, calls[..n]);
      AllocateKeeps(unit, pages, blocks, calls[n]);
    }
  }

  /** Address of a block, given where its page was mapped. */
  function Address(unit: nat, b: Block, pageAddress: nat -> nat): (a: int) {
    pageAddress(b.page) + unit + b.offset
  }

  /**
    Over every run: each block lies inside its page's data area, is aligned to two pointers
    (pages are mapped on page boundaries), and two blocks never share a byte.
  */
  lemma BlocksNeverOverlap(unit: nat, calls: seq<Request>, pageAddress: nat -> nat, i: nat, j: nat)
    requires ValidUnit(unit)
    requires forall p :: pageAddress(p) % 4096 == 0
    requires forall p, q :: p != q ==> pageAddress(p) != pageAddress(q)
    requires i < |Run(unit, calls).1| && j < |Run(unit, calls).1|
    ensures var b := Run(unit, calls).1[i];
            var base := pageAddress(b.page);
            && base + unit <= Address(unit, b, pageAddress)
            && Address(unit, b, pageAddress) + b.size <= base + 4096
            && Rem(unit, Address(unit, b, pageAddress)) == 0
    ensures var a, b := Run(unit, calls).1[i], Run(unit, calls).1[j];
            i != j ==>
              || Address(unit, a, pageAddress) + a.size <= Address(unit, b, pageAddress)
              || Address(unit, b, pageAddress) + b.size <= Address(unit, a, pageAddress)
  {
    RunIsConsistent(unit, calls);
    var (pages, blocks) := Run(unit, calls);
    var a, b := blocks[i], blocks[j];
    assert Placed(unit, pages, a) && Placed(unit, pages, b);
    Aligned(unit, pageAddress(a.page), a.offset);
    if a.page != b.page {
      PagesApart(pageAddress(a.page), pageAddress(b.page));
    } else if i < j {
      assert Apart(blocks[i], blocks[j]);
    } else if j < i {
      assert Apart(blocks[j], blocks[i]);
    }
  }

  lemma Aligned(unit: nat, base: nat, offset: int)
    requires ValidUnit(unit)
    requires base % 4096 == 0 && Rem(unit, offset) == 0
    ensures Rem(unit, base + unit + offset) == 0
  {
    if unit == 8 {
      Rem8(512 * (base / 4096) + 1 + offset / 8, 0);
    } else {
      Rem16(256 * (base / 4096) + 1 + offset / 16, 0);
    }
  }

  lemma PagesApart(x: nat, y: nat)
    requires x % 4096 == 0 && y % 4096 == 0 && x != y
    ensures x + 4096 <= y || y + 4096 <= x
  {
    assert x == 4096 * (x / 4096) && y == 4096 * (y / 4096);
  }
}
