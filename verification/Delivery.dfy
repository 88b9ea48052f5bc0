/** Delivery: one flush against the answers of the printer device. */
module Delivery {

  const MAX_RETRY_ATTEMPTS: nat := 5

  /** One answer of write: a number of bytes (zero allowed), busy, or any other error. */
  datatype Reply = Wrote(n: nat) | Busy | Broken

  datatype Receipt = Receipt(count: nat, ok: bool, rest: seq<Reply>)

  function Min(a: nat, b: nat): (m: nat) {
    if a < b then a else b
  }

  /** The answers to left bytes after some busy answers; beyond the listed answers all is accepted. */
  function Deliver(replies: seq<Reply>, left: nat, retries: nat): (f: Receipt)
    ensures f.count <= left
    ensures f.ok <==> f.count == left
    ensures |f.rest| <= |replies|
    decreases |replies|
  {
    if left == 0 then Receipt(0, true, replies)
    else if replies == [] then Receipt(left, true, [])
    else
      match replies[0]
      case Wrote(n) =>
        var m := Min(n, left);
        var f := Deliver(replies[1..], left - m, retries);
        Receipt(m + f.count, f.ok, f.rest)
      case Busy =>
        if retries + 1 > MAX_RETRY_ATTEMPTS then Receipt(0, false, replies[1..])
        else Deliver(replies[1..], left, retries + 1)
      case Broken => Receipt(0, false, replies[1..])
  }

  /** A flush with receipt f has written some bytes and goes on with the remaining answers. */
  ghost predicate Continues(f: Receipt, written: nat, replies: seq<Reply>, left: nat, retries: nat) {
    var g := Deliver(replies, left, retries);
    f == Receipt(written + g.count, g.ok, g.rest)
  }

  /** One answer further. */
  lemma ContinuesOn(f: Receipt, written: nat, replies: seq<Reply>, left: nat, retries: nat)
    requires Continues(f, written, replies, left, retries) && 0 < left
    ensures if replies == [] then Continues(f, written + left, [], 0, retries)
            else
              match replies[0]
              case Wrote(n) => Continues(f, written + Min(n, left), replies[1..], left - Min(n, left), retries)
              case Busy =>
                if retries + 1 > MAX_RETRY_ATTEMPTS then f == Receipt(written, false, replies[1..])
                else Continues(f, written, replies[1..], left, retries + 1)
              case Broken => f == Receipt(written, false, replies[1..])
  {}

  function Accepted(replies: seq<Reply>): (n: nat) {
    if replies == [] then 0
    else (if replies[0].Wrote? then replies[0].n else 0) + Accepted(replies[1..])
  }

  function Busies(replies: seq<Reply>): (n: nat) {
    if replies == [] then 0
    else (if replies[0].Busy? then 1 else 0) + Busies(replies[1..])
  }

  /** Answer i comes before everything is accepted and is an error or the sixth busy. */
  ghost predicate FatalAt(replies: seq<Reply>, left: nat, retries: nat, i: nat) {
    && i < |replies|
    && Accepted(replies[..i]) < left
    && (replies[i].Broken? || (replies[i].Busy? && retries + Busies(replies[..i]) >= 5))
  }

  ghost predicate Fatal(replies: seq<Reply>, left: nat, retries: nat) {
    exists i: nat :: FatalAt(replies, left, retries, i)
  }

  lemma FatalLater(replies: seq<Reply>, left: nat, retries: nat, i: nat)
    requires 0 < i < |replies| && 0 < left
    requires replies[0].Wrote? ==> replies[0].n < left
    ensures var r := replies[1..];
            FatalAt(replies, left, retries, i) <==>
            match replies[0]
            case Wrote(n) => FatalAt(r, left - n, retries, i - 1)
            case Busy => FatalAt(r, left, retries + 1, i - 1)
            case Broken => FatalAt(r, left, retries, i - 1)
  {
    assert replies[..i][1..] == replies[1..][..i - 1];
    assert replies[..i][0] == replies[0];
  }

  /** A flush fails exactly when an error or a sixth busy comes before everything is accepted. */
  lemma {:induction false} FlushFailsIff(replies: seq<Reply>, left: nat, retries: nat)
    ensures !Deliver(replies, left, retries).ok <==> Fatal(replies, left, retries)
    decreases |replies|
  {
    if left > 0 && replies != [] {
      var r := replies[1..];
      if replies[0].Broken? || (replies[0].Busy? && retries >= MAX_RETRY_ATTEMPTS) {
        assert FatalAt(replies, left, retries, 0);
      } else if replies[0].Wrote? && replies[0].n >= left {
        WholeIsSafe(replies, left, retries);
      } else {
        var less := if replies[0].Wrote? then left - replies[0].n else left;
        var more := if replies[0].Busy? then retries + 1 else retries;
        FlushFailsIff(r, less, more);
        FatalShifts(replies, left, retries, less, more);
      }
    }
  }

  lemma StartsWith(replies: seq<Reply>, i: nat)
    requires 0 < i <= |replies| && replies[0].Wrote?
    ensures Accepted(replies[..i]) >= replies[0].n
  {
    assert replies[..i][0] == replies[0];
  }

  lemma WholeIsSafe(replies: seq<Reply>, left: nat, retries: nat)
    requires replies != [] && replies[0].Wrote? && replies[0].n >= left
    ensures !Fatal(replies, left, retries)
  {
    forall i: nat | FatalAt(replies, left, retries, i) ensures false {
      assert i > 0;
      StartsWith(replies, i);
    }
  }

  lemma FatalShifts(replies: seq<Reply>, left: nat, retries: nat, less: nat, more: nat)
    requires replies != [] && 0 < left && !replies[0].Broken?
    requires replies[0].Wrote? ==> replies[0].n < left && less == left - replies[0].n && more == retries
    requires replies[0].Busy? ==> retries < MAX_RETRY_ATTEMPTS && less == left && more == retries + 1
    ensures Fatal(replies, left, retries) <==> Fatal(replies[1..], less, more)
  {
    if Fatal(replies, left, retries) {
      var i: nat :| FatalAt(replies, left, retries, i);
      assert i > 0;
      FatalLater(replies, left, retries, i);
      assert FatalAt(replies[1..], less, more, i - 1);
    }
    if Fatal(replies[1..], less, more) {
      var i: nat :| FatalAt(replies[1..], less, more, i);
      FatalLater(replies, left, retries, i + 1);
      assert FatalAt(replies, left, retries, i + 1);
    }
  }

  // ---------------------------------------------------------------------------------
  // A flush that fails before anything is accepted
  // ---------------------------------------------------------------------------------

  predicate Quiet(reply: Reply) {
    reply == Busy || reply == Wrote(0)
  }

  /** Up to answer i nothing is accepted, and answer i is an error or the sixth busy. */
  ghost predicate ColdAt(replies: seq<Reply>, retries: nat, i: nat) {
    && i < |replies|
    && (forall k :: 0 <= k < i ==> Quiet(replies[k]))
    && (replies[i].Broken? || (replies[i].Busy? && retries + Busies(replies[..i]) >= 5))
  }

  ghost predicate Cold(replies: seq<Reply>, retries: nat) {
    exists i: nat :: ColdAt(replies, retries, i)
  }

  lemma ColdLater(replies: seq<Reply>, retries: nat, i: nat)
    requires 0 < i < |replies| && Quiet(replies[0])
    ensures ColdAt(replies, retries, i) <==>
            ColdAt(replies[1..], if replies[0].Busy? then retries + 1 else retries, i - 1)
  {
    assert replies[..i][1..] == replies[1..][..i - 1];
    assert replies[..i][0] == replies[0];
    if ColdAt(replies[1..], if replies[0].Busy? then retries + 1 else retries, i - 1) {
      assert forall k :: 0 < k < i ==> replies[k] == replies[1..][k - 1];
    }
  }

  lemma ColdShifts(replies: seq<Reply>, retries: nat, more: nat)
    requires replies != [] && Quiet(replies[0])
    requires replies[0].Busy? ==> retries < MAX_RETRY_ATTEMPTS && more == retries + 1
    requires !replies[0].Busy? ==> more == retries
    ensures Cold(replies, retries) <==> Cold(replies[1..], more)
  {
    if Cold(replies, retries) {
      var i: nat :| ColdAt(replies, retries, i);
      assert i > 0;
      ColdLater(replies, retries, i);
      assert ColdAt(replies[1..], more, i - 1);
    }
    if Cold(replies[1..], more) {
      var i: nat :| ColdAt(replies[1..], more, i);
      ColdLater(replies, retries, i + 1);
      assert ColdAt(replies, retries, i + 1);
    }
  }

  /** A flush fails without having sent a byte exactly when its answers are cold, whatever it has to send. */
  lemma {:induction false} NothingSentIff(replies: seq<Reply>, left: nat, retries: nat)
    requires left > 0
    ensures var f := Deliver(replies, left, retries); !f.ok && f.count == 0 <==> Cold(replies, retries)
    decreases |replies|
  {
    if replies != [] {
      if replies[0].Broken? || (replies[0].Busy? && retries >= MAX_RETRY_ATTEMPTS) {
        assert ColdAt(replies, retries, 0);
      } else if Quiet(replies[0]) {
        var more := if replies[0].Busy? then retries + 1 else retries;
        NothingSentIff(replies[1..], left, more);
        ColdShifts(replies, retries, more);
      }
    }
  }

  // ---------------------------------------------------------------------------------
  // Where a failing flush stops
  // ---------------------------------------------------------------------------------

  /** The last of these answers is fatal, and none before it is. */
  ghost predicate EndsFatally(first: seq<Reply>, left: nat, retries: nat) {
    && first != []
    && FatalAt(first, left, retries, |first| - 1)
    && forall i: nat :: i < |first| - 1 ==> !FatalAt(first, left, retries, i)
  }

  lemma EndsLater(first: seq<Reply>, left: nat, retries: nat, less: nat, more: nat)
    requires EndsFatally(first, left, retries) && |first| > 1
    requires first[0].Wrote? ==> less == left - first[0].n && more == retries
    requires first[0].Busy? ==> less == left && more == retries + 1
    ensures !first[0].Broken? && (first[0].Busy? ==> retries < MAX_RETRY_ATTEMPTS)
    ensures 0 < left && (first[0].Wrote? ==> first[0].n < left)
    ensures EndsFatally(first[1..], less, more)
  {
    var n := |first| - 1;
    assert first[..n][0] == first[0];
    assert !FatalAt(first, left, retries, 0);
    FatalLater(first, left, retries, n);
    forall i: nat | i < n - 1
      ensures !FatalAt(first[1..], less, more, i)
    {
      assert !FatalAt(first, left, retries, i + 1);
      FatalLater(first, left, retries, i + 1);
    }
  }

  /** A flush stops at its first fatal answer, with what the answers up to there have accepted. */
  lemma {:induction false} StopsAtFatal(first: seq<Reply>, second: seq<Reply>, left: nat, retries: nat)
    requires EndsFatally(first, left, retries)
    ensures Deliver(first + second, left, retries) == Receipt(Accepted(first), false, second)
    decreases |first|
  {
    var all := first + second;
    assert all[0] == first[0] && all[1..] == first[1..] + second;
    if |first| == 1 {
      assert first[..0] == [] && first[1..] == [];
      assert all[1..] == second;
    } else if first[0].Wrote? {
      EndsLater(first, left, retries, left - first[0].n, retries);
      StopsAtFatal(first[1..], second, left - first[0].n, retries);
    } else {
      EndsLater(first, left, retries, left, retries + 1);
      StopsAtFatal(first[1..], second, left, retries + 1);
    }
  }

  /** The last of these answers completes the flush, and none of them is fatal. */
  ghost predicate Completes(first: seq<Reply>, left: nat, retries: nat) {
    && first != [] && first[|first| - 1].Wrote?
    && Accepted(first[..|first| - 1]) < left <= Accepted(first)
    && !Fatal(first, left, retries)
  }

  lemma CompletesLater(first: seq<Reply>, left: nat, retries: nat, less: nat, more: nat)
    requires Completes(first, left, retries) && |first| > 1
    requires first[0].Wrote? ==> less == left - first[0].n && more == retries
    requires first[0].Busy? ==> less == left && more == retries + 1
    ensures !first[0].Broken? && (first[0].Busy? ==> retries < 5)
    ensures 0 < left && (first[0].Wrote? ==> first[0].n < left)
    ensures Completes(first[1..], less, more)
  {
    var n := |first| - 1;
    assert first[..n][0] == first[0];
    assert !FatalAt(first, left, retries, 0);
    assert first[1..][..n - 1] == first[..n][1..];
    FatalShifts(first, left, retries, less, more);
  }

  /** A flush that nothing stops takes exactly the answers up to the one that completes it. */
  lemma {:induction false} StopsWhenDone(first: seq<Reply>, second: seq<Reply>, left: nat, retries: nat)
    requires Completes(first, left, retries)
    ensures Deliver(first + second, left, retries) == Receipt(left, true, second)
    decreases |first|
  {
    var all := first + second;
    assert all[0] == first[0] && all[1..] == first[1..] + second;
    if |first| == 1 {
      assert first[..0] == [] && first[1..] == [];
      assert all[1..] == second;
    } else if first[0].Wrote? {
      CompletesLater(first, left, retries, left - first[0].n, retries);
      StopsWhenDone(first[1..], second, left - first[0].n, retries);
    } else {
      CompletesLater(first, left, retries, left, retries + 1);
      StopsWhenDone(first[1..], second, left, retries + 1);
    }
  }
}

/** FlushPlan: a run of flushes, each as long as the one before succeeds. */
module FlushPlan {
  import opened Delivery
  import opened Prelude

  const BLOCK_SIZE: nat := 4096

  function Sum(sizes: seq<nat>): (n: nat) {
    if sizes == [] then 0 else Sum(sizes[..|sizes| - 1]) + sizes[|sizes| - 1]
  }

  lemma {:induction false} SumAppend(a: seq<nat>, b: seq<nat>)
    ensures Sum(a + b) == Sum(a) + Sum(b)
    decreases |b|
  {
    if b == [] {
      assert a + b == a;
    } else {
      var n := |b| - 1;
      SumAppend(a, b[..n]);
      assert (a + b)[..|a + b| - 1] == a + b[..n];
    }
  }

  /** The answers that are left when flushes of these sizes have all succeeded. */
  function After(replies: seq<Reply>, sizes: seq<nat>): (rest: Option<seq<Reply>>) {
    if sizes == [] then Some(replies)
    else
      var n := |sizes| - 1;
      match After(replies, sizes[..n])
      case None => None
      case Some(r) =>
        var f := Deliver(r, sizes[n], 0);
        if f.ok then Some(f.rest) else None
  }

  lemma OneMoreFlush(replies: seq<Reply>, sizes: seq<nat>, size: nat)
    ensures Sum(sizes + [size]) == Sum(sizes) + size
    ensures After(replies, sizes).Some? && Deliver(After(replies, sizes).value, size, 0).ok ==>
      After(replies, sizes + [size]) == Some(Deliver(After(replies, sizes).value, size, 0).rest)
  {
    assert (sizes + [size])[..|sizes|] == sizes;
  }

  /** Flush m of the plan is the first to fail. */
  ghost predicate FailsAt(replies: seq<Reply>, plan: seq<nat>, m: nat) {
    && m < |plan|
    && After(replies, plan[..m]).Some?
    && !Deliver(After(replies, plan[..m]).value, plan[m], 0).ok
  }

  lemma {:induction false} NoneAfterFailure(replies: seq<Reply>, plan: seq<nat>, m: nat, n: nat)
    requires FailsAt(replies, plan, m) && m < n <= |plan|
    ensures After(replies, plan[..n]).None?
    decreases n
  {
    assert plan[..n][..n - 1] == plan[..n - 1];
    if n - 1 > m {
      NoneAfterFailure(replies, plan, m, n - 1);
    }
  }

  /** A plan fails at one flush at most, and then not all of its flushes succeed. */
  lemma FailsOnce(replies: seq<Reply>, plan: seq<nat>, m: nat, m': nat)
    requires FailsAt(replies, plan, m)
    ensures After(replies, plan).None?
    ensures FailsAt(replies, plan, m') ==> m == m'
  {
    assert plan[..|plan|] == plan;
    NoneAfterFailure(replies, plan, m, |plan|);
    if FailsAt(replies, plan, m') {
      if m < m' {
        NoneAfterFailure(replies, plan, m, m');
      } else if m' < m {
        NoneAfterFailure(replies, plan, m', m);
      }
    }
  }

  // ---------------------------------------------------------------------------------
  // The flushes of one file
  // ---------------------------------------------------------------------------------

  /** The full blocks in n bytes. */
  function Blocks(n: nat): (sizes: seq<nat>) {
    if n < BLOCK_SIZE then [] else Blocks(n - BLOCK_SIZE) + [BLOCK_SIZE]
  }

  /** What remains of n bytes behind the full blocks. */
  function Remainder(n: nat): (r: nat)
    ensures r < BLOCK_SIZE
  {
    if n < BLOCK_SIZE then n else Remainder(n - BLOCK_SIZE)
  }

  /** The flushes for n bytes of a file: full blocks, and the remainder if the file is read to its end. */
  function FilePlan(n: nat, whole: bool): (sizes: seq<nat>) {
    Blocks(n) + if whole && Remainder(n) > 0 then [Remainder(n)] else []
  }

  /** A file of n bytes is flushed in blocks of 4096 bytes and, read to its end, what remains. */
  lemma {:induction false} PlanMeans(n: nat, whole: bool)
    ensures var plan, r := FilePlan(n, whole), Remainder(n);
            && r < 4096 && Sum(plan) == (if whole then n else n - r)
            && forall k :: 0 <= k < |plan| ==>
                 plan[k] == if whole && r > 0 && k == |plan| - 1 then r else 4096
  {
    BlocksMean(n);
    if whole && Remainder(n) > 0 {
      assert FilePlan(n, whole)[..|Blocks(n)|] == Blocks(n);
    } else {
      assert Blocks(n) + [] == Blocks(n);
    }
  }

  lemma {:induction false} BlocksMean(n: nat)
    ensures Sum(Blocks(n)) + Remainder(n) == n
    ensures forall k :: 0 <= k < |Blocks(n)| ==> Blocks(n)[k] == 4096
    decreases n
  {
    if n >= BLOCK_SIZE {
      BlocksMean(n - BLOCK_SIZE);
      assert Blocks(n)[..|Blocks(n)| - 1] == Blocks(n - BLOCK_SIZE);
    }
  }

  /** Since a, only full blocks have been flushed. */
  ghost predicate AddsBlocks(a: seq<nat>, b: seq<nat>) {
    a <= b && forall k :: |a| <= k < |b| ==> b[k] == BLOCK_SIZE
  }

  lemma {:induction false} BlocksAre(a: seq<nat>, b: seq<nat>, n: nat)
    requires AddsBlocks(a, b) && Sum(b) <= Sum(a) + n < Sum(b) + BLOCK_SIZE
    ensures b == a + Blocks(n) && Sum(b) + Remainder(n) == Sum(a) + n
    decreases |b|
  {
    if |b| == |a| {
      assert a == b;
    } else {
      var m := |b| - 1;
      assert a <= b[..m];
      SumGrows(a, b[..m]);
      BlocksAre(a, b[..m], n - BLOCK_SIZE);
      assert b == b[..m] + [BLOCK_SIZE];
    }
  }

  lemma {:induction false} SumGrows(a: seq<nat>, b: seq<nat>)
    requires a <= b
    ensures Sum(a) <= Sum(b)
    decreases |b|
  {
    if |a| < |b| {
      SumGrows(a, b[..|b| - 1]);
    } else {
      assert a == b;
    }
  }

  lemma {:induction false} BlockFollows(a: seq<nat>, b: seq<nat>, n: nat)
    requires AddsBlocks(a, b) && Sum(b) + BLOCK_SIZE <= Sum(a) + n
    ensures b + [BLOCK_SIZE] <= a + Blocks(n)
    decreases n
  {
    SumGrows(a, b);
    if Sum(b) + BLOCK_SIZE <= Sum(a) + n - BLOCK_SIZE {
      BlockFollows(a, b, n - BLOCK_SIZE);
      assert a + Blocks(n) == (a + Blocks(n - BLOCK_SIZE)) + [BLOCK_SIZE];
    } else {
      BlocksAre(a, b, n - BLOCK_SIZE);
      assert a + Blocks(n) == (a + Blocks(n - BLOCK_SIZE)) + [BLOCK_SIZE];
    }
  }

  /** Full blocks since a and count bytes waiting are what a file of n bytes leads to. */
  lemma PlanOfFile(a: seq<nat>, b: seq<nat>, n: nat, count: nat)
    requires AddsBlocks(a, b) && Sum(b) + count == Sum(a) + n && count < BLOCK_SIZE
    ensures count == Remainder(n)
    ensures b == a + FilePlan(n, false)
    ensures b + (if count > 0 then [count] else []) == a + FilePlan(n, true)
  {
    BlocksAre(a, b, n);
    assert Blocks(n) + [] == Blocks(n);
    Regroup(a, Blocks(n), if count > 0 then [count] else []);
  }

  lemma PlanInsideFile(a: seq<nat>, b: seq<nat>, n: nat, whole: bool)
    requires AddsBlocks(a, b) && Sum(b) + BLOCK_SIZE <= Sum(a) + n
    ensures b + [BLOCK_SIZE] <= a + FilePlan(n, whole)
  {
    BlockFollows(a, b, n);
    Regroup(a, Blocks(n), if whole && Remainder(n) > 0 then [Remainder(n)] else []);
  }

  /** The flushes so far and the next one, whether it fails or the plan ends, follow a plan. */
  ghost predicate Follows(before: seq<nat>, plan: seq<nat>, failed: bool, flushed: seq<nat>, count: nat, waiting: nat) {
    if failed then flushed + [count] <= before + plan else flushed == before + plan && count == waiting
  }
}
