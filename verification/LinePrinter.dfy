/** LinePrinter: lpr's UniversalLinePrinter, buffering and flushing a converted stream. */
module LinePrinter {
  import opened LineStream
  import opened Delivery
  import opened FlushPlan
  import opened Prelude
  import Folds

  /** One answer of read: some bytes (none at the end of the file) or an error. */
  datatype ReadReply = Chunk(data: seq<Byte>) | ReadError

  /** What open finds. */
  datatype File = Missing | Readable(answers: seq<ReadReply>)

  /** How processing ends; Terminated is a write failure inside the noexcept tab expansion. */
  datatype Outcome = Done | OpenFailed | ReadFailed | WriteFailed | Terminated

  predicate Broke(o: Outcome) {
    o == WriteFailed || o == Terminated
  }

  /** The bytes of a file up to its end or the first read error. */
  function Input(answers: seq<ReadReply>): (s: seq<Byte>) {
    if answers == [] || answers[0].ReadError? || answers[0].data == [] then []
    else answers[0].data + Input(answers[1..])
  }

  function InputEnd(answers: seq<ReadReply>): (o: Outcome)
    ensures o == Done || o == ReadFailed
  {
    if answers == [] then Done
    else if answers[0].ReadError? then ReadFailed
    else if answers[0].data == [] then Done
    else InputEnd(answers[1..])
  }

  ghost predicate FitsBlocks(answers: seq<ReadReply>) {
    forall k :: 0 <= k < |answers| && answers[k].Chunk? ==> |answers[k].data| <= BLOCK_SIZE
  }

  function FileInput(file: File): (s: seq<Byte>) {
    if file.Missing? then [] else Input(file.answers)
  }

  function FileEnd(file: File): (o: Outcome) {
    if file.Missing? then OpenFailed else InputEnd(file.answers)
  }

  /** The bytes of all files up to the first that cannot be opened or read to its end. */
  function AllInput(files: seq<File>): (s: seq<Byte>) {
    if files == [] then []
    else FileInput(files[0]) + if FileEnd(files[0]) == Done then AllInput(files[1..]) else []
  }

  function AllEnd(files: seq<File>): (o: Outcome) {
    if files == [] then Done
    else if FileEnd(files[0]) == Done then AllEnd(files[1..])
    else FileEnd(files[0])
  }

  /** The column after printing an input. */
  function ColumnPast(column: Column, s: seq<Byte>): (r: Column) {
    ColumnAfter(column, Convert(column, s))
  }

  lemma OneMore(column: Column, s: seq<Byte>, c: Byte)
    ensures Convert(column, s + [c]) == Convert(column, s) + Emit(ColumnPast(column, s), c)
    ensures ColumnPast(column, s + [c]) ==
            ColumnAfter(ColumnPast(column, s), Emit(ColumnPast(column, s), c))
  {
    ConvertLast(column, s, c);
    Folds.FoldAppend(NextColumn, column, Convert(column, s), Emit(ColumnPast(column, s), c));
  }

  lemma TwoInputs(column: Column, s: seq<Byte>, t: seq<Byte>)
    ensures Convert(column, s + t) == Convert(column, s) + Convert(ColumnPast(column, s), t)
    ensures ColumnPast(column, s + t) == ColumnPast(ColumnPast(column, s), t)
  {
    ConvertAppends(column, s, t);
    Folds.FoldAppend(NextColumn, column, Convert(column, s), Convert(ColumnPast(column, s), t));
  }

  function Flat(chunks: seq<seq<Byte>>): (s: seq<Byte>) {
    if chunks == [] then [] else chunks[0] + Flat(chunks[1..])
  }

  function Chunks(chunks: seq<seq<Byte>>): (answers: seq<ReadReply>) {
    if chunks == [] then [] else [Chunk(chunks[0])] + Chunks(chunks[1..])
  }

  /** However read splits a file, what is read is its bytes, up to the answer that ends it. */
  lemma {:induction false} InputIsWhole(chunks: seq<seq<Byte>>, tail: seq<ReadReply>)
    requires forall k :: 0 <= k < |chunks| ==> chunks[k] != []
    ensures Input(Chunks(chunks) + tail) == Flat(chunks) + Input(tail)
    ensures InputEnd(Chunks(chunks) + tail) == InputEnd(tail)
    decreases |chunks|
  {
    var answers := Chunks(chunks) + tail;
    if chunks == [] {
      assert answers == tail;
    } else {
      InputIsWhole(chunks[1..], tail);
      assert answers[0] == Chunk(chunks[0]) && answers[1..] == Chunks(chunks[1..]) + tail;
      Regroup(chunks[0], Flat(chunks[1..]), Input(tail));
    }
  }

  /** What ends a file: no more bytes, or an error. */
  lemma InputStops(later: seq<ReadReply>)
    ensures Input([]) == [] && InputEnd([]) == Done
    ensures Input([Chunk([])] + later) == [] && InputEnd([Chunk([])] + later) == Done
    ensures Input([ReadError] + later) == [] && InputEnd([ReadError] + later) == ReadFailed
  {}

  /** Files are read one after the other, up to the first that cannot be opened or read to its end. */
  lemma {:induction false} FilesInOrder(files: seq<File>, more: seq<File>)
    ensures AllEnd(files) == Done ==>
      AllInput(files + more) == AllInput(files) + AllInput(more) && AllEnd(files + more) == AllEnd(more)
    ensures AllEnd(files) != Done ==>
      AllInput(files + more) == AllInput(files) && AllEnd(files + more) == AllEnd(files)
    decreases |files|
  {
    if files == [] {
      assert files + more == more;
    } else {
      FilesInOrder(files[1..], more);
      assert (files + more)[0] == files[0] && (files + more)[1..] == files[1..] + more;
      Regroup(FileInput(files[0]), AllInput(files[1..]), AllInput(more));
    }
  }

  class UniversalLinePrinter {
    const inputBuffer: array<Byte>
    const outputBuffer: array<Byte>
    var inputPosition: nat
    var inputCount: nat
    var outputCount: nat
    var column: Column
    // What the device has accepted, and how it answers from now on.
    var sent: seq<Byte>
    var replies: seq<Reply>
    // Every byte given to WriteCharacter.
    ghost var stream: seq<Byte>
    // All answers of the device, the sizes of the flushes that succeeded, and the answers with
    // which the failed flush began.
    ghost const script: seq<Reply>
    ghost var flushed: seq<nat>
    ghost var failing: seq<Reply>

    ghost predicate Valid()
      reads this
    {
      && inputBuffer != outputBuffer
      && inputBuffer.Length == BLOCK_SIZE && outputBuffer.Length == BLOCK_SIZE
      && inputPosition <= inputCount <= BLOCK_SIZE
      && outputCount <= BLOCK_SIZE
    }

    ghost function Pending(): (s: seq<Byte>)
      requires Valid()
      reads this, outputBuffer
    {
      outputBuffer[..outputCount]
    }

    /** What the next flush gets through of the buffer. */
    ghost function Redelivered(): (s: seq<Byte>)
      requires Valid()
      reads this, outputBuffer
    {
      Pending()[..Deliver(replies, outputCount, 0).count]
    }

    /** Nothing lost, repeated or reordered: what was sent and what waits is the stream. */
    ghost predicate Synced()
      reads this, outputBuffer
    {
      && Valid()
      && stream == sent + Pending()
      && Sum(flushed) == |sent| && After(script, flushed) == Some(replies)
    }

    /**
      A flush failed: sent is a proper prefix of the stream, and the buffer still holds its tail,
      of which the failed flush has sent a part.
    */
    ghost predicate Interrupted()
      reads this, outputBuffer
    {
      && Valid()
      && outputCount <= |stream|
      && |stream| - outputCount <= |sent| < |stream|
      && Sum(flushed) == |stream| - outputCount && After(script, flushed) == Some(failing)
      && Deliver(failing, outputCount, 0) == Receipt(|sent| - (|stream| - outputCount), false, replies)
      && sent == stream[..|sent|]
      && Pending() == stream[|stream| - outputCount..]
    }

    constructor (answers: seq<Reply>)
      ensures Synced() && outputCount == 0 && inputPosition == inputCount && column == 0
      ensures sent == [] && stream == [] && replies == answers && script == answers && flushed == []
      ensures fresh(inputBuffer) && fresh(outputBuffer)
    {
      inputBuffer := new Byte[BLOCK_SIZE](_ => 0);
      outputBuffer := new Byte[BLOCK_SIZE](_ => 0);
      inputPosition, inputCount, outputCount, column := 0, 0, 0, 0;
      sent, replies, stream := [], answers, [];
      script, flushed, failing := answers, [], [];
    }

    /** One write call on the unsent part of the buffer. */
    method Write(from: nat) returns (reply: Reply)
      requires Valid() && from < outputCount
      modifies this`sent, this`replies
      ensures reply.Wrote? ==> from + reply.n <= outputCount
      ensures sent == old(sent) + if reply.Wrote? then outputBuffer[from..from + reply.n] else []
      ensures if old(replies) == [] then reply == Wrote(outputCount - from) && replies == []
              else replies == old(replies)[1..] &&
                   reply == match old(replies)[0]
                            case Wrote(n) => Wrote(Min(n, outputCount - from))
                            case Busy => Busy
                            case Broken => Broken
    {
      var left := outputCount - from;
      if replies == [] {
        reply := Wrote(left);
      } else {
        reply := replies[0];
        replies := replies[1..];
        if reply.Wrote? {
          reply := Wrote(Min(reply.n, left));
        }
      }
      if reply.Wrote? {
        sent := sent + outputBuffer[from..from + reply.n];
      }
    }

    /** One round of the loop of flush_output_buffer; go is false where it throws. */
    method Attempt(bytesWritten: nat, retryCount: nat, ghost f: Receipt, ghost data: seq<Byte>)
      returns (written: nat, retries: nat, go: bool)
      requires Valid() && bytesWritten < outputCount && data == Pending()
      requires Continues(f, bytesWritten, replies, outputCount - bytesWritten, retryCount)
      modifies this`sent, this`replies
      ensures bytesWritten <= written <= outputCount
      ensures sent == old(sent) + data[bytesWritten..written]
      ensures go ==> Continues(f, written, replies, outputCount - written, retries)
      ensures go ==> |replies| < |old(replies)| || (|replies| == |old(replies)| && written == outputCount)
      ensures !go ==> f == Receipt(written, false, replies)
    {
      ContinuesOn(f, bytesWritten, replies, outputCount - bytesWritten, retryCount);
      written, retries, go := bytesWritten, retryCount, true;
      var reply := Write(bytesWritten);
      match reply
      case Wrote(n) =>
        written := bytesWritten + n;
      case Busy =>
        retries := retryCount + 1;
        go := retries <= MAX_RETRY_ATTEMPTS;
      case Broken =>
        go := false;
    }

    /** The loop of flush_output_buffer. */
    method SendBuffer() returns (ok: bool)
      requires Valid()
      modifies this`sent, this`replies
      ensures var f := Deliver(old(replies), outputCount, 0);
              && ok == f.ok && replies == f.rest && sent == old(sent) + old(Pending())[..f.count]
    {
      ghost var f, data := Deliver(replies, outputCount, 0), Pending();
      var retryCount, bytesWritten := 0, 0;
      ok := true;
      while bytesWritten < outputCount
        invariant bytesWritten <= outputCount && ok
        invariant sent == old(sent) + data[..bytesWritten]
        invariant Continues(f, bytesWritten, replies, outputCount - bytesWritten, retryCount)
        decreases |replies|, outputCount - bytesWritten
      {
        ghost var before := bytesWritten;
        bytesWritten, retryCount, ok := Attempt(bytesWritten, retryCount, f, data);
        assert data[..bytesWritten] == data[..before] + data[before..bytesWritten];
        if !ok {
          return;
        }
      }
    }

    /** flush_output_buffer: on failure the count is left as it was. */
    method FlushOutputBuffer() returns (ok: bool)
      requires Valid()
      modifies this`outputCount, this`sent, this`replies
      ensures Valid()
      ensures var f := Deliver(old(replies), old(outputCount), 0);
              && ok == f.ok && replies == f.rest
              && sent == old(sent) + old(Pending())[..f.count]
              && outputCount == if ok then 0 else old(outputCount)
    {
      ok := true;
      if outputCount == 0 {
        return;
      }
      ok := SendBuffer();
      if ok {
        outputCount := 0;
      }
    }

    /** A flush of a synced printer sends all that waits, or stops inside it. */
    method Flush() returns (ok: bool)
      requires Synced()
      modifies this`outputCount, this`sent, this`replies, this`flushed, this`failing
      ensures ok ==> Synced() && outputCount == 0 && sent == stream
      ensures ok ==> flushed == old(flushed) + if old(outputCount) > 0 then [old(outputCount)] else []
      ensures !ok ==> Interrupted() && flushed == old(flushed) && outputCount == old(outputCount)
    {
      ghost var waiting := Pending();
      OneMoreFlush(script, flushed, outputCount);
      ok := FlushOutputBuffer();
      ghost var f := Deliver(old(replies), old(outputCount), 0);
      if ok {
        assert waiting[..f.count] == waiting;
        assert flushed + [] == flushed;
        if old(outputCount) > 0 {
          flushed := flushed + [old(outputCount)];
        }
      } else {
        failing := old(replies);
        assert stream[..|sent|] == old(sent) + waiting[..f.count];
        assert stream[|stream| - outputCount..] == waiting;
      }
    }

    /** write_character. */
    method WriteCharacter(c: Byte) returns (ok: bool)
      requires Synced() && outputCount < BLOCK_SIZE
      modifies this, outputBuffer
      ensures stream == old(stream) + [c] && column == NextColumn(old(column), c)
      ensures ok ==> Synced() && outputCount < BLOCK_SIZE
      ensures !ok ==> Interrupted() && outputCount == BLOCK_SIZE
      ensures AddsBlocks(old(flushed), flushed)
      ensures inputPosition == old(inputPosition) && inputCount == old(inputCount)
    {
      outputBuffer[outputCount] := c;
      outputCount := outputCount + 1;
      stream := stream + [c];
      column := NextColumn(column, c);
      assert Pending() == old(Pending()) + [c];
      ok := true;
      if outputCount >= BLOCK_SIZE {
        ok := Flush();
      }
    }

    /** n spaces have been written behind start, from column first on. */
    ghost predicate Spaced(start: seq<Byte>, first: Column, n: nat)
      reads this, outputBuffer
    {
      && Synced() && outputCount < BLOCK_SIZE
      && stream == start + Spaces(n) && column == ColumnAfter(first, Spaces(n))
    }

    method WriteSpace(ghost start: seq<Byte>, ghost first: Column, ghost n: nat) returns (ok: bool)
      requires Spaced(start, first, n)
      modifies this, outputBuffer
      ensures inputPosition == old(inputPosition) && inputCount == old(inputCount)
      ensures ok ==> Spaced(start, first, n + 1)
      ensures !ok ==> Interrupted() && stream == start + Spaces(n + 1) && outputCount == BLOCK_SIZE
      ensures AddsBlocks(old(flushed), flushed)
    {
      assert Spaces(n + 1) == Spaces(n) + [SPACE];
      ColumnLast(first, Spaces(n), SPACE);
      Regroup(start, Spaces(n), [SPACE]);
      ok := WriteCharacter(SPACE);
    }

    /** expand_tab. */
    method ExpandTab() returns (ok: bool)
      requires Synced() && outputCount < BLOCK_SIZE
      modifies this, outputBuffer
      ensures inputPosition == old(inputPosition) && inputCount == old(inputCount)
      ensures ok ==> Synced() && outputCount < BLOCK_SIZE
      ensures ok ==> stream == old(stream) + Emit(old(column), TAB)
      ensures ok ==> column == ColumnAfter(old(column), Emit(old(column), TAB))
      ensures !ok ==> Interrupted() && old(stream) < stream <= old(stream) + Emit(old(column), TAB)
      ensures !ok ==> outputCount == BLOCK_SIZE
      ensures AddsBlocks(old(flushed), flushed)
    {
      var n := 0;
      ghost var start, first, all := stream, column, 8 - column % 8;
      assert start + Spaces(0) == start;
      while true
        invariant n < all
        invariant Spaced(start, first, n) && AddsBlocks(old(flushed), flushed)
        invariant inputPosition == old(inputPosition) && inputCount == old(inputCount)
        decreases all - n
      {
        ok := WriteSpace(start, first, n);
        n := n + 1;
        if !ok {
          return;
        }
        SpacesReachStop(first, n);
        if column % 8 == 0 {
          return;
        }
      }
    }

    /** A line feed of the input. */
    method WriteLineEnd() returns (ok: bool)
      requires Synced() && outputCount < BLOCK_SIZE
      modifies this, outputBuffer
      ensures inputPosition == old(inputPosition) && inputCount == old(inputCount)
      ensures ok ==> Synced() && outputCount < BLOCK_SIZE
      ensures ok ==> stream == old(stream) + [CR, LF] && column == ColumnAfter(old(column), [CR, LF])
      ensures !ok ==> Interrupted() && old(stream) < stream <= old(stream) + [CR, LF]
      ensures !ok ==> outputCount == BLOCK_SIZE
      ensures AddsBlocks(old(flushed), flushed)
    {
      ColumnLast(column, [], CR);
      ColumnLast(column, [CR], LF);
      assert [] + [CR] == [CR] && [CR] + [LF] == [CR, LF];
      ok := WriteCharacter(CR);
      if ok {
        ok := WriteCharacter(LF);
      }
    }

    /** The switch of process_file_descriptor. */
    method ProcessCharacter(c: Byte) returns (o: Outcome)
      requires Synced() && outputCount < BLOCK_SIZE
      modifies this, outputBuffer
      ensures inputPosition == old(inputPosition) && inputCount == old(inputCount)
      ensures o == Done || Broke(o)
      ensures o == Done ==> Synced() && outputCount < BLOCK_SIZE
      ensures o == Done ==> stream == old(stream) + Emit(old(column), c)
      ensures o == Done ==> column == ColumnAfter(old(column), Emit(old(column), c))
      ensures Broke(o) ==> Interrupted() && old(stream) < stream <= old(stream) + Emit(old(column), c)
      ensures Broke(o) ==> outputCount == BLOCK_SIZE && (o == Terminated <==> c == TAB)
      ensures AddsBlocks(old(flushed), flushed)
    {
      var ok;
      if c == LF {
        ok := WriteLineEnd();
      } else if c == TAB {
        ok := ExpandTab();
      } else {
        ColumnLast(column, [], c);
        assert [] + [c] == [c];
        ok := WriteCharacter(c);
      }
      o := if ok then Done else if c == TAB then Terminated else WriteFailed;
    }

    /** The bytes read but not processed. */
    ghost function Unread(): (s: seq<Byte>)
      requires Valid()
      reads this, inputBuffer
    {
      inputBuffer[inputPosition..inputCount]
    }

    /** read into the input buffer. */
    method Fill(data: seq<Byte>)
      requires Valid() && |data| <= BLOCK_SIZE
      modifies this`inputPosition, this`inputCount, inputBuffer
      ensures Valid() && Unread() == data && inputPosition == 0 && inputCount == |data|
      ensures old(Synced()) ==> Synced()
    {
      for i := 0 to |data|
        invariant Valid()
        invariant inputBuffer[..i] == data[..i]
        invariant outputBuffer[..] == old(outputBuffer[..])
      {
        inputBuffer[i] := data[i];
      }
      inputPosition, inputCount := 0, |data|;
      assert Valid() ==> Pending() == old(outputBuffer[..])[..outputCount];
    }

    /** Everything in done, printed after start from column first, and nothing else. */
    ghost predicate HasPrinted(start: seq<Byte>, first: Column, done: seq<Byte>)
      reads this, outputBuffer
    {
      && Synced() && outputCount < BLOCK_SIZE
      && stream == start + Convert(first, done)
      && column == ColumnPast(first, done)
    }

    /**
      A write failed: the stream stopped somewhere in what had to be printed, and the program is
      terminated exactly if the buffer was filled up by a tab.
    */
    ghost predicate HasStopped(o: Outcome, start: seq<Byte>, first: Column, all: seq<Byte>)
      reads this, outputBuffer
    {
      && Interrupted() && start <= stream <= start + Convert(first, all)
      && (outputCount == BLOCK_SIZE ==> start < stream)
      && (o == Terminated <==> outputCount == BLOCK_SIZE && Source(first, all, |stream| - |start| - 1) == TAB)
    }

    /** The flushes for one file, which ends in end unless a flush fails. */
    ghost predicate FollowsFile(before: seq<nat>, first: Column, all: seq<Byte>, end: Outcome, o: Outcome)
      reads this
    {
      var n := |Convert(first, all)|;
      Follows(before, FilePlan(n, end == Done), Broke(o), flushed, outputCount, if end == Done then 0 else Remainder(n))
    }

    /** Done is printed, and all is done, what waits in the input buffer, and the rest. */
    ghost predicate At(start: seq<Byte>, first: Column, all: seq<Byte>, done: seq<Byte>, rest: seq<Byte>)
      reads this, inputBuffer, outputBuffer
    {
      HasPrinted(start, first, done) && all == done + Unread() + rest
    }

    /** One input byte behind those already printed. */
    method ProcessByte(c: Byte, ghost start: seq<Byte>, ghost first: Column, ghost done: seq<Byte>)
      returns (o: Outcome)
      requires HasPrinted(start, first, done)
      modifies this, outputBuffer
      ensures inputPosition == old(inputPosition) && inputCount == old(inputCount)
      ensures o == Done || Broke(o)
      ensures o == Done ==> HasPrinted(start, first, done + [c])
      ensures Broke(o) ==> HasStopped(o, start, first, done + [c]) && outputCount == BLOCK_SIZE
      ensures AddsBlocks(old(flushed), flushed)
    {
      OneMore(first, done, c);
      Regroup(start, Convert(first, done), Emit(column, c));
      o := ProcessCharacter(c);
      if Broke(o) {
        SourceLast(first, done, c, |stream| - |start| - 1);
      }
    }

    /** One byte from the input buffer to the stream. */
    method ProcessNext(ghost start: seq<Byte>, ghost first: Column, ghost all: seq<Byte>,
                       ghost done: seq<Byte>, ghost rest: seq<Byte>) returns (o: Outcome, ghost now: seq<Byte>)
      requires At(start, first, all, done, rest) && inputPosition < inputCount
      modifies this, outputBuffer
      ensures inputCount == old(inputCount) && inputPosition == old(inputPosition) + 1
      ensures o == Done || Broke(o)
      ensures o == Done ==> At(start, first, all, now, rest)
      ensures Broke(o) ==> HasStopped(o, start, first, all) && outputCount == BLOCK_SIZE
      ensures AddsBlocks(old(flushed), flushed)
    {
      var c := inputBuffer[inputPosition];
      ghost var tail := inputBuffer[inputPosition + 1..inputCount];
      now := done + [c];
      assert all == now + (tail + rest) && all == now + tail + rest;
      inputPosition := inputPosition + 1;
      o := ProcessByte(c, start, first, done);
      if Broke(o) {
        StopsEarlier(o, start, first, now, tail + rest);
      }
    }

    /** A stop in an input is a stop in every longer one. */
    lemma StopsEarlier(o: Outcome, start: seq<Byte>, first: Column, done: seq<Byte>, later: seq<Byte>)
      requires HasStopped(o, start, first, done)
      ensures HasStopped(o, start, first, done + later)
    {
      TwoInputs(first, done, later);
      if |stream| > |start| {
        SourceFirst(first, done, later, |stream| - |start| - 1);
      }
    }

    /** The next chunk of the file, when the input buffer is used up. */
    method Refill(data: seq<Byte>, ghost start: seq<Byte>, ghost first: Column, ghost all: seq<Byte>,
                  ghost done: seq<Byte>, ghost rest: seq<Byte>)
      requires At(start, first, all, done, data + rest) && inputPosition >= inputCount
      requires 0 < |data| <= BLOCK_SIZE
      modifies this`inputPosition, this`inputCount, inputBuffer
      ensures At(start, first, all, done, rest) && inputPosition < inputCount
    {
      assert done + Unread() + (data + rest) == done + data + rest;
      Fill(data);
    }

    /** With full blocks since before, what waits is the remainder of the file. */
    lemma BlocksFollow(before: seq<nat>, start: seq<Byte>, first: Column, all: seq<Byte>)
      requires HasPrinted(start, first, all) && AddsBlocks(before, flushed) && Sum(before) == |start|
      ensures outputCount == Remainder(|Convert(first, all)|)
      ensures flushed == before + FilePlan(|Convert(first, all)|, false)
      ensures flushed + (if outputCount > 0 then [outputCount] else []) == before + FilePlan(|Convert(first, all)|, true)
    {
      PlanOfFile(before, flushed, |Convert(first, all)|, outputCount);
    }

    lemma StopFollows(before: seq<nat>, start: seq<Byte>, first: Column, all: seq<Byte>, end: Outcome, o: Outcome)
      requires Broke(o) && HasStopped(o, start, first, all) && outputCount == BLOCK_SIZE
      requires AddsBlocks(before, flushed) && Sum(before) == |start|
      ensures FollowsFile(before, first, all, end, o)
    {
      PlanInsideFile(before, flushed, |Convert(first, all)|, end == Done);
    }

    /** The flush at the end of the file. */
    method Finish(ghost start: seq<Byte>, ghost first: Column, ghost all: seq<Byte>, ghost done: seq<Byte>,
                  ghost before: seq<nat>)
      returns (o: Outcome)
      requires At(start, first, all, done, []) && inputPosition >= inputCount && AddsBlocks(before, flushed)
      modifies this`outputCount, this`sent, this`replies, this`flushed, this`failing
      ensures o == Done || o == WriteFailed
      ensures o == Done ==> HasPrinted(start, first, all) && outputCount == 0 && sent == stream
      ensures Broke(o) ==> HasStopped(o, start, first, all)
      ensures Sum(before) == |start| ==> FollowsFile(before, first, all, Done, o)
    {
      assert done + Unread() + [] == done;
      if Sum(before) == |start| { BlocksFollow(before, start, first, all); }
      var ok := Flush();
      o := if ok then Done else WriteFailed;
    }

    /**
      The processing of an input has ended with o: at its end, with everything printed and, behind a
      whole file, sent; or in it.  From an empty buffer on, the flushes have followed its plan.
    */
    ghost predicate Ended(o: Outcome, before: seq<nat>, start: seq<Byte>, first: Column, all: seq<Byte>, end: Outcome)
      reads this, outputBuffer
    {
      && (if Broke(o) then HasStopped(o, start, first, all) else o == end && HasPrinted(start, first, all))
      && (o == Done ==> outputCount == 0 && sent == stream)
      && (Sum(before) == |start| ==> FollowsFile(before, first, all, end, o))
    }

    /** What process_file_descriptor does when the input buffer is used up. */
    method ReadOn(answers: seq<ReadReply>, i: nat, ghost before: seq<nat>, ghost start: seq<Byte>,
                  ghost first: Column, ghost all: seq<Byte>, ghost done: seq<Byte>) returns (o: Outcome, stop: bool)
      requires i <= |answers| && FitsBlocks(answers) && inputPosition >= inputCount
      requires At(start, first, all, done, Input(answers[i..])) && AddsBlocks(before, flushed)
      modifies this, inputBuffer
      ensures stop ==> Ended(o, before, start, first, all, InputEnd(answers[i..]))
      ensures !stop ==> i < |answers| && At(start, first, all, done, Input(answers[i + 1..]))
      ensures !stop ==> inputPosition < inputCount && flushed == old(flushed)
      ensures !stop ==> InputEnd(answers[i..]) == InputEnd(answers[i + 1..])
    {
      o, stop := Done, true;
      if i == |answers| || answers[i] == Chunk([]) {
        o := Finish(start, first, all, done, before);
      } else if answers[i].ReadError? {
        assert done + Unread() + [] == done;
        if Sum(before) == |start| { BlocksFollow(before, start, first, all); }
        o := ReadFailed;
      } else {
        assert answers[i + 1..] == answers[i..][1..];
        Refill(answers[i].data, start, first, all, done, Input(answers[i + 1..]));
        stop := false;
      }
    }

    /** process_file_descriptor. */
    method ProcessFileDescriptor(answers: seq<ReadReply>) returns (o: Outcome)
      requires Synced() && outputCount < BLOCK_SIZE && FitsBlocks(answers)
      modifies this, inputBuffer, outputBuffer
      ensures Ended(o, old(flushed), old(stream), old(column), old(Unread()) + Input(answers), InputEnd(answers))
    {
      var i, stop := 0, false;
      ghost var start, first, all, before := stream, column, Unread() + Input(answers), flushed;
      ghost var done: seq<Byte> := [];
      assert answers[0..] == answers;
      assert start + [] == start;
      assert [] + Unread() + Input(answers) == all;
      while true
        invariant i <= |answers|
        invariant At(start, first, all, done, Input(answers[i..]))
        invariant AddsBlocks(before, flushed)
        invariant InputEnd(answers) == InputEnd(answers[i..])
        decreases |answers| - i, inputCount - inputPosition
      {
        if inputPosition >= inputCount {
          o, stop := ReadOn(answers, i, before, start, first, all, done);
          if stop {
            return;
          }
          i := i + 1;
        }
        o, done := ProcessNext(start, first, all, done, Input(answers[i..]));
        if o != Done {
          if Sum(before) == |start| { StopFollows(before, start, first, all, InputEnd(answers), o); }
          return;
        }
      }
    }

    /** process_single_file: the input buffer starts empty, the column does not. */
    method ProcessSingleFile(file: File) returns (o: Outcome)
      requires Synced() && outputCount < BLOCK_SIZE
      requires file.Readable? ==> FitsBlocks(file.answers)
      modifies this, inputBuffer, outputBuffer
      ensures Ended(o, old(flushed), old(stream), old(column), FileInput(file), FileEnd(file))
    {
      if file.Missing? {
        assert stream + [] == stream && flushed + [] == flushed;
        return OpenFailed;
      }
      inputPosition, inputCount := 0, 0;
      assert Unread() + Input(file.answers) == Input(file.answers);
      o := ProcessFileDescriptor(file.answers);
    }

    /** A stop in an input that is printed behind another is a stop in both together. */
    lemma StopsLater(o: Outcome, start: seq<Byte>, first: Column, done: seq<Byte>, one: seq<Byte>)
      requires HasStopped(o, start + Convert(first, done), ColumnPast(first, done), one)
      ensures HasStopped(o, start, first, done + one)
    {
      TwoInputs(first, done, one);
      Regroup(start, Convert(first, done), Convert(ColumnPast(first, done), one));
      if |stream| > |start| + |Convert(first, done)| {
        SourceSecond(first, done, one, |stream| - |start| - 1);
      }
    }

    /** One file after those already printed, with others to come. */
    method ProcessFileAfter(file: File, ghost start: seq<Byte>, ghost first: Column,
                            ghost done: seq<Byte>, ghost rest: seq<Byte>) returns (o: Outcome)
      requires HasPrinted(start, first, done)
      requires file.Readable? ==> FitsBlocks(file.answers)
      modifies this, inputBuffer, outputBuffer
      ensures Valid()
      ensures !Broke(o) ==> o == FileEnd(file) && HasPrinted(start, first, done + FileInput(file))
      ensures Broke(o) ==> HasStopped(o, start, first, (done + FileInput(file)) + rest)
      ensures old(outputCount) == 0 ==>
        FollowsFile(old(flushed), ColumnPast(first, done), FileInput(file), FileEnd(file), o)
      ensures o == Done ==> outputCount == 0 && sent == stream
    {
      TwoInputs(first, done, FileInput(file));
      Regroup(start, Convert(first, done), Convert(ColumnPast(first, done), FileInput(file)));
      o := ProcessSingleFile(file);
      if Broke(o) {
        StopsLater(o, start, first, done, FileInput(file));
        StopsEarlier(o, start, first, done + FileInput(file), rest);
      }
    }

    /** process_files: the files of the command line, one after the other. */
    method ProcessFiles(files: seq<File>) returns (o: Outcome)
      requires Synced() && outputCount == 0
      requires forall f :: f in files && f.Readable? ==> FitsBlocks(f.answers)
      modifies this, inputBuffer, outputBuffer
      ensures Valid()
      ensures !Broke(o) ==> o == AllEnd(files) && HasPrinted(old(stream), old(column), AllInput(files))
      ensures Broke(o) ==> HasStopped(o, old(stream), old(column), AllInput(files))
      ensures FollowsFiles(old(flushed), old(column), files, o)
    {
      ghost var start, first, before, done, plan := stream, column, flushed, [], [];
      FirstFile(first, files);
      assert start + Convert(first, done) == start && before + [] == before;
      for i := 0 to |files|
        invariant HasPrinted(start, first, done) && outputCount == 0
        invariant FilesLeft(first, files, i, done, plan) && flushed == before + plan
      {
        ghost var rest, more := NextFile(first, files, i, done, plan);
        ghost var one := FilePlanOf(ColumnPast(first, done), files[i]);
        Regroup(before, plan, one);
        Regroup(before, plan + one, more);
        o := ProcessFileAfter(files[i], start, first, done, rest);
        done, plan := done + FileInput(files[i]), plan + one;
        if o != Done {
          return;
        }
      }
      NoFilesLeft(first, files, done, plan);
      o := Done;
    }

    ghost predicate FollowsFiles(before: seq<nat>, first: Column, files: seq<File>, o: Outcome)
      reads this
    {
      Follows(before, Plan(first, files), Broke(o), flushed, outputCount, Waiting(first, files))
    }

    /**
      The destructor: one more flush, whose failure is ignored.  After a failed flush it begins
      again at the start of the buffer, so the stream is printed as it is only if that flush got
      nothing sent.
    */
    method Destroy() returns (ok: bool)
      requires Synced() || Interrupted()
      modifies this`outputCount, this`sent, this`replies
      ensures ok <==> !Fatal(old(replies), old(outputCount), 0)
      ensures sent == old(sent) + old(Redelivered())
      ensures ok ==> (sent == stream <==> old(Synced()) || Cold(failing, 0))
    {
      ghost var before, waiting, f := sent, Pending(), Deliver(replies, outputCount, 0);
      FlushFailsIff(replies, outputCount, 0);
      if outputCount > 0 { NothingSentIff(failing, outputCount, 0); }
      ok := FlushOutputBuffer();
      if ok {
        assert waiting[..f.count] == waiting;
      }
      if old(Interrupted()) && ok && |before| + old(outputCount) == |stream| {
        assert stream == stream[..|before|] + stream[|before|..];
      }
    }
  }

  /** The flushes for one file that is printed from a column on. */
  function FilePlanOf(column: Column, file: File): (sizes: seq<nat>) {
    FilePlan(|Convert(column, FileInput(file))|, FileEnd(file) == Done)
  }

  /** The flushes for all files: each file that is read to its end is flushed behind it. */
  function Plan(column: Column, files: seq<File>): (sizes: seq<nat>)
    decreases |files|
  {
    if files == [] then []
    else
      FilePlanOf(column, files[0]) +
      if FileEnd(files[0]) == Done then Plan(ColumnPast(column, FileInput(files[0])), files[1..]) else []
  }

  /** The bytes that a read error leaves for the destructor to flush. */
  function Waiting(column: Column, files: seq<File>): (n: nat)
    decreases |files|
  {
    if files == [] then 0
    else if FileEnd(files[0]) == Done then Waiting(ColumnPast(column, FileInput(files[0])), files[1..])
    else Remainder(|Convert(column, FileInput(files[0]))|)
  }

  /** The flushes and what waits for the destructor are the whole text. */
  lemma {:induction false} PlanIsWholeText(column: Column, files: seq<File>)
    ensures Sum(Plan(column, files)) + Waiting(column, files) == |Convert(column, AllInput(files))|
    decreases |files|
  {
    if files == [] {
      ConvertOne(column, 0);
    } else {
      var input, end := FileInput(files[0]), FileEnd(files[0]);
      var n := |Convert(column, input)|;
      PlanMeans(n, end == Done);
      if end == Done {
        var next := ColumnPast(column, input);
        PlanIsWholeText(next, files[1..]);
        SumAppend(FilePlanOf(column, files[0]), Plan(next, files[1..]));
        TwoInputs(column, input, AllInput(files[1..]));
      } else {
        assert FilePlanOf(column, files[0]) + [] == FilePlanOf(column, files[0]);
        assert input + [] == input;
      }
    }
  }

  /** The files before i are done, and what is left decides the end and the flushes to come. */
  ghost predicate FilesLeft(first: Column, files: seq<File>, i: nat, done: seq<Byte>, plan: seq<nat>) {
    && i <= |files|
    && AllInput(files) == done + AllInput(files[i..])
    && AllEnd(files) == AllEnd(files[i..])
    && Plan(first, files) == plan + Plan(ColumnPast(first, done), files[i..])
    && Waiting(first, files) == Waiting(ColumnPast(first, done), files[i..])
  }

  lemma FirstFile(first: Column, files: seq<File>)
    ensures FilesLeft(first, files, 0, [], [])
  {
    assert files[0..] == files;
    assert ColumnPast(first, []) == first;
    assert [] + AllInput(files) == AllInput(files) && [] + Plan(first, files) == Plan(first, files);
  }

  lemma NoFilesLeft(first: Column, files: seq<File>, done: seq<Byte>, plan: seq<nat>)
    requires FilesLeft(first, files, |files|, done, plan)
    ensures AllInput(files) == done && AllEnd(files) == Done
    ensures Plan(first, files) == plan && Waiting(first, files) == 0
  {
    assert files[|files|..] == [] && done + [] == done && plan + [] == plan;
  }

  lemma NextFile(first: Column, files: seq<File>, i: nat, done: seq<Byte>, plan: seq<nat>)
    returns (rest: seq<Byte>, more: seq<nat>)
    requires i < |files| && FilesLeft(first, files, i, done, plan)
    ensures var now, one := done + FileInput(files[i]), FilePlanOf(ColumnPast(first, done), files[i]);
            && AllInput(files) == now + rest
            && Plan(first, files) == (plan + one) + more
            && if FileEnd(files[i]) == Done then FilesLeft(first, files, i + 1, now, plan + one)
               else
                 && AllInput(files) == now && AllEnd(files) == FileEnd(files[i])
                 && Plan(first, files) == plan + one
                 && Waiting(first, files) == Remainder(|Convert(ColumnPast(first, done), FileInput(files[i]))|)
  {
    var column := ColumnPast(first, done);
    var one := FilePlanOf(column, files[i]);
    assert files[i..][0] == files[i] && files[i..][1..] == files[i + 1..];
    TwoInputs(first, done, FileInput(files[i]));
    if FileEnd(files[i]) == Done {
      rest, more := AllInput(files[i + 1..]), Plan(ColumnPast(column, FileInput(files[i])), files[i + 1..]);
    } else {
      rest, more := [], [];
      assert FileInput(files[i]) + [] == FileInput(files[i]) && one + [] == one;
    }
    Regroup(done, FileInput(files[i]), rest);
    Regroup(plan, one, more);
  }

  /** The tab loop stops at the tab stop and not before. */
  lemma SpacesReachStop(column: Column, n: nat)
    requires 1 <= n <= 8 - column % 8
    ensures ColumnAfter(column, Spaces(n)) % 8 == 0 <==> n == 8 - column % 8
  {
    SpacesKeepCounting(column, n);
  }

  // ---------------------------------------------------------------------------------
  // A failed flush and the destructor's flush
  // ---------------------------------------------------------------------------------

  /**
    What is printed of a text when a flush of size bytes at q fails: all up to there and the part of
    it that was accepted, and, unless the program is terminated, what a second flush gets through.
  */
  function PrintedOf(text: seq<Byte>, q: nat, size: nat, answers: seq<Reply>, terminated: bool): (printed: seq<Byte>)
    requires q + size <= |text|
  {
    var f := Deliver(answers, size, 0);
    text[..q + f.count] + if terminated then [] else text[q..q + Deliver(f.rest, size, 0).count]
  }

  /**
    If the answers of a flush end in failure and the next ones let the same bytes through, the text up
    to their end is printed once exactly when the first answers accepted nothing.
  */
  lemma RepeatsUnlessCold(text: seq<Byte>, q: nat, size: nat, first: seq<Reply>, second: seq<Reply>)
    requires q + size <= |text| && EndsFatally(first, size, 0) && !Fatal(second, size, 0)
    ensures PrintedOf(text, q, size, first + second, false) == text[..q + size] <==> Cold(first, 0)
  {
    StopsAtFatal(first, second, size, 0);
    StopsAtFatal(first, [], size, 0);
    assert first + [] == first;
    NothingSentIff(first, size, 0);
    FlushFailsIff(second, size, 0);
    assert text[..q] + text[q..q + size] == text[..q + size];
  }

  /** Two bytes of which one is accepted before an error: the first is printed twice. */
  lemma RepeatsAByte()
    ensures PrintedOf([65, 66], 0, 2, [Wrote(1), Broken], false) == [65, 65, 66]
  {
    var replies := [Wrote(1), Broken];
    assert replies[1..] == [Broken];
    assert Deliver([Broken], 1, 0) == Receipt(0, false, []);
    assert Deliver(replies, 2, 0) == Receipt(1, false, []);
  }

  // ---------------------------------------------------------------------------------
  // The program
  // ---------------------------------------------------------------------------------

  /**
    Flush m of a plan for a text is the first to fail.  Everything before it is printed, and the part
    of it that was accepted.  If a tab of the input filled the buffer that is all; otherwise the
    destructor's flush begins again where the failed one began.
  */
  ghost predicate BreaksAt(input: seq<Byte>, text: seq<Byte>, plan: seq<nat>, replies: seq<Reply>,
                           m: nat, o: Outcome, printed: seq<Byte>)
  {
    && FailsAt(replies, plan, m)
    && var q, size := Sum(plan[..m]), plan[m];
    && q + size <= |text|
    && o == (if size == BLOCK_SIZE && Source(0, input, q + size - 1) == TAB then Terminated else WriteFailed)
    && printed == PrintedOf(text, q, size, After(replies, plan[..m]).value, o == Terminated)
  }

  /** All flushes of a plan succeed, and the destructor flushes what is left waiting. */
  ghost predicate EndsWell(text: seq<Byte>, plan: seq<nat>, waiting: nat, replies: seq<Reply>, printed: seq<Byte>) {
    && After(replies, plan).Some?
    && waiting <= |text|
    && printed == text[..|text| - waiting + Deliver(After(replies, plan).value, waiting, 0).count]
  }

  /** How a run over these files against these answers ends, and what it prints. */
  ghost predicate Prints(files: seq<File>, replies: seq<Reply>, o: Outcome, printed: seq<Byte>) {
    var input, plan := AllInput(files), Plan(0, files);
    if Broke(o) then exists m: nat :: BreaksAt(input, Convert(0, input), plan, replies, m, o, printed)
    else o == AllEnd(files) && EndsWell(Convert(0, input), plan, Waiting(0, files), replies, printed)
  }

  lemma BreaksOneWay(input: seq<Byte>, text: seq<Byte>, plan: seq<nat>, replies: seq<Reply>,
                     m: nat, o: Outcome, printed: seq<Byte>, m': nat, o': Outcome, printed': seq<Byte>)
    requires BreaksAt(input, text, plan, replies, m, o, printed)
    ensures After(replies, plan).None?
    ensures BreaksAt(input, text, plan, replies, m', o', printed') ==> o == o' && printed == printed'
  {
    FailsOnce(replies, plan, m, m');
  }

  /** Files and answers decide both. */
  lemma OutcomeIsDetermined(files: seq<File>, replies: seq<Reply>,
                            o: Outcome, printed: seq<Byte>, o': Outcome, printed': seq<Byte>)
    requires Prints(files, replies, o, printed) && Prints(files, replies, o', printed')
    ensures o == o' && printed == printed'
  {
    var input, plan := AllInput(files), Plan(0, files);
    var text := Convert(0, input);
    if Broke(o) {
      var m: nat :| BreaksAt(input, text, plan, replies, m, o, printed);
      BreaksOneWay(input, text, plan, replies, m, o, printed, m, o, printed);
      var m': nat :| BreaksAt(input, text, plan, replies, m', o', printed');
      BreaksOneWay(input, text, plan, replies, m, o, printed, m', o', printed');
    } else if Broke(o') {
      var m': nat :| BreaksAt(input, text, plan, replies, m', o', printed');
      BreaksOneWay(input, text, plan, replies, m', o', printed', m', o', printed');
    }
  }

  /** A run that is not stopped by a failed flush or a read error prints the whole text. */
  lemma WholeTextIsPrinted(files: seq<File>, replies: seq<Reply>, o: Outcome, printed: seq<Byte>)
    requires Prints(files, replies, o, printed) && (o == Done || o == OpenFailed)
    ensures printed == Convert(0, AllInput(files))
  {
    NothingWaits(0, files);
  }

  lemma {:induction false} NothingWaits(column: Column, files: seq<File>)
    requires AllEnd(files) != ReadFailed
    ensures Waiting(column, files) == 0
    decreases |files|
  {
    if files != [] && FileEnd(files[0]) == Done {
      NothingWaits(ColumnPast(column, FileInput(files[0])), files[1..]);
    }
  }

  /**
    After a write error, if the destructor gets the whole buffer through, everything up to its end
    is printed once exactly when the failed flush was answered coldly.
  */
  lemma PrintedOnceIff(input: seq<Byte>, text: seq<Byte>, plan: seq<nat>, replies: seq<Reply>,
                       m: nat, printed: seq<Byte>)
    requires BreaksAt(input, text, plan, replies, m, WriteFailed, printed)
    requires !Fatal(Deliver(After(replies, plan[..m]).value, plan[m], 0).rest, plan[m], 0)
    ensures printed == text[..Sum(plan[..m]) + plan[m]] <==> Cold(After(replies, plan[..m]).value, 0)
  {
    var q, size, answers := Sum(plan[..m]), plan[m], After(replies, plan[..m]).value;
    var f := Deliver(answers, size, 0);
    NothingSentIff(answers, size, 0);
    FlushFailsIff(f.rest, size, 0);
    assert |printed| == q + f.count + size;
    assert text[..q] + text[q..q + size] == text[..q + size];
  }

  /** The end of main: the destructor runs unless the program was terminated. */
  method Close(printer: UniversalLinePrinter, o: Outcome) returns (printed: seq<Byte>)
    requires printer.Synced() || printer.Interrupted()
    modifies printer
    ensures printed == old(printer.sent) + if o == Terminated then [] else old(printer.Redelivered())
  {
    assert printer.sent + [] == printer.sent;
    if o != Terminated {
      var _ := printer.Destroy();
    }
    printed := printer.sent;
  }

  lemma StopBreaks(printer: UniversalLinePrinter, o: Outcome, input: seq<Byte>, text: seq<Byte>, plan: seq<nat>)
    requires Broke(o) && printer.HasStopped(o, [], 0, input) && text == [] + Convert(0, input)
    requires printer.flushed + [printer.outputCount] <= plan
    ensures Sum(printer.flushed) + printer.outputCount <= |text|
    ensures BreaksAt(input, text, plan, printer.script, |printer.flushed|, o,
                     PrintedOf(text, Sum(printer.flushed), printer.outputCount, printer.failing, o == Terminated))
  {
    BreaksByPlan(input, text, plan, printer.script, o, printer.flushed, printer.outputCount, printer.failing);
  }

  lemma StopPrints(printer: UniversalLinePrinter, text: seq<Byte>, terminated: bool)
    requires printer.Interrupted() && printer.stream <= text
    ensures PrintedOf(text, Sum(printer.flushed), printer.outputCount, printer.failing, terminated) ==
            printer.sent + if terminated then [] else printer.Redelivered()
  {
    PrintedIs(text, printer.stream, Sum(printer.flushed), printer.outputCount, printer.failing, printer.replies,
              |printer.sent|, terminated);
  }

  /** The first flush of a plan that does not succeed. */
  lemma BreaksByPlan(input: seq<Byte>, text: seq<Byte>, plan: seq<nat>, script: seq<Reply>, o: Outcome,
                     flushed: seq<nat>, count: nat, failing: seq<Reply>)
    requires flushed + [count] <= plan && Sum(flushed) + count <= |text|
    requires After(script, flushed) == Some(failing) && !Deliver(failing, count, 0).ok
    requires Broke(o)
    requires o == Terminated <==> count == BLOCK_SIZE && Source(0, input, Sum(flushed) + count - 1) == TAB
    ensures BreaksAt(input, text, plan, script, |flushed|, o,
                     PrintedOf(text, Sum(flushed), count, failing, o == Terminated))
  {
    assert plan[..|flushed|] == flushed && plan[|flushed|] == count;
  }

  /** What is printed, by the bytes of the stream that were sent and those that still waited. */
  lemma PrintedIs(text: seq<Byte>, stream: seq<Byte>, q: nat, count: nat, failing: seq<Reply>, replies: seq<Reply>,
                  p: nat, terminated: bool)
    requires stream <= text && q + count == |stream| && q <= p <= |stream|
    requires Deliver(failing, count, 0) == Receipt(p - q, false, replies)
    ensures PrintedOf(text, q, count, failing, terminated) ==
            stream[..p] + if terminated then [] else stream[q..][..Deliver(replies, count, 0).count]
  {
    var g := Deliver(replies, count, 0).count;
    assert stream[q..][..g] == text[q..q + g];
    assert stream[..p] == text[..p];
  }

  lemma EndIsWell(printer: UniversalLinePrinter, text: seq<Byte>, plan: seq<nat>)
    requires printer.Synced() && printer.stream == text && printer.flushed == plan
    ensures EndsWell(text, plan, printer.outputCount, printer.script, printer.sent + printer.Redelivered())
  {
    SentSoFar(text, printer.sent, printer.Pending(), |printer.Redelivered()|);
  }

  lemma SentSoFar(text: seq<Byte>, sent: seq<Byte>, waiting: seq<Byte>, n: nat)
    requires text == sent + waiting && n <= |waiting|
    ensures text[..|text| - |waiting| + n] == sent + waiting[..n]
  {}

  /** main: standard input, or the files of the command line, against a device that answers replies. */
  method Lpr(files: seq<File>, stdin: seq<ReadReply>, replies: seq<Reply>)
    returns (o: Outcome, printed: seq<Byte>)
    requires FitsBlocks(stdin)
    requires forall f :: f in files && f.Readable? ==> FitsBlocks(f.answers)
    ensures Prints(if files == [] then [Readable(stdin)] else files, replies, o, printed)
  {
    var printer := new UniversalLinePrinter(replies);
    ghost var sources := if files == [] then [Readable(stdin)] else files;
    if files == [] {
      OneFile(stdin);
      assert printer.Unread() + Input(stdin) == Input(stdin);
      o := printer.ProcessFileDescriptor(stdin);
    } else {
      o := printer.ProcessFiles(files);
    }
    assert [] + Plan(0, sources) == Plan(0, sources);
    ghost var text := Convert(0, AllInput(sources));
    assert [] + text == text;
    if Broke(o) {
      StopBreaks(printer, o, AllInput(sources), text, Plan(0, sources));
      StopPrints(printer, text, o == Terminated);
    } else {
      EndIsWell(printer, text, Plan(0, sources));
    }
    printed := Close(printer, o);
  }

  lemma TwoByteFile(files: seq<File>)
    requires files == [Readable([Chunk([65, 66])])]
    ensures AllInput(files) == Convert(0, AllInput(files)) == [65, 66] && Plan(0, files) == [2]
  {
    var answers := [Chunk([65, 66])];
    OneFile(answers);
    assert answers[1..] == [];
    assert Input(answers) == [65, 66] && InputEnd(answers) == Done;
    TwoPlainBytes();
  }

  lemma TwoBytesBreak(replies: seq<Reply>, plan: seq<nat>)
    requires replies == [Wrote(1), Broken] && plan == [2]
    ensures BreaksAt([65, 66], [65, 66], plan, replies, 0, WriteFailed, [65, 65, 66])
  {
    RepeatsAByte();
    assert plan[..0] == [] && replies[1..] == [Broken];
    assert Deliver([Broken], 1, 0) == Receipt(0, false, []);
  }

  /** A file of two bytes of which the device accepts one before an error: every run prints three. */
  lemma TwoBytesPrintThree(files: seq<File>, replies: seq<Reply>, o: Outcome, printed: seq<Byte>)
    requires files == [Readable([Chunk([65, 66])])] && replies == [Wrote(1), Broken]
    requires Prints(files, replies, o, printed)
    ensures o == WriteFailed && printed == [65, 65, 66]
  {
    TwoByteFile(files);
    TwoBytesBreak(replies, Plan(0, files));
    OutcomeIsDetermined(files, replies, o, printed, WriteFailed, [65, 65, 66]);
  }

  lemma TwoPlainBytes()
    ensures Convert(0, [65, 66]) == [65, 66]
  {
    assert [] + [65] == [65] && [65] + [66] == [65, 66];
    ConvertLast(0, [], 65);
    ConvertLast(0, [65], 66);
  }

  lemma OneFile(answers: seq<ReadReply>)
    ensures var files := [Readable(answers)];
            && AllInput(files) == Input(answers) && AllEnd(files) == InputEnd(answers)
            && Plan(0, files) == FilePlan(|Convert(0, Input(answers))|, InputEnd(answers) == Done)
            && Waiting(0, files) == if InputEnd(answers) == Done then 0 else Remainder(|Convert(0, Input(answers))|)
  {
    var files := [Readable(answers)];
    assert files[1..] == [];
    assert Input(answers) + [] == Input(answers);
    var plan := FilePlanOf(0, files[0]);
    assert plan + [] == plan;
  }
}
