/** Reading lines from a descriptor that delivers blocks, with state kept from call to call. */
module LineReader {
  import opened CStrings
  import opened Options

  const BLOCK_SIZE := 32
  const NEWLINE: Byte := 10

  // ----- Reference: an unbuffered reader over a byte stream -----

  /** Bytes a line may hold before its newline, for a caller's buffer size. */
  function Limit(size: int): nat {
    if size >= 1 then size - 1 else 0
  }

  /** How much of `stream` one call takes: at most `limit` other bytes, then a newline if it is next. */
  function LineLength(stream: seq<Byte>, limit: nat): (n: nat)
    ensures n <= |stream| && n <= limit + 1
  {
    if stream == [] then 0
    else if stream[0] == NEWLINE then 1
    else if limit == 0 then 0
    else 1 + LineLength(stream[1..], limit - 1)
  }

  /** The lines successive calls return: `None` where a call returns NULL. */
  function LinesOf(stream: seq<Byte>, sizes: seq<int>): seq<Option<seq<Byte>>>
    decreases |sizes|
  {
    if sizes == [] then []
    else if stream == [] then [None] + LinesOf(stream, sizes[1..])
    else
      var n := LineLength(stream, Limit(sizes[0]));
      [Some(stream[..n])] + LinesOf(stream[n..], sizes[1..])
  }

  /** The bytes still unread after those calls. */
  function Remainder(stream: seq<Byte>, sizes: seq<int>): seq<Byte>
    decreases |sizes|
  {
    if sizes == [] then stream
    else Remainder(stream[LineLength(stream, Limit(sizes[0]))..], sizes[1..])
  }

  function Concat(lines: seq<Option<seq<Byte>>>): seq<Byte> {
    if lines == [] then [] else (if lines[0].Some? then lines[0].value else []) + Concat(lines[1..])
  }

  function Flatten(blocks: seq<seq<Byte>>): seq<Byte> {
    if blocks == [] then [] else blocks[0] + Flatten(blocks[1..])
  }

  // ----- Laws of the reference reader -----

  lemma NoMoreCalls(s: seq<Byte>)
    ensures LinesOf(s, []) == [] && Remainder(s, []) == s
  {
  }

  lemma CallStep(s: seq<Byte>, sizes: seq<int>)
    requires sizes != []
    ensures var n := LineLength(s, Limit(sizes[0]));
            && LinesOf(s, sizes) == [if s == [] then None else Some(s[..n])] + LinesOf(s[n..], sizes[1..])
            && Remainder(s, sizes) == Remainder(s[n..], sizes[1..])
  {
  }

  /** No byte is lost, invented or reordered. */
  lemma {:induction false} LinesConserve(stream: seq<Byte>, sizes: seq<int>)
    ensures |LinesOf(stream, sizes)| == |sizes|
    ensures Concat(LinesOf(stream, sizes)) + Remainder(stream, sizes) == stream
    decreases |sizes|
  {
    hide LinesOf, Remainder, LineLength, Concat;
    if sizes == [] {
      NoMoreCalls(stream);
      NoLines(stream);
    } else {
      var n := LineLength(stream, Limit(sizes[0]));
      CallStep(stream, sizes);
      LinesConserve(stream[n..], sizes[1..]);
      OneMoreLine(stream, n, LinesOf(stream[n..], sizes[1..]), Remainder(stream[n..], sizes[1..]));
    }
  }

  lemma NoLines(stream: seq<Byte>)
    ensures Concat([]) + stream == stream
  {
  }

  lemma OneMoreLine(stream: seq<Byte>, n: nat, rest: seq<Option<seq<Byte>>>, remainder: seq<Byte>)
    requires n <= |stream| && Concat(rest) + remainder == stream[n..]
    ensures Concat([if stream == [] then None else Some(stream[..n])] + rest) + remainder == stream
  {
    var lines := [if stream == [] then None else Some(stream[..n])] + rest;
    assert lines[1..] == rest;
    assert stream == stream[..n] + stream[n..];
    assert stream[..n] + Concat(rest) + remainder == stream[..n] + (Concat(rest) + remainder);
  }

  lemma {:induction false} NothingLeft(sizes: seq<int>)
    ensures |LinesOf([], sizes)| == |sizes|
    ensures forall j :: 0 <= j < |sizes| ==> LinesOf([], sizes)[j] == None
    decreases |sizes|
  {
    if sizes != [] {
      NothingLeft(sizes[1..]);
    }
  }

  /** NULL means that everything is read, and once NULL is returned every later call returns it. */
  lemma {:induction false} NullIsFinal(stream: seq<Byte>, sizes: seq<int>, i: nat)
    requires i < |sizes| && |LinesOf(stream, sizes)| == |sizes|
    ensures LinesOf(stream, sizes)[i] == None <==> Remainder(stream, sizes[..i]) == []
    ensures forall j :: i <= j < |sizes| && LinesOf(stream, sizes)[i] == None ==> LinesOf(stream, sizes)[j] == None
    decreases |sizes|
  {
    hide LinesOf, Remainder, LineLength, Concat;
    var n := LineLength(stream, Limit(sizes[0]));
    CallStep(stream, sizes);
    if i == 0 {
      assert sizes[..0] == [];
      NoMoreCalls(stream);
      if stream == [] {
        NothingLeft(sizes);
      }
    } else {
      LinesConserve(stream[n..], sizes[1..]);
      NullIsFinal(stream[n..], sizes[1..], i - 1);
      assert sizes[..i][1..] == sizes[1..][..i - 1];
      CallStep(stream, sizes[..i]);
      assert forall j :: i <= j < |sizes| ==> LinesOf(stream, sizes)[j] == LinesOf(stream[n..], sizes[1..])[j - 1];
    }
  }

  /** With buffers of size 2 or more, as many calls as there are bytes read everything. */
  lemma {:induction false} AllIsRead(stream: seq<Byte>, sizes: seq<int>)
    requires |stream| <= |sizes| && forall i :: 0 <= i < |sizes| ==> sizes[i] >= 2
    ensures Remainder(stream, sizes) == []
    decreases |sizes|
  {
    if sizes != [] {
      AllIsRead(stream[LineLength(stream, Limit(sizes[0]))..], sizes[1..]);
    }
  }

  /** What a returned line looks like. */
  lemma {:induction false} LineShape(stream: seq<Byte>, limit: nat)
    ensures var n := LineLength(stream, limit);
            && (forall i :: 0 <= i < n - 1 ==> stream[i] != NEWLINE)
            && ((n > 0 && stream[n - 1] == NEWLINE) || n == limit || n == |stream|)
            && (n == limit && n < |stream| && (n == 0 || stream[n - 1] != NEWLINE) ==> stream[n] != NEWLINE)
  {
    if stream != [] && stream[0] != NEWLINE && limit > 0 {
      LineShape(stream[1..], limit - 1);
      var m := LineLength(stream[1..], limit - 1);
      assert forall i :: 0 < i < m ==> stream[i] == stream[1..][i - 1];
    }
  }

  /** The index of the first newline (byte 10); the length of the stream if there is none. */
  function FirstNewline(stream: seq<Byte>): (m: nat)
    ensures m <= |stream| && (m < |stream| ==> stream[m] == 10)
    ensures forall i :: 0 <= i < m ==> stream[i] != 10
  {
    if stream == [] || stream[0] == NEWLINE then 0 else 1 + FirstNewline(stream[1..])
  }

  /** The length of a line from the caller's size and the first newline. */
  function LineSize(stream: seq<Byte>, size: int): nat {
    var m, room := FirstNewline(stream), if size >= 1 then size - 1 else 0;
    if m <= room && m < |stream| then m + 1 else if |stream| <= room then |stream| else room
  }

  lemma {:induction false} LimitExact(stream: seq<Byte>, limit: nat)
    ensures LineLength(stream, limit) == LineSize(stream, limit + 1)
    decreases |stream|
  {
    if stream != [] && stream[0] != NEWLINE && limit > 0 {
      LimitExact(stream[1..], limit - 1);
    }
  }

  lemma SizeOfLimit(stream: seq<Byte>, size: int)
    ensures LineSize(stream, size) == LineSize(stream, Limit(size) + 1)
  {
  }

  /**
    * What a call takes, in the caller's size alone: up to and including a newline among the first
    * `size` bytes, and otherwise `size - 1` bytes or all there are.
    */
  lemma SizeExact(stream: seq<Byte>, size: int)
    requires size >= 1
    ensures var n := LineLength(stream, Limit(size));
            && (forall m :: 0 <= m < |stream| && m <= size - 1 && stream[m] == 10 && (forall i :: 0 <= i < m ==> stream[i] != 10) ==> n == m + 1)
            && ((forall i :: 0 <= i < |stream| && i <= size - 1 ==> stream[i] != 10) ==> n == if |stream| < size then |stream| else size - 1)
  {
    hide LineLength;
    LimitExact(stream, Limit(size));
    var f := FirstNewline(stream);
    forall m | 0 <= m < |stream| && m <= size - 1 && stream[m] == 10 && (forall i :: 0 <= i < m ==> stream[i] != 10)
      ensures LineLength(stream, Limit(size)) == m + 1
    {
      assert f == m;
    }
  }

  /** A call in progress: `b` bytes of the line are taken and `rest` is still pending. */
  ghost predicate Taking(stream: seq<Byte>, limit: nat, b: nat, rest: seq<Byte>) {
    b <= |stream| && b <= limit && rest == stream[b..] && LineLength(stream, limit) == b + LineLength(rest, limit - b)
  }

  lemma TakingStart(stream: seq<Byte>, limit: nat)
    ensures Taking(stream, limit, 0, stream)
  {
    assert stream[0..] == stream;
  }

  lemma TakingStep(stream: seq<Byte>, limit: nat, b: nat, rest: seq<Byte>)
    requires Taking(stream, limit, b, rest)
    ensures b <= limit && b <= |stream|
    ensures rest == [] ==> LineLength(stream, limit) == b == |stream| && rest == stream[b..]
    ensures rest != [] && rest[0] == NEWLINE ==> LineLength(stream, limit) == b + 1 && rest[1..] == stream[b + 1..]
    ensures rest != [] && rest[0] != NEWLINE && b == limit ==> LineLength(stream, limit) == b && rest == stream[b..]
    ensures rest != [] && rest[0] != NEWLINE && b < limit ==> Taking(stream, limit, b + 1, rest[1..])
    ensures rest != [] ==> b < |stream| && stream[b] == rest[0]
  {
    if rest != [] {
      assert rest[1..] == stream[b + 1..];
    }
  }

  // ----- Comparison with fgets -----

  /** How much `fgets` takes with room for `limit` bytes. */
  function FgetsLength(stream: seq<Byte>, limit: nat): (n: nat)
    ensures n <= limit
  {
    if stream == [] || limit == 0 then 0
    else if stream[0] == NEWLINE then 1
    else 1 + FgetsLength(stream[1..], limit - 1)
  }

  /** The first newline comes right after exactly `limit` other bytes. */
  predicate NewlineAtLimit(stream: seq<Byte>, limit: nat) {
    limit < |stream| && stream[limit] == NEWLINE && forall i :: 0 <= i < limit ==> stream[i] != NEWLINE
  }

  /**
    * A call takes what `fgets` would take unless the newline sits at the limit; then it takes that
    * newline too, and the line and its terminator need one cell more than the caller announced.
    */
  lemma {:induction false} FgetsExceptAtLimit(stream: seq<Byte>, limit: nat)
    ensures LineLength(stream, limit) == FgetsLength(stream, limit) <==> !NewlineAtLimit(stream, limit)
    ensures LineLength(stream, limit) == limit + 1 <==> NewlineAtLimit(stream, limit)
  {
    if stream != [] && stream[0] != NEWLINE && limit > 0 {
      FgetsExceptAtLimit(stream[1..], limit - 1);
      assert NewlineAtLimit(stream, limit) <==> NewlineAtLimit(stream[1..], limit - 1) by {
        assert forall i :: 1 <= i < |stream| ==> stream[i] == stream[1..][i - 1];
        if NewlineAtLimit(stream[1..], limit - 1) {
          forall i | 0 <= i < limit ensures stream[i] != NEWLINE {
            if i > 0 {
              assert stream[1..][i - 1] != NEWLINE;
            }
          }
        }
      }
    }
  }

  /** With a size of 2, "a" and a newline come as one line, of which `fgets` would take the "a". */
  lemma LineTooLong()
    ensures LinesOf([97, NEWLINE], [2]) == [Some([97, NEWLINE])] && FgetsLength([97, NEWLINE], Limit(2)) == 1
  {
    var stream: seq<Byte> := [97, NEWLINE];
    assert stream[1..] == [NEWLINE];
    assert LineLength(stream, 1) == 2;
    assert stream[..2] == stream;
  }

  // ----- The buffered reader -----

  /** A descriptor: the blocks it will deliver, and what it answers when they are used up. */
  class BlockSource {
    var blocks: seq<seq<Byte>>
    const atEnd: int

    ghost predicate Valid()
      reads this
    {
      atEnd <= 0 && forall b :: b in blocks ==> 1 <= |b| <= BLOCK_SIZE
    }

    constructor (blocks: seq<seq<Byte>>, atEnd: int)
      requires atEnd <= 0 && forall b :: b in blocks ==> 1 <= |b| <= BLOCK_SIZE
      ensures Valid() && this.blocks == blocks
    {
      this.blocks, this.atEnd := blocks, atEnd;
    }

    method ReadBlock(buff: array<Byte>) returns (n: int)
      requires Valid() && buff.Length > BLOCK_SIZE
      modifies this, buff
      ensures Valid()
      ensures old(blocks) == [] ==> n <= 0 && blocks == []
      ensures old(blocks) != [] ==> n == |old(blocks)[0]| && buff[..n] == old(blocks)[0] && blocks == old(blocks)[1..]
    {
      if blocks == [] {
        return atEnd;
      }
      n := |blocks[0]|;
      forall i | 0 <= i < n {
        buff[i] := blocks[0][i];
      }
      blocks := blocks[1..];
    }
  }

  class Reader {
    const source: BlockSource
    const block: array<Byte>
    var currentBlockSize: int
    var blockIndex: int
    var newBlockNeeded: bool
    var eofOrError: bool

    ghost predicate Valid()
      reads this, source
    {
      && block.Length == BLOCK_SIZE + 1 && source.Valid()
      && (!newBlockNeeded ==> 0 <= blockIndex <= currentBlockSize <= BLOCK_SIZE)
      && (eofOrError ==> newBlockNeeded && source.blocks == [])
    }

    /** The bytes not yet returned: what is left of the block, then the blocks to come. */
    ghost function Pending(): seq<Byte>
      requires Valid()
      reads this, source, block
    {
      (if newBlockNeeded then [] else block[blockIndex..currentBlockSize]) + Flatten(source.blocks)
    }

    constructor (source: BlockSource)
      requires source.Valid()
      ensures Valid() && this.source == source && fresh(block) && Pending() == Flatten(source.blocks)
      ensures block.Length == 33
    {
      this.source := source;
      block := new Byte[BLOCK_SIZE + 1];
      currentBlockSize, blockIndex := 0, 0;
      newBlockNeeded, eofOrError := true, false;
    }

    /** Reads the next block if one is needed; answers whether there is a block. */
    method Refill() returns (ok: bool)
      requires Valid() && !eofOrError
      modifies this, source, block
      ensures Valid() && Pending() == old(Pending())
      ensures ok ==> !newBlockNeeded && !eofOrError
      ensures !ok ==> eofOrError && Pending() == []
      ensures ok && old(newBlockNeeded) ==> |source.blocks| < |old(source.blocks)|
      ensures ok && !old(newBlockNeeded) ==> source.blocks == old(source.blocks)
    {
      if newBlockNeeded {
        currentBlockSize := source.ReadBlock(block);
        if currentBlockSize <= 0 {
          eofOrError := true;
          return false;
        }
        blockIndex := 0;
        newBlockNeeded := false;
        assert block[0..currentBlockSize] == block[..currentBlockSize];
      }
      return true;
    }

    /** The end of the block is reached: the next byte, if any, is in the next one. */
    method DropBlock()
      requires Valid() && !newBlockNeeded && blockIndex > currentBlockSize - 1
      modifies this`newBlockNeeded
      ensures Valid() && newBlockNeeded && Pending() == old(Pending())
    {
      newBlockNeeded := true;
    }

    /** The next byte of the block is the next pending byte. */
    lemma HeadPending()
      requires Valid() && !newBlockNeeded && blockIndex < currentBlockSize
      ensures Pending() != [] && Pending()[0] == block[blockIndex]
    {
      hide Flatten;
    }

    lemma EndPending()
      requires Valid() && eofOrError
      ensures Pending() == []
    {
    }

    /** Moves past the next byte of the block. */
    method Advance()
      requires Valid() && !newBlockNeeded && blockIndex < currentBlockSize
      modifies this`blockIndex
      ensures Valid()
      ensures old(Pending()) != [] && Pending() == old(Pending())[1..]
    {
      hide Flatten;
      ghost var left := block[blockIndex..currentBlockSize];
      DropHead(left, Flatten(source.blocks));
      blockIndex := blockIndex + 1;
      assert block[blockIndex..currentBlockSize] == left[1..];
    }

    /**
      * One pass of the loop of a call, once there is a block: `i` is the index in `buff`
      * afterwards, and `done` says that the line is complete.
      */
    method TakeByte(buff: array<Byte>, room: int, bufferIndex: nat, ghost s: seq<Byte>, ghost before: seq<Byte>)
      returns (done: bool, i: nat)
      requires Valid() && !newBlockNeeded && buff != block && |before| >= Limit(room + 1) + 2
      requires bufferIndex <= Limit(room + 1) && Taking(s, Limit(room + 1), bufferIndex, Pending())
      requires Filled(buff[..], before, s, bufferIndex)
      modifies this`newBlockNeeded, this`blockIndex, buff
      ensures Valid() && Filled(buff[..], before, s, i)
      ensures done ==> s != [] && i == LineLength(s, Limit(room + 1)) && Pending() == s[i..]
      ensures !done ==> i <= Limit(room + 1) && Taking(s, Limit(room + 1), i, Pending())
      ensures !done ==> |Pending()| < |old(Pending())| || (Pending() == old(Pending()) && newBlockNeeded)
    {
      hide LineLength, Flatten, Pending, Filled, Taking;
      TakingStep(s, Limit(room + 1), bufferIndex, Pending());
      FilledStep(buff[..], before, s, bufferIndex);
      if blockIndex > currentBlockSize - 1 {
        DropBlock();
        return false, bufferIndex;
      }
      HeadPending();
      if block[blockIndex] == NEWLINE {
        Put(buff, bufferIndex, block[blockIndex]);
        Advance();
        return true, bufferIndex + 1;
      } else if bufferIndex > room - 1 {
        return true, bufferIndex;
      }
      Put(buff, bufferIndex, block[blockIndex]);
      Advance();
      return false, bufferIndex + 1;
    }

    /** The loop of a call: stores the bytes of the line; the caller appends the terminator. */
    method FillLine(buff: array<Byte>, size: int) returns (some: bool, bufferIndex: nat)
      requires Valid() && buff != block && buff.Length >= Limit(size) + 2
      modifies this, source, block, buff
      ensures Valid()
      ensures some <==> old(Pending()) != []
      ensures bufferIndex == LineLength(old(Pending()), Limit(size))
      ensures Filled(buff[..], old(buff[..]), old(Pending()), bufferIndex)
      ensures Pending() == old(Pending())[bufferIndex..]
    {
      hide LineLength, Flatten, Pending, Filled, Taking;
      ghost var s, limit, before := Pending(), Limit(size), buff[..];
      var room := size - 1;
      bufferIndex := 0;
      TakingStart(s, limit);
      StartLine(s, before);
      if eofOrError {
        EndPending();
      }
      while !eofOrError
        invariant Valid() && 0 <= bufferIndex <= limit
        invariant Taking(s, limit, bufferIndex, Pending()) && Filled(buff[..], before, s, bufferIndex)
        invariant eofOrError ==> Pending() == [] && bufferIndex == 0
        decreases |Pending()|, |source.blocks|, !newBlockNeeded
      {
        TakingStep(s, limit, bufferIndex, Pending());
        var ok := Refill();
        if !ok {
          if bufferIndex != 0 {
            return true, bufferIndex;
          }
          break;
        }
        var done;
        done, bufferIndex := TakeByte(buff, room, bufferIndex, s, before);
        if done {
          return true, bufferIndex;
        }
      }
      TakingStep(s, limit, bufferIndex, Pending());
      return false, bufferIndex;
    }

    /**
      * One call. `n` is the length of the line; with its terminator it takes up to
      * `Limit(size) + 2` cells of `buff`, and the others keep their contents.
      */
    method ReadLine(buff: array<Byte>, size: int) returns (some: bool, n: nat)
      requires Valid() && buff != block && buff.Length >= Limit(size) + 2
      modifies this, source, block, buff
      ensures Valid()
      ensures some <==> old(Pending()) != []
      ensures n == LineLength(old(Pending()), Limit(size)) == LineSize(old(Pending()), size)
      ensures some ==> HoldsLine(buff[..], old(buff[..]), old(Pending()), n)
      ensures some ==> n < buff.Length && buff[..n] == old(Pending())[..n] && buff[n] == 0
      ensures !some ==> buff[..] == old(buff[..])
      ensures Pending() == old(Pending())[n..]
    {
      hide LineLength, LineSize, Flatten, Pending, Filled, HoldsLine;
      ghost var s, before := Pending(), buff[..];
      LimitExact(s, Limit(size));
      SizeOfLimit(s, size);
      some, n := FillLine(buff, size);
      FilledStep(buff[..], before, s, n);
      if some {
        Put(buff, n, 0);
        LineHeld(buff[..], before, s, n);
      }
    }

    /** A run of calls with buffers of the given sizes. */
    method ReadLines(sizes: seq<int>) returns (lines: seq<Option<seq<Byte>>>)
      requires Valid()
      modifies this, source, block
      ensures Valid()
      ensures lines == LinesOf(old(Pending()), sizes)
      ensures Pending() == Remainder(old(Pending()), sizes)
    {
      hide LineLength, LineSize, Flatten, Pending, LinesOf, Remainder, HoldsLine;
      lines := [];
      ghost var s := Pending();
      assert sizes[0..] == sizes;
      NoMoreCalls(s);
      for i := 0 to |sizes|
        invariant Valid()
        invariant lines + LinesOf(Pending(), sizes[i..]) == LinesOf(s, sizes)
        invariant Remainder(Pending(), sizes[i..]) == Remainder(s, sizes)
      {
        var buff := new Byte[Limit(sizes[i]) + 2];
        ghost var before, pending := buff[..], Pending();
        CallStep(pending, sizes[i..]);
        assert sizes[i..][1..] == sizes[i + 1..];
        var some, n := ReadLine(buff, sizes[i]);
        if some {
          LineHeld(buff[..], before, pending, n);
        }
        lines := lines + [if some then Some(buff[..n]) else None];
      }
      assert sizes[|sizes|..] == [];
      NoMoreCalls(Pending());
      assert lines + [] == lines;
    }
  }

  lemma LineHeld(cells: seq<Byte>, before: seq<Byte>, s: seq<Byte>, n: nat)
    requires HoldsLine(cells, before, s, n)
    ensures n < |cells| && n <= |s| && cells[..n] == s[..n] && cells[n] == 0
  {
  }

  /** The lines do not depend on how the input is cut into blocks. */
  method SameLines(blocks1: seq<seq<Byte>>, blocks2: seq<seq<Byte>>, sizes: seq<int>)
    returns (lines1: seq<Option<seq<Byte>>>, lines2: seq<Option<seq<Byte>>>)
    requires Flatten(blocks1) == Flatten(blocks2)
    requires forall b :: b in blocks1 ==> 1 <= |b| <= BLOCK_SIZE
    requires forall b :: b in blocks2 ==> 1 <= |b| <= BLOCK_SIZE
    ensures lines1 == lines2 && |lines1| == |sizes|
    ensures forall i :: 0 <= i < |sizes| ==> (lines1[i] == None <==> Remainder(Flatten(blocks1), sizes[..i]) == [])
    ensures Concat(lines1) + Remainder(Flatten(blocks1), sizes) == Flatten(blocks1)
  {
    hide Flatten, LinesOf, Remainder, Concat;
    var source1 := new BlockSource(blocks1, 0);
    var source2 := new BlockSource(blocks2, -1);
    var reader1 := new Reader(source1);
    var reader2 := new Reader(source2);
    lines1 := reader1.ReadLines(sizes);
    lines2 := reader2.ReadLines(sizes);
    ghost var s := Flatten(blocks1);
    LinesConserve(s, sizes);
    forall i | 0 <= i < |sizes| ensures lines1[i] == None <==> Remainder(s, sizes[..i]) == [] {
      NullIsFinal(s, sizes, i);
    }
  }

  lemma DropHead(a: seq<Byte>, b: seq<Byte>)
    requires a != []
    ensures (a + b)[1..] == a[1..] + b
  {
  }

  /** The buffer after `b` bytes of `s` were stored in it. */
  ghost predicate Filled(cells: seq<Byte>, before: seq<Byte>, s: seq<Byte>, b: nat) {
    b <= |s| && b <= |before| && cells == s[..b] + before[b..]
  }

  /** The buffer after the first `n` bytes of `s` and a terminator were stored in it. */
  ghost predicate HoldsLine(cells: seq<Byte>, before: seq<Byte>, s: seq<Byte>, n: nat) {
    n <= |s| && n < |before| && cells == s[..n] + [0] + before[n + 1..]
  }

  lemma FilledStep(cells: seq<Byte>, before: seq<Byte>, s: seq<Byte>, b: nat)
    requires Filled(cells, before, s, b) && b < |before|
    ensures |cells| == |before| && (b == 0 ==> cells == before)
    ensures HoldsLine(cells[b := 0], before, s, b)
    ensures b < |s| ==> Filled(cells[b := s[b]], before, s, b + 1)
  {
  }

  lemma StartLine(s: seq<Byte>, before: seq<Byte>)
    ensures Filled(before, before, s, 0)
  {
  }
}
