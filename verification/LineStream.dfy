/** LineStream: what lpr prints for an input, as a function of the input alone. */
module LineStream {
  import opened Folds

  type Byte = x: int | 0 <= x < 256

  const TAB: Byte := 9
  const LF: Byte := 10
  const CR: Byte := 13
  const SPACE: Byte := 32
  const WORD: nat := 0x1_0000_0000

  type Column = x: int | 0 <= x < WORD

  /** The 32-bit column counter after one byte. */
  function NextColumn(column: Column, c: Byte): (r: Column) {
    if c == LF || column + 1 == WORD then 0 else column + 1
  }

  function ColumnAfter(column: Column, s: seq<Byte>): (r: Column) {
    Fold(NextColumn, column, s)
  }

  function Spaces(n: nat): (s: seq<Byte>)
    ensures |s| == n && forall i :: 0 <= i < n ==> s[i] == SPACE
  {
    seq(n, i => SPACE)
  }

  /** What one input byte becomes at a column. */
  function Emit(column: Column, c: Byte): (s: seq<Byte>) {
    if c == LF then [CR, LF]
    else if c == TAB then Spaces(8 - column % 8)
    else [c]
  }

  function Convert(column: Column, s: seq<Byte>): (r: seq<Byte>) {
    Transduce(NextColumn, Emit, column, s)
  }

  lemma ConvertLast(column: Column, s: seq<Byte>, c: Byte)
    ensures Convert(column, s + [c]) ==
            Convert(column, s) + Emit(ColumnAfter(column, Convert(column, s)), c)
  {
    TransduceLast(NextColumn, Emit, column, s, c);
  }

  /** Printing two inputs one after the other is printing their concatenation. */
  lemma ConvertAppends(column: Column, s: seq<Byte>, t: seq<Byte>)
    ensures Convert(column, s + t) ==
            Convert(column, s) + Convert(ColumnAfter(column, Convert(column, s)), t)
  {
    TransduceAppend(NextColumn, Emit, column, s, t);
  }

  /** One byte: a line feed gets its carriage return, a tab is spaces to the next stop, any other is itself. */
  lemma ConvertOne(column: Column, c: Byte)
    ensures Convert(column, []) == []
    ensures Convert(column, [10]) == [13, 10]
    ensures Convert(column, [9]) == seq(8 - column % 8, _ => 32)
    ensures c != 9 && c != 10 ==> Convert(column, [c]) == [c]
  {
    assert [] + [10] == [10] && [] + [9] == [9] && [] + [c] == [c];
    ConvertLast(column, [], 10);
    ConvertLast(column, [], 9);
    ConvertLast(column, [], c);
    assert Spaces(8 - column % 8) == seq(8 - column % 8, _ => 32);
  }

  lemma ColumnLast(column: Column, s: seq<Byte>, c: Byte)
    ensures ColumnAfter(column, s + [c]) == NextColumn(ColumnAfter(column, s), c)
  {
    FoldLast(NextColumn, column, s, c);
  }

  // ---------------------------------------------------------------------------------
  // What the stream looks like
  // ---------------------------------------------------------------------------------

  /** The bytes behind the last line feed. */
  function LineLength(s: seq<Byte>): (n: nat)
    ensures n <= |s|
    ensures forall i :: |s| - n <= i < |s| ==> s[i] != LF
    ensures n < |s| ==> s[|s| - n - 1] == LF
  {
    if s == [] || s[|s| - 1] == LF then 0 else 1 + LineLength(s[..|s| - 1])
  }

  lemma StepModulo(n: nat)
    ensures (n + 1) % WORD == if n % WORD + 1 == WORD then 0 else n % WORD + 1
  {}

  /** The column is the length of the last printed line, modulo 2^32. */
  lemma {:induction false} ColumnIsLineLength(s: seq<Byte>)
    ensures ColumnAfter(0, s) == LineLength(s) % WORD
    decreases |s|
  {
    if s != [] {
      var n := |s| - 1;
      assert s == s[..n] + [s[n]];
      ColumnLast(0, s[..n], s[n]);
      ColumnIsLineLength(s[..n]);
      StepModulo(LineLength(s[..n]));
    }
  }

  lemma {:induction false} SpacesKeepCounting(column: Column, n: nat)
    ensures ColumnAfter(column, Spaces(n)) % 8 == (column + n) % 8
    decreases n
  {
    if n > 0 {
      assert Spaces(n) == Spaces(n - 1) + [SPACE];
      ColumnLast(column, Spaces(n - 1), SPACE);
      SpacesKeepCounting(column, n - 1);
      OneColumnOn(ColumnAfter(column, Spaces(n - 1)), column + n - 1);
    }
  }

  lemma OneColumnOn(a: Column, b: int)
    requires a % 8 == b % 8
    ensures NextColumn(a, SPACE) % 8 == (b + 1) % 8
  {
    NextModEight(a);
    NextModEight(b);
  }

  lemma NextModEight(n: int)
    ensures (n + 1) % 8 == if n % 8 == 7 then 0 else n % 8 + 1
  {}

  lemma WordIsEights(n: nat)
    ensures n % WORD % 8 == n % 8
  {}

  lemma RoundUp(column: Column)
    ensures 1 <= 8 - column % 8 <= 8 && (column + (8 - column % 8)) % 8 == 0
  {}

  lemma SpacesAtColumn(before: seq<Byte>, n: nat)
    requires (ColumnAfter(0, before) + n) % 8 == 0
    ensures LineLength(before + Spaces(n)) % 8 == 0
  {
    SpacesKeepCounting(ColumnAfter(0, before), n);
    FoldAppend(NextColumn, 0, before, Spaces(n));
    ColumnIsLineLength(before + Spaces(n));
    WordIsEights(LineLength(before + Spaces(n)));
  }

  /** A tab is one to eight spaces, and the printed line is then a multiple of eight bytes long. */
  lemma TabReachesTabStop(s: seq<Byte>) returns (n: nat)
    ensures 1 <= n <= 8
    ensures Convert(0, s + [TAB]) == Convert(0, s) + Spaces(n)
    ensures LineLength(Convert(0, s + [TAB])) % 8 == 0
  {
    var column := ColumnAfter(0, Convert(0, s));
    RoundUp(column);
    n := 8 - column % 8;
    ConvertLast(0, s, TAB);
    SpacesAtColumn(Convert(0, s), n);
  }

  /** No tab, and a carriage return in front of every line feed. */
  ghost predicate Clean(s: seq<Byte>) {
    && TAB !in s
    && forall i :: 0 <= i < |s| && s[i] == LF ==> i > 0 && s[i - 1] == CR
  }

  lemma EmitIsClean(column: Column, c: Byte)
    ensures Clean(Emit(column, c))
  {}

  /** No tab is printed, and every line feed has its carriage return. */
  lemma {:induction false} OutputIsClean(column: Column, s: seq<Byte>)
    ensures Clean(Convert(column, s))
    decreases |s|
  {
    if s != [] {
      var n := |s| - 1;
      assert s == s[..n] + [s[n]];
      ConvertLast(column, s[..n], s[n]);
      OutputIsClean(column, s[..n]);
      EmitIsClean(ColumnAfter(column, Convert(column, s[..n])), s[n]);
    }
  }

  /** Take one carriage return out in front of every line feed. */
  function Unconvert(t: seq<Byte>): (s: seq<Byte>) {
    var n := |t|;
    if t == [] then []
    else if n >= 2 && t[n - 2] == CR && t[n - 1] == LF then Unconvert(t[..n - 2]) + [LF]
    else Unconvert(t[..n - 1]) + [t[n - 1]]
  }

  lemma UnconvertEmitted(t: seq<Byte>, column: Column, c: Byte)
    requires c != TAB
    ensures Unconvert(t + Emit(column, c)) == Unconvert(t) + [c]
  {
    if c == LF {
      assert (t + [CR, LF])[..|t|] == t;
    } else {
      assert (t + [c])[..|t|] == t;
    }
  }

  /** Input without tabs can be read back from what is printed. */
  lemma {:induction false} PrintedTextReadsBack(column: Column, s: seq<Byte>)
    requires TAB !in s
    ensures Unconvert(Convert(column, s)) == s
    decreases |s|
  {
    if s != [] {
      var n := |s| - 1;
      assert s == s[..n] + [s[n]];
      ConvertLast(column, s[..n], s[n]);
      PrintedTextReadsBack(column, s[..n]);
      UnconvertEmitted(Convert(column, s[..n]), ColumnAfter(column, Convert(column, s[..n])), s[n]);
    }
  }

  // ---------------------------------------------------------------------------------
  // Where a printed byte comes from
  // ---------------------------------------------------------------------------------

  /** The input byte for which the byte at a place of the stream is printed. */
  function Source(column: Column, s: seq<Byte>, place: int): (c: Byte) {
    if s == [] then 0
    else
      var n := |s| - 1;
      if place < |Convert(column, s[..n])| then Source(column, s[..n], place) else s[n]
  }

  lemma SourceLast(column: Column, s: seq<Byte>, c: Byte, place: int)
    ensures Source(column, s + [c], place) == if place < |Convert(column, s)| then Source(column, s, place) else c
  {
    assert (s + [c])[..|s|] == s;
  }

  /** What is printed later does not change where a byte comes from. */
  lemma {:induction false} SourceFirst(column: Column, s: seq<Byte>, t: seq<Byte>, place: int)
    requires place < |Convert(column, s)|
    ensures Source(column, s + t, place) == Source(column, s, place)
    decreases |t|
  {
    if t == [] {
      assert s + t == s;
    } else {
      var n := |t| - 1;
      SourceFirst(column, s, t[..n], place);
      ConvertAppends(column, s, t[..n]);
      assert s + t == (s + t[..n]) + [t[n]];
      SourceLast(column, s + t[..n], t[n], place);
    }
  }

  /** Behind an input, a byte comes from where it comes from in the next input. */
  lemma {:induction false} SourceSecond(column: Column, s: seq<Byte>, t: seq<Byte>, place: int)
    requires t != [] && place >= |Convert(column, s)|
    ensures var before := Convert(column, s);
            Source(column, s + t, place) == Source(ColumnAfter(column, before), t, place - |before|)
    decreases |t|
  {
    var n := |t| - 1;
    ConvertAppends(column, s, t[..n]);
    assert s + t == (s + t[..n]) + [t[n]] && t == t[..n] + [t[n]];
    SourceLast(column, s + t[..n], t[n], place);
    SourceLast(ColumnAfter(column, Convert(column, s)), t[..n], t[n], place - |Convert(column, s)|);
    if n > 0 {
      SourceSecond(column, s, t[..n], place);
    } else {
      assert s + t[..n] == s;
    }
  }
}
