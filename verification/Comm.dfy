/** comm: merging two files of lines into three columns. */
module Comm {
  import opened Prelude

  type Line = string

  // ---------------------------------------------------------------------------------
  // Line order: std::string::compare
  // ---------------------------------------------------------------------------------

  function Compare(a: Line, b: Line): (c: int) {
    if a == [] then (if b == [] then 0 else -1)
    else if b == [] then 1
    else if a[0] < b[0] then -1
    else if a[0] > b[0] then 1
    else Compare(a[1..], b[1..])
  }

  predicate Less(a: Line, b: Line) {
    Compare(a, b) < 0
  }

  /** Comparing is a total order: equal lines compare equal, and swapping turns the sign. */
  lemma {:induction false} CompareIsTotal(a: Line, b: Line)
    ensures Compare(a, b) == 0 <==> a == b
    ensures Compare(b, a) == -Compare(a, b)
  {
    if a != [] && b != [] && a[0] == b[0] {
      CompareIsTotal(a[1..], b[1..]);
      assert a == [a[0]] + a[1..] && b == [b[0]] + b[1..];
    }
  }

  lemma {:induction false} LessIsTransitive(a: Line, b: Line, c: Line)
    requires Less(a, b) && Less(b, c)
    ensures Less(a, c)
  {
    if a != [] && b != [] && c != [] && a[0] == b[0] && b[0] == c[0] {
      LessIsTransitive(a[1..], b[1..], c[1..]);
    }
  }

  /** b continues a, or has the greater character at the first place where they differ, k. */
  predicate DiffersAt(a: Line, b: Line, k: nat) {
    k <= |a| && k < |b| && a[..k] == b[..k] && (k == |a| || a[k] < b[k])
  }

  /** The order of a dictionary. */
  ghost predicate Precedes(a: Line, b: Line) {
    exists k: nat :: DiffersAt(a, b, k)
  }

  lemma DiffersLater(a: Line, b: Line, k: nat)
    requires a != [] && b != [] && a[0] == b[0]
    ensures DiffersAt(a[1..], b[1..], k) <==> DiffersAt(a, b, k + 1)
    ensures !DiffersAt(a, b, 0)
  {
    if k + 1 <= |a| && k + 1 <= |b| {
      assert a[..k + 1] == [a[0]] + a[1..][..k] && b[..k + 1] == [b[0]] + b[1..][..k];
      assert a[1..][..k] == a[..k + 1][1..] && b[1..][..k] == b[..k + 1][1..];
    }
  }

  lemma SameStart(a: Line, b: Line, k: nat)
    ensures DiffersAt(a, b, k) && k > 0 ==> a != [] && b != [] && a[0] == b[0]
  {
    if DiffersAt(a, b, k) && k > 0 {
      assert a[..k][0] == a[0] && b[..k][0] == b[0];
    }
  }

  /** compare gives a negative number for the line that comes first in the dictionary. */
  lemma {:induction false} CompareIsDictionaryOrder(a: Line, b: Line)
    ensures Compare(a, b) < 0 <==> Precedes(a, b)
  {
    if a != [] && b != [] && a[0] == b[0] {
      CompareIsDictionaryOrder(a[1..], b[1..]);
      forall k: nat
        ensures DiffersAt(a[1..], b[1..], k) <==> DiffersAt(a, b, k + 1)
        ensures !DiffersAt(a, b, 0)
      {
        DiffersLater(a, b, k);
      }
      if Precedes(a, b) {
        var k: nat :| DiffersAt(a, b, k);
        DiffersLater(a, b, 0);
        assert DiffersAt(a[1..], b[1..], k - 1);
      }
      if Precedes(a[1..], b[1..]) {
        var k: nat :| DiffersAt(a[1..], b[1..], k);
        assert DiffersAt(a, b, k + 1);
      }
    } else {
      assert b != [] && (a == [] || a[0] < b[0]) ==> DiffersAt(a, b, 0);
      forall k: nat
        ensures DiffersAt(a, b, k) && k > 0 ==> a != [] && b != [] && a[0] == b[0]
      {
        SameStart(a, b, k);
      }
    }
  }

  /** No line stands behind one that the dictionary puts after it. */
  ghost predicate Sorted(lines: seq<Line>) {
    forall i, j :: 0 <= i < j < |lines| ==> !Precedes(lines[j], lines[i])
  }

  ghost predicate Ascending(lines: seq<Line>) {
    forall i, j :: 0 <= i < j < |lines| ==> !Less(lines[j], lines[i])
  }

  lemma SortedAscends(lines: seq<Line>)
    ensures Sorted(lines) <==> Ascending(lines)
  {
    forall i, j | 0 <= i < j < |lines|
      ensures Less(lines[j], lines[i]) <==> Precedes(lines[j], lines[i])
    {
      CompareIsDictionaryOrder(lines[j], lines[i]);
    }
  }

  // ---------------------------------------------------------------------------------
  // The merge
  // ---------------------------------------------------------------------------------

  /** A line emitted in column 1, 2 or 3. */
  datatype Emission = Emission(column: int, line: Line)

  function Merge(a: seq<Line>, b: seq<Line>): (out: seq<Emission>)
    decreases |a| + |b|
  {
    if a == [] && b == [] then []
    else if a == [] then [Emission(2, b[0])] + Merge(a, b[1..])
    else if b == [] then [Emission(1, a[0])] + Merge(a[1..], b)
    else if Compare(a[0], b[0]) < 0 then [Emission(1, a[0])] + Merge(a[1..], b)
    else if Compare(a[0], b[0]) > 0 then [Emission(2, b[0])] + Merge(a, b[1..])
    else [Emission(3, a[0])] + Merge(a[1..], b[1..])
  }

  /** The lines emitted in one of two columns, in order. */
  function Lines(out: seq<Emission>, c: int, d: int): (lines: seq<Line>) {
    if out == [] then []
    else if out[0].column == c || out[0].column == d then [out[0].line] + Lines(out[1..], c, d)
    else Lines(out[1..], c, d)
  }

  function Column(out: seq<Emission>, c: int): (lines: seq<Line>) {
    Lines(out, c, c)
  }

  lemma LinesCons(e: Emission, rest: seq<Emission>, c: int, d: int)
    ensures Lines([e] + rest, c, d) == (if e.column == c || e.column == d then [e.line] else []) + Lines(rest, c, d)
  {
    assert ([e] + rest)[1..] == rest;
  }

  /** An emission is added in front of the columns it belongs to. */
  lemma InFront(e: Emission, rest: seq<Emission>)
    ensures Column([e] + rest, 1) == (if e.column == 1 then [e.line] else []) + Column(rest, 1)
    ensures Column([e] + rest, 2) == (if e.column == 2 then [e.line] else []) + Column(rest, 2)
    ensures Column([e] + rest, 3) == (if e.column == 3 then [e.line] else []) + Column(rest, 3)
  {
    LinesCons(e, rest, 1, 1);
    LinesCons(e, rest, 2, 2);
    LinesCons(e, rest, 3, 3);
  }

  lemma InFrontOfFiles(e: Emission, rest: seq<Emission>)
    ensures Lines([e] + rest, 1, 3) == (if e.column == 1 || e.column == 3 then [e.line] else []) + Lines(rest, 1, 3)
    ensures Lines([e] + rest, 2, 3) == (if e.column == 2 || e.column == 3 then [e.line] else []) + Lines(rest, 2, 3)
  {
    LinesCons(e, rest, 1, 3);
    LinesCons(e, rest, 2, 3);
  }

  /** Whatever the files hold, columns 1 and 3 are file 1 and columns 2 and 3 are file 2, in order. */
  lemma {:induction false} NothingIsLost(a: seq<Line>, b: seq<Line>)
    ensures Lines(Merge(a, b), 1, 3) == a
    ensures Lines(Merge(a, b), 2, 3) == b
    decreases |a| + |b|
  {
    if a == [] && b == [] {
    } else if a == [] || (b != [] && Compare(a[0], b[0]) > 0) {
      NothingIsLost(a, b[1..]);
      InFrontOfFiles(Emission(2, b[0]), Merge(a, b[1..]));
      assert b == [b[0]] + b[1..];
    } else if b == [] || Compare(a[0], b[0]) < 0 {
      NothingIsLost(a[1..], b);
      InFrontOfFiles(Emission(1, a[0]), Merge(a[1..], b));
      assert a == [a[0]] + a[1..];
    } else {
      CompareIsTotal(a[0], b[0]);
      NothingIsLost(a[1..], b[1..]);
      InFrontOfFiles(Emission(3, a[0]), Merge(a[1..], b[1..]));
      assert a == [a[0]] + a[1..] && b == [b[0]] + b[1..];
    }
  }

  // ---------------------------------------------------------------------------------
  // Sorted files
  // ---------------------------------------------------------------------------------

  /** A line below the first line of a sorted file is not in the file. */
  lemma NotThere(x: Line, lines: seq<Line>)
    requires Ascending(lines) && lines != [] && Less(x, lines[0])
    ensures x !in lines
  {
    forall i | 0 <= i < |lines|
      ensures lines[i] != x
    {
      CompareIsTotal(x, lines[0]);
    }
  }

  /** Column 3 is the multiset intersection, columns 1 and 2 the differences. */
  ghost predicate Splits(a: seq<Line>, b: seq<Line>, out: seq<Emission>) {
    && multiset(Column(out, 3)) == multiset(a) * multiset(b)
    && multiset(Column(out, 1)) == multiset(a) - multiset(b)
    && multiset(Column(out, 2)) == multiset(b) - multiset(a)
  }

  lemma BagFirst(x: Line, a: multiset<Line>, b: multiset<Line>)
    requires x !in b
    ensures (multiset{x} + a) * b == a * b
    ensures (multiset{x} + a) - b == multiset{x} + (a - b)
    ensures b - (multiset{x} + a) == b - a
  {}

  lemma BagBoth(x: Line, a: multiset<Line>, b: multiset<Line>)
    ensures (multiset{x} + a) * (multiset{x} + b) == multiset{x} + a * b
    ensures (multiset{x} + a) - (multiset{x} + b) == a - b
    ensures (multiset{x} + b) - (multiset{x} + a) == b - a
  {}

  lemma FrontBag(x: Line, rest: seq<Line>, all: seq<Line>)
    requires all == [x] + rest
    ensures multiset(all) == multiset{x} + multiset(rest)
  {}

  lemma SplitsFirst(x: Line, a: seq<Line>, b: seq<Line>, rest: seq<Emission>, a': seq<Line>, out: seq<Emission>)
    requires Splits(a, b, rest) && x !in b
    requires a' == [x] + a && out == [Emission(1, x)] + rest
    ensures Splits(a', b, out)
  {
    InFront(Emission(1, x), rest);
    BagFirst(x, multiset(a), multiset(b));
    FrontBag(x, a, a');
    FrontBag(x, Column(rest, 1), Column(out, 1));
    assert Column(out, 2) == Column(rest, 2) && Column(out, 3) == Column(rest, 3);
  }

  lemma SplitsSecond(x: Line, a: seq<Line>, b: seq<Line>, rest: seq<Emission>, b': seq<Line>, out: seq<Emission>)
    requires Splits(a, b, rest) && x !in a
    requires b' == [x] + b && out == [Emission(2, x)] + rest
    ensures Splits(a, b', out)
  {
    InFront(Emission(2, x), rest);
    BagFirst(x, multiset(b), multiset(a));
    FrontBag(x, b, b');
    FrontBag(x, Column(rest, 2), Column(out, 2));
    assert Column(out, 1) == Column(rest, 1) && Column(out, 3) == Column(rest, 3);
    assert multiset(a) * multiset(b') == multiset(b') * multiset(a);
    assert multiset(a) * multiset(b) == multiset(b) * multiset(a);
  }

  lemma SplitsBoth(x: Line, a: seq<Line>, b: seq<Line>, rest: seq<Emission>,
                   a': seq<Line>, b': seq<Line>, out: seq<Emission>)
    requires Splits(a, b, rest)
    requires a' == [x] + a && b' == [x] + b && out == [Emission(3, x)] + rest
    ensures Splits(a', b', out)
  {
    InFront(Emission(3, x), rest);
    BagBoth(x, multiset(a), multiset(b));
    FrontBag(x, a, a');
    FrontBag(x, b, b');
    FrontBag(x, Column(rest, 3), Column(out, 3));
    assert Column(out, 1) == Column(rest, 1) && Column(out, 2) == Column(rest, 2);
  }

  lemma StepFirst(a: seq<Line>, b: seq<Line>)
    requires Ascending(b) && a != [] && (b == [] || Less(a[0], b[0]))
    requires Splits(a[1..], b, Merge(a[1..], b))
    ensures Splits(a, b, Merge(a, b))
  {
    assert a[0] !in b by { if b != [] { NotThere(a[0], b); } }
    SplitsFirst(a[0], a[1..], b, Merge(a[1..], b), a, Merge(a, b));
  }

  lemma StepSecond(a: seq<Line>, b: seq<Line>)
    requires Ascending(a) && b != [] && (a == [] || Compare(a[0], b[0]) > 0)
    requires Splits(a, b[1..], Merge(a, b[1..]))
    ensures Splits(a, b, Merge(a, b))
  {
    assert b[0] !in a by {
      if a != [] {
        CompareIsTotal(a[0], b[0]);
        NotThere(b[0], a);
      }
    }
    SplitsSecond(b[0], a, b[1..], Merge(a, b[1..]), b, Merge(a, b));
  }

  lemma StepBoth(a: seq<Line>, b: seq<Line>, rest: seq<Emission>, out: seq<Emission>)
    requires a != [] && b != [] && a[0] == b[0]
    requires out == [Emission(3, a[0])] + rest
    requires Splits(a[1..], b[1..], rest)
    ensures Splits(a, b, out)
  {
    SplitsBoth(a[0], a[1..], b[1..], rest, a, b, out);
  }

  lemma {:induction false} AscendingSplits(a: seq<Line>, b: seq<Line>)
    requires Ascending(a) && Ascending(b)
    ensures Splits(a, b, Merge(a, b))
    decreases |a| + |b|
  {
    if a == [] && b == [] {
    } else if a == [] || (b != [] && Compare(a[0], b[0]) > 0) {
      AscendingSplits(a, b[1..]);
      StepSecond(a, b);
    } else if b == [] || Compare(a[0], b[0]) < 0 {
      AscendingSplits(a[1..], b);
      StepFirst(a, b);
    } else {
      CompareIsTotal(a[0], b[0]);
      AscendingSplits(a[1..], b[1..]);
      StepBoth(a, b, Merge(a[1..], b[1..]), Merge(a, b));
    }
  }

  // ---------------------------------------------------------------------------------
  // The output of sorted files is sorted
  // ---------------------------------------------------------------------------------

  ghost predicate AscendingOut(out: seq<Emission>) {
    forall i, j :: 0 <= i < j < |out| ==> !Less(out[j].line, out[i].line)
  }

  /** Every emitted line comes from one of the files. */
  lemma {:induction false} EmittedLinesAreInput(a: seq<Line>, b: seq<Line>, k: nat)
    requires k < |Merge(a, b)|
    ensures Merge(a, b)[k].line in a || Merge(a, b)[k].line in b
    decreases |a| + |b|
  {
    if k > 0 {
      if a == [] || (b != [] && Compare(a[0], b[0]) > 0) {
        EmittedLinesAreInput(a, b[1..], k - 1);
      } else if b == [] || Compare(a[0], b[0]) < 0 {
        EmittedLinesAreInput(a[1..], b, k - 1);
      } else {
        EmittedLinesAreInput(a[1..], b[1..], k - 1);
      }
    }
  }

  /** x is not above any line of a sorted file whose first line it is not above. */
  lemma Below(x: Line, lines: seq<Line>, y: Line)
    requires Ascending(lines) && y in lines && !Less(lines[0], x)
    ensures !Less(y, x)
  {
    var i :| 0 <= i < |lines| && lines[i] == y;
    CompareIsTotal(x, lines[0]);
    CompareIsTotal(y, x);
    CompareIsTotal(y, lines[0]);
    if Less(y, x) && Less(x, lines[0]) {
      LessIsTransitive(y, x, lines[0]);
    }
  }

  lemma {:induction false} MergeAscends(a: seq<Line>, b: seq<Line>)
    requires Ascending(a) && Ascending(b)
    ensures AscendingOut(Merge(a, b))
    decreases |a| + |b|
  {
    var out := Merge(a, b);
    if out != [] {
      var a', b' := a, b;
      if a == [] || (b != [] && Compare(a[0], b[0]) > 0) {
        b' := b[1..];
      } else if b == [] || Compare(a[0], b[0]) < 0 {
        a' := a[1..];
      } else {
        a', b' := a[1..], b[1..];
      }
      MergeAscends(a', b');
      forall k | 0 <= k < |Merge(a', b')|
        ensures !Less(Merge(a', b')[k].line, out[0].line)
      {
        EmittedLinesAreInput(a', b', k);
        HeadIsLeast(a, b, Merge(a', b')[k].line);
      }
    }
  }

  lemma HeadIsLeast(a: seq<Line>, b: seq<Line>, y: Line)
    requires Ascending(a) && Ascending(b) && (y in a || y in b)
    ensures !Less(y, Merge(a, b)[0].line)
  {
    var x := Merge(a, b)[0].line;
    if a != [] { CompareIsTotal(a[0], x); }
    if b != [] { CompareIsTotal(b[0], x); }
    if a != [] && b != [] { CompareIsTotal(a[0], b[0]); }
    if y in a { Below(x, a, y); } else { Below(x, b, y); }
  }

  lemma {:induction false} ColumnLines(out: seq<Emission>, c: int, k: nat) returns (i: nat)
    requires k < |Column(out, c)|
    ensures i < |out| && out[i].line == Column(out, c)[k]
    decreases |out|
  {
    if out[0].column != c {
      i := ColumnLines(out[1..], c, k);
      i := i + 1;
    } else if k == 0 {
      i := 0;
    } else {
      i := ColumnLines(out[1..], c, k - 1);
      i := i + 1;
    }
  }

  /** A selection of a sorted output is sorted. */
  lemma {:induction false} ColumnAscends(out: seq<Emission>, c: int)
    requires AscendingOut(out)
    ensures Ascending(Column(out, c))
    decreases |out|
  {
    if out != [] {
      ColumnAscends(out[1..], c);
      if out[0].column == c {
        var lines := Column(out, c);
        forall j | 0 < j < |lines|
          ensures !Less(lines[j], lines[0])
        {
          var i := ColumnLines(out[1..], c, j - 1);
          assert out[i + 1].line == lines[j];
        }
      }
    }
  }

  /** For sorted files the columns are the two differences and the intersection. */
  lemma SortedSplits(a: seq<Line>, b: seq<Line>)
    requires Sorted(a) && Sorted(b)
    ensures Splits(a, b, Merge(a, b))
  {
    SortedAscends(a);
    SortedAscends(b);
    AscendingSplits(a, b);
  }

  /** For sorted files each of the three columns is sorted. */
  lemma ColumnsAreSorted(a: seq<Line>, b: seq<Line>, c: int)
    requires Sorted(a) && Sorted(b)
    ensures Sorted(Column(Merge(a, b), c))
  {
    SortedAscends(a);
    SortedAscends(b);
    MergeAscends(a, b);
    ColumnAscends(Merge(a, b), c);
    SortedAscends(Column(Merge(a, b), c));
  }

  /** The lines of an output, whatever their columns. */
  function AllLines(out: seq<Emission>): (lines: seq<Line>)
    ensures |lines| == |out| && forall k :: 0 <= k < |out| ==> lines[k] == out[k].line
  {
    seq(|out|, k requires 0 <= k < |out| => out[k].line)
  }

  /** For sorted files the lines come out sorted, whatever their columns. */
  lemma MergeIsSorted(a: seq<Line>, b: seq<Line>)
    requires Sorted(a) && Sorted(b)
    ensures Sorted(AllLines(Merge(a, b)))
  {
    SortedAscends(a);
    SortedAscends(b);
    MergeAscends(a, b);
    SortedAscends(AllLines(Merge(a, b)));
  }

  // ---------------------------------------------------------------------------------
  // The program
  // ---------------------------------------------------------------------------------

  /** The options -1, -2 and -3. */
  datatype Options = Options(suppress1: bool, suppress2: bool, suppress3: bool)

  predicate Suppressed(opts: Options, column: int) {
    match column
    case 1 => opts.suppress1
    case 2 => opts.suppress2
    case 3 => opts.suppress3
    case _ => false
  }

  /** One tab for every shown column to the left. */
  function Tabs(opts: Options, column: int): (tabs: string) {
    (if column > 1 && !opts.suppress1 then "\t" else "") + (if column > 2 && !opts.suppress2 then "\t" else "")
  }

  function Rendered(opts: Options, e: Emission): (text: string) {
    if Suppressed(opts, e.column) then "" else Tabs(opts, e.column) + e.line + "\n"
  }

  function Render(opts: Options, out: seq<Emission>): (text: string) {
    if out == [] then ""
    else Rendered(opts, out[0]) + Render(opts, out[1..])
  }

  /** How many of the first n columns are shown. */
  function Shown(opts: Options, n: nat): (shown: nat) {
    if n == 0 then 0 else Shown(opts, n - 1) + if Suppressed(opts, n) then 0 else 1
  }

  /** A line of a shown column is indented by a tab for every shown column before its own. */
  lemma RenderLine(opts: Options, column: nat, line: Line)
    requires 1 <= column <= 3
    ensures Render(opts, [Emission(column, line)]) ==
            if Suppressed(opts, column) then "" else seq(Shown(opts, column - 1), _ => '\t') + line + "\n"
  {
    assert Shown(opts, 1) == if opts.suppress1 then 0 else 1;
    assert Shown(opts, 2) == Shown(opts, 1) + if opts.suppress2 then 0 else 1;
    assert Tabs(opts, column) == seq(Shown(opts, column - 1), _ => '\t');
    assert [Emission(column, line)][1..] == [];
  }

  /** Output is rendered line by line. */
  lemma RenderFirst(opts: Options, e: Emission, rest: seq<Emission>)
    ensures Render(opts, []) == ""
    ensures Render(opts, [e] + rest) == Render(opts, [e]) + Render(opts, rest)
  {
    assert ([e] + rest)[1..] == rest && [e][1..] == [];
  }

  /** What is left of a file: the line already read, and the lines behind it. */
  function Left(eof: bool, line: Line, lines: seq<Line>, next: nat): (left: seq<Line>)
    requires next <= |lines|
  {
    if eof then [] else [line] + lines[next..]
  }

  class FileComparer {
    const opts: Options
    var tabs: seq<string>
    var cout: string

    ghost predicate Valid()
      reads this
    {
      |tabs| == 3 && forall c :: 1 <= c <= 3 && !Suppressed(opts, c) ==> tabs[c - 1] == Tabs(opts, c)
    }

    /** The constructor's running tab count. */
    constructor (opts: Options)
      ensures this.opts == opts && cout == "" && Valid()
    {
      this.opts := opts;
      cout := "";
      var t := ["", "", ""];
      var currentTab := "";
      if !opts.suppress1 {
        currentTab := currentTab + "\t";
      }
      if !opts.suppress2 {
        t := t[1 := currentTab];
        currentTab := currentTab + "\t";
      }
      if !opts.suppress3 {
        t := t[2 := currentTab];
      }
      tabs := t;
    }

    /** output. */
    method Output(column: int, line: Line)
      requires Valid() && 1 <= column <= 3
      modifies this`cout
      ensures cout == old(cout) + Render(opts, [Emission(column, line)])
    {
      var suppress := Suppressed(opts, column);
      assert Render(opts, [Emission(column, line)][1..]) == "";
      if !suppress {
        cout := cout + tabs[column - 1] + line + "\n";
      }
    }

    /** What run has still to print. */
    ghost predicate Pending(goal: string, a: seq<Line>, b: seq<Line>)
      reads this
    {
      cout + Render(opts, Merge(a, b)) == goal
    }

    /** Printing the first emission leaves the merge of what is left. */
    method Emit(ghost goal: string, ghost a: seq<Line>, ghost b: seq<Line>, e: Emission,
                ghost a': seq<Line>, ghost b': seq<Line>)
      requires Valid() && 1 <= e.column <= 3
      requires Pending(goal, a, b) && Merge(a, b) == [e] + Merge(a', b')
      modifies this`cout
      ensures Valid() && Pending(goal, a', b')
    {
      NextIs(opts, a, b, e, a', b');
      Regroup(cout, Render(opts, [e]), Render(opts, Merge(a', b')));
      Output(e.column, e.line);
    }

    /** run. */
    method Run(file1: seq<Line>, file2: seq<Line>)
      requires Valid()
      modifies this`cout
      ensures Valid()
      ensures cout == old(cout) + Render(opts, Merge(file1, file2))
    {
      ghost var goal := cout + Render(opts, Merge(file1, file2));
      ghost var a, b := file1, file2;
      var i: nat, j: nat, line1, line2, eof1, eof2;
      line1, i, eof1 := GetLine(file1, 0);
      line2, j, eof2 := GetLine(file2, 0);
      while !eof1 || !eof2
        invariant Valid() && i <= |file1| && j <= |file2|
        invariant a == Left(eof1, line1, file1, i) && b == Left(eof2, line2, file2, j)
        invariant Pending(goal, a, b)
        decreases |a| + |b|
      {
        if eof1 {
          Take2(a, b, line2, file2[j..]);
          Emit(goal, a, b, Emission(2, line2), a, file2[j..]);
          b := file2[j..];
          line2, j, eof2 := GetLine(file2, j);
        } else if eof2 {
          Take1(a, b, line1, file1[i..]);
          Emit(goal, a, b, Emission(1, line1), file1[i..], b);
          a := file1[i..];
          line1, i, eof1 := GetLine(file1, i);
        } else {
          var cmp := Compare(line1, line2);
          if cmp < 0 {
            Take1(a, b, line1, file1[i..]);
            Emit(goal, a, b, Emission(1, line1), file1[i..], b);
            a := file1[i..];
            line1, i, eof1 := GetLine(file1, i);
          } else if cmp > 0 {
            Take2(a, b, line2, file2[j..]);
            Emit(goal, a, b, Emission(2, line2), a, file2[j..]);
            b := file2[j..];
            line2, j, eof2 := GetLine(file2, j);
          } else {
            TakeBoth(a, b, line1, line2, file1[i..], file2[j..]);
            Emit(goal, a, b, Emission(3, line1), file1[i..], file2[j..]);
            a, b := file1[i..], file2[j..];
            line1, i, eof1 := GetLine(file1, i);
            line2, j, eof2 := GetLine(file2, j);
          }
        }
      }
    }
  }

  lemma Take1(a: seq<Line>, b: seq<Line>, line: Line, rest: seq<Line>)
    requires a == [line] + rest && (b == [] || Compare(line, b[0]) < 0)
    ensures Merge(a, b) == [Emission(1, line)] + Merge(rest, b)
  {
    assert a[1..] == rest;
  }

  lemma Take2(a: seq<Line>, b: seq<Line>, line: Line, rest: seq<Line>)
    requires b == [line] + rest && (a == [] || Compare(a[0], line) > 0)
    ensures Merge(a, b) == [Emission(2, line)] + Merge(a, rest)
  {
    assert b[1..] == rest;
  }

  lemma TakeBoth(a: seq<Line>, b: seq<Line>, line1: Line, line2: Line, rest1: seq<Line>, rest2: seq<Line>)
    requires a == [line1] + rest1 && b == [line2] + rest2 && Compare(line1, line2) == 0
    ensures Merge(a, b) == [Emission(3, line1)] + Merge(rest1, rest2)
  {
    assert a[1..] == rest1 && b[1..] == rest2;
  }

  /** std::getline: the next line, or end of file; the line is not looked at after that. */
  method GetLine(lines: seq<Line>, next: nat) returns (line: Line, next': nat, eof: bool)
    requires next <= |lines|
    ensures eof <==> next == |lines|
    ensures !eof ==> line == lines[next] && next' == next + 1
    ensures next' <= |lines| && Left(eof, line, lines, next') == lines[next..]
  {
    line, next', eof := "", next, true;
    if next < |lines| {
      line, next', eof := lines[next], next + 1, false;
    }
  }

  /** The first emission of a merge, and the merge that is left. */
  lemma NextIs(opts: Options, a: seq<Line>, b: seq<Line>, e: Emission, a': seq<Line>, b': seq<Line>)
    requires Merge(a, b) == [e] + Merge(a', b')
    ensures Render(opts, Merge(a, b)) == Render(opts, [e]) + Render(opts, Merge(a', b'))
  {
    RenderFirst(opts, e, Merge(a', b'));
  }
}
