/**
  libpack's CompressionEngine: greedy longest-match replacement of table patterns by one-byte
  tokens, with 255 as the escape for literal bytes that could be taken for tokens.
  The table is a parameter; the source's has 128 entries.
*/
module LibPack {
  import opened Prelude

  type byte = x: int | 0 <= x < 256
  type Table = seq<seq<byte>>

  const ESCAPE: byte := 255

  // ---------------------------------------------------------------------------------
  // What compress and decompress compute
  // ---------------------------------------------------------------------------------

  /** The longest non-empty prefix of s, of at most k bytes, that is a pattern; 0 if there is none. */
  function LongestUpTo(table: Table, s: seq<byte>, k: nat): (n: nat)
    requires k <= |s|
    ensures n <= k
  {
    if k == 0 then 0 else if s[..k] in table then k else LongestUpTo(table, s, k - 1)
  }

  function Longest(table: Table, s: seq<byte>): (n: nat)
    ensures n <= |s|
  {
    LongestUpTo(table, s, |s|)
  }

  /** The token of a pattern: its last index, since later entries overwrite earlier ones. */
  function Token(table: Table, p: seq<byte>): (i: nat)
    requires p in table
    ensures i < |table| && table[i] == p
  {
    var n := |table| - 1;
    if table[n] == p then n
    else
      assert table == table[..n] + [table[n]];
      Token(table[..n], p)
  }

  lemma {:induction false} TokenIsLast(table: Table, p: seq<byte>, i: nat)
    requires i < |table| && table[i] == p
    requires forall j :: i < j < |table| ==> table[j] != p
    ensures p in table && Token(table, p) == i
    decreases |table|
  {
    var n := |table| - 1;
    if i < n {
      TokenIsLast(table[..n], p, i);
    }
  }

  /** How many bytes of s the next piece of code stands for. */
  function Consumed(table: Table, s: seq<byte>): (n: nat)
    requires s != []
    ensures 0 < n <= |s|
  {
    if Longest(table, s) > 0 then Longest(table, s) else 1
  }

  /** The next piece of code: a token, an escaped literal or a literal. */
  function Emitted(table: Table, s: seq<byte>): (code: seq<byte>)
    requires |table| <= 255 && s != []
    ensures 0 < |code| <= 2
  {
    var n := Longest(table, s);
    if n > 0 then
      LongestIsPattern(table, s, |s|);
      [Token(table, s[..n])]
    else if s[0] < |table| then [ESCAPE, s[0]]
    else [s[0]]
  }

  function Encode(table: Table, s: seq<byte>): (code: seq<byte>)
    requires |table| <= 255
    decreases |s|
  {
    if s == [] then [] else Emitted(table, s) + Encode(table, s[Consumed(table, s)..])
  }

  /** How many bytes of code make the next piece of text. */
  function Used(code: seq<byte>): (n: nat)
    requires code != []
    ensures 0 < n <= |code|
  {
    if code[0] == ESCAPE && |code| > 1 then 2 else 1
  }

  function Text(table: Table, code: seq<byte>): (s: seq<byte>)
    requires code != []
  {
    if code[0] == ESCAPE && |code| > 1 then [code[1]]
    else if code[0] < |table| then table[code[0]]
    else [code[0]]
  }

  function Decode(table: Table, code: seq<byte>): (s: seq<byte>)
    decreases |code|
  {
    if code == [] then [] else Text(table, code) + Decode(table, code[Used(code)..])
  }

  lemma {:induction false} LongestIsPattern(table: Table, s: seq<byte>, k: nat)
    requires k <= |s|
    ensures var n := LongestUpTo(table, s, k); n > 0 ==> s[..n] in table
    ensures forall m :: LongestUpTo(table, s, k) < m <= k ==> s[..m] !in table
    decreases k
  {
    if k > 0 && s[..k] !in table {
      LongestIsPattern(table, s, k - 1);
    }
  }

  /** A token stands for a pattern that no longer pattern at the same place extends. */
  lemma TokenIsLongestMatch(table: Table, s: seq<byte>, p: seq<byte>)
    requires p in table && p != [] && p <= s
    ensures 0 < |p| <= Longest(table, s)
    ensures s[..Longest(table, s)] in table
  {
    LongestIsPattern(table, s, |s|);
    assert s[..|p|] == p;
  }

  /** A byte where no pattern begins is emitted as it is, behind 255 if it is less than the table's size. */
  lemma EncodeLiteral(table: Table, s: seq<byte>)
    requires |table| <= 255 && s != []
    requires forall n :: 0 < n <= |s| ==> s[..n] !in table
    ensures Encode(table, s) == (if s[0] < |table| then [255, s[0]] else [s[0]]) + Encode(table, s[1..])
  {
    LongestIsPattern(table, s, |s|);
  }

  /** Where a pattern begins, the number of the last entry that holds the longest one is emitted. */
  lemma EncodePattern(table: Table, s: seq<byte>, n: nat, i: byte)
    requires |table| <= 255 && 0 < n <= |s| && i < |table| && table[i] == s[..n]
    requires forall m :: n < m <= |s| ==> s[..m] !in table
    requires forall j :: i < j < |table| ==> table[j] != s[..n]
    ensures Encode(table, s) == [i] + Encode(table, s[n..])
  {
    LongestIsPattern(table, s, |s|);
    assert Longest(table, s) == n;
    TokenIsLast(table, s[..n], i);
  }

  /** What a byte of code stands for: 255 quotes the next byte, and is itself at the end. */
  lemma DecodeByte(table: Table, c: byte, b: byte, rest: seq<byte>)
    requires |table| <= 255
    ensures Decode(table, [255, b] + rest) == [b] + Decode(table, rest)
    ensures Decode(table, [255]) == [255]
    ensures c != 255 ==> Decode(table, [c] + rest) == (if c < |table| then table[c] else [c]) + Decode(table, rest)
  {
    assert ([255, b] + rest)[2..] == rest && ([c] + rest)[1..] == rest && [255][1..] == [];
    assert [255] + [] == [255];
  }

  // ---------------------------------------------------------------------------------
  // The engine
  // ---------------------------------------------------------------------------------

  /** What build_lookup_map establishes for the first n patterns. */
  ghost predicate Indexed(table: Table, n: nat, index: map<seq<byte>, nat>, maxLength: nat)
    requires n <= |table|
  {
    && (forall p :: p in index <==> p != [] && p in table[..n])
    && (forall p :: p in index ==> index[p] == Token(table[..n], p))
    && (forall i :: 0 <= i < n ==> |table[i]| <= maxLength)
  }

  class CompressionEngine {
    const table: Table
    var patternToIndex: map<seq<byte>, nat>
    var maxPatternLength: nat

    ghost predicate Valid()
      reads this
    {
      |table| <= 255 && Indexed(table, |table|, patternToIndex, maxPatternLength)
    }

    constructor (table: Table)
      requires |table| <= 255
      ensures this.table == table && Valid()
    {
      this.table := table;
      patternToIndex := map[];
      maxPatternLength := 0;
      new;
      BuildLookupMap();
    }

    /** build_lookup_map. */
    method BuildLookupMap()
      requires |table| <= 255 && patternToIndex == map[]
      modifies this
      ensures Valid()
    {
      maxPatternLength := 0;
      for i := 0 to |table|
        invariant Indexed(table, i, patternToIndex, maxPatternLength)
      {
        IndexOneMore(table, i, patternToIndex, maxPatternLength);
        if table[i] != [] {
          patternToIndex := patternToIndex[table[i] := i];
          maxPatternLength := if maxPatternLength < |table[i]| then |table[i]| else maxPatternLength;
        }
      }
    }

    /** compress. */
    method Compress(input: seq<byte>) returns (output: seq<byte>)
      requires Valid()
      ensures output == Encode(table, input)
    {
      output := [];
      var pos := 0;
      while pos < |input|
        invariant 0 <= pos <= |input|
        invariant SoFar(table, input, pos, output)
      {
        var code, length := CompressNext(input[pos..]);
        OnePieceMore(table, input, pos, output);
        output := output + code;
        pos := pos + length;
      }
    }

    /** The body of compress's loop. */
    method CompressNext(rest: seq<byte>) returns (code: seq<byte>, length: nat)
      requires Valid() && rest != []
      ensures code == Emitted(table, rest) && length == Consumed(table, rest)
    {
      length := FindLongest(rest);
      if length > 0 {
        code := [patternToIndex[rest[..length]]];
      } else {
        if rest[0] < |table| {
          code := [255, rest[0]];
        } else {
          code := [rest[0]];
        }
        length := 1;
      }
    }

    /** The inner loop of compress: try every length from the longest down. */
    method FindLongest(rest: seq<byte>) returns (length: nat)
      requires Valid()
      ensures length == Longest(table, rest)
      ensures length > 0 ==> rest[..length] in table
      ensures length > 0 ==> rest[..length] in patternToIndex
      ensures length > 0 ==> patternToIndex[rest[..length]] == Token(table, rest[..length])
    {
      assert table[..|table|] == table;
      length := if |rest| < maxPatternLength then |rest| else maxPatternLength;
      TooLong(table, rest, |rest|, length);
      while length > 0 && rest[..length] !in patternToIndex
        invariant length <= |rest|
        invariant LongestUpTo(table, rest, length) == Longest(table, rest)
      {
        length := length - 1;
      }
    }

    /** decompress. */
    method Decompress(compressed: seq<byte>) returns (output: seq<byte>)
      ensures output == Decode(table, compressed)
    {
      output := [];
      var i := 0;
      while i < |compressed|
        invariant 0 <= i <= |compressed|
        invariant output + Decode(table, compressed[i..]) == Decode(table, compressed)
      {
        var text, used := DecompressNext(compressed[i..]);
        Regroup(output, text, Decode(table, compressed[i..][used..]));
        assert compressed[i..][used..] == compressed[i + used..];
        output := output + text;
        i := i + used;
      }
    }

    /** The body of decompress's loop. */
    method DecompressNext(rest: seq<byte>) returns (text: seq<byte>, used: nat)
      requires rest != []
      ensures text == Text(table, rest) && used == Used(rest)
    {
      used := 1;
      var token := rest[0];
      if token == 255 && 1 < |rest| {
        text := [rest[1]];
        used := used + 1;
      } else if token < |table| {
        text := table[token];
      } else {
        text := [token];
      }
    }
  }

  /** output is the code of the first pos bytes. */
  ghost predicate SoFar(table: Table, input: seq<byte>, pos: nat, output: seq<byte>)
    requires |table| <= 255 && pos <= |input|
  {
    output + Encode(table, input[pos..]) == Encode(table, input)
  }

  lemma OnePieceMore(table: Table, input: seq<byte>, pos: nat, output: seq<byte>)
    requires |table| <= 255 && pos < |input| && SoFar(table, input, pos, output)
    ensures SoFar(table, input, pos + Consumed(table, input[pos..]), output + Emitted(table, input[pos..]))
  {
    var rest := input[pos..];
    var n := Consumed(table, rest);
    assert rest[n..] == input[pos + n..];
    Regroup(output, Emitted(table, rest), Encode(table, rest[n..]));
  }

  lemma IndexOneMore(table: Table, i: nat, index: map<seq<byte>, nat>, maxLength: nat)
    requires i < |table| && Indexed(table, i, index, maxLength)
    ensures table[i] == [] ==> Indexed(table, i + 1, index, maxLength)
    ensures table[i] != [] ==>
      Indexed(table, i + 1, index[table[i] := i], if maxLength < |table[i]| then |table[i]| else maxLength)
  {
    var front, more := table[..i], table[..i + 1];
    assert more == front + [table[i]] && more[..i] == front;
    forall p | p in front && p != table[i]
      ensures Token(more, p) == Token(front, p)
    {}
  }

  /** Prefixes longer than every pattern need not be tried. */
  lemma {:induction false} TooLong(table: Table, s: seq<byte>, k: nat, m: nat)
    requires m <= k <= |s|
    requires m < |s| ==> forall i :: 0 <= i < |table| ==> |table[i]| <= m
    ensures LongestUpTo(table, s, k) == LongestUpTo(table, s, m)
    decreases k
  {
    if m < k {
      assert s[..k] !in table;
      TooLong(table, s, k - 1, m);
    }
  }

  // ---------------------------------------------------------------------------------
  // The round trip
  // ---------------------------------------------------------------------------------

  /** No 255 is emitted as a literal, except as the very last byte. */
  predicate NoStrayEscape(table: Table, s: seq<byte>)
    decreases |s|
  {
    s == [] || (!StrayEscape(table, s) && NoStrayEscape(table, s[Consumed(table, s)..]))
  }

  /** The next byte is a literal 255, and code follows it. */
  predicate StrayEscape(table: Table, s: seq<byte>)
    requires s != []
  {
    Longest(table, s) == 0 && s[0] == ESCAPE && |s| > 1
  }

  lemma {:induction false} WithoutEscape(table: Table, s: seq<byte>)
    requires ESCAPE !in s
    ensures NoStrayEscape(table, s)
    decreases |s|
  {
    if s != [] {
      WithoutEscape(table, s[Consumed(table, s)..]);
    }
  }

  /** The code is at most twice as long as the text. */
  lemma {:induction false} CodeLength(table: Table, s: seq<byte>)
    requires |table| <= 255
    ensures |Encode(table, s)| <= 2 * |s|
    decreases |s|
  {
    if s != [] {
      CodeLength(table, s[Consumed(table, s)..]);
    }
  }

  function Recoded(table: Table, s: seq<byte>): (r: seq<byte>)
    requires |table| <= 255
  {
    Decode(table, Encode(table, s))
  }

  /** Decoding takes off exactly what the next piece of code is, unless that is a stray 255. */
  lemma DecodeNext(table: Table, s: seq<byte>, rest: seq<byte>)
    requires |table| <= 255 && s != []
    requires Longest(table, s) == 0 && s[0] == ESCAPE ==> rest == []
    ensures Decode(table, Emitted(table, s) + rest) == s[..Consumed(table, s)] + Decode(table, rest)
  {
    var code := Emitted(table, s);
    LongestIsPattern(table, s, |s|);
    assert Used(code + rest) == |code|;
    assert (code + rest)[|code|..] == rest;
    assert Text(table, code + rest) == s[..Consumed(table, s)];
  }

  lemma RecodedNext(table: Table, s: seq<byte>)
    requires |table| <= 255 && s != [] && !StrayEscape(table, s)
    ensures var n := Consumed(table, s); Recoded(table, s) == s[..n] + Recoded(table, s[n..])
  {
    var n := Consumed(table, s);
    if Longest(table, s) == 0 && s[0] == ESCAPE {
      assert s[n..] == [];
    }
    DecodeNext(table, s, Encode(table, s[n..]));
  }

  lemma SplitAt(s: seq<byte>, n: nat, r: seq<byte>)
    requires n <= |s|
    ensures s[..n] + r == s <==> r == s[n..]
  {
    assert s == s[..n] + s[n..];
    assert (s[..n] + r)[n..] == r;
  }

  /** decompress undoes compress wherever no literal 255 is followed by more code. */
  lemma {:induction false} RoundTrip(table: Table, s: seq<byte>)
    requires |table| <= 255 && NoStrayEscape(table, s)
    ensures Recoded(table, s) == s
    decreases |s|
  {
    if s != [] {
      var n := Consumed(table, s);
      RecodedNext(table, s);
      RoundTrip(table, s[n..]);
      SplitAt(s, n, s[n..]);
    }
  }

  // ---------------------------------------------------------------------------------
  // A stray escape is always fatal
  // ---------------------------------------------------------------------------------

  function Escapes(k: nat): (r: seq<byte>)
    ensures |r| == k
  {
    seq(k, _ => ESCAPE)
  }

  ghost predicate NonEmptyPatterns(table: Table) {
    forall i :: 0 <= i < |table| ==> table[i] != []
  }

  /** Nothing matches at s, with 1 up to k escapes put in front. */
  ghost predicate Unmatched(table: Table, s: seq<byte>, k: nat) {
    forall j :: 0 < j <= k ==> Longest(table, Escapes(j) + s) == 0
  }

  /** What a literal 255 at the head of s does to the piece of code behind it. */
  lemma RecodedStray(table: Table, s: seq<byte>)
    requires |table| <= 255 && s != [] && StrayEscape(table, s)
    ensures var t := s[1..];
            var next := Recoded(table, t[Consumed(table, t)..]);
            Recoded(table, s) ==
              if Longest(table, t) == 0 && t[0] < |table| then [ESCAPE] + table[t[0]] + next
              else [Emitted(table, t)[0]] + next
  {
    var t := s[1..];
    var code, rest := Emitted(table, t), Encode(table, t[Consumed(table, t)..]);
    assert Encode(table, s) == [ESCAPE] + (code + rest);
    DecodeEscaped(table, code + rest);
    BehindFirst(table, code, rest, t[0]);
  }

  /** What is left when an escape has taken the first byte of a piece of code. */
  lemma BehindFirst(table: Table, code: seq<byte>, rest: seq<byte>, c: byte)
    requires |code| == 1 || (code == [ESCAPE, c] && c < |table| <= 255)
    ensures (code + rest)[0] == code[0]
    ensures Decode(table, (code + rest)[1..]) ==
            if |code| == 1 then Decode(table, rest) else table[c] + Decode(table, rest)
  {
    if |code| == 1 {
      assert (code + rest)[1..] == rest;
    } else {
      assert (code + rest)[1..] == [c] + rest;
      DecodeToken(table, c, rest);
    }
  }

  lemma DecodeEscaped(table: Table, code: seq<byte>)
    requires code != []
    ensures Decode(table, [ESCAPE] + code) == [code[0]] + Decode(table, code[1..])
  {
    assert ([ESCAPE] + code)[2..] == code[1..];
  }

  lemma DecodeToken(table: Table, t: byte, rest: seq<byte>)
    requires t < |table| <= 255
    ensures Decode(table, [t] + rest) == table[t] + Decode(table, rest)
  {
    assert ([t] + rest)[1..] == rest;
  }

  lemma NoPrefixMatches(table: Table, s: seq<byte>, p: seq<byte>)
    requires Longest(table, s) == 0 && p in table && p != []
    ensures !(p <= s)
  {
    if p <= s { TokenIsLongestMatch(table, s, p); }
  }

  /** A prefix of a text that is also a prefix of the text behind escapes is made of escapes. */
  lemma AllEscapes(p: seq<byte>, rest: seq<byte>, k: nat, i: nat)
    requires k > 0 && p <= Escapes(k) + (p + rest)
    requires i < |p|
    ensures p[i] == ESCAPE
    decreases i
  {
    var t := Escapes(k) + (p + rest);
    assert p[i] == t[i];
    if i >= k {
      assert t[i] == p[i - k];
      AllEscapes(p, rest, k, i - k);
    }
  }

  /** Recoding never puts escapes in front of a text that nothing matches. */
  lemma {:induction false} NoExtraEscapes(table: Table, s: seq<byte>, k: nat)
    requires |table| <= 255 && NonEmptyPatterns(table)
    requires k > 0 && Unmatched(table, s, 2 * k)
    ensures Recoded(table, s) != Escapes(k) + s
    decreases |s|, 1
  {
    if s == [] {
      assert |Escapes(k) + s| == k;
    } else if Longest(table, s) > 0 {
      PatternCannotShift(table, s, k);
    } else if StrayEscape(table, s) {
      StrayCannotShift(table, s, k);
    } else {
      LiteralCannotShift(table, s, k);
    }
  }

  lemma LiteralCannotShift(table: Table, s: seq<byte>, k: nat)
    requires |table| <= 255 && s != [] && k > 0
    requires Longest(table, s) == 0 && !StrayEscape(table, s)
    ensures Recoded(table, s) != Escapes(k) + s
  {
    DecodeNext(table, s, Encode(table, s[1..]));
    assert (Escapes(k) + s)[0] == ESCAPE;
    if s[0] == ESCAPE {
      assert s[1..] == [];
      assert |Recoded(table, s)| == 1;
      assert |Escapes(k) + s| == k + 1;
    }
  }

  lemma PatternCannotShift(table: Table, s: seq<byte>, k: nat)
    requires |table| <= 255 && s != []
    requires k > 0 && Unmatched(table, s, 2 * k) && Longest(table, s) > 0
    ensures Recoded(table, s) != Escapes(k) + s
  {
    var n := Longest(table, s);
    var p := s[..n];
    LongestIsPattern(table, s, |s|);
    DecodeNext(table, s, Encode(table, s[n..]));
    assert s == p + s[n..];
    if Recoded(table, s) == Escapes(k) + s {
      assert p <= Escapes(k) + (p + s[n..]);
      forall i | 0 <= i < n
        ensures p[i] == ESCAPE
      {
        AllEscapes(p, s[n..], k, i);
      }
      assert p <= Escapes(1) + s;
      NoPrefixMatches(table, Escapes(1) + s, p);
    }
  }

  lemma {:induction false} StrayCannotShift(table: Table, s: seq<byte>, k: nat)
    requires |table| <= 255 && NonEmptyPatterns(table) && s != []
    requires k > 0 && Unmatched(table, s, 2 * k) && StrayEscape(table, s)
    ensures Recoded(table, s) != Escapes(k) + s
    decreases |s|, 0
  {
    var t := s[1..];
    var w := t[Consumed(table, t)..];
    RecodedStray(table, s);
    assert (Escapes(k) + s)[0] == ESCAPE;
    if Longest(table, t) == 0 && t[0] < |table| {
      EscapedCannotShift(table, s, k, table[t[0]], Recoded(table, w));
    } else if Longest(table, t) == 0 && t[0] == ESCAPE {
      TwoMoreEscapes(s, w, k);
      UnmatchedTwoMore(table, s, w, 2 * k);
      NoExtraEscapes(table, w, k + 1);
      SameBehind(Recoded(table, w), Escapes(k + 1) + w);
    }
  }

  lemma SameBehind(a: seq<byte>, b: seq<byte>)
    ensures [ESCAPE] + a == [ESCAPE] + b <==> a == b
  {
    assert ([ESCAPE] + a)[1..] == a && ([ESCAPE] + b)[1..] == b;
  }

  lemma EscapedCannotShift(table: Table, s: seq<byte>, k: nat, p: seq<byte>, rest: seq<byte>)
    requires p in table && p != []
    requires k > 0 && Unmatched(table, s, 2 * k) && Longest(table, s) == 0
    ensures [ESCAPE] + p + rest != Escapes(k) + s
  {
    var a, b := [ESCAPE] + p + rest, Escapes(k) + s;
    var shifted := Escapes(k - 1) + s;
    assert b[1..] == shifted;
    assert a[1..] == p + rest;
    if k == 1 {
      assert shifted == s;
    }
    NoPrefixMatches(table, shifted, p);
    assert p <= p + rest;
  }

  lemma TwoMoreEscapes(s: seq<byte>, w: seq<byte>, k: nat)
    requires |s| >= 2 && s[0] == s[1] == ESCAPE && w == s[2..]
    ensures Escapes(k) + s == [ESCAPE] + (Escapes(k + 1) + w)
  {}

  lemma UnmatchedTwoMore(table: Table, s: seq<byte>, w: seq<byte>, k: nat)
    requires |s| >= 2 && s[0] == s[1] == ESCAPE && w == s[2..]
    requires Longest(table, s) == 0 && Longest(table, s[1..]) == 0
    requires Unmatched(table, s, k)
    ensures Unmatched(table, w, k + 2)
  {
    forall j | 0 < j <= k + 2
      ensures Longest(table, Escapes(j) + w) == 0
    {
      if j == 1 {
        assert Escapes(j) + w == s[1..];
      } else if j == 2 {
        assert Escapes(j) + w == s;
      } else {
        assert Escapes(j) + w == Escapes(j - 2) + s;
      }
    }
  }

  /** A text that begins with a stray 255 does not come back. */
  lemma StrayIsFatal(table: Table, s: seq<byte>)
    requires |table| <= 255 && NonEmptyPatterns(table) && s != [] && StrayEscape(table, s)
    ensures Recoded(table, s) != s
  {
    var t := s[1..];
    var w := t[Consumed(table, t)..];
    RecodedStray(table, s);
    if Longest(table, t) == 0 && t[0] < |table| {
      PatternBehindStray(table, s, table[t[0]], Recoded(table, w));
    } else if Longest(table, t) == 0 && t[0] == ESCAPE {
      DoubleStray(table, s, w);
    } else {
      OtherFirst(s, Emitted(table, t)[0], Recoded(table, w));
    }
  }

  lemma OtherFirst(s: seq<byte>, x: byte, rest: seq<byte>)
    requires s != [] && x != s[0]
    ensures [x] + rest != s
  {
    assert ([x] + rest)[0] == x;
  }

  lemma PatternBehindStray(table: Table, s: seq<byte>, p: seq<byte>, rest: seq<byte>)
    requires s != [] && p in table && p != [] && Longest(table, s[1..]) == 0
    ensures [ESCAPE] + p + rest != s
  {
    NoPrefixMatches(table, s[1..], p);
    assert ([ESCAPE] + p + rest)[1..] == p + rest;
    assert p <= p + rest;
  }

  lemma DoubleStray(table: Table, s: seq<byte>, w: seq<byte>)
    requires |table| <= 255 && NonEmptyPatterns(table)
    requires |s| >= 2 && s[0] == s[1] == ESCAPE && w == s[2..]
    requires Longest(table, s) == 0 && Longest(table, s[1..]) == 0
    ensures [ESCAPE] + Recoded(table, w) != s
  {
    TwoMoreEscapes(s, w, 0);
    assert Escapes(0) + s == s;
    UnmatchedTwoMore(table, s, w, 0);
    NoExtraEscapes(table, w, 1);
    SameBehind(Recoded(table, w), Escapes(1) + w);
  }

  /** decompress gives back the text exactly when no literal 255 is followed by more code. */
  lemma {:induction false} RoundTripIff(table: Table, s: seq<byte>)
    requires |table| <= 255 && NonEmptyPatterns(table)
    ensures Recoded(table, s) == s <==> NoStrayEscape(table, s)
    decreases |s|
  {
    if s != [] {
      if StrayEscape(table, s) {
        StrayIsFatal(table, s);
      } else {
        var n := Consumed(table, s);
        RecodedNext(table, s);
        RoundTripIff(table, s[n..]);
        SplitAt(s, n, Recoded(table, s[n..]));
      }
    }
  }

  lemma StartsWithEscape(s: seq<byte>, n: nat)
    requires s != [] && s[0] == ESCAPE && n <= |s|
    ensures n > 0 ==> ESCAPE in s[..n]
  {
    if n > 0 {
      assert s[..n][0] == ESCAPE;
    }
  }

  /** With no 255 in any pattern, no text of 255 and one more byte comes back. */
  lemma StrayEscapeIsLost(table: Table, x: byte)
    requires |table| <= 255 && NonEmptyPatterns(table)
    requires forall i :: 0 <= i < |table| ==> ESCAPE !in table[i]
    ensures Recoded(table, [ESCAPE, x]) != [ESCAPE, x]
  {
    var s := [ESCAPE, x];
    LongestIsPattern(table, s, 2);
    StartsWithEscape(s, Longest(table, s));
    StrayIsFatal(table, s);
  }
}
