/** ModeParser: octal and symbolic file modes. */
module ModeParser {

  type Perms = bv32

  datatype Error =
    | EmptyMode
    | InvalidOctal
    | OctalTooLarge
    | MissingOperator
    | InvalidWho
    | InvalidPermission
    | EmptyClause

  datatype PermsResult = Ok(value: Perms) | Err(error: Error)

  datatype MasksResult = Does(masks: Masks) | Fails(error: Error)

  // ---------------------------------------------------------------------------------
  // What a mode does: keep some bits, then set some
  // ---------------------------------------------------------------------------------

  datatype Masks = Masks(keep: Perms, set_: Perms)

  const IDENTITY := Masks(0xFFFF_FFFF, 0)

  function Apply(m: Masks, p: Perms): (r: Perms) {
    (p & m.keep) | m.set_
  }

  /** First m, then n. */
  function Then(m: Masks, n: Masks): (r: Masks) {
    Masks(m.keep & n.keep, (m.set_ & n.keep) | n.set_)
  }

  lemma MasksCompose(p: bv32, k: bv32, s: bv32, k': bv32, s': bv32)
    ensures (((p & k) | s) & k') | s' == (p & (k & k')) | ((s & k') | s')
  {}

  /** Applying a composition is applying one after the other. */
  lemma ApplyThen(m: Masks, n: Masks, p: Perms)
    ensures Apply(Then(m, n), p) == Apply(n, Apply(m, p))
  {
    MasksCompose(p, m.keep, m.set_, n.keep, n.set_);
  }

  lemma MasksIdempotent(p: bv32, k: bv32, s: bv32)
    ensures (((p & k) | s) & k) | s == (p & k) | s
  {}

  /** Applying masks twice is applying them once. */
  lemma ApplyTwice(m: Masks, p: Perms)
    ensures Apply(m, Apply(m, p)) == Apply(m, p)
  {
    MasksIdempotent(p, m.keep, m.set_);
  }

  // ---------------------------------------------------------------------------------
  // Clauses
  // ---------------------------------------------------------------------------------

  const ALL: Perms := 0xFFF

  /** get_permission_char_mask. */
  function PermissionMask(c: char): (mask: PermsResult) {
    match c
    case 'r' => Ok(0x124)
    case 'w' => Ok(0x92)
    case 'x' => Ok(0x49)
    case 's' => Ok(0xC00)
    case 't' => Ok(0x200)
    case _ => Err(InvalidPermission)
  }

  function WhoMask(c: char): (mask: PermsResult) {
    match c
    case 'u' => Ok(0x9C0)
    case 'g' => Ok(0x438)
    case 'o' => Ok(0x207)
    case 'a' => Ok(ALL)
    case _ => Err(InvalidWho)
  }

  /** The masks of all characters together, or the first error. */
  function Union(mask: char -> PermsResult, s: string): (r: PermsResult) {
    if s == "" then Ok(0)
    else
      var n := |s| - 1;
      Add(Union(mask, s[..n]), mask(s[n]))
  }

  function Or(a: Perms, b: Perms): (r: Perms) {
    a | b
  }

  function Add(before: PermsResult, more: PermsResult): (r: PermsResult) {
    if before.Err? then before else if more.Err? then more else Ok(Or(before.value, more.value))
  }

  predicate IsOperator(c: char) {
    c == '+' || c == '-' || c == '='
  }

  /** find_first_of("+-="), or the length. */
  function OperatorAt(clause: string): (k: nat)
    ensures k <= |clause|
    ensures k < |clause| ==> IsOperator(clause[k])
    ensures forall i :: 0 <= i < k ==> !IsOperator(clause[i])
  {
    if clause == "" || IsOperator(clause[0]) then 0 else 1 + OperatorAt(clause[1..])
  }

  /** What an operator does with the bits selected by who and what. */
  function Operation(op: char, who: Perms, bits: Perms): (m: Masks) {
    if op == '+' then Masks(0xFFFF_FFFF, bits)
    else if op == '-' then Masks(!bits, 0)
    else Masks(!who, bits)
  }

  function ClauseMasks(clause: string): (r: MasksResult) {
    var k := OperatorAt(clause);
    if k == |clause| then Fails(MissingOperator)
    else
      Combine(clause[k], Who(clause[..k]), Union(PermissionMask, clause[k + 1..]))
  }

  /** Nobody named is everybody. */
  function Who(s: string): (mask: PermsResult) {
    if s == "" then Ok(ALL) else Union(WhoMask, s)
  }

  function Combine(op: char, who: PermsResult, what: PermsResult): (r: MasksResult) {
    if who.Err? then Fails(who.error)
    else if what.Err? then Fails(what.error)
    else Does(Operation(op, who.value, what.value & who.value))
  }

  // ---------------------------------------------------------------------------------
  // Whole modes
  // ---------------------------------------------------------------------------------

  /** The first comma, or the length. */
  function CommaAt(s: string): (k: nat)
    ensures k <= |s|
    ensures k < |s| ==> s[k] == ','
    ensures forall i :: 0 <= i < k ==> s[i] != ','
  {
    if s == "" || s[0] == ',' then 0 else 1 + CommaAt(s[1..])
  }

  /** What is left after the first clause and its comma. */
  function AfterClause(s: string): (rest: string)
    ensures s != "" ==> |rest| < |s|
  {
    var k := CommaAt(s);
    if k == |s| then "" else s[k + 1..]
  }

  /** parse_symbolic: clause after clause; an empty clause is an error unless its comma ends the mode. */
  function SymbolicMasks(s: string): (r: MasksResult)
    decreases |s|
  {
    if s == "" then Does(IDENTITY)
    else if CommaAt(s) == 0 then (if AfterClause(s) == "" then Does(IDENTITY) else Fails(EmptyClause))
    else Chain(ClauseMasks(s[..CommaAt(s)]), SymbolicMasks(AfterClause(s)))
  }

  function Chain(first: MasksResult, rest: MasksResult): (r: MasksResult) {
    if first.Fails? then first else if rest.Fails? then rest else Does(Then(first.masks, rest.masks))
  }

  predicate IsOctal(s: string) {
    forall i :: 0 <= i < |s| ==> '0' <= s[i] <= '7'
  }

  function OctalValue(s: string): (v: nat)
    requires IsOctal(s)
  {
    if s == "" then 0 else 8 * OctalValue(s[..|s| - 1]) + (s[|s| - 1] - '0') as nat
  }

  /** parse_octal: from_chars into a 32-bit unsigned, then the limit 07777. */
  function OctalMasks(s: string): (r: MasksResult)
    requires IsOctal(s)
  {
    var v := OctalValue(s);
    if v >= 0x1_0000_0000 then Fails(InvalidOctal)
    else if v > 0xFFF then Fails(OctalTooLarge)
    else Does(Masks(0, v as bv32))
  }

  /** What a mode string means, whatever the current permissions are. */
  function ModeMasks(s: string): (r: MasksResult) {
    if s == "" then Fails(EmptyMode)
    else if IsOctal(s) then OctalMasks(s)
    else SymbolicMasks(s)
  }

  /** The answer of parse for given permissions. */
  function Answer(r: MasksResult, p: Perms): (a: PermsResult) {
    match r
    case Fails(e) => Err(e)
    case Does(m) => Ok(Apply(m, p))
  }

  // ---------------------------------------------------------------------------------
  // The parser
  // ---------------------------------------------------------------------------------

  lemma UnionOneMore(mask: char -> PermsResult, s: string, i: nat)
    requires i < |s|
    ensures Union(mask, s[..i + 1]) == Add(Union(mask, s[..i]), mask(s[i]))
  {
    assert s[..i + 1][..i] == s[..i];
  }

  lemma {:induction false} ErrorStays(mask: char -> PermsResult, s: string, i: nat)
    requires i <= |s| && Union(mask, s[..i]).Err?
    ensures Union(mask, s) == Union(mask, s[..i])
    decreases |s| - i
  {
    if i < |s| {
      UnionOneMore(mask, s, i);
      ErrorStays(mask, s, i + 1);
    } else {
      assert s[..i] == s;
    }
  }

  /** The loops over the characters of who and what. */
  method Collect(mask: char -> PermsResult, s: string) returns (r: PermsResult)
    ensures r == Union(mask, s)
  {
    var bits: Perms := 0;
    for i := 0 to |s|
      invariant Union(mask, s[..i]) == Ok(bits)
    {
      UnionOneMore(mask, s, i);
      match mask(s[i])
      case Err(e) =>
        ErrorStays(mask, s, i + 1);
        return Err(e);
      case Ok(b) =>
        bits := Or(bits, b);
    }
    assert s[..|s|] == s;
    r := Ok(bits);
  }

  /** The three operators on an accumulator, given the bits they select. */
  function Effect(op: char, who: Perms, bits: Perms, acc: Perms): (r: Perms) {
    if op == '+' then acc | bits
    else if op == '-' then acc & !bits
    else (acc & !who) | bits
  }

  function Operate(op: char, who: Perms, what: Perms, acc: Perms): (r: Perms) {
    Effect(op, who, what & who, acc)
  }

  lemma KeepAll(p: bv32, s: bv32)
    ensures (p & 0xFFFF_FFFF) | s == p | s
  {}

  lemma SetNone(p: bv32, k: bv32)
    ensures (p & k) | 0 == p & k
  {}

  lemma PlusApplies(who: Perms, bits: Perms, acc: Perms)
    ensures Effect('+', who, bits, acc) == Apply(Operation('+', who, bits), acc)
  {
    KeepAll(acc, bits);
  }

  lemma MinusApplies(who: Perms, bits: Perms, acc: Perms)
    ensures Effect('-', who, bits, acc) == Apply(Operation('-', who, bits), acc)
  {
    SetNone(acc, !bits);
  }

  lemma EffectApplies(op: char, who: Perms, bits: Perms, acc: Perms)
    ensures Effect(op, who, bits, acc) == Apply(Operation(op, who, bits), acc)
  {
    if op == '+' {
      PlusApplies(who, bits, acc);
    } else if op == '-' {
      MinusApplies(who, bits, acc);
    }
  }

  lemma CombineApplies(op: char, who: Perms, what: Perms, bits: Perms, acc: Perms)
    requires bits == what & who
    ensures Answer(Combine(op, Ok(who), Ok(what)), acc) == Ok(Effect(op, who, bits, acc))
  {
    EffectApplies(op, who, bits, acc);
  }

  /** Outside who nothing changes; inside, the bits of what are added. */
  lemma PlusMeans(who: Perms, what: Perms, acc: Perms)
    ensures Operate('+', who, what, acc) & !who == acc & !who
    ensures Operate('+', who, what, acc) & who == (acc | what) & who
  {
    PlusBits(acc, who, what);
  }

  /** Outside who nothing changes; inside, the bits of what are removed. */
  lemma MinusMeans(who: Perms, what: Perms, acc: Perms)
    ensures Operate('-', who, what, acc) & !who == acc & !who
    ensures Operate('-', who, what, acc) & who == (acc & !what) & who
  {
    MinusBits(acc, who, what);
  }

  /** Outside who nothing changes; inside, exactly the bits of what remain. */
  lemma EqualsMeans(who: Perms, what: Perms, acc: Perms)
    ensures Operate('=', who, what, acc) & !who == acc & !who
    ensures Operate('=', who, what, acc) & who == what & who
  {
    EqualsOutside(who, what, acc);
    EqualsInside(who, what, acc);
  }

  lemma EqualsOutside(who: Perms, what: Perms, acc: Perms)
    ensures Operate('=', who, what, acc) & !who == acc & !who
  {
    OutsideBits(acc, who, what);
  }

  lemma EqualsInside(who: Perms, what: Perms, acc: Perms)
    ensures Operate('=', who, what, acc) & who == what & who
  {
    InsideBits(acc, who, what);
  }

  lemma PlusBits(p: bv32, who: bv32, what: bv32)
    ensures (p | (what & who)) & !who == p & !who
    ensures (p | (what & who)) & who == (p | what) & who
  {}

  lemma MinusBits(p: bv32, who: bv32, what: bv32)
    ensures (p & !(what & who)) & !who == p & !who
    ensures (p & !(what & who)) & who == (p & !what) & who
  {}

  lemma OutsideBits(p: bv32, who: bv32, what: bv32)
    ensures ((p & !who) | (what & who)) & !who == p & !who
  {}

  lemma InsideBits(p: bv32, who: bv32, what: bv32)
    ensures ((p & !who) | (what & who)) & who == what & who
  {}

  /** The end of parse_symbolic_clause: the operator on the accumulator. */
  method ApplyOperator(op: char, who: PermsResult, what: PermsResult, acc: Perms) returns (r: PermsResult)
    requires who.Ok? && what.Ok?
    ensures r == Answer(Combine(op, who, what), acc)
  {
    var bits := what.value & who.value;
    CombineApplies(op, who.value, what.value, bits, acc);
    r := Ok(Effect(op, who.value, bits, acc));
  }

  /** parse_symbolic_clause: the accumulator after the clause. */
  method ParseSymbolicClause(clause: string, acc: Perms) returns (r: PermsResult)
    ensures r == Answer(ClauseMasks(clause), acc)
  {
    var at := OperatorAt(clause);
    if at == |clause| {
      return Err(MissingOperator);
    }
    var op, whoStr, whatStr := clause[at], clause[..at], clause[at + 1..];
    var who: PermsResult := Ok(ALL);
    if whoStr != "" {
      who := Collect(WhoMask, whoStr);
    }
    if who.Err? {
      return Err(who.error);
    }
    var what := Collect(PermissionMask, whatStr);
    if what.Err? {
      return Err(what.error);
    }
    r := ApplyOperator(op, who, what, acc);
  }

  /** The wanted answer is that of the rest, applied to the permissions reached so far. */
  ghost predicate Continues(want: PermsResult, acc: Perms, rest: string) {
    want == Answer(SymbolicMasks(rest), acc)
  }

  lemma NextClause(want: PermsResult, acc: Perms, rest: string)
    requires Continues(want, acc, rest) && rest != "" && CommaAt(rest) > 0
    ensures var a := Answer(ClauseMasks(rest[..CommaAt(rest)]), acc);
            if a.Ok? then Continues(want, a.value, AfterClause(rest)) else want == a
  {
    var m := ClauseMasks(rest[..CommaAt(rest)]);
    var n := SymbolicMasks(AfterClause(rest));
    if m.Does? && n.Does? {
      ApplyThen(m.masks, n.masks, acc);
    }
  }

  lemma ApplyIdentity(p: Perms)
    ensures Apply(IDENTITY, p) == p
  {}

  lemma NoMoreClauses(want: PermsResult, acc: Perms)
    requires Continues(want, acc, "")
    ensures want == Ok(acc)
  {
    ApplyIdentity(acc);
  }

  lemma NothingInClause(want: PermsResult, acc: Perms, rest: string)
    requires Continues(want, acc, rest) && rest != "" && CommaAt(rest) == 0
    ensures want == if AfterClause(rest) == "" then Ok(acc) else Err(EmptyClause)
  {
    ApplyIdentity(acc);
  }

  /** One round of the loop of parse_symbolic; go is false where it ends. */
  method ParseNext(rest: string, acc: Perms, ghost want: PermsResult) returns (r: PermsResult, go: bool)
    requires rest != "" && Continues(want, acc, rest)
    ensures go ==> r.Ok? && Continues(want, r.value, AfterClause(rest))
    ensures !go ==> r == want
  {
    var comma := CommaAt(rest);
    if comma == 0 {
      NothingInClause(want, acc, rest);
      r := if AfterClause(rest) == "" then Ok(acc) else Err(EmptyClause);
      go := false;
    } else {
      NextClause(want, acc, rest);
      r := ParseSymbolicClause(rest[..comma], acc);
      go := r.Ok?;
    }
  }

  /** Where the loop of parse_symbolic goes on. */
  method NextStart(mode: string, start: nat) returns (next: nat)
    requires start < |mode|
    ensures start < next <= |mode| && mode[next..] == AfterClause(mode[start..])
  {
    var rest := mode[start..];
    var comma := CommaAt(rest);
    next := if comma == |rest| then |mode| else start + comma + 1;
  }

  /** parse_symbolic. */
  method ParseSymbolic(mode: string, current: Perms) returns (r: PermsResult)
    ensures r == Answer(SymbolicMasks(mode), current)
  {
    ghost var want := Answer(SymbolicMasks(mode), current);
    var start := 0;
    var go := true;
    r := Ok(current);
    assert mode[0..] == mode;
    while start < |mode|
      invariant 0 <= start <= |mode|
      invariant r.Ok? && Continues(want, r.value, mode[start..])
    {
      r, go := ParseNext(mode[start..], r.value, want);
      if !go {
        return;
      }
      start := NextStart(mode, start);
    }
    NoMoreClauses(want, r.value);
  }

  /** parse. */
  method Parse(mode: string, current: Perms) returns (r: PermsResult)
    ensures r == Answer(ModeMasks(mode), current)
  {
    if mode == "" {
      return Err(EmptyMode);
    }
    if IsOctal(mode) {
      var v := OctalMasks(mode);
      if v.Does? {
        OnlySet(current, v.masks.set_);
        r := Ok(v.masks.set_);
      } else {
        r := Err(v.error);
      }
    } else {
      r := ParseSymbolic(mode, current);
    }
  }

  lemma OnlySet(p: bv32, s: bv32)
    ensures (p & 0) | s == s
  {}

  // ---------------------------------------------------------------------------------
  // What modes have in common
  // ---------------------------------------------------------------------------------

  /**
    A mode fails for all permissions or for none, and where it succeeds a second application
    changes nothing.
  */
  lemma ModesAreIdempotent(mode: string, p: Perms, q: Perms)
    ensures Answer(ModeMasks(mode), p).Ok? <==> Answer(ModeMasks(mode), q).Ok?
    ensures var once := Answer(ModeMasks(mode), p);
            once.Ok? ==> Answer(ModeMasks(mode), once.value) == once
  {
    var m := ModeMasks(mode);
    if m.Does? { ApplyTwice(m.masks, p); }
  }

  lemma ApplyAbsolute(bits: Perms, p: Perms)
    ensures Apply(Masks(0, bits), p) == bits
  {
    OnlySet(p, bits);
  }

  /** An octal mode up to 07777 is the new permissions, whatever they were; a larger one fails. */
  lemma OctalIsAbsolute(mode: string, p: Perms, bits: Perms)
    requires mode != "" && IsOctal(mode)
    ensures OctalValue(mode) <= 0xFFF && OctalValue(mode) as bv32 == bits ==> Answer(ModeMasks(mode), p) == Ok(bits)
    ensures OctalValue(mode) > 0xFFF ==> Answer(ModeMasks(mode), p).Err?
  {
    ApplyAbsolute(bits, p);
  }

  lemma LowThree(bits: bv32)
    ensures bits & 7 < 8 && ((bits & 7) as nat) < 8
  {}

  /** The octal digit of the lowest three bits. */
  function Group(bits: Perms): (c: char)
    ensures '0' <= c <= '7' && (c - '0') as nat == (bits & 7) as nat
  {
    LowThree(bits);
    '0' + ((bits & 7) as nat) as char
  }

  /** Any four octal digits, place by place. */
  lemma FourDigits(a: char, b: char, c: char, d: char)
    requires '0' <= a <= '7' && '0' <= b <= '7' && '0' <= c <= '7' && '0' <= d <= '7'
    ensures IsOctal([a, b, c, d])
    ensures OctalValue([a, b, c, d]) ==
            512 * (a - '0') as nat + 64 * (b - '0') as nat + 8 * (c - '0') as nat + (d - '0') as nat
  {
    assert [a, b, c, d][..3] == [a, b, c] && [a, b, c][..2] == [a, b] && [a, b][..1] == [a] && [a][..0] == [];
    assert IsOctal([a, b, c]) && IsOctal([a, b]) && IsOctal([a]) && IsOctal([]);
    assert OctalValue([]) == 0;
    assert OctalValue([a]) == (a - '0') as nat;
    assert OctalValue([a, b]) == 8 * OctalValue([a]) + (b - '0') as nat;
    assert OctalValue([a, b, c]) == 8 * OctalValue([a, b]) + (c - '0') as nat;
  }

  lemma {:induction false} ZeroInFront(s: string)
    requires IsOctal(s)
    ensures IsOctal("0" + s) && OctalValue("0" + s) == OctalValue(s)
    decreases |s|
  {
    if s == "" {
      assert "0" + s == "0" && "0"[..0] == "";
    } else {
      var n := |s| - 1;
      ZeroInFront(s[..n]);
      assert ("0" + s)[..|s|] == "0" + s[..n];
    }
  }

  /** A zero in front of an octal mode changes nothing. */
  lemma LeadingZero(mode: string)
    requires mode != "" && IsOctal(mode)
    ensures ModeMasks("0" + mode) == ModeMasks(mode)
  {
    ZeroInFront(mode);
  }

  lemma PushDigit(high: bv32, low: bv32)
    requires high < 512 && low < 8
    ensures ((high << 3) | low) as nat == 8 * (high as nat) + low as nat
  {}

  lemma Regrouped(bits: bv32)
    requires bits <= 0xFFF
    ensures ((bits >> 9) & 7) == bits >> 9 < 8
    ensures ((bits >> 9) << 3) | ((bits >> 6) & 7) == bits >> 6 < 64
    ensures ((bits >> 6) << 3) | ((bits >> 3) & 7) == bits >> 3 < 512
    ensures ((bits >> 3) << 3) | (bits & 7) == bits
  {}

  /** The number whose octal digits are the groups of bits is bits. */
  lemma GroupsAdd(bits: Perms)
    requires bits <= 0xFFF
    ensures bits as nat == 512 * ((bits >> 9) & 7) as nat + 64 * ((bits >> 6) & 7) as nat
                           + 8 * ((bits >> 3) & 7) as nat + (bits & 7) as nat
  {
    Regrouped(bits);
    LowThree(bits);
    LowThree(bits >> 3);
    LowThree(bits >> 6);
    PushDigit(bits >> 9, (bits >> 6) & 7);
    PushDigit(bits >> 6, (bits >> 3) & 7);
    PushDigit(bits >> 3, bits & 7);
  }

  lemma NumberAndBack(bits: bv32)
    ensures (bits as nat) as bv32 == bits
    ensures bits <= 0xFFF ==> (bits as nat) <= 0xFFF
  {}

  /** Four octal digits whose number is that of bits are read as bits. */
  lemma FourDigitsParse(a: char, b: char, c: char, d: char, n: nat, bits: Perms, p: Perms)
    requires '0' <= a <= '7' && '0' <= b <= '7' && '0' <= c <= '7' && '0' <= d <= '7'
    requires n == 512 * (a - '0') as nat + 64 * (b - '0') as nat + 8 * (c - '0') as nat + (d - '0') as nat
    requires n <= 0xFFF && n as bv32 == bits
    ensures Answer(ModeMasks([a, b, c, d]), p) == Ok(bits)
  {
    FourDigits(a, b, c, d);
    OctalIsAbsolute([a, b, c, d], p, bits);
  }

  /** All permission bits, written as four octal digits, are read back, whatever the permissions were. */
  lemma OctalReadsBack(bits: Perms, p: Perms)
    requires bits <= 0xFFF
    ensures Answer(ModeMasks([Group(bits >> 9), Group(bits >> 6), Group(bits >> 3), Group(bits)]), p) == Ok(bits)
  {
    GroupsAdd(bits);
    NumberAndBack(bits);
    FourDigitsParse(Group(bits >> 9), Group(bits >> 6), Group(bits >> 3), Group(bits), bits as nat, bits, p);
  }

  function Join(clauses: seq<string>): (s: string) {
    if clauses == [] then ""
    else if |clauses| == 1 then clauses[0]
    else clauses[0] + "," + Join(clauses[1..])
  }

  /** The clauses one after the other, each on what the one before left. */
  function InTurn(clauses: seq<string>, p: Perms): (r: PermsResult) {
    if clauses == [] then Ok(p)
    else
      match Answer(ClauseMasks(clauses[0]), p)
      case Err(e) => Err(e)
      case Ok(q) => InTurn(clauses[1..], q)
  }

  lemma {:induction false} CommaIs(s: string, k: nat)
    requires k <= |s| && (k < |s| ==> s[k] == ',')
    requires forall i :: 0 <= i < k ==> s[i] != ','
    ensures CommaAt(s) == k
    decreases k
  {
    if k > 0 { CommaIs(s[1..], k - 1); }
  }

  /** A comma list applies its clauses from left to right. */
  lemma {:induction false} CommaListInTurn(clauses: seq<string>, p: Perms)
    requires forall k :: 0 <= k < |clauses| ==> clauses[k] != "" && ',' !in clauses[k]
    ensures Answer(SymbolicMasks(Join(clauses)), p) == InTurn(clauses, p)
    decreases |clauses|
  {
    if clauses == [] {
      ApplyIdentity(p);
    } else {
      var s, c := Join(clauses), clauses[0];
      CommaIs(s, |c|);
      assert s[..|c|] == c;
      assert AfterClause(s) == Join(clauses[1..]);
      NextClause(Answer(SymbolicMasks(s), p), p, s);
      var a := Answer(ClauseMasks(c), p);
      if a.Ok? {
        CommaListInTurn(clauses[1..], a.value);
      }
    }
  }

  /** Every clause with its comma. */
  function Ended(clauses: seq<string>): (s: string) {
    if clauses == [] then "" else clauses[0] + ("," + Ended(clauses[1..]))
  }

  lemma FirstClauseOf(s: string, c: string, rest: string)
    requires ',' !in c && s == c + ("," + rest)
    ensures CommaAt(s) == |c| && s[..|c|] == c && AfterClause(s) == rest
  {
    CommaIs(s, |c|);
  }

  /** Whatever follows a list of clauses and their commas works on what the clauses leave. */
  lemma {:induction false} ClausesThen(clauses: seq<string>, tail: string, p: Perms)
    requires forall k :: 0 <= k < |clauses| ==> clauses[k] != "" && ',' !in clauses[k]
    ensures Answer(SymbolicMasks(Ended(clauses) + tail), p) ==
            match InTurn(clauses, p)
            case Err(e) => Err(e)
            case Ok(q) => Answer(SymbolicMasks(tail), q)
    decreases |clauses|
  {
    var s := Ended(clauses) + tail;
    if clauses == [] {
      assert s == tail;
    } else {
      var c, rest := clauses[0], Ended(clauses[1..]) + tail;
      assert s == c + ("," + rest);
      FirstClauseOf(s, c, rest);
      NextClause(Answer(SymbolicMasks(s), p), p, s);
      var a := Answer(ClauseMasks(c), p);
      if a.Ok? {
        ClausesThen(clauses[1..], tail, a.value);
      }
    }
  }

  /** At the end of a mode, or before its last comma, there may be nothing; elsewhere it is an error. */
  lemma NothingBetweenCommas(rest: string, p: Perms)
    ensures Answer(SymbolicMasks(""), p) == Ok(p)
    ensures Answer(SymbolicMasks("," + rest), p) == if rest == "" then Ok(p) else Err(EmptyClause)
  {
    ApplyIdentity(p);
    assert ("," + rest)[1..] == rest;
  }

  lemma {:induction false} UnionFailsIff(mask: char -> PermsResult, s: string)
    ensures Union(mask, s).Err? <==> exists i :: 0 <= i < |s| && mask(s[i]).Err?
    decreases |s|
  {
    if s != "" {
      var n := |s| - 1;
      UnionFailsIff(mask, s[..n]);
      assert Union(mask, s).Err? <==> Union(mask, s[..n]).Err? || mask(s[n]).Err?;
      forall i | 0 <= i < n
        ensures s[..n][i] == s[i]
      {
      }
    }
  }

  ghost predicate OnlyOf(s: string, letters: string) {
    forall i :: 0 <= i < |s| ==> s[i] in letters
  }

  lemma WhoWorksIff(s: string)
    ensures Who(s).Ok? <==> OnlyOf(s, "ugoa")
  {
    UnionFailsIff(WhoMask, s);
    forall i | 0 <= i < |s|
      ensures WhoMask(s[i]).Err? <==> s[i] !in "ugoa"
    {
      KnownLetters(s[i]);
    }
  }

  lemma WhatWorksIff(s: string)
    ensures Union(PermissionMask, s).Ok? <==> OnlyOf(s, "rwxst")
  {
    UnionFailsIff(PermissionMask, s);
    forall i | 0 <= i < |s|
      ensures PermissionMask(s[i]).Err? <==> s[i] !in "rwxst"
    {
      KnownLetters(s[i]);
    }
  }

  lemma CombineWorksIff(op: char, who: PermsResult, what: PermsResult)
    ensures Combine(op, who, what).Does? <==> who.Ok? && what.Ok?
  {}

  /** A clause works exactly if it has an operator, after letters of ugoa and before letters of rwxst. */
  lemma ClauseWorksIff(clause: string, k: nat)
    requires k == OperatorAt(clause)
    ensures ClauseMasks(clause).Does? <==>
            k < |clause| && OnlyOf(clause[..k], "ugoa") && OnlyOf(clause[k + 1..], "rwxst")
  {
    if k < |clause| {
      WhoWorksIff(clause[..k]);
      WhatWorksIff(clause[k + 1..]);
      CombineWorksIff(clause[k], Who(clause[..k]), Union(PermissionMask, clause[k + 1..]));
    }
  }

  lemma KnownLetters(c: char)
    ensures WhoMask(c).Err? <==> c !in "ugoa"
    ensures PermissionMask(c).Err? <==> c !in "rwxst"
  {
    assert c in "ugoa" <==> c == 'u' || c == 'g' || c == 'o' || c == 'a' by {
      assert "ugoa"[0] == 'u' && "ugoa"[1] == 'g' && "ugoa"[2] == 'o' && "ugoa"[3] == 'a';
    }
    assert c in "rwxst" <==> c == 'r' || c == 'w' || c == 'x' || c == 's' || c == 't' by {
      assert "rwxst"[0] == 'r' && "rwxst"[1] == 'w' && "rwxst"[2] == 'x' && "rwxst"[3] == 's' && "rwxst"[4] == 't';
    }
  }

  // ---------------------------------------------------------------------------------
  // Symbolic modes in the layout of st_mode
  // ---------------------------------------------------------------------------------

  /** The letters behind an operator. */
  datatype What = What(r: bool, w: bool, x: bool, s: bool, t: bool)

  function Letters(c: What): (s: string) {
    (if c.r then "r" else "") + (if c.w then "w" else "") + (if c.x then "x" else "")
    + (if c.s then "s" else "") + (if c.t then "t" else "")
  }

  /** A class of users: the bits of st_mode that belong to it, and among them those each letter stands for. */
  datatype Class = Class(mask: Perms, r: Perms, w: Perms, x: Perms, s: Perms, t: Perms)

  const EVERYONE := Class(0xFFF, 0x124, 0x92, 0x49, 0xC00, 0x200)

  function ClassOf(who: char): (class_: Class)
    requires who == 'u' || who == 'g' || who == 'o' || who == 'a'
  {
    match who
    case 'u' => Class(0x9C0, 0x100, 0x80, 0x40, 0x800, 0)
    case 'g' => Class(0x438, 0x20, 0x10, 0x8, 0x400, 0)
    case 'o' => Class(0x207, 0x4, 0x2, 0x1, 0, 0x200)
    case _ => EVERYONE
  }

  function Bits(c: What, k: Class): (bits: Perms) {
    Or(Or(Or(Or(if c.r then k.r else 0, if c.w then k.w else 0), if c.x then k.x else 0),
          if c.s then k.s else 0), if c.t then k.t else 0)
  }

  lemma UnionOne(mask: char -> PermsResult, c: char)
    ensures Union(mask, [c]) == Add(Ok(0), mask(c))
  {
    assert [c][..0] == "";
  }

  lemma UnionMore(mask: char -> PermsResult, s: string, c: char)
    ensures Union(mask, s + [c]) == Add(Union(mask, s), mask(c))
  {
    assert (s + [c])[..|s|] == s;
  }

  lemma AddOk(a: Perms, b: Perms)
    ensures Add(Ok(a), Ok(b)) == Ok(Or(a, b))
  {}

  lemma UnionWith(mask: char -> PermsResult, s: string, c: char, before: Perms, bits: Perms)
    requires Union(mask, s) == Ok(before) && mask(c) == Ok(bits)
    ensures Union(mask, s + [c]) == Ok(Or(before, bits))
  {
    UnionMore(mask, s, c);
    AddOk(before, bits);
  }

  lemma UnionWithout(mask: char -> PermsResult, s: string, before: Perms)
    requires Union(mask, s) == Ok(before)
    ensures Union(mask, s + "") == Ok(Or(before, 0))
  {
    NothingMore(before);
    assert s + "" == s;
  }

  /** One more letter, or none. */
  lemma UnionMaybe(mask: char -> PermsResult, s: string, has: bool, c: char, before: Perms, bits: Perms)
    requires Union(mask, s) == Ok(before) && mask(c) == Ok(bits)
    ensures has ==> Union(mask, s + [c]) == Ok(Or(before, bits))
    ensures !has ==> Union(mask, s + "") == Ok(Or(before, 0))
  {
    if has { UnionWith(mask, s, c, before, bits); } else { UnionWithout(mask, s, before); }
  }

  lemma OrTwice(a: Perms, b: Perms)
    ensures Or(Or(a, b), b) == Or(a, b)
  {}

  lemma AddTwice(before: PermsResult, more: PermsResult)
    ensures Add(Add(before, more), more) == Add(before, more)
  {
    if before.Ok? && more.Ok? {
      OrTwice(before.value, more.value);
    }
  }

  /** A letter that is given again changes nothing. */
  lemma LetterTwice(mask: char -> PermsResult, s: string, c: char)
    ensures Union(mask, s + [c] + [c]) == Union(mask, s + [c])
  {
    UnionMore(mask, s, c);
    UnionMore(mask, s + [c], c);
    AddTwice(Union(mask, s), mask(c));
  }

  lemma NothingMore(bits: bv32)
    ensures Or(bits, 0) == bits && Or(0, bits) == bits
  {}

  lemma LettersMask(c: What)
    ensures Union(PermissionMask, Letters(c)) == Ok(Bits(c, EVERYONE))
  {
    var r, w, x, s, t := if c.r then "r" else "", if c.w then "w" else "", if c.x then "x" else "",
                         if c.s then "s" else "", if c.t then "t" else "";
    var br, bw, bx, bs, bt := if c.r then EVERYONE.r else 0, if c.w then EVERYONE.w else 0,
                              if c.x then EVERYONE.x else 0, if c.s then EVERYONE.s else 0,
                              if c.t then EVERYONE.t else 0;
    NothingMore(br);
    assert "" + r == r;
    UnionMaybe(PermissionMask, "", c.r, 'r', 0, EVERYONE.r);
    UnionMaybe(PermissionMask, r, c.w, 'w', br, EVERYONE.w);
    UnionMaybe(PermissionMask, r + w, c.x, 'x', Or(br, bw), EVERYONE.x);
    UnionMaybe(PermissionMask, r + w + x, c.s, 's', Or(Or(br, bw), bx), EVERYONE.s);
    UnionMaybe(PermissionMask, r + w + x + s, c.t, 't', Or(Or(Or(br, bw), bx), bs), EVERYONE.t);
  }

  lemma ClauseParts(who: char, op: char, what: string)
    requires !IsOperator(who) && IsOperator(op)
    ensures ClauseMasks([who, op] + what) == Combine(op, Union(WhoMask, [who]), Union(PermissionMask, what))
  {
    var s := [who, op] + what;
    assert s[..1] == [who] && s[2..] == what;
    assert s[1..][0] == op;
    assert OperatorAt(s) == 1;
  }

  /** A clause that names nobody is one for all. */
  lemma NobodyIsEverybody(op: char, what: string)
    requires IsOperator(op)
    ensures ClauseMasks([op] + what) == ClauseMasks(['a', op] + what)
  {
    assert ([op] + what)[1..] == what;
    ClauseParts('a', op, what);
    UnionOne(WhoMask, 'a');
    NothingMore(ALL);
  }

  lemma ClauseApplied(who: char, op: char, c: What, mask: Perms, bits: Perms, selected: Perms, p: Perms)
    requires IsOperator(op) && WhoMask(who) == Ok(mask) && bits == Bits(c, EVERYONE) && bits & mask == selected
    ensures Answer(ClauseMasks([who, op] + Letters(c)), p) == Ok(Effect(op, mask, selected, p))
  {
    ClauseParts(who, op, Letters(c));
    UnionOne(WhoMask, who);
    NothingMore(mask);
    LettersMask(c);
    CombineApplies(op, mask, bits, selected, p);
  }

  lemma ClassSelects(who: char, c: What)
    requires who == 'u' || who == 'g' || who == 'o' || who == 'a'
    ensures WhoMask(who) == Ok(ClassOf(who).mask)
    ensures Bits(c, EVERYONE) & ClassOf(who).mask == Bits(c, ClassOf(who))
  {}

  /**
    A clause for one class, parsed from its text: plus sets the bits of st_mode that the letters
    stand for in that class, minus clears them, equals leaves the class exactly them; nothing
    else changes.
  */
  lemma ClauseDoes(who: char, op: char, c: What, p: Perms)
    requires IsOperator(op) && (who == 'u' || who == 'g' || who == 'o' || who == 'a')
    ensures Answer(ClauseMasks([who, op] + Letters(c)), p) ==
            Ok(Effect(op, ClassOf(who).mask, Bits(c, ClassOf(who)), p))
  {
    ClassSelects(who, c);
    ClauseApplied(who, op, c, ClassOf(who).mask, Bits(c, EVERYONE), Bits(c, ClassOf(who)), p);
  }
}
