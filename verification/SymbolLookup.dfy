/**
  Symbol lookup in the dynamic linker: elf_hash, and dlsym_int's walk along the hash chains of
  each loaded object in list order (System V gABI chapter 5, "Hash Table").
*/
module SymbolLookup {
  import opened Prelude
  import opened Folds

  /** A symbol table entry: name, st_value and st_shndx. */
  datatype Symbol = Symbol(name: seq<bv8>, value: nat, section: nat)

  /** A loaded object: codeplus, the hash table's buckets and chain, and the symbol table. */
  datatype Object = Object(base: nat, buckets: seq<nat>, chain: seq<nat>, symbols: seq<Symbol>)

  // ---------------------------------------------------------------------------------
  // The hash
  // ---------------------------------------------------------------------------------

  /**
    The word after the shift and the addition, mixed as the gABI writes it: the top four bits are
    folded in and cleared with AND NOT.
  */
  function Mix(t: bv32): (r: bv32) {
    if t & 0xF000_0000 != 0 then (t ^ ((t & 0xF000_0000) >> 24)) & !(t & 0xF000_0000) else t
  }

  /** One round of elf_hash on a 32-bit unsigned word; the shift and the addition wrap. */
  function HashStep(h: bv32, c: bv8): (r: bv32) {
    Mix((h << 4) + (c as bv32))
  }

  function Hash(h: bv32, name: seq<bv8>): (r: bv32) {
    Fold(HashStep, h, name)
  }

  lemma FoldedXor(t: bv32)
    ensures (t ^ ((t & 0xF000_0000) >> 24)) ^ (t & 0xF000_0000) ==
            (t ^ ((t & 0xF000_0000) >> 24)) & !(t & 0xF000_0000)
  {}

  lemma NothingToFold(t: bv32)
    ensures t & 0xF000_0000 == 0 ==> t ^ (t & 0xF000_0000) == t
  {}

  lemma FoldedTop(t: bv32)
    ensures ((t ^ ((t & 0xF000_0000) >> 24)) & !(t & 0xF000_0000)) & 0xF000_0000 == 0
  {}

  /** Whatever the word held, a round clears its top four bits. */
  lemma MixClearsTop(t: bv32)
    ensures Mix(t) & 0xF000_0000 == 0
  {
    FoldedTop(t);
  }

  /** The top four bits come down to the bits 4 to 7, and are gone. */
  lemma MixFolds(t: bv32)
    ensures Mix(t) == (t & 0x0FFF_FFFF) ^ ((t >> 28) << 4)
  {
    FoldedDown(t);
  }

  lemma FoldedDown(t: bv32)
    ensures t & 0xF000_0000 != 0 ==>
      (t ^ ((t & 0xF000_0000) >> 24)) & !(t & 0xF000_0000) == (t & 0x0FFF_FFFF) ^ ((t >> 28) << 4)
    ensures t & 0xF000_0000 == 0 ==> t == (t & 0x0FFF_FFFF) ^ ((t >> 28) << 4)
  {}

  /** The last statements of the loop of elf_hash clear with XOR, to the same effect. */
  method MixByXor(t: bv32) returns (h: bv32)
    ensures h == Mix(t)
  {
    FoldedXor(t);
    NothingToFold(t);
    h := t;
    var g := h & 0xF000_0000;
    if g != 0 {
      h := h ^ (g >> 24);
    }
    h := h ^ g;
  }

  /** elf_hash stays below 2^28 for every name. */
  lemma {:induction false} HashBelow28Bits(h: bv32, name: seq<bv8>)
    requires h & 0xF000_0000 == 0
    ensures Hash(h, name) & 0xF000_0000 == 0
    decreases |name|
  {
    if name != [] {
      MixClearsTop((h << 4) + (name[0] as bv32));
      HashBelow28Bits(HashStep(h, name[0]), name[1..]);
    }
  }

  function Place(w: bv32, c: bv8): (w': bv32) {
    w * 16 + (c as bv32)
  }

  /** The bytes of a name as digits of a number to base 16, the last one lowest. */
  function Weighted(name: seq<bv8>): (w: bv32) {
    Fold(Place, 0, name)
  }

  /** One more digit still leaves the number below 28 bits. */
  predicate Fits(w: bv32, c: bv8) {
    w < 0x100_0000 && w * 16 + (c as bv32) < 0x1000_0000
  }

  lemma Sixteen(w: bv32)
    ensures w * 16 == w << 4
  {}

  lemma SmallTop(t: bv32)
    requires t < 0x1000_0000
    ensures t & 0xF000_0000 == 0
  {}

  lemma NothingFolded(w: bv32, c: bv8)
    requires Fits(w, c)
    ensures HashStep(w, c) == Place(w, c)
  {
    Sixteen(w);
    SmallTop(Place(w, c));
  }

  /** A name whose number stays below 28 bits has that number as its hash. */
  lemma ShortNamesHashToSum(name: seq<bv8>)
    requires forall k :: 0 <= k < |name| ==> Fits(Weighted(name[..k]), name[k])
    ensures Hash(0, name) == Weighted(name)
  {
    forall k | 0 <= k < |name|
      ensures HashStep(Fold(Place, 0, name[..k]), name[k]) == Place(Fold(Place, 0, name[..k]), name[k])
    {
      NothingFolded(Weighted(name[..k]), name[k]);
    }
    FoldsAgree(HashStep, Place, 0, name);
  }

  /** The body of elf_hash's loop, in XOR, is a round of the gABI's hash, in AND NOT. */
  method Round(h: bv32, c: bv8) returns (r: bv32)
    ensures r == HashStep(h, c)
  {
    r := MixByXor((h << 4) + (c as bv32));
  }

  /** elf_hash. */
  method ElfHash(name: seq<bv8>) returns (h: bv32)
    ensures h == Hash(0, name)
    ensures h & 0xF000_0000 == 0
  {
    h := 0;
    for i := 0 to |name|
      invariant h == Hash(0, name[..i])
    {
      assert name[..i + 1] == name[..i] + [name[i]];
      FoldLast(HashStep, 0, name[..i], name[i]);
      h := Round(h, name[i]);
    }
    assert name[..|name|] == name;
    HashBelow28Bits(0, name);
  }

  // ---------------------------------------------------------------------------------
  // Hash chains
  // ---------------------------------------------------------------------------------

  /** A symbol that dlsym_int may return: it has a value and a section. */
  predicate Defined(s: Symbol) {
    s.value != 0 && s.section != 0
  }

  /** Every bucket and link is 0 or a symbol index, and links always lead to a lower rank. */
  ghost predicate WellLinked(o: Object, rank: seq<nat>) {
    && |o.buckets| > 0
    && |o.chain| == |o.symbols| == |rank|
    && (forall k :: 0 <= k < |o.buckets| && o.buckets[k] != 0 ==> o.buckets[k] < |o.chain|)
    && (forall k :: 0 < k < |o.chain| && o.chain[k] != 0 ==> o.chain[k] < |o.chain|)
    && (forall k :: 0 < k < |o.chain| && o.chain[k] != 0 ==> rank[o.chain[k]] < rank[k])
  }

  /** The chain from index leads to symbol i before it ends. */
  ghost predicate OnChain(o: Object, rank: seq<nat>, index: nat, i: nat)
    requires WellLinked(o, rank)
    decreases if 0 < index < |o.chain| then rank[index] + 1 else 0
  {
    0 < index < |o.chain| && (index == i || OnChain(o, rank, o.chain[index], i))
  }

  function Bucket(o: Object, name: seq<bv8>): (index: nat)
    requires |o.buckets| > 0
  {
    o.buckets[(Hash(0, name) as nat) % |o.buckets|]
  }

  lemma Remainder(h: nat, n: nat, q: nat, k: nat)
    requires k < n && h == q * n + k
    ensures h % n == k
  {
    var d := h / n - q;
    assert h == (h / n) * n + h % n;
    assert d * n == k - h % n by { assert d * n == (h / n) * n - q * n; }
    if d >= 1 { Grows(d, n); } else if d <= -1 { Grows(-d, n); }
  }

  lemma Grows(d: int, n: nat)
    requires d >= 1
    ensures d * n >= n && (-d) * n == -(d * n)
  {}

  /** The bucket of a name is what its hash leaves over when it is divided by the number of buckets. */
  lemma BucketIs(o: Object, name: seq<bv8>, q: nat, k: nat)
    requires k < |o.buckets| && Hash(0, name) as nat == q * |o.buckets| + k
    ensures Bucket(o, name) == o.buckets[k]
  {
    Remainder(Hash(0, name) as nat, |o.buckets|, q, k);
  }

  /** Symbol i is a definition of name. */
  predicate Defines(o: Object, i: nat, name: seq<bv8>) {
    0 < i < |o.symbols| && Defined(o.symbols[i]) && o.symbols[i].name == name
  }

  /** Chains end, and every defined symbol is on the chain of its name's bucket. */
  ghost predicate WellHashed(o: Object, rank: seq<nat>) {
    && WellLinked(o, rank)
    && forall i: nat, name :: Defines(o, i, name) ==> OnChain(o, rank, Bucket(o, name), i)
  }

  /** No name is defined twice in one object. */
  ghost predicate UniquelyDefines(o: Object) {
    forall i: nat, j: nat, name :: Defines(o, i, name) && Defines(o, j, name) ==> i == j
  }

  /** The inner loop of dlsym_int: one object's chain for the name. */
  method LookupIn(o: Object, name: seq<bv8>, ghost rank: seq<nat>) returns (r: Option<nat>)
    requires WellHashed(o, rank)
    ensures r.Some? ==> Defines(o, r.value, name)
    ensures r.None? ==> forall i: nat :: !Defines(o, i, name)
  {
    var h := ElfHash(name);
    var index: nat := o.buckets[(h as nat) % |o.buckets|];
    while index != 0
      invariant index == 0 || index < |o.chain|
      invariant forall i: nat :: Defines(o, i, name) ==> OnChain(o, rank, index, i)
      decreases if index == 0 then 0 else rank[index] + 1
    {
      var s := o.symbols[index];
      if s.value != 0 && s.section != 0 && s.name == name {
        return Some(index);
      }
      index := o.chain[index];
    }
    r := None;
  }

  // ---------------------------------------------------------------------------------
  // The reference: a linear scan of the symbol tables in list order
  // ---------------------------------------------------------------------------------

  function ScanObject(o: Object, name: seq<bv8>, i: nat): (r: Option<nat>)
    requires i <= |o.symbols|
    decreases |o.symbols| - i
  {
    if i == |o.symbols| then None
    else if Defines(o, i, name) then Some(i)
    else ScanObject(o, name, i + 1)
  }

  function Scan(objects: seq<Object>, name: seq<bv8>): (address: Option<nat>) {
    if objects == [] then None
    else
      var found := ScanObject(objects[0], name, 0);
      if found.Some? && found.value < |objects[0].symbols| then
        Some(objects[0].base + objects[0].symbols[found.value].value)
      else Scan(objects[1..], name)
  }

  lemma {:induction false} ScanFinds(o: Object, name: seq<bv8>, i: nat)
    requires i <= |o.symbols|
    ensures var r := ScanObject(o, name, i);
            && (r.Some? ==> i <= r.value && Defines(o, r.value, name)
                            && forall j: nat :: i <= j < r.value ==> !Defines(o, j, name))
            && (r.None? ==> forall j: nat :: i <= j ==> !Defines(o, j, name))
    decreases |o.symbols| - i
  {
    if i < |o.symbols| && !Defines(o, i, name) {
      ScanFinds(o, name, i + 1);
    }
  }

  lemma {:induction false} ScanSkips(objects: seq<Object>, name: seq<bv8>, k: nat)
    requires k <= |objects|
    requires forall x: nat, i: nat :: 0 <= x < k ==> !Defines(objects[x], i, name)
    ensures Scan(objects, name) == Scan(objects[k..], name)
    decreases k
  {
    if k > 0 {
      ScanFinds(objects[0], name, 0);
      assert Scan(objects, name) == Scan(objects[1..], name);
      ScanSkips(objects[1..], name, k - 1);
      assert objects[1..][k - 1..] == objects[k..];
    } else {
      assert objects[0..] == objects;
    }
  }

  /** dlsym_int: the first object on the list that defines the name decides. */
  method DlsymInt(objects: seq<Object>, name: seq<bv8>, ghost ranks: seq<seq<nat>>) returns (address: Option<nat>)
    requires |ranks| == |objects|
    requires forall x :: 0 <= x < |objects| ==> WellHashed(objects[x], ranks[x]) && UniquelyDefines(objects[x])
    ensures address == Scan(objects, name)
  {
    for x := 0 to |objects|
      invariant forall y: nat, i: nat :: 0 <= y < x ==> !Defines(objects[y], i, name)
    {
      var found := LookupIn(objects[x], name, ranks[x]);
      if found.Some? {
        ScanSkips(objects, name, x);
        assert objects[x..][0] == objects[x];
        ScanFinds(objects[x], name, 0);
        return Some(objects[x].base + objects[x].symbols[found.value].value);
      }
    }
    ScanSkips(objects, name, |objects|);
    address := None;
  }

  lemma FirstDecides(objects: seq<Object>, name: seq<bv8>, x: nat, i: nat)
    requires x < |objects| && UniquelyDefines(objects[x]) && Defines(objects[x], i, name)
    requires forall y: nat, j: nat :: 0 <= y < x ==> !Defines(objects[y], j, name)
    ensures Scan(objects, name) == Some(objects[x].base + objects[x].symbols[i].value)
  {
    ScanSkips(objects, name, x);
    assert objects[x..][0] == objects[x];
    ScanFinds(objects[x], name, 0);
  }

  ghost predicate DefinedNowhere(objects: seq<Object>, name: seq<bv8>) {
    forall x: nat, i: nat :: 0 <= x < |objects| ==> !Defines(objects[x], i, name)
  }

  lemma NothingFoundIff(objects: seq<Object>, name: seq<bv8>)
    ensures Scan(objects, name).None? <==> DefinedNowhere(objects, name)
  {
    if DefinedNowhere(objects, name) {
      ScanSkips(objects, name, |objects|);
    } else {
      var x: nat, i: nat :| 0 <= x < |objects| && Defines(objects[x], i, name);
      FirstDefining(objects, name, x);
    }
  }

  /** A name has an address exactly if some object has a symbol of that name with a value and a section. */
  lemma FoundIff(objects: seq<Object>, name: seq<bv8>)
    ensures Scan(objects, name).Some? <==>
            exists x: nat, i: nat ::
              && x < |objects| && 0 < i < |objects[x].symbols|
              && objects[x].symbols[i].name == name
              && objects[x].symbols[i].value != 0 && objects[x].symbols[i].section != 0
  {
    NothingFoundIff(objects, name);
    if Scan(objects, name).Some? {
      var x: nat, i: nat :| 0 <= x < |objects| && Defines(objects[x], i, name);
      assert objects[x].symbols[i].name == name;
    }
    forall x: nat, i: nat | x < |objects| && 0 < i < |objects[x].symbols|
      ensures Defines(objects[x], i, name) <==>
              && objects[x].symbols[i].name == name
              && objects[x].symbols[i].value != 0 && objects[x].symbols[i].section != 0
    {
    }
  }

  /** What the scan means: the address of the only definition in the first object that has one. */
  lemma ScanMeans(objects: seq<Object>, name: seq<bv8>)
    requires forall x :: 0 <= x < |objects| ==> UniquelyDefines(objects[x])
    ensures Scan(objects, name).None? <==> DefinedNowhere(objects, name)
    ensures forall x: nat, i: nat ::
      && 0 <= x < |objects|
      && Defines(objects[x], i, name)
      && (forall y: nat, j: nat :: 0 <= y < x ==> !Defines(objects[y], j, name))
      ==> Scan(objects, name) == Some(objects[x].base + objects[x].symbols[i].value)
  {
    NothingFoundIff(objects, name);
    forall x: nat, i: nat | 0 <= x < |objects| && Defines(objects[x], i, name)
      && (forall y: nat, j: nat :: 0 <= y < x ==> !Defines(objects[y], j, name))
      ensures Scan(objects, name) == Some(objects[x].base + objects[x].symbols[i].value)
    {
      FirstDecides(objects, name, x, i);
    }
  }

  lemma {:induction false} FirstDefining(objects: seq<Object>, name: seq<bv8>, x: nat)
    requires x < |objects| && exists i: nat :: Defines(objects[x], i, name)
    ensures Scan(objects, name).Some?
    decreases x
  {
    ScanFinds(objects[0], name, 0);
    if x > 0 && ScanObject(objects[0], name, 0).None? {
      assert objects[1..][x - 1] == objects[x];
      FirstDefining(objects[1..], name, x - 1);
    }
  }
}
