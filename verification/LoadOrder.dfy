/**
  The dynamic linker's load loop: the list of loaded objects is walked from the front while
  the objects it needs are appended at the end.

  What __loadlibrary finds for a file name (the library path, LD_LIBRARY_PATH, an absolute
  name) is the parameter `files`.
*/
module LoadOrder {
  import opened Prelude

  /** One entry of a dynamic section: DT_NEEDED with its string, DT_NULL, or any other tag. */
  datatype Dyn = Needed(file: string) | Null | Other

  /** A loaded object: the name it was loaded under and its dynamic section. */
  datatype Dll = Dll(name: string, dynamic: seq<Dyn>)

  /** loadlibrary refuses longer file names. */
  const MAX_NAME := 50

  /** The file names a dynamic section needs: its DT_NEEDED entries up to DT_NULL. */
  function Needs(dynamic: seq<Dyn>): (files: seq<string>) {
    if dynamic == [] || dynamic[0].Null? then []
    else if dynamic[0].Needed? then [dynamic[0].file] + Needs(dynamic[1..])
    else Needs(dynamic[1..])
  }

  /** What an entry adds, by its tag. */
  lemma NeedsByTag(file: string, rest: seq<Dyn>)
    ensures Needs([]) == [] && Needs([Null] + rest) == []
    ensures Needs([Needed(file)] + rest) == [file] + Needs(rest)
    ensures Needs([Other] + rest) == Needs(rest)
  {
    assert ([Needed(file)] + rest)[1..] == rest && ([Other] + rest)[1..] == rest;
  }

  /** What follows the last slash. */
  function Basename(file: string): (name: string)
    ensures |name| <= |file|
  {
    if '/' !in file then file else Basename(file[1..])
  }

  /** It is the end of the file name from its last slash on, or all of it. */
  lemma {:induction false} BasenameMeans(file: string)
    ensures var name := Basename(file);
            && '/' !in name
            && file[|file| - |name|..] == name
            && (|name| < |file| ==> file[|file| - |name| - 1] == '/')
    decreases |file|
  {
    if '/' in file {
      BasenameMeans(file[1..]);
    }
  }

  /** The loop of loadlibrary that moves shortname behind each slash. */
  method ShortName(file: string) returns (name: string)
    ensures name == Basename(file)
  {
    var start := 0;
    for i := 0 to |file|
      invariant 0 <= start <= i
      invariant forall k :: start <= k < i ==> file[k] != '/'
      invariant Basename(file[start..]) == Basename(file)
    {
      if file[i] == '/' {
        SkipSlash(file, start, i);
        start := i + 1;
      }
    }
    name := file[start..];
  }

  lemma SkipSlash(file: string, start: nat, i: nat)
    requires start <= i < |file| && file[i] == '/'
    ensures Basename(file[start..]) == Basename(file[i + 1..])
  {
    SkipThroughSlash(file[start..], i - start);
    assert file[start..][i - start + 1..] == file[i + 1..];
  }

  lemma {:induction false} SkipThroughSlash(s: string, k: nat)
    requires k < |s| && s[k] == '/'
    ensures Basename(s) == Basename(s[k + 1..])
    decreases k
  {
    assert Basename(s) == Basename(s[1..]);
    if k > 0 {
      SkipThroughSlash(s[1..], k - 1);
      assert s[1..][k..] == s[k + 1..];
    }
  }

  /** The first k needed names come from the entries in front of i. */
  ghost predicate EntriesLeft(dynamic: seq<Dyn>, i: nat, k: nat) {
    var needs := Needs(dynamic);
    i <= |dynamic| && k <= |needs| && needs[k..] == Needs(dynamic[i..])
  }

  lemma FirstEntry(dynamic: seq<Dyn>)
    ensures EntriesLeft(dynamic, 0, 0)
  {
    assert dynamic[0..] == dynamic;
  }

  lemma NextEntry(dynamic: seq<Dyn>, i: nat, k: nat)
    requires i < |dynamic| && EntriesLeft(dynamic, i, k)
    ensures match dynamic[i]
            case Null => k == |Needs(dynamic)|
            case Needed(file) =>
              k < |Needs(dynamic)| && Needs(dynamic)[k] == file && EntriesLeft(dynamic, i + 1, k + 1)
            case Other => EntriesLeft(dynamic, i + 1, k)
  {
    var needs := Needs(dynamic);
    assert dynamic[i..][0] == dynamic[i] && dynamic[i..][1..] == dynamic[i + 1..];
    if dynamic[i].Needed? {
      assert needs[k..][0] == needs[k] && needs[k..][1..] == needs[k + 1..];
    }
  }

  lemma NoEntryLeft(dynamic: seq<Dyn>, k: nat)
    requires EntriesLeft(dynamic, |dynamic|, k)
    ensures k == |Needs(dynamic)|
  {
    assert dynamic[|dynamic|..] == [];
  }

  // ---------------------------------------------------------------------------------
  // What a finished list looks like
  // ---------------------------------------------------------------------------------

  predicate HasName(dlls: seq<Dll>, name: string) {
    exists i :: 0 <= i < |dlls| && dlls[i].name == name
  }

  predicate DistinctNames(dlls: seq<Dll>) {
    forall i, j :: 0 <= i < j < |dlls| ==> dlls[i].name != dlls[j].name
  }

  /** The program comes first; its name is the empty string of the static dllroot. */
  predicate Rooted(program: seq<Dyn>, dlls: seq<Dll>) {
    |dlls| > 0 && dlls[0] == Dll("", program)
  }

  predicate Unneeded(needs: seq<string>, name: string) {
    forall k :: 0 <= k < |needs| ==> Basename(needs[k]) != name
  }

  /**
    Object i is what the search finds for entry k of what object j needs, and nothing before that
    entry, in list order, needs its name.
  */
  ghost predicate FirstNeeded(files: string -> Option<seq<Dyn>>, dlls: seq<Dll>, i: nat, j: nat, k: nat)
    requires i < |dlls|
  {
    && j < i
    && var needs := Needs(dlls[j].dynamic);
    && k < |needs|
    && |needs[k]| <= MAX_NAME
    && Basename(needs[k]) == dlls[i].name
    && files(needs[k]) == Some(dlls[i].dynamic)
    && (forall j' :: 0 <= j' < j ==> Unneeded(Needs(dlls[j'].dynamic), dlls[i].name))
    && Unneeded(needs[..k], dlls[i].name)
  }

  ghost predicate Provided(files: string -> Option<seq<Dyn>>, dlls: seq<Dll>, i: nat)
    requires i < |dlls|
  {
    exists j: nat, k: nat :: FirstNeeded(files, dlls, i, j, k)
  }

  /** One entry is needed before another: by an object before, or before it by the same object. */
  predicate Before(j: nat, k: nat, j': nat, k': nat) {
    j < j' || (j == j' && k < k')
  }

  /** Object i was first needed before the entry at (j, k). */
  ghost predicate ProvidedBefore(files: string -> Option<seq<Dyn>>, dlls: seq<Dll>, i: nat, j: nat, k: nat)
    requires i < |dlls|
  {
    exists j0: nat, k0: nat :: FirstNeeded(files, dlls, i, j0, k0) && Before(j0, k0, j, k)
  }

  ghost predicate AllBefore(files: string -> Option<seq<Dyn>>, dlls: seq<Dll>, j: nat, k: nat) {
    forall i :: 0 < i < |dlls| ==> ProvidedBefore(files, dlls, i, j, k)
  }

  ghost predicate Precedes(files: string -> Option<seq<Dyn>>, dlls: seq<Dll>, i: nat, i': nat)
    requires i < |dlls| && i' < |dlls|
  {
    exists j: nat, k: nat :: FirstNeeded(files, dlls, i', j, k) && ProvidedBefore(files, dlls, i, j, k)
  }

  /** The list is in the order in which its objects are first needed. */
  ghost predicate InOrder(files: string -> Option<seq<Dyn>>, dlls: seq<Dll>) {
    forall i, i' :: 0 < i < i' < |dlls| ==> Precedes(files, dlls, i, i')
  }

  ghost predicate Grounded(files: string -> Option<seq<Dyn>>, dlls: seq<Dll>) {
    forall i :: 0 < i < |dlls| ==> Provided(files, dlls, i)
  }

  /** The needed file is short enough and some loaded object has its base name. */
  predicate Satisfied(dlls: seq<Dll>, file: string) {
    |file| <= MAX_NAME && HasName(dlls, Basename(file))
  }

  predicate AllSatisfied(dlls: seq<Dll>, needs: seq<string>) {
    forall k :: 0 <= k < |needs| ==> Satisfied(dlls, needs[k])
  }

  /** The first n objects have everything they need. */
  predicate Closed(dlls: seq<Dll>, n: nat)
    requires n <= |dlls|
  {
    forall i :: 0 <= i < n ==> AllSatisfied(dlls, Needs(dlls[i].dynamic))
  }

  ghost predicate Growing(files: string -> Option<seq<Dyn>>, program: seq<Dyn>, dlls: seq<Dll>) {
    Rooted(program, dlls) && DistinctNames(dlls) && Grounded(files, dlls) && InOrder(files, dlls)
  }

  /** Everything needed before the entry at (j, k) is on the list. */
  ghost predicate Settled(dlls: seq<Dll>, j: nat, k: nat) {
    && j < |dlls| && k <= |Needs(dlls[j].dynamic)|
    && Closed(dlls, j) && AllSatisfied(dlls, Needs(dlls[j].dynamic)[..k])
  }

  /** Loading cannot satisfy this need: the name is too long, or nothing is found for it. */
  ghost predicate Unsatisfiable(files: string -> Option<seq<Dyn>>, dlls: seq<Dll>, file: string) {
    |file| > MAX_NAME || (files(file).None? && !HasName(dlls, Basename(file)))
  }

  /** The entry at (j, k) is the first that cannot be satisfied, and nothing behind it was looked at. */
  ghost predicate Stuck(files: string -> Option<seq<Dyn>>, dlls: seq<Dll>, j: nat, k: nat) {
    && Settled(dlls, j, k) && k < |Needs(dlls[j].dynamic)|
    && AllBefore(files, dlls, j, k)
    && Unsatisfiable(files, dlls, Needs(dlls[j].dynamic)[k])
  }

  // ---------------------------------------------------------------------------------
  // There are finitely many names
  // ---------------------------------------------------------------------------------

  ghost function NamesUpTo(n: nat): (names: set<string>) {
    if n == 0 then {""}
    else {""} + set c: char, s | s in NamesUpTo(n - 1) :: [c] + s
  }

  lemma {:induction false} ShortNamesAreFinite(s: string, n: nat)
    requires |s| <= n
    ensures s in NamesUpTo(n)
  {
    if s != "" {
      ShortNamesAreFinite(s[1..], n - 1);
      assert s == [s[0]] + s[1..];
    }
  }

  ghost function NameSet(dlls: seq<Dll>): (names: set<string>) {
    set i | 0 <= i < |dlls| :: dlls[i].name
  }

  lemma {:induction false} DistinctCount(dlls: seq<Dll>)
    requires DistinctNames(dlls)
    ensures |NameSet(dlls)| == |dlls|
  {
    if dlls != [] {
      var front, last := dlls[..|dlls| - 1], dlls[|dlls| - 1];
      DistinctCount(front);
      assert NameSet(dlls) == NameSet(front) + {last.name} by {
        assert forall i :: 0 <= i < |front| ==> front[i] == dlls[i];
      }
      assert last.name !in NameSet(front);
    } else {
      assert NameSet(dlls) == {};
    }
  }

  lemma SubsetCount<T>(a: set<T>, b: set<T>)
    requires a <= b
    ensures |a| <= |b|
  {
    assert b == a + (b - a);
  }

  lemma ListIsBounded(files: string -> Option<seq<Dyn>>, program: seq<Dyn>, dlls: seq<Dll>, n: nat)
    requires Growing(files, program, dlls)
    requires n == MAX_NAME
    ensures |dlls| <= |NamesUpTo(n)|
  {
    forall i | 0 <= i < |dlls|
      ensures dlls[i].name in NamesUpTo(n)
    {
      if i > 0 {
        assert Provided(files, dlls, i);
        var j: nat, k: nat :| FirstNeeded(files, dlls, i, j, k);
      }
      ShortNamesAreFinite(dlls[i].name, n);
    }
    DistinctCount(dlls);
    SubsetCount(NameSet(dlls), NamesUpTo(n));
  }

  /** Whatever the files contain, the list cannot outgrow the names that loadlibrary accepts. */
  lemma ListsAreBounded(files: string -> Option<seq<Dyn>>, program: seq<Dyn>) returns (bound: nat)
    ensures forall dlls :: Growing(files, program, dlls) ==> |dlls| <= bound
  {
    var n := MAX_NAME;
    bound := |NamesUpTo(n)|;
    forall dlls | Growing(files, program, dlls)
      ensures |dlls| <= bound
    {
      ListIsBounded(files, program, dlls, n);
    }
  }

  // ---------------------------------------------------------------------------------
  // Appending keeps what holds
  // ---------------------------------------------------------------------------------

  lemma SatisfiedGrows(dlls: seq<Dll>, more: seq<Dll>, needs: seq<string>)
    requires AllSatisfied(dlls, needs)
    ensures AllSatisfied(dlls + more, needs)
  {
    forall k | 0 <= k < |needs|
      ensures Satisfied(dlls + more, needs[k])
    {
      assert Satisfied(dlls, needs[k]);
      var i :| 0 <= i < |dlls| && dlls[i].name == Basename(needs[k]);
      assert (dlls + more)[i].name == Basename(needs[k]);
    }
  }

  lemma ClosedGrows(dlls: seq<Dll>, more: seq<Dll>, n: nat)
    requires n <= |dlls| && Closed(dlls, n)
    ensures Closed(dlls + more, n)
  {
    forall i | 0 <= i < n
      ensures AllSatisfied(dlls + more, Needs((dlls + more)[i].dynamic))
    {
      SatisfiedGrows(dlls, more, Needs(dlls[i].dynamic));
    }
  }

  lemma UnneededIfSatisfied(dlls: seq<Dll>, needs: seq<string>, name: string)
    requires AllSatisfied(dlls, needs) && !HasName(dlls, name)
    ensures Unneeded(needs, name)
  {
    forall k | 0 <= k < |needs|
      ensures Basename(needs[k]) != name
    {
      assert Satisfied(dlls, needs[k]);
    }
  }

  lemma StillFirst(files: string -> Option<seq<Dyn>>, dlls: seq<Dll>, dlls': seq<Dll>, i: nat, j: nat, k: nat)
    requires dlls <= dlls' && i < |dlls|
    ensures FirstNeeded(files, dlls, i, j, k) <==> FirstNeeded(files, dlls', i, j, k)
  {
    if j < i {
      assert dlls'[j] == dlls[j];
      assert forall j' :: 0 <= j' < j ==> dlls'[j'] == dlls[j'];
    }
  }

  lemma StillBefore(files: string -> Option<seq<Dyn>>, dlls: seq<Dll>, dlls': seq<Dll>, i: nat,
                    j: nat, k: nat, j': nat, k': nat)
    requires dlls <= dlls' && i < |dlls| && ProvidedBefore(files, dlls, i, j, k)
    requires (j == j' && k == k') || Before(j, k, j', k')
    ensures Provided(files, dlls', i) && ProvidedBefore(files, dlls', i, j', k')
  {
    var j0: nat, k0: nat :| FirstNeeded(files, dlls, i, j0, k0) && Before(j0, k0, j, k);
    StillFirst(files, dlls, dlls', i, j0, k0);
    assert Before(j0, k0, j', k');
  }

  lemma AllBeforeLater(files: string -> Option<seq<Dyn>>, dlls: seq<Dll>, j: nat, k: nat, j': nat, k': nat)
    requires AllBefore(files, dlls, j, k) && Before(j, k, j', k')
    ensures AllBefore(files, dlls, j', k')
  {
    forall i | 0 < i < |dlls|
      ensures ProvidedBefore(files, dlls, i, j', k')
    {
      StillBefore(files, dlls, dlls, i, j, k, j', k');
    }
  }

  lemma StillPrecedes(files: string -> Option<seq<Dyn>>, dlls: seq<Dll>, dlls': seq<Dll>, i: nat, i': nat)
    requires dlls <= dlls' && i < |dlls| && i' < |dlls| && Precedes(files, dlls, i, i')
    ensures Precedes(files, dlls', i, i')
  {
    var j: nat, k: nat :| FirstNeeded(files, dlls, i', j, k) && ProvidedBefore(files, dlls, i, j, k);
    StillFirst(files, dlls, dlls', i', j, k);
    StillBefore(files, dlls, dlls', i, j, k, j, k);
  }

  /** The object appended for the entry at (j, k) is first needed there. */
  lemma NewIsFirst(files: string -> Option<seq<Dyn>>, dlls: seq<Dll>, dlls': seq<Dll>, j: nat, k: nat)
    requires Settled(dlls, j, k) && k < |Needs(dlls[j].dynamic)|
    requires var file := Needs(dlls[j].dynamic)[k];
             && |file| <= MAX_NAME && !HasName(dlls, Basename(file)) && files(file).Some?
             && dlls' == dlls + [Dll(Basename(file), files(file).value)]
    ensures FirstNeeded(files, dlls', |dlls|, j, k)
  {
    var name := dlls'[|dlls|].name;
    assert dlls'[j] == dlls[j];
    forall j' | 0 <= j' < j
      ensures Unneeded(Needs(dlls'[j'].dynamic), name)
    {
      assert dlls'[j'] == dlls[j'];
      UnneededIfSatisfied(dlls, Needs(dlls[j'].dynamic), name);
    }
    UnneededIfSatisfied(dlls, Needs(dlls[j].dynamic)[..k], name);
  }

  lemma GrowingAppend(files: string -> Option<seq<Dyn>>, program: seq<Dyn>, dlls: seq<Dll>, dlls': seq<Dll>,
                      j: nat, k: nat)
    requires Growing(files, program, dlls) && Settled(dlls, j, k) && AllBefore(files, dlls, j, k)
    requires k < |Needs(dlls[j].dynamic)|
    requires var file := Needs(dlls[j].dynamic)[k];
             && |file| <= MAX_NAME && !HasName(dlls, Basename(file)) && files(file).Some?
             && dlls' == dlls + [Dll(Basename(file), files(file).value)]
    ensures Growing(files, program, dlls') && AllBefore(files, dlls', j, k + 1)
  {
    var n, k' := |dlls|, k + 1;
    NewIsFirst(files, dlls, dlls', j, k);
    assert Before(j, k, j, k');
    forall i | 0 < i < |dlls'|
      ensures Provided(files, dlls', i) && ProvidedBefore(files, dlls', i, j, k')
    {
      if i < n { StillBefore(files, dlls, dlls', i, j, k, j, k'); }
    }
    forall i, i' | 0 < i < i' < |dlls'|
      ensures Precedes(files, dlls', i, i')
    {
      if i' < n {
        StillPrecedes(files, dlls, dlls', i, i');
      } else {
        StillBefore(files, dlls, dlls', i, j, k, j, k);
      }
    }
  }

  // ---------------------------------------------------------------------------------
  // The linker
  // ---------------------------------------------------------------------------------

  /** A longer list that satisfies the next entry has settled one more. */
  lemma SettledMore(dlls: seq<Dll>, dlls': seq<Dll>, x: nat, k: nat)
    requires Settled(dlls, x, k) && dlls <= dlls'
    requires k < |Needs(dlls[x].dynamic)| && Satisfied(dlls', Needs(dlls[x].dynamic)[k])
    ensures Settled(dlls', x, k + 1)
  {
    var needs, more := Needs(dlls[x].dynamic), dlls'[|dlls|..];
    assert dlls' == dlls + more;
    SatisfiedGrows(dlls, more, needs[..k]);
    ClosedGrows(dlls, more, x);
    assert needs[..k + 1] == needs[..k] + [needs[k]];
  }

  class Linker {
    const files: string -> Option<seq<Dyn>>
    const program: seq<Dyn>
    var dlls: seq<Dll>

    constructor (files: string -> Option<seq<Dyn>>, program: seq<Dyn>)
      ensures this.files == files && this.program == program
      ensures dlls == [Dll("", program)]
      ensures Growing(files, program, dlls)
    {
      this.files := files;
      this.program := program;
      dlls := [Dll("", program)];
    }

    /** loadlibrary, called for the entry at (j, k), when all before it is satisfied. */
    method LoadLibrary(file: string, ghost j: nat, ghost k: nat) returns (ok: bool)
      requires Growing(files, program, dlls) && Settled(dlls, j, k)
      requires k < |Needs(dlls[j].dynamic)| && file == Needs(dlls[j].dynamic)[k]
      requires AllBefore(files, dlls, j, k) || Satisfied(dlls, file)
      modifies this
      ensures Growing(files, program, dlls)
      ensures dlls == if |file| > 50 || HasName(old(dlls), Basename(file)) || files(file).None? then old(dlls)
                      else old(dlls) + [Dll(Basename(file), files(file).value)]
      ensures dlls == old(dlls) || AllBefore(files, dlls, j, k + 1)
      ensures ok ==> Satisfied(dlls, file)
      ensures !ok ==> Unsatisfiable(files, dlls, file)
    {
      var name := ShortName(file);
      if |file| > MAX_NAME {
        return false;
      }
      for d := 0 to |dlls|
        invariant dlls == old(dlls)
        invariant forall i :: 0 <= i < d ==> dlls[i].name != name
      {
        if dlls[d].name == name {
          return true;
        }
      }
      match files(file)
      case None =>
        ok := false;
      case Some(dynamic) =>
        GrowingAppend(files, program, dlls, dlls + [Dll(name, dynamic)], j, k);
        dlls := dlls + [Dll(name, dynamic)];
        assert dlls[|dlls| - 1].name == name;
        ok := true;
    }

    /** One DT_NEEDED entry of object x, behind those that are satisfied already. */
    method LoadNeed(x: nat, file: string, ghost k: nat) returns (ok: bool)
      requires Growing(files, program, dlls) && Settled(dlls, x, k)
      requires k < |Needs(dlls[x].dynamic)| && file == Needs(dlls[x].dynamic)[k]
      requires AllBefore(files, dlls, x, k) || Satisfied(dlls, file)
      modifies this
      ensures Growing(files, program, dlls)
      ensures old(dlls) <= dlls
      ensures old(Satisfied(dlls, file)) ==> ok && dlls == old(dlls)
      ensures ok ==> Settled(dlls, x, k + 1)
      ensures ok && old(AllBefore(files, dlls, x, k)) ==> AllBefore(files, dlls, x, k + 1)
      ensures !ok ==> Stuck(files, dlls, x, k)
    {
      ghost var before := dlls;
      ok := LoadLibrary(file, x, k);
      if ok { SettledMore(before, dlls, x, k); }
      if dlls == before && AllBefore(files, dlls, x, k) { AllBeforeLater(files, dlls, x, k, x, k + 1); }
    }

    /**
      loadlibs for object x: load what its dynamic section needs, giving up at the first failure.
      Where everything is satisfied already, nothing happens.
    */
    method LoadLibs(x: nat) returns (ok: bool)
      requires Growing(files, program, dlls)
      requires x < |dlls| && Closed(dlls, x)
      requires AllBefore(files, dlls, x, 0) || Closed(dlls, x + 1)
      modifies this
      ensures Growing(files, program, dlls)
      ensures old(dlls) <= dlls
      ensures old(Closed(dlls, x + 1)) ==> ok && dlls == old(dlls)
      ensures ok ==> Closed(dlls, x + 1)
      ensures ok && old(AllBefore(files, dlls, x, 0)) ==> AllBefore(files, dlls, x + 1, 0)
      ensures !ok ==> exists k: nat :: Stuck(files, dlls, x, k)
    {
      var dynamic := dlls[x].dynamic;
      ghost var needs, again, first := Needs(dynamic), Closed(dlls, x + 1), AllBefore(files, dlls, x, 0);
      var i := 0;
      ghost var k := 0;
      FirstEntry(dynamic);
      while i < |dynamic|
        invariant 0 <= i <= |dynamic|
        invariant Growing(files, program, dlls)
        invariant old(dlls) <= dlls && Settled(dlls, x, k)
        invariant first ==> AllBefore(files, dlls, x, k)
        invariant again ==> dlls == old(dlls) && AllSatisfied(dlls, needs)
        invariant EntriesLeft(dynamic, i, k)
      {
        NextEntry(dynamic, i, k);
        if dynamic[i].Null? {
          break;
        }
        if dynamic[i].Needed? {
          var file := dynamic[i].file;
          var loaded := LoadNeed(x, file, k);
          if !loaded {
            return false;
          }
          k := k + 1;
        }
        i := i + 1;
      }
      if i == |dynamic| { NoEntryLeft(dynamic, k); }
      assert needs[..k] == needs;
      if first { AllBeforeLater(files, dlls, x, k, x + 1, 0); }
      ok := true;
    }

    /** The loop of main: loadlibs for every object on the list, as the list grows. */
    method LoadAll() returns (ok: bool)
      requires dlls == [Dll("", program)]
      requires Growing(files, program, dlls)
      modifies this
      ensures Growing(files, program, dlls)
      ensures ok ==> Closed(dlls, |dlls|)
      ensures !ok ==> exists j: nat, k: nat :: Stuck(files, dlls, j, k)
    {
      ok := LoadLibs(0);
      if !ok {
        return;
      }
      var x := 0;
      ghost var bound := ListsAreBounded(files, program);
      while x < |dlls|
        invariant 0 <= x <= |dlls| <= bound
        invariant Growing(files, program, dlls)
        invariant Closed(dlls, x)
        invariant if x == 0 then Closed(dlls, 1) && AllBefore(files, dlls, 1, 0) else AllBefore(files, dlls, x, 0)
        decreases bound - x
      {
        ok := LoadLibs(x);
        if !ok {
          return;
        }
        x := x + 1;
      }
      ok := true;
    }
  }

  // ---------------------------------------------------------------------------------
  // What is loaded is what can be reached
  // ---------------------------------------------------------------------------------

  /** lib gives the listed objects behind their names. */
  ghost predicate Agrees(lib: string -> Option<seq<Dyn>>, dlls: seq<Dll>) {
    forall i :: 0 < i < |dlls| ==> lib(dlls[i].name) == Some(dlls[i].dynamic)
  }

  /** The file search depends only on the base name: lib is the library with that name. */
  ghost predicate ByBasename(files: string -> Option<seq<Dyn>>, lib: string -> Option<seq<Dyn>>) {
    forall file :: |file| <= MAX_NAME ==> files(file) == lib(Basename(file))
  }

  lemma ByBasenameAgrees(files: string -> Option<seq<Dyn>>, lib: string -> Option<seq<Dyn>>,
                         program: seq<Dyn>, dlls: seq<Dll>)
    requires ByBasename(files, lib) && Growing(files, program, dlls)
    ensures Agrees(lib, dlls)
  {
    forall i | 0 < i < |dlls|
      ensures lib(dlls[i].name) == Some(dlls[i].dynamic)
    {
      assert Provided(files, dlls, i);
      var j: nat, k: nat :| FirstNeeded(files, dlls, i, j, k);
      assert files(Needs(dlls[j].dynamic)[k]) == lib(dlls[i].name);
    }
  }

  /** The object with a name on a list. */
  function Find(dlls: seq<Dll>, name: string): (d: Option<seq<Dyn>>)
    ensures d.None? <==> !HasName(dlls, name)
    ensures d.Some? ==> exists i :: 0 <= i < |dlls| && dlls[i] == Dll(name, d.value)
  {
    if dlls == [] then None
    else
      var n := |dlls| - 1;
      if dlls[n].name == name then Some(dlls[n].dynamic)
      else
        assert HasName(dlls[..n], name) <==> HasName(dlls, name) by {
          if HasName(dlls[..n], name) {
            var i :| 0 <= i < n && dlls[..n][i].name == name;
            assert dlls[i].name == name;
          }
          if HasName(dlls, name) {
            var i :| 0 <= i < |dlls| && dlls[i].name == name;
            assert dlls[..n][i].name == name;
          }
        }
        Find(dlls[..n], name)
  }

  /** What a run has chosen for each name: the listed object. */
  function Own(dlls: seq<Dll>): (lib: string -> Option<seq<Dyn>>) {
    name => Find(dlls, name)
  }

  lemma OwnAgrees(dlls: seq<Dll>)
    requires DistinctNames(dlls)
    ensures Agrees(Own(dlls), dlls)
  {
    forall i | 0 < i < |dlls|
      ensures Own(dlls)(dlls[i].name) == Some(dlls[i].dynamic)
    {
      assert HasName(dlls, dlls[i].name);
    }
  }

  /** The dynamic section behind a name; the program answers to the empty name. */
  function DynamicOf(program: seq<Dyn>, lib: string -> Option<seq<Dyn>>, name: string): (d: Option<seq<Dyn>>) {
    if name == "" then Some(program) else lib(name)
  }

  /** The object named a needs file, whose base name is b. */
  ghost predicate Edge(program: seq<Dyn>, lib: string -> Option<seq<Dyn>>, a: string, file: string, b: string) {
    var d := DynamicOf(program, lib, a);
    d.Some? && file in Needs(d.value) && Basename(file) == b
  }

  ghost predicate Linked(program: seq<Dyn>, lib: string -> Option<seq<Dyn>>, a: string, b: string) {
    exists file :: Edge(program, lib, a, file, b)
  }

  /** A walk along needed names that starts at the program. */
  ghost predicate Walk(program: seq<Dyn>, lib: string -> Option<seq<Dyn>>, p: seq<string>) {
    && |p| > 0
    && p[0] == ""
    && forall i :: 0 < i < |p| ==> StepAt(program, lib, p, i)
  }

  ghost predicate StepAt(program: seq<Dyn>, lib: string -> Option<seq<Dyn>>, p: seq<string>, i: nat)
    requires 0 < i < |p|
  {
    Linked(program, lib, p[i - 1], p[i])
  }

  lemma WalkPrefix(program: seq<Dyn>, lib: string -> Option<seq<Dyn>>, p: seq<string>)
    requires Walk(program, lib, p) && |p| > 1
    ensures var n := |p| - 1; Walk(program, lib, p[..n]) && Linked(program, lib, p[n - 1], p[n])
  {
    var q := p[..|p| - 1];
    forall i | 0 < i < |q|
      ensures StepAt(program, lib, q, i)
    {
      assert StepAt(program, lib, p, i);
    }
    assert StepAt(program, lib, p, |p| - 1);
  }

  ghost predicate Reachable(program: seq<Dyn>, lib: string -> Option<seq<Dyn>>, name: string) {
    exists p :: Walk(program, lib, p) && p[|p| - 1] == name
  }

  /** Everything that can be reached needs only files that can be loaded. */
  ghost predicate Complete(program: seq<Dyn>, lib: string -> Option<seq<Dyn>>) {
    forall a, file, b :: Reachable(program, lib, a) && Edge(program, lib, a, file, b) ==>
      |file| <= MAX_NAME && DynamicOf(program, lib, b).Some?
  }

  lemma WalkOn(program: seq<Dyn>, lib: string -> Option<seq<Dyn>>, a: string, file: string, b: string)
    requires Reachable(program, lib, a) && Edge(program, lib, a, file, b)
    ensures Reachable(program, lib, b)
  {
    var p :| Walk(program, lib, p) && p[|p| - 1] == a;
    var q := p + [b];
    forall i | 0 < i < |q|
      ensures StepAt(program, lib, q, i)
    {
      if i < |p| {
        assert StepAt(program, lib, p, i);
      }
    }
    assert Walk(program, lib, q) && q[|q| - 1] == b;
  }

  /** Every object on the list is reachable, and is the one its name stands for. */
  lemma {:induction false} LoadedIsReachable(files: string -> Option<seq<Dyn>>, lib: string -> Option<seq<Dyn>>,
                                             program: seq<Dyn>, dlls: seq<Dll>, i: nat)
    requires Agrees(lib, dlls) && Growing(files, program, dlls)
    requires i < |dlls|
    ensures DynamicOf(program, lib, dlls[i].name) == Some(dlls[i].dynamic)
    ensures Reachable(program, lib, dlls[i].name)
    decreases i
  {
    if i == 0 {
      assert Walk(program, lib, [""]);
      assert [""][|[""]| - 1] == dlls[0].name;
    } else {
      assert Provided(files, dlls, i);
      var j: nat, k: nat :| FirstNeeded(files, dlls, i, j, k);
      assert dlls[0].name != dlls[i].name;
      LoadedIsReachable(files, lib, program, dlls, j);
      WalkOn(program, lib, dlls[j].name, Needs(dlls[j].dynamic)[k], dlls[i].name);
    }
  }

  /** A list that has all it needs holds every object a walk can reach. */
  lemma {:induction false} WalkIsLoaded(files: string -> Option<seq<Dyn>>, lib: string -> Option<seq<Dyn>>,
                                        program: seq<Dyn>, dlls: seq<Dll>, p: seq<string>)
    requires Agrees(lib, dlls) && Growing(files, program, dlls)
    requires Closed(dlls, |dlls|) && Walk(program, lib, p)
    ensures HasName(dlls, p[|p| - 1])
    decreases |p|
  {
    var n := |p| - 1;
    if n == 0 {
      assert dlls[0].name == p[0];
    } else {
      WalkPrefix(program, lib, p);
      WalkIsLoaded(files, lib, program, dlls, p[..n]);
      LinkIsLoaded(files, lib, program, dlls, p[n - 1], p[n]);
    }
  }

  lemma LinkIsLoaded(files: string -> Option<seq<Dyn>>, lib: string -> Option<seq<Dyn>>,
                     program: seq<Dyn>, dlls: seq<Dll>, a: string, b: string)
    requires Agrees(lib, dlls) && Growing(files, program, dlls) && Closed(dlls, |dlls|)
    requires HasName(dlls, a) && Linked(program, lib, a, b)
    ensures HasName(dlls, b)
  {
    var i: nat :| i < |dlls| && dlls[i].name == a;
    LoadedIsReachable(files, lib, program, dlls, i);
    var file :| Edge(program, lib, a, file, b);
    NeedIsSatisfied(dlls, i, file);
  }

  lemma NeedIsSatisfied(dlls: seq<Dll>, i: nat, file: string)
    requires i < |dlls| && Closed(dlls, |dlls|)
    requires file in Needs(dlls[i].dynamic)
    ensures Satisfied(dlls, file)
  {
    var needs := Needs(dlls[i].dynamic);
    var k :| 0 <= k < |needs| && needs[k] == file;
    assert AllSatisfied(dlls, needs);
  }

  /** The names on a finished list are exactly the reachable names. */
  lemma LoadedExactlyReachable(files: string -> Option<seq<Dyn>>, lib: string -> Option<seq<Dyn>>,
                               program: seq<Dyn>, dlls: seq<Dll>, name: string)
    requires Agrees(lib, dlls) && Growing(files, program, dlls) && Closed(dlls, |dlls|)
    ensures HasName(dlls, name) <==> Reachable(program, lib, name)
  {
    if HasName(dlls, name) {
      var i :| 0 <= i < |dlls| && dlls[i].name == name;
      LoadedIsReachable(files, lib, program, dlls, i);
    }
    if Reachable(program, lib, name) {
      var p :| Walk(program, lib, p) && p[|p| - 1] == name;
      WalkIsLoaded(files, lib, program, dlls, p);
    }
  }

  lemma FinishedIsComplete(files: string -> Option<seq<Dyn>>, lib: string -> Option<seq<Dyn>>,
                           program: seq<Dyn>, dlls: seq<Dll>)
    requires Agrees(lib, dlls) && Growing(files, program, dlls) && Closed(dlls, |dlls|)
    ensures Complete(program, lib)
  {
    forall a, file, b | Reachable(program, lib, a) && Edge(program, lib, a, file, b)
      ensures |file| <= MAX_NAME && DynamicOf(program, lib, b).Some?
    {
      LoadedExactlyReachable(files, lib, program, dlls, a);
      var i :| 0 <= i < |dlls| && dlls[i].name == a;
      LoadedIsReachable(files, lib, program, dlls, i);
      NeedIsSatisfied(dlls, i, file);
      var j :| 0 <= j < |dlls| && dlls[j].name == b;
      LoadedIsReachable(files, lib, program, dlls, j);
    }
  }

  lemma FailureIsIncomplete(files: string -> Option<seq<Dyn>>, lib: string -> Option<seq<Dyn>>,
                            program: seq<Dyn>, dlls: seq<Dll>, i: nat, file: string)
    requires Agrees(lib, dlls) && Growing(files, program, dlls)
    requires i < |dlls| && file in Needs(dlls[i].dynamic) && Unsatisfiable(files, dlls, file)
    requires |file| <= MAX_NAME ==> lib(Basename(file)).None?
    ensures !Complete(program, lib)
  {
    LoadedIsReachable(files, lib, program, dlls, i);
    assert Edge(program, lib, dlls[i].name, file, Basename(file));
    assert HasName(dlls, "") by { assert dlls[0].name == ""; }
  }

  /** The load phase has done for this library function what it should. */
  ghost predicate Loads(program: seq<Dyn>, lib: string -> Option<seq<Dyn>>, ok: bool, dlls: seq<Dll>) {
    && (ok <==> Complete(program, lib))
    && (forall i :: 0 <= i < |dlls| ==>
          Reachable(program, lib, dlls[i].name) && DynamicOf(program, lib, dlls[i].name) == Some(dlls[i].dynamic))
    && (ok ==> forall name :: Reachable(program, lib, name) ==> HasName(dlls, name))
  }

  lemma FinishedLoads(files: string -> Option<seq<Dyn>>, lib: string -> Option<seq<Dyn>>,
                      program: seq<Dyn>, dlls: seq<Dll>)
    requires Agrees(lib, dlls) && Growing(files, program, dlls) && Closed(dlls, |dlls|)
    ensures Loads(program, lib, true, dlls)
  {
    FinishedIsComplete(files, lib, program, dlls);
    forall i | 0 <= i < |dlls| { LoadedIsReachable(files, lib, program, dlls, i); }
    forall name | Reachable(program, lib, name)
      ensures HasName(dlls, name)
    {
      LoadedExactlyReachable(files, lib, program, dlls, name);
    }
  }

  lemma FailedLoads(files: string -> Option<seq<Dyn>>, lib: string -> Option<seq<Dyn>>,
                    program: seq<Dyn>, dlls: seq<Dll>, i: nat, file: string)
    requires Agrees(lib, dlls) && Growing(files, program, dlls)
    requires i < |dlls| && file in Needs(dlls[i].dynamic) && Unsatisfiable(files, dlls, file)
    requires |file| <= MAX_NAME ==> lib(Basename(file)).None?
    ensures Loads(program, lib, false, dlls)
  {
    FailureIsIncomplete(files, lib, program, dlls, i, file);
    forall i | 0 <= i < |dlls| { LoadedIsReachable(files, lib, program, dlls, i); }
  }

  /**
    The load phase has ended: with a list that has all it needs, or at the first entry in list order
    that cannot be satisfied.
  */
  ghost predicate Finished(files: string -> Option<seq<Dyn>>, program: seq<Dyn>, ok: bool, dlls: seq<Dll>) {
    && Growing(files, program, dlls)
    && if ok then Closed(dlls, |dlls|) else exists j: nat, k: nat :: Stuck(files, dlls, j, k)
  }

  /**
    main's load phase from a fresh list, for any file search.  It ends.  Names are listed once, in the
    order in which they are first needed, each with what the search finds for the first file of this
    base name, up to the first entry that cannot be satisfied.  It succeeds exactly when, with these
    choices, everything reachable can be loaded, and then the list is exactly what is reachable.  If
    the search depends on base names alone, the same holds of what it gives for each of them.
  */
  method Link(files: string -> Option<seq<Dyn>>, program: seq<Dyn>, ghost lib: string -> Option<seq<Dyn>>)
    returns (ok: bool, dlls: seq<Dll>)
    ensures Finished(files, program, ok, dlls)
    ensures Loads(program, Own(dlls), ok, dlls)
    ensures ByBasename(files, lib) ==> Loads(program, lib, ok, dlls)
  {
    var linker := new Linker(files, program);
    ok := linker.LoadAll();
    dlls := linker.dlls;
    OwnAgrees(dlls);
    if ByBasename(files, lib) { ByBasenameAgrees(files, lib, program, dlls); }
    if ok {
      FinishedLoads(files, Own(dlls), program, dlls);
      if ByBasename(files, lib) { FinishedLoads(files, lib, program, dlls); }
    } else {
      ghost var j: nat, k: nat :| Stuck(files, dlls, j, k);
      ghost var file := Needs(dlls[j].dynamic)[k];
      FailedLoads(files, Own(dlls), program, dlls, j, file);
      if ByBasename(files, lib) { FailedLoads(files, lib, program, dlls, j, file); }
    }
  }

  // ---------------------------------------------------------------------------------
  // Search and program decide the list
  // ---------------------------------------------------------------------------------

  lemma FirstNeededOnce(files: string -> Option<seq<Dyn>>, dlls: seq<Dll>, i: nat, j: nat, k: nat, j': nat, k': nat)
    requires i < |dlls| && FirstNeeded(files, dlls, i, j, k) && FirstNeeded(files, dlls, i, j', k')
    ensures !Before(j, k, j', k') && !Before(j', k', j, k)
  {
    NotNeededBefore(files, dlls, i, j, k, j', k');
    NotNeededBefore(files, dlls, i, j', k', j, k);
  }

  /** Nothing in front of its first need has the name of an object. */
  lemma NotNeededBefore(files: string -> Option<seq<Dyn>>, dlls: seq<Dll>, i: nat, j: nat, k: nat, j': nat, k': nat)
    requires i < |dlls| && FirstNeeded(files, dlls, i, j, k)
    requires j' < |dlls| && k' < |Needs(dlls[j'].dynamic)|
    ensures Before(j', k', j, k) ==> Basename(Needs(dlls[j'].dynamic)[k']) != dlls[i].name
  {
    if j' < j {
      assert Unneeded(Needs(dlls[j'].dynamic), dlls[i].name);
    } else if j' == j && k' < k {
      assert Needs(dlls[j].dynamic)[..k][k'] == Needs(dlls[j].dynamic)[k'];
    }
  }

  /** What is needed in front of the first need of object n is listed in front of it. */
  lemma ListedBefore(files: string -> Option<seq<Dyn>>, program: seq<Dyn>, dlls: seq<Dll>,
                     n: nat, jn: nat, kn: nat, j: nat, k: nat)
    requires Growing(files, program, dlls) && 0 < n < |dlls| && FirstNeeded(files, dlls, n, jn, kn)
    requires Before(j, k, jn, kn) && k < |Needs(dlls[j].dynamic)| && Satisfied(dlls, Needs(dlls[j].dynamic)[k])
    ensures HasName(dlls[..n], Basename(Needs(dlls[j].dynamic)[k]))
  {
    var name := Basename(Needs(dlls[j].dynamic)[k]);
    var i: nat :| i < |dlls| && dlls[i].name == name;
    if i > 0 {
      assert Provided(files, dlls, i);
      var ji: nat, ki: nat :| FirstNeeded(files, dlls, i, ji, ki);
      NotNeededBefore(files, dlls, i, ji, ki, j, k);
      InListOrder(files, program, dlls, i, ji, ki, n, jn, kn);
    }
    assert dlls[..n][i].name == name;
  }

  lemma InListOrder(files: string -> Option<seq<Dyn>>, program: seq<Dyn>, dlls: seq<Dll>,
                    i: nat, ji: nat, ki: nat, n: nat, jn: nat, kn: nat)
    requires Growing(files, program, dlls) && 0 < i < |dlls| && 0 < n < |dlls|
    requires FirstNeeded(files, dlls, i, ji, ki) && FirstNeeded(files, dlls, n, jn, kn)
    requires Before(ji, ki, jn, kn)
    ensures i < n
  {
    if i == n {
      FirstNeededOnce(files, dlls, n, ji, ki, jn, kn);
    } else if n < i {
      assert Precedes(files, dlls, n, i);
      var j: nat, k: nat :| FirstNeeded(files, dlls, i, j, k) && ProvidedBefore(files, dlls, n, j, k);
      FirstNeededOnce(files, dlls, i, j, k, ji, ki);
      var j0: nat, k0: nat :| FirstNeeded(files, dlls, n, j0, k0) && Before(j0, k0, j, k);
      FirstNeededOnce(files, dlls, n, j0, k0, jn, kn);
    }
  }

  /** In a finished list everything in front of a first need is satisfied. */
  lemma SettledBefore(files: string -> Option<seq<Dyn>>, program: seq<Dyn>, ok: bool, dlls: seq<Dll>,
                      n: nat, jn: nat, kn: nat, j: nat, k: nat)
    requires Finished(files, program, ok, dlls) && 0 < n < |dlls| && FirstNeeded(files, dlls, n, jn, kn)
    requires Before(j, k, jn, kn) && k < |Needs(dlls[j].dynamic)|
    ensures Satisfied(dlls, Needs(dlls[j].dynamic)[k])
  {
    if ok {
      assert AllSatisfied(dlls, Needs(dlls[j].dynamic));
    } else {
      var x: nat, y: nat :| Stuck(files, dlls, x, y);
      assert ProvidedBefore(files, dlls, n, x, y);
      var j0: nat, k0: nat :| FirstNeeded(files, dlls, n, j0, k0) && Before(j0, k0, x, y);
      FirstNeededOnce(files, dlls, n, j0, k0, jn, kn);
      SettledAt(dlls, x, y, j, k);
    }
  }

  lemma SettledAt(dlls: seq<Dll>, x: nat, y: nat, j: nat, k: nat)
    requires Settled(dlls, x, y) && Before(j, k, x, y) && k < |Needs(dlls[j].dynamic)|
    ensures Satisfied(dlls, Needs(dlls[j].dynamic)[k])
  {
    if j < x {
      assert AllSatisfied(dlls, Needs(dlls[j].dynamic));
    } else {
      assert Needs(dlls[j].dynamic)[..y][k] == Needs(dlls[j].dynamic)[k];
    }
  }

  /** Two finished lists do not first differ in an object that one of them needs before the other's. */
  lemma NotEarlier(files: string -> Option<seq<Dyn>>, program: seq<Dyn>, a: seq<Dll>, ok: bool, b: seq<Dll>,
                   n: nat, j: nat, k: nat, j': nat, k': nat)
    requires Growing(files, program, a) && Finished(files, program, ok, b)
    requires 0 < n < |a| && n < |b| && a[..n] == b[..n]
    requires FirstNeeded(files, a, n, j, k) && FirstNeeded(files, b, n, j', k')
    ensures !Before(j, k, j', k')
  {
    if Before(j, k, j', k') {
      assert a[j] == a[..n][j] == b[..n][j] == b[j];
      SettledBefore(files, program, ok, b, n, j', k', j, k);
      ListedBefore(files, program, b, n, j', k', j, k);
      NotInFront(a, n);
    }
  }

  lemma NotInFront(dlls: seq<Dll>, n: nat)
    requires DistinctNames(dlls) && n < |dlls|
    ensures !HasName(dlls[..n], dlls[n].name)
  {
    assert forall i :: 0 <= i < n ==> dlls[..n][i] == dlls[i];
  }

  lemma SameNext(files: string -> Option<seq<Dyn>>, program: seq<Dyn>, ok: bool, a: seq<Dll>, ok': bool, b: seq<Dll>,
                 n: nat)
    requires Finished(files, program, ok, a) && Finished(files, program, ok', b)
    requires 0 < n < |a| && n < |b| && a[..n] == b[..n]
    ensures a[n] == b[n]
  {
    assert Provided(files, a, n) && Provided(files, b, n);
    var j: nat, k: nat :| FirstNeeded(files, a, n, j, k);
    var j': nat, k': nat :| FirstNeeded(files, b, n, j', k');
    NotEarlier(files, program, a, ok', b, n, j, k, j', k');
    NotEarlier(files, program, b, ok, a, n, j', k', j, k);
    assert j == j' && k == k';
    assert a[j] == a[..n][j] == b[..n][j] == b[j];
  }

  /** A finished list does not end where another one goes on. */
  lemma NotShorter(files: string -> Option<seq<Dyn>>, program: seq<Dyn>, ok: bool, a: seq<Dll>, ok': bool, b: seq<Dll>)
    requires Finished(files, program, ok, a) && Finished(files, program, ok', b)
    requires b <= a
    ensures |a| == |b|
  {
    var n := |b|;
    if n < |a| {
      assert a[..n] == b && Provided(files, a, n);
      var j: nat, k: nat :| FirstNeeded(files, a, n, j, k);
      NotInFront(a, n);
      assert a[j] == b[j];
      if ok' {
        ClosedAt(b, j, k);
      } else {
        var x: nat, y: nat :| Stuck(files, b, x, y);
        assert a[x] == b[x];
        if Before(j, k, x, y) {
          SettledAt(b, x, y, j, k);
        } else if Before(x, y, j, k) {
          SettledBefore(files, program, ok, a, n, j, k, x, y);
          ListedBefore(files, program, a, n, j, k, x, y);
        }
      }
    }
  }

  lemma {:induction false} SamePrefix(files: string -> Option<seq<Dyn>>, program: seq<Dyn>,
                                      ok: bool, a: seq<Dll>, ok': bool, b: seq<Dll>, n: nat)
    requires Finished(files, program, ok, a) && Finished(files, program, ok', b)
    requires 0 < n <= |a| && n <= |b|
    ensures a[..n] == b[..n]
    decreases n
  {
    if n == 1 {
      assert a[..1] == [a[0]] && b[..1] == [b[0]];
    } else {
      SamePrefix(files, program, ok, a, ok', b, n - 1);
      SameNext(files, program, ok, a, ok', b, n - 1);
      assert a[..n] == a[..n - 1] + [a[n - 1]] && b[..n] == b[..n - 1] + [b[n - 1]];
    }
  }

  /** There is one way for the load phase to end: the same objects in the same order. */
  lemma LinkIsDetermined(files: string -> Option<seq<Dyn>>, program: seq<Dyn>,
                         ok: bool, a: seq<Dll>, ok': bool, b: seq<Dll>)
    requires Finished(files, program, ok, a) && Finished(files, program, ok', b)
    ensures ok == ok' && a == b
  {
    if |a| <= |b| {
      SamePrefix(files, program, ok, a, ok', b, |a|);
      assert a == a[..|a|];
      NotShorter(files, program, ok', b, ok, a);
    } else {
      SamePrefix(files, program, ok, a, ok', b, |b|);
      assert b == b[..|b|];
      NotShorter(files, program, ok, a, ok', b);
    }
    assert a == b;
    if ok && !ok' {
      NotStuck(files, program, a);
    } else if !ok && ok' {
      NotStuck(files, program, a);
    }
  }

  lemma NotStuck(files: string -> Option<seq<Dyn>>, program: seq<Dyn>, dlls: seq<Dll>)
    requires Growing(files, program, dlls) && Closed(dlls, |dlls|)
    ensures !Finished(files, program, false, dlls)
  {
    forall j: nat, k: nat | j < |dlls| && k < |Needs(dlls[j].dynamic)|
      ensures !Unsatisfiable(files, dlls, Needs(dlls[j].dynamic)[k])
    {
      ClosedAt(dlls, j, k);
    }
  }

  lemma ClosedAt(dlls: seq<Dll>, j: nat, k: nat)
    requires Closed(dlls, |dlls|) && j < |dlls| && k < |Needs(dlls[j].dynamic)|
    ensures Satisfied(dlls, Needs(dlls[j].dynamic)[k])
  {
    assert AllSatisfied(dlls, Needs(dlls[j].dynamic));
  }
}
