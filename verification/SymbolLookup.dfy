/** Finding dlsym in the symbol table of a loaded library, by a linear scan or along the chains of a
    GNU hash table. */
module SymbolLookup {
  import opened Bytes

  datatype Symbol = Symbol(name: string, isFunction: bool, value: nat)

  /** The parts of a GNU hash table that the walk reads: symbols below symOffset are not hashed. */
  datatype HashTable = HashTable(symOffset: nat, buckets: seq<nat>, chain: seq<nat>)

  const WANTED := "dlsym"

  /** The address of a symbol in a library loaded at base. */
  function Address(base: nat, s: Symbol): nat { (base + s.value) % TWO64 }

  /** The address is relative to where the library is loaded, in 64 bits. */
  lemma LoadedElsewhere(base: nat, further: nat, s: Symbol)
    ensures Address(0, s) == s.value % TWO64 && Address(base + further, s) == (Address(base, s) + further) % TWO64
    ensures base + s.value < TWO64 ==> Address(base, s) == base + s.value
  {
    var (x, q) := (base + s.value, (base + s.value) / TWO64);
    assert x + further == q * TWO64 + (x % TWO64 + further);
  }

  /** From some entry on, the chain ends: its entry is odd. */
  predicate Ends(t: HashTable, start: nat) {
    exists k :: 0 <= k < |t.chain| && start <= k + t.symOffset && t.chain[k] % 2 == 1
  }

  /** There is a chain entry for every hashed symbol, and every bucket in use starts inside a chain
      that ends. */
  predicate WellFormed(t: HashTable, symbols: seq<Symbol>) {
    |symbols| == t.symOffset + |t.chain| &&
    forall b :: b in t.buckets && b >= t.symOffset ==> Ends(t, b)
  }

  /** The index of the last symbol in the chain that starts here. */
  function LastOf(t: HashTable, start: nat): (last: nat)
    requires start >= t.symOffset && Ends(t, start)
    ensures start <= last < t.symOffset + |t.chain| && t.chain[last - t.symOffset] % 2 == 1
    ensures forall k :: start - t.symOffset <= k < last - t.symOffset ==> t.chain[k] % 2 == 0
    decreases t.symOffset + |t.chain| - start
  {
    if t.chain[start - t.symOffset] % 2 == 1 then start
    else
      assert Ends(t, start + 1) by {
        var k :| 0 <= k < |t.chain| && start <= k + t.symOffset && t.chain[k] % 2 == 1;
        assert start + 1 <= k + t.symOffset;
      }
      LastOf(t, start + 1)
  }

  predicate InChain(t: HashTable, b: nat, j: int)
    requires b >= t.symOffset ==> Ends(t, b)
  {
    b >= t.symOffset && b <= j <= LastOf(t, b)
  }

  /** The symbol is in the chain of some bucket. */
  predicate InSomeChain(t: HashTable, symbols: seq<Symbol>, j: int)
    requires WellFormed(t, symbols)
  {
    exists b :: b in t.buckets && InChain(t, b, j)
  }

  /** Every hashed symbol is in some chain. */
  predicate Complete(t: HashTable, symbols: seq<Symbol>)
    requires WellFormed(t, symbols)
  {
    forall j :: t.symOffset <= j < |symbols| ==> InSomeChain(t, symbols, j)
  }

  predicate Examined(walks: seq<seq<nat>>, j: int) { exists w :: w in walks && j in w }

  predicate Hashed(t: HashTable, symbols: seq<Symbol>, j: int) {
    t.symOffset <= j < |symbols| && symbols[j].name == WANTED
  }

  /** Symbols that are looked for have an address. */
  predicate Placed(symbols: seq<Symbol>, base: nat) {
    forall s :: s in symbols && s.name == WANTED ==> Address(base, s) != 0
  }

  /** A run of consecutive indexes within one chain, from its start. */
  predicate Walk(t: HashTable, walk: seq<nat>, b: nat)
    requires b >= t.symOffset && Ends(t, b)
  {
    walk != [] && b + |walk| - 1 <= LastOf(t, b) && forall i :: 0 <= i < |walk| ==> walk[i] == b + i
  }

  /** The inner loop: along one chain, until something is found or the chain ends. */
  method WalkChain(t: HashTable, symbols: seq<Symbol>, base: nat, b: nat, found: nat)
    returns (odlsym: nat, ghost walk: seq<nat>)
    requires WellFormed(t, symbols) && Placed(symbols, base) && b in t.buckets && b >= t.symOffset
    ensures Walk(t, walk, b)
    ensures odlsym == found || exists j :: InChain(t, b, j) && Hashed(t, symbols, j) && odlsym == Address(base, symbols[j])
    ensures odlsym == 0 <==> found == 0 && forall j :: InChain(t, b, j) ==> !Hashed(t, symbols, j)
    ensures odlsym == 0 ==> |walk| == LastOf(t, b) - b + 1
    ensures found == 0 && odlsym != 0 ==> Hashed(t, symbols, walk[|walk| - 1]) && odlsym == Address(base, symbols[walk[|walk| - 1]])
    ensures found == 0 ==> forall i :: 0 <= i < |walk| - 1 ==> !Hashed(t, symbols, walk[i])
    ensures found != 0 ==> walk == [b] && odlsym == if Hashed(t, symbols, b) then Address(base, symbols[b]) else found
  {
    odlsym := found;
    var symIndex := b;
    var more := true;
    ghost var last := LastOf(t, b);
    walk := [];
    while more
      invariant b <= symIndex <= last + 1 && |walk| == symIndex - b
      invariant forall i :: 0 <= i < |walk| ==> walk[i] == b + i
      invariant if more then symIndex <= last && odlsym == found && (symIndex == b || found == 0)
                else symIndex > b && (odlsym == 0 ==> symIndex == last + 1)
      invariant odlsym == 0 ==> forall j :: b <= j < symIndex ==> !Hashed(t, symbols, j)
      invariant found == 0 && odlsym != 0 ==>
        symIndex > b && Hashed(t, symbols, symIndex - 1) && odlsym == Address(base, symbols[symIndex - 1]) &&
        forall j :: b <= j < symIndex - 1 ==> !Hashed(t, symbols, j)
      invariant found != 0 && !more ==>
        symIndex == b + 1 && odlsym == if Hashed(t, symbols, b) then Address(base, symbols[b]) else found
      decreases more, last + 1 - symIndex
    {
      if symbols[symIndex].name == WANTED {
        assert symbols[symIndex] in symbols;
        odlsym := Address(base, symbols[symIndex]);
      }
      walk := walk + [symIndex];
      if odlsym != 0 {
        more := false;
      } else if t.chain[symIndex - t.symOffset] % 2 == 1 {
        more := false;
      }
      symIndex := symIndex + 1;
    }
  }

  /** The walk over all buckets. Once something is found, each later chain is only looked into at its
      first symbol. */
  method FindHashed(t: HashTable, symbols: seq<Symbol>, base: nat) returns (odlsym: nat, ghost walks: seq<seq<nat>>)
    requires WellFormed(t, symbols) && Complete(t, symbols) && Placed(symbols, base)
    ensures odlsym != 0 <==> exists j :: Hashed(t, symbols, j)
    ensures odlsym != 0 ==> exists j :: Hashed(t, symbols, j) && odlsym == Address(base, symbols[j])
    ensures forall w :: w in walks ==> exists b :: b in t.buckets && b >= t.symOffset && Walk(t, w, b)
    ensures odlsym == 0 ==> forall j :: t.symOffset <= j < |symbols| ==> Examined(walks, j)
  {
    odlsym := 0;
    walks := [];
    for i := 0 to |t.buckets|
      invariant odlsym != 0 ==> exists j :: Hashed(t, symbols, j) && odlsym == Address(base, symbols[j])
      invariant odlsym == 0 ==> forall k, j :: 0 <= k < i && InChain(t, t.buckets[k], j) ==> !Hashed(t, symbols, j)
      invariant forall w :: w in walks ==> exists b :: b in t.buckets && b >= t.symOffset && Walk(t, w, b)
      invariant odlsym == 0 ==> forall k, j :: 0 <= k < i && InChain(t, t.buckets[k], j) ==> Examined(walks, j)
    {
      var symIndex := t.buckets[i];
      if symIndex < t.symOffset {
        continue;
      }
      ghost var before := walks;
      ghost var walk;
      odlsym, walk := WalkChain(t, symbols, base, symIndex, odlsym);
      walks := walks + [walk];
      if odlsym == 0 {
        forall k, j | 0 <= k < i + 1 && InChain(t, t.buckets[k], j) ensures Examined(walks, j) {
          if k < i {
            assert Examined(before, j);
            var w :| w in before && j in w;
            assert w in walks;
          } else {
            assert walk[j - symIndex] == j && walk in walks;
          }
        }
      }
    }
    if odlsym == 0 {
      forall j | t.symOffset <= j < |symbols|
        ensures !Hashed(t, symbols, j) && Examined(walks, j)
      {
        assert InSomeChain(t, symbols, j);
        var b :| b in t.buckets && InChain(t, b, j);
        var k :| 0 <= k < |t.buckets| && t.buckets[k] == b;
      }
    }
  }

  predicate IsWanted(s: Symbol) { s.isFunction && s.name == WANTED }

  predicate FirstFunction(symbols: seq<Symbol>, k: int) {
    0 <= k < |symbols| && IsWanted(symbols[k]) && forall j :: 0 <= j < k ==> !IsWanted(symbols[j])
  }

  /** The other way: scanning all symbols for the first function of that name. */
  method FindLinear(symbols: seq<Symbol>, base: nat) returns (odlsym: nat)
    requires Placed(symbols, base)
    ensures odlsym == 0 <==> forall s :: s in symbols ==> !IsWanted(s)
    ensures odlsym != 0 ==> exists k :: FirstFunction(symbols, k) && odlsym == Address(base, symbols[k])
  {
    odlsym := 0;
    for i := 0 to |symbols|
      invariant odlsym == 0 && forall j :: 0 <= j < i ==> !IsWanted(symbols[j])
    {
      if !symbols[i].isFunction {
        continue;
      }
      if symbols[i].name == WANTED {
        assert symbols[i] in symbols;
        odlsym := Address(base, symbols[i]);
        return;
      }
    }
  }

  /** All symbols of that name, versions of it perhaps, lie at one address. */
  predicate OneAddress(symbols: seq<Symbol>, base: nat) {
    forall i, j :: 0 <= i < |symbols| && 0 <= j < |symbols| && symbols[i].name == WANTED && symbols[j].name == WANTED ==>
      Address(base, symbols[i]) == Address(base, symbols[j])
  }

  /** The two ways on one table: they both find something, or both nothing, exactly when hashed and
      function symbols of that name exist together; and then they return the same address whenever all
      symbols of that name have one. */
  method FindBothWays(t: HashTable, symbols: seq<Symbol>, base: nat) returns (hashed: nat, linear: nat)
    requires WellFormed(t, symbols) && Complete(t, symbols) && Placed(symbols, base)
    ensures (hashed != 0 <==> linear != 0) <==>
            ((exists j :: Hashed(t, symbols, j)) <==> (exists s :: s in symbols && IsWanted(s)))
    ensures OneAddress(symbols, base) && ((exists j :: Hashed(t, symbols, j)) <==> (exists s :: s in symbols && IsWanted(s))) ==>
            hashed == linear
  {
    ghost var walks;
    hashed, walks := FindHashed(t, symbols, base);
    linear := FindLinear(symbols, base);
    if hashed != 0 && linear != 0 && OneAddress(symbols, base) {
      ghost var j :| Hashed(t, symbols, j) && hashed == Address(base, symbols[j]);
      ghost var k :| FirstFunction(symbols, k) && linear == Address(base, symbols[k]);
    }
  }
}
