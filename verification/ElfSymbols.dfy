/** Symbol lookup of the ELF loader: by hash table or by linear scan in one
    file, and globally over all files. */
module ElfSymbols {
  import opened ElfHash

  datatype Option<T> = None | Some(value: T)

  // ---------------------------------------------------------------------------
  // One file
  // ---------------------------------------------------------------------------

  /** The names of the dynamic symbols in table order, and the hash table. */
  datatype SymbolTable = SymbolTable(names: seq<Name>, bucket: seq<nat>, chain: seq<nat>)

  ghost predicate Sized(t: SymbolTable) {
    |t.bucket| > 0 && |t.chain| == |t.names|
  }

  function BucketOf(t: SymbolTable, name: Name): nat
    requires |t.bucket| > 0
  {
    (Hash(name) as nat) % |t.bucket|
  }

  /** The indices met from i along the chain are exactly list, and the walk then
      leaves the table: it ends. */
  ghost predicate Walk(t: SymbolTable, i: nat, list: seq<nat>)
    decreases |list|
  {
    if list == [] then i == 0 || i >= |t.chain|
    else i == list[0] && 0 < i < |t.chain| && Walk(t, t.chain[i], list[1..])
  }

  /** The chain of every bucket is finite. */
  ghost predicate Chained(t: SymbolTable, chains: seq<seq<nat>>) {
    Sized(t) && |chains| == |t.bucket| && forall b :: 0 <= b < |chains| ==> Walk(t, t.bucket[b], chains[b])
  }

  /** A well-formed hash table: the chain of every bucket is finite and holds the
      symbols, other than the reserved first, that hash to it. */
  ghost predicate WellFormed(t: SymbolTable, chains: seq<seq<nat>>) {
    Chained(t, chains) && forall i :: 0 < i < |t.names| ==> i in chains[BucketOf(t, t.names[i])]
  }

  /** The same for a table that was built with the hash of the gABI. */
  ghost predicate WellFormedStandard(t: SymbolTable, chains: seq<seq<nat>>) {
    Chained(t, chains) &&
    forall i :: 0 < i < |t.names| ==> i in chains[(StandardFrom(0, t.names[i]) as nat) % |t.bucket|]
  }

  /** A table built with the hash of the gABI serves the loader if its names are
      7-bit. */
  lemma StandardTableServes(t: SymbolTable, chains: seq<seq<nat>>)
    requires WellFormedStandard(t, chains) && forall i :: 0 < i < |t.names| ==> SevenBit(t.names[i])
    ensures WellFormed(t, chains)
  {
    forall i | 0 < i < |t.names| ensures i in chains[BucketOf(t, t.names[i])] {
      HashIsStandard(t.names[i]);
    }
  }

  /** The first symbol of the name along a chain. */
  ghost function FirstInChain(t: SymbolTable, list: seq<nat>, name: Name): (r: Option<nat>)
    requires forall k :: 0 <= k < |list| ==> 0 < list[k] < |t.names|
    ensures r.Some? ==> 0 < r.value < |t.names| && t.names[r.value] == name
    ensures r.None? ==> forall k :: 0 <= k < |list| ==> t.names[list[k]] != name
  {
    if list == [] then None
    else if t.names[list[0]] == name then Some(list[0])
    else
      var r := FirstInChain(t, list[1..], name);
      assert forall k :: 0 < k < |list| ==> list[k] == list[1..][k - 1];
      r
  }

  lemma {:induction false} WalkStaysInside(t: SymbolTable, i: nat, list: seq<nat>)
    requires Sized(t) && Walk(t, i, list)
    ensures forall k :: 0 <= k < |list| ==> 0 < list[k] < |t.names|
    decreases |list|
  {
    if list != [] {
      WalkStaysInside(t, t.chain[i], list[1..]);
      assert forall k :: 0 < k < |list| ==> list[k] == list[1..][k - 1];
    }
  }

  /** The walk along the chain of the name's bucket ends and meets list. */
  ghost predicate Ends(t: SymbolTable, name: Name, list: seq<nat>) {
    Sized(t) && Walk(t, t.bucket[BucketOf(t, name)], list)
  }

  /** The symbols of the name, other than the reserved first, are on list. */
  ghost predicate Lists(t: SymbolTable, name: Name, list: seq<nat>) {
    forall i :: 0 < i < |t.names| && t.names[i] == name ==> i in list
  }

  /** A well-formed table serves every name. */
  lemma WellFormedServes(t: SymbolTable, chains: seq<seq<nat>>, name: Name)
    requires WellFormed(t, chains)
    ensures var list := chains[BucketOf(t, name)]; Ends(t, name, list) && Lists(t, name, list)
  {
  }

  /** What a look-up by hash delivers. */
  ghost function ByHash(t: SymbolTable, name: Name, list: seq<nat>): (r: Option<nat>)
    requires Ends(t, name, list)
    ensures r.Some? ==> 0 < r.value < |t.names| && t.names[r.value] == name
    ensures r.None? && Lists(t, name, list) ==> forall i :: 0 < i < |t.names| ==> t.names[i] != name
  {
    WalkStaysInside(t, t.bucket[BucketOf(t, name)], list);
    FirstInChain(t, list, name)
  }

  /** private_get_sym_by_hash, whenever the walk ends */
  method GetSymByHash(t: SymbolTable, name: Name, ghost list: seq<nat>) returns (r: Option<nat>)
    requires Ends(t, name, list)
    ensures r == ByHash(t, name, list)
  {
    var h := PrivateHash(name);
    var b := (h as nat) % |t.bucket|;
    var i: nat := t.bucket[b];
    ghost var rest := list;
    WalkStaysInside(t, i, rest);
    while i > 0 && i < |t.chain|
      invariant Walk(t, i, rest) && forall k :: 0 <= k < |rest| ==> 0 < rest[k] < |t.names|
      invariant FirstInChain(t, rest, name) == ByHash(t, name, list)
      decreases |rest|
    {
      if t.names[i] == name {
        return Some(i);
      }
      rest := rest[1..];
      i := t.chain[i];
    }
    return None;
  }

  /** The first symbol of a name. */
  function FirstNamed(names: seq<Name>, name: Name): (r: Option<nat>)
    ensures r.Some? ==> r.value < |names| && names[r.value] == name
                        && forall i :: 0 <= i < r.value ==> names[i] != name
    ensures r.None? ==> forall i :: 0 <= i < |names| ==> names[i] != name
  {
    if names == [] then None
    else if names[0] == name then Some(0)
    else
      match FirstNamed(names[1..], name)
      case None =>
        assert forall i :: 0 < i < |names| ==> names[i] == names[1..][i - 1];
        None
      case Some(i) =>
        assert forall j :: 0 < j < i + 1 ==> names[j] == names[1..][j - 1];
        Some(i + 1)
  }

  /** The linear scan of private_get_sym_by_name for a file without hash table */
  method GetSymByScan(t: SymbolTable, name: Name) returns (r: Option<nat>)
    ensures r == FirstNamed(t.names, name)
  {
    var i := 0;
    while i < |t.names|
      invariant 0 <= i <= |t.names|
      invariant forall j :: 0 <= j < i ==> t.names[j] != name
    {
      if t.names[i] == name {
        return Some(i);
      }
      i := i + 1;
    }
    return None;
  }

  /** At most one symbol has the name, and it is not the reserved first one. */
  predicate NamedOnce(t: SymbolTable, name: Name) {
    && (|t.names| > 0 ==> t.names[0] != name)
    && forall i, j :: 0 <= i < j < |t.names| ==> !(t.names[i] == name && t.names[j] == name)
  }

  /** private_get_sym_by_name: with or without a hash table, a name that occurs
      at most once, and on its chain, is found where a linear scan finds it. */
  method GetSymByName(t: SymbolTable, hasHash: bool, name: Name, ghost list: seq<nat>) returns (r: Option<nat>)
    requires hasHash ==> Ends(t, name, list)
    ensures r == if hasHash then ByHash(t, name, list) else FirstNamed(t.names, name)
    ensures NamedOnce(t, name) && (hasHash ==> Lists(t, name, list)) ==> r == FirstNamed(t.names, name)
  {
    if hasHash {
      r := GetSymByHash(t, name, list);
    } else {
      r := GetSymByScan(t, name);
    }
  }

  // ---------------------------------------------------------------------------
  // All files
  // ---------------------------------------------------------------------------

  /** What one file has to say about a name: nothing, or a symbol with its value
      and binding, relative to where the file runs. id tells the files apart. */
  datatype Definition = NoSymbol(id: nat) | Symbol(id: nat, base: nat, value: nat, weak: bool)

  /** Symbols that count: outside the ignored file, with a value. */
  predicate Counts(d: Definition, ignore: Option<nat>) {
    ignore != Some(d.id) && d.Symbol? && d.value != 0
  }

  predicate Strong(d: Definition, ignore: Option<nat>) {
    Counts(d, ignore) && !d.weak
  }

  predicate Weak(d: Definition, ignore: Option<nat>) {
    Counts(d, ignore) && d.weak
  }

  /** The loop of private_get_sym_global with what it has recorded so far. */
  function ResolveFrom(ds: seq<Definition>, ignore: Option<nat>, found: Option<Definition>): Option<Definition>
    decreases |ds|
  {
    if ds == [] then found
    else if !Counts(ds[0], ignore) then ResolveFrom(ds[1..], ignore, found)
    else if ds[0].weak then ResolveFrom(ds[1..], ignore, Some(ds[0]))
    else Some(ds[0])
  }

  function Resolve(ds: seq<Definition>, ignore: Option<nat>): Option<Definition> {
    ResolveFrom(ds, ignore, None)
  }

  lemma ResolveStep(ds: seq<Definition>, i: nat, ignore: Option<nat>, found: Option<Definition>)
    requires i < |ds|
    ensures ResolveFrom(ds[i..], ignore, found) ==
            if !Counts(ds[i], ignore) then ResolveFrom(ds[i + 1..], ignore, found)
            else if ds[i].weak then ResolveFrom(ds[i + 1..], ignore, Some(ds[i]))
            else Some(ds[i])
  {
    assert ds[i..][0] == ds[i] && ds[i..][1..] == ds[i + 1..];
  }

  /** k is the place of the symbol that resolution must deliver: the first
      strong one, or without any the last weak one. */
  ghost predicate IsChoice(ds: seq<Definition>, ignore: Option<nat>, k: int) {
    && 0 <= k < |ds|
    && (|| (Strong(ds[k], ignore) && forall i :: 0 <= i < k ==> !Strong(ds[i], ignore))
        || (&& Weak(ds[k], ignore) && (forall i :: 0 <= i < |ds| ==> !Strong(ds[i], ignore))
            && forall i :: k < i < |ds| ==> !Weak(ds[i], ignore)))
  }

  lemma {:induction false} ResolveFromFinds(ds: seq<Definition>, ignore: Option<nat>, found: Option<Definition>)
    ensures var r := ResolveFrom(ds, ignore, found);
            if forall i :: 0 <= i < |ds| ==> !Counts(ds[i], ignore) then r == found
            else r.Some? && exists k :: IsChoice(ds, ignore, k) && r.value == ds[k]
    decreases |ds|
  {
    if ds != [] {
      var rest := ds[1..];
      assert forall i :: 0 < i < |ds| ==> ds[i] == rest[i - 1];
      if Strong(ds[0], ignore) {
        assert IsChoice(ds, ignore, 0);
      } else {
        var found' := if Counts(ds[0], ignore) then Some(ds[0]) else found;
        ResolveFromFinds(rest, ignore, found');
        if forall i :: 0 <= i < |rest| ==> !Counts(rest[i], ignore) {
          assert forall i :: 0 < i < |ds| ==> !Counts(ds[i], ignore);
          if Counts(ds[0], ignore) { assert IsChoice(ds, ignore, 0); }
        } else {
          var k :| IsChoice(rest, ignore, k) && ResolveFrom(ds, ignore, found).value == rest[k];
          assert IsChoice(ds, ignore, k + 1);
        }
      }
    }
  }

  /** Resolution delivers the first strong symbol outside the ignored file, else
      the last weak one, and fails exactly when there is neither. */
  lemma ResolveIsChoice(ds: seq<Definition>, ignore: Option<nat>)
    ensures match Resolve(ds, ignore)
            case None => forall i :: 0 <= i < |ds| ==> !Counts(ds[i], ignore)
            case Some(d) => exists k :: IsChoice(ds, ignore, k) && d == ds[k]
  {
    ResolveFromFinds(ds, ignore, None);
  }

  // ---------------------------------------------------------------------------
  // Order of the files
  // ---------------------------------------------------------------------------

  ghost predicate AtMostOne(ds: seq<Definition>, p: Definition -> bool) {
    forall i, j :: 0 <= i < |ds| && 0 <= j < |ds| && p(ds[i]) && p(ds[j]) ==> ds[i] == ds[j]
  }

  ghost predicate AnyOf(ds: seq<Definition>, p: Definition -> bool) {
    exists i :: 0 <= i < |ds| && p(ds[i])
  }

  /** One strong definition, or none and one weak definition, or nothing. */
  ghost predicate Unambiguous(ds: seq<Definition>, ignore: Option<nat>) {
    && AtMostOne(ds, d => Strong(d, ignore))
    && (!AnyOf(ds, d => Strong(d, ignore)) ==> AtMostOne(ds, d => Weak(d, ignore)))
  }

  ghost predicate OrderFree(ds: seq<Definition>, ignore: Option<nat>) {
    forall es: seq<Definition> :: multiset(es) == multiset(ds) ==> Resolve(es, ignore) == Resolve(ds, ignore)
  }

  lemma SameMembers(ds: seq<Definition>, es: seq<Definition>)
    requires multiset(es) == multiset(ds)
    ensures forall d :: d in ds <==> d in es
  {
    forall d ensures d in ds <==> d in es {
      assert d in ds <==> d in multiset(ds);
      assert d in es <==> d in multiset(es);
    }
  }

  /** Unambiguous definitions resolve alike in every order of the files. */
  lemma UnambiguousIsOrderFree(ds: seq<Definition>, es: seq<Definition>, ignore: Option<nat>)
    requires Unambiguous(ds, ignore) && multiset(es) == multiset(ds)
    ensures Resolve(es, ignore) == Resolve(ds, ignore)
  {
    SameMembers(ds, es);
    ResolveIsChoice(ds, ignore);
    ResolveIsChoice(es, ignore);
    assert forall i :: 0 <= i < |es| ==> es[i] in ds;
    assert forall i :: 0 <= i < |ds| ==> ds[i] in es;
    match (Resolve(ds, ignore), Resolve(es, ignore))
    case (Some(d), Some(e)) =>
      var k :| IsChoice(ds, ignore, k) && d == ds[k];
      var l :| IsChoice(es, ignore, l) && e == es[l];
      assert e in es && e in ds && d in ds && d in es;
    case _ =>
  }

  /** Element i moved to the front or to the back. */
  ghost function Moved<T>(s: seq<T>, i: nat, front: bool): seq<T>
    requires i < |s|
  {
    if front then [s[i]] + (s[..i] + s[i + 1..]) else (s[..i] + s[i + 1..]) + [s[i]]
  }

  /** Where the element at place k of the moved sequence was. */
  function MovedFrom(n: nat, i: nat, front: bool, k: nat): (from: nat)
    requires i < n && k < n
    ensures from < n
  {
    if front then if k == 0 then i else if k <= i then k - 1 else k
    else if k < i then k else if k < n - 1 then k + 1 else i
  }

  lemma MovedAt<T>(s: seq<T>, i: nat, front: bool, k: nat)
    requires i < |s| && k < |s|
    ensures |Moved(s, i, front)| == |s| && Moved(s, i, front)[k] == s[MovedFrom(|s|, i, front, k)]
  {
  }

  lemma MovedIsReordered<T>(s: seq<T>, i: nat, front: bool)
    requires i < |s|
    ensures multiset(Moved(s, i, front)) == multiset(s)
  {
    assert s == s[..i] + [s[i]] + s[i + 1..];
  }

  /** A weak symbol moved to the back is chosen when there is no strong one. */
  lemma WeakAtBackWins(ds: seq<Definition>, ignore: Option<nat>, i: nat)
    requires i < |ds| && Weak(ds[i], ignore) && !AnyOf(ds, d => Strong(d, ignore))
    ensures Resolve(Moved(ds, i, false), ignore) == Some(ds[i])
  {
    var es := Moved(ds, i, false);
    MovedIsReordered(ds, i, false);
    SameMembers(ds, es);
    assert forall k :: 0 <= k < |ds| ==> !Strong(ds[k], ignore);
    forall k | 0 <= k < |es| ensures !Strong(es[k], ignore) {
      assert es[k] in es && es[k] in ds;
    }
    assert es[|es| - 1] == ds[i];
    ResolveIsChoice(es, ignore);
  }

  /** Ambiguous definitions resolve differently in two orders. */
  lemma AmbiguousDepends(ds: seq<Definition>, ignore: Option<nat>) returns (i: nat, j: nat, front: bool)
    requires !Unambiguous(ds, ignore)
    ensures i < |ds| && j < |ds|
    ensures Resolve(Moved(ds, i, front), ignore) != Resolve(Moved(ds, j, front), ignore)
  {
    if !AtMostOne(ds, d => Strong(d, ignore)) {
      front := true;
      i, j :| 0 <= i < |ds| && 0 <= j < |ds| && Strong(ds[i], ignore) && Strong(ds[j], ignore) && ds[i] != ds[j];
      assert Resolve(Moved(ds, i, front), ignore) == Some(ds[i]);
      assert Resolve(Moved(ds, j, front), ignore) == Some(ds[j]);
    } else {
      front := false;
      i, j :| 0 <= i < |ds| && 0 <= j < |ds| && Weak(ds[i], ignore) && Weak(ds[j], ignore) && ds[i] != ds[j];
      WeakAtBackWins(ds, ignore, i);
      WeakAtBackWins(ds, ignore, j);
    }
  }

  /** The result is the same for every permutation of the definitions iff they
      are unambiguous. */
  lemma OrderFreeIffUnambiguous(ds: seq<Definition>, ignore: Option<nat>)
    ensures OrderFree(ds, ignore) <==> Unambiguous(ds, ignore)
  {
    if Unambiguous(ds, ignore) {
      forall es: seq<Definition> | multiset(es) == multiset(ds) ensures Resolve(es, ignore) == Resolve(ds, ignore) {
        UnambiguousIsOrderFree(ds, es, ignore);
      }
    } else {
      var i, j, front := AmbiguousDepends(ds, ignore);
      MovedIsReordered(ds, i, front);
      MovedIsReordered(ds, j, front);
    }
  }

  /** g at each place. */
  ghost function Mapped<S, T>(g: S -> T, s: seq<S>): seq<T> {
    seq(|s|, i requires 0 <= i < |s| => g(s[i]))
  }

  lemma TakenOut<T>(s: seq<T>, k: nat)
    requires k < |s|
    ensures multiset(s) == multiset(s[..k] + s[k + 1..]) + multiset{s[k]}
  {
    assert s == s[..k] + [s[k]] + s[k + 1..];
  }

  lemma MappedAround<S, T>(g: S -> T, s: seq<S>, k: nat)
    requires k < |s|
    ensures multiset(Mapped(g, s)) == multiset(Mapped(g, s[..k] + s[k + 1..])) + multiset{g(s[k])}
  {
    var m := Mapped(g, s);
    TakenOut(m, k);
    assert Mapped(g, s[..k] + s[k + 1..]) == m[..k] + m[k + 1..];
  }

  /** The first element, found again and left out on both sides. */
  lemma FirstTakenOut<T>(s: seq<T>, t: seq<T>) returns (k: nat)
    requires multiset(t) == multiset(s) && s != []
    ensures k < |t| && t[k] == s[0] && multiset(t[..k] + t[k + 1..]) == multiset(s[..0] + s[1..])
  {
    assert s[0] in multiset(t);
    k :| 0 <= k < |t| && t[k] == s[0];
    TakenOut(s, 0);
    TakenOut(t, k);
    assert multiset(t) - multiset{s[0]} == multiset(t[..k] + t[k + 1..]);
    assert multiset(s) - multiset{s[0]} == multiset(s[..0] + s[1..]);
  }

  /** Mapping a reordered sequence reorders the result. */
  lemma {:induction false} MappedReordered<S, T>(g: S -> T, s: seq<S>, t: seq<S>)
    requires multiset(t) == multiset(s)
    ensures multiset(Mapped(g, t)) == multiset(Mapped(g, s))
    decreases |s|
  {
    if s == [] {
      assert |t| == |multiset(t)| == 0;
    } else {
      var k := FirstTakenOut(s, t);
      MappedAround(g, s, 0);
      MappedAround(g, t, k);
      MappedReordered(g, s[..0] + s[1..], t[..k] + t[k + 1..]);
    }
  }
}
