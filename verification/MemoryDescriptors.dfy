/** The virtual-to-physical descriptors of the memory manager: two maps that are
    meant to be each other's inverse. */
module MemoryDescriptors {
  import opened Bits

  const PAGE: nat := 0x1000

  /** The far address and the attributes stored under a key. */
  datatype Entry = Entry(far: nat, attr: nat)

  /** m_virt_map and m_phys_map */
  datatype Maps = Maps(virt: map<nat, Entry>, phys: map<nat, Entry>)

  datatype Translation = Found(addr: nat) | NotMapped

  /** lower and upper: the page offset and the page address */
  function Lower(x: nat): nat { x % PAGE }
  function Upper(x: nat): nat { x - x % PAGE }

  // ---------------------------------------------------------------------------
  // Operations
  // ---------------------------------------------------------------------------

  predicate Accepts(m: Maps, v: nat, p: nat) {
    Lower(v) == 0 && Lower(p) == 0 && v !in m.virt && p !in m.phys
  }

  /** The state after add_md: a rejected pair is erased from both maps by the
      failure handler, whatever made it fail. */
  function Added(m: Maps, v: nat, p: nat, attr: nat): Maps {
    if Accepts(m, v, p) then Maps(m.virt[v := Entry(p, attr)], m.phys[p := Entry(v, attr)])
    else Maps(m.virt - {v}, m.phys - {p})
  }

  /** The state after remove_md. */
  function Removed(m: Maps, v: nat, p: nat): Maps {
    if Lower(v) == 0 && Lower(p) == 0 then Maps(m.virt - {v}, m.phys - {p}) else m
  }

  function Translate(m: map<nat, Entry>, x: nat): Translation {
    if Upper(x) in m then Found(Or(m[Upper(x)].far, Lower(x))) else NotMapped
  }

  class Descriptors {
    var virtMap: map<nat, Entry>
    var physMap: map<nat, Entry>

    function Model(): Maps
      reads this
    {
      Maps(virtMap, physMap)
    }

    constructor ()
      ensures Model() == Maps(map[], map[])
    {
      virtMap, physMap := map[], map[];
    }

    method AddMd(virt: nat, phys: nat, attr: nat) returns (thrown: bool)
      modifies this
      ensures Model() == Added(old(Model()), virt, phys, attr)
      ensures thrown == !Accepts(old(Model()), virt, phys)
    {
      thrown := false;
      if Lower(virt) != 0 || Lower(phys) != 0 {
        thrown := true;
      } else if virt in virtMap {
        thrown := true;
      } else if phys in physMap {
        thrown := true;
      } else {
        virtMap := virtMap[virt := Entry(phys, attr)];
        physMap := physMap[phys := Entry(virt, attr)];
      }
      if thrown {
        virtMap := virtMap - {virt};
        physMap := physMap - {phys};
      }
    }

    method RemoveMd(virt: nat, phys: nat) returns (thrown: bool)
      modifies this
      ensures Model() == Removed(old(Model()), virt, phys)
      ensures thrown == (Lower(virt) != 0 || Lower(phys) != 0)
    {
      thrown := Lower(virt) != 0 || Lower(phys) != 0;
      if !thrown {
        virtMap := virtMap - {virt};
        physMap := physMap - {phys};
      }
    }

    method VirtToPhys(virt: nat) returns (r: Translation)
      ensures r == Translate(virtMap, virt)
    {
      if Upper(virt) in virtMap {
        r := Found(Or(virtMap[Upper(virt)].far, Lower(virt)));
      } else {
        r := NotMapped;
      }
    }

    method PhysToVirt(phys: nat) returns (r: Translation)
      ensures r == Translate(physMap, phys)
    {
      if Upper(phys) in physMap {
        r := Found(Or(physMap[Upper(phys)].far, Lower(phys)));
      } else {
        r := NotMapped;
      }
    }
  }

  // ---------------------------------------------------------------------------
  // The inverse property
  // ---------------------------------------------------------------------------

  /** Every entry of a is matched by the opposite entry of b. */
  predicate Mirrors(a: map<nat, Entry>, b: map<nat, Entry>) {
    forall x :: x in a ==> a[x].far in b && b[a[x].far] == Entry(x, a[x].attr)
  }

  predicate Inverse(m: Maps) {
    Mirrors(m.virt, m.phys) && Mirrors(m.phys, m.virt)
  }

  predicate Aligned(m: Maps) {
    (forall v :: v in m.virt ==> Lower(v) == 0) && (forall p :: p in m.phys ==> Lower(p) == 0)
  }

  /** The pair is stored as such, or neither half is stored at all. */
  predicate TogetherOrAbsent(m: Maps, v: nat, p: nat) {
    if v in m.virt then m.virt[v].far == p else p !in m.phys
  }

  /** Erasing a pair of keys keeps the maps inverse iff the keys belong
      together. */
  lemma ErasingKeepsInverse(m: Maps, v: nat, p: nat)
    requires Inverse(m)
    ensures Inverse(Maps(m.virt - {v}, m.phys - {p})) <==> TogetherOrAbsent(m, v, p)
  {
    var m' := Maps(m.virt - {v}, m.phys - {p});
    if TogetherOrAbsent(m, v, p) {
      forall x | x in m'.virt ensures m'.virt[x].far in m'.phys {
        assert m.phys[m.virt[x].far].far == x;
      }
      forall x | x in m'.phys ensures m'.phys[x].far in m'.virt {
        assert m.virt[m.phys[x].far].far == x;
      }
    } else if v in m.virt {
      var q := m.virt[v].far;
      assert q in m'.phys && m'.phys[q].far == v;
    } else {
      var w := m.phys[p].far;
      assert w in m'.virt && m'.virt[w].far == p;
    }
  }

  /** add_md keeps the maps inverse iff the pair it is given is stored together
      or absent altogether; when it is accepted that is always so. */
  lemma AddKeepsInverse(m: Maps, v: nat, p: nat, attr: nat)
    requires Inverse(m)
    ensures Inverse(Added(m, v, p, attr)) <==> TogetherOrAbsent(m, v, p)
    ensures Accepts(m, v, p) ==> TogetherOrAbsent(m, v, p)
    ensures Aligned(m) ==> Aligned(Added(m, v, p, attr))
  {
    if Accepts(m, v, p) {
      var m' := Added(m, v, p, attr);
      forall x | x in m'.virt
        ensures m'.virt[x].far in m'.phys && m'.phys[m'.virt[x].far] == Entry(x, m'.virt[x].attr)
      {
        if x != v { assert m.virt[x].far in m.phys; }
      }
      forall x | x in m'.phys
        ensures m'.phys[x].far in m'.virt && m'.virt[m'.phys[x].far] == Entry(x, m'.phys[x].attr)
      {
        if x != p { assert m.phys[x].far in m.virt; }
      }
    } else {
      ErasingKeepsInverse(m, v, p);
    }
  }

  /** A rejected duplicate can leave a dangling entry behind: the virtual page
      stays known to the physical map only. */
  lemma RejectedAddCanDangle()
    ensures var m := Added(Added(Maps(map[], map[]), 0x1000, 0x5000, 0), 0x1000, 0x6000, 0);
            m.virt == map[] && m.phys == map[0x5000 := Entry(0x1000, 0)] && !Inverse(m)
  {
    var m1 := Added(Maps(map[], map[]), 0x1000, 0x5000, 0);
    assert m1 == Maps(map[0x1000 := Entry(0x5000, 0)], map[0x5000 := Entry(0x1000, 0)]);
    var m := Added(m1, 0x1000, 0x6000, 0);
    assert m == Maps(m1.virt - {0x1000}, m1.phys - {0x6000});
    assert 0x5000 in m.phys;
  }

  lemma RemoveKeepsInverse(m: Maps, v: nat, p: nat)
    requires Inverse(m)
    ensures Inverse(Removed(m, v, p)) <==> Lower(v) != 0 || Lower(p) != 0 || TogetherOrAbsent(m, v, p)
    ensures Aligned(m) ==> Aligned(Removed(m, v, p))
  {
    if Lower(v) == 0 && Lower(p) == 0 {
      ErasingKeepsInverse(m, v, p);
    }
  }

  // ---------------------------------------------------------------------------
  // Runs and round trips
  // ---------------------------------------------------------------------------

  datatype Call = Add(v: nat, p: nat, attr: nat) | Remove(v: nat, p: nat)

  ghost function Run(calls: seq<Call>): Maps {
    if calls == [] then Maps(map[], map[])
    else
      var m := Run(calls[..|calls| - 1]);
      match calls[|calls| - 1]
      case Add(v, p, attr) => Added(m, v, p, attr)
      case Remove(v, p) => Removed(m, v, p)
  }

  /** The call does not name half of a stored pair, or is a rejected removal:
      every accepted add and every removal of a stored pair qualifies. */
  predicate Qualifies(m: Maps, c: Call) {
    || TogetherOrAbsent(m, c.v, c.p)
    || (c.Remove? && (Lower(c.v) != 0 || Lower(c.p) != 0))
  }

  /** Every call qualifies where it is made. */
  ghost predicate Paired(calls: seq<Call>) {
    forall i :: 0 <= i < |calls| ==> Qualifies(Run(calls[..i]), calls[i])
  }

  /** One call keeps the maps inverse iff it qualifies. */
  lemma CallKeepsInverse(calls: seq<Call>, i: nat)
    requires i < |calls| && Inverse(Run(calls[..i]))
    ensures Inverse(Run(calls[..i + 1])) <==> Qualifies(Run(calls[..i]), calls[i])
    ensures Aligned(Run(calls[..i])) ==> Aligned(Run(calls[..i + 1]))
  {
    var m := Run(calls[..i]);
    assert calls[..i + 1][..i] == calls[..i];
    match calls[i]
    case Add(v, p, attr) => AddKeepsInverse(m, v, p, attr);
    case Remove(v, p) => RemoveKeepsInverse(m, v, p);
  }

  lemma {:induction false} PrefixKeepsInverse(calls: seq<Call>, i: nat)
    requires Paired(calls) && i <= |calls|
    ensures Inverse(Run(calls[..i])) && Aligned(Run(calls[..i]))
    decreases i
  {
    if i > 0 {
      PrefixKeepsInverse(calls, i - 1);
      CallKeepsInverse(calls, i - 1);
    }
  }

  lemma RunKeepsInverse(calls: seq<Call>)
    requires Paired(calls)
    ensures Inverse(Run(calls)) && Aligned(Run(calls))
  {
    PrefixKeepsInverse(calls, |calls|);
    assert calls[..|calls|] == calls;
  }

  /** The maps are inverse throughout a run iff every call of it qualifies. */
  lemma InverseThroughoutIff(calls: seq<Call>)
    ensures (forall i :: 0 <= i <= |calls| ==> Inverse(Run(calls[..i]))) <==> Paired(calls)
  {
    if Paired(calls) {
      forall i | 0 <= i <= |calls| ensures Inverse(Run(calls[..i])) {
        PrefixKeepsInverse(calls, i);
      }
    }
    if forall i :: 0 <= i <= |calls| ==> Inverse(Run(calls[..i])) {
      forall i | 0 <= i < |calls| ensures Qualifies(Run(calls[..i]), calls[i]) {
        CallKeepsInverse(calls, i);
      }
    }
  }

  // Which pair a page belongs to.

  /** The call takes virtual page v out of the map: a removal of an aligned pair,
      or an add, which is rejected while v is in use. */
  predicate ErasesVirt(c: Call, v: nat) {
    c.v == v && (c.Add? || (c.v % 0x1000 == 0 && c.p % 0x1000 == 0))
  }

  predicate ErasesPhys(c: Call, p: nat) {
    c.p == p && (c.Add? || (c.v % 0x1000 == 0 && c.p % 0x1000 == 0))
  }

  /** Call k added the pair, and no later one takes its virtual, or physical, page
      out again. */
  ghost predicate LastToMap(calls: seq<Call>, k: nat, v: nat, p: nat, attr: nat) {
    && k < |calls| && calls[k] == Add(v, p, attr) && Accepts(Run(calls[..k]), v, p)
    && forall j :: k < j < |calls| ==> !ErasesVirt(calls[j], v)
  }

  ghost predicate LastToMapBack(calls: seq<Call>, k: nat, v: nat, p: nat, attr: nat) {
    && k < |calls| && calls[k] == Add(v, p, attr) && Accepts(Run(calls[..k]), v, p)
    && forall j :: k < j < |calls| ==> !ErasesPhys(calls[j], p)
  }

  lemma LastToMapSnoc(calls: seq<Call>, k: nat, v: nat, p: nat, attr: nat)
    requires calls != []
    ensures var init, last := calls[..|calls| - 1], calls[|calls| - 1];
            && (LastToMap(calls, k, v, p, attr) <==>
                if k == |calls| - 1 then last == Add(v, p, attr) && Accepts(Run(init), v, p)
                else LastToMap(init, k, v, p, attr) && !ErasesVirt(last, v))
            && (LastToMapBack(calls, k, v, p, attr) <==>
                if k == |calls| - 1 then last == Add(v, p, attr) && Accepts(Run(init), v, p)
                else LastToMapBack(init, k, v, p, attr) && !ErasesPhys(last, p))
  {
    var n := |calls| - 1;
    var init := calls[..n];
    if k < n {
      assert init[..k] == calls[..k];
      assert forall j :: k < j < n ==> init[j] == calls[j];
    }
  }

  /** Virtual page v is mapped to p iff some call added the pair and none took v
      out since. */
  lemma {:induction false} MappedIff(calls: seq<Call>, v: nat, p: nat, attr: nat)
    ensures (v in Run(calls).virt && Run(calls).virt[v] == Entry(p, attr)) <==>
            exists k: nat :: LastToMap(calls, k, v, p, attr)
    decreases |calls|
  {
    if calls != [] {
      var n := |calls| - 1;
      var init, last := calls[..n], calls[n];
      MappedIff(init, v, p, attr);
      LastToMapSnoc(calls, n, v, p, attr);
      if k: nat :| LastToMap(init, k, v, p, attr) {
        LastToMapSnoc(calls, k, v, p, attr);
      }
      if k: nat :| LastToMap(calls, k, v, p, attr) {
        LastToMapSnoc(calls, k, v, p, attr);
      }
    }
  }

  /** The same in the other direction. */
  lemma {:induction false} MappedBackIff(calls: seq<Call>, v: nat, p: nat, attr: nat)
    ensures (p in Run(calls).phys && Run(calls).phys[p] == Entry(v, attr)) <==>
            exists k: nat :: LastToMapBack(calls, k, v, p, attr)
    decreases |calls|
  {
    if calls != [] {
      var n := |calls| - 1;
      var init, last := calls[..n], calls[n];
      MappedBackIff(init, v, p, attr);
      LastToMapSnoc(calls, n, v, p, attr);
      if k: nat :| LastToMapBack(init, k, v, p, attr) {
        LastToMapSnoc(calls, k, v, p, attr);
      }
      if k: nat :| LastToMapBack(calls, k, v, p, attr) {
        LastToMapSnoc(calls, k, v, p, attr);
      }
    }
  }

  /** After every run, an address in a page that was added and not taken out
      translates to the same place in the page it was added with. */
  lemma TranslatesAsAdded(calls: seq<Call>, k: nat, v: nat, p: nat, attr: nat, offset: nat)
    requires offset < 0x1000
    ensures LastToMap(calls, k, v, p, attr) ==> Translate(Run(calls).virt, v + offset) == Found(p + offset)
    ensures LastToMapBack(calls, k, v, p, attr) ==> Translate(Run(calls).phys, p + offset) == Found(v + offset)
  {
    MappedIff(calls, v, p, attr);
    MappedBackIff(calls, v, p, attr);
    if Lower(v) == 0 && Lower(p) == 0 {
      SplitsBack(v, offset);
      SplitsBack(p, offset);
      OrIsSum(v, offset);
      OrIsSum(p, offset);
    }
  }

  /** Combining a page address with an offset by or is adding them. */
  lemma OrIsSum(page: nat, offset: nat)
    requires Lower(page) == 0 && offset < PAGE
    ensures Or(page, offset) == page + offset
  {
    Pow2Values();
    OrDisjoint(page / PAGE, offset, 12);
  }

  /** Virtual to physical and back is the identity on mapped addresses, and so
      is the way round. */
  lemma TranslationRoundTrip(calls: seq<Call>, x: nat)
    requires Paired(calls)
    ensures var m := Run(calls);
            && (match Translate(m.virt, x)
                case Found(y) => Translate(m.phys, y) == Found(x) && Lower(y) == Lower(x)
                case NotMapped => Upper(x) !in m.virt)
            && (match Translate(m.phys, x)
                case Found(y) => Translate(m.virt, y) == Found(x) && Lower(y) == Lower(x)
                case NotMapped => Upper(x) !in m.phys)
  {
    var m := Run(calls);
    RunKeepsInverse(calls);
    if Upper(x) in m.virt { HalfTrip(m.virt, m.phys, x); }
    if Upper(x) in m.phys { HalfTrip(m.phys, m.virt, x); }
  }

  lemma HalfTrip(a: map<nat, Entry>, b: map<nat, Entry>, x: nat)
    requires Mirrors(a, b) && Upper(x) in a
    requires forall k :: k in b ==> Lower(k) == 0
    ensures var y := Translate(a, x).addr; Translate(b, y) == Found(x) && Lower(y) == Lower(x)
  {
    var far := a[Upper(x)].far;
    assert far in b && Lower(far) == 0;
    OrIsSum(far, Lower(x));
    SplitsBack(far, Lower(x));
    OrIsSum(Upper(x), Lower(x));
  }

  lemma SplitsBack(page: nat, offset: nat)
    requires Lower(page) == 0 && offset < PAGE
    ensures Lower(page + offset) == offset && Upper(page + offset) == page
  {
  }
}
