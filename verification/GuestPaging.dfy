/** GEVisor's guest page tables: the walk for one address and the scan of all
    four levels for frames of the enclave page cache (EPC). */
module GuestPaging {
  import opened Bits

  const ENTRIES: nat := 512
  const SGX_PAGES: nat := 100000

  const SIZE_4K: nat := 0x1000
  const SIZE_2M: nat := 0x20_0000
  const SIZE_1G: nat := 0x4000_0000
  const SIZE_512G: nat := 0x80_0000_0000

  /** What the code looks at in an entry (Intel SDM Vol. 3A, section 4.5): the
      number of the 4 KiB page it points to, bits 12-51, and the bits present
      and ps. */
  datatype Entry = Entry(page: nat, present: bool, ps: bool)

  /** A table of 512 entries. */
  type Table = s: seq<Entry> | |s| == ENTRIES witness seq(ENTRIES, _ => Entry(0, false, false))

  /** Guest physical memory as seen through mapped tables: the table at an
      address. */
  type Tables = nat -> Table

  /** phys_addr */
  function PhysAddr(e: Entry): nat { e.page * 0x1000 }

  predicate Usable(e: Entry) { PhysAddr(e) != 0 && e.present }

  function Lower(x: nat, size: nat): nat
    requires size > 0
  {
    x % size
  }

  function Upper(x: nat, size: nat): nat
    requires size > 0
  {
    x - x % size
  }

  /** The index into the table whose entries each cover size bytes. */
  function Index(virt: nat, size: nat): (i: nat)
    requires size > 0
    ensures i < ENTRIES
  {
    virt / size % ENTRIES
  }

  // ---------------------------------------------------------------------------
  // The walk
  // ---------------------------------------------------------------------------

  /** custom_virt_to_phys_with_cr3; 0 when the address is not mapped */
  function Walk(t: Tables, virt: nat, cr3: nat): nat
    requires cr3 != 0 && virt != 0
  {
    var pml4e := t(Upper(cr3, SIZE_4K))[Index(virt, SIZE_512G)];
    if !Usable(pml4e) then 0
    else
      var pdpte := t(PhysAddr(pml4e))[Index(virt, SIZE_1G)];
      if !Usable(pdpte) then 0
      else if pdpte.ps then Or(Upper(PhysAddr(pdpte), SIZE_1G), Lower(virt, SIZE_1G))
      else
        var pde := t(PhysAddr(pdpte))[Index(virt, SIZE_2M)];
        if !Usable(pde) then 0
        else if pde.ps then Or(Upper(PhysAddr(pde), SIZE_2M), Lower(virt, SIZE_2M))
        else
          var pte := t(PhysAddr(pde))[Index(virt, SIZE_4K)];
          if !Usable(pte) then 0
          else Or(Upper(PhysAddr(pte), SIZE_4K), Lower(virt, SIZE_4K))
  }

  /** How an address is mapped: by a page of a size, at a physical address. */
  datatype Leaf = Unmapped | Page(size: nat, frame: nat)

  function LeafOf(t: Tables, virt: nat, cr3: nat): Leaf {
    var pml4e := t(Upper(cr3, SIZE_4K))[Index(virt, SIZE_512G)];
    if !Usable(pml4e) then Unmapped
    else
      var pdpte := t(PhysAddr(pml4e))[Index(virt, SIZE_1G)];
      if !Usable(pdpte) then Unmapped
      else if pdpte.ps then Page(SIZE_1G, Upper(PhysAddr(pdpte), SIZE_1G))
      else
        var pde := t(PhysAddr(pdpte))[Index(virt, SIZE_2M)];
        if !Usable(pde) then Unmapped
        else if pde.ps then Page(SIZE_2M, Upper(PhysAddr(pde), SIZE_2M))
        else
          var pte := t(PhysAddr(pde))[Index(virt, SIZE_4K)];
          if !Usable(pte) then Unmapped else Page(SIZE_4K, PhysAddr(pte))
  }

  /** Or-ing an offset into an aligned frame adds it. */
  lemma OrAdds(x: nat, virt: nat, size: nat, bits: nat)
    requires size == Pow2(bits)
    ensures Or(Upper(x, size), Lower(virt, size)) == Upper(x, size) + Lower(virt, size)
  {
    assert Upper(x, size) == (x / size) * size;
    OrDisjoint(x / size, Lower(virt, size), bits);
  }

  lemma PageOffsets(x: nat, virt: nat)
    ensures Or(Upper(x, SIZE_4K), Lower(virt, SIZE_4K)) == Upper(x, SIZE_4K) + virt % SIZE_4K
    ensures Or(Upper(x, SIZE_2M), Lower(virt, SIZE_2M)) == Upper(x, SIZE_2M) + virt % SIZE_2M
    ensures Or(Upper(x, SIZE_1G), Lower(virt, SIZE_1G)) == Upper(x, SIZE_1G) + virt % SIZE_1G
  {
    Pow2Values();
    assert Pow2(9) == 0x200;
    Pow2Add(12, 9);
    Pow2Add(21, 9);
    OrAdds(x, virt, SIZE_4K, 12);
    OrAdds(x, virt, SIZE_2M, 21);
    OrAdds(x, virt, SIZE_1G, 30);
  }

  lemma FrameIsAligned(e: Entry)
    ensures Upper(PhysAddr(e), SIZE_4K) == PhysAddr(e)
  {
  }

  /** The walk gives the frame of the mapping page plus the offset in it. */
  lemma {:induction false} WalkIsLeafPlusOffset(t: Tables, virt: nat, cr3: nat)
    requires cr3 != 0 && virt != 0
    ensures match LeafOf(t, virt, cr3)
            case Unmapped => Walk(t, virt, cr3) == 0
            case Page(size, frame) => size > 0 && Walk(t, virt, cr3) == frame + virt % size
  {
    var pml4e := t(Upper(cr3, SIZE_4K))[Index(virt, SIZE_512G)];
    var pdpte := t(PhysAddr(pml4e))[Index(virt, SIZE_1G)];
    var pde := t(PhysAddr(pdpte))[Index(virt, SIZE_2M)];
    var pte := t(PhysAddr(pde))[Index(virt, SIZE_4K)];
    PageOffsets(PhysAddr(pdpte), virt);
    PageOffsets(PhysAddr(pde), virt);
    PageOffsets(PhysAddr(pte), virt);
    FrameIsAligned(pte);
  }

  /** The four indices and the offset spell the low 48 bits of the address. */
  lemma IndicesSpellAddress(virt: nat)
    ensures virt % 0x1_0000_0000_0000 ==
            Index(virt, SIZE_512G) * 0x80_0000_0000 + Index(virt, SIZE_1G) * 0x4000_0000 +
            Index(virt, SIZE_2M) * 0x20_0000 + Index(virt, SIZE_4K) * 0x1000 + virt % 0x1000
  {
    assert virt / SIZE_2M == virt / SIZE_4K / 0x200;
    assert virt / SIZE_1G == virt / SIZE_2M / 0x200;
    assert virt / SIZE_512G == virt / SIZE_1G / 0x200;
  }

  /** The address that four indices and an offset spell, below bits that the walk
      ignores. */
  function AddressOf(high: nat, i4: nat, i3: nat, i2: nat, i1: nat, offset: nat): nat {
    high * 0x1_0000_0000_0000 + i4 * 0x80_0000_0000 + i3 * 0x4000_0000 + i2 * 0x20_0000 + i1 * 0x1000 + offset
  }

  lemma AddressHasIndices(high: nat, i4: nat, i3: nat, i2: nat, i1: nat, offset: nat)
    requires i4 < 512 && i3 < 512 && i2 < 512 && i1 < 512 && offset < 0x1000
    ensures var virt := AddressOf(high, i4, i3, i2, i1, offset);
            && Index(virt, SIZE_512G) == i4 && Index(virt, SIZE_1G) == i3
            && Index(virt, SIZE_2M) == i2 && Index(virt, SIZE_4K) == i1
            && virt % SIZE_4K == offset
            && virt % SIZE_2M == i1 * 0x1000 + offset
            && virt % SIZE_1G == i2 * 0x20_0000 + i1 * 0x1000 + offset
  {
    var virt := AddressOf(high, i4, i3, i2, i1, offset);
    var low := i1 * 0x1000 + offset;
    DivMod(virt, high * 0x10_0000_0000 + i4 * 0x800_0000 + i3 * 0x4_0000 + i2 * 0x200 + i1, offset, SIZE_4K);
    DivMod(virt, high * 0x800_0000 + i4 * 0x4_0000 + i3 * 0x200 + i2, low, SIZE_2M);
    DivMod(virt, high * 0x4_0000 + i4 * 0x200 + i3, i2 * 0x20_0000 + low, SIZE_1G);
    DivMod(virt, high * 0x200 + i4, i3 * 0x4000_0000 + i2 * 0x20_0000 + low, SIZE_512G);
    DivMod(virt / SIZE_4K, high * 0x800_0000 + i4 * 0x4_0000 + i3 * 0x200 + i2, i1, ENTRIES);
    DivMod(virt / SIZE_2M, high * 0x4_0000 + i4 * 0x200 + i3, i2, ENTRIES);
    DivMod(virt / SIZE_1G, high * 0x200 + i4, i3, ENTRIES);
    DivMod(virt / SIZE_512G, high, i4, ENTRIES);
  }

  /** The walk of the address that four indices spell reads the entries at these
      indices, and adds to the frame what the page size leaves of the address. */
  lemma {:induction false} WalkFollowsIndices(t: Tables, cr3: nat, high: nat, i4: nat, i3: nat, i2: nat, i1: nat,
                                                offset: nat)
    requires i4 < 512 && i3 < 512 && i2 < 512 && i1 < 512 && offset < 0x1000
    requires cr3 != 0 && AddressOf(high, i4, i3, i2, i1, offset) != 0
    ensures var pml4e := t(cr3 - cr3 % 0x1000)[i4];
            var pdpte := t(pml4e.page * 0x1000)[i3];
            var pde := t(pdpte.page * 0x1000)[i2];
            var pte := t(pde.page * 0x1000)[i1];
            Walk(t, AddressOf(high, i4, i3, i2, i1, offset), cr3) ==
            if !pml4e.present || pml4e.page == 0 || !pdpte.present || pdpte.page == 0 then 0
            else if pdpte.ps then pdpte.page / 0x4_0000 * 0x4000_0000 + i2 * 0x20_0000 + i1 * 0x1000 + offset
            else if !pde.present || pde.page == 0 then 0
            else if pde.ps then pde.page / 0x200 * 0x20_0000 + i1 * 0x1000 + offset
            else if !pte.present || pte.page == 0 then 0
            else pte.page * 0x1000 + offset
  {
    var virt := AddressOf(high, i4, i3, i2, i1, offset);
    AddressHasIndices(high, i4, i3, i2, i1, offset);
    WalkIsLeafPlusOffset(t, virt, cr3);
    var pml4e := t(cr3 - cr3 % 0x1000)[i4];
    var pdpte := t(pml4e.page * 0x1000)[i3];
    var pde := t(pdpte.page * 0x1000)[i2];
    LargeFrames(pdpte.page);
    LargeFrames(pde.page);
  }

  lemma LargeFrames(page: nat)
    ensures Upper(page * 0x1000, SIZE_1G) == page / 0x4_0000 * 0x4000_0000
    ensures Upper(page * 0x1000, SIZE_2M) == page / 0x200 * 0x20_0000
  {
  }

  lemma SameUpperIndices(a: nat, b: nat)
    ensures a / SIZE_4K == b / SIZE_4K ==> a / SIZE_2M == b / SIZE_2M
    ensures a / SIZE_2M == b / SIZE_2M ==> a / SIZE_1G == b / SIZE_1G
    ensures a / SIZE_1G == b / SIZE_1G ==> a / SIZE_512G == b / SIZE_512G
  {
    assert a / SIZE_2M == a / SIZE_4K / 0x200 && b / SIZE_2M == b / SIZE_4K / 0x200;
    assert a / SIZE_1G == a / SIZE_2M / 0x200 && b / SIZE_1G == b / SIZE_2M / 0x200;
    assert a / SIZE_512G == a / SIZE_1G / 0x200 && b / SIZE_512G == b / SIZE_1G / 0x200;
  }

  /** b lies in the page that maps a. */
  predicate InSamePage(leaf: Leaf, a: nat, b: nat) {
    leaf.Page? && leaf.size > 0 && a / leaf.size == b / leaf.size
  }

  lemma SamePageSameLeaf(t: Tables, a: nat, b: nat, cr3: nat)
    requires InSamePage(LeafOf(t, a, cr3), a, b)
    ensures LeafOf(t, b, cr3) == LeafOf(t, a, cr3)
  {
    SameUpperIndices(a, b);
  }

  /** Within one page of whatever size the walk is linear in the address. */
  lemma WalkIsLinear(t: Tables, a: nat, b: nat, cr3: nat)
    requires cr3 != 0 && a != 0 && b != 0
    requires InSamePage(LeafOf(t, a, cr3), a, b)
    ensures Walk(t, b, cr3) - Walk(t, a, cr3) == b - a
  {
    SamePageSameLeaf(t, a, b, cr3);
    WalkIsLeafPlusOffset(t, a, cr3);
    WalkIsLeafPlusOffset(t, b, cr3);
    var size := LeafOf(t, a, cr3).size;
    assert a == size * (a / size) + a % size && b == size * (b / size) + b % size;
  }

  // ---------------------------------------------------------------------------
  // The scan
  // ---------------------------------------------------------------------------

  /** The EPC range test, both ends included. */
  datatype Epc = Epc(base: nat, size: nat)

  predicate InEpc(e: Epc, frame: nat) {
    frame != 0 && e.base <= frame <= e.base + e.size
  }

  predicate SmallEpcPage(leaf: Leaf, e: Epc) {
    leaf.Page? && leaf.size == SIZE_4K && InEpc(e, leaf.frame)
  }

  /** The parts of a record, one after the other. */
  ghost function Flatten(parts: seq<seq<nat>>): seq<nat> {
    if parts == [] then [] else Flatten(parts[..|parts| - 1]) + parts[|parts| - 1]
  }

  lemma FlattenStep(parts: seq<seq<nat>>, i: nat)
    requires i < |parts|
    ensures Flatten(parts[..i + 1]) == Flatten(parts[..i]) + parts[i]
    ensures Flatten(parts[..i + 1]) != [] <==> Flatten(parts[..i]) != [] || parts[i] != []
  {
    assert parts[..i + 1][..i] == parts[..i];
  }

  lemma {:induction false} InFlatten(parts: seq<seq<nat>>, f: nat)
    ensures f in Flatten(parts) <==> exists k: nat :: k < |parts| && f in parts[k]
  {
    if parts != [] {
      var n := |parts| - 1;
      InFlatten(parts[..n], f);
      if f in Flatten(parts[..n]) {
        var k: nat :| k < |parts[..n]| && f in parts[..n][k];
        assert f in parts[k];
      }
      if k: nat :| k < n && f in parts[k] {
        assert f in parts[..n][k];
      }
    }
  }

  /** What one entry of a page table adds to the record. It need not be
      present. */
  function PteFrames(e: Epc, x: Entry): seq<nat> {
    if InEpc(e, PhysAddr(x)) then [PhysAddr(x)] else []
  }

  /** The frames the scan of (the first entries of) a page table records. */
  ghost function PtFrames(e: Epc, s: seq<Entry>): seq<nat> {
    Flatten(PteParts(e, s))
  }

  ghost function PteParts(e: Epc, s: seq<Entry>): seq<seq<nat>> {
    seq(|s|, k requires 0 <= k < |s| => PteFrames(e, s[k]))
  }

  predicate Descends(entry: Entry) { Usable(entry) && !entry.ps }

  /** The levels above: entries in use that map no large page lead on. */
  ghost function PdeFrames(t: Tables, e: Epc, x: Entry): seq<nat> {
    if Descends(x) then PtFrames(e, t(PhysAddr(x))) else []
  }

  ghost function PdFrames(t: Tables, e: Epc, s: seq<Entry>): seq<nat> {
    Flatten(PdeParts(t, e, s))
  }

  ghost function PdeParts(t: Tables, e: Epc, s: seq<Entry>): seq<seq<nat>> {
    seq(|s|, k requires 0 <= k < |s| => PdeFrames(t, e, s[k]))
  }

  ghost function PdpteFrames(t: Tables, e: Epc, x: Entry): seq<nat> {
    if Descends(x) then PdFrames(t, e, t(PhysAddr(x))) else []
  }

  ghost function PdptFrames(t: Tables, e: Epc, s: seq<Entry>): seq<nat> {
    Flatten(PdpteParts(t, e, s))
  }

  ghost function PdpteParts(t: Tables, e: Epc, s: seq<Entry>): seq<seq<nat>> {
    seq(|s|, k requires 0 <= k < |s| => PdpteFrames(t, e, s[k]))
  }

  ghost function Pml4eFrames(t: Tables, e: Epc, x: Entry): seq<nat> {
    if Usable(x) then PdptFrames(t, e, t(PhysAddr(x))) else []
  }

  ghost function Pml4Frames(t: Tables, e: Epc, s: seq<Entry>): seq<nat> {
    Flatten(Pml4eParts(t, e, s))
  }

  ghost function Pml4eParts(t: Tables, e: Epc, s: seq<Entry>): seq<seq<nat>> {
    seq(|s|, k requires 0 <= k < |s| => Pml4eFrames(t, e, s[k]))
  }

  lemma ConcatAssociates(a: seq<nat>, b: seq<nat>, c: seq<nat>)
    ensures (a + b) + c == a + (b + c)
  {
  }

  /** sgx_paddrs and modified_pages */
  class Scanner {
    const epc: Epc
    const paddrs: array<nat>
    var modifiedPages: nat
    /** Every frame recorded since the counter was last reset. */
    ghost var log: seq<nat>

    /** The array holds the log up to its capacity; the counter goes on. */
    ghost predicate Valid()
      reads this, paddrs
    {
      && paddrs.Length == SGX_PAGES && modifiedPages == |log|
      && forall k :: 0 <= k < |log| && k < SGX_PAGES ==> paddrs[k] == log[k]
    }

    constructor (epc: Epc)
      ensures Valid() && log == [] && this.epc == epc && fresh(paddrs)
    {
      this.epc := epc;
      paddrs := new nat[SGX_PAGES];
      modifiedPages := 0;
      log := [];
    }

    method Record(frame: nat)
      requires Valid()
      modifies this, paddrs
      ensures Valid() && log == old(log) + [frame]
    {
      if modifiedPages < SGX_PAGES {
        paddrs[modifiedPages] := frame;
      }
      modifiedPages := modifiedPages + 1;
      log := log + [frame];
    }

    /** The body of the loop in access_all_pt. */
    method AccessPte(entry: Entry) returns (hit: bool)
      requires Valid()
      modifies this, paddrs
      ensures Valid() && log == old(log) + PteFrames(epc, entry)
      ensures hit <==> PteFrames(epc, entry) != []
    {
      hit := false;
      if PhysAddr(entry) != 0 {
        if epc.base <= PhysAddr(entry) && PhysAddr(entry) <= epc.base + epc.size {
          Record(PhysAddr(entry));
          hit := true;
        }
      }
    }

    /** access_all_pt */
    method AccessAllPt(t: Tables, pde: Entry) returns (flag: bool)
      requires Valid()
      modifies this, paddrs
      ensures Valid() && log == old(log) + PtFrames(epc, t(PhysAddr(pde)))
      ensures flag <==> PtFrames(epc, t(PhysAddr(pde))) != []
    {
      flag := false;
      var table := t(PhysAddr(pde));
      ghost var parts := PteParts(epc, table);
      var i := 0;
      while i < ENTRIES
        invariant 0 <= i <= ENTRIES && Valid()
        invariant log == old(log) + Flatten(parts[..i])
        invariant flag <==> Flatten(parts[..i]) != []
      {
        ghost var before := log;
        var entry := table[i];
        var hit := AccessPte(entry);
        if hit {
          flag := true;
        }
        assert log == before + parts[i];
        FlattenStep(parts, i);
        ConcatAssociates(old(log), Flatten(parts[..i]), parts[i]);
        i := i + 1;
      }
      assert parts[..i] == parts;
    }

    /** access_all_pdt */
    method AccessAllPdt(t: Tables, pdpte: Entry)
      requires Valid()
      modifies this, paddrs
      ensures Valid() && log == old(log) + PdFrames(t, epc, t(PhysAddr(pdpte)))
    {
      var table := t(PhysAddr(pdpte));
      ghost var parts := PdeParts(t, epc, table);
      var i := 0;
      while i < ENTRIES
        invariant 0 <= i <= ENTRIES && Valid()
        invariant log == old(log) + Flatten(parts[..i])
      {
        ghost var before := log;
        var entry := table[i];
        if PhysAddr(entry) != 0 && entry.present {
          if !entry.ps {
            var flag := AccessAllPt(t, entry);
          }
        }
        assert log == before + parts[i];
        FlattenStep(parts, i);
        ConcatAssociates(old(log), Flatten(parts[..i]), parts[i]);
        i := i + 1;
      }
      assert parts[..i] == parts;
    }

    /** access_all_pdpt */
    method AccessAllPdpt(t: Tables, pml4e: Entry)
      requires Valid()
      modifies this, paddrs
      ensures Valid() && log == old(log) + PdptFrames(t, epc, t(PhysAddr(pml4e)))
    {
      var table := t(PhysAddr(pml4e));
      ghost var parts := PdpteParts(t, epc, table);
      var i := 0;
      while i < ENTRIES
        invariant 0 <= i <= ENTRIES && Valid()
        invariant log == old(log) + Flatten(parts[..i])
      {
        ghost var before := log;
        var entry := table[i];
        if PhysAddr(entry) != 0 && entry.present {
          if !entry.ps {
            AccessAllPdt(t, entry);
          }
        }
        assert log == before + parts[i];
        FlattenStep(parts, i);
        ConcatAssociates(old(log), Flatten(parts[..i]), parts[i]);
        i := i + 1;
      }
      assert parts[..i] == parts;
    }

    /** access_all_pml4 */
    method AccessAllPml4(t: Tables, cr3: nat)
      requires Valid() && cr3 != 0
      modifies this, paddrs
      ensures Valid() && log == old(log) + Pml4Frames(t, epc, t(Upper(cr3, SIZE_4K)))
    {
      var table := t(Upper(cr3, SIZE_4K));
      ghost var parts := Pml4eParts(t, epc, table);
      var i := 0;
      while i < ENTRIES
        invariant 0 <= i <= ENTRIES && Valid()
        invariant log == old(log) + Flatten(parts[..i])
      {
        ghost var before := log;
        var entry := table[i];
        if PhysAddr(entry) != 0 && entry.present {
          AccessAllPdpt(t, entry);
        }
        assert log == before + parts[i];
        FlattenStep(parts, i);
        ConcatAssociates(old(log), Flatten(parts[..i]), parts[i]);
        i := i + 1;
      }
      assert parts[..i] == parts;
    }
  }

  // ---------------------------------------------------------------------------
  // Scan against walk
  // ---------------------------------------------------------------------------

  lemma InPtFrames(e: Epc, s: seq<Entry>, f: nat)
    ensures f in PtFrames(e, s) <==> exists x :: x in s && f in PteFrames(e, x)
  {
    var parts := PteParts(e, s);
    InFlatten(parts, f);
    if k: nat :| k < |parts| && f in parts[k] {
      assert s[k] in s;
    }
    if x :| x in s && f in PteFrames(e, x) {
      var k :| 0 <= k < |s| && s[k] == x;
      assert parts[k] == PteFrames(e, x);
    }
  }

  lemma InPdFrames(t: Tables, e: Epc, s: seq<Entry>, f: nat)
    ensures f in PdFrames(t, e, s) <==> exists x :: x in s && f in PdeFrames(t, e, x)
  {
    var parts := PdeParts(t, e, s);
    InFlatten(parts, f);
    if k: nat :| k < |parts| && f in parts[k] {
      assert s[k] in s;
    }
    if x :| x in s && f in PdeFrames(t, e, x) {
      var k :| 0 <= k < |s| && s[k] == x;
      assert parts[k] == PdeFrames(t, e, x);
    }
  }

  lemma InPdptFrames(t: Tables, e: Epc, s: seq<Entry>, f: nat)
    ensures f in PdptFrames(t, e, s) <==> exists x :: x in s && f in PdpteFrames(t, e, x)
  {
    var parts := PdpteParts(t, e, s);
    InFlatten(parts, f);
    if k: nat :| k < |parts| && f in parts[k] {
      assert s[k] in s;
    }
    if x :| x in s && f in PdpteFrames(t, e, x) {
      var k :| 0 <= k < |s| && s[k] == x;
      assert parts[k] == PdpteFrames(t, e, x);
    }
  }

  lemma InPml4Frames(t: Tables, e: Epc, s: seq<Entry>, f: nat)
    ensures f in Pml4Frames(t, e, s) <==> exists x :: x in s && f in Pml4eFrames(t, e, x)
  {
    var parts := Pml4eParts(t, e, s);
    InFlatten(parts, f);
    if k: nat :| k < |parts| && f in parts[k] {
      assert s[k] in s;
    }
    if x :| x in s && f in Pml4eFrames(t, e, x) {
      var k :| 0 <= k < |s| && s[k] == x;
      assert parts[k] == Pml4eFrames(t, e, x);
    }
  }

  /** Four entries, each in the table the one before points to, lead to an EPC
      frame without a large page in between. */
  ghost predicate Path(t: Tables, e: Epc, root: seq<Entry>, pml4e: Entry, pdpte: Entry, pde: Entry, pte: Entry) {
    && pml4e in root && Usable(pml4e)
    && pdpte in t(PhysAddr(pml4e)) && Descends(pdpte)
    && pde in t(PhysAddr(pdpte)) && Descends(pde)
    && pte in t(PhysAddr(pde)) && InEpc(e, PhysAddr(pte))
  }

  /** The scan records exactly the frames that have such a path. */
  lemma PathIsRecorded(t: Tables, e: Epc, root: seq<Entry>, pml4e: Entry, pdpte: Entry, pde: Entry, pte: Entry)
    requires Path(t, e, root, pml4e, pdpte, pde, pte)
    ensures PhysAddr(pte) in Pml4Frames(t, e, root)
  {
    var f := PhysAddr(pte);
    InPtFrames(e, t(PhysAddr(pde)), f);
    InPdFrames(t, e, t(PhysAddr(pdpte)), f);
    InPdptFrames(t, e, t(PhysAddr(pml4e)), f);
    InPml4Frames(t, e, root, f);
  }

  lemma RecordedHasPath(t: Tables, e: Epc, root: seq<Entry>, f: nat)
    returns (pml4e: Entry, pdpte: Entry, pde: Entry, pte: Entry)
    requires f in Pml4Frames(t, e, root)
    ensures Path(t, e, root, pml4e, pdpte, pde, pte) && PhysAddr(pte) == f
  {
    InPml4Frames(t, e, root, f);
    pml4e :| pml4e in root && f in Pml4eFrames(t, e, pml4e);
    InPdptFrames(t, e, t(PhysAddr(pml4e)), f);
    pdpte :| pdpte in t(PhysAddr(pml4e)) && f in PdpteFrames(t, e, pdpte);
    InPdFrames(t, e, t(PhysAddr(pdpte)), f);
    pde :| pde in t(PhysAddr(pdpte)) && f in PdeFrames(t, e, pde);
    InPtFrames(e, t(PhysAddr(pde)), f);
    pte :| pte in t(PhysAddr(pde)) && f in PteFrames(e, pte);
  }

  /** The frame that the entries at four indices lead to, without a large page in
      between. */
  ghost predicate FrameAt(t: Tables, root: Table, i4: nat, i3: nat, i2: nat, i1: nat, f: nat) {
    && i4 < 512 && i3 < 512 && i2 < 512 && i1 < 512
    && var pml4e := root[i4];
       var pdpte := t(pml4e.page * 0x1000)[i3];
       var pde := t(pdpte.page * 0x1000)[i2];
       && pml4e.present && pml4e.page != 0
       && pdpte.present && pdpte.page != 0 && !pdpte.ps
       && pde.present && pde.page != 0 && !pde.ps
       && f == t(pde.page * 0x1000)[i1].page * 0x1000
  }

  /** Some four indices lead to the frame, and it lies in the EPC, both ends
      included. */
  ghost predicate EpcFrame(t: Tables, e: Epc, root: Table, f: nat) {
    && f != 0 && e.base <= f <= e.base + e.size
    && exists i4: nat, i3: nat, i2: nat, i1: nat :: FrameAt(t, root, i4, i3, i2, i1, f)
  }

  /** The scan records exactly these frames. */
  lemma {:induction false} RecordedIff(t: Tables, e: Epc, root: Table, f: nat)
    ensures f in Pml4Frames(t, e, root) <==> EpcFrame(t, e, root, f)
  {
    if f in Pml4Frames(t, e, root) {
      var pml4e, pdpte, pde, pte := RecordedHasPath(t, e, root, f);
      var i4: nat :| i4 < |root| && root[i4] == pml4e;
      var i3: nat :| i3 < ENTRIES && t(PhysAddr(pml4e))[i3] == pdpte;
      var i2: nat :| i2 < ENTRIES && t(PhysAddr(pdpte))[i2] == pde;
      var i1: nat :| i1 < ENTRIES && t(PhysAddr(pde))[i1] == pte;
      assert FrameAt(t, root, i4, i3, i2, i1, f);
    }
    if InEpc(e, f) && exists i4: nat, i3: nat, i2: nat, i1: nat :: FrameAt(t, root, i4, i3, i2, i1, f) {
      var i4: nat, i3: nat, i2: nat, i1: nat :| FrameAt(t, root, i4, i3, i2, i1, f);
      var pml4e := root[i4];
      var pdpte := t(PhysAddr(pml4e))[i3];
      var pde := t(PhysAddr(pdpte))[i2];
      PathIsRecorded(t, e, root, pml4e, pdpte, pde, t(PhysAddr(pde))[i1]);
    }
  }

  /** The entries on the way of the walk. */
  lemma LeafHasPath(t: Tables, e: Epc, virt: nat, cr3: nat)
    returns (pml4e: Entry, pdpte: Entry, pde: Entry, pte: Entry)
    requires SmallEpcPage(LeafOf(t, virt, cr3), e)
    ensures Path(t, e, t(Upper(cr3, SIZE_4K)), pml4e, pdpte, pde, pte)
    ensures PhysAddr(pte) == LeafOf(t, virt, cr3).frame
  {
    pml4e := t(Upper(cr3, SIZE_4K))[Index(virt, SIZE_512G)];
    pdpte := t(PhysAddr(pml4e))[Index(virt, SIZE_1G)];
    pde := t(PhysAddr(pdpte))[Index(virt, SIZE_2M)];
    pte := t(PhysAddr(pde))[Index(virt, SIZE_4K)];
  }

  /** Every EPC frame that the walk reaches through a 4 KiB page is recorded by
      the scan. */
  lemma {:induction false} ScanCoversWalk(t: Tables, e: Epc, virt: nat, cr3: nat)
    requires cr3 != 0 && virt != 0 && SmallEpcPage(LeafOf(t, virt, cr3), e)
    ensures Walk(t, virt, cr3) - virt % SIZE_4K in Pml4Frames(t, e, t(Upper(cr3, SIZE_4K)))
  {
    var pml4e, pdpte, pde, pte := LeafHasPath(t, e, virt, cr3);
    PathIsRecorded(t, e, t(Upper(cr3, SIZE_4K)), pml4e, pdpte, pde, pte);
    WalkIsLeafPlusOffset(t, virt, cr3);
  }

  /** The record of a scan: exactly the EPC frames, and so every one that a walk
      reaches through a 4 KiB page. */
  ghost predicate IsScan(t: Tables, e: Epc, cr3: nat, record: seq<nat>)
    requires cr3 != 0
  {
    && (forall f: nat :: f in record <==> EpcFrame(t, e, t(cr3 - cr3 % 0x1000), f))
    && forall virt: nat | virt != 0 && SmallEpcPage(LeafOf(t, virt, cr3), e) ::
         Walk(t, virt, cr3) - virt % SIZE_4K in record
  }

  lemma ScanFinds(t: Tables, e: Epc, cr3: nat, record: seq<nat>)
    requires cr3 != 0 && record == Pml4Frames(t, e, t(Upper(cr3, SIZE_4K)))
    ensures IsScan(t, e, cr3, record)
  {
    forall f: nat ensures f in record <==> EpcFrame(t, e, t(cr3 - cr3 % 0x1000), f) {
      RecordedIff(t, e, t(cr3 - cr3 % 0x1000), f);
    }
    forall virt: nat | virt != 0 && SmallEpcPage(LeafOf(t, virt, cr3), e)
      ensures Walk(t, virt, cr3) - virt % SIZE_4K in record
    {
      ScanCoversWalk(t, e, virt, cr3);
    }
  }

  /** Scanning from a reset counter: the array holds exactly the EPC frames, unless
      more were recorded than it holds. */
  method ScanAll(s: Scanner, t: Tables, cr3: nat)
    requires s.Valid() && s.log == [] && cr3 != 0
    modifies s, s.paddrs
    ensures s.Valid() && s.log == Pml4Frames(t, s.epc, t(Upper(cr3, SIZE_4K)))
    ensures s.modifiedPages <= SGX_PAGES ==> IsScan(t, s.epc, cr3, s.paddrs[..s.modifiedPages])
  {
    s.AccessAllPml4(t, cr3);
    assert [] + Pml4Frames(t, s.epc, t(Upper(cr3, SIZE_4K))) == Pml4Frames(t, s.epc, t(Upper(cr3, SIZE_4K)));
    if s.modifiedPages <= SGX_PAGES {
      assert s.paddrs[..s.modifiedPages] == s.log;
      ScanFinds(t, s.epc, cr3, s.paddrs[..s.modifiedPages]);
    }
  }
}
