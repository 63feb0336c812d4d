/** Relocation of the loaded files for x86-64. */
module ElfRelocation {
  import opened Bits
  import opened ElfHash
  import opened ElfSymbols

  /** System V AMD64 psABI, section 4.4.1 */
  const R_64: nat := 1
  const R_GLOB_DAT: nat := 6
  const R_JUMP_SLOT: nat := 7
  const R_RELATIVE: nat := 8

  datatype Sym = Sym(name: Name, value: nat, weak: bool)

  datatype Rela = Rela(offset: nat, sym: nat, kind: nat, addend: int)

  datatype HashTable = HashTable(bucket: seq<nat>, chain: seq<nat>)

  /** A file: what tells it from the others, where it will run, its
      symbols, its relocations, those of the dynamic table before those of the
      procedure linkage table, and its hash table if it has one. */
  datatype File = File(id: nat, execVirt: nat, startAddr: nat, symbols: seq<Sym>, relas: seq<Rela>,
                       hash: Option<HashTable>)

  // ---------------------------------------------------------------------------
  // Words in an image
  // ---------------------------------------------------------------------------

  /** Byte k of a word, least significant first. */
  function ByteOf(v: nat, k: nat): Byte {
    Shr(v, 8 * k) % 0x100
  }

  datatype Write = Write(at: nat, value: nat)

  predicate Touches(w: Write, j: nat) {
    w.at <= j < w.at + 8
  }

  function Stored(img: seq<Byte>, w: Write): (r: seq<Byte>)
    ensures |r| == |img|
  {
    seq(|img|, j requires 0 <= j < |img| => if Touches(w, j) then ByteOf(w.value, j - w.at) else img[j])
  }

  function StoredAll(img: seq<Byte>, ws: seq<Write>): (r: seq<Byte>)
    ensures |r| == |img|
    decreases |ws|
  {
    if ws == [] then img else StoredAll(Stored(img, ws[0]), ws[1..])
  }

  function Load(img: seq<Byte>, at: nat): nat
    requires at + 8 <= |img|
  {
    LoadBytes(img, at, at + 8)
  }

  /** The number whose bytes are those from at to end, least significant first. */
  function LoadBytes(img: seq<Byte>, at: nat, end: nat): nat
    requires at <= end <= |img|
    decreases end - at
  {
    if at == end then 0 else img[at] + 0x100 * LoadBytes(img, at + 1, end)
  }

  // ---------------------------------------------------------------------------
  // Values
  // ---------------------------------------------------------------------------

  function NamesOf(f: File): seq<Name> {
    seq(|f.symbols|, i requires 0 <= i < |f.symbols| => f.symbols[i].name)
  }

  function TableOf(f: File): SymbolTable {
    match f.hash
    case None => SymbolTable(NamesOf(f), [], [])
    case Some(h) => SymbolTable(NamesOf(f), h.bucket, h.chain)
  }

  /** Every chain of the hash table, where there is one, ends. */
  ghost predicate Searchable(f: File) {
    f.hash.Some? ==> Sized(TableOf(f)) && forall name: Name :: HasChain(f, name)
  }

  ghost predicate HasChain(f: File, name: Name)
    requires f.hash.Some?
  {
    exists list: seq<nat> :: Ends(TableOf(f), name, list)
  }

  ghost predicate AllSearchable(files: seq<File>) {
    forall i :: 0 <= i < |files| ==> Searchable(files[i])
  }

  /** In particular a well-formed table is searchable. */
  lemma WellFormedIsSearchable(f: File, chains: seq<seq<nat>>)
    requires f.hash.Some? && WellFormed(TableOf(f), chains)
    ensures Searchable(f)
  {
    forall name: Name ensures HasChain(f, name) {
      WellFormedServes(TableOf(f), chains, name);
    }
  }

  ghost function ChainOf(f: File, name: Name): (list: seq<nat>)
    requires Searchable(f)
    ensures f.hash.Some? ==> Ends(TableOf(f), name, list)
  {
    if f.hash.None? then []
    else
      assert HasChain(f, name);
      var list: seq<nat> :| Ends(TableOf(f), name, list);
      list
  }

  /** The symbol of a name in one file: by hash if it has a table, else the
      first. */
  ghost function Lookup(f: File, name: Name): (r: Option<nat>)
    requires Searchable(f)
    ensures r.Some? ==> r.value < |f.symbols| && f.symbols[r.value].name == name
  {
    if f.hash.Some? then ByHash(TableOf(f), name, ChainOf(f, name)) else FirstNamed(NamesOf(f), name)
  }

  ghost function DefinitionIn(f: File, name: Name): Definition
    requires Searchable(f)
  {
    match Lookup(f, name)
    case None => NoSymbol(f.id)
    case Some(k) => Symbol(f.id, f.execVirt, f.symbols[k].value, f.symbols[k].weak)
  }

  ghost function Definitions(files: seq<File>, name: Name): seq<Definition>
    requires AllSearchable(files)
  {
    seq(|files|, i requires 0 <= i < |files| => DefinitionIn(files[i], name))
  }

  /** What one file says about a name, found by hash or by scan. */
  method DefinitionOf(f: File, name: Name) returns (d: Definition)
    requires Searchable(f)
    ensures d == DefinitionIn(f, name)
  {
    var k := GetSymByName(TableOf(f), f.hash.Some?, name, ChainOf(f, name));
    if k.None? {
      return NoSymbol(f.id);
    }
    return Symbol(f.id, f.execVirt, f.symbols[k.value].value, f.symbols[k.value].weak);
  }

  /** private_get_sym_global: the loop over the files. */
  method GetSymGlobal(files: seq<File>, name: Name, ignore: Option<nat>) returns (r: Option<Definition>)
    requires AllSearchable(files)
    ensures r == Resolve(Definitions(files, name), ignore)
    ensures r.Some? ==> r.value.Symbol?
  {
    r := None;
    ghost var ds := Definitions(files, name);
    var i := 0;
    while i < |files|
      invariant 0 <= i <= |files|
      invariant ResolveFrom(ds[i..], ignore, r) == Resolve(ds, ignore)
      invariant r.Some? ==> r.value.Symbol?
    {
      ResolveStep(ds, i, ignore, r);
      if Some(files[i].id) == ignore {
        i := i + 1;
        continue;
      }
      var d := DefinitionOf(files[i], name);
      assert d == ds[i];
      if d.NoSymbol? || d.value == 0 {
        i := i + 1;
        continue;
      }
      r := Some(d);
      if d.weak {
        i := i + 1;
        continue;
      }
      return;
    }
    assert ds[i..] == [];
  }

  /** What private_relocate_symbol writes, if anything, and whether it reports an
      error; an unsupported type is reported after the symbol was written. */
  datatype Effect = Done(value: nat) | NotFound | Unsupported(value: nat)

  predicate HasSymbol(f: File, r: Rela) {
    r.kind == R_RELATIVE || r.sym < |f.symbols|
  }

  /** The file that the search for a symbol leaves out. */
  function Ignored(f: File, s: Sym): Option<nat> {
    if s.weak then None else Some(f.id)
  }

  /** The address S of the symbol: its own if it is strong and has a value, else
      the globally resolved one. */
  ghost function SymbolAddress(files: seq<File>, f: File, r: Rela): Option<nat>
    requires AllSearchable(files) && r.sym < |f.symbols|
  {
    var s := f.symbols[r.sym];
    if !s.weak && s.value != 0 then Some((f.execVirt + s.value) % WORD)
    else
      match Resolve(Definitions(files, s.name), Ignored(f, s))
      case None => None
      case Some(d) => if d.Symbol? then Some((d.base + d.value) % WORD) else None
  }

  ghost function EffectOf(files: seq<File>, f: File, r: Rela): Effect
    requires AllSearchable(files) && HasSymbol(f, r)
  {
    if r.kind == R_RELATIVE then Done((f.execVirt + r.addend) % WORD)
    else
      match SymbolAddress(files, f, r)
      case None => NotFound
      case Some(s) =>
        if r.kind == R_64 then Done((s + r.addend) % WORD)
        else if r.kind == R_GLOB_DAT || r.kind == R_JUMP_SLOT then Done(s)
        else Unsupported(s)
  }

  /** The relocations of a file lie in its image and name existing symbols. */
  predicate InImage(f: File, size: nat) {
    forall k :: 0 <= k < |f.relas| ==>
      && HasSymbol(f, f.relas[k])
      && f.startAddr <= f.relas[k].offset && f.relas[k].offset - f.startAddr + 8 <= size
  }

  /** The writes of a file up to the first error, and whether there was none. */
  ghost function WritesFrom(files: seq<File>, f: File, rs: seq<Rela>): (r: (seq<Write>, bool))
    requires AllSearchable(files)
    requires forall k :: 0 <= k < |rs| ==> HasSymbol(f, rs[k]) && f.startAddr <= rs[k].offset
    ensures r.1 ==> |r.0| == |rs|
    decreases |rs|
  {
    if rs == [] then ([], true)
    else
      var at := rs[0].offset - f.startAddr;
      match EffectOf(files, f, rs[0])
      case NotFound => ([], false)
      case Unsupported(s) => ([Write(at, s)], false)
      case Done(v) =>
        var (ws, ok) := WritesFrom(files, f, rs[1..]);
        ([Write(at, v)] + ws, ok)
  }

  // ---------------------------------------------------------------------------
  // Methods
  // ---------------------------------------------------------------------------

  /** *ptr = value */
  method Store(image: array<Byte>, at: nat, value: nat)
    requires at + 8 <= image.Length
    modifies image
    ensures image[..] == Stored(old(image[..]), Write(at, value))
  {
    var k := 0;
    while k < 8
      invariant 0 <= k <= 8
      invariant forall j :: 0 <= j < image.Length ==>
                  image[j] == if at <= j < at + k then ByteOf(value, j - at) else old(image[j])
    {
      image[at + k] := ByteOf(value, k);
      k := k + 1;
    }
  }

  /** What relocation r of file f makes of an image, and what it reports. */
  ghost predicate Relocates(files: seq<File>, f: File, r: Rela, was: seq<Byte>, now: seq<Byte>, ok: bool)
    requires AllSearchable(files) && HasSymbol(f, r) && f.startAddr <= r.offset
  {
    var at := r.offset - f.startAddr;
    match EffectOf(files, f, r)
    case Done(v) => ok && now == Stored(was, Write(at, v))
    case NotFound => !ok && now == was
    case Unsupported(s) => !ok && now == Stored(was, Write(at, s))
  }

  /** The first half of private_relocate_symbol: the symbol itself, or the one
      that the other files define. */
  method FindSymbol(files: seq<File>, f: File, r: Rela) returns (address: Option<nat>)
    requires AllSearchable(files) && r.sym < |f.symbols|
    ensures address == SymbolAddress(files, f, r)
  {
    var s := f.symbols[r.sym];
    if s.value != 0 && !s.weak {
      return Some((f.execVirt + s.value) % WORD);
    }
    var d := GetSymGlobal(files, s.name, Ignored(f, s));
    if d.None? {
      return None;
    }
    return Some((d.value.base + d.value.value) % WORD);
  }

  /** private_relocate_symbol */
  method RelocateSymbol(image: array<Byte>, files: seq<File>, f: File, r: Rela) returns (ok: bool)
    requires AllSearchable(files) && HasSymbol(f, r)
    requires f.startAddr <= r.offset && r.offset - f.startAddr + 8 <= image.Length
    modifies image
    ensures Relocates(files, f, r, old(image[..]), image[..], ok)
  {
    var at := r.offset - f.startAddr;
    if r.kind == R_RELATIVE {
      Store(image, at, (f.execVirt + r.addend) % WORD);
      return true;
    }
    var found := FindSymbol(files, f, r);
    if found.None? {
      return false;
    }
    Store(image, at, found.value);
    if r.kind == R_64 {
      ghost var mid := image[..];
      Store(image, at, (found.value + r.addend) % WORD);
      StoredTwice(old(image[..]), at, found.value, (found.value + r.addend) % WORD);
      return true;
    }
    return r.kind == R_GLOB_DAT || r.kind == R_JUMP_SLOT;
  }

  lemma StoredTwice(img: seq<Byte>, at: nat, a: nat, b: nat)
    ensures Stored(Stored(img, Write(at, a)), Write(at, b)) == Stored(img, Write(at, b))
  {
  }

  /** private_relocate_symbols */
  method RelocateSymbols(image: array<Byte>, files: seq<File>, f: File) returns (ok: bool)
    requires AllSearchable(files) && InImage(f, image.Length)
    modifies image
    ensures var (ws, done) := WritesFrom(files, f, f.relas);
            ok == done && image[..] == StoredAll(old(image[..]), ws)
  {
    var rs := f.relas;
    ghost var goal, done := StoredAll(image[..], WritesFrom(files, f, rs).0), WritesFrom(files, f, rs).1;
    var k := 0;
    assert rs[k..] == rs;
    while k < |rs|
      invariant 0 <= k <= |rs|
      invariant WritesFrom(files, f, rs[k..]).1 == done
      invariant StoredAll(image[..], WritesFrom(files, f, rs[k..]).0) == goal
    {
      ghost var before := image[..];
      ok := RelocateSymbol(image, files, f, rs[k]);
      RelocateStep(files, f, rs, k, before, image[..], ok);
      if !ok {
        return;
      }
      k := k + 1;
    }
    assert rs[k..] == [];
    return true;
  }

  /** One relocation takes its share of the writes still to be made. */
  lemma RelocateStep(files: seq<File>, f: File, rs: seq<Rela>, k: nat, was: seq<Byte>, now: seq<Byte>, ok: bool)
    requires AllSearchable(files) && k < |rs|
    requires forall k :: 0 <= k < |rs| ==> HasSymbol(f, rs[k]) && f.startAddr <= rs[k].offset
    requires Relocates(files, f, rs[k], was, now, ok)
    ensures var (ws, done) := WritesFrom(files, f, rs[k..]);
            var (rest, later) := WritesFrom(files, f, rs[k + 1..]);
            if ok then done == later && StoredAll(now, rest) == StoredAll(was, ws)
            else !done && now == StoredAll(was, ws)
  {
    var at := rs[k].offset - f.startAddr;
    assert rs[k..][0] == rs[k] && rs[k..][1..] == rs[k + 1..];
    match EffectOf(files, f, rs[k])
    case Done(v) =>
      var rest := WritesFrom(files, f, rs[k + 1..]).0;
      assert ([Write(at, v)] + rest)[1..] == rest;
    case NotFound =>
    case Unsupported(s) =>
      assert [Write(at, s)][1..] == [];
  }

  /** The ids stand for the addresses of the files. */
  predicate DistinctIds(files: seq<File>) {
    forall i, j :: 0 <= i < j < |files| ==> files[i].id != files[j].id
  }

  /** The images of the added files, one array each. */
  class Loader {
    const files: seq<File>
    const images: seq<array<Byte>>
    var relocated: bool

    ghost predicate Valid()
      reads this
    {
      && |files| == |images| && AllSearchable(files)
      && (forall i :: 0 <= i < |files| ==> InImage(files[i], images[i].Length))
      && (forall i, j :: 0 <= i < j < |images| ==> images[i] != images[j])
      && DistinctIds(files)
    }

    constructor (files: seq<File>, images: seq<array<Byte>>)
      requires |files| == |images| && AllSearchable(files)
      requires forall i :: 0 <= i < |files| ==> InImage(files[i], images[i].Length)
      requires (forall i, j :: 0 <= i < j < |images| ==> images[i] != images[j]) && DistinctIds(files)
      ensures Valid() && this.files == files && this.images == images && !relocated
    {
      this.files, this.images, relocated := files, images, false;
    }

    /** What relocating file i does to its image. */
    ghost function Target(i: nat): (seq<Write>, bool)
      requires Valid() && i < |files|
      reads this
    {
      WritesFrom(files, files[i], files[i].relas)
    }

    /** bfelf_loader_relocate: each image receives the writes of its own file, the
        files behind the first that fails are untouched, and a second call after
        success changes nothing. */
    method Relocate() returns (ok: bool)
      requires Valid()
      modifies this`relocated, set a | a in images
      ensures Valid()
      ensures old(relocated) ==> ok && relocated && forall i :: 0 <= i < |files| ==> images[i][..] == old(images[i][..])
      ensures !old(relocated) ==>
                && ok == relocated
                && (ok <==> forall i :: 0 <= i < |files| ==> Target(i).1)
                && forall i :: 0 <= i < |files| ==>
                     images[i][..] == if forall j :: 0 <= j < i ==> Target(j).1
                                      then StoredAll(old(images[i][..]), Target(i).0) else old(images[i][..])
    {
      if relocated {
        return true;
      }
      var i := 0;
      while i < |files|
        invariant 0 <= i <= |files| && !relocated
        invariant forall j :: 0 <= j < i ==> Target(j).1
        invariant forall j :: 0 <= j < i ==> images[j][..] == StoredAll(old(images[j][..]), Target(j).0)
        invariant forall j :: i <= j < |files| ==> images[j][..] == old(images[j][..])
      {
        assert forall j :: 0 <= j < |images| && j != i ==> images[j] != images[i];
        ok := RelocateSymbols(images[i], files, files[i]);
        assert images[i][..] == StoredAll(old(images[i][..]), Target(i).0);
        if !ok {
          return;
        }
        i := i + 1;
      }
      relocated := true;
      ok := true;
    }
  }

  // ---------------------------------------------------------------------------
  // What the writes add up to
  // ---------------------------------------------------------------------------

  /** The last write that touches byte j. */
  ghost function LastTouch(ws: seq<Write>, j: nat): Option<Write>
    decreases |ws|
  {
    if ws == [] then None
    else if Touches(ws[|ws| - 1], j) then Some(ws[|ws| - 1])
    else LastTouch(ws[..|ws| - 1], j)
  }

  lemma {:induction false} StoredAllSnoc(img: seq<Byte>, ws: seq<Write>)
    requires ws != []
    ensures StoredAll(img, ws) == Stored(StoredAll(img, ws[..|ws| - 1]), ws[|ws| - 1])
    decreases |ws|
  {
    var init := ws[..|ws| - 1];
    if |ws| == 1 {
      assert ws[1..] == [] && init == [];
    } else {
      assert ws[1..][..|ws| - 2] == init[1..];
      StoredAllSnoc(Stored(img, ws[0]), ws[1..]);
    }
  }

  /** Every byte of the image is the one of the last write that touches it, or
      what it was. */
  lemma {:induction false} LastWriteWins(img: seq<Byte>, ws: seq<Write>, j: nat)
    requires j < |img|
    ensures StoredAll(img, ws)[j] ==
            match LastTouch(ws, j)
            case None => img[j]
            case Some(w) => if Touches(w, j) then ByteOf(w.value, j - w.at) else img[j]
    decreases |ws|
  {
    if ws != [] {
      StoredAllSnoc(img, ws);
      LastWriteWins(img, ws[..|ws| - 1], j);
    }
  }

  /** Relocating again, whatever the overlaps between targets, changes nothing. */
  lemma RelocationIsIdempotent(img: seq<Byte>, ws: seq<Write>)
    ensures StoredAll(StoredAll(img, ws), ws) == StoredAll(img, ws)
  {
    var once := StoredAll(img, ws);
    forall j | 0 <= j < |img| ensures StoredAll(once, ws)[j] == once[j] {
      LastWriteWins(img, ws, j);
      LastWriteWins(once, ws, j);
    }
  }

  /** Bytes no target covers are unchanged. */
  lemma {:induction false} OthersUnchanged(img: seq<Byte>, ws: seq<Write>, j: nat)
    requires j < |img| && forall k :: 0 <= k < |ws| ==> !Touches(ws[k], j)
    ensures StoredAll(img, ws)[j] == img[j]
    decreases |ws|
  {
    if ws != [] {
      StoredAllSnoc(img, ws);
      OthersUnchanged(img, ws[..|ws| - 1], j);
    }
  }

  lemma Shr2(x: nat)
    ensures Shr(x, 2) == x / 4
  {
    assert Shr(x / 2 / 2, 0) == x / 2 / 2;
    assert Shr(x / 2, 1) == x / 2 / 2;
  }

  lemma Shr4(x: nat)
    ensures Shr(x, 4) == x / 0x10
  {
    Shr2(x);
    Shr2(x / 4);
    ShrAdd(x, 2, 2);
  }

  lemma ShrByte(v: nat, s: nat)
    ensures Shr(v, s + 8) == Shr(v, s) / 0x100
  {
    var x := Shr(v, s);
    ShrAdd(v, s, 8);
    ShrAdd(x, 4, 4);
    Shr4(x);
    Shr4(x / 0x10);
  }

  /** Reading the bytes of a word back, least significant first: those from
      place s = at - base on. */
  lemma {:induction false} LoadsBack(img: seq<Byte>, base: nat, at: nat, end: nat, v: nat)
    requires base <= at <= end <= |img|
    requires forall j :: at <= j < end ==> img[j] == ByteOf(v, j - base)
    requires Shr(v, 8 * (at - base)) < Pow2(8 * (end - at))
    ensures LoadBytes(img, at, end) == Shr(v, 8 * (at - base))
    decreases end - at
  {
    if at < end {
      var n := end - at;
      var s := 8 * (at - base);
      ShrByte(v, s);
      assert 8 * (at + 1 - base) == s + 8;
      assert Pow2(8 * n) == 0x100 * Pow2(8 * (n - 1)) by { Pow2Add(8, 8 * (n - 1)); assert Pow2(8) == 0x100; }
      LoadsBack(img, base, at + 1, end, v);
    }
  }

  /** Byte k of a word is its k-th digit to the base 256. */
  lemma ByteOfIsDigit(v: nat, k: nat)
    ensures ByteOf(v, k) == v / Pow2(8 * k) % 0x100
  {
    var low := ShrSplit(v, 8 * k);
    DivMod(v, Shr(v, 8 * k), low, Pow2(8 * k));
  }

  /** No later write shares a byte with write k. */
  ghost predicate Undisturbed(ws: seq<Write>, k: nat)
    requires k < |ws|
  {
    forall j :: k < j < |ws| ==> ws[k].at + 8 <= ws[j].at || ws[j].at + 8 <= ws[k].at
  }

  /** The word at a target that no later write disturbs is its relocation value. */
  lemma {:induction false} TargetHolds(img: seq<Byte>, ws: seq<Write>, k: nat)
    requires k < |ws| && Undisturbed(ws, k) && ws[k].at + 8 <= |img| && ws[k].value < WORD
    ensures Load(StoredAll(img, ws), ws[k].at) == ws[k].value
  {
    var r := StoredAll(img, ws);
    var at := ws[k].at;
    forall j | at <= j < at + 8 ensures r[j] == ByteOf(ws[k].value, j - at) {
      LastWriteWins(img, ws, j);
      LastToTouch(ws, k, j);
    }
    var bits := 64;
    Pow2InWord(bits);
    assert bits == 8 * 8 && 8 * (at - at) == 0;
    LoadsBack(r, at, at, at + 8, ws[k].value);
  }

  lemma {:induction false} LastToTouch(ws: seq<Write>, k: nat, j: nat)
    requires k < |ws| && Undisturbed(ws, k) && Touches(ws[k], j)
    ensures LastTouch(ws, j) == Some(ws[k])
    decreases |ws|
  {
    var n := |ws| - 1;
    if k < n {
      LastToTouch(ws[..n], k, j);
    }
  }

  /** After a successful run over a file, every target that no later relocation
      of the file overlaps holds S + A, S, or B + A as the psABI has it. */
  lemma {:induction false} FileTargetsHold(files: seq<File>, f: File, img: seq<Byte>, k: nat)
    requires AllSearchable(files) && InImage(f, |img|) && k < |f.relas|
    requires WritesFrom(files, f, f.relas).1 && LastOnTarget(f.relas, k)
    ensures var r := f.relas[k];
            var word := Load(StoredAll(img, WritesFrom(files, f, f.relas).0), r.offset - f.startAddr);
            if r.kind == R_RELATIVE then word == (f.execVirt + r.addend) % WORD
            else
              && SymbolAddress(files, f, r).Some?
              && word == (SymbolAddress(files, f, r).value + (if r.kind == R_64 then r.addend else 0)) % WORD
  {
    TargetReads(files, f, img, k);
    ValueOfEffect(files, f, f.relas[k]);
  }

  /** The symbol of a name that the look-up in a file finds has a value; strong
      or weak. */
  ghost predicate HasStrong(f: File, name: Name, ignore: Option<nat>)
    requires Searchable(f)
  {
    var j := Lookup(f, name);
    Some(f.id) != ignore && j.Some? && f.symbols[j.value].value != 0 && !f.symbols[j.value].weak
  }

  ghost predicate HasWeak(f: File, name: Name, ignore: Option<nat>)
    requires Searchable(f)
  {
    var j := Lookup(f, name);
    Some(f.id) != ignore && j.Some? && f.symbols[j.value].value != 0 && f.symbols[j.value].weak
  }

  /** File k is the first with a strong symbol of the name, or without any the
      last with a weak one, the ignored file left out. */
  ghost predicate ChosenFile(files: seq<File>, name: Name, ignore: Option<nat>, k: nat)
    requires AllSearchable(files)
  {
    && k < |files|
    && (|| (HasStrong(files[k], name, ignore) && forall i :: 0 <= i < k ==> !HasStrong(files[i], name, ignore))
        || (&& HasWeak(files[k], name, ignore)
            && (forall i :: 0 <= i < |files| ==> !HasStrong(files[i], name, ignore))
            && forall i :: k < i < |files| ==> !HasWeak(files[i], name, ignore)))
  }

  /** Relocation r of file i refers to symbol j of file k: to its own symbol if
      that is strong and has a value; else to that of the chosen file, its own
      left out unless the symbol is weak. */
  ghost predicate Refers(files: seq<File>, i: nat, r: Rela, k: nat, j: nat)
    requires AllSearchable(files) && i < |files| && r.sym < |files[i].symbols|
  {
    var s := files[i].symbols[r.sym];
    && k < |files| && j < |files[k].symbols|
    && files[k].symbols[j].name == s.name && files[k].symbols[j].value != 0
    && if !s.weak && s.value != 0 then k == i && j == r.sym
       else ChosenFile(files, s.name, if s.weak then None else Some(files[i].id), k)
            && Lookup(files[k], s.name) == Some(j)
  }

  /** The word that relocation r of file i has to leave: B + A, or the address of
      the symbol it refers to, in the file that defines it, plus A for R_64. */
  ghost predicate IsAddress(files: seq<File>, i: nat, r: Rela, word: nat)
    requires AllSearchable(files) && i < |files| && HasSymbol(files[i], r)
  {
    if r.kind == R_RELATIVE then word == (files[i].execVirt + r.addend) % WORD
    else
      exists k: nat, j: nat :: Refers(files, i, r, k, j) &&
        word == (files[k].execVirt + files[k].symbols[j].value + (if r.kind == R_64 then r.addend else 0)) % WORD
  }

  /** The image of file i holds it, for relocation n. */
  ghost predicate HoldsAddress(files: seq<File>, i: nat, n: nat, img: seq<Byte>)
    requires AllSearchable(files) && i < |files| && InImage(files[i], |img|) && n < |files[i].relas|
  {
    var r := files[i].relas[n];
    IsAddress(files, i, r, Load(img, r.offset - files[i].startAddr))
  }

  /** Resolution delivers the chosen file's symbol. */
  lemma ResolvedPlace(files: seq<File>, name: Name, ignore: Option<nat>) returns (k: nat, j: nat)
    requires AllSearchable(files) && Resolve(Definitions(files, name), ignore).Some?
    ensures ChosenFile(files, name, ignore, k) && Lookup(files[k], name) == Some(j) && j < |files[k].symbols|
    ensures files[k].symbols[j].name == name && files[k].symbols[j].value != 0
    ensures Resolve(Definitions(files, name), ignore).value ==
            Symbol(files[k].id, files[k].execVirt, files[k].symbols[j].value, files[k].symbols[j].weak)
  {
    var ds := Definitions(files, name);
    ResolveIsChoice(ds, ignore);
    var c :| IsChoice(ds, ignore, c) && Resolve(ds, ignore).value == ds[c];
    forall i | 0 <= i < |files|
      ensures Strong(ds[i], ignore) <==> HasStrong(files[i], name, ignore)
      ensures Weak(ds[i], ignore) <==> HasWeak(files[i], name, ignore)
    {
      assert ds[i] == DefinitionIn(files[i], name);
    }
    k := c;
    assert ds[k] == DefinitionIn(files[k], name);
    j := Lookup(files[k], name).value;
  }

  lemma AddressOfReferred(files: seq<File>, i: nat, r: Rela) returns (k: nat, j: nat)
    requires AllSearchable(files) && i < |files| && r.sym < |files[i].symbols|
    requires SymbolAddress(files, files[i], r).Some?
    ensures Refers(files, i, r, k, j)
    ensures SymbolAddress(files, files[i], r).value == (files[k].execVirt + files[k].symbols[j].value) % WORD
  {
    var s := files[i].symbols[r.sym];
    if !s.weak && s.value != 0 {
      k, j := i, r.sym;
    } else {
      k, j := ResolvedPlace(files, s.name, Ignored(files[i], s));
    }
  }

  /** A symbol is found iff the relocation refers to one. */
  lemma FoundIffRefers(files: seq<File>, i: nat, r: Rela)
    requires AllSearchable(files) && i < |files| && r.sym < |files[i].symbols|
    ensures SymbolAddress(files, files[i], r).Some? <==> exists k: nat, j: nat :: Refers(files, i, r, k, j)
  {
    if SymbolAddress(files, files[i], r).Some? {
      var k, j := AddressOfReferred(files, i, r);
    } else {
      var s := files[i].symbols[r.sym];
      var ds := Definitions(files, s.name);
      ResolveIsChoice(ds, Ignored(files[i], s));
      forall k | 0 <= k < |files|
        ensures !Counts(ds[k], Ignored(files[i], s)) && ds[k] == DefinitionIn(files[k], s.name)
      {
      }
    }
  }

  lemma WrapsOnce(a: int, b: int)
    ensures (a % WORD + b) % WORD == (a + b) % WORD
  {
  }

  lemma SymbolAddressIs(files: seq<File>, i: nat, r: Rela, word: nat)
    requires AllSearchable(files) && i < |files| && r.sym < |files[i].symbols| && r.kind != R_RELATIVE
    requires SymbolAddress(files, files[i], r).Some?
    requires word == (SymbolAddress(files, files[i], r).value + (if r.kind == R_64 then r.addend else 0)) % WORD
    ensures IsAddress(files, i, r, word)
  {
    var k, j := AddressOfReferred(files, i, r);
    WrapsOnce(files[k].execVirt + files[k].symbols[j].value, if r.kind == R_64 then r.addend else 0);
  }

  /** After a successful run over file i every target that no later relocation
      of the file overlaps holds the address meant. */
  lemma TargetsHoldAddresses(files: seq<File>, i: nat, img: seq<Byte>, n: nat)
    requires AllSearchable(files) && i < |files| && InImage(files[i], |img|) && n < |files[i].relas|
    requires WritesFrom(files, files[i], files[i].relas).1 && LastOnTarget(files[i].relas, n)
    ensures HoldsAddress(files, i, n, StoredAll(img, WritesFrom(files, files[i], files[i].relas).0))
  {
    TargetReads(files, files[i], img, n);
    EffectIsAddress(files, i, files[i].relas[n]);
  }

  lemma EffectIsAddress(files: seq<File>, i: nat, r: Rela)
    requires AllSearchable(files) && i < |files| && HasSymbol(files[i], r) && EffectOf(files, files[i], r).Done?
    ensures IsAddress(files, i, r, EffectOf(files, files[i], r).value)
  {
    ValueOfEffect(files, files[i], r);
    if r.kind != R_RELATIVE {
      SymbolAddressIs(files, i, r, EffectOf(files, files[i], r).value);
    }
  }

  /** All such targets of file i hold the address meant. */
  ghost predicate AllHold(files: seq<File>, i: nat, img: seq<Byte>)
    requires AllSearchable(files) && i < |files| && InImage(files[i], |img|)
  {
    forall n: nat :: n < |files[i].relas| && LastOnTarget(files[i].relas, n) ==> HoldsAddress(files, i, n, img)
  }

  lemma WritesMakeAllHold(files: seq<File>, i: nat, img: seq<Byte>)
    requires AllSearchable(files) && i < |files| && InImage(files[i], |img|)
    requires WritesFrom(files, files[i], files[i].relas).1
    ensures AllHold(files, i, StoredAll(img, WritesFrom(files, files[i], files[i].relas).0))
  {
    forall n: nat | n < |files[i].relas| && LastOnTarget(files[i].relas, n)
      ensures HoldsAddress(files, i, n, StoredAll(img, WritesFrom(files, files[i], files[i].relas).0))
    {
      TargetsHoldAddresses(files, i, img, n);
    }
  }

  /** Relocating the loaded files: on success every target, in every image, that
      no later relocation of its file overlaps holds the address meant. */
  method RelocateFiles(l: Loader) returns (ok: bool)
    requires l.Valid() && !l.relocated
    modifies l`relocated, set a | a in l.images
    ensures l.Valid() && ok == l.relocated
    ensures ok ==> forall i :: 0 <= i < |l.files| ==> AllHold(l.files, i, l.images[i][..])
  {
    ok := l.Relocate();
    if ok {
      forall i | 0 <= i < |l.files| ensures AllHold(l.files, i, l.images[i][..]) {
        assert l.Target(i).1;
        WritesMakeAllHold(l.files, i, old(l.images[i][..]));
      }
    }
  }

  /** No later relocation of rs overlaps the target of relocation k. */
  ghost predicate LastOnTarget(rs: seq<Rela>, k: nat)
    requires k < |rs|
  {
    forall j :: k < j < |rs| ==> rs[k].offset + 8 <= rs[j].offset || rs[j].offset + 8 <= rs[k].offset
  }

  lemma LastIsUndisturbed(files: seq<File>, f: File, rs: seq<Rela>, k: nat)
    requires AllSearchable(files) && k < |rs| && LastOnTarget(rs, k)
    requires forall k :: 0 <= k < |rs| ==> HasSymbol(f, rs[k]) && f.startAddr <= rs[k].offset
    requires WritesFrom(files, f, rs).1
    ensures Undisturbed(WritesFrom(files, f, rs).0, k)
  {
    var ws := WritesFrom(files, f, rs).0;
    WriteOfRela(files, f, rs, k);
    forall j | k < j < |ws| ensures ws[k].at + 8 <= ws[j].at || ws[j].at + 8 <= ws[k].at {
      WriteOfRela(files, f, rs, j);
    }
  }

  lemma TargetReads(files: seq<File>, f: File, img: seq<Byte>, k: nat)
    requires AllSearchable(files) && InImage(f, |img|) && k < |f.relas|
    requires WritesFrom(files, f, f.relas).1 && LastOnTarget(f.relas, k)
    ensures var r := f.relas[k];
            && EffectOf(files, f, r).Done?
            && Load(StoredAll(img, WritesFrom(files, f, f.relas).0), r.offset - f.startAddr) ==
               EffectOf(files, f, r).value
  {
    var rs := f.relas;
    LastIsUndisturbed(files, f, rs, k);
    WriteOfRela(files, f, rs, k);
    TargetHolds(img, WritesFrom(files, f, rs).0, k);
  }

  lemma ValueOfEffect(files: seq<File>, f: File, r: Rela)
    requires AllSearchable(files) && HasSymbol(f, r) && EffectOf(files, f, r).Done?
    ensures var v := EffectOf(files, f, r).value;
            if r.kind == R_RELATIVE then v == (f.execVirt + r.addend) % WORD
            else
              && SymbolAddress(files, f, r).Some?
              && v == (SymbolAddress(files, f, r).value + (if r.kind == R_64 then r.addend else 0)) % WORD
  {
  }

  lemma {:induction false} WriteOfRela(files: seq<File>, f: File, rs: seq<Rela>, k: nat)
    requires AllSearchable(files) && k < |rs|
    requires forall k :: 0 <= k < |rs| ==> HasSymbol(f, rs[k]) && f.startAddr <= rs[k].offset
    requires WritesFrom(files, f, rs).1
    ensures EffectOf(files, f, rs[k]).Done?
    ensures WritesFrom(files, f, rs).0[k] == Write(rs[k].offset - f.startAddr, EffectOf(files, f, rs[k]).value)
    ensures EffectOf(files, f, rs[k]).value < WORD
    decreases |rs|
  {
    if k > 0 {
      WriteOfRela(files, f, rs[1..], k - 1);
    }
  }

  // ---------------------------------------------------------------------------
  // Order of the files
  // ---------------------------------------------------------------------------

  lemma SearchableReordered(files: seq<File>, files': seq<File>)
    requires AllSearchable(files) && multiset(files') == multiset(files)
    ensures AllSearchable(files')
  {
    forall i | 0 <= i < |files'| ensures Searchable(files'[i]) {
      assert files'[i] in multiset(files');
      assert files'[i] in files;
    }
  }

  /** Reordering the files reorders what they say about a name. */
  lemma DefinitionsReordered(files: seq<File>, files': seq<File>, name: Name)
    requires AllSearchable(files) && AllSearchable(files') && multiset(files') == multiset(files)
    ensures multiset(Definitions(files', name)) == multiset(Definitions(files, name))
  {
    var says := (f: File) => if Searchable(f) then DefinitionIn(f, name) else NoSymbol(f.id);
    MappedReordered(says, files, files');
    assert Definitions(files, name) == Mapped(says, files);
    assert Definitions(files', name) == Mapped(says, files');
  }

  /** What a relocation of f refers to is unambiguous. */
  ghost predicate ClearSymbol(files: seq<File>, f: File, r: Rela)
    requires AllSearchable(files) && HasSymbol(f, r)
  {
    r.kind != R_RELATIVE ==>
      var s := f.symbols[r.sym];
      Unambiguous(Definitions(files, s.name), Ignored(f, s))
  }

  /** What the relocations of f refer to is unambiguous. */
  ghost predicate ClearSymbols(files: seq<File>, f: File, rs: seq<Rela>)
    requires AllSearchable(files) && forall k :: 0 <= k < |rs| ==> HasSymbol(f, rs[k])
  {
    forall k :: 0 <= k < |rs| ==> ClearSymbol(files, f, rs[k])
  }

  lemma ShuffleKeepsResolution(files: seq<File>, files': seq<File>, name: Name, ignore: Option<nat>)
    requires AllSearchable(files) && AllSearchable(files') && multiset(files') == multiset(files)
    requires Unambiguous(Definitions(files, name), ignore)
    ensures Resolve(Definitions(files', name), ignore) == Resolve(Definitions(files, name), ignore)
  {
    DefinitionsReordered(files, files', name);
    UnambiguousIsOrderFree(Definitions(files, name), Definitions(files', name), ignore);
  }

  lemma ShuffleKeepsEffect(files: seq<File>, files': seq<File>, f: File, r: Rela)
    requires AllSearchable(files) && AllSearchable(files') && multiset(files') == multiset(files)
    requires HasSymbol(f, r) && ClearSymbol(files, f, r)
    ensures EffectOf(files', f, r) == EffectOf(files, f, r)
  {
    if r.kind != R_RELATIVE {
      var s := f.symbols[r.sym];
      ShuffleKeepsResolution(files, files', s.name, Ignored(f, s));
    }
  }

  /** Whatever the order of the files, relocating a file that refers to
      unambiguous symbols makes the same writes, with the same outcome. */
  lemma {:induction false} ShuffleKeepsWrites(files: seq<File>, files': seq<File>, f: File, rs: seq<Rela>)
    requires AllSearchable(files) && AllSearchable(files') && multiset(files') == multiset(files)
    requires forall k :: 0 <= k < |rs| ==> HasSymbol(f, rs[k]) && f.startAddr <= rs[k].offset
    requires ClearSymbols(files, f, rs)
    ensures WritesFrom(files', f, rs) == WritesFrom(files, f, rs)
    decreases |rs|
  {
    if rs != [] {
      ShuffleKeepsEffect(files, files', f, rs[0]);
      var rest := rs[1..];
      assert forall k :: 0 <= k < |rest| ==> rest[k] == rs[k + 1];
      ShuffleKeepsWrites(files, files', f, rest);
    }
  }

  /** The loader resolves the name alike in every order of the files. */
  ghost predicate ResolvesAlike(files: seq<File>, name: Name, ignore: Option<nat>)
    requires AllSearchable(files)
  {
    forall files': seq<File> :: AllSearchable(files') && multiset(files') == multiset(files) ==>
      Resolve(Definitions(files', name), ignore) == Resolve(Definitions(files, name), ignore)
  }

  lemma MovedDefinitions(files: seq<File>, name: Name, i: nat, front: bool)
    requires AllSearchable(files) && i < |files|
    ensures var files' := Moved(files, i, front);
            && AllSearchable(files') && multiset(files') == multiset(files)
            && Definitions(files', name) == Moved(Definitions(files, name), i, front)
  {
    var files' := Moved(files, i, front);
    MovedIsReordered(files, i, front);
    SearchableReordered(files, files');
    var ds, ds', es := Definitions(files, name), Definitions(files', name), Moved(Definitions(files, name), i, front);
    forall k | 0 <= k < |files'| ensures ds'[k] == es[k] {
      MovedAt(files, i, front, k);
      MovedAt(ds, i, front, k);
    }
  }

  /** It does so iff what the files say about the name is unambiguous. */
  lemma ResolvesAlikeIffUnambiguous(files: seq<File>, name: Name, ignore: Option<nat>)
    requires AllSearchable(files)
    ensures ResolvesAlike(files, name, ignore) <==> Unambiguous(Definitions(files, name), ignore)
  {
    var ds := Definitions(files, name);
    if Unambiguous(ds, ignore) {
      forall files': seq<File> | AllSearchable(files') && multiset(files') == multiset(files)
        ensures Resolve(Definitions(files', name), ignore) == Resolve(ds, ignore)
      {
        ShuffleKeepsResolution(files, files', name, ignore);
      }
    } else {
      var i, j, front := AmbiguousDepends(ds, ignore);
      MovedDefinitions(files, name, i, front);
      MovedDefinitions(files, name, j, front);
    }
  }
}
