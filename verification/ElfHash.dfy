/** The symbol hash of the ELF loader, computed in 64-bit words, against the
    32-bit function of the System V gABI, chapter 5, Hash Table. */
module ElfHash {

  /** A character of a name: a byte other than the terminating 0. */
  type Char = c: bv64 | 0 < c < 0x100 witness 1

  type Name = seq<Char>

  /** One round of private_hash: a char is signed, so bytes from 0x80 on are
      subtracted. */
  function Round(h: bv64, c: Char): bv64 {
    Fold64(if c < 0x80 then (h << 4) + c else (h << 4) - c)
  }

  /** Bits 28-31 are folded into bits 4-7 and cleared; folding in zeros changes
      nothing, so the source's test for that case is not needed here. */
  function Fold64(sum: bv64): bv64 {
    (sum ^ ((sum & 0xf000_0000) >> 24)) & 0x0fff_ffff
  }

  function HashFrom(h: bv64, name: Name): bv64
    decreases |name|
  {
    if name == [] then h else HashFrom(Round(h, name[0]), name[1..])
  }

  function Hash(name: Name): bv64 { HashFrom(0, name) }

  /** The body of the loop of private_hash. */
  method HashRound(h: bv64, c: Char) returns (r: bv64)
    ensures r == Round(h, c)
  {
    if c < 0x80 {
      r := (h << 4) + c;
    } else {
      r := (h << 4) - c;
    }
    var g := r & 0xf000_0000;
    if g != 0 {
      r := r ^ (g >> 24);
    }
    r := r & 0x0fff_ffff;
  }

  method PrivateHash(name: Name) returns (h: bv64)
    ensures h == Hash(name)
  {
    h := 0;
    var i := 0;
    while i < |name|
      invariant 0 <= i <= |name|
      invariant HashFrom(h, name[i..]) == Hash(name)
    {
      assert name[i..][0] == name[i] && name[i..][1..] == name[i + 1..];
      var c := name[i];
      h := HashRound(h, c);
      i := i + 1;
    }
    assert name[i..] == [];
  }

  /** One round of the standard function, on 32-bit words. */
  function StandardRound(h: bv64, c: Char): bv64 {
    Fold32(((h << 4) + c) & 0xffff_ffff)
  }

  function Fold32(sum: bv64): bv64 {
    (sum ^ ((sum & 0xf000_0000) >> 24)) & !(sum & 0xf000_0000)
  }

  /** Folding a 64-bit sum is folding its low 32 bits. */
  lemma FoldsAgree(sum: bv64)
    ensures Fold64(sum) == Fold32(sum & 0xffff_ffff)
  {
  }

  function StandardFrom(h: bv64, name: Name): bv64
    decreases |name|
  {
    if name == [] then h else StandardFrom(StandardRound(h, name[0]), name[1..])
  }

  predicate SevenBit(name: Name) {
    forall i :: 0 <= i < |name| ==> name[i] < 0x80
  }

  lemma RoundIsStandard(h: bv64, c: Char)
    requires c < 0x80
    ensures Round(h, c) == StandardRound(h, c)
  {
    FoldsAgree((h << 4) + c);
  }

  lemma RoundIsNotStandard(h: bv64, c: Char)
    requires h <= 0x0fff_ffff && 0x80 <= c
    ensures Round(h, c) != StandardRound(h, c)
  {
  }

  lemma RoundIsBounded(h: bv64, c: Char)
    ensures Round(h, c) <= 0x0fff_ffff
  {
  }

  /** The rounds agree on exactly the characters below 0x80. */
  lemma RoundsAgreeIff7Bit(h: bv64, c: Char)
    requires h <= 0x0fff_ffff
    ensures Round(h, c) == StandardRound(h, c) <==> c < 0x80
  {
    if c < 0x80 { RoundIsStandard(h, c); } else { RoundIsNotStandard(h, c); }
  }

  lemma {:induction false} HashIsStandardFrom(h: bv64, name: Name)
    requires h <= 0x0fff_ffff && SevenBit(name)
    ensures HashFrom(h, name) == StandardFrom(h, name)
    decreases |name|
  {
    if name != [] {
      RoundIsStandard(h, name[0]);
      RoundIsBounded(h, name[0]);
      HashIsStandardFrom(Round(h, name[0]), name[1..]);
    }
  }

  /** For every 7-bit name the loader's hash is the standard one. */
  lemma HashIsStandard(name: Name)
    requires SevenBit(name)
    ensures Hash(name) == StandardFrom(0, name)
  {
    HashIsStandardFrom(0, name);
  }

  /** Two hash states that are known to differ above their low four bits. */
  predicate Differ(a: bv64, b: bv64) {
    a <= 0x0fff_ffff && b <= 0x0fff_ffff && a != b && a & 0xf == b & 0xf
  }

  /** A high character and the 7-bit character behind it drive the two functions
      apart. */
  lemma HighDrivesApart(h: bv64, c: Char, d: Char)
    requires h <= 0x0fff_ffff && 0x80 <= c && d < 0x80
    ensures Differ(Round(Round(h, c), d), StandardRound(StandardRound(h, c), d))
  {
  }

  /** Further 7-bit characters do not bring them together again. */
  lemma LowKeepsApart(a: bv64, b: bv64, c: Char)
    requires Differ(a, b) && c < 0x80
    ensures Differ(Round(a, c), StandardRound(b, c))
  {
  }

  lemma {:induction false} StayApart(a: bv64, b: bv64, name: Name)
    requires Differ(a, b) && SevenBit(name)
    ensures HashFrom(a, name) != StandardFrom(b, name)
    decreases |name|
  {
    if name != [] {
      LowKeepsApart(a, b, name[0]);
      StayApart(Round(a, name[0]), StandardRound(b, name[0]), name[1..]);
    }
  }

  /** A single high character, wherever it stands, changes the hash. */
  lemma {:induction false} HighCharacterDiffers(h: bv64, name: Name, k: nat)
    requires h <= 0x0fff_ffff && k < |name| && 0x80 <= name[k]
    requires forall i :: 0 <= i < |name| && i != k ==> name[i] < 0x80
    ensures HashFrom(h, name) != StandardFrom(h, name)
    decreases k
  {
    if k > 0 {
      RoundIsStandard(h, name[0]);
      RoundIsBounded(h, name[0]);
      HighCharacterDiffers(Round(h, name[0]), name[1..], k - 1);
    } else if |name| == 1 {
      RoundIsNotStandard(h, name[0]);
    } else {
      HighDrivesApart(h, name[0], name[1]);
      var rest := name[1..];
      assert rest[0] == name[1] && rest[1..] == name[2..];
      StayApart(Round(Round(h, name[0]), name[1]), StandardRound(StandardRound(h, name[0]), name[1]), name[2..]);
    }
  }

  /** A name with at most one high character hashes to the standard value iff it
      has none. */
  lemma StandardIff7Bit(name: Name)
    requires forall i, j :: 0 <= i < j < |name| ==> name[i] < 0x80 || name[j] < 0x80
    ensures Hash(name) == StandardFrom(0, name) <==> SevenBit(name)
  {
    if SevenBit(name) {
      HashIsStandard(name);
    } else {
      var k :| 0 <= k < |name| && 0x80 <= name[k];
      HighCharacterDiffers(0, name, k);
    }
  }

  /** With several high characters the differences can cancel. */
  lemma HighCharactersCanCancel()
    ensures var name: Name := [0x91, 0xa1, 0x95, 0x93, 0x93, 0xc8];
            !SevenBit(name) && Hash(name) == StandardFrom(0, name) == 0x09ba_ecf8
  {
    var name: Name := [0x91, 0xa1, 0x95, 0x93, 0x93, 0xc8];
    assert name[0] == 0x91;
    assert name[1..] == [0xa1, 0x95, 0x93, 0x93, 0xc8] && name[1..][1..] == [0x95, 0x93, 0x93, 0xc8];
  }

  /** For every name at all the hash is below 2^28. */
  lemma {:induction false} HashIsBounded(h: bv64, name: Name)
    requires h <= 0x0fff_ffff
    ensures HashFrom(h, name) <= 0x0fff_ffff
    decreases |name|
  {
    if name != [] {
      RoundIsBounded(h, name[0]);
      HashIsBounded(Round(h, name[0]), name[1..]);
    }
  }
}
