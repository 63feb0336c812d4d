/** What the call frame instructions mean: an assembler for section 7.23 of
    DWARF 4, and for every instruction what the interpreter of its bytes does to
    the location, the CFA and the value of each register. */
module CfiMeaning {
  import opened Bits
  import opened Leb128
  import opened Cfi
  import opened Unwind

  /** The instructions as an assembler names them; n is an unsigned operand, z a
      signed one. */
  datatype Directive =
    | NoOperation
    | AdvanceLoc(delta: nat) | AdvanceLoc1(delta: nat) | AdvanceLoc2(delta: nat) | AdvanceLoc4(delta: nat)
    | SetLoc(target: nat, pointer: seq<Byte>)
    | DefineCfa(reg: nat, n: nat) | DefineCfaSf(reg: nat, z: int)
    | DefineCfaRegister(reg: nat) | DefineCfaOffset(n: nat) | DefineCfaOffsetSf(z: int)
    | DefineCfaExpression(block: seq<Byte>)
    | Offset(reg: nat, n: nat) | OffsetExtended(reg: nat, n: nat) | OffsetExtendedSf(reg: nat, z: int)
    | NegativeOffsetExtended(reg: nat, n: nat)
    | ValOffset(reg: nat, n: nat) | ValOffsetSf(reg: nat, z: int)
    | ExpressionOf(reg: nat, block: seq<Byte>) | ValExpressionOf(reg: nat, block: seq<Byte>)
    | Undefine(reg: nat) | KeepValue(reg: nat) | InRegister(reg: nat, other: nat)
    | Restore(reg: nat) | RestoreExtended(reg: nat)
    | Remember | Recall
    | GnuArgsSize(n: nat)

  // ---------------------------------------------------------------------------
  // The assembler
  // ---------------------------------------------------------------------------

  function Block(block: seq<Byte>): seq<Byte> {
    EncodeUnsigned(|block|) + block
  }

  /** A pointer is absolute or relative to its own address, in one of nine
      formats. */
  function Distance(form: nat, at: nat, target: nat): int {
    if form == 1 then target - at else target
  }

  function EncodePointer(form: nat, format: nat, at: nat, target: nat): seq<Byte> {
    var d := Distance(form, at, target);
    if format == 0x01 then EncodeUnsigned(d % WORD)
    else if format == 0x09 then EncodeSigned(d)
    else LittleEndian(Digits(d, format), Width(format))
  }

  /** The width of a format and the number its bytes hold. */
  function Width(format: nat): nat {
    if format == 0x02 || format == 0x0A then 2 else if format == 0x03 || format == 0x0B then 4 else 8
  }

  function Digits(d: int, format: nat): nat {
    if format == 0x02 || format == 0x0A then d % 0x1_0000
    else if format == 0x03 || format == 0x0B then d % 0x1_0000_0000
    else d % WORD
  }

  predicate PointerFits(form: nat, format: nat, at: nat, target: nat) {
    var d := Distance(form, at, target);
    && target < WORD && form <= 1
    && match format
       case 0x00 => true
       case 0x01 => true
       case 0x02 => 0 <= d < 0x1_0000
       case 0x03 => 0 <= d < 0x1_0000_0000
       case 0x04 => true
       case 0x09 => -HALF_WORD <= d < HALF_WORD
       case 0x0A => -0x8000 <= d < 0x8000
       case 0x0B => -0x8000_0000 <= d < 0x8000_0000
       case 0x0C => -HALF_WORD <= d < HALF_WORD
       case _ => false
  }

  /** The first byte of a directive: two bits of opcode and an operand, or the
      opcode. */
  function Opcode(d: Directive): Byte
    requires FirstByteFits(d)
  {
    match d
    case NoOperation => 0x00
    case AdvanceLoc(delta) => 0x40 + delta
    case Offset(reg, _) => 0x80 + reg
    case Restore(reg) => 0xC0 + reg
    case SetLoc(_, _) => 0x01
    case AdvanceLoc1(_) => 0x02
    case AdvanceLoc2(_) => 0x03
    case AdvanceLoc4(_) => 0x04
    case OffsetExtended(_, _) => 0x05
    case RestoreExtended(_) => 0x06
    case Undefine(_) => 0x07
    case KeepValue(_) => 0x08
    case InRegister(_, _) => 0x09
    case Remember => 0x0A
    case Recall => 0x0B
    case DefineCfa(_, _) => 0x0C
    case DefineCfaRegister(_) => 0x0D
    case DefineCfaOffset(_) => 0x0E
    case DefineCfaExpression(_) => 0x0F
    case ExpressionOf(_, _) => 0x10
    case OffsetExtendedSf(_, _) => 0x11
    case DefineCfaSf(_, _) => 0x12
    case DefineCfaOffsetSf(_) => 0x13
    case ValOffset(_, _) => 0x14
    case ValOffsetSf(_, _) => 0x15
    case ValExpressionOf(_, _) => 0x16
    case GnuArgsSize(_) => 0x2E
    case NegativeOffsetExtended(_, _) => 0x2F
  }

  predicate FirstByteFits(d: Directive) {
    (d.AdvanceLoc? ==> d.delta < 0x40) && (d.Offset? || d.Restore? ==> d.reg < 0x40)
  }

  /** The operands of a directive. The bytes of a pointer depend on where it
      stands, so they are given; EncodePointer makes them. */
  function Operands(d: Directive): seq<Byte> {
    match d
    case AdvanceLoc1(delta) => LittleEndian(delta, 1)
    case AdvanceLoc2(delta) => LittleEndian(delta, 2)
    case AdvanceLoc4(delta) => LittleEndian(delta, 4)
    case SetLoc(_, pointer) => pointer
    case DefineCfa(reg, n) => EncodeUnsigned(reg) + EncodeUnsigned(n)
    case DefineCfaSf(reg, z) => EncodeUnsigned(reg) + EncodeSigned(z)
    case DefineCfaRegister(reg) => EncodeUnsigned(reg)
    case DefineCfaOffset(n) => EncodeUnsigned(n)
    case DefineCfaOffsetSf(z) => EncodeSigned(z)
    case DefineCfaExpression(block) => Block(block)
    case Offset(_, n) => EncodeUnsigned(n)
    case OffsetExtended(reg, n) => EncodeUnsigned(reg) + EncodeUnsigned(n)
    case OffsetExtendedSf(reg, z) => EncodeUnsigned(reg) + EncodeSigned(z)
    case NegativeOffsetExtended(reg, n) => EncodeUnsigned(reg) + EncodeUnsigned(n)
    case ValOffset(reg, n) => EncodeUnsigned(reg) + EncodeUnsigned(n)
    case ValOffsetSf(reg, z) => EncodeUnsigned(reg) + EncodeSigned(z)
    case ExpressionOf(reg, block) => EncodeUnsigned(reg) + Block(block)
    case ValExpressionOf(reg, block) => EncodeUnsigned(reg) + Block(block)
    case Undefine(reg) => EncodeUnsigned(reg)
    case KeepValue(reg) => EncodeUnsigned(reg)
    case InRegister(reg, other) => EncodeUnsigned(reg) + EncodeUnsigned(other)
    case RestoreExtended(reg) => EncodeUnsigned(reg)
    case GnuArgsSize(n) => EncodeUnsigned(n)
    case _ => []
  }

  function Assemble(d: Directive): (r: seq<Byte>)
    requires FirstByteFits(d)
    ensures |r| > 0
  {
    [Opcode(d)] + Operands(d)
  }

  /** The operands fit their formats. */
  predicate Fits(d: Directive) {
    && FirstByteFits(d)
    && (d.AdvanceLoc1? ==> d.delta < 0x100)
    && (d.AdvanceLoc2? ==> d.delta < 0x1_0000)
    && (d.AdvanceLoc4? ==> d.delta < 0x1_0000_0000)
    && (d.SetLoc? ==> d.target < WORD)
    && (HasReg(d) ==> d.reg < WORD)
    && (d.InRegister? ==> d.other < WORD)
    && (HasN(d) ==> d.n < WORD)
    && (HasZ(d) ==> -HALF_WORD <= d.z < HALF_WORD)
    && (HasBlock(d) ==> |d.block| < WORD)
  }

  predicate HasN(d: Directive) {
    || d.DefineCfa? || d.DefineCfaOffset? || d.Offset? || d.OffsetExtended? || d.NegativeOffsetExtended?
    || d.ValOffset? || d.GnuArgsSize?
  }

  predicate HasZ(d: Directive) {
    d.DefineCfaSf? || d.DefineCfaOffsetSf? || d.OffsetExtendedSf? || d.ValOffsetSf?
  }

  predicate HasBlock(d: Directive) {
    d.DefineCfaExpression? || d.ExpressionOf? || d.ValExpressionOf?
  }

  /** The directives that set the rule of a register. */
  predicate SetsRule(d: Directive) {
    || d.Offset? || d.OffsetExtended? || d.OffsetExtendedSf? || d.NegativeOffsetExtended?
    || d.ValOffset? || d.ValOffsetSf? || d.ExpressionOf? || d.ValExpressionOf?
    || d.Undefine? || d.KeepValue? || d.InRegister? || d.Restore? || d.RestoreExtended?
  }

  predicate HasReg(d: Directive) {
    SetsRule(d) || d.DefineCfa? || d.DefineCfaSf? || d.DefineCfaRegister?
  }

  ghost predicate At(bytes: seq<Byte>, p: nat, piece: seq<Byte>) {
    p + |piece| <= |bytes| && bytes[p..p + |piece|] == piece
  }

  lemma AtParts(bytes: seq<Byte>, p: nat, a: seq<Byte>, b: seq<Byte>)
    requires At(bytes, p, a + b)
    ensures At(bytes, p, a) && At(bytes, p + |a|, b)
  {
    assert bytes[p..p + |a|] == (a + b)[..|a|];
    assert bytes[p + |a|..p + |a + b|] == (a + b)[|a|..];
  }

  // ---------------------------------------------------------------------------
  // The operands are read back
  // ---------------------------------------------------------------------------

  lemma UlebReads(s: Section, p: nat, v: nat)
    requires At(s.bytes, p, EncodeUnsigned(v)) && v < WORD
    ensures Uleb(s, p) == Operand(v, p + |EncodeUnsigned(v)|)
  {
    assert Pow2(0) == 1;
    GatherUnsigned(s.bytes, p, 0, 0, v);
  }

  lemma SlebReads(s: Section, p: nat, z: int)
    requires At(s.bytes, p, EncodeSigned(z)) && -HALF_WORD <= z < HALF_WORD
    ensures Sleb(s, p) == Operand(z % WORD, p + |EncodeSigned(z)|)
  {
    assert Pow2(0) == 1;
    GatherSigned(s.bytes, p, 0, 0, z, z);
  }

  ghost predicate FitsBytes(v: nat, n: nat) {
    if n == 0 then v == 0 else FitsBytes(v / 0x100, n - 1)
  }

  lemma {:induction false} FixedReads(s: Section, p: nat, v: nat, n: nat)
    requires At(s.bytes, p, LittleEndian(v, n)) && FitsBytes(v, n)
    ensures Fixed(s, p, n) == Operand(v, p + n)
    decreases n
  {
    if n > 0 {
      AtParts(s.bytes, p, [v % 0x100], LittleEndian(v / 0x100, n - 1));
      assert s.bytes[p] == s.bytes[p..p + 1][0];
      FixedReads(s, p + 1, v / 0x100, n - 1);
    }
  }

  lemma FitsBytesWhen(v: nat)
    ensures v < 0x100 ==> FitsBytes(v, 1)
    ensures v < 0x1_0000 ==> FitsBytes(v, 2)
    ensures v < 0x1_0000_0000 ==> FitsBytes(v, 4)
    ensures v < WORD ==> FitsBytes(v, 8)
  {
    var a := v / 0x100;
    var b := a / 0x100;
    var c := b / 0x100;
    var d := c / 0x100;
    var e := d / 0x100;
    var f := e / 0x100;
    var g := f / 0x100;
    assert v < 0x1_0000 ==> FitsBytes(a, 1);
    assert v < 0x1_0000_0000 ==> FitsBytes(c, 1) && FitsBytes(b, 2) && FitsBytes(a, 3);
    assert v < WORD ==> FitsBytes(g, 1) && FitsBytes(f, 2) && FitsBytes(e, 3) && FitsBytes(d, 4);
    assert v < WORD ==> FitsBytes(c, 5) && FitsBytes(b, 6) && FitsBytes(a, 7);
  }

  lemma UnsignedReaches(s: Section, p: nat, base: nat, target: nat, v: nat, n: nat)
    requires Fixed(s, p, n) == Operand(v, p + n)
    requires target < WORD && (base + v - target) % WORD == 0
    ensures BasedFixed(s, base, p, n) == Operand(target, p + n)
  {
  }

  lemma SignedReaches(s: Section, p: nat, base: nat, target: nat, v: nat, n: nat)
    requires Fixed(s, p, n) == Operand(v, p + n)
    requires target < WORD && SignedBytes(v, n) == target - base
    ensures BasedSignedFixed(s, base, p, n) == Operand(target, p + n)
  {
  }

  lemma UlebReaches(s: Section, p: nat, base: nat, target: nat, v: nat)
    requires At(s.bytes, p, EncodeUnsigned(v)) && v < WORD
    requires target < WORD && (base + v - target) % WORD == 0
    ensures Based(base, Uleb(s, p)) == Operand(target, p + |EncodeUnsigned(v)|)
  {
    UlebReads(s, p, v);
  }

  lemma SlebReaches(s: Section, p: nat, base: nat, target: nat, z: int)
    requires At(s.bytes, p, EncodeSigned(z)) && -HALF_WORD <= z < HALF_WORD
    requires target < WORD && z == target - base
    ensures Sleb(s, p).Operand?
    ensures BasedSigned(base, Sleb(s, p), WrapSigned(Sleb(s, p).value)) == Operand(target, p + |EncodeSigned(z)|)
  {
    SlebReads(s, p, z);
    SignedAgain(z);
  }

  lemma SignedAgain(z: int)
    requires -HALF_WORD <= z < HALF_WORD
    ensures WrapSigned(z % WORD) == z
  {
  }

  lemma DigitsFit(d: int, format: nat)
    ensures FitsBytes(Digits(d, format), Width(format))
  {
    FitsBytesWhen(Digits(d, format));
  }

  lemma Reduced(base: nat, target: nat)
    ensures (base + (target - base) % WORD - target) % WORD == 0
  {
  }

  lemma UnsignedDigits(base: nat, format: nat, target: nat)
    requires format < 8
    requires format == 2 ==> 0 <= target - base < 0x1_0000
    requires format == 3 ==> 0 <= target - base < 0x1_0000_0000
    ensures (base + Digits(target - base, format) - target) % WORD == 0
  {
    Reduced(base, target);
  }

  lemma SignedDigits(d: int, format: nat)
    requires format > 9 && -HALF_WORD <= d < HALF_WORD
    requires format == 0x0A ==> -0x8000 <= d < 0x8000
    requires format == 0x0B ==> -0x8000_0000 <= d < 0x8000_0000
    ensures SignedBytes(Digits(d, format), Width(format)) == d
  {
  }

  lemma FixedPointerReads(s: Section, p: nat, base: nat, format: nat, target: nat, d: int)
    requires target < WORD && d == target - base
    requires At(s.bytes, p, LittleEndian(Digits(d, format), Width(format)))
    ensures (base + Digits(d, format) - target) % WORD == 0 ==>
              BasedFixed(s, base, p, Width(format)) == Operand(target, p + Width(format))
    ensures SignedBytes(Digits(d, format), Width(format)) == d ==>
              BasedSignedFixed(s, base, p, Width(format)) == Operand(target, p + Width(format))
  {
    var v, n := Digits(d, format), Width(format);
    DigitsFit(d, format);
    FixedReads(s, p, v, n);
    if (base + v - target) % WORD == 0 {
      UnsignedReaches(s, p, base, target, v, n);
    }
    if SignedBytes(v, n) == d {
      SignedReaches(s, p, base, target, v, n);
    }
  }

  /** How a pointer of a fixed width is read. */
  lemma FixedFormat(s: Section, p: nat, form: nat, format: nat)
    requires form <= 1 && (format == 0 || 2 <= format <= 4 || 10 <= format <= 12)
    ensures var base := if form == 1 then s.base + p else 0;
            PointerIn(s, p, form, format) ==
            if format < 8 then BasedFixed(s, base, p, Width(format)) else BasedSignedFixed(s, base, p, Width(format))
  {
  }

  lemma FixedPointerIsRead(s: Section, p: nat, form: nat, format: nat, target: nat, d: int)
    requires PointerFits(form, format, s.base + p, target) && format != 1 && format != 9
    requires d == Distance(form, s.base + p, target)
    requires At(s.bytes, p, LittleEndian(Digits(d, format), Width(format)))
    ensures PointerIn(s, p, form, format) == Operand(target, p + Width(format))
  {
    var base := if form == 1 then s.base + p else 0;
    FixedFormat(s, p, form, format);
    if format < 8 {
      UnsignedDigits(base, format, target);
    } else {
      SignedDigits(d, format);
    }
    FixedPointerReads(s, p, base, format, target, d);
  }

  lemma LebPointerIsRead(s: Section, p: nat, form: nat, format: nat, target: nat)
    requires PointerFits(form, format, s.base + p, target) && (format == 1 || format == 9)
    requires At(s.bytes, p, EncodePointer(form, format, s.base + p, target))
    ensures PointerIn(s, p, form, format) == Operand(target, p + |EncodePointer(form, format, s.base + p, target)|)
  {
    var base := if form == 1 then s.base + p else 0;
    if format == 0x01 {
      Reduced(base, target);
      UlebReaches(s, p, base, target, (target - base) % WORD);
    } else {
      SlebReaches(s, p, base, target, target - base);
    }
  }

  /** A pointer that was encoded relative to its base is read back. */
  lemma PointerReads(s: Section, p: nat, form: nat, format: nat, target: nat)
    requires PointerFits(form, format, s.base + p, target)
    requires At(s.bytes, p, EncodePointer(form, format, s.base + p, target))
    ensures DecodePointer(s, p, Encoded(form, format)) ==
            Operand(target, p + |EncodePointer(form, format, s.base + p, target)|)
  {
    if format == 1 || format == 9 {
      LebPointerIsRead(s, p, form, format, target);
    } else {
      FixedPointerIsRead(s, p, form, format, target, Distance(form, s.base + p, target));
    }
  }

  // ---------------------------------------------------------------------------
  // Decoding undoes assembling
  // ---------------------------------------------------------------------------

  /** The place of the block of a directive at p. */
  function BlockAt(d: Directive, p: nat): nat {
    if d.ExpressionOf? || d.ValExpressionOf? then p + 1 + |EncodeUnsigned(d.reg)| else p + 1
  }

  /** The decoded form of a directive at p. */
  function Code(d: Directive, s: Section, cie: Cie, p: nat): Instr {
    var ca, da := cie.codeAlignment, cie.dataAlignment;
    match d
    case NoOperation => Nop
    case AdvanceLoc(delta) => Advance(Wrap(delta * ca))
    case AdvanceLoc1(delta) => Advance(Wrap(delta * ca))
    case AdvanceLoc2(delta) => Advance(Wrap(delta * ca))
    case AdvanceLoc4(delta) => Advance(Wrap(delta * ca))
    case SetLoc(target, _) => SetLocation(Wrap(target))
    case DefineCfa(reg, n) => DefCfa(reg, WrapSigned(n))
    case DefineCfaSf(reg, z) => DefCfa(reg, WrapSigned(z % WORD * da))
    case DefineCfaRegister(reg) => DefCfaRegister(reg)
    case DefineCfaOffset(n) => DefCfaOffset(WrapSigned(n))
    case DefineCfaOffsetSf(z) => DefCfaOffset(WrapSigned(z % WORD * da))
    case DefineCfaExpression(_) => Cfi.DefCfaExpression(s.base + BlockAt(d, p))
    case Offset(reg, n) => SetRegister(reg, OffsetN, Wrap(n * da))
    case OffsetExtended(reg, n) => SetRegister(reg, OffsetN, Wrap(n * da))
    case OffsetExtendedSf(reg, z) => SetRegister(reg, OffsetN, Wrap(z % WORD * da))
    case NegativeOffsetExtended(reg, n) => SetRegister(reg, OffsetN, Wrap(-(n * da)))
    case ValOffset(reg, n) => SetRegister(reg, ValOffsetN, Wrap(n * da))
    case ValOffsetSf(reg, z) => SetRegister(reg, ValOffsetN, Wrap(z % WORD * da))
    case ExpressionOf(reg, _) => SetRegister(reg, Expression, s.base + BlockAt(d, p))
    case ValExpressionOf(reg, _) => SetRegister(reg, ValExpression, s.base + BlockAt(d, p))
    case Undefine(reg) => SetRule(reg, Undefined)
    case KeepValue(reg) => SetRule(reg, SameValue)
    case InRegister(reg, other) => CopyRule(reg, other)
    case Restore(reg) => RestoreRegister(reg)
    case RestoreExtended(reg) => RestoreRegister(reg)
    case Remember => RememberState
    case Recall => RestoreState
    case GnuArgsSize(n) => ArgsSize(n)
  }

  /** The directive stands at p of the section, which ends inside the address
      space; a pointer reads as its target there. */
  ghost predicate Stands(d: Directive, s: Section, cie: Cie, p: nat) {
    && Fits(d) && At(s.bytes, p, Assemble(d)) && s.base + |s.bytes| < WORD
    && (d.SetLoc? ==> DecodePointer(s, p + 1, cie.pointerEncoding) == Operand(d.target, p + 1 + |d.pointer|))
  }

  function End(d: Directive, p: nat): nat
    requires Fits(d)
  {
    p + |Assemble(d)|
  }

  ghost predicate Decoded(d: Directive, s: Section, cie: Cie, p: nat)
    requires Fits(d)
  {
    Fetch(s, cie, p) == Fetched(Code(d, s, cie, p), End(d, p))
  }

  lemma FirstByte(bytes: seq<Byte>, p: nat, op: Byte, x: seq<Byte>)
    requires At(bytes, p, [op] + x)
    ensures p < |bytes| && bytes[p] == op && At(bytes, p + 1, x) && |[op] + x| == 1 + |x|
  {
    AtParts(bytes, p, [op], x);
    assert bytes[p] == bytes[p..p + 1][0];
  }

  lemma FirstOperand(bytes: seq<Byte>, p: nat, op: Byte, x: seq<Byte>, y: seq<Byte>)
    requires At(bytes, p, [op] + (x + y))
    ensures p < |bytes| && bytes[p] == op && At(bytes, p + 1, x) && At(bytes, p + 1 + |x|, y)
    ensures |[op] + (x + y)| == 1 + |x| + |y|
  {
    FirstByte(bytes, p, op, x + y);
    AtParts(bytes, p + 1, x, y);
  }

  /** A block is skipped. */
  lemma BlockIsSkipped(s: Section, p: nat, block: seq<Byte>, f: nat -> Instr)
    requires At(s.bytes, p, Block(block)) && |block| < WORD && s.base + |s.bytes| < WORD
    ensures OverBlock(s, p, f) == Fetched(f(s.base + p), p + |Block(block)|)
  {
    AtParts(s.bytes, p, EncodeUnsigned(|block|), block);
    UlebReads(s, p, |block|);
  }

  // By operands: what is read behind the first byte.

  lemma ReadUnsigned(s: Section, p: nat, op: Byte, a: nat)
    requires At(s.bytes, p, [op] + EncodeUnsigned(a)) && a < WORD
    ensures p < |s.bytes| && s.bytes[p] == op
    ensures Uleb(s, p + 1) == Operand(a, p + |[op] + EncodeUnsigned(a)|)
  {
    FirstByte(s.bytes, p, op, EncodeUnsigned(a));
    UlebReads(s, p + 1, a);
  }

  lemma ReadSigned(s: Section, p: nat, op: Byte, z: int)
    requires At(s.bytes, p, [op] + EncodeSigned(z)) && -HALF_WORD <= z < HALF_WORD
    ensures p < |s.bytes| && s.bytes[p] == op
    ensures Sleb(s, p + 1) == Operand(z % WORD, p + |[op] + EncodeSigned(z)|)
  {
    FirstByte(s.bytes, p, op, EncodeSigned(z));
    SlebReads(s, p + 1, z);
  }

  lemma ReadRegisterAnd(s: Section, p: nat, op: Byte, a: nat, y: seq<Byte>) returns (mid: nat)
    requires At(s.bytes, p, [op] + (EncodeUnsigned(a) + y)) && a < WORD
    ensures p < |s.bytes| && s.bytes[p] == op && mid == p + 1 + |EncodeUnsigned(a)|
    ensures Uleb(s, p + 1) == Operand(a, mid) && At(s.bytes, mid, y)
    ensures p + |[op] + (EncodeUnsigned(a) + y)| == mid + |y|
  {
    FirstOperand(s.bytes, p, op, EncodeUnsigned(a), y);
    UlebReads(s, p + 1, a);
    mid := p + 1 + |EncodeUnsigned(a)|;
  }

  lemma ReadTwoUnsigned(s: Section, p: nat, op: Byte, a: nat, b: nat) returns (mid: nat)
    requires At(s.bytes, p, [op] + (EncodeUnsigned(a) + EncodeUnsigned(b))) && a < WORD && b < WORD
    ensures p < |s.bytes| && s.bytes[p] == op && Uleb(s, p + 1) == Operand(a, mid)
    ensures Uleb(s, mid) == Operand(b, p + |[op] + (EncodeUnsigned(a) + EncodeUnsigned(b))|)
  {
    var y := EncodeUnsigned(b);
    mid := ReadRegisterAnd(s, p, op, a, y);
    UlebReads(s, mid, b);
  }

  lemma ReadUnsignedSigned(s: Section, p: nat, op: Byte, a: nat, z: int) returns (mid: nat)
    requires At(s.bytes, p, [op] + (EncodeUnsigned(a) + EncodeSigned(z))) && a < WORD && -HALF_WORD <= z < HALF_WORD
    ensures p < |s.bytes| && s.bytes[p] == op && Uleb(s, p + 1) == Operand(a, mid)
    ensures Sleb(s, mid) == Operand(z % WORD, p + |[op] + (EncodeUnsigned(a) + EncodeSigned(z))|)
  {
    var y := EncodeSigned(z);
    mid := ReadRegisterAnd(s, p, op, a, y);
    SlebReads(s, mid, z);
  }

  // By operands: what is fetched.

  predicate TwoUnsigned(d: Directive) {
    d.DefineCfa? || d.OffsetExtended? || d.NegativeOffsetExtended? || d.ValOffset? || d.InRegister?
  }

  lemma FetchTwoUnsigned(d: Directive, s: Section, cie: Cie, p: nat, next: nat)
    requires TwoUnsigned(d) && p < |s.bytes| && s.bytes[p] == Opcode(d)
    requires Uleb(s, p + 1).Operand? && Uleb(s, p + 1).value == d.reg
    requires Uleb(s, Uleb(s, p + 1).next) == Operand(if d.InRegister? then d.other else d.n, next)
    ensures Fetch(s, cie, p) == Fetched(Code(d, s, cie, p), next)
  {
  }

  lemma DecodedTwoUnsigned(d: Directive, s: Section, cie: Cie, p: nat)
    requires Stands(d, s, cie, p) && TwoUnsigned(d)
    ensures Decoded(d, s, cie, p)
  {
    var mid := ReadTwoUnsigned(s, p, Opcode(d), d.reg, if d.InRegister? then d.other else d.n);
    FetchTwoUnsigned(d, s, cie, p, End(d, p));
  }

  predicate UnsignedSigned(d: Directive) {
    d.DefineCfaSf? || d.OffsetExtendedSf? || d.ValOffsetSf?
  }

  lemma FetchUnsignedSigned(d: Directive, s: Section, cie: Cie, p: nat, next: nat)
    requires UnsignedSigned(d) && p < |s.bytes| && s.bytes[p] == Opcode(d)
    requires Uleb(s, p + 1).Operand? && Uleb(s, p + 1).value == d.reg
    requires Sleb(s, Uleb(s, p + 1).next) == Operand(d.z % WORD, next)
    ensures Fetch(s, cie, p) == Fetched(Code(d, s, cie, p), next)
  {
  }

  lemma DecodedUnsignedSigned(d: Directive, s: Section, cie: Cie, p: nat)
    requires Stands(d, s, cie, p) && UnsignedSigned(d)
    ensures Decoded(d, s, cie, p)
  {
    var mid := ReadUnsignedSigned(s, p, Opcode(d), d.reg, d.z);
    FetchUnsignedSigned(d, s, cie, p, End(d, p));
  }

  predicate OneNumber(d: Directive) {
    d.Offset? || d.DefineCfaOffset? || d.GnuArgsSize?
  }

  predicate OneRegister(d: Directive) {
    d.DefineCfaRegister? || d.Undefine? || d.KeepValue? || d.RestoreExtended?
  }

  lemma FetchOffset(d: Directive, s: Section, cie: Cie, p: nat, next: nat)
    requires d.Offset? && FirstByteFits(d) && p < |s.bytes| && s.bytes[p] == Opcode(d)
    requires Uleb(s, p + 1) == Operand(d.n, next)
    ensures Fetch(s, cie, p) == Fetched(Code(d, s, cie, p), next)
  {
    assert s.bytes[p] / 0x40 == 2 && s.bytes[p] % 0x40 == d.reg;
  }

  lemma FetchOneUnsigned(d: Directive, s: Section, cie: Cie, p: nat, next: nat)
    requires (OneNumber(d) || OneRegister(d)) && !d.Offset?
    requires p < |s.bytes| && s.bytes[p] == Opcode(d)
    requires Uleb(s, p + 1) == Operand(if OneNumber(d) then d.n else d.reg, next)
    ensures Fetch(s, cie, p) == Fetched(Code(d, s, cie, p), next)
  {
  }

  lemma DecodedOneUnsigned(d: Directive, s: Section, cie: Cie, p: nat)
    requires Stands(d, s, cie, p) && (OneNumber(d) || OneRegister(d))
    ensures Decoded(d, s, cie, p)
  {
    ReadUnsigned(s, p, Opcode(d), if OneNumber(d) then d.n else d.reg);
    if d.Offset? {
      FetchOffset(d, s, cie, p, End(d, p));
    } else {
      FetchOneUnsigned(d, s, cie, p, End(d, p));
    }
  }

  lemma FetchOneSigned(d: Directive, s: Section, cie: Cie, p: nat, next: nat)
    requires d.DefineCfaOffsetSf? && p < |s.bytes| && s.bytes[p] == Opcode(d)
    requires Sleb(s, p + 1) == Operand(d.z % WORD, next)
    ensures Fetch(s, cie, p) == Fetched(Code(d, s, cie, p), next)
  {
  }

  lemma DecodedOneSigned(d: Directive, s: Section, cie: Cie, p: nat)
    requires Stands(d, s, cie, p) && d.DefineCfaOffsetSf?
    ensures Decoded(d, s, cie, p)
  {
    ReadSigned(s, p, Opcode(d), d.z);
    FetchOneSigned(d, s, cie, p, End(d, p));
  }

  predicate NoOperands(d: Directive) {
    d.NoOperation? || d.AdvanceLoc? || d.Restore? || d.Remember? || d.Recall?
  }

  lemma FetchShort(d: Directive, s: Section, cie: Cie, p: nat)
    requires (d.AdvanceLoc? || d.Restore?) && FirstByteFits(d) && p < |s.bytes| && s.bytes[p] == Opcode(d)
    ensures Fetch(s, cie, p) == Fetched(Code(d, s, cie, p), p + 1)
  {
    var high, low := s.bytes[p] / 0x40, s.bytes[p] % 0x40;
    assert high == (if d.AdvanceLoc? then 1 else 3) && low == (if d.AdvanceLoc? then d.delta else d.reg);
  }

  lemma FetchNoOperands(d: Directive, s: Section, cie: Cie, p: nat)
    requires d.NoOperation? || d.Remember? || d.Recall?
    requires p < |s.bytes| && s.bytes[p] == Opcode(d)
    ensures Fetch(s, cie, p) == Fetched(Code(d, s, cie, p), p + 1)
  {
  }

  lemma DecodedNoOperands(d: Directive, s: Section, cie: Cie, p: nat)
    requires Stands(d, s, cie, p) && NoOperands(d)
    ensures Decoded(d, s, cie, p)
  {
    FirstByte(s.bytes, p, Opcode(d), []);
    if d.AdvanceLoc? || d.Restore? {
      FetchShort(d, s, cie, p);
    } else {
      FetchNoOperands(d, s, cie, p);
    }
  }

  /** The width of the operand of the longer advances. */
  function DeltaWidth(d: Directive): nat {
    if d.AdvanceLoc1? then 1 else if d.AdvanceLoc2? then 2 else 4
  }

  lemma FetchAdvance(d: Directive, s: Section, cie: Cie, p: nat, n: nat)
    requires (d.AdvanceLoc1? && n == 1) || (d.AdvanceLoc2? && n == 2) || (d.AdvanceLoc4? && n == 4)
    requires p < |s.bytes| && s.bytes[p] == Opcode(d) && Fixed(s, p + 1, n) == Operand(d.delta, p + 1 + n)
    ensures Fetch(s, cie, p) == Fetched(Code(d, s, cie, p), p + 1 + n)
  {
  }

  lemma ReadFixed(s: Section, p: nat, op: Byte, v: nat, n: nat)
    requires At(s.bytes, p, [op] + LittleEndian(v, n)) && FitsBytes(v, n)
    ensures p < |s.bytes| && s.bytes[p] == op && Fixed(s, p + 1, n) == Operand(v, p + 1 + n)
  {
    FirstByte(s.bytes, p, op, LittleEndian(v, n));
    FixedReads(s, p + 1, v, n);
  }

  lemma DecodedAdvance(d: Directive, s: Section, cie: Cie, p: nat)
    requires Stands(d, s, cie, p) && (d.AdvanceLoc1? || d.AdvanceLoc2? || d.AdvanceLoc4?)
    ensures Decoded(d, s, cie, p)
  {
    var n := DeltaWidth(d);
    FitsBytesWhen(d.delta);
    assert Operands(d) == LittleEndian(d.delta, n);
    ReadFixed(s, p, Opcode(d), d.delta, n);
    FetchAdvance(d, s, cie, p, n);
  }

  lemma FetchSetLoc(d: Directive, s: Section, cie: Cie, p: nat, next: nat)
    requires d.SetLoc? && p < |s.bytes| && s.bytes[p] == Opcode(d)
    requires DecodePointer(s, p + 1, cie.pointerEncoding) == Operand(d.target, next)
    ensures Fetch(s, cie, p) == Fetched(Code(d, s, cie, p), next)
  {
  }

  lemma DecodedSetLoc(d: Directive, s: Section, cie: Cie, p: nat)
    requires Stands(d, s, cie, p) && d.SetLoc?
    ensures Decoded(d, s, cie, p)
  {
    FirstByte(s.bytes, p, Opcode(d), d.pointer);
    FetchSetLoc(d, s, cie, p, End(d, p));
  }

  lemma FetchCfaBlock(d: Directive, s: Section, cie: Cie, p: nat, next: nat)
    requires d.DefineCfaExpression? && p < |s.bytes| && s.bytes[p] == Opcode(d)
    requires OverBlock(s, p + 1, (a: nat) => Cfi.DefCfaExpression(a)) == Fetched(Code(d, s, cie, p), next)
    ensures Fetch(s, cie, p) == Fetched(Code(d, s, cie, p), next)
  {
  }

  lemma ReadCfaBlock(s: Section, p: nat, op: Byte, block: seq<Byte>)
    requires At(s.bytes, p, [op] + Block(block)) && |block| < WORD && s.base + |s.bytes| < WORD
    ensures p < |s.bytes| && s.bytes[p] == op
    ensures OverBlock(s, p + 1, (a: nat) => Cfi.DefCfaExpression(a)) ==
            Fetched(Cfi.DefCfaExpression(s.base + p + 1), p + |[op] + Block(block)|)
  {
    FirstByte(s.bytes, p, op, Block(block));
    BlockIsSkipped(s, p + 1, block, (a: nat) => Cfi.DefCfaExpression(a));
  }

  lemma DecodedCfaBlock(d: Directive, s: Section, cie: Cie, p: nat)
    requires Stands(d, s, cie, p) && d.DefineCfaExpression?
    ensures Decoded(d, s, cie, p)
  {
    ReadCfaBlock(s, p, Opcode(d), d.block);
    FetchCfaBlock(d, s, cie, p, End(d, p));
  }

  function RuleOf(d: Directive): Rule {
    if d.ExpressionOf? then Expression else ValExpression
  }

  lemma FetchRegisterBlock(d: Directive, s: Section, cie: Cie, p: nat, mid: nat, next: nat)
    requires (d.ExpressionOf? || d.ValExpressionOf?) && p < |s.bytes| && s.bytes[p] == Opcode(d)
    requires mid == BlockAt(d, p) && Uleb(s, p + 1) == Operand(d.reg, mid)
    requires RegisterBlock(s, Operand(d.reg, mid), RuleOf(d)) ==
             Fetched(SetRegister(d.reg, RuleOf(d), s.base + mid), next)
    ensures Fetch(s, cie, p) == Fetched(Code(d, s, cie, p), next)
  {
  }

  lemma RegisterBlockIsSkipped(s: Section, p: nat, reg: nat, rule: Rule, block: seq<Byte>)
    requires At(s.bytes, p, Block(block)) && |block| < WORD && s.base + |s.bytes| < WORD
    ensures RegisterBlock(s, Operand(reg, p), rule) == Fetched(SetRegister(reg, rule, s.base + p), p + |Block(block)|)
  {
    BlockIsSkipped(s, p, block, (a: nat) => SetRegister(reg, rule, a));
  }

  lemma ReadRegisterBlock(s: Section, p: nat, op: Byte, reg: nat, rule: Rule, block: seq<Byte>) returns (mid: nat)
    requires At(s.bytes, p, [op] + (EncodeUnsigned(reg) + Block(block))) && reg < WORD
    requires |block| < WORD && s.base + |s.bytes| < WORD
    ensures p < |s.bytes| && s.bytes[p] == op && mid == p + 1 + |EncodeUnsigned(reg)|
    ensures Uleb(s, p + 1) == Operand(reg, mid)
    ensures RegisterBlock(s, Operand(reg, mid), rule) ==
            Fetched(SetRegister(reg, rule, s.base + mid), p + |[op] + (EncodeUnsigned(reg) + Block(block))|)
  {
    var y := Block(block);
    mid := ReadRegisterAnd(s, p, op, reg, y);
    RegisterBlockIsSkipped(s, mid, reg, rule, block);
  }

  lemma DecodedRegisterBlock(d: Directive, s: Section, cie: Cie, p: nat)
    requires Stands(d, s, cie, p) && (d.ExpressionOf? || d.ValExpressionOf?)
    ensures Decoded(d, s, cie, p)
  {
    var mid := ReadRegisterBlock(s, p, Opcode(d), d.reg, RuleOf(d), d.block);
    FetchRegisterBlock(d, s, cie, p, mid, End(d, p));
  }

  /** Fetching at a directive decodes it and moves behind it. */
  lemma DecodesDirective(d: Directive, s: Section, cie: Cie, p: nat)
    requires Stands(d, s, cie, p)
    ensures Decoded(d, s, cie, p)
  {
    if TwoUnsigned(d) { DecodedTwoUnsigned(d, s, cie, p); }
    else if UnsignedSigned(d) { DecodedUnsignedSigned(d, s, cie, p); }
    else if OneNumber(d) || OneRegister(d) { DecodedOneUnsigned(d, s, cie, p); }
    else if d.DefineCfaOffsetSf? { DecodedOneSigned(d, s, cie, p); }
    else if NoOperands(d) { DecodedNoOperands(d, s, cie, p); }
    else if d.SetLoc? { DecodedSetLoc(d, s, cie, p); }
    else if d.DefineCfaExpression? { DecodedCfaBlock(d, s, cie, p); }
    else if HasBlock(d) { DecodedRegisterBlock(d, s, cie, p); }
    else { DecodedAdvance(d, s, cie, p); }
  }

  // ---------------------------------------------------------------------------
  // What the directives mean
  // ---------------------------------------------------------------------------

  /** One round of the loop at cursor p. */
  datatype Step = Stepped(next: nat, machine: Machine) | Stuck

  ghost function StepAt(g: Program, p: nat, m: Machine): Step {
    match Fetch(g.section, g.cie, p)
    case Bad => Stuck
    case Fetched(i, next) =>
      match Execute(i, m, g.initial)
      case Abort => Stuck
      case Next(m') => Stepped(next, m')
  }

  lemma LoopTakesStep(g: Program, l1: nat, p: nat, m: Machine)
    requires p < g.end && m.loc <= l1
    ensures match StepAt(g, p, m)
            case Stuck => Loop(g, l1, p, m) == Aborted
            case Stepped(next, m') => p < next && Loop(g, l1, p, m) == Loop(g, l1, next, m')
  {
  }

  // Nothing else changes.

  ghost predicate OnlyLocation(m: Machine, m': Machine) {
    m' == m.(loc := m'.loc)
  }

  ghost predicate OnlyCfa(m: Machine, m': Machine) {
    m' == m.(row := m.row.(cfa := m'.row.cfa))
  }

  ghost predicate OnlyRegister(m: Machine, m': Machine, reg: nat) {
    && m' == m.(row := m.row.(regs := m'.row.regs))
    && reg < |m.row.regs| == |m'.row.regs| && forall j :: 0 <= j < |m.row.regs| && j != reg ==>
                                                m'.row.regs[j] == m.row.regs[j]
  }

  /** The CFA is now register reg plus offset. But the kind of CFA does not
      change: where it was an expression, reg is taken for its address. */
  ghost predicate CfaBecomes(m: Machine, m': Machine, reg: nat, offset: int, regs: seq<nat>, env: Machinery, cfa: nat)
  {
    && OnlyCfa(m, m') && m'.row.cfa.value == reg && m'.row.cfa.offset == offset
    && m'.row.cfa.isExpression == m.row.cfa.isExpression
    && (!m.row.cfa.isExpression ==>
          (CfaIs(m'.row, regs, env, cfa) <==>
           reg < |regs| && 0 <= regs[reg] + offset && cfa == (regs[reg] + offset) % WORD))
    && (m.row.cfa.isExpression ==> (CfaIs(m'.row, regs, env, cfa) <==> env.evaluate(reg, 0, regs) == Value(cfa)))
  }

  /** The register is now saved at offset from the CFA. */
  ghost predicate SavedAt(m: Machine, m': Machine, reg: nat, offset: int, regs: seq<nat>, env: Machinery, cfa: nat,
                          x: nat)
  {
    && OnlyRegister(m, m', reg)
    && m'.row.regs[reg].rule != Undefined
    && (Gives(m'.row.regs[reg], reg, cfa, regs, env, x) <==>
        0 <= cfa + offset && x == env.read((cfa + offset) % WORD))
  }

  /** The register now is the address at offset from the CFA. */
  ghost predicate ValueIs(m: Machine, m': Machine, reg: nat, offset: int, regs: seq<nat>, env: Machinery, cfa: nat,
                          x: nat)
  {
    && OnlyRegister(m, m', reg)
    && m'.row.regs[reg].rule != Undefined
    && (Gives(m'.row.regs[reg], reg, cfa, regs, env, x) <==> 0 <= cfa + offset && x == (cfa + offset) % WORD)
  }

  /** What a directive at p does, for all registers, memory, CFA and values x:
      to the location, to the CFA, and to what each register is restored to
      (section 6.4.2 of DWARF 4). Offsets are factored by the data alignment. */
  ghost predicate Obeys(d: Directive, g: Program, p: nat, m: Machine, m': Machine,
                        regs: seq<nat>, env: Machinery, cfa: nat, x: nat)
    requires ValidMachine(m) && ValidRow(g.initial) && CanRun(d, m)
  {
    var ca, da := g.cie.codeAlignment, g.cie.dataAlignment;
    match d
    case NoOperation => m' == m
    case AdvanceLoc(delta) => OnlyLocation(m, m') && m'.loc == (m.loc + delta * ca) % WORD
    case AdvanceLoc1(delta) => OnlyLocation(m, m') && m'.loc == (m.loc + delta * ca) % WORD
    case AdvanceLoc2(delta) => OnlyLocation(m, m') && m'.loc == (m.loc + delta * ca) % WORD
    case AdvanceLoc4(delta) => OnlyLocation(m, m') && m'.loc == (m.loc + delta * ca) % WORD
    case SetLoc(target, _) => OnlyLocation(m, m') && m'.loc == target
    case DefineCfa(reg, n) => CfaBecomes(m, m', reg, WrapSigned(n), regs, env, cfa)
    case DefineCfaSf(reg, z) => CfaBecomes(m, m', reg, WrapSigned(z * da), regs, env, cfa)
    case DefineCfaRegister(reg) => CfaBecomes(m, m', reg, m.row.cfa.offset, regs, env, cfa)
    case DefineCfaOffset(n) => CfaBecomes(m, m', m.row.cfa.value, WrapSigned(n), regs, env, cfa)
    case DefineCfaOffsetSf(z) => CfaBecomes(m, m', m.row.cfa.value, WrapSigned(z * da), regs, env, cfa)
    case DefineCfaExpression(_) =>
      && OnlyCfa(m, m')
      && (CfaIs(m'.row, regs, env, cfa) <==> env.evaluate(g.section.base + p + 1, 0, regs) == Value(cfa))
    case Offset(reg, n) => SavedAt(m, m', reg, WrapSigned(n * da), regs, env, cfa, x)
    case OffsetExtended(reg, n) => SavedAt(m, m', reg, WrapSigned(n * da), regs, env, cfa, x)
    case OffsetExtendedSf(reg, z) => SavedAt(m, m', reg, WrapSigned(z * da), regs, env, cfa, x)
    case NegativeOffsetExtended(reg, n) => SavedAt(m, m', reg, WrapSigned(-(n * da)), regs, env, cfa, x)
    case ValOffset(reg, n) => ValueIs(m, m', reg, WrapSigned(n * da), regs, env, cfa, x)
    case ValOffsetSf(reg, z) => ValueIs(m, m', reg, WrapSigned(z * da), regs, env, cfa, x)
    case ExpressionOf(reg, _) =>
      && OnlyRegister(m, m', reg) && m'.row.regs[reg].rule != Undefined
      && var a := env.evaluate(g.section.base + BlockAt(d, p), cfa, regs);
         Gives(m'.row.regs[reg], reg, cfa, regs, env, x) <==> a.Value? && x == env.read(a.v)
    case ValExpressionOf(reg, _) =>
      && OnlyRegister(m, m', reg) && m'.row.regs[reg].rule != Undefined
      && (Gives(m'.row.regs[reg], reg, cfa, regs, env, x) <==>
          env.evaluate(g.section.base + BlockAt(d, p), cfa, regs) == Value(x))
    case Undefine(reg) => OnlyRegister(m, m', reg) && m'.row.regs[reg].rule == Undefined
    case KeepValue(reg) =>
      && OnlyRegister(m, m', reg) && m'.row.regs[reg].rule != Undefined
      && (Gives(m'.row.regs[reg], reg, cfa, regs, env, x) <==> reg < |regs| && x == regs[reg])
    case InRegister(reg, other) =>
      OnlyRegister(m, m', reg) && m'.row.regs[reg] == Reg(m.row.regs[other].rule, m.row.regs[reg].value)
    case Restore(reg) => OnlyRegister(m, m', reg) && m'.row.regs[reg] == g.initial.regs[reg]
    case RestoreExtended(reg) => OnlyRegister(m, m', reg) && m'.row.regs[reg] == g.initial.regs[reg]
    case Remember => m' == m.(stack := m.stack + [m.row])
    case Recall => m'.stack + [m'.row] == m.stack && m'.loc == m.loc
    case GnuArgsSize(n) => m' == m.(row := m.row.(argSize := n))
  }

  /** Whether the interpreter goes through with a directive: only on registers of
      the row and within the remember stack. */
  predicate CanRun(d: Directive, m: Machine) {
    && (SetsRule(d) ==> d.reg < MAX_NUM_REGISTERS)
    && (d.InRegister? ==> d.other < MAX_NUM_REGISTERS)
    && (d.Remember? ==> |m.stack| < REMEMBER_STACK_SIZE)
    && (d.Recall? ==> m.stack != [])
  }

  /** Multiples of a signed operand and of its pattern agree. */
  lemma SameProduct(z: int, k: int)
    ensures (z % WORD * k) % WORD == (z * k) % WORD
  {
    var q, r := z / WORD, z % WORD;
    assert z * k == r * k + WORD * (q * k) by {
      assert (q * WORD + r) * k == r * k + WORD * (q * k);
    }
  }

  lemma WordOnly(a: int, b: int)
    requires a % WORD == b % WORD
    ensures WrapSigned(a) == WrapSigned(b)
  {
  }

  lemma WrapTwice(a: int)
    ensures WrapSigned(Wrap(a)) == WrapSigned(a)
  {
  }

  /** Executing a directive does what it says, if it can run. */
  ghost predicate Executes(d: Directive, g: Program, p: nat, m: Machine,
                           regs: seq<nat>, env: Machinery, cfa: nat, x: nat)
    requires ValidMachine(m) && ValidRow(g.initial)
  {
    match Execute(Code(d, g.section, g.cie, p), m, g.initial)
    case Abort => !CanRun(d, m)
    case Next(m') => CanRun(d, m) && Obeys(d, g, p, m, m', regs, env, cfa, x)
  }

  lemma WrapSum(a: int, b: int)
    ensures (a + Wrap(b)) % WORD == (a + b) % WORD
  {
  }

  predicate Advances(d: Directive) {
    d.AdvanceLoc? || d.AdvanceLoc1? || d.AdvanceLoc2? || d.AdvanceLoc4?
  }

  lemma ExecutesAdvance(d: Directive, g: Program, p: nat, m: Machine, regs: seq<nat>, env: Machinery, cfa: nat, x: nat)
    requires Advances(d) && Fits(d) && ValidMachine(m) && ValidRow(g.initial)
    ensures Executes(d, g, p, m, regs, env, cfa, x)
  {
    var k := d.delta * g.cie.codeAlignment;
    WrapSum(m.loc, k);
    assert Code(d, g.section, g.cie, p) == Advance(Wrap(k));
  }

  lemma CfaSet(m: Machine, m': Machine, reg: nat, offset: int, regs: seq<nat>, env: Machinery, cfa: nat)
    requires m' == m.(row := m.row.(cfa := Cfa(reg, offset, m.row.cfa.isExpression)))
    ensures CfaBecomes(m, m', reg, offset, regs, env, cfa)
  {
  }

  predicate DefinesCfa(d: Directive) {
    d.DefineCfa? || d.DefineCfaSf? || d.DefineCfaRegister? || d.DefineCfaOffset? || d.DefineCfaOffsetSf?
  }

  lemma ExecutesCfa(d: Directive, g: Program, p: nat, m: Machine, regs: seq<nat>, env: Machinery, cfa: nat, x: nat)
    requires DefinesCfa(d) && Fits(d) && ValidMachine(m) && ValidRow(g.initial)
    ensures Executes(d, g, p, m, regs, env, cfa, x)
  {
    var reg := if d.DefineCfaOffset? || d.DefineCfaOffsetSf? then m.row.cfa.value else d.reg;
    var offset :=
      if d.DefineCfaRegister? then m.row.cfa.offset
      else WrapSigned(if HasZ(d) then d.z * g.cie.dataAlignment else d.n);
    if HasZ(d) {
      SameProduct(d.z, g.cie.dataAlignment);
      WordOnly(d.z % WORD * g.cie.dataAlignment, d.z * g.cie.dataAlignment);
    }
    var m' := m.(row := m.row.(cfa := Cfa(reg, offset, m.row.cfa.isExpression)));
    assert Execute(Code(d, g.section, g.cie, p), m, g.initial) == Next(m');
    CfaSet(m, m', reg, offset, regs, env, cfa);
  }

  /** The rule that the offset directives set. */
  lemma OffsetSet(m: Machine, m': Machine, reg: nat, rule: Rule, value: nat, offset: int,
                  regs: seq<nat>, env: Machinery, cfa: nat, x: nat)
    requires reg < |m.row.regs| && m' == m.(row := m.row.(regs := m.row.regs[reg := Reg(rule, value)]))
    requires WrapSigned(value) == offset
    ensures rule == OffsetN ==> SavedAt(m, m', reg, offset, regs, env, cfa, x)
    ensures rule == ValOffsetN ==> ValueIs(m, m', reg, offset, regs, env, cfa, x)
  {
  }

  predicate SetsOffset(d: Directive) {
    || d.Offset? || d.OffsetExtended? || d.OffsetExtendedSf? || d.NegativeOffsetExtended?
    || d.ValOffset? || d.ValOffsetSf?
  }

  /** The factored offset of such a directive. */
  function Factored(d: Directive, da: int): int
    requires SetsOffset(d)
  {
    if HasZ(d) then d.z * da else if d.NegativeOffsetExtended? then -(d.n * da) else d.n * da
  }

  lemma FactoredCode(d: Directive, s: Section, cie: Cie, p: nat)
    requires SetsOffset(d)
    ensures var i := Code(d, s, cie, p);
            && i.SetRegister? && i.reg == d.reg && WrapSigned(i.value) == WrapSigned(Factored(d, cie.dataAlignment))
            && i.rule == if d.ValOffset? || d.ValOffsetSf? then ValOffsetN else OffsetN
  {
    if HasZ(d) {
      SameProduct(d.z, cie.dataAlignment);
      WordOnly(d.z % WORD * cie.dataAlignment, d.z * cie.dataAlignment);
      WrapTwice(d.z % WORD * cie.dataAlignment);
    } else {
      WrapTwice(Factored(d, cie.dataAlignment));
    }
  }

  lemma ExecutesOffset(d: Directive, g: Program, p: nat, m: Machine, regs: seq<nat>, env: Machinery, cfa: nat, x: nat)
    requires SetsOffset(d) && Fits(d) && ValidMachine(m) && ValidRow(g.initial)
    ensures Executes(d, g, p, m, regs, env, cfa, x)
  {
    FactoredCode(d, g.section, g.cie, p);
    var i := Code(d, g.section, g.cie, p);
    if d.reg < MAX_NUM_REGISTERS {
      var m' := m.(row := m.row.(regs := m.row.regs[d.reg := Reg(i.rule, i.value)]));
      OffsetSet(m, m', d.reg, i.rule, i.value, WrapSigned(Factored(d, g.cie.dataAlignment)), regs, env, cfa, x);
      assert Execute(i, m, g.initial) == Next(m');
    }
  }

  lemma ExecutesExpression(d: Directive, g: Program, p: nat, m: Machine,
                           regs: seq<nat>, env: Machinery, cfa: nat, x: nat)
    requires HasBlock(d) && Fits(d) && ValidMachine(m) && ValidRow(g.initial)
    ensures Executes(d, g, p, m, regs, env, cfa, x)
  {
  }

  lemma ExecutesRule(d: Directive, g: Program, p: nat, m: Machine, regs: seq<nat>, env: Machinery, cfa: nat, x: nat)
    requires d.Undefine? || d.KeepValue? || d.InRegister? || d.Restore? || d.RestoreExtended?
    requires Fits(d) && ValidMachine(m) && ValidRow(g.initial)
    ensures Executes(d, g, p, m, regs, env, cfa, x)
  {
  }

  lemma ExecutesOther(d: Directive, g: Program, p: nat, m: Machine, regs: seq<nat>, env: Machinery, cfa: nat, x: nat)
    requires d.NoOperation? || d.SetLoc? || d.GnuArgsSize? || d.Remember? || d.Recall?
    requires Fits(d) && ValidMachine(m) && ValidRow(g.initial)
    ensures Executes(d, g, p, m, regs, env, cfa, x)
  {
  }

  lemma ExecutesDirective(d: Directive, g: Program, p: nat, m: Machine,
                          regs: seq<nat>, env: Machinery, cfa: nat, x: nat)
    requires Fits(d) && ValidMachine(m) && ValidRow(g.initial)
    ensures Executes(d, g, p, m, regs, env, cfa, x)
  {
    if Advances(d) {
      ExecutesAdvance(d, g, p, m, regs, env, cfa, x);
    } else if DefinesCfa(d) {
      ExecutesCfa(d, g, p, m, regs, env, cfa, x);
    } else if SetsOffset(d) {
      ExecutesOffset(d, g, p, m, regs, env, cfa, x);
    } else if HasBlock(d) {
      ExecutesExpression(d, g, p, m, regs, env, cfa, x);
    } else if SetsRule(d) {
      ExecutesRule(d, g, p, m, regs, env, cfa, x);
    } else {
      ExecutesOther(d, g, p, m, regs, env, cfa, x);
    }
  }

  /** The interpreter obeys every instruction: where the bytes of a directive
      stand it goes through iff the directive can run; then it stops behind these
      bytes, and the row means what the directive says. */
  lemma StepObeys(d: Directive, g: Program, p: nat, m: Machine, regs: seq<nat>, env: Machinery, cfa: nat, x: nat)
    requires Stands(d, g.section, g.cie, p) && ValidMachine(m) && ValidRow(g.initial)
    ensures StepAt(g, p, m).Stepped? <==> CanRun(d, m)
    ensures CanRun(d, m) ==>
              && StepAt(g, p, m).next == p + |Assemble(d)|
              && Obeys(d, g, p, m, StepAt(g, p, m).machine, regs, env, cfa, x)
  {
    DecodesDirective(d, g.section, g.cie, p);
    ExecutesDirective(d, g, p, m, regs, env, cfa, x);
  }

  // ---------------------------------------------------------------------------
  // Where the code does not do what the directive says
  // ---------------------------------------------------------------------------

  /** DW_CFA_def_cfa takes effect, whatever the expressions give, iff the CFA was
      not an expression before: the code does not reset its kind. */
  lemma DefineCfaWorksIff(d: Directive, g: Program, p: nat, m: Machine, regs: seq<nat>, cfa: nat)
    requires d.DefineCfa? && Stands(d, g.section, g.cie, p) && ValidMachine(m) && ValidRow(g.initial)
    requires d.reg < |regs| && d.n < HALF_WORD && cfa == (regs[d.reg] + d.n) % WORD
    ensures StepAt(g, p, m).Stepped?
    ensures (forall env :: CfaIs(StepAt(g, p, m).machine.row, regs, env, cfa)) <==> !m.row.cfa.isExpression
  {
    var none := Machinery((_: nat) => 0, (_: nat, _: nat, _: seq<nat>) => NoValue);
    StepObeys(d, g, p, m, regs, none, cfa, 0);
    var row := StepAt(g, p, m).machine.row;
    if m.row.cfa.isExpression {
      assert !CfaIs(row, regs, none, cfa);
    } else {
      forall env ensures CfaIs(row, regs, env, cfa) {
        StepObeys(d, g, p, m, regs, env, cfa, 0);
      }
    }
  }

  /** Register reg is restored to the value of register other. */
  ghost predicate IsIn(r: Reg, reg: nat, other: nat) {
    forall regs: seq<nat>, env: Machinery, cfa: nat, x: nat ::
      |regs| == NUM_REGISTERS ==> (Gives(r, reg, cfa, regs, env, x) <==> other < |regs| && x == regs[other])
  }

  lemma IsInIff(r: Reg, reg: nat, other: nat)
    requires reg < NUM_REGISTERS && other < NUM_REGISTERS
    ensures IsIn(r, reg, other) <==>
            (r.rule == RegisterRule && r.value == other) || (r.rule == SameValue && reg == other)
  {
    var regs := seq(NUM_REGISTERS, (j: nat) => j);
    var env := Machinery((_: nat) => 100, (_: nat, _: nat, _: seq<nat>) => NoValue);
    var cfa := WORD + 100 - WrapSigned(r.value);
    if IsIn(r, reg, other) {
      assert Gives(r, reg, cfa, regs, env, regs[other]);
    }
  }

  /** DW_CFA_register copies the rule of the other register and leaves the
      operand. No instruction sets a register rule, so on the rows it meets the
      register is restored from the other one only if that is the same and keeps
      its value. */
  lemma InRegisterWorksIff(d: Directive, g: Program, p: nat, m: Machine)
    requires d.InRegister? && d.reg < NUM_REGISTERS && d.other < NUM_REGISTERS
    requires Stands(d, g.section, g.cie, p) && ValidMachine(m) && ValidRow(g.initial) && NoRegisterRules(m.row)
    ensures var s := StepAt(g, p, m);
            && s.Stepped? && ValidRow(s.machine.row)
            && (IsIn(s.machine.row.regs[d.reg], d.reg, d.other) <==>
                d.reg == d.other && m.row.regs[d.reg].rule == SameValue)
  {
    StepObeys(d, g, p, m, [], Machinery((_: nat) => 0, (_: nat, _: nat, _: seq<nat>) => NoValue), 0, 0);
    IsInIff(StepAt(g, p, m).machine.row.regs[d.reg], d.reg, d.other);
  }

  ghost predicate NoRegisterRules(row: Row) {
    forall i :: 0 <= i < |row.regs| ==> row.regs[i].rule != RegisterRule
  }

  ghost predicate NeverRegisterRules(m: Machine) {
    NoRegisterRules(m.row) && forall i :: 0 <= i < |m.stack| ==> NoRegisterRules(m.stack[i])
  }

  lemma FetchSetsNone(s: Section, cie: Cie, p: nat)
    requires Fetch(s, cie, p).Fetched?
    ensures var i := Fetch(s, cie, p).instr;
            (i.SetRegister? ==> i.rule != RegisterRule) && (i.SetRule? ==> i.rule != RegisterRule)
  {
  }

  lemma ExecuteSetsNone(i: Instr, m: Machine, initial: Row)
    requires (i.SetRegister? ==> i.rule != RegisterRule) && (i.SetRule? ==> i.rule != RegisterRule)
    requires NeverRegisterRules(m) && NoRegisterRules(initial) && Execute(i, m, initial).Next?
    ensures NeverRegisterRules(Execute(i, m, initial).machine)
  {
  }

  /** No row of any frame has a register rule. */
  lemma {:induction false} LoopSetsNone(g: Program, l1: nat, p: nat, m: Machine)
    requires NeverRegisterRules(m) && NoRegisterRules(g.initial)
    ensures Loop(g, l1, p, m).Found? ==> NoRegisterRules(Loop(g, l1, p, m).row)
    decreases if p < g.end then g.end - p else 0
  {
    if p < g.end && m.loc <= l1 {
      match Fetch(g.section, g.cie, p)
      case Bad => {}
      case Fetched(i, next) =>
        FetchSetsNone(g.section, g.cie, p);
        match Execute(i, m, g.initial)
        case Abort => {}
        case Next(m') =>
          ExecuteSetsNone(i, m, g.initial);
          LoopSetsNone(g, l1, next, m');
    }
  }

  lemma RowForSetsNone(f: Frame, ip: nat)
    ensures RowFor(f, ip).Found? ==> NoRegisterRules(RowFor(f, ip).row)
  {
    var first := Machine(DefaultRow(), 0, []);
    LoopSetsNone(InitialProgram(f), 0, f.cieStart, first);
    match Loop(InitialProgram(f), 0, f.cieStart, first)
    case Aborted => {}
    case Found(row) => LoopSetsNone(FrameProgram(f, row), Wrap(ip - f.pcBegin), f.fdeStart, Machine(row, 0, []));
  }
}
