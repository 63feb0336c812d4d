/** The call frame instruction interpreter of the unwinder. It keeps only the
    current row of the table of section 6.4.1 of DWARF 4. */
module Cfi {
  import opened Bits
  import opened Leb128

  const MAX_NUM_REGISTERS: nat := 32
  const REMEMBER_STACK_SIZE: nat := 10

  datatype Rule = Undefined | SameValue | OffsetN | ValOffsetN | RegisterRule | Expression | ValExpression

  /** A register's rule and operand; its index is its place in the row. */
  datatype Reg = Reg(rule: Rule, value: nat)

  datatype Cfa = Cfa(value: nat, offset: int, isExpression: bool)

  datatype Row = Row(cfa: Cfa, argSize: nat, regs: seq<Reg>)

  ghost predicate ValidRow(r: Row) {
    |r.regs| == MAX_NUM_REGISTERS
  }

  /** cfi_table_row() */
  function DefaultRow(): (r: Row)
    ensures ValidRow(r)
  {
    Row(Cfa(0, 0, false), 0, seq(MAX_NUM_REGISTERS, _ => Reg(Undefined, 0)))
  }

  /** What the interpreter needs of a common information entry. */
  datatype Cie = Cie(codeAlignment: nat, dataAlignment: int, pointerEncoding: PointerEncoding)

  /** The pointer encoding byte: 0xFF, or the form in bits 4-6 and the format in
      bits 0-3. */
  datatype PointerEncoding = Omitted | Encoded(form: nat, format: nat)

  /** The bytes around the instructions and the address of the first one. */
  datatype Section = Section(bytes: seq<Byte>, base: nat)

  // ---------------------------------------------------------------------------
  // Decoding
  // ---------------------------------------------------------------------------

  datatype Instr =
    | Advance(delta: nat)
    | SetLocation(loc: nat)
    | Nop
    | SetRegister(reg: nat, rule: Rule, value: nat)
    | SetRule(reg: nat, rule: Rule)
    | CopyRule(reg: nat, from: nat)
    | RestoreRegister(reg: nat)
    | RememberState
    | RestoreState
    | DefCfa(value: nat, offset: int)
    | DefCfaRegister(value: nat)
    | DefCfaOffset(offset: int)
    | DefCfaExpression(value: nat)
    | ArgsSize(size: nat)

  /** An instruction and the cursor behind it; Bad covers the opcodes that abort
      and reads outside the section, which have no defined result. */
  datatype Fetched = Fetched(instr: Instr, next: nat) | Bad

  datatype Operand = Operand(value: nat, next: nat) | NoOperand

  function Uleb(s: Section, p: nat): (r: Operand)
    ensures r.Operand? ==> p < r.next
  {
    GatherBounds(s.bytes, p, 0, 0);
    match Gather(s.bytes, p, 0, 0)
    case Done((v, _), next) => Operand(v, next)
    case PastEnd => NoOperand
    case BadShift => NoOperand
  }

  /** The two's complement pattern of a signed operand. */
  function Sleb(s: Section, p: nat): (r: Operand)
    ensures r.Operand? ==> p < r.next
  {
    GatherBounds(s.bytes, p, 0, 0);
    match Gather(s.bytes, p, 0, 0)
    case Done((v, shift), next) => Operand(Extended(v, shift, s.bytes[next - 1]), next)
    case PastEnd => NoOperand
    case BadShift => NoOperand
  }

  /** get<T>: n bytes, least significant first */
  function Fixed(s: Section, p: nat, n: nat): (r: Operand)
    ensures r.Operand? ==> r.next == p + n
    decreases n
  {
    if p + n > |s.bytes| then NoOperand
    else if n == 0 then Operand(0, p)
    else
      match Fixed(s, p + 1, n - 1)
      case Operand(v, next) => Operand(s.bytes[p] + 0x100 * v, next)
      case NoOperand => NoOperand
  }

  /** 64-bit wrap-around and its signed reading. */
  function Wrap(x: int): nat { x % WORD }
  function WrapSigned(x: int): (r: int)
    ensures -HALF_WORD <= r < HALF_WORD && (r - x) % WORD == 0
    ensures -HALF_WORD <= x < HALF_WORD ==> r == x
  {
    Signed(x % WORD)
  }

  datatype Value = Value(v: nat) | NoValue

  /** add_offset: a negative offset below zero aborts, a sum wraps. */
  function AddOffset(value: nat, offset: int): Value {
    if offset >= 0 then Value(Wrap(value + offset))
    else if value >= -offset then Value(Wrap(value + offset))
    else NoValue
  }

  /** The signed reading of n bytes. */
  function SignedBytes(v: nat, n: nat): int {
    var half := if n == 2 then 0x8000 else if n == 4 then 0x8000_0000 else HALF_WORD;
    if v < half then v else v - 2 * half
  }

  /** An operand on top of a base address. */
  function Based(base: nat, a: Operand): (r: Operand)
    ensures r.Operand? ==> a.Operand? && r.next == a.next
  {
    if a.Operand? then Operand(Wrap(base + a.value), a.next) else NoOperand
  }

  function BasedSigned(base: nat, a: Operand, offset: int): (r: Operand)
    ensures r.Operand? ==> a.Operand? && r.next == a.next
  {
    if a.NoOperand? then NoOperand
    else
      match AddOffset(base, offset)
      case Value(v) => Operand(v, a.next)
      case NoValue => NoOperand
  }

  function BasedFixed(s: Section, base: nat, p: nat, n: nat): (r: Operand)
    ensures r.Operand? ==> r.next == p + n
  {
    Based(base, Fixed(s, p, n))
  }

  function BasedSignedFixed(s: Section, base: nat, p: nat, n: nat): (r: Operand)
    ensures r.Operand? ==> r.next == p + n
  {
    var a := Fixed(s, p, n);
    if a.Operand? then BasedSigned(base, a, SignedBytes(a.value, n)) else NoOperand
  }

  /** A pointer of a form, absolute or relative to its own address, and a
      format. */
  function PointerIn(s: Section, p: nat, form: nat, format: nat): (r: Operand)
    ensures r.Operand? ==> p <= r.next
  {
    if form != 0 && form != 1 then NoOperand
    else
      var base := if form == 1 then s.base + p else 0;
      match format
      case 0x00 => BasedFixed(s, base, p, 8)
      case 0x01 => Based(base, Uleb(s, p))
      case 0x02 => BasedFixed(s, base, p, 2)
      case 0x03 => BasedFixed(s, base, p, 4)
      case 0x04 => BasedFixed(s, base, p, 8)
      case 0x09 =>
        var a := Sleb(s, p);
        if a.Operand? then BasedSigned(base, a, WrapSigned(a.value)) else NoOperand
      case 0x0A => BasedSignedFixed(s, base, p, 2)
      case 0x0B => BasedSignedFixed(s, base, p, 4)
      case 0x0C => BasedSignedFixed(s, base, p, 8)
      case _ => NoOperand
  }

  /** decode_pointer */
  function DecodePointer(s: Section, p: nat, encoding: PointerEncoding): (r: Operand)
    ensures r.Operand? ==> p <= r.next
  {
    match encoding
    case Omitted => Operand(0, p)
    case Encoded(form, format) => PointerIn(s, p, form, format)
  }

  function WithOne(a: Operand, f: nat -> Instr): (r: Fetched)
    ensures r.Fetched? ==> a.Operand? && r.next == a.next
  {
    if a.Operand? then Fetched(f(a.value), a.next) else Bad
  }

  function WithTwo(s: Section, a: Operand, signed: bool, f: (nat, nat) -> Instr): (r: Fetched)
    ensures r.Fetched? ==> a.Operand? && a.next < r.next
  {
    if a.NoOperand? then Bad
    else
      var b := if signed then Sleb(s, a.next) else Uleb(s, a.next);
      if b.Operand? then Fetched(f(a.value, b.value), b.next) else Bad
  }

  /** An expression block: the instruction refers to the address p, and the
      cursor moves over the length and that many bytes. */
  function OverBlock(s: Section, p: nat, f: nat -> Instr): (r: Fetched)
    ensures r.Fetched? ==> p < r.next
  {
    var len := Uleb(s, p);
    if len.NoOperand? || s.base + len.next + len.value >= WORD then Bad
    else Fetched(f(s.base + p), len.next + len.value)
  }

  /** The instruction at p. */
  function Fetch(s: Section, cie: Cie, p: nat): (r: Fetched)
    ensures r.Fetched? ==> p < r.next
  {
    if p >= |s.bytes| then Bad
    else
      var high := s.bytes[p] / 0x40;
      var operand := s.bytes[p] % 0x40;
      var q := p + 1;
      if high == 1 then Fetched(Advance(Wrap(operand * cie.codeAlignment)), q)
      else if high == 2 then
        WithOne(Uleb(s, q), (v: nat) => SetRegister(operand, OffsetN, Wrap(v * cie.dataAlignment)))
      else if high == 3 then Fetched(RestoreRegister(operand), q)
      else
        match operand
        case 0x00 => Fetched(Nop, q)
        case 0x01 => WithOne(DecodePointer(s, q, cie.pointerEncoding), (v: nat) => SetLocation(Wrap(v)))
        case 0x02 => WithOne(Fixed(s, q, 1), (v: nat) => Advance(Wrap(v * cie.codeAlignment)))
        case 0x03 => WithOne(Fixed(s, q, 2), (v: nat) => Advance(Wrap(v * cie.codeAlignment)))
        case 0x04 => WithOne(Fixed(s, q, 4), (v: nat) => Advance(Wrap(v * cie.codeAlignment)))
        case 0x05 =>
          WithTwo(s, Uleb(s, q), false, (r: nat, v: nat) => SetRegister(r, OffsetN, Wrap(v * cie.dataAlignment)))
        case 0x06 => WithOne(Uleb(s, q), (r: nat) => RestoreRegister(r))
        case 0x07 => WithOne(Uleb(s, q), (r: nat) => SetRule(r, Undefined))
        case 0x08 => WithOne(Uleb(s, q), (r: nat) => SetRule(r, SameValue))
        case 0x09 => WithTwo(s, Uleb(s, q), false, (r: nat, from: nat) => CopyRule(r, from))
        case 0x0A => Fetched(RememberState, q)
        case 0x0B => Fetched(RestoreState, q)
        case 0x0C => WithTwo(s, Uleb(s, q), false, (r: nat, v: nat) => DefCfa(r, WrapSigned(v)))
        case 0x0D => WithOne(Uleb(s, q), (r: nat) => DefCfaRegister(r))
        case 0x0E => WithOne(Uleb(s, q), (v: nat) => DefCfaOffset(WrapSigned(v)))
        case 0x0F => OverBlock(s, q, (a: nat) => DefCfaExpression(a))
        case 0x10 => RegisterBlock(s, Uleb(s, q), Expression)
        case 0x11 =>
          WithTwo(s, Uleb(s, q), true, (r: nat, v: nat) => SetRegister(r, OffsetN, Wrap(v * cie.dataAlignment)))
        case 0x12 => WithTwo(s, Uleb(s, q), true, (r: nat, v: nat) => DefCfa(r, WrapSigned(v * cie.dataAlignment)))
        case 0x13 => WithOne(Sleb(s, q), (v: nat) => DefCfaOffset(WrapSigned(v * cie.dataAlignment)))
        case 0x14 =>
          WithTwo(s, Uleb(s, q), false, (r: nat, v: nat) => SetRegister(r, ValOffsetN, Wrap(v * cie.dataAlignment)))
        case 0x15 =>
          WithTwo(s, Uleb(s, q), true, (r: nat, v: nat) => SetRegister(r, ValOffsetN, Wrap(v * cie.dataAlignment)))
        case 0x16 => RegisterBlock(s, Uleb(s, q), ValExpression)
        case 0x2E => WithOne(Uleb(s, q), (v: nat) => ArgsSize(v))
        case 0x2F =>
          WithTwo(s, Uleb(s, q), false, (r: nat, v: nat) => SetRegister(r, OffsetN, Wrap(-(v * cie.dataAlignment))))
        case _ => Bad
  }

  function RegisterBlock(s: Section, reg: Operand, rule: Rule): (r: Fetched)
    ensures r.Fetched? ==> reg.Operand? && reg.next < r.next
  {
    if reg.Operand? then OverBlock(s, reg.next, (a: nat) => SetRegister(reg.value, rule, a)) else Bad
  }

  // ---------------------------------------------------------------------------
  // Execution
  // ---------------------------------------------------------------------------

  /** The row, the location l2 and the remember stack, top last. */
  datatype Machine = Machine(row: Row, loc: nat, stack: seq<Row>)

  datatype Outcome = Next(machine: Machine) | Abort

  ghost predicate ValidMachine(m: Machine) {
    && ValidRow(m.row) && m.loc < WORD
    && |m.stack| <= REMEMBER_STACK_SIZE && forall i :: 0 <= i < |m.stack| ==> ValidRow(m.stack[i])
  }

  function SetReg(m: Machine, reg: nat, value: Reg): Outcome {
    if reg < |m.row.regs| then Next(m.(row := m.row.(regs := m.row.regs[reg := value]))) else Abort
  }

  /** private_parse_instruction after decoding */
  function Execute(i: Instr, m: Machine, initial: Row): Outcome {
    match i
    case Advance(delta) => Next(m.(loc := Wrap(m.loc + delta)))
    case SetLocation(loc) => Next(m.(loc := Wrap(loc)))
    case Nop => Next(m)
    case SetRegister(reg, rule, value) => SetReg(m, reg, Reg(rule, value))
    case SetRule(reg, rule) =>
      if reg < |m.row.regs| then SetReg(m, reg, m.row.regs[reg].(rule := rule)) else Abort
    case CopyRule(reg, from) =>
      if reg < |m.row.regs| && from < |m.row.regs|
      then SetReg(m, reg, m.row.regs[reg].(rule := m.row.regs[from].rule)) else Abort
    case RestoreRegister(reg) =>
      if reg < |initial.regs| then SetReg(m, reg, initial.regs[reg]) else Abort
    case RememberState =>
      if |m.stack| >= REMEMBER_STACK_SIZE then Abort else Next(m.(stack := m.stack + [m.row]))
    case RestoreState =>
      if m.stack == [] then Abort
      else Next(m.(row := m.stack[|m.stack| - 1], stack := m.stack[..|m.stack| - 1]))
    case DefCfa(value, offset) =>
      Next(m.(row := m.row.(cfa := m.row.cfa.(value := value, offset := offset))))
    case DefCfaRegister(value) => Next(m.(row := m.row.(cfa := m.row.cfa.(value := value))))
    case DefCfaOffset(offset) => Next(m.(row := m.row.(cfa := m.row.cfa.(offset := offset))))
    case DefCfaExpression(value) =>
      Next(m.(row := m.row.(cfa := m.row.cfa.(value := value, isExpression := true))))
    case ArgsSize(size) => Next(m.(row := m.row.(argSize := size)))
  }

  lemma ExecuteKeepsValid(i: Instr, m: Machine, initial: Row)
    requires ValidMachine(m) && ValidRow(initial)
    ensures Execute(i, m, initial).Next? ==> ValidMachine(Execute(i, m, initial).machine)
  {
  }

  /** The program: where it lies and how it is aligned. */
  datatype Program = Program(section: Section, cie: Cie, end: nat, initial: Row)

  datatype Result = Found(row: Row) | Aborted

  /** The loop of private_parse_instructions from cursor p on. */
  ghost function Loop(g: Program, l1: nat, p: nat, m: Machine): Result
    decreases if p < g.end then g.end - p else 0
  {
    if p >= g.end || l1 < m.loc then Found(m.row)
    else
      match Fetch(g.section, g.cie, p)
      case Bad => Aborted
      case Fetched(i, next) =>
        match Execute(i, m, g.initial)
        case Abort => Aborted
        case Next(m') => Loop(g, l1, next, m')
  }

  method ParseInstructions(g: Program, l1: nat, start: nat) returns (r: Result)
    ensures r == Loop(g, l1, start, Machine(g.initial, 0, []))
  {
    var p := start;
    var row, l2, stack := g.initial, 0, [];
    while p < g.end && l1 >= l2
      invariant Loop(g, l1, p, Machine(row, l2, stack)) == Loop(g, l1, start, Machine(g.initial, 0, []))
      decreases g.end - p
    {
      var f := Fetch(g.section, g.cie, p);
      if f.Bad? {
        return Aborted;
      }
      var o := Execute(f.instr, Machine(row, l2, stack), g.initial);
      if o.Abort? {
        return Aborted;
      }
      p := f.next;
      row, l2, stack := o.machine.row, o.machine.loc, o.machine.stack;
    }
    return Found(row);
  }

  // ---------------------------------------------------------------------------
  // The full table
  // ---------------------------------------------------------------------------

  datatype TableRow = TableRow(loc: nat, row: Row)

  /** All rows, in order, and whether building them ended in an abort; then the
      last row is the one under construction. */
  datatype Table = Table(rows: seq<TableRow>, aborted: bool)

  /** The instructions that close the current row and open the next. */
  predicate Opens(i: Instr) {
    i.Advance? || i.SetLocation?
  }

  /** The table of the whole program: the same steps without the early stop. */
  ghost function BuildTable(g: Program, p: nat, m: Machine): (t: Table)
    ensures |t.rows| > 0 && t.rows[0].loc == m.loc
    decreases if p < g.end then g.end - p else 0
  {
    if p >= g.end then Table([TableRow(m.loc, m.row)], false)
    else
      match Fetch(g.section, g.cie, p)
      case Bad => Table([TableRow(m.loc, m.row)], true)
      case Fetched(i, next) =>
        match Execute(i, m, g.initial)
        case Abort => Table([TableRow(m.loc, m.row)], true)
        case Next(m') =>
          var rest := BuildTable(g, next, m');
          if Opens(i) then Table([TableRow(m.loc, m.row)] + rest.rows, rest.aborted)
          else
            ExecuteKeepsLoc(i, m, g.initial);
            rest
  }

  lemma ExecuteKeepsLoc(i: Instr, m: Machine, initial: Row)
    requires Execute(i, m, initial).Next?
    ensures !Opens(i) ==> Execute(i, m, initial).machine.loc == m.loc
    ensures Opens(i) ==> Execute(i, m, initial).machine.row == m.row
  {
  }

  /** The first row beyond l1, or the number of rows. */
  ghost function FirstBeyond(rows: seq<TableRow>, l1: nat): (k: nat)
    ensures k <= |rows|
    ensures forall i :: 0 <= i < k ==> rows[i].loc <= l1
    ensures k < |rows| ==> rows[k].loc > l1
  {
    if rows == [] then 0
    else if rows[0].loc > l1 then 0
    else
      var k := FirstBeyond(rows[1..], l1);
      assert forall i :: 0 < i < 1 + k ==> rows[i] == rows[1..][i - 1];
      1 + k
  }

  /** The row in front of the first one beyond l1; an abort if building the table
      aborted in front of any such row. */
  ghost function RowBefore(t: Table, l1: nat): Result {
    var k := FirstBeyond(t.rows, l1);
    if k == 0 || (k == |t.rows| && t.aborted) then Aborted else Found(t.rows[k - 1].row)
  }

  lemma RowBeforeCons(first: TableRow, rest: Table, l1: nat)
    requires first.loc <= l1 && rest.rows != []
    ensures RowBefore(Table([first] + rest.rows, rest.aborted), l1) ==
            if rest.rows[0].loc > l1 then Found(first.row) else RowBefore(rest, l1)
  {
    assert ([first] + rest.rows)[1..] == rest.rows;
  }

  /** One instruction of the loop and of the table. */
  lemma StepOfBoth(g: Program, l1: nat, p: nat, m: Machine, i: Instr, next: nat, m': Machine)
    requires p < g.end && m.loc <= l1
    requires Fetch(g.section, g.cie, p) == Fetched(i, next) && Execute(i, m, g.initial) == Next(m')
    ensures p < next && Loop(g, l1, p, m) == Loop(g, l1, next, m')
    ensures var rest := BuildTable(g, next, m');
            BuildTable(g, p, m) ==
            if Opens(i) then Table([TableRow(m.loc, m.row)] + rest.rows, rest.aborted) else rest
    ensures if Opens(i) then m'.row == m.row else m'.loc == m.loc
  {
    ExecuteKeepsLoc(i, m, g.initial);
  }

  lemma EndOfBoth(g: Program, l1: nat, p: nat, m: Machine)
    requires m.loc <= l1
    requires p >= g.end || Fetch(g.section, g.cie, p).Bad?
             || Execute(Fetch(g.section, g.cie, p).instr, m, g.initial).Abort?
    ensures Loop(g, l1, p, m) == RowBefore(BuildTable(g, p, m), l1)
  {
  }

  /** For every program the loop returns the row in front of the first one beyond
      l1, and aborts iff building the table aborts before any such row. */
  lemma {:induction false} LoopStopsAtFirstBeyond(g: Program, l1: nat, p: nat, m: Machine)
    requires m.loc <= l1
    ensures Loop(g, l1, p, m) == RowBefore(BuildTable(g, p, m), l1)
    ensures FirstBeyond(BuildTable(g, p, m).rows, l1) > 0
    decreases if p < g.end then g.end - p else 0
  {
    if p >= g.end || Fetch(g.section, g.cie, p).Bad?
       || Execute(Fetch(g.section, g.cie, p).instr, m, g.initial).Abort?
    {
      EndOfBoth(g, l1, p, m);
    } else {
      var Fetched(i, next) := Fetch(g.section, g.cie, p);
      var m' := Execute(i, m, g.initial).machine;
      StepOfBoth(g, l1, p, m, i, next, m');
      if Opens(i) {
        RowBeforeCons(TableRow(m.loc, m.row), BuildTable(g, next, m'), l1);
      }
      if m'.loc <= l1 {
        LoopStopsAtFirstBeyond(g, l1, next, m');
      }
    }
  }

  /** No advance wraps around, and no location that is set lies in front of the
      current one. */
  ghost predicate Ascends(g: Program, p: nat, m: Machine)
    decreases if p < g.end then g.end - p else 0
  {
    p < g.end ==>
      match Fetch(g.section, g.cie, p)
      case Bad => true
      case Fetched(i, next) =>
        && (i.Advance? ==> m.loc + i.delta < WORD)
        && (i.SetLocation? ==> m.loc <= i.loc)
        && match Execute(i, m, g.initial)
           case Abort => true
           case Next(m') => Ascends(g, next, m')
  }

  ghost predicate Sorted(rows: seq<TableRow>) {
    forall i, j :: 0 <= i < j < |rows| ==> rows[i].loc <= rows[j].loc
  }

  lemma FetchedInWord(s: Section, cie: Cie, p: nat)
    requires Fetch(s, cie, p).Fetched?
    ensures var i := Fetch(s, cie, p).instr; (i.Advance? ==> i.delta < WORD) && (i.SetLocation? ==> i.loc < WORD)
  {
  }

  /** A wrapped advance always lowers the location. */
  lemma OpenRaisesIff(i: Instr, m: Machine, initial: Row)
    requires Opens(i) && m.loc < WORD
    requires (i.Advance? ==> i.delta < WORD) && (i.SetLocation? ==> i.loc < WORD)
    ensures var o := Execute(i, m, initial);
            && o.Next? && o.machine.loc < WORD
            && (m.loc <= o.machine.loc <==>
                (i.Advance? ==> m.loc + i.delta < WORD) && (i.SetLocation? ==> m.loc <= i.loc))
  {
  }

  lemma SortedCons(first: TableRow, rest: seq<TableRow>)
    requires rest != []
    ensures Sorted([first] + rest) <==> first.loc <= rest[0].loc && Sorted(rest)
  {
    var rows := [first] + rest;
    if Sorted(rows) {
      assert rows[0].loc <= rows[1].loc;
      forall i, j | 0 <= i < j < |rest| ensures rest[i].loc <= rest[j].loc {
        assert rows[i + 1] == rest[i] && rows[j + 1] == rest[j];
      }
    }
    if first.loc <= rest[0].loc && Sorted(rest) {
      forall i, j | 0 <= i < j < |rows| ensures rows[i].loc <= rows[j].loc {
        assert rows[j] == rest[j - 1];
        if i > 0 { assert rows[i] == rest[i - 1]; }
      }
    }
  }

  /** The table is sorted by location iff the program ascends. */
  lemma {:induction false} SortedIffAscends(g: Program, p: nat, m: Machine)
    requires m.loc < WORD
    ensures Sorted(BuildTable(g, p, m).rows) <==> Ascends(g, p, m)
    decreases if p < g.end then g.end - p else 0
  {
    if p < g.end && Fetch(g.section, g.cie, p).Fetched? {
      FetchedInWord(g.section, g.cie, p);
      var Fetched(i, next) := Fetch(g.section, g.cie, p);
      if Opens(i) {
        OpenRaisesIff(i, m, g.initial);
      }
      match Execute(i, m, g.initial)
      case Abort => {}
      case Next(m') =>
        ExecuteKeepsLoc(i, m, g.initial);
        SortedIffAscends(g, next, m');
        SortedCons(TableRow(m.loc, m.row), BuildTable(g, next, m').rows);
    }
  }

  /** k is the last row whose location is at most l1. */
  ghost predicate LastAtMost(rows: seq<TableRow>, l1: nat, k: int) {
    0 <= k < |rows| && rows[k].loc <= l1 && forall j :: k < j < |rows| ==> rows[j].loc > l1
  }

  /** If the program ascends the single-row loop is a table look-up: it returns
      the last row with location at most l1. */
  lemma LoopIsTableLookup(g: Program, l1: nat, p: nat, m: Machine) returns (k: nat)
    requires m.loc <= l1 && m.loc < WORD && Ascends(g, p, m)
    ensures var t := BuildTable(g, p, m);
            && LastAtMost(t.rows, l1, k)
            && Loop(g, l1, p, m) == if k == |t.rows| - 1 && t.aborted then Aborted else Found(t.rows[k].row)
  {
    LoopStopsAtFirstBeyond(g, l1, p, m);
    SortedIffAscends(g, p, m);
    k := FirstBeyond(BuildTable(g, p, m).rows, l1) - 1;
  }

  /** The row in front of the first one beyond l1, which is the loop's choice, is
      the last one at most l1. */
  ghost predicate StopsAtLast(rows: seq<TableRow>, l1: nat) {
    LastAtMost(rows, l1, FirstBeyond(rows, l1) - 1)
  }

  lemma StopsAtLastIffSorted(rows: seq<TableRow>)
    requires rows != [] && rows[0].loc == 0
    ensures (forall l1: nat :: StopsAtLast(rows, l1)) <==> Sorted(rows)
  {
    if Sorted(rows) {
      forall l1: nat ensures StopsAtLast(rows, l1) {
        var k := FirstBeyond(rows, l1);
        assert k > 0;
      }
    }
    if forall l1: nat :: StopsAtLast(rows, l1) {
      forall i, j | 0 <= i < j < |rows| ensures rows[i].loc <= rows[j].loc {
        var k := FirstBeyond(rows, rows[j].loc);
        assert StopsAtLast(rows, rows[j].loc);
        assert j <= k - 1;
      }
    }
  }

  /** From location 0, where it always starts, the loop stops at the row that the
      look-up finds, for every location, iff the program ascends. */
  lemma LookupIffAscends(g: Program, p: nat, m: Machine)
    requires m.loc == 0
    ensures (forall l1: nat :: StopsAtLast(BuildTable(g, p, m).rows, l1)) <==> Ascends(g, p, m)
  {
    SortedIffAscends(g, p, m);
    StopsAtLastIffSorted(BuildTable(g, p, m).rows);
  }

  // ---------------------------------------------------------------------------
  // Remember and restore
  // ---------------------------------------------------------------------------

  ghost function ExecuteAll(code: seq<Instr>, m: Machine, initial: Row): Outcome {
    if code == [] then Next(m)
    else
      match Execute(code[0], m, initial)
      case Abort => Abort
      case Next(m') => ExecuteAll(code[1..], m', initial)
  }

  /** Every restore answers a remember of it, and depth returns to where it
      began. */
  ghost predicate Balanced(code: seq<Instr>, depth: nat) {
    if code == [] then depth == 0
    else
      match code[0]
      case RememberState => Balanced(code[1..], depth + 1)
      case RestoreState => depth > 0 && Balanced(code[1..], depth - 1)
      case _ => Balanced(code[1..], depth)
  }

  /** A balanced stretch that does not abort leaves the stack below it as it
      was, level by level. */
  lemma {:induction false} BalancedKeepsStack(code: seq<Instr>, m: Machine, initial: Row, depth: nat)
    requires Balanced(code, depth) && depth <= |m.stack| && ExecuteAll(code, m, initial).Next?
    ensures ExecuteAll(code, m, initial).machine.stack == m.stack[..|m.stack| - depth]
    decreases |code|
  {
    if code != [] {
      var m' := Execute(code[0], m, initial).machine;
      var d := match code[0] case RememberState => depth + 1 case RestoreState => depth - 1 case _ => depth;
      BalancedKeepsStack(code[1..], m', initial, d);
    } else {
      assert m.stack[..|m.stack|] == m.stack;
    }
  }

  lemma {:induction false} ExecuteAllAppend(a: seq<Instr>, b: seq<Instr>, m: Machine, initial: Row)
    ensures ExecuteAll(a + b, m, initial) ==
            match ExecuteAll(a, m, initial)
            case Abort => Abort
            case Next(m') => ExecuteAll(b, m', initial)
    decreases |a|
  {
    if a == [] {
      assert a + b == b;
    } else {
      assert (a + b)[1..] == a[1..] + b;
      match Execute(a[0], m, initial)
      case Abort => {}
      case Next(m') => ExecuteAllAppend(a[1..], b, m', initial);
    }
  }

  /** remember ; balanced body ; restore, when nothing in it aborts, leaves row
      and stack exactly as they were: only the location has moved on. */
  lemma RememberRestore(body: seq<Instr>, m: Machine, initial: Row)
    requires Balanced(body, 0)
    requires ExecuteAll([RememberState] + body + [RestoreState], m, initial).Next?
    ensures var m' := ExecuteAll([RememberState] + body + [RestoreState], m, initial).machine;
            m'.row == m.row && m'.stack == m.stack
  {
    var whole := [RememberState] + body + [RestoreState];
    assert whole == [RememberState] + (body + [RestoreState]);
    assert whole[1..] == body + [RestoreState];
    var pushed := m.(stack := m.stack + [m.row]);
    assert Execute(RememberState, m, initial) == Next(pushed);
    ExecuteAllAppend(body, [RestoreState], pushed, initial);
    BalancedKeepsStack(body, pushed, initial, 0);
    var after := ExecuteAll(body, pushed, initial).machine;
    assert pushed.stack[..|pushed.stack|] == pushed.stack;
    assert ExecuteAll([RestoreState], after, initial) ==
           Next(after.(row := m.row, stack := m.stack)) by {
      assert [RestoreState][1..] == [];
      assert (m.stack + [m.row])[..|m.stack|] == m.stack;
    }
  }

  /** How far a stretch of code raises the remember stack at most. */
  function Peak(code: seq<Instr>): nat {
    if code == [] then 0
    else
      var rest := Peak(code[1..]);
      match code[0]
      case RememberState => rest + 1
      case RestoreState => if rest == 0 then 0 else rest - 1
      case _ => rest
  }

  predicate OperandsInRange(i: Instr) {
    match i
    case SetRegister(reg, _, _) => reg < MAX_NUM_REGISTERS
    case SetRule(reg, _) => reg < MAX_NUM_REGISTERS
    case CopyRule(reg, from) => reg < MAX_NUM_REGISTERS && from < MAX_NUM_REGISTERS
    case RestoreRegister(reg) => reg < MAX_NUM_REGISTERS
    case _ => true
  }

  /** Balanced code on existing registers runs through iff it never needs more
      than the ten remember slots. */
  lemma {:induction false} RunsIffStackFits(code: seq<Instr>, m: Machine, initial: Row, depth: nat)
    requires ValidMachine(m) && ValidRow(initial)
    requires Balanced(code, depth) && depth <= |m.stack|
    requires forall k :: 0 <= k < |code| ==> OperandsInRange(code[k])
    ensures ExecuteAll(code, m, initial).Next? <==> |m.stack| + Peak(code) <= REMEMBER_STACK_SIZE
    decreases |code|
  {
    if code != [] {
      assert OperandsInRange(code[0]);
      match Execute(code[0], m, initial)
      case Abort => {}
      case Next(m') =>
        ExecuteKeepsValid(code[0], m, initial);
        var d := match code[0] case RememberState => depth + 1 case RestoreState => depth - 1 case _ => depth;
        RunsIffStackFits(code[1..], m', initial, d);
    }
  }

  /** The bytes from p to q decode to code. */
  ghost predicate Decodes(g: Program, p: nat, q: nat, code: seq<Instr>)
    decreases |code|
  {
    if code == [] then p == q
    else
      && p < g.end && Fetch(g.section, g.cie, p).Fetched? && Fetch(g.section, g.cie, p).instr == code[0]
      && Decodes(g, Fetch(g.section, g.cie, p).next, q, code[1..])
  }

  /** The location stays at most l1 in front of every instruction of code. */
  ghost predicate Reaches(code: seq<Instr>, m: Machine, initial: Row, l1: nat) {
    code != [] ==>
      && m.loc <= l1
      && match Execute(code[0], m, initial)
         case Abort => true
         case Next(m') => Reaches(code[1..], m', initial, l1)
  }

  /** The loop over bytes does what the decoded instructions do. */
  lemma {:induction false} LoopRunsBlock(g: Program, l1: nat, p: nat, q: nat, m: Machine, code: seq<Instr>)
    requires Decodes(g, p, q, code) && Reaches(code, m, g.initial, l1)
    ensures Loop(g, l1, p, m) ==
            match ExecuteAll(code, m, g.initial)
            case Abort => Aborted
            case Next(m') => Loop(g, l1, q, m')
    decreases |code|
  {
    if code != [] {
      match Execute(code[0], m, g.initial)
      case Abort => {}
      case Next(m') => LoopRunsBlock(g, l1, Fetch(g.section, g.cie, p).next, q, m', code[1..]);
    }
  }

  lemma {:induction false} BalancedInside(body: seq<Instr>, depth: nat)
    requires Balanced(body, depth)
    ensures Balanced(body + [RestoreState], depth + 1)
    decreases |body|
  {
    if body == [] {
      assert body + [RestoreState] == [RestoreState] && [RestoreState][1..] == [];
    } else {
      assert (body + [RestoreState])[1..] == body[1..] + [RestoreState];
      match body[0]
      case RememberState => BalancedInside(body[1..], depth + 1);
      case RestoreState => BalancedInside(body[1..], depth - 1);
      case _ => BalancedInside(body[1..], depth);
    }
  }

  /** In the byte stream: a block remember ; balanced body ; restore on existing
      registers that fits the remember stack only moves the location, as if the
      row in front of it had been left alone. */
  lemma BlockLeavesRow(g: Program, l1: nat, p: nat, q: nat, m: Machine, body: seq<Instr>) returns (loc: nat)
    requires ValidMachine(m) && ValidRow(g.initial) && Balanced(body, 0)
    requires forall k :: 0 <= k < |body| ==> OperandsInRange(body[k])
    requires |m.stack| + Peak([RememberState] + body + [RestoreState]) <= REMEMBER_STACK_SIZE
    requires Decodes(g, p, q, [RememberState] + body + [RestoreState])
    requires Reaches([RememberState] + body + [RestoreState], m, g.initial, l1)
    ensures ExecuteAll([RememberState] + body + [RestoreState], m, g.initial) == Next(m.(loc := loc))
    ensures Loop(g, l1, p, m) == Loop(g, l1, q, m.(loc := loc))
  {
    var whole := [RememberState] + body + [RestoreState];
    assert whole[1..] == body + [RestoreState];
    BalancedInside(body, 0);
    assert Balanced(whole, 0);
    RunsIffStackFits(whole, m, g.initial, 0);
    RememberRestore(body, m, g.initial);
    LoopRunsBlock(g, l1, p, q, m, whole);
    loc := ExecuteAll(whole, m, g.initial).machine.loc;
  }

  // ---------------------------------------------------------------------------
  // Both passes
  // ---------------------------------------------------------------------------

  /** Where the two instruction streams of a frame description entry lie. */
  datatype Frame = Frame(section: Section, cie: Cie,
                         cieStart: nat, cieEnd: nat, fdeStart: nat, fdeEnd: nat, pcBegin: nat)

  function InitialProgram(f: Frame): Program {
    Program(f.section, f.cie, f.cieEnd, DefaultRow())
  }

  function FrameProgram(f: Frame, initial: Row): Program {
    Program(f.section, f.cie, f.fdeEnd, initial)
  }

  /** The row of the frame at an instruction pointer: the look-up with the row
      that the initial instructions leave. */
  ghost function RowFor(f: Frame, ip: nat): Result {
    match Loop(InitialProgram(f), 0, f.cieStart, Machine(DefaultRow(), 0, []))
    case Aborted => Aborted
    case Found(row) => Loop(FrameProgram(f, row), Wrap(ip - f.pcBegin), f.fdeStart, Machine(row, 0, []))
  }

  lemma {:induction false} LoopKeepsValid(g: Program, l1: nat, p: nat, m: Machine)
    requires ValidMachine(m) && ValidRow(g.initial)
    ensures Loop(g, l1, p, m).Found? ==> ValidRow(Loop(g, l1, p, m).row)
    decreases if p < g.end then g.end - p else 0
  {
    if p < g.end && m.loc <= l1 {
      match Fetch(g.section, g.cie, p)
      case Bad => {}
      case Fetched(i, next) =>
        ExecuteKeepsValid(i, m, g.initial);
        match Execute(i, m, g.initial)
        case Abort => {}
        case Next(m') => LoopKeepsValid(g, l1, next, m');
    }
  }

  lemma RowForIsValid(f: Frame, ip: nat)
    ensures RowFor(f, ip).Found? ==> ValidRow(RowFor(f, ip).row)
  {
    var first := Machine(DefaultRow(), 0, []);
    LoopKeepsValid(InitialProgram(f), 0, f.cieStart, first);
    match Loop(InitialProgram(f), 0, f.cieStart, first)
    case Aborted => {}
    case Found(row) => LoopKeepsValid(FrameProgram(f, row), Wrap(ip - f.pcBegin), f.fdeStart, Machine(row, 0, []));
  }

  /** private_decode_cfi: the initial instructions, then those of the frame up
      to the instruction pointer. */
  method DecodeCfi(f: Frame, ip: nat) returns (r: Result)
    ensures r == RowFor(f, ip)
  {
    r := ParseInstructions(InitialProgram(f), 0, f.cieStart);
    if r.Found? {
      r := ParseInstructions(FrameProgram(f, r.row), Wrap(ip - f.pcBegin), f.fdeStart);
    }
  }

  /** The three instructions of the program below. */
  lemma OverflowCode()
    ensures var s, c := Section([0x41, 0x0E, 0x08, 0x41], 0x1000), Cie(0x8000_0000_0000_0000, 1, Omitted);
            && Fetch(s, c, 0) == Fetched(Advance(0x8000_0000_0000_0000), 1)
            && Fetch(s, c, 1) == Fetched(DefCfaOffset(8), 3)
            && Fetch(s, c, 3) == Fetched(Advance(0x8000_0000_0000_0000), 4)
  {
    var s, c := Section([0x41, 0x0E, 0x08, 0x41], 0x1000), Cie(0x8000_0000_0000_0000, 1, Omitted);
    assert Fetch(s, c, 1) == Fetched(DefCfaOffset(8), 3) by {
      assert Or(0, Chunk(8, 0)) == 8;
      assert Gather(s.bytes, 2, 0, 0) == Done((8, 7), 3);
    }
  }

  /** A code alignment of 2^63 makes the second advance wrap to location 0: the
      loop has stopped at the first, the table look-up finds the row behind. */
  lemma OverflowDefeatsLookup()
    ensures var s := Section([0x41, 0x0E, 0x08, 0x41], 0x1000);
            var g := Program(s, Cie(0x8000_0000_0000_0000, 1, Omitted), 4, DefaultRow());
            var m := Machine(DefaultRow(), 0, []);
            var t := BuildTable(g, 0, m);
            && !Ascends(g, 0, m) && LastAtMost(t.rows, 0, 2)
            && Loop(g, 0, 0, m) == Found(DefaultRow()) && t.rows[2].row != DefaultRow()
  {
    var s := Section([0x41, 0x0E, 0x08, 0x41], 0x1000);
    var c := Cie(0x8000_0000_0000_0000, 1, Omitted);
    var g := Program(s, c, 4, DefaultRow());
    var half := 0x8000_0000_0000_0000;
    var m0 := Machine(DefaultRow(), 0, []);
    var m1 := m0.(loc := half);
    var m2 := m1.(row := m1.row.(cfa := m1.row.cfa.(offset := 8)));
    var m3 := m2.(loc := 0);
    OverflowCode();
    assert BuildTable(g, 4, m3) == Table([TableRow(0, m3.row)], false);
    assert BuildTable(g, 3, m2) == Table([TableRow(half, m2.row), TableRow(0, m3.row)], false);
    assert BuildTable(g, 1, m1) == BuildTable(g, 3, m2);
    assert BuildTable(g, 0, m0) == Table([TableRow(0, m0.row), TableRow(half, m2.row), TableRow(0, m3.row)], false);
    assert !Ascends(g, 3, m2);
    assert !Ascends(g, 1, m1);
    assert Loop(g, 0, 1, m1) == Found(DefaultRow());
  }
}
