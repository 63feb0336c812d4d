/** The frame of a function that saves rbp, from the bytes of its call frame
    instructions to the registers of the caller, wherever it was interrupted. */
module StandardFrame {
  import opened Bits
  import opened Leb128
  import opened Cfi
  import opened Unwind
  import opened CfiMeaning

  const RBP: nat := 6

  /** DW_CFA_def_cfa rsp, 8 ; DW_CFA_offset rip, 1 */
  const INITIAL: seq<Directive> := [DefineCfa(RSP, 8), Offset(RIP, 1)]

  /** Behind push rbp (one byte), behind mov rbp, rsp (three more), and behind
      the pop of rbp. */
  function Own(body: nat): seq<Directive> {
    [AdvanceLoc(1), DefineCfaOffset(16), Offset(RBP, 2), AdvanceLoc(3), DefineCfaRegister(RBP),
     AdvanceLoc4(body), DefineCfa(RSP, 8)]
  }

  /** The directives stand one behind the other; at lists where each begins, and
      the end. */
  ghost predicate AllStand(ds: seq<Directive>, s: Section, cie: Cie, at: seq<nat>) {
    |at| == |ds| + 1 && forall k :: 0 <= k < |ds| ==> Between(ds[k], s, cie, at[k], at[k + 1])
  }

  ghost predicate Between(d: Directive, s: Section, cie: Cie, p: nat, q: nat) {
    Stands(d, s, cie, p) && q == p + |Assemble(d)|
  }

  /** The decoded form of directives without blocks, which does not depend on
      where they stand. */
  ghost predicate Coded(ds: seq<Directive>, code: seq<Instr>, s: Section, cie: Cie) {
    && |code| == |ds|
    && forall k :: 0 <= k < |ds| ==> !HasBlock(ds[k]) && code[k] == Code(ds[k], s, cie, 0)
  }

  lemma CodeAnywhere(d: Directive, s: Section, cie: Cie, p: nat)
    requires !HasBlock(d)
    ensures Code(d, s, cie, p) == Code(d, s, cie, 0)
  {
  }

  lemma OneDecodes(d: Directive, g: Program, p: nat, q: nat, i: Instr)
    requires Between(d, g.section, g.cie, p, q) && !HasBlock(d) && i == Code(d, g.section, g.cie, 0)
    ensures p < q && Fetch(g.section, g.cie, p) == Fetched(i, q)
  {
    DecodesDirective(d, g.section, g.cie, p);
    CodeAnywhere(d, g.section, g.cie, p);
  }

  /** From the k-th directive on. */
  lemma {:induction false} AllDecode(ds: seq<Directive>, code: seq<Instr>, g: Program, at: seq<nat>, k: nat)
    requires AllStand(ds, g.section, g.cie, at) && Coded(ds, code, g.section, g.cie)
    requires k <= |ds| && at[|ds|] == g.end
    ensures Decodes(g, at[k], g.end, code[k..]) && at[k] <= g.end
    decreases |ds| - k
  {
    if k < |ds| {
      assert Between(ds[k], g.section, g.cie, at[k], at[k + 1]);
      OneDecodes(ds[k], g, at[k], at[k + 1], code[k]);
      AllDecode(ds, code, g, at, k + 1);
      DecodesCons(g, at[k], at[k + 1], code, k);
    }
  }

  lemma DecodesCons(g: Program, p: nat, q: nat, code: seq<Instr>, k: nat)
    requires k < |code| && p < g.end && Fetch(g.section, g.cie, p) == Fetched(code[k], q)
    requires Decodes(g, q, g.end, code[k + 1..])
    ensures Decodes(g, p, g.end, code[k..])
  {
    assert code[k..][1..] == code[k + 1..];
  }

  /** The loop over decoded instructions. */
  ghost function Through(code: seq<Instr>, l1: nat, m: Machine, initial: Row): Result {
    if code == [] || l1 < m.loc then Found(m.row)
    else
      match Execute(code[0], m, initial)
      case Abort => Aborted
      case Next(m') => Through(code[1..], l1, m', initial)
  }

  lemma {:induction false} LoopGoesThrough(code: seq<Instr>, g: Program, l1: nat, p: nat, m: Machine)
    requires Decodes(g, p, g.end, code)
    ensures Loop(g, l1, p, m) == Through(code, l1, m, g.initial)
    decreases |code|
  {
    if code != [] && m.loc <= l1 {
      match Execute(code[0], m, g.initial)
      case Abort => {}
      case Next(m') => LoopGoesThrough(code[1..], g, l1, Fetch(g.section, g.cie, p).next, m');
    }
  }

  const SAVE_RIP: Reg := Reg(OffsetN, WORD - 8)
  const SAVE_RBP: Reg := Reg(OffsetN, WORD - 16)

  const INITIAL_CODE: seq<Instr> := [DefCfa(RSP, 8), SetRegister(RIP, OffsetN, WORD - 8)]

  function OwnCode(body: nat): seq<Instr> {
    [Advance(1), DefCfaOffset(16), SetRegister(RBP, OffsetN, WORD - 16), Advance(3), DefCfaRegister(RBP),
     Advance(body), DefCfa(RSP, 8)]
  }

  /** The bytes of the frame: the directives above, with the alignments of the
      x86-64 ABI. */
  ghost predicate Laid(f: Frame, body: nat, first: seq<nat>, own: seq<nat>) {
    && f.cie.codeAlignment == 1 && f.cie.dataAlignment == -8 && body < 0x1_0000_0000
    && AllStand(INITIAL, f.section, f.cie, first) && first[0] == f.cieStart && first[2] == f.cieEnd
    && AllStand(Own(body), f.section, f.cie, own) && own[0] == f.fdeStart && own[7] == f.fdeEnd
  }

  lemma CodeOfFrame(s: Section, cie: Cie, body: nat)
    requires cie.codeAlignment == 1 && cie.dataAlignment == -8 && body < 0x1_0000_0000
    ensures Coded(INITIAL, INITIAL_CODE, s, cie) && Coded(Own(body), OwnCode(body), s, cie)
  {
  }

  /** The rows of the frame: the initial one, and the one at l1. */
  function FirstRow(): Row {
    DefaultRow().(cfa := Cfa(RSP, 8, false), regs := DefaultRow().regs[RIP := SAVE_RIP])
  }

  function RowAt(l1: nat, body: nat): Row {
    if l1 < 1 then FirstRow()
    else
      FirstRow().(cfa := if l1 < 4 then Cfa(RSP, 16, false) else if l1 < 4 + body then Cfa(RBP, 16, false)
                         else Cfa(RSP, 8, false),
                  regs := FirstRow().regs[RBP := SAVE_RBP])
  }

  lemma InitialRow(m: Machine)
    requires m == Machine(DefaultRow(), 0, [])
    ensures Through(INITIAL_CODE, 0, m, m.row) == Found(FirstRow())
  {
    var m1 := m.(row := m.row.(cfa := Cfa(RSP, 8, false)));
    var m2 := m.(row := FirstRow());
    assert Execute(INITIAL_CODE[0], m, m.row) == Next(m1);
    assert Execute(INITIAL_CODE[1], m1, m.row) == Next(m2);
    assert INITIAL_CODE[1..][1..] == [];
    assert Through(INITIAL_CODE[1..], 0, m1, m.row) == Found(FirstRow());
  }

  lemma OwnRow(m: Machine, l1: nat, body: nat)
    requires m == Machine(FirstRow(), 0, []) && body < 0x1_0000_0000
    ensures Through(OwnCode(body), l1, m, m.row) == Found(RowAt(l1, body))
  {
    var code := OwnCode(body);
    var m1 := m.(loc := 1);
    assert Through(code, l1, m, m.row) == Through(code[1..], l1, m1, m.row);
    if l1 >= 1 {
      BehindPush(m1, l1, body, m.row);
    }
  }

  lemma BehindPush(m1: Machine, l1: nat, body: nat, initial: Row)
    requires m1 == Machine(FirstRow(), 1, []) && body < 0x1_0000_0000 && l1 >= 1
    ensures Through(OwnCode(body)[1..], l1, m1, initial) == Found(RowAt(l1, body))
  {
    var code := OwnCode(body);
    var m2 := m1.(row := m1.row.(cfa := Cfa(RSP, 16, false)));
    var m3 := m2.(row := m2.row.(regs := m2.row.regs[RBP := SAVE_RBP]));
    var m4 := m3.(loc := 4);
    assert code[1..][1..] == code[2..] && code[2..][1..] == code[3..] && code[3..][1..] == code[4..];
    assert Through(code[1..], l1, m1, initial) == Through(code[2..], l1, m2, initial);
    assert Through(code[2..], l1, m2, initial) == Through(code[3..], l1, m3, initial);
    assert Through(code[3..], l1, m3, initial) == Through(code[4..], l1, m4, initial);
    if l1 >= 4 {
      BehindMove(m4, l1, body, initial);
    }
  }

  lemma BehindMove(m4: Machine, l1: nat, body: nat, initial: Row)
    requires m4 == Machine(RowAt(1, body), 4, []) && body < 0x1_0000_0000 && l1 >= 4
    ensures Through(OwnCode(body)[4..], l1, m4, initial) == Found(RowAt(l1, body))
  {
    var code := OwnCode(body);
    var m5 := m4.(row := m4.row.(cfa := Cfa(RBP, 16, false)));
    var m6 := m5.(loc := 4 + body);
    var m7 := m6.(row := m6.row.(cfa := Cfa(RSP, 8, false)));
    assert code[4..][1..] == code[5..] && code[5..][1..] == code[6..] && code[6..][1..] == [];
    assert Through(code[4..], l1, m4, initial) == Through(code[5..], l1, m5, initial);
    assert Through(code[5..], l1, m5, initial) == Through(code[6..], l1, m6, initial);
    if l1 >= 4 + body {
      assert Through(code[6..], l1, m6, initial) == Through([], l1, m7, initial);
    }
  }

  lemma GoesThrough(ds: seq<Directive>, code: seq<Instr>, g: Program, l1: nat, at: seq<nat>, m: Machine)
    requires AllStand(ds, g.section, g.cie, at) && Coded(ds, code, g.section, g.cie) && at[|ds|] == g.end
    ensures Loop(g, l1, at[0], m) == Through(code, l1, m, g.initial)
  {
    AllDecode(ds, code, g, at, 0);
    assert code[0..] == code;
    LoopGoesThrough(code, g, l1, at[0], m);
  }

  lemma InitialPass(f: Frame, body: nat, first: seq<nat>, own: seq<nat>, m: Machine)
    requires Laid(f, body, first, own) && m == Machine(DefaultRow(), 0, [])
    ensures Loop(InitialProgram(f), 0, f.cieStart, m) == Found(FirstRow())
  {
    CodeOfFrame(f.section, f.cie, body);
    GoesThrough(INITIAL, INITIAL_CODE, InitialProgram(f), 0, first, m);
    InitialRow(m);
  }

  lemma OwnPass(f: Frame, body: nat, first: seq<nat>, own: seq<nat>, l1: nat, m: Machine)
    requires Laid(f, body, first, own) && m == Machine(FirstRow(), 0, [])
    ensures Loop(FrameProgram(f, FirstRow()), l1, f.fdeStart, m) == Found(RowAt(l1, body))
  {
    CodeOfFrame(f.section, f.cie, body);
    GoesThrough(Own(body), OwnCode(body), FrameProgram(f, FirstRow()), l1, own, m);
    OwnRow(m, l1, body);
  }

  /** The row of the frame at every instruction pointer, from its bytes. */
  lemma FrameRow(f: Frame, body: nat, first: seq<nat>, own: seq<nat>, ip: nat)
    requires Laid(f, body, first, own)
    ensures RowFor(f, ip) == Found(RowAt(Wrap(ip - f.pcBegin), body))
  {
    InitialPass(f, body, first, own, Machine(DefaultRow(), 0, []));
    OwnPass(f, body, first, own, Wrap(ip - f.pcBegin), Machine(FirstRow(), 0, []));
  }

  /** The CFA at location l1. */
  function Anchor(before: seq<nat>, l1: nat, body: nat): nat
    requires |before| == NUM_REGISTERS
  {
    if l1 < 1 || 4 + body <= l1 then before[RSP] + 8
    else if l1 < 4 then before[RSP] + 16
    else before[RBP] + 16
  }

  /** What the saved registers are restored to. */
  lemma SavedGives(cfa: nat, before: seq<nat>, env: Machinery, x: nat)
    ensures Gives(SAVE_RIP, RIP, cfa, before, env, x) ==> cfa >= 8 && x == env.read((cfa - 8) % WORD)
    ensures Gives(SAVE_RBP, RBP, cfa, before, env, x) ==> cfa >= 16 && x == env.read((cfa - 16) % WORD)
  {
    assert WrapSigned(WORD - 8) == -8 && WrapSigned(WORD - 16) == -16;
  }

  /** Unwinding such a frame at any instruction finds the return address and the
      saved rbp where the code has put them, right below the CFA. */
  lemma FrameUnwinds(f: Frame, body: nat, first: seq<nat>, own: seq<nat>,
                     before: seq<nat>, staged: seq<nat>, env: Machinery, cfa: nat, given: seq<nat>)
    requires Laid(f, body, first, own) && |before| == |staged| == NUM_REGISTERS
    requires before[RSP] < WORD && before[RBP] < WORD
    ensures var r := RowFor(f, before[RIP]);
            var l1 := (before[RIP] - f.pcBegin) % WORD;
            && r.Found? && r.row.argSize == 0
            && (IsCaller(r.row, before, staged, env, cfa, given) ==>
                  && |given| == NUM_REGISTERS && WORD > cfa == Anchor(before, l1, body)
                  && given[RIP] == env.read(cfa - 8)
                  && (if l1 < 1 then given[RBP] == staged[RBP] else cfa >= 16 && given[RBP] == env.read(cfa - 16))
                  && forall i :: 0 <= i < NUM_REGISTERS && i != RIP && i != RBP ==> given[i] == staged[i])
  {
    FrameRow(f, body, first, own, before[RIP]);
    var row := RowFor(f, before[RIP]).row;
    if IsCaller(row, before, staged, env, cfa, given) {
      RowGives(row, body, (before[RIP] - f.pcBegin) % WORD, before, staged, env, cfa, given);
    }
  }

  lemma RowGives(row: Row, body: nat, l1: nat, before: seq<nat>, staged: seq<nat>, env: Machinery, cfa: nat,
                 given: seq<nat>)
    requires row == RowAt(l1, body) && |before| == |staged| == NUM_REGISTERS
    requires before[RSP] < WORD && before[RBP] < WORD && IsCaller(row, before, staged, env, cfa, given)
    ensures |given| == NUM_REGISTERS && WORD > cfa == Anchor(before, l1, body) && given[RIP] == env.read(cfa - 8)
    ensures if l1 < 1 then given[RBP] == staged[RBP] else cfa >= 16 && given[RBP] == env.read(cfa - 16)
    ensures forall i :: 0 <= i < NUM_REGISTERS && i != RIP && i != RBP ==> given[i] == staged[i]
  {
    assert row.regs[RIP] == SAVE_RIP;
    SavedGives(cfa, before, env, given[RIP]);
    if l1 >= 1 {
      assert row.regs[RBP] == SAVE_RBP;
      SavedGives(cfa, before, env, given[RBP]);
    }
  }

  /** There is a caller unless the CFA wraps around or lies too low. */
  lemma CallerExists(row: Row, body: nat, l1: nat, before: seq<nat>, staged: seq<nat>, env: Machinery)
    requires row == RowAt(l1, body) && |before| == |staged| == NUM_REGISTERS
    requires Anchor(before, l1, body) < WORD && (1 <= l1 ==> Anchor(before, l1, body) >= 16)
    ensures exists cfa, given :: IsCaller(row, before, staged, env, cfa, given)
  {
    var cfa := Anchor(before, l1, body);
    var given := staged[RIP := env.read(cfa - 8)];
    assert WrapSigned(WORD - 8) == -8 && WrapSigned(WORD - 16) == -16;
    if l1 >= 1 {
      given := given[RBP := env.read(cfa - 16)];
    }
    assert IsCaller(row, before, staged, env, cfa, given);
  }

  /** The registers of the caller. Interrupted at the first instruction, the
      return address is the word at the stack pointer; behind the push it is the
      word above, and rbp the word at the stack pointer; in the body both lie
      where rbp points. */
  ghost predicate CallerRegisters(before: seq<nat>, l1: nat, body: nat, env: Machinery, after: seq<nat>)
    requires |before| == NUM_REGISTERS
  {
    var rsp, rbp := before[RSP], before[RBP];
    && (l1 == 0 ==> after == before[RIP := env.read(rsp)][RSP := rsp + 8])
    && (1 <= l1 < 4 ==> after == before[RIP := env.read(rsp + 8)][RBP := env.read(rsp)][RSP := rsp + 16])
    && (4 <= l1 < 4 + body ==> after == before[RIP := env.read(rbp + 8)][RBP := env.read(rbp)][RSP := rbp + 16])
    && (4 + body <= l1 ==>
          rsp >= 8 && after == before[RIP := env.read(rsp)][RBP := env.read(rsp - 8)][RSP := rsp + 8])
  }

  lemma Spelled(before: seq<nat>, l1: nat, body: nat, env: Machinery, given: seq<nat>, cfa: nat)
    requires |before| == |given| == NUM_REGISTERS && WORD > cfa == Anchor(before, l1, body)
    requires forall i :: 0 <= i < NUM_REGISTERS && i != RIP && i != RBP ==> given[i] == before[i]
    requires given[RIP] == env.read(cfa - 8)
    requires if l1 < 1 then given[RBP] == before[RBP] else cfa >= 16 && given[RBP] == env.read(cfa - 16)
    ensures CallerRegisters(before, l1, body, env, given[RSP := cfa])
  {
  }

  /** What unwinding the frame comes to, as values. */
  lemma Outcome(f: Frame, body: nat, first: seq<nat>, own: seq<nat>, before: seq<nat>, env: Machinery, aborted: bool,
                cfa: nat, given: seq<nat>)
    requires Laid(f, body, first, own) && |before| == NUM_REGISTERS && before[RSP] < WORD && before[RBP] < WORD
    requires RowFor(f, before[RIP]).Found? ==>
               var row := RowFor(f, before[RIP]).row;
               if aborted then forall c, g :: !IsCaller(row, before, before, env, c, g)
               else IsCaller(row, before, before, env, cfa, given)
    ensures var l1 := (before[RIP] - f.pcBegin) % WORD;
            && (aborted <==> Anchor(before, l1, body) >= WORD || (1 <= l1 && Anchor(before, l1, body) < 16))
            && (!aborted ==>
                  |given| == NUM_REGISTERS && CallerRegisters(before, l1, body, env, given[RSP := cfa % WORD]))
  {
    var l1 := (before[RIP] - f.pcBegin) % WORD;
    FrameUnwinds(f, body, first, own, before, before, env, cfa, given);
    if !aborted {
      Spelled(before, l1, body, env, given, cfa);
    } else if Anchor(before, l1, body) < WORD && (1 <= l1 ==> Anchor(before, l1, body) >= 16) {
      FrameRow(f, body, first, own, before[RIP]);
      CallerExists(RowAt(l1, body), body, l1, before, before, env);
    }
  }

  /** On the registers of the processor, wherever the function was interrupted. */
  method UnwindStandard(s: RegisterState, f: Frame, env: Machinery, ghost body: nat, ghost first: seq<nat>,
                        ghost own: seq<nat>)
    returns (aborted: bool)
    requires s.Valid() && s.staged == s.registers && Laid(f, body, first, own)
    requires s.registers[RSP] < WORD && s.registers[RBP] < WORD
    modifies s
    ensures var l1 := (old(s.registers)[RIP] - f.pcBegin) % WORD;
            var cfa := Anchor(old(s.registers), l1, body);
            && (aborted <==> cfa >= WORD || (1 <= l1 && cfa < 16))
            && (!aborted ==> s.Valid() && CallerRegisters(old(s.registers), l1, body, env, s.registers))
  {
    ghost var before := s.registers;
    ghost var cfa, given;
    aborted, cfa, given := s.UnwindFrame(f, env);
    FrameUnwinds(f, body, first, own, before, before, env, cfa, given);
    Outcome(f, body, first, own, before, env, aborted, cfa, given);
  }
}
