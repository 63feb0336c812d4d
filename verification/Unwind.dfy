/** One unwinding step: the registers of the caller, computed from those of the
    callee and staged until all are known. */
module Unwind {
  import opened Bits
  import opened Leb128
  import opened Cfi

  /** rax .. rip, in the order of registers_intel_x64_t */
  const NUM_REGISTERS: nat := 17
  const RSP: nat := 7
  const RIP: nat := 16

  /** Memory and the DWARF expression evaluator, both outside this model: read
      gives the word at an address, evaluate the value of the expression at an
      address, given an initial stack entry and the registers. */
  datatype Machinery = Machinery(read: nat -> nat, evaluate: (nat, nat, seq<nat>) -> Value)

  function GetRegister(regs: seq<nat>, index: nat): Value {
    if index < |regs| then Value(regs[index]) else NoValue
  }

  /** private_decode_cfa */
  function DecodeCfa(row: Row, regs: seq<nat>, env: Machinery): Value {
    if row.cfa.isExpression then env.evaluate(row.cfa.value, 0, regs)
    else
      match GetRegister(regs, row.cfa.value)
      case Value(v) => AddOffset(v, row.cfa.offset)
      case NoValue => NoValue
  }

  function ReadAt(env: Machinery, addr: Value): Value {
    match addr case Value(a) => Value(env.read(a)) case NoValue => NoValue
  }

  /** private_decode_reg of register i */
  function DecodeReg(reg: Reg, i: nat, cfa: nat, regs: seq<nat>, env: Machinery): Value {
    match reg.rule
    case Undefined => NoValue
    case SameValue => GetRegister(regs, i)
    case OffsetN => ReadAt(env, AddOffset(cfa, WrapSigned(reg.value)))
    case ValOffsetN => AddOffset(cfa, WrapSigned(reg.value))
    case RegisterRule => GetRegister(regs, reg.value)
    case Expression => ReadAt(env, env.evaluate(reg.value, cfa, regs))
    case ValExpression => env.evaluate(reg.value, cfa, regs)
  }

  /** register_state_intel_x64 */
  class RegisterState {
    var registers: seq<nat>
    var staged: seq<nat>

    ghost predicate Valid()
      reads this
    {
      |registers| == |staged| == NUM_REGISTERS
    }

    constructor (regs: seq<nat>)
      requires |regs| == NUM_REGISTERS
      ensures Valid() && registers == staged == regs
    {
      registers, staged := regs, regs;
    }

    /** set; an index outside the register file aborts. */
    method Set(index: nat, value: nat) returns (aborted: bool)
      requires Valid()
      modifies this`staged
      ensures Valid() && aborted == (index >= NUM_REGISTERS)
      ensures staged == if aborted then old(staged) else old(staged)[index := value]
    {
      aborted := index >= NUM_REGISTERS;
      if !aborted {
        staged := staged[index := value];
      }
    }

    method SetIp(value: nat)
      requires Valid()
      modifies this`staged
      ensures Valid() && staged == old(staged)[RIP := value]
    {
      staged := staged[RIP := value];
    }

    /** commit(cfa) */
    method Commit(cfa: nat)
      requires Valid()
      modifies this
      ensures Valid() && registers == staged == old(staged)[RSP := cfa]
    {
      staged := staged[RSP := cfa];
      registers := staged;
    }

    /** The loop of unwind: registers with a rule are staged in turn. */
    method Stage(row: Row, cfa: nat, env: Machinery) returns (aborted: bool)
      requires Valid() && ValidRow(row)
      modifies this`staged
      ensures aborted <==> exists i :: 0 <= i < NUM_REGISTERS && Fails(row, i, cfa, registers, env)
      ensures !aborted ==> Valid() && staged == Restored(row, cfa, registers, old(staged), env)
    {
      var i := 0;
      while i < NUM_REGISTERS
        invariant 0 <= i <= NUM_REGISTERS && Valid()
        invariant forall j :: 0 <= j < i ==> !Fails(row, j, cfa, registers, env)
        invariant forall j :: 0 <= j < NUM_REGISTERS ==>
                    staged[j] == if j < i then RestoredRegister(row, j, cfa, registers, old(staged), env)
                                 else old(staged)[j]
      {
        var reg := row.regs[i];
        if reg.rule != Undefined {
          var value := DecodeReg(reg, i, cfa, registers, env);
          if value.NoValue? {
            assert Fails(row, i, cfa, registers, env);
            return true;
          }
          var outside := Set(i, value.v);
        }
        i := i + 1;
      }
      return false;
    }

    /** unwind with the row already decoded: a simultaneous assignment. Every
        register with a rule gets the value the old registers give it, the
        others what was staged for them, the stack pointer the CFA plus the
        argument size; nothing stays pending. It aborts iff there is no CFA or
        some rule gives no value. */
    method UnwindRow(row: Row, env: Machinery) returns (aborted: bool, ghost cfa: nat, ghost given: seq<nat>)
      requires Valid() && ValidRow(row)
      modifies this
      ensures !aborted ==>
                && Valid() && IsCaller(row, old(registers), old(staged), env, cfa, given)
                && registers == staged == given[RSP := (cfa + row.argSize) % WORD]
      ensures aborted ==> forall c, g :: !IsCaller(row, old(registers), old(staged), env, c, g)
      ensures !aborted && !row.cfa.isExpression ==>
                row.cfa.value < NUM_REGISTERS && cfa == (old(registers)[row.cfa.value] + row.cfa.offset) % WORD
      ensures !aborted && row.cfa.isExpression ==> env.evaluate(row.cfa.value, 0, old(registers)) == Value(cfa)
      ensures !aborted ==>
                forall i :: 0 <= i < NUM_REGISTERS && i != RSP && row.regs[i].rule == Undefined ==>
                  registers[i] == old(staged)[i]
      ensures !aborted ==>
                forall i :: 0 <= i < NUM_REGISTERS && i != RSP && row.regs[i].rule == SameValue ==>
                  registers[i] == old(registers)[i]
      ensures !aborted ==>
                forall i :: 0 <= i < NUM_REGISTERS && i != RSP && row.regs[i].rule == OffsetN ==>
                  registers[i] == env.read((cfa + WrapSigned(row.regs[i].value)) % WORD)
      ensures !aborted ==>
                forall i :: 0 <= i < NUM_REGISTERS && i != RSP && row.regs[i].rule == ValOffsetN ==>
                  registers[i] == (cfa + WrapSigned(row.regs[i].value)) % WORD
      ensures !aborted ==>
                forall i :: 0 <= i < NUM_REGISTERS && i != RSP && row.regs[i].rule == RegisterRule ==>
                  row.regs[i].value < NUM_REGISTERS && registers[i] == old(registers)[row.regs[i].value]
      ensures !aborted ==>
                forall i :: 0 <= i < NUM_REGISTERS && i != RSP && row.regs[i].rule == Expression ==>
                  env.evaluate(row.regs[i].value, cfa, old(registers)).Value?
                  && registers[i] == env.read(env.evaluate(row.regs[i].value, cfa, old(registers)).v)
      ensures !aborted ==>
                forall i :: 0 <= i < NUM_REGISTERS && i != RSP && row.regs[i].rule == ValExpression ==>
                  env.evaluate(row.regs[i].value, cfa, old(registers)) == Value(registers[i])
    {
      var c := DecodeCfa(row, registers, env);
      cfa, given := 0, [];
      CfaIsDecoded(row, registers, env);
      if c.NoValue? {
        return true, cfa, given;
      }
      cfa := c.v;
      aborted := Stage(row, c.v, env);
      if aborted {
        FailsIsNoCaller(row, registers, old(staged), env, cfa);
      } else {
        given := staged;
        RestoredIsGiven(row, registers, old(staged), env, cfa);
        Commit(Wrap(c.v + row.argSize));
      }
    }

    /** unwind: the row of the frame at the current instruction pointer, applied
        to all registers at once. */
    method UnwindFrame(f: Frame, env: Machinery) returns (aborted: bool, ghost cfa: nat, ghost given: seq<nat>)
      requires Valid()
      modifies this
      ensures !aborted ==>
                && RowFor(f, old(registers)[RIP]).Found?
                && var row := RowFor(f, old(registers)[RIP]).row;
                   && Valid() && ValidRow(row) && IsCaller(row, old(registers), old(staged), env, cfa, given)
                   && registers == staged == given[RSP := (cfa + row.argSize) % WORD]
      ensures aborted ==>
                match RowFor(f, old(registers)[RIP])
                case Aborted => true
                case Found(row) => forall c, g :: !IsCaller(row, old(registers), old(staged), env, c, g)
    {
      cfa, given := 0, [];
      var r := DecodeCfi(f, registers[RIP]);
      if r.Aborted? {
        return true, cfa, given;
      }
      RowForIsValid(f, registers[RIP]);
      aborted, cfa, given := UnwindRow(r.row, env);
    }
  }

  /** The CFA of a row: a register plus an offset, or the value of an expression
      (section 6.4.1 of DWARF 4). */
  ghost predicate CfaIs(row: Row, regs: seq<nat>, env: Machinery, cfa: nat) {
    if row.cfa.isExpression then env.evaluate(row.cfa.value, 0, regs) == Value(cfa)
    else
      && row.cfa.value < |regs| && 0 <= regs[row.cfa.value] + row.cfa.offset
      && cfa == (regs[row.cfa.value] + row.cfa.offset) % WORD
  }

  /** The rule of register i gives it the value x (the same section). */
  ghost predicate Gives(reg: Reg, i: nat, cfa: nat, regs: seq<nat>, env: Machinery, x: nat) {
    var n := WrapSigned(reg.value);
    match reg.rule
    case Undefined => false
    case SameValue => i < |regs| && x == regs[i]
    case OffsetN => 0 <= cfa + n && x == env.read((cfa + n) % WORD)
    case ValOffsetN => 0 <= cfa + n && x == (cfa + n) % WORD
    case RegisterRule => reg.value < |regs| && x == regs[reg.value]
    case Expression =>
      var a := env.evaluate(reg.value, cfa, regs);
      a.Value? && x == env.read(a.v)
    case ValExpression => env.evaluate(reg.value, cfa, regs) == Value(x)
  }

  /** The registers of the caller, but for the stack pointer: every rule of the
      row applied to those before, the others as staged. */
  ghost predicate IsCaller(row: Row, before: seq<nat>, staged: seq<nat>, env: Machinery, cfa: nat, given: seq<nat>) {
    && CfaIs(row, before, env, cfa) && |given| == |staged| <= |row.regs|
    && forall i :: 0 <= i < |given| ==>
         if row.regs[i].rule == Undefined then given[i] == staged[i]
         else Gives(row.regs[i], i, cfa, before, env, given[i])
  }

  lemma CfaIsDecoded(row: Row, regs: seq<nat>, env: Machinery)
    ensures forall cfa :: CfaIs(row, regs, env, cfa) <==> DecodeCfa(row, regs, env) == Value(cfa)
  {
  }

  lemma GivesDecoded(reg: Reg, i: nat, cfa: nat, regs: seq<nat>, env: Machinery)
    ensures forall x :: Gives(reg, i, cfa, regs, env, x) <==> DecodeReg(reg, i, cfa, regs, env) == Value(x)
  {
  }

  lemma FailsIsNoCaller(row: Row, before: seq<nat>, staged: seq<nat>, env: Machinery, cfa: nat)
    requires DecodeCfa(row, before, env) == Value(cfa)
    requires exists i :: 0 <= i < |staged| && Fails(row, i, cfa, before, env)
    ensures forall c, g :: !IsCaller(row, before, staged, env, c, g)
  {
    var i :| 0 <= i < |staged| && Fails(row, i, cfa, before, env);
    CfaIsDecoded(row, before, env);
    GivesDecoded(row.regs[i], i, cfa, before, env);
  }

  lemma RestoredIsGiven(row: Row, before: seq<nat>, staged: seq<nat>, env: Machinery, cfa: nat)
    requires DecodeCfa(row, before, env) == Value(cfa) && |staged| <= |row.regs|
    requires forall i :: 0 <= i < |staged| ==> !Fails(row, i, cfa, before, env)
    ensures IsCaller(row, before, staged, env, cfa, Restored(row, cfa, before, staged, env))
  {
    CfaIsDecoded(row, before, env);
    var given := Restored(row, cfa, before, staged, env);
    forall i | 0 <= i < |given|
      ensures if row.regs[i].rule == Undefined then given[i] == staged[i]
              else Gives(row.regs[i], i, cfa, before, env, given[i])
    {
      GivesDecoded(row.regs[i], i, cfa, before, env);
    }
  }

  /** Register i has a rule that yields no value. */
  predicate Fails(row: Row, i: nat, cfa: nat, regs: seq<nat>, env: Machinery)
  {
    i < |row.regs| && row.regs[i].rule != Undefined && DecodeReg(row.regs[i], i, cfa, regs, env).NoValue?
  }

  function RestoredRegister(row: Row, i: nat, cfa: nat, regs: seq<nat>, staged: seq<nat>, env: Machinery): nat
    requires i < |row.regs| && i < |staged|
  {
    if row.regs[i].rule == Undefined || Fails(row, i, cfa, regs, env) then staged[i]
    else DecodeReg(row.regs[i], i, cfa, regs, env).v
  }

  /** All registers at once, each from the same old values. */
  function Restored(row: Row, cfa: nat, regs: seq<nat>, staged: seq<nat>, env: Machinery): (r: seq<nat>)
    requires |staged| <= |row.regs|
    ensures |r| == |staged|
  {
    seq(|staged|, i requires 0 <= i < |staged| => RestoredRegister(row, i, cfa, regs, staged, env))
  }

  /** Staging the registers one by one in a given order. */
  ghost function StageInOrder(row: Row, cfa: nat, regs: seq<nat>, staged: seq<nat>, env: Machinery,
                              order: seq<nat>): seq<nat>
    requires |staged| == NUM_REGISTERS && ValidRow(row)
    requires forall k :: 0 <= k < |order| ==> order[k] < NUM_REGISTERS
    decreases |order|
  {
    if order == [] then staged
    else
      var i := order[0];
      StageInOrder(row, cfa, regs, staged[i := RestoredRegister(row, i, cfa, regs, staged, env)], env, order[1..])
  }

  /** Because the values come from the committed registers, the order does not
      matter: visiting every register in any order, any number of times, stages
      the same values. */
  lemma {:induction false} OrderDoesNotMatter(row: Row, cfa: nat, regs: seq<nat>, staged: seq<nat>, env: Machinery,
                                                order: seq<nat>)
    requires |staged| == NUM_REGISTERS && ValidRow(row)
    requires forall k :: 0 <= k < |order| ==> order[k] < NUM_REGISTERS
    ensures |StageInOrder(row, cfa, regs, staged, env, order)| == NUM_REGISTERS
    ensures forall i :: 0 <= i < NUM_REGISTERS ==>
              StageInOrder(row, cfa, regs, staged, env, order)[i] ==
              if i in order then RestoredRegister(row, i, cfa, regs, staged, env) else staged[i]
    decreases |order|
  {
    if order != [] {
      var i := order[0];
      var next := staged[i := RestoredRegister(row, i, cfa, regs, staged, env)];
      OrderDoesNotMatter(row, cfa, regs, next, env, order[1..]);
      assert forall j :: j in order <==> j == i || j in order[1..];
    }
  }

  lemma AnyOrderIsSimultaneous(row: Row, cfa: nat, regs: seq<nat>, staged: seq<nat>, env: Machinery, order: seq<nat>)
    requires |staged| == NUM_REGISTERS && ValidRow(row)
    requires forall k :: 0 <= k < |order| ==> order[k] < NUM_REGISTERS
    requires forall i :: 0 <= i < NUM_REGISTERS ==> i in order
    ensures StageInOrder(row, cfa, regs, staged, env, order) == Restored(row, cfa, regs, staged, env)
  {
    OrderDoesNotMatter(row, cfa, regs, staged, env, order);
  }
}
