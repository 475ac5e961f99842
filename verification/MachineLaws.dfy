/** What single instructions of src/interpret.c do on the machine, where no source program pins them. */
module MachineLaws {
  import opened Bytes
  import opened Values
  import opened Paths
  import opened CodeGen
  import opened Source
  import opened Interpreter

  /** A byte that is no opcode changes nothing; opcode 0 is one of them. */
  lemma PassedOver(u: Unspecified, code: Code, pc: nat, m: Machine)
    requires pc < |code| && !Unmodelled(code[pc])
    requires code[pc] !in {PUSH_INT, PUSH_STR, JUMP, JUMP_FALSE, FETCH, GET_LOCAL, SAVE_LOCAL, INC_LOCAL, DEC_LOCAL,
                           ITEM, ASSIGN_ITEM, EXISTS, NEGATE, NOT}
    requires forall op :: code[pc] != OpByte(op)
    ensures StepPlain(u, code, pc, m) == Ok((pc + 1, m))
  {
  }

  /** Fetching under anything but a name: the arguments stay, and a nil takes the place of what was there. */
  lemma FetchWithoutName(u: Unspecified, code: Code, pc: nat, m: Machine, fuel: nat)
    requires pc + 3 <= |code| && m.stack != [] && !Top(m).Str? && |m.stack| <= STACK_SIZE
    ensures StepFetch(u, code, pc, m, fuel) == Ok((pc + 3, m.(stack := m.stack[..|m.stack| - 1] + [NIL])))
  {
  }

  /** Assigning under anything but a name: both values are gone, and no item changes. */
  lemma AssignWithoutName(pc: nat, m: Machine)
    requires |m.stack| >= 2 && !m.stack[|m.stack| - 2].Str?
    ensures StepAssignItem(pc, m) == Ok((pc + 1, m.(stack := m.stack[..|m.stack| - 2])))
  {
  }

  /** A local as layer: its text if that is a valid layer, its number in 32 bits, and nothing else. */
  lemma LocalAsLayer(code: Code, pc: nat, m: Machine)
    requires pc + 2 < |code| && code[pc] == DEREF && code[pc + 1] == DEREF_LOCAL && code[pc + 2] + m.base < |m.stack|
    ensures var v, r := m.stack[code[pc + 2] + m.base], ReadLayer(code, pc, m);
      && (v.Str? ==> r == if IsValidLayer(v.s) then GoodLayer(pc + 3, v.s) else BadLayer(pc + 3))
      && (v.Int? && -0x8000_0000 < v.i < 0x8000_0000 ==> r == GoodLayer(pc + 3, Decimal(v.i)))
      && (v.Bool? || v.Nil? ==> r == BadLayer(pc + 3))
  {
  }

  /**
   * A local is addressed in 8 bits, but as a layer it is not: from slot 256 on, reading a local and
   * using it as a layer are reading two different slots.
   */
  lemma LocalsBeyondAByte(code: Code, pc: nat, index: byte, m: Machine)
    requires 256 <= index + m.base < |m.stack| < STACK_SIZE && index + m.base < 512
    requires pc + 2 < |code| && code[pc] == DEREF && code[pc + 1] == DEREF_LOCAL && code[pc + 2] == index
    ensures StepGetLocal(index, pc, m) == Ok((pc + 2, m.(stack := m.stack + [m.stack[index + m.base - 256]])))
    ensures m.stack[index + m.base] == Bool(0) && m.stack[index + m.base - 256] == Str([97]) ==>
      ReadLayer(code, pc, m) == BadLayer(pc + 3)
  {
  }

  /** EXISTS tells whether the path is there, and takes the name away. */
  lemma ExistsTells(pc: nat, m: Machine, name: Text)
    requires m.stack != [] && Top(m) == Str(name)
    ensures StepExists(pc, m)
         == Ok((pc + 1, m.(stack := m.stack[..|m.stack| - 1] + [Bool(if Split(name) in m.store then 1 else 0)])))
  {
  }

  /** Incrementing and decrementing move an int local by one, each in its direction. */
  lemma UpAndDown(u: Unspecified, code: Code, pc: nat, m: Machine, i: Word)
    requires pc + 1 < |code| && Slot(m, code[pc + 1]) < |m.stack| && m.stack[Slot(m, code[pc + 1])] == Int(i)
    requires -0x8000_0000_0000_0000 < i < 0x7fff_ffff_ffff_ffff
    ensures var slot := Slot(m, code[pc + 1]);
      && (code[pc] == INC_LOCAL ==> StepPlain(u, code, pc, m) == Ok((pc + 2, m.(stack := m.stack[slot := Int(i + 1)]))))
      && (code[pc] == DEC_LOCAL ==> StepPlain(u, code, pc, m) == Ok((pc + 2, m.(stack := m.stack[slot := Int(i - 1)]))))
  {
    assert Wrap64(i + 1) == i + 1 && Wrap64(i - 1) == i - 1;
  }
}
