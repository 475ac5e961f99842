/**
 * The virtual machine as src/stack.c, src/vm.c and src/interpret.c run it: fixed arrays and moving
 * tops, updated in place, proved against the step functions of Interpreter. What those functions
 * draw from streams of unspecified values (the slots that become locals, the bits of a string
 * pointer) is here whatever the arrays hold or an arbitrary word, and is written to a ghost log.
 */
module VirtualMachine {
  import opened Options
  import opened Bytes
  import opened Values
  import opened Paths
  import opened CodeGen
  import opened Source
  import I = Interpreter
  import T = Items
  import NameLaws

  /** What was drawn at one tick: pointer bits, or an old slot. */
  datatype Draw = Draw(address: Word, slot: Value)

  /** The streams that begin with what was drawn. */
  ghost predicate Extends(u: Unspecified, log: seq<Draw>) {
    forall i :: 0 <= i < |log| ==> u.address(i) == log[i].address && u.slot(i) == log[i].slot
  }

  /** A result of the machine that is in m, as the step functions give it. */
  ghost function Lift<T>(r: Outcome<T>, m: I.Machine): Outcome<(T, I.Machine)> {
    match r
    case Ok(v) => Ok((v, m))
    case Timeout => Timeout
    case Excluded => Excluded
  }

  /** The same for steps that only change the machine. */
  ghost function Ended(r: Outcome<()>, m: I.Machine): Outcome<I.Machine> {
    match r
    case Ok(_) => Ok(m)
    case Timeout => Timeout
    case Excluded => Excluded
  }

  class VM {
    const stack: array<Value>
    var current: int
    var base: nat
    var locals: nat
    var params: nat
    const entry: array<I.CallRecord>
    var depth: nat
    const tree: T.Itemstore
    /** The paths of the tree of items. */
    ghost var store: Store<Code>
    ghost var log: seq<Draw>

    ghost predicate Valid()
      reads this, entry
    {
      && stack.Length == STACK_SIZE && entry.Length == CALLSTACK_SIZE
      && -1 <= current < STACK_SIZE && depth <= CALLSTACK_SIZE
      && forall i :: 0 <= i < depth ==> entry[i].height <= STACK_SIZE
    }

    /** The machine and its items. */
    ghost predicate Linked()
      reads this, entry, tree, tree.items, tree.owner.Keys
    {
      Valid() && tree.Valid() && tree.Abs() == store
    }

    ghost function Abs(): I.Machine
      requires Valid()
      reads this, stack, entry
    {
      I.Machine(stack[..current + 1], base, locals, params, entry[..depth], store, |log|)
    }

    /** make_vm: both stacks empty, and anything at all in their slots. */
    constructor (tree: T.Itemstore)
      requires tree.Valid()
      ensures Linked() && fresh(stack) && fresh(entry) && log == [] && this.tree == tree
      ensures Abs() == I.Machine([], 0, 0, 0, [], tree.Abs(), 0)
    {
      hide T.Itemstore.Valid, T.Itemstore.Abs;
      var slots: nat -> Value := *;
      var frames: nat -> I.CallRecord := *;
      stack := new Value[STACK_SIZE](i requires 0 <= i => slots(i));
      entry := new I.CallRecord[CALLSTACK_SIZE](i requires 0 <= i => frames(i));
      current, base, locals, params, depth := -1, 0, 0, 0, 0;
      this.tree, store, log := tree, tree.Abs(), [];
    }

    // ----- stack.c -----

    /** push_stack. */
    method Push(v: Value) returns (r: Outcome<()>)
      requires Valid()
      modifies `current, stack
      ensures Valid() && I.Push(old(Abs()), v) == Ended(r, Abs())
    {
      if current >= STACK_SIZE - 1 { return Excluded; }
      current := current + 1;
      stack[current] := v;
      assert stack[..current + 1] == old(stack[..current + 1]) + [v];
      return Ok(());
    }

    /** pop_stack: the slot becomes a nil with the old payload. */
    method Pop() returns (v: Value)
      requires Valid() && current >= 0
      modifies `current, stack
      ensures Valid() && current == old(current) - 1
      ensures v == I.Top(old(Abs())) && Abs() == I.Drop(old(Abs()), 1)
      ensures stack[current + 1].Nil? && (v.Str? || stack[current + 1].bits == Payload(v, 0))
    {
      v := stack[current];
      var address: Word := *;
      stack[current] := Nil(Payload(v, address));
      current := current - 1;
    }

    /** reset_stack_to: the stack is cut back, never raised. */
    method ResetTo(top: int)
      requires Valid() && -1 <= top < STACK_SIZE
      modifies `current
      ensures Valid() && current == if old(current) > top then top else old(current)
    {
      while current > top
        invariant current <= old(current) && (old(current) > top ==> current >= top) && -1 <= current
        invariant current < old(current) ==> old(current) > top
      {
        current := current - 1;
      }
    }

    /** size_stack counts from the bottom of the whole stack. */
    method SizeStack() returns (n: int)
      requires Valid()
      ensures n == |Abs().stack| - locals
    {
      return current + 1 - locals;
    }

    // ----- vm.c -----

    /** push_callstack: the arguments become the bottom of the new frame. */
    method PushCallstack(next: int, args: byte) returns (r: Outcome<()>)
      requires Valid()
      modifies `depth, `base, entry
      ensures Valid() && I.PushCall(old(Abs()), next, args) == Ended(r, Abs())
    {
      if depth >= CALLSTACK_SIZE || args > current + 1 { return Excluded; }
      entry[depth] := I.CallRecord(next, current + 1 - args, base, locals, params);
      depth := depth + 1;
      assert entry[..depth] == old(entry[..depth]) + [entry[depth - 1]];
      base := current + 1 - args;
      return Ok(());
    }

    /** pop_callstack: the value stack and the frame registers go back. */
    method PopCallstack() returns (next: int)
      requires Valid() && depth > 0
      modifies `current, `base, `locals, `params, `depth
      ensures Valid() && Abs() == I.PopCall(old(Abs())) && next == old(entry[depth - 1].next)
    {
      var frame := entry[depth - 1];
      ResetTo(frame.height - 1);
      locals, params, base := frame.locals, frame.params, frame.base;
      depth := depth - 1;
      return frame.next;
    }

    // ----- the opcode functions of interpret.c -----

    /** op_savelocal: the top of the stack moves into a local's slot, addressed in 8 bits. */
    method OpSaveLocal(index: byte, pc: nat) returns (r: Outcome<int>)
      requires Valid()
      modifies `current, stack
      ensures Valid() && I.StepSaveLocal(index, pc, old(Abs())) == Lift(r, Abs())
    {
      var slot := (index + base) % 256;
      if current < 0 || slot > current { return Excluded; }
      ghost var was := Abs().stack;
      stack[slot] := stack[current];
      assert stack[..current + 1] == was[slot := was[|was| - 1]];
      current := current - 1;
      assert stack[..current + 1] == was[slot := was[|was| - 1]][..|was| - 1];
      return Ok(pc + 2);
    }

    /** op_getlocal: a copy of a local's slot on top of the stack. */
    method OpGetLocal(index: byte, pc: nat) returns (r: Outcome<int>)
      requires Valid()
      modifies `current, stack
      ensures Valid() && I.StepGetLocal(index, pc, old(Abs())) == Lift(r, Abs())
    {
      var slot := (index + base) % 256;
      if slot > current { return Excluded; }
      var pushed := Push(stack[slot]);
      return if pushed.Ok? then Ok(pc + 2) else Excluded;
    }

    /** op_inclocal and op_declocal: only an int changes. */
    method OpAddToLocal(index: byte, delta: int, pc: nat) returns (r: Outcome<int>)
      requires Valid()
      modifies stack
      ensures Valid() && I.StepAddToLocal(index, delta, pc, old(Abs())) == Lift(r, Abs())
    {
      var slot := (index + base) % 256;
      if slot > current { return Excluded; }
      stack[slot] := Increment(stack[slot], delta);
      return Ok(pc + 2);
    }

    /** The binary operators: two values are popped, the top one being the right operand, and one pushed. */
    method OpBinary(op: BinOp, pc: nat) returns (r: Outcome<int>)
      requires Valid()
      modifies `current, stack, `log
      ensures Valid() && old(log) <= log
      ensures forall u :: Extends(u, log) ==> I.StepBinary(u, op, pc, old(Abs())) == Lift(r, Abs())
    {
      if current < 1 { return Excluded; }
      ghost var m := Abs();
      var v1 := Pop();
      var v2 := Pop();
      var address: Word := *;
      log := log + [Draw(address, NIL)];
      var v := Apply(op, v2, v1, address);
      current := current + 1;
      stack[current] := v;
      assert I.Drop(I.Drop(m, 1), 1) == I.Drop(m, 2);
      assert stack[..current + 1] == I.Drop(m, 2).stack + [v];
      return Ok(pc + 1);
    }

    /** op_negate and op_logicalnot. */
    method OpUnary(negate: bool, pc: nat) returns (r: Outcome<int>)
      requires Valid()
      modifies `current, stack
      ensures Valid()
      ensures Lift(r, Abs()) == if old(Abs()).stack == [] then Excluded
        else Ok(I.ReplaceTop(pc, old(Abs()),
                             if negate then Negate(I.Top(old(Abs()))) else LogicalNot(I.Top(old(Abs())))))
    {
      if current < 0 { return Excluded; }
      var v := Pop();
      var pushed := Push(if negate then Negate(v) else LogicalNot(v));
      return Ok(pc + 1);
    }

    /** op_jump. */
    method OpJump(code: Code, pc: nat) returns (r: Outcome<int>)
      requires Valid()
      ensures I.StepJump(code, pc, Abs()) == Lift(r, Abs())
    {
      return if pc + 3 > |code| then Excluded else Ok(pc + 1 + Signed16(code[pc + 1..pc + 3]));
    }

    /** op_jumpfalse. */
    method OpJumpFalse(code: Code, pc: nat) returns (r: Outcome<int>)
      requires Valid()
      modifies `current, stack
      ensures Valid() && I.StepJumpFalse(code, pc, old(Abs())) == Lift(r, Abs())
    {
      if pc + 3 > |code| || current < 0 { return Excluded; }
      var v := Pop();
      return Ok(if IsTrue(v) then pc + 3 else pc + 1 + Signed16(code[pc + 1..pc + 3]));
    }

    /** op_pushint and op_pushstr. */
    method OpPushInt(code: Code, pc: nat) returns (r: Outcome<int>)
      requires Valid()
      modifies `current, stack
      ensures Valid() && I.StepPushInt(code, pc, old(Abs())) == Lift(r, Abs())
    {
      if pc + 9 > |code| { return Excluded; }
      var pushed := Push(Int(Signed64(code[pc + 1..pc + 9])));
      return if pushed.Ok? then Ok(pc + 9) else Excluded;
    }

    method OpPushStr(code: Code, pc: nat) returns (r: Outcome<int>)
      requires Valid()
      modifies `current, stack
      ensures Valid() && I.StepPushStr(code, pc, old(Abs())) == Lift(r, Abs())
    {
      if pc + 3 > |code| { return Excluded; }
      var n := Decode(code[pc + 1..pc + 3]);
      if pc + 3 + n > |code| { return Excluded; }
      var pushed := Push(Str(CString(code[pc + 3..pc + 3 + n])));
      return if pushed.Ok? then Ok(pc + 3 + n) else Excluded;
    }

    /** One layer of an item name. */
    method ReadLayer(code: Code, pc: nat) returns (r: I.LayerRead)
      requires Valid()
      ensures r == I.ReadLayer(code, pc, Abs())
    {
      if pc + 2 >= |code| { return I.Unreadable; }
      if code[pc] == LAYER {
        var n := code[pc + 1];
        return if pc + 2 + n > |code| then I.Unreadable else I.GoodLayer(pc + 2 + n, CString(code[pc + 2..pc + 2 + n]));
      } else if code[pc] != DEREF {
        return I.BadLayer(pc + 1);
      } else if code[pc + 1] == DEREF_LOCAL {
        var slot := code[pc + 2] + base;
        if slot > current { return I.Unreadable; }
        match stack[slot] {
          case Str(s) => return if IsValidLayer(s) then I.GoodLayer(pc + 3, s) else I.BadLayer(pc + 3);
          case Int(i) =>
            return if Truncate32(i) == -0x8000_0000 then I.Unreadable else I.GoodLayer(pc + 3, Decimal(Truncate32(i)));
          case _ => return I.BadLayer(pc + 3);
        }
      } else {
        return if code[pc + 1] == ITEM then I.Unreadable else I.BadLayer(pc + 2);
      }
    }

    /** assembleitem_helper: layers are joined by dots until the end marker. */
    method AssembleItem(code: Code, pc: nat) returns (r: Outcome<int>)
      requires Valid() && pc < |code|
      modifies `current, stack
      ensures Valid() && I.StepItem(code, pc, old(Abs())) == Lift(r, Abs())
    {
      hide I.ReadLayer;
      var p, name: Text := pc + 1, [];
      while p < |code| && code[p] != END_ITEM
        invariant Valid() && Abs() == old(Abs()) && p > pc
        invariant I.ReadName(code, p, name, Abs()) == I.ReadName(code, pc + 1, [], Abs())
        decreases |code| - p
      {
        var layer := ReadLayer(code, p);
        match layer {
          case Unreadable => return Excluded;
          case BadLayer(next) =>
            var pushed := Push(NIL);
            return if pushed.Ok? then Ok(next + 1) else Excluded;
          case GoodLayer(next, text) =>
            if next >= |code| { return Excluded; }
            if code[next] == END_ITEM {
              var pushed := Push(Str(name + text));
              return if pushed.Ok? then Ok(next + 1) else Excluded;
            }
            p, name := next, name + text + [DOT];
        }
      }
      if p >= |code| { return Excluded; }
      var pushed := Push(Str(name));
      return if pushed.Ok? then Ok(p + 1) else Excluded;
    }

    method PopTwo() returns (v: Value, name: Value)
      requires Valid() && current >= 1
      modifies `current, stack
      ensures Valid() && Abs() == I.Drop(old(Abs()), 2)
      ensures var s := old(Abs()).stack; v == s[|s| - 1] && name == s[|s| - 2]
    {
      ghost var m := Abs();
      v := Pop();
      name := Pop();
      assert I.Drop(I.Drop(m, 1), 1) == I.Drop(m, 2);
    }

    /** op_assignitem: the tree of items is changed in place. */
    method OpAssignItem(pc: nat) returns (r: Outcome<int>)
      requires Linked()
      modifies `current, stack, `store, tree, tree.items, tree.owner.Keys
      ensures Linked() && fresh(tree.items - old(tree.items)) && fresh(tree.owner.Keys - old(tree.owner.Keys))
      ensures I.StepAssignItem(pc, old(Abs())) == Lift(r, Abs())
    {
      hide Split, InsertNamed, EndsInDot, T.Itemstore.Valid, T.Itemstore.Abs;
      if current < 1 { return Excluded; }
      var v, name := PopTwo();
      if name.Str? {
        var done := Assign(name.s, v);
        if !done { return Excluded; }
      }
      return Ok(pc + 1);
    }

    /** assignitem: not over a code item, which would keep its type and lose its bytecode. */
    method Assign(name: Text, v: Value) returns (done: bool)
      requires Linked()
      modifies `store, tree, tree.items, tree.owner.Keys
      ensures Linked() && fresh(tree.items - old(tree.items)) && fresh(tree.owner.Keys - old(tree.owner.Keys))
      ensures !done <==> !EndsInDot(name) && Split(name) in old(store) && old(store)[Split(name)].Code?
      ensures done ==> store == InsertNamed(old(store), name, Val(v))
    {
      hide Split, InsertNamed, EndsInDot, T.Itemstore.Valid, T.Itemstore.Abs;
      tree.AbsAt(Split(name));
      tree.OwnTables();
      tree.StoreClosed();
      NameLaws.AssignedUnderName(store, name, Val(v));
      InsertNothing(store, Val(v));
      var x := tree.InsertItem(name, v);
      tree.AbsAt(Split(name));
      store := tree.Abs();
      return x != null && (!x.isCode || EndsInDot(name));
    }

    /** op_exists. */
    method OpExists(pc: nat) returns (r: Outcome<int>)
      requires Linked()
      modifies `current, stack
      ensures Linked() && I.StepExists(pc, old(Abs())) == Lift(r, Abs())
    {
      hide Split, T.Itemstore.Valid, T.Itemstore.Abs;
      if current < 0 || !stack[current].Str? { return Excluded; }
      var name := Pop();
      tree.AbsAt(Split(name.s));
      var x := tree.FindItem(name.s);
      var pushed := Push(Truth(x != null));
      return Ok(pc + 1);
    }

    /** The dispatch table, for the opcodes that leave the items alone. */
    method PlainOnStack(code: Code, pc: nat) returns (r: Outcome<int>)
      requires Valid() && pc < |code| && code[pc] != ASSIGN_ITEM && code[pc] != EXISTS
      modifies `current, stack, `log
      ensures Valid() && old(log) <= log
      ensures forall u :: Extends(u, log) ==> I.StepPlain(u, code, pc, old(Abs())) == Lift(r, Abs())
    {
      var op := code[pc];
      var binary := I.BinOpOf(op);
      if binary != [] { r := OpBinary(binary[0], pc); }
      else if op == PUSH_INT { r := OpPushInt(code, pc); }
      else if op == PUSH_STR { r := OpPushStr(code, pc); }
      else if op == JUMP { r := OpJump(code, pc); }
      else if op == JUMP_FALSE { r := OpJumpFalse(code, pc); }
      else if op == ITEM { r := AssembleItem(code, pc); }
      else if op == NEGATE { r := OpUnary(true, pc); }
      else if op == NOT { r := OpUnary(false, pc); }
      else if I.IsLocalOp(op) {
        if pc + 1 >= |code| { r := Excluded; }
        else if op == GET_LOCAL { r := OpGetLocal(code[pc + 1], pc); }
        else if op == SAVE_LOCAL { r := OpSaveLocal(code[pc + 1], pc); }
        else { r := OpAddToLocal(code[pc + 1], if op == INC_LOCAL then 1 else -1, pc); }
      }
      else if I.Unmodelled(op) { r := Excluded; }
      else { r := Ok(pc + 1); }
    }

    /** The dispatch table, for every opcode but the call. */
    method Plain(code: Code, pc: nat) returns (r: Outcome<int>)
      requires Linked() && pc < |code|
      modifies `current, stack, `store, `log, tree, tree.items, tree.owner.Keys
      ensures Linked() && old(log) <= log
      ensures fresh(tree.items - old(tree.items)) && fresh(tree.owner.Keys - old(tree.owner.Keys))
      ensures forall u :: Extends(u, log) ==> I.StepPlain(u, code, pc, old(Abs())) == Lift(r, Abs())
    {
      hide T.Itemstore.Valid, T.Itemstore.Abs, I.StepAssignItem, I.StepExists, I.StepItem, I.StepBinary;
      if code[pc] == ASSIGN_ITEM {
        r := OpAssignItem(pc);
      } else if code[pc] == EXISTS {
        r := OpExists(pc);
      } else {
        hide I.StepPlain;
        r := PlainOnStack(code, pc);
      }
    }

    /** The two loops of op_fetchitem that fit the arguments to what the callee takes. */
    method AdjustArguments(have: nat, want: nat) returns (r: Outcome<()>)
      requires Valid()
      modifies `current, stack
      ensures Valid() && I.AdjustArgs(old(Abs()), have, want) == Ended(r, Abs())
    {
      var count := have;
      while count > want
        invariant Valid() && (count > want || count == want || have <= want)
        invariant have > want ==> want <= count
        invariant have <= want ==> count == have
        invariant I.AdjustArgs(Abs(), count, want) == I.AdjustArgs(old(Abs()), have, want)
        decreases count
      {
        if current < 0 { return Excluded; }
        var lost := Pop();
        count := count - 1;
      }
      while count < want
        invariant Valid() && count <= want
        invariant I.AdjustArgs(Abs(), count, want) == I.AdjustArgs(old(Abs()), have, want)
        decreases want - count
      {
        var pushed := Push(NIL);
        if !pushed.Ok? { return Excluded; }
        count := count + 1;
      }
      return Ok(());
    }

    /** The arguments of an item that does not exist are lost. */
    method ThrowAway(count: nat) returns (r: Outcome<()>)
      requires Valid()
      modifies `current, stack
      ensures Valid() && r == if count <= |old(Abs()).stack| then Ok(()) else Excluded
      ensures r.Ok? ==> Abs() == I.Drop(old(Abs()), count)
    {
      if count > current + 1 { return Excluded; }
      ghost var m := Abs();
      for i := 0 to count
        invariant Valid() && current == old(current) - i && Abs() == I.Drop(m, i)
      {
        var lost := Pop();
        assert I.Drop(I.Drop(m, i), 1) == I.Drop(m, i + 1);
      }
      return Ok(());
    }

    /** The start of interpret: the new locals are whatever lies in their slots. */
    method EnterFrame(code: Code) returns (r: Outcome<()>)
      requires Valid()
      modifies `current, `locals, `params, `log
      ensures Valid() && old(log) <= log
      ensures forall u :: Extends(u, log) ==> I.EnterFrame(u, code, old(Abs())) == Ended(r, Abs())
    {
      if |code| < 2 || code[1] > code[0] || current + 1 + (code[0] - code[1]) > STACK_SIZE { return Excluded; }
      var extra := code[0] - code[1];
      ghost var slots := stack[current + 1..current + 1 + extra];
      current := current + extra;
      locals, params := code[0], code[1];
      log := log + seq(extra, i requires 0 <= i < extra => Draw(0, slots[i]));
      forall u | Extends(u, log)
        ensures seq(extra, i requires 0 <= i => u.slot(|old(log)| + i)) == slots
      {
        DrawnSlots(u, old(log), slots);
      }
      assert stack[..current + 1] == stack[..old(current) + 1] + slots;
      return Ok(());
    }

    /** What op_fetchitem pushes when there is nothing to run; the arguments of a missing item are lost. */
    method PushFetched(missing: bool, v: Value, argc: nat, next: nat) returns (r: Outcome<int>)
      requires Valid()
      modifies `current, stack
      ensures Valid()
      ensures var m := old(Abs());
        Lift(r, Abs()) == if missing && argc > |m.stack| then Excluded
                          else Pushed(I.Push(if missing then I.Drop(m, argc) else m, if missing then NIL else v), next)
    {
      if missing {
        var thrown := ThrowAway(argc);
        if !thrown.Ok? { return Excluded; }
      }
      var pushed := Push(if missing then NIL else v);
      return if pushed.Ok? then Ok(next) else Excluded;
    }

    /** What the item with this name holds, if there is one. */
    method Content(name: Text) returns (found: Option<Content<Code>>)
      requires Linked()
      ensures found == if Split(name) in store then Some(store[Split(name)]) else None
    {
      hide Split, T.Itemstore.Valid, T.Itemstore.Abs;
      tree.AbsAt(Split(name));
      var x := tree.FindItem(name);
      return if x == null then None else Some(x.Holds());
    }

    /** op_fetchitem. */
    method OpFetch(code: Code, pc: nat, fuel: nat) returns (r: Outcome<int>)
      requires Linked() && pc < |code|
      modifies this, stack, entry, tree, tree.items, tree.owner.Keys
      ensures Linked() && old(log) <= log
      ensures fresh(tree.items - old(tree.items)) && fresh(tree.owner.Keys - old(tree.owner.Keys))
      ensures forall u :: Extends(u, log) ==> I.StepFetch(u, code, pc, old(Abs()), fuel) == Lift(r, Abs())
      decreases fuel, 1
    {
      hide T.Itemstore.Valid, T.Itemstore.Abs, Split, I.StepFetch, CallOf, Extends, I.Push;
      if pc + 3 > |code| || current < 0 {
        NothingToFetch(code, pc, Abs(), fuel);
        return Excluded;
      }
      var argc := Decode(code[pc + 1..pc + 3]);
      FetchCases(code, pc, Abs(), fuel);
      var name := Pop();
      var found := None;
      if name.Str? {
        found := Content(name.s);
      }
      if found.Some? && found.value.Code? {
        r := Call(found.value.c, argc, pc + 3, fuel);
      } else {
        r := PushFetched(name.Str? && found.None?, if found.Some? then found.value.v else NIL, argc, pc + 3);
      }
    }

    /** The arguments are fitted and the caller's frame saved. */
    method EnterCall(argc: nat, params: byte, next: nat) returns (r: Outcome<()>)
      requires Valid()
      modifies `current, stack, `depth, `base, entry
      ensures Valid() && Entered(old(Abs()), argc, params, next) == Ended(r, Abs())
    {
      r := AdjustArguments(argc, params);
      if r.Ok? {
        r := PushCallstack(next, params);
      }
    }

    /** The caller's frame is restored and the callee's result pushed. */
    method LeaveCall(v: Value) returns (r: Outcome<int>)
      requires Valid()
      modifies `current, stack, `base, `locals, `params, `depth
      ensures Valid() && Left(v, old(Abs())) == Lift(r, Abs())
    {
      if depth == 0 { return Excluded; }
      var next := PopCallstack();
      var pushed := Push(v);
      return if pushed.Ok? then Ok(next) else Excluded;
    }

    /** The part of op_fetchitem that runs a code item. */
    method Call(callee: Code, argc: nat, next: nat, fuel: nat) returns (r: Outcome<int>)
      requires Linked()
      modifies this, stack, entry, tree, tree.items, tree.owner.Keys
      ensures Linked() && old(log) <= log
      ensures fresh(tree.items - old(tree.items)) && fresh(tree.owner.Keys - old(tree.owner.Keys))
      ensures forall u :: Extends(u, log) ==> CallOf(u, callee, argc, next, old(Abs()), fuel) == Lift(r, Abs())
      decreases fuel, 0, 2
    {
      hide Extends, Entered, Left, I.Interpret, T.Itemstore.Valid, T.Itemstore.Abs, Valid, Abs;
      if |callee| < 2 { return Excluded; }
      var entered := EnterCall(argc, callee[1], next);
      if !entered.Ok? { return entered.PropagateFailure(); }
      var value := Interpret(callee, fuel);
      if !value.Ok? { return value.PropagateFailure(); }
      r := LeaveCall(value.val);
    }

    /** The result of an item: the top of the stack, if size_stack counts anything. */
    method PopResult() returns (v: Value)
      requires Valid()
      modifies `current, stack
      ensures Valid() && (v, Abs()) == I.TakeResult(old(Abs()))
    {
      v := NIL;
      var size := SizeStack();
      if size > 0 {
        v := Pop();
      }
    }

    /** interpret: run an item to its halt and take its result. */
    method Interpret(code: Code, fuel: nat) returns (r: Outcome<Value>)
      requires Linked()
      modifies this, stack, entry, tree, tree.items, tree.owner.Keys
      ensures Linked() && old(log) <= log
      ensures fresh(tree.items - old(tree.items)) && fresh(tree.owner.Keys - old(tree.owner.Keys))
      ensures forall u :: Extends(u, log) ==> I.Interpret(u, code, old(Abs()), fuel) == Lift(r, Abs())
      decreases fuel, 0, 1
    {
      hide I.EnterFrame, I.Run, I.TakeResult, T.Itemstore.Valid, T.Itemstore.Abs;
      var entered := EnterFrame(code);
      if !entered.Ok? { return entered.PropagateFailure(); }
      var ran := Run(code, 2, fuel);
      if !ran.Ok? { return ran.PropagateFailure(); }
      var v := PopResult();
      return Ok(v);
    }

    /** The dispatch loop, for at most fuel instructions. */
    method Run(code: Code, start: int, fuel: nat) returns (r: Outcome<()>)
      requires Linked()
      modifies this, stack, entry, tree, tree.items, tree.owner.Keys
      ensures Linked() && old(log) <= log
      ensures fresh(tree.items - old(tree.items)) && fresh(tree.owner.Keys - old(tree.owner.Keys))
      ensures forall u :: Extends(u, log) ==> I.Run(u, code, start, old(Abs()), fuel) == Ended(r, Abs())
      decreases fuel, 0, 0
    {
      hide I.StepPlain, I.StepFetch, T.Itemstore.Valid, T.Itemstore.Abs;
      var pc: int, left: nat := start, fuel;
      while left > 0
        invariant Linked() && old(log) <= log && left <= fuel
        invariant fresh(tree.items - old(tree.items)) && fresh(tree.owner.Keys - old(tree.owner.Keys))
        invariant forall u :: Extends(u, log) ==>
          I.Run(u, code, pc, Abs(), left) == I.Run(u, code, start, old(Abs()), fuel)
        decreases left
      {
        if !(0 <= pc < |code|) { return Excluded; }
        if code[pc] == HALT { return Ok(()); }
        var step := Step(code, pc, left - 1);
        if !step.Ok? { return step.PropagateFailure(); }
        pc, left := step.val, left - 1;
      }
      return Timeout;
    }

    method Step(code: Code, pc: nat, fuel: nat) returns (r: Outcome<int>)
      requires Linked() && pc < |code|
      modifies this, stack, entry, tree, tree.items, tree.owner.Keys
      ensures Linked() && old(log) <= log
      ensures fresh(tree.items - old(tree.items)) && fresh(tree.owner.Keys - old(tree.owner.Keys))
      ensures forall u :: Extends(u, log) ==> I.Step(u, code, pc, old(Abs()), fuel) == Lift(r, Abs())
      decreases fuel, 2
    {
      hide I.StepPlain, I.StepFetch, T.Itemstore.Valid, T.Itemstore.Abs;
      if code[pc] == FETCH {
        r := OpFetch(code, pc, fuel);
      } else {
        r := Plain(code, pc);
      }
    }
  }

  lemma InsertNothing<C>(s: Store<C>, c: Content<C>)
    ensures InsertNamed(s, [], c) == s && Split([]) == [] && !EndsInDot([])
  {
  }

  /** A stream that extends the log gives the drawn slots back. */
  lemma DrawnSlots(u: Unspecified, log: seq<Draw>, slots: seq<Value>)
    requires Extends(u, log + seq(|slots|, i requires 0 <= i < |slots| => Draw(0, slots[i])))
    ensures seq(|slots|, i requires 0 <= i => u.slot(|log| + i)) == slots
  {
    var log' := log + seq(|slots|, i requires 0 <= i < |slots| => Draw(0, slots[i]));
    assert forall i :: 0 <= i < |slots| ==> log'[|log| + i].slot == slots[i];
  }

  lemma NothingToFetch(code: Code, pc: nat, m: I.Machine, fuel: nat)
    requires pc + 3 > |code| || m.stack == []
    ensures forall u :: I.StepFetch(u, code, pc, m, fuel) == Excluded
  {
  }

  lemma FetchCases(code: Code, pc: nat, m: I.Machine, fuel: nat)
    requires pc + 3 <= |code| && m.stack != []
    ensures var argc, name, m1 := Decode(code[pc + 1..pc + 3]), I.Top(m), I.Drop(m, 1);
      forall u :: I.StepFetch(u, code, pc, m, fuel) ==
        if !name.Str? then Pushed(I.Push(m1, NIL), pc + 3)
        else if Split(name.s) !in m1.store then
          if argc > |m1.stack| then Excluded else Pushed(I.Push(I.Drop(m1, argc), NIL), pc + 3)
        else
          match m1.store[Split(name.s)]
          case Val(v) => Pushed(I.Push(m1, v), pc + 3)
          case Code(callee) => CallOf(u, callee, argc, pc + 3, m1, fuel)
  {
    hide I.AdjustArgs, I.Interpret, Split, I.PushCall, I.PopCall;
  }

  /** A push, and where to go on. */
  ghost function Pushed(r: Outcome<I.Machine>, next: int): Outcome<(int, I.Machine)> {
    match r
    case Ok(m) => Ok((next, m))
    case Timeout => Timeout
    case Excluded => Excluded
  }

  ghost function Entered(m: I.Machine, argc: nat, params: byte, next: nat): Outcome<I.Machine> {
    var m2 :- I.AdjustArgs(m, argc, params);
    I.PushCall(m2, next, params)
  }

  ghost function Left(v: Value, m: I.Machine): Outcome<(int, I.Machine)> {
    if m.calls == [] then Excluded else Pushed(I.Push(I.PopCall(m), v), m.calls[|m.calls| - 1].next)
  }

  /** What op_fetchitem does once it knows the callee, as Interpreter has it. */
  ghost function CallOf(u: Unspecified, callee: Code, argc: nat, next: nat, m1: I.Machine, fuel: nat)
    : Outcome<(int, I.Machine)>
  {
    if |callee| < 2 then Excluded
    else
      var m3 :- Entered(m1, argc, callee[1], next);
      var (v, m4) :- I.Interpret(u, callee, m3, fuel);
      Left(v, m4)
  }
}
