/** The bytecode interpreter of src/interpret.c as a step function over bytes. */
module Interpreter {
  import opened Bytes
  import opened Values
  import opened Paths
  import opened CodeGen
  import opened Source

  /** What push_callstack saves: where to go on, and the frame to restore. */
  datatype CallRecord = CallRecord(next: int, height: nat, base: nat, locals: nat, params: nat)

  /** The live part of the value stack, the frame registers, the call stack and the itemstore. */
  datatype Machine = Machine(stack: seq<Value>, base: nat, locals: nat, params: nat,
                             calls: seq<CallRecord>, store: Store<Code>, tick: nat)

  /** Excluded stands for a raised SIGUSR1 (stack or call stack limits) and for invalid bytecode. */
  type Result<+T> = Outcome<T>

  function Push(m: Machine, v: Value): Result<Machine> {
    if |m.stack| < STACK_SIZE then Ok(m.(stack := m.stack + [v])) else Excluded
  }

  function Top(m: Machine): Value
    requires m.stack != []
  {
    m.stack[|m.stack| - 1]
  }

  function Drop(m: Machine, k: nat): Machine
    requires k <= |m.stack|
  {
    m.(stack := m.stack[..|m.stack| - k])
  }

  /** The slot of a local, in the 8-bit arithmetic of the opcode functions. */
  function Slot(m: Machine, index: byte): nat { (index + m.base) % 256 }

  // ----- names -----

  datatype LayerRead = GoodLayer(next: int, text: Text) | BadLayer(next: int) | Unreadable

  datatype NameRead = Named(next: int, name: Text) | NoName(next: int) | UnreadableName

  /** One layer at pc; a nested item reference is not part of this model. */
  function ReadLayer(code: Code, pc: nat, m: Machine): (r: LayerRead)
    ensures r.GoodLayer? ==> pc < r.next
  {
    if pc + 2 >= |code| then Unreadable
    else if code[pc] == LAYER then
      var n := code[pc + 1];
      if pc + 2 + n > |code| then Unreadable else GoodLayer(pc + 2 + n, CString(code[pc + 2..pc + 2 + n]))
    else if code[pc] == DEREF then
      if code[pc + 1] == DEREF_LOCAL then
        var slot := code[pc + 2] + m.base;
        if slot >= |m.stack| then Unreadable
        else match m.stack[slot]
        case Str(s) => if IsValidLayer(s) then GoodLayer(pc + 3, s) else BadLayer(pc + 3)
        case Int(i) =>
          if Truncate32(i) == -0x8000_0000 then Unreadable else GoodLayer(pc + 3, Decimal(Truncate32(i)))
        case _ => BadLayer(pc + 3)
      else if code[pc + 1] == ITEM then Unreadable
      else BadLayer(pc + 2)
    else BadLayer(pc + 1)
  }

  /** assembleitem_helper: layers joined by dots, up to END_ITEM. */
  function ReadName(code: Code, pc: nat, name: Text, m: Machine): NameRead
    decreases |code| - pc
  {
    if pc >= |code| then UnreadableName
    else if code[pc] == END_ITEM then Named(pc + 1, name)
    else
      match ReadLayer(code, pc, m)
      case Unreadable => UnreadableName
      case BadLayer(next) => NoName(next + 1)
      case GoodLayer(next, text) =>
        if next >= |code| then UnreadableName
        else if code[next] == END_ITEM then Named(next + 1, name + text)
        else ReadName(code, next, name + text + [DOT], m)
  }

  // ----- instructions -----

  function BinOpOf(op: byte): (r: seq<BinOp>)
    ensures r != [] ==> OpByte(r[0]) == op
  {
    if op == 111 then [Eq] else if op == 113 then [Ne] else if op == 122 then [Or]
    else if op == 121 then [And] else if op == 114 then [Lt] else if op == 117 then [Le]
    else if op == 116 then [Gt] else if op == 118 then [Ge] else if op == 97 then [Add]
    else if op == 115 then [Sub] else if op == 109 then [Mul] else if op == 100 then [Div] else []
  }

  function StepBinary(u: Unspecified, op: BinOp, pc: nat, m: Machine): Result<(int, Machine)> {
    if |m.stack| < 2 then Excluded
    else
      var v := Apply(op, m.stack[|m.stack| - 2], Top(m), u.address(m.tick));
      Ok((pc + 1, Drop(m, 2).(stack := Drop(m, 2).stack + [v], tick := m.tick + 1)))
  }

  function ReplaceTop(pc: nat, m: Machine, v: Value): (int, Machine)
    requires m.stack != []
  {
    (pc + 1, m.(stack := Drop(m, 1).stack + [v]))
  }

  function StepSaveLocal(index: byte, pc: nat, m: Machine): Result<(int, Machine)> {
    var slot := Slot(m, index);
    if m.stack == [] || slot >= |m.stack| then Excluded
    else Ok((pc + 2, Drop(m.(stack := m.stack[slot := Top(m)]), 1)))
  }

  function StepGetLocal(index: byte, pc: nat, m: Machine): Result<(int, Machine)> {
    var slot := Slot(m, index);
    if slot >= |m.stack| then Excluded
    else
      var m' :- Push(m, m.stack[slot]);
      Ok((pc + 2, m'))
  }

  function StepAddToLocal(index: byte, delta: int, pc: nat, m: Machine): Result<(int, Machine)> {
    var slot := Slot(m, index);
    if slot >= |m.stack| then Excluded
    else Ok((pc + 2, m.(stack := m.stack[slot := Increment(m.stack[slot], delta)])))
  }

  /** An offset is relative to its own position. */
  function StepJump(code: Code, pc: nat, m: Machine): Result<(int, Machine)> {
    if pc + 3 > |code| then Excluded else Ok((pc + 1 + Signed16(code[pc + 1..pc + 3]), m))
  }

  function StepJumpFalse(code: Code, pc: nat, m: Machine): Result<(int, Machine)> {
    if pc + 3 > |code| || m.stack == [] then Excluded
    else if IsTrue(Top(m)) then Ok((pc + 3, Drop(m, 1)))
    else Ok((pc + 1 + Signed16(code[pc + 1..pc + 3]), Drop(m, 1)))
  }

  function StepPushInt(code: Code, pc: nat, m: Machine): Result<(int, Machine)> {
    if pc + 9 > |code| then Excluded
    else
      var m' :- Push(m, Int(Signed64(code[pc + 1..pc + 9])));
      Ok((pc + 9, m'))
  }

  function StepPushStr(code: Code, pc: nat, m: Machine): Result<(int, Machine)> {
    if pc + 3 > |code| then Excluded
    else
      var n := Decode(code[pc + 1..pc + 3]);
      if pc + 3 + n > |code| then Excluded
      else
        var m' :- Push(m, Str(CString(code[pc + 3..pc + 3 + n])));
        Ok((pc + 3 + n, m'))
  }

  function StepItem(code: Code, pc: nat, m: Machine): Result<(int, Machine)> {
    match ReadName(code, pc + 1, [], m)
    case UnreadableName => Excluded
    case NoName(next) =>
      var m' :- Push(m, NIL);
      Ok((next, m'))
    case Named(next, name) =>
      var m' :- Push(m, Str(name));
      Ok((next, m'))
  }

  /** Over a code item the original frees the bytecode and goes on; that run is excluded. */
  function StepAssignItem(pc: nat, m: Machine): Result<(int, Machine)> {
    if |m.stack| < 2 then Excluded
    else
      var v, name := Top(m), m.stack[|m.stack| - 2];
      if !name.Str? then Ok((pc + 1, Drop(m, 2)))
      else
        var p := Split(name.s);
        if !EndsInDot(name.s) && p in m.store && m.store[p].Code? then Excluded
        else Ok((pc + 1, Drop(m, 2).(store := InsertNamed(m.store, name.s, Val(v)))))
  }

  function StepExists(pc: nat, m: Machine): Result<(int, Machine)> {
    if m.stack == [] || !Top(m).Str? then Excluded
    else Ok(ReplaceTop(pc, m, Truth(Split(Top(m).s) in m.store)))
  }

  /** Every instruction that does not call another item. A byte that is no opcode is passed over. */
  function StepPlain(u: Unspecified, code: Code, pc: nat, m: Machine): Result<(int, Machine)>
    requires pc < |code|
  {
    var op := code[pc];
    if BinOpOf(op) != [] then StepBinary(u, BinOpOf(op)[0], pc, m)
    else if op == PUSH_INT then StepPushInt(code, pc, m)
    else if op == PUSH_STR then StepPushStr(code, pc, m)
    else if op == JUMP then StepJump(code, pc, m)
    else if op == JUMP_FALSE then StepJumpFalse(code, pc, m)
    else if op == ITEM then StepItem(code, pc, m)
    else if op == ASSIGN_ITEM then StepAssignItem(pc, m)
    else if op == EXISTS then StepExists(pc, m)
    else if op == NEGATE then (if m.stack == [] then Excluded else Ok(ReplaceTop(pc, m, Negate(Top(m)))))
    else if op == NOT then (if m.stack == [] then Excluded else Ok(ReplaceTop(pc, m, LogicalNot(Top(m)))))
    else if IsLocalOp(op) then
      if pc + 1 >= |code| then Excluded
      else if op == GET_LOCAL then StepGetLocal(code[pc + 1], pc, m)
      else if op == SAVE_LOCAL then StepSaveLocal(code[pc + 1], pc, m)
      else StepAddToLocal(code[pc + 1], if op == INC_LOCAL then 1 else -1, pc, m)
    else if Unmodelled(op) then Excluded
    else Ok((pc + 1, m))
  }

  predicate IsLocalOp(op: byte) { op == GET_LOCAL || op == SAVE_LOCAL || op == INC_LOCAL || op == DEC_LOCAL }

  /** A library call, embedded code, delete, nthname and rootname. */
  predicate Unmodelled(op: byte) { op == 65 || op == 66 || op == 87 || op == 89 || op == 90 }

  // ----- calls -----

  /** Arguments beyond what the callee takes are thrown away; missing ones are pushed as nil. */
  function AdjustArgs(m: Machine, have: nat, want: nat): Result<Machine>
    decreases if have > want then have - want else want - have
  {
    if have > want then
      if m.stack == [] then Excluded else AdjustArgs(Drop(m, 1), have - 1, want)
    else if have < want then
      var m' :- Push(m, NIL);
      AdjustArgs(m', have + 1, want)
    else Ok(m)
  }

  /** push_callstack: the arguments become the bottom of the new frame. */
  function PushCall(m: Machine, next: int, args: nat): Result<Machine> {
    if |m.calls| < CALLSTACK_SIZE && args <= |m.stack| then
      Ok(m.(calls := m.calls + [CallRecord(next, |m.stack| - args, m.base, m.locals, m.params)],
            base := |m.stack| - args))
    else Excluded
  }

  /** pop_callstack: cut the stack back (it is never raised), and restore the frame registers. */
  function PopCall(m: Machine): Machine
    requires m.calls != []
  {
    var c := m.calls[|m.calls| - 1];
    m.(stack := if |m.stack| > c.height then m.stack[..c.height] else m.stack,
       base := c.base, locals := c.locals, params := c.params, calls := m.calls[..|m.calls| - 1])
  }

  /** The start of interpret: the locals that are not parameters are whatever lies there. */
  function EnterFrame(u: Unspecified, code: Code, m: Machine): Result<Machine> {
    if |code| < 2 || code[1] > code[0] || |m.stack| + (code[0] - code[1]) > STACK_SIZE then Excluded
    else
      var extra := code[0] - code[1];
      Ok(m.(stack := m.stack + seq(extra, i requires 0 <= i => u.slot(m.tick + i)),
            locals := code[0], params := code[1], tick := m.tick + extra))
  }

  /** The end of interpret: pop a result if size_stack counts anything above the locals. */
  function TakeResult(m: Machine): (Value, Machine) {
    if |m.stack| > m.locals then (Top(m), Drop(m, 1)) else (NIL, m)
  }

  /** op_fetchitem. */
  function StepFetch(u: Unspecified, code: Code, pc: nat, m: Machine, fuel: nat): Result<(int, Machine)>
    decreases fuel, 1
  {
    if pc + 3 > |code| || m.stack == [] then Excluded
    else
      var argc := Decode(code[pc + 1..pc + 3]);
      var name, m1 := Top(m), Drop(m, 1);
      if !name.Str? then
        var m2 :- Push(m1, NIL);
        Ok((pc + 3, m2))
      else if Split(name.s) !in m1.store then
        if argc > |m1.stack| then Excluded
        else
          var m2 :- Push(Drop(m1, argc), NIL);
          Ok((pc + 3, m2))
      else match m1.store[Split(name.s)]
      case Val(v) =>
        var m2 :- Push(m1, v);
        Ok((pc + 3, m2))
      case Code(callee) =>
        if |callee| < 2 then Excluded
        else
          var m2 :- AdjustArgs(m1, argc, callee[1]);
          var m3 :- PushCall(m2, pc + 3, callee[1]);
          var (v, m4) :- Interpret(u, callee, m3, fuel);
          if m4.calls == [] then Excluded
          else
            var next := m4.calls[|m4.calls| - 1].next;
            var m5 :- Push(PopCall(m4), v);
            Ok((next, m5))
  }

  /** interpret: run an item to its halt and take its result. */
  function Interpret(u: Unspecified, code: Code, m: Machine, fuel: nat): Result<(Value, Machine)>
    decreases fuel, 0, 1
  {
    var m1 :- EnterFrame(u, code, m);
    var m2 :- Run(u, code, 2, m1, fuel);
    Ok(TakeResult(m2))
  }

  /** The dispatch loop, up to the halt; each instruction costs one unit of fuel. */
  function Run(u: Unspecified, code: Code, pc: int, m: Machine, fuel: nat): Result<Machine>
    decreases fuel, 0, 0
  {
    if fuel == 0 then Timeout
    else if !(0 <= pc < |code|) then Excluded
    else if code[pc] == HALT then Ok(m)
    else
      var (pc', m') :- Step(u, code, pc, m, fuel - 1);
      Run(u, code, pc', m', fuel - 1)
  }

  function Step(u: Unspecified, code: Code, pc: nat, m: Machine, fuel: nat): Result<(int, Machine)>
    requires pc < |code|
    decreases fuel, 2
  {
    if code[pc] == FETCH then StepFetch(u, code, pc, m, fuel) else StepPlain(u, code, pc, m)
  }
}
