/**
 * Where a run of compiled code can be: the interpreter goes from instruction to instruction, except
 * after an item reference one of whose inner layers has no valid content.
 */
module Stepping {
  import opened Bytes
  import opened Values
  import opened Paths
  import opened Syntax
  import opened Source
  import opened CodeGen
  import opened Interpreter
  import opened Boundaries

  // ----- calls leave the call stack as it was -----

  lemma {:induction false} RunKeepsCalls(u: Unspecified, code: Code, pc: int, m: Machine, fuel: nat)
    requires Run(u, code, pc, m, fuel).Ok?
    ensures Run(u, code, pc, m, fuel).val.calls == m.calls
    decreases fuel, 0, 0
  {
    hide StepPlain, StepFetch;
    if code[pc] != HALT {
      StepKeepsCalls(u, code, pc, m, fuel - 1);
      var (pc', m') := Step(u, code, pc, m, fuel - 1).val;
      RunKeepsCalls(u, code, pc', m', fuel - 1);
    }
  }

  lemma {:induction false} StepKeepsCalls(u: Unspecified, code: Code, pc: nat, m: Machine, fuel: nat)
    requires pc < |code| && Step(u, code, pc, m, fuel).Ok?
    ensures Step(u, code, pc, m, fuel).val.1.calls == m.calls
    ensures code[pc] == FETCH ==> Step(u, code, pc, m, fuel).val.0 == pc + 3
    decreases fuel, 2
  {
    if code[pc] == FETCH {
      hide StepPlain;
      FetchKeepsCalls(u, code, pc, m, fuel);
    } else {
      hide StepFetch, ReadName, Insert, InsertNamed;
    }
  }

  lemma {:induction false} FetchKeepsCalls(u: Unspecified, code: Code, pc: nat, m: Machine, fuel: nat)
    requires StepFetch(u, code, pc, m, fuel).Ok?
    ensures var (pc', m') := StepFetch(u, code, pc, m, fuel).val; m'.calls == m.calls && pc' == pc + 3
    decreases fuel, 1
  {
    hide Run, AdjustArgs, EnterFrame, TakeResult;
    var argc, m1 := Decode(code[pc + 1..pc + 3]), Drop(m, 1);
    if Top(m).Str? && Split(Top(m).s) in m1.store && m1.store[Split(Top(m).s)].Code? {
      var callee := m1.store[Split(Top(m).s)].c;
      AdjustKeepsCalls(m1, argc, callee[1]);
      var m3 := PushCall(AdjustArgs(m1, argc, callee[1]).val, pc + 3, callee[1]).val;
      InterpretKeepsCalls(u, callee, m3, fuel);
    }
  }

  lemma {:induction false} AdjustKeepsCalls(m: Machine, have: nat, want: nat)
    requires AdjustArgs(m, have, want).Ok?
    ensures AdjustArgs(m, have, want).val.calls == m.calls
    decreases if have > want then have - want else want - have
  {
    if have > want {
      AdjustKeepsCalls(Drop(m, 1), have - 1, want);
    } else if have < want {
      AdjustKeepsCalls(Push(m, NIL).val, have + 1, want);
    }
  }

  lemma {:induction false} InterpretKeepsCalls(u: Unspecified, code: Code, m: Machine, fuel: nat)
    requires Interpret(u, code, m, fuel).Ok?
    ensures Interpret(u, code, m, fuel).val.1.calls == m.calls
    decreases fuel, 0, 1
  {
    RunKeepsCalls(u, code, 2, EnterFrame(u, code, m).val, fuel);
  }

  // ----- item references -----

  /** assembleitem_helper meets a layer without valid content that is not the last one. */
  predicate BadInnerLayer(code: Code, p: nat, m: Machine)
    decreases |code| - p
  {
    p < |code| && code[p] != END_ITEM
    && match ReadLayer(code, p, m)
       case Unreadable => false
       case BadLayer(next) => next < |code| && code[next] != END_ITEM
       case GoodLayer(next, _) => BadInnerLayer(code, next, m)
  }

  lemma PastOneByte(code: Code, p: nat)
    requires ItemEnd(code, p) < |code|
    ensures ItemEnd(code, p) == p + 1 <==> code[p] == END_ITEM
  {
  }

  /** An item reference is read to its end, unless an inner layer is bad: then reading stops inside it. */
  lemma {:induction false} NameEnds(code: Code, p: nat, name: Text, m: Machine)
    requires !ReadName(code, p, name, m).UnreadableName? && ItemEnd(code, p) < |code|
    ensures BadInnerLayer(code, p, m) ==> ReadName(code, p, name, m).NoName?
    ensures BadInnerLayer(code, p, m) <==> ReadName(code, p, name, m).next != ItemEnd(code, p)
    ensures p < ReadName(code, p, name, m).next <= ItemEnd(code, p)
    decreases |code| - p
  {
    if code[p] != END_ITEM {
      match ReadLayer(code, p, m) {
        case BadLayer(next) =>
          assert ItemEnd(code, p) == ItemEnd(code, next);
          PastOneByte(code, next);
        case GoodLayer(next, text) =>
          assert ItemEnd(code, p) == ItemEnd(code, next);
          assert BadInnerLayer(code, p, m) == BadInnerLayer(code, next, m);
          PastOneByte(code, next);
          if code[next] != END_ITEM {
            NameEnds(code, next, name + text + [DOT], m);
          }
        case Unreadable =>
      }
    }
  }

  /** The instruction at pc is an item reference that is not read to its end. */
  predicate BreaksOff(code: Code, pc: int, m: Machine) {
    0 <= pc < |code| && code[pc] == ITEM && BadInnerLayer(code, pc + 1, m)
  }

  /**
   * Where one step goes: to the target of a jump taken, else to the next instruction; only after an
   * item reference with a bad inner layer does it go to a byte inside that instruction.
   */
  lemma StepGoes(u: Unspecified, code: Code, pc: nat, m: Machine, fuel: nat)
    requires pc < |code| && NextInstruction(code, pc) < |code| && code[pc] != HALT
    requires Step(u, code, pc, m, fuel).Ok?
    ensures var pc' := Step(u, code, pc, m, fuel).val.0;
      if code[pc] == JUMP then pc + 3 <= |code| && pc' == Target(code, pc)
      else if code[pc] == JUMP_FALSE then
        m.stack != [] && pc + 3 <= |code| && pc' == if IsTrue(Top(m)) then pc + 3 else Target(code, pc)
      else if BreaksOff(code, pc, m) then pc < pc' < NextInstruction(code, pc)
      else pc' == NextInstruction(code, pc)
  {
    hide StepFetch, StepPlain, NextInstruction, ItemEnd, BadInnerLayer, Decode;
    if code[pc] == FETCH {
      StepKeepsCalls(u, code, pc, m, fuel);
      NextOfFetch(code, pc);
    } else if code[pc] == ITEM {
      ItemGoes(u, code, pc, m);
    } else {
      PlainGoes(u, code, pc, m);
    }
  }

  lemma NextOfFetch(code: Code, pc: nat)
    requires pc < |code| && code[pc] == FETCH
    ensures NextInstruction(code, pc) == pc + 3
  {
  }

  lemma ItemGoes(u: Unspecified, code: Code, pc: nat, m: Machine)
    requires pc < |code| && NextInstruction(code, pc) < |code| && code[pc] == ITEM && StepPlain(u, code, pc, m).Ok?
    ensures var pc' := StepPlain(u, code, pc, m).val.0;
      if BreaksOff(code, pc, m) then pc < pc' < NextInstruction(code, pc) else pc' == NextInstruction(code, pc)
  {
    hide ReadName, BadInnerLayer, ItemEnd, StepBinary, StepAssignItem;
    NameEnds(code, pc + 1, [], m);
  }

  lemma PlainGoes(u: Unspecified, code: Code, pc: nat, m: Machine)
    requires pc < |code| && code[pc] != ITEM && code[pc] != FETCH && StepPlain(u, code, pc, m).Ok?
    ensures var pc' := StepPlain(u, code, pc, m).val.0;
      if code[pc] == JUMP then pc + 3 <= |code| && pc' == Target(code, pc)
      else if code[pc] == JUMP_FALSE then
        m.stack != [] && pc + 3 <= |code| && pc' == if IsTrue(Top(m)) then pc + 3 else Target(code, pc)
      else pc' == NextInstruction(code, pc)
  {
    hide StepItem, InsertNamed, Apply, Decode, IsTrue, Signed16, Signed64, Increment, Negate, LogicalNot, Split,
         ItemEnd;
  }

  // ----- runs -----

  /** The positions and machines at which the dispatch loop finds itself. */
  function Visited(u: Unspecified, code: Code, pc: int, m: Machine, fuel: nat): seq<(int, Machine)>
    decreases fuel
  {
    if fuel == 0 then []
    else if !(0 <= pc < |code|) || code[pc] == HALT then [(pc, m)]
    else
      match Step(u, code, pc, m, fuel - 1)
      case Ok((pc', m')) => [(pc, m)] + Visited(u, code, pc', m', fuel - 1)
      case Timeout => [(pc, m)]
      case Excluded => [(pc, m)]
  }

  /** A run ends well exactly when the last position it visits is a halt, and there it ends. */
  lemma {:induction false} RunIsVisited(u: Unspecified, code: Code, pc: int, m: Machine, fuel: nat, end: Machine)
    ensures var v := Visited(u, code, pc, m, fuel);
      Run(u, code, pc, m, fuel) == Ok(end)
      <==> v != [] && 0 <= v[|v| - 1].0 < |code| && code[v[|v| - 1].0] == HALT && v[|v| - 1].1 == end
    decreases fuel
  {
    hide Step;
    if fuel > 0 && 0 <= pc < |code| && code[pc] != HALT {
      match Step(u, code, pc, m, fuel - 1) {
        case Ok((pc', m')) => RunIsVisited(u, code, pc', m', fuel - 1, end);
        case _ =>
      }
    }
  }

  /** An instruction of the item begins here. */
  predicate Starts(code: Code, pc: int) { 0 <= pc < |code| && Walks(code, 2, pc) }

  /** Nothing strictly inside an instruction is the start of one. */
  lemma {:induction false} InsideIsNoStart(code: Code, a: int, pc: int, q: int)
    requires 0 <= a && Walks(code, a, pc) && 0 <= pc < |code| && pc < q < NextInstruction(code, pc)
    ensures !Walks(code, a, q)
    decreases pc - a
  {
    if a != pc {
      InsideIsNoStart(code, NextInstruction(code, a), pc, q);
    }
  }

  /** What JumpsLand says of one instruction on the way. */
  lemma {:induction false} LandAt(code: Code, lo: int, a: int, b: int, pc: int)
    requires JumpsLand(code, lo, a, b) && Walks(code, a, pc) && 0 <= pc < b && pc < |code|
    ensures NextInstruction(code, pc) <= b
    ensures IsJump(code[pc]) ==> pc + 3 <= |code| && Target(code, pc) < |code| && Walks(code, lo, Target(code, pc))
    decreases b - a
  {
    if a != pc {
      LandAt(code, lo, NextInstruction(code, a), b, pc);
    }
  }

  /** One step from the start of an instruction of a program. */
  lemma StepFromStart(u: Unspecified, p: Program, pc: int, m: Machine, fuel: nat)
    requires Compiles(p) && Starts(GenProgram(p), pc) && GenProgram(p)[pc] != HALT
    requires Step(u, GenProgram(p), pc, m, fuel).Ok?
    ensures Starts(GenProgram(p), Step(u, GenProgram(p), pc, m, fuel).val.0) <==> !BreaksOff(GenProgram(p), pc, m)
  {
    hide Step, JumpsLand, Compiles, GenProgram, BadInnerLayer, ItemEnd, Decode;
    var code := GenProgram(p);
    ProgramJumpsLand(p);
    LandAt(code, 2, 2, |code| - 1, pc);
    StepGoes(u, code, pc, m, fuel);
    var pc' := Step(u, code, pc, m, fuel).val.0;
    if BreaksOff(code, pc, m) {
      InsideIsNoStart(code, 2, pc, pc');
    } else if pc' == NextInstruction(code, pc) {
      WalksOn(code, 2, pc, pc');
    }
  }

  predicate AllStart(code: Code, v: seq<(int, Machine)>) {
    forall k :: 0 <= k < |v| ==> Starts(code, v[k].0)
  }

  predicate NoneBreaksOff(code: Code, v: seq<(int, Machine)>) {
    forall k :: 0 <= k < |v| ==> !BreaksOff(code, v[k].0, v[k].1)
  }

  lemma OneMore(code: Code, first: (int, Machine), rest: seq<(int, Machine)>)
    ensures AllStart(code, [first] + rest) <==> Starts(code, first.0) && AllStart(code, rest)
    ensures NoneBreaksOff(code, [first] + rest) <==> !BreaksOff(code, first.0, first.1) && NoneBreaksOff(code, rest)
  {
    hide Starts, BreaksOff;
    var v := [first] + rest;
    assert v[0] == first && forall k :: 0 <= k < |rest| ==> v[k + 1] == rest[k];
  }

  /**
   * A run of an item is at the beginning of an instruction at every step, exactly when it never
   * breaks off an item reference before its last one.
   */
  lemma {:induction false} RunStaysOnStarts(u: Unspecified, p: Program, pc: int, m: Machine, fuel: nat)
    requires Compiles(p) && Starts(GenProgram(p), pc)
    ensures var code := GenProgram(p); var v := Visited(u, code, pc, m, fuel);
      v != [] ==> (AllStart(code, v) <==> NoneBreaksOff(code, v[..|v| - 1]))
    decreases fuel
  {
    hide Step, Compiles, GenProgram, BreaksOff, Walks, AllStart, NoneBreaksOff;
    var code := GenProgram(p);
    var v := Visited(u, code, pc, m, fuel);
    if |v| <= 1 {
      Trivially(code, pc, m);
      assert v != [] ==> v == [(pc, m)] && v[..0] == [];
    } else {
      var (pc', m') := Step(u, code, pc, m, fuel - 1).val;
      StepFromStart(u, p, pc, m, fuel - 1);
      var rest := Visited(u, code, pc', m', fuel - 1);
      OneMore(code, (pc, m), rest);
      OneMore(code, (pc, m), rest[..|rest| - 1]);
      assert v[..|v| - 1] == [(pc, m)] + rest[..|rest| - 1];
      if Starts(code, pc') {
        RunStaysOnStarts(u, p, pc', m', fuel - 1);
      } else {
        FirstStart(code, rest);
      }
    }
  }

  lemma Trivially(code: Code, pc: int, m: Machine)
    requires Starts(code, pc)
    ensures AllStart(code, [(pc, m)]) && NoneBreaksOff(code, [])
  {
  }

  lemma FirstStart(code: Code, v: seq<(int, Machine)>)
    requires v != []
    ensures AllStart(code, v) ==> Starts(code, v[0].0)
  {
  }

  // ----- a program whose run leaves the instruction starts -----

  const X: Text := [120]
  const BANG: Text := [33]

  /** @x = "!"; [@x].h; */
  function BadLayerProgram(): Program {
    Program([], Then(Assign(X, StrLit(BANG)), Then(Evaluate(BadReference()), Done)))
  }

  const BAD_LAYER_CODE: Code :=
    [1, 0, PUSH_STR, 1, 0, 33, SAVE_LOCAL, 0, ITEM, DEREF, DEREF_LOCAL, 0, LAYER, 1, 104, END_ITEM, FETCH, 0, 0, HALT]

  function BadReference(): Expr { Fetch([LocalRef(X), Name([104])], NoArgs) }

  lemma BadReferenceCode()
    ensures GenExpr(BadReference(), [X]) == [ITEM, DEREF, DEREF_LOCAL, 0, LAYER, 1, 104, END_ITEM, FETCH, 0, 0]
  {
    var t, i := [X], BadReference().item;
    assert SlotOf(t, X) == 0 && i[1..] == [Name([104])] && i[1..][1..] == [];
    assert GenLayers([], t) == [] && GenLayers(i[1..], t) == [LAYER, 1, 104];
    assert GenLayers(i, t) == [DEREF, DEREF_LOCAL, 0, LAYER, 1, 104];
    assert Int16(0) == [0, 0] && GenArgs(NoArgs, t) == [];
  }

  lemma AssignBangCode()
    ensures GenStmt(Assign(X, StrLit(BANG)), [X]) == [PUSH_STR, 1, 0, 33, SAVE_LOCAL, 0]
  {
    assert [X][..0] == [] && Saves([], X) == [];
    assert Saves([X], X) == [SAVE_LOCAL, 0];
    assert Int16(1) == [1, 0];
    assert GenExpr(StrLit(BANG), [X]) == [PUSH_STR, 1, 0, 33];
  }

  lemma BadLayerCode()
    ensures GenProgram(BadLayerProgram()) == BAD_LAYER_CODE && Compiles(BadLayerProgram())
  {
    hide GenExpr, GenStmt, Table, GenBlock, LexicalBlock, DefinedBlock, BadReference;
    BadLayerTable();
    BadReferenceCode();
    AssignBangCode();
    BadLayerBody();
  }

  lemma BadLayerTable()
    ensures var p := BadLayerProgram(); Table(p) == [X] && LexicalBlock(p.body) && DefinedBlock(p.body, [])
  {
    hide LexicalExpr, DefinedExpr, BadReference;
    BadLayerLexical();
    assert Declare([], X) == [X];
  }

  lemma BadLayerBody()
    ensures GenBlock(BadLayerProgram().body, [X])
            == GenStmt(Assign(X, StrLit(BANG)), [X]) + GenExpr(BadReference(), [X])
  {
    hide GenExpr, BadReference;
    var t, fetch := [X], BadReference();
    EvaluateCode(fetch, t);
    hide GenStmt;
    assert GenBlock(Then(Evaluate(fetch), Done), t) == GenExpr(fetch, t) + [];
    assert GenExpr(fetch, t) + [] == GenExpr(fetch, t);
  }

  lemma EvaluateCode(e: Expr, t: seq<Text>)
    ensures GenStmt(Evaluate(e), t) == GenExpr(e, t)
  {
  }

  lemma BadLayerLexical()
    ensures LexicalExpr(StrLit(BANG)) && LexicalExpr(BadReference())
    ensures DefinedExpr(StrLit(BANG), [X]) && DefinedExpr(BadReference(), [X])
  {
    var name: Text := [104];
    assert SolidLayer(name) && IsValidLayer(name);
  }

  lemma VisitsNext(u: Unspecified, code: Code, pc: nat, m: Machine, fuel: nat, pc': int, m': Machine)
    requires fuel > 0 && pc < |code| && code[pc] != HALT && Step(u, code, pc, m, fuel - 1) == Ok((pc', m'))
    ensures Visited(u, code, pc, m, fuel) == [(pc, m)] + Visited(u, code, pc', m', fuel - 1)
  {
    hide Step;
  }

  lemma VisitsHalt(u: Unspecified, code: Code, pc: nat, m: Machine, fuel: nat)
    requires fuel > 0 && pc < |code| && code[pc] == HALT
    ensures Visited(u, code, pc, m, fuel) == [(pc, m)]
  {
  }

  /** The first two instructions: the local holds an exclamation mark. */
  lemma AssignsBang(u: Unspecified, m: Machine, fuel: nat)
    requires |m.stack| == 1 && m.base == 0
    ensures Step(u, BAD_LAYER_CODE, 2, m, fuel) == Ok((6, m.(stack := m.stack + [Str(BANG)])))
    ensures Step(u, BAD_LAYER_CODE, 6, m.(stack := m.stack + [Str(BANG)]), fuel) == Ok((8, m.(stack := [Str(BANG)])))
  {
    hide StepPlain, StepFetch;
    PushesBang(u, m);
    SavesBang(u, m.(stack := m.stack + [Str(BANG)]));
  }

  lemma PushesBang(u: Unspecified, m: Machine)
    requires |m.stack| == 1
    ensures StepPlain(u, BAD_LAYER_CODE, 2, m) == Ok((6, m.(stack := m.stack + [Str(BANG)])))
  {
    hide StepBinary, StepItem, StepAssignItem, StepPushInt, StepJump, StepJumpFalse, Signed64;
    var code := BAD_LAYER_CODE;
    assert code[3..5] == Int16(1) && code[5..6] == BANG && CString(BANG) == BANG;
    hide Decode, CString, Int16;
    Unsigned16OfInt16(1);
  }

  lemma SavesBang(u: Unspecified, m: Machine)
    requires |m.stack| == 2 && m.stack[1] == Str(BANG) && m.base == 0
    ensures StepPlain(u, BAD_LAYER_CODE, 6, m) == Ok((8, m.(stack := [Str(BANG)])))
  {
    hide StepBinary, StepItem, StepAssignItem, StepPushInt, StepPushStr, StepJump, StepJumpFalse, Decode, Signed64;
    assert m.stack[0 := Str(BANG)][..1] == [Str(BANG)];
  }

  /** The item reference breaks off, and its remaining bytes are taken for instructions. */
  lemma GoesOnInside(u: Unspecified, m: Machine, fuel: nat)
    requires m.stack == [Str(BANG)] && m.base == 0
    ensures Step(u, BAD_LAYER_CODE, 8, m, fuel) == Ok((13, m.(stack := [Str(BANG), NIL])))
    ensures Step(u, BAD_LAYER_CODE, 13, m.(stack := [Str(BANG), NIL]), fuel) == Ok((14, m.(stack := [Str(BANG), NIL])))
  {
    hide InsertNamed, Apply, StepFetch;
    var code := BAD_LAYER_CODE;
    assert BANG[0] == 33 && !IsLayerChar(BANG[0]);
    assert !IsValidLayer(BANG);
    assert ReadLayer(code, 9, m) == BadLayer(12);
    assert ReadName(code, 9, [], m) == NoName(13);
    assert m.stack + [NIL] == [Str(BANG), NIL];
    assert StepItem(code, 8, m) == Ok((13, m.(stack := [Str(BANG), NIL])));
  }

  /**
   * A program that compiles, and whose run is at a byte inside its item reference from the fourth
   * position on: there the letter of the second layer's name is a halt, and the run ends at it.
   */
  lemma BadLayerBreaksOff(u: Unspecified, m: Machine, fuel: nat)
    requires |m.stack| == 1 && m.base == 0 && fuel >= 5
    ensures var code := GenProgram(BadLayerProgram()); var v := Visited(u, code, 2, m, fuel);
      && Compiles(BadLayerProgram())
      && |v| == 5 && v[2].0 == 8 && v[3].0 == 13 && v[4].0 == 14 && NextInstruction(code, 8) == 16
      && Run(u, code, 2, m, fuel) == Ok(m.(stack := [Str(BANG), NIL]))
  {
    hide Step, Visited, Run, Compiles, GenProgram;
    var code := BAD_LAYER_CODE;
    BadLayerCode();
    AssignsBang(u, m, fuel - 1);
    AssignsBang(u, m, fuel - 2);
    var m1 := m.(stack := m.stack + [Str(BANG)]);
    var m2 := m.(stack := [Str(BANG)]);
    var m3 := m.(stack := [Str(BANG), NIL]);
    GoesOnInside(u, m2, fuel - 3);
    GoesOnInside(u, m2, fuel - 4);
    VisitsNext(u, code, 2, m, fuel, 6, m1);
    VisitsNext(u, code, 6, m1, fuel - 1, 8, m2);
    VisitsNext(u, code, 8, m2, fuel - 2, 13, m3);
    VisitsNext(u, code, 13, m3, fuel - 3, 14, m3);
    VisitsHalt(u, code, 14, m3, fuel - 4);
    RunIsVisited(u, code, 2, m, fuel, m3);
    assert ItemEnd(code, 15) == 16;
    assert ItemEnd(code, 12) == 16;
  }
}
