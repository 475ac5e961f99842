/**
 * The single-pass emitter of src/parser.y: grammar actions that append bytes, leave 16-bit jump
 * placeholders, and go back to fill them in. Each action is proved against the code generator.
 */
module Emitter {
  import opened Bytes
  import opened Sequences
  import opened Syntax
  import opened CodeGen

  /** An OUTPUT_t: a growing buffer and a write cursor that can be moved back. */
  class Output {
    var bytecode: seq<byte>
    var nextbyte: nat

    ghost predicate Valid()
      reads this
    {
      nextbyte <= |bytecode|
    }

    ghost predicate AtEnd()
      reads this
    {
      nextbyte == |bytecode|
    }

    constructor ()
      ensures bytecode == [] && AtEnd()
    {
      bytecode, nextbyte := [], 0;
    }

    /** emit_byte: overwrite inside the buffer, grow at its end. */
    method EmitByte(c: byte)
      requires Valid()
      modifies this
      ensures Valid() && nextbyte == old(nextbyte) + 1
      ensures bytecode == Written(old(bytecode), old(nextbyte), [c])
      ensures old(AtEnd()) ==> AtEnd() && bytecode == old(bytecode) + [c]
    {
      bytecode := if nextbyte == |bytecode| then bytecode + [c] else bytecode[nextbyte := c];
      nextbyte := nextbyte + 1;
    }

    /** emit_int16. */
    method EmitInt16(i: int)
      requires Valid()
      modifies this
      ensures Valid() && nextbyte == old(nextbyte) + 2
      ensures bytecode == Written(old(bytecode), old(nextbyte), Int16(i))
      ensures old(AtEnd()) ==> AtEnd() && bytecode == old(bytecode) + Int16(i)
    {
      var x := i % 0x1_0000;
      Int16Bytes(i);
      EmitByte(x % 256);
      EmitByte(x / 256 % 256);
      WrittenTwice(old(bytecode), old(nextbyte), x % 256, x / 256 % 256);
    }

    /** emit_int64: the low byte first, shifting right eight times. */
    method EmitInt64(i: int)
      requires AtEnd()
      modifies this
      ensures AtEnd() && bytecode == old(bytecode) + Int64(i)
    {
      var x := i % 0x1_0000_0000_0000_0000;
      for j := 0 to 8
        invariant AtEnd() && x >= 0
        invariant bytecode + Encode(8 - j, x) == old(bytecode) + Int64(i)
      {
        assert bytecode + Encode(8 - j, x) == bytecode + [x % 256] + Encode(7 - j, x / 256);
        EmitByte(x % 256);
        x := x / 256;
      }
    }

    /** The copying tail of emit_string and emit_layer. */
    method EmitText(s: Text)
      requires AtEnd()
      modifies this
      ensures AtEnd() && bytecode == old(bytecode) + s
    {
      bytecode := bytecode + s;
      nextbyte := nextbyte + |s|;
    }
  }

  /** buf after writing s at a position, over what was there or past the end. */
  function Written(buf: seq<byte>, at: nat, s: seq<byte>): seq<byte>
    requires at <= |buf|
  {
    buf[..at] + s + (if at + |s| <= |buf| then buf[at + |s|..] else [])
  }

  lemma WrittenTwice(buf: seq<byte>, at: nat, a: byte, b: byte)
    requires at <= |buf|
    ensures at + 1 <= |Written(buf, at, [a])|
    ensures Written(Written(buf, at, [a]), at + 1, [b]) == Written(buf, at, [a, b])
  {
  }

  lemma Int16Bytes(i: int)
    ensures var x := i % 0x1_0000; Int16(i) == [x % 256, x / 256 % 256]
  {
    var x := i % 0x1_0000;
    assert Encode(1, x / 256) == [x / 256 % 256] + Encode(0, x / 256 / 256);
  }

  // ----- how deep control structures and item references nest -----

  function Max(a: nat, b: nat): nat { if a > b then a else b }

  function ItemDepthExpr(e: Expr): nat {
    match e
    case Fetch(_, a) => 1 + ItemDepthArgs(a)
    case Exists(_) => 1
    case Binary(_, l, r) => Max(ItemDepthExpr(l), ItemDepthExpr(r))
    case Not(e1) => ItemDepthExpr(e1)
    case Minus(e1) => ItemDepthExpr(e1)
    case _ => 0
  }

  function ItemDepthArgs(a: Args): nat {
    match a case NoArgs => 0 case MoreArgs(e, rest) => Max(ItemDepthExpr(e), ItemDepthArgs(rest))
  }

  function ItemDepthStmt(s: Stmt): nat {
    match s
    case While(c, b) => Max(ItemDepthExpr(c), ItemDepthBlock(b))
    case If(c, b, l) => Max(ItemDepthExpr(c), Max(ItemDepthBlock(b), ItemDepthTail(l)))
    case Assign(_, e) => ItemDepthExpr(e)
    case AssignItem(_, e) => Max(1, ItemDepthExpr(e))
    case Evaluate(e) => ItemDepthExpr(e)
    case _ => 0
  }

  function ItemDepthTail(l: Tail): nat {
    match l
    case EndIf => 0
    case Elsif(c, b, tail) => Max(ItemDepthExpr(c), Max(ItemDepthBlock(b), ItemDepthTail(tail)))
    case Else(b) => ItemDepthBlock(b)
  }

  function ItemDepthBlock(b: Block): nat {
    match b case Done => 0 case Then(s, rest) => Max(ItemDepthStmt(s), ItemDepthBlock(rest))
  }

  function ControlDepthStmt(s: Stmt): nat {
    match s
    case While(_, b) => 1 + ControlDepthBlock(b)
    case If(_, b, l) => 1 + Max(ControlDepthBlock(b), ControlDepthTail(l))
    case _ => 0
  }

  function ControlDepthTail(l: Tail): nat {
    match l
    case EndIf => 0
    case Elsif(_, b, tail) => Max(ControlDepthBlock(b), ControlDepthTail(tail))
    case Else(b) => ControlDepthBlock(b)
  }

  function ControlDepthBlock(b: Block): nat {
    match b case Done => 0 case Then(s, rest) => Max(ControlDepthStmt(s), ControlDepthBlock(rest))
  }

  const MAX_NESTED := 32

  datatype CompileError = NoError | LocalBeforeDef

  datatype LoopFixup = LoopFixup(loopStart: nat, jumpToEnd: nat)

  /** The address of a placeholder, or NULL. */
  datatype Address = Null | At(pos: nat)

  datatype IfFixup = IfFixup(nextElse: Address, list: seq<nat>)

  /** SCANNER_STATE_t: the output, the locals seen so far, and the open control structures and items. */
  class Parser {
    const out: Output
    var locals: seq<Text>
    var errnum: CompileError
    var controlCount: int
    var loops: seq<LoopFixup>
    var ifs: seq<IfFixup>
    var itemCount: int
    var argCount: seq<nat>
    var itemOut: seq<Output?>

    ghost predicate Valid()
      reads this
    {
      |loops| == |ifs| == |argCount| == |itemOut| == MAX_NESTED
      && -1 <= controlCount < MAX_NESTED && -1 <= itemCount < MAX_NESTED
      && forall k :: 0 <= k <= itemCount ==> itemOut[k] != null && itemOut[k] != out
    }

    constructor (out: Output, params: seq<Text>)
      ensures Valid() && this.out == out && locals == params && controlCount == -1 && itemCount == -1
      ensures errnum == NoError
    {
      this.out := out;
      locals, errnum := params, NoError;
      controlCount, itemCount := -1, -1;
      loops := seq(MAX_NESTED, _ => LoopFixup(0, 0));
      ifs := seq(MAX_NESTED, _ => IfFixup(Null, []));
      argCount := seq(MAX_NESTED, _ => 0);
      itemOut := seq(MAX_NESTED, _ => null);
    }

    // ----- locals -----

    /** emit_local_index: the slot of a local already seen, or failure. */
    method EmitLocalIndex(id: Text, o: Output, ghost t: seq<Text>) returns (ok: bool)
      requires o.AtEnd() && locals <= t && |t| < 256
      modifies o
      ensures ok <==> id in locals
      ensures ok ==> o.AtEnd() && o.bytecode == old(o.bytecode) + [SlotByte(t, id)]
    {
      for l := 0 to |locals|
        invariant id !in locals[..l]
        invariant o.AtEnd() && o.bytecode == old(o.bytecode)
      {
        if locals[l] == id {
          SlotIs(locals, id, l);
          SlotOfExtends(locals, t, id);
          o.EmitByte(l);
          return true;
        }
      }
      return false;
    }

    /** emit_local_op. */
    method EmitLocalOp(id: Text, o: Output, op: byte, ghost t: seq<Text>) returns (ok: bool)
      requires o.AtEnd() && locals <= t && |t| < 256
      modifies o, `errnum
      ensures ok <==> id in locals
      ensures ok ==> o.AtEnd() && o.bytecode == old(o.bytecode) + [op, SlotByte(t, id)] && errnum == old(errnum)
      ensures !ok ==> errnum == LocalBeforeDef
    {
      o.EmitByte(op);
      ok := EmitLocalIndex(id, o, t);
      if !ok {
        errnum := LocalBeforeDef;
      } else {
        assert old(o.bytecode) + [op] + [SlotByte(t, id)] == old(o.bytecode) + [op, SlotByte(t, id)];
      }
    }

    /** prepare_local_assign: a first assignment adds the local to the table. */
    method PrepareLocalAssign(id: Text)
      modifies `locals
      ensures locals == Declare(old(locals), id)
    {
      for l := 0 to |locals|
        invariant locals == old(locals) && id !in locals[..l]
      {
        if locals[l] == id { return; }
      }
      assert locals[..|locals|] == locals;
      locals := locals + [id];
    }

    /** emit_local_assign: one save instruction for each table entry with this name. */
    method EmitLocalAssign(id: Text, ghost t: seq<Text>)
      requires out.AtEnd() && Settles(locals, t) && |t| < 256 && id in locals
      modifies out
      ensures out.AtEnd() && out.bytecode == old(out.bytecode) + Saves(t, id)
    {
      SavesOfOthers(t, |locals|, id);
      for l := 0 to |locals|
        invariant out.AtEnd() && out.bytecode == old(out.bytecode) + Saves(locals[..l], id)
      {
        assert locals[..l + 1][..l] == locals[..l];
        if locals[l] == id {
          out.EmitByte(SAVE_LOCAL);
          out.EmitByte(l);
        }
      }
      assert locals[..|locals|] == locals == t[..|locals|];
    }

    // ----- items: assembled aside, merged after their arguments -----

    /** prepare_item. */
    method PrepareItem()
      requires Valid() && itemCount + 1 < MAX_NESTED
      modifies `itemCount, `argCount, `itemOut
      ensures Valid() && itemCount == old(itemCount) + 1
      ensures argCount == old(argCount)[itemCount := 0]
      ensures fresh(itemOut[itemCount]) && itemOut[itemCount].AtEnd() && itemOut[itemCount].bytecode == []
      ensures itemOut == old(itemOut)[itemCount := itemOut[itemCount]]
    {
      itemCount := itemCount + 1;
      argCount := argCount[itemCount := 0];
      var buf := new Output();
      itemOut := itemOut[itemCount := buf];
    }

    /** finalise_item: merge the innermost item's buffer into the output. */
    method FinaliseItem()
      requires Valid() && itemCount >= 0 && out.AtEnd() && itemOut[itemCount].AtEnd()
      modifies `itemCount, out
      ensures Valid() && itemCount == old(itemCount) - 1
      ensures out.AtEnd() && out.bytecode == old(out.bytecode) + old(itemOut[itemCount].bytecode)
    {
      out.EmitText(itemOut[itemCount].bytecode);
      itemCount := itemCount - 1;
    }

    /** The actions of `layer` and `sublayer`. */
    method EmitLayer(l: Layer, buf: Output, ghost t: seq<Text>) returns (ok: bool)
      requires buf.AtEnd() && LexicalLayer(l) && locals <= t && |t| < 256
      modifies buf, `errnum
      ensures ok <==> l.LocalRef? ==> l.local in locals
      ensures ok ==> buf.AtEnd() && buf.bytecode == old(buf.bytecode) + GenLayer(l, t) && errnum == old(errnum)
      ensures !ok ==> errnum == LocalBeforeDef
    {
      ok := true;
      match l {
        case Name(s) =>
          buf.EmitByte(LAYER);
          buf.EmitByte(|s|);
          buf.EmitText(s);
          assert buf.bytecode == old(buf.bytecode) + ([LAYER, |s|] + s);
        case LocalRef(x) =>
          buf.EmitByte(DEREF);
          ok := EmitLocalOp(x, buf, DEREF_LOCAL, t);
          if ok {
            assert buf.bytecode == old(buf.bytecode) + [DEREF, DEREF_LOCAL, SlotByte(t, x)];
          }
      }
    }

    method EmitLayers(i: Item, buf: Output, ghost t: seq<Text>) returns (ok: bool)
      requires buf.AtEnd() && LexicalItem(i) && locals <= t && |t| < 256
      modifies buf, `errnum
      ensures ok <==> DefinedItem(i, locals)
      ensures ok ==> buf.AtEnd() && buf.bytecode == old(buf.bytecode) + GenLayers(i, t) && errnum == old(errnum)
      ensures !ok ==> errnum == LocalBeforeDef
    {
      hide GenLayer, LexicalLayer;
      for k := 0 to |i|
        invariant buf.AtEnd() && buf.bytecode + GenLayers(i[k..], t) == old(buf.bytecode) + GenLayers(i, t)
        invariant forall j :: 0 <= j < k && i[j].LocalRef? ==> i[j].local in locals
        invariant errnum == old(errnum)
      {
        assert i[k] in i;
        ghost var rest := GenLayers(i[k + 1..], t);
        assert GenLayers(i[k..], t) == GenLayer(i[k], t) + rest by { assert i[k..][1..] == i[k + 1..]; }
        label before:
        var found := EmitLayer(i[k], buf, t);
        if !found {
          return false;
        }
        assert old@before(buf.bytecode) + (GenLayer(i[k], t) + rest) == buf.bytecode + rest;
      }
      return true;
    }

    /** The actions of `item`: open a buffer and emit the layers into it. */
    method ItemRef(i: Item, ghost t: seq<Text>) returns (ok: bool)
      requires Valid() && itemCount + 1 < MAX_NESTED
      requires LexicalItem(i) && locals <= t && |t| < 256
      modifies `errnum, `itemCount, `argCount, `itemOut
      ensures Valid() && itemCount == old(itemCount) + 1
      ensures argCount == old(argCount)[itemCount := 0]
      ensures fresh(itemOut[itemCount]) && itemOut == old(itemOut)[itemCount := itemOut[itemCount]]
      ensures ok <==> DefinedItem(i, locals)
      ensures ok ==> itemOut[itemCount].AtEnd() && itemOut[itemCount].bytecode == [ITEM] + GenLayers(i, t)
      ensures !ok ==> errnum == LocalBeforeDef
      ensures ok ==> errnum == old(errnum)
    {
      hide LexicalItem, DefinedItem, GenLayers;
      PrepareItem();
      itemOut[itemCount].EmitByte(ITEM);
      ok := EmitLayers(i, itemOut[itemCount], t);
    }

    /** complete_item. */
    method CompleteItem(i: Item, ghost t: seq<Text>) returns (ok: bool)
      requires Valid() && itemCount + 1 < MAX_NESTED && out.AtEnd()
      requires LexicalItem(i) && locals <= t && |t| < 256
      modifies `errnum, `itemCount, `argCount, `itemOut, out
      ensures Valid()
      ensures ok <==> DefinedItem(i, locals)
      ensures ok ==> out.AtEnd() && out.bytecode == old(out.bytecode) + GenItem(i, t)
      ensures ok ==> Restored(old(itemCount), old(argCount), old(itemOut)) && errnum == old(errnum)
      ensures !ok ==> errnum == LocalBeforeDef
    {
      ok := ItemRef(i, t);
      if ok {
        FinaliseItem();
        out.EmitByte(END_ITEM);
        assert out.bytecode == old(out.bytecode) + GenItem(i, t);
      }
    }

    /** The item bookkeeping below the current depth is as it was. */
    ghost predicate Restored(count: int, args: seq<nat>, outs: seq<Output?>)
      requires |args| == |outs| == |argCount| == |itemOut| && -1 <= count < |args|
      reads this
    {
      itemCount == count && forall k :: 0 <= k <= count ==> argCount[k] == args[k] && itemOut[k] == outs[k]
    }

    // ----- expressions -----

    method EmitLiteral(e: Expr, ghost t: seq<Text>)
      requires out.AtEnd() && (e.IntLit? || e.StrLit?) && LexicalExpr(e)
      modifies out
      ensures out.AtEnd() && out.bytecode == old(out.bytecode) + GenExpr(e, t)
    {
      hide Written, Int16, Int64;
      match e {
        case IntLit(n) =>
          out.EmitByte(PUSH_INT);
          out.EmitInt64(n);
        case StrLit(s) =>
          out.EmitByte(PUSH_STR);
          out.EmitInt16(|s|);
          out.EmitText(s);
          assert out.bytecode == old(out.bytecode) + ([PUSH_STR] + Int16(|s|) + s);
      }
    }

    /** The actions of `expr`. */
    method EmitExpr(e: Expr, ghost t: seq<Text>) returns (ok: bool)
      requires Valid() && out.AtEnd() && itemCount + ItemDepthExpr(e) < MAX_NESTED
      requires LexicalExpr(e) && locals <= t && |t| < 256
      modifies `errnum, `itemCount, `argCount, `itemOut, out
      ensures Valid()
      ensures ok <==> DefinedExpr(e, locals)
      ensures ok ==> out.AtEnd() && out.bytecode == old(out.bytecode) + GenExpr(e, t)
      ensures ok ==> Restored(old(itemCount), old(argCount), old(itemOut)) && errnum == old(errnum)
      ensures !ok ==> errnum == LocalBeforeDef
      decreases e
    {
      hide Written, LexicalArgs, DefinedArgs, DefinedItem, LexicalItem, GenArgs, GenLayers, GenItem, SlotByte, OpByte;
      ok := true;
      match e {
        case Local(x) => ok := EmitLocalOp(x, out, GET_LOCAL, t);
        case IntLit(_) => EmitLiteral(e, t);
        case StrLit(_) => EmitLiteral(e, t);
        case Binary(op, l, r) =>
          ok := EmitExpr(l, t);
          if ok {
            ok := EmitExpr(r, t);
            if ok {
              out.EmitByte(OpByte(op));
              Regroup4(old(out.bytecode), GenExpr(l, t), GenExpr(r, t), [OpByte(op)]);
            }
          }
        case Not(e1) =>
          ok := EmitExpr(e1, t);
          if ok {
            out.EmitByte(NOT);
            Regroup(old(out.bytecode), GenExpr(e1, t), [NOT]);
          }
        case Minus(e1) =>
          ok := EmitExpr(e1, t);
          if ok {
            out.EmitByte(NEGATE);
            Regroup(old(out.bytecode), GenExpr(e1, t), [NEGATE]);
          }
        case Exists(i) =>
          ok := CompleteItem(i, t);
          if ok {
            out.EmitByte(EXISTS);
            Regroup(old(out.bytecode), GenItem(i, t), [EXISTS]);
          }
        case Fetch(i, a) =>
          ok := EmitFetch(i, a, t);
      }
    }

    /** `item args`: the name is assembled before the arguments and merged after them. */
    method EmitFetch(i: Item, a: Args, ghost t: seq<Text>) returns (ok: bool)
      requires Valid() && out.AtEnd() && itemCount + 1 + ItemDepthArgs(a) < MAX_NESTED
      requires LexicalItem(i) && LexicalArgs(a) && locals <= t && |t| < 256
      modifies `errnum, `itemCount, `argCount, `itemOut, out
      ensures Valid()
      ensures ok <==> DefinedItem(i, locals) && DefinedArgs(a, locals)
      ensures ok ==> out.AtEnd() && out.bytecode == old(out.bytecode) + GenExpr(Fetch(i, a), t)
      ensures ok ==> Restored(old(itemCount), old(argCount), old(itemOut)) && errnum == old(errnum)
      ensures !ok ==> errnum == LocalBeforeDef
      decreases a, 1
    {
      hide Written, LexicalArgs, DefinedArgs, DefinedItem, LexicalItem, GenArgs, GenLayers;
      ok := ItemRef(i, t);
      if ok {
        ok := EmitArgs(a, t);
        if ok {
          FinaliseItem();
          out.EmitByte(END_ITEM);
          out.EmitByte(FETCH);
          out.EmitInt16(argCount[itemCount + 1]);
          assert out.bytecode == old(out.bytecode) + GenExpr(Fetch(i, a), t);
        }
      }
    }

    /** The actions of `arg_list`: each argument is counted for the item that is open around it. */
    method EmitArgs(a: Args, ghost t: seq<Text>) returns (ok: bool)
      requires Valid() && out.AtEnd() && itemCount >= 0 && itemCount + ItemDepthArgs(a) < MAX_NESTED
      requires LexicalArgs(a) && locals <= t && |t| < 256
      modifies `errnum, `itemCount, `argCount, `itemOut, out
      ensures Valid()
      ensures ok <==> DefinedArgs(a, locals)
      ensures ok ==> out.AtEnd() && out.bytecode == old(out.bytecode) + GenArgs(a, t)
      ensures ok ==> Restored(old(itemCount), old(argCount[itemCount := argCount[itemCount] + ArgCount(a)]),
                              old(itemOut))
      ensures ok ==> errnum == old(errnum)
      ensures !ok ==> errnum == LocalBeforeDef
      decreases a, 0
    {
      hide GenExpr, LexicalExpr, DefinedExpr, ItemDepthExpr;
      match a {
        case NoArgs => ok := true;
        case MoreArgs(e, rest) =>
          ok := EmitExpr(e, t);
          if ok {
            argCount := argCount[itemCount := argCount[itemCount] + 1];
            ok := EmitArgs(rest, t);
            Regroup(old(out.bytecode), GenExpr(e, t), GenArgs(rest, t));
          }
      }
    }

    // ----- loops -----

    /** prepare_loop. */
    method PrepareLoop()
      requires Valid() && controlCount + 1 < MAX_NESTED
      modifies `controlCount, `loops
      ensures Valid() && controlCount == old(controlCount) + 1
      ensures loops == old(loops)[controlCount := loops[controlCount]] && loops[controlCount].loopStart == out.nextbyte
    {
      controlCount := controlCount + 1;
      loops := loops[controlCount := loops[controlCount].(loopStart := out.nextbyte)];
    }

    /** emit_jump_to_end: a conditional jump with a placeholder for its offset. */
    method EmitJumpToEnd()
      requires Valid() && controlCount >= 0 && out.AtEnd()
      modifies `loops, out
      ensures Valid() && out.AtEnd() && out.bytecode == old(out.bytecode) + [JUMP_FALSE] + Int16(0)
      ensures loops == old(loops)[controlCount := old(loops)[controlCount].(jumpToEnd := old(|out.bytecode|) + 1)]
    {
      out.EmitByte(JUMP_FALSE);
      loops := loops[controlCount := loops[controlCount].(jumpToEnd := out.nextbyte)];
      out.EmitInt16(0);
    }

    /** emit_jump_to_start. */
    method EmitJumpToStart()
      requires Valid() && controlCount >= 0 && out.AtEnd()
      modifies out
      ensures out.AtEnd()
      ensures out.bytecode
              == old(out.bytecode) + JumpTo(JUMP, loops[controlCount].loopStart - (old(|out.bytecode|) + 1))
    {
      out.EmitByte(JUMP);
      out.EmitInt16(loops[controlCount].loopStart - out.nextbyte);
    }

    /** Move the cursor back to a placeholder, fill it in, and move the cursor to the end again. */
    method Patch(at: nat, offset: int)
      requires out.AtEnd() && at + 2 <= |out.bytecode|
      modifies out
      ensures out.AtEnd() && out.bytecode == Written(old(out.bytecode), at, Int16(offset))
      ensures |out.bytecode| == old(|out.bytecode|)
    {
      var store := out.nextbyte;
      out.nextbyte := at;
      out.EmitInt16(offset);
      out.nextbyte := store;
    }

    /** finalise_loop. */
    method FinaliseLoop()
      requires Valid() && controlCount >= 0 && out.AtEnd() && loops[controlCount].jumpToEnd + 2 <= |out.bytecode|
      modifies `controlCount, out
      ensures Valid() && controlCount == old(controlCount) - 1 && out.AtEnd()
      ensures var at := loops[old(controlCount)].jumpToEnd;
        out.bytecode == Written(old(out.bytecode), at, Int16(old(|out.bytecode|) - at))
    {
      Patch(loops[controlCount].jumpToEnd, out.nextbyte - loops[controlCount].jumpToEnd);
      controlCount := controlCount - 1;
    }

    // ----- IF -----

    /** prepare_if. */
    method PrepareIf()
      requires Valid() && controlCount + 1 < MAX_NESTED
      modifies `controlCount, `ifs
      ensures Valid() && controlCount == old(controlCount) + 1
      ensures ifs == old(ifs)[controlCount := IfFixup(Null, [])]
    {
      controlCount := controlCount + 1;
      ifs := ifs[controlCount := IfFixup(Null, [])];
    }

    /** emit_jump_to_next_else. */
    method EmitJumpToNextElse()
      requires Valid() && controlCount >= 0 && out.AtEnd()
      modifies `ifs, out
      ensures Valid() && out.AtEnd() && out.bytecode == old(out.bytecode) + [JUMP_FALSE] + Int16(0)
      ensures ifs == old(ifs)[controlCount := old(ifs)[controlCount].(nextElse := At(old(|out.bytecode|) + 1))]
    {
      out.EmitByte(JUMP_FALSE);
      ifs := ifs[controlCount := ifs[controlCount].(nextElse := At(out.nextbyte))];
      out.EmitInt16(0);
    }

    /** fixup_last_else_jump. */
    method FixupLastElseJump()
      requires Valid() && controlCount >= 0 && out.AtEnd()
      requires ifs[controlCount].nextElse.At? && ifs[controlCount].nextElse.pos + 2 <= |out.bytecode|
      modifies `ifs, out
      ensures Valid() && out.AtEnd() && |out.bytecode| == old(|out.bytecode|)
      ensures var at := old(ifs[controlCount].nextElse.pos);
        out.bytecode == Written(old(out.bytecode), at, Int16(|out.bytecode| - at))
      ensures ifs == old(ifs)[controlCount := old(ifs)[controlCount].(nextElse := Null)]
    {
      var at := ifs[controlCount].nextElse.pos;
      Patch(at, out.nextbyte - at);
      ifs := ifs[controlCount := ifs[controlCount].(nextElse := Null)];
    }

    /** emit_jump_to_endif: one more placeholder on the list to be filled in at the end. */
    method EmitJumpToEndif()
      requires Valid() && controlCount >= 0 && out.AtEnd()
      modifies `ifs, out
      ensures Valid() && out.AtEnd() && out.bytecode == old(out.bytecode) + [JUMP] + Int16(0)
      ensures var f := old(ifs)[controlCount];
        ifs == old(ifs)[controlCount := f.(list := [old(|out.bytecode|) + 1] + f.list)]
    {
      out.EmitByte(JUMP);
      var f := ifs[controlCount];
      ifs := ifs[controlCount := f.(list := [out.nextbyte] + f.list)];
      out.EmitInt16(0);
    }

    /** The placeholders still open in the current IF. */
    ghost function Holes(): set<nat>
      requires 0 <= controlCount < |ifs|
      reads this
    {
      HolesOf(ifs[controlCount])
    }

    /** finalise_if: fill in a pending jump to the next arm, then every jump to the end. */
    method FinaliseIf(ghost final: Code)
      requires Valid() && controlCount >= 0 && out.AtEnd()
      requires |out.bytecode| == |final| && Agree(out.bytecode, final, Holes())
               && Fillable(ifs[controlCount], final, |final|)
      modifies `controlCount, `ifs, out
      ensures Valid() && controlCount == old(controlCount) - 1 && out.AtEnd() && out.bytecode == final
      ensures |ifs| == old(|ifs|) && forall k :: 0 <= k <= controlCount ==> ifs[k] == old(ifs)[k]
    {
      hide Agree, Written, Int16;
      var c := controlCount;
      var end := out.nextbyte;
      if ifs[c].nextElse.At? {
        ghost var holes := Holes() - {ifs[c].nextElse.pos};
        AgreePatch(out.bytecode, final, Holes(), ifs[c].nextElse.pos, |final| - ifs[c].nextElse.pos);
        FixupLastElseJump();
        AgreeMore(out.bytecode, final, holes, HolesOf(ifs[c]));
      }
      while ifs[c].list != []
        invariant Valid() && controlCount == c && out.AtEnd() && |out.bytecode| == |final| == end
        invariant |ifs| == old(|ifs|) && forall k :: 0 <= k < c ==> ifs[k] == old(ifs)[k]
        invariant ifs[c].nextElse == Null && Fillable(ifs[c], final, |final|)
        invariant Agree(out.bytecode, final, HolesOf(ifs[c]))
        decreases |ifs[c].list|
      {
        ghost var f, f' := ifs[c], ifs[c].(list := ifs[c].list[1..]);
        var at := ifs[c].list[0];
        assert at in f.list && forall a <- f'.list :: a in f.list;
        AgreePatch(out.bytecode, final, HolesOf(f), at, end - at);
        Patch(at, end - at);
        AgreeMore(out.bytecode, final, HolesOf(f) - {at}, HolesOf(f'));
        ifs := ifs[c := ifs[c].(list := ifs[c].list[1..])];
      }
      AgreeAll(out.bytecode, final, HolesOf(ifs[c]));
      controlCount := c - 1;
    }

    // ----- statements -----

    ghost predicate ControlsRestored(count: int, before: seq<LoopFixup>, beforeIfs: seq<IfFixup>)
      requires |before| == |beforeIfs| == |loops| == |ifs| && -1 <= count < |before|
      reads this
    {
      controlCount == count && forall k :: 0 <= k <= count ==> loops[k] == before[k] && ifs[k] == beforeIfs[k]
    }

    /** The actions of `stmt`. */
    method EmitStmt(s: Stmt, ghost t: seq<Text>) returns (ok: bool)
      requires Valid() && out.AtEnd()
      requires itemCount + ItemDepthStmt(s) < MAX_NESTED && controlCount + ControlDepthStmt(s) < MAX_NESTED
      requires LexicalStmt(s) && Settles(LocalsStmt(s, locals), t) && |t| < 256
      modifies this, out
      ensures Valid()
      ensures ok <==> DefinedStmt(s, old(locals))
      ensures ok ==> out.AtEnd() && out.bytecode == old(out.bytecode) + GenStmt(s, t)
      ensures ok ==> locals == LocalsStmt(s, old(locals)) && errnum == old(errnum)
      ensures ok ==> Restored(old(itemCount), old(argCount), old(itemOut))
      ensures ok ==> ControlsRestored(old(controlCount), old(loops), old(ifs))
      ensures !ok ==> errnum == LocalBeforeDef
      decreases s, 1
    {
      hide Written, Int16, DefinedExpr, DefinedItem, LexicalExpr, LexicalItem, GenExpr, GenItem, SlotByte, Distinct;
      ok := true;
      match s {
        case While(_, _) => ok := EmitWhile(s, t);
        case If(_, _, _) => ok := EmitIf(s, t);
        case Return => out.EmitByte(HALT);
        case Assign(x, e) => ok := EmitAssign(x, e, t);
        case AssignItem(i, e) =>
          ok := CompleteItem(i, t);
          if ok {
            ok := EmitExpr(e, t);
            if ok {
              out.EmitByte(ASSIGN_ITEM);
              assert out.bytecode == old(out.bytecode) + (GenItem(i, t) + GenExpr(e, t) + [ASSIGN_ITEM]);
            }
          }
        case Inc(x) => ok := EmitLocalOp(x, out, INC_LOCAL, t);
        case Dec(x) => ok := EmitLocalOp(x, out, DEC_LOCAL, t);
        case Evaluate(e) => ok := EmitExpr(e, t);
      }
    }

    method EmitAssign(x: Text, e: Expr, ghost t: seq<Text>) returns (ok: bool)
      requires Valid() && out.AtEnd() && itemCount + ItemDepthExpr(e) < MAX_NESTED
      requires LexicalExpr(e) && Settles(Declare(locals, x), t) && |t| < 256
      modifies `errnum, `itemCount, `argCount, `itemOut, `locals, out
      ensures Valid()
      ensures ok <==> DefinedExpr(e, Declare(old(locals), x))
      ensures ok ==> out.AtEnd() && out.bytecode == old(out.bytecode) + (GenExpr(e, t) + Saves(t, x))
      ensures ok ==> locals == Declare(old(locals), x) && errnum == old(errnum)
      ensures ok ==> Restored(old(itemCount), old(argCount), old(itemOut))
      ensures !ok ==> errnum == LocalBeforeDef
    {
      hide GenExpr, Saves, LexicalExpr, DefinedExpr;
      PrepareLocalAssign(x);
      ok := EmitExpr(e, t);
      if ok {
        assert x in locals;
        EmitLocalAssign(x, t);
        Regroup(old(out.bytecode), GenExpr(e, t), Saves(t, x));
      }
    }

    /** TWHILE expr TDO stmtlist TENDWHILE. */
    method EmitWhile(s: Stmt, ghost t: seq<Text>) returns (ok: bool)
      requires s.While?
      requires Valid() && out.AtEnd()
      requires itemCount + ItemDepthStmt(s) < MAX_NESTED && controlCount + ControlDepthStmt(s) < MAX_NESTED
      requires LexicalStmt(s) && Settles(LocalsStmt(s, locals), t) && |t| < 256
      modifies this, out
      ensures Valid()
      ensures ok <==> DefinedStmt(s, old(locals))
      ensures ok ==> out.AtEnd() && out.bytecode == old(out.bytecode) + GenStmt(s, t)
      ensures ok ==> locals == LocalsStmt(s, old(locals)) && errnum == old(errnum)
      ensures ok ==> Restored(old(itemCount), old(argCount), old(itemOut))
      ensures ok ==> ControlsRestored(old(controlCount), old(loops), old(ifs))
      ensures !ok ==> errnum == LocalBeforeDef
      decreases s, 0
    {
      hide Written, Int16, DefinedExpr, DefinedBlock, LexicalExpr, LexicalBlock, GenExpr, GenBlock, CodeGen.Loop,
           Distinct;
      BlockSettles(s.body, locals, t);
      PrepareLoop();
      ok := EmitExpr(s.cond, t);
      if ok {
        EmitJumpToEnd();
        ghost var fixup := loops[controlCount];
        ok := EmitBlock(s.body, t);
        if ok {
          assert loops[controlCount] == fixup;
          EmitJumpToStart();
          FinaliseLoop();
          LoopBytes(old(out.bytecode), GenExpr(s.cond, t), GenBlock(s.body, t));
        }
      }
    }

    /** TIF expr TTHEN stmtlist elsif_else_opt TENDIF. */
    method EmitIf(s: Stmt, ghost t: seq<Text>) returns (ok: bool)
      requires s.If?
      requires Valid() && out.AtEnd()
      requires itemCount + ItemDepthStmt(s) < MAX_NESTED && controlCount + ControlDepthStmt(s) < MAX_NESTED
      requires LexicalStmt(s) && Settles(LocalsStmt(s, locals), t) && |t| < 256
      modifies this, out
      ensures Valid()
      ensures ok <==> DefinedStmt(s, old(locals))
      ensures ok ==> out.AtEnd() && out.bytecode == old(out.bytecode) + GenStmt(s, t)
      ensures ok ==> locals == LocalsStmt(s, old(locals)) && errnum == old(errnum)
      ensures ok ==> Restored(old(itemCount), old(argCount), old(itemOut))
      ensures ok ==> ControlsRestored(old(controlCount), old(loops), old(ifs))
      ensures !ok ==> errnum == LocalBeforeDef
      decreases s, 0
    {
      hide Written, Int16, DefinedExpr, DefinedBlock, DefinedTail, LexicalExpr, LexicalBlock, LexicalTail,
           GenExpr, GenBlock, GenTail, Arm, Distinct, Agree, CodeAt, Fillable, Listed, HolesOf;
      ghost var final := out.bytecode + GenStmt(s, t);
      CodeAtEnd(out.bytecode, GenStmt(s, t));
      AgreePrefix(out.bytecode, GenStmt(s, t));
      TailSettles(s.tail, LocalsBlock(s.body, locals), t);
      BlockSettles(s.body, locals, t);
      PrepareIf();
      FreshIf(final);
      ghost var others := GenTail(s.tail, t);
      ArmParts(final, |out.bytecode|, GenExpr(s.cond, t), GenBlock(s.body, t), others);
      ok := EmitArm(s.cond, s.body, t, others, final);
      if ok {
        ok := EmitTail(s.tail, t, final);
        if ok {
          FinaliseIf(final);
        }
      }
    }

    /** `expr TTHEN stmtlist` with its two jumps, inside an IF whose finished code is final. */
    method EmitArm(c: Expr, b: Block, ghost t: seq<Text>, ghost others: Code, ghost final: Code) returns (ok: bool)
      requires Valid() && out.AtEnd() && controlCount >= 0 && ifs[controlCount].nextElse == Null
      requires itemCount + Max(ItemDepthExpr(c), ItemDepthBlock(b)) < MAX_NESTED
      requires controlCount + ControlDepthBlock(b) < MAX_NESTED
      requires LexicalExpr(c) && LexicalBlock(b)
      requires Settles(LocalsBlock(b, locals), t) && |t| < 256
      requires var code := Arm(GenExpr(c, t), GenBlock(b, t), others);
        CodeAt(final, |out.bytecode|, code) && |out.bytecode| + |code| == |final|
      requires Agree(out.bytecode, final, Holes()) && Listed(ifs[controlCount], final)
      modifies this, out
      ensures Valid()
      ensures ok <==> DefinedExpr(c, old(locals)) && DefinedBlock(b, old(locals))
      ensures ok ==> locals == LocalsBlock(b, old(locals)) && errnum == old(errnum)
      ensures ok ==> Restored(old(itemCount), old(argCount), old(itemOut))
      ensures ok ==> ArmOpen(old(controlCount), old(loops), old(ifs), final, |final| - |others|)
      ensures !ok ==> errnum == LocalBeforeDef
      decreases b, 1
    {
      hide Written, Int16, DefinedExpr, DefinedBlock, LexicalExpr, LexicalBlock, GenExpr, GenBlock, Arm, Distinct,
           Agree, CodeAt, Fillable, Listed, HolesOf;
      ghost var cond, body, start := GenExpr(c, t), GenBlock(b, t), |out.bytecode|;
      ghost var f := ifs[controlCount];
      ArmParts(final, start, cond, body, others);
      AgreeAppend(out.bytecode, final, HolesOf(f), cond);
      BlockSettles(b, locals, t);
      ok := EmitExpr(c, t);
      if ok {
        HoleStep(out.bytecode, final, f, JUMP_FALSE, |body| + 5);
        EmitJumpToNextElse();
        ghost var f1 := ifs[controlCount];
        OpenElse(f, final, start + |cond| + 1, start + |cond| + |body| + 6);
        AgreeAppend(out.bytecode, final, HolesOf(f1), body);
        ok := EmitBlock(b, t);
        if ok {
          HoleStep(out.bytecode, final, f1, JUMP, |others| + 2);
          EmitJumpToEndif();
          OpenEnd(f1, final, start + |cond| + |body| + 4, start + |cond| + |body| + 6);
        }
      }
    }

    /** `elsif_else_opt`. */
    method EmitTail(l: Tail, ghost t: seq<Text>, ghost final: Code) returns (ok: bool)
      requires Valid() && out.AtEnd() && controlCount >= 0 && ifs[controlCount].nextElse.At?
      requires itemCount + ItemDepthTail(l) < MAX_NESTED && controlCount + ControlDepthTail(l) < MAX_NESTED
      requires LexicalTail(l) && Settles(LocalsTail(l, locals), t) && |t| < 256
      requires CodeAt(final, |out.bytecode|, GenTail(l, t)) && |out.bytecode| + |GenTail(l, t)| == |final|
      requires Agree(out.bytecode, final, Holes()) && Fillable(ifs[controlCount], final, |out.bytecode|)
      modifies this, out
      ensures Valid()
      ensures ok <==> DefinedTail(l, old(locals))
      ensures ok ==> locals == LocalsTail(l, old(locals)) && errnum == old(errnum)
      ensures ok ==> Restored(old(itemCount), old(argCount), old(itemOut))
      ensures ok ==> ArmDone(old(controlCount), old(loops), old(ifs), final)
      ensures !ok ==> errnum == LocalBeforeDef
      decreases l, 0
    {
      hide Written, Int16, DefinedExpr, DefinedBlock, LexicalExpr, LexicalBlock, GenExpr, GenBlock, Arm, Distinct,
           Agree, CodeAt, Fillable, Listed, HolesOf;
      ok := true;
      if !l.EndIf? {
        CloseElse(out.bytecode, final, ifs[controlCount]);
        FixupLastElseJump();
        ghost var f := ifs[controlCount];
        if l.Else? {
          AgreeAppend(out.bytecode, final, HolesOf(f), GenBlock(l.body, t));
          ok := EmitBlock(l.body, t);
        } else {
          TailSettles(l.tail, LocalsBlock(l.body, locals), t);
          BlockSettles(l.body, locals, t);
          ArmParts(final, |out.bytecode|, GenExpr(l.cond, t), GenBlock(l.body, t), GenTail(l.tail, t));
          ok := EmitArm(l.cond, l.body, t, GenTail(l.tail, t), final);
          if ok {
            ok := EmitTail(l.tail, t, final);
          }
        }
      }
    }

    /** Between two arms: the pending jump to the next arm will land at next. */
    ghost predicate ArmOpen(count: int, before: seq<LoopFixup>, beforeIfs: seq<IfFixup>, final: Code, next: int)
      requires Valid() && |before| == |beforeIfs| == MAX_NESTED && 0 <= count < MAX_NESTED
      reads this, out
    {
      controlCount == count && out.AtEnd() && |out.bytecode| == next
      && Agree(out.bytecode, final, HolesOf(ifs[count])) && Fillable(ifs[count], final, next) && ifs[count].nextElse.At?
      && forall k :: 0 <= k < count ==> loops[k] == before[k] && ifs[k] == beforeIfs[k]
    }

    /** After the last arm: every byte is final but the holes, and the holes know their targets. */
    ghost predicate ArmDone(count: int, before: seq<LoopFixup>, beforeIfs: seq<IfFixup>, final: Code)
      requires Valid() && |before| == |beforeIfs| == MAX_NESTED && 0 <= count < MAX_NESTED
      reads this, out
    {
      controlCount == count && out.AtEnd() && |out.bytecode| == |final|
      && Agree(out.bytecode, final, HolesOf(ifs[count])) && Fillable(ifs[count], final, |final|)
      && forall k :: 0 <= k < count ==> loops[k] == before[k] && ifs[k] == beforeIfs[k]
    }

    /** The actions of `stmtlist`. */
    method EmitBlock(b: Block, ghost t: seq<Text>) returns (ok: bool)
      requires Valid() && out.AtEnd()
      requires itemCount + ItemDepthBlock(b) < MAX_NESTED && controlCount + ControlDepthBlock(b) < MAX_NESTED
      requires LexicalBlock(b) && Settles(LocalsBlock(b, locals), t) && |t| < 256
      modifies this, out
      ensures Valid()
      ensures ok <==> DefinedBlock(b, old(locals))
      ensures ok ==> out.AtEnd() && out.bytecode == old(out.bytecode) + GenBlock(b, t)
      ensures ok ==> locals == LocalsBlock(b, old(locals)) && errnum == old(errnum)
      ensures ok ==> Restored(old(itemCount), old(argCount), old(itemOut))
      ensures ok ==> ControlsRestored(old(controlCount), old(loops), old(ifs))
      ensures !ok ==> errnum == LocalBeforeDef
      decreases b, 0
    {
      hide Written, DefinedStmt, LexicalStmt, GenStmt, LocalsStmt, Distinct;
      match b {
        case Done => ok := true;
        case Then(s, rest) =>
          BlockSettles(rest, LocalsStmt(s, locals), t);
          ok := EmitStmt(s, t);
          if ok {
            ok := EmitBlock(rest, t);
            if ok {
              assert out.bytecode == old(out.bytecode) + (GenStmt(s, t) + GenBlock(rest, t));
            }
          }
      }
    }
  }

  /**
   * parse_source: two bytes to be filled in later, the statements, a halt, then the counts.
   * It succeeds if and only if every local is assigned above its first use, and then the bytes
   * are those of the structured generator.
   */
  method ParseSource(p: Program) returns (ok: bool, bytecode: Code, errnum: CompileError)
    requires LexicalBlock(p.body) && |Table(p)| < 256
    requires ItemDepthBlock(p.body) <= MAX_NESTED && ControlDepthBlock(p.body) <= MAX_NESTED
    ensures ok <==> DefinedBlock(p.body, p.params)
    ensures ok ==> bytecode == GenProgram(p) && errnum == NoError
    ensures !ok ==> errnum == LocalBeforeDef
  {
    hide GenBlock, LexicalBlock, DefinedBlock, Written;
    LocalsBlockGrow(p.body, p.params);
    SettlesItself(Table(p));
    var out := new Output();
    var state := new Parser(out, p.params);
    out.EmitByte(0);
    out.EmitByte(0);
    assert out.bytecode == [0, 0];
    ok := state.EmitBlock(p.body, Table(p));
    errnum := state.errnum;
    if ok {
      out.EmitByte(HALT);
      bytecode := out.bytecode[0 := |state.locals|][1 := |p.params|];
      assert bytecode == [|Table(p)|, |p.params|] + GenBlock(p.body, Table(p)) + [HALT];
    } else {
      bytecode := [];
    }
  }

  lemma LoopBytes(before: Code, cond: Code, body: Code)
    ensures var at := |before| + |cond| + 1;
      var code := before + cond + [JUMP_FALSE] + Int16(0) + body + JumpTo(JUMP, |before| - (at + |body| + 3));
      at + 2 <= |code| && Written(code, at, Int16(|code| - at)) == before + CodeGen.Loop(cond, body)
  {
    var at := |before| + |cond| + 1;
    var jump := JumpTo(JUMP, |before| - (at + |body| + 3));
    var code := before + cond + [JUMP_FALSE] + Int16(0) + body + jump;
    assert |code| - at == |body| + 5;
    Hole(before + cond + [JUMP_FALSE], Int16(0), body + jump, Int16(|body| + 5));
    Regroup(before + cond + [JUMP_FALSE] + Int16(0), body, jump);
    LoopJoins(before, cond, Int16(|body| + 5), body, jump);
  }

  lemma Hole(x: Code, y: Code, z: Code, y': Code)
    requires |y'| == |y|
    ensures Written(x + y + z, |x|, y') == x + y' + z
  {
  }

  lemma LoopJoins(before: Code, cond: Code, field: Code, body: Code, jump: Code)
    ensures before + cond + [JUMP_FALSE] + field + (body + jump)
            == before + (cond + ([JUMP_FALSE] + field) + body + jump)
  {
  }

  lemma CodeAtEnd(before: Code, part: Code)
    ensures CodeAt(before + part, |before|, part)
  {
  }

  lemma AgreePrefix(before: Code, part: Code)
    ensures Agree(before, before + part, {})
  {
  }

  lemma {:induction false} SlotIs(t: seq<Text>, x: Text, l: nat)
    requires l < |t| && t[l] == x && x !in t[..l]
    ensures SlotOf(t, x) == l
  {
    if l > 0 {
      assert t[..l][0] == t[0] && t[..l][1..] == t[1..][..l - 1];
      SlotIs(t[1..], x, l - 1);
    }
  }

  // ----- code with holes: what stands in the buffer while an IF is being compiled -----

  ghost function HolesOf(f: IfFixup): set<nat> {
    (if f.nextElse.At? then {f.nextElse.pos} else {}) + (set a | a in f.list)
  }

  /** buf is a prefix of final, except at the two-byte holes. */
  ghost predicate Agree(buf: Code, final: Code, holes: set<nat>) {
    |buf| <= |final| && forall i :: 0 <= i < |buf| && i !in holes && i - 1 !in holes ==> buf[i] == final[i]
  }

  /** What final has at each hole: the distance to next for the pending arm, to its end for the rest. */
  ghost predicate Fillable(f: IfFixup, final: Code, next: int) {
    (f.nextElse.At? ==> f.nextElse.pos + 2 <= next && CodeAt(final, f.nextElse.pos, Int16(next - f.nextElse.pos)))
    && Listed(f, final)
  }

  ghost predicate Listed(f: IfFixup, final: Code) {
    forall a <- f.list :: a + 2 <= |final| && CodeAt(final, a, Int16(|final| - a))
  }

  lemma FreshIf(final: Code)
    ensures HolesOf(IfFixup(Null, [])) == {} && Listed(IfFixup(Null, []), final)
  {
  }

  lemma AgreePatch(buf: Code, final: Code, holes: set<nat>, at: nat, offset: int)
    requires Agree(buf, final, holes) && at + 2 <= |buf| && CodeAt(final, at, Int16(offset))
    ensures Agree(Written(buf, at, Int16(offset)), final, holes - {at})
  {
    var buf' := Written(buf, at, Int16(offset));
    forall i | 0 <= i < |buf'| && i !in holes - {at} && i - 1 !in holes - {at}
      ensures buf'[i] == final[i]
    {
      if at <= i < at + 2 {
        assert final[at + (i - at)] == Int16(offset)[i - at];
      }
    }
  }

  /** Emitting a jump whose offset is not known yet. */
  lemma HoleStep(buf: Code, final: Code, f: IfFixup, op: byte, offset: int)
    requires Agree(buf, final, HolesOf(f)) && CodeAt(final, |buf|, JumpTo(op, offset))
    ensures CodeAt(final, |buf| + 1, Int16(offset))
    ensures Agree(buf + [op] + Int16(0), final, HolesOf(f) + {|buf| + 1})
  {
    var part: Code := [op];
    CodeAtSplit(final, |buf|, part, Int16(offset));
    AgreeAppend(buf, final, HolesOf(f), part);
    AgreeHole(buf + part, final, HolesOf(f));
  }

  lemma OpenElse(f: IfFixup, final: Code, at: nat, next: int)
    requires f.nextElse == Null && Listed(f, final)
    requires at + 2 <= next && CodeAt(final, at, Int16(next - at))
    ensures var f' := f.(nextElse := At(at)); Fillable(f', final, next) && HolesOf(f') == HolesOf(f) + {at}
  {
  }

  lemma OpenEnd(f: IfFixup, final: Code, at: nat, next: int)
    requires Fillable(f, final, next) && at + 2 <= |final| && CodeAt(final, at, Int16(|final| - at))
    ensures var f' := f.(list := [at] + f.list); Fillable(f', final, next) && HolesOf(f') == HolesOf(f) + {at}
  {
  }

  /** Filling in the pending jump to the next arm. */
  lemma CloseElse(buf: Code, final: Code, f: IfFixup)
    requires Agree(buf, final, HolesOf(f)) && Fillable(f, final, |buf|) && f.nextElse.At?
    ensures f.nextElse.pos + 2 <= |buf|
    ensures Agree(Written(buf, f.nextElse.pos, Int16(|buf| - f.nextElse.pos)), final, HolesOf(f.(nextElse := Null)))
    ensures forall next: int :: Fillable(f.(nextElse := Null), final, next)
    ensures Listed(f.(nextElse := Null), final)
  {
    var at := f.nextElse.pos;
    AgreePatch(buf, final, HolesOf(f), at, |buf| - at);
    AgreeMore(Written(buf, at, Int16(|buf| - at)), final, HolesOf(f) - {at}, HolesOf(f.(nextElse := Null)));
  }

  lemma AgreeAppend(buf: Code, final: Code, holes: set<nat>, part: Code)
    requires Agree(buf, final, holes) && CodeAt(final, |buf|, part)
    ensures Agree(buf + part, final, holes)
  {
    forall i | 0 <= i < |buf + part| && i !in holes && i - 1 !in holes
      ensures (buf + part)[i] == final[i]
    {
      if |buf| <= i {
        assert final[|buf| + (i - |buf|)] == part[i - |buf|];
      }
    }
  }

  lemma AgreeHole(buf: Code, final: Code, holes: set<nat>)
    requires Agree(buf, final, holes) && |buf| + 2 <= |final|
    ensures Agree(buf + Int16(0), final, holes + {|buf|})
  {
  }

  lemma AgreeAll(buf: Code, final: Code, holes: set<nat>)
    requires Agree(buf, final, holes) && holes == {} && |buf| == |final|
    ensures buf == final
  {
    forall i | 0 <= i < |buf|
      ensures buf[i] == final[i]
    {
      assert i !in holes && i - 1 !in holes;
    }
  }

  lemma AgreeMore(buf: Code, final: Code, holes: set<nat>, more: set<nat>)
    requires Agree(buf, final, holes) && holes <= more
    ensures Agree(buf, final, more)
  {
    forall i | 0 <= i < |buf| && i !in more && i - 1 !in more
      ensures buf[i] == final[i]
    {
    }
  }
}
