/** Where the instructions of compiled code begin, and that every jump goes to such a place. */
module Boundaries {
  import opened Bytes
  import opened Values
  import opened Syntax
  import opened CodeGen

  /** Where the layers of an item reference end: past the end marker. */
  function ItemEnd(code: Code, p: nat): (r: nat)
    ensures r > p
    decreases |code| - p
  {
    if p + 1 >= |code| || code[p] == END_ITEM then p + 1
    else if code[p] == LAYER then ItemEnd(code, p + 2 + code[p + 1])
    else if code[p] == DEREF then ItemEnd(code, if code[p + 1] == DEREF_LOCAL then p + 3 else p + 2)
    else ItemEnd(code, p + 1)
  }

  /** Where the next instruction begins, as the opcode functions move on when they do not jump. */
  function NextInstruction(code: Code, p: nat): (r: nat)
    requires p < |code|
    ensures r > p
  {
    var op := code[p];
    if op == PUSH_INT then p + 9
    else if op == PUSH_STR then (if p + 3 <= |code| then p + 3 + Decode(code[p + 1..p + 3]) else p + 3)
    else if op == JUMP || op == JUMP_FALSE || op == FETCH then p + 3
    else if op == GET_LOCAL || op == SAVE_LOCAL || op == INC_LOCAL || op == DEC_LOCAL then p + 2
    else if op == ITEM then ItemEnd(code, p + 1)
    else p + 1
  }

  /** From a, instruction after instruction leads to b. */
  predicate Walks(code: Code, a: int, b: int)
    decreases b - a
  {
    a == b || (0 <= a < b && a < |code| && NextInstruction(code, a) <= b && Walks(code, NextInstruction(code, a), b))
  }

  predicate IsJump(op: byte) { op == JUMP || op == JUMP_FALSE }

  function Target(code: Code, p: nat): int
    requires p + 3 <= |code|
  {
    p + 1 + Signed16(code[p + 1..p + 3])
  }

  /** Every jump between a and b goes to an instruction that the walk from lo comes to. */
  ghost predicate JumpsLand(code: Code, lo: int, a: int, b: int)
    decreases b - a
  {
    a == b
    || (0 <= a < b && a < |code| && NextInstruction(code, a) <= b
        && (IsJump(code[a]) ==> a + 3 <= |code| && Target(code, a) < |code| && Walks(code, lo, Target(code, a)))
        && JumpsLand(code, lo, NextInstruction(code, a), b))
  }

  lemma {:induction false} WalksOn(code: Code, a: int, b: int, c: int)
    requires Walks(code, a, b) && Walks(code, b, c)
    ensures Walks(code, a, c) && a <= b <= c
    decreases b - a
  {
    if a != b {
      WalksOn(code, NextInstruction(code, a), b, c);
    }
  }

  lemma {:induction false} LandOn(code: Code, lo: int, a: int, b: int, c: int)
    requires JumpsLand(code, lo, a, b) && JumpsLand(code, lo, b, c)
    ensures JumpsLand(code, lo, a, c)
    decreases b - a
  {
    if a != b {
      LandOn(code, lo, NextInstruction(code, a), b, c);
      LandIsWalk(code, lo, b, c);
    }
  }

  lemma {:induction false} LandIsWalk(code: Code, lo: int, a: int, b: int)
    requires JumpsLand(code, lo, a, b)
    ensures Walks(code, a, b) && a <= b
    decreases b - a
  {
    if a != b {
      LandIsWalk(code, lo, NextInstruction(code, a), b);
    }
  }

  /** Seen from further down, the jumps still land. */
  lemma {:induction false} LandFrom(code: Code, lo': int, lo: int, a: int, b: int)
    requires JumpsLand(code, lo, a, b) && Walks(code, lo', lo)
    ensures JumpsLand(code, lo', a, b)
    decreases b - a
  {
    if a != b {
      LandFrom(code, lo', lo, NextInstruction(code, a), b);
      if IsJump(code[a]) {
        WalksOn(code, lo', lo, Target(code, a));
      }
    }
  }

  lemma Landed(code: Code, lo: int, p: int)
    requires 0 <= p < |code| && !IsJump(code[p])
    ensures JumpsLand(code, lo, p, NextInstruction(code, p))
  {
  }

  // ----- expressions have no jumps -----

  lemma {:induction false} ItemEnds(i: Item, t: seq<Text>, code: Code, p: nat)
    requires CodeAt(code, p, GenLayers(i, t)) && p + |GenLayers(i, t)| < |code|
    requires code[p + |GenLayers(i, t)|] == END_ITEM && forall l <- i :: LexicalLayer(l)
    ensures ItemEnd(code, p) == p + |GenLayers(i, t)| + 1
    decreases |i|
  {
    hide CodeAt, GenLayer, LexicalLayer, GenLayers;
    NoLayers(t);
    if i != [] {
      var g := GenLayer(i[0], t);
      LayersSplit(i, t, code, p);
      assert LexicalLayer(i[0]) && forall l <- i[1..] :: l in i;
      LayerBytes(i[0], t, code, p);
      ItemEnds(i[1..], t, code, p + |g|);
    }
  }

  lemma LayersSplit(i: Item, t: seq<Text>, code: Code, p: nat)
    requires i != [] && CodeAt(code, p, GenLayers(i, t))
    ensures CodeAt(code, p, GenLayer(i[0], t)) && CodeAt(code, p + |GenLayer(i[0], t)|, GenLayers(i[1..], t))
    ensures |GenLayers(i, t)| == |GenLayer(i[0], t)| + |GenLayers(i[1..], t)|
  {
    hide CodeAt, GenLayer;
    CodeAtSplit(code, p, GenLayer(i[0], t), GenLayers(i[1..], t));
  }

  lemma LayerBytes(l: Layer, t: seq<Text>, code: Code, p: nat)
    requires CodeAt(code, p, GenLayer(l, t)) && LexicalLayer(l)
    ensures p + 1 < |code| && code[p] != END_ITEM
    ensures code[p] == LAYER ==> |GenLayer(l, t)| - code[p + 1] == 2
    ensures code[p] != LAYER ==> |GenLayer(l, t)| == 3 && code[p] == DEREF && code[p + 1] == DEREF_LOCAL
  {
    var g := GenLayer(l, t);
    assert code[p + 0] == g[0] && code[p + 1] == g[1];
  }

  lemma ItemLands(i: Item, t: seq<Text>, code: Code, lo: int, p: nat)
    requires CodeAt(code, p, GenItem(i, t)) && LexicalItem(i)
    ensures JumpsLand(code, lo, p, p + |GenItem(i, t)|)
  {
    hide GenLayers;
    var head: Code := [ITEM];
    var tail: Code := [END_ITEM];
    CodeAtSplit3(code, p, head, GenLayers(i, t), tail);
    CodeAtFirst(code, p, head);
    CodeAtFirst(code, p + 1 + |GenLayers(i, t)|, tail);
    ItemEnds(i, t, code, p + 1);
    Landed(code, lo, p);
  }

  lemma LandNowhere(code: Code, lo: int, p: int)
    ensures JumpsLand(code, lo, p, p)
  {
  }

  predicate IsByteOp(op: byte) {
    op !in {PUSH_INT, PUSH_STR, JUMP, JUMP_FALSE, FETCH, GET_LOCAL, SAVE_LOCAL, INC_LOCAL, DEC_LOCAL, ITEM}
  }

  lemma OperatorIsByte(op: BinOp)
    ensures IsByteOp(OpByte(op))
  {
  }

  lemma ByteAfter(code: Code, lo: int, a: int, p: int, op: byte)
    requires JumpsLand(code, lo, a, p) && CodeAt(code, p, [op]) && IsByteOp(op)
    ensures JumpsLand(code, lo, a, p + 1)
  {
    OneByte(code, lo, p, op);
    LandOn(code, lo, a, p, p + 1);
  }

  lemma OneByte(code: Code, lo: int, p: int, op: byte)
    requires CodeAt(code, p, [op]) && IsByteOp(op)
    ensures JumpsLand(code, lo, p, p + 1)
  {
    var part: Code := [op];
    CodeAtFirst(code, p, part);
    Landed(code, lo, p);
  }

  lemma LocalLands(code: Code, lo: int, p: int, op: byte, slot: byte)
    requires CodeAt(code, p, [op, slot]) && op in {GET_LOCAL, SAVE_LOCAL, INC_LOCAL, DEC_LOCAL}
    ensures JumpsLand(code, lo, p, p + 2)
  {
    var part: Code := [op, slot];
    CodeAtFirst(code, p, part);
    Landed(code, lo, p);
  }

  lemma LiteralLands(e: Expr, t: seq<Text>, code: Code, lo: int, p: nat)
    requires (e.IntLit? || e.StrLit?) && LexicalExpr(e) && CodeAt(code, p, GenExpr(e, t))
    ensures JumpsLand(code, lo, p, p + |GenExpr(e, t)|)
  {
    CodeAtFirst(code, p, GenExpr(e, t));
    if e.StrLit? {
      CodeAtSplit3(code, p, [PUSH_STR], Int16(|e.s|), e.s);
      CodeAtSlice(code, p + 1, Int16(|e.s|));
      Unsigned16OfInt16(|e.s|);
    }
    Landed(code, lo, p);
  }

  lemma {:induction false} ExprLands(e: Expr, t: seq<Text>, code: Code, lo: int, p: nat)
    requires LexicalExpr(e) && CodeAt(code, p, GenExpr(e, t))
    ensures JumpsLand(code, lo, p, p + |GenExpr(e, t)|)
    decreases e, 0
  {
    hide JumpsLand, Walks, NextInstruction, ItemEnd, CodeAt, GenItem, LexicalItem, GenArgs, LexicalArgs, SlotByte,
         Int16, Int64;
    match e {
      case Local(x) => LocalLands(code, lo, p, GET_LOCAL, SlotByte(t, x));
      case IntLit(_) => LiteralLands(e, t, code, lo, p);
      case StrLit(_) => LiteralLands(e, t, code, lo, p);
      case Not(e1) =>
        CodeAtSplit(code, p, GenExpr(e1, t), [NOT]);
        ExprLands(e1, t, code, lo, p);
        ByteAfter(code, lo, p, p + |GenExpr(e1, t)|, NOT);
      case Minus(e1) =>
        CodeAtSplit(code, p, GenExpr(e1, t), [NEGATE]);
        ExprLands(e1, t, code, lo, p);
        ByteAfter(code, lo, p, p + |GenExpr(e1, t)|, NEGATE);
      case Exists(i) =>
        CodeAtSplit(code, p, GenItem(i, t), [EXISTS]);
        ItemLands(i, t, code, lo, p);
        ByteAfter(code, lo, p, p + |GenItem(i, t)|, EXISTS);
      case Binary(op, l, r) =>
        CodeAtSplit3(code, p, GenExpr(l, t), GenExpr(r, t), [OpByte(op)]);
        var q := p + |GenExpr(l, t)|;
        ExprLands(l, t, code, lo, p);
        ExprLands(r, t, code, lo, q);
        LandOn(code, lo, p, q, q + |GenExpr(r, t)|);
        OperatorIsByte(op);
        ByteAfter(code, lo, p, q + |GenExpr(r, t)|, OpByte(op));
      case Fetch(i, a) =>
        FetchLands(i, a, t, code, lo, p);
    }
  }

  lemma {:induction false} FetchLands(i: Item, a: Args, t: seq<Text>, code: Code, lo: int, p: nat)
    requires LexicalItem(i) && LexicalArgs(a) && CodeAt(code, p, GenExpr(Fetch(i, a), t))
    ensures JumpsLand(code, lo, p, p + |GenExpr(Fetch(i, a), t)|)
    decreases a, 1
  {
    hide JumpsLand, CodeAt, GenItem, LexicalItem, GenArgs;
    var tail: Code := [FETCH] + Int16(ArgCount(a));
    CodeAtSplit3(code, p, GenArgs(a, t), GenItem(i, t), tail);
    var q := p + |GenArgs(a, t)|;
    ArgsLand(a, t, code, lo, p);
    ItemLands(i, t, code, lo, q);
    FetchOpLands(code, lo, q + |GenItem(i, t)|, tail);
    LandOn(code, lo, p, q, q + |GenItem(i, t)|);
    LandOn(code, lo, p, q + |GenItem(i, t)|, q + |GenItem(i, t)| + 3);
  }

  lemma FetchOpLands(code: Code, lo: int, p: nat, part: Code)
    requires CodeAt(code, p, part) && |part| == 3 && part[0] == FETCH
    ensures JumpsLand(code, lo, p, p + 3)
  {
    CodeAtFirst(code, p, part);
    Landed(code, lo, p);
  }

  lemma {:induction false} ArgsLand(a: Args, t: seq<Text>, code: Code, lo: int, p: nat)
    requires LexicalArgs(a) && CodeAt(code, p, GenArgs(a, t))
    ensures JumpsLand(code, lo, p, p + |GenArgs(a, t)|)
    decreases a, 0
  {
    hide CodeAt, JumpsLand, GenExpr, LexicalExpr;
    LandNowhere(code, lo, p);
    if a.MoreArgs? {
      CodeAtSplit(code, p, GenExpr(a.first, t), GenArgs(a.rest, t));
      ExprLands(a.first, t, code, lo, p);
      ArgsLand(a.rest, t, code, lo, p + |GenExpr(a.first, t)|);
      LandOn(code, lo, p, p + |GenExpr(a.first, t)|, p + |GenArgs(a, t)|);
    }
  }

  // ----- statements -----

  lemma JumpLands(code: Code, lo: int, p: nat, op: byte, offset: int)
    requires CodeAt(code, p, JumpTo(op, offset)) && IsJump(op) && -0x8000 <= offset < 0x8000
    requires p + 1 + offset < |code| && Walks(code, lo, p + 1 + offset)
    ensures JumpsLand(code, lo, p, p + 3)
  {
    var head: Code := [op];
    CodeAtSplit(code, p, head, Int16(offset));
    CodeAtFirst(code, p, head);
    CodeAtSlice(code, p + 1, Int16(offset));
    Signed16OfInt16(offset);
    assert Target(code, p) == p + 1 + offset;
  }

  lemma JumpWalks(code: Code, p: nat, op: byte, offset: int)
    requires CodeAt(code, p, JumpTo(op, offset)) && IsJump(op)
    ensures Walks(code, p, p + 3)
  {
    CodeAtFirst(code, p, JumpTo(op, offset));
  }

  /** A loop: the exit goes past it, the way back to its start. */
  lemma LoopLands(code: Code, p: nat, cond: Code, body: Code)
    requires CodeAt(code, p, CodeGen.Loop(cond, body)) && p + |CodeGen.Loop(cond, body)| < |code| < 0x8000
    requires JumpsLand(code, p, p, p + |cond|)
             && JumpsLand(code, p + |cond| + 3, p + |cond| + 3, p + |cond| + 3 + |body|)
    ensures JumpsLand(code, p, p, p + |CodeGen.Loop(cond, body)|)
  {
    hide CodeAt, JumpsLand, Walks, CodeGen.Loop;
    LoopParts(code, p, cond, body);
    CodeAtBound(code, p, CodeGen.Loop(cond, body));
    var q := p + |cond|;
    var r := q + 3 + |body|;
    JumpWalks(code, q, JUMP_FALSE, |body| + 5);
    JumpWalks(code, r, JUMP, -(|cond| + |body| + 4));
    LandIsWalk(code, p, p, q);
    LandIsWalk(code, q + 3, q + 3, r);
    WalksOn(code, p, q, q + 3);
    WalksOn(code, p, q + 3, r);
    WalksOn(code, p, r, r + 3);
    WalksNowhere(code, p);
    JumpLands(code, p, q, JUMP_FALSE, |body| + 5);
    JumpLands(code, p, r, JUMP, -(|cond| + |body| + 4));
    LandFrom(code, p, q + 3, q + 3, r);
    LandOn(code, p, p, q, q + 3);
    LandOn(code, p, p, q + 3, r);
    LandOn(code, p, p, r, r + 3);
  }

  lemma WalksNowhere(code: Code, p: int)
    ensures Walks(code, p, p)
  {
  }

  /** An arm of an IF: one jump to the other arms, one past them. */
  lemma ArmLands(code: Code, p: nat, cond: Code, body: Code, others: Code)
    requires CodeAt(code, p, Arm(cond, body, others)) && p + |Arm(cond, body, others)| < |code| < 0x8000
    requires JumpsLand(code, p, p, p + |cond|)
    requires var q := p + |cond| + 3; JumpsLand(code, q, q, q + |body|)
    requires var r := p + |cond| + |body| + 6; JumpsLand(code, r, r, r + |others|)
    ensures JumpsLand(code, p, p, p + |Arm(cond, body, others)|)
  {
    hide CodeAt, JumpsLand, Walks, Arm;
    ArmParts(code, p, cond, body, others);
    CodeAtBound(code, p, Arm(cond, body, others));
    var q := p + |cond|;
    var r := q + 3 + |body|;
    var end := r + 3 + |others|;
    JumpWalks(code, q, JUMP_FALSE, |body| + 5);
    JumpWalks(code, r, JUMP, |others| + 2);
    LandIsWalk(code, p, p, q);
    LandIsWalk(code, q + 3, q + 3, r);
    LandIsWalk(code, r + 3, r + 3, end);
    WalksOn(code, p, q, q + 3);
    WalksOn(code, p, q + 3, r);
    WalksOn(code, p, r, r + 3);
    WalksOn(code, p, r + 3, end);
    JumpLands(code, p, q, JUMP_FALSE, |body| + 5);
    JumpLands(code, p, r, JUMP, |others| + 2);
    LandFrom(code, p, q + 3, q + 3, r);
    LandFrom(code, p, r + 3, r + 3, end);
    LandOn(code, p, p, q, q + 3);
    LandOn(code, p, p, q + 3, r);
    LandOn(code, p, p, r, r + 3);
    LandOn(code, p, p, r + 3, end);
  }

  lemma {:induction false} SavesLand(x: Text, t: seq<Text>, code: Code, lo: int, p: nat)
    requires CodeAt(code, p, Saves(t, x))
    ensures JumpsLand(code, lo, p, p + |Saves(t, x)|)
    decreases |t|
  {
    hide JumpsLand, CodeAt;
    LandNowhere(code, lo, p);
    if t != [] {
      var n := |t| - 1;
      var q := p + |Saves(t[..n], x)|;
      var last: Code := if t[n] == x then [SAVE_LOCAL, n % 256] else [];
      CodeAtSplit(code, p, Saves(t[..n], x), last);
      SavesLand(x, t[..n], code, lo, p);
      if t[n] == x {
        LocalLands(code, lo, q, SAVE_LOCAL, n % 256);
        LandOn(code, lo, p, q, q + 2);
      }
    }
  }

  lemma {:induction false} StmtLands(s: Stmt, t: seq<Text>, code: Code, p: nat)
    requires LexicalStmt(s) && CodeAt(code, p, GenStmt(s, t)) && p + |GenStmt(s, t)| < |code| < 0x8000
    ensures JumpsLand(code, p, p, p + |GenStmt(s, t)|)
    decreases s
  {
    hide CodeAt, JumpsLand, Walks, CodeGen.Loop, Arm, GenExpr, GenItem, LexicalExpr, LexicalItem, GenBlock, GenTail,
         LexicalBlock, LexicalTail, SlotByte, Saves;
    match s {
      case While(c, b) =>
        LoopParts(code, p, GenExpr(c, t), GenBlock(b, t));
        ExprLands(c, t, code, p, p);
        BlockLands(b, t, code, p + |GenExpr(c, t)| + 3);
        LoopLands(code, p, GenExpr(c, t), GenBlock(b, t));
      case If(c, b, tail) =>
        ArmParts(code, p, GenExpr(c, t), GenBlock(b, t), GenTail(tail, t));
        ExprLands(c, t, code, p, p);
        BlockLands(b, t, code, p + |GenExpr(c, t)| + 3);
        TailLands(tail, t, code, p + |GenExpr(c, t)| + |GenBlock(b, t)| + 6);
        ArmLands(code, p, GenExpr(c, t), GenBlock(b, t), GenTail(tail, t));
      case Return => OneByte(code, p, p, HALT);
      case Assign(x, e) =>
        var q := p + |GenExpr(e, t)|;
        CodeAtSplit(code, p, GenExpr(e, t), Saves(t, x));
        ExprLands(e, t, code, p, p);
        SavesLand(x, t, code, p, q);
        LandOn(code, p, p, q, q + |Saves(t, x)|);
      case AssignItem(i, e) =>
        var q := p + |GenItem(i, t)|;
        CodeAtSplit3(code, p, GenItem(i, t), GenExpr(e, t), [ASSIGN_ITEM]);
        ItemLands(i, t, code, p, p);
        ExprLands(e, t, code, p, q);
        OneByte(code, p, q + |GenExpr(e, t)|, ASSIGN_ITEM);
        LandOn(code, p, p, q, q + |GenExpr(e, t)|);
        LandOn(code, p, p, q + |GenExpr(e, t)|, q + |GenExpr(e, t)| + 1);
      case Inc(x) => LocalLands(code, p, p, INC_LOCAL, SlotByte(t, x));
      case Dec(x) => LocalLands(code, p, p, DEC_LOCAL, SlotByte(t, x));
      case Evaluate(e) => ExprLands(e, t, code, p, p);
    }
  }

  lemma {:induction false} TailLands(l: Tail, t: seq<Text>, code: Code, p: nat)
    requires LexicalTail(l) && CodeAt(code, p, GenTail(l, t)) && p + |GenTail(l, t)| < |code| < 0x8000
    ensures JumpsLand(code, p, p, p + |GenTail(l, t)|)
    decreases l
  {
    hide CodeAt, JumpsLand, Arm, GenExpr, LexicalExpr, GenBlock, LexicalBlock;
    match l {
      case EndIf => LandNowhere(code, p, p);
      case Else(b) => BlockLands(b, t, code, p);
      case Elsif(c, b, tail) =>
        ArmParts(code, p, GenExpr(c, t), GenBlock(b, t), GenTail(tail, t));
        ExprLands(c, t, code, p, p);
        BlockLands(b, t, code, p + |GenExpr(c, t)| + 3);
        TailLands(tail, t, code, p + |GenExpr(c, t)| + |GenBlock(b, t)| + 6);
        ArmLands(code, p, GenExpr(c, t), GenBlock(b, t), GenTail(tail, t));
    }
  }

  lemma {:induction false} BlockLands(b: Block, t: seq<Text>, code: Code, p: nat)
    requires LexicalBlock(b) && CodeAt(code, p, GenBlock(b, t)) && p + |GenBlock(b, t)| < |code| < 0x8000
    ensures JumpsLand(code, p, p, p + |GenBlock(b, t)|)
    decreases b
  {
    hide CodeAt, GenStmt, LexicalStmt, JumpsLand, Walks;
    LandNowhere(code, p, p);
    if b.Then? {
      var q := p + |GenStmt(b.first, t)|;
      CodeAtSplit(code, p, GenStmt(b.first, t), GenBlock(b.rest, t));
      StmtLands(b.first, t, code, p);
      BlockLands(b.rest, t, code, q);
      LandIsWalk(code, p, p, q);
      LandFrom(code, p, q, q, p + |GenBlock(b, t)|);
      LandOn(code, p, p, q, p + |GenBlock(b, t)|);
    }
  }

  /**
   * In the bytecode of an item, instructions follow one another from the third byte to the final
   * halt, and every jump goes to the beginning of one of them.
   */
  lemma ProgramJumpsLand(p: Program)
    requires Compiles(p)
    ensures var code := GenProgram(p); JumpsLand(code, 2, 2, |code| - 1) && code[|code| - 1] == HALT
  {
    hide JumpsLand, GenBlock;
    var code, body := GenProgram(p), GenBlock(p.body, Table(p));
    assert CodeAt(code, 2, body);
    BlockLands(p.body, Table(p), code, 2);
  }
}
