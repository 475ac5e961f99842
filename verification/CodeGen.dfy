/**
 * A structured code generator: what the single-pass emitter of src/parser.y must have produced once
 * all its jump placeholders are filled in. T is the final table of locals.
 */
module CodeGen {
  import opened Bytes
  import opened Values
  import opened Syntax

  type Code = seq<byte>

  const HALT: byte := 104         // h
  const SAVE_LOCAL: byte := 99    // c
  const GET_LOCAL: byte := 101    // e
  const INC_LOCAL: byte := 102    // f
  const DEC_LOCAL: byte := 103    // g
  const JUMP: byte := 106         // j
  const JUMP_FALSE: byte := 107   // k
  const PUSH_STR: byte := 108     // l
  const NEGATE: byte := 110       // n
  const PUSH_INT: byte := 112     // p
  const NOT: byte := 120          // x
  const ASSIGN_ITEM: byte := 67   // C
  const DEREF: byte := 68         // D
  const END_ITEM: byte := 69      // E
  const FETCH: byte := 70         // F
  const ITEM: byte := 73          // I
  const LAYER: byte := 76         // L
  const DEREF_LOCAL: byte := 86   // V
  const EXISTS: byte := 88        // X

  function OpByte(op: BinOp): byte {
    match op
    case Eq => 111   // o
    case Ne => 113   // q
    case Or => 122   // z
    case And => 121  // y
    case Lt => 114   // r
    case Le => 117   // u
    case Gt => 116   // t
    case Ge => 118   // v
    case Add => 97   // a
    case Sub => 115  // s
    case Mul => 109  // m
    case Div => 100  // d
  }

  /** Each opcode is the letter under which the dispatch table has its function. */
  lemma OpcodesAreLetters()
    ensures HALT == 'h' as int && SAVE_LOCAL == 'c' as int && GET_LOCAL == 'e' as int && INC_LOCAL == 'f' as int
    ensures DEC_LOCAL == 'g' as int && JUMP == 'j' as int && JUMP_FALSE == 'k' as int && PUSH_STR == 'l' as int
    ensures NEGATE == 'n' as int && PUSH_INT == 'p' as int && NOT == 'x' as int && ASSIGN_ITEM == 'C' as int
    ensures FETCH == 'F' as int && ITEM == 'I' as int && EXISTS == 'X' as int
    ensures LAYER == 'L' as int && DEREF == 'D' as int && DEREF_LOCAL == 'V' as int && END_ITEM == 'E' as int
    ensures OpByte(Eq) == 'o' as int && OpByte(Ne) == 'q' as int && OpByte(Or) == 'z' as int
    ensures OpByte(And) == 'y' as int && OpByte(Lt) == 'r' as int && OpByte(Le) == 'u' as int
    ensures OpByte(Gt) == 't' as int && OpByte(Ge) == 'v' as int && OpByte(Add) == 'a' as int
    ensures OpByte(Sub) == 's' as int && OpByte(Mul) == 'm' as int && OpByte(Div) == 'd' as int
  {
  }

  /** A slot as one byte; only tables of fewer than 256 names are ever given to the generator. */
  function SlotByte(t: seq<Text>, x: Text): byte {
    if x in t then SlotOf(t, x) % 256 else 0
  }

  function GenLayer(l: Layer, t: seq<Text>): Code {
    match l
    case Name(s) => [LAYER, |s| % 256] + s
    case LocalRef(x) => [DEREF, DEREF_LOCAL, SlotByte(t, x)]
  }

  function GenLayers(i: Item, t: seq<Text>): Code {
    if i == [] then [] else GenLayer(i[0], t) + GenLayers(i[1..], t)
  }

  lemma NoLayers(t: seq<Text>)
    ensures GenLayers([], t) == []
  {
  }

  /** An item reference leaves the item's name on the stack. */
  function GenItem(i: Item, t: seq<Text>): Code {
    [ITEM] + GenLayers(i, t) + [END_ITEM]
  }

  function GenExpr(e: Expr, t: seq<Text>): Code {
    match e
    case Local(x) => [GET_LOCAL, SlotByte(t, x)]
    case IntLit(n) => [PUSH_INT] + Int64(n)
    case StrLit(s) => [PUSH_STR] + Int16(|s|) + s
    case Fetch(i, a) => GenArgs(a, t) + GenItem(i, t) + ([FETCH] + Int16(ArgCount(a)))
    case Binary(op, l, r) => GenExpr(l, t) + GenExpr(r, t) + [OpByte(op)]
    case Not(e1) => GenExpr(e1, t) + [NOT]
    case Minus(e1) => GenExpr(e1, t) + [NEGATE]
    case Exists(i) => GenItem(i, t) + [EXISTS]
  }

  function GenArgs(a: Args, t: seq<Text>): Code {
    match a case NoArgs => [] case MoreArgs(e, rest) => GenExpr(e, t) + GenArgs(rest, t)
  }

  /** Offsets are counted from the offset field itself. */
  function JumpTo(op: byte, offset: int): Code { [op] + Int16(offset) }

  /** One guarded arm of an IF: skip the body if false, and skip the other arms after the body. */
  function Arm(cond: Code, body: Code, others: Code): Code {
    cond + JumpTo(JUMP_FALSE, |body| + 5) + body + JumpTo(JUMP, |others| + 2) + others
  }

  function Loop(cond: Code, body: Code): Code {
    cond + JumpTo(JUMP_FALSE, |body| + 5) + body + JumpTo(JUMP, -(|cond| + |body| + 4))
  }

  /** One save for every entry of the table with the name x. */
  function Saves(t: seq<Text>, x: Text): Code {
    if t == [] then []
    else
      var n := |t| - 1;
      Saves(t[..n], x) + (if t[n] == x then [SAVE_LOCAL, n % 256] else [])
  }

  function GenStmt(s: Stmt, t: seq<Text>): Code {
    match s
    case While(c, b) => Loop(GenExpr(c, t), GenBlock(b, t))
    case If(c, b, tail) => Arm(GenExpr(c, t), GenBlock(b, t), GenTail(tail, t))
    case Return => [HALT]
    case Assign(x, e) => GenExpr(e, t) + Saves(t, x)
    case AssignItem(i, e) => GenItem(i, t) + GenExpr(e, t) + [ASSIGN_ITEM]
    case Inc(x) => [INC_LOCAL, SlotByte(t, x)]
    case Dec(x) => [DEC_LOCAL, SlotByte(t, x)]
    case Evaluate(e) => GenExpr(e, t)
  }

  function GenTail(l: Tail, t: seq<Text>): Code {
    match l
    case EndIf => []
    case Elsif(c, b, tail) => Arm(GenExpr(c, t), GenBlock(b, t), GenTail(tail, t))
    case Else(b) => GenBlock(b, t)
  }

  function GenBlock(b: Block, t: seq<Text>): Code {
    match b case Done => [] case Then(s, rest) => GenStmt(s, t) + GenBlock(rest, t)
  }

  /** An item's bytecode: the number of locals, the number of parameters, the code, a halt. */
  function GenProgram(p: Program): Code {
    [|Table(p)| % 256, |p.params| % 256] + GenBlock(p.body, Table(p)) + [HALT]
  }

  /** What parse_source accepts, within the sizes that the bytecode format can express. */
  predicate Compiles(p: Program) {
    LexicalBlock(p.body) && DefinedBlock(p.body, p.params) && Distinct(p.params)
    && |Table(p)| < 256 && |GenProgram(p)| < 0x8000
  }

  // ----- assignments to locals -----

  lemma {:induction false} SavesOfOthers(t: seq<Text>, n: nat, x: Text)
    requires n <= |t| && x !in t[n..]
    ensures Saves(t, x) == Saves(t[..n], x)
    decreases |t|
  {
    if n == |t| {
      assert t[..n] == t;
    } else {
      var k := |t| - 1;
      assert t[k] in t[n..] && t[..k][n..] == t[n..][..k - n] && t[..k][..n] == t[..n];
      SavesOfOthers(t[..k], n, x);
    }
  }

  /** A name that the table has once is saved once, to its slot; a repeated parameter is saved more often. */
  lemma SavesOnce(t: seq<Text>, x: Text)
    requires |t| < 256 && x in t
    ensures Saves(t, x) == [SAVE_LOCAL, SlotByte(t, x)] <==> x !in t[SlotOf(t, x) + 1..]
    ensures Distinct(t) ==> Saves(t, x) == [SAVE_LOCAL, SlotByte(t, x)]
  {
    hide Saves;
    var i := SlotOf(t, x);
    SavesAt(t, i, x);
    SavesOfOthers(t[..i], 0, x);
    assert t[..i][..0] == [] && t[..i][0..] == t[..i];
    SavesNothing(x);
    if x !in t[i + 1..] {
      SavesOfOthers(t, i + 1, x);
    } else {
      SavedAgain(t, i, x);
    }
    if Distinct(t) {
      assert x !in t[i + 1..];
    }
  }

  lemma SavesNothing(x: Text)
    ensures Saves([], x) == []
  {
  }

  lemma SavesAt(t: seq<Text>, k: nat, x: Text)
    requires k < |t|
    ensures Saves(t[..k + 1], x) == Saves(t[..k], x) + (if t[k] == x then [SAVE_LOCAL, k % 256] else [])
  {
    assert t[..k + 1][..k] == t[..k];
  }

  lemma SavedAgain(t: seq<Text>, i: nat, x: Text)
    requires i < |t| && t[i] == x && x in t[i + 1..]
    ensures |Saves(t, x)| > 2
  {
    hide Saves;
    var j :| 0 <= j < |t[i + 1..]| && t[i + 1..][j] == x;
    var k := i + 1 + j;
    assert t[k] == x;
    SavesAt(t, k, x);
    SavesAt(t, i, x);
    SavesGrow(t, k + 1);
    SavesGrow(t[..k], i + 1);
    assert t[..k][..i + 1] == t[..i + 1];
  }

  /** A parameter that is declared twice: an assignment pops two values. */
  lemma RepeatedParameterSavedTwice(x: Text)
    ensures Saves([x, x], x) == [SAVE_LOCAL, 0, SAVE_LOCAL, 1]
  {
    assert [x, x][..1] == [x] && [x][..0] == [];
    assert Saves([], x) == [];
  }

  lemma {:induction false} SavesGrow(t: seq<Text>, n: nat)
    requires n <= |t|
    ensures forall x :: |Saves(t[..n], x)| <= |Saves(t, x)|
    decreases |t|
  {
    if n == |t| {
      assert t[..n] == t;
    } else {
      SavesGrow(t[..|t| - 1], n);
      assert t[..|t| - 1][..n] == t[..n];
    }
  }

  // ----- code inside code -----

  ghost predicate CodeAt(code: Code, pc: int, part: Code) {
    0 <= pc && pc + |part| <= |code| && forall i :: 0 <= i < |part| ==> code[pc + i] == part[i]
  }

  lemma CodeAtSplit(code: Code, pc: int, x: Code, y: Code)
    requires CodeAt(code, pc, x + y)
    ensures CodeAt(code, pc, x) && CodeAt(code, pc + |x|, y)
  {
    assert forall i :: 0 <= i < |x| ==> (x + y)[i] == x[i];
    forall i | 0 <= i < |y|
      ensures code[pc + |x| + i] == y[i]
    {
      assert (x + y)[|x| + i] == y[i];
    }
  }

  lemma CodeAtBound(code: Code, pc: int, part: Code)
    requires CodeAt(code, pc, part)
    ensures 0 <= pc && pc + |part| <= |code|
  {
  }

  lemma CodeAtFirst(code: Code, pc: int, part: Code)
    requires CodeAt(code, pc, part) && part != []
    ensures 0 <= pc < |code| && code[pc] == part[0]
  {
    assert code[pc + 0] == part[0];
  }

  lemma CodeAtByte(code: Code, pc: int, part: Code, k: nat)
    requires CodeAt(code, pc, part) && k < |part|
    ensures 0 <= pc && pc + k < |code| && code[pc + k] == part[k]
  {
  }

  lemma CodeAtSlice(code: Code, pc: int, part: Code)
    requires CodeAt(code, pc, part)
    ensures code[pc..pc + |part|] == part
  {
  }

  lemma CodeAtSplit3(code: Code, pc: int, x: Code, y: Code, z: Code)
    requires CodeAt(code, pc, x + y + z)
    ensures CodeAt(code, pc, x) && CodeAt(code, pc + |x|, y) && CodeAt(code, pc + |x| + |y|, z)
  {
    CodeAtSplit(code, pc, x + y, z);
    CodeAtSplit(code, pc, x, y);
  }

  /** The parts of an arm. */
  lemma ArmParts(code: Code, pc: nat, cond: Code, body: Code, others: Code)
    requires CodeAt(code, pc, Arm(cond, body, others))
    ensures var q := pc + |cond|;
      CodeAt(code, pc, cond) && CodeAt(code, q, JumpTo(JUMP_FALSE, |body| + 5)) && CodeAt(code, q + 3, body)
      && CodeAt(code, q + 3 + |body|, JumpTo(JUMP, |others| + 2)) && CodeAt(code, q + 6 + |body|, others)
    ensures |Arm(cond, body, others)| == |cond| + |body| + |others| + 6
  {
    var a, b := JumpTo(JUMP_FALSE, |body| + 5), JumpTo(JUMP, |others| + 2);
    CodeAtSplit3(code, pc, cond + a + body, b, others);
    CodeAtSplit3(code, pc, cond, a, body);
  }

  lemma LoopParts(code: Code, pc: nat, cond: Code, body: Code)
    requires CodeAt(code, pc, Loop(cond, body))
    ensures var q := pc + |cond|;
      CodeAt(code, pc, cond) && CodeAt(code, q, JumpTo(JUMP_FALSE, |body| + 5)) && CodeAt(code, q + 3, body)
      && CodeAt(code, q + 3 + |body|, JumpTo(JUMP, -(|cond| + |body| + 4)))
    ensures |Loop(cond, body)| == |cond| + |body| + 6
  {
    var a, b := JumpTo(JUMP_FALSE, |body| + 5), JumpTo(JUMP, -(|cond| + |body| + 4));
    CodeAtSplit(code, pc, cond + a + body, b);
    CodeAtSplit3(code, pc, cond, a, body);
  }
}
