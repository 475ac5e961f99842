/** The abstract syntax that the grammar of src/parser.y recognises, and what the parser checks. */
module Syntax {
  import opened Bytes
  import opened Values
  import opened Paths

  /** A layer of an item reference: a name, or a local variable in square brackets. */
  datatype Layer = Name(text: Text) | LocalRef(local: Text)

  type Item = seq<Layer>

  datatype Expr =
    | Local(name: Text)
    | IntLit(n: int)
    | StrLit(s: Text)
    | Fetch(item: Item, args: Args)
    | Binary(op: BinOp, left: Expr, right: Expr)
    | Not(e: Expr)
    | Minus(e: Expr)
    | Exists(item: Item)

  datatype Args = NoArgs | MoreArgs(first: Expr, rest: Args)

  datatype Stmt =
    | While(cond: Expr, body: Block)
    | If(cond: Expr, body: Block, tail: Tail)
    | Return
    | Assign(local: Text, e: Expr)
    | AssignItem(item: Item, e: Expr)
    | Inc(local: Text)
    | Dec(local: Text)
    | Evaluate(e: Expr)

  datatype Tail = EndIf | Elsif(cond: Expr, body: Block, tail: Tail) | Else(body: Block)

  datatype Block = Done | Then(first: Stmt, rest: Block)

  datatype Program = Program(params: seq<Text>, body: Block)

  function ArgCount(a: Args): nat {
    match a case NoArgs => 0 case MoreArgs(_, rest) => 1 + ArgCount(rest)
  }

  // ----- local variables: the table grows at each first assignment -----

  function Declare(t: seq<Text>, x: Text): seq<Text> {
    if x in t then t else t + [x]
  }

  function LocalsStmt(s: Stmt, t: seq<Text>): seq<Text> {
    match s
    case While(_, b) => LocalsBlock(b, t)
    case If(_, b, tail) => LocalsTail(tail, LocalsBlock(b, t))
    case Assign(x, _) => Declare(t, x)
    case _ => t
  }

  function LocalsTail(l: Tail, t: seq<Text>): seq<Text> {
    match l
    case EndIf => t
    case Elsif(_, b, tail) => LocalsTail(tail, LocalsBlock(b, t))
    case Else(b) => LocalsBlock(b, t)
  }

  function LocalsBlock(b: Block, t: seq<Text>): seq<Text> {
    match b
    case Done => t
    case Then(s, rest) => LocalsBlock(rest, LocalsStmt(s, t))
  }

  /** All the locals of a program, its parameters first. */
  function Table(p: Program): seq<Text> { LocalsBlock(p.body, p.params) }

  // ----- what the parser accepts: a local must be assigned above its first use -----

  predicate DefinedItem(i: Item, t: seq<Text>) {
    forall l <- i :: l.LocalRef? ==> l.local in t
  }

  predicate DefinedExpr(e: Expr, t: seq<Text>) {
    match e
    case Local(x) => x in t
    case IntLit(_) => true
    case StrLit(_) => true
    case Fetch(i, a) => DefinedItem(i, t) && DefinedArgs(a, t)
    case Binary(_, l, r) => DefinedExpr(l, t) && DefinedExpr(r, t)
    case Not(e1) => DefinedExpr(e1, t)
    case Minus(e1) => DefinedExpr(e1, t)
    case Exists(i) => DefinedItem(i, t)
  }

  predicate DefinedArgs(a: Args, t: seq<Text>) {
    match a case NoArgs => true case MoreArgs(e, rest) => DefinedExpr(e, t) && DefinedArgs(rest, t)
  }

  predicate DefinedStmt(s: Stmt, t: seq<Text>) {
    match s
    case While(c, b) => DefinedExpr(c, t) && DefinedBlock(b, t)
    case If(c, b, tail) => DefinedExpr(c, t) && DefinedBlock(b, t) && DefinedTail(tail, LocalsBlock(b, t))
    case Return => true
    case Assign(x, e) => DefinedExpr(e, Declare(t, x))
    case AssignItem(i, e) => DefinedItem(i, t) && DefinedExpr(e, t)
    case Inc(x) => x in t
    case Dec(x) => x in t
    case Evaluate(e) => DefinedExpr(e, t)
  }

  predicate DefinedTail(l: Tail, t: seq<Text>) {
    match l
    case EndIf => true
    case Elsif(c, b, tail) => DefinedExpr(c, t) && DefinedBlock(b, t) && DefinedTail(tail, LocalsBlock(b, t))
    case Else(b) => DefinedBlock(b, t)
  }

  predicate DefinedBlock(b: Block, t: seq<Text>) {
    match b
    case Done => true
    case Then(s, rest) => DefinedStmt(s, t) && DefinedBlock(rest, LocalsStmt(s, t))
  }

  // ----- what the lexer guarantees of tokens, and the sizes the encodings can hold -----

  predicate LexicalLayer(l: Layer) {
    l.Name? ==> SolidLayer(l.text) && IsValidLayer(l.text)
  }

  predicate LexicalItem(i: Item) {
    i != [] && forall l <- i :: LexicalLayer(l)
  }

  predicate LexicalExpr(e: Expr) {
    match e
    case Local(_) => true
    case IntLit(n) => 0 <= n < 0x8000_0000
    case StrLit(s) => 0 !in s && |s| < 0x1_0000
    case Fetch(i, a) => LexicalItem(i) && LexicalArgs(a) && ArgCount(a) < 0x1_0000
    case Binary(_, l, r) => LexicalExpr(l) && LexicalExpr(r)
    case Not(e1) => LexicalExpr(e1)
    case Minus(e1) => LexicalExpr(e1)
    case Exists(i) => LexicalItem(i)
  }

  predicate LexicalArgs(a: Args) {
    match a case NoArgs => true case MoreArgs(e, rest) => LexicalExpr(e) && LexicalArgs(rest)
  }

  predicate LexicalStmt(s: Stmt) {
    match s
    case While(c, b) => LexicalExpr(c) && LexicalBlock(b)
    case If(c, b, tail) => LexicalExpr(c) && LexicalBlock(b) && LexicalTail(tail)
    case Assign(_, e) => LexicalExpr(e)
    case AssignItem(i, e) => LexicalItem(i) && LexicalExpr(e)
    case Evaluate(e) => LexicalExpr(e)
    case _ => true
  }

  predicate LexicalTail(l: Tail) {
    match l
    case EndIf => true
    case Elsif(c, b, tail) => LexicalExpr(c) && LexicalBlock(b) && LexicalTail(tail)
    case Else(b) => LexicalBlock(b)
  }

  predicate LexicalBlock(b: Block) {
    match b case Done => true case Then(s, rest) => LexicalStmt(s) && LexicalBlock(rest)
  }

  predicate Distinct(t: seq<Text>) {
    forall i, j :: 0 <= i < j < |t| ==> t[i] != t[j]
  }

  /** t' has t at its beginning, and none of its names again after it. */
  predicate Settles(t: seq<Text>, t': seq<Text>) {
    t <= t' && forall x <- t :: x !in t'[|t|..]
  }

  lemma SettlesOn(t: seq<Text>, t': seq<Text>, t'': seq<Text>)
    requires Settles(t, t') && Settles(t', t'')
    ensures Settles(t, t'')
  {
    forall x | x in t
      ensures x !in t''[|t|..]
    {
      assert x in t' by { var i :| 0 <= i < |t| && t[i] == x; assert t'[i] == x; }
      assert t''[|t|..] == t'[|t|..] + t''[|t'|..];
    }
  }

  /** A table only grows at its end, by new names, and keeps its names distinct. */
  predicate Extends(t: seq<Text>, t': seq<Text>) {
    Settles(t, t') && (Distinct(t) ==> Distinct(t'))
  }

  lemma DeclareGrows(t: seq<Text>, x: Text)
    ensures Extends(t, Declare(t, x))
  {
    assert (t + [x])[|t|..] == [x] && t[|t|..] == [];
  }

  lemma {:induction false} LocalsStmtGrow(s: Stmt, t: seq<Text>)
    ensures Extends(t, LocalsStmt(s, t))
  {
    hide Settles, Distinct;
    SettlesItself(t);
    match s
    case While(_, b) => LocalsBlockGrow(b, t);
    case If(_, b, tail) =>
      var t1 := LocalsBlock(b, t);
      LocalsBlockGrow(b, t);
      LocalsTailGrow(tail, t1);
      SettlesOn(t, t1, LocalsTail(tail, t1));
    case Assign(x, _) => DeclareGrows(t, x);
    case _ =>
  }

  lemma SettlesItself(t: seq<Text>)
    ensures Settles(t, t)
  {
  }

  lemma {:induction false} LocalsTailGrow(l: Tail, t: seq<Text>)
    ensures Extends(t, LocalsTail(l, t))
  {
    hide Settles, Distinct;
    SettlesItself(t);
    match l
    case EndIf =>
    case Elsif(_, b, tail) =>
      var t1 := LocalsBlock(b, t);
      LocalsBlockGrow(b, t);
      LocalsTailGrow(tail, t1);
      SettlesOn(t, t1, LocalsTail(tail, t1));
    case Else(b) => LocalsBlockGrow(b, t);
  }

  lemma {:induction false} LocalsBlockGrow(b: Block, t: seq<Text>)
    ensures Extends(t, LocalsBlock(b, t))
  {
    hide Settles, Distinct;
    SettlesItself(t);
    match b
    case Done =>
    case Then(s, rest) =>
      var t1 := LocalsStmt(s, t);
      LocalsStmtGrow(s, t);
      LocalsBlockGrow(rest, t1);
      SettlesOn(t, t1, LocalsBlock(rest, t1));
  }

  /** The table in which a list of statements ends settles what it began with. */
  lemma BlockSettles(b: Block, t0: seq<Text>, t: seq<Text>)
    requires Settles(LocalsBlock(b, t0), t)
    ensures Settles(t0, t) && t0 <= t
  {
    LocalsBlockGrow(b, t0);
    SettlesOn(t0, LocalsBlock(b, t0), t);
  }

  lemma TailSettles(l: Tail, t0: seq<Text>, t: seq<Text>)
    requires Settles(LocalsTail(l, t0), t)
    ensures Settles(t0, t) && t0 <= t
  {
    LocalsTailGrow(l, t0);
    SettlesOn(t0, LocalsTail(l, t0), t);
  }

  /** The slot of a local: the first entry of the table with its name. */
  function SlotOf(t: seq<Text>, x: Text): (i: nat)
    requires x in t
    ensures i < |t| && t[i] == x && x !in t[..i]
  {
    if t[0] == x then 0
    else
      var i := 1 + SlotOf(t[1..], x);
      assert t[..i] == [t[0]] + t[1..][..i - 1];
      i
  }

  /** Growing the table does not move a slot. */
  lemma {:induction false} SlotOfExtends(t: seq<Text>, t': seq<Text>, x: Text)
    requires x in t && t <= t'
    ensures x in t' && SlotOf(t, x) == SlotOf(t', x)
  {
    assert t'[0] == t[0];
    if t[0] != x {
      SlotOfExtends(t[1..], t'[1..], x);
    }
  }
}
