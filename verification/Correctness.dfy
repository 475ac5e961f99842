/** The compiler is correct: bytecode run by the interpreter does what the source program means. */
module Correctness {
  import opened Bytes
  import opened Sequences
  import opened Values
  import opened Paths
  import opened Syntax
  import opened Source
  import opened CodeGen
  import opened Interpreter
  import opened Execution

  // ----- how a source state is laid out in the machine -----

  function CompileContent(c: Content<Program>): Content<Code> {
    match c case Val(v) => Val(v) case Code(p) => Code(GenProgram(p))
  }

  /** The itemstore with every program replaced by its bytecode. */
  function CompileStore(s: Store<Program>): Store<Code> {
    map p | p in s :: CompileContent(s[p])
  }

  ghost predicate Compiled(s: Store<Program>) {
    forall p <- s :: s[p].Code? ==> Compiles(s[p].c)
  }

  ghost predicate Covers(env: Env, t: seq<Text>) {
    forall i :: 0 <= i < |t| ==> t[i] in env
  }

  /** The slots of a frame: the locals in table order. */
  function Slots(t: seq<Text>, env: Env): (r: seq<Value>)
    requires Covers(env, t)
  {
    seq(|t|, i requires 0 <= i < |t| => env[t[i]])
  }

  /** The locals of env sit at the base of m's frame, within reach of a byte. */
  ghost predicate HoldsFrame(m: Machine, t: seq<Text>, env: Env) {
    Covers(env, t) && |t| < 256 && m.base + |t| <= |m.stack| && m.base + |t| <= SLOT_LIMIT
    && m.stack[m.base..m.base + |t|] == Slots(t, env)
  }

  ghost predicate HoldsWorld(m: Machine, w: World) {
    m.store == CompileStore(w.store) && m.tick == w.tick && Compiled(w.store)
  }

  /** m with vs pushed, in the world w. */
  function Pushed(m: Machine, vs: seq<Value>, w: World): Machine {
    m.(stack := m.stack + vs, store := CompileStore(w.store), tick := w.tick)
  }

  lemma PushedHolds(m: Machine, t: seq<Text>, env: Env, vs: seq<Value>, w: World)
    requires HoldsFrame(m, t, env) && Compiled(w.store)
    ensures HoldsFrame(Pushed(m, vs, w), t, env) && HoldsWorld(Pushed(m, vs, w), w)
  {
    assert (m.stack + vs)[m.base..m.base + |t|] == m.stack[m.base..m.base + |t|];
  }

  lemma SlotHolds(m: Machine, t: seq<Text>, env: Env, x: Text)
    requires HoldsFrame(m, t, env) && x in t
    ensures Slot(m, SlotByte(t, x)) == m.base + SlotOf(t, x)
    ensures x in env && m.base + SlotOf(t, x) < |m.stack| && m.stack[m.base + SlotOf(t, x)] == env[x]
    ensures SlotByte(t, x) == SlotOf(t, x)
  {
    var i := SlotOf(t, x);
    assert m.stack[m.base..m.base + |t|][i] == Slots(t, env)[i];
  }

  // ----- names -----

  lemma ReadLayerSim(l: Layer, env: Env, t: seq<Text>, code: Code, pc: nat, m: Machine)
    requires HoldsFrame(m, t, env)
    requires LexicalLayer(l)
    requires l.LocalRef? ==> l.local in t
    requires CodeAt(code, pc, GenLayer(l, t)) && pc + 2 < |code|
    requires LayerText(l, env).Ok?
    ensures ReadLayer(code, pc, m) == GoodLayer(pc + |GenLayer(l, t)|, LayerText(l, env).val)
    ensures SolidLayer(LayerText(l, env).val)
  {
    hide CodeAt, HoldsFrame, SlotByte, Decimal, Truncate32;
    var g := GenLayer(l, t);
    CodeAtByte(code, pc, g, 0);
    CodeAtByte(code, pc, g, 1);
    match l
    case Name(s) =>
      CodeAtSplit(code, pc, [LAYER, |s| % 256], s);
      CodeAtSlice(code, pc + 2, s);
    case LocalRef(x) =>
      CodeAtByte(code, pc, g, 2);
      SlotHolds(m, t, env, x);
      if env[x].Int? {
        DecimalInjective(Truncate32(env[x].i), 0);
      }
  }

  /** A name under construction followed by the layers still to come. */
  function After(name: Text, p: Path): Text {
    if name == [] then Join(p) else name + Join(p)
  }

  lemma LayerNotEnd(i: Item, t: seq<Text>, code: Code, pc: nat)
    requires i != [] && CodeAt(code, pc, GenLayers(i, t))
    ensures CodeAt(code, pc, GenLayer(i[0], t)) && CodeAt(code, pc + |GenLayer(i[0], t)|, GenLayers(i[1..], t))
    ensures |GenLayers(i, t)| == |GenLayer(i[0], t)| + |GenLayers(i[1..], t)| && |GenLayer(i[0], t)| >= 2
    ensures code[pc] != END_ITEM
  {
    hide *;
    GenLayersStep(i, t);
    CodeAtSplit(code, pc, GenLayer(i[0], t), GenLayers(i[1..], t));
    CodeAtFirst(code, pc, GenLayer(i[0], t));
  }

  lemma GenLayersStep(i: Item, t: seq<Text>)
    requires i != []
    ensures GenLayers(i, t) == GenLayer(i[0], t) + GenLayers(i[1..], t)
    ensures |GenLayer(i[0], t)| >= 2 && GenLayer(i[0], t)[0] != END_ITEM
  {
  }

  /** Reading back an emitted item reference yields the dotted name and stops just past its end. */
  lemma {:induction false} ReadNameSim(i: Item, env: Env, t: seq<Text>, code: Code, pc: nat, name: Text, m: Machine)
    requires HoldsFrame(m, t, env)
    requires LexicalItem(i) && DefinedItem(i, t)
    requires CodeAt(code, pc, GenLayers(i, t))
    requires pc + |GenLayers(i, t)| < |code| && code[pc + |GenLayers(i, t)|] == END_ITEM
    requires Resolve(i, env).Ok?
    ensures Resolve(i, env).val != [] && SolidPath(Resolve(i, env).val)
    ensures ReadName(code, pc, name, m) ==
            Named(pc + |GenLayers(i, t)| + 1, After(name, Resolve(i, env).val))
    decreases |i|
  {
    hide *;
    NotEmpty(i);
    var next, rest := pc + |GenLayer(i[0], t)|, i[1..];
    LayerNotEnd(i, t, code, pc);
    ItemParts(i, t);
    ResolveParts(i, env);
    var text := LayerText(i[0], env).val;
    ReadLayerSim(i[0], env, t, code, pc, m);
    ReadNameStep(code, pc, name, m, next, text);
    var p := Resolve(rest, env).val;
    if rest != [] {
      LayerNotEnd(rest, t, code, next);
      ReadNameSim(rest, env, t, code, next, name + text + [DOT], m);
      AfterCons(name, text, p);
    } else {
      NoLayers(t);
      ResolveNothing(env);
      AfterLast(name, text);
    }
    SolidCons(text, p);
  }

  lemma NotEmpty(i: Item)
    requires LexicalItem(i)
    ensures i != []
  {
  }

  lemma ItemParts(i: Item, t: seq<Text>)
    requires LexicalItem(i) && DefinedItem(i, t)
    ensures LexicalLayer(i[0]) && (i[0].LocalRef? ==> i[0].local in t)
    ensures i[1..] != [] ==> LexicalItem(i[1..]) && DefinedItem(i[1..], t)
  {
    hide LexicalLayer;
    assert i[0] in i && forall l <- i[1..] :: l in i;
  }

  lemma ResolveParts(i: Item, env: Env)
    requires i != [] && Resolve(i, env).Ok?
    ensures LayerText(i[0], env).Ok? && Resolve(i[1..], env).Ok?
    ensures Resolve(i, env).val == [LayerText(i[0], env).val] + Resolve(i[1..], env).val
  {
    hide LayerText;
  }

  lemma ResolveNothing(env: Env)
    ensures Resolve([], env) == Ok([])
  {
  }

  lemma ReadNameStep(code: Code, pc: nat, name: Text, m: Machine, next: int, text: Text)
    requires pc < |code| && code[pc] != END_ITEM && ReadLayer(code, pc, m) == GoodLayer(next, text) && next < |code|
    ensures next > pc
    ensures ReadName(code, pc, name, m) ==
      if code[next] == END_ITEM then Named(next + 1, name + text) else ReadName(code, next, name + text + [DOT], m)
  {
    hide ReadLayer;
  }

  lemma SolidCons(l: Text, p: Path)
    requires SolidLayer(l) && SolidPath(p)
    ensures SolidPath([l] + p)
  {
    hide SolidLayer;
  }

  lemma AfterLast(name: Text, l: Text)
    ensures After(name, [l] + []) == name + l && SolidPath([])
  {
    assert [l] + [] == [l] && [] + l == l;
  }

  lemma AfterCons(name: Text, l: Text, p: Path)
    requires p != []
    ensures After(name + l + [DOT], p) == After(name, [l] + p)
  {
    hide Join;
    JoinCons(l, p);
    if name == [] {
      assert name + l == l;
    } else {
      Regroup(name, l, [DOT]);
      Regroup(name, l + [DOT], Join(p));
    }
  }

  lemma GenItemAt(i: Item, t: seq<Text>, code: Code, pc: nat)
    requires CodeAt(code, pc, GenItem(i, t))
    ensures code[pc] == ITEM && CodeAt(code, pc + 1, GenLayers(i, t))
    ensures |GenItem(i, t)| == |GenLayers(i, t)| + 2 && pc + 1 + |GenLayers(i, t)| < |code|
    ensures code[pc + 1 + |GenLayers(i, t)|] == END_ITEM
  {
    var g, n := GenItem(i, t), |GenLayers(i, t)|;
    assert code[pc] == g[0] && code[pc + (n + 1)] == g[n + 1];
    forall k | 0 <= k < n
      ensures code[pc + 1 + k] == GenLayers(i, t)[k]
    {
      assert code[pc + (k + 1)] == g[k + 1];
    }
  }

  lemma StepItemSim(i: Item, env: Env, t: seq<Text>, code: Code, pc: nat, m: Machine, p: Path)
    requires HoldsFrame(m, t, env) && LexicalItem(i) && DefinedItem(i, t)
    requires CodeAt(code, pc, GenItem(i, t))
    requires Resolve(i, env) == Ok(p)
    ensures p != [] && SolidPath(p) && code[pc] == ITEM
    ensures ReadName(code, pc + 1, [], m) == Named(pc + |GenItem(i, t)|, Join(p))
  {
    hide LayerText, CodeAt, HoldsFrame, Resolve, DefinedItem, LexicalItem, ReadName;
    GenItemAt(i, t, code, pc);
    ReadNameSim(i, env, t, code, pc + 1, [], m);
  }

  lemma PushNameStep(u: Unspecified, code: Code, pc: nat, m: Machine, next: nat, name: Text)
    requires pc < |code| && code[pc] == ITEM && |m.stack| < STACK_SIZE
    requires ReadName(code, pc + 1, [], m) == Named(next, name)
    ensures Leads(u, code, Point(pc, m), Point(next, m.(stack := m.stack + [Str(name)])))
  {
    hide ReadName, Leads, Run, Step, InsertNamed, Apply, StepBinary;
    assert BinOpOf(ITEM) == [];
    assert StepItem(code, pc, m) == Ok((next as int, m.(stack := m.stack + [Str(name)])));
    PlainStep(u, code, Point(pc, m), Point(next, m.(stack := m.stack + [Str(name)])));
  }

  /** An item reference pushes the name of the item it denotes. */
  lemma ItemSim(u: Unspecified, i: Item, env: Env, t: seq<Text>, code: Code, pc: nat, m: Machine) returns (name: Text)
    requires HoldsFrame(m, t, env) && LexicalItem(i) && DefinedItem(i, t)
    requires CodeAt(code, pc, GenItem(i, t))
    requires Resolve(i, env).Ok? && |m.stack| < STACK_SIZE
    ensures Resolve(i, env).val != [] && Split(name) == Resolve(i, env).val && !EndsInDot(name)
    ensures Leads(u, code, Point(pc, m), Point(pc + |GenItem(i, t)|, m.(stack := m.stack + [Str(name)])))
  {
    hide Run, Step, Leads, HoldsFrame, Resolve, ReadName, LexicalItem, DefinedItem;
    var p := Resolve(i, env).val;
    StepItemSim(i, env, t, code, pc, m, p);
    name := Join(p);
    SplitJoin(p);
    JoinSplit(name);
    PushNameStep(u, code, pc, m, pc + |GenItem(i, t)|, name);
  }

  // ----- expressions -----

  /** What the bytecode of an expression, or of an argument list, does between pc and end. */
  ghost predicate Agrees(u: Unspecified, code: Code, pc: int, m: Machine, end: int,
                         r: Outcome<(seq<Value>, World)>, fuel: nat)
  {
    match r
    case Ok((vs, w)) => Compiled(w.store) && Leads(u, code, Point(pc, m), Point(end, Pushed(m, vs, w)))
    case Timeout => Run(u, code, pc, m, fuel) == Timeout
    case Excluded => true
  }

  function One(r: Outcome<(Value, World)>): Outcome<(seq<Value>, World)> {
    match r
    case Ok((v, w)) => Ok(([v], w))
    case Timeout => Timeout
    case Excluded => Excluded
  }

  lemma PushedTwice(m: Machine, vs: seq<Value>, w: World, vs': seq<Value>, w': World)
    ensures Pushed(Pushed(m, vs, w), vs', w') == Pushed(m, vs + vs', w')
  {
    assert m.stack + vs + vs' == m.stack + (vs + vs');
  }

  lemma GetLocalSim(u: Unspecified, env: Env, x: Text, w: World, t: seq<Text>, code: Code, pc: nat, m: Machine)
    requires HoldsFrame(m, t, env) && HoldsWorld(m, w)
    requires x in t && CodeAt(code, pc, GenExpr(Local(x), t)) && |m.stack| < STACK_SIZE
    ensures x in env && Leads(u, code, Point(pc, m), Point(pc + 2, Pushed(m, [env[x]], w)))
  {
    var g := GenExpr(Local(x), t);
    assert code[pc] == g[0] && code[pc + 1] == g[1];
    SlotHolds(m, t, env, x);
    LocalStep(u, code, Point(pc, m), Point(pc + 2, Pushed(m, [env[x]], w)));
  }

  lemma LiteralSim(u: Unspecified, e: Expr, w: World, t: seq<Text>, code: Code, pc: nat, m: Machine, v: Value)
    requires HoldsWorld(m, w)
    requires LexicalExpr(e) && CodeAt(code, pc, GenExpr(e, t)) && |m.stack| < STACK_SIZE
    requires (e.IntLit? && v == Int(e.n)) || (e.StrLit? && v == Str(e.s))
    ensures Leads(u, code, Point(pc, m), Point(pc + |GenExpr(e, t)|, Pushed(m, [v], w)))
  {
    if e.IntLit? {
      IntSim(u, e.n, w, t, code, pc, m);
    } else {
      StrSim(u, e.s, w, t, code, pc, m);
    }
  }

  lemma IntSim(u: Unspecified, n: int, w: World, t: seq<Text>, code: Code, pc: nat, m: Machine)
    requires HoldsWorld(m, w) && 0 <= n < 0x8000_0000
    requires CodeAt(code, pc, GenExpr(IntLit(n), t)) && |m.stack| < STACK_SIZE
    ensures Leads(u, code, Point(pc, m), Point(pc + |GenExpr(IntLit(n), t)|, Pushed(m, [Int(n)], w)))
  {
    hide Run, Step, Leads, CodeAt, Compiled, CompileStore, Int64, Signed64;
    var head: Code := [PUSH_INT];
    CodeAtSplit(code, pc, head, Int64(n));
    CodeAtFirst(code, pc, head);
    CodeAtSlice(code, pc + 1, Int64(n));
    CodeAtBound(code, pc + 1, Int64(n));
    Signed64OfInt64(n);
    assert StepPushInt(code, pc, m) == Ok((pc + 9, Pushed(m, [Int(n)], w)));
    PlainStep(u, code, Point(pc, m), Point(pc + 9, Pushed(m, [Int(n)], w)));
  }

  lemma StrSim(u: Unspecified, s: Text, w: World, t: seq<Text>, code: Code, pc: nat, m: Machine)
    requires HoldsWorld(m, w) && 0 !in s && |s| < 0x1_0000
    requires CodeAt(code, pc, GenExpr(StrLit(s), t)) && |m.stack| < STACK_SIZE
    ensures Leads(u, code, Point(pc, m), Point(pc + |GenExpr(StrLit(s), t)|, Pushed(m, [Str(s)], w)))
  {
    hide Run, Step, Leads, CodeAt, Compiled, CompileStore, Int16, Decode;
    var head: Code := [PUSH_STR];
    CodeAtSplit3(code, pc, head, Int16(|s|), s);
    CodeAtFirst(code, pc, head);
    CodeAtSlice(code, pc + 1, Int16(|s|));
    CodeAtSlice(code, pc + 3, s);
    CodeAtBound(code, pc + 3, s);
    Unsigned16OfInt16(|s|);
    assert CString(s) == s;
    assert StepPushStr(code, pc, m) == Ok((pc + 3 + |s|, Pushed(m, [Str(s)], w)));
    PlainStep(u, code, Point(pc, m), Point(pc + 3 + |s|, Pushed(m, [Str(s)], w)));
  }

  lemma BinOpOfOpByte(op: BinOp)
    ensures BinOpOf(OpByte(op)) == [op]
    ensures OpByte(op) != HALT && OpByte(op) != FETCH
  {
  }

  lemma BinarySim(u: Unspecified, op: BinOp, v2: Value, v1: Value, w: World, code: Code, pc: nat, m: Machine)
    requires Compiled(w.store) && pc < |code| && code[pc] == OpByte(op)
    ensures Leads(u, code, Point(pc, Pushed(m, [v2, v1], w)),
                  Point(pc + 1, Pushed(m, [Apply(op, v2, v1, u.address(w.tick))], w.(tick := w.tick + 1))))
  {
    BinOpOfOpByte(op);
    var a := Pushed(m, [v2, v1], w);
    assert Drop(a, 2).stack == m.stack;
    PlainStep(u, code, Point(pc, a),
              Point(pc + 1, Pushed(m, [Apply(op, v2, v1, u.address(w.tick))], w.(tick := w.tick + 1))));
  }

  lemma UnarySim(u: Unspecified, op: byte, v: Value, v': Value, w: World, code: Code, pc: nat, m: Machine)
    requires Compiled(w.store) && pc < |code| && code[pc] == op
    requires (op == NOT && v' == LogicalNot(v)) || (op == NEGATE && v' == Negate(v))
             || (op == EXISTS && v.Str? && v' == Truth(Split(v.s) in w.store))
    ensures Leads(u, code, Point(pc, Pushed(m, [v], w)), Point(pc + 1, Pushed(m, [v'], w)))
  {
    var a := Pushed(m, [v], w);
    assert Drop(a, 1).stack == m.stack;
    assert StepPlain(u, code, pc, a) == Ok((pc + 1, Pushed(m, [v'], w)));
    PlainStep(u, code, Point(pc, a), Point(pc + 1, Pushed(m, [v'], w)));
  }

  // ----- calls: everything except running the callee's body -----

  /** The machine just before the callee's frame is set up: its arguments are the new frame. */
  function Calling(m: Machine, next: nat, args: seq<Value>): Machine {
    m.(stack := m.stack + args, base := |m.stack|,
       calls := m.calls + [CallRecord(next, |m.stack|, m.base, m.locals, m.params)])
  }

  lemma {:induction false} AdjustArgsSim(m: Machine, vs: seq<Value>, k: nat)
    requires |m.stack| + k <= STACK_SIZE
    ensures AdjustArgs(m.(stack := m.stack + vs), |vs|, k) == Ok(m.(stack := m.stack + FitArgs(vs, k)))
    decreases if |vs| > k then |vs| - k else k - |vs|
  {
    if |vs| > k {
      assert (m.stack + vs)[..|m.stack + vs| - 1] == m.stack + vs[..|vs| - 1];
      AdjustArgsSim(m, vs[..|vs| - 1], k);
      assert FitArgs(vs[..|vs| - 1], k) == FitArgs(vs, k);
    } else if |vs| < k {
      assert m.stack + vs + [NIL] == m.stack + (vs + [NIL]);
      AdjustArgsSim(m, vs + [NIL], k);
      assert FitArgs(vs + [NIL], k) == FitArgs(vs, k);
    } else {
      assert FitArgs(vs, k) == vs;
    }
  }

  lemma {:induction false} SlotsOfBind(t: seq<Text>, vs: seq<Value>)
    requires |t| == |vs| && Distinct(t)
    ensures Covers(Bind(t, vs), t) && Slots(t, Bind(t, vs)) == vs
  {
    if t != [] {
      SlotsOfBind(t[..|t| - 1], vs[..|t| - 1]);
      forall i | 0 <= i < |t|
        ensures t[i] in Bind(t, vs) && Bind(t, vs)[t[i]] == vs[i]
      {
        if i < |t| - 1 {
          assert t[..|t| - 1][i] == t[i];
          assert Slots(t[..|t| - 1], Bind(t[..|t| - 1], vs[..|t| - 1]))[i] == vs[i];
        }
      }
    }
  }

  /** For every fuel that is enough, the callee's result is v and the machine m'. */
  ghost predicate Returns(u: Unspecified, callee: Code, m: Machine, v: Value, m': Machine) {
    && (forall g: nat :: Interpret(u, callee, m, g) == Timeout || Interpret(u, callee, m, g) == Ok((v, m')))
    && (exists f: nat :: Interpret(u, callee, m, f) == Ok((v, m')))
  }

  /** The end of op_fetchitem: restore the caller and push the callee's result. */
  function AfterCall(r: Outcome<(Value, Machine)>): Outcome<(int, Machine)> {
    match r
    case Timeout => Timeout
    case Excluded => Excluded
    case Ok((v, m)) =>
      if m.calls == [] then Excluded
      else
        match Push(PopCall(m), v)
        case Ok(m') => Ok((m.calls[|m.calls| - 1].next, m'))
        case Timeout => Timeout
        case Excluded => Excluded
  }

  /** Up to the callee's frame, the call instruction does the same whatever the fuel. */
  lemma FetchEntersCallee(u: Unspecified, code: Code, pc: nat, m: Machine, vs: seq<Value>, name: Text, callee: Code,
                          g: nat)
    requires |vs| < 0x1_0000 && CodeAt(code, pc, [FETCH] + Int16(|vs|))
    requires Split(name) in m.store && m.store[Split(name)] == Code(callee)
    requires |callee| >= 2 && |m.stack| + callee[1] <= STACK_SIZE && |m.calls| < CALLSTACK_SIZE
    ensures code[pc] == FETCH
    ensures Step(u, code, pc, m.(stack := m.stack + vs + [Str(name)]), g)
         == AfterCall(Interpret(u, callee, Calling(m, pc + 3, FitArgs(vs, callee[1])), g))
  {
    FetchField(code, pc, |vs|);
    var a := m.(stack := m.stack + vs + [Str(name)]);
    assert Drop(a, 1) == m.(stack := m.stack + vs);
    AdjustArgsSim(m, vs, callee[1]);
    assert PushCall(m.(stack := m.stack + FitArgs(vs, callee[1])), pc + 3, callee[1])
        == Ok(Calling(m, pc + 3, FitArgs(vs, callee[1])));
  }

  lemma FetchField(code: Code, pc: int, n: nat)
    requires n < 0x1_0000 && CodeAt(code, pc, [FETCH] + Int16(n))
    ensures code[pc] == FETCH && pc + 3 <= |code| && Decode(code[pc + 1..pc + 3]) == n
  {
    var head: Code := [FETCH];
    CodeAtSplit(code, pc, head, Int16(n));
    assert code[pc + 0] == head[0];
    CodeAtSlice(code, pc + 1, Int16(n));
    Unsigned16OfInt16(n);
  }

  /** What the call instruction does once the callee is known to return. */
  lemma FetchCodeSim(u: Unspecified, code: Code, pc: nat, m: Machine, vs: seq<Value>, name: Text, callee: Code,
                     v: Value, m4: Machine)
    requires |vs| < 0x1_0000 && CodeAt(code, pc, [FETCH] + Int16(|vs|))
    requires Split(name) in m.store && m.store[Split(name)] == Code(callee)
    requires |callee| >= 2 && |m.stack| + callee[1] <= STACK_SIZE && |m.calls| < CALLSTACK_SIZE
    requires Returns(u, callee, Calling(m, pc + 3, FitArgs(vs, callee[1])), v, m4)
    requires m4.calls == Calling(m, pc + 3, FitArgs(vs, callee[1])).calls && Push(PopCall(m4), v).Ok?
    ensures Leads(u, code, Point(pc, m.(stack := m.stack + vs + [Str(name)])), Point(pc + 3, Push(PopCall(m4), v).val))
  {
    var m3 := Calling(m, pc + 3, FitArgs(vs, callee[1]));
    var a, b := Point(pc, m.(stack := m.stack + vs + [Str(name)])), Point(pc + 3, Push(PopCall(m4), v).val);
    FetchField(code, pc, |vs|);
    forall g: nat
      ensures Step(u, code, pc, a.m, g) == AfterCall(Interpret(u, callee, m3, g))
    {
      FetchEntersCallee(u, code, pc, m, vs, name, callee, g);
    }
    assert AfterCall(Ok((v, m4))) == Ok((b.pc, b.m));
    var f: nat :| Interpret(u, callee, m3, f) == Ok((v, m4));
    assert Step(u, code, pc, a.m, f) == Ok((b.pc, b.m));
    StepLeads(u, code, a, b);
  }

  // ----- statements -----

  /** The part of a frame's machine that its statements cannot change. */
  datatype Fixed = Fixed(below: seq<Value>, table: seq<Text>, params: nat, calls: seq<CallRecord>)

  function FrameOf(c: Fixed): Frame { Frame(|c.below|, c.table, |c.calls|) }

  /** The machine that holds a source state. */
  function Layout(c: Fixed, st: State): Machine
    requires Covers(st.env, c.table)
  {
    Machine(c.below + Slots(c.table, st.env) + st.ops, |c.below|, |c.table|, c.params, c.calls,
            CompileStore(st.world.store), st.world.tick)
  }

  ghost predicate Fits(c: Fixed, st: State) {
    Covers(st.env, c.table) && Distinct(c.table) && |c.table| < 256 && |c.below| + |c.table| <= SLOT_LIMIT
    && Compiled(st.world.store)
  }

  lemma FitsCovers(c: Fixed, st: State)
    requires Fits(c, st)
    ensures Covers(st.env, c.table) && Distinct(c.table) && |c.table| < 256
  {
  }

  lemma LayoutHolds(c: Fixed, st: State)
    requires Fits(c, st)
    ensures HoldsFrame(Layout(c, st), c.table, st.env) && HoldsWorld(Layout(c, st), st.world)
    ensures |Layout(c, st).stack| == Height(FrameOf(c), st)
  {
    var m := Layout(c, st);
    assert m.stack[m.base..m.base + |c.table|] == Slots(c.table, st.env);
  }

  lemma LayoutOps(c: Fixed, st: State, v: Value, w: World)
    requires Fits(c, st)
    ensures Pushed(Layout(c, st), [v], w) == Layout(c, st.(ops := st.ops + [v], world := w))
    ensures Drop(Pushed(Layout(c, st), [v], w), 1) == Layout(c, st.(world := w))
  {
    var s := c.below + Slots(c.table, st.env);
    assert s + st.ops + [v] == s + (st.ops + [v]);
    assert (s + st.ops + [v])[..|s + st.ops|] == s + st.ops;
  }

  /** Writing a local's slot is updating the environment. */
  lemma LayoutAssign(c: Fixed, st: State, x: Text, v: Value)
    requires Fits(c, st) && x in c.table
    ensures Fits(c, st.(env := st.env[x := v]))
    ensures var slot := |c.below| + SlotOf(c.table, x);
      slot < |Layout(c, st).stack|
      && Layout(c, st.(env := st.env[x := v])).stack == Layout(c, st).stack[slot := v]
  {
    var i := SlotOf(c.table, x);
    var env' := st.env[x := v];
    assert Slots(c.table, env') == Slots(c.table, st.env)[i := v] by {
      forall j | 0 <= j < |c.table|
        ensures env'[c.table[j]] == Slots(c.table, st.env)[i := v][j]
      {
      }
    }
    assert c.below + Slots(c.table, st.env)[i := v] + st.ops == Layout(c, st).stack[|c.below| + i := v];
  }

  /** What the bytecode of a statement does between pc and end; a return stops at the halt at stop. */
  ghost predicate Performs(u: Unspecified, c: Fixed, code: Code, pc: int, m: Machine, end: int, stop: int,
                           r: Outcome<(Flow, State)>, fuel: nat)
  {
    match r
    case Ok((flow, st)) =>
      && Fits(c, st)
      && (if flow.Normal? then Leads(u, code, Point(pc, m), Point(end, Layout(c, st)))
          else 0 <= stop < |code| && code[stop] == HALT && Leads(u, code, Point(pc, m), Point(stop, Layout(c, st))))
    case Timeout => Run(u, code, pc, m, fuel) == Timeout
    case Excluded => true
  }

  /** Going first from pc to mid, then on as the rest of the statement does. */
  lemma PerformsAfter(u: Unspecified, c: Fixed, code: Code, a: Point, b: Point, end: int, stop: int,
                      r: Outcome<(Flow, State)>, fuel: nat)
    requires Leads(u, code, a, b) && Performs(u, c, code, b.pc, b.m, end, stop, r, fuel)
    ensures Performs(u, c, code, a.pc, a.m, end, stop, r, fuel)
  {
    if r.Ok? {
      var (flow, st) := r.val;
      LeadsTransitive(u, code, a, b, Point(if flow.Normal? then end else stop, Layout(c, st)));
    }
  }

  lemma JumpSim(u: Unspecified, code: Code, pc: int, m: Machine, offset: int)
    requires CodeAt(code, pc, JumpTo(JUMP, offset)) && -0x8000 <= offset < 0x8000
    ensures StepsTo(u, code, Point(pc, m), Point(pc + 1 + offset, m))
    ensures Leads(u, code, Point(pc, m), Point(pc + 1 + offset, m))
  {
    JumpField(code, pc, JUMP, offset);
    assert StepPlain(u, code, pc, m) == Ok((pc + 1 + offset, m));
    PlainStep(u, code, Point(pc, m), Point(pc + 1 + offset, m));
  }

  lemma JumpField(code: Code, pc: int, op: byte, offset: int)
    requires CodeAt(code, pc, JumpTo(op, offset)) && -0x8000 <= offset < 0x8000
    ensures code[pc] == op && pc + 3 <= |code| && Signed16(code[pc + 1..pc + 3]) == offset
  {
    var head: Code := [op];
    CodeAtSplit(code, pc, head, Int16(offset));
    assert code[pc + 0] == head[0];
    CodeAtSlice(code, pc + 1, Int16(offset));
    Signed16OfInt16(offset);
  }

  /** A condition's jump consumes the value and picks a branch. */
  lemma BranchSim(u: Unspecified, c: Fixed, st: State, code: Code, pc: int, v: Value, offset: int)
    requires Fits(c, st)
    requires CodeAt(code, pc, JumpTo(JUMP_FALSE, offset)) && -0x8000 <= offset < 0x8000
    ensures Leads(u, code, Point(pc, Layout(c, st.(ops := st.ops + [v]))),
                  Point(if IsTrue(v) then pc + 3 else pc + 1 + offset, Layout(c, st)))
  {
    JumpField(code, pc, JUMP_FALSE, offset);
    var m := Layout(c, st.(ops := st.ops + [v]));
    LayoutOps(c, st, v, st.world);
    var target := if IsTrue(v) then pc + 3 else pc + 1 + offset;
    assert StepPlain(u, code, pc, m) == Ok((target, Layout(c, st)));
    PlainStep(u, code, Point(pc, m), Point(target, Layout(c, st)));
  }

  lemma SaveLocalSim(u: Unspecified, c: Fixed, st: State, code: Code, pc: int, x: Text, v: Value)
    requires Fits(c, st) && x in c.table && CodeAt(code, pc, [SAVE_LOCAL, SlotByte(c.table, x)])
    ensures Fits(c, st.(env := st.env[x := v]))
    ensures Leads(u, code, Point(pc, Layout(c, st.(ops := st.ops + [v]))),
                  Point(pc + 2, Layout(c, st.(env := st.env[x := v]))))
  {
    var op: Code := [SAVE_LOCAL, SlotByte(c.table, x)];
    assert code[pc + 0] == op[0] && code[pc + 1] == op[1];
    SaveLocalStep(c, st, pc, x, v);
    LocalStep(u, code, Point(pc, Layout(c, st.(ops := st.ops + [v]))),
              Point(pc + 2, Layout(c, st.(env := st.env[x := v]))));
  }

  lemma SaveLocalStep(c: Fixed, st: State, pc: int, x: Text, v: Value)
    requires Fits(c, st) && x in c.table && 0 <= pc
    ensures Fits(c, st.(env := st.env[x := v]))
    ensures StepSaveLocal(SlotByte(c.table, x), pc, Layout(c, st.(ops := st.ops + [v])))
         == Ok((pc + 2, Layout(c, st.(env := st.env[x := v]))))
  {
    hide Layout, Fits, HoldsFrame, HoldsWorld;
    FitsCovers(c, st);
    var m := Layout(c, st.(ops := st.ops + [v]));
    LayoutTop(c, st, v);
    LayoutHolds(c, st.(ops := st.ops + [v]));
    LayoutAssign(c, st, x, v);
    SlotHolds(m, c.table, st.env, x);
    UpdateThenTake(m.stack, |c.below| + SlotOf(c.table, x), v);
    LayoutRest(c, st, x, v);
  }

  lemma LayoutTop(c: Fixed, st: State, v: Value)
    requires Fits(c, st)
    ensures var st1 := st.(ops := st.ops + [v]);
      Fits(c, st1) && Layout(c, st1) == Layout(c, st).(stack := Layout(c, st).stack + [v])
      && Layout(c, st).base == |c.below|
  {
    Regroup(c.below + Slots(c.table, st.env), st.ops, [v]);
  }

  lemma LayoutRest(c: Fixed, st: State, x: Text, v: Value)
    requires Fits(c, st) && x in c.table && Fits(c, st.(env := st.env[x := v]))
    ensures var m := Layout(c, st.(env := st.env[x := v])); m == Layout(c, st).(stack := m.stack)
  {
  }

  lemma UpdateThenTake(s: seq<Value>, i: nat, v: Value)
    requires i < |s| - 1
    ensures s[i := v][..|s| - 1] == s[..|s| - 1][i := v]
  {
  }

  /** The two-byte instructions on locals. */
  lemma LocalStep(u: Unspecified, code: Code, a: Point, b: Point)
    requires 0 <= a.pc && a.pc + 1 < |code|
    requires (code[a.pc] == GET_LOCAL && StepGetLocal(code[a.pc + 1], a.pc, a.m) == Ok((b.pc, b.m)))
             || (code[a.pc] == SAVE_LOCAL && StepSaveLocal(code[a.pc + 1], a.pc, a.m) == Ok((b.pc, b.m)))
             || (code[a.pc] == INC_LOCAL && StepAddToLocal(code[a.pc + 1], 1, a.pc, a.m) == Ok((b.pc, b.m)))
             || (code[a.pc] == DEC_LOCAL && StepAddToLocal(code[a.pc + 1], -1, a.pc, a.m) == Ok((b.pc, b.m)))
    ensures Leads(u, code, a, b)
  {
    assert StepPlain(u, code, a.pc, a.m) == Ok((b.pc, b.m));
    PlainStep(u, code, a, b);
  }

  lemma AddToLocalSim(u: Unspecified, c: Fixed, st: State, code: Code, pc: int, op: byte, x: Text)
    requires Fits(c, st) && x in c.table && CodeAt(code, pc, [op, SlotByte(c.table, x)])
    requires op == INC_LOCAL || op == DEC_LOCAL
    ensures x in st.env
    ensures var st' := st.(env := st.env[x := Increment(st.env[x], if op == INC_LOCAL then 1 else -1)]);
      Fits(c, st') && Leads(u, code, Point(pc, Layout(c, st)), Point(pc + 2, Layout(c, st')))
  {
    hide Run, Step, Leads, Compiled, CompileStore;
    var bytes: Code := [op, SlotByte(c.table, x)];
    assert code[pc + 0] == bytes[0] && code[pc + 1] == bytes[1];
    LayoutHolds(c, st);
    SlotHolds(Layout(c, st), c.table, st.env, x);
    var v := Increment(st.env[x], if op == INC_LOCAL then 1 else -1);
    LayoutAssign(c, st, x, v);
    LocalStep(u, code, Point(pc, Layout(c, st)), Point(pc + 2, Layout(c, st.(env := st.env[x := v]))));
  }

  lemma CompileInsert(s: Store<Program>, p: Path, v: Value)
    requires Compiled(s) && p != [] && (p in s ==> s[p].Val?)
    ensures Compiled(Insert(s, p, Val(v)))
    ensures CompileStore(Insert(s, p, Val(v))) == Insert(CompileStore(s), p, Val(v))
  {
    var a, b := CompileStore(Insert(s, p, Val(v))), Insert(CompileStore(s), p, Val(v));
    forall q
      ensures q in a <==> q in b
      ensures q in a ==> a[q] == b[q] && (Insert(s, p, Val(v))[q].Code? ==> q in s && s[q] == Insert(s, p, Val(v))[q])
    {
      InsertAt(s, p, Val(v), q);
      InsertAt(CompileStore(s), p, Val(v), q);
    }
  }

  lemma AssignItemSim(u: Unspecified, m: Machine, name: Text, v: Value, w: World, code: Code, pc: int)
    requires Compiled(w.store) && Split(name) != [] && !EndsInDot(name)
    requires Split(name) in w.store ==> w.store[Split(name)].Val?
    requires 0 <= pc < |code| && code[pc] == ASSIGN_ITEM
    ensures var w' := w.(store := Insert(w.store, Split(name), Val(v)));
      Compiled(w'.store) && Leads(u, code, Point(pc, Pushed(m, [Str(name), v], w)), Point(pc + 1, Pushed(m, [], w')))
  {
    CompileInsert(w.store, Split(name), v);
    var a := Pushed(m, [Str(name), v], w);
    var b := Pushed(m, [], w.(store := Insert(w.store, Split(name), Val(v))));
    assert Drop(a, 2).stack == m.stack == b.stack;
    assert StepPlain(u, code, pc, a) == Ok((pc + 1, b));
    PlainStep(u, code, Point(pc, a), Point(pc + 1, b));
  }

  // ----- the simulation, by induction on fuel and syntax -----

  /** What is needed to run the bytecode of an expression. */
  ghost predicate Ready(env: Env, w: World, t: seq<Text>, code: Code, m: Machine) {
    HoldsFrame(m, t, env) && HoldsWorld(m, w) && Distinct(t) && |code| < 0x8000
  }

  lemma AgreesAfter(u: Unspecified, code: Code, a: Point, m: Machine, vs: seq<Value>, w: World, pc: int, end: int,
                    r: Outcome<(seq<Value>, World)>, r': Outcome<(seq<Value>, World)>, fuel: nat)
    requires Leads(u, code, a, Point(pc, Pushed(m, vs, w)))
    requires Agrees(u, code, pc, Pushed(m, vs, w), end, r, fuel)
    requires r.Ok? ==> r' == Ok((vs + r.val.0, r.val.1))
    requires !r.Ok? ==> r' == r
    ensures a.m == m ==> Agrees(u, code, a.pc, m, end, r', fuel)
    ensures r.Ok? ==> Leads(u, code, a, Point(end, Pushed(m, vs + r.val.0, r.val.1)))
  {
    if r.Ok? {
      var (vs', w') := r.val;
      PushedTwice(m, vs, w, vs', w');
      LeadsTransitive(u, code, a, Point(pc, Pushed(m, vs, w)), Point(end, Pushed(m, vs + vs', w')));
    }
  }

  lemma {:induction false} EvalSim(u: Unspecified, env: Env, e: Expr, w: World, fuel: nat, t: seq<Text>,
                                   code: Code, pc: nat, m: Machine)
    requires Ready(env, w, t, code, m)
    requires LexicalExpr(e) && DefinedExpr(e, t) && CodeAt(code, pc, GenExpr(e, t))
    ensures Agrees(u, code, pc, m, pc + |GenExpr(e, t)|, One(Eval(u, |m.calls|, env, e, w, |m.stack|, fuel)), fuel)
    decreases fuel, e, 1
  {
    hide *;
    match e {
      case Local(_) => LeafSim(u, env, e, w, fuel, t, code, pc, m);
      case IntLit(_) => LeafSim(u, env, e, w, fuel, t, code, pc, m);
      case StrLit(_) => LeafSim(u, env, e, w, fuel, t, code, pc, m);
      case Not(_) => UnaryExprSim(u, env, e, w, fuel, t, code, pc, m);
      case Minus(_) => UnaryExprSim(u, env, e, w, fuel, t, code, pc, m);
      case Binary(_, _, _) => BinaryExprSim(u, env, e, w, fuel, t, code, pc, m);
      case Exists(i) => ExistsSim(u, env, i, w, fuel, t, code, pc, m);
      case Fetch(i, a) => FetchSim(u, env, i, a, w, fuel, t, code, pc, m);
    }
  }

  lemma LeafSim(u: Unspecified, env: Env, e: Expr, w: World, fuel: nat, t: seq<Text>, code: Code, pc: nat, m: Machine)
    requires Ready(env, w, t, code, m) && (e.Local? || e.IntLit? || e.StrLit?)
    requires LexicalExpr(e) && DefinedExpr(e, t) && CodeAt(code, pc, GenExpr(e, t))
    ensures Agrees(u, code, pc, m, pc + |GenExpr(e, t)|, One(Eval(u, |m.calls|, env, e, w, |m.stack|, fuel)), fuel)
  {
    hide Run, Step, Leads, CodeAt, HoldsFrame, Compiled, CompileStore, Distinct, Int64, Int16, SlotByte;
    if |m.stack| < STACK_SIZE {
      match e {
        case Local(x) => GetLocalSim(u, env, x, w, t, code, pc, m);
        case IntLit(n) => LiteralSim(u, e, w, t, code, pc, m, Int(n));
        case StrLit(s) => LiteralSim(u, e, w, t, code, pc, m, Str(s));
      }
    }
  }

  lemma {:induction false} UnaryExprSim(u: Unspecified, env: Env, e: Expr, w: World, fuel: nat, t: seq<Text>,
                                        code: Code, pc: nat, m: Machine)
    requires Ready(env, w, t, code, m) && (e.Not? || e.Minus?)
    requires LexicalExpr(e) && DefinedExpr(e, t) && CodeAt(code, pc, GenExpr(e, t))
    ensures Agrees(u, code, pc, m, pc + |GenExpr(e, t)|, One(Eval(u, |m.calls|, env, e, w, |m.stack|, fuel)), fuel)
    decreases fuel, e, 0
  {
    hide Run, Step, Leads, CodeAt, Ready;
    var op := if e.Not? then NOT else NEGATE;
    CodeAtSplit(code, pc, GenExpr(e.e, t), [op]);
    EvalSim(u, env, e.e, w, fuel, t, code, pc, m);
    UnaryCase(u, e.e, op, Eval(u, |m.calls|, env, e.e, w, |m.stack|, fuel), fuel, t, code, pc, m);
  }

  lemma {:induction false} BinaryExprSim(u: Unspecified, env: Env, e: Expr, w: World, fuel: nat, t: seq<Text>,
                                         code: Code, pc: nat, m: Machine)
    requires Ready(env, w, t, code, m) && e.Binary?
    requires LexicalExpr(e) && DefinedExpr(e, t) && CodeAt(code, pc, GenExpr(e, t))
    ensures Agrees(u, code, pc, m, pc + |GenExpr(e, t)|, One(Eval(u, |m.calls|, env, e, w, |m.stack|, fuel)), fuel)
    decreases fuel, e, 0
  {
    hide *;
    var Binary(op, l, r) := e;
    var left := Eval(u, |m.calls|, env, l, w, |m.stack|, fuel);
    BinaryShape(e, t, code, pc);
    BinaryMeans(u, |m.calls|, env, e, w, |m.stack|, fuel);
    EvalSim(u, env, l, w, fuel, t, code, pc, m);
    if left.Ok? {
      var (v2, w1) := left.val;
      var mid := pc + |GenExpr(l, t)|;
      OneLeads(u, code, pc, m, mid, v2, w1, fuel);
      PushedReady(env, w, t, code, m, v2, w1);
      EvalSim(u, env, r, w1, fuel, t, code, mid, Pushed(m, [v2], w1));
      BinaryCase(u, op, v2, w1, Eval(u, |m.calls|, env, r, w1, |m.stack| + 1, fuel), fuel, code, pc,
                 mid, mid + |GenExpr(r, t)|, m);
    } else {
      OneFails(u, code, pc, m, pc + |GenExpr(l, t)|, pc + |GenExpr(e, t)|, left, fuel);
    }
  }

  lemma BinaryShape(e: Expr, t: seq<Text>, code: Code, pc: nat)
    requires e.Binary? && LexicalExpr(e) && DefinedExpr(e, t) && CodeAt(code, pc, GenExpr(e, t))
    ensures LexicalExpr(e.left) && LexicalExpr(e.right) && DefinedExpr(e.left, t) && DefinedExpr(e.right, t)
    ensures var mid := pc + |GenExpr(e.left, t)|; var end := mid + |GenExpr(e.right, t)|;
      && CodeAt(code, pc, GenExpr(e.left, t)) && CodeAt(code, mid, GenExpr(e.right, t))
      && CodeAt(code, end, [OpByte(e.op)])
      && pc + |GenExpr(e, t)| == end + 1
  {
    hide CodeAt;
    CodeAtSplit3(code, pc, GenExpr(e.left, t), GenExpr(e.right, t), [OpByte(e.op)]);
  }

  /** The value of an operation whose left operand is v2. */
  function Combined(u: Unspecified, op: BinOp, v2: Value, r: Outcome<(Value, World)>): Outcome<(seq<Value>, World)> {
    match r
    case Ok((v1, w2)) => Ok(([Apply(op, v2, v1, u.address(w2.tick))], w2.(tick := w2.tick + 1)))
    case Timeout => Timeout
    case Excluded => Excluded
  }

  lemma BinaryMeans(u: Unspecified, d: nat, env: Env, e: Expr, w: World, h: nat, fuel: nat)
    requires e.Binary?
    ensures var left := Eval(u, d, env, e.left, w, h, fuel);
      One(Eval(u, d, env, e, w, h, fuel)) ==
      if left.Ok? then Combined(u, e.op, left.val.0, Eval(u, d, env, e.right, left.val.1, h + 1, fuel)) else One(left)
  {
    hide Apply, Call, Resolve;
  }

  lemma OneLeads(u: Unspecified, code: Code, pc: nat, m: Machine, end: nat, v: Value, w: World, fuel: nat)
    requires Agrees(u, code, pc, m, end, One(Ok((v, w))), fuel)
    ensures Compiled(w.store) && Leads(u, code, Point(pc, m), Point(end, Pushed(m, [v], w)))
  {
    hide Leads, Compiled;
  }

  lemma OneFails(u: Unspecified, code: Code, pc: nat, m: Machine, end: nat, end': nat,
                 r: Outcome<(Value, World)>, fuel: nat)
    requires Agrees(u, code, pc, m, end, One(r), fuel) && !r.Ok?
    ensures Agrees(u, code, pc, m, end', One(r), fuel)
  {
    hide Run;
  }

  lemma PushedReady(env: Env, w: World, t: seq<Text>, code: Code, m: Machine, v: Value, w': World)
    requires Ready(env, w, t, code, m) && Compiled(w'.store)
    ensures var m' := Pushed(m, [v], w');
      Ready(env, w', t, code, m') && m'.calls == m.calls && |m'.stack| == |m.stack| + 1
  {
    hide HoldsFrame, Compiled;
    PushedHolds(m, t, env, [v], w');
  }

  lemma ExistsSim(u: Unspecified, env: Env, i: Item, w: World, fuel: nat, t: seq<Text>, code: Code, pc: nat, m: Machine)
    requires Ready(env, w, t, code, m)
    requires LexicalExpr(Exists(i)) && DefinedExpr(Exists(i), t) && CodeAt(code, pc, GenExpr(Exists(i), t))
    ensures Agrees(u, code, pc, m, pc + |GenExpr(Exists(i), t)|,
                   One(Eval(u, |m.calls|, env, Exists(i), w, |m.stack|, fuel)), fuel)
  {
    hide *;
    ExistsShape(i, t, code, pc);
    ExistsMeans(u, |m.calls|, env, i, w, |m.stack|, fuel);
    ReadyHolds(env, w, t, code, m);
    if |m.stack| < STACK_SIZE && Resolve(i, env).Ok? {
      var name := ItemSim(u, i, env, t, code, pc, m);
      var mid := pc + |GenItem(i, t)|;
      ExistsCase(u, name, w, code, pc, mid, m);
      OneAgrees(u, code, pc, m, mid + 1, Truth(Split(name) in w.store), w, fuel);
    } else {
      ExcludedAgrees(u, code, pc, m, pc + |GenExpr(Exists(i), t)|, fuel);
    }
  }

  lemma ExistsShape(i: Item, t: seq<Text>, code: Code, pc: nat)
    requires LexicalExpr(Exists(i)) && DefinedExpr(Exists(i), t) && CodeAt(code, pc, GenExpr(Exists(i), t))
    ensures LexicalItem(i) && DefinedItem(i, t) && |GenExpr(Exists(i), t)| == |GenItem(i, t)| + 1
    ensures CodeAt(code, pc, GenItem(i, t)) && CodeAt(code, pc + |GenItem(i, t)|, [EXISTS])
  {
    hide CodeAt, GenItem, LexicalItem, DefinedItem;
    CodeAtSplit(code, pc, GenItem(i, t), [EXISTS]);
  }

  lemma ExistsMeans(u: Unspecified, d: nat, env: Env, i: Item, w: World, h: nat, fuel: nat)
    ensures Eval(u, d, env, Exists(i), w, h, fuel) ==
      if h < STACK_SIZE && Resolve(i, env).Ok? then Ok((Truth(Resolve(i, env).val in w.store), w)) else Excluded
  {
    hide Resolve;
  }

  lemma ReadyHolds(env: Env, w: World, t: seq<Text>, code: Code, m: Machine)
    requires Ready(env, w, t, code, m)
    ensures HoldsFrame(m, t, env) && HoldsWorld(m, w) && Compiled(w.store)
  {
    hide HoldsFrame, Compiled;
  }

  lemma OneAgrees(u: Unspecified, code: Code, pc: nat, m: Machine, end: nat, v: Value, w: World, fuel: nat)
    requires Compiled(w.store) && Leads(u, code, Point(pc, m), Point(end, Pushed(m, [v], w)))
    ensures Agrees(u, code, pc, m, end, One(Ok((v, w))), fuel)
  {
    hide Leads, Compiled;
  }

  lemma ExcludedAgrees(u: Unspecified, code: Code, pc: nat, m: Machine, end: nat, fuel: nat)
    ensures Agrees(u, code, pc, m, end, One(Excluded), fuel)
  {
  }

  lemma UnaryCase(u: Unspecified, e1: Expr, op: byte, r: Outcome<(Value, World)>, fuel: nat, t: seq<Text>,
                  code: Code, pc: nat, m: Machine)
    requires op == NOT || op == NEGATE
    requires CodeAt(code, pc + |GenExpr(e1, t)|, [op])
    requires Agrees(u, code, pc, m, pc + |GenExpr(e1, t)|, One(r), fuel)
    ensures Agrees(u, code, pc, m, pc + |GenExpr(e1, t)| + 1, match r
      case Ok((v, w1)) => Ok(([if op == NOT then LogicalNot(v) else Negate(v)], w1))
      case Timeout => Timeout
      case Excluded => Excluded, fuel)
  {
    if r.Ok? {
      var (v, w1) := r.val;
      var v' := if op == NOT then LogicalNot(v) else Negate(v);
      var mid := pc + |GenExpr(e1, t)|;
      var part: Code := [op];
      assert code[mid + 0] == part[0];
      UnarySim(u, op, v, v', w1, code, mid, m);
      LeadsTransitive(u, code, Point(pc, m), Point(mid, Pushed(m, [v], w1)), Point(mid + 1, Pushed(m, [v'], w1)));
    }
  }

  lemma ExistsCase(u: Unspecified, name: Text, w: World, code: Code, pc: nat, mid: nat, m: Machine)
    requires HoldsWorld(m, w) && CodeAt(code, mid, [EXISTS])
    requires Leads(u, code, Point(pc, m), Point(mid, m.(stack := m.stack + [Str(name)])))
    ensures Leads(u, code, Point(pc, m), Point(mid + 1, Pushed(m, [Truth(Split(name) in w.store)], w)))
  {
    var part: Code := [EXISTS];
    assert code[mid + 0] == part[0];
    var v' := Truth(Split(name) in w.store);
    UnarySim(u, EXISTS, Str(name), v', w, code, mid, m);
    LeadsTransitive(u, code, Point(pc, m), Point(mid, Pushed(m, [Str(name)], w)), Point(mid + 1, Pushed(m, [v'], w)));
  }

  lemma BinaryCase(u: Unspecified, op: BinOp, v2: Value, w1: World, r: Outcome<(Value, World)>, fuel: nat,
                   code: Code, pc: nat, mid: nat, end: nat, m: Machine)
    requires Leads(u, code, Point(pc, m), Point(mid, Pushed(m, [v2], w1)))
    requires Agrees(u, code, mid, Pushed(m, [v2], w1), end, One(r), fuel)
    requires CodeAt(code, end, [OpByte(op)])
    ensures Agrees(u, code, pc, m, end + 1, Combined(u, op, v2, r), fuel)
  {
    hide Leads, Run, Compiled, Apply, CodeAt;
    match r {
      case Ok((v1, w2)) =>
        PushedTwice(m, [v2], w1, [v1], w2);
        assert [v2] + [v1] == [v2, v1];
        LeadsTransitive(u, code, Point(pc, m), Point(mid, Pushed(m, [v2], w1)), Point(end, Pushed(m, [v2, v1], w2)));
        CodeAtFirst(code, end, [OpByte(op)]);
        BinarySim(u, op, v2, v1, w2, code, end, m);
        LeadsTransitive(u, code, Point(pc, m), Point(end, Pushed(m, [v2, v1], w2)),
                        Point(end + 1, Pushed(m, [Apply(op, v2, v1, u.address(w2.tick))], w2.(tick := w2.tick + 1))));
      case Timeout => LeadsTimeout(u, code, Point(pc, m), Point(mid, Pushed(m, [v2], w1)), fuel);
      case Excluded =>
    }
  }

  lemma {:induction false} ArgsSim(u: Unspecified, env: Env, a: Args, w: World, fuel: nat, t: seq<Text>,
                                   code: Code, pc: nat, m: Machine)
    requires Ready(env, w, t, code, m)
    requires LexicalArgs(a) && DefinedArgs(a, t) && CodeAt(code, pc, GenArgs(a, t))
    ensures Agrees(u, code, pc, m, pc + |GenArgs(a, t)|, EvalArgs(u, |m.calls|, env, a, w, |m.stack|, fuel), fuel)
    decreases fuel, a, 0
  {
    hide *;
    match a {
      case NoArgs =>
        LeadsReflexive(u, code, Point(pc, m));
        NoArgsAgree(u, env, w, fuel, t, code, pc, m);
      case MoreArgs(e, rest) =>
        var first := Eval(u, |m.calls|, env, e, w, |m.stack|, fuel);
        ArgsShape(a, t, code, pc);
        ArgsMean(u, |m.calls|, env, a, w, |m.stack|, fuel);
        EvalSim(u, env, e, w, fuel, t, code, pc, m);
        var mid := pc + |GenExpr(e, t)|;
        if first.Ok? {
          var (v, w1) := first.val;
          OneLeads(u, code, pc, m, mid, v, w1, fuel);
          PushedReady(env, w, t, code, m, v, w1);
          ArgsSim(u, env, rest, w1, fuel, t, code, mid, Pushed(m, [v], w1));
          AgreesAfter(u, code, Point(pc, m), m, [v], w1, mid, pc + |GenArgs(a, t)|,
                      EvalArgs(u, |m.calls|, env, rest, w1, |m.stack| + 1, fuel),
                      EvalArgs(u, |m.calls|, env, a, w, |m.stack|, fuel), fuel);
        } else {
          OneFails(u, code, pc, m, mid, pc + |GenArgs(a, t)|, first, fuel);
        }
    }
  }

  lemma NoArgsAgree(u: Unspecified, env: Env, w: World, fuel: nat, t: seq<Text>, code: Code, pc: nat, m: Machine)
    requires Ready(env, w, t, code, m) && Leads(u, code, Point(pc, m), Point(pc, m))
    ensures Agrees(u, code, pc, m, pc + |GenArgs(NoArgs, t)|, EvalArgs(u, |m.calls|, env, NoArgs, w, |m.stack|, fuel),
                   fuel)
  {
    hide Leads, Compiled, HoldsFrame, CompileStore;
    assert m.stack + [] == m.stack;
  }

  lemma ArgsShape(a: Args, t: seq<Text>, code: Code, pc: nat)
    requires a.MoreArgs? && LexicalArgs(a) && DefinedArgs(a, t) && CodeAt(code, pc, GenArgs(a, t))
    ensures LexicalExpr(a.first) && LexicalArgs(a.rest) && DefinedExpr(a.first, t) && DefinedArgs(a.rest, t)
    ensures CodeAt(code, pc, GenExpr(a.first, t)) && CodeAt(code, pc + |GenExpr(a.first, t)|, GenArgs(a.rest, t))
    ensures |GenArgs(a, t)| == |GenExpr(a.first, t)| + |GenArgs(a.rest, t)|
  {
    hide CodeAt, GenExpr;
    CodeAtSplit(code, pc, GenExpr(a.first, t), GenArgs(a.rest, t));
  }

  lemma ArgsMean(u: Unspecified, d: nat, env: Env, a: Args, w: World, h: nat, fuel: nat)
    requires a.MoreArgs?
    ensures var first := Eval(u, d, env, a.first, w, h, fuel); var r := EvalArgs(u, d, env, a, w, h, fuel);
      if first.Ok? then
        var (v, w1) := first.val; var others := EvalArgs(u, d, env, a.rest, w1, h + 1, fuel);
        if others.Ok? then r == Ok(([v] + others.val.0, others.val.1)) else r == others
      else r == One(first)
  {
    hide Eval;
  }

  // ----- fetching and calling items -----

  lemma FetchMissing(u: Unspecified, code: Code, pc: nat, m: Machine, vs: seq<Value>, name: Text)
    requires |vs| < 0x1_0000 && CodeAt(code, pc, [FETCH] + Int16(|vs|))
    requires Split(name) !in m.store && |m.stack| < STACK_SIZE
    ensures Leads(u, code, Point(pc, m.(stack := m.stack + vs + [Str(name)])),
                  Point(pc + 3, m.(stack := m.stack + [NIL])))
  {
    FetchField(code, pc, |vs|);
    var a, b := Point(pc, m.(stack := m.stack + vs + [Str(name)])), Point(pc + 3, m.(stack := m.stack + [NIL]));
    assert Drop(a.m, 1).stack == m.stack + vs && Drop(Drop(a.m, 1), |vs|).stack == m.stack;
    assert forall g: nat :: Step(u, code, pc, a.m, g) == Ok((b.pc, b.m));
    assert Step(u, code, pc, a.m, 0) == Ok((b.pc, b.m));
    StepLeads(u, code, a, b);
  }

  /** The arguments of a value item are not popped: with n of them, n + 1 values are left, not one. */
  lemma FetchValue(u: Unspecified, code: Code, pc: nat, m: Machine, vs: seq<Value>, name: Text, v: Value)
    requires |vs| < 0x1_0000 && CodeAt(code, pc, [FETCH] + Int16(|vs|))
    requires Split(name) in m.store && m.store[Split(name)] == Val(v) && |m.stack| + |vs| < STACK_SIZE
    ensures Leads(u, code, Point(pc, m.(stack := m.stack + vs + [Str(name)])),
                  Point(pc + 3, m.(stack := m.stack + vs + [v])))
  {
    FetchField(code, pc, |vs|);
    var a, b := Point(pc, m.(stack := m.stack + vs + [Str(name)])), Point(pc + 3, m.(stack := m.stack + vs + [v]));
    assert Drop(a.m, 1).stack == m.stack + vs;
    assert forall g: nat :: Step(u, code, pc, a.m, g) == Ok((b.pc, b.m));
    assert Step(u, code, pc, a.m, 0) == Ok((b.pc, b.m));
    StepLeads(u, code, a, b);
  }

  lemma {:induction false} FetchSim(u: Unspecified, env: Env, i: Item, a: Args, w: World, fuel: nat, t: seq<Text>,
                                    code: Code, pc: nat, m: Machine)
    requires Ready(env, w, t, code, m)
    requires LexicalExpr(Fetch(i, a)) && DefinedExpr(Fetch(i, a), t) && CodeAt(code, pc, GenExpr(Fetch(i, a), t))
    ensures Agrees(u, code, pc, m, pc + |GenExpr(Fetch(i, a), t)|,
                   One(Eval(u, |m.calls|, env, Fetch(i, a), w, |m.stack|, fuel)), fuel)
    decreases fuel, a, 1
  {
    hide Run, Step, Leads, CodeAt, Call, GenArgs, GenItem, EvalArgs, Resolve, LexicalItem, LexicalArgs, DefinedItem,
         DefinedArgs, HoldsFrame, CompileStore, Compiled, Distinct;
    CodeAtSplit3(code, pc, GenArgs(a, t), GenItem(i, t), [FETCH] + Int16(ArgCount(a)));
    ArgsSim(u, env, a, w, fuel, t, code, pc, m);
    var r := EvalArgs(u, |m.calls|, env, a, w, |m.stack|, fuel);
    if r.Ok? && |m.stack| + |r.val.0| < STACK_SIZE && Resolve(i, env).Ok? {
      var (vs, w1) := r.val;
      var m1, pcI := Pushed(m, vs, w1), pc + |GenArgs(a, t)|;
      PushedHolds(m, t, env, vs, w1);
      var name := ItemSim(u, i, env, t, code, pcI, m1);
      var pcF := pcI + |GenItem(i, t)|;
      LeadsTransitive(u, code, Point(pc, m), Point(pcI, m1), Point(pcF, m1.(stack := m1.stack + [Str(name)])));
      FetchCases(u, a, name, vs, w1, fuel, code, pc, pcF, m);
    }
  }

  /** The three outcomes of a fetch: no such item, a value, a call. */
  lemma {:induction false} FetchCases(u: Unspecified, a: Args, name: Text, vs: seq<Value>, w: World, fuel: nat,
                                      code: Code, pc: nat, pcF: nat, m: Machine)
    requires Compiled(w.store) && |vs| < 0x1_0000 && |m.stack| + |vs| < STACK_SIZE
    requires CodeAt(code, pcF, [FETCH] + Int16(|vs|))
    requires Leads(u, code, Point(pc, m), Point(pcF, Pushed(m, [], w).(stack := m.stack + vs + [Str(name)])))
    ensures Agrees(u, code, pc, m, pcF + 3,
      if Split(name) !in w.store then Ok(([NIL], w))
      else match w.store[Split(name)]
      case Val(v) => if vs == [] then Ok(([v], w)) else Excluded
      case Code(prog) =>
        if fuel == 0 then Timeout else One(Call(u, |m.calls|, prog, vs, w, |m.stack|, fuel - 1)), fuel)
    decreases fuel, a, 0
  {
    hide Step, Leads, CodeAt, Call;
    var m0 := Pushed(m, [], w);
    assert m0.stack == m.stack;
    var start, b := Point(pc, m), Point(pcF, m0.(stack := m0.stack + vs + [Str(name)]));
    if Split(name) !in w.store {
      FetchMissing(u, code, pcF, m0, vs, name);
      LeadsTransitive(u, code, start, b, Point(pcF + 3, Pushed(m, [NIL], w)));
    } else {
      match w.store[Split(name)] {
        case Val(v) =>
          FetchValue(u, code, pcF, m0, vs, name, v);
          if vs == [] {
            assert m0.stack + vs + [v] == m0.stack + [v];
            LeadsTransitive(u, code, start, b, Point(pcF + 3, Pushed(m, [v], w)));
          }
        case Code(prog) =>
          if fuel > 0 { CallCase(u, name, vs, w, prog, fuel, code, pc, pcF, m); }
      }
    }
  }

  lemma {:induction false} CallCase(u: Unspecified, name: Text, vs: seq<Value>, w: World, prog: Program, fuel: nat,
                                    code: Code, pc: nat, pcF: nat, m: Machine)
    requires Compiled(w.store) && |vs| < 0x1_0000 && |m.stack| + |vs| < STACK_SIZE && fuel > 0
    requires CodeAt(code, pcF, [FETCH] + Int16(|vs|))
    requires Split(name) in w.store && w.store[Split(name)] == Code(prog)
    requires Leads(u, code, Point(pc, m), Point(pcF, Pushed(m, [], w).(stack := m.stack + vs + [Str(name)])))
    ensures Agrees(u, code, pc, m, pcF + 3, One(Call(u, |m.calls|, prog, vs, w, |m.stack|, fuel - 1)), fuel)
    decreases fuel - 1, prog.body, 4
  {
    hide Leads, CodeAt, Call, GenProgram, Returns;
    var m0 := Pushed(m, [], w);
    assert m0.stack == m.stack;
    var a, b := Point(pc, m), Point(pcF, m0.(stack := m0.stack + vs + [Str(name)]));
    var r := Call(u, |m.calls|, prog, vs, w, |m.stack|, fuel - 1);
    var m4 := CallSim(u, prog, vs, w, fuel - 1, m0, pcF + 3);
    if r.Ok? {
      var (v, w') := r.val;
      assert Push(PopCall(m4), v) == Ok(Pushed(m, [v], w')) by { assert m0.stack + [] == m0.stack; }
      FetchCodeSim(u, code, pcF, m0, vs, name, GenProgram(prog), v, m4);
      LeadsTransitive(u, code, a, b, Point(pcF + 3, Pushed(m, [v], w')));
    } else if r.Timeout? {
      FetchEntersCallee(u, code, pcF, m0, vs, name, GenProgram(prog), fuel - 1);
      assert Run(u, code, b.pc, b.m, fuel) == Timeout;
      LeadsTimeout(u, code, a, b, fuel);
    }
  }

  /** The header of a program's bytecode, and where its body and its halt are. */
  lemma ProgramCode(p: Program)
    requires Compiles(p)
    ensures var g, t := GenProgram(p), Table(p);
      |g| >= 3 && g[0] == |t| && g[1] == |p.params| && |p.params| <= |t| && Distinct(t)
      && CodeAt(g, 2, GenBlock(p.body, t)) && 2 + |GenBlock(p.body, t)| < |g|
      && g[2 + |GenBlock(p.body, t)|] == HALT
  {
    LocalsBlockGrow(p.body, p.params);
    var g := GenProgram(p);
    var b := GenBlock(p.body, Table(p));
    assert g[2 + |b|] == HALT;
    assert forall i :: 0 <= i < |b| ==> g[2 + i] == b[i];
  }

  /** Where a callee starts: its frame holds the arguments, then whatever the slots held. */
  function CalleeStart(u: Unspecified, prog: Program, vs: seq<Value>, w: World): State
    requires Compiles(prog) && |prog.params| <= |Table(prog)|
  {
    var t := Table(prog);
    State(Bind(t, InitialLocals(u, FitArgs(vs, |prog.params|), |t|, w.tick)), [],
          w.(tick := w.tick + (|t| - |prog.params|)))
  }

  function CalleeFixed(prog: Program, m: Machine, next: nat): Fixed {
    Fixed(m.stack, Table(prog), |prog.params|, m.calls + [CallRecord(next, |m.stack|, m.base, m.locals, m.params)])
  }

  lemma EnterSim(u: Unspecified, prog: Program, vs: seq<Value>, w: World, m: Machine, next: nat)
    requires Compiles(prog) && HoldsWorld(m, w) && |m.stack| + |Table(prog)| <= SLOT_LIMIT
    ensures |prog.params| <= |Table(prog)|
    ensures Fits(CalleeFixed(prog, m, next), CalleeStart(u, prog, vs, w))
    ensures EnterFrame(u, GenProgram(prog), Calling(m, next, FitArgs(vs, |prog.params|)))
         == Ok(Layout(CalleeFixed(prog, m, next), CalleeStart(u, prog, vs, w)))
  {
    ProgramCode(prog);
    var t, k := Table(prog), |prog.params|;
    var args := FitArgs(vs, k);
    var locals := InitialLocals(u, args, |t|, w.tick);
    SlotsOfBind(t, locals);
    var extra := seq(|t| - k, i requires 0 <= i => u.slot(w.tick + i));
    assert m.stack + args + extra == m.stack + locals + [];
  }

  /** At the halt: take the result, then drop the whole frame. */
  lemma LeaveSim(prog: Program, m: Machine, next: nat, st: State, w: World)
    requires HoldsWorld(m, w) && Fits(CalleeFixed(prog, m, next), st)
    requires ItemResult(Frame(|m.stack|, Table(prog), |m.calls| + 1), st).Ok?
    ensures var c := CalleeFixed(prog, m, next);
      var (v, m4) := TakeResult(Layout(c, st));
      v == ItemResult(Frame(|m.stack|, Table(prog), |m.calls| + 1), st).val
      && m4.calls == c.calls && PopCall(m4) == Pushed(m, [], st.world)
  {
    var c := CalleeFixed(prog, m, next);
    var l := Layout(c, st);
    var (v, m4) := TakeResult(l);
    if st.ops != [] {
      assert Top(l) == st.ops[|st.ops| - 1];
    } else if m.stack != [] {
      assert l.stack == m.stack + Slots(c.table, st.env);
      assert Top(l) == Slots(c.table, st.env)[|c.table| - 1];
    }
    assert |m4.stack| >= |m.stack| && m4.stack[..|m.stack|] == m.stack;
    assert m.stack + [] == m.stack;
    assert c.calls[..|c.calls| - 1] == m.calls;
  }

  /** A call runs the callee's body in a fresh frame and leaves the caller's stack as it was. */
  lemma {:induction false} CallSim(u: Unspecified, prog: Program, vs: seq<Value>, w: World, fuel: nat,
                                   m: Machine, next: nat) returns (m4: Machine)
    requires HoldsWorld(m, w) && Compiles(prog)
    ensures var r := Call(u, |m.calls|, prog, vs, w, |m.stack|, fuel);
      var m3 := Calling(m, next, FitArgs(vs, |prog.params|));
      !r.Excluded? ==>
        && |m.calls| < CALLSTACK_SIZE && |m.stack| + |Table(prog)| <= SLOT_LIMIT
        && |GenProgram(prog)| >= 2 && GenProgram(prog)[1] == |prog.params| && |prog.params| <= |Table(prog)|
        && (r.Timeout? ==> Interpret(u, GenProgram(prog), m3, fuel) == Timeout)
        && (r.Ok? ==> Compiled(r.val.1.store) && Returns(u, GenProgram(prog), m3, r.val.0, m4)
                      && m4.calls == m3.calls && PopCall(m4) == Pushed(m, [], r.val.1))
    decreases fuel, prog.body, 3
  {
    hide *;
    m4 := m;
    ProgramCode(prog);
    ProgramParts(prog);
    if |m.calls| < CALLSTACK_SIZE && |m.stack| + |Table(prog)| <= SLOT_LIMIT {
      EnterSim(u, prog, vs, w, m, next);
      var c, st := CalleeFixed(prog, m, next), CalleeStart(u, prog, vs, w);
      FitsCovers(c, st);
      CalleeTable(prog, m, next);
      var stop := BlockSim(u, c, prog.body, st, fuel, prog.params, GenProgram(prog), 2);
      m4 := CallEnds(u, prog, vs, w, fuel, m, next, stop);
    } else {
      CallRefused(u, prog, vs, w, fuel, m);
    }
  }

  lemma ProgramParts(p: Program)
    requires Compiles(p)
    ensures LexicalBlock(p.body) && DefinedBlock(p.body, p.params) && LocalsBlock(p.body, p.params) == Table(p)
    ensures |GenProgram(p)| < 0x8000
  {
  }

  lemma CalleeTable(prog: Program, m: Machine, next: nat)
    ensures CalleeFixed(prog, m, next).table == Table(prog)
  {
  }

  lemma CallRefused(u: Unspecified, prog: Program, vs: seq<Value>, w: World, fuel: nat, m: Machine)
    requires |m.calls| >= CALLSTACK_SIZE || |m.stack| + |Table(prog)| > SLOT_LIMIT
    ensures Call(u, |m.calls|, prog, vs, w, |m.stack|, fuel).Excluded?
  {
  }

  /** The end of a call: the halt, the result and the caller's frame restored. */
  lemma CallEnds(u: Unspecified, prog: Program, vs: seq<Value>, w: World, fuel: nat, m: Machine, next: nat, stop: int)
    returns (m4: Machine)
    requires HoldsWorld(m, w) && Compiles(prog)
    requires |m.calls| < CALLSTACK_SIZE && |m.stack| + |Table(prog)| <= SLOT_LIMIT
    requires |prog.params| <= |Table(prog)| && Fits(CalleeFixed(prog, m, next), CalleeStart(u, prog, vs, w))
    requires EnterFrame(u, GenProgram(prog), Calling(m, next, FitArgs(vs, |prog.params|)))
          == Ok(Layout(CalleeFixed(prog, m, next), CalleeStart(u, prog, vs, w)))
    requires var c, st, code, end := CalleeFixed(prog, m, next), CalleeStart(u, prog, vs, w), GenProgram(prog),
                                     2 + |GenBlock(prog.body, Table(prog))|;
      end < |code| && code[end] == HALT
      && Performs(u, c, code, 2, Layout(c, st), end, stop, ExecBlock(u, FrameOf(c), prog.body, st, fuel), fuel)
    ensures var r := Call(u, |m.calls|, prog, vs, w, |m.stack|, fuel);
      var m3 := Calling(m, next, FitArgs(vs, |prog.params|));
      && (r.Timeout? ==> Interpret(u, GenProgram(prog), m3, fuel) == Timeout)
      && (r.Ok? ==> Compiled(r.val.1.store) && Returns(u, GenProgram(prog), m3, r.val.0, m4)
                    && m4.calls == m3.calls && PopCall(m4) == Pushed(m, [], r.val.1))
  {
    hide Run, Step, Leads, ExecBlock, GenBlock, GenProgram, EnterFrame, Layout, Bind, InitialLocals, Returns,
         CompileStore,
         Compiles, Table, ItemResult, TakeResult, Compiled, FitArgs, HoldsWorld, PopCall, Pushed;
    m4 := m;
    var c, st, code := CalleeFixed(prog, m, next), CalleeStart(u, prog, vs, w), GenProgram(prog);
    var r := ExecBlock(u, FrameOf(c), prog.body, st, fuel);
    if r.Ok? && ItemResult(FrameOf(c), r.val.1).Ok? {
      var (flow, st') := r.val;
      var q := if flow.Normal? then 2 + |GenBlock(prog.body, Table(prog))| else stop;
      m4 := TakeResult(Layout(c, st')).1;
      LeaveSim(prog, m, next, st', w);
      HaltReturns(u, code, Calling(m, next, FitArgs(vs, |prog.params|)), Layout(c, st), Point(q, Layout(c, st')));
    } else if r.Ok? {
      NoResult(FrameOf(c), r.val.1);
    }
  }

  lemma NoResult(fr: Frame, st: State)
    ensures !ItemResult(fr, st).Timeout?
  {
  }

  /** Reaching a halt is returning. */
  lemma HaltReturns(u: Unspecified, callee: Code, m3: Machine, m5: Machine, b: Point)
    requires EnterFrame(u, callee, m3) == Ok(m5)
    requires 0 <= b.pc < |callee| && callee[b.pc] == HALT
    requires Leads(u, callee, Point(2, m5), b)
    ensures Returns(u, callee, m3, TakeResult(b.m).0, TakeResult(b.m).1)
  {
    forall g: nat
      ensures Interpret(u, callee, m3, g) == Timeout || Interpret(u, callee, m3, g) == Ok(TakeResult(b.m))
    {
      var r := Run(u, callee, 2, m5, g);
      assert r != Timeout ==> Run(u, callee, b.pc, b.m, g) == r;
    }
    assert Run(u, callee, b.pc, b.m, 1) == Ok(b.m);
    var f: nat :| Run(u, callee, 2, m5, f) == Ok(b.m);
    assert Interpret(u, callee, m3, f) == Ok(TakeResult(b.m));
  }

  // ----- statements, by induction on fuel and syntax -----

  lemma DefinedItemGrow(i: Item, t: seq<Text>, t': seq<Text>)
    requires DefinedItem(i, t) && t <= t'
    ensures DefinedItem(i, t')
  {
    forall l | l in i && l.LocalRef?
      ensures l.local in t'
    {
      assert l.local in t;
    }
  }

  lemma {:induction false} DefinedExprGrow(e: Expr, t: seq<Text>, t': seq<Text>)
    requires DefinedExpr(e, t) && t <= t'
    ensures DefinedExpr(e, t')
  {
    match e
    case Fetch(i, a) => DefinedItemGrow(i, t, t'); DefinedArgsGrow(a, t, t');
    case Exists(i) => DefinedItemGrow(i, t, t');
    case Binary(_, l, r) => DefinedExprGrow(l, t, t'); DefinedExprGrow(r, t, t');
    case Not(e1) => DefinedExprGrow(e1, t, t');
    case Minus(e1) => DefinedExprGrow(e1, t, t');
    case _ =>
  }

  lemma {:induction false} DefinedArgsGrow(a: Args, t: seq<Text>, t': seq<Text>)
    requires DefinedArgs(a, t) && t <= t'
    ensures DefinedArgs(a, t')
  {
    match a
    case NoArgs =>
    case MoreArgs(e, rest) => DefinedExprGrow(e, t, t'); DefinedArgsGrow(rest, t, t');
  }

  /** Where a value just computed by a statement is: on top of the operands. */
  ghost predicate Computes(u: Unspecified, c: Fixed, code: Code, pc: int, st: State, end: int,
                           r: Outcome<(Value, World)>, fuel: nat)
    requires Covers(st.env, c.table)
  {
    match r
    case Ok((v, w)) =>
      && Fits(c, st.(world := w))
      && Leads(u, code, Point(pc, Layout(c, st)), Point(end, Layout(c, st.(ops := st.ops + [v], world := w))))
    case Timeout => Run(u, code, pc, Layout(c, st), fuel) == Timeout
    case Excluded => true
  }

  lemma {:induction false} ComputeSim(u: Unspecified, c: Fixed, e: Expr, st: State, fuel: nat, t0: seq<Text>,
                                      code: Code, pc: nat)
    requires Fits(c, st) && |code| < 0x8000
    requires LexicalExpr(e) && DefinedExpr(e, t0) && t0 <= c.table
    requires CodeAt(code, pc, GenExpr(e, c.table))
    ensures Computes(u, c, code, pc, st, pc + |GenExpr(e, c.table)|, EvalIn(u, FrameOf(c), e, st, fuel), fuel)
    decreases fuel, e, 2
  {
    hide Run, Step, Leads, CodeAt, Eval, GenExpr, LexicalExpr, DefinedExpr;
    LayoutHolds(c, st);
    DefinedExprGrow(e, t0, c.table);
    EvalSim(u, st.env, e, st.world, fuel, c.table, code, pc, Layout(c, st));
    var r := EvalIn(u, FrameOf(c), e, st, fuel);
    if r.Ok? {
      LayoutOps(c, st, r.val.0, r.val.1);
    }
  }

  /** A condition and its jump: the source decides where the machine goes next. */
  ghost predicate Branches(u: Unspecified, c: Fixed, code: Code, pc: int, st: State, yes: int, no: int,
                           r: Outcome<(Value, World)>, fuel: nat)
    requires Covers(st.env, c.table)
  {
    match r
    case Ok((v, w)) =>
      && Fits(c, st.(world := w))
      && Leads(u, code, Point(pc, Layout(c, st)), Point(if IsTrue(v) then yes else no, Layout(c, st.(world := w))))
    case Timeout => Run(u, code, pc, Layout(c, st), fuel) == Timeout
    case Excluded => true
  }

  lemma {:induction false} ConditionSim(u: Unspecified, c: Fixed, e: Expr, st: State, fuel: nat, t0: seq<Text>,
                                        code: Code, pc: nat, offset: nat)
    requires Fits(c, st) && |code| < 0x8000 && offset < 0x8000
    requires LexicalExpr(e) && DefinedExpr(e, t0) && t0 <= c.table
    requires CodeAt(code, pc, GenExpr(e, c.table))
    requires CodeAt(code, pc + |GenExpr(e, c.table)|, JumpTo(JUMP_FALSE, offset))
    ensures var q := pc + |GenExpr(e, c.table)|;
      Branches(u, c, code, pc, st, q + 3, q + 1 + offset, EvalIn(u, FrameOf(c), e, st, fuel), fuel)
    ensures var r := EvalIn(u, FrameOf(c), e, st, fuel);
      r.Ok? ==> Fits(c, st.(world := r.val.1))
    decreases fuel, e, 3
  {
    hide Run, Step, Leads, CodeAt, Eval, GenExpr, LexicalExpr, DefinedExpr;
    ComputeSim(u, c, e, st, fuel, t0, code, pc);
    var r := EvalIn(u, FrameOf(c), e, st, fuel);
    if r.Ok? {
      var (v, w) := r.val;
      var q := pc + |GenExpr(e, c.table)|;
      BranchSim(u, c, st.(world := w), code, q, v, offset);
      LeadsTransitive(u, code, Point(pc, Layout(c, st)), Point(q, Layout(c, st.(ops := st.ops + [v], world := w))),
                      Point(if IsTrue(v) then q + 3 else q + 1 + offset, Layout(c, st.(world := w))));
    }
  }

  /** The jump that ends an arm of an IF. */
  lemma BodyThenJump(u: Unspecified, c: Fixed, code: Code, pc: int, m: Machine, mid: int, offset: nat, stop: int,
                     r: Outcome<(Flow, State)>, fuel: nat)
    requires Performs(u, c, code, pc, m, mid, stop, r, fuel)
    requires CodeAt(code, mid, JumpTo(JUMP, offset)) && offset < 0x8000
    ensures Performs(u, c, code, pc, m, mid + 1 + offset, stop, r, fuel)
  {
    hide Run, Step, Leads, CodeAt;
    if r.Ok? && r.val.0.Normal? {
      var st := r.val.1;
      JumpSim(u, code, mid, Layout(c, st), offset);
      LeadsTransitive(u, code, Point(pc, m), Point(mid, Layout(c, st)), Point(mid + 1 + offset, Layout(c, st)));
    }
  }

  /** IF and ELSIF: the condition, then the body or the other arms. */
  lemma ArmCase(u: Unspecified, c: Fixed, cond: Code, body: Code, others: Code, st: State,
                r: Outcome<(Value, World)>, r': Outcome<(Flow, State)>, fuel: nat, code: Code, pc: nat, stop: int)
    requires Fits(c, st) && |code| < 0x8000 && CodeAt(code, pc, Arm(cond, body, others))
    requires var q := pc + |cond|; Branches(u, c, code, pc, st, q + 3, q + 6 + |body|, r, fuel)
    requires r.Ok? ==> var q := pc + |cond|;
      var m := Layout(c, st.(world := r.val.1));
      if IsTrue(r.val.0) then Performs(u, c, code, q + 3, m, q + 3 + |body|, stop, r', fuel)
      else Performs(u, c, code, q + 6 + |body|, m, pc + |Arm(cond, body, others)|, stop, r', fuel)
    requires !r.Ok? ==> r' == r.PropagateFailure()
    ensures Performs(u, c, code, pc, Layout(c, st), pc + |Arm(cond, body, others)|, stop, r', fuel)
  {
    hide Run, Step, Leads, CodeAt, Arm, Layout, Compiled;
    CodeAtBound(code, pc, Arm(cond, body, others));
    ArmParts(code, pc, cond, body, others);
    var q, end := pc + |cond|, pc + |Arm(cond, body, others)|;
    if r.Ok? {
      var (v, w) := r.val;
      var m := Layout(c, st.(world := w));
      if IsTrue(v) {
        BodyThenJump(u, c, code, q + 3, m, q + 3 + |body|, |others| + 2, stop, r', fuel);
      }
      PerformsAfter(u, c, code, Point(pc, Layout(c, st)), Point(if IsTrue(v) then q + 3 else q + 6 + |body|, m),
                    end, stop, r', fuel);
    }
  }

  lemma IfParts(c: Fixed, s: Stmt, t0: seq<Text>)
    requires s.If? && LexicalStmt(s) && DefinedStmt(s, t0) && LocalsStmt(s, t0) <= c.table
    ensures LexicalExpr(s.cond) && LexicalBlock(s.body) && LexicalTail(s.tail)
    ensures var t1 := LocalsBlock(s.body, t0);
      DefinedExpr(s.cond, t0) && DefinedBlock(s.body, t0) && DefinedTail(s.tail, t1)
      && t0 <= c.table && t1 <= c.table && LocalsTail(s.tail, t1) <= c.table
  {
    LocalsBlockGrow(s.body, t0);
    LocalsTailGrow(s.tail, LocalsBlock(s.body, t0));
  }

  lemma ElsifParts(c: Fixed, l: Tail, t0: seq<Text>)
    requires l.Elsif? && LexicalTail(l) && DefinedTail(l, t0) && LocalsTail(l, t0) <= c.table
    ensures LexicalExpr(l.cond) && LexicalBlock(l.body) && LexicalTail(l.tail)
    ensures var t1 := LocalsBlock(l.body, t0);
      DefinedExpr(l.cond, t0) && DefinedBlock(l.body, t0) && DefinedTail(l.tail, t1)
      && t0 <= c.table && t1 <= c.table && LocalsTail(l.tail, t1) <= c.table
  {
    LocalsBlockGrow(l.body, t0);
    LocalsTailGrow(l.tail, LocalsBlock(l.body, t0));
  }

  lemma IfUnfolds(u: Unspecified, fr: Frame, s: Stmt, st: State, fuel: nat, t: seq<Text>)
    requires s.If?
    ensures GenStmt(s, t) == Arm(GenExpr(s.cond, t), GenBlock(s.body, t), GenTail(s.tail, t))
    ensures var r, r' := EvalIn(u, fr, s.cond, st, fuel), Exec(u, fr, s, st, fuel);
      && (!r.Ok? ==> r' == r.PropagateFailure())
      && (r.Ok? && IsTrue(r.val.0) ==> r' == ExecBlock(u, fr, s.body, st.(world := r.val.1), fuel))
      && (r.Ok? && !IsTrue(r.val.0) ==> r' == ExecTail(u, fr, s.tail, st.(world := r.val.1), fuel))
  {
    hide EvalIn;
  }

  lemma ElsifUnfolds(u: Unspecified, fr: Frame, l: Tail, st: State, fuel: nat, t: seq<Text>)
    requires l.Elsif?
    ensures GenTail(l, t) == Arm(GenExpr(l.cond, t), GenBlock(l.body, t), GenTail(l.tail, t))
    ensures var r, r' := EvalIn(u, fr, l.cond, st, fuel), ExecTail(u, fr, l, st, fuel);
      && (!r.Ok? ==> r' == r.PropagateFailure())
      && (r.Ok? && IsTrue(r.val.0) ==> r' == ExecBlock(u, fr, l.body, st.(world := r.val.1), fuel))
      && (r.Ok? && !IsTrue(r.val.0) ==> r' == ExecTail(u, fr, l.tail, st.(world := r.val.1), fuel))
  {
    hide EvalIn;
  }

  lemma {:induction false} IfSim(u: Unspecified, c: Fixed, s: Stmt, st: State, fuel: nat, t0: seq<Text>,
                                 code: Code, pc: nat) returns (stop: int)
    requires s.If?
    requires Fits(c, st) && |code| < 0x8000
    requires LexicalStmt(s) && DefinedStmt(s, t0) && LocalsStmt(s, t0) <= c.table
    requires CodeAt(code, pc, GenStmt(s, c.table))
    ensures Performs(u, c, code, pc, Layout(c, st), pc + |GenStmt(s, c.table)|, stop,
                     Exec(u, FrameOf(c), s, st, fuel), fuel)
    decreases fuel, s, 1
  {
    hide *;
    var cond, body, others := GenExpr(s.cond, c.table), GenBlock(s.body, c.table), GenTail(s.tail, c.table);
    CodeAtBound(code, pc, GenStmt(s, c.table));
    stop := 0;
    FitsCovers(c, st);
    IfParts(c, s, t0);
    IfUnfolds(u, FrameOf(c), s, st, fuel, c.table);
    ArmParts(code, pc, cond, body, others);
    ConditionSim(u, c, s.cond, st, fuel, t0, code, pc, |body| + 5);
    var r := EvalIn(u, FrameOf(c), s.cond, st, fuel);
    if r.Ok? {
      var (v, w) := r.val;
      if IsTrue(v) {
        stop := BlockSim(u, c, s.body, st.(world := w), fuel, t0, code, pc + |cond| + 3);
      } else {
        stop := TailSim(u, c, s.tail, st.(world := w), fuel, LocalsBlock(s.body, t0), code, pc + |cond| + 6 + |body|);
      }
    }
    ArmCase(u, c, cond, body, others, st, r, Exec(u, FrameOf(c), s, st, fuel), fuel, code, pc, stop);
  }

  lemma {:induction false} TailSim(u: Unspecified, c: Fixed, l: Tail, st: State, fuel: nat, t0: seq<Text>,
                                   code: Code, pc: nat) returns (stop: int)
    requires Fits(c, st) && |code| < 0x8000
    requires LexicalTail(l) && DefinedTail(l, t0) && LocalsTail(l, t0) <= c.table
    requires CodeAt(code, pc, GenTail(l, c.table))
    ensures Performs(u, c, code, pc, Layout(c, st), pc + |GenTail(l, c.table)|, stop,
                     ExecTail(u, FrameOf(c), l, st, fuel), fuel)
    decreases fuel, l, 2
  {
    stop := 0;
    CodeAtBound(code, pc, GenTail(l, c.table));
    match l {
      case EndIf =>
        hide Run, Step, Leads, CodeAt, Compiled;
        LeadsReflexive(u, code, Point(pc, Layout(c, st)));
      case Else(b) =>
        hide Run, Step, Leads, CodeAt, Compiled, Performs;
        stop := BlockSim(u, c, b, st, fuel, t0, code, pc);
      case Elsif(_, _, _) =>
        hide *;
        stop := ElsifSim(u, c, l, st, fuel, t0, code, pc);
    }
  }

  lemma {:induction false} ElsifSim(u: Unspecified, c: Fixed, l: Tail, st: State, fuel: nat, t0: seq<Text>,
                                    code: Code, pc: nat) returns (stop: int)
    requires l.Elsif?
    requires Fits(c, st) && |code| < 0x8000
    requires LexicalTail(l) && DefinedTail(l, t0) && LocalsTail(l, t0) <= c.table
    requires CodeAt(code, pc, GenTail(l, c.table))
    ensures Performs(u, c, code, pc, Layout(c, st), pc + |GenTail(l, c.table)|, stop,
                     ExecTail(u, FrameOf(c), l, st, fuel), fuel)
    decreases fuel, l, 1
  {
    hide *;
    var cond, body, others := GenExpr(l.cond, c.table), GenBlock(l.body, c.table), GenTail(l.tail, c.table);
    CodeAtBound(code, pc, GenTail(l, c.table));
    stop := 0;
    FitsCovers(c, st);
    ElsifParts(c, l, t0);
    ElsifUnfolds(u, FrameOf(c), l, st, fuel, c.table);
    ArmParts(code, pc, cond, body, others);
    ConditionSim(u, c, l.cond, st, fuel, t0, code, pc, |body| + 5);
    var r := EvalIn(u, FrameOf(c), l.cond, st, fuel);
    if r.Ok? {
      var (v, w) := r.val;
      if IsTrue(v) {
        stop := BlockSim(u, c, l.body, st.(world := w), fuel, t0, code, pc + |cond| + 3);
      } else {
        stop := TailSim(u, c, l.tail, st.(world := w), fuel, LocalsBlock(l.body, t0), code, pc + |cond| + 6 + |body|);
      }
    }
    ArmCase(u, c, cond, body, others, st, r, ExecTail(u, FrameOf(c), l, st, fuel), fuel, code, pc, stop);
  }

  /** The backward jump of a loop costs fuel, as the source's next round does. */
  lemma LoopBack(u: Unspecified, c: Fixed, code: Code, start: nat, m: Machine, mid: int, pc: nat, st: State, end: int,
                 stop: int, r: Outcome<(Flow, State)>, fuel: nat)
    requires Fits(c, st) && fuel > 0
    requires Leads(u, code, Point(start, m), Point(mid, Layout(c, st)))
    requires mid - pc < 0x7fff && CodeAt(code, mid, JumpTo(JUMP, pc - mid - 1)) && pc <= mid
    requires Performs(u, c, code, pc, Layout(c, st), end, stop, r, fuel - 1)
    ensures Performs(u, c, code, start, m, end, stop, r, fuel)
  {
    hide Step, Leads, CodeAt, Run, Compiled, Layout;
    var a, b := Point(mid, Layout(c, st)), Point(pc, Layout(c, st));
    JumpSim(u, code, mid, Layout(c, st), pc - mid - 1);
    LeadsTransitive(u, code, Point(start, m), a, b);
    if r.Ok? {
      var (flow, st') := r.val;
      LeadsTransitive(u, code, Point(start, m), b, Point(if flow.Normal? then end else stop, Layout(c, st')));
    } else if r.Timeout? {
      StepBurns(u, code, a, b, fuel - 1);
      LeadsTimeout(u, code, Point(start, m), a, fuel);
    }
  }

  lemma WhileParts(c: Fixed, s: Stmt, t0: seq<Text>)
    requires s.While? && LexicalStmt(s) && DefinedStmt(s, t0) && LocalsStmt(s, t0) <= c.table
    ensures LexicalExpr(s.cond) && LexicalBlock(s.body) && DefinedExpr(s.cond, t0) && DefinedBlock(s.body, t0)
    ensures t0 <= c.table && LocalsBlock(s.body, t0) <= c.table
  {
    LocalsBlockGrow(s.body, t0);
  }

  /** A loop after its condition held: the body, and then the loop again. */
  function AfterCondition(u: Unspecified, fr: Frame, s: Stmt, st: State, fuel: nat): Outcome<(Flow, State)>
    requires s.While?
  {
    var (flow, st1) :- ExecBlock(u, fr, s.body, st, fuel);
    AfterBody(u, fr, s, flow, st1, fuel)
  }

  function AfterBody(u: Unspecified, fr: Frame, s: Stmt, flow: Flow, st: State, fuel: nat): Outcome<(Flow, State)> {
    if flow.Returned? then Ok((flow, st)) else if fuel == 0 then Timeout else Exec(u, fr, s, st, fuel - 1)
  }

  lemma WhileUnfolds(u: Unspecified, fr: Frame, s: Stmt, st: State, fuel: nat, t: seq<Text>)
    requires s.While?
    ensures GenStmt(s, t) == CodeGen.Loop(GenExpr(s.cond, t), GenBlock(s.body, t))
    ensures var r, r' := EvalIn(u, fr, s.cond, st, fuel), Exec(u, fr, s, st, fuel);
      && (!r.Ok? ==> r' == r.PropagateFailure())
      && (r.Ok? && !IsTrue(r.val.0) ==> r' == Ok((Normal, st.(world := r.val.1))))
      && (r.Ok? && IsTrue(r.val.0) ==> r' == AfterCondition(u, fr, s, st.(world := r.val.1), fuel))
  {
    hide EvalIn;
  }

  lemma LoopSkipped(u: Unspecified, c: Fixed, code: Code, pc: int, st: State, yes: int, end: int,
                    r: Outcome<(Value, World)>, r': Outcome<(Flow, State)>, fuel: nat)
    requires Fits(c, st) && Branches(u, c, code, pc, st, yes, end, r, fuel)
    requires !r.Ok? ==> r' == r.PropagateFailure()
    requires r.Ok? ==> !IsTrue(r.val.0) && r' == Ok((Normal, st.(world := r.val.1)))
    ensures Performs(u, c, code, pc, Layout(c, st), end, 0, r', fuel)
  {
    hide Run, Leads, IsTrue, Fits;
    FitsCovers(c, st);
  }

  lemma LoopEntered(u: Unspecified, c: Fixed, code: Code, pc: int, st: State, yes: int, end: int,
                    r: Outcome<(Value, World)>, stop: int, r': Outcome<(Flow, State)>, fuel: nat)
    requires Fits(c, st) && Branches(u, c, code, pc, st, yes, end, r, fuel)
    requires r.Ok? && IsTrue(r.val.0)
    requires Performs(u, c, code, yes, Layout(c, st.(world := r.val.1)), end, stop, r', fuel)
    ensures Performs(u, c, code, pc, Layout(c, st), end, stop, r', fuel)
  {
    PerformsAfter(u, c, code, Point(pc, Layout(c, st)), Point(yes, Layout(c, st.(world := r.val.1))), end, stop, r',
                  fuel);
  }

  lemma NormalFits(u: Unspecified, c: Fixed, code: Code, pc: int, m: Machine, mid: int, stop: int, st: State, fuel: nat)
    requires Performs(u, c, code, pc, m, mid, stop, Ok((Normal, st)), fuel)
    ensures Fits(c, st) && Leads(u, code, Point(pc, m), Point(mid, Layout(c, st)))
  {
  }

  /** A body that returned, or whose run did not end, ends the loop so. */
  lemma LoopLeft(u: Unspecified, c: Fixed, s: Stmt, code: Code, pc: int, st: State, mid: int, end: int, stop: int,
                 fuel: nat)
    requires s.While? && Fits(c, st)
    requires var r := ExecBlock(u, FrameOf(c), s.body, st, fuel);
      Performs(u, c, code, pc, Layout(c, st), mid, stop, r, fuel) && (r.Ok? ==> r.val.0.Returned?)
    ensures Performs(u, c, code, pc, Layout(c, st), end, stop, AfterCondition(u, FrameOf(c), s, st, fuel), fuel)
  {
    hide ExecBlock, Leads, Run, Layout, Compiled, Exec;
  }

  /** The body ended at mid with st1; the jump there leads back to the condition at pc. */
  lemma RoundAgain(u: Unspecified, c: Fixed, s: Stmt, code: Code, pc: nat, start: nat, st: State, mid: int, st1: State,
                   end: int, stop: int, fuel: nat)
    requires s.While? && Fits(c, st) && ExecBlock(u, FrameOf(c), s.body, st, fuel) == Ok((Normal, st1))
    requires Fits(c, st1) && Leads(u, code, Point(start, Layout(c, st)), Point(mid, Layout(c, st1)))
    requires mid - pc < 0x7fff && CodeAt(code, mid, JumpTo(JUMP, pc - mid - 1)) && pc <= mid
    requires fuel > 0 ==> Performs(u, c, code, pc, Layout(c, st1), end, stop, Exec(u, FrameOf(c), s, st1, fuel - 1),
                                   fuel - 1)
    ensures Performs(u, c, code, start, Layout(c, st), end, stop, AfterCondition(u, FrameOf(c), s, st, fuel), fuel)
  {
    hide Exec, ExecBlock, Leads, CodeAt, Layout, Compiled;
    if fuel > 0 {
      LoopBack(u, c, code, start, Layout(c, st), mid, pc, st1, end, stop, Exec(u, FrameOf(c), s, st1, fuel - 1), fuel);
    } else {
      assert Run(u, code, start, Layout(c, st), 0) == Timeout;
    }
  }

  lemma {:induction false} WhileSim(u: Unspecified, c: Fixed, s: Stmt, st: State, fuel: nat, t0: seq<Text>,
                                    code: Code, pc: nat) returns (stop: int)
    requires s.While?
    requires Fits(c, st) && |code| < 0x8000
    requires LexicalStmt(s) && DefinedStmt(s, t0) && LocalsStmt(s, t0) <= c.table
    requires CodeAt(code, pc, GenStmt(s, c.table))
    ensures Performs(u, c, code, pc, Layout(c, st), pc + |GenStmt(s, c.table)|, stop,
                     Exec(u, FrameOf(c), s, st, fuel), fuel)
    decreases fuel, s, 1
  {
    hide *;
    var cond, body := GenExpr(s.cond, c.table), GenBlock(s.body, c.table);
    CodeAtBound(code, pc, GenStmt(s, c.table));
    stop := 0;
    FitsCovers(c, st);
    WhileParts(c, s, t0);
    WhileUnfolds(u, FrameOf(c), s, st, fuel, c.table);
    LoopParts(code, pc, cond, body);
    ConditionSim(u, c, s.cond, st, fuel, t0, code, pc, |body| + 5);
    var r := EvalIn(u, FrameOf(c), s.cond, st, fuel);
    var r' := Exec(u, FrameOf(c), s, st, fuel);
    var end := pc + |GenStmt(s, c.table)|;
    var q := pc + |cond| + 3;
    if !r.Ok? || !IsTrue(r.val.0) {
      LoopSkipped(u, c, code, pc, st, q, end, r, r', fuel);
    } else {
      var st1 := st.(world := r.val.1);
      stop := RoundSim(u, c, s, st1, fuel, t0, code, pc);
      FitsCovers(c, st1);
      LoopEntered(u, c, code, pc, st, q, end, r, stop, r', fuel);
    }
  }

  /** The body of a loop, and what follows it. */
  lemma {:induction false} RoundSim(u: Unspecified, c: Fixed, s: Stmt, st: State, fuel: nat, t0: seq<Text>,
                                    code: Code, pc: nat) returns (stop: int)
    requires s.While?
    requires Fits(c, st) && |code| < 0x8000
    requires LexicalStmt(s) && DefinedStmt(s, t0) && LocalsStmt(s, t0) <= c.table
    requires CodeAt(code, pc, GenStmt(s, c.table))
    ensures Performs(u, c, code, pc + |GenExpr(s.cond, c.table)| + 3, Layout(c, st), pc + |GenStmt(s, c.table)|, stop,
                     AfterCondition(u, FrameOf(c), s, st, fuel), fuel)
    decreases fuel, s, 0
  {
    hide *;
    var cond, body := GenExpr(s.cond, c.table), GenBlock(s.body, c.table);
    var r1 := ExecBlock(u, FrameOf(c), s.body, st, fuel);
    CodeAtBound(code, pc, GenStmt(s, c.table));
    FitsCovers(c, st);
    WhileParts(c, s, t0);
    WhileUnfolds(u, FrameOf(c), s, st, fuel, c.table);
    LoopParts(code, pc, cond, body);
    var end, q := pc + |GenStmt(s, c.table)|, pc + |cond| + 3;
    stop := BlockSim(u, c, s.body, st, fuel, t0, code, q);
    if r1.Ok? && r1.val.0.Normal? {
      var st2 := r1.val.1;
      NormalFits(u, c, code, q, Layout(c, st), q + |body|, stop, st2, fuel);
      if fuel > 0 {
        stop := WhileSim(u, c, s, st2, fuel - 1, t0, code, pc);
      }
      RoundAgain(u, c, s, code, pc, q, st, q + |body|, st2, end, stop, fuel);
    } else {
      LoopLeft(u, c, s, code, q, st, q + |body|, end, stop, fuel);
    }
  }

  lemma {:induction false} AssignSim(u: Unspecified, c: Fixed, x: Text, e: Expr, st: State, fuel: nat, t0: seq<Text>,
                                     code: Code, pc: nat)
    requires Fits(c, st) && |code| < 0x8000
    requires LexicalExpr(e) && DefinedExpr(e, Declare(t0, x)) && Declare(t0, x) <= c.table
    requires CodeAt(code, pc, GenStmt(Assign(x, e), c.table))
    ensures Performs(u, c, code, pc, Layout(c, st), pc + |GenStmt(Assign(x, e), c.table)|, 0,
                     Exec(u, FrameOf(c), Assign(x, e), st, fuel), fuel)
    decreases fuel, e, 3
  {
    hide *;
    FitsCovers(c, st);
    AssignShape(x, e, t0, c.table, code, pc);
    ComputeSim(u, c, e, st, fuel, Declare(t0, x), code, pc);
    AssignCase(u, c, x, e, st, fuel, code, pc, pc + |GenExpr(e, c.table)|);
  }

  lemma AssignShape(x: Text, e: Expr, t0: seq<Text>, t: seq<Text>, code: Code, pc: nat)
    requires CodeAt(code, pc, GenStmt(Assign(x, e), t)) && Declare(t0, x) <= t && Distinct(t) && |t| < 256
    ensures x in t && CodeAt(code, pc, GenExpr(e, t)) && |GenStmt(Assign(x, e), t)| == |GenExpr(e, t)| + 2
    ensures CodeAt(code, pc + |GenExpr(e, t)|, [SAVE_LOCAL, SlotByte(t, x)])
  {
    hide CodeAt, GenExpr, Saves;
    assert x in Declare(t0, x);
    SavesOnce(t, x);
    CodeAtSplit(code, pc, GenExpr(e, t), [SAVE_LOCAL, SlotByte(t, x)]);
  }

  lemma AssignCase(u: Unspecified, c: Fixed, x: Text, e: Expr, st: State, fuel: nat, code: Code, pc: nat, mid: nat)
    requires Fits(c, st) && x in c.table && CodeAt(code, mid, [SAVE_LOCAL, SlotByte(c.table, x)])
    requires Computes(u, c, code, pc, st, mid, EvalIn(u, FrameOf(c), e, st, fuel), fuel)
    ensures Performs(u, c, code, pc, Layout(c, st), mid + 2, 0, Exec(u, FrameOf(c), Assign(x, e), st, fuel), fuel)
  {
    hide Run, Step, Leads, CodeAt, EvalIn, GenExpr, Layout, Compiled;
    var r := EvalIn(u, FrameOf(c), e, st, fuel);
    if r.Ok? {
      var (v, w) := r.val;
      var st1 := st.(world := w);
      SaveLocalSim(u, c, st1, code, mid, x, v);
      LeadsTransitive(u, code, Point(pc, Layout(c, st)), Point(mid, Layout(c, st1.(ops := st1.ops + [v]))),
                      Point(mid + 2, Layout(c, st1.(env := st1.env[x := v]))));
    }
  }

  lemma {:induction false} StoreSim(u: Unspecified, c: Fixed, i: Item, e: Expr, st: State, fuel: nat, t0: seq<Text>,
                                    code: Code, pc: nat)
    requires Fits(c, st) && |code| < 0x8000
    requires LexicalItem(i) && LexicalExpr(e) && DefinedItem(i, t0) && DefinedExpr(e, t0) && t0 <= c.table
    requires CodeAt(code, pc, GenStmt(AssignItem(i, e), c.table))
    ensures Performs(u, c, code, pc, Layout(c, st), pc + |GenStmt(AssignItem(i, e), c.table)|, 0,
                     Exec(u, FrameOf(c), AssignItem(i, e), st, fuel), fuel)
    decreases fuel, e, 3
  {
    hide *;
    FitsCovers(c, st);
    var m, ge := Layout(c, st), GenExpr(e, c.table);
    StoreShape(i, e, c.table, code, pc);
    StoreMeans(u, c, i, e, st, fuel);
    LayoutReady(c, st, code);
    DefinedItemGrow(i, t0, c.table);
    DefinedExprGrow(e, t0, c.table);
    if |m.stack| < STACK_SIZE && Resolve(i, st.env).Ok? {
      var name := ItemSim(u, i, st.env, c.table, code, pc, m);
      var mid := pc + |GenItem(i, c.table)|;
      PushedIs(m, [Str(name)], st);
      PushedReady(st.env, st.world, c.table, code, m, Str(name), st.world);
      EvalSim(u, st.env, e, st.world, fuel, c.table, code, mid, Pushed(m, [Str(name)], st.world));
      StoreCase(u, c, st, name, Eval(u, |c.calls|, st.env, e, st.world, |m.stack| + 1, fuel), fuel, code, pc, mid,
                mid + |ge|);
    } else {
      ExcludedPerforms(u, c, code, pc, m, pc + |GenStmt(AssignItem(i, e), c.table)|, 0, fuel);
    }
  }

  lemma StoreShape(i: Item, e: Expr, t: seq<Text>, code: Code, pc: nat)
    requires CodeAt(code, pc, GenStmt(AssignItem(i, e), t))
    ensures var mid := pc + |GenItem(i, t)|; var end := mid + |GenExpr(e, t)|;
      && CodeAt(code, pc, GenItem(i, t)) && CodeAt(code, mid, GenExpr(e, t)) && CodeAt(code, end, [ASSIGN_ITEM])
      && pc + |GenStmt(AssignItem(i, e), t)| == end + 1
  {
    hide CodeAt, GenItem, GenExpr;
    CodeAtSplit3(code, pc, GenItem(i, t), GenExpr(e, t), [ASSIGN_ITEM]);
  }

  /** What is left of an assignment to the path p once its value is there. */
  function Assigned(st: State, p: Path, r: Outcome<(Value, World)>): Outcome<(Flow, State)> {
    match r
    case Ok((v, w)) =>
      if p in w.store && w.store[p].Code? then Excluded
      else Ok((Normal, st.(world := w.(store := Insert(w.store, p, Val(v))))))
    case Timeout => Timeout
    case Excluded => Excluded
  }

  lemma StoreMeans(u: Unspecified, c: Fixed, i: Item, e: Expr, st: State, fuel: nat)
    ensures var h := Height(FrameOf(c), st);
      Exec(u, FrameOf(c), AssignItem(i, e), st, fuel) ==
      if h < STACK_SIZE && Resolve(i, st.env).Ok? then
        Assigned(st, Resolve(i, st.env).val, Eval(u, |c.calls|, st.env, e, st.world, h + 1, fuel))
      else Excluded
  {
    hide Eval, Insert, Resolve, Height;
  }

  lemma LayoutReady(c: Fixed, st: State, code: Code)
    requires Fits(c, st) && |code| < 0x8000
    ensures Covers(st.env, c.table) && Compiled(st.world.store) && Layout(c, st).calls == c.calls
    ensures Ready(st.env, st.world, c.table, code, Layout(c, st)) && |Layout(c, st).stack| == Height(FrameOf(c), st)
    ensures HoldsFrame(Layout(c, st), c.table, st.env)
    ensures Layout(c, st).store == CompileStore(st.world.store) && Layout(c, st).tick == st.world.tick
  {
    LayoutHolds(c, st);
  }

  lemma PushedIs(m: Machine, vs: seq<Value>, st: State)
    requires m.store == CompileStore(st.world.store) && m.tick == st.world.tick
    ensures Pushed(m, vs, st.world) == m.(stack := m.stack + vs)
  {
  }

  lemma ExcludedPerforms(u: Unspecified, c: Fixed, code: Code, pc: int, m: Machine, end: int, stop: int, fuel: nat)
    ensures Performs(u, c, code, pc, m, end, stop, Excluded, fuel)
  {
  }

  lemma StoreCase(u: Unspecified, c: Fixed, st: State, name: Text, r: Outcome<(Value, World)>, fuel: nat,
                  code: Code, pc: nat, mid: nat, end: nat)
    requires Fits(c, st) && Split(name) != [] && !EndsInDot(name)
    requires Leads(u, code, Point(pc, Layout(c, st)), Point(mid, Pushed(Layout(c, st), [Str(name)], st.world)))
    requires Agrees(u, code, mid, Pushed(Layout(c, st), [Str(name)], st.world), end, One(r), fuel)
    requires CodeAt(code, end, [ASSIGN_ITEM])
    ensures Performs(u, c, code, pc, Layout(c, st), end + 1, 0, Assigned(st, Split(name), r), fuel)
  {
    hide Run, Leads, Compiled, CompileStore, CodeAt, Slots, Covers, Distinct, Insert, Split, EndsInDot;
    var m := Layout(c, st);
    match r {
      case Ok((v, w)) =>
        if !(Split(name) in w.store && w.store[Split(name)].Code?) {
          OneLeads(u, code, mid, Pushed(m, [Str(name)], st.world), end, v, w, fuel);
          StoreDone(u, c, st, name, v, w, code, pc, mid, end);
        }
      case Timeout => LeadsTimeout(u, code, Point(pc, m), Point(mid, Pushed(m, [Str(name)], st.world)), fuel);
      case Excluded =>
    }
  }

  lemma StoreDone(u: Unspecified, c: Fixed, st: State, name: Text, v: Value, w: World, code: Code, pc: nat, mid: nat,
                  end: nat)
    requires Fits(c, st) && Compiled(w.store) && Split(name) != [] && !EndsInDot(name)
    requires Leads(u, code, Point(pc, Layout(c, st)), Point(mid, Pushed(Layout(c, st), [Str(name)], st.world)))
    requires Leads(u, code, Point(mid, Pushed(Layout(c, st), [Str(name)], st.world)),
                   Point(end, Pushed(Pushed(Layout(c, st), [Str(name)], st.world), [v], w)))
    requires CodeAt(code, end, [ASSIGN_ITEM])
    requires Split(name) in w.store ==> w.store[Split(name)].Val?
    ensures var st' := st.(world := w.(store := Insert(w.store, Split(name), Val(v))));
      Fits(c, st') && Leads(u, code, Point(pc, Layout(c, st)), Point(end + 1, Layout(c, st')))
  {
    hide Run, Step, Leads;
    var m := Layout(c, st);
    PushedTwice(m, [Str(name)], st.world, [v], w);
    assert [Str(name)] + [v] == [Str(name), v];
    var part: Code := [ASSIGN_ITEM];
    assert code[end + 0] == part[0];
    AssignItemSim(u, m, name, v, w, code, end);
    var st' := st.(world := w.(store := Insert(w.store, Split(name), Val(v))));
    assert Pushed(m, [], st'.world) == Layout(c, st') by { assert m.stack + [] == m.stack; }
    LeadsTransitive(u, code, Point(pc, m), Point(mid, Pushed(m, [Str(name)], st.world)),
                    Point(end, Pushed(m, [Str(name), v], w)));
    LeadsTransitive(u, code, Point(pc, m), Point(end, Pushed(m, [Str(name), v], w)), Point(end + 1, Layout(c, st')));
  }

  lemma {:induction false} StmtSim(u: Unspecified, c: Fixed, s: Stmt, st: State, fuel: nat, t0: seq<Text>,
                                   code: Code, pc: nat) returns (stop: int)
    requires Fits(c, st) && |code| < 0x8000
    requires LexicalStmt(s) && DefinedStmt(s, t0) && LocalsStmt(s, t0) <= c.table
    requires CodeAt(code, pc, GenStmt(s, c.table))
    ensures Performs(u, c, code, pc, Layout(c, st), pc + |GenStmt(s, c.table)|, stop,
                     Exec(u, FrameOf(c), s, st, fuel), fuel)
    decreases fuel, s, 2
  {
    hide Run, Step, Leads, Eval, GenExpr;
    stop := 0;
    match s {
      case While(_, _) => stop := WhileSim(u, c, s, st, fuel, t0, code, pc);
      case If(_, _, _) => stop := IfSim(u, c, s, st, fuel, t0, code, pc);
      case Assign(x, e) => AssignSim(u, c, x, e, st, fuel, t0, code, pc);
      case AssignItem(i, e) => StoreSim(u, c, i, e, st, fuel, t0, code, pc);
      case Evaluate(e) => ComputeSim(u, c, e, st, fuel, t0, code, pc);
      case Inc(x) => AddToLocalSim(u, c, st, code, pc, INC_LOCAL, x);
      case Dec(x) => AddToLocalSim(u, c, st, code, pc, DEC_LOCAL, x);
      case Return =>
        stop := pc;
        var part: Code := [HALT];
        assert code[pc + 0] == part[0];
        LeadsReflexive(u, code, Point(pc, Layout(c, st)));
    }
  }

  lemma {:induction false} BlockSim(u: Unspecified, c: Fixed, b: Block, st: State, fuel: nat, t0: seq<Text>,
                                    code: Code, pc: nat) returns (stop: int)
    requires Fits(c, st) && |code| < 0x8000
    requires LexicalBlock(b) && DefinedBlock(b, t0) && LocalsBlock(b, t0) <= c.table
    requires CodeAt(code, pc, GenBlock(b, c.table))
    ensures Performs(u, c, code, pc, Layout(c, st), pc + |GenBlock(b, c.table)|, stop,
                     ExecBlock(u, FrameOf(c), b, st, fuel), fuel)
    decreases fuel, b, 2
  {
    hide Run, Step, Leads, CodeAt, Exec, GenStmt;
    stop := 0;
    match b {
      case Done => LeadsReflexive(u, code, Point(pc, Layout(c, st)));
      case Then(s, rest) =>
        var g := GenStmt(s, c.table);
        CodeAtSplit(code, pc, g, GenBlock(rest, c.table));
        LocalsStmtGrow(s, t0);
        LocalsBlockGrow(rest, LocalsStmt(s, t0));
        stop := StmtSim(u, c, s, st, fuel, t0, code, pc);
        var r := Exec(u, FrameOf(c), s, st, fuel);
        if r.Ok? && r.val.0.Normal? {
          stop := BlockSim(u, c, rest, r.val.1, fuel, LocalsStmt(s, t0), code, pc + |g|);
          PerformsAfter(u, c, code, Point(pc, Layout(c, st)), Point(pc + |g|, Layout(c, r.val.1)),
                        pc + |GenBlock(b, c.table)|, stop, ExecBlock(u, FrameOf(c), rest, r.val.1, fuel), fuel);
        }
    }
  }
}
