/**
 * The meaning of source programs, without bytecode: expressions have values, statements change an
 * environment of named locals, and items live in an abstract store of values and programs.
 */
module Source {
  import opened Bytes
  import opened Values
  import opened Paths
  import opened Syntax

  /**
   * Timeout: the fuel ran out. Excluded: the run leaves what the language promises, for one of
   * the reasons listed at the definitions below (resource limits, or a case where the C code
   * reads or frees memory it should not).
   */
  datatype Outcome<+T> = Ok(val: T) | Timeout | Excluded {
    predicate IsFailure() { !Ok? }
    function PropagateFailure<U>(): Outcome<U>
      requires !Ok?
    {
      if Timeout? then Timeout else Excluded
    }
    function Extract(): T
      requires Ok?
    {
      val
    }
  }

  const STACK_SIZE := 1024
  const CALLSTACK_SIZE := 1024

  /** A local's slot is addressed by one byte, counted from the bottom of the whole stack. */
  const SLOT_LIMIT := 256

  type Env = map<Text, Value>

  /** The itemstore, and how many unspecified values have been drawn so far. */
  datatype World = World(store: Store<Program>, tick: nat)

  /** Values of expression statements stay on the operand stack: the last one is the result. */
  datatype State = State(env: Env, ops: seq<Value>, world: World)

  /** Where a running item lives: the stack height below it, its locals, and the calls below it. */
  datatype Frame = Frame(base: nat, table: seq<Text>, depth: nat)

  datatype Flow = Normal | Returned

  /** The text one layer contributes to a name; an int becomes its decimal numeral. */
  function LayerText(l: Layer, env: Env): (r: Outcome<Text>)
    ensures !r.Timeout?
  {
    if l.Name? then Ok(l.text)
    else if l.local !in env then Excluded
    else match env[l.local]
    case Str(s) => if SolidLayer(s) && IsValidLayer(s) then Ok(s) else Excluded
    case Int(i) => if Truncate32(i) > -0x8000_0000 then Ok(Decimal(Truncate32(i))) else Excluded
    case _ => Excluded
  }

  function Resolve(i: Item, env: Env): (r: Outcome<Path>)
    ensures !r.Timeout?
  {
    if i == [] then Ok([])
    else
      var l :- LayerText(i[0], env);
      var rest :- Resolve(i[1..], env);
      Ok([l] + rest)
  }

  /** One stack slot must be free when the stack holds h values. */
  function Room(h: nat): Outcome<()> { if h < STACK_SIZE then Ok(()) else Excluded }

  function Binding(env: Env, x: Text): Outcome<Value> { if x in env then Ok(env[x]) else Excluded }

  /** The value of e in a frame whose stack holds h values; only the world may change. */
  function Eval(u: Unspecified, d: nat, env: Env, e: Expr, w: World, h: nat, fuel: nat): Outcome<(Value, World)>
    decreases fuel, e, 0
  {
    match e
    case Local(x) =>
      var _ :- Room(h);
      var v :- Binding(env, x);
      Ok((v, w))
    case IntLit(n) =>
      var _ :- Room(h);
      Ok((Int(Wrap64(n)), w))
    case StrLit(s) =>
      var _ :- Room(h);
      Ok((Str(s), w))
    case Binary(op, l, r) =>
      var (v2, w1) :- Eval(u, d, env, l, w, h, fuel);
      var (v1, w2) :- Eval(u, d, env, r, w1, h + 1, fuel);
      Ok((Apply(op, v2, v1, u.address(w2.tick)), w2.(tick := w2.tick + 1)))
    case Not(e1) =>
      var (v, w1) :- Eval(u, d, env, e1, w, h, fuel);
      Ok((LogicalNot(v), w1))
    case Minus(e1) =>
      var (v, w1) :- Eval(u, d, env, e1, w, h, fuel);
      Ok((Negate(v), w1))
    case Exists(i) =>
      var _ :- Room(h);
      var p :- Resolve(i, env);
      Ok((Truth(p in w.store), w))
    case Fetch(i, args) =>
      var (vs, w1) :- EvalArgs(u, d, env, args, w, h, fuel);
      var _ :- Room(h + |vs|);
      var p :- Resolve(i, env);
      if p !in w1.store then Ok((NIL, w1))
      else match w1.store[p]
      // Arguments given to a value item would stay on the stack for ever.
      case Val(v) => if vs == [] then Ok((v, w1)) else Excluded
      case Code(prog) => if fuel == 0 then Timeout else Call(u, d, prog, vs, w1, h, fuel - 1)
  }

  function EvalArgs(u: Unspecified, d: nat, env: Env, a: Args, w: World, h: nat, fuel: nat)
    : (r: Outcome<(seq<Value>, World)>)
    ensures r.Ok? ==> |r.val.0| == ArgCount(a)
    decreases fuel, a, 0
  {
    match a
    case NoArgs => Ok(([], w))
    case MoreArgs(e, rest) =>
      var (v, w1) :- Eval(u, d, env, e, w, h, fuel);
      var (vs, w2) :- EvalArgs(u, d, env, rest, w1, h + 1, fuel);
      Ok(([v] + vs, w2))
  }

  /** Surplus arguments are dropped, missing ones are nil. */
  function FitArgs(vs: seq<Value>, k: nat): (r: seq<Value>)
    ensures |r| == k
  {
    if |vs| >= k then vs[..k] else vs + seq(k - |vs|, _ => NIL)
  }

  /** Locals that are not parameters start with whatever their slots held. */
  function InitialLocals(u: Unspecified, vs: seq<Value>, n: nat, tick: nat): (r: seq<Value>)
    requires |vs| <= n
    ensures |r| == n
  {
    vs + seq(n - |vs|, i requires 0 <= i => u.slot(tick + i))
  }

  /** The environment in which the i-th name of t has the i-th value. */
  function Bind(t: seq<Text>, vs: seq<Value>): Env
    requires |t| == |vs|
  {
    if t == [] then map[]
    else Bind(t[..|t| - 1], vs[..|t| - 1])[t[|t| - 1] := vs[|t| - 1]]
  }

  /**
   * The result of an item: its last operand; without operands, its last local, except at the very
   * bottom of the stack. An item with neither would take its caller's operand instead.
   */
  function ItemResult(fr: Frame, st: State): Outcome<Value> {
    if st.ops != [] then Ok(st.ops[|st.ops| - 1])
    else if fr.base == 0 then Ok(NIL)
    else if fr.table == [] then Excluded
    else Binding(st.env, fr.table[|fr.table| - 1])
  }

  /** Calling a code item from a frame whose stack holds h values below the arguments. */
  function Call(u: Unspecified, d: nat, prog: Program, vs: seq<Value>, w: World, h: nat, fuel: nat)
    : Outcome<(Value, World)>
    decreases fuel
  {
    var t := Table(prog);
    if d >= CALLSTACK_SIZE || h + |t| > SLOT_LIMIT || |prog.params| > |t| then Excluded
    else
      var fr := Frame(h, t, d + 1);
      var locals := InitialLocals(u, FitArgs(vs, |prog.params|), |t|, w.tick);
      var st := State(Bind(t, locals), [], w.(tick := w.tick + (|t| - |prog.params|)));
      var (_, st') :- ExecBlock(u, fr, prog.body, st, fuel);
      var v :- ItemResult(fr, st');
      Ok((v, st'.world))
  }

  function Height(fr: Frame, st: State): nat { fr.base + |fr.table| + |st.ops| }

  function EvalIn(u: Unspecified, fr: Frame, e: Expr, st: State, fuel: nat): Outcome<(Value, World)>
    decreases fuel, e, 1
  {
    Eval(u, fr.depth, st.env, e, st.world, Height(fr, st), fuel)
  }

  function Exec(u: Unspecified, fr: Frame, s: Stmt, st: State, fuel: nat): Outcome<(Flow, State)>
    decreases fuel, s
  {
    match s
    case While(c, body) =>
      var (v, w) :- EvalIn(u, fr, c, st, fuel);
      if !IsTrue(v) then Ok((Normal, st.(world := w)))
      else
        var (flow, st1) :- ExecBlock(u, fr, body, st.(world := w), fuel);
        if flow.Returned? then Ok((flow, st1))
        else if fuel == 0 then Timeout
        else Exec(u, fr, s, st1, fuel - 1)
    case If(c, body, tail) =>
      var (v, w) :- EvalIn(u, fr, c, st, fuel);
      if IsTrue(v) then ExecBlock(u, fr, body, st.(world := w), fuel)
      else ExecTail(u, fr, tail, st.(world := w), fuel)
    case Return => Ok((Returned, st))
    case Assign(x, e) =>
      var (v, w) :- EvalIn(u, fr, e, st, fuel);
      Ok((Normal, st.(env := st.env[x := v], world := w)))
    case AssignItem(i, e) =>
      var _ :- Room(Height(fr, st));
      var p :- Resolve(i, st.env);
      var (v, w) :- Eval(u, fr.depth, st.env, e, st.world, Height(fr, st) + 1, fuel);
      // A code item keeps its type but loses its bytecode.
      if p in w.store && w.store[p].Code? then Excluded
      else Ok((Normal, st.(world := w.(store := Insert(w.store, p, Val(v))))))
    case Inc(x) =>
      var v :- Binding(st.env, x);
      Ok((Normal, st.(env := st.env[x := Increment(v, 1)])))
    case Dec(x) =>
      var v :- Binding(st.env, x);
      Ok((Normal, st.(env := st.env[x := Increment(v, -1)])))
    case Evaluate(e) =>
      var (v, w) :- EvalIn(u, fr, e, st, fuel);
      Ok((Normal, st.(ops := st.ops + [v], world := w)))
  }

  function ExecTail(u: Unspecified, fr: Frame, l: Tail, st: State, fuel: nat): Outcome<(Flow, State)>
    decreases fuel, l
  {
    match l
    case EndIf => Ok((Normal, st))
    case Elsif(c, body, tail) =>
      var (v, w) :- EvalIn(u, fr, c, st, fuel);
      if IsTrue(v) then ExecBlock(u, fr, body, st.(world := w), fuel)
      else ExecTail(u, fr, tail, st.(world := w), fuel)
    case Else(body) => ExecBlock(u, fr, body, st, fuel)
  }

  function ExecBlock(u: Unspecified, fr: Frame, b: Block, st: State, fuel: nat): Outcome<(Flow, State)>
    decreases fuel, b
  {
    match b
    case Done => Ok((Normal, st))
    case Then(s, rest) =>
      var (flow, st1) :- Exec(u, fr, s, st, fuel);
      if flow.Returned? then Ok((flow, st1)) else ExecBlock(u, fr, rest, st1, fuel)
  }
}
