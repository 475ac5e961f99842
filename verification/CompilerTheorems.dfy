/** The main results about compiled programs, stated on whole runs. */
module CompilerTheorems {
  import opened Bytes
  import opened Values
  import opened Paths
  import opened Syntax
  import opened Source
  import opened CodeGen
  import opened Interpreter
  import opened Execution
  import opened Correctness

  /** The source meaning of running an item from the run loop: an empty stack, no arguments. */
  function RunProgram(u: Unspecified, prog: Program, w: World, fuel: nat): Outcome<(Value, World)> {
    var t := Table(prog);
    var fr := Frame(0, t, 0);
    var st := State(Bind(t, InitialLocals(u, [], |t|, w.tick)), [], w.(tick := w.tick + |t|));
    var (_, st') :- ExecBlock(u, fr, prog.body, st, fuel);
    var v :- ItemResult(fr, st');
    Ok((v, st'.world))
  }

  /** The machine that the run loop hands to interpret. */
  function Boot(w: World): Machine {
    Machine([], 0, 0, 0, [], CompileStore(w.store), w.tick)
  }

  /**
   * Source meaning is preserved. If the source run ends with v in the world w', the bytecode run,
   * given enough fuel, ends with v and the compiled w'; if the source run is still going after
   * fuel loop rounds and calls, so is the bytecode run after fuel instructions.
   */
  lemma CompilerCorrect(u: Unspecified, prog: Program, w: World, fuel: nat)
    requires Compiles(prog) && prog.params == [] && Compiled(w.store)
    ensures var r, code := RunProgram(u, prog, w, fuel), GenProgram(prog);
      match r
      case Ok((v, w')) =>
        Compiled(w'.store)
        && exists m :: Returns(u, code, Boot(w), v, m) && m.store == CompileStore(w'.store) && m.calls == []
      case Timeout => Interpret(u, code, Boot(w), fuel) == Timeout
      case Excluded => true
  {
    hide *;
    ProgramCode(prog);
    ProgramParts(prog);
    BootTable(prog);
    BootEnters(u, prog, w);
    var c, st := BootFixed(prog), BootState(u, prog, w);
    FitsCovers(c, st);
    var stop := BlockSim(u, c, prog.body, st, fuel, prog.params, GenProgram(prog), 2);
    BootEnds(u, prog, w, fuel, stop);
  }

  function BootFixed(prog: Program): Fixed { Fixed([], Table(prog), 0, []) }

  function BootState(u: Unspecified, prog: Program, w: World): State {
    var t := Table(prog);
    State(Bind(t, InitialLocals(u, [], |t|, w.tick)), [], w.(tick := w.tick + |t|))
  }

  lemma BootTable(prog: Program)
    ensures BootFixed(prog).table == Table(prog)
  {
  }

  /** The end of the run: the halt, and the result that interpret pops. */
  lemma BootEnds(u: Unspecified, prog: Program, w: World, fuel: nat, stop: int)
    requires Compiles(prog) && prog.params == [] && Fits(BootFixed(prog), BootState(u, prog, w))
    requires EnterFrame(u, GenProgram(prog), Boot(w)) == Ok(Layout(BootFixed(prog), BootState(u, prog, w)))
    requires var c, st, code, end := BootFixed(prog), BootState(u, prog, w), GenProgram(prog),
                                     2 + |GenBlock(prog.body, Table(prog))|;
      end < |code| && code[end] == HALT
      && Performs(u, c, code, 2, Layout(c, st), end, stop, ExecBlock(u, FrameOf(c), prog.body, st, fuel), fuel)
    ensures var r, code := RunProgram(u, prog, w, fuel), GenProgram(prog);
      match r
      case Ok((v, w')) =>
        Compiled(w'.store)
        && exists m :: Returns(u, code, Boot(w), v, m) && m.store == CompileStore(w'.store) && m.calls == []
      case Timeout => Interpret(u, code, Boot(w), fuel) == Timeout
      case Excluded => true
  {
    hide Run, Step, Leads, ExecBlock, GenBlock, GenProgram, EnterFrame, Layout, Bind, InitialLocals, Returns,
         CompileStore, Compiles, Table, Boot, ItemResult, TakeResult, Compiled;
    var c, st, code := BootFixed(prog), BootState(u, prog, w), GenProgram(prog);
    var r := ExecBlock(u, FrameOf(c), prog.body, st, fuel);
    if r.Ok? && ItemResult(FrameOf(c), r.val.1).Ok? {
      var (flow, st') := r.val;
      var q := if flow.Normal? then 2 + |GenBlock(prog.body, Table(prog))| else stop;
      HaltReturns(u, code, Boot(w), Layout(c, st), Point(q, Layout(c, st')));
      BootResult(c, st');
      var (v, m) := TakeResult(Layout(c, st'));
      assert RunProgram(u, prog, w, fuel) == Ok((v, st'.world));
      assert Returns(u, code, Boot(w), v, m);
    } else if r.Ok? {
      NoResult(FrameOf(c), r.val.1);
    }
  }

  lemma BootEnters(u: Unspecified, prog: Program, w: World)
    requires Compiles(prog) && prog.params == [] && Compiled(w.store)
    ensures Fits(BootFixed(prog), BootState(u, prog, w))
    ensures EnterFrame(u, GenProgram(prog), Boot(w)) == Ok(Layout(BootFixed(prog), BootState(u, prog, w)))
  {
    hide GenProgram, GenBlock, Compiles, Table, Bind, Slots, CompileStore, Compiled;
    ProgramCode(prog);
    var t := Table(prog);
    var locals := InitialLocals(u, [], |t|, w.tick);
    SlotsOfBind(t, locals);
    assert locals == seq(|t|, i requires 0 <= i => u.slot(w.tick + i));
    assert [] + locals == locals && locals + [] == locals;
  }

  lemma BootResult(c: Fixed, st: State)
    requires Fits(c, st) && c.below == [] && ItemResult(FrameOf(c), st).Ok?
    ensures var (v, m) := TakeResult(Layout(c, st));
      v == ItemResult(FrameOf(c), st).val && m.store == CompileStore(st.world.store) && m.calls == c.calls
  {
    var s := Layout(c, st).stack;
    if st.ops != [] {
      assert s[|s| - 1] == st.ops[|st.ops| - 1];
    }
  }

  /** A bytecode run that halts within fuel instructions comes from a source run that ends within fuel. */
  lemma HaltingRunIsASourceRun(u: Unspecified, prog: Program, w: World, fuel: nat)
    requires Compiles(prog) && prog.params == [] && Compiled(w.store)
    requires Interpret(u, GenProgram(prog), Boot(w), fuel).Ok?
    ensures var r, (v, m) := RunProgram(u, prog, w, fuel), Interpret(u, GenProgram(prog), Boot(w), fuel).val;
      r.Excluded? || (r.Ok? && r.val.0 == v && m.store == CompileStore(r.val.1.store))
  {
    CompilerCorrect(u, prog, w, fuel);
  }

  // ----- two places where a call does not do what the language description says -----

  /** The machine right after the callee's halt and op_fetchitem's clean-up. */
  function AfterHalt(c: Fixed, st: State): Outcome<Machine>
    requires Fits(c, st) && c.calls != []
  {
    var (v, m) := TakeResult(Layout(c, st));
    if m.calls == [] then Excluded else Push(PopCall(m), v)
  }

  lemma AfterHaltStack(c: Fixed, st: State)
    requires Fits(c, st) && c.calls != [] && c.calls[|c.calls| - 1].height == |c.below| < STACK_SIZE
    ensures AfterHalt(c, st).Ok?
    ensures |AfterHalt(c, st).val.stack| == |c.below| + 1 <==> c.below == [] || |c.table| + |st.ops| > 0
    ensures c.below != [] && |c.table| + |st.ops| == 0 ==> AfterHalt(c, st).val.stack == c.below
  {
    hide Covers, Distinct, Compiled, CompileStore;
    var l := Layout(c, st);
    if c.below != [] && |c.table| + |st.ops| == 0 {
      assert l.stack == c.below;
      assert c.below == c.below[..|c.below| - 1] + [c.below[|c.below| - 1]];
    }
  }

  /** A callee that comes to a halt brings the call instruction to the machine of AfterHalt. */
  lemma FetchEndsAfterHalt(u: Unspecified, code: Code, pc: nat, m: Machine, vs: seq<Value>, name: Text, callee: Code,
                           start: Machine, q: int, c: Fixed, st: State)
    requires |vs| < 0x1_0000 && CodeAt(code, pc, [FETCH] + Int16(|vs|))
    requires Split(name) in m.store && m.store[Split(name)] == Content.Code(callee)
    requires |callee| >= 2 && |m.stack| + callee[1] <= STACK_SIZE && |m.calls| < CALLSTACK_SIZE
    requires EnterFrame(u, callee, Calling(m, pc + 3, FitArgs(vs, callee[1]))) == Ok(start)
    requires Fits(c, st) && c.calls == Calling(m, pc + 3, FitArgs(vs, callee[1])).calls && AfterHalt(c, st).Ok?
    requires 0 <= q < |callee| && callee[q] == HALT && Leads(u, callee, Point(2, start), Point(q, Layout(c, st)))
    ensures StepsTo(u, code, Point(pc, m.(stack := m.stack + vs + [Str(name)])), Point(pc + 3, AfterHalt(c, st).val))
  {
    hide Run, Step, Leads, EnterFrame, Fits, Layout, CodeAt, Split, FitArgs, TakeResult, Interpret;
    FitsCovers(c, st);
    var m3, l := Calling(m, pc + 3, FitArgs(vs, callee[1])), Layout(c, st);
    var v, m4 := TakeResult(l).0, TakeResult(l).1;
    var a, b := Point(pc, m.(stack := m.stack + vs + [Str(name)])), Point(pc + 3, AfterHalt(c, st).val);
    FetchField(code, pc, |vs|);
    HaltReturns(u, callee, m3, start, Point(q, l));
    LayoutCalls(c, st);
    forall g: nat
      ensures Step(u, code, pc, a.m, g) == AfterCall(Interpret(u, callee, m3, g))
    {
      FetchEntersCallee(u, code, pc, m, vs, name, callee, g);
    }
    var f: nat :| Interpret(u, callee, m3, f) == Ok((v, m4));
    assert AfterCall(Ok((v, m4))) == Ok((b.pc, b.m));
    assert Step(u, code, pc, a.m, f) == Ok((b.pc, b.m));
  }

  lemma LayoutCalls(c: Fixed, st: State)
    requires Fits(c, st)
    ensures TakeResult(Layout(c, st)).1.calls == c.calls
  {
  }

  /**
   * The call instruction, on a compiled item whose source runs to the state st': it adds exactly one
   * value to its caller's stack if and only if the callee's frame is not empty at its halt, or
   * nothing lies below it. Otherwise it takes the caller's own top value for its result, and the
   * stack ends no higher than it was.
   */
  lemma CallNetsOneValue(u: Unspecified, code: Code, pc: nat, m: Machine, vs: seq<Value>, name: Text, prog: Program,
                         w: World, fuel: nat) returns (m': Machine)
    requires |vs| < 0x1_0000 && CodeAt(code, pc, [FETCH] + Int16(|vs|))
    requires HoldsWorld(m, w) && Split(name) in w.store && w.store[Split(name)] == Content.Code(prog)
    requires |m.calls| < CALLSTACK_SIZE && |m.stack| + |Table(prog)| <= SLOT_LIMIT
    requires Compiles(prog) && |prog.params| <= |Table(prog)|
    requires var c := CalleeFixed(prog, m, pc + 3);
      ExecBlock(u, FrameOf(c), prog.body, CalleeStart(u, prog, vs, w), fuel).Ok?
    ensures StepsTo(u, code, Point(pc, m.(stack := m.stack + vs + [Str(name)])), Point(pc + 3, m'))
    ensures var c := CalleeFixed(prog, m, pc + 3);
      var st' := ExecBlock(u, FrameOf(c), prog.body, CalleeStart(u, prog, vs, w), fuel).val.1;
      && (|m'.stack| == |m.stack| + 1 <==> m.stack == [] || |Table(prog)| + |st'.ops| > 0)
      && (m.stack != [] && |Table(prog)| + |st'.ops| == 0 ==> m'.stack == m.stack)
  {
    hide *;
    ProgramCode(prog);
    ProgramParts(prog);
    EnterSim(u, prog, vs, w, m, pc + 3);
    var c, st := CalleeFixed(prog, m, pc + 3), CalleeStart(u, prog, vs, w);
    FitsCovers(c, st);
    CalleeParts(prog, m, pc + 3, vs);
    var stop := BlockSim(u, c, prog.body, st, fuel, prog.params, GenProgram(prog), 2);
    var end := 2 + |GenBlock(prog.body, Table(prog))|;
    var (flow, st') := ExecBlock(u, FrameOf(c), prog.body, st, fuel).val;
    Performed(u, c, GenProgram(prog), 2, Layout(c, st), end, stop, flow, st', fuel);
    var q := if flow.Normal? then end else stop;
    AfterHaltStack(c, st');
    CompiledItem(m, w, Split(name), prog);
    FetchEndsAfterHalt(u, code, pc, m, vs, name, GenProgram(prog), Layout(c, st), q, c, st');
    m' := AfterHalt(c, st').val;
  }

  lemma CalleeParts(prog: Program, m: Machine, next: nat, vs: seq<Value>)
    ensures var c := CalleeFixed(prog, m, next);
      && c.table == Table(prog) && c.below == m.stack && c.calls == Calling(m, next, FitArgs(vs, |prog.params|)).calls
      && c.calls != [] && c.calls[|c.calls| - 1].height == |c.below|
    ensures SLOT_LIMIT < STACK_SIZE
  {
  }

  lemma Performed(u: Unspecified, c: Fixed, code: Code, pc: int, m: Machine, end: int, stop: int, flow: Flow, st: State,
                  fuel: nat)
    requires Performs(u, c, code, pc, m, end, stop, Ok((flow, st)), fuel)
    ensures Fits(c, st) && Covers(st.env, c.table)
    ensures flow.Normal? ==> Leads(u, code, Point(pc, m), Point(end, Layout(c, st)))
    ensures !flow.Normal? ==>
      0 <= stop < |code| && code[stop] == HALT && Leads(u, code, Point(pc, m), Point(stop, Layout(c, st)))
  {
    hide Leads, Compiled;
  }

  lemma CompiledItem(m: Machine, w: World, p: Path, prog: Program)
    requires HoldsWorld(m, w) && p in w.store && w.store[p] == Content.Code(prog)
    ensures p in m.store && m.store[p] == Content.Code(GenProgram(prog))
  {
  }

  /** An item with neither locals nor statements takes its caller's top value: no value is added. */
  lemma EmptyItemTakesTheTop(u: Unspecified, code: Code, pc: nat, m: Machine, v: Value, name: Text, g: nat)
    requires CodeAt(code, pc, [FETCH] + Int16(0)) && |m.calls| < CALLSTACK_SIZE && g > 0
    requires Split(name) in m.store && m.store[Split(name)] == Content.Code([0, 0, HALT])
    ensures GenProgram(Program([], Done)) == [0, 0, HALT] && code[pc] == FETCH
    ensures var m' := m.(stack := [v]); Step(u, code, pc, m'.(stack := [v, Str(name)]), g) == Ok((pc + 3, m'))
  {
    hide Split, Step, Interpret, FitArgs, AfterCall;
    var m' := m.(stack := [v]);
    EmptyItemCode();
    FetchField(code, pc, 0);
    FetchEntersCallee(u, code, pc, m', [], name, [0, 0, HALT], g);
    assert [v] + [] + [Str(name)] == [v, Str(name)];
    EmptyItemReturns(u, m', pc + 3, v, g);
  }

  lemma EmptyItemCode()
    ensures GenProgram(Program([], Done)) == [0, 0, HALT]
  {
  }

  lemma EmptyItemReturns(u: Unspecified, m: Machine, next: nat, v: Value, g: nat)
    requires m.stack == [v] && g > 0
    ensures AfterCall(Interpret(u, [0, 0, HALT], Calling(m, next, FitArgs([], 0)), g)) == Ok((next, m))
  {
    hide StepPlain, StepFetch;
    var callee: Code := [0, 0, HALT];
    var m3 := Calling(m, next, []);
    assert FitArgs([], 0) == [] && [v] + [] == [v];
    assert m3.stack + seq(0, i requires 0 <= i => u.slot(m3.tick + i)) == [v];
    var m5 := m3.(locals := 0, params := 0);
    assert EnterFrame(u, callee, m3) == Ok(m5);
    assert Run(u, callee, 2, m5, g) == Ok(m5);
    assert Drop(m5, 1).stack == [] && PopCall(Drop(m5, 1)) == m.(stack := []);
    assert [] + [v] == [v];
  }

  /**
   * An item reference with arguments leaves one value in place of them if and only if it takes no
   * arguments or does not name a value item: a value item leaves its arguments under its value.
   */
  lemma ValueItemKeepsArguments(u: Unspecified, code: Code, pc: nat, m: Machine, vs: seq<Value>, name: Text, v: Value)
    requires |vs| < 0x1_0000 && CodeAt(code, pc, [FETCH] + Int16(|vs|))
    requires Split(name) in m.store && m.store[Split(name)] == Val(v) && |m.stack| + |vs| < STACK_SIZE
    ensures code[pc] == FETCH
    ensures forall g: nat :: Step(u, code, pc, m.(stack := m.stack + vs + [Str(name)]), g)
                          == Ok((pc + 3, m.(stack := m.stack + vs + [v])))
    ensures m.stack + vs + [v] == m.stack + [v] <==> vs == []
  {
    FetchField(code, pc, |vs|);
    var a := m.(stack := m.stack + vs + [Str(name)]);
    assert Drop(a, 1).stack == m.stack + vs;
    assert |m.stack + vs + [v]| == |m.stack + [v]| + |vs|;
  }
}
