/** Programs whose bytes and results are known: the whole way from source to result, on inputs. */
module Examples {
  import opened Bytes
  import opened Values
  import opened Syntax
  import opened Source
  import opened CodeGen
  import opened Correctness
  import opened CompilerTheorems
  import opened Runs

  /** With the fuel n, p runs to the value v and leaves the items of w. */
  ghost predicate EndsWith(u: Unspecified, p: Program, w: World, v: Value, n: nat) {
    var r := Interpreter.Interpret(u, GenProgram(p), Boot(w), n);
    r.Ok? && r.val.0 == v && r.val.1.store == CompileStore(w.store)
  }

  ghost predicate GivesFrom(u: Unspecified, p: Program, w: World, v: Value, enough: nat) {
    forall n: nat :: n >= enough ==> EndsWith(u, p, w, v, n)
  }

  lemma SourceGives(u: Unspecified, p: Program, w: World, v: Value, fuel: nat) returns (enough: nat)
    requires Compiles(p) && p.params == [] && Compiled(w.store)
    requires RunProgram(u, p, w, fuel).Ok? && RunProgram(u, p, w, fuel).val.0 == v
    requires RunProgram(u, p, w, fuel).val.1.store == w.store
    ensures GivesFrom(u, p, w, v, enough)
  {
    hide RunProgram, Compiles, Compiled, CompileStore, Boot, Interpreter.Interpret, GenProgram;
    enough := EnoughFuel(u, p, w, fuel);
  }

  /** 5 - 3; */
  function Difference(): Program {
    Program([], Then(Evaluate(Binary(Sub, IntLit(5), IntLit(3))), Done))
  }

  const DIFFERENCE: Code :=
    [0, 0, PUSH_INT, 5, 0, 0, 0, 0, 0, 0, 0, PUSH_INT, 3, 0, 0, 0, 0, 0, 0, 0, 115, HALT]

  lemma DifferenceCode()
    ensures GenProgram(Difference()) == DIFFERENCE && Compiles(Difference())
  {
    hide GenBlock, Table, LexicalBlock, DefinedBlock;
    DifferenceTable();
    DifferenceBody();
  }

  lemma DifferenceTable()
    ensures Table(Difference()) == [] && LexicalBlock(Difference().body) && DefinedBlock(Difference().body, [])
  {
    var e := Binary(Sub, IntLit(5), IntLit(3));
    assert LexicalExpr(e) && DefinedExpr(e, []);
  }

  lemma DifferenceBody()
    ensures GenBlock(Difference().body, []) == DIFFERENCE[2..|DIFFERENCE| - 1]
  {
    hide GenExpr, GenBlock;
    LiteralCode(5);
    LiteralCode(3);
    BlockCode(Binary(Sub, IntLit(5), IntLit(3)));
    DifferenceExpr();
    var five: Code := [PUSH_INT, 5, 0, 0, 0, 0, 0, 0, 0];
    var three: Code := [PUSH_INT, 3, 0, 0, 0, 0, 0, 0, 0];
    assert five + three + [115] == DIFFERENCE[2..21];
  }

  lemma DifferenceExpr()
    ensures GenExpr(Binary(Sub, IntLit(5), IntLit(3)), []) == GenExpr(IntLit(5), []) + GenExpr(IntLit(3), []) + [115]
  {
    hide Int64;
  }

  lemma BlockCode(e: Expr)
    ensures GenBlock(Then(Evaluate(e), Done), []) == GenExpr(e, [])
  {
    hide GenExpr;
    assert GenBlock(Done, []) == [] && GenStmt(Evaluate(e), []) == GenExpr(e, []);
    assert GenExpr(e, []) + [] == GenExpr(e, []);
  }

  lemma LiteralCode(n: byte)
    ensures GenExpr(IntLit(n), []) == [PUSH_INT, n, 0, 0, 0, 0, 0, 0, 0]
  {
    assert Encode(0, 0) == [] && Encode(1, 0) == [0] && Encode(2, 0) == [0, 0] && Encode(3, 0) == [0, 0, 0];
    assert Encode(4, 0) == [0, 0, 0, 0] && Encode(5, 0) == [0, 0, 0, 0, 0];
    assert Encode(6, 0) == [0, 0, 0, 0, 0, 0] && Encode(7, 0) == [0, 0, 0, 0, 0, 0, 0];
  }

  lemma DifferenceMeans(u: Unspecified, w: World)
    ensures var r := RunProgram(u, Difference(), w, 0);
      r.Ok? && r.val.0 == Int(2) && r.val.1.store == w.store
  {
    hide Apply, Call, Bind, InitialLocals;
    var e := Binary(Sub, IntLit(5), IntLit(3));
    DifferenceTable();
    FiveMinusThree(u.address(w.tick));
    var st := State(Bind([], InitialLocals(u, [], 0, w.tick)), [], w);
    assert Eval(u, 0, st.env, IntLit(5), w, 0, 0) == Ok((Int(5), w));
    assert Eval(u, 0, st.env, IntLit(3), w, 1, 0) == Ok((Int(3), w));
    assert Eval(u, 0, st.env, e, w, 0, 0) == Ok((Int(2), w.(tick := w.tick + 1)));
    var fr := Frame(0, [], 0);
    var st' := st.(ops := [Int(2)], world := w.(tick := w.tick + 1));
    assert st.ops + [Int(2)] == [Int(2)];
    assert Exec(u, fr, Evaluate(e), st, 0) == Ok((Normal, st'));
    assert ExecBlock(u, fr, Done, st', 0) == Ok((Normal, st'));
    assert ExecBlock(u, fr, Difference().body, st, 0) == Ok((Normal, st'));
  }

  lemma FiveMinusThree(address: Word)
    ensures Apply(Sub, Int(5), Int(3), address) == Int(2) && Wrap64(5) == 5 && Wrap64(3) == 3
  {
  }

  /** Five minus three is two: the bytes, and what they run to. */
  lemma DifferenceIsTwo(u: Unspecified, w: World) returns (enough: nat)
    requires Compiled(w.store)
    ensures GenProgram(Difference()) == DIFFERENCE && GivesFrom(u, Difference(), w, Int(2), enough)
  {
    hide *;
    DifferenceCode();
    DifferenceMeans(u, w);
    NoParameters();
    enough := SourceGives(u, Difference(), w, Int(2), 0);
  }

  lemma NoParameters()
    ensures Difference().params == []
  {
  }
}
