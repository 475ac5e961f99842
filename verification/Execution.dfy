/** Facts about running bytecode that do not depend on where the bytecode came from. */
module Execution {
  import opened Bytes
  import opened Values
  import opened Paths
  import opened CodeGen
  import opened Source
  import opened Interpreter

  datatype Point = Point(pc: int, m: Machine)

  // ----- more fuel does not change a result -----

  lemma {:induction false} RunMonotone(u: Unspecified, code: Code, pc: int, m: Machine, f: nat, g: nat)
    requires f <= g && Run(u, code, pc, m, f) != Timeout
    ensures Run(u, code, pc, m, g) == Run(u, code, pc, m, f)
    decreases f, 0, 0
  {
    if 0 <= pc < |code| && code[pc] != HALT {
      StepMonotone(u, code, pc, m, f - 1, g - 1);
      var r := Step(u, code, pc, m, f - 1);
      if r.Ok? {
        RunMonotone(u, code, r.val.0, r.val.1, f - 1, g - 1);
      }
    }
  }

  lemma {:induction false} StepMonotone(u: Unspecified, code: Code, pc: nat, m: Machine, f: nat, g: nat)
    requires pc < |code| && f <= g && Step(u, code, pc, m, f) != Timeout
    ensures Step(u, code, pc, m, g) == Step(u, code, pc, m, f)
    decreases f, 2
  {
    if code[pc] == FETCH && pc + 3 <= |code| && m.stack != [] && Top(m).Str? {
      var argc, m1 := Decode(code[pc + 1..pc + 3]), Drop(m, 1);
      var p := Split(Top(m).s);
      if p in m1.store && m1.store[p].Code? && |m1.store[p].c| >= 2 {
        var callee := m1.store[p].c;
        var m2 := AdjustArgs(m1, argc, callee[1]);
        if m2.Ok? && PushCall(m2.val, pc + 3, callee[1]).Ok? {
          InterpretMonotone(u, callee, PushCall(m2.val, pc + 3, callee[1]).val, f, g);
        }
      }
    }
  }

  lemma {:induction false} InterpretMonotone(u: Unspecified, code: Code, m: Machine, f: nat, g: nat)
    requires f <= g && Interpret(u, code, m, f) != Timeout
    ensures Interpret(u, code, m, g) == Interpret(u, code, m, f)
    decreases f, 0, 1
  {
    if EnterFrame(u, code, m).Ok? {
      RunMonotone(u, code, 2, EnterFrame(u, code, m).val, f, g);
    }
  }

  // ----- one point of a run leads to another -----

  ghost predicate Finishes(u: Unspecified, code: Code, a: Point, r: Result<Machine>) {
    exists f: nat :: Run(u, code, a.pc, a.m, f) == r
  }

  /** A run from a with some fuel ends as the run from b does; and if b's ends, so does a's. */
  ghost predicate Leads(u: Unspecified, code: Code, a: Point, b: Point) {
    && (forall g: nat :: Run(u, code, a.pc, a.m, g) != Timeout ==>
        Run(u, code, b.pc, b.m, g) == Run(u, code, a.pc, a.m, g))
    && (forall g: nat :: Run(u, code, b.pc, b.m, g) != Timeout ==>
        Finishes(u, code, a, Run(u, code, b.pc, b.m, g)))
  }

  lemma LeadsTransitive(u: Unspecified, code: Code, a: Point, b: Point, c: Point)
    requires Leads(u, code, a, b) && Leads(u, code, b, c)
    ensures Leads(u, code, a, c)
  {
    forall g: nat | Run(u, code, c.pc, c.m, g) != Timeout
      ensures Finishes(u, code, a, Run(u, code, c.pc, c.m, g))
    {
      var f: nat :| Run(u, code, b.pc, b.m, f) == Run(u, code, c.pc, c.m, g);
    }
  }

  /** One instruction that, given fuel enough, goes from a to b. */
  ghost predicate StepsTo(u: Unspecified, code: Code, a: Point, b: Point) {
    0 <= a.pc < |code| && code[a.pc] != HALT
    && (forall g: nat :: Step(u, code, a.pc, a.m, g) == Timeout || Step(u, code, a.pc, a.m, g) == Ok((b.pc, b.m)))
    && (exists f: nat :: Step(u, code, a.pc, a.m, f) == Ok((b.pc, b.m)))
  }

  lemma StepLeads(u: Unspecified, code: Code, a: Point, b: Point)
    requires StepsTo(u, code, a, b)
    ensures Leads(u, code, a, b)
  {
    forall g: nat | Run(u, code, a.pc, a.m, g) != Timeout
      ensures Run(u, code, b.pc, b.m, g) == Run(u, code, a.pc, a.m, g)
    {
      assert Step(u, code, a.pc, a.m, g - 1) == Ok((b.pc, b.m));
      RunMonotone(u, code, b.pc, b.m, g - 1, g);
    }
    var f: nat :| Step(u, code, a.pc, a.m, f) == Ok((b.pc, b.m));
    forall g: nat | Run(u, code, b.pc, b.m, g) != Timeout
      ensures Finishes(u, code, a, Run(u, code, b.pc, b.m, g))
    {
      var n := if f < g then g else f;
      StepMonotone(u, code, a.pc, a.m, f, n);
      RunMonotone(u, code, b.pc, b.m, g, n);
      assert Run(u, code, a.pc, a.m, n + 1) == Run(u, code, b.pc, b.m, n);
    }
  }

  /** One instruction costs one unit of fuel: the bookkeeping behind loops and calls. */
  lemma StepBurns(u: Unspecified, code: Code, a: Point, b: Point, f: nat)
    requires StepsTo(u, code, a, b)
    requires Run(u, code, b.pc, b.m, f) == Timeout
    ensures Run(u, code, a.pc, a.m, f + 1) == Timeout
  {
    var r := Step(u, code, a.pc, a.m, f);
  }

  lemma LeadsTimeout(u: Unspecified, code: Code, a: Point, b: Point, f: nat)
    requires Leads(u, code, a, b)
    requires Run(u, code, b.pc, b.m, f) == Timeout
    ensures Run(u, code, a.pc, a.m, f) == Timeout
  {
  }

  lemma PlainStep(u: Unspecified, code: Code, a: Point, b: Point)
    requires 0 <= a.pc < |code| && code[a.pc] != HALT && code[a.pc] != FETCH
    requires StepPlain(u, code, a.pc, a.m) == Ok((b.pc, b.m))
    ensures StepsTo(u, code, a, b) && Leads(u, code, a, b)
  {
    assert Step(u, code, a.pc, a.m, 0) == Ok((b.pc, b.m));
    StepLeads(u, code, a, b);
  }

  lemma LeadsReflexive(u: Unspecified, code: Code, a: Point)
    ensures Leads(u, code, a, a)
  {
    forall g: nat | Run(u, code, a.pc, a.m, g) != Timeout
      ensures Finishes(u, code, a, Run(u, code, a.pc, a.m, g))
    {
    }
  }
}
