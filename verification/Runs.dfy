/** From source to result: the single-pass compiler, then the virtual machine, against the source meaning. */
module Runs {
  import opened Values
  import opened Paths
  import opened Syntax
  import opened Source
  import opened CodeGen
  import opened Execution
  import opened Correctness
  import opened CompilerTheorems
  import Emitter
  import Items
  import VirtualMachine

  lemma RunIsFaithful(u: Unspecified, prog: Program, w: World, fuel: nat)
    requires Compiles(prog) && prog.params == [] && Compiled(w.store)
    ensures var i := Interpreter.Interpret(u, GenProgram(prog), Boot(w), fuel);
      match RunProgram(u, prog, w, fuel)
      case Ok((v, w')) => i.Timeout? || (i.Ok? && i.val.0 == v && i.val.1.store == CompileStore(w'.store))
      case Timeout => i.Timeout?
      case Excluded => true
  {
    hide RunProgram, Compiles, Compiled, CompileStore, Boot, Interpreter.Interpret;
    CompilerCorrect(u, prog, w, fuel);
  }

  /** A source run that ends is reached by the bytes with some fuel, and then with any more. */
  lemma EnoughFuel(u: Unspecified, prog: Program, w: World, fuel: nat) returns (enough: nat)
    requires Compiles(prog) && prog.params == [] && Compiled(w.store) && RunProgram(u, prog, w, fuel).Ok?
    ensures forall n: nat :: n >= enough ==>
      var i := Interpreter.Interpret(u, GenProgram(prog), Boot(w), n);
      var (v, w') := RunProgram(u, prog, w, fuel).val;
      i.Ok? && i.val.0 == v && i.val.1.store == CompileStore(w'.store)
  {
    hide RunProgram, Compiles, Compiled, CompileStore, Boot, Interpreter.Interpret;
    CompilerCorrect(u, prog, w, fuel);
    var code := GenProgram(prog);
    var (v, w') := RunProgram(u, prog, w, fuel).val;
    var m :| Returns(u, code, Boot(w), v, m) && m.store == CompileStore(w'.store) && m.calls == [];
    enough :| Interpreter.Interpret(u, code, Boot(w), enough) == Ok((v, m));
    forall n: nat | n >= enough
      ensures Interpreter.Interpret(u, code, Boot(w), n) == Ok((v, m))
    {
      InterpretMonotone(u, code, Boot(w), enough, n);
    }
  }

  /** The machine's run is a run of the generator's bytes by the step functions. */
  ghost predicate Ran(u: Unspecified, prog: Program, store: Store<Program>, fuel: nat, r: Outcome<Value>,
                      vm: VirtualMachine.VM)
    requires vm.Valid()
    reads vm, vm.stack, vm.entry
  {
    Interpreter.Interpret(u, GenProgram(prog), Boot(World(store, 0)), fuel) == VirtualMachine.Lift(r, vm.Abs())
  }

  /** The source run with the fuel n has ended with v and the items of w, and the bytes end within fuel. */
  ghost predicate Ends(u: Unspecified, prog: Program, store: Store<Program>, n: nat, fuel: nat, v: Value, w: World) {
    RunProgram(u, prog, World(store, 0), n) == Ok((v, w))
    && !Interpreter.Interpret(u, GenProgram(prog), Boot(World(store, 0)), fuel).Timeout?
  }

  /**
   * Whatever the unspecified values turn out to be, compiling an item in one pass with back-patched
   * jumps and running the bytes on the machine's arrays, over the tree of items, does what the step
   * functions do with the generator's bytes. So it gives the value and the items that the source
   * means: it has them when the source run ends and the fuel is enough for the bytes, and it is out
   * of fuel when the source still runs after as many rounds and calls.
   */
  method CompileAndRun(prog: Program, tree: Items.Itemstore, ghost store: Store<Program>, fuel: nat)
    returns (ok: bool, r: Outcome<Value>, vm: VirtualMachine.VM)
    requires LexicalBlock(prog.body) && prog.params == [] && |Table(prog)| < 256 && |GenProgram(prog)| < 0x8000
    requires Emitter.ItemDepthBlock(prog.body) <= Emitter.MAX_NESTED
    requires Emitter.ControlDepthBlock(prog.body) <= Emitter.MAX_NESTED
    requires tree.Valid() && Compiled(store) && tree.Abs() == CompileStore(store)
    modifies tree, tree.items, tree.owner.Keys
    ensures ok <==> DefinedBlock(prog.body, prog.params)
    ensures vm.Linked() && vm.tree == tree
    ensures ok ==> forall u :: VirtualMachine.Extends(u, vm.log) ==> Ran(u, prog, store, fuel, r, vm)
    ensures ok ==> forall u, n: nat, v, w ::
      VirtualMachine.Extends(u, vm.log) && Ends(u, prog, store, n, fuel, v, w) ==>
      r == Ok(v) && tree.Abs() == CompileStore(w.store)
    ensures ok ==> forall u :: VirtualMachine.Extends(u, vm.log) ==>
      RunProgram(u, prog, World(store, 0), fuel).Timeout? ==> r.Timeout?
  {
    hide RunProgram, CompileStore, Compiled, GenProgram, Table, Interpreter.Interpret, VirtualMachine.Extends,
         LexicalBlock, DefinedBlock, Items.Itemstore.Valid, Items.Itemstore.Abs, Emitter.ItemDepthBlock,
         Emitter.ControlDepthBlock;
    var bytecode, errnum;
    ok, bytecode, errnum := Emitter.ParseSource(prog);
    vm := new VirtualMachine.VM(tree);
    if !ok { return ok, Excluded, vm; }
    r := vm.Interpret(bytecode, fuel);
    forall u, n: nat, v, w | VirtualMachine.Extends(u, vm.log) && Ends(u, prog, store, n, fuel, v, w)
      ensures r == Ok(v) && tree.Abs() == CompileStore(w.store)
    {
      EndsThere(u, prog, store, n, fuel, v, w);
    }
    forall u | VirtualMachine.Extends(u, vm.log) && RunProgram(u, prog, World(store, 0), fuel).Timeout?
      ensures r.Timeout?
    {
      RunIsFaithful(u, prog, World(store, 0), fuel);
    }
  }

  lemma EndsThere(u: Unspecified, prog: Program, store: Store<Program>, n: nat, fuel: nat, v: Value, w: World)
    requires Compiles(prog) && prog.params == [] && Compiled(store) && Ends(u, prog, store, n, fuel, v, w)
    ensures var i := Interpreter.Interpret(u, GenProgram(prog), Boot(World(store, 0)), fuel);
      i.Ok? && i.val.0 == v && i.val.1.store == CompileStore(w.store)
  {
    hide RunProgram, Compiles, Compiled, CompileStore, Boot, Interpreter.Interpret;
    var enough := EnoughFuel(u, prog, World(store, 0), n);
    var more := if enough > fuel then enough else fuel;
    InterpretMonotone(u, GenProgram(prog), Boot(World(store, 0)), fuel, more);
  }
}
