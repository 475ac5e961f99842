# A verified model of the game driver

This project models four parts of the driver and proves what each is for, over all inputs and all runs.

**Compiler and virtual machine.** `Syntax` and `Source` give the language and its meaning without bytecode: expressions
have values, statements change named locals, items live in a map from paths to values and programs, and calls nest
(fuel bounds loop rounds and calls). `CodeGen` is a structured generator, what the bytes should be once all jumps are
known. `Emitter` is the parser's single pass, a class that appends bytes, leaves 16-bit placeholders, keeps them on the
loop and IF stacks, goes back to fill them in, and assembles item references in side buffers that are merged after
their arguments. `Interpreter` is the machine as step functions over bytes, `VirtualMachine` the same machine as it is
in memory: fixed arrays, moving tops, frames saved and restored in place, and items looked up and assigned in the tree
of `Items`. `Correctness` is the simulation between source and bytes, `CompilerTheorems` and `Runs` state it on whole
runs, from source text's tree to the result left by the arrays and the tree. `Boundaries` says where instructions start
and that every jump goes to such a place, `Stepping` that the interpreter's runs go there too, and when they do not.
`ValueLaws` and `MachineLaws` say what operators and instructions give, and `Examples` takes a program from its tree to
its bytes and its result. What C leaves open (the old contents of a slot that becomes a local, the bits of a pointer
used as a number) is an arbitrary stream, the same one on both sides.

**Telnet engine.** `Negotiation` is the option protocol of section 7 of RFC 1143 between two peers over FIFO channels.
`TelnetSpec` is the engine one byte at a time, `Telnet` the engine as it is, a class with a slice-based parser that
must do the same. `EnginePeers` joins two engines by streams of bytes and shows that they behave as the two peers.
`OptionLaws` says what a command decides, answers and tells, `TelnetEncoding` has the escape encoders of RFC 854 and
the round trips, `RawData` says which data comes through whole between which modes, `TelnetFlags` when the binary flags
are right, and `Environ` is the two-pass in-place parser of section 2 of RFC 1572 on an array.

**Itemstore.** `HashTables` has the chained tables that resize, with the hash an arbitrary function of the key. `Items`
is the tree of objects with parent links, tables and insertion-ordered lists, refining the map of paths of `Paths`.
`NameLaws` says which names do not do what they seem to, and `ItemFile` is the file format, read and written.

**Lines, names and ids.** `Network` has line buffers and round-robin polling, `LineLives` what is reported of a line
over its lives, `Framing` the way of a text from the peer's encoder to the lines that are reported, `Util` the integer
printer, `Tasks` the id allocator. `Bytes`, `Values` and `Sequences` are shared.

Buffers are unbounded sequences unless they are arrays in the models; saved code addresses are offsets.

## What the code does that its description does not say

The model follows the code.

- A value item that is fetched with arguments leaves them on the stack (`src/interpret.c:716-724`).
- An item whose frame is empty at its halt returns its caller's top value (`src/stack.c:105-110`,
  `src/interpret.c:1090-1095`).
- The empty string is false for a jump and true for `and`, `or` and `not`; `Concepts.md` knows one notion of truth.
- Two nils are neither equal nor unequal; division always gives an int; subtraction looks at its top operand only.
- An item reference with an inner layer that has no valid content pushes nil and goes on at a byte inside the reference
  (`src/interpret.c:906-928`).
- A local is addressed in 8 bits, but as a layer it is not (`src/interpret.c:130`, `src/interpret.c:802`).
- A negative int names a layer that is no valid layer name (`src/interpret.c:820-831`).
- A name that ends in a dot addresses the item before the dot, but assigning to it only creates the layers
  (`src/item.c:388-429`).
- An int local as a layer is narrowed to 32 bits, so different ints can name one item (`src/interpret.c:820-831`).
- A parameter declared twice is saved twice by an assignment, which pops two values (`src/parser.y:186-196`).
- The ENVIRON parser refuses a payload whose last name or value ends in an escaped ESC, which RFC 1572 allows
  (`src/libtelnet.c:566-647`).
- The binary flags are not set when the BINARY option enters the table (`src/libtelnet.c:303-351`).
- Raw data with a carriage return does not come through a receiver that translates line ends, and can swallow a command
  (`src/libtelnet.c:999-1016`).
- A chunk that ends after IAC SB 85 WILL raises a DATA event of length -1 (`src/libtelnet.c:1085-1096`).
- A poll goes only from the position after the last one up to the last line: it can report nothing while a line waits
  (`src/libcall.c:197-245`).
- A connection whose first newline comes before its poll is never reported (`src/network.c:109-129`).

Each of these has a lemma with an input, or its exact condition, or both.

## Main results

1. Compiling in one pass and running on the arrays and the tree of items means what the source means:
   Runs.CompileAndRun, by way of Emitter.ParseSource (the pass yields the generator's bytes),
   CompilerTheorems.CompilerCorrect and its converse CompilerTheorems.HaltingRunIsASourceRun (the bytes do what the
   source does), and VirtualMachine.VM.Run (the arrays do what the step functions do). Correctness.BlockSim is the
   simulation of any statement list in any frame.
2. Every jump and every run stays on instruction starts, with the one exception exactly described:
   Boundaries.ProgramJumpsLand, Stepping.RunStaysOnStarts.
3. Where calls do not keep the caller's stack: CompilerTheorems.CallNetsOneValue,
   CompilerTheorems.ValueItemKeepsArguments, both if and only if.
4. Option negotiation is safe and ends, between abstract peers (Negotiation.NegotiationSafe,
   Negotiation.NegotiationEnds) and between two engines over streams of bytes (EnginePeers.PeersSafe,
   EnginePeers.PeersFallSilent).
5. The slice-based telnet parser is the byte machine (Telnet.Tracker.Process), however the stream is cut into chunks
   (Telnet.Tracker.ProcessChunks), with the one exception that TelnetSpec.MccpDiscarded describes.
6. What comes through the encoders and the parser: RawData.TranslatedIffClean, RawData.TextThrough,
   TelnetEncoding.SubnegotiationRoundTrip, each if and only if; TelnetFlags.FlagsFollowUnlessFirst on the binary flags;
   OptionLaws.CommandDecides on what a command decides, answers and tells.
7. The in-place ENVIRON parser against its specification, and its round trip if and only if: Environ.EnvironTelnet,
   Environ.EnvironRoundTrip.
8. Saving and loading gives the same items, and a file has one reading: ItemFile.SaveThenLoad, ItemFile.WrittenUnique.
   The tables under them keep their meaning when they resize: HashTables.ResizeRepresents. What names stand for:
   NameLaws.AssignedUnderName, NameLaws.IntegerLayers.
9. The lines reported are the lines sent, in every run: Framing.FramingIsExact. Polling is fair: Network.PollingIsFair.
   Every disconnection is reported exactly once: LineLives.LivesAreReported. Ids are never live twice, and stay as low
   as they can: Tasks.Run, Tasks.IdsStayLow.

In the table below these come first, then what they are built of, module by module.

## Model

| member | source | states |
|---|---|---|
| Runs.CompileAndRun | src/parser.y:406-489 | compiles iff every local is assigned above its first use; then what the machine's arrays and the tree of items do is a run of the generator's bytes. If the source run ends with a value and items and the fuel is enough for the bytes, the result is that value and the tree holds those items; if the source still runs after as many rounds and calls, the machine is out of fuel |
| CompilerTheorems.CompilerCorrect | src/parser.y:498-573 | if the source run ends with v and items w, the bytecode run ends, for all large enough fuel, with v and the compiled w; if the source run is still going, so is the bytecode run |
| CompilerTheorems.HaltingRunIsASourceRun | src/interpret.c:1060-1096 | a bytecode run that halts comes from a source run that ends with the same value and items |
| Runs.RunIsFaithful | src/interpret.c:1060-1096 | with any fuel, a bytecode run either times out or ends as the source run with that fuel does |
| Emitter.ParseSource | src/parser.y:406-489 | the single pass yields exactly the generator's bytes iff every local is assigned above its first use, and otherwise that error |
| Correctness.BlockSim | src/parser.y:491-512 | the bytes of any statement list, from any frame, lead to the end offset, or to a halt after RETURN, in exactly the machine that holds the source's locals, items and operands; if the source times out, so does the machine |
| Stepping.RunStaysOnStarts | src/interpret.c:1060-1096 | in every run of compiled code every position reached is the start of an instruction, iff no item reference before the last position breaks off at an inner layer without valid content |
| Boundaries.ProgramJumpsLand | src/parser.y:221-326 | in compiled code instructions follow one another from the third byte to the final halt, and every jump goes inside the code, to the start of one |
| CompilerTheorems.CallNetsOneValue | src/interpret.c:695-773 | the call instruction, on a compiled item whose source runs to its end, steps to a machine with exactly one value more on the caller's stack iff the item's frame is not empty at its halt or nothing lies below it; otherwise the stack ends no higher than it was |
| CompilerTheorems.ValueItemKeepsArguments | src/interpret.c:702-724 | a value item's arguments stay under its value, so one value takes their place iff there were none |
| VirtualMachine.VM.Run | src/interpret.c:1080-1085 | the dispatch loop over the arrays and the tree of items gives what the recursive run of the step functions gives, for every stream that agrees with what was drawn |
| EnginePeers.PeersSafe | src/libtelnet.c:363-508 | two new engines joined by byte streams that carry what each sends, with requests, data, text and subnegotiations at any time and bytes arriving one by one: neither ever warns, and with both streams empty they agree on every side of every option |
| EnginePeers.PeersFallSilent | src/libtelnet.c:363-508 | once the applications are silent the number of bytes that still arrive is bounded by an explicit measure |
| Negotiation.NegotiationSafe | src/libtelnet.c:363-508 | in every run of two peers: no error branch is taken, at most two commands per option side in flight each way, and with both channels empty the peers agree on NO or YES |
| Negotiation.NegotiationEnds | src/libtelnet.c:1241-1323 | without new requests every run of arrivals is bounded by an explicit measure |
| Telnet.Tracker.Process | src/libtelnet.c:967-1172 | the slice-based parser leaves the engine and the events that the byte machine leaves, wherever the original's slices have a length: not where the input ends with, or an IAC or translated carriage return follows, IAC SB 85 WILL |
| Telnet.Tracker.ProcessChunks | src/libtelnet.c:967-1172 | the slice-based parser, called on the chunks of a stream one after the other, leaves the engine and the events of the whole stream, unless a chunk ends inside MCCPv1's sequence or an IAC or translated carriage return follows that |
| RawData.TranslatedIffClean | src/libtelnet.c:974-1016 | escaped data comes through a receiver that translates line ends as it was iff, from the left, every carriage return not taken by the one before is followed by a byte other than newline, NUL and IAC |
| RawData.TextThrough | src/libtelnet.c:1351-1391 | text comes through as it was, for each mode of sender and receiver: to one that does not translate iff it was sent in binary mode or has no line ends; to one that does iff it was encoded, or is clean in the sense of RawData.TranslatedIffClean |
| TelnetEncoding.SubnegotiationRoundTrip | src/libtelnet.c:1074-1132 | one SUBNEGOTIATION event with exactly the payload, and one more if the option's payloads are parsed; options and flags unchanged, back in the data state, buffer grown along the table; iff the payload is at most 16384 bytes, otherwise a warning comes first |
| TelnetFlags.FlagsFollowUnlessFirst | src/libtelnet.c:303-351 | over every run of bytes and requests of a new engine: both binary flags say whether their side of BINARY is YES, iff BINARY was not written exactly once or neither side is YES |
| OptionLaws.CommandDecides | src/libtelnet.c:363-508 | a command's three bytes: whether the side is on afterwards, the answer (sent iff the state changes or something unsupported is offered, or something else is still to be asked; it says what is then wanted), and a notice iff the side went on or off |
| Environ.EnvironTelnet | src/libtelnet.c:521-650 | the in-place parse on the array: refuses what the specification refuses, and otherwise leaves the entries of the unescaped, split payload, none overwritten |
| Environ.EnvironRoundTrip | src/libtelnet.c:566-647 | any entries encoded by RFC 1572 are parsed back iff the last byte is not ESC |
| ItemFile.SaveThenLoad | src/item.c:678-752 | the file is an encoding of the store; loading it reads exactly its bytes, whatever follows, and gives the same paths, types, values and bytecode, except that the root's value is the int 0 |
| ItemFile.WrittenUnique | src/item.c:634-740 | no encoding is the beginning of another, and none is that of two trees |
| HashTables.ResizeRepresents | src/item.c:49-91 | resizing loses and duplicates nothing and the table means the same map |
| NameLaws.AssignedUnderName | src/item.c:388-429 | after an assignment the path that the name stands for holds the value iff the name is not empty and does not end in a dot, or the path held it already (a path just made holds nil) |
| NameLaws.IntegerLayers | src/interpret.c:820-831 | two int locals, not narrowed to the most negative int, name the same layer iff they differ by a multiple of 2^32 |
| Framing.FramingIsExact | src/network.c:109-153 | in every run, with any chunks, polls and other lines: the reported lines and those still buffered are exactly the lines of the text received so far, the buffer ends in its tail, and at the end that is the whole text |
| Network.PollingIsFair | src/libcall.c:197-245 | from every polling position a line that stays pending is served within as many polls as there are lines, and no other line twice before it |
| LineLives.LivesAreReported | src/libcall.c:197-245 | in every run a line has become vacant as often as its disconnection was reported, was closed as often as that and once more while a poll has yet to come to it, and was taken as often as that and once more while in use; and each connection was reported, or missed because text or a closing came first, or is still to be reported |
| Tasks.Run | src/task.c:26-67 | after any creations and destructions the live and retired ids are disjoint, without duplicates, and together exactly 1 to next - 1 |
| Tasks.IdsStayLow | src/task.c:47-67 | after any creations and destructions no id is greater than the greatest number of tasks that were ever alive at once |
| Runs.EnoughFuel | src/interpret.c:1060-1096 | a source run that ends is reached by the bytes: with some fuel, and with any more, they end with its value and items |
| Examples.DifferenceIsTwo | src/parser.y:533-565 | an input: the program 5 - 3 compiles to its 22 bytes, and they run to 2 |
| CompilerTheorems.FetchEndsAfterHalt | src/interpret.c:740-754 | a callee that comes to a halt brings the call instruction to the caller's restored machine with the popped result |
| CompilerTheorems.EmptyItemTakesTheTop | src/interpret.c:1090-1095 | an input: calling the item compiled from nothing with one value on the stack leaves just that value |
| Correctness.StmtSim | src/parser.y:498-531 | the bytes of any one statement lead to their end, or to a halt after RETURN, in exactly the machine that holds the locals, items and operands that the statement leaves |
| Correctness.WhileSim | src/parser.y:498-508 | loops: condition, body and backward jump simulate the source's rounds, each costing fuel |
| Correctness.IfSim | src/parser.y:509-511 | IF with its ELSIF and ELSE arms takes the source's branch and meets at the end |
| Correctness.AssignSim | src/parser.y:513-520 | assignment to a local writes its slot and nothing else |
| Correctness.StoreSim | src/parser.y:634-636 | assignment to an item stores the value under the assembled name |
| Correctness.EvalSim | src/parser.y:533-565 | the bytes of any expression push exactly its source value and change only the items |
| Correctness.ArgsSim | src/parser.y:626-632 | arguments are pushed first to last |
| Correctness.FetchSim | src/interpret.c:695-773 | fetching a missing item, a value or a code item does what the source says |
| Correctness.CallSim | src/interpret.c:724-754 | a call returns the source value of the callee, and taking the frame off leaves the caller's stack, base, locals and params as they were below the arguments |
| Correctness.EnterSim | src/interpret.c:1065-1077 | the callee's first locals are the arguments cut or nil-padded to its parameters, the rest whatever the slots held |
| Correctness.LeaveSim | src/vm.c:71-94 | popping the frame restores the caller's machine exactly, with the callee's result as the value |
| Correctness.AdjustArgsSim | src/interpret.c:726-738 | surplus arguments are dropped and missing ones pushed as nil |
| Correctness.ReadNameSim | src/interpret.c:775-928 | reading an emitted item reference stops just past its end marker with the dot-joined layer contents |
| Correctness.ItemSim | src/interpret.c:930-946 | the item instruction pushes a name that splits into exactly the layers |
| Stepping.StepGoes | src/interpret.c:1080-1085 | in any bytes, a step goes to the target of a jump that is taken, to a byte inside the reference when an inner layer has no valid content, and to the next instruction otherwise; a byte that is no opcode is an instruction of its own |
| Stepping.NameEnds | src/interpret.c:775-928 | reading an item reference ends past its end marker iff no layer before the last is without valid content |
| Stepping.RunIsVisited | src/interpret.c:1080-1085 | a run ends well iff the last position it visits is a halt, and in the machine it has there |
| Stepping.BadLayerBreaksOff | src/interpret.c:906-928 | a program that compiles and breaks off: its first layer is a local that holds an exclamation mark, the run goes on inside the reference, takes the name of the second layer for a halt and ends there |
| Execution.RunMonotone | src/interpret.c:1080-1085 | more fuel never changes the result of a run that ended |
| Syntax.LocalsBlockGrow | src/parser.y:148-208 | the table of locals only grows at its end and stays without duplicates |
| Syntax.SlotOfExtends | src/parser.y:148-160 | a local keeps its slot when the table grows |
| Emitter.Output.EmitByte | src/parser.y:99-116 | at the end it appends, after a rewind it overwrites one byte |
| Emitter.Output.EmitInt16 | src/parser.y:125-130 | two bytes, little-endian, agnostic of sign, appended or written over a placeholder |
| Emitter.Parser.EmitLiteral | src/parser.y:537-542 | an integer as opcode and eight bytes; a string as opcode, length in two bytes, then the characters |
| Emitter.Parser.EmitLocalOp | src/parser.y:198-208 | opcode and slot of a known local, or the error of an unknown one |
| Emitter.Parser.PrepareLocalAssign | src/parser.y:162-184 | a new name is added at the end of the table, a known one changes nothing |
| Emitter.Parser.EmitLocalAssign | src/parser.y:186-196 | one save instruction for every entry of the table with the name |
| CodeGen.SavesOnce | src/parser.y:186-196 | an assignment saves once, to the name's slot, iff the table has the name once |
| CodeGen.RepeatedParameterSavedTwice | src/parser.y:186-196 | an input: with a parameter declared twice, an assignment to it saves twice and so pops two values |
| CodeGen.OpcodesAreLetters | src/interpret.c:1022-1056 | each opcode is the letter under which the dispatch table has its function |
| Emitter.Parser.PrepareItem | src/parser.y:360-376 | a fresh side buffer and argument counter on top of the item stack |
| Emitter.Parser.FinaliseItem | src/parser.y:334-392 | the side buffer is merged at the end of the output and the item stack goes down |
| Emitter.Parser.EmitExpr | src/parser.y:533-582 | appends exactly the generator's bytes for the expression and restores the item stack, or fails iff a local is not known |
| Emitter.Parser.EmitFetch | src/parser.y:543-549 | the name assembled before the arguments comes out after them, with the argument count |
| Emitter.Parser.EmitArgs | src/parser.y:626-632 | the arguments' bytes, counting each on the right item |
| Emitter.Parser.Patch | src/parser.y:221-231 | filling in a placeholder changes its two bytes and returns to the end |
| Emitter.Parser.PrepareLoop | src/parser.y:210-219 | remembers the start of the loop one level up |
| Emitter.Parser.FinaliseLoop | src/parser.y:221-231 | the exit placeholder gets the distance to the end, nothing else changes |
| Emitter.Parser.PrepareIf | src/parser.y:250-261 | an empty set of placeholders one level up |
| Emitter.Parser.FixupLastElseJump | src/parser.y:272-282 | the pending jump to the next arm gets its distance and is forgotten |
| Emitter.Parser.FinaliseIf | src/parser.y:299-326 | a buffer that agrees with the generator's code outside this IF's open placeholders becomes that code, and the outer levels are untouched |
| Emitter.Parser.EmitWhile | src/parser.y:498-508 | a whole loop, arbitrarily nested, appends the generator's bytes and leaves outer placeholders untouched |
| Emitter.Parser.EmitIf | src/parser.y:509-511 | a whole IF with its arms, arbitrarily nested, appends the generator's bytes and leaves outer placeholders untouched |
| Emitter.Parser.EmitBlock | src/parser.y:491-531 | any statement list appends the generator's bytes, or fails iff a local is used before it is assigned |
| Emitter.AgreePatch | src/parser.y:272-326 | filling one hole with the right offset closes that hole and opens none |
| VirtualMachine.VM.Push | src/stack.c:51-61 | one value more on top, or the overflow signal with the stack full |
| VirtualMachine.VM.Pop | src/stack.c:63-77 | the top value, and the rest of the stack as it was; the slot becomes a nil that keeps the payload |
| VirtualMachine.VM.PushCallstack | src/vm.c:46-69 | saves the return offset, the height below the arguments and the frame registers, and moves the base |
| VirtualMachine.VM.PopCallstack | src/vm.c:71-94 | puts back exactly what was saved |
| VirtualMachine.VM.OpSaveLocal | src/interpret.c:110-125 | the top moves into the slot addressed in 8 bits |
| VirtualMachine.VM.OpBinary | src/interpret.c:174-513 | two values become the operator's result, the deeper one being the left operand |
| VirtualMachine.VM.OpJumpFalse | src/interpret.c:84-108 | the condition is consumed and the branch taken as the step function takes it |
| MachineLaws.PassedOver | src/interpret.c:29-36 | a byte that is no opcode changes nothing |
| MachineLaws.FetchWithoutName | src/interpret.c:695-773 | fetching under anything but a name leaves the arguments and puts a nil in the place of what was there |
| MachineLaws.AssignWithoutName | src/interpret.c:687-693 | assigning under anything but a name drops both values and changes no item |
| MachineLaws.LocalAsLayer | src/interpret.c:800-838 | which locals can be layers, and what text they give |
| MachineLaws.LocalsBeyondAByte | src/interpret.c:127-156 | from slot 256 on, reading a local and using it as a layer read two different slots |
| MachineLaws.ExistsTells | src/interpret.c:959-970 | EXISTS replaces a name by whether its path is there |
| MachineLaws.UpAndDown | src/interpret.c:49-73 | incrementing adds one to an int local and decrementing takes one away |
| VirtualMachine.VM.OpAssignItem | src/interpret.c:687-693 | the value goes into the tree of items in place, under the name below it, as the step function has it on the map of paths |
| VirtualMachine.VM.Assign | src/item.c:379-432 | the tree becomes what the map becomes, unless the name denotes a code item |
| VirtualMachine.VM.Content | src/item.c:484-508 | what the item with a name holds, looked up in the tree, is what the map has at its path |
| VirtualMachine.VM.AssembleItem | src/interpret.c:775-928 | the loop over layers computes the name that the recursive reader computes |
| VirtualMachine.VM.EnterFrame | src/interpret.c:1065-1077 | the new locals are the old slot contents, for every stream that begins with them |
| VirtualMachine.VM.AdjustArguments | src/interpret.c:726-738 | the two loops fit the arguments as the recursive function does |
| VirtualMachine.VM.OpFetch | src/interpret.c:695-773 | the call instruction, with its look-up in the tree of items and all that the callee does to it, refines the step function |
| VirtualMachine.VM.Interpret | src/interpret.c:1060-1096 | running an item on the arrays gives what the step functions give, for every stream that agrees with what was drawn |
| ValueLaws.NotEqualReversesEqual | src/interpret.c:303-360 | inequality is the negation of equality iff the operands are not both nil |
| ValueLaws.OrderingsAgree | src/interpret.c:362-456 | on two ints or two bools the four orderings are one total order; on anything else all are false |
| ValueLaws.DeMorgan | src/interpret.c:458-513 | and, or and not obey De Morgan's law on values of every type |
| ValueLaws.JumpsAgreeWithLogic | src/interpret.c:84-108 | a jump takes a value for true when the logical operators do, iff it is not the empty string |
| ValueLaws.QuotientTruncates | src/interpret.c:235-264 | the quotient truncates toward zero and the remainder has the dividend's sign |
| ValueLaws.DivisionWraps | src/interpret.c:235-264 | division by zero gives 0; otherwise the quotient is C's, save for the most negative number divided by -1: that is undefined in C, and the model gives it the wrapped value |
| ValueLaws.ArithmeticTypes | src/interpret.c:210-288 | subtraction and multiplication give an int iff the top operand is one, and nil otherwise; division always gives an int |
| ValueLaws.IncrementIsAdd | src/interpret.c:49-73 | incrementing is adding an int iff the local holds one |
| ValueLaws.IntArithmetic | src/interpret.c:174-302 | a + b, a - b, a * b, -a and increments of ints, the operand pushed first on the left: the number itself iff it fits 64 bits, and modulo 2^64 always |
| ValueLaws.DifferenceFits | src/interpret.c:210-233 | the difference of ints is exact when it fits |
| ValueLaws.SubtractThenAdd | src/interpret.c:174-233 | adding undoes subtracting, whatever wrapped |
| ValueLaws.OtherOperands | src/interpret.c:210-288 | a left operand that is no int is read as the number in its payload; a right one gives nil, or 0 in a division |
| ValueLaws.Sums | src/interpret.c:174-208 | strings are joined left before right, a nil adds its payload, anything else gives nil |
| ValueLaws.EqualIsSame | src/interpret.c:303-360 | two values are equal iff they are the same and not nil, and unequal iff they differ and are not both nil |
| ValueLaws.OrderingsCompare | src/interpret.c:362-456 | on two ints or two bools each ordering compares left with right |
| ValueLaws.Logic | src/interpret.c:458-513 | and, or and not on strings, non-zero ints and bools as true, and all else as false |
| ValueLaws.Conditions | src/interpret.c:84-108 | a jump takes zeros, nils and the empty string for false, and all else for true |
| Bytes.DecodeEncode | src/parser.y:118-130 | little-endian bytes decode to the number they encode |
| Bytes.Signed16OfInt16 | src/interpret.c:75-82 | a signed 16-bit offset survives emission and reading |
| Bytes.Signed64OfInt64 | src/interpret.c:38-47 | a 64-bit literal survives emission and reading |
| Paths.SplitJoin | src/item.c:484-508 | a name joined from non-empty layers without dots comes apart into the same layers |
| Paths.JoinSplit | src/item.c:484-508 | a name is the join of its layers iff it does not end in a dot |
| Paths.InsertAt | src/item.c:379-432 | assigning to a path changes that path, creates exactly its missing prefixes as nil, and nothing else |
| Paths.InsertPrefixClosed | src/item.c:379-432 | assigning to a path keeps every path's prefixes in the store |
| Paths.DeletePrefixClosed | src/item.c:519-549 | deletion keeps the paths closed under prefixes |
| Paths.InsertNamedSolid | src/item.c:379-482 | a store whose paths can all be written as names stays so |
| NameLaws.IntegerLayerIsNumeral | src/interpret.c:820-831 | an int local names the layer of its own decimal numeral iff it fits an int |
| NameLaws.OneLayerForTwoIntegers | src/interpret.c:820-831 | an input: 1 and 4294967297 name the layer 1 |
| NameLaws.NumeralsAreLayers | src/interpret.c:820-831 | the numeral of an int is a valid layer iff it is not negative, and can always be used as one |
| NameLaws.LayerAlphabet | src/item.c:800-819 | a layer is made of letters, digits and underscores |
| NameLaws.LongestLayer | src/item.c:800-819 | a layer has at most 32 characters |
| NameLaws.DotLosesTheValue | src/item.c:388-429 | an input: assigning 1 under a name of one layer and a dot makes that layer a nil item |
| NameLaws.EmptyLayerEndsInDot | src/interpret.c:802-818 | how such a name comes about: a local that holds the empty string is a valid last layer |
| Util.Itoa | src/util.c:14-40 | in every base from 2 to 36 the buffer becomes the numeral as a C string, with a minus sign in base 10; bytes past it are unchanged |
| Util.NumeralDenotes | src/util.c:21-29 | the numeral printed in a base stands for the number in that base |
| Util.PrintedIsDecimal | src/util.c:14-29 | in base 10 it is the decimal numeral by which items are named |
| Util.WriteDigits | src/util.c:22-29 | the digit loop writes the digits of the numeral, the last one first, and nothing else |
| Util.ReverseInPlace | src/util.c:31-37 | the second loop turns that stretch round and leaves the rest |
| HashTables.PutRepresents | src/item.c:126-156 | inserting under a new key adds that key to the map, each entry in bucket hash mod size, keys unique |
| HashTables.RemoveRepresents | src/item.c:181-212 | deleting takes the key out of the map and leaves every other |
| HashTables.GrownRepresents | src/item.c:114-124 | after an insertion and a possible resize the load is at most 3/4 |
| HashTables.PutAtEnd | src/item.c:126-156 | a new entry is the last of its bucket's chain, and no other chain changes |
| HashTables.FilledInOrder | src/item.c:49-91 | resizing keeps the order of the entries, each in the chain of its new bucket |
| HashTables.DeletesFirst | src/item.c:181-212 | deleting unlinks the first entry with the key and keeps the order of the others |
| HashTables.GrownSize | src/item.c:114-124 | a table is resized iff its load is over 3/4, and then to twice its size and one |
| HashTables.Search | src/item.c:158-179 | walks the chain to the first entry with the key |
| HashTables.Insert | src/item.c:126-156 | the entry goes to the end of its chain, in place |
| HashTables.Delete | src/item.c:181-212 | the first entry with the key is unlinked, in place |
| HashTables.Resize | src/item.c:49-91 | moves every entry in table order to the end of its new chain |
| HashTables.MaybeResize | src/item.c:114-124 | resizes to twice the size and one iff the load is over 3/4 |
| Items.Item.AddChild | src/item.c:338-345 | table and ordered array gain the child together, the array at its end |
| Items.Item.RemoveChild | src/item.c:531-543 | table and ordered array lose the child together, the order of the others kept |
| Items.Itemstore.constructor | src/item.c:349-364 | a root with the int 0 and nothing else |
| Items.Itemstore.MakeItem | src/item.c:317-347 | one new path below the parent, everything else unchanged, all links and tables in order |
| Items.Itemstore.FindItem | src/item.c:484-508 | the item at the path the name splits into, or none iff no such path exists |
| Items.Itemstore.Reach | src/item.c:388-429 | the loop both insertions share makes exactly the missing layers, as nil items |
| Items.Itemstore.InsertItem | src/item.c:379-432 | the store becomes the map after inserting the value; a running code item leaves it unchanged and is refused, and a code item at rest takes the value but stays code, its freed bytecode reading as anything |
| Items.Itemstore.InsertCodeItem | src/item.c:434-482 | the store becomes the map after inserting the code |
| Items.Itemstore.SetItem | src/item.c:551-566 | an existing value item gets the value, a code item stays code, a missing one is inserted |
| Items.Itemstore.DeleteItem | src/item.c:519-549 | removes exactly the paths that extend the item's, and the item from its parent's ordered list, iff it exists and is not running; every other list keeps its order |
| Items.Itemstore.GetItemName | src/item.c:568-579 | the dot-joined path |
| Items.Itemstore.NameLeadsBack | src/item.c:568-579 | looking up an item's name finds that item |
| Items.Itemstore.FoundUnderItsName | src/item.c:484-508 | the name of the item found under a name is that name iff it does not end in a dot |
| Items.Itemstore.StoreClosed | src/item.c:366-377 | the paths of a store in order are closed under prefixes |
| ItemFile.WriteItem | src/item.c:634-676 | the bytes of an item and of all that is below it, children in table order |
| ItemFile.ReadItem | src/item.c:689-740 | consumes exactly the bytes of one tree and adds exactly its paths below the parent |
| ItemFile.HeaderRoundTrip | src/item.c:689-731 | name, type, value or bytecode, and number of children are read back as written, whatever follows |
| ItemFile.FieldBytes | src/item.c:634-676 | the bytes of every type of value and of bytecode |
| ItemFile.EncodesOne | src/item.c:634-740 | a file encodes at most one store |
| ItemFile.Save | src/item.c:678-687 | the file is the encoding of the whole store |
| ItemFile.Load | src/item.c:742-752 | the encoded paths, with the root's value reset to 0 |
| Negotiation.ArrivalDecreases | src/libtelnet.c:363-508 | every arrival makes the measure smaller |
| EnginePeers.CommandByteIsDelivery | src/libtelnet.c:1063-1071 | the byte that completes a command is one delivery of the protocol between two peers, with its reply and its warning |
| EnginePeers.RequestIsRequest | src/libtelnet.c:1241-1323 | a request to an engine is the asking step of the protocol between two peers, whatever bytes are under way |
| EnginePeers.TextIsPlain | src/libtelnet.c:1351-1391 | text with line ends encoded disturbs no command, whatever it says |
| EnginePeers.DataIsPlain | src/libtelnet.c:1326-1348 | escaped data without a carriage return disturbs no command |
| EnginePeers.SubnegotiationIsPlain | src/libtelnet.c:1404-1415 | a subnegotiation of any option but COMPRESS that fits the largest buffer disturbs no command |
| EnginePeers.ReturnEatsCommand | src/libtelnet.c:999-1016 | an input: after data that ends in a carriage return, a translating receiver takes the next command for data |
| Negotiation.DeliverSound | src/libtelnet.c:390-506 | delivering a command keeps one option side in the closed set of shapes, warns never, and lowers its measure |
| TelnetSpec.CommandReceived | src/libtelnet.c:1063-1071 | a command's three bytes in the data state run the option machine once |
| TelnetSpec.NegotiateIsReceive | src/libtelnet.c:363-508 | a command moves one side of one option as a peer of the protocol does, and no other; its reply goes on the wire, and the engine warns and gives notice exactly when the protocol says so |
| TelnetSpec.RequestIsAsk | src/libtelnet.c:1241-1323 | a request moves one side of one option as the asking peer does, and no other, sends that peer's command, and never warns |
| OptionLaws.SettledIsLeftAlone | src/libtelnet.c:390-506 | a command that asks for what already is leaves the engine exactly as it was: no answer, no notice, no entry |
| OptionLaws.ReceiveDecides | src/libtelnet.c:390-506 | when a command turns a side on or off, when it changes what is wanted of it, and that afterwards nothing is awaited iff the side is as wanted |
| OptionLaws.ReceiveAnswers | src/libtelnet.c:390-506 | from a settled state a command is answered iff it changes the state or offers what is not supported, while an answer was awaited iff something else is to be asked; the answer says what is wanted; a warning iff something on is offered while it is to go off |
| OptionLaws.AskDecides | src/libtelnet.c:1258-1322 | a request is remembered in every state, sent at once iff nothing is awaited and the side is not so already, and turns nothing on or off by itself |
| OptionLaws.NoticeTellsChange | src/libtelnet.c:390-506 | the application is told exactly of the sides that go on or off, and the table is written exactly when the state changes |
| OptionLaws.AnswersTell | src/libtelnet.c:115-121 | whether a side is on, wanted and settled tells its state |
| TelnetSpec.FeedKeepsFlagsTrue | src/libtelnet.c:303-351 | from any state in which it holds, over any bytes: a set binary flag implies that its side of BINARY is YES |
| TelnetFlags.SetOptionFollows | src/libtelnet.c:303-351 | one write of BINARY leaves both flags right iff it was in the table, or they were right already |
| TelnetFlags.FirstBinaryUnflagged | src/libtelnet.c:303-351 | an input: a new engine that accepts IAC DO BINARY has the option on and the flag off |
| TelnetSpec.MccpDiscarded | src/libtelnet.c:1085-1096 | IAC SB 85 WILL SE is discarded; cut before its last byte, or with an IAC for its last byte, it makes a DATA event of length -1 |
| Telnet.Tracker.GetOption | src/libtelnet.c:284-301 | the table's entry, or NO on both sides |
| Telnet.Tracker.SetOptionState | src/libtelnet.c:303-351 | changes the entry, or appends one without touching the flags |
| Telnet.Tracker.NegotiateOption | src/libtelnet.c:363-508 | all four commands in all six states do as the protocol machine does, with its replies, notices and warnings |
| Telnet.Tracker.RequestOption | src/libtelnet.c:1241-1323 | each of the four requests in each of the six states does as the specification of one request does, with its command |
| Telnet.Tracker.AppendByte | src/libtelnet.c:929-965 | the byte is buffered, along the table of sizes, or the overflow is reported |
| Telnet.Tracker.SendEscaped | src/libtelnet.c:1326-1348 | sends the bytes with each IAC doubled |
| Telnet.Tracker.SendText | src/libtelnet.c:1351-1391 | sends the text with line ends and IAC encoded |
| Telnet.Tracker.SendSubnegotiation | src/libtelnet.c:1404-1415 | sends the framed, escaped payload |
| TelnetEncoding.SendRoundTrip | src/libtelnet.c:1326-1348 | data sent escaped is received as it was by a receiver that does not translate line ends, and by any other if it has no carriage return; RawData.TranslatedIffClean has the exact condition for the latter |
| TelnetEncoding.TextRoundTrip | src/libtelnet.c:1351-1391 | text sent with line-end encoding is received as it was by a receiver that translates line ends; RawData.TextThrough has the other modes |
| RawData.ReturnIsLost | src/libtelnet.c:999-1016 | an input: raw CR LF arrives as LF |
| TelnetEncoding.SubnegotiationCutShort | src/libtelnet.c:1134-1155 | a payload cut short by IAC and another byte: a warning, the same event with what there was of the payload, and the byte is taken as a command |
| TelnetEncoding.OtherCommandReported | src/libtelnet.c:1050-1061 | IAC and a byte that is no option command, subnegotiation or IAC is reported as that command, and nothing else changes |
| Environ.ParsePass | src/libtelnet.c:602-647 | the second pass finds exactly the counted entries, stops exactly at the end of the payload, and has written less than it read |
| Environ.CopyOut | src/libtelnet.c:618-640 | one name or value is unescaped in place; the write position never passes the read position |
| Environ.CountIsEntries | src/libtelnet.c:566-647 | the first pass's count is the number of entries |
| Environ.SpellingRead | src/libtelnet.c:618-640 | a name or value is read however it is spelled: each byte as it is or after an ESC, with ESC needed only where the byte would end it |
| Environ.Refusals | src/libtelnet.c:521-570 | exactly which payloads are refused, for which reason, and which have no entries |
| Environ.EscapedEscAtEndIsRefused | src/libtelnet.c:566-592 | an input: a payload that ends in an escaped ESC, which RFC 1572 allows, is refused |
| Network.Lines.AddLine | src/network.c:40-61 | the first vacant line, or none |
| Network.Lines.AppendInput | src/network.c:109-129 | text is appended and the line marked iff a newline came; a dead line changes nothing |
| Network.Lines.GetInput | src/network.c:131-153 | cuts out the first line; the mark goes iff no newline is left |
| Network.Lines.NetInput | src/libcall.c:197-245 | one poll: reports the first pending line from the position after the last one up to the last line, or nothing; a position past the end starts over at the first line |
| Network.PollReports | src/libcall.c:197-245 | over every poll: a connection, a disconnection or a line of text is reported of a line iff it is the first pending one and was connecting, disconnecting or had data; what becomes of it; and every other line is unchanged |
| LineLives.StepOfLine | src/network.c:40-107 | one step of one line: which changes of status there are, and which of them are reported |
| Network.ReportsNothing | src/libcall.c:197-245 | a poll reports nothing iff no line from its starting place up to the last one is pending |
| Network.WaitsForTheNextPoll | src/libcall.c:197-245 | an input: line 0 is pending, the poll starts at line 1 and reports nothing; the next one serves it |
| Network.ConnectionReported | src/network.c:109-129 | the poll that comes to a new connection reports it iff no newline came in before; otherwise it reports the text and the connection is never reported |
| Network.AppendKeepsMarked | src/network.c:109-129 | a live line is marked as having data iff its buffer holds a newline |
| Network.AppendChanges | src/network.c:109-129 | text goes to the end of a line in use, and nowhere on one that is vacant or closing |
| Network.AfterLineKeepsMarked | src/network.c:131-153 | taking a line keeps a live line marked iff a newline is left, and the buffer was that line, a newline and the rest |
| Network.AppendTwice | src/network.c:109-129 | appending in two pieces is appending once, so only the concatenation of DATA events matters |
| Framing.CutJoined | src/network.c:131-153 | taking a text apart at its newlines undoes joining lines |
| Tasks.RetiredIsReused | src/task.c:47-67 | the id of a destroyed task goes to the next one made, iff it is not the greatest ever given out or no other is waiting |
| Tasks.TaskTable.MakeTask | src/task.c:69-84 | the new node is at the head of the list, with a fresh id |
| Tasks.TaskTable.DestroyTask | src/task.c:86-108 | exactly that node is unlinked and its id retired |
| Tasks.TaskTable.FindTaskById | src/task.c:119-131 | the one live node with the id, or none iff the id is not live |

## Left out

- The lexer, operator precedence and the disassembler: the model starts from a syntax tree.
- Nested item dereferences in references, embedded code literals, `delete`, `nthname`, `rootname` and library calls as
  language constructs.
- Control structures or items nested deeper than 32: the depth test of `src/parser.y:213` lets one level too many
  through, so 32 is a precondition of the emitter.
- 256 or more locals: the search counter is a byte and the search would not end, so fewer are required.
- Emitter.Parser.PrepareLocalAssign: without the refusal at 256 locals, which stands behind that search.
- Runs of items with two parameters of one name: the emitter is modelled for them, and `CodeGen.SavesOnce` says what
  they do to the bytes, but the source meaning takes different names.
- Code of 32768 bytes or more, strings of 65536 bytes or more, integer literals beyond `int`.
- CompilerTheorems.CompilerCorrect: says nothing of source runs that leave what the language promises: stack or call
  stack full, a local beyond slot 255 from the bottom, a layer that is not a valid name or is the most negative int,
  assigning a value over a code item (the bytecode is freed and the type stays), a value item with arguments, and an
  item with an empty frame as a callee; the last two have their exact conditions proved. It starts from an item without
  parameters, as the run loop has no arguments to give.
- CompilerTheorems.HaltingRunIsASourceRun: the same source runs are set aside.
- Runs.CompileAndRun: the same source runs are set aside, and the machine stops after a given number of instructions
  instead of running for ever.
- Runs.RunIsFaithful: the same source runs are set aside.
- Correctness.StoreSim: says nothing of an assignment over a code item, whose bytecode is freed while the type stays;
  `Items.Itemstore.InsertItem` models that case in the store.
- Correctness.FetchSim: says nothing of a value item with arguments; `CompilerTheorems.ValueItemKeepsArguments` has the
  exact condition.
- Correctness.CallSim: says nothing of a callee whose frame is empty at its halt;
  `CompilerTheorems.CallNetsOneValue` has the exact condition.
- The `inuse` mark during execution: the compiled language of the model cannot delete items; `Items` models the mark
  where insertion and deletion look at it.
- Items.Itemstore.DeleteItem: requires a name with at least one layer, because the root has no parent to be cut from.
- ItemFile.Load: speaks of files that begin with a complete encoding; what short reads leave in C variables is open.
- The fixed 33-byte layer buffers, 8-bit counters of children and 264-byte names: sequences have no such bounds.
- Memory growth, ownership and freeing; `emit_byte` may move its buffer, which offsets do not notice.
- Util.Itoa: not the most negative int, which the original negates, nor a negative number outside base 10, whose digits
  it looks up before the start of its table.
- EnginePeers.PeersSafe: what the applications send is plain: no commands, every carriage return before a newline or
  NUL, no COMPRESS subnegotiation and none over 16384 bytes; `EnginePeers.ReturnEatsCommand` shows why raw carriage
  returns have to be kept out, and warnings of the payload parsers are not counted.
- EnginePeers.PeersFallSilent: what the applications have sent is plain in the same sense.
- Signed overflow, which C leaves undefined: the model wraps. ValueLaws.DivisionWraps names the case of division.
- 32-bit float rounding in the load factor: the comparison with 3/4 is exact for tables of any size met here.
- PROXY mode and zlib.
- Telnet.Tracker.Process: requires that no DATA event of length -1 is raised; `TelnetSpec.MccpDiscarded` shows where one
  would be.
- Telnet.Tracker.ProcessChunks: requires the same of every chunk.
- The MSSP, ZMP and TTYPE payload parsers: one further event stands for each.
- ENVIRON rewriting the engine's own buffer after the event: `Environ` works on an array of its own.
- Input lines with NUL bytes: `get_input` looks for the newline with a string function that stops at a NUL, so it is
  only defined when a newline comes before any NUL, which `Network.Lines.GetInput` requires.
- The 16384-byte refill of `get_input`, sockets, timers, logging, and freeing everything at shutdown.
- `set_error_item`, item source files and the system, string and time library calls.
