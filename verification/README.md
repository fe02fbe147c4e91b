# A verified model of csp_proc

csp_proc runs small procedures on the nodes of a network. A procedure is a flat list of
instructions: tests that govern the two instructions behind them, parameter operations,
waits, and calls of other procedures in numbered slots. It travels in one packet, is kept
in a slot, is analysed before it runs, and is interpreted by a loop that reuses its frame
for tail calls. This project models these parts in Dafny and proves what the library
promises of them. `dafny verify dfyconfig.toml` checks everything.

## What is proved

* **Interpreter.** The runtime, which walks a cyclic graph of analysis nodes, keeps a flag
  for if/else, replaces frames at tail calls and counts its depth, computes the structured
  if/then/else reading of a well-formed program: whatever it ends with, short of the depth
  error, is that meaning; whatever has a meaning it ends on, with the depth error if and only
  if calls in other than last position nest deeper than 1000, and otherwise on exactly the
  frames they ask for; and both execute the same primitive instructions in the same order.
  A program is the root and what it may come to call; other slots may hold anything. The
  primitive instructions are a parameter over an arbitrary world, so this covers remote
  parameters and clocks. A language of procedures is safe for tail calls if and only if it
  has no "mismarked" calls, a condition on the text that the documented ban on nested tests
  implies.
* **Analysis.** The memoised recursive walk ends, marks exactly the reachable slots, makes one
  node for each, and leaves every node complete exactly when no reachable call targets a
  free slot, nodes captured on a cycle while unfinished included.
* **Parameters.** The operators, executed in place by the interpreter, store the native
  result of the width of their operand. Index names split back into base and index exactly
  for numbers that an int holds. The Fibonacci program of the documentation computes Fib(n)
  modulo 2 to the width for every n, in one frame.
* **Packets.** Reading is exactly the inverse of writing: a buffer yields a procedure if and
  only if the bytes of the procedure stand in it, whatever follows. The size computation,
  the writer and the reader agree on every offset.
* **Store and server.** Over any run of requests and ending workers the memory goes through
  the states of a map of independent slots and a table of jobs, and every reply is the one
  these give. One equation, the handles held by slots and running procedures counted with
  multiplicity equal the live buffers, says that no string buffer is shared, dangling,
  released twice or lost. What a client pushes and starts is what the worker runs: for the
  Fibonacci program, from the packets of the client to the register.
* **Threads.** Under every interleaving of one admission caller and any number of workers the
  table lists exactly the live workers whenever its mutex is free, and never more than 16.

What these results are about is fixed by independent descriptions: the packet format as a
relation between bytes and procedures (`Format`), the protocol by its bytes
(`Requests.Serves`), the operators by their codes and laws, the analysis by the chains of
calls in the text.

## Where the code fails its documentation or itself

* README.md:29 says that results are stored on the hosting node. For binary operators the
  code stores them on the node of the instruction
  (src/runtime/proc_runtime_instructions_common.c:738-742). The model keeps instructions of
  node 0 concrete, where both agree, and leaves others to a parameter.
* `idt` is documented as an identity. A value is buffered with the width of its own type and
  the rest of the buffer is zero, so that a negative value changes on its way into a wider
  parameter; `Operands.IdentityCopies` gives the exact condition.
* An index is scanned into an int. One that does not fit comes out as another number, and
  `a[2147483648` makes the code write a terminator in front of its buffer
  (src/runtime/proc_runtime_instructions_common.c:191); `ParamNames.CutsInFrontIff` says
  for which names it does.
* A block whose deadline leaves the range of the tick counter fails without polling
  (src/runtime/proc_runtime_instructions_FreeRTOS.c:33-41); `Block.ProcRuntimeBlock` has it
  as a condition, `Block.WaitAcrossRestart` as a case.
* A deep copy that fails half-way leaves its buffers behind
  (src/proc_pack.c:291-296, src/runtime/proc_runtime_POSIX.c:138-141), as
  `Memory.DeepcopyProc` says.
* The return code of the analysis speaks of the calls of the analysed procedure only, as the
  codes of inner analyses are dropped (src/proc_analyze.c:149).
* The client ignores the failure of packing a procedure that is too large
  (src/proc_client.c:88), and reads at most 255 slots of a list (src/proc_client.c:102);
  `Server.ProcPushRequest` and `Server.SlotListArrives` say what happens then.

## Files

`ProcTypes` holds the common types. `Analyze`, `Machine`, `TailCalls`, `Structured` and
`Runtime` are the analysis and the interpreter; `Block` is the wait; `Operands`,
`ParamNames`, `LocalParams` and `Fibonacci` are the parameters. `Format`, `Codec` and `Pack`
are the packet format. `Memory`, `Holders`, `Stores`, `Requests` and `Server` are the store and the
server, `Threads` the table of running threads under all interleavings, and `Workers` the
way from a packet to the end of a worker. A procedure is generic in its strings: texts where
only their content matters, handles of heap buffers where ownership does.

## Model

| member | source | states |
|---|---|---|
| Analyze.AnalyzeTailCall | src/proc_analyze.c:24-48 | the two scanning loops set the mark exactly if only NOOPs follow the call, not counting the else-branch that a taken then-branch skips |
| Analyze.AnalyzeInstruction | src/proc_analyze.c:50-74 | the entry of an instruction holds its type, 0 to 6 or the unknown one, and the mark if it is a call |
| Analyze.AnalyzeCallee | src/proc_analyze.c:128-153 | a callee is analysed once: afterwards its slot has an entry, every entry added is complete and of a slot the caller reaches, and entries found before stay |
| Analyze.AnalyzeNext | src/proc_analyze.c:100-155 | one round extends the entries, called slots and sub-analyses of the node by one instruction, or stops with -1 iff it is a call of a free slot, with the slot listed and no sub-analysis |
| Analyze.ProcAnalyze | src/proc_analyze.c:83-158 | the walk ends on cyclic call graphs; the node describes its procedure up to the first call of a free slot; the code is -1 iff the procedure has such a call, wherever it stands; every entry added is described as completely and reached |
| Analyze.MarkedIffReached | src/proc_analyze.c:136-149 | from a zeroed configuration exactly the slots reachable by calls are marked |
| Analyze.CompleteIffClosed | src/proc_analyze.c:119-150 | every node is complete if and only if no chain of calls in the text leads to a free slot |
| Analyze.ClosedInText | src/proc_analyze.c:128-149 | where no chain leads to a free slot the walk reaches exactly the slots at the end of chains, and otherwise it is cut somewhere |
| Analyze.ClosedGraph | src/proc_analyze.c:134-153 | then every sub-analysis is again a complete node, of the procedure stored in the called slot |
| Analyze.AnalyzeProgram | src/runtime/proc_runtime_POSIX.c:78-92 | the analysis a worker runs fails iff some instruction of the root calls an empty slot; all nodes are complete iff no chain of calls ends in an empty slot, and then the slots at the end of chains are the marked ones |
| Machine.TailMarkExact | src/proc_analyze.c:24-48 | for any procedure, the mark is set iff nothing but NOOPs is executed in the frame after the call, except exactly for a mismarked call reached with the test before it skipped |
| Machine.WellFormedMarks | README.md:32 | without nested tests no call is mismarked |
| Machine.IdleRun | src/runtime/proc_runtime_instructions_POSIX.c:75-117 | a rest of skipped instructions and NOOPs ends with code 0 and changes nothing |
| Machine.TailCallsKeepResult | src/runtime/proc_runtime_instructions_common.c:766-776 | if no procedure of the program has a mismarked call, a run with every call nested that ends without depth error is matched by the machine with tail calls: same code, same world, no more frames, same fuel |
| Machine.NestingMatchesTailCalls | src/runtime/proc_runtime_instructions_common.c:766-776 | for such programs a run with tail calls that ends without depth error is matched by the nesting machine without limit |
| Machine.NestedIfElseLosesInstruction | src/proc_analyze.c:28-36 | a procedure with nested tests for which the two machines differ |
| Machine.PeakWithinLimit | src/runtime/proc_runtime_instructions_FreeRTOS.c:63-68 | no run, terminating or not, holds more than limit + 1 frames |
| Machine.LimitIsExact | src/runtime/proc_runtime_instructions_FreeRTOS.c:64-67 | a run ends with the depth error if and only if without the limit it would hold more frames than the limit admits; otherwise the limit changes nothing |
| Machine.TailCallsStayInFrame | src/runtime/proc_runtime_instructions_common.c:766-771 | if all reachable calls are tail calls the run stays in one frame and cannot meet the depth error |
| Machine.MoreFuel | src/runtime/proc_runtime_instructions_POSIX.c:75-120 | a run that ends is the same with more fuel, so that fuel only stands for waiting long enough |
| Machine.RoundSpelledOut | src/runtime/proc_runtime_instructions_POSIX.c:79-116 | what a round does by type of instruction: flags, the codes -1, -2 and -3, and the end on any code but 0 |
| TailCalls.MismarkedLoses | src/proc_analyze.c:28-36 | every mismarked call of a procedure of known types is reached in some run in which tail calls drop an executed instruction |
| TailCalls.SoundIsInvisible | src/proc_analyze.c:24-48 | in a program without mismarked calls tail calls are invisible, for every meaning of primitives |
| TailCalls.InvisibleIffMarksSound | src/proc_analyze.c:24-48 | no call of a procedure of known types is mismarked iff tail calls are invisible in all its runs, under scripts of conditions, over callees without mismarked calls |
| TailCalls.SafeLanguages | README.md:32 | a set of procedures that holds a certain leaf is safe for tail calls in every program written in it iff none of its procedures has a mismarked call |
| TailCalls.UnreachedMismark | src/proc_analyze.c:24-48 | over one given store a mismarked call need not show: behind a call that never returns tail calls are invisible whatever follows |
| Structured.WellFormedIsFlat | README.md:32 | a procedure is well formed iff it reads as structured code in which no branch of a test is a test |
| Structured.RunIsStructured | src/runtime/proc_runtime_instructions_POSIX.c:72-117 | a terminating run of the flag loop of a well-formed program, from any instruction and flag, is the structured meaning of what remains |
| Structured.StructuredIsRun | src/runtime/proc_runtime_instructions_POSIX.c:72-117 | a structured meaning whose calls nest within the limit is run by the flag loop, on 256 units of fuel a level |
| Structured.RealRunMeans | src/runtime/proc_runtime_instructions_POSIX.c:64-120 | what the runtime ends with, short of the depth error, is the structured meaning of the root |
| Structured.NestingIsPeak | src/runtime/proc_runtime_instructions_common.c:766-775 | the machine with tail calls runs every meaning on exactly as many frames as calls in other than last position nest |
| Structured.MarkIsLastPosition | src/proc_analyze.c:24-48 | in a well-formed procedure a call is marked iff nothing but NOOPs is left to do behind it in the structured code |
| Structured.MeaningIsRun | src/runtime/proc_runtime_instructions_POSIX.c:64-120 | whatever has a meaning the runtime ends on: with the depth error iff calls in other than last position nest deeper than 1000, else with that meaning and on the frames they ask for |
| Structured.TailProgramsRunExactly | src/runtime/proc_runtime_instructions_common.c:766-771 | if all calls of a well-formed program are tail calls, the runtime ends with a result iff the structured code does |
| Structured.LogDoesNotDisturb | src/runtime/proc_runtime_instructions_POSIX.c:86-111 | logging the executed primitives changes neither code nor world nor frames of the flag machine |
| Structured.SameInstructions | src/runtime/proc_runtime_instructions_POSIX.c:72-117 | logging them, the runtime and the structured code end with one log: they execute the same primitives in the same order |
| Runtime.Thread.ExecutePrimitive | src/runtime/proc_runtime_instructions_POSIX.c:86-111 | the switch, for all but calls, on parameters in place, does what the machine's round does to flag, code and world |
| Runtime.Thread.ProcRuntimeCall | src/runtime/proc_runtime_instructions_common.c:747-777 | the search of the slot list always finds the node of the stored procedure; a marked call replaces node, procedure, index and flag; another call nests and changes none of them |
| Runtime.Thread.ExecuteRound | src/runtime/proc_runtime_instructions_FreeRTOS.c:73-116 | one round of the loop keeps the node that of the current procedure and leaves the rest of the run to the machine |
| Runtime.Thread.ProcInstructionsExec | src/runtime/proc_runtime_instructions_FreeRTOS.c:61-119 | the interpreter over the analysis graph does what the machine does, and restores the depth counter however it ends |
| Runtime.MachineHasRun | src/runtime/proc_runtime_POSIX.c:99 | what the machine comes to is the structured meaning of a well-formed root, and it gets there, given the fuel, if calls in other than last position nest at most 1000 deep |
| Runtime.RuntimeThread | src/runtime/proc_runtime_POSIX.c:75-99 | analysis and interpretation together come to what the machine comes to, and so to the structured meaning of a well-formed root, in at most 1001 frames |
| Block.ProcRuntimeBlock | src/runtime/proc_runtime_instructions_FreeRTOS.c:27-59 | the wait succeeds iff the deadline fits the tick counter and some poll holds before it, after polls that neither hold nor fail; it makes at most timeout / period polls, rounded up, and none if the deadline does not fit; type mismatches can only time out |
| Block.WaitAcrossRestart | src/runtime/proc_runtime_instructions_FreeRTOS.c:33-41 | a wait near the end of the counter's range that fails though its condition holds all along |
| Operands.NarrowedIsNative | src/runtime/proc_runtime_instructions_common.c:263-292 | a 64-bit result narrowed to its source type is the value of that type congruent to the exact result |
| Operands.BinopIsNative | src/runtime/proc_runtime_instructions_common.c:590-680 | every arithmetic operator stores its exact result modulo 2 to the width of operand a, whatever the width of b; division by zero and mixed signedness are errors |
| Operands.SignedIntermediateFits | src/runtime/proc_runtime_instructions_common.c:617-634 | for signed operands of at most 32 bits the 64-bit intermediate never overflows |
| Operands.QuotientAndRemainder | src/runtime/proc_runtime_instructions_common.c:628-634 | quotient and remainder make up the dividend, the remainder is smaller than the divisor and has the sign of the dividend |
| Operands.Arithmetic | src/runtime/proc_runtime_instructions_common.c:590-732 | the switch over the arithmetic operators, with the remainder of C, computes the exact result in the 64 bits of the first operand, or the error |
| Operands.UnopIsNative | src/runtime/proc_runtime_instructions_common.c:526-566 | unary operators store their exact result modulo 2 to the width; negation of an unsigned operand is an error |
| Operands.UnopsUndo | src/runtime/proc_runtime_instructions_common.c:527-562 | `++` and `--` undo each other and `-` undoes itself, at the ends of the range too |
| Operands.NativeByType | src/runtime/proc_runtime_instructions_common.c:65-129 | range and modulus of each of the eight integer types |
| Operands.StoredIsNative | src/runtime/proc_runtime_instructions_common.c:263-292 | what a parameter of any type takes from the value buffer: the operand modulo 2 to the width of its own type, made native |
| Operands.ComputedByCode | src/runtime/proc_runtime_instructions_common.c:617-660 | codes 0, 1 and 2 are sum, difference and product, modulo the width |
| Operands.DivisionByCode | src/runtime/proc_runtime_instructions_common.c:628-632 | codes 3 and 4 are the quotient towards zero and its remainder, unless the divisor is zero |
| Operands.SubtractionUndoes | src/runtime/proc_runtime_instructions_common.c:617-660 | subtraction undoes addition and addition subtraction, wrap-around included |
| Operands.MultiplicationDistributes | src/runtime/proc_runtime_instructions_common.c:617-660 | multiplication distributes over addition, wrap-around included |
| Operands.UnitsAndInverses | src/runtime/proc_runtime_instructions_common.c:526-559 | `++` and `--` add and subtract one, `*` by one changes nothing, and a number and its negation add up to zero |
| Operands.ComparisonsByCode | src/runtime/proc_runtime_instructions_common.c:396-440 | codes 0 to 5 are `==`, `!=`, `<`, `>`, `<=` and `>=` on all integers; any other code is an error |
| Operands.IdentityCopies | src/runtime/proc_runtime_instructions_common.c:263-292 | a copy between types keeps the value iff the target can hold it and, if negative, is not wider |
| ParamNames.StripFits | src/runtime/proc_runtime_instructions_common.c:187-192 | an index that an int holds is never printed longer than it was written, so that stripping stays inside the name |
| ParamNames.CutsInFrontIff | src/runtime/proc_runtime_instructions_common.c:187-192 | stripping cuts in front of the name iff the name is one character, a bracket and ten digits whose int is -10^9 or less |
| ParamNames.CutInFront | src/runtime/proc_runtime_instructions_common.c:173-191 | names such as `a[2147483648` are cut in front |
| ParamNames.PlainName | src/runtime/proc_runtime_instructions_common.c:164-180 | a name without bracket has offset -1 and is looked up as it is |
| ParamNames.BaseRecovered | src/runtime/proc_runtime_instructions_common.c:187-192 | the base comes back iff the text in brackets is as long as the printed number |
| ParamNames.IndexRoundTrip | src/runtime/proc_runtime_instructions_common.c:164-192 | `base[n]` with canonical n gives n and base iff an int holds n |
| ParamNames.DecimalByPlace | src/runtime/proc_runtime_instructions_common.c:190 | numbers are printed in decimal digits, the last place last, behind `-` if negative |
| ParamNames.AsIntByRange | src/runtime/proc_runtime_instructions_common.c:173 | a number is kept, cut to its lower 32 bits, or becomes -1, by its range |
| ParamNames.SignOrBlank | src/runtime/proc_runtime_instructions_common.c:164-192 | an index behind `-`, `+` or a blank is read, but only behind `-` the base comes back |
| ParamNames.NoNumber | src/runtime/proc_runtime_instructions_common.c:173-179 | brackets around a letter are part of the name |
| ParamNames.ProcParamScanOffset | src/runtime/proc_runtime_instructions_common.c:164-180 | the token loops and the scan give the offset of the name |
| ParamNames.StripIndex | src/runtime/proc_runtime_instructions_common.c:187-192 | the terminator written into a copy leaves the base name |
| ParamNames.LeadingZeroMisleads | src/runtime/proc_runtime_instructions_common.c:190-191 | an index with a leading zero is read but its base is not recovered |
| LocalParams.SetOperandStays | src/runtime/proc_runtime_instructions_common.c:317-351 | a write stores a value of the result's type in every element the name selects and changes nothing else; missing and read-only parameters are errors |
| LocalParams.BinopMeans | src/runtime/proc_runtime_instructions_common.c:577-745 | a binary instruction stores the exact result, wrapped to the type of its first operand, in the elements its result selects, and fails without any change in exactly the error cases |
| LocalParams.UnopMeans | src/runtime/proc_runtime_instructions_common.c:505-575 | the same of a unary instruction |
| LocalParams.BinopByCode | src/runtime/proc_runtime_instructions_common.c:590-745 | what the result holds by literal operator code: sum, difference, product, quotient, remainder; a division by zero fails |
| LocalParams.UnopByCode | src/runtime/proc_runtime_instructions_common.c:526-574 | what the result holds by literal operator code: one more, one less, the negative of a signed operand, the operand |
| LocalParams.OperandErrors | src/runtime/proc_runtime_instructions_common.c:583-588 | a missing operand or a mixed sign fails and changes nothing |
| LocalParams.PlainParameter | src/runtime/proc_runtime_instructions_common.c:345-349 | a plain name is read as element 0 and written to every element |
| LocalParams.IndexedParameter | src/runtime/proc_runtime_instructions_common.c:350-351 | `base[n]` is read and written as element n alone |
| LocalParams.SetByText | src/runtime/proc_runtime_instructions_common.c:493-503 | a set instruction writes what its text is parsed to |
| LocalParams.ReadOnlyStays | src/runtime/proc_runtime_instructions_common.c:325-340 | a result that is missing or read-only is the code -1, a failure changes nothing, and read-only parameters never change |
| LocalParams.RunKeeps | src/runtime/proc_runtime_instructions_common.c:332-335 | over any run of a program of local instructions parameters keep type and length, and read-only ones their values |
| LocalParams.StoreThenFetch | src/runtime/proc_runtime_instructions_common.c:65-129 | what was stored under a name is what is fetched by it |
| LocalParams.TestByCode | src/runtime/proc_runtime_instructions_common.c:372-440 | the verdict of a test for each code on the two fetched values, and when it is an error of which kind |
| LocalParams.ParamTable.ProcSetParam | src/runtime/proc_runtime_instructions_common.c:317-364 | the element loop in place is the whole-array write; a missing or read-only parameter is -1 and no change |
| LocalParams.ParamTable.ProcRuntimeUnop | src/runtime/proc_runtime_instructions_common.c:505-575 | the switch in place stores the exact unary result, wrapped to the operand's type, or fails without any change; it is the instruction as the machine means it |
| LocalParams.ParamTable.ProcRuntimeBinop | src/runtime/proc_runtime_instructions_common.c:577-745 | the switch in place stores the exact binary result, wrapped to the type of the first operand, or fails without any change; it is the instruction as the machine means it |
| LocalParams.ParamTable.ProcRuntimeIfelse | src/runtime/proc_runtime_instructions_common.c:372-440 | the switch over comparisons decides the test |
| Fibonacci.Passes | README.md:129-137 | n passes lead from the k-th term to the term k + n in the same frame |
| Fibonacci.ComputesFibonacci | README.md:117-147 | slot 0 ends with code 0, one frame, and Fib(n) modulo 2 to the width in rx0, for every width and n |
| Fibonacci.RunFibonacci | README.md:142-147 | the same through analysis and the interpreter loop |
| Fibonacci.FibonacciOverNetwork | README.md:117-147 | the same from the client's packets: pushed into two free slots, started by a run request, detached, run by a worker that cleans up |
| Codec.DecodeExact | src/proc_pack.c:135-201 | unpacking yields a procedure ending behind its bytes iff its types are known and its bytes, which `Format` describes, stand in the buffer |
| Codec.DecodedIsEncoded | src/proc_pack.c:135-201 | unpacking consumes exactly the bytes that packing its result writes |
| Codec.RoundTrip | src/proc_pack.c:58-201 | unpacking a packed procedure gives it back, with any header and trailing bytes |
| Codec.EncodeInjective | src/proc_pack.c:58-133 | no packed form is the beginning of another |
| Format.FormatIsWritten | src/proc_pack.c:58-133 | packing writes the format: type bytes 0 to 6, nodes and operators low byte first, strings in their order with a zero byte behind |
| Format.FormatIsRead | src/proc_pack.c:135-201 | unpacking yields a procedure iff it stands in the buffer in the format, and ends where its size says |
| Format.PacketByByte | include/csp_proc/proc_types.h:23-31 | one packet of 21 literal bytes and the procedure it holds |
| Pack.CalcProcSize | src/proc_pack.c:14-56 | the computed size is that of the format, and of the packed form, or -1 iff there is an unknown type |
| Pack.PackInstruction | src/proc_pack.c:72-127 | one instruction is written in one piece at the offset and nothing else changes |
| Pack.PackProc | src/proc_pack.c:58-133 | packing succeeds iff types are known and header and size fit; then the procedure stands in the packet in the format, nothing but its bytes has changed, and the length matches |
| Memory.DuplicateOp | src/proc_pack.c:248-278 | an instruction's strings are duplicated into new buffers, each owned once |
| Memory.TextsInPlace | src/proc_pack.c:248-272 | a handle stands for its text in the place of the instruction that holds it |
| Memory.UnpackProc | src/proc_pack.c:135-201 | what is unpacked stands in the packet in the format, and in buffers of its own; at an unknown type unpacking fails and leaves the instructions before it |
| Memory.DeepcopyProc | src/proc_pack.c:283-299 | a deep copy stands for the same procedure and shares no buffer; it fails iff a type is unknown, and then the copies made so far stay live |
| Memory.FreeInstruction | src/proc_pack.c:203-230 | exactly the buffers of the instruction are released, each once |
| Memory.FreeProc | src/proc_pack.c:232-237 | exactly the buffers of the procedure are released, each once |
| Memory.SameTexts | src/proc_pack.c:239-281 | what happens to other buffers does not change what a procedure stands for |
| Stores.ProcStore.constructor | src/store/proc_store_dynamic.c:38-49 | a new store is empty and owns no buffer |
| Stores.ProcStore.DeleteProc | src/store/proc_store_dynamic.c:8-17 | the slot is emptied and its buffers released; other slots, running roots and a procedure not yet stored keep theirs |
| Stores.ProcStore.SetProc | src/store/proc_store_dynamic.c:62-82 | a procedure is taken over iff the slot is free or may be overwritten; otherwise nothing changes |
| Stores.ProcStore.GetProcSlots | src/store/proc_store_dynamic.c:102-118 | the list holds the occupied slots in order, closed by -1 |
| Stores.ProcStore.Receive | src/proc_server.c:75-95 | a pushed procedure arrives in buffers of its own, with slots and jobs unchanged; so do the instructions before an unknown type |
| Stores.ProcStore.Discard | src/proc_server.c:97-100 | a rejected procedure is released without touching slots or roots |
| Stores.ProcStore.Detach | src/runtime/proc_runtime_POSIX.c:136-141 | the root that runs is a copy of the stored procedure that shares no buffer |
| Stores.ProcStore.ProcRuntimeRun | src/runtime/proc_runtime_POSIX.c:118-159 | a run starts iff there is room, the slot is occupied and the thread can be created; the new root is the stored procedure; otherwise nothing is left behind |
| Stores.ProcStore.Finish | src/runtime/proc_runtime_POSIX.c:102-114 | a worker finds its own entry in the table, swap-removes it and releases its root; the other jobs and the slots keep their procedures |
| Requests.OccupiedBelow | src/store/proc_store_dynamic.c:109-113 | exactly the occupied slots, increasing |
| Requests.SlotsAreIndependent | src/store/proc_store_dynamic.c:62-100 | over any run of requests and ending workers the content of a slot depends on the requests for it alone |
| Requests.AcceptedStays | src/proc_server.c:33-114 | once accepted, a procedure is what every pull returns until its slot is deleted, further pushes included |
| Requests.JobStays | src/runtime/proc_runtime_POSIX.c:136-141 | a running procedure keeps its instructions until its worker ends, whatever happens to slots and other jobs |
| Requests.PushedIsJob | src/proc_server.c:74-161 | a procedure pushed into a free slot is what a later run of the slot starts, iff there is room, and what its worker keeps |
| Requests.JobTable | src/runtime/proc_runtime_POSIX.c:104-155 | the table of the jobs' threads changes as an undisturbed admission or scan changes the shared table, and keeps at most 16 different threads |
| Requests.RequestByByte | src/proc_server.c:163-185 | which bytes are which request: types 0, 2, 4, 6 and 8 in the lower half of the first byte, and the slot in the second |
| Requests.AnswerByByte | src/proc_server.c:33-161 | the next state and the first byte of every answer: 0x81; 0x83 or 0xC3; 0x85 iff the slot was free, 0xC5 otherwise; 0x87; 0x89 iff there is a procedure, a thread and room for it below 16, 0xC9 otherwise |
| Requests.PushedIsRequest | src/proc_client.c:83-96 | the packet of a push holds the procedure and the slot, whatever lies behind |
| Requests.PulledIsStored | src/proc_client.c:60-81 | the client unpacks the stored procedure from the response to a pull |
| Server.ServeDelRequest | src/proc_server.c:33-42 | the slot is emptied, the response is success, ownership stays exact |
| Server.ServePullRequest | src/proc_server.c:44-72 | the response carries the stored procedure, or an error for a free slot; packing never fails |
| Server.StorePushed | src/proc_server.c:85-107 | a push that can be read fills a free slot; otherwise its procedure is released again |
| Server.ServePushRequest | src/proc_server.c:74-114 | a push fills a free slot and answers 0x85; otherwise nothing changes and the answer is 0xC5, for a push whose last instruction is of unknown type too |
| Server.ServeSlotsRequest | src/proc_server.c:116-130 | the response lists the occupied slots |
| Server.ServeRunRequest | src/proc_server.c:132-161 | a run is started or refused as the state of the node says, slots unchanged |
| Server.ProcServe | src/proc_server.c:163-185 | whatever request a packet asks, byte by byte, it is served as slots and jobs say and answered in its byte; anything else is not answered and changes nothing |
| Server.SendShort | src/proc_client.c:46-140 | bytes and length of the client's other requests |
| Server.ProcPushRequest | src/proc_client.c:83-96 | a procedure that fits is sent as it is, with its length; of one that does not fit nothing is written and the packet goes out with what it held |
| Server.Exchange | src/proc_client.c:46-96 | a request packed by the client and served, on any packet that can carry it and its answer, leads to the state and the answering byte of the node |
| Server.EndWorker | src/runtime/proc_runtime_POSIX.c:102-114 | the end of a worker takes away its job, and ownership stays exact |
| Server.ServeAll | src/proc_server.c:163-185 | any run of requests, runs included, and of ending workers takes the memory through the states of slots and jobs, with the answers these give, byte by byte, and ownership exact |
| Server.ProcessSlotsResponse | src/proc_client.c:98-108 | the client reads the list up to its count of eight bits |
| Server.SlotListArrives | src/proc_client.c:98-108 | the whole list arrives iff some slot is free |
| Threads.StepKeepsInv | src/runtime/proc_runtime_POSIX.c:101-156 | every step of caller or worker keeps the invariant of table, mutex and scans |
| Threads.SwapRemoveByIndex | src/runtime/proc_runtime_POSIX.c:106-107 | the last entry takes the place of the removed one, the others stay |
| Threads.EveryInterleaving | src/runtime/proc_runtime_POSIX.c:101-156 | in every reachable state entries are distinct and at most 16, equal the live workers when the mutex is free, and a scanning worker still has its entry ahead |
| Threads.OnlyOwnEntries | src/runtime/proc_runtime_POSIX.c:104-110 | an entry disappears only by its own worker and appears only for the worker just created |
| Threads.ScanRemoves | src/runtime/proc_runtime_POSIX.c:102-111 | the scan, step by step, removes the first entry of the thread and frees the mutex |
| Threads.AdmissionAppends | src/runtime/proc_runtime_POSIX.c:120-156 | an admission that nobody disturbs, step by step, appends one entry |
| Workers.Worker | src/runtime/proc_runtime_POSIX.c:75-116 | a worker comes to the meaning of its detached root over what the slots hold, and gives up entry and root; after a failed analysis its entry stays |
| Workers.PushAndRun | src/runtime/proc_runtime_POSIX.c:118-159 | what a client pushes and starts, other events in between, is what the worker runs, with the structured meaning of a well-formed program |

## Left out

- Runtime.RuntimeThread: gives up after `fuel` rounds, because a procedure may run forever and a verified method may not; calls that a started root reaches have to target occupied slots, since the code follows an unset sub-analysis otherwise.
- Runtime.Thread.ProcInstructionsExec: takes an analysis graph that is complete; what an incomplete node leads to at run time is not defined by the code.
- Workers.Worker: reads the slots once, when it starts; changes of the store during a run are not modelled, and only the root is known to be detached.
- Workers.PushAndRun: like `Workers.Worker`.
- Block.ProcRuntimeBlock: the clock is a parameter that never runs back, advances by at least one period over a sleep, and does not start over before it has been read behind the deadline; the variant with seconds and nanoseconds is the same loop.
- Memory.UnpackProc: takes packets that are not read beyond the end of the buffer, which the code does not check.
- Stores.ProcStore.Receive: like `Memory.UnpackProc`.
- Server.StorePushed: takes packets that are not read beyond the end of the buffer, and of those with an unknown type only the ones that have it last; otherwise the code releases instructions that it never set.
- Server.ServePushRequest: like `Server.StorePushed`.
- Server.ProcServe: like `Server.StorePushed` and `Server.ServeSlotsRequest`.
- Server.ServeSlotsRequest: the list has to fit the packet, which the code does not check.
- Pack.PackProc: for an unknown instruction type the code checks no size, so what stands before that type has to fit.
- Operands.BinopIsNative: signed 64-bit overflow, the smallest number divided by -1 included, is taken to wrap around, although C leaves it open; `Operands.SignedIntermediateFits` says where none can occur.
- Operands.UnopIsNative: like `Operands.BinopIsNative`.
- Operands.UnopsUndo: like `Operands.BinopIsNative`.
- ParamNames.CutsInFrontIff: a number beyond int is converted as glibc with a 64-bit long does, although C leaves it open; a terminator written in front of the buffer is taken to leave the name alone.
- LocalParams: floating-point, string and data parameters, remote nodes, waits, the operators `!`, `<<`, `>>`, `&`, `|`, `^` and the parsing of values are parameters of the model; names are looked up exactly, as `strmatch`, which is not part of this model, does for names without pattern characters; reading an array parameter out of range gives 0 and writing there changes nothing. Buffers are little-endian.
- Threads.EveryInterleaving: there is one admission caller, as the bound is checked outside the mutex; stopping threads from outside is not modelled.
- Calls of free slots inside a reachable procedure, beyond what the analysis makes of them.
- The two arrays of the analysis configuration are one map, whose keys are the marked slots; releasing analyses and collecting slots from them are not modelled.
- Packet headers of the network stack, transport, connection handling and timeouts of the client, and printing.
- Allocation and mutex failures, and the block of a procedure record itself, as opposed to its strings.
- The thread-local key that is created anew for every POSIX thread: the depth counter belongs to the thread.
- The command line for writing procedures, and the store variant in static memory, which differs in allocation only.
