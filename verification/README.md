# Verified models of the TINY compiler, the regular expression engine and five smaller programs

Each file models one source file or component, in the module of the same name. The models follow the code branch by
branch; what the code promises is then proved about them, for all inputs and all runs. `Basics` has what several models share.

* **The TINY compiler and its machine** (`compiler/loucomp`): `TinyParse` (parse.c), `TinyAnalyze` (analyze.c),
  `TinySymtab` (symtab.c), `TinyCgen` (cgen.c), `TinyCode` (code.c), `TinyMachine` (tm.c), `TinyCompiler` (main.c), with the
  meaning of programs in `TinyTree` and the simulation proof in `TinyCorrect`. The chain of theorems runs from a token
  sequence to the runs of the machine: the parser accepts exactly the grammar and builds the tree of the derivation
  (`ParsesExactly`), the driver reports an error exactly on what is not a well-typed program (`Compile`), and the loaded
  code file does what the program means, step for step, with loops, input, output and division by zero (`EndToEnd`,
  `CompilerCorrect`, `RunsForever`).
* **The regular expression engine** (`regexp`): `RegexPostfix` and `RegexAccepted` (re2post), `RegexBuild` (post2nfa with its
  patch lists threaded through the unfilled arrows) and `RegexStack` (when its stack is enough), `RegexNfa` (what the built
  machine is and reads), `RegexSim` (the simulation by marks), `RegexDfa`, `RegexCache` and `RegexMemo` (the bounded cache
  of dfa1.c and what it remembers), `RegexTwins` and `RegexWitness` (when that cache holds two states for one set),
  `RegexMain` (both programs), with the languages of expressions in `RegexLang`. Both programs print exactly the words of
  the language (`NfaMain`, `DfaMain`).
* **Serialization of table graphs** (`lua/serialization.lua`): `LuaSerialization`. Running the emitted script rebuilds an
  isomorphic graph, with its cycles and sharing.
* **Shortest paths** (`lua/dijkstra.lua`): `LuaDijkstra`. Dijkstra's algorithm and A* with its constant heuristic.
* **Flattened method tables** (`lua/middleclass.lua`): `LuaMiddleclass`. They agree with a search up the superclasses.
* **Write queues and slot reservation** (`c/network/socket_server.c`): `SocketQueue` and `SocketIds`.
* **First-fit allocation** (`asm/alloc.s`): `AsmAlloc`.

## Findings

* re2post accepts, besides the grammar, the empty text and texts that end in a bar outside all groups
  (regexp/nfa.c:94-101), and it takes '.' for a letter, which post2nfa takes for concatenation (regexp/nfa.c:236). For all
  these post2nfa takes operands off an empty stack. `UsableExactly` proves that no other accepted text has an unusable
  output; `AcceptedExactly` says which texts are accepted.
* The stack of post2nfa has 1000 entries and no test for its end (regexp/nfa.c:218). `StackExactly` proves for every accepted
  text that post2nfa keeps to its stack if and only if the text has none of the faults above and its expression needs no more
  than 1000 entries at once. `ManyOverflow` is a family of texts with n bars that overflows from 1000 bars on, which is about
  half the length that re2post accepts; no text with 898 bars or fewer does (`FewBars`).
* post2nfa stores a pattern byte as a signed char and the simulation compares it with an unsigned one
  (regexp/nfa.c:233, regexp/nfa.c:358), so words with bytes beyond 127 are never matched. `FinishedAccepts` states the language
  with this restriction, and `AsciiExact` proves that it loses nothing exactly when the expression has no such byte.
* ptrcmp in dfa1.c compares where two list entries are, not what they hold (regexp/dfa1.c:382-389), although its comment says
  that pointers are compared. So qsort (regexp/dfa1.c:446) does not sort a list by its states; it rearranges it in a way that
  depends on the library, which is the parameter `arrange` of the model. Two lists of the same states can then stay different,
  and the cache holds one state for each.
  * `HangTwins` proves that after the modelled calls of re2post, post2nfa and match on `b|b+` and bb, with a rearrangement that
    leaves the order alone, the cache has two live states for one set of NFA states.
  * `NoTwinsExactly` proves that no run with any bound on the cache has two live states for one set, if and only if `arrange`
    gives equal lists for equal sets among the lists that startlist and step produce. One direction holds for each bound
    (`UniformNoTwins`), the other for each bound that lets the lists on the way to the two texts live (`RoomShowsTwins`), so
    for a bound that lets all lists live the condition is exact at that bound (`NoTwinsWithRoom`). It is not exact for each
    bound above one: with room for two states, `b|a?bd?` never has two for one set although the condition fails
    (`HiddenTwins`).
  * A qsort that sorts by the states meets the condition (`SortingIsUniform`).
  * No list is ever held twice, and every answer is right for every `arrange` (`Cache.Match`).
* The list arrays of nfa.c have nstate entries although the matching state is not counted in nstate (regexp/nfa.c:389-390);
  `ListFits` proves that this is enough.
* append_send_buffer__ stores the size of the whole command even when part of it was written directly
  (c/network/socket_server.c:352), while the field is documented as what remains (c/network/socket_server.c:49). `SendSocket`
  proves that a command leaves the size fields right if and only if they were right before and the direct write did not take a
  part of the data. After a part of n bytes the next write is asked for exactly n bytes past the end of the data
  (`AppendSendBufferHigh`), and those bytes are sent after the message. At any time only the first buffer of the high list can
  have a wrong size (`RightExactly`), and the sizes are right again once it is sent (`SendWriteBuffer`). When everything is
  sent, the peer has the messages and nothing else if and only if no direct write ever took a part of a command
  (`SentExactly`, with `SendSocket`). `ShortWrite` proves this of a command of three bytes of which one is written directly:
  after one more write the peer has the message and the byte behind it.
* alloc.s compares sizes as signed numbers (asm/alloc.s:179-180). `AlwaysEnough` proves that the free region that the scan finds
  for a request is large enough, whatever the heap, exactly when the request is below 2^31, and `EnoughExactly` that in a given
  heap it is too small exactly when the request is 2^31 or more and the region is smaller than that. `GrantedTooLittle`
  proves that after the modelled calls of allocate and deallocate a request for 2^31 bytes gets a block of 8.
* The new break is computed modulo 2^32 without a test (asm/alloc.s:206-208). `Allocate` proves that a new region leaves the heap
  in order if and only if the break, the header and the size together stay below 2^32. `GrantedNothing` is a request for
  2^32 - 8 bytes that gets a block while the break stays where it was.

## Model

| member | source | states |
|---|---|---|
| TinyParse.ParsesExactly | compiler/loucomp/parse.c:43-215 | no error is reported exactly when the tokens derive from the grammar, and then the tree is that of every derivation (so there is only one), with operators associating to the left |
| TinyParse.PrintParse | compiler/loucomp/parse.c:43-215 | printing any complete tree, with parentheses where needed, and parsing the tokens gives the same tree and no error |
| TinyParse.SequenceComplete | compiler/loucomp/parse.c:43-60 | the tree of a derivation has every child that later passes dereference, and no empty statement sequence |
| TinyParse.StmtComplete | compiler/loucomp/parse.c:62-125 | the same for each kind of statement |
| TinyParse.ExpComplete | compiler/loucomp/parse.c:127-200 | the tree of an expression is an operator tree with both operands everywhere |
| TinyParse.SequenceParsed | compiler/loucomp/parse.c:43-60 | a derived sequence, followed by a token that ends sequences, is parsed to its tree and leaves exactly the rest |
| TinyParse.StmtParsed | compiler/loucomp/parse.c:62-125 | a derived statement is parsed to its tree and leaves exactly the rest |
| TinyParse.ExpParsed | compiler/loucomp/parse.c:127-141 | a derived expression is parsed to its tree and leaves exactly the rest |
| TinyParse.SimpleParsed | compiler/loucomp/parse.c:143-156 | reading a sum and going on is going on from its left-associated tree |
| TinyParse.TermParsed | compiler/loucomp/parse.c:158-171 | reading a product and going on is going on from its left-associated tree |
| TinyParse.FactorParsed | compiler/loucomp/parse.c:173-200 | a derived factor is parsed to its tree and leaves exactly the rest |
| TinyParse.SequenceExplained | compiler/loucomp/parse.c:43-60 | tokens that are parsed as a sequence without an error derive from the grammar with that tree |
| TinyParse.StmtExplained | compiler/loucomp/parse.c:62-125 | tokens that are parsed as a statement without an error derive from the grammar with that tree |
| TinyParse.ExpExplained | compiler/loucomp/parse.c:127-200 | tokens that are parsed as an expression without an error derive from the grammar with that tree |
| TinyParse.SequenceOfTree | compiler/loucomp/parse.c:43-60 | every complete tree is the tree of a derivation |
| TinyParse.ExpOfTree | compiler/loucomp/parse.c:127-200 | every operator tree is the tree of an expression with parentheses |
| TinyParse.Parser.Match | compiler/loucomp/parse.c:34-41 | the expected token is skipped, any other is an error and stays |
| TinyParse.Parser.StmtSequence | compiler/loucomp/parse.c:43-60 | does what the specification of sequences says to the tokens that remain, on any tokens |
| TinyParse.Parser.Statement | compiler/loucomp/parse.c:62-76 | the same for statements; an unexpected token is skipped |
| TinyParse.Parser.IfStmt | compiler/loucomp/parse.c:78-90 | the same for if |
| TinyParse.Parser.RepeatStmt | compiler/loucomp/parse.c:92-99 | the same for repeat |
| TinyParse.Parser.AssignStmt | compiler/loucomp/parse.c:101-109 | the same for assignments |
| TinyParse.Parser.ReadStmt | compiler/loucomp/parse.c:111-118 | the same for read |
| TinyParse.Parser.WriteStmt | compiler/loucomp/parse.c:120-125 | the same for write |
| TinyParse.Parser.Exp | compiler/loucomp/parse.c:127-141 | the same for comparisons |
| TinyParse.Parser.SimpleExp | compiler/loucomp/parse.c:143-156 | the same for sums |
| TinyParse.Parser.Term | compiler/loucomp/parse.c:158-171 | the same for products |
| TinyParse.Parser.Factor | compiler/loucomp/parse.c:173-200 | the same for factors |
| TinyParse.Parser.Parse | compiler/loucomp/parse.c:208-215 | on any token stream it stops; it reports an error exactly when the stream is not grammatical, and otherwise returns the complete tree of the derivation |
| TinyTree.QuotTruncates | compiler/loucomp/tm.c:376 | what a quotient leaves over has the sign of the dividend and is smaller than the divisor |
| TinyTree.QuotOnly | compiler/loucomp/tm.c:376 | no other number is such a quotient |
| TinyAnalyze.AssignDense | compiler/loucomp/analyze.c:48-84 | allocation never moves a name, gives distinct names distinct addresses, uses 0, 1, ... without a gap, and covers every name |
| TinyAnalyze.AssignFirst | compiler/loucomp/analyze.c:53-61 | the address of a name is the number of other names that occur before it first does |
| TinyAnalyze.OrderNames | compiler/loucomp/analyze.c:21-33 | the traversal meets exactly the names of the tree |
| TinyAnalyze.BooleanValue | compiler/loucomp/analyze.c:108-117 | a comparison has no other value than 0 and 1 |
| TinyAnalyze.ExpTypedExactly | compiler/loucomp/analyze.c:105-125 | an expression is well typed exactly if no operand anywhere in it is a comparison |
| TinyAnalyze.TypedExactly | compiler/loucomp/analyze.c:101-155 | a tree is well typed exactly if every test is a comparison and nothing assigned, written or used as an operand is one, over all its nodes |
| TinyAnalyze.WellTypedTests | compiler/loucomp/analyze.c:128-139 | in a well-typed tree every test of an if or a repeat has no other value than 0 and 1 |
| TinyAnalyze.Analyzer.InsertName | compiler/loucomp/analyze.c:53-61 | a new name gets the next free address, a known one keeps its own, and either way its line list gets one entry more |
| TinyAnalyze.Analyzer.InsertNode | compiler/loucomp/analyze.c:48-84 | the name of the node, if it has one, is allocated |
| TinyAnalyze.Analyzer.BuildSymtab | compiler/loucomp/analyze.c:89-95 | the table ends up with the addresses of the names in the order of their first occurrence, and with one line for each occurrence |
| TinyAnalyze.Analyzer.CheckExpNode | compiler/loucomp/analyze.c:105-125 | an error is reported when an operand is not an integer, and the type of the node is set |
| TinyAnalyze.Analyzer.CheckExp | compiler/loucomp/analyze.c:157-159 | an error is reported exactly when the expression is not well typed, and the type is Boolean exactly for a comparison |
| TinyAnalyze.Analyzer.TypeCheck | compiler/loucomp/analyze.c:157-159 | an error is reported exactly when some node breaks its rule; without one, every test has no other value than 0 and 1 |
| TinySymtab.Hash | compiler/loucomp/symtab.c:24-32 | the loop computes the remainder modulo 211 of the characters read as digits to the base 16 |
| TinySymtab.FindAfterAddLine | compiler/loucomp/symtab.c:77-83 | adding a line number to one entry changes no other and finds it again |
| TinySymtab.SymbolTable.Insert | compiler/loucomp/symtab.c:63-84 | the chained table goes on agreeing with a plain map; a new name gets its location and one line, a known one keeps its location and gets one line more, and no other changes |
| TinySymtab.SymbolTable.Lookup | compiler/loucomp/symtab.c:89-96 | the location of the name in that map, or -1 |
| TinyCode.PlacedOnce | compiler/loucomp/code.c:34-54 | placing code emits one line for each of its locations and no other |
| TinyCode.LoadLaid | compiler/loucomp/tm.c:230-300 | a file with exactly one line for each location, in whatever order, is loaded as the code at location 0 with HALT everywhere else |
| TinyCode.CodeFile.EmitRO | compiler/loucomp/code.c:34-39 | one line at the current location, which moves on; the highest location keeps up |
| TinyCode.CodeFile.EmitRM | compiler/loucomp/code.c:49-54 | the same for register-to-memory instructions |
| TinyCode.CodeFile.EmitRMAbs | compiler/loucomp/code.c:90-97 | the absolute target becomes an offset from the pc after its increment |
| TinyCode.CodeFile.EmitSkip | compiler/loucomp/code.c:60-65 | locations are skipped, nothing is emitted, and the location before is returned |
| TinyCode.CodeFile.EmitBackup | compiler/loucomp/code.c:70-73 | only the current location changes |
| TinyCode.CodeFile.EmitRestore | compiler/loucomp/code.c:79-80 | emission goes on above everything emitted or skipped |
| TinyCgen.CodeGenerator.CGen | compiler/loucomp/cgen.c:171-185 | every location of the tree's code is emitted exactly once and nothing else is, tmpOffset is restored, and emission ends at the top |
| TinyCgen.CodeGenerator.GenStmt | compiler/loucomp/cgen.c:25-95 | the same for one statement |
| TinyCgen.CodeGenerator.GenIf | compiler/loucomp/cgen.c:31-55 | the same for if, with both jumps filled in later to where the source construct goes on |
| TinyCgen.CodeGenerator.GenRepeat | compiler/loucomp/cgen.c:57-69 | the same for repeat, with the jump back to the first instruction of the body |
| TinyCgen.CodeGenerator.FillIn | compiler/loucomp/cgen.c:44-47 | a backpatch emits one jump at the skipped location and leaves the emission where it was |
| TinyCgen.CodeGenerator.GenExp | compiler/loucomp/cgen.c:98-166 | the same for one expression node |
| TinyCgen.CodeGenerator.GenOp | compiler/loucomp/cgen.c:117-161 | the same for an operator, with the left operand kept in a temporary |
| TinyCgen.CodeGenerator.EmitOp | compiler/loucomp/cgen.c:129-159 | the instructions of the operator |
| TinyCgen.CodeGenerator.EmitComparison | compiler/loucomp/cgen.c:142-155 | a comparison is a subtraction, a conditional jump and the constants 0 and 1 |
| TinyCgen.CodeGenerator.EmitPrelude | compiler/loucomp/cgen.c:202-206 | the two instructions of the prelude at the first two locations |
| TinyCgen.CodeGenerator.CodeGen | compiler/loucomp/cgen.c:196-212 | the whole file holds each location of the program exactly once, and ends at the top |
| TinyCgen.NumberedRegisters | compiler/loucomp/cgen.c:98-161 | the instructions of an operator on a constant and a variable, and of the prelude, with the registers of code.h as numbers |
| TinyCgen.CodeValid | compiler/loucomp/cgen.c:25-166 | all instructions generated have register operands in range |
| TinyMachine.RunTwice | compiler/loucomp/tm.c:307-397 | runs of the machine compose |
| TinyMachine.RunStopped | compiler/loucomp/tm.c:307-397 | a machine that has stopped stays stopped |
| TinyMachine.StepStops | compiler/loucomp/tm.c:307-397 | a step fails exactly for a pc or an address outside the 1024 cells or a division by zero, and halts exactly at HALT |
| TinyMachine.StepJumps | compiler/loucomp/tm.c:387-392 | each of the six conditional jumps goes to its address exactly if the register compares with 0 as its name says, and changes nothing else |
| TinyMachine.LoadedAt | compiler/loucomp/tm.c:230-300 | loading puts the instruction of a location there in whatever order the lines come, and HALT where there is none |
| TinyMachine.Machine.ReadInstructions | compiler/loucomp/tm.c:221-303 | the machine is reset and the lines are loaded, or the first line that is not loadable is refused, or would be written outside the array |
| TinyMachine.Machine.StepTM | compiler/loucomp/tm.c:307-397 | one step in place on the arrays is the step function on the state before, except exactly where C leaves it undefined |
| TinyMachine.Machine.StepMany | compiler/loucomp/tm.c:543-548 | the stepping loop computes the run of that many steps, or meets a step that C leaves undefined |
| TinyCorrect.RunExp | compiler/loucomp/cgen.c:98-166 | running an expression's code leaves its value in ac and changes nothing but ac, ac1, pc and free temporaries, or stops on the division by zero that its evaluation meets |
| TinyCorrect.RunOp | compiler/loucomp/cgen.c:117-161 | the same for an operator, across the push and the pop of the left operand |
| TinyCorrect.RunComparison | compiler/loucomp/cgen.c:142-155 | the five instructions of a comparison leave 1 or 0 in ac |
| TinyCorrect.RunStmts | compiler/loucomp/cgen.c:171-185 | running the code of a statement sequence follows its meaning for any allowance of loop rounds |
| TinyCorrect.RunIf | compiler/loucomp/cgen.c:31-55 | the same for if |
| TinyCorrect.RunRepeat | compiler/loucomp/cgen.c:57-69 | the same for repeat; when the rounds run out the machine has made at least as many steps |
| TinyCorrect.RunAssign | compiler/loucomp/cgen.c:71-79 | the same for assignments |
| TinyCorrect.RunRead | compiler/loucomp/cgen.c:81-85 | the same for read |
| TinyCorrect.RunWrite | compiler/loucomp/cgen.c:86-91 | the same for write |
| TinyCorrect.RunPrelude | compiler/loucomp/cgen.c:202-206 | after the prelude mp holds the highest address, cell 0 is clear, and every variable reads 0 |
| TinyCorrect.RunProgram | compiler/loucomp/cgen.c:196-212 | for each outcome of the source program there is a run of the loaded program that shows it |
| TinyCorrect.RunDecided | compiler/loucomp/cgen.c:196-212 | every run of the machine is explained by the source program, and never faults on memory |
| TinyCorrect.CompilerCorrect | compiler/loucomp/cgen.c:196-212 | the machine halts, or stops on a division by zero, exactly when the source program does, with the same input read, output printed and variables; while the one goes on so does the other |
| TinyCorrect.RunsForever | compiler/loucomp/cgen.c:196-212 | the machine never stops exactly when the source program never ends |
| TinyCompiler.CodeHasSize | compiler/loucomp/cgen.c:25-166 | the number of instructions depends on the tree alone |
| TinyCompiler.SequenceNames | compiler/loucomp/analyze.c:21-33 | the traversal meets the names of a program in the order of its text, as often as they occur |
| TinyCompiler.VariablesInText | compiler/loucomp/analyze.c:48-95 | the address of a variable is the number of other variables that occur in the program text before it first does |
| TinyCompiler.AllocatedFits | compiler/loucomp/analyze.c:48-95 | every name that the code generator looks up has an address below the number of names, and distinct names have distinct ones |
| TinyCompiler.Compile | compiler/loucomp/main.c:68-95 | an error and no code exactly when the tokens are not a well-typed program; otherwise a code file with each location of the program once |
| TinyCompiler.LoadedProgram | compiler/loucomp/tm.c:221-303 | the code file of a program that fits is loadable, and loading puts the program in memory |
| TinyCompiler.EndToEnd | compiler/loucomp/main.c:68-95 | the loaded file of a program that fits does what the program means: same stop, same reason, same values read, printed and stored |
| RegexLang.AsciiExact | regexp/nfa.c:358 | leaving out words with bytes beyond 127 loses nothing exactly when the expression has no such byte |
| RegexPostfix.Re2Post | regexp/nfa.c:24-102 | the loops over the buffer and the stack of groups compute the translation; of the texts of the grammar those with less than 4000 characters and at most 100 groups open at once are accepted, with their postfix text, which has less than 8000 |
| RegexPostfix.BoundedStep | regexp/nfa.c:41-93 | after every character at most two atoms wait, and one around each open group, and the output with the operators owed is at most twice the input consumed |
| RegexPostfix.TranslatesGrammar | regexp/nfa.c:24-102 | every text of the grammar is translated to the postfix text of its expression, with repetition binding to the last atom |
| RegexPostfix.TranslatesExactly | regexp/nfa.c:24-102 | a text of the grammar with less than 4000 characters is accepted exactly if at most 100 groups are open at once |
| RegexAccepted.DecodeExactly | regexp/nfa.c:230-266 | reading the postfix text of an expression as post2nfa does gives the expression back if and only if no literal is one of the operator signs; otherwise an operator lacks operands |
| RegexPostfix.Translator.Next | regexp/nfa.c:41-93 | one character changes the counters, the stack of groups and the buffer as the specification says, or is refused |
| RegexPostfix.Translator.Finish | regexp/nfa.c:94-101 | the operators still owed are written, or an open group is refused |
| RegexPostfix.ScanAlternation | regexp/nfa.c:41-93 | while an alternation is read, natom is at most 2 at its level and outer levels are untouched |
| RegexAccepted.ScanExplained | regexp/nfa.c:41-93 | whatever is accepted so far is a partial parse of the grammar, level by level |
| RegexAccepted.AcceptedExactly | regexp/nfa.c:24-102 | re2post accepts exactly the short texts of the grammar and those that stop after a bar or before anything |
| RegexAccepted.UsableExactly | regexp/nfa.c:94-102 | the output for an accepted text is the postfix text of one expression exactly when the text has no '.', is not empty and does not end in a bar; otherwise, but for the empty text, an operator lacks operands |
| RegexAccepted.OneMeaning | regexp/nfa.c:24-102 | all derivations of an accepted text without '.' denote one expression |
| RegexStack.NeedReached | regexp/nfa.c:217-222 | on the way through the postfix text the stack gets as high as the expression needs |
| RegexStack.FitsExactly | regexp/nfa.c:217-222 | the postfix text of an expression keeps to the 1000 entries if and only if the expression needs no more |
| RegexStack.StackExactly | regexp/nfa.c:217-276 | for every accepted text: post2nfa keeps to its stack, at both ends, if and only if the text is usable |
| RegexStack.FewBars | regexp/nfa.c:218 | no expression with 898 bars or fewer needs more than 1000 entries |
| RegexStack.ManyOverflow | regexp/nfa.c:218 | a text of n + 1 letters with bars between them is accepted, and its output keeps to the stack if and only if n is below 1000 |
| RegexNfa.ExitsDistinct | regexp/nfa.c:163-208 | no arrow is on a fragment's list twice |
| RegexNfa.FragmentKept | regexp/nfa.c:185-208 | patching arrows elsewhere does not change what a fragment is |
| RegexNfa.FragmentReads | regexp/nfa.c:214-276 | a patched fragment leads to its exit by every word of its expression |
| RegexNfa.FragmentReadsOnly | regexp/nfa.c:214-276 | and by no other word, through loops over the empty word as well |
| RegexNfa.FinishedAccepts | regexp/nfa.c:214-276 | the matching state is reached exactly by the words of the expression without bytes beyond 127 |
| RegexBuild.ThreadedJoin | regexp/nfa.c:198-208 | replacing the end of one list by another joins them |
| RegexBuild.CatPiece | regexp/nfa.c:236-241 | patching one fragment's exits to the start of the next concatenates them |
| RegexBuild.AltPiece | regexp/nfa.c:242-247 | a split leading to both fragments, with their lists joined, offers a choice |
| RegexBuild.QuestPiece | regexp/nfa.c:248-252 | a split leading to the fragment or past it makes it optional |
| RegexBuild.Builder.List1 | regexp/nfa.c:175-183 | the list of one arrow |
| RegexBuild.Builder.Patch | regexp/nfa.c:186-195 | every arrow on the list, and no other, now points to the state |
| RegexBuild.Builder.Append | regexp/nfa.c:198-208 | the joined list holds the arrows of both in order |
| RegexBuild.Builder.Catenate | regexp/nfa.c:236-241 | the fragment of the concatenation |
| RegexBuild.Builder.Alternate | regexp/nfa.c:242-247 | the fragment of the choice |
| RegexBuild.Builder.ZeroOrOne | regexp/nfa.c:248-252 | the fragment of the option |
| RegexBuild.Builder.ZeroOrMore | regexp/nfa.c:253-258 | the fragment of the loop entered at its split |
| RegexBuild.Builder.OneOrMore | regexp/nfa.c:259-264 | the fragment of the loop entered at its body |
| RegexBuild.Builder.Symbol | regexp/nfa.c:230-266 | after each symbol the stack holds one fragment for each expression, on disjoint states, each with its own list of unfilled arrows |
| RegexBuild.Builder.Post2Nfa | regexp/nfa.c:215-276 | on every text that keeps to the stack: the NFA of the expression with no arrow left dangling, or NULL when more than one fragment is left |
| RegexSim.FinishedClosed | regexp/nfa.c:268-276 | no arrow that the simulation follows is dangling |
| RegexSim.AfterStep | regexp/nfa.c:334-346 | stepping the states reached by w on c gives the states reached by w and c |
| RegexSim.ListFits | regexp/nfa.c:389-390 | a list never holds more than nstate entries, although the matching state is not counted |
| RegexSim.Simulator.AddState | regexp/nfa.c:314-326 | what unlabelled arrows reach is marked, and what is new and not a split is added once, depth first; it ends because the unmarked states get fewer |
| RegexSim.Simulator.StartList | regexp/nfa.c:292-298 | exactly the closure of the start state, without duplicates, in the order of the marking |
| RegexSim.Simulator.Step | regexp/nfa.c:334-346 | exactly the closure of the arrows labelled c, without duplicates, in the order of the marking |
| RegexSim.Simulator.IsMatch | regexp/nfa.c:302-310 | whether the matching state is on the list |
| RegexSim.Simulator.Match | regexp/nfa.c:350-363 | whether the text leads to the matching state |
| RegexDfa.CompareExactly | regexp/dfa1.c:364-378 | listcmp puts a shorter list first, and of two lists of one length the one that is smaller where they first differ |
| RegexDfa.CompareTrans | regexp/dfa1.c:364-378 | listcmp is transitive, so it orders the lists |
| RegexDfa.CompareSwap | regexp/dfa1.c:364-378 | listcmp changes sign when its arguments are swapped |
| RegexDfa.ListCmp | regexp/dfa1.c:364-378 | the loop computes the comparison, which is 0 only on equal lists |
| RegexDfa.QSort | regexp/dfa1.c:382-389 | the rearrangement that the library makes of the list: the same states, once each |
| RegexDfa.Rearranged | regexp/dfa1.c:446 | a rearranged list has the same states, once each |
| RegexDfa.StorePlace | regexp/dfa1.c:467 | storing through the link where the search ended changes that link and nothing else of the tree |
| RegexDfa.PlugTree | regexp/dfa1.c:447-456 | a subtree in the place where the search stands is the whole search tree |
| RegexCache.Cache.FreeStates | regexp/dfa1.c:413-421 | each state of the tree is put on the freelist exactly once, although the links to left children are reused for it |
| RegexCache.Cache.FreeCache | regexp/dfa1.c:428-433 | the tree is empty and its states are put in front of the freelist |
| RegexCache.Cache.AllocDState | regexp/dfa1.c:394-409 | the first state of the freelist, or a new one when there is none; it is cleared, and never more than the bound are allocated |
| RegexCache.Cache.Search | regexp/dfa1.c:447-456 | the state with the list, or the one place where it may hang |
| RegexCache.Cache.Hang | regexp/dfa1.c:464-468 | the tree stays ordered without equal lists, and tree and freelist partition all states |
| RegexCache.Cache.Install | regexp/dfa1.c:464-471 | a new live state for the list without recorded steps; the step given, and no other, is recorded; every cached step leads to a live state with the rearranged step of its list |
| RegexCache.Cache.DStateOf | regexp/dfa1.c:440-472 | a live state with the rearranged list: a list that is live changes nothing and records nothing; a new one is installed with its step; after a flush it is alone and no step is recorded |
| RegexCache.Cache.NewDState | regexp/dfa1.c:458-471 | the same for a list that is not live |
| RegexCache.Cache.StartDState | regexp/dfa1.c:483-486 | a live state for what the start state reaches, and the request is all that changes what is remembered |
| RegexCache.Cache.Record | regexp/dfa1.c:469-470 | the step is stored in the state and nothing else changes; every cached step stays right |
| RegexCache.Cache.NextState | regexp/dfa1.c:489-493 | a live state for the rearranged step of the list, also when the flush has recycled the state it came from; the step is recorded exactly if its list was new and the cache not full |
| RegexCache.Cache.Match | regexp/dfa1.c:497-510 | the same answer as the NFA for every text, whatever was cached, flushed and recycled before; and exactly which lists are live and which steps recorded afterwards, and how many lists were computed: none for a step that was recorded |
| RegexCache.Cache.TwinStates | regexp/dfa1.c:447-456 | the live lists have two for one set exactly when two live states have |
| RegexCache.Cache.StepKnown | regexp/dfa1.c:505-506 | a step is recorded in a state exactly if it is remembered for its list |
| RegexMemo.ListsSaved | regexp/dfa1.c:497-510 | reading a text never takes more lists than the NFA does, and fewer exactly if some step on the way was recorded |
| RegexMemo.RemembersLive | regexp/dfa1.c:497-510 | which lists are live does not depend on which steps are recorded, and steps are recorded only between live lists |
| RegexTwins.NoTwinsExactly | regexp/dfa1.c:440-472 | no run of a cache, with any bound and any texts, has two live states for one set, if and only if the rearrangement gives equal lists for equal sets among the lists that startlist and step produce |
| RegexTwins.UniformNoTwins | regexp/dfa1.c:440-472 | with such a rearrangement no run has two live states for one set, at each bound |
| RegexTwins.RoomShowsTwins | regexp/dfa1.c:440-472 | if two texts have lists of one set that are rearranged differently, every cache with room for the lists met on the way to them has two live states for that set after reading them |
| RegexTwins.NoTwinsWithRoom | regexp/dfa1.c:440-472 | at a bound that lets all lists of the machine live, no run has two live states for one set if and only if the rearrangement is such |
| RegexTwins.TwoStatesNoTwins | regexp/dfa1.c:458-462 | a cache for two states never has two for one set if no step leads from a list to another of the same set, nor any list to that of the start |
| RegexTwins.SortingIsUniform | regexp/dfa1.c:381-389 | a qsort that sorts by what the entries hold gives equal lists for equal sets |
| RegexWitness.TwinLists | regexp/nfa.c:314-346 | for the alternation of b and b+ the lists after b and bb hold the same two states in different orders |
| RegexWitness.TwinsNotUniform | regexp/dfa1.c:382-389 | for that expression a qsort that leaves the order alone gives different lists for one set |
| RegexWitness.HangTwins | regexp/dfa1.c:446 | after the modelled calls of re2post, post2nfa and match on the alternation of b and b+ and the text bb, with a rearrangement that leaves the order alone, the cache has two live states for one set |
| RegexWitness.HiddenTwins | regexp/dfa1.c:458-462 | for the alternation of b and a?bd? the same qsort gives different lists for one set, and yet no cache for two states ever holds both |
| RegexMain.NfaMain | regexp/nfa.c:366-395 | the texts printed are those in the language of the expression |
| RegexMain.DfaMain | regexp/dfa1.c:513-542 | the same with one bounded cache for all texts, for every bound and every rearrangement |
| LuaSerialization.SamePaths | lua/serialization.lua:137-142 | in the rebuilt graph every path leads to the copy of what it leads to in the original, and to nothing where that leads to nothing |
| LuaSerialization.SameSharing | lua/serialization.lua:137-142 | two paths lead to one table in the copy exactly when they do in the original |
| LuaSerialization.NothingRefused | lua/serialization.lua:81-89 | a graph that is rebuilt holds no key or value that cannot be saved |
| LuaSerialization.Emitted | lua/serialization.lua:99-104 | a number, a string or a back-reference, whose path is assigned by then, is stored under the name and every saved name goes on leading to its table |
| LuaSerialization.Created | lua/serialization.lua:106-107 | a new empty table is stored under the name, and every saved name goes on leading to its table |
| LuaSerialization.Serializer.AuxLoopSeri | lua/serialization.lua:97-117 | the value is rebuilt under the name with every table it leads to, each created once; it ends on cyclic graphs because the unsaved tables get fewer; an error means that something cannot be saved |
| LuaSerialization.Serializer.SaveFields | lua/serialization.lua:108-112 | the new table gets exactly the copies of the fields, in whatever order they come |
| LuaSerialization.Serializer.LoopSeri | lua/serialization.lua:91-95 | an error exactly when a path leads to something that cannot be saved; otherwise the script runs without an error and leaves an isomorphic graph with no other table |
| LuaDijkstra.AllExact | lua/dijkstra.lua:58-68 | when every node is closed, Dist is the length of a shortest walk, or infinite where there is none |
| LuaDijkstra.NearestExact | lua/dijkstra.lua:172-176 | a node that is nearest among those not closed has its exact distance |
| LuaDijkstra.Improved | lua/dijkstra.lua:62-67 | a shorter way only ever leads to a node that is not closed, and recording it keeps the invariant |
| LuaDijkstra.Closed | lua/dijkstra.lua:59-60 | closing a nearest node keeps the invariant |
| LuaDijkstra.TrailIsWalk | lua/dijkstra.lua:109-118 | following Prev ends at the source, along a walk of the length in Dist |
| LuaDijkstra.TrailDistinct | lua/dijkstra.lua:109-118 | following Prev meets no node twice |
| LuaDijkstra.RelaxArcs | lua/dijkstra.lua:62-67 | going through the arcs of the node just closed keeps the invariant |
| LuaDijkstra.ExtractMin | lua/dijkstra.lua:26-42 | the first of the nearest nodes is taken from the list and the others stay in their order |
| LuaDijkstra.PrintPath | lua/dijkstra.lua:109-118 | the nodes printed are those met following Prev, no one twice, and the loop ends |
| LuaDijkstra.Dijkstra | lua/dijkstra.lua:44-71 | the shortest distance of every node, and a shortest walk to the target that meets no node twice |
| LuaDijkstra.ExtractMinFscore | lua/dijkstra.lua:122-138 | a node of least score is taken from the set |
| LuaDijkstra.Expand | lua/dijkstra.lua:179-195 | closing a node and going through its arcs keeps the invariant and the scores |
| LuaDijkstra.AStar | lua/dijkstra.lua:153-197 | the search stops at the target with its shortest distance and such a walk, that meets no node twice, or ends without printing anything exactly when there is no walk |
| LuaMiddleclass.Classes.PropagateInstanceMethod | lua/middleclass.lua:49-58 | the name is set in the class and exactly in those that inherit it from there, and nothing else changes |
| LuaMiddleclass.Classes.DeclareInstanceMethod | lua/middleclass.lua:60-68 | after a declaration or its removal every flattened table again has what a search up the superclasses finds |
| LuaMiddleclass.Classes.IncludeMixin | lua/middleclass.lua:93-106 | every method of the mixin is declared, and all tables agree |
| LuaMiddleclass.Classes.CreateClass | lua/middleclass.lua:171-174 | a new class without superclass that declares the mixin's methods, without `included` and `static`, and all tables agree |
| LuaMiddleclass.Classes.NewClass | lua/middleclass.lua:171-174 | class(name) declares the three methods of the default mixin, class(name, super) its initialize alone; all tables agree and no other declaration changes |
| LuaMiddleclass.Classes.Subclass | lua/middleclass.lua:135-150 | a new subclass that declares its initialize and inherits everything else, and all tables agree |
| LuaMiddleclass.InheritsThrough | lua/middleclass.lua:53-57 | what inherits a name does so through a subclass that does not declare it |
| LuaMiddleclass.DeclaredNearest | lua/middleclass.lua:63-65 | the value that is propagated is the nearest declaration after the change |
| LuaMiddleclass.FlattenedAgain | lua/middleclass.lua:60-68 | setting the name in the heirs of the class is enough for all tables to agree |
| SocketQueue.NoInterleaving | c/network/socket_server.c:403-519 | the peer gets whole messages one after the other and a part of one more at most, and of each priority those sent are the first ones submitted |
| SocketQueue.DrainConserves | c/network/socket_server.c:403-444 | sending a list, whatever its size fields, sends the bytes from each write_ptr on as far as the size reaches, losing and repeating nothing |
| SocketQueue.DrainStops | c/network/socket_server.c:403-444 | sending stops only when the list is empty, no answer is left, or write would block, fails or takes less than asked; only a failure closes the socket |
| SocketQueue.DrainAll | c/network/socket_server.c:403-444 | when write takes whatever it is asked to, interrupted or not, everything is sent |
| SocketQueue.ShortWrite | c/network/socket_server.c:350-352 | after a modelled send command whose direct write takes one byte of three, and one more round of sending, the peer has the three bytes and the one behind them |
| SocketQueue.ConcatExactly | c/network/socket_server.c:350-352 | what is sent is the messages and nothing else if and only if nothing is sent behind any of them |
| SocketQueue.Socket.RightExactly | c/network/socket_server.c:49 | the size fields are right if and only if the first buffer of the high list was not partly written when it was queued; no other can be wrong |
| SocketQueue.Socket.SentExactly | c/network/socket_server.c:403-519 | when everything is sent, the peer has the messages submitted and nothing else if and only if no command was partly written when it was queued |
| SocketQueue.Socket.AppendSendBufferHigh | c/network/socket_server.c:369-379 | the data is queued last in the high list and the total is the sum of the sizes; the size fields are right afterwards exactly when they were and nothing was written directly, and likewise only messages are sent; after n bytes were, offset and size reach n bytes past the data |
| SocketQueue.Socket.AppendSendBufferLow | c/network/socket_server.c:382-390 | the data is queued last in the low list, the total is the sum of the sizes, and the size fields are right exactly when they were |
| SocketQueue.Socket.AdvanceHead | c/network/socket_server.c:426-438 | after a write, whatever the size field, the first buffer is dropped or shortened, and only the very first of all is ever partly sent |
| SocketQueue.Socket.SendWriteBuffList | c/network/socket_server.c:403-444 | whatever the size fields, as much of the list is written as the answers of write allow, in order, and no more |
| SocketQueue.Socket.RaiseWriteBuffListUncomplete | c/network/socket_server.c:457-472 | the partly sent buffer becomes the high list, and the low list has none; the order and the total are kept |
| SocketQueue.Socket.SendWriteBuffer | c/network/socket_server.c:483-519 | one round of sending, whatever the size fields: the high list, then the low list if nothing is left, with the order of submission kept for each priority; the size fields are right afterwards if and only if they were or a buffer was sent to its end |
| SocketQueue.Socket.SendLow | c/network/socket_server.c:499-507 | the low list is sent, its head moved to the high list if it is partly sent, and the size fields are right |
| SocketQueue.Socket.SendSocket | c/network/socket_server.c:631-688 | what a send command does in every state of the socket, also after partial direct writes; the size fields are right afterwards, and only messages are sent, if and only if it was so before and the direct write did not take a part of the data |
| SocketIds.Server.GenerateId | c/network/socket_server.c:116-143 | run by one thread, the first free slot after the last id is reserved, and -1 comes back exactly when every slot is occupied, across the wrap-around |
| SocketIds.EverySlot | c/network/socket_server.c:119-125 | among 65536 tries in a row every slot comes up, also across the wrap-around |
| SocketIds.TriedNext | c/network/socket_server.c:120-123 | the increment and the masking give the next id modulo 2^31 |
| SocketIds.AloneServed | c/network/socket_server.c:116-143 | the atomic steps of a call that no other disturbs reserve the slot of the first id tried whose slot is free, as GenerateId does, or end without an id when no slot tried is free |
| SocketIds.NextInv | c/network/socket_server.c:116-143 | no atomic step of any call lets two calls hold one slot |
| SocketIds.LiveIdsDistinct | c/network/socket_server.c:116-143 | under any interleaving the ids of live sockets differ modulo 65536, and each slot records its id |
| AsmAlloc.Disjoint | asm/alloc.s:172-183 | regions do not overlap |
| AsmAlloc.TilesAt | asm/alloc.s:156-183 | each region lies between heap_begin and current_break, where the scan meets it |
| AsmAlloc.Allocator.HeaderWords | asm/alloc.s:39-55 | in front of each block are a word that is 1 if it is free and 0 if not, and a word with its size |
| AsmAlloc.StoreLoad | asm/alloc.s:163-190 | a word written to memory is read back, and no other byte changes |
| AsmAlloc.FirstFit | asm/alloc.s:156-183 | the lowest free region that passes the signed comparison, if there is one |
| AsmAlloc.FitsExactly | asm/alloc.s:179-180 | the signed comparison tells whether a free region is large enough exactly when both sizes are below 2^31 or neither is |
| AsmAlloc.EnoughExactly | asm/alloc.s:179-180 | the region found is large enough if and only if less than 2^31 is requested or the region is not smaller than 2^31 |
| AsmAlloc.AlwaysEnough | asm/alloc.s:179-180 | the requests for which the region found is large enough in every heap are those below 2^31 |
| AsmAlloc.GrantedTooLittle | asm/alloc.s:179-190 | after modelled calls that give back a block of 8 bytes, a request for 2^31 bytes gets that block |
| AsmAlloc.GrantedNothing | asm/alloc.s:206-208 | after a modelled first request for 2^32 - 8 bytes, which gets a block, the break is where it was |
| AsmAlloc.BlocksKept | asm/alloc.s:185-190 | a change confined to a header is in no block |
| AsmAlloc.MarkHeaded | asm/alloc.s:185-190 | marking a region leaves the tiling and every other header as they are |
| AsmAlloc.NewHeaded | asm/alloc.s:235-245 | a header written at the break makes one more region there |
| AsmAlloc.Allocator.AllocateInit | asm/alloc.s:69-94 | the heap begins, empty, after the last valid address |
| AsmAlloc.Allocator.Allocate | asm/alloc.s:132-258 | for every size: the block of the lowest fitting free region, or a new region at the break, or 0; no byte outside the block's header changes, and so none of any block; the regions tile the heap afterwards if and only if the new break has not wrapped around |
| AsmAlloc.Allocator.AllocateHere | asm/alloc.s:185-197 | the region is taken, nothing but its header changes, and so no byte of any block |
| AsmAlloc.Allocator.MoveBreak | asm/alloc.s:200-258 | a new region at the break, or 0 when the system call fails; the regions tile the heap afterwards if and only if it failed or the new break has not wrapped around |
| AsmAlloc.Allocator.Deallocate | asm/alloc.s:289-306 | the region is free again, nothing but its header changes, and so no byte of any block |
| AsmAlloc.Allocator.Write | asm/alloc.s:191-192 | what a program writes to its block changes that byte only, and the regions stay as they are |

## Left out

* Reading characters (scan.c; getNum and getWord in tm.c): the parser starts from tokens and the loader from instructions with locations. Comment lines, listings, tracing flags, files and the command loop of tm.c are not modelled, but for its stepping command.
* Memory that runs out: every malloc succeeds.
* Machine words: values of TINY programs, list ids and sizes are unbounded integers, except in SocketIds. Division truncates toward zero as in C.
* The line numbers in tree nodes, and the types stored there: trees are values, checkNode returns the type instead of storing it, and InsertName takes an arbitrary line number. The tail pointer of stmt_sequence is the end of the sibling chain.
* The chain cells and line lists of symtab.c as heap objects: a chain is a value that is replaced in its bucket.
* What C leaves undefined in tm.c: a pc of exactly IADDR_SIZE, an address of exactly DADDR_SIZE, and a line with a negative location or the location IADDR_SIZE pass the tests and reach outside the arrays. The model answers `Stray` or `Outside` there and claims nothing else. CompilerCorrect proves that compiled programs never meet them.
* TinyCompiler.LoadedProgram: programs whose code does not fit the 1024 cells are excluded; the loader refuses their files or writes outside its array.
* TinyCompiler.EndToEnd: programs whose code or whose variables and temporaries do not fit the 1024 cells are excluded.
* The source states the meaning of TINY programs only through the compiler and the machine; TinyTree states it on its own, with an allowance for the rounds of loops that changes nothing once it is large enough (MoreFuel).
* dfa0.c: its cache has no bound, and it records every step, where dfa1.c returns a state that it finds before it would record the step to it. What holds of a cache in `Cache.Match` does not depend on which steps are recorded, but dfa0.c is not modelled itself.
* RegexMain.NfaMain: accepted texts for which post2nfa leaves its stack are excluded, exactly those (StackExactly); bytes beyond 127 are as under Findings.
* RegexMain.DfaMain: the same.
* RegexDfa.QSort: what the library does is taken to depend on the list alone. It is always given the array of l1, and the comparison sees only addresses.
* RegexBuild.Builder.Post2Nfa: postfix texts for which the C code would leave its stack are excluded; StackExactly says for which texts re2post produces them.
* Addresses of NFA and DFA states are numbers in the order of allocation; listcmp needs only that they are ordered.
* LuaSerialization: the first serializer of the file, which has no sharing; text quoting, number formatting and load, in place of which statements with paths are run by a small interpreter.
* LuaDijkstra: reading the graph; lengths are the non-negative integers that it reads. breadth_first_find_path computes no shortest distance.
* LuaMiddleclass.Classes.PropagateInstanceMethod: the name __index, which has a wrapper in place of the value.
* LuaMiddleclass.Classes.DeclareInstanceMethod: the same name.
* LuaMiddleclass.Classes.IncludeMixin: a mixin that assigns one of a class's own fields; the static members and the hook of a mixin.
* LuaMiddleclass.Classes.CreateClass: the same.
* LuaMiddleclass: static members, instances, weak keys and user hooks. A new subclass is registered in its superclass before its table is filled, not after, which nothing can observe in between.
* SocketQueue: epoll, accepting, reading and pipes. What write answers is a parameter, and so is what memory holds behind the data of a command; after the last answer given it would block. The linked lists are sequences. Closing does not empty the lists, as in the code, so claims end there.
* SocketIds.Server.GenerateId: in one thread the compare-and-swap always succeeds. That a call among others returns -1 only when no slot is free is not claimed.
* AsmAlloc.Allocator.Allocate: what the brk system call answers is a parameter. It is taken to answer as the comment at asm/alloc.s:221-224 says, so 0 if it fails, and to fail for the last 8 bytes of the address space, which are the system's.
* The other programs of the repository: sorts, lists, sockets in Python, bindings and tutorials, which hold easy members only.
