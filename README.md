# Minilux interpreter core in Dafny

Minilux is a small scripting language with a tree-walking interpreter. `Interpreter` (in
`src/interpreter.rs`) owns this state:

- the variable store and the function table;
- the value of the last `return`;
- a stack of base directories and a module search list, used by includes;
- the set of includes in progress.

It runs parsed statements one by one. It evaluates expressions, calls user functions by
saving, binding and restoring their parameters, and includes other script files. An include
searches a list of directories for the first match and refuses a file already in progress.

How the project is laid out:

- `Interp.Interpreter` is the `Interpreter` struct as a class. Its methods (`Execute`,
  `ExecuteStatement`, `EvalExpr` and the helpers they call) update its fields in place.
- `Machine` holds one function per method, over a `State` value with the same fields. Each
  method's `ensures` says that its result and the new state are what that function
  computes from the old state. The functions' own `ensures` state what every step keeps:
  the base-directory stack, the module search list and the include marks (`Machine.Kept`).
- `Laws` proves what execution promises, about the `Machine` functions. It covers how
  bodies compose, which branch an `if` runs, how a `while` iterates, what a call leaves in
  the store, what `return` records, and how includes detect cycles.
- `Semantics` holds reference definitions that do not run code:
  - `PureEval`: the value of an expression that calls no user function;
  - `StoreStep`: the effect of a statement that rewrites one variable;
  - `BlockResult` and `RunResult`: what a body and the top level yield, given the
    outcomes of their statements;
  - `ChooseBranch`: which branch of an `if` runs, given the truths of its conditions.
- `Rules`: what operators, builtins, substitution and `printf` do with values that are
  already evaluated.
- `Text`: the string functions of Rust's standard library that the interpreter uses.
- `Includes`: parsing the module path list and resolving an include path.
- `Store`: the variable store, array mutation and the call protocol.

Everything outside the interpreter is a parameter of type `Includes.Host`. That covers
value.rs, the filesystem, the working directory, the environment variable, the parser, the
shell, the regex engine, case folding and standard input. The operations of value.rs
(`add`, `to_int`, `compare`, `equals`, `is_truthy`, `to_string`, …) are uninterpreted
functions in `Values.ValueOps`, and the model assumes nothing about them. Standard output
and the warnings printed on standard error are fields of the class.

Loops, recursive functions and includes can run forever. So every executing method takes a
`fuel` bound and yields `Exhausted` when the bound runs out. `Exhausted` propagates to the
top like an error, but no body swallows it.

Behaviour is modelled as the code has it, including where it is easy to misread:

- `number` parses the whole trimmed string as an i64, not a leading integer. So `"12abc"`
  gives `0` (`Rules.NumberOfTrailingGarbage`).
- `len` of a string counts UTF-8 bytes, not characters (`Rules.LenCountsBytes`).
- When an included file fails to run, `exec_result?` returns before the in-progress mark
  is removed (src/interpreter.rs:364). So the mark stays, and a later include of the same
  file reports a cycle (`Laws.IncludeAfterFailureIsCycle`). The ghost field `leaked`
  records such marks. No step adds or removes any other mark, and every path restores the
  base-directory stack.
- An error inside the body of an `if`, a `while` or a function is swallowed, and the next
  statement runs (`Semantics.BlockIgnoresErrors`).
- The top level ignores a `return` (`Semantics.RunIgnoresReturns`).
- A call statement passes the callee's return value up, so the enclosing body stops as if
  it had returned (`Laws.UserCallValue`).
- `and` and `or` evaluate both operands.
- The restore loop runs in the order the parameters were saved. So when a parameter name
  is repeated, its pre-call value is lost (`Store.DuplicateParamNotRestored`).
- In expressions, builtin names are looked up before user functions. At statement level,
  only `sleep` is handled before the user-function lookup.
- `inc`, `dec`, `push` and `unshift` read the variable before evaluating their operand.
  Indexed assignment reads it after evaluating the index and the element.
- Unary minus on `i64::MIN` wraps to `i64::MIN`, as a release build of the Rust code does
  (`Rules.EvalUnary`).

## Model

| member | source | states |
|---|---|---|
| Values.AsUsize | src/interpreter.rs:555 | `as usize` keeps an in-range value and maps a negative i64 above `i64::MAX` (two's complement) |
| Values.Index | src/interpreter.rs:553-569 | an in-bounds index gives the array element or the one-character string; an out-of-bounds or negative index, or a target that is neither array nor string, gives `Nil` |
| Values.IndexExamples | src/interpreter.rs:553-569 | `[1,2,3][5]`, `[1,2,3][-1]`, `"hi"[-2]` and `7[0]` are `Nil`; `"hi"[1]` is `"i"` |
| Text.TrimStart | src/interpreter.rs:620 | the result is a suffix of the input and does not start with whitespace; only whitespace was dropped |
| Text.TrimEnd | src/interpreter.rs:620 | the result is a prefix of the input and does not end with whitespace; only whitespace was dropped |
| Text.Trim | src/interpreter.rs:620 | the result neither starts nor ends with whitespace |
| Text.TrimIdempotent | src/interpreter.rs:620 | trimming twice is the same as trimming once |
| Text.TrimPadded | src/interpreter.rs:620 | the whitespace padding around text with non-blank ends is exactly what `trim` removes |
| Text.TrimUnpadded | src/interpreter.rs:620 | text with non-blank ends is its own trim |
| Text.TrimStartPadded | src/interpreter.rs:620 | leading whitespace padding is exactly what `trim_start` removes |
| Text.TrimEndPadded | src/interpreter.rs:620 | trailing whitespace padding is exactly what `trim_end` removes |
| Text.ParseI64 | src/interpreter.rs:621-624 | a parsed value is in the i64 range and the text starts with a sign or a digit; empty text or a lone sign does not parse |
| Text.ParseI64Signed | src/interpreter.rs:621-624 | an optional sign followed by digits parses to its signed value exactly when that value fits in an i64 |
| Text.ParseI64Rejects | src/interpreter.rs:621-624 | a non-digit anywhere after the optional leading sign makes the parse fail |
| Text.NatDigits | src/interpreter.rs:196 | the digits are non-empty and denote the number |
| Text.DecimalString | src/interpreter.rs:196 | `i64::to_string` is non-empty and starts with `-` exactly for negative numbers |
| Text.ParseDecimalRoundTrip | src/interpreter.rs:196 | parsing the decimal rendering of any i64 gives it back |
| Text.Utf8Width | src/interpreter.rs:576 | a character takes one to four bytes, and exactly one when it is ASCII |
| Text.Utf8Len | src/interpreter.rs:576 | the byte length is between the character count and four times it, and equals the character count exactly for ASCII text |
| Text.ReplaceAll | src/interpreter.rs:204 | text in which the pattern does not occur comes back unchanged |
| Text.ReplaceAllLeftmost | src/interpreter.rs:204 | the leftmost occurrence is replaced, the text before it is kept, and the rest is replaced in turn |
| Text.ReplaceEscapeComplete | src/interpreter.rs:204 | after replacing `\x` by a character other than `\` and `x`, no `\x` remains |
| Text.ReplaceHead | src/interpreter.rs:204 | the first character after a two-character replacement is the replacement or the original first character |
| Text.TrimLineEnd | src/interpreter.rs:220-222 | the result is a prefix ending in neither CR nor LF, and only CR and LF were removed |
| Text.ReadLine | src/interpreter.rs:216-218 | the line and the rest concatenate to the input; the line holds no newline except as its last character; without a final newline nothing is left |
| Text.TrimShellOutput | src/interpreter.rs:600-605 | output without a trailing LF is unchanged; otherwise the LF and, if present, one CR before it are removed |
| Text.TrimShellOutputLineEnd | src/interpreter.rs:600-605 | `t + "\r\n"` gives back `t`, and so does `t + "\n"` when `t` does not end in CR |
| Includes.JoinKeepsBoth | src/interpreter.rs:84 | joining a relative path keeps the base as prefix and the relative path as suffix |
| Includes.LastSlash | src/interpreter.rs:353 | the position of the last `/`, or the length when there is none |
| Includes.Parent | src/interpreter.rs:353 | only the empty path and `/` have no parent; a parent is shorter than the path and is its text before the last `/` |
| Includes.ParentOfChild | src/interpreter.rs:353-356 | the parent of `dir/name` is `dir`, of `/name` is `/`, and of a bare name is the empty path |
| Includes.NormalizeSeparators | src/interpreter.rs:63 | every `;` becomes `:`, and every other character stays |
| Includes.SplitColons | src/interpreter.rs:65 | there is at least one piece, and no piece contains `:` |
| Includes.SplitColonsJoin | src/interpreter.rs:65 | joining the pieces with `:` gives the input back |
| Includes.SplitColonsAppend | src/interpreter.rs:65 | splitting `a:b` is splitting `a`, then splitting `b` |
| Includes.NoColonSplit | src/interpreter.rs:65 | text without `:` is a single piece |
| Includes.TrimEach | src/interpreter.rs:66 | each piece is trimmed, and the count is kept |
| Includes.TrimEachAppend | src/interpreter.rs:66 | trimming distributes over concatenation |
| Includes.DropEmpty | src/interpreter.rs:67 | only non-empty pieces remain, all taken from the input |
| Includes.DropEmptyAppend | src/interpreter.rs:67 | the filter distributes over concatenation, keeping order |
| Includes.NormalizeAppend | src/interpreter.rs:63 | `:` and `;` between two texts both become `:` |
| Includes.ModulePathSegmentsWellFormed | src/interpreter.rs:61-71 | every listed path is non-empty, already trimmed, and contains neither separator |
| Includes.ModulePathSegmentsAppend | src/interpreter.rs:61-71 | `:` and `;` separate alike: the list of `a` then the list of `b` is the list of `a:b` |
| Includes.ModulePathSegmentsSingle | src/interpreter.rs:61-71 | text without separators lists its trimmed text, or nothing when that is empty |
| Includes.CanonEach | src/interpreter.rs:69 | each path is canonicalized, or kept when that fails |
| Includes.ParseModulesPathList | src/interpreter.rs:61-71 | there is one path per non-empty segment |
| Includes.ModulesPathListHasNoEmptyPath | src/interpreter.rs:61-71 | the module search list never holds an empty path |
| Includes.FirstExisting | src/interpreter.rs:90-95 | the first directory under which the file exists, with none before it |
| Includes.ResolveIsFirstMatch | src/interpreter.rs:77-107 | a relative include resolves under the first directory where it exists, searching the current base directory and then the module paths; otherwise it falls back to the working directory |
| Store.GetVar | src/interpreter.rs:477 | an unset variable reads as `Nil` |
| Store.AssignElement | src/interpreter.rs:123-135 | an in-bounds index replaces that element only; anything else leaves the value unchanged |
| Store.PushValue | src/interpreter.rs:240-255 | the value is appended to an array, and a non-array becomes `[v]` |
| Store.PopValue | src/interpreter.rs:256-263 | a non-empty array loses its last element; anything else is unchanged |
| Store.ShiftValue | src/interpreter.rs:264-273 | a non-empty array loses its first element; anything else is unchanged |
| Store.UnshiftValue | src/interpreter.rs:274-289 | the value is prepended to an array, and a non-array becomes `[v]` |
| Store.PushPopUnshiftShift | src/interpreter.rs:240-289 | pop undoes push and shift undoes unshift on arrays; on other values the pair leaves `[]` |
| Store.PushPopInStore | src/interpreter.rs:240-289 | in the store, push then pop (or unshift then shift) gives the variable its array back, or `[]` if it held none |
| Store.PopPushShiftUnshift | src/interpreter.rs:240-289 | pushing back the popped element, or unshifting the shifted one, restores a non-empty array |
| Store.SavedSlot | src/interpreter.rs:399-402 | a `Nil` parameter is saved as unset, anything else as its value |
| Store.BindParams | src/interpreter.rs:397-406 | one saved entry per parameter |
| Store.Unshadow | src/interpreter.rs:418-424 | the name gets its saved value back, or is removed when it was unset |
| Store.UnshadowOther | src/interpreter.rs:418-424 | undoing one entry touches no other name |
| Store.Bind | src/interpreter.rs:397-406 | the binding loop computes `BindParams` |
| Store.Restore | src/interpreter.rs:417-424 | the restore loop computes `RestoreParams` |
| Store.BindParamsSpec | src/interpreter.rs:397-406 | with distinct parameters, the i-th parameter holds the i-th argument or `Nil`; the saved entries are the pre-call values; no other name changes |
| Store.RestoreParamsSpec | src/interpreter.rs:417-424 | with distinct names, each saved name is restored or removed, and every other name keeps the body's value |
| Store.ParamsRestoredAfterCall | src/interpreter.rs:389-426 | after a call, each parameter holds its pre-call value again (absent if that was `Nil`), and every other name keeps what the body wrote |
| Store.DuplicateParamNotRestored | src/interpreter.rs:397-424 | with parameters `x, x`, the pre-call value of `x` is lost, and `x` ends up holding the first argument |
| Rules.RelationalResult | src/interpreter.rs:490-515 | a relational operator yields `0` or `1` |
| Rules.RelationalLaws | src/interpreter.rs:490-515 | unordered operands make every comparison `0`; `<=` is `<` or equal, and `>=` is `>` or equal; `<` and `>` never both hold |
| Rules.MatchOp | src/interpreter.rs:526-536 | `=~` yields `0` or `1`, or the regex compile error |
| Rules.EvalBinary | src/interpreter.rs:478-538 | only `=~` can fail; comparisons, equality and logic yield `0` or `1`; relational results follow `compare`; `!=` negates `equals` |
| Rules.EqualNotEqualComplement | src/interpreter.rs:488-489 | exactly one of `==` and `!=` yields `1` |
| Rules.EvalUnary | src/interpreter.rs:539-545 | `!` yields `1` exactly for a falsy operand; `-` negates the operand's integer value, and `i64::MIN` wraps to itself |
| Rules.Wrap64 | src/interpreter.rs:543 | the result is an i64 congruent to the input modulo 2^64, and an i64 is left unchanged |
| Rules.NumberOf | src/interpreter.rs:614-631 | integers pass through; a string gives an i64; other values, or no argument, give `0` |
| Rules.NumberOfDecimal | src/interpreter.rs:614-631 | `number` reads back the decimal rendering of an i64, even with whitespace around it |
| Rules.NumberOfTrailingGarbage | src/interpreter.rs:620-624 | a non-digit anywhere after the optional sign of the trimmed text makes the result `0` |
| Rules.NumberOfExamples | src/interpreter.rs:620-624 | `"12abc"` and `"+"` give `0` |
| Rules.NumberOfTooBig | src/interpreter.rs:620-624 | any numeral past `i64::MAX` gives `0` |
| Rules.LenOf | src/interpreter.rs:572-583 | an array gives its element count; a string gives its byte count, between its length and four times it; anything else gives `0` |
| Rules.LenCountsBytes | src/interpreter.rs:576 | `len("héllo")` is 6 while `len("hello")` is 5 |
| Rules.Builtin | src/interpreter.rs:570-657 | `len`/`strlen` and `number` follow their rules; `shell`, `lower` and `upper` yield strings; `sleep` yields `Nil` |
| Rules.RegexMode | src/interpreter.rs:455-458 | the mode holds exactly those of `i`, `m`, `s` in the flags, each once |
| Rules.SubstPattern | src/interpreter.rs:460-464 | the pattern is prefixed with `(?mode)` exactly when the mode is non-empty |
| Rules.Substitute | src/interpreter.rs:451-476 | fails exactly when the pattern does not compile, with a message naming the pattern as written; otherwise replaces every match when `g` is set, else the first |
| Rules.PrintfText | src/interpreter.rs:186-204 | no `\n` or `\t` escape remains; text without backslashes is the format followed by the rendered arguments, unchanged |
| Rules.PrintfNewline | src/interpreter.rs:204 | a `\n` escape becomes a newline and the text around it is kept |
| Rules.PrintfTab | src/interpreter.rs:204 | a `\t` escape becomes a tab and the text around it is kept |
| Rules.Emitted | src/interpreter.rs:206-210 | the output is the text, followed by a newline only when it does not already end with one |
| Semantics.DepthList | src/interpreter.rs:546-552 | a list is at least as deep as each member |
| Semantics.PureEval | src/interpreter.rs:445-569 | evaluating an expression without user calls never runs out |
| Semantics.PureEvalList | src/interpreter.rs:546-552 | a successful list has one value per expression |
| Semantics.PureEvalListSpec | src/interpreter.rs:546-552 | a list succeeds exactly when each member does, and then holds their values in order |
| Semantics.PureEvalListFirstError | src/interpreter.rs:548-550 | the error of the first failing member is the list's error |
| Semantics.PureEvalReadsOnlyItsVariables | src/interpreter.rs:477 | two stores that agree on the variables an expression mentions give it the same value |
| Semantics.PureEvalListReadsOnlyItsVariables | src/interpreter.rs:546-552 | the same holds for a list of expressions |
| Semantics.StmtExprs | src/interpreter.rs:118-289 | an update statement evaluates exactly one expression |
| Semantics.StoreStep | src/interpreter.rs:118-289 | a store statement never runs out |
| Semantics.StoreStepFrame | src/interpreter.rs:118-289 | a store statement writes its target and no other variable |
| Semantics.ArrayAssignmentSpec | src/interpreter.rs:123-135 | an in-bounds index replaces that element only; a negative or out-of-bounds index, or a non-array variable, leaves the value unchanged |
| Semantics.PushThenPop | src/interpreter.rs:240-263 | `push` then `pop` gives the variable its array back, or `[]` if it held none |
| Semantics.UnshiftThenShift | src/interpreter.rs:264-289 | `unshift` then `shift` gives the variable its array back, or `[]` if it held none |
| Semantics.BlockResult | src/interpreter.rs:144-148 | a body never yields an error |
| Semantics.BlockResultSpec | src/interpreter.rs:144-148 | a body yields the first return value (or exhaustion) among its statements' outcomes, and `None` when there is none |
| Semantics.BlockIgnoresErrors | src/interpreter.rs:145 | a failed statement in a body has no effect on the body's result |
| Semantics.RunIgnoresReturns | src/interpreter.rs:109-114 | a return value at the top level has no effect on the run's result |
| Semantics.RunResultSpec | src/interpreter.rs:109-114 | a run succeeds exactly when every statement succeeds, and otherwise fails with the first failure |
| Semantics.FirstTrue | src/interpreter.rs:150-162 | the first true position, with every earlier one false |
| Semantics.ChooseBranchSpec | src/interpreter.rs:142-172 | the then-body runs exactly when the condition is true; the k-th `elseif` exactly when it is the first true condition; the else-body exactly when it exists and nothing is true |
| Machine.Eval | src/interpreter.rs:445-704 | every evaluation keeps the include state; a call-free expression changes nothing and yields `PureEval`, without running out when fuel exceeds its depth |
| Machine.EvalSubstOf | src/interpreter.rs:451-476 | a call-free input changes nothing and the substitution yields `PureEval` |
| Machine.EvalUnaryOf | src/interpreter.rs:539-545 | a call-free operand changes nothing and yields `PureEval` |
| Machine.EvalArrayOf | src/interpreter.rs:546-552 | call-free elements change nothing and yield `PureEval` |
| Machine.EvalBinaryOf | src/interpreter.rs:478-538 | call-free operands change nothing and yield `PureEval`; both operands are evaluated |
| Machine.EvalIndexOf | src/interpreter.rs:553-569 | call-free operands change nothing and yield `PureEval` |
| Machine.EvalArgs | src/interpreter.rs:392-395 | a successful list has one value per argument; call-free lists change nothing and yield `PureEvalList` |
| Machine.EvalCallOf | src/interpreter.rs:570-701 | a builtin call with call-free arguments changes nothing and yields `PureEval` |
| Machine.CallFunction | src/interpreter.rs:389-426 | a user call keeps the include state |
| Machine.RunStmt | src/interpreter.rs:116-443 | only `return`, `if`, `while` and call statements yield a value; a successful `return` records its value as the current return; with no fuel nothing happens |
| Machine.RunStore | src/interpreter.rs:118-289 | with call-free operands, the new store is `StoreStep` of the old one and nothing else changes; an operand error changes nothing |
| Machine.RunPrintf | src/interpreter.rs:186-213 | with call-free arguments, standard output gains `Emitted(PrintfText(...))` of their values; an argument error prints nothing |
| Machine.RunBlock | src/interpreter.rs:144-148 | a body never yields an error and keeps the include state |
| Machine.RunProgram | src/interpreter.rs:109-114 | a run keeps the include state |
| Machine.ScanOf | src/interpreter.rs:150-162 | the scan stops at a position within the `elseif` list, or just past it |
| Machine.SelectOf | src/interpreter.rs:142-162 | a chosen `elseif` exists, and the else-branch is chosen only when there is one |
| Machine.RunIf | src/interpreter.rs:136-175 | an `if` keeps the include state |
| Machine.RunWhile | src/interpreter.rs:176-185 | a `while` keeps the include state |
| Machine.RunInclude | src/interpreter.rs:335-372 | an in-progress canonical path is a cycle error that changes nothing; a read error changes nothing; otherwise the file runs with its directory pushed, and its mark is removed on success but left behind (and recorded) on failure |
| Machine.IncludeKept | src/interpreter.rs:346-362 | after the included file runs, the base-directory stack is back as before and only the new mark is added |
| Machine.RunCall | src/interpreter.rs:378-431 | only a defined function other than `sleep` yields a value |
| Laws.RunBlockAppend | src/interpreter.rs:144-148 | running `b1 + b2` runs `b1`, then `b2` only if `b1` did not stop |
| Laws.RunProgramAppend | src/interpreter.rs:109-114 | running `a + b` runs `a`, then `b` only if `a` succeeded |
| Laws.RunBlockOutcomes | src/interpreter.rs:144-148 | a body's result is `BlockResult` of the outcomes of the statements it ran |
| Laws.RunProgramOutcomes | src/interpreter.rs:109-114 | a run's result is `RunResult` of the outcomes of the statements it ran |
| Laws.ScanOfTruths | src/interpreter.rs:150-162 | with call-free conditions, the scan changes nothing and stops at the first true `elseif` |
| Laws.SelectChoosesBranch | src/interpreter.rs:142-162 | with call-free conditions, the branch selected is `ChooseBranch` of their truths |
| Laws.RunIfRunsChosenBranch | src/interpreter.rs:136-175 | with call-free conditions, an `if` runs exactly the body of the chosen branch |
| Laws.RunIfConditionFails | src/interpreter.rs:142 | a failing condition ends the `if` with that error and changes nothing |
| Laws.WhileConditionFalse | src/interpreter.rs:177 | a false condition ends the loop with `None` and changes nothing |
| Laws.WhileConditionTrue | src/interpreter.rs:177-183 | a true condition runs the body, then loops again unless the body stopped |
| Laws.WhileTrueEmptyBodyExhausts | src/interpreter.rs:176-185 | `while` with a true condition and an empty body never ends |
| Laws.CallRestoresParams | src/interpreter.rs:389-426 | with distinct parameters, the body sees the arguments bound; afterwards each parameter holds its pre-call value and every other name keeps what the body wrote |
| Laws.UserCallValue | src/interpreter.rs:389-426 | in an expression a user call yields the body's return value, or `Nil` without one; a call statement passes the body's result up; an argument error ends the call |
| Laws.ReturnRecordsValue | src/interpreter.rs:432-441 | `return e` yields the value of `e` and records it as the current return, changing nothing else |
| Laws.StoreStatement | src/interpreter.rs:118-289 | a store statement with call-free operands changes the store as `StoreStep` says, or changes nothing on an error |
| Laws.TwoStatements | src/interpreter.rs:144-148 | two statements that do not stop run in sequence |
| Laws.PushPopStatements | src/interpreter.rs:240-263 | the statements `push a, e; pop a` give `a` its array back, or `[]` if it held none |
| Laws.UnshiftShiftStatements | src/interpreter.rs:264-289 | the statements `unshift a, e; shift a` give `a` its array back, or `[]` if it held none |
| Laws.SelfIncludeIsCycle | src/interpreter.rs:335-372 | a file whose first statement includes itself fails with a cycle error, and its mark stays behind |
| Laws.IncludeAfterFailureIsCycle | src/interpreter.rs:339-364 | after an include fails while running its file, including that file again is a cycle error |
| Interp.Interpreter.constructor | src/interpreter.rs:28-41 | empty store and function table; the working directory (or `.`) is the only base directory; the module list comes from the environment variable |
| Interp.Interpreter.PushBaseDir | src/interpreter.rs:43-49 | pushes the directory, canonicalized when possible |
| Interp.Interpreter.PopBaseDir | src/interpreter.rs:51-55 | pops unless only one entry remains, so the stack never empties |
| Interp.Interpreter.SetModulesPath | src/interpreter.rs:73-75 | the search list becomes the parse of the given text |
| Interp.Interpreter.Execute | src/interpreter.rs:109-114 | runs the statements as `RunProgram` does |
| Interp.Interpreter.ExecuteStatement | src/interpreter.rs:116-443 | runs a statement as `RunStmt` does |
| Interp.Interpreter.ExecControl | src/interpreter.rs:136-185 | runs an `if` or `while` statement as `RunStmt` does |
| Interp.Interpreter.ExecTransfer | src/interpreter.rs:335-431 | runs an include or call statement as `RunStmt` does |
| Interp.Interpreter.ExecDirect | src/interpreter.rs:214-225 | runs `read` or a function definition as `RunStmt` does |
| Interp.Interpreter.ExecReturn | src/interpreter.rs:432-441 | runs `return` as `RunStmt` does |
| Interp.Interpreter.ExecStore | src/interpreter.rs:118-289 | runs a store statement as `RunStore` does |
| Interp.Interpreter.ExecPrintf | src/interpreter.rs:186-213 | runs `printf` as `RunPrintf` does |
| Interp.Interpreter.ExecBlock | src/interpreter.rs:144-148 | runs a body as `RunBlock` does |
| Interp.Interpreter.ScanElseIfs | src/interpreter.rs:150-162 | scans the `elseif` conditions as `ScanOf` does |
| Interp.Interpreter.SelectBranch | src/interpreter.rs:142-162 | selects a branch as `SelectOf` does |
| Interp.Interpreter.ExecIf | src/interpreter.rs:136-175 | runs an `if` as `RunIf` does |
| Interp.Interpreter.ExecWhile | src/interpreter.rs:176-185 | runs a `while` as `RunWhile` does |
| Interp.Interpreter.ExecInclude | src/interpreter.rs:335-372 | runs an include as `RunInclude` does |
| Interp.Interpreter.ExecCall | src/interpreter.rs:378-431 | runs a call statement as `RunCall` does |
| Interp.Interpreter.CallUser | src/interpreter.rs:389-426 | calls a user function as `CallFunction` does |
| Interp.Interpreter.EvalList | src/interpreter.rs:546-552 | evaluates a list as `EvalArgs` does |
| Interp.Interpreter.EvalExpr | src/interpreter.rs:445-704 | evaluates an expression as `Eval` does |
| Interp.Interpreter.EvalSubstExpr | src/interpreter.rs:451-476 | evaluates a substitution as `EvalSubstOf` does |
| Interp.Interpreter.EvalBinaryExpr | src/interpreter.rs:478-538 | evaluates a binary expression as `Eval` does |
| Interp.Interpreter.EvalUnaryExpr | src/interpreter.rs:539-545 | evaluates a unary expression as `EvalUnaryOf` does |
| Interp.Interpreter.EvalArrayExpr | src/interpreter.rs:546-552 | evaluates an array literal as `EvalArrayOf` does |
| Interp.Interpreter.EvalIndexExpr | src/interpreter.rs:553-569 | evaluates an index expression as `Eval` does |
| Interp.Interpreter.EvalCall | src/interpreter.rs:570-701 | evaluates a call as `EvalCallOf` does |

## Left out

- Socket statements (src/interpreter.rs:290-334) are not modelled. They are TCP I/O, and they touch the rest of the state only through variable writes.
- The operations of value.rs are uninterpreted functions, and no law about them is assumed or proved. value.rs and runtime.rs are not part of this model: the store and the function table are `map`s.
- The filesystem, `canonicalize`, the working directory, the environment variable, the parser, the shell, the regex engine and Unicode case folding are parameters in `Host`, with no behaviour given.
- `sleep` does not block in the model: only its argument is evaluated.
- Standard input is a string. A read error on it is not modelled, so a failed `read_line` cannot occur.
- Non-termination is bounded by `fuel`: a run that would not end yields `Exhausted` instead of running forever or overflowing the stack.
- Includes.Parent: paths are Unix-style `/`-separated strings, and `Path::parent` is modelled on that text. It does not normalise `.`, `..`, repeated slashes or trailing slashes: `Parent("a/b/")` is `a/b`, where Rust gives `a`.
- Machine.RunStore, Machine.RunPrintf, Machine.Eval: the exact result is stated only for operands without user calls. An operand that calls a user function runs a body, and for that case only the invariant (`Kept`) is stated.
- Laws.ScanOfTruths, Laws.SelectChoosesBranch, Laws.RunIfRunsChosenBranch: stated for conditions without user calls, since a condition that calls a function can change the store before the next one is evaluated.
- main.rs (the command-line front end and the REPL) is not part of this model.
- `current_base_dir` is the last element of `baseDirs`, read directly. The stack never empties (`Machine.WellFormed`).
