# URM interpreter, modelled in Dafny

This project models the core of a small C++ interpreter for Unbounded
Register Machine (URM) programs (`urm.cpp`). A program is a text of
numbered records such as `1: X1 <- 5`, `2: if X1 = 0 goto 4 else goto 3`,
`3: X1 <- X1 - 1` and `4: stop`. The interpreter has three parts, and the
model follows them:

- **Reading** (`readVariable`, `readCharacter`, `readInstruction` and the
  read loop of `main`). The model states it twice:
  - as pure functions over the program text (module `Grammar`, on top of
    the scanners in `Lexer` and the variable table in `Naturaliser`);
  - as imperative methods over an input stream (modules `Parser` and
    `Interpreter`), each proved equal to its function.

  Variable names such as `X111` get dense register ids `0, 1, 2, ...` in
  the order they are first seen. Each branch's labels are checked against
  the label of the `stop` record, and the check rejects any jump beyond it.
- **Execution** (the `execute` methods and `URM::run`). Instructions are
  values of a datatype with a pure effect function (`Instructions`). The
  machine is a class whose register vector is an array updated in place
  (`Machine.Urm`). Its `Run` method is proved equal to the step function
  `RunFor`.
- **Guarantees.** Every accepted program is well formed:
  - every register id is below the size of the table;
  - every constant fits in an `int`;
  - every jump lands inside the program or exactly at its end.

  So running it never indexes outside the register vector or the
  instruction sequence, and the registers stay within `[0, 2^31 - 1]`.

Constants follow the code as written:

- The increment cap is `1 << 30 - 1` plus `1 << 30`. In C++ the first
  term is `1 << 29`, so the cap is 1610612736 (`Instructions.CapFitsInt`).
- An increment applies only below the cap. A register assigned a larger
  constant is left unchanged by an increment, not lowered to the cap.
- Whitespace is the C locale's `isspace`: space, and tab through carriage
  return.
- `>> int` accepts an optional sign and decimal digits. It fails when the
  value does not fit in a 32-bit `int`.
- A constant must be an `int` that uses up its whole token, with nothing
  left unread in the string stream.

## Model

| member | source | states |
|---|---|---|
| `Instructions.Execute` | urm.cpp:34-96 | For each instruction kind, what it does to the registers: only the named register changes. Increment adds one exactly when the register is below the cap. Decrement subtracts one exactly when the register is positive. Assignment stores the constant. A branch changes nothing and returns `x` if the register is zero, else `y`. Non-branches return -1. Registers stay within `int` range. |
| `Instructions.IncrementSaturates` | urm.cpp:37-45 | `n` increments give `min(v + n, cap)` when `v` is below the cap and leave `v` unchanged otherwise; no other register changes. |
| `Instructions.DecrementFloors` | urm.cpp:55-60 | `n` decrements give `max(v - n, 0)`; no other register changes. |
| `Instructions.IncrementThenDecrement` | urm.cpp:37-60 | An increment below the cap followed by a decrement restores the registers. |
| `Instructions.CapFitsInt` | urm.cpp:38-39 | The cap as the code computes it is 1610612736, below the largest `int`. |
| `Machine.Step` | urm.cpp:122-129 | One loop iteration. A non-branch applies its `execute` effect to the registers and moves to the next instruction. A branch leaves the registers alone and moves to `x` when its register is zero, else to `y`. |
| `Machine.RunFor` | urm.cpp:118-131 | A bounded run keeps the number of registers, keeps values within `int` range, and on a well-formed program never leaves `pc` beyond the end of the program. |
| `Machine.HaltedStays` | urm.cpp:121 | Once `pc` is at or past the end, the run changes nothing. |
| `Machine.RunSplits` | urm.cpp:118-131 | Running `a + b` steps is running `a` steps and then `b` more. |
| `Machine.MoreFuelSameResult` | urm.cpp:118-131 | Once the run has halted, more steps give the same final state. |
| `Machine.Urm.constructor` | urm.cpp:112-117 | A new machine starts at instruction 0 over the given registers, instructions and table. |
| `Machine.Urm.Execute` | urm.cpp:37-95 | The in-place `execute` updates the array exactly as `Instructions.Execute` says and returns its branch target or -1. |
| `Machine.Urm.Run` | urm.cpp:118-131 | The loop of `URM::run` ends in the state `RunFor` gives. It reports that it halted exactly when `pc` equals the program length. |
| `Lexer.TokenAt` | urm.cpp:187 | A token that is read lies after the position and within the text. |
| `Lexer.TokenAtIsMaximalRun` | urm.cpp:187 | `>> token` fails exactly when only whitespace is left. Otherwise the token is the non-empty run of non-whitespace characters after the skipped whitespace, and it ends at whitespace or at the end of the text. |
| `Lexer.IntAt` | urm.cpp:182 | `>> int` consumes at least one character and ends on a digit followed by a non-digit. The value is within `int` range. It is negative only when the first character after the skipped whitespace is `-`. |
| `Lexer.TokenOfText` | urm.cpp:187 | Round trip: whitespace, then a word without whitespace, then whitespace or the end, is read by `>> token` as exactly that word, ending just after it. |
| `Lexer.DigitsOfText` | urm.cpp:182 | The numeral of `n`, followed by a non-digit or the end, is a digit run that ends after the numeral and has value `n`. |
| `Lexer.IntOfText` | urm.cpp:182 | Round trip: whitespace, an optional sign (`-` or `+`), the numeral of `n` and a non-digit or the end are read by `>> int` as `n` (`-n` after `-`), ending just after the numeral, whenever the value fits in an `int`. |
| `Lexer.IntOfDigits` | urm.cpp:182 | `>> int` gives the value of the digit run after the skipped whitespace and the optional sign, negated after a `-`, and stops where the run ends. |
| `Lexer.IntAtReads` | urm.cpp:182 | The converse of `IntOfDigits`. `>> int` fails exactly when no digit follows the skipped whitespace and the optional sign, or when the value is outside `int` range. On success the value is that digit run's value, negated after `-`, and the read stops just after the whole run of digits. |
| `Lexer.Constant` | urm.cpp:266-272 | An accepted constant is in `int` range, and its token is non-empty and ends with a digit. |
| `Lexer.ConstantIsNumeral` | urm.cpp:266-272 | The constant reader in both directions. A token is accepted exactly when, after any leading whitespace, it is an optional sign followed by one or more digits and nothing else, and the value fits in an `int`. The constant is then that numeral's value. |
| `Lexer.NumeralAt` | urm.cpp:266-272 | The string is an optional sign and digits from position `w` on exactly when the run of digits after the sign is non-empty and reaches the end of the string. The numeral's value is that run's value, negated after `-`. |
| `Lexer.ConstantOfDecimal` | urm.cpp:266-277 | Round trip: the decimal numeral of any `n` in `[0, 2^31 - 1]` reads back as `n`. |
| `Lexer.DecimalValue` | urm.cpp:266-272 | The digit-string value of the numeral of `n` is `n`. |
| `Lexer.CharAfter` | urm.cpp:161-172 | On success, the character just consumed is the one sought and lies within the text. |
| `Lexer.CharAfterSkipsSpace` | urm.cpp:161-172 | For a non-whitespace character `c`, `readCharacter` succeeds exactly when the next non-whitespace character is `c`, and it stops just after it. |
| `Lexer.InputStream.Get` | urm.cpp:162 | `get()` returns the next character code, or EOF at the end, and advances by one unless at the end. |
| `Lexer.InputStream.ReadToken` | urm.cpp:187 | The stream extraction gives `TokenAt`. On failure nothing is left to read. |
| `Lexer.InputStream.ReadInt` | urm.cpp:182 | The stream extraction gives `IntAt`. On failure nothing is left to read. |
| `Naturaliser.Naturalise` | urm.cpp:133-159 | Rejects (-1) exactly in strict mode for a token outside `X1+`, leaving the table alone. A known token gets its id with the table unchanged. A new token gets id `\|m\|` and grows the table by one. Old entries are kept, and a dense table stays dense. |
| `Naturaliser.ReadVariable` | urm.cpp:133-159 | The character-scanning check and the insert give exactly `Naturalise`. |
| `Naturaliser.NaturaliseTwice` | urm.cpp:150-158 | Naturalising a token a second time gives the same id and leaves the table alone. |
| `Naturaliser.SameIdSameName` | urm.cpp:249 | In a dense table, a token has a known name's id exactly when it is that name. |
| `Naturaliser.StrictExamples` | urm.cpp:137-146 | `X1` and `X111` are variables; the empty token, `X`, `X12`, `x1` and `Y1` are not. |
| `Naturaliser.NaturaliseAllFollowsFirstSeen` | urm.cpp:150-158 | Order stability: the k-th distinct token gets id k, and the table holds exactly the tokens seen. |
| `Grammar.Keyword` | urm.cpp:205 | `>> token` compared with a word: succeeds exactly when a token is read and equals the word, and then stops where that token ends. |
| `Grammar.Header` | urm.cpp:182-190 | Succeeds exactly when `>> label` reads the expected label, a `:` follows it and a token follows that. The result is that token, which is non-empty. |
| `Grammar.ReadTargets` | urm.cpp:205-215 | `goto L1 else goto L2` consumes input within the text. |
| `Grammar.ReadElse` | urm.cpp:208-215 | `else goto L2` consumes input within the text. |
| `Grammar.TargetsRecord` | urm.cpp:205-215 | At any position, in both directions: the targets are read exactly when `goto`, then an `int`, then `else goto` with an `int` are read in turn. The first label is the first `int`, the second label is the second, and the read ends where the second ends. |
| `Grammar.ElseRecord` | urm.cpp:208-215 | At any position, in both directions: `else goto L2` is read exactly when `else`, then `goto`, then an `int` are read in turn. It gives that `int` and ends where it ends. |
| `Grammar.ReadBranch` | urm.cpp:197-204 | A branch body that is read consumes input and yields a conditional goto. |
| `Grammar.BranchTest` | urm.cpp:204 | `= 0` and the targets consume input and yield a conditional goto. |
| `Grammar.BranchTargets` | urm.cpp:205-231 | Succeeds exactly when the targets are read and both labels are at least 1. It then gives a conditional goto on the register to `label1 - 1` and `label2 - 1`, in that order. The largest goto label becomes the largest of the old one and both labels. The table is unchanged. |
| `Grammar.BranchTestRecord` | urm.cpp:204-231 | After the variable, the record is accepted exactly when `=`, then `0`, then the targets are read and both labels are at least 1. The stored jumps are `label1 - 1` and `label2 - 1`, and the largest goto label becomes the largest of the old one and both labels. |
| `Grammar.BranchRecord` | urm.cpp:197-231 | The body of an `if` record is accepted exactly when a variable token is read and the table accepts it, `=` and then `0` follow, the targets are read and both labels are at least 1. The branch then tests the table's id of the variable. It jumps to `label1 - 1` when the register is zero and to `label2 - 1` otherwise. The table is the one after naming the variable, and the largest goto label becomes the largest of the old one and both labels. |
| `Grammar.BranchEffect` | urm.cpp:197-228 | An accepted branch names the register the table gives its variable and leaves the table naturalising gives. The largest goto label becomes the largest of the old one and both stored jumps plus one. |
| `Grammar.ReadOperand` | urm.cpp:247-279 | An operand gives a non-branch instruction on the given register, with any constant within `int` range. |
| `Grammar.StepOperand` | urm.cpp:250-263 | `+ 1` or `- 1` gives an increment or a decrement of the given register. |
| `Grammar.ConstantOperand` | urm.cpp:266-278 | A constant operand gives an assignment of a value in `[0, 2^31 - 1]`. |
| `Grammar.OperandKinds` | urm.cpp:247-279 | Each kind, in both directions. Assignment exactly when the operand is not the same variable and is a whole non-negative `int`, storing that value. Increment (decrement) exactly when it is the same variable, then `+` (`-`), then `1`. |
| `Grammar.ReadAssignment` | urm.cpp:233-245 | An assignment-family body that is read consumes input and yields a non-branch instruction. |
| `Grammar.Arrow` | urm.cpp:241-247 | `<-` then an operand gives a non-branch instruction on the given register. |
| `Grammar.ArrowRecord` | urm.cpp:241-247 | In both directions: the arrow part is accepted exactly when `<`, then `-`, then an operand are read in turn. The instruction and the end position are the operand's. |
| `Grammar.AssignmentArrow` | urm.cpp:233-247 | An assignment-family body is accepted exactly when the table accepts the left-hand name and the arrow part is read with that name's id and the table after naming it. The record's instruction is the arrow part's instruction, and the read ends where the arrow part ends. |
| `Grammar.AssignmentRecord` | urm.cpp:233-280 | The register is the table's id for the left-hand name. The table afterwards is exactly the one naturalising that name gives, so the right-hand side never inserts. The table keeps its ids, gains at most that name and stays dense. Constants fit in an `int`, and the largest goto label is unchanged. |
| `Grammar.SameVariableIsSameName` | urm.cpp:249 | In a dense table, the increment/decrement test by id holds exactly when the operand token is textually the left-hand name. |
| `Grammar.ReadRecord` | urm.cpp:176-282 | A record that is read consumes input within the text. |
| `Grammar.RecordBody` | urm.cpp:192-281 | The body after the header stays within the text. |
| `Grammar.RecordDispatch` | urm.cpp:192-233 | A missing header rejects the record. After the header's token, `stop` gives the stop record with the state unchanged. `if` gives exactly what `ReadBranch` reads after it. Any other token gives exactly what `ReadAssignment` reads, with that token as the left-hand name. |
| `Grammar.RecordEffect` | urm.cpp:176-282 | A wrong or missing label rejects the record. `stop` is recognised by its token and changes nothing. The table keeps its ids, gains at most one name and stays dense. The largest goto label never decreases. |
| `Grammar.RecordInstruction` | urm.cpp:176-282 | `KeepsTrack` holds for the instruction of a record. When the table was dense, it names a register of the table, and a constant fits in an `int`. A branch raises the largest goto label to the largest of the old one and both stored jumps plus one; any other instruction leaves it as it was. |
| `Grammar.BodyInstruction` | urm.cpp:192-281 | The same facts for the body after the header, whatever its first token. |
| `Grammar.BranchInstruction` | urm.cpp:197-231 | The same facts for an `if` body. Its instruction is always a branch. |
| `Grammar.AssignmentInstruction` | urm.cpp:233-280 | The same facts for an assignment-family body. Its instruction is never a branch. |
| `Grammar.ReadRecords` | urm.cpp:302-315 | The read loop either stops at a record it cannot read or stops at `stop`. A failed record is reported with its label, the instructions read so far and the place it starts, and its label is the current label plus the number of instructions read. At `stop`, the loop has extended the instructions read so far, and the label of `stop` is the current label plus the number of instructions read. |
| `Grammar.RecordsNext` | urm.cpp:309-314 | One turn of the loop. An instruction record is appended, and reading goes on at the next label from where that record ended. |
| `Grammar.BrokenAtBadRecord` | urm.cpp:305-318 | The label a broken loop reports is one that `ReadRecord` rejects, at the place the loop had reached. |
| `Grammar.ProgramOfScan` | urm.cpp:315-324 | Where the loop ends decides the result. A record that cannot be read gives `Malformed` with its label. At `stop`, the program is `JumpOutOfRange` with `maxGoto` when `maxGoto` exceeds the label of `stop`, and otherwise `Accepted` with the instructions and the table. |
| `Grammar.ReadProgram` | urm.cpp:289-324 | Reading starts at label 1, with an empty table and `maxGoto` 1. A rejected record is reported with a label of at least 1. A jump out of range names a label of at least 2. |
| `Grammar.MaxLabelBound` | urm.cpp:321 | The largest label named by the branches is at most `n` exactly when every branch jumps to an index below `n`. |
| `Grammar.RecordsTrack` | urm.cpp:302-315 | The read loop keeps `maxGoto` equal to the largest label named by the branches read so far. It keeps the table dense and every register id below the table's size. |
| `Grammar.JumpCheck` | urm.cpp:316-324 | `Malformed` comes exactly when a record cannot be read. Its label is one past the number of instructions read before that record, and `ReadRecord` rejects that label at the place the loop reached. So it is the first bad record. Otherwise the label of `stop` is the number of instructions plus one, and `maxGoto` is their largest label. The program is accepted, with those instructions and the table, exactly when no branch jumps past `stop`. It is rejected as `JumpOutOfRange` exactly when one does. |
| `Grammar.AcceptedIsWellFormed` | urm.cpp:302-324 | Every program `main` accepts is well formed: register ids are below the table size, constants fit in an `int`, and no jump goes past the `stop` record. |
| `Writing.KeywordOfText` | urm.cpp:205 | Round trip: a space, a word without whitespace, then whitespace or the end, is read as that keyword, ending just after it. |
| `Writing.NumberOfText` | urm.cpp:209 | Round trip: a space and the numeral of any `n` in `[0, 2^31 - 1]`, then a non-digit or the end, is read by `>> int` as `n`, ending just after the numeral. |
| `Writing.TargetsOfText` | urm.cpp:205-215 | Round trip: the text `goto L1 else goto L2` written for any labels in `[0, 2^31 - 1]`, then whitespace or the end, is read back with `L1` first and `L2` second, ending just after the text. |
| `Parser.ReadCharacter` | urm.cpp:161-172 | The `get()` loop succeeds exactly when `CharAfter` does and stops where it says. |
| `Parser.ReadInstruction` | urm.cpp:176-190 | `readInstruction` returns NULL exactly when `ReadRecord` rejects. Otherwise it returns that record, with the position, table and largest goto label that `ReadRecord` gives. |
| `Parser.ReadRecordBody` | urm.cpp:192-281 | The dispatch on `stop`, `if` or a variable agrees with `RecordBody`. |
| `Parser.ReadConditionalGoto` | urm.cpp:197-204 | Agrees with `ReadBranch`, including the table update. |
| `Parser.ReadBranchTest` | urm.cpp:204 | Agrees with `BranchTest`. |
| `Parser.ReadBranchTargets` | urm.cpp:205-231 | Agrees with `BranchTargets`, including the largest goto label update. |
| `Parser.ReadGotoTargets` | urm.cpp:205-215 | Gives `ReadTargets` and leaves the stream just after the second label. |
| `Parser.ReadVariableChange` | urm.cpp:233-240 | Agrees with `ReadAssignment`, including the table update. |
| `Parser.ReadArrow` | urm.cpp:241-245 | Agrees with `Arrow`. |
| `Parser.ReadRightHandSide` | urm.cpp:246-279 | The same-variable test, the `+`/`-` token, the `1` and the string-stream constant read agree with `ReadOperand`. |
| `Interpreter.ParseProgram` | urm.cpp:302-324 | The read loop and the jump check of `main` give exactly `ReadProgram`: the instructions before `stop` and the table; or the label of the first bad record, which `JumpCheck` pins; or the largest goto label when it lies beyond `stop`. |
| `Interpreter.Interpret` | urm.cpp:302-331 | A rejected program is never run. An accepted program is well formed and is run from all-zero registers as `Outcome` says. |
| `Interpreter.RunProgram` | urm.cpp:326-329 | A zeroed register vector of the table's size, run by the machine. It halts exactly when `RunFor` reaches the end of the program, and it reports the registers `RunFor` computes, all in `int` range. |
| `Examples.AssignmentRecordExample` | urm.cpp:176-282 | `1: X1 <- 5` is read as the assignment of 5 to register 0 named `X1`. |
| `Examples.HeaderTokens` | urm.cpp:182-187 | The label, `:` and first token of `1: X1 <- 5`. |
| `Examples.OperandTokens` | urm.cpp:241-247 | The `<-` and the operand token of `1: X1 <- 5`. |
| `Examples.CountDownHalts` | urm.cpp:118-131 | A count-down loop from 2 halts after eight steps with all registers zero, and more steps change nothing. |

## Left out

- Opening the file, the command-line arguments and the `--meta`/`-m` flag
  are left out. The program text and the meta flag are parameters.
- The messages written to `cerr` and `cout` are left out. A rejected
  program is reported as `Malformed(label)` or `JumpOutOfRange(maxGoto)`.
  The source's distinct parse errors are not told apart.
- The final report printer (`operator<<` on a `URM*`, urm.cpp:98-111) is
  left out. The model returns the table and the register values. The
  printer lists names in the map's key order.
- Non-termination is left out. `URM::run` loops until `pc` reaches the
  end, and the model's `Run` and `RunFor` take a step bound `fuel`, so a
  program that never halts shows up as `OutOfFuel` for every bound.
  `MoreFuelSameResult` shows that the bound does not change a halted
  result.
- Machine integers are left out: labels, `currentLabel` and register ids
  are unbounded. A program with more than 2^31 - 1 records or variables is
  not modelled. Constants and register values are still bounded by the
  `int` range, as in the source.
- The stream's failure state is simplified. A failed extraction moves the
  stream to the end of the text, so nothing more can be read. The source
  always stops reading after such a failure.
- Characters are Dafny characters. Byte encodings, negative `char` values
  given to `isspace`, and locales other than "C" are left out.
- `urm.h` declares the machine's table as `map<int,int>`. `urm.cpp`
  builds it as `map<string,int>`, and the model follows `urm.cpp`.
- The heap objects (`new` instructions and vectors) and their leaking are
  left out. The instruction list is a sequence, and the registers are an
  array owned by the machine.
- `Grammar.ReadRecord` and `Grammar.RecordBody` state only progress in
  their own contracts. The dispatch on the token after the header is in
  `Grammar.RecordDispatch`, and the effect on the table and `maxGoto` is
  in `Grammar.RecordEffect` and `Grammar.RecordInstruction`.
- `Grammar.ReadBranch` and `Grammar.BranchTest` state only progress and
  the kind of result in their own contracts. Their detailed properties are
  in `Grammar.BranchRecord` and `Grammar.BranchTestRecord`.
- `Grammar.ReadAssignment` states only progress and the kind of result
  in its own contract. Its detailed properties are in
  `Grammar.AssignmentArrow`, `Grammar.ArrowRecord`,
  `Grammar.OperandKinds` and `Grammar.AssignmentRecord`.
- `Grammar.Arrow` states only the kind of result in its own contract. The
  if-and-only-if over `<`, `-` and the operand is in `Grammar.ArrowRecord`.
- `Grammar.ReadTargets` and `Grammar.ReadElse` state only progress in
  their own contracts. What they accept and read is in
  `Grammar.TargetsRecord` and `Grammar.ElseRecord`, and the round trip is
  in `Writing.TargetsOfText`.
- `Lexer.TokenAt` states only progress in its own contract. Its detailed
  properties are in `Lexer.TokenAtIsMaximalRun` and `Lexer.TokenOfText`.
