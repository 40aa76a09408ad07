/**
 * `main` (urm.cpp:283-335): reads records labelled 1, 2, ... until `stop`,
 * rejects a program whose largest goto label lies beyond the `stop` label,
 * and runs an accepted program from all-zero registers.
 */
module Interpreter {
  import opened Wrappers
  import opened Instructions
  import opened Machine
  import opened Lexer
  import opened Naturaliser
  import opened Grammar
  import opened Parser

  /**
   * The read loop and jump check of `main` over the text of the program
   * file. The instructions gathered, the table and the largest goto label
   * are exactly what `ReadProgram` says.
   */
  method ParseProgram(text: string, meta: bool) returns (r: ProgramResult)
    ensures r == ReadProgram(text, meta)
  {
    var file := new InputStream(text);
    var maxGoto: int, currentLabel: nat := 1, 1;
    var instructions: seq<Instr> := [];
    var m: map<string, nat> := map[];
    ghost var before := Cursor(0, m, maxGoto);
    var i;
    i, maxGoto, m := ReadInstruction(file, currentLabel, maxGoto, m, meta);
    while i.Some? && i.value.Instruction?
      invariant file.Valid() && file.text == text && before.pos <= |text|
      invariant ReadRecords(text, meta, 1, Cursor(0, map[], 1), []) == ReadRecords(text, meta, currentLabel, before, instructions)
      invariant var rr := ReadRecord(text, meta, currentLabel, before);
        (i.None? <==> rr.None?) &&
        (rr.Some? ==> i.value == rr.value.record && Cursor(file.pos, m, maxGoto) == rr.value.after)
      decreases |text| - before.pos
    {
      RecordsNext(text, meta, currentLabel, before, instructions);
      instructions := instructions + [i.value.instr];
      currentLabel := currentLabel + 1;
      before := Cursor(file.pos, m, maxGoto);
      i, maxGoto, m := ReadInstruction(file, currentLabel, maxGoto, m, meta);
    }
    ProgramOfScan(text, meta, currentLabel, before, instructions);
    if i.None? {
      return Malformed(currentLabel);
    }
    if maxGoto > currentLabel {
      return JumpOutOfRange(maxGoto);
    }
    return Accepted(instructions, m);
  }

  /** What `main` ends with: a rejection, the final registers, or a run cut short. */
  datatype Report =
    | Rejected(error: ProgramResult)
    | Halted(vars: map<string, nat>, registers: seq<int>)
    | OutOfFuel

  /**
   * `main` after the command line: parse, check, then run from all-zero
   * registers for at most `fuel` steps. A rejected program is never run; an
   * accepted one is run exactly as `RunProgram` says.
   */
  method Interpret(text: string, meta: bool, fuel: nat) returns (report: Report)
    ensures var p := ReadProgram(text, meta);
      (!p.Accepted? ==> report == Rejected(p)) &&
      (p.Accepted? ==> WellFormed(p.instructions, |p.vars|) && report == Outcome(p.instructions, p.vars, fuel))
  {
    var r := ParseProgram(text, meta);
    if !r.Accepted? {
      return Rejected(r);
    }
    AcceptedIsWellFormed(text, meta);
    report := RunProgram(r.instructions, r.vars, fuel);
  }

  /**
   * What running a well-formed program from all-zero registers for at most
   * `fuel` steps reports: the final registers if it reached the end of the
   * program, otherwise that it ran out of steps.
   */
  ghost function Outcome(instructions: seq<Instr>, vars: map<string, nat>, fuel: nat): Report
    requires WellFormed(instructions, |vars|)
  {
    var d := RunFor(instructions, Config(seq(|vars|, _ => 0), 0), fuel);
    if d.pc == |instructions| then Halted(vars, d.regs) else OutOfFuel
  }

  /**
   * The tail of `main`: a register vector of `|vars|` zeros, a machine over
   * it, and `URM::run` (urm.cpp:326-329). It halts exactly when `RunFor`
   * reaches the end of the program, and reports the registers `RunFor`
   * computes.
   */
  method RunProgram(instructions: seq<Instr>, vars: map<string, nat>, fuel: nat) returns (report: Report)
    requires WellFormed(instructions, |vars|)
    ensures report == Outcome(instructions, vars, fuel)
    ensures report.Halted? ==> report.vars == vars && |report.registers| == |vars| && AllInRange(report.registers)
  {
    var variables := new int[|vars|](_ => 0);
    assert variables[..] == seq(|vars|, _ => 0);
    var program := new Urm(instructions, variables, vars);
    var halted := program.Run(fuel);
    if halted {
      report := Halted(vars, variables[..]);
    } else {
      report := OutOfFuel;
    }
  }
}
