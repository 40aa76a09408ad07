/**
 * The execution engine: a register vector and a program counter stepped
 * through the instruction sequence until it runs off the end
 * (urm.cpp:112-131).
 */
module Machine {
  import opened Instructions

  /** A machine state: register values and the program counter. */
  datatype Config = Config(regs: seq<int>, pc: nat)

  /** One iteration of the loop in `URM::run`. */
  function Step(prog: seq<Instr>, c: Config): (d: Config)
    requires c.pc < |prog| && prog[c.pc].variable < |c.regs|
    ensures |d.regs| == |c.regs|
    ensures !prog[c.pc].ConditionalGoto? ==>
      d.pc == c.pc + 1 && d.regs == Execute(prog[c.pc], c.regs).regs
    ensures prog[c.pc].ConditionalGoto? ==>
      d.regs == c.regs &&
      d.pc == if c.regs[prog[c.pc].variable] == 0 then prog[c.pc].x else prog[c.pc].y
  {
    var e := Execute(prog[c.pc], c.regs);
    Config(e.regs, if e.next >= 0 then e.next else c.pc + 1)
  }

  /** At most `fuel` steps of `URM::run`, stopping as soon as `pc` leaves the program. */
  function RunFor(prog: seq<Instr>, c: Config, fuel: nat): (d: Config)
    requires WellFormed(prog, |c.regs|)
    ensures |d.regs| == |c.regs|
    ensures AllInRange(c.regs) ==> AllInRange(d.regs)
    ensures c.pc <= |prog| ==> d.pc <= |prog|
    decreases fuel
  {
    if fuel == 0 || c.pc >= |prog| then c else RunFor(prog, Step(prog, c), fuel - 1)
  }

  /** A halted machine stays halted and unchanged. */
  lemma HaltedStays(prog: seq<Instr>, c: Config, fuel: nat)
    requires WellFormed(prog, |c.regs|) && c.pc >= |prog|
    ensures RunFor(prog, c, fuel) == c
  {
  }

  /** Running for `a + b` steps is running for `a` steps, then for `b` more. */
  lemma {:induction false} RunSplits(prog: seq<Instr>, c: Config, a: nat, b: nat)
    requires WellFormed(prog, |c.regs|)
    ensures RunFor(prog, c, a + b) == RunFor(prog, RunFor(prog, c, a), b)
    decreases a
  {
    if a > 0 && c.pc < |prog| {
      var d := Step(prog, c);
      RunSplits(prog, d, a - 1, b);
      assert RunFor(prog, c, a) == RunFor(prog, d, a - 1);
      assert RunFor(prog, c, a + b) == RunFor(prog, d, a - 1 + b);
    }
  }

  /** Once a run has halted, more fuel gives the same final state. */
  lemma {:induction false} MoreFuelSameResult(prog: seq<Instr>, c: Config, n: nat, m: nat)
    requires WellFormed(prog, |c.regs|)
    requires n <= m && RunFor(prog, c, n).pc >= |prog|
    ensures RunFor(prog, c, m) == RunFor(prog, c, n)
  {
    RunSplits(prog, c, n, m - n);
  }

  /** The URM object: instructions, registers and the program counter. */
  class Urm {
    const instructions: seq<Instr>
    const variables: array<int>
    /** Name to register id table; only the report printer reads it. */
    const varMap: map<string, nat>
    var programCounter: nat

    /** A validated program over this register vector; `pc` within `[0, size]`. */
    ghost predicate Valid()
      reads this, variables
    {
      WellFormed(instructions, variables.Length) &&
      AllInRange(variables[..]) &&
      programCounter <= |instructions|
    }

    ghost function State(): Config
      reads this, variables
    {
      Config(variables[..], programCounter)
    }

    constructor (instructions: seq<Instr>, vars: array<int>, varMap: map<string, nat>)
      requires WellFormed(instructions, vars.Length) && AllInRange(vars[..])
      ensures Valid()
      ensures this.instructions == instructions && variables == vars && this.varMap == varMap
      ensures programCounter == 0 && variables[..] == old(vars[..])
    {
      programCounter := 0;
      this.instructions := instructions;
      variables := vars;
      this.varMap := varMap;
    }

    /** The `execute` methods of the four instruction classes. */
    method Execute(i: Instr) returns (next: int)
      requires i.variable < variables.Length
      modifies variables
      ensures Effect(variables[..], next) == Instructions.Execute(i, old(variables[..]))
    {
      match i
      case Increment(x) =>
        var maxValue := MaxValue;
        if variables[x] < maxValue {
          variables[x] := variables[x] + 1;
        }
        next := -1;
      case Decrement(x) =>
        if variables[x] > 0 {
          variables[x] := variables[x] - 1;
        }
        next := -1;
      case Assignment(x, value) =>
        variables[x] := value;
        next := -1;
      case ConditionalGoto(x, target0, target1) =>
        if variables[x] == 0 {
          next := target0;
        } else {
          next := target1;
        }
    }

    /**
     * `URM::run`, bounded by `fuel` steps. It halts exactly when the program
     * counter reaches the end of the program.
     */
    method Run(fuel: nat) returns (halted: bool)
      requires Valid()
      modifies this, variables
      ensures Valid()
      ensures State() == RunFor(instructions, old(State()), fuel)
      ensures halted <==> programCounter == |instructions|
    {
      var steps := 0;
      while programCounter < |instructions| && steps < fuel
        invariant Valid() && steps <= fuel
        invariant RunFor(instructions, old(State()), fuel) == RunFor(instructions, State(), fuel - steps)
        decreases fuel - steps
      {
        var currentInstruction := instructions[programCounter];
        var nextPC := Execute(currentInstruction);
        if nextPC >= 0 {
          programCounter := nextPC;
        } else {
          programCounter := programCounter + 1;
        }
        steps := steps + 1;
      }
      halted := programCounter >= |instructions|;
    }
  }
}
