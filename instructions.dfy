/**
 * The four URM instruction kinds and what executing one of them does to the
 * register vector (urm.cpp:34-96).
 */
module Instructions {

  /** Largest value of the 32-bit `int` the registers are stored in. */
  const IntMax: int := 0x7FFF_FFFF
  /** Smallest value of that `int`. */
  const IntMin: int := -0x8000_0000

  /**
   * The increment cap, computed as urm.cpp:38-39 computes it: `1 << 30 - 1`
   * parses as `1 << (30 - 1)`, so the cap is 2^29 + 2^30, not 2^31 - 1.
   */
  const MaxValue: int := ((1 as bv32) << (30 - 1)) as int + ((1 as bv32) << 30) as int

  /** An executable instruction; registers are named by their dense id. */
  datatype Instr =
    | Increment(variable: nat)
    | Decrement(variable: nat)
    | Assignment(variable: nat, value: nat)
    | ConditionalGoto(variable: nat, x: nat, y: nat)

  /** A register value that the machine can hold. */
  predicate InRange(v: int) {
    0 <= v <= IntMax
  }

  ghost predicate AllInRange(regs: seq<int>) {
    forall j | 0 <= j < |regs| :: InRange(regs[j])
  }

  /** New register vector and the value `execute` returns (-1: fall through). */
  datatype Effect = Effect(regs: seq<int>, next: int)

  /** The `execute` bodies of the four instruction classes. */
  function Execute(i: Instr, regs: seq<int>): (e: Effect)
    requires i.variable < |regs|
    ensures |e.regs| == |regs|
    ensures forall j | 0 <= j < |regs| && j != i.variable :: e.regs[j] == regs[j]
    ensures !i.ConditionalGoto? ==> e.next == -1
    ensures i.Increment? ==>
      (e.regs[i.variable] == regs[i.variable] + 1 <==> regs[i.variable] < MaxValue) &&
      (regs[i.variable] >= MaxValue ==> e.regs == regs)
    ensures i.Decrement? ==>
      (e.regs[i.variable] == regs[i.variable] - 1 <==> regs[i.variable] > 0) &&
      (regs[i.variable] <= 0 ==> e.regs == regs)
    ensures i.Assignment? ==> e.regs[i.variable] == i.value
    ensures i.ConditionalGoto? ==>
      e.regs == regs && e.next == (if regs[i.variable] == 0 then i.x else i.y)
    ensures AllInRange(regs) && (i.Assignment? ==> i.value <= IntMax) ==> AllInRange(e.regs)
  {
    var x := i.variable;
    match i
    case Increment(_) =>
      Effect(if regs[x] < MaxValue then regs[x := regs[x] + 1] else regs, -1)
    case Decrement(_) =>
      Effect(if regs[x] > 0 then regs[x := regs[x] - 1] else regs, -1)
    case Assignment(_, value) =>
      Effect(regs[x := value], -1)
    case ConditionalGoto(_, target0, target1) =>
      Effect(regs, if regs[x] == 0 then target0 else target1)
  }

  /**
   * What the parser and the jump check guarantee of one instruction of a
   * program of `size` instructions over `nvars` registers.
   */
  predicate ValidIn(i: Instr, size: nat, nvars: nat) {
    i.variable < nvars &&
    (i.Assignment? ==> i.value <= IntMax) &&
    (i.ConditionalGoto? ==> i.x <= size && i.y <= size)
  }

  ghost predicate WellFormed(prog: seq<Instr>, nvars: nat) {
    forall k | 0 <= k < |prog| :: ValidIn(prog[k], |prog|, nvars)
  }

  function Min(a: int, b: int): int { if a <= b then a else b }
  function Max(a: int, b: int): int { if a >= b then a else b }

  /** The registers after executing the same instruction `n` times in a row. */
  function Repeat(i: Instr, regs: seq<int>, n: nat): (r: seq<int>)
    requires i.variable < |regs|
    ensures |r| == |regs|
    decreases n
  {
    if n == 0 then regs else Repeat(i, Execute(i, regs).regs, n - 1)
  }

  /**
   * Saturation: increments climb one at a time to the cap and stay there; a
   * value already at or above the cap (set by an assignment) is left alone.
   */
  lemma {:induction false} IncrementSaturates(x: nat, regs: seq<int>, n: nat)
    requires x < |regs| && regs[x] >= 0
    ensures Repeat(Increment(x), regs, n)[x] ==
      if regs[x] < MaxValue then Min(regs[x] + n, MaxValue) else regs[x]
    ensures forall j | 0 <= j < |regs| && j != x :: Repeat(Increment(x), regs, n)[j] == regs[j]
    decreases n
  {
    if n > 0 {
      IncrementSaturates(x, Execute(Increment(x), regs).regs, n - 1);
    }
  }

  /** Floor: decrements go down one at a time and stop at 0. */
  lemma {:induction false} DecrementFloors(x: nat, regs: seq<int>, n: nat)
    requires x < |regs| && regs[x] >= 0
    ensures Repeat(Decrement(x), regs, n)[x] == Max(regs[x] - n, 0)
    ensures forall j | 0 <= j < |regs| && j != x :: Repeat(Decrement(x), regs, n)[j] == regs[j]
    decreases n
  {
    if n > 0 {
      DecrementFloors(x, Execute(Decrement(x), regs).regs, n - 1);
    }
  }

  /** An increment below the cap is undone by a decrement. */
  lemma IncrementThenDecrement(x: nat, regs: seq<int>)
    requires x < |regs| && 0 <= regs[x] < MaxValue
    ensures Execute(Decrement(x), Execute(Increment(x), regs).regs).regs == regs
  {
  }

  /** The cap is below the largest `int`, so an increment never overflows. */
  lemma CapFitsInt()
    ensures MaxValue == 1610612736 && MaxValue < IntMax
  {
  }
}
