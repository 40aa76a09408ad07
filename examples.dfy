/**
 * Worked examples: one record read by `readInstruction`, and a count-down
 * program run by `URM::run`.
 */
module Examples {
  import opened Wrappers
  import opened Instructions
  import opened Machine
  import opened Lexer
  import opened Naturaliser
  import opened Grammar

  /** The record `1: X1 <- 5`. */
  const Line: string := "1: X1 <- 5\n"

  /** The label, the `:` and the first token of `Line`. */
  lemma HeaderTokens()
    ensures IntAt(Line, 0) == Some(Scanned(1, 1))
    ensures CharAfter(Line, 1, ':') == Some(2)
    ensures TokenAt(Line, 2) == Some(Scanned("X1", 5))
  {
    assert SkipSpace(Line, 0) == 0 && DigitsEnd(Line, 0) == 1;
    assert Line[0..1] == "1";
    assert DigitsValue("1") == 1;
    assert SkipSpace(Line, 2) == 3 && WordEnd(Line, 3) == 5;
    assert Line[3..5] == "X1";
  }

  /** The arrow and the operand of `Line`. */
  lemma OperandTokens()
    ensures CharAfter(Line, 5, '<') == Some(7)
    ensures CharAfter(Line, 7, '-') == Some(8)
    ensures TokenAt(Line, 8) == Some(Scanned("5", 10))
  {
    assert SkipSpace(Line, 8) == 9 && WordEnd(Line, 9) == 10;
    assert Line[9..10] == "5";
  }

  /**
   * `Line` read as the first record of a program: the assignment of 5 to the
   * register named `X1`, which gets id 0; the read stops after the `5`.
   */
  lemma AssignmentRecordExample()
    ensures ReadRecord(Line, false, 1, Cursor(0, map[], 1)) ==
      Some(Parsed(Instruction(Assignment(0, 5)), Cursor(10, map["X1" := 0], 1)))
  {
    HeaderTokens();
    OperandTokens();
    ConstantOfDecimal(5);
    assert Decimal(5) == "5";
    assert StrictVariable("X1");
    assert Header(Line, 1, 0) == Some(Scanned("X1", 5));
    assert ReadOperand(Line, 8, 0, map["X1" := 0]) == Some(Scanned(Assignment(0, 5), 10));
  }

  /**
   * `X1 <- 2`, then a loop that decrements `X1` until it is zero:
   * `if X1 = 0 goto 5 else goto 3`, `X1 <- X1 - 1`,
   * `if X2 = 0 goto 2 else goto 2`, and `stop` at label 5.
   */
  const CountDown: seq<Instr> :=
    [Assignment(0, 2), ConditionalGoto(0, 4, 2), Decrement(0), ConditionalGoto(1, 1, 1)]

  /** The count-down halts after eight steps with every register zero, and stays halted. */
  lemma CountDownHalts(fuel: nat)
    requires fuel >= 8
    ensures RunFor(CountDown, Config([0, 0], 0), fuel) == Config([0, 0], 4)
  {
    assert WellFormed(CountDown, 2);
    var c := Config([0, 0], 0);
    assert RunFor(CountDown, c, 4) == Config([1, 0], 1);
    assert RunFor(CountDown, Config([1, 0], 1), 4) == Config([0, 0], 4);
    RunSplits(CountDown, c, 4, 4);
    MoreFuelSameResult(CountDown, c, 8, fuel);
  }
}
