/**
 * `readCharacter` and `readInstruction` (urm.cpp:160-282), reading from the
 * input stream and updating the variable table and the largest goto label
 * as they go.
 */
module Parser {
  import opened Wrappers
  import opened Instructions
  import opened Lexer
  import opened Naturaliser
  import opened Grammar

  /**
   * `readCharacter`: reads characters until `c`; fails at the first other
   * character that is not whitespace, or at end of input.
   */
  method ReadCharacter(file: InputStream, c: char) returns (ok: bool)
    requires file.Valid()
    modifies file
    ensures file.Valid() && old(file.pos) <= file.pos
    ensures ok <==> CharAfter(file.text, old(file.pos), c).Some?
    ensures ok ==> file.pos == CharAfter(file.text, old(file.pos), c).value
  {
    var input := file.Get();
    while input != c as int
      invariant file.Valid() && old(file.pos) <= file.pos
      invariant CharAfter(file.text, old(file.pos), c) ==
        if input == c as int then Some(file.pos)
        else if IsSpace(input) then CharAfter(file.text, file.pos, c)
        else None
      decreases |file.text| - file.pos, if IsSpace(input) then 1 else 0
    {
      if !IsSpace(input) {
        return false;
      }
      input := file.Get();
    }
    return true;
  }

  /**
   * `readInstruction`: one record whose label must be `expectedLabel`. The
   * table `m` and the largest goto label `maxGoto`, passed by reference in
   * the source, come back updated. `None` stands for the source's NULL.
   */
  method ReadInstruction(file: InputStream, expectedLabel: int, maxGoto: int, m: map<string, nat>, meta: bool)
    returns (rec: Option<Record>, maxGoto': int, m': map<string, nat>)
    requires file.Valid()
    modifies file
    ensures file.Valid() && old(file.pos) <= file.pos
    ensures var r := ReadRecord(file.text, meta, expectedLabel, Cursor(old(file.pos), m, maxGoto));
      (rec.None? <==> r.None?) &&
      (r.Some? ==> rec.value == r.value.record && Cursor(file.pos, m', maxGoto') == r.value.after)
  {
    maxGoto', m' := maxGoto, m;
    var given := file.ReadInt();
    if given.None? || given.value != expectedLabel {
      return None, maxGoto', m';
    }
    var ok := ReadCharacter(file, ':');
    if !ok {
      return None, maxGoto', m';
    }
    var token := file.ReadToken();
    if token.None? {
      return None, maxGoto', m';
    }
    rec, maxGoto', m' := ReadRecordBody(file, token.value, maxGoto, m, meta);
  }

  /**
   * The dispatch of `readInstruction` on the token after the label
   * (urm.cpp:191-281): `stop`, a branch, or an assignment-family record.
   */
  method ReadRecordBody(file: InputStream, kind: string, maxGoto: int, m: map<string, nat>, meta: bool)
    returns (rec: Option<Record>, maxGoto': int, m': map<string, nat>)
    requires file.Valid()
    modifies file
    ensures file.Valid() && old(file.pos) <= file.pos
    ensures var r := RecordBody(file.text, meta, kind, old(file.pos), Cursor(old(file.pos), m, maxGoto));
      (rec.None? <==> r.None?) &&
      (r.Some? ==> rec.value == r.value.record && Cursor(file.pos, m', maxGoto') == r.value.after)
  {
    if kind == "stop" {
      rec, maxGoto', m' := Some(Stop), maxGoto, m;
    } else if kind == "if" {
      rec, maxGoto', m' := ReadConditionalGoto(file, maxGoto, m, meta);
    } else {
      rec, maxGoto', m' := ReadVariableChange(file, kind, maxGoto, m, meta);
    }
  }

  /** The part of `readInstruction` after an `if` token (urm.cpp:197-231). */
  method ReadConditionalGoto(file: InputStream, maxGoto: int, m: map<string, nat>, meta: bool)
    returns (rec: Option<Record>, maxGoto': int, m': map<string, nat>)
    requires file.Valid()
    modifies file
    ensures file.Valid() && old(file.pos) <= file.pos
    ensures var r := ReadBranch(file.text, meta, old(file.pos), Cursor(old(file.pos), m, maxGoto));
      (rec.None? <==> r.None?) &&
      (r.Some? ==> rec.value == r.value.record && Cursor(file.pos, m', maxGoto') == r.value.after)
  {
    var token := file.ReadToken();
    if token.None? {
      return None, maxGoto, m;
    }
    var variable;
    variable, m' := ReadVariable(token.value, m, meta);
    if variable == -1 {
      return None, maxGoto, m';
    }
    rec, maxGoto' := ReadBranchTest(file, variable, maxGoto, m');
  }

  /**
   * `= 0 goto <label1> else goto <label2>` after the variable of a branch
   * on register `variable` (urm.cpp:199-231).
   */
  method ReadBranchTest(file: InputStream, variable: nat, maxGoto: int, m: map<string, nat>)
    returns (rec: Option<Record>, maxGoto': int)
    requires file.Valid()
    modifies file
    ensures file.Valid() && old(file.pos) <= file.pos
    ensures var r := BranchTest(file.text, old(file.pos), variable, Cursor(old(file.pos), m, maxGoto));
      (rec.None? <==> r.None?) &&
      (r.Some? ==> rec.value == r.value.record && Cursor(file.pos, m, maxGoto') == r.value.after)
  {
    maxGoto' := maxGoto;
    var ok := ReadCharacter(file, '=');
    if !ok {
      return None, maxGoto';
    }
    ok := ReadCharacter(file, '0');
    if !ok {
      return None, maxGoto';
    }
    rec, maxGoto' := ReadBranchTargets(file, variable, maxGoto, m);
  }

  /**
   * The two targets of a branch on register `variable`: both at least 1,
   * stored minus one, and raising the largest goto label (urm.cpp:205-231).
   */
  method ReadBranchTargets(file: InputStream, variable: nat, maxGoto: int, m: map<string, nat>)
    returns (rec: Option<Record>, maxGoto': int)
    requires file.Valid()
    modifies file
    ensures file.Valid() && old(file.pos) <= file.pos
    ensures var r := BranchTargets(file.text, old(file.pos), variable, Cursor(old(file.pos), m, maxGoto));
      (rec.None? <==> r.None?) &&
      (r.Some? ==> rec.value == r.value.record && Cursor(file.pos, m, maxGoto') == r.value.after)
  {
    maxGoto' := maxGoto;
    ghost var r := BranchTargets(file.text, file.pos, variable, Cursor(file.pos, m, maxGoto));
    var targets := ReadGotoTargets(file);
    if targets.None? {
      return None, maxGoto';
    }
    var label1, label2 := targets.value.first, targets.value.second;
    if label1 < 1 || label2 < 1 {
      return None, maxGoto';
    }
    if label1 > maxGoto' {
      maxGoto' := label1;
    }
    if label2 > maxGoto' {
      maxGoto' := label2;
    }
    rec := Some(Instruction(ConditionalGoto(variable, label1 - 1, label2 - 1)));
    assert r.value.record.instr == rec.value.instr;
  }

  /** `goto <label1> else goto <label2>` (urm.cpp:205-215). */
  method ReadGotoTargets(file: InputStream) returns (targets: Option<Targets>)
    requires file.Valid()
    modifies file
    ensures file.Valid() && old(file.pos) <= file.pos
    ensures targets == ReadTargets(file.text, old(file.pos))
    ensures targets.Some? ==> file.pos == targets.value.next
  {
    TargetsRecord(file.text, file.pos);
    var token := file.ReadToken();
    if token.None? || token.value != "goto" {
      return None;
    }
    var label1 := file.ReadInt();
    if label1.None? {
      return None;
    }
    ElseRecord(file.text, file.pos);
    token := file.ReadToken();
    if token.None? || token.value != "else" {
      return None;
    }
    token := file.ReadToken();
    if token.None? || token.value != "goto" {
      return None;
    }
    var label2 := file.ReadInt();
    if label2.None? {
      return None;
    }
    targets := Some(Targets(label1.value, label2.value, file.pos));
  }

  /**
   * The part of `readInstruction` for `<var> <- ...` once the first token
   * `lhs` has been read (urm.cpp:233-280).
   */
  method ReadVariableChange(file: InputStream, lhs: string, maxGoto: int, m: map<string, nat>, meta: bool)
    returns (rec: Option<Record>, maxGoto': int, m': map<string, nat>)
    requires file.Valid()
    modifies file
    ensures file.Valid() && old(file.pos) <= file.pos
    ensures var r := ReadAssignment(file.text, meta, lhs, old(file.pos), Cursor(old(file.pos), m, maxGoto));
      (rec.None? <==> r.None?) &&
      (r.Some? ==> rec.value == r.value.record && Cursor(file.pos, m', maxGoto') == r.value.after)
  {
    maxGoto', m' := maxGoto, m;
    var variable;
    variable, m' := ReadVariable(lhs, m', meta);
    if variable == -1 {
      return None, maxGoto', m';
    }
    var instr := ReadArrow(file, variable, m');
    if instr.None? {
      return None, maxGoto', m';
    }
    rec := Some(Instruction(instr.value));
  }

  /** `<-` after the variable of an assignment-family record, then the operand (urm.cpp:238-279). */
  method ReadArrow(file: InputStream, variable: nat, m: map<string, nat>) returns (instr: Option<Instr>)
    requires file.Valid()
    modifies file
    ensures file.Valid() && old(file.pos) <= file.pos
    ensures var r := Arrow(file.text, old(file.pos), variable, m);
      (instr.None? <==> r.None?) && (r.Some? ==> instr.value == r.value.value && file.pos == r.value.next)
  {
    var ok := ReadCharacter(file, '<');
    if !ok {
      return None;
    }
    ok := ReadCharacter(file, '-');
    if !ok {
      return None;
    }
    instr := ReadRightHandSide(file, variable, m);
  }

  /**
   * The token after `<-`: the same variable then `+ 1` or `- 1`, or a whole
   * non-negative constant (urm.cpp:247-279). The table is only read.
   */
  method ReadRightHandSide(file: InputStream, variable: nat, m: map<string, nat>) returns (instr: Option<Instr>)
    requires file.Valid()
    modifies file
    ensures file.Valid() && old(file.pos) <= file.pos
    ensures var r := ReadOperand(file.text, old(file.pos), variable, m);
      (instr.None? <==> r.None?) && (r.Some? ==> instr.value == r.value.value && file.pos == r.value.next)
  {
    var token := file.ReadToken();
    if token.None? {
      return None;
    }
    if token.value in m && m[token.value] == variable {
      var op := file.ReadToken();
      if op.None? {
        return None;
      }
      if op.value == "+" {
        instr := Some(Increment(variable));
      } else if op.value == "-" {
        instr := Some(Decrement(variable));
      } else {
        return None;
      }
      var ok := ReadCharacter(file, '1');
      if !ok {
        return None;
      }
    } else {
      var tokenStream := new InputStream(token.value);
      var constant := tokenStream.ReadInt();
      if constant.None? || tokenStream.pos != |token.value| {
        return None;
      }
      if constant.value < 0 {
        return None;
      }
      instr := Some(Assignment(variable, constant.value));
    }
  }
}
