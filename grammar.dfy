/**
 * The record grammar: what `readInstruction` (urm.cpp:176-282) accepts and
 * builds from the text at a given position, and what the read loop and jump
 * check of `main` (urm.cpp:289, 302-324) make of a whole program text.
 */
module Grammar {
  import opened Wrappers
  import opened Instructions
  import opened Lexer
  import opened Naturaliser

  /** What one record is: an instruction, or the `stop` that ends the program. */
  datatype Record = Instruction(instr: Instr) | Stop

  /** What reading threads from record to record: position, variable table, largest goto label. */
  datatype Cursor = Cursor(pos: nat, vars: map<string, nat>, maxGoto: int)

  /** A record read successfully, and the state after it. */
  datatype Parsed = Parsed(record: Record, after: Cursor)

  /** `>> token` that must be exactly `word`. */
  function Keyword(s: string, p: nat, word: string): (r: Option<nat>)
    requires p <= |s|
    ensures r.Some? ==> p < r.value <= |s|
    ensures r.Some? <==> TokenAt(s, p).Some? && TokenAt(s, p).value.value == word
    ensures r.Some? ==> r.value == TokenAt(s, p).value.next
  {
    var t :- TokenAt(s, p);
    if t.value == word then Some(t.next) else None
  }

  /**
   * The record header: the label, which must be `expected`, a `:` and the
   * token that says what the record is (urm.cpp:182-190).
   */
  function Header(s: string, expected: int, p: nat): (r: Option<Scanned<string>>)
    requires p <= |s|
    ensures r.Some? ==> p < r.value.next <= |s| && |r.value.value| > 0
    ensures r.Some? <==>
      IntAt(s, p).Some? && IntAt(s, p).value.value == expected &&
      CharAfter(s, IntAt(s, p).value.next, ':').Some? &&
      TokenAt(s, CharAfter(s, IntAt(s, p).value.next, ':').value).Some?
    ensures r.Some? ==> r == TokenAt(s, CharAfter(s, IntAt(s, p).value.next, ':').value)
  {
    match IntAt(s, p)
    case None => None
    case Some(given) =>
      if given.value != expected then None
      else
        match CharAfter(s, given.next, ':')
        case None => None
        case Some(q) => TokenAt(s, q)
  }

  /**
   * A record adds at most one name to the table and never changes an id
   * already given.
   */
  ghost predicate TableGrows(m: map<string, nat>, m': map<string, nat>) {
    |m| <= |m'| <= |m| + 1 &&
    forall t | t in m :: t in m' && m'[t] == m[t]
  }

  /** The two labels of a branch record. */
  datatype Targets = Targets(first: int, second: int, next: nat)

  /** `goto <label1> else goto <label2>` (urm.cpp:205-215). */
  function ReadTargets(s: string, p: nat): (r: Option<Targets>)
    requires p <= |s|
    ensures r.Some? ==> p < r.value.next <= |s|
  {
    match Keyword(s, p, "goto")
    case None => None
    case Some(g) =>
      match IntAt(s, g)
      case None => None
      case Some(label1) =>
        match ReadElse(s, label1.next)
        case None => None
        case Some(label2) => Some(Targets(label1.value, label2.value, label2.next))
  }

  /** `else goto <label2>`, the part after the first label (urm.cpp:208-215). */
  function ReadElse(s: string, p: nat): (r: Option<Scanned<int>>)
    requires p <= |s|
    ensures r.Some? ==> p < r.value.next <= |s|
  {
    match Keyword(s, p, "else")
    case None => None
    case Some(e) =>
      match Keyword(s, e, "goto")
      case None => None
      case Some(g') => IntAt(s, g')
  }

  /**
   * `ReadTargets` at any position, in both directions: it succeeds exactly
   * when `goto`, the first label and then `else goto <label2>` are read in
   * turn, and it gives the first label first and the second second.
   */
  lemma TargetsRecord(s: string, p: nat)
    requires p <= |s|
    ensures var r, g := ReadTargets(s, p), Keyword(s, p, "goto");
      var label1 := if g.Some? then IntAt(s, g.value) else None;
      var rest := if label1.Some? then ReadElse(s, label1.value.next) else None;
      (r.Some? <==> rest.Some?) &&
      (r.Some? ==>
        r.value.first == label1.value.value && r.value.second == rest.value.value &&
        r.value.next == rest.value.next)
  {
  }

  /**
   * `ReadElse` at any position, in both directions: it succeeds exactly when
   * `else`, then `goto`, then an `int` are read in turn, and gives that
   * `int` and where it ends.
   */
  lemma ElseRecord(s: string, p: nat)
    requires p <= |s|
    ensures var r, e := ReadElse(s, p), Keyword(s, p, "else");
      var g := if e.Some? then Keyword(s, e.value, "goto") else None;
      var label2 := if g.Some? then IntAt(s, g.value) else None;
      (r.Some? <==> label2.Some?) &&
      (r.Some? ==> r.value.value == label2.value.value && r.value.next == label2.value.next)
  {
  }

  /**
   * The body of an `if` record after the `if` token:
   * `<var> = 0 goto <label1> else goto <label2>` (urm.cpp:197-231).
   */
  function ReadBranch(s: string, meta: bool, p: nat, c: Cursor): (r: Option<Parsed>)
    requires p <= |s|
    ensures r.Some? ==> p < r.value.after.pos <= |s|
    ensures r.Some? ==> r.value.record.Instruction? && r.value.record.instr.ConditionalGoto?
  {
    match TokenAt(s, p)
    case None => None
    case Some(t) =>
      var v := Naturalise(t.value, c.vars, meta);
      if v.id == -1 then None else BranchTest(s, t.next, v.id, Cursor(t.next, v.table, c.maxGoto))
  }

  /** `= 0` after the variable of a branch record, then its targets. */
  function BranchTest(s: string, p: nat, id: nat, c: Cursor): (r: Option<Parsed>)
    requires p <= |s|
    ensures r.Some? ==> p < r.value.after.pos <= |s|
    ensures r.Some? ==> r.value.record.Instruction? && r.value.record.instr.ConditionalGoto?
  {
    match CharAfter(s, p, '=')
    case None => None
    case Some(q) =>
      match CharAfter(s, q, '0')
      case None => None
      case Some(q') => BranchTargets(s, q', id, c.(pos := q'))
  }

  /**
   * The two targets of a branch record on register `id`: both at least 1,
   * stored minus one, and raising the largest goto label.
   */
  function BranchTargets(s: string, p: nat, id: nat, c: Cursor): (r: Option<Parsed>)
    requires p <= |s|
    ensures r.Some? ==> p < r.value.after.pos <= |s|
    ensures var t := ReadTargets(s, p);
      (r.Some? <==> t.Some? && t.value.first >= 1 && t.value.second >= 1) &&
      (r.Some? ==>
        r.value.record == Instruction(ConditionalGoto(id, t.value.first - 1, t.value.second - 1)) &&
        r.value.after == Cursor(t.value.next, c.vars, Max(Max(c.maxGoto, t.value.first), t.value.second)))
  {
    match ReadTargets(s, p)
    case None => None
    case Some(targets) =>
      var label1, label2 := targets.first, targets.second;
      if label1 < 1 || label2 < 1 then None
      else
        var maxGoto := Max(Max(c.maxGoto, label1), label2);
        Some(Parsed(Instruction(ConditionalGoto(id, label1 - 1, label2 - 1)),
                    Cursor(targets.next, c.vars, maxGoto)))
  }

  /**
   * What `= 0 goto <label1> else goto <label2>` after the variable of a
   * branch record on register `id` is accepted as: `=` and then `0` must
   * follow, the targets must be read and both labels must be at least 1.
   */
  lemma BranchTestRecord(s: string, p: nat, id: nat, c: Cursor)
    requires p <= |s|
    ensures var r, eq := BranchTest(s, p, id, c), CharAfter(s, p, '=');
      var zero := if eq.Some? then CharAfter(s, eq.value, '0') else None;
      var t := if zero.Some? then ReadTargets(s, zero.value) else None;
      (r.Some? <==> zero.Some? && t.Some? && t.value.first >= 1 && t.value.second >= 1) &&
      (r.Some? ==>
        r.value.record.Instruction? && r.value.record.instr.ConditionalGoto? &&
        r.value.record.instr.variable == id &&
        r.value.record.instr.x == t.value.first - 1 && r.value.record.instr.y == t.value.second - 1 &&
        r.value.after == Cursor(t.value.next, c.vars, Max(Max(c.maxGoto, t.value.first), t.value.second)))
  {
    match CharAfter(s, p, '=')
    case None =>
    case Some(q) =>
      match CharAfter(s, q, '0')
      case None =>
      case Some(q') =>
        assert BranchTest(s, p, id, c) == BranchTargets(s, q', id, c.(pos := q'));
  }

  /**
   * What `if <var> = 0 goto <label1> else goto <label2>` is accepted as
   * (urm.cpp:197-231): the variable must be accepted by the table, `=` and
   * then `0` must follow, the targets must be read and both labels must be
   * at least 1. The branch then tests the table's id of the variable, jumps
   * to `label1 - 1` when it is zero and to `label2 - 1` otherwise, and raises
   * the largest goto label to the larger of the old one and both labels.
   */
  lemma BranchRecord(s: string, meta: bool, p: nat, c: Cursor)
    requires p <= |s|
    ensures TokenAt(s, p).None? ==> ReadBranch(s, meta, p, c).None?
    ensures TokenAt(s, p).Some? ==>
      var r, tok := ReadBranch(s, meta, p, c), TokenAt(s, p).value;
      var v, eq := Naturalise(tok.value, c.vars, meta), CharAfter(s, tok.next, '=');
      var zero := if eq.Some? then CharAfter(s, eq.value, '0') else None;
      var t := if zero.Some? then ReadTargets(s, zero.value) else None;
      (r.Some? <==> v.id != -1 && zero.Some? && t.Some? && t.value.first >= 1 && t.value.second >= 1) &&
      (r.Some? ==>
        r.value.record.Instruction? && r.value.record.instr.ConditionalGoto? &&
        r.value.record.instr.variable == v.id &&
        r.value.record.instr.x == t.value.first - 1 && r.value.record.instr.y == t.value.second - 1 &&
        r.value.after == Cursor(t.value.next, v.table, Max(Max(c.maxGoto, t.value.first), t.value.second)))
  {
    match TokenAt(s, p)
    case None =>
    case Some(tok) =>
      var v := Naturalise(tok.value, c.vars, meta);
      if v.id != -1 {
        var c' := Cursor(tok.next, v.table, c.maxGoto);
        assert ReadBranch(s, meta, p, c) == BranchTest(s, tok.next, v.id, c');
        BranchTestRecord(s, tok.next, v.id, c');
      }
  }

  /**
   * What the read loop needs of a branch record: it names the register the
   * table gives its variable, the table is the one after naming it, and the
   * largest goto label becomes the largest of the old one and both labels.
   */
  lemma BranchEffect(s: string, meta: bool, p: nat, c: Cursor)
    requires p <= |s|
    ensures var r := ReadBranch(s, meta, p, c);
      r.Some? ==>
        TokenAt(s, p).Some? &&
        var v, i := Naturalise(TokenAt(s, p).value.value, c.vars, meta), r.value.record.instr;
        i.variable == v.id && r.value.after.vars == v.table &&
        r.value.after.maxGoto == Max(Max(c.maxGoto, i.x + 1), i.y + 1)
  {
  }

  /** The increment/decrement test: the token is known and has the id `id`. */
  predicate SameVariable(t: string, id: int, vars: map<string, nat>) {
    t in vars && vars[t] == id
  }

  /**
   * What follows `<-` in an assignment-family record (urm.cpp:247-279): the
   * variable itself then `+ 1` or `- 1`, or else a non-negative `int`
   * constant that is the whole token. The table is only looked up here.
   */
  function ReadOperand(s: string, p: nat, id: nat, vars: map<string, nat>): (r: Option<Scanned<Instr>>)
    requires p <= |s|
    ensures r.Some? ==> p < r.value.next <= |s|
    ensures r.Some? ==>
      r.value.value.variable == id && !r.value.value.ConditionalGoto? &&
      (r.value.value.Assignment? ==> r.value.value.value <= IntMax)
  {
    match TokenAt(s, p)
    case None => None
    case Some(rhs) =>
      if SameVariable(rhs.value, id, vars) then StepOperand(s, rhs.next, id)
      else ConstantOperand(rhs.value, rhs.next, id)
  }

  /** `+ 1` or `- 1` after the variable itself: an increment or a decrement. */
  function StepOperand(s: string, p: nat, id: nat): (r: Option<Scanned<Instr>>)
    requires p <= |s|
    ensures r.Some? ==> p < r.value.next <= |s|
    ensures r.Some? ==> r.value.value in {Increment(id), Decrement(id)}
  {
    match TokenAt(s, p)
    case None => None
    case Some(op) =>
      if op.value != "+" && op.value != "-" then None
      else
        match CharAfter(s, op.next, '1')
        case None => None
        case Some(e) => Some(Scanned(if op.value == "+" then Increment(id) else Decrement(id), e))
  }

  /** A token that is a whole non-negative `int` constant: an assignment of it. */
  function ConstantOperand(t: string, next: nat, id: nat): (r: Option<Scanned<Instr>>)
    ensures r.Some? ==>
      r.value.value.Assignment? && r.value.value.variable == id &&
      r.value.value.value <= IntMax && r.value.next == next
  {
    match Constant(t)
    case None => None
    case Some(k) =>
      if k < 0 then None else Some(Scanned(Assignment(id, k), next))
  }

  /**
   * The three kinds of assignment-family record, each in both directions:
   * an assignment exactly when the operand is not the same variable and is a
   * whole non-negative `int`; an increment (decrement) exactly when it is the
   * same variable followed by `+` (`-`) and then a `1`.
   */
  lemma OperandKinds(s: string, p: nat, id: nat, vars: map<string, nat>)
    requires p <= |s|
    ensures var r, rhs := ReadOperand(s, p, id, vars), TokenAt(s, p);
      ((r.Some? && r.value.value.Assignment?) <==>
        rhs.Some? && !SameVariable(rhs.value.value, id, vars) &&
        Constant(rhs.value.value).Some? && Constant(rhs.value.value).value >= 0) &&
      (r.Some? && r.value.value.Assignment? ==>
        r.value.value.value == Constant(rhs.value.value).value) &&
      ((r.Some? && r.value.value.Increment?) <==>
        rhs.Some? && SameVariable(rhs.value.value, id, vars) &&
        Keyword(s, rhs.value.next, "+").Some? &&
        CharAfter(s, Keyword(s, rhs.value.next, "+").value, '1').Some?) &&
      ((r.Some? && r.value.value.Decrement?) <==>
        rhs.Some? && SameVariable(rhs.value.value, id, vars) &&
        Keyword(s, rhs.value.next, "-").Some? &&
        CharAfter(s, Keyword(s, rhs.value.next, "-").value, '1').Some?)
  {
    match TokenAt(s, p)
    case None =>
    case Some(rhs) =>
      if SameVariable(rhs.value, id, vars) {
        assert ReadOperand(s, p, id, vars) == StepOperand(s, rhs.next, id);
      } else {
        assert ReadOperand(s, p, id, vars) == ConstantOperand(rhs.value, rhs.next, id);
      }
  }

  /**
   * The body of an assignment-family record whose first token `lhs` has been
   * read: the variable, `<-`, then the operand (urm.cpp:233-280).
   */
  function ReadAssignment(s: string, meta: bool, lhs: string, p: nat, c: Cursor): (r: Option<Parsed>)
    requires p <= |s|
    ensures r.Some? ==> p < r.value.after.pos <= |s|
    ensures r.Some? ==> r.value.record.Instruction? && !r.value.record.instr.ConditionalGoto?
  {
    var v := Naturalise(lhs, c.vars, meta);
    if v.id == -1 then None
    else
      match Arrow(s, p, v.id, v.table)
      case None => None
      case Some(a) => Some(Parsed(Instruction(a.value), Cursor(a.next, v.table, c.maxGoto)))
  }

  /** `<-` after the variable of an assignment-family record, then the operand. */
  function Arrow(s: string, p: nat, id: nat, vars: map<string, nat>): (r: Option<Scanned<Instr>>)
    requires p <= |s|
    ensures r.Some? ==> p < r.value.next <= |s|
    ensures r.Some? ==>
      r.value.value.variable == id && !r.value.value.ConditionalGoto? &&
      (r.value.value.Assignment? ==> r.value.value.value <= IntMax)
  {
    match CharAfter(s, p, '<')
    case None => None
    case Some(q) =>
      match CharAfter(s, q, '-')
      case None => None
      case Some(q') => ReadOperand(s, q', id, vars)
  }

  /**
   * `Arrow` in both directions: it succeeds exactly when `<`, then `-`, then
   * an operand are read, and it gives that operand's instruction unchanged.
   */
  lemma ArrowRecord(s: string, p: nat, id: nat, vars: map<string, nat>)
    requires p <= |s|
    ensures var r, lt := Arrow(s, p, id, vars), CharAfter(s, p, '<');
      var dash := if lt.Some? then CharAfter(s, lt.value, '-') else None;
      var operand := if dash.Some? then ReadOperand(s, dash.value, id, vars) else None;
      (r.Some? <==> operand.Some?) &&
      (r.Some? ==> r.value.value == operand.value.value && r.value.next == operand.value.next)
  {
  }

  /**
   * `ReadAssignment` in both directions: it succeeds exactly when the table
   * accepts the left-hand name and `Arrow` reads `<-` and an operand on that
   * name's register; the record is then `Arrow`'s instruction.
   */
  lemma AssignmentArrow(s: string, meta: bool, lhs: string, p: nat, c: Cursor)
    requires p <= |s|
    ensures var r, v := ReadAssignment(s, meta, lhs, p, c), Naturalise(lhs, c.vars, meta);
      (r.Some? <==> v.id != -1 && Arrow(s, p, v.id, v.table).Some?) &&
      (r.Some? ==>
        r.value.record.Instruction? &&
        r.value.record.instr == Arrow(s, p, v.id, v.table).value.value &&
        r.value.after.pos == Arrow(s, p, v.id, v.table).value.next)
  {
  }

  /**
   * An assignment-family record names its register as the table does, adds
   * at most the name `lhs` to the table, keeps it dense, stores a constant
   * that fits in an `int`, and leaves the largest goto label alone.
   */
  lemma AssignmentRecord(s: string, meta: bool, lhs: string, p: nat, c: Cursor)
    requires p <= |s|
    ensures var r := ReadAssignment(s, meta, lhs, p, c);
      r.Some? ==>
        var i, after := r.value.record.instr, r.value.after;
        i.variable == Naturalise(lhs, c.vars, meta).id &&
        after.vars == Naturalise(lhs, c.vars, meta).table &&
        lhs in after.vars && after.vars[lhs] == i.variable &&
        TableGrows(c.vars, after.vars) && (Dense(c.vars) ==> Dense(after.vars)) &&
        (i.Assignment? ==> i.value <= IntMax) && after.maxGoto == c.maxGoto
  {
  }

  /**
   * The increment/decrement test compares ids, but since the table is dense
   * (ids are injective) it holds exactly when the operand token is the
   * left-hand name itself.
   */
  lemma SameVariableIsSameName(lhs: string, m: map<string, nat>, meta: bool, t: string)
    requires Dense(m) && Naturalise(lhs, m, meta).id != -1
    ensures var v := Naturalise(lhs, m, meta);
      SameVariable(t, v.id, v.table) <==> t == lhs
  {
    var v := Naturalise(lhs, m, meta);
    SameIdSameName(v.table, lhs, t);
  }

  /** `readInstruction`: one record, whose label must be `expected`. */
  function ReadRecord(s: string, meta: bool, expected: int, c: Cursor): (r: Option<Parsed>)
    requires c.pos <= |s|
    ensures r.Some? ==> c.pos < r.value.after.pos <= |s|
  {
    match Header(s, expected, c.pos)
    case None => None
    case Some(h) => RecordBody(s, meta, h.value, h.next, c.(pos := h.next))
  }

  /** What the token after the label says the record is: `stop`, `if`, or an assignment-family record. */
  function RecordBody(s: string, meta: bool, kind: string, p: nat, c: Cursor): (r: Option<Parsed>)
    requires p <= |s|
    ensures r.Some? ==> p <= r.value.after.pos <= |s|
  {
    if kind == "stop" then Some(Parsed(Stop, c.(pos := p)))
    else if kind == "if" then ReadBranch(s, meta, p, c)
    else ReadAssignment(s, meta, kind, p, c)
  }

  /**
   * What the token after the header selects (urm.cpp:192-233): a missing
   * header rejects the record; `stop` is the stop record and changes
   * nothing; `if` is read as a branch by `ReadBranch`; any other token is
   * the left-hand name of an assignment-family record read by
   * `ReadAssignment`. Each is read from just after that token.
   */
  lemma RecordDispatch(s: string, meta: bool, expected: int, c: Cursor)
    requires c.pos <= |s|
    ensures Header(s, expected, c.pos).None? ==> ReadRecord(s, meta, expected, c).None?
    ensures Header(s, expected, c.pos).Some? ==>
      var r, h := ReadRecord(s, meta, expected, c), Header(s, expected, c.pos).value;
      var c' := c.(pos := h.next);
      (h.value == "stop" ==> r.Some? && r.value.record.Stop? && r.value.after == c') &&
      (h.value == "if" ==> r == ReadBranch(s, meta, h.next, c')) &&
      (h.value != "stop" && h.value != "if" ==> r == ReadAssignment(s, meta, h.value, h.next, c'))
  {
  }

  /**
   * What one record does to the state the read loop threads through:
   * a label other than the expected one is rejected; `stop` is recognised by
   * its token and changes nothing; the table keeps every id it had and gains
   * at most one name (the right-hand side of an assignment is only looked
   * up); the table stays dense; the largest goto label never decreases.
   */
  lemma RecordEffect(s: string, meta: bool, expected: int, c: Cursor)
    requires c.pos <= |s|
    ensures var r := ReadRecord(s, meta, expected, c);
      (IntAt(s, c.pos).None? || IntAt(s, c.pos).value.value != expected ==> r.None?) &&
      (r.Some? ==>
        Header(s, expected, c.pos).Some? &&
        (r.value.record.Stop? <==> Header(s, expected, c.pos).value.value == "stop") &&
        c.maxGoto <= r.value.after.maxGoto &&
        TableGrows(c.vars, r.value.after.vars) &&
        (Dense(c.vars) ==> Dense(r.value.after.vars)) &&
        (r.value.record.Stop? ==> r.value.after.vars == c.vars && r.value.after.maxGoto == c.maxGoto))
  {
    RecordDispatch(s, meta, expected, c);
    match Header(s, expected, c.pos)
    case None =>
    case Some(h) =>
      var c' := c.(pos := h.next);
      if h.value == "if" {
        BranchEffect(s, meta, h.next, c');
      } else if h.value != "stop" {
        AssignmentRecord(s, meta, h.value, h.next, c');
      }
  }

  /**
   * What the read loop needs of the instruction of one record read from the
   * cursor `c` (a stop record or a rejection asks nothing): its register is
   * one of the table's when the table was dense, a constant fits in an
   * `int`, and the largest goto label becomes the largest of the old one and
   * both stored jumps plus one for a branch, and stays as it was for any
   * other instruction.
   */
  ghost predicate KeepsTrack(c: Cursor, r: Option<Parsed>) {
    r.Some? && r.value.record.Instruction? ==>
      var i := r.value.record.instr;
      (Dense(c.vars) ==> i.variable < |r.value.after.vars|) &&
      (i.Assignment? ==> i.value <= IntMax) &&
      (i.ConditionalGoto? ==> r.value.after.maxGoto == Max(Max(c.maxGoto, i.x + 1), i.y + 1)) &&
      (!i.ConditionalGoto? ==> r.value.after.maxGoto == c.maxGoto)
  }

  /**
   * The instruction of one record: registers are named by table ids,
   * constants fit in an `int`, and the largest goto label becomes the
   * largest of the old one and both labels of a branch, and stays as it was
   * for any other instruction.
   */
  lemma RecordInstruction(s: string, meta: bool, expected: int, c: Cursor)
    requires c.pos <= |s|
    ensures KeepsTrack(c, ReadRecord(s, meta, expected, c))
  {
    var h := Header(s, expected, c.pos);
    if h.Some? {
      BodyInstruction(s, meta, h.value.value, h.value.next, c.(pos := h.value.next));
    }
  }

  /** `RecordInstruction` for the body after the header, whatever its first token. */
  lemma BodyInstruction(s: string, meta: bool, kind: string, p: nat, c: Cursor)
    requires p <= |s|
    ensures KeepsTrack(c, RecordBody(s, meta, kind, p, c))
  {
    BranchInstruction(s, meta, p, c);
    AssignmentInstruction(s, meta, kind, p, c);
  }

  /**
   * The instruction of an `if` record: a branch on a register of the table,
   * raising the largest goto label to the largest of the old one and both
   * stored jumps plus one.
   */
  lemma BranchInstruction(s: string, meta: bool, p: nat, c: Cursor)
    requires p <= |s|
    ensures KeepsTrack(c, ReadBranch(s, meta, p, c))
    ensures var r := ReadBranch(s, meta, p, c); r.Some? ==> r.value.record.instr.ConditionalGoto?
  {
    BranchEffect(s, meta, p, c);
  }

  /**
   * The instruction of an assignment-family record: not a branch, on a
   * register of the table, with any constant within `int`, and the largest
   * goto label unchanged.
   */
  lemma AssignmentInstruction(s: string, meta: bool, lhs: string, p: nat, c: Cursor)
    requires p <= |s|
    ensures KeepsTrack(c, ReadAssignment(s, meta, lhs, p, c))
    ensures var r := ReadAssignment(s, meta, lhs, p, c); r.Some? ==> !r.value.record.instr.ConditionalGoto?
  {
    AssignmentRecord(s, meta, lhs, p, c);
  }

  /** The outcome of reading a whole program text. */
  datatype ProgramResult =
    | Accepted(instructions: seq<Instr>, vars: map<string, nat>)
    | Malformed(failedAt: nat)
    | JumpOutOfRange(maxGoto: int)

  /**
   * Where the read loop of `main` ends: at a record it cannot read (its
   * label, the instructions read before it, and where it starts), or at
   * `stop`.
   */
  datatype Scan =
    | Broken(failedLabel: nat, read: seq<Instr>, at: Cursor)
    | Stopped(instructions: seq<Instr>, stopLabel: nat, after: Cursor)

  /**
   * The read loop of `main` (urm.cpp:305-315) from the record labelled
   * `currentLabel` on, with the instructions read so far in `acc`. It stops
   * at the first record it cannot read, or at `stop`, whose label is one
   * past the last instruction.
   */
  function ReadRecords(s: string, meta: bool, currentLabel: nat, c: Cursor, acc: seq<Instr>): (r: Scan)
    requires c.pos <= |s|
    ensures r.Broken? ==> acc <= r.read && r.failedLabel == currentLabel + |r.read| - |acc| && r.at.pos <= |s|
    ensures r.Stopped? ==> acc <= r.instructions && r.stopLabel == currentLabel + |r.instructions| - |acc|
    decreases |s| - c.pos
  {
    var r := ReadRecord(s, meta, currentLabel, c);
    if r.None? then Broken(currentLabel, acc, c)
    else if r.value.record.Stop? then Stopped(acc, currentLabel, r.value.after)
    else ReadRecords(s, meta, currentLabel + 1, r.value.after, acc + [r.value.record.instr])
  }

  /**
   * A whole program (urm.cpp:289-324): labels from 1, an empty table and
   * `maxGoto` starting at 1, the read loop, then the jump check against the
   * label of `stop`. Labels count from 1, so a rejected record has a label
   * of at least 1, and a jump out of range names a label past the `stop`
   * record, which is at least 2.
   */
  function ReadProgram(s: string, meta: bool): (r: ProgramResult)
    ensures r.Malformed? ==> r.failedAt >= 1
    ensures r.JumpOutOfRange? ==> r.maxGoto >= 2
  {
    match ReadRecords(s, meta, 1, Cursor(0, map[], 1), [])
    case Broken(failedLabel, _, _) => Malformed(failedLabel)
    case Stopped(instructions, stopLabel, after) =>
      if after.maxGoto > stopLabel then JumpOutOfRange(after.maxGoto) else Accepted(instructions, after.vars)
  }

  /** One turn of the read loop: an instruction record is appended and the next label is read. */
  lemma RecordsNext(s: string, meta: bool, currentLabel: nat, c: Cursor, acc: seq<Instr>)
    requires c.pos <= |s|
    requires ReadRecord(s, meta, currentLabel, c).Some? && ReadRecord(s, meta, currentLabel, c).value.record.Instruction?
    ensures var r := ReadRecord(s, meta, currentLabel, c).value;
      ReadRecords(s, meta, currentLabel, c, acc) == ReadRecords(s, meta, currentLabel + 1, r.after, acc + [r.record.instr])
  {
  }

  /**
   * The end of `main`'s read loop at the record labelled `currentLabel`,
   * once every earlier record was read into `acc`: a record that cannot be
   * read makes the program `Malformed` with that label; `stop` leads to the
   * jump check against that label.
   */
  lemma ProgramOfScan(s: string, meta: bool, currentLabel: nat, c: Cursor, acc: seq<Instr>)
    requires c.pos <= |s|
    requires ReadRecords(s, meta, 1, Cursor(0, map[], 1), []) == ReadRecords(s, meta, currentLabel, c, acc)
    ensures var r, rr := ReadProgram(s, meta), ReadRecord(s, meta, currentLabel, c);
      (rr.None? ==> r == Malformed(currentLabel)) &&
      (rr.Some? && rr.value.record.Stop? ==>
        var after := rr.value.after;
        r == if after.maxGoto > currentLabel then JumpOutOfRange(after.maxGoto) else Accepted(acc, after.vars))
  {
  }

  /** The largest label the branches of `p` name, and 1 when `p` has no branch. */
  function MaxLabel(p: seq<Instr>): (m: int)
    ensures m >= 1
  {
    if p == [] then 1
    else
      var last, m := p[|p| - 1], MaxLabel(p[..|p| - 1]);
      if last.ConditionalGoto? then Max(Max(m, last.x + 1), last.y + 1) else m
  }

  /** Every branch of `p` jumps to an instruction index below `n`. */
  predicate JumpsWithin(p: seq<Instr>, n: int) {
    forall k | 0 <= k < |p| :: p[k].ConditionalGoto? ==> p[k].x < n && p[k].y < n
  }

  /** The largest label is at most `n` exactly when every branch jumps below `n`. */
  lemma {:induction false} MaxLabelBound(p: seq<Instr>, n: int)
    requires n >= 1
    ensures MaxLabel(p) <= n <==> JumpsWithin(p, n)
  {
    if p != [] {
      var q := p[..|p| - 1];
      MaxLabelBound(q, n);
      assert forall k | 0 <= k < |q| :: q[k] == p[k];
    }
  }

  /**
   * What the read loop keeps true of the instructions read so far, given the
   * size of the table: registers of the table, constants within `int`.
   */
  ghost predicate ReadSoFar(acc: seq<Instr>, nvars: nat) {
    forall k | 0 <= k < |acc| :: acc[k].variable < nvars && (acc[k].Assignment? ==> acc[k].value <= IntMax)
  }

  lemma ReadSoFarGrows(acc: seq<Instr>, i: Instr, nvars: nat, nvars': nat)
    requires ReadSoFar(acc, nvars) && nvars <= nvars'
    requires i.variable < nvars' && (i.Assignment? ==> i.value <= IntMax)
    ensures ReadSoFar(acc + [i], nvars')
  {
  }

  /** No jump past the `stop` record, registers of the table and constants within `int`: well formed. */
  lemma ReadSoFarWellFormed(acc: seq<Instr>, nvars: nat)
    requires ReadSoFar(acc, nvars) && JumpsWithin(acc, |acc| + 1)
    ensures WellFormed(acc, nvars)
  {
  }

  /**
   * The read loop keeps `maxGoto` equal to the largest label of the
   * instructions read so far (and at least 1), keeps the table dense, and
   * reads only instructions over registers of the table.
   */
  lemma {:induction false} RecordsTrack(s: string, meta: bool, currentLabel: nat, c: Cursor, acc: seq<Instr>)
    requires c.pos <= |s| && c.maxGoto == MaxLabel(acc) && Dense(c.vars) && ReadSoFar(acc, |c.vars|)
    ensures var r := ReadRecords(s, meta, currentLabel, c, acc);
      r.Stopped? ==>
        r.after.maxGoto == MaxLabel(r.instructions) && Dense(r.after.vars) &&
        ReadSoFar(r.instructions, |r.after.vars|)
    decreases |s| - c.pos, 1
  {
    var r := ReadRecord(s, meta, currentLabel, c);
    if r.Some? {
      match r.value.record
      case Stop =>
        RecordEffect(s, meta, currentLabel, c);
      case Instruction(i) =>
        RecordsTrackNext(s, meta, currentLabel, c, acc);
    }
  }

  /** `RecordsTrack` past one instruction record. */
  lemma {:induction false} RecordsTrackNext(s: string, meta: bool, currentLabel: nat, c: Cursor, acc: seq<Instr>)
    requires c.pos <= |s| && c.maxGoto == MaxLabel(acc) && Dense(c.vars) && ReadSoFar(acc, |c.vars|)
    requires ReadRecord(s, meta, currentLabel, c).Some? && ReadRecord(s, meta, currentLabel, c).value.record.Instruction?
    ensures var p := ReadRecord(s, meta, currentLabel, c).value;
      var r := ReadRecords(s, meta, currentLabel + 1, p.after, acc + [p.record.instr]);
      r.Stopped? ==>
        r.after.maxGoto == MaxLabel(r.instructions) && Dense(r.after.vars) &&
        ReadSoFar(r.instructions, |r.after.vars|)
    decreases |s| - c.pos, 0
  {
    var p := ReadRecord(s, meta, currentLabel, c).value;
    RecordEffect(s, meta, currentLabel, c);
    RecordInstruction(s, meta, currentLabel, c);
    TrackStep(acc, p.record.instr, c, p.after);
    RecordsTrack(s, meta, currentLabel + 1, p.after, acc + [p.record.instr]);
  }

  /** One instruction read: what `RecordsTrack` keeps holds for the longer prefix. */
  lemma TrackStep(acc: seq<Instr>, i: Instr, c: Cursor, after: Cursor)
    requires c.maxGoto == MaxLabel(acc) && Dense(c.vars) && ReadSoFar(acc, |c.vars|)
    requires TableGrows(c.vars, after.vars) && Dense(after.vars)
    requires i.variable < |after.vars| && (i.Assignment? ==> i.value <= IntMax)
    requires i.ConditionalGoto? ==> after.maxGoto == Max(Max(c.maxGoto, i.x + 1), i.y + 1)
    requires !i.ConditionalGoto? ==> after.maxGoto == c.maxGoto
    ensures after.maxGoto == MaxLabel(acc + [i]) && ReadSoFar(acc + [i], |after.vars|)
  {
    assert (acc + [i])[..|acc|] == acc;
    ReadSoFarGrows(acc, i, |c.vars|, |after.vars|);
  }

  /**
   * The label a broken read loop reports is that of the first record it
   * cannot read: `ReadRecord` rejects that label at the place the loop had
   * reached, after reading every earlier record as an instruction.
   */
  lemma {:induction false} BrokenAtBadRecord(s: string, meta: bool, currentLabel: nat, c: Cursor, acc: seq<Instr>)
    requires c.pos <= |s|
    ensures var r := ReadRecords(s, meta, currentLabel, c, acc);
      r.Broken? ==> ReadRecord(s, meta, r.failedLabel, r.at).None?
    decreases |s| - c.pos
  {
    var r := ReadRecord(s, meta, currentLabel, c);
    if r.Some? && r.value.record.Instruction? {
      BrokenAtBadRecord(s, meta, currentLabel + 1, r.value.after, acc + [r.value.record.instr]);
    }
  }

  /**
   * The jump check of `main` (urm.cpp:321): when the read loop reaches `stop`
   * after the instructions `p`, the label of `stop` is `|p| + 1` and
   * `maxGoto` is the largest label of `p`; the program is then rejected
   * exactly when a branch of `p` jumps past the `stop` record, and accepted
   * with `p` otherwise. A record that cannot be read is reported by its
   * label, one past the instructions read before it.
   */
  lemma JumpCheck(s: string, meta: bool)
    ensures var scan, r := ReadRecords(s, meta, 1, Cursor(0, map[], 1), []), ReadProgram(s, meta);
      (scan.Broken? <==> r.Malformed?) &&
      (scan.Broken? ==>
        r.failedAt == scan.failedLabel == |scan.read| + 1 &&
        ReadRecord(s, meta, r.failedAt, scan.at).None?) &&
      (scan.Stopped? ==>
        var p := scan.instructions;
        scan.stopLabel == |p| + 1 && scan.after.maxGoto == MaxLabel(p) &&
        (r.Accepted? <==> JumpsWithin(p, |p| + 1)) &&
        (r.JumpOutOfRange? <==> !JumpsWithin(p, |p| + 1)) &&
        (r.Accepted? ==> r.instructions == p && r.vars == scan.after.vars))
  {
    var scan := ReadRecords(s, meta, 1, Cursor(0, map[], 1), []);
    RecordsTrack(s, meta, 1, Cursor(0, map[], 1), []);
    BrokenAtBadRecord(s, meta, 1, Cursor(0, map[], 1), []);
    if scan.Stopped? {
      MaxLabelBound(scan.instructions, |scan.instructions| + 1);
    }
  }

  /** Every program `main` accepts is one `URM::run` can execute safely. */
  lemma AcceptedIsWellFormed(s: string, meta: bool)
    ensures var r := ReadProgram(s, meta);
      r.Accepted? ==> WellFormed(r.instructions, |r.vars|) && Dense(r.vars)
  {
    var scan, r := ReadRecords(s, meta, 1, Cursor(0, map[], 1), []), ReadProgram(s, meta);
    JumpCheck(s, meta);
    RecordsTrack(s, meta, 1, Cursor(0, map[], 1), []);
    if r.Accepted? {
      assert scan.Stopped? && JumpsWithin(scan.instructions, |scan.instructions| + 1);
      ReadSoFarWellFormed(scan.instructions, |scan.after.vars|);
      assert r.instructions == scan.instructions && r.vars == scan.after.vars;
    }
  }
}
