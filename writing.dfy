/**
 * Records as a program writes them, and the round trips of the reader: the
 * text of a record's parts, read back by the grammar of `readInstruction`
 * (urm.cpp:176-282), gives the values it was written from.
 */
module Writing {
  import opened Wrappers
  import opened Instructions
  import opened Lexer
  import opened Naturaliser
  import opened Grammar

  /** The text `w` stands in `s` at position `p`. */
  ghost predicate At(s: string, p: nat, w: string) {
    p + |w| <= |s| && s[p..p + |w|] == w
  }

  /** Text made of two parts stands in `s` part after part. */
  lemma AtSplit(s: string, p: nat, a: string, b: string)
    requires At(s, p, a + b)
    ensures At(s, p, a) && At(s, p + |a|, b)
  {
    SliceOfSlice(s, p, p + |a + b|, 0, |a|);
    SliceOfSlice(s, p, p + |a + b|, |a|, |a + b|);
    assert (a + b)[0..|a|] == a && (a + b)[|a|..] == b;
  }

  /** The first character of text that stands in `s`. */
  lemma AtFirst(s: string, p: nat, w: string)
    requires At(s, p, w) && 0 < |w|
    ensures s[p] == w[0]
  {
    assert s[p..p + |w|][0] == s[p];
  }

  /** The character right after a text: whitespace, or the end of the input. */
  predicate SpaceOrEnd(s: string, e: nat) {
    e == |s| || (e < |s| && IsSpace(s[e] as int))
  }

  /** A space, then `word`, then whitespace or the end: the keyword is read. */
  lemma KeywordOfText(s: string, p: nat, word: string)
    requires 0 < |word| && forall k | 0 <= k < |word| :: !IsSpace(word[k] as int)
    requires At(s, p, " " + word) && SpaceOrEnd(s, p + 1 + |word|)
    ensures Keyword(s, p, word) == Some(p + 1 + |word|)
  {
    AtSplit(s, p, " ", word);
    AtFirst(s, p, " ");
    TokenOfText(s, p, p + 1, word);
  }

  /** A space, then the numeral of `n`, then a non-digit or the end: `n` is read. */
  lemma NumberOfText(s: string, p: nat, n: nat)
    requires n <= IntMax && At(s, p, " " + Decimal(n))
    requires p + 1 + |Decimal(n)| == |s| || !IsDigit(s[p + 1 + |Decimal(n)|])
    ensures IntAt(s, p) == Some(Scanned(n as int, p + 1 + |Decimal(n)|))
  {
    var e := p + 1 + |Decimal(n)|;
    NumeralOfText(s, p, n, e);
    IntOfDigits(s, p, "", n, p + 1, e);
  }

  /** A space, then the numeral of `n` ending at `e`: where the reader's digits start and end. */
  lemma NumeralOfText(s: string, p: nat, n: nat, e: nat)
    requires e == p + 1 + |Decimal(n)| && At(s, p, " " + Decimal(n))
    requires e == |s| || !IsDigit(s[e])
    ensures p + 1 < |s| && SkipSpace(s, p) == p + 1 && IsDigit(s[p + 1])
    ensures DigitsEnd(s, p + 1) == e && DigitsValue(DigitRun(s, p + 1)) == n
  {
    AtSplit(s, p, " ", Decimal(n));
    AtFirst(s, p, " ");
    AtFirst(s, p + 1, Decimal(n));
    SkipSpaceTo(s, p, p + 1);
    DigitsOfText(s, p + 1, n);
  }

  /** The text of the targets of a branch record, as a program writes them. */
  function TargetsText(label1: nat, label2: nat): string {
    " goto " + Decimal(label1) + " else goto " + Decimal(label2)
  }

  /** Targets' text with numerals `a` and `b`, cut where the reader's extractions end. */
  lemma TargetsTextParts(s: string, p: nat, a: string, b: string)
    requires At(s, p, " goto " + a + " else goto " + b)
    ensures |" goto " + a + " else goto " + b| == 17 + |a| + |b|
    ensures At(s, p, " goto") && At(s, p + 5, " " + a)
    ensures var e1 := p + 6 + |a|; At(s, e1, " else") && At(s, e1 + 5, " goto") && At(s, e1 + 10, " " + b)
  {
    var n1, n2 := " " + a, " " + b;
    assert " goto " + a + " else goto " + b == " goto" + n1 + " else" + " goto" + n2;
    AtSplit(s, p, " goto" + n1 + " else" + " goto", n2);
    AtSplit(s, p, " goto" + n1 + " else", " goto");
    AtSplit(s, p, " goto" + n1, " else");
    AtSplit(s, p, " goto", n1);
  }

  /**
   * Round trip: the targets written out are read back as they were written,
   * the first as the first and the second as the second, when whitespace or
   * the end of the input follows them.
   */
  lemma TargetsOfText(s: string, p: nat, label1: nat, label2: nat)
    requires label1 <= IntMax && label2 <= IntMax
    requires At(s, p, TargetsText(label1, label2)) && SpaceOrEnd(s, p + |TargetsText(label1, label2)|)
    ensures ReadTargets(s, p).Some? && ReadTargets(s, p).value.first == label1 && ReadTargets(s, p).value.second == label2
    ensures ReadTargets(s, p).value.next == p + |TargetsText(label1, label2)|
  {
    TargetsTextParts(s, p, Decimal(label1), Decimal(label2));
    var e1 := p + 6 + |Decimal(label1)|;
    TargetsOfParts(s, p, label1, label2, e1, p + |TargetsText(label1, label2)|);
  }

  /** `ReadTargets` on the five parts of the targets' text, the first label ending at `e1`. */
  lemma TargetsOfParts(s: string, p: nat, label1: nat, label2: nat, e1: nat, e2: nat)
    requires label1 <= IntMax && label2 <= IntMax
    requires e1 == p + 6 + |Decimal(label1)| && e2 == e1 + 11 + |Decimal(label2)|
    requires At(s, p, " goto") && At(s, p + 5, " " + Decimal(label1))
    requires At(s, e1, " else") && At(s, e1 + 5, " goto") && At(s, e1 + 10, " " + Decimal(label2))
    requires SpaceOrEnd(s, e2)
    ensures ReadTargets(s, p) == Some(Targets(label1, label2, e2))
  {
    SecondTarget(s, e1, label2, e2);
    AtFirst(s, e1, " else");
    FirstTarget(s, p, label1, e1);
    TargetsChain(s, p, label1, label2, e1, e2);
  }

  /** ` goto <label1>` followed by a space: the keyword and then the label are read. */
  lemma FirstTarget(s: string, p: nat, label1: nat, e1: nat)
    requires label1 <= IntMax && e1 == p + 6 + |Decimal(label1)|
    requires At(s, p, " goto") && At(s, p + 5, " " + Decimal(label1)) && e1 < |s| && s[e1] == ' '
    ensures Keyword(s, p, "goto") == Some(p + 5)
    ensures IntAt(s, p + 5) == Some(Scanned(label1 as int, e1))
  {
    AtFirst(s, p + 5, " " + Decimal(label1));
    KeywordOfText(s, p, "goto");
    NumberOfText(s, p + 5, label1);
  }

  /** ` else goto <label2>` followed by whitespace or the end: both keywords and the label are read. */
  lemma SecondTarget(s: string, e1: nat, label2: nat, e2: nat)
    requires label2 <= IntMax && e2 == e1 + 11 + |Decimal(label2)|
    requires At(s, e1, " else") && At(s, e1 + 5, " goto") && At(s, e1 + 10, " " + Decimal(label2))
    requires SpaceOrEnd(s, e2)
    ensures Keyword(s, e1, "else") == Some(e1 + 5)
    ensures Keyword(s, e1 + 5, "goto") == Some(e1 + 10)
    ensures IntAt(s, e1 + 10) == Some(Scanned(label2 as int, e2))
  {
    AtFirst(s, e1 + 5, " goto");
    AtFirst(s, e1 + 10, " " + Decimal(label2));
    KeywordOfText(s, e1, "else");
    KeywordOfText(s, e1 + 5, "goto");
    NumberOfText(s, e1 + 10, label2);
  }

  /** `ReadTargets` from the results of its five extractions, a step of `TargetsOfParts`. */
  lemma TargetsChain(s: string, p: nat, label1: int, label2: int, e1: nat, e2: nat)
    requires p + 5 <= |s| && e1 + 10 <= |s|
    requires Keyword(s, p, "goto") == Some(p + 5)
    requires IntAt(s, p + 5) == Some(Scanned(label1, e1))
    requires Keyword(s, e1, "else") == Some(e1 + 5)
    requires Keyword(s, e1 + 5, "goto") == Some(e1 + 10)
    requires IntAt(s, e1 + 10) == Some(Scanned(label2, e2))
    ensures ReadTargets(s, p) == Some(Targets(label1, label2, e2))
  {
    ElseChain(s, e1, label2, e2);
  }

  /** `ReadElse` from the results of its three extractions, a step of `TargetsChain`. */
  lemma ElseChain(s: string, e1: nat, label2: int, e2: nat)
    requires e1 + 10 <= |s|
    requires Keyword(s, e1, "else") == Some(e1 + 5)
    requires Keyword(s, e1 + 5, "goto") == Some(e1 + 10)
    requires IntAt(s, e1 + 10) == Some(Scanned(label2, e2))
    ensures ReadElse(s, e1) == Some(Scanned(label2, e2))
  {
  }
}
