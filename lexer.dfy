/**
 * The input stream the parser reads from, and what the standard stream
 * extractions it uses do: `stream >> token` into a `std::string`,
 * `stream >> n` into an `int`, and `stream.get()`.
 */
module Lexer {
  import opened Wrappers
  import opened Instructions

  /** What `get()` returns at end of input. */
  const Eof: int := -1

  /** `isspace` in the "C" locale: space, tab, newline, vertical tab, form feed, carriage return. */
  predicate IsSpace(c: int) {
    c == ' ' as int || '\t' as int <= c <= '\r' as int
  }

  predicate IsDigit(ch: char) {
    '0' <= ch <= '9'
  }

  /** The character code at `p`, or `Eof` past the end. */
  function CodeAt(s: string, p: nat): (c: int)
    ensures c == Eof <==> p >= |s|
  {
    if p < |s| then s[p] as int else Eof
  }

  /** A value read from the input and the position just after it. */
  datatype Scanned<T> = Scanned(value: T, next: nat)

  /** The first position at or after `p` that is not whitespace. */
  function SkipSpace(s: string, p: nat): (q: nat)
    requires p <= |s|
    ensures p <= q <= |s|
    ensures forall k {:trigger IsSpace(s[k] as int)} | p <= k < q :: IsSpace(s[k] as int)
    ensures q == |s| || !IsSpace(s[q] as int)
    decreases |s| - p
  {
    if p < |s| && IsSpace(s[p] as int) then SkipSpace(s, p + 1) else p
  }

  /** The end of the run of non-whitespace characters starting at `p`. */
  function WordEnd(s: string, p: nat): (q: nat)
    requires p <= |s|
    ensures p <= q <= |s|
    ensures forall k {:trigger IsSpace(s[k] as int)} | p <= k < q :: !IsSpace(s[k] as int)
    ensures q == |s| || IsSpace(s[q] as int)
    decreases |s| - p
  {
    if p < |s| && !IsSpace(s[p] as int) then WordEnd(s, p + 1) else p
  }

  /** The end of the run of decimal digits starting at `p`. */
  function DigitsEnd(s: string, p: nat): (q: nat)
    requires p <= |s|
    ensures p <= q <= |s|
    ensures forall k {:trigger IsDigit(s[k])} | p <= k < q :: IsDigit(s[k])
    ensures q == |s| || !IsDigit(s[q])
    decreases |s| - p
  {
    if p < |s| && IsDigit(s[p]) then DigitsEnd(s, p + 1) else p
  }

  /** The run of decimal digits starting at `d`: digits only, as long as `DigitsEnd` says. */
  function DigitRun(s: string, d: nat): (r: string)
    requires d <= |s|
    ensures |r| == DigitsEnd(s, d) - d
    ensures forall k | 0 <= k < |r| :: IsDigit(r[k])
  {
    var e := DigitsEnd(s, d);
    assert forall k | 0 <= k < e - d :: s[d..e][k] == s[d + k];
    s[d..e]
  }

  /** The value of a string of decimal digits, most significant first. */
  function DigitsValue(d: string): (n: nat)
    requires forall k | 0 <= k < |d| :: IsDigit(d[k])
  {
    if d == [] then 0
    else
      assert IsDigit(d[|d| - 1]);
      DigitsValue(d[..|d| - 1]) * 10 + (d[|d| - 1] as int - '0' as int)
  }

  /**
   * `stream >> token`: skip whitespace, then take the longest run of
   * non-whitespace characters; fails when only whitespace is left.
   */
  function TokenAt(s: string, p: nat): (r: Option<Scanned<string>>)
    requires p <= |s|
    ensures r.Some? ==> p < r.value.next <= |s|
  {
    var q := SkipSpace(s, p);
    if q == |s| then None else Some(Scanned(s[q..WordEnd(s, q)], WordEnd(s, q)))
  }

  /**
   * `>> token` fails exactly when only whitespace is left; otherwise the
   * token is non-empty, holds no whitespace, is preceded only by whitespace
   * and is followed by whitespace or the end of the input.
   */
  lemma TokenAtIsMaximalRun(s: string, p: nat)
    requires p <= |s|
    ensures var r := TokenAt(s, p);
      (r.None? <==> forall k | p <= k < |s| :: IsSpace(s[k] as int)) &&
      (r.Some? ==>
        var t, e := r.value.value, r.value.next;
        0 < |t| <= e - p && t == s[e - |t|..e] &&
        (forall k | p <= k < e - |t| :: IsSpace(s[k] as int)) &&
        (forall k | 0 <= k < |t| :: !IsSpace(t[k] as int)) &&
        (e == |s| || IsSpace(s[e] as int)))
  {
  }

  /**
   * `stream >> n` for an `int` n: skip whitespace, an optional sign, then
   * one or more decimal digits; fails when there is no digit or when the
   * value does not fit in an `int`.
   */
  function IntAt(s: string, p: nat): (r: Option<Scanned<int>>)
    requires p <= |s|
    ensures r.Some? ==> p < r.value.next <= |s| && IntMin <= r.value.value <= IntMax
    ensures r.Some? ==> IsDigit(s[r.value.next - 1]) && (r.value.next == |s| || !IsDigit(s[r.value.next]))
    ensures r.Some? && r.value.value < 0 ==> SkipSpace(s, p) < |s| && s[SkipSpace(s, p)] == '-'
  {
    var q := SkipSpace(s, p);
    var negative := q < |s| && s[q] == '-';
    var d := if q < |s| && (s[q] == '-' || s[q] == '+') then q + 1 else q;
    var e := DigitsEnd(s, d);
    if e == d then None
    else
      var magnitude: int := DigitsValue(DigitRun(s, d));
      var v: int := if negative then -magnitude else magnitude;
      if IntMin <= v <= IntMax then Some(Scanned(v, e)) else None
  }

  /**
   * The constant of an assignment: a `stringstream` over the whole token,
   * read as an `int`, with no character left unread (urm.cpp:267-272).
   */
  function Constant(t: string): (r: Option<int>)
    ensures r.Some? ==> IntMin <= r.value <= IntMax && |t| > 0 && IsDigit(t[|t| - 1])
  {
    match IntAt(t, 0)
    case Some(n) => if n.next == |t| then Some(n.value) else None
    case None => None
  }

  /** The decimal numeral of `n`, most significant digit first, without leading zeros. */
  function Decimal(n: nat): (d: string)
    ensures 0 < |d| && forall k | 0 <= k < |d| :: IsDigit(d[k])
    decreases n
  {
    var last := [('0' as int + n % 10) as char];
    if n < 10 then last else Decimal(n / 10) + last
  }

  /** Reading a numeral back gives the number it was written from. */
  lemma {:induction false} DecimalValue(n: nat)
    ensures DigitsValue(Decimal(n)) == n
    decreases n
  {
    var d := Decimal(n);
    if n >= 10 {
      DecimalValue(n / 10);
      assert d[..|d| - 1] == Decimal(n / 10);
    }
  }

  /**
   * An assignment constant written as the numeral of a non-negative `int`
   * reads back as that number: the round trip of the constant reader.
   */
  lemma ConstantOfDecimal(n: nat)
    requires n <= IntMax
    ensures Constant(Decimal(n)) == Some(n)
  {
    var d := Decimal(n);
    DecimalValue(n);
    assert SkipSpace(d, 0) == 0;
    assert DigitsEnd(d, 0) == |d|;
    assert d[0..|d|] == d;
  }

  /** Skipping whitespace stops at the first non-whitespace character. */
  lemma {:induction false} SkipSpaceTo(s: string, p: nat, q: nat)
    requires p <= q <= |s|
    requires forall k | p <= k < q :: IsSpace(s[k] as int)
    requires q == |s| || !IsSpace(s[q] as int)
    ensures SkipSpace(s, p) == q
    decreases q - p
  {
    if p < q {
      SkipSpaceTo(s, p + 1, q);
    }
  }

  /** A run of non-whitespace characters ends at the first whitespace character. */
  lemma {:induction false} WordEndTo(s: string, p: nat, q: nat)
    requires p <= q <= |s|
    requires forall k | p <= k < q :: !IsSpace(s[k] as int)
    requires q == |s| || IsSpace(s[q] as int)
    ensures WordEnd(s, p) == q
    decreases q - p
  {
    if p < q {
      WordEndTo(s, p + 1, q);
    }
  }

  /** A run of digits ends at the first non-digit. */
  lemma {:induction false} DigitsEndTo(s: string, p: nat, q: nat)
    requires p <= q <= |s|
    requires forall k | p <= k < q :: IsDigit(s[k])
    requires q == |s| || !IsDigit(s[q])
    ensures DigitsEnd(s, p) == q
    decreases q - p
  {
    if p < q {
      DigitsEndTo(s, p + 1, q);
    }
  }

  /**
   * `>> token` on whitespace, then a word `w` without whitespace, then
   * whitespace or the end of the input, reads exactly `w`.
   */
  lemma TokenOfText(s: string, p: nat, q: nat, w: string)
    requires p <= q && q + |w| <= |s| && 0 < |w|
    requires forall k | p <= k < q :: IsSpace(s[k] as int)
    requires s[q..q + |w|] == w && forall k | 0 <= k < |w| :: !IsSpace(w[k] as int)
    requires q + |w| == |s| || IsSpace(s[q + |w|] as int)
    ensures TokenAt(s, p) == Some(Scanned(w, q + |w|))
  {
    assert s[q] == w[0];
    SkipSpaceTo(s, p, q);
    forall k | q <= k < q + |w|
      ensures !IsSpace(s[k] as int)
    {
      assert s[k] == w[k - q];
    }
    WordEndTo(s, q, q + |w|);
  }

  /** The numeral of `n` at `d`, followed by a non-digit or the end, is a digit run of value `n`. */
  lemma DigitsOfText(s: string, d: nat, n: nat)
    requires d + |Decimal(n)| <= |s| && s[d..d + |Decimal(n)|] == Decimal(n)
    requires d + |Decimal(n)| == |s| || !IsDigit(s[d + |Decimal(n)|])
    ensures DigitsEnd(s, d) == d + |Decimal(n)| && DigitsValue(DigitRun(s, d)) == n
  {
    var t := Decimal(n);
    forall k | d <= k < d + |t|
      ensures IsDigit(s[k])
    {
      assert s[k] == t[k - d];
    }
    DigitsEndTo(s, d, d + |t|);
    DecimalValue(n);
  }

  /** A slice of a slice is a slice of the whole. */
  lemma SliceOfSlice(s: string, p: nat, q: nat, a: nat, b: nat)
    requires p <= q <= |s| && a <= b <= q - p
    ensures s[p..q][a..b] == s[p + a..p + b]
  {
    assert |s[p..q][a..b]| == b - a;
    forall k | 0 <= k < b - a
      ensures s[p..q][a..b][k] == s[p + a..p + b][k]
    {
    }
  }

  /** What a sign written before a numeral does to its value: `-` negates, `+` and no sign do not. */
  function Signed(sign: string, n: nat): int {
    if sign == "-" then -(n as int) else n
  }

  /**
   * `>> n` on whitespace, an optional sign (`-` or `+`), the numeral of `n`
   * and then a non-digit or the end of the input, reads `n` (`-n` after a
   * `-`) and stops just after the numeral, provided the value fits in an
   * `int`.
   */
  lemma IntOfText(s: string, p: nat, q: nat, sign: string, n: nat)
    requires p <= q <= |s| && sign in {"", "-", "+"}
    requires forall k | p <= k < q :: IsSpace(s[k] as int)
    requires var d := q + |sign|;
      d + |Decimal(n)| <= |s| && (sign != "" ==> s[q] == sign[0]) &&
      s[d..d + |Decimal(n)|] == Decimal(n) &&
      (d + |Decimal(n)| == |s| || !IsDigit(s[d + |Decimal(n)|]))
    requires IntMin <= Signed(sign, n) <= IntMax
    ensures IntAt(s, p) == Some(Scanned(Signed(sign, n), q + |sign| + |Decimal(n)|))
  {
    var d := q + |sign|;
    assert s[d] == s[d..d + |Decimal(n)|][0] == Decimal(n)[0];
    SkipSpaceTo(s, p, q);
    DigitsOfText(s, d, n);
    IntOfDigits(s, p, sign, n, q, d + |Decimal(n)|);
  }

  /**
   * `>> n` reads the digit run after the skipped whitespace (at `q`) and the
   * optional sign: its value, negated after a `-`, ending at `e`.
   */
  lemma IntOfDigits(s: string, p: nat, sign: string, n: nat, q: nat, e: nat)
    requires p <= |s| && q == SkipSpace(s, p) && sign in {"", "-", "+"}
    requires var d := q + |sign|;
      d < |s| && (sign != "" ==> s[q] == sign[0]) && IsDigit(s[d]) &&
      e == DigitsEnd(s, d) && DigitsValue(DigitRun(s, d)) == n
    requires IntMin <= Signed(sign, n) <= IntMax
    ensures IntAt(s, p) == Some(Scanned(Signed(sign, n), e))
  {
  }

  /**
   * What `>> n` reads, in both directions. After the skipped whitespace
   * (at `q`) and an optional sign, the digits start at `d`. The extraction
   * fails exactly when no digit stands at `d` or when the value of the
   * digit run, negated after a `-`, does not fit in an `int`. Otherwise it
   * gives that value and stops at the first non-digit after `d`.
   */
  lemma IntAtReads(s: string, p: nat)
    requires p <= |s|
    ensures var q := SkipSpace(s, p);
      var d := if q < |s| && (s[q] == '-' || s[q] == '+') then q + 1 else q;
      var e := DigitsEnd(s, d);
      var v := if q < |s| && s[q] == '-' then -(DigitsValue(DigitRun(s, d)) as int) else DigitsValue(DigitRun(s, d));
      (IntAt(s, p).None? <==> d == |s| || !IsDigit(s[d]) || v < IntMin || IntMax < v) &&
      (IntAt(s, p).Some? ==>
        IntAt(s, p).value.value == v && IntAt(s, p).value.next == e && d < e &&
        (forall k | d <= k < e :: IsDigit(s[k])) && (e == |s| || !IsDigit(s[e])))
  {
  }

  /** The length of the sign a numeral starts with: 1 for `-` or `+`, else 0. */
  function SignLength(t: string): (n: nat)
    ensures n <= 1 && (n == 1 <==> 0 < |t| && (t[0] == '-' || t[0] == '+'))
  {
    if 0 < |t| && (t[0] == '-' || t[0] == '+') then 1 else 0
  }

  /** An optional sign followed by one or more decimal digits, and nothing else. */
  predicate IsNumeral(t: string) {
    SignLength(t) < |t| && forall k | SignLength(t) <= k < |t| :: IsDigit(t[k])
  }

  /** The value a numeral denotes. */
  function NumeralValue(t: string): int
    requires IsNumeral(t)
  {
    var digits := t[SignLength(t)..];
    assert forall k | 0 <= k < |digits| :: digits[k] == t[SignLength(t) + k];
    if t[0] == '-' then -(DigitsValue(digits) as int) else DigitsValue(digits)
  }

  /**
   * The constant reader in both directions: after any leading whitespace,
   * the token must be an optional sign and one or more digits with nothing
   * after them, and its value must fit in an `int`; the constant is then
   * that value. So `X2`, `2X`, `+` and `5000000000` are all rejected.
   */
  lemma ConstantIsNumeral(t: string)
    ensures var u := t[SkipSpace(t, 0)..];
      (Constant(t).Some? <==> IsNumeral(u) && IntMin <= NumeralValue(u) <= IntMax) &&
      (Constant(t).Some? ==> IsNumeral(u) && Constant(t).value == NumeralValue(u))
  {
    var w := SkipSpace(t, 0);
    IntAtReads(t, 0);
    NumeralAt(t, w);
  }

  /**
   * The text from `w` on is a numeral exactly when, after its sign, digits
   * run from `d` to the end; its value is then that of the digit run.
   */
  lemma NumeralAt(t: string, w: nat)
    requires w <= |t|
    ensures var d := if w < |t| && (t[w] == '-' || t[w] == '+') then w + 1 else w;
      var u, e := t[w..], DigitsEnd(t, d);
      d == w + SignLength(u) &&
      (IsNumeral(u) <==> d < e && e == |t|) &&
      (IsNumeral(u) ==>
        NumeralValue(u) == if t[w] == '-' then -(DigitsValue(DigitRun(t, d)) as int) else DigitsValue(DigitRun(t, d)))
  {
    var u := t[w..];
    var d := if w < |t| && (t[w] == '-' || t[w] == '+') then w + 1 else w;
    if w < |t| {
      assert u[0] == t[w];
    }
    if IsNumeral(u) {
      NumeralRuns(t, w, d);
    } else if d < DigitsEnd(t, d) == |t| {
      RunsNumeral(t, w, d);
    }
  }

  /** A numeral from `w` on: its digits run from `d` to the end and give its value. */
  lemma NumeralRuns(t: string, w: nat, d: nat)
    requires w <= |t| && d == w + SignLength(t[w..]) && IsNumeral(t[w..])
    ensures d < |t| && DigitsEnd(t, d) == |t|
    ensures NumeralValue(t[w..]) == if t[w] == '-' then -(DigitsValue(DigitRun(t, d)) as int) else DigitsValue(DigitRun(t, d))
  {
    var u := t[w..];
    assert u[0] == t[w];
    forall k | d <= k < |t|
      ensures IsDigit(t[k])
    {
      assert t[k] == u[k - w];
    }
    DigitsEndTo(t, d, |t|);
    assert u[SignLength(u)..] == t[d..|t|];
  }

  /** Digits from `d`, after the sign at `w`, to the end: the text from `w` on is a numeral. */
  lemma RunsNumeral(t: string, w: nat, d: nat)
    requires w <= |t| && d == w + SignLength(t[w..]) && d < DigitsEnd(t, d) == |t|
    ensures IsNumeral(t[w..])
  {
    var u := t[w..];
    forall k | SignLength(u) <= k < |u|
      ensures IsDigit(u[k])
    {
      assert u[k] == t[w + k];
    }
  }

  /**
   * What `readCharacter(file, c)` (urm.cpp:161-172) accepts: read characters
   * one at a time; succeed at the first `c`, fail at the first character that
   * is neither `c` nor whitespace, or at end of input. On success, the
   * position just after the `c`.
   */
  function CharAfter(s: string, p: nat, c: char): (r: Option<nat>)
    requires p <= |s|
    ensures r.Some? ==> p < r.value <= |s| && s[r.value - 1] == c
    decreases |s| - p
  {
    if p == |s| then None
    else if s[p] == c then Some(p + 1)
    else if IsSpace(s[p] as int) then CharAfter(s, p + 1, c)
    else None
  }

  /**
   * For a `c` that is not itself whitespace, `readCharacter` succeeds exactly
   * when the next non-whitespace character is `c`, and consumes through it.
   */
  lemma {:induction false} CharAfterSkipsSpace(s: string, p: nat, c: char)
    requires p <= |s| && !IsSpace(c as int)
    ensures CharAfter(s, p, c) ==
      var q := SkipSpace(s, p);
      if q < |s| && s[q] == c then Some(q + 1) else None
    decreases |s| - p
  {
    if p < |s| && s[p] != c && IsSpace(s[p] as int) {
      CharAfterSkipsSpace(s, p + 1, c);
    }
  }

  /** The input file: its text and the read position. */
  class InputStream {
    const text: string
    var pos: nat

    ghost predicate Valid()
      reads this
    {
      pos <= |text|
    }

    constructor (text: string)
      ensures Valid() && this.text == text && pos == 0
    {
      this.text := text;
      pos := 0;
    }

    /** `get()`: the next character code, or `Eof`. */
    method Get() returns (c: int)
      requires Valid()
      modifies this
      ensures Valid()
      ensures old(pos) <= pos && c == CodeAt(text, old(pos))
      ensures pos == if old(pos) < |text| then old(pos) + 1 else old(pos)
    {
      c := CodeAt(text, pos);
      if pos < |text| {
        pos := pos + 1;
      }
    }

    /** `>> token`; a failed extraction leaves nothing more to read. */
    method ReadToken() returns (t: Option<string>)
      requires Valid()
      modifies this
      ensures Valid() && old(pos) <= pos
      ensures TokenAt(text, old(pos)).None? ==> t.None? && pos == |text|
      ensures TokenAt(text, old(pos)).Some? ==>
        t == Some(TokenAt(text, old(pos)).value.value) && pos == TokenAt(text, old(pos)).value.next
    {
      var r := TokenAt(text, pos);
      if r.Some? {
        t, pos := Some(r.value.value), r.value.next;
      } else {
        t, pos := None, |text|;
      }
    }

    /** `>> n` into an `int`; a failed extraction leaves nothing more to read. */
    method ReadInt() returns (n: Option<int>)
      requires Valid()
      modifies this
      ensures Valid() && old(pos) <= pos
      ensures IntAt(text, old(pos)).None? ==> n.None? && pos == |text|
      ensures IntAt(text, old(pos)).Some? ==>
        n == Some(IntAt(text, old(pos)).value.value) && pos == IntAt(text, old(pos)).value.next
    {
      var r := IntAt(text, pos);
      if r.Some? {
        n, pos := Some(r.value.value), r.value.next;
      } else {
        n, pos := None, |text|;
      }
    }
  }
}
