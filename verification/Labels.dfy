/** The labels that bind markers to attempts, and why two attempts never share one.  They are
    formatted strings (analysis/freeze_p9_guard.py:1976-1980, analysis/freeze_p9_deadline.py:2241-2264). */
module Labels {

  function Digit(n: nat): char
    requires n < 10
  {
    ('0' as int + n) as char
  }

  predicate IsDigit(c: char) { '0' <= c <= '9' }

  predicate AllDigits(s: string) { forall i :: 0 <= i < |s| ==> IsDigit(s[i]) }

  /** The decimal numeral of `n`. */
  function Decimal(n: nat): (s: string)
    ensures s != "" && AllDigits(s)
  {
    if n < 10 then [Digit(n)] else Decimal(n / 10) + [Digit(n % 10)]
  }

  /** The numeral padded to two digits. */
  function TwoDigits(n: nat): (s: string)
    ensures s != "" && AllDigits(s)
  {
    if n < 10 then ['0'] + Decimal(n) else Decimal(n)
  }

  /** The number a numeral denotes. */
  function Value(s: string): nat
    requires AllDigits(s)
  {
    if s == "" then 0 else 10 * Value(s[..|s| - 1]) + (s[|s| - 1] as int - '0' as int)
  }

  lemma {:induction false} ValueOfDecimal(n: nat)
    ensures Value(Decimal(n)) == n
  {
    if n >= 10 {
      ValueOfDecimal(n / 10);
      assert Decimal(n)[..|Decimal(n)| - 1] == Decimal(n / 10);
    } else {
      assert Decimal(n)[..0] == "";
    }
  }

  lemma ValueOfTwoDigits(n: nat)
    ensures Value(TwoDigits(n)) == n
  {
    ValueOfDecimal(n);
    if n < 10 {
      var s := ['0'] + Decimal(n);
      assert s[..1] == ['0'] && s[..1][..0] == "";
      assert Decimal(n)[..0] == "";
    }
  }

  predicate EndsInDash(p: string) { p != "" && p[|p| - 1] == '-' }

  /** The numeral holds no dash, so the last dash of the concatenation is in the prefix. */
  lemma DashInPrefix(p: string, d: string, p': string, d': string)
    requires EndsInDash(p') && AllDigits(d) && p + d == p' + d'
    ensures |p'| <= |p|
  {
    var s := p + d;
    assert s[|p'| - 1] == (p' + d')[|p'| - 1] == '-';
    assert forall i :: |p| <= i < |s| ==> s[i] == d[i - |p|] && IsDigit(s[i]);
  }

  /** A prefix that ends in a dash and a numeral after it can be read back from their concatenation. */
  lemma NumeralSuffix(p: string, d: string, p': string, d': string)
    requires EndsInDash(p) && EndsInDash(p') && AllDigits(d) && AllDigits(d') && p + d == p' + d'
    ensures p == p' && d == d'
  {
    DashInPrefix(p, d, p', d');
    DashInPrefix(p', d', p, d);
    var s := p + d;
    assert p == s[..|p|] && p' == s[..|p|];
    assert d == s[|p|..] && d' == s[|p|..];
  }

  lemma NumberAfterDash(p: string, n: nat, p': string, n': nat)
    requires EndsInDash(p) && EndsInDash(p')
    requires p + TwoDigits(n) == p' + TwoDigits(n')
    ensures p == p' && n == n'
  {
    NumeralSuffix(p, TwoDigits(n), p', TwoDigits(n'));
    ValueOfTwoDigits(n);
    ValueOfTwoDigits(n');
  }

  lemma SameSuffix(a: string, b: string, suffix: string)
    requires a + suffix == b + suffix
    ensures a == b
  {
    assert |a| == |b|;
    assert a == (a + suffix)[..|a|] && b == (b + suffix)[..|a|];
  }

  // ------------------------------------------------------------------
  // Guard campaign labels
  // ------------------------------------------------------------------

  function BlockPrefix(caseId: string): string { "pre-p9-guard-" + caseId + "-block-" }

  function AttemptPrefix(caseId: string, block: nat): string { BlockPrefix(caseId) + TwoDigits(block) + "-attempt-" }

  function ThermalPrefix(caseId: string, block: nat, attempt: nat): string {
    AttemptPrefix(caseId, block) + TwoDigits(attempt) + "-thermal-"
  }

  /** The label of one thermal attempt of one block-attempt of the guard campaign. */
  function GuardLabel(caseId: string, block: nat, attempt: nat, thermal: nat): string {
    ThermalPrefix(caseId, block, attempt) + TwoDigits(thermal)
  }

  /** The label, in one piece. */
  lemma GuardLabelReads(caseId: string, block: nat, attempt: nat, thermal: nat)
    ensures GuardLabel(caseId, block, attempt, thermal)
      == "pre-p9-guard-" + caseId + "-block-" + TwoDigits(block) + "-attempt-" + TwoDigits(attempt) + "-thermal-"
        + TwoDigits(thermal)
  {
  }

  /** Below 100 a number takes two characters, its tens and its ones; a larger one is not shortened. */
  lemma TwoDigitsRead(n: nat)
    ensures n < 100 ==> TwoDigits(n) == [(48 + n / 10) as char, (48 + n % 10) as char]
    ensures n >= 100 ==> TwoDigits(n) == Decimal(n)
    ensures Value(TwoDigits(n)) == n
  {
    ValueOfTwoDigits(n);
    if n < 100 {
      assert Decimal(n % 10) == [Digit(n % 10)] && Decimal(n / 10) == [Digit(n / 10)];
    }
  }

  /** Different thermal attempts have different labels, whatever the case identifiers contain. */
  lemma GuardLabelInjective(c: string, b: nat, a: nat, t: nat, c': string, b': nat, a': nat, t': nat)
    requires GuardLabel(c, b, a, t) == GuardLabel(c', b', a', t')
    ensures c == c' && b == b' && a == a' && t == t'
  {
    NumberAfterDash(ThermalPrefix(c, b, a), t, ThermalPrefix(c', b', a'), t');
    SameSuffix(AttemptPrefix(c, b) + TwoDigits(a), AttemptPrefix(c', b') + TwoDigits(a'), "-thermal-");
    NumberAfterDash(AttemptPrefix(c, b), a, AttemptPrefix(c', b'), a');
    SameSuffix(BlockPrefix(c) + TwoDigits(b), BlockPrefix(c') + TwoDigits(b'), "-attempt-");
    NumberAfterDash(BlockPrefix(c), b, BlockPrefix(c'), b');
    SameSuffix("pre-p9-guard-" + c, "pre-p9-guard-" + c', "-block-");
    assert c == ("pre-p9-guard-" + c)[13..] && c' == ("pre-p9-guard-" + c')[13..];
  }

  // ------------------------------------------------------------------
  // Deadline calibration labels
  // ------------------------------------------------------------------

  function RepeatPrefix(repeat_: nat): string { "pre-pre-calibration-r" + Decimal(repeat_) + "-attempt-" }

  /** The label of one thermal attempt of one calibration repeat. */
  function DeadlineLabel(repeat_: nat, attempt: nat): string { RepeatPrefix(repeat_) + TwoDigits(attempt) }

  lemma DeadlineLabelReads(r: nat, attempt: nat)
    ensures DeadlineLabel(r, attempt) == "pre-pre-calibration-r" + Decimal(r) + "-attempt-" + TwoDigits(attempt)
  {
  }

  lemma DeadlineLabelInjective(r: nat, a: nat, r': nat, a': nat)
    requires DeadlineLabel(r, a) == DeadlineLabel(r', a')
    ensures r == r' && a == a'
  {
    NumberAfterDash(RepeatPrefix(r), a, RepeatPrefix(r'), a');
    SameSuffix("pre-pre-calibration-r" + Decimal(r), "pre-pre-calibration-r" + Decimal(r'), "-attempt-");
    var p := "pre-pre-calibration-r";
    assert Decimal(r) == (p + Decimal(r))[|p|..] && Decimal(r') == (p + Decimal(r'))[|p|..];
    ValueOfDecimal(r);
    ValueOfDecimal(r');
  }
}
