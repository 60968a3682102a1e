/**
 * The trial loop shared by `DotCheck.Check.Quick` and
 * `ArbitraryCheck.ArbitraryCheck.Check`: draw up to `NumChecks` values from
 * the chosen `Arbitrary` method, stop at the first one the property rejects,
 * and produce the one line that is printed.
 *
 * The values the chosen method returns on successive invocations are the
 * stream `draw`: `draw(i)` is the value of the i-th invocation.
 */
module Trials {

  /** `NumChecks`: the number of trials. */
  const NumChecks: nat := 100

  /** The decimal digit for `d`. */
  function Digit(d: nat): char
    requires d < 10
  {
    "0123456789"[d]
  }

  /** `Int32.ToString()` for a non-negative count. */
  function DecimalString(n: nat): (s: string)
    ensures |s| >= 1
    ensures forall i :: 0 <= i < |s| ==> '0' <= s[i] <= '9'
  {
    if n < 10 then [Digit(n)] else DecimalString(n / 10) + [Digit(n % 10)]
  }

  /** Reads a string of decimal digits back as a number. */
  function DecimalValue(s: string): nat
    requires forall i :: 0 <= i < |s| ==> '0' <= s[i] <= '9'
  {
    if s == [] then 0 else 10 * DecimalValue(s[..|s| - 1]) + (s[|s| - 1] as int - '0' as int)
  }

  /** The rendered count reads back as the count: the message reports the number exactly. */
  lemma {:induction false} DecimalRoundTrip(n: nat)
    ensures DecimalValue(DecimalString(n)) == n
  {
    var s := DecimalString(n);
    if n < 10 {
      assert s[..|s| - 1] == [];
    } else {
      assert s[..|s| - 1] == DecimalString(n / 10);
      DecimalRoundTrip(n / 10);
    }
  }

  /** The line printed when every trial passed. */
  function PassedMessage(): string
  {
    "Passed " + DecimalString(NumChecks) + " tests."
  }

  /** The line printed when trial number `checks` (from 0) failed on `input`. */
  function FailedMessage(checks: nat, input: string): string
  {
    "Failed after " + DecimalString(checks) + " tests, with input `" + input + "'"
  }

  lemma PassedMessageText()
    ensures PassedMessage() == "Passed 100 tests."
  {
    assert DecimalString(1) == "1";
    assert DecimalString(10) == "10";
    assert DecimalString(100) == "100";
  }

  /** A failure line is never the success line. */
  lemma FailedIsNotPassed(checks: nat, input: string)
    ensures FailedMessage(checks, input) != PassedMessage()
  {
    assert FailedMessage(checks, input)[0] == 'F';
    assert PassedMessage()[0] == 'P';
  }

  /**
   * The number of draws, among the first `n`, that pass before the first
   * failing one: the index of the first failing draw, or `n` if none fails.
   */
  function PassCount<V>(prop: V -> bool, draw: nat -> V, n: nat): (k: nat)
    ensures k <= n
    ensures forall j :: 0 <= j < k ==> prop(draw(j))
    ensures k < n ==> !prop(draw(k))
  {
    if n == 0 then 0
    else
      var k := PassCount(prop, draw, n - 1);
      if k < n - 1 || !prop(draw(n - 1)) then k else n
  }

  /** The three facts above pin the pass count down. */
  lemma PassCountUnique<V>(prop: V -> bool, draw: nat -> V, n: nat, c: nat)
    requires c <= n
    requires forall j :: 0 <= j < c ==> prop(draw(j))
    requires c < n ==> !prop(draw(c))
    ensures PassCount(prop, draw, n) == c
  {
  }

  /** How many values the loop draws: all of them, or up to and including the first failing one. */
  function DrawCount<V>(prop: V -> bool, draw: nat -> V): (d: nat)
    ensures 1 <= d <= NumChecks
  {
    var k := PassCount(prop, draw, NumChecks);
    if k == NumChecks then k else k + 1
  }

  /** The line the loop prints. */
  function TrialReport<V>(prop: V -> bool, draw: nat -> V, show: V -> string): string
  {
    var k := PassCount(prop, draw, NumChecks);
    if k == NumChecks then PassedMessage() else FailedMessage(k, show(draw(k)))
  }

  /** "Passed" is printed exactly when all `NumChecks` draws satisfy the property. */
  lemma PassedIffAllPass<V>(prop: V -> bool, draw: nat -> V, show: V -> string)
    ensures TrialReport(prop, draw, show) == PassedMessage() <==>
              forall j :: 0 <= j < NumChecks ==> prop(draw(j))
  {
    var k := PassCount(prop, draw, NumChecks);
    if k < NumChecks {
      FailedIsNotPassed(k, show(draw(k)));
    }
  }

  /** A failure on the first draw reports 0 passed tests, and nothing more is drawn. */
  lemma FirstDrawFails<V>(prop: V -> bool, draw: nat -> V, show: V -> string)
    requires !prop(draw(0))
    ensures TrialReport(prop, draw, show) == FailedMessage(0, show(draw(0)))
    ensures DrawCount(prop, draw) == 1
  {
    PassCountUnique(prop, draw, NumChecks, 0);
  }

  /** A property that holds of every value passes all 100 trials, whatever is drawn. */
  lemma AlwaysTruePasses<V>(prop: V -> bool, draw: nat -> V, show: V -> string)
    requires forall v :: prop(v)
    ensures TrialReport(prop, draw, show) == "Passed 100 tests."
    ensures DrawCount(prop, draw) == NumChecks
  {
    forall j: nat | j < NumChecks ensures prop(draw(j)) {
      var v :| v == draw(j);
      assert prop(v);
    }
    PassCountUnique(prop, draw, NumChecks, NumChecks);
    PassedMessageText();
  }

  /**
   * The `for` loop of `Quick`/`Check`: returns the printed line and the values
   * drawn, in draw order.
   */
  method RunTrials<V>(prop: V -> bool, draw: nat -> V, show: V -> string)
    returns (line: string, drawn: seq<V>)
    ensures |drawn| == DrawCount(prop, draw) <= NumChecks
    ensures forall j :: 0 <= j < |drawn| ==> drawn[j] == draw(j)
    ensures forall j :: 0 <= j < |drawn| - 1 ==> prop(drawn[j])
    ensures line == TrialReport(prop, draw, show)
    ensures line == PassedMessage() <==> forall j :: 0 <= j < NumChecks ==> prop(draw(j))
  {
    var checks: nat := 0;
    drawn := [];
    while checks < NumChecks
      invariant checks <= NumChecks
      invariant forall j :: 0 <= j < checks ==> prop(draw(j))
      invariant |drawn| == checks
      invariant forall j :: 0 <= j < checks ==> drawn[j] == draw(j)
    {
      var arbitraryValue := draw(checks);
      drawn := drawn + [arbitraryValue];
      if !prop(arbitraryValue) {
        break;
      }
      checks := checks + 1;
    }
    StoppedAt(prop, draw, show, checks);
    if checks == NumChecks {
      line := PassedMessage();
    } else {
      line := FailedMessage(checks, show(drawn[checks]));
    }
    PassedIffAllPass(prop, draw, show);
  }

  /** The loop stopped after `checks` passing draws: what it reports and how much it drew. */
  lemma StoppedAt<V>(prop: V -> bool, draw: nat -> V, show: V -> string, checks: nat)
    requires checks <= NumChecks
    requires forall j :: 0 <= j < checks ==> prop(draw(j))
    requires checks < NumChecks ==> !prop(draw(checks))
    ensures checks == NumChecks ==> TrialReport(prop, draw, show) == PassedMessage() && DrawCount(prop, draw) == checks
    ensures checks < NumChecks ==>
              TrialReport(prop, draw, show) == FailedMessage(checks, show(draw(checks)))
              && DrawCount(prop, draw) == checks + 1
  {
    PassCountUnique(prop, draw, NumChecks, checks);
  }
}
