/** The user prompts of `design_plan_factor` and `generate_chart`: fixed text
    around the caller's data, built with f-strings. */
module Prompts {
  import opened PyStr
  import opened Wrappers

  const DesignPrefix: string := "Make a design plan for this data that fits Factor "

  /** The user prompt of `design_plan_factor`:
      "Make a design plan for this data that fits Factor {factor}. {chart_data}". */
  function DesignPlanPrompt(chartData: string, factor: int): string {
    DesignPrefix + IntToString(factor) + ". " + chartData
  }

  /** Length of the longest prefix of `s` made of decimal digits. */
  function DigitRun(s: string): (k: nat)
    ensures k <= |s| && AllDigits(s[..k])
    ensures k < |s| ==> !IsDigit(s[k])
  {
    if |s| > 0 && IsDigit(s[0]) then
      var k := 1 + DigitRun(s[1..]);
      assert s[..k] == [s[0]] + s[1..][..k - 1];
      k
    else 0
  }

  /** Reads a run of digits and the ". " after it: the number and the rest. */
  function ParseNumber(u: string): Option<(nat, string)> {
    var k := DigitRun(u);
    if k == 0 || |u| < k + 2 || u[k..k + 2] != ". " then None
    else Some((DigitsValue(u[..k]), u[k + 2..]))
  }

  /** Reads an optionally negative number and the ". " after it. */
  function ParseSigned(s: string): Option<(int, string)> {
    if |s| > 0 && s[0] == '-' then
      match ParseNumber(s[1..])
      case None => None
      case Some((v, rest)) => Some((-(v as int), rest))
    else
      match ParseNumber(s)
      case None => None
      case Some((v, rest)) => Some((v, rest))
  }

  /** Reads the factor and the chart data back out of a design-plan prompt. */
  function ParseDesignPlanPrompt(p: string): Option<(int, string)> {
    if |p| < |DesignPrefix| || p[..|DesignPrefix|] != DesignPrefix then None
    else ParseSigned(p[|DesignPrefix|..])
  }

  /** A run of digits ends where a non-digit starts. */
  lemma {:induction false} DigitRunOf(digits: string, rest: string)
    requires AllDigits(digits) && |rest| > 0 && !IsDigit(rest[0])
    ensures DigitRun(digits + rest) == |digits|
    decreases |digits|
  {
    if |digits| > 0 {
      assert (digits + rest)[1..] == digits[1..] + rest;
      DigitRunOf(digits[1..], rest);
    } else {
      assert digits + rest == rest;
    }
  }

  /** The decimal digits of a number followed by ". " parse back. */
  lemma NumberThenData(n: nat, chartData: string)
    ensures ParseNumber(NatToString(n) + ". " + chartData) == Some((n, chartData))
  {
    var digits := NatToString(n);
    NumberParts(digits, chartData);
    DigitRunOf(digits, ". " + chartData);
    NatToStringRoundTrip(n);
  }

  lemma NumberParts(digits: string, chartData: string)
    ensures var u := digits + ". " + chartData;
      && u == digits + (". " + chartData)
      && u[..|digits|] == digits
      && u[|digits|..|digits| + 2] == ". "
      && u[|digits| + 2..] == chartData
  {
    var u := digits + ". " + chartData;
    assert u[|digits|..|digits| + 2] == ". ";
  }

  /** The text of a factor followed by ". " parses back to the factor. */
  lemma SignedThenData(factor: int, chartData: string)
    ensures ParseSigned(IntToString(factor) + ". " + chartData) == Some((factor, chartData))
  {
    if factor < 0 {
      NegativeThenData(-factor, chartData);
    } else {
      NonNegativeThenData(factor, chartData);
    }
  }

  lemma NegativeThenData(n: nat, chartData: string)
    requires n > 0
    ensures ParseSigned(IntToString(-(n as int)) + ". " + chartData) == Some((-(n as int), chartData))
  {
    var u := NatToString(n) + ". " + chartData;
    NumberThenData(n, chartData);
    MinusParts(u);
    assert IntToString(-(n as int)) + ". " + chartData == "-" + u;
  }

  lemma MinusParts(u: string)
    ensures ("-" + u)[0] == '-' && ("-" + u)[1..] == u
  {
  }

  lemma NonNegativeThenData(n: nat, chartData: string)
    ensures ParseSigned(IntToString(n) + ". " + chartData) == Some((n, chartData))
  {
    var u := NatToString(n) + ". " + chartData;
    NumberThenData(n, chartData);
    assert u[0] == NatToString(n)[0];
  }

  /** The design-plan prompt can be read back: it determines the factor and
      the chart data it was built from. */
  lemma DesignPlanPromptRoundTrip(chartData: string, factor: int)
    ensures ParseDesignPlanPrompt(DesignPlanPrompt(chartData, factor)) == Some((factor, chartData))
  {
    var s := IntToString(factor) + ". " + chartData;
    assert DesignPlanPrompt(chartData, factor) == DesignPrefix + s;
    assert (DesignPrefix + s)[|DesignPrefix|..] == s;
    SignedThenData(factor, chartData);
  }

  /** Different factors or different data never give the same prompt. */
  lemma DesignPlanPromptInjective(d1: string, f1: int, d2: string, f2: int)
    requires DesignPlanPrompt(d1, f1) == DesignPlanPrompt(d2, f2)
    ensures d1 == d2 && f1 == f2
  {
    DesignPlanPromptRoundTrip(d1, f1);
    DesignPlanPromptRoundTrip(d2, f2);
  }

  /** The indentation of the triple-quoted f-string in `generate_chart`. */
  const Indent: string := "                    "

  const ChartHead: string := "Provide the code for a chart that follows the given design plan. \n" + Indent
  const ChartMiddle: string := "\n" + Indent + "\n" + Indent + "Here is the chart data.\n" + Indent
  const ChartTail: string := "\n" + Indent

  /** The user prompt of `generate_chart`. */
  function ChartPrompt(designPlan: string, chartInfo: string): string {
    ChartHead + designPlan + ChartMiddle + chartInfo + ChartTail
  }

  /** The plan and the data appear verbatim, the plan right after the fixed
      instruction and the data after the fixed "Here is the chart data." line. */
  lemma ChartPromptEmbeds(designPlan: string, chartInfo: string)
    ensures var p := ChartPrompt(designPlan, chartInfo);
      && MatchAt(p, designPlan, |ChartHead|)
      && MatchAt(p, chartInfo, |ChartHead| + |designPlan| + |ChartMiddle|)
      && |p| == |ChartHead| + |designPlan| + |ChartMiddle| + |chartInfo| + |ChartTail|
  {
    var p := ChartPrompt(designPlan, chartInfo);
    var a := |ChartHead|;
    var b := a + |designPlan| + |ChartMiddle|;
    assert p[a..a + |designPlan|] == designPlan;
    assert p[b..b + |chartInfo|] == chartInfo;
  }

  /** For a fixed plan the prompt determines the data, and for fixed data it
      determines the plan. */
  lemma ChartPromptInjective(p1: string, i1: string, p2: string, i2: string)
    requires ChartPrompt(p1, i1) == ChartPrompt(p2, i2)
    requires p1 == p2 || i1 == i2
    ensures p1 == p2 && i1 == i2
  {
    ChartPromptEmbeds(p1, i1);
    ChartPromptEmbeds(p2, i2);
    var q := ChartPrompt(p1, i1);
    assert |p1| == |p2| && |i1| == |i2|;
    assert p1 == q[|ChartHead|..|ChartHead| + |p1|] == p2;
    var b := |ChartHead| + |p1| + |ChartMiddle|;
    assert i1 == q[b..b + |i1|] == i2;
  }
}
