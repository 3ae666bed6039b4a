/**
  The user prompt sent to the language model when a new daily fact is
  generated (`buildFactUserPrompt` in src/lib/prompts.ts): a fixed request,
  followed, when there are earlier facts, by a numbered list of them that
  the model is told not to repeat.
*/
module Prompts {

  const BasePrompt: string :=
    "Give me a random fun fact about George Washington with a Star Wars comparison!"

  const AvoidHeader: string :=
    "\n\nIMPORTANT: Do NOT repeat or rephrase any of these previously used facts:\n"

  predicate IsDigit(c: char) {
    '0' <= c <= '9'
  }

  function DigitChar(d: nat): (c: char)
    requires d < 10
    ensures IsDigit(c) && c as int - '0' as int == d
  {
    (d + '0' as int) as char
  }

  /** The decimal numeral of `n`, as JavaScript's template literal prints it. */
  function NatToString(n: nat): (s: string)
    ensures |s| >= 1 && forall i :: 0 <= i < |s| ==> IsDigit(s[i])
    ensures s[0] == '0' ==> n == 0
  {
    if n < 10 then [DigitChar(n)] else NatToString(n / 10) + [DigitChar(n % 10)]
  }

  /** The value of a string of decimal digits. */
  function DigitsValue(s: string): nat
    requires forall i :: 0 <= i < |s| ==> IsDigit(s[i])
  {
    if s == [] then 0
    else
      assert IsDigit(s[|s| - 1]);
      DigitsValue(s[..|s| - 1]) * 10 + (s[|s| - 1] as int - '0' as int)
  }

  /** Reading a numeral back gives the number it was printed from. */
  lemma {:induction false} NatToStringRoundTrip(n: nat)
    ensures DigitsValue(NatToString(n)) == n
  {
    if n >= 10 {
      NatToStringRoundTrip(n / 10);
      var s := NatToString(n);
      assert s[..|s| - 1] == NatToString(n / 10);
    }
  }

  /** The `i`-th entry (from 0) of the list: "<i + 1>. <fact>". */
  function Numbered(i: nat, fact: string): string {
    NatToString(i + 1) + ". " + fact
  }

  /** The numbered entries for `facts`, the first numbered `from + 1`. */
  function NumberedFrom(facts: seq<string>, from: nat): (lines: seq<string>)
    ensures |lines| == |facts|
    ensures forall i :: 0 <= i < |facts| ==> lines[i] == Numbered(from + i, facts[i])
    decreases |facts|
  {
    if facts == [] then [] else [Numbered(from, facts[0])] + NumberedFrom(facts[1..], from + 1)
  }

  /** `lines.join("\n")`. */
  function Join(lines: seq<string>): string
    decreases |lines|
  {
    if lines == [] then ""
    else if |lines| == 1 then lines[0]
    else lines[0] + "\n" + Join(lines[1..])
  }

  /** `s.split("\n")`: the pieces between line breaks, at least one. */
  function Split(s: string): (pieces: seq<string>)
    ensures |pieces| >= 1
    decreases |s|
  {
    if s == [] then [""]
    else
      var rest := Split(s[1..]);
      if s[0] == '\n' then [""] + rest else [[s[0]] + rest[0]] + rest[1..]
  }

  predicate NoBreak(s: string) {
    forall i :: 0 <= i < |s| ==> s[i] != '\n'
  }

  lemma {:induction false} SplitNoBreak(s: string)
    requires NoBreak(s)
    ensures Split(s) == [s]
    decreases |s|
  {
    if s != [] {
      SplitNoBreak(s[1..]);
      assert [s[0]] + s[1..] == s;
    }
  }

  lemma {:induction false} SplitAtBreak(a: string, b: string)
    requires NoBreak(a)
    ensures Split(a + "\n" + b) == [a] + Split(b)
    decreases |a|
  {
    if a == [] {
      assert a + "\n" + b == "\n" + b;
      assert ("\n" + b)[1..] == b;
    } else {
      SplitAtBreak(a[1..], b);
      assert (a + "\n" + b)[1..] == a[1..] + "\n" + b;
      assert [a[0]] + a[1..] == a;
    }
  }

  /** Splitting a join of lines without breaks gives the lines back. */
  lemma {:induction false} SplitJoin(lines: seq<string>)
    requires |lines| >= 1
    requires forall i :: 0 <= i < |lines| ==> NoBreak(lines[i])
    ensures Split(Join(lines)) == lines
    decreases |lines|
  {
    if |lines| == 1 {
      SplitNoBreak(lines[0]);
    } else {
      SplitJoin(lines[1..]);
      SplitAtBreak(lines[0], Join(lines[1..]));
      assert [lines[0]] + lines[1..] == lines;
    }
  }

  /** The prompt asking for a new fact unlike each of `previousFacts`. */
  function BuildFactUserPrompt(previousFacts: seq<string>): (prompt: string)
    ensures previousFacts == [] <==> prompt == BasePrompt
    ensures BasePrompt <= prompt
    ensures previousFacts != [] ==>
      prompt == BasePrompt + AvoidHeader + Join(NumberedFrom(previousFacts, 0))
  {
    var prompt := BasePrompt;
    if |previousFacts| > 0 then
      assert |BasePrompt + AvoidHeader + Join(NumberedFrom(previousFacts, 0))| > |BasePrompt|;
      prompt + AvoidHeader + Join(NumberedFrom(previousFacts, 0))
    else prompt
  }

  /** The list after the header has one line per earlier fact, the `i`-th
      reading "<i + 1>. <fact i>", provided no fact holds a line break. */
  lemma PromptLines(previousFacts: seq<string>)
    requires previousFacts != []
    requires forall i :: 0 <= i < |previousFacts| ==> NoBreak(previousFacts[i])
    ensures var prompt := BuildFactUserPrompt(previousFacts);
      var lines := Split(prompt[|BasePrompt + AvoidHeader|..]);
      && |lines| == |previousFacts|
      && forall i :: 0 <= i < |previousFacts| ==> lines[i] == NatToString(i + 1) + ". " + previousFacts[i]
  {
    var lines := NumberedFrom(previousFacts, 0);
    forall i | 0 <= i < |lines| ensures NoBreak(lines[i]) {
      var n := NatToString(i + 1);
      assert lines[i] == n + ". " + previousFacts[i];
      forall j | 0 <= j < |lines[i]| ensures lines[i][j] != '\n' {
        if j < |n| {
          assert IsDigit(n[j]);
        } else if j >= |n| + 2 {
          assert lines[i][j] == previousFacts[i][j - |n| - 2];
        }
      }
    }
    SplitJoin(lines);
    var prompt := BuildFactUserPrompt(previousFacts);
    assert prompt[|BasePrompt + AvoidHeader|..] == Join(lines);
  }

  /** Numbers run from 1 in the order the facts were given. */
  lemma FirstEntries(a: string, b: string)
    ensures BuildFactUserPrompt([a, b]) == BasePrompt + AvoidHeader + "1. " + a + "\n" + "2. " + b
  {
    var lines := NumberedFrom([a, b], 0);
    assert lines == ["1. " + a, "2. " + b] by {
      assert DigitChar(1) == '1' && DigitChar(2) == '2';
      assert NatToString(1) == "1" && NatToString(2) == "2";
      assert lines[0] == Numbered(0, a) && lines[1] == Numbered(1, b);
      assert "1" + ". " == "1. " && "2" + ". " == "2. ";
    }
    assert lines[1..] == ["2. " + b];
    assert Join(lines) == "1. " + a + "\n" + "2. " + b;
  }
}
