/**
 * The AMC problem-file fixer: every backslash in the LaTeX text of a
 * problem is doubled, and the problem list is mapped field by field with
 * object spreads, so everything that is not text keeps its value.
 * Reading and writing the JSON files is not part of this model.
 */
module FixAmc {
  import opened JsValues

  const Backslash: char := '\\'

  /** `text.replace(/\\/g, '\\\\')`: each backslash becomes two. */
  function EscapeLatex(text: string): string
  {
    if text == [] then []
    else (if text[0] == Backslash then [Backslash, Backslash] else [text[0]]) + EscapeLatex(text[1..])
  }

  /** The number of backslashes in a string. */
  function Backslashes(text: string): nat
  {
    if text == [] then 0 else (if text[0] == Backslash then 1 else 0) + Backslashes(text[1..])
  }

  /** The inverse transformation: each doubled backslash collapses back to one. */
  function UnescapeLatex(text: string): string
  {
    if text == [] then []
    else if |text| >= 2 && text[0] == Backslash && text[1] == Backslash then [Backslash] + UnescapeLatex(text[2..])
    else [text[0]] + UnescapeLatex(text[1..])
  }

  /** Escaping lengthens a string by exactly its number of backslashes. */
  lemma {:induction false} EscapeLatexLength(text: string)
    ensures |EscapeLatex(text)| == |text| + Backslashes(text)
  {
    if text != [] {
      EscapeLatexLength(text[1..]);
    }
  }

  /** A string without backslashes is returned unchanged. */
  lemma {:induction false} EscapeLatexNoBackslash(text: string)
    requires Backslash !in text
    ensures EscapeLatex(text) == text
  {
    if text != [] {
      EscapeLatexNoBackslash(text[1..]);
      assert text == [text[0]] + text[1..];
    }
  }

  /** Escaping never touches anything but backslashes: the non-backslash characters survive in order. */
  lemma {:induction false} EscapeLatexKeepsOtherCharacters(text: string)
    ensures WithoutBackslashes(EscapeLatex(text)) == WithoutBackslashes(text)
  {
    if text != [] {
      EscapeLatexKeepsOtherCharacters(text[1..]);
      var head := if text[0] == Backslash then [Backslash, Backslash] else [text[0]];
      WithoutBackslashesAppend(head, EscapeLatex(text[1..]));
      WithoutBackslashesAppend([text[0]], text[1..]);
      assert text == [text[0]] + text[1..];
    }
  }

  function WithoutBackslashes(text: string): string
  {
    if text == [] then [] else (if text[0] == Backslash then [] else [text[0]]) + WithoutBackslashes(text[1..])
  }

  lemma {:induction false} WithoutBackslashesAppend(a: string, b: string)
    ensures WithoutBackslashes(a + b) == WithoutBackslashes(a) + WithoutBackslashes(b)
  {
    if a != [] {
      assert (a + b)[1..] == a[1..] + b;
      WithoutBackslashesAppend(a[1..], b);
    } else {
      assert a + b == b;
    }
  }

  /** Collapsing the doubled backslashes of an escaped string recovers the original. */
  lemma {:induction false} UnescapeEscapeLatex(text: string)
    ensures UnescapeLatex(EscapeLatex(text)) == text
  {
    if text != [] {
      var rest := EscapeLatex(text[1..]);
      UnescapeEscapeLatex(text[1..]);
      if text[0] == Backslash {
        assert ([Backslash, Backslash] + rest)[2..] == rest;
      } else {
        assert ([text[0]] + rest)[1..] == rest;
      }
      assert text == [text[0]] + text[1..];
    }
  }

  // ---------------------------------------------------------------------
  // The problem map
  // ---------------------------------------------------------------------

  /** An answer option; `extra` holds any further members the spread carries along. */
  datatype AmcOption = AmcOption(optionLabel: string, value: string, extra: map<string, JsValue>)

  /** A solution is either one text or a list of texts. */
  datatype Solution = SolutionText(text: string) | SolutionLines(lines: seq<string>)

  datatype Problem = Problem(
    id: string,
    question: string,
    options: seq<AmcOption>,
    correctOption: string,
    solution: Solution,
    extra: map<string, JsValue>)

  function FixOption(option: AmcOption): AmcOption
  {
    option.(value := EscapeLatex(option.value))
  }

  function FixSolution(solution: Solution): Solution
  {
    match solution
    case SolutionText(t) => SolutionText(EscapeLatex(t))
    case SolutionLines(ls) => SolutionLines(seq(|ls|, i requires 0 <= i < |ls| => EscapeLatex(ls[i])))
  }

  function FixProblem(problem: Problem): Problem
  {
    problem.(
      question := EscapeLatex(problem.question),
      options := seq(|problem.options|, i requires 0 <= i < |problem.options| => FixOption(problem.options[i])),
      solution := FixSolution(problem.solution))
  }

  /** The mapping `json.problems.map(...)` applies to the problem list. */
  function FixProblems(problems: seq<Problem>): (r: seq<Problem>)
    ensures |r| == |problems|
    ensures forall i :: 0 <= i < |r| ==>
      && r[i].id == problems[i].id
      && r[i].correctOption == problems[i].correctOption
      && r[i].extra == problems[i].extra
      && r[i].question == EscapeLatex(problems[i].question)
  {
    seq(|problems|, i requires 0 <= i < |problems| => FixProblem(problems[i]))
  }

  /** Options keep their number, order and labels; only their values are escaped. */
  lemma FixedOptionsShape(problems: seq<Problem>, i: nat, j: nat)
    requires i < |problems| && j < |problems[i].options|
    ensures |FixProblems(problems)[i].options| == |problems[i].options|
    ensures FixProblems(problems)[i].options[j].optionLabel == problems[i].options[j].optionLabel
    ensures FixProblems(problems)[i].options[j].extra == problems[i].options[j].extra
    ensures FixProblems(problems)[i].options[j].value == EscapeLatex(problems[i].options[j].value)
  {
  }

  /** A solution keeps its shape: a text stays a text, a list stays a list of the same length. */
  lemma FixedSolutionShape(problems: seq<Problem>, i: nat)
    requires i < |problems|
    ensures problems[i].solution.SolutionText? <==> FixProblems(problems)[i].solution.SolutionText?
    ensures problems[i].solution.SolutionText? ==>
      FixProblems(problems)[i].solution.text == EscapeLatex(problems[i].solution.text)
    ensures problems[i].solution.SolutionLines? ==>
      && |FixProblems(problems)[i].solution.lines| == |problems[i].solution.lines|
      && forall k :: 0 <= k < |problems[i].solution.lines| ==>
           FixProblems(problems)[i].solution.lines[k] == EscapeLatex(problems[i].solution.lines[k])
  {
  }

  /** Undoing the escape on every text field gives back the original problems. */
  function UnfixProblem(problem: Problem): Problem
  {
    problem.(
      question := UnescapeLatex(problem.question),
      options := seq(|problem.options|, i requires 0 <= i < |problem.options| =>
        problem.options[i].(value := UnescapeLatex(problem.options[i].value))),
      solution := match problem.solution
        case SolutionText(t) => SolutionText(UnescapeLatex(t))
        case SolutionLines(ls) => SolutionLines(seq(|ls|, k requires 0 <= k < |ls| => UnescapeLatex(ls[k]))))
  }

  lemma FixProblemsRoundTrip(problems: seq<Problem>)
    ensures forall i :: 0 <= i < |problems| ==> UnfixProblem(FixProblems(problems)[i]) == problems[i]
  {
    forall i | 0 <= i < |problems|
      ensures UnfixProblem(FixProblems(problems)[i]) == problems[i]
    {
      var p := problems[i];
      var q := UnfixProblem(FixProblem(p));
      UnescapeEscapeLatex(p.question);
      forall j | 0 <= j < |p.options|
        ensures q.options[j] == p.options[j]
      {
        UnescapeEscapeLatex(p.options[j].value);
      }
      match p.solution
      case SolutionText(t) =>
        UnescapeEscapeLatex(t);
      case SolutionLines(ls) =>
        forall k | 0 <= k < |ls|
          ensures UnescapeLatex(EscapeLatex(ls[k])) == ls[k]
        {
          UnescapeEscapeLatex(ls[k]);
        }
        assert q.solution.lines == ls;
      assert q.options == p.options;
    }
  }
}
