/**
 * The yes/no prompt of the update script. The console is a parameter: the
 * sequence of lines the user would type, in order; running out of lines is
 * the end of input, on which the prompt gives up (`None`).
 */
module Prompt {
  import opened Optional
  import opened PyStr

  /** How one typed line is read. */
  datatype Reply = Yes | No | Retry

  /**
   * A line is a yes when it upper-cases to "Y" and a no when it lower-cases to
   * "N"; anything else asks again.
   */
  function Classify(line: string): Reply {
    if Upper(line) == "Y" then Yes
    else if Lower(line) == "N" then No
    else Retry
  }

  /** Lower-casing never produces a capital letter, so no line is ever read as a no. */
  lemma ClassifyNeverNo(line: string)
    ensures Classify(line) != No
  {
    assert Lower(line) != "N" by {
      if |Lower(line)| == 1 {
        assert Lower(line)[0] == LowerChar(line[0]);
      }
    }
  }

  /** Exactly "y" and "Y" are read as a yes. */
  lemma ClassifyYesIff(line: string)
    ensures Classify(line) == Yes <==> line == "y" || line == "Y"
  {
    if Upper(line) == "Y" {
      assert UpperChar(line[0]) == 'Y';
      assert line == [line[0]];
    }
  }

  /** The answer to the prompt: the reading of the first line that is not a retry, if any. */
  function Answer(lines: seq<string>): Option<bool> {
    if lines == [] then None
    else match Classify(lines[0])
      case Yes => Some(true)
      case No => Some(false)
      case Retry => Answer(lines[1..])
  }

  /** The prompt can end with yes or with the end of input, never with no. */
  lemma {:induction false} AnswerNeverFalse(lines: seq<string>)
    ensures Answer(lines) != Some(false)
    decreases |lines|
  {
    if lines != [] {
      ClassifyNeverNo(lines[0]);
      AnswerNeverFalse(lines[1..]);
    }
  }

  /** The prompt says yes exactly when some typed line is "y" or "Y". */
  lemma {:induction false} AnswerYesIff(lines: seq<string>)
    ensures Answer(lines) == Some(true) <==> exists i :: 0 <= i < |lines| && (lines[i] == "y" || lines[i] == "Y")
    decreases |lines|
  {
    if lines != [] {
      ClassifyNeverNo(lines[0]);
      ClassifyYesIff(lines[0]);
      AnswerYesIff(lines[1..]);
      assert forall i :: 0 < i < |lines| ==> lines[i] == lines[1..][i - 1];
      assert forall i :: 0 <= i < |lines| - 1 ==> lines[1..][i] == lines[i + 1];
    }
  }

  /**
   * Asks until a line reads as yes or no. Returns the answer and how many
   * lines were read; every line before the last one read was a retry.
   */
  method YnQuestion(lines: seq<string>) returns (answer: Option<bool>, consumed: nat)
    ensures answer == Answer(lines)
    ensures consumed <= |lines|
    ensures forall i :: 0 <= i < consumed - 1 ==> Classify(lines[i]) == Retry
    ensures answer.Some? <==> consumed > 0 && Classify(lines[consumed - 1]) != Retry
    ensures answer.None? ==> consumed == |lines|
  {
    var i := 0;
    while i < |lines|
      invariant 0 <= i <= |lines|
      invariant Answer(lines) == Answer(lines[i..])
      invariant forall k :: 0 <= k < i ==> Classify(lines[k]) == Retry
    {
      assert lines[i..][1..] == lines[i + 1..];
      var line := lines[i];
      if Upper(line) == "Y" {
        return Some(true), i + 1;
      } else if Lower(line) == "N" {
        return Some(false), i + 1;
      }
      i := i + 1;
    }
    return None, |lines|;
  }
}
