/**
 * Logger._confirm: keep reading responses until one lower-cases to 'y' or
 * 'n', and answer whether it was 'y'. The responses reach the model as a
 * sequence in place of input(); when they run out without an answer the
 * result is None.
 */
module Confirm {
  import opened Wrappers
  import opened PyText

  /** A response _confirm accepts: its lower-case form is in {'y', 'n'}. */
  predicate IsAnswer(response: string) {
    Lower(response) == "y" || Lower(response) == "n"
  }

  method Confirm(responses: seq<string>) returns (r: Option<bool>)
    ensures r.None? <==> forall i :: 0 <= i < |responses| ==> !IsAnswer(responses[i])
    ensures r.Some? ==>
      exists i :: 0 <= i < |responses| && IsAnswer(responses[i])
        && (forall j :: 0 <= j < i ==> !IsAnswer(responses[j]))
        && r.value == (Lower(responses[i]) == "y")
  {
    var i := 0;
    while i < |responses|
      invariant 0 <= i <= |responses|
      invariant forall j :: 0 <= j < i ==> !IsAnswer(responses[j])
    {
      var conf := Lower(responses[i]);
      if conf == "y" || conf == "n" {
        return Some(conf == "y");
      }
      i := i + 1;
    }
    return None;
  }

  /** The responses that count as an answer are exactly 'y', 'Y', 'n' and 'N'; only 'y' and 'Y' say yes. */
  lemma AnswerForms(response: string)
    ensures Lower(response) == "y" <==> response == "y" || response == "Y"
    ensures IsAnswer(response) <==> response in {"y", "Y", "n", "N"}
  {
    if |response| == 1 {
      assert response == [response[0]];
      assert Lower(response) == [LowerChar(response[0])];
    } else {
      assert |Lower(response)| != 1;
    }
  }
}
