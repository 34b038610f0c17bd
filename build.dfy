/** The `Build` object of the command-line entry point: the two fields it
    carries between steps and the prompt loop that sets the project name. */
module Cli {
  import opened JsText
  import opened ProjectName

  class Build {
    var template: string
    var projectName: string

    constructor ()
      ensures template == "" && projectName == ""
    {
      template := "";
      projectName := "";
    }

    /** The prompt loop: reads the answers in order and stops at the first one
        `Validate` accepts, which becomes `projectName` exactly as trimmed.
        `rejections` lists the reason printed for each refused answer before
        it. The loop in the program never ends without a valid name; here
        the operator's answers are a finite list, and `accepted` is `None`
        when they run out, with `projectName` left as it was. */
    method SetProjectName(answers: seq<string>, pathExists: string -> bool)
      returns (accepted: Option<string>, rejections: seq<Rejection>)
      modifies this`projectName
      ensures |rejections| <= |answers|
      ensures forall j :: 0 <= j < |rejections| ==> Validate(answers[j], pathExists) == Rejected(rejections[j])
      ensures accepted.None? ==> |rejections| == |answers| && projectName == old(projectName)
      ensures accepted.Some? ==>
        |rejections| < |answers|
        && Validate(answers[|rejections|], pathExists) == Accepted(accepted.value)
        && accepted.value == Trim(answers[|rejections|])
        && projectName == accepted.value
    {
      accepted := None;
      rejections := [];
      var i := 0;
      while i < |answers|
        invariant 0 <= i <= |answers| && |rejections| == i
        invariant forall j :: 0 <= j < i ==> Validate(answers[j], pathExists) == Rejected(rejections[j])
        invariant projectName == old(projectName)
      {
        var name := Trim(answers[i]);
        if name == [] {
          rejections := rejections + [EmptyName];
        } else if HasReservedChar(name) {
          rejections := rejections + [InvalidCharacters];
        } else if pathExists(name) {
          rejections := rejections + [AlreadyExists];
        } else {
          projectName := name;
          accepted := Some(name);
          break;
        }
        i := i + 1;
      }
    }
  }
}
