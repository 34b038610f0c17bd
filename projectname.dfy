/** The rules `Build.setProjectName` applies to each answer: trim it, then
    reject it if it is empty, else if it holds a character that cannot stand
    in a folder name, else if a path of that name already exists; otherwise
    accept it. The first failing rule decides. */
module ProjectName {
  import opened JsText

  /** Why an answer was refused; each stands for one of the messages the
      prompt prints before asking again. */
  datatype Rejection = EmptyName | InvalidCharacters | AlreadyExists

  datatype Verdict = Accepted(name: string) | Rejected(reason: Rejection)

  /** The characters of the class `[/\\?%*:|"<>]`. */
  predicate IsReservedChar(c: char) {
    c == '/' || c == '\\' || c == '?' || c == '%' || c == '*' || c == ':'
    || c == '|' || c == '"' || c == '<' || c == '>'
  }

  predicate HasReservedChar(s: string) {
    exists i :: 0 <= i < |s| && IsReservedChar(s[i])
  }

  /** One round of the prompt: `answer` is the raw line read, `pathExists` says
      whether a path of a given name exists in the working directory. */
  function Validate(answer: string, pathExists: string -> bool): (v: Verdict)
    ensures v.Accepted? <==> Trim(answer) != [] && !HasReservedChar(Trim(answer)) && !pathExists(Trim(answer))
    ensures v.Accepted? ==> v.name == Trim(answer)
    ensures Trim(answer) == [] ==> v == Rejected(EmptyName)
    ensures v == Rejected(InvalidCharacters) <==> Trim(answer) != [] && HasReservedChar(Trim(answer))
    ensures v == Rejected(AlreadyExists) <==> Trim(answer) != [] && !HasReservedChar(Trim(answer)) && pathExists(Trim(answer))
  {
    var name := Trim(answer);
    if name == [] then Rejected(EmptyName)
    else if HasReservedChar(name) then Rejected(InvalidCharacters)
    else if pathExists(name) then Rejected(AlreadyExists)
    else Accepted(name)
  }

  /** An answer that is blank, or whose trimmed form holds a reserved
      character, gets the same verdict whatever the filesystem holds: the
      existence check is never consulted for it. */
  lemma OracleNotConsultedBeforeExistenceRule(answer: string, e1: string -> bool, e2: string -> bool)
    requires Trim(answer) == [] || HasReservedChar(Trim(answer))
    ensures Validate(answer, e1) == Validate(answer, e2)
    ensures Validate(answer, e1).Rejected? && Validate(answer, e1).reason != AlreadyExists
  {
  }

  /** An answer that is all whitespace is refused as empty, before the
      character and existence rules. */
  lemma {:induction false} BlankAnswerIsEmptyName(answer: string, pathExists: string -> bool)
    requires forall i :: 0 <= i < |answer| ==> IsJsWhitespace(answer[i])
    ensures Validate(answer, pathExists) == Rejected(EmptyName)
  {
    TrimEmptyIffBlank(answer);
  }

  /** A reserved character anywhere in the answer, whatever surrounds it,
      makes it refused for invalid characters. */
  lemma {:induction false} ReservedCharAnywhereRejects(before: string, c: char, after: string, pathExists: string -> bool)
    requires IsReservedChar(c)
    ensures Validate(before + [c] + after, pathExists) == Rejected(InvalidCharacters)
  {
    var answer := before + [c] + after;
    assert answer[|before|] == c;
    TrimKeepsNonWhitespace(answer, |before|);
    var name := Trim(answer);
    var j :| 0 <= j < |name| && name[j] == c;
    assert IsReservedChar(name[j]);
  }

  /** An accepted name is non-empty, has no surrounding whitespace and no
      reserved character, and did not exist; offered again against the same
      filesystem it is accepted again, unchanged. */
  lemma {:induction false} AcceptedNameIsStable(answer: string, pathExists: string -> bool)
    requires Validate(answer, pathExists).Accepted?
    ensures var n := Validate(answer, pathExists).name;
      n != [] && !IsJsWhitespace(n[0]) && !IsJsWhitespace(n[|n| - 1])
      && (forall i :: 0 <= i < |n| ==> !IsReservedChar(n[i]))
      && !pathExists(n)
      && Validate(n, pathExists) == Accepted(n)
  {
    TrimEmptyIffBlank(answer);
    TrimOfTrimmed(answer);
  }

  /** A name that passes the character rule holds no `"` and no `\`, so it
      can be placed inside a JSON string literal without escaping. */
  lemma AcceptedNameNeedsNoJsonEscape(answer: string, pathExists: string -> bool)
    requires Validate(answer, pathExists).Accepted?
    ensures '"' !in Validate(answer, pathExists).name && '\\' !in Validate(answer, pathExists).name
  {
    var n := Validate(answer, pathExists).name;
    assert forall i :: 0 <= i < |n| ==> !IsReservedChar(n[i]);
  }

  /** A readline answer holds no line break, and neither then does the name
      taken from it. */
  lemma AcceptedNameIsOneLine(answer: string, pathExists: string -> bool)
    requires '\n' !in answer
    requires Validate(answer, pathExists).Accepted?
    ensures '\n' !in Validate(answer, pathExists).name
  {
    TrimIsInnerSlice(answer);
    var n := Validate(answer, pathExists).name;
    var k := |answer| - |TrimStart(answer)|;
    assert forall i :: 0 <= i < |n| ==> n[i] == answer[k + i];
  }
}
