/** What pressing "Submit" on the candidate form decides, in the order the
    form handler checks: the required fields, then the exit test, then the
    tidying of the tech stack that goes to the question generator. */
module Submission {
  import opened PyStr
  import opened TechStack
  import opened ExitCheck

  /** The form's fields as the widgets return them. `experience` is the
      number input (0 to 50 in the widget); it is never checked here. */
  datatype CandidateForm = CandidateForm(
    fullName: string,
    email: string,
    phone: string,
    experience: int,
    position: string,
    location: string,
    techStack: string)

  /** The fields that must be filled in, in the order they are tested. */
  function RequiredFields(f: CandidateForm): seq<string>
  {
    [f.fullName, f.email, f.phone, f.position, f.techStack]
  }

  /** `not full_name or not email or not phone or not position or not
      tech_stack`: some required text field is the empty string. */
  predicate MissingRequired(f: CandidateForm)
    ensures MissingRequired(f) <==> "" in RequiredFields(f)
  {
    f.fullName == "" || f.email == "" || f.phone == "" || f.position == "" || f.techStack == ""
  }

  /** The three ways a submission ends: a warning about missing fields, a
      goodbye, or question generation for the normalised tech list. */
  datatype SubmitStep = FieldsMissing | Goodbye | Generate(techList: string)

  /** The submit handler up to the question generator. */
  function OnSubmit(f: CandidateForm): (r: SubmitStep)
    ensures r == FieldsMissing <==> exists field :: field in RequiredFields(f) && |field| == 0
    ensures r == Goodbye <==> !MissingRequired(f) && IsExitRequest(f.techStack)
    ensures r.Generate? ==> r.techList == NormalizeTechList(f.techStack)
    ensures r.Generate? ==> !IsExitRequest(r.techList)
  {
    assert f.fullName in RequiredFields(f);
    if MissingRequired(f) then FieldsMissing
    else if IsExitRequest(f.techStack) then Goodbye
    else
      NormalizedStackStaysClear(f.techStack);
      Generate(NormalizeTechList(f.techStack))
  }

  // ---------------------------------------------------------------------
  // Facts about the submit handler

  /** Location and experience play no part in the decision. */
  lemma OptionalFieldsIgnored(f: CandidateForm, location: string, experience: int)
    ensures OnSubmit(f.(location := location, experience := experience)) == OnSubmit(f)
  {
    assert RequiredFields(f.(location := location, experience := experience)) == RequiredFields(f);
  }

  /** Only the empty string is missing: a blank-only field passes the gate,
      and a blank-only stack goes to the generator as an empty tech list. */
  lemma BlankStackReachesGenerator(f: CandidateForm)
    requires f.fullName != "" && f.email != "" && f.phone != "" && f.position != ""
    requires f.techStack == " "
    ensures OnSubmit(f) == Generate("")
  {
    assert Lower(" ") == " ";
    forall k, i | k in ExitKeywords ensures !OccursAt(Lower(" "), k, i) {
    }
    SplitWithoutSeparator(" ", ',');
    assert Strip(" ") == "";
    assert StripAll([" "]) == [""];
  }

  /** A fully filled form whose stack names a backend says goodbye instead
      of generating questions. */
  lemma BackendCandidateIsSentAway(f: CandidateForm)
    requires f.fullName != "" && f.email != "" && f.phone != "" && f.position != ""
    requires f.techStack == "Python, Django, Backend"
    ensures OnSubmit(f) == Goodbye
  {
    BackendMeansExit();
  }

  /** The missing-field warning comes first: an empty stack is reported as
      missing, never tested for keywords. */
  lemma EmptyStackIsMissing(f: CandidateForm)
    requires f.techStack == ""
    ensures OnSubmit(f) == FieldsMissing
  {
    assert f.techStack in RequiredFields(f);
  }
}
