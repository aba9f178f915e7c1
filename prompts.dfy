/** The two prompt builders: the detection prompt, which asks the
    text-generation service for the defective segments of one type, and the
    question prompt, which asks it for one clarifying question about one
    segment. Both are pure string construction. */
module Prompts {
  import opened Text
  import opened Wrappers
  import opened Catalog

  /** The `ValueError` raised for an identifier outside the catalog. */
  datatype PromptError = InvalidDefectType(defectType: string)

  /** The reply the incompleteness template asks for when nothing is missing. */
  const IncompletenessSentinel: string := "Missing Information: No Defect Found"

  /** The reply the ambiguity template asks for when nothing is found. */
  const AmbiguitySentinel: string := "No Defect Found"

  /** The label in front of the request text at the end of both templates. */
  const StatementLabel: string := "Statement: "

  // The fixed text of the incompleteness template, around its sentinel.
  const IncompletenessOpening: string :=
    "You are a software analyst specializing in incompleteness detection in GitHub feature requests.\n        Carefully analyze the given feature request statement and determine whether it is incomplete. If the request is incomplete, identify the missing information required for completeness. Include all the missing information in a single comma-separated list. Ensure that every element of the list is enclosed in quotation marks.\n        If the request statement is complete, return "
  const IncompletenessClosing: string :=
    ".\n        Do not provide any explanations, reasoning, or additional text that is not from the given statement.\n\n       "

  // The fixed text of the ambiguity template, around its two requests for
  // "<subclass> ambiguity" and its sentinel.
  const AmbiguityOpening: string :=
    "You are a software analyst specializing in ambiguity detection in GitHub feature requests.\n        Carefully read the given statement. Extract and list any text segments containing "
  const AmbiguityMiddle: string :=
    " from the statement. Multiple segments may contain "
  const AmbiguityListing: string :=
    "; include all of them in a single comma-separated list. Make sure to have all elements of the list in quotation marks.\n        If no segments are found, return "
  const AmbiguityClosing: string :=
    ". Do not give any explanations, reasoning, or any extra text that is not from the given statement.\n    \n        "

  // The fixed text of the question template before the defect type and
  // after the quoted request.
  const QuestionOpening: string :=
    "You are a software requirements analyst. Given the following segment from a GitHub feature request, generate a clarifying questions to help the requester remove the "
  const QuestionClosing: string :=
    "\n\n    Only output the question. Do not explain or elaborate."

  /** `Definition: <defect_type>: <definition>` and a blank line: the
      opening of every detection prompt. */
  function Header(defectType: string): string {
    "Definition: " + defectType + ": " + DefinitionFor(defectType) + "\n\n"
  }

  /** The incompleteness template; the request follows the statement
      label and a space closes it. */
  function IncompletenessInstructions(request: string): string {
    IncompletenessOpening + IncompletenessSentinel + (IncompletenessClosing + (StatementLabel + request + " "))
  }

  /** The part of the ambiguity template that names the subclass twice. */
  function AmbiguityAsk(subclass: string): string {
    AmbiguityOpening + (subclass + " ambiguity") + (AmbiguityMiddle + (subclass + " ambiguity") + AmbiguityListing)
  }

  /** The ambiguity template; it ends with the request itself. */
  function AmbiguityInstructions(subclass: string, request: string): string {
    AmbiguityAsk(subclass) + AmbiguitySentinel + (AmbiguityClosing + (StatementLabel + request))
  }

  /** `detection_prompt`: the header followed by the incompleteness
      template when the lower-cased identifier is `incompleteness`, by the
      ambiguity template when it is one of the other five, and an error
      otherwise. The title takes no part: it only feeds a statement line
      that is built and then discarded. */
  function DetectionPrompt(defectType: string, request: string, title: Option<string>): (r: Result<string, PromptError>)
    ensures r.Ok? <==> Lower(defectType) in DefectTypes
    ensures r.Err? ==> r.error == InvalidDefectType(defectType)
  {
    CatalogShape();
    var prompt := Header(defectType);
    if Lower(defectType) == Incompleteness then
      Ok(prompt + IncompletenessInstructions(request))
    else if Lower(defectType) in AmbiguityTypes then
      Ok(prompt + AmbiguityInstructions(Subclass(defectType), request))
    else
      Err(InvalidDefectType(defectType))
  }

  /** `cqs_prompt` */
  function QuestionPrompt(segment: string, defectType: string, request: string): string {
    QuestionOpening + defectType + ".\n    " + ("Segment: \"" + segment + "\"")
      + ("\n    " + ("Original Request: \"" + request + "\"") + QuestionClosing)
  }

  /** Every accepted detection prompt opens with the identifier as given
      and its catalog definition, and for incompleteness ends with the
      statement and a space and names its sentinel. */
  lemma IncompletenessPromptShape(defectType: string, request: string, title: Option<string>)
    requires Lower(defectType) == Incompleteness
    ensures DetectionPrompt(defectType, request, title).Ok?
    ensures var p := DetectionPrompt(defectType, request, title).value;
      && "Definition: " + defectType + ": " + Definitions[Incompleteness] + "\n\n" <= p
      && EndsWith(p, StatementLabel + request + " ")
      && Contains(p, IncompletenessSentinel)
  {
    CatalogShape();
    var h := Header(defectType);
    var body := IncompletenessInstructions(request);
    var tail := IncompletenessClosing + (StatementLabel + request + " ");
    OccursInMiddle(IncompletenessOpening, IncompletenessSentinel, tail);
    OccursAfter(h, body, IncompletenessSentinel, |IncompletenessOpening|);
    EndsWithSuffix(IncompletenessClosing, StatementLabel + request + " ");
    EndsWithAfter(IncompletenessOpening + IncompletenessSentinel, tail, StatementLabel + request + " ");
    EndsWithAfter(h, body, StatementLabel + request + " ");
    assert (h + body)[..|h|] == h;
  }

  /** The ambiguity template asks for "<subclass> ambiguity", names the
      ambiguity sentinel and ends with the statement. */
  lemma AmbiguityInstructionsShape(sub: string, request: string)
    ensures var body := AmbiguityInstructions(sub, request);
      && EndsWith(body, StatementLabel + request)
      && Contains(body, AmbiguitySentinel)
      && Contains(body, sub + " ambiguity")
  {
    var ask := AmbiguityAsk(sub);
    var tail := AmbiguityClosing + (StatementLabel + request);
    OccursInMiddle(AmbiguityOpening, sub + " ambiguity", AmbiguityMiddle + (sub + " ambiguity") + AmbiguityListing);
    OccursBefore(ask, AmbiguitySentinel, sub + " ambiguity", |AmbiguityOpening|);
    OccursBefore(ask + AmbiguitySentinel, tail, sub + " ambiguity", |AmbiguityOpening|);
    OccursInMiddle(ask, AmbiguitySentinel, tail);
    EndsWithSuffix(AmbiguityClosing, StatementLabel + request);
    EndsWithAfter(ask + AmbiguitySentinel, tail, StatementLabel + request);
  }

  /** For the five ambiguity identifiers the prompt opens the same way,
      ends with the statement, names the ambiguity sentinel and asks for
      "<Subclass> ambiguity" with the title-cased subclass name. */
  lemma AmbiguityPromptShape(defectType: string, request: string, title: Option<string>)
    requires Lower(defectType) in AmbiguityTypes
    ensures DetectionPrompt(defectType, request, title).Ok?
    ensures var p := DetectionPrompt(defectType, request, title).value;
      && "Definition: " + defectType + ": " + DefinitionFor(defectType) + "\n\n" <= p
      && EndsWith(p, StatementLabel + request)
      && Contains(p, AmbiguitySentinel)
      && Contains(p, KnownSubclass(Lower(defectType)) + " ambiguity")
  {
    CatalogShape();
    AmbiguitySubclass(defectType);
    var h := Header(defectType);
    var sub := Subclass(defectType);
    var body := AmbiguityInstructions(sub, request);
    assert Lower(defectType) != Incompleteness;
    assert DetectionPrompt(defectType, request, title) == Ok(h + body);
    AmbiguityInstructionsShape(sub, request);
    ContainsAfter(h, body, AmbiguitySentinel);
    ContainsAfter(h, body, sub + " ambiguity");
    EndsWithAfter(h, body, StatementLabel + request);
    assert (h + body)[..|h|] == h;
  }

  /** The title never changes the detection prompt. */
  lemma DetectionPromptIgnoresTitle(defectType: string, request: string, t1: Option<string>, t2: Option<string>)
    ensures DetectionPrompt(defectType, request, t1) == DetectionPrompt(defectType, request, t2)
  {
  }

  /** Apart from the identifier echoed in the header, the detection prompt
      does not depend on the case of the identifier. */
  lemma DetectionPromptIgnoresCase(defectType: string, request: string, title: Option<string>)
    requires Lower(defectType) in DefectTypes
    ensures DetectionPrompt(Lower(defectType), request, title).Ok?
    ensures |Header(defectType)| <= |DetectionPrompt(defectType, request, title).value|
    ensures |Header(Lower(defectType))| <= |DetectionPrompt(Lower(defectType), request, title).value|
    ensures DetectionPrompt(defectType, request, title).value[|Header(defectType)|..]
         == DetectionPrompt(Lower(defectType), request, title).value[|Header(Lower(defectType))|..]
  {
    LowerIdempotent(defectType);
    SubclassIgnoresCase(defectType);
  }

  /** The question prompt quotes the segment and the request, and names
      the defect type. */
  lemma QuestionPromptShape(segment: string, defectType: string, request: string)
    ensures var p := QuestionPrompt(segment, defectType, request);
      && QuestionOpening + defectType <= p
      && Contains(p, "Segment: \"" + segment + "\"")
      && Contains(p, "Original Request: \"" + request + "\"")
  {
    var front := QuestionOpening + defectType + ".\n    ";
    var quoted := "Segment: \"" + segment + "\"";
    var back := "\n    " + ("Original Request: \"" + request + "\"") + QuestionClosing;
    OccursInMiddle(front, quoted, back);
    OccursInMiddle("\n    ", "Original Request: \"" + request + "\"", QuestionClosing);
    OccursAfter(front + quoted, back, "Original Request: \"" + request + "\"", 5);
  }

  /** Different segments of the same type and request give different
      question prompts. */
  lemma QuestionPromptInjective(s1: string, s2: string, defectType: string, request: string)
    ensures QuestionPrompt(s1, defectType, request) == QuestionPrompt(s2, defectType, request) <==> s1 == s2
  {
    if QuestionPrompt(s1, defectType, request) == QuestionPrompt(s2, defectType, request) {
      var p := QuestionPrompt(s1, defectType, request);
      var i := |QuestionOpening| + |defectType| + 16;
      assert p[i..i + |s1|] == s1;
      assert p[i..i + |s2|] == s2;
    }
  }
}
