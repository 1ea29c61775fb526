/**
 The prompt builder: the stripped résumé text and job description are
 placed into a fixed instruction template. The template text is modelled as
 the three constant pieces around its two placeholders; the doubled braces
 of the source's format string appear here as the single braces the
 formatting produces.
 */
module Prompt {
  import opened Results
  import opened Strings

  const EmptyInput := "Resume Text And Job Description Cannot Be Empty."

  /** The template up to the résumé placeholder. */
  const Header: string :=
    "\n"
    + "    Act as an Expert ATS (Application Trcking System) specialist with deep experties in: \n"
    + "    - Technical Fields\n"
    + "    - Software Engineering\n"
    + "    - Data Science \n"
    + "    - Data Analysis \n"
    + "    - Big Data Engineering\n"
    + "\n"
    + "    Evaluate the following resume against the job description. Consider that the job market \n"
    + "    is highly competitive. Provide detailed feedbacks for resume improvement.\n"
    + "\n"
    + "    Resume:   \n"
    + "    "

  /** The template between the two placeholders. */
  const Middle: string :=
    "\n"
    + "\n"
    + "    Job Description:\n"
    + "    "

  /** The template after the job-description placeholder. */
  const Footer: string :=
    "\n"
    + "\n"
    + "     Provide a response in the following JSON format ONLY:\n"
    + "    {\n"
    + "        \"JD Match\": \"percentage between 0-100\",\n"
    + "        \"MissingKeywords\": [\"keyword1\", \"keyword2\", ...],\n"
    + "        \"Profile Summary\": \"detailed analysis of the match and specific improvement suggestions\"\n"
    + "    }\n"
    + "    "

  /** `needle` occurs in `hay` starting at index `i`. */
  predicate OccursAt(needle: string, hay: string, i: nat) {
    i + |needle| <= |hay| && hay[i..i + |needle|] == needle
  }

  /**
   Filling a template `head {} mid {} foot` with `a` and `b`: every piece
   lies where the template places it.
   */
  function Fill(head: string, a: string, mid: string, b: string, foot: string): (p: string)
    ensures |p| == |head| + |a| + |mid| + |b| + |foot|
    ensures OccursAt(head, p, 0)
    ensures OccursAt(a, p, |head|)
    ensures OccursAt(mid, p, |head| + |a|)
    ensures OccursAt(b, p, |head| + |a| + |mid|)
    ensures OccursAt(foot, p, |p| - |foot|)
  {
    var p := head + a + mid + b + foot;
    assert p[..|head|] == head;
    assert p[|head|..|head| + |a|] == a;
    assert p[|head| + |a|..|head| + |a| + |mid|] == mid;
    assert p[|head| + |a| + |mid|..|head| + |a| + |mid| + |b|] == b;
    assert p[|p| - |foot|..] == foot;
    p
  }

  /**
   `prepare_prompt`: the guard rejects an empty argument, and nothing else;
   an accepted pair gives the template filled with the two stripped
   arguments, résumé text first.
   */
  function PreparePrompt(resume: string, job: string): (r: Result<string>)
    ensures r.Err? <==> resume == "" || job == ""
    ensures r.Err? ==> r.message == EmptyInput
    ensures r.Ok? ==> r.value == Fill(Header, Strip(resume), Middle, Strip(job), Footer)
  {
    if resume == "" || job == "" then Err(EmptyInput)
    else Ok(Header + Strip(resume) + Middle + Strip(job) + Footer)
  }

  /**
   Both stripped arguments occur verbatim in an accepted prompt: the résumé
   text right after the fixed header, and the job description after it,
   separated from it only by the fixed middle piece.
   */
  lemma PromptContainsInputs(resume: string, job: string)
    requires resume != "" && job != ""
    ensures PreparePrompt(resume, job).Ok?
    ensures OccursAt(Strip(resume), PreparePrompt(resume, job).value, |Header|)
    ensures OccursAt(Strip(job), PreparePrompt(resume, job).value, |Header| + |Strip(resume)| + |Middle|)
  {
    var p := Fill(Header, Strip(resume), Middle, Strip(job), Footer);
    assert OccursAt(Strip(resume), p, |Header|);
    assert OccursAt(Strip(job), p, |Header| + |Strip(resume)| + |Middle|);
  }

  /**
   The guard only rejects empty strings: a whitespace-only résumé text is
   accepted and contributes nothing between header and middle.
   */
  lemma WhitespaceResumeAccepted(resume: string, job: string)
    requires resume != "" && AllSpace(resume) && job != ""
    ensures PreparePrompt(resume, job) == Ok(Header + Middle + Strip(job) + Footer)
  {
    StripAllSpace(resume);
    assert Header + [] == Header;
  }

  /** Likewise for a whitespace-only job description. */
  lemma WhitespaceJobAccepted(resume: string, job: string)
    requires resume != "" && job != "" && AllSpace(job)
    ensures PreparePrompt(resume, job) == Ok(Header + Strip(resume) + Middle + Footer)
  {
    StripAllSpace(job);
    assert Header + Strip(resume) + Middle + [] == Header + Strip(resume) + Middle;
  }

  /**
   Whitespace around a non-empty argument does not change the prompt: the
   prompt depends on the arguments only through their stripped forms.
   */
  lemma SurroundingSpaceIgnored(lead: string, resume: string, trail: string, job: string)
    requires AllSpace(lead) && AllSpace(trail)
    requires resume != "" && job != ""
    ensures PreparePrompt(lead + resume + trail, job) == PreparePrompt(resume, job)
  {
    StripAbsorbsSpace(lead, resume, trail);
  }

  /** Likewise for whitespace around a non-empty job description. */
  lemma SurroundingJobSpaceIgnored(resume: string, lead: string, job: string, trail: string)
    requires AllSpace(lead) && AllSpace(trail)
    requires resume != "" && job != ""
    ensures PreparePrompt(resume, lead + job + trail) == PreparePrompt(resume, job)
  {
    StripAbsorbsSpace(lead, job, trail);
  }

  /**
   The end-to-end example: both given texts, which carry no surrounding
   whitespace, appear verbatim in the prompt, résumé first.
   */
  lemma ExamplePrompt()
    ensures PreparePrompt("Python, SQL, 3 years experience", "Looking for Python and AWS experience")
      == Ok(Header + "Python, SQL, 3 years experience" + Middle + "Looking for Python and AWS experience" + Footer)
  {
    var resume, job := "Python, SQL, 3 years experience", "Looking for Python and AWS experience";
    assert [] + resume + [] == resume;
    assert [] + job + [] == job;
    StripOf([], resume, []);
    StripOf([], job, []);
  }
}
