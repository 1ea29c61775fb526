# Résumé/job-description matcher helper, modelled in Dafny

The helper module of this résumé ATS tracker does three things around two foreign services, a PDF library and a hosted language model:

- **Text extraction** (`extract_pdf_text`). It rejects a PDF with no pages. It keeps the text of every page that yields any, in page order, and joins the kept texts with single spaces. If no page yields text, it rejects the document. Every failure is re-raised as `Error Extracting PDF Text: <cause>`.
- **Prompt building** (`prepare_prompt`). It rejects an empty résumé text or job description. Otherwise it strips both and places them into a fixed instruction template, résumé first.
- **Response handling** (`get_gemini_response`). It rejects an empty reply. A reply that decodes as JSON is returned unchanged if it has the fields `JD Match`, `MissingKeywords` and `Profile Summary`; otherwise it fails naming the first missing one. A reply that does not decode is searched with the pattern `\{.*\}` (DOTALL), and the match is returned without any field check. Every failure is re-raised as `Error generating response: <cause>`.

Modules:

- `Results`: the `Option` and `Result` types. An error is the message of the exception raised.
- `Strings`: Python's `str.isspace`, `str.strip` and `str.join`.
- `PdfText`: the extractor, over a sequence of page texts.
- `Prompt`: the template and the builder.
- `Reply`: the JSON decoder oracle, the field check, the regex search as a backtracking matcher, the same search as a first-`{`/last-`}` index computation, and the handler.

The extraction loop and the field-check loop are methods with loop invariants. The handler `Reply.HandleReply` is a method too, because it runs the field-check loop. Everything else is functions and lemmas.

Two behaviours of the code are worth stating outright:
- The prompt builder's guard rejects only empty strings. A whitespace-only argument is accepted and strips to nothing (`Prompt.WhitespaceResumeAccepted`, `Prompt.WhitespaceJobAccepted`).
- A missing required field is raised inside the handler's outer `try`. Its message therefore also carries the `Error generating response: ` prefix.

The template of helper.py:78-101 is the three constants `Prompt.Header`, `Prompt.Middle` and `Prompt.Footer`. They hold the template text around its two placeholders, with the doubled braces `{{ }}` written as the single braces that formatting produces.

## Model

| member | source | states |
|---|---|---|
| `Strings.IsSpace` | helper.py:104-105 | the characters `strip()` removes: exactly those for which Python's `str.isspace` holds, by code point |
| `Strings.TrimStart` | helper.py:104-105 | what remains after dropping leading whitespace is a suffix of the input, only whitespace was dropped, and it does not start with whitespace |
| `Strings.TrimEnd` | helper.py:104-105 | what remains after dropping trailing whitespace is a prefix of the input, only whitespace was dropped, and it does not end with whitespace |
| `Strings.Strip` | helper.py:104-105 | `strip()` never lengthens its argument, and its result neither starts nor ends with whitespace |
| `Strings.StripSplit` | helper.py:104-105 | the argument is whitespace + the stripped result + whitespace |
| `Strings.StripOf` | helper.py:104-105 | reference characterisation: stripping whitespace + t + whitespace gives back t whenever t has no whitespace at either end |
| `Strings.StripAbsorbsSpace` | helper.py:104-105 | extra whitespace around an argument does not change its stripped form |
| `Strings.StripKeeps` | helper.py:104-105 | a string with no whitespace at either end is unchanged by `strip()` |
| `Strings.StripIdempotent` | helper.py:104-105 | stripping twice is the same as stripping once |
| `Strings.StripAllSpace` | helper.py:104-105 | a whitespace-only string strips to the empty string |
| `Strings.Join` | helper.py:68 | `" ".join(parts)` begins with the first part and ends with the last one |
| `Strings.JoinAppend` | helper.py:68 | joining one more part to a non-empty list adds exactly one separator followed by that part |
| `PdfText.Wrap` | helper.py:70-71 | every extraction failure is re-raised as `Error Extracting PDF Text: ` followed by the cause's message |
| `PdfText.TextPages` | helper.py:58-62 | the kept page texts are exactly the non-empty ones: none is empty, a text is kept iff it is a non-empty page text, and none is kept iff all pages are empty |
| `PdfText.TextPagesAppend` | helper.py:58-62 | the kept texts of two consecutive runs of pages are the kept texts of the first run followed by those of the second |
| `PdfText.ExtractedText` | helper.py:51-71 | a successful extraction is never the empty string |
| `PdfText.ExtractPdfText` | helper.py:51-71 | the loop's result equals `ExtractedText`; no pages fails with `Error Extracting PDF Text: PDF File Is Empty`; all pages empty fails with `Error Extracting PDF Text: No Text Could Be Extracted From The PDF`; otherwise the non-empty texts in page order, space-joined, and that text is non-empty |
| `PdfText.EmptyPageIgnored` | helper.py:58-68 | inserting an empty page anywhere into a document with at least one page leaves the result unchanged (no extra separator) |
| `PdfText.AppendTextPage` | helper.py:58-68 | one more page with text extends a successful result by one space and that text, and turns either failure (no pages, or no page with text) into that text alone |
| `Prompt.Fill` | helper.py:78-106 | filling the template places the header at 0, the first argument right after it, the middle piece next, the second argument after that and the footer at the end, with the total length the sum of the pieces |
| `Prompt.PreparePrompt` | helper.py:73-106 | fails, with `Resume Text And Job Description Cannot Be Empty.`, exactly when an argument is empty; otherwise it is the template filled with the stripped résumé text and the stripped job description, in that order |
| `Prompt.PromptContainsInputs` | helper.py:89-106 | an accepted prompt contains the stripped résumé text right after the header and the stripped job description after it, separated only by the middle piece |
| `Prompt.WhitespaceResumeAccepted` | helper.py:75-106 | a non-empty whitespace-only résumé text passes the guard and contributes nothing to the prompt |
| `Prompt.WhitespaceJobAccepted` | helper.py:75-106 | a non-empty whitespace-only job description passes the guard and contributes nothing to the prompt |
| `Prompt.SurroundingSpaceIgnored` | helper.py:103-106 | whitespace around a non-empty résumé text does not change the prompt |
| `Prompt.SurroundingJobSpaceIgnored` | helper.py:103-106 | whitespace around a non-empty job description does not change the prompt |
| `Prompt.ExamplePrompt` | helper.py:73-106 | the résumé text "Python, SQL, 3 years experience" and job description "Looking for Python and AWS experience" appear verbatim in the prompt, résumé first |
| `Reply.Wrap` | helper.py:47-48 | every handler failure is re-raised as `Error generating response: ` followed by the cause's message |
| `Reply.FindMissingField` | helper.py:29-33 | the fields are checked in their fixed order: nothing is reported iff all three are present, otherwise the reported field is absent and every field before it is present |
| `Reply.CloseFrom` | helper.py:40-41 | backtracking `.*` closes the match on the last `}` after the opening `{`, and fails iff there is none |
| `Reply.MatchAt` | helper.py:40-41 | one match attempt at a position succeeds iff a `{` stands there and some `}` follows, and then ends on the last `}` of the text |
| `Reply.SearchFrom` | helper.py:40-43 | a match found by `re.search` starts at or after the search start and ends after it starts, within the text |
| `Reply.RegexSearch` | helper.py:41-43 | `re.search` with `match.group()` finds a match iff some `{` precedes some `}`, and the matched text starts with `{` and ends with `}` |
| `Reply.FindFrom` | helper.py:40-41 | the first occurrence of a character from a position on, or none when it does not occur there |
| `Reply.FindLastBefore` | helper.py:40-41 | the last occurrence of a character before a position, or none when it does not occur there |
| `Reply.BraceSpan` | helper.py:40-43 | the span from the first `{` to the last `}` exists iff some `{` precedes some `}`, and then it contains every such pair (leftmost start, longest end) |
| `Reply.RegexSearchIsBraceSpan` | helper.py:40-43 | `re.search(r'\{.*\}', s, re.DOTALL)` matches exactly from the first `{` to the last `}`, and fails when the first `{` does not precede the last `}` |
| `Reply.RecoveredPayload` | helper.py:40-43 | a recovered payload starts with `{`, ends with `}`, and is a contiguous piece of the reply with no `{` before it and no `}` after it |
| `Reply.EmbeddedObjectRecovered` | helper.py:37-43 | a non-JSON reply holding an object between brace-free noise yields exactly that object |
| `Reply.HandleReply` | helper.py:14-48 | an empty reply fails; a decoded reply is returned unchanged iff all three fields are present, else it fails naming the first missing field; a decoded number, boolean or null fails with the type error the oracle reports; an undecodable reply yields the regex match without a field check, or fails with `Could not extract valid JSON response`; every failure carries `Error generating response: ` |

## Left out

- `configure_genai` (helper.py:6-11) only hands a credential to the model library. It has no logic of its own to model.
- The model call `GenerativeModel('gemini-2.0-flash').generate_content(prompt)` (helper.py:17-18) is a network call. `Reply.HandleReply` takes the reply text as a parameter instead. A missing response object is treated like empty reply text. An exception raised by the client, or by reading `response.text`, is not modelled.
- PDF parsing with `PdfReader` and `page.extract_text()` (helper.py:54-60) is a foreign library. `PdfText.ExtractPdfText` takes the per-page texts as input, with "" for a page that yields None or no text. A parser exception is not modelled; the source would re-raise it with the same `Error Extracting PDF Text: ` prefix.
- `json.loads` (helper.py:27) is an oracle parameter, `loads: string -> Json`. Its JSON grammar is not modelled. The oracle reports, for a decoded value, the set of strings that Python's `in` accepts on it. For a decoded number, boolean or null it reports the message of the `TypeError` the membership test raises. Decoder failures other than a decode error (for example a recursion-depth error on deeply nested input) are not modelled.
- Exception classes (`Exception`, `ValueError`, `JSONDecodeError`, `TypeError`) are reduced to the message text. For `extract_pdf_text` and `get_gemini_response`, which re-raise a plain `Exception`, the message is all a caller receives. `prepare_prompt` raises its `ValueError` (helper.py:76) unwrapped, so a caller could also catch it by class; the model does not record that class.
- Python strings may hold lone surrogate code points, but Dafny's `char` cannot. Strings containing them are outside the model.
- The commented-out model-listing block at helper.py:117-127 is dead code.
