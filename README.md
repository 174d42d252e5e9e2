# finreg-app request logic, modelled in Dafny

The finreg-app backend (`app.py`) is a Flask portal for regulatory documents. Most of its handlers
pass SQL to PostgreSQL. This project models the part of `app.py` that decides something without
the database, and proves what it promises:

- **Upload filename check** (`allowed_file`). A name is accepted when it contains a `.` and the
  text after the last `.`, lower-cased, is `pdf`, `doc` or `docx` (module `Upload`).
- **FAQ keyword matcher** of `POST /api/chatbot`. The query is lower-cased, and an empty query gets
  "Please ask a question.". Each FAQ is scored by the number of distinct whitespace-separated
  words its lower-cased question shares with the query. The first FAQ with the strictly highest
  score wins. Its answer is returned only when that score is at least 2; otherwise a fixed
  no-match text is returned. Module `Chatbot` holds a specification by pure functions (`Top`,
  `Leader`, `Decide`, `Reply`) and the handler's loop as the method `ChatbotQuery`, which is proved
  equal to the specification.
- **Validation order of the upload handlers** `create_document` (`POST /api/documents`) and
  `register_user` (`POST /api/register`). Each is a pure decision function from the uploader
  lookup, the file part and the form fields to either `Proceed` or the status and error text the
  handler returns (module `Validation`). `Proceed` means the handler goes on to save the file and
  write to the database. Every `Reject` returns before either happens.
- Python's `str.lower()` and `str.split()` are in module `Text`. `lower()` is modelled as ASCII
  lower-casing. `split()` splits on runs of `str.isspace` characters and drops empty tokens.

For `allowed_file`, ASCII lower-casing is exact: no non-ASCII character lower-cases to one of the
letters of `pdf`, `doc` or `docx`.

`create_document` checks none of its form fields before writing. A missing `title` or `typeID`
reaches the document INSERT as NULL. A missing `serviceIDs[]` is an empty list, so no
`document_services` row is written. `CreateDocumentCheck` accordingly takes no form fields.

## Model

| member | source | states |
|---|---|---|
| `Text.Lower` | app.py:423 | `lower()` keeps the length, leaves no upper-case ASCII letter, and changes a character only to the lower-case form of an upper-case letter |
| `Text.Split` | app.py:438 | every token of `split()` is non-empty and holds no whitespace |
| `Text.SplitSpaceConcat` | app.py:438 | a whitespace character between two strings separates their words: the split of `a + [c] + b` is the split of `a` followed by the split of `b`, so runs of whitespace of any length and kind act as one separator |
| `Text.Words` | app.py:438 | `set(s.split())` holds only words, and no more of them than `split()` has tokens |
| `Text.SplitJoin` | app.py:438 | splitting words joined by single spaces gives back exactly those words (round trip) |
| `Text.SplitAllSpace` | app.py:438 | a string of whitespace only has no words |
| `Text.SplitLower` | app.py:441 | the words of a lower-cased string are the lower-cased words of the string |
| `Text.LowerIdempotent` | app.py:423 | lower-casing twice is the same as lower-casing once |
| `Upload.Extension` | app.py:35 | `rsplit('.', 1)[1]` is absent exactly when there is no `.`; otherwise it holds no `.` and the name is the part before it, a `.`, and it |
| `Upload.ExtensionOfSplit` | app.py:35 | the extension of `stem + "." + ext` is `ext` whenever `ext` has no `.`, whatever dots `stem` holds |
| `Upload.HasDotSplits` | app.py:35 | every name with a `.` is some `stem + "." + ext` with `ext` free of dots |
| `Upload.AllowedFile` | app.py:26-35 | a name is accepted exactly when, lower-cased, it ends in `.pdf`, `.doc` or `.docx` |
| `Upload.NoDotRejected` | app.py:35 | a name without a `.` is rejected |
| `Upload.AllowedFileIffExtension` | app.py:26-35 | `stem.ext` (ext without dots) is accepted if and only if lower-cased `ext` is in {pdf, doc, docx}; `stem` does not matter |
| `Upload.AllowedFileIgnoresCase` | app.py:35 | lower-casing the whole filename never changes the verdict |
| `Upload.SeveralDotsExample` | app.py:26-35 | `a.tar.PDF` is accepted |
| `Upload.LeadingDotExample` | app.py:26-35 | `.pdf` is accepted |
| `Upload.ExtraExtensionExample` | app.py:26-35 | `a.pdf.exe` is rejected |
| `Upload.TrailingOrNoDotExample` | app.py:26-35 | `report.` and `pdf` are rejected |
| `Chatbot.Score` | app.py:438-443 | an FAQ's score is at most the number of distinct words of the query and of the question |
| `Chatbot.Overlap` | app.py:441-443 | an FAQ's score never exceeds the number of distinct query words |
| `Chatbot.IntersectionBounded` | app.py:443 | the intersection of two word sets is no larger than either operand |
| `Chatbot.Top` | app.py:437-447 | the final `highest_score` is at least every score and is either 0 or one of the scores |
| `Chatbot.Leader` | app.py:436-447 | the FAQ whose answer `best_match_answer` ends up holding is the earliest one with the maximum score; there is none exactly when every score is 0 |
| `Chatbot.Decide` | app.py:423-454 | the prompt is the verdict exactly for the empty query; a matched FAQ exists and scores at least 2 |
| `Chatbot.Reply` | app.py:423-454 | the reply is the prompt for an empty query; otherwise it is the prompt, the no-match text, or the answer of an FAQ scoring at least 2 |
| `Chatbot.ChatbotQuery` | app.py:423-454 | the handler's scoring loop returns exactly `Reply(query, faqs)`, the reply the specification functions define |
| `Chatbot.EarliestMaximumIsLeader` | app.py:440-447 | an earliest positive maximum is the FAQ chosen, so the choice is unique |
| `Chatbot.TopBelow` | app.py:449-451 | the top score is below the threshold if and only if every score is |
| `Chatbot.EmptyQueryAsks` | app.py:423-426 | "Please ask a question." is the verdict exactly for the empty query, whatever the FAQs |
| `Chatbot.MatchedIsEarliestBest` | app.py:438-454 | FAQ `i` is answered if and only if the query is non-empty, `i` scores at least 2, no FAQ scores more, and every earlier FAQ scores less |
| `Chatbot.NoMatchIffAllBelowThreshold` | app.py:449-451 | the no-match text is the verdict if and only if the query is non-empty and every FAQ scores below 2 |
| `Chatbot.BlankQueryNoMatch` | app.py:423-451 | a query of whitespace only passes the emptiness test but matches no FAQ |
| `Chatbot.ScoreIgnoresCase` | app.py:423-443 | lower-casing the query or an FAQ question does not change any score |
| `Chatbot.DecideIgnoresCase` | app.py:423 | lower-casing the query does not change the verdict |
| `Chatbot.DefaultAnswerOnlyFromFaq` | app.py:436-454 | the default text set at line 436 is returned only if some FAQ's own answer is that text |
| `Validation.CreateDocumentCheck` | app.py:305-358 | a failing uploader lookup gives 500, no row or a NULL regulator 403, a missing, empty or disallowed file 400; otherwise the upload goes on under the uploader's regulator |
| `Validation.CreateDocumentRegulatorFirst` | app.py:305-358 | an uploader with no row or a NULL regulator gets 403 (a failing lookup 500), and the file part makes no difference |
| `Validation.CreateDocumentFileOrder` | app.py:315-321 | with a regulator found, "No file part", then "No selected file", then "File type not allowed" (each 400), each if and only if its condition is the first to fail |
| `Validation.CreateDocumentProceeds` | app.py:310-321 | the upload goes on, filed under the uploader's regulator, if and only if the regulator is set, a file part is present and its name is allowed |
| `Validation.RegisterCheck` | app.py:546-557 | every rejection is 400; registration goes on, with the submitted values, exactly when the profile part is present with an allowed name and email, password and user type are all non-empty |
| `Validation.RegisterProfileFirst` | app.py:546-547 | a missing `profilePDF` part gives 400 "Profile PDF is missing." whatever the fields |
| `Validation.RegisterFieldsBeforeExtension` | app.py:549-557 | a missing or empty email, password or user type, or an empty filename, gives the "required" 400 before the extension is checked; a bad extension gives "Invalid file type for profile." only when all of those are present; every rejection is 400 |
| `Validation.RegisterProceeds` | app.py:546-557 | registration goes on, with exactly the submitted values, if and only if every part is present and non-empty and the extension is allowed |

## Left out

- Chatbot.ChatbotQuery: lower-cases ASCII letters only. Python's `str.lower()` also folds non-ASCII capitals, so two non-ASCII words that differ only in case score as different words here.
- Chatbot.ChatbotQuery: the FAQ rows are a parameter. The database query, a failing connection (500 "An error occurred") and the JSON wrapping are I/O.
- Chatbot.ChatbotQuery: FAQ questions and answers are strings; NULL columns are not modelled. A NULL question makes `lower()` raise, and the handler answers 500 "An error occurred". A winning FAQ with a NULL answer gives a JSON `null` answer.
- Chatbot.ChatbotQuery: the query is taken as a string. A missing `query` key gives `""`. A JSON `null` or a non-string query raises in `lower()` before the handler's `try`; this is not modelled.
- Validation.CreateDocumentCheck: the only database call modelled is the uploader lookup, as an input (row, NULL regulator, no row, or a raised error). The document insert, the service links, commit and rollback are I/O.
- Validation.RegisterCheck: treats the uploaded file object as false when its filename is empty. This follows the truthiness of the web framework's file object, which is not part of this model.
- Reading the PDF text (`extract_text_from_pdf`), summarisation with the ML model (`summarize_text`, the `summarizer` pipeline), password hashing, `secure_filename` and saving the file are calls into libraries or the filesystem and are not modelled.
- Every other route handler of `app.py` (login, reference-data CRUD, user management, document listing and deletion) is SQL over a database whose contents the model cannot see.
- Semantic search, text normalisation, chunking and embeddings do not appear in `app.py`, so nothing here models them.
