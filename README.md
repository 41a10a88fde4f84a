# Job feed harvester and form filler, modelled in Dafny

The repository automates job applications. Two parts of it are modelled here.

- **The harvester** is `JobCollector` in `src/job_collector.py`. It downloads a markdown table of postings. For every table row it reads:
  - the company, in bold in column 1;
  - the role, in column 2;
  - the apply link, in column 5.
  It keeps a row only if its link contains `http`.
- **The form filler** is `ApplierAgent` in `src/applier_agent.py`. It works in five steps:
  - it opens the posting's page;
  - it shows the first 10000 characters of the page body to an LLM;
  - it strips the markdown code fences from the reply and decodes the JSON list of field descriptors;
  - it visits the descriptors in order;
  - it types the LLM answerer's reply, with surrounding quotes stripped, into every text-like field.

The browser driver, the LLM, the answerer and `json.loads` are oracles: total functions in the datatype `Applier.Oracles`. When one returns `None`, the Python call raised.

Files:

- `wrappers.dfy` holds `Option`.
- `text.dfy` (module `Text`) models the Python string operations the code relies on:
  - `split` on one character;
  - `strip()` and `strip('"')`;
  - `replace(p, "")`;
  - `in`.

  The code calls neither `find` nor `join`. `Text.Find` and `Text.Join` are reference readings: they are used to state what the operations above do.
- `job_collector.dfy` (module `Jobs`) holds:
  - the two regular expressions, each as a leftmost-start search;
  - the row parser and the document parser;
  - the class `JobCollector`.
- `applier_agent.dfy` (module `Applier`) holds:
  - the fence cleanup, the truncation and the prompt;
  - the quote trim;
  - the per-field dispatch;
  - `apply`.

Some behaviour one might expect from a form filler is not in this code, and the model does not add it:
- `_fill_field` does not route questions to resume sections.
- It has no branch for radio buttons, checkboxes or selects.
- It uploads no attachment.
- It does not de-duplicate field identifiers.
- It records no reason when it skips a field.

The code also behaves as follows, and the model does the same:
- A `file` field has its label checked for "resume"/"cv" and is then left alone either way.
- An item of the decoded list that is not a JSON object makes `field.get` raise. That happens outside `_fill_field`'s `try`, so the outer `except` of `apply` catches it and the remaining fields are not visited (`Outcome.Aborted` with the actions so far). So not every field is guaranteed an outcome.

## Model

| member | source | states |
|---|---|---|
| Text.Split | src/job_collector.py:55 | `str.split(c)`: at least one piece, no piece holds `c`, and joining the pieces with `c` gives the input back |
| Text.SplitJoin | src/job_collector.py:66 | the other round trip: splitting pieces that were joined, none holding the separator, gives the pieces back |
| Text.SplitAppend | src/job_collector.py:55 | splitting `a + sep + b` gives the pieces of `a` followed by the pieces of `b` |
| Text.SplitCount | src/job_collector.py:66-67 | the number of pieces is one more than the number of separators |
| Text.Trim | src/job_collector.py:87 | `strip`: the result has no stripped character at either end and sits in the input with only stripped characters around it |
| Text.LeadLength | src/job_collector.py:87 | the leading run of stripped characters: every character in it is stripped and the one after it is not |
| Text.TrailLength | src/job_collector.py:87 | the trailing run of stripped characters: every character in it is stripped and the one before it is not |
| Text.TrimUnique | src/job_collector.py:87 | any string with the two properties of `Trim` is `Trim`'s result, so the ensures characterise `strip` completely |
| Text.TrimIdempotent | src/applier_agent.py:109 | stripping twice gives the same as stripping once |
| Text.RemoveAll | src/applier_agent.py:68 | `replace(p, "")` scans left to right and never lengthens the string |
| Text.RemoveAllAbsent | src/applier_agent.py:68 | `replace(p, "")` changes nothing when `p` does not occur |
| Text.RemoveAllNotFound | src/applier_agent.py:68 | `replace(p, "")` keeps the string whole when `find` finds no `p` |
| Text.RemoveAllFound | src/applier_agent.py:68 | `replace(p, "")` keeps the text before the first occurrence of `p`, drops that occurrence and handles the rest the same way |
| Text.RemoveAllSkip | src/applier_agent.py:68 | text before the first occurrence of `p` is kept as it is |
| Jobs.Search | src/job_collector.py:81 | `pattern.search` returns the group of the leftmost start where an attempt succeeds, and nothing only when no start succeeds |
| Jobs.SearchLeftmost | src/job_collector.py:81 | given the leftmost successful start, `Search` returns that start's group |
| Jobs.SearchNone | src/job_collector.py:81 | when no start succeeds, `pattern.search` returns nothing |
| Jobs.LazyClose | src/job_collector.py:58 | `(.*?)</strong>` stops at the first `</strong>`; no `</strong>` and no line break comes before it; there is none when a line break comes first |
| Jobs.CompanyAt | src/job_collector.py:58 | the company attempt needs `<strong>` at the start; its group holds no `</strong>` and no line break |
| Jobs.CompanyMatch | src/job_collector.py:81-84 | the company found in a column holds no `</strong>` and no line break |
| Jobs.CompanyMatchOnLine | src/job_collector.py:58-84 | on one line, the company is the text between the leftmost `<strong>` and the first `</strong>` after it; with no such pair there is no company |
| Jobs.NoOpen | src/job_collector.py:58-84 | a column without `<strong>` has no company |
| Jobs.CompanyFound | src/job_collector.py:58-84 | on one line, with `<strong>` first found at `i` and `</strong>` first found after it at `j`, the company is the text between them |
| Jobs.NoCloseAfter | src/job_collector.py:58-84 | on one line, a `<strong>` with no `</strong>` after it gives no company |
| Jobs.LinkAt | src/job_collector.py:60 | the link attempt needs `<a href="` at the start; its group is a non-empty, quote-free run that is closed by `"` |
| Jobs.LinkMatch | src/job_collector.py:60-93 | the link is non-empty and quote-free, taken from the leftmost start that succeeds; no link means no start succeeds |
| Jobs.LinkAtFound | src/job_collector.py:60 | an occurrence of `<a href="` followed by a non-empty run without `"` and a closing `"` is matched, with the run as its group |
| Jobs.LinkMatchLeftmost | src/job_collector.py:60-93 | the link of a column is the run of the leftmost occurrence of the link pattern |
| Jobs.LinkMatchNone | src/job_collector.py:60-93 | a column without an occurrence of the link pattern has no link, so the row is skipped |
| Jobs.ParseColumns | src/job_collector.py:75-101 | a job is found exactly when column 1 has a company and column 5 has a link that contains `http`; its company is that match, its role is column 2 stripped, and its url is that link |
| Jobs.ParseRow | src/job_collector.py:62-101 | a line without `\|` or with `---` yields nothing; a job has a non-empty, quote-free url holding `http`, a company without `</strong>` or line break, and a stripped role |
| Jobs.ParseRowColumns | src/job_collector.py:63-68 | a line with a `\|`, without `---` and with at least five `\|` is read by its columns |
| Jobs.RoleNeverSkips | src/job_collector.py:87 | whatever column 2 holds, a row yields a job exactly when it does with any other role |
| Jobs.RowNeedsFivePipes | src/job_collector.py:66-68 | a line with fewer than five `\|` yields nothing |
| Jobs.RowWithinColumns | src/job_collector.py:66-87 | on a line, the job's company is the reference reading of column 1, its role is column 2 stripped, and no field crosses a column boundary |
| Jobs.CompanyCellRoundTrip | src/job_collector.py:58-84 | the name of a `<strong>name</strong>` cell is read back exactly |
| Jobs.LinkCellRoundTrip | src/job_collector.py:60-93 | the target of an `<a href="url">` cell is read back exactly |
| Jobs.NoMarkAcross | src/job_collector.py:63 | two texts without `---`, joined at a character other than `-`, make no `---` |
| Jobs.RowIsNoSeparator | src/job_collector.py:63 | a rendered row has a `\|`, and it has no `---` when its fields have none |
| Jobs.RowRoundTrip | src/job_collector.py:62-101 | a row rendered from a company, a role and an http url parses back to that posting, with the role stripped. The fields may hold `-`, but not `---`, `\|`, a `<` or line break in the company, or a `"` in the url |
| Jobs.JobsOfLines | src/job_collector.py:62-101 | each line contributes at most one job |
| Jobs.JobsOfLinesAppend | src/job_collector.py:62-97 | the jobs of `a + b` are the jobs of `a` followed by those of `b`, so output order is line order |
| Jobs.JobsOfLinesMember | src/job_collector.py:62-101 | a job is in the output exactly when some line yields it |
| Jobs.JobsOfNextLine | src/job_collector.py:62-101 | handling one more line appends that line's job, if any, to the jobs found so far |
| Jobs.ParseDocument | src/job_collector.py:49-107 | a document yields at most one job per line, and every job has a non-empty, quote-free url holding `http` |
| Jobs.RowJobsUsable | src/job_collector.py:97-101 | every job a row yields has a non-empty, quote-free url holding `http` |
| Jobs.ParseDocumentAppend | src/job_collector.py:55-62 | a document of two parts joined by a line break yields the jobs of the first part, then those of the second |
| Jobs.ParseDocumentJob | src/job_collector.py:55-101 | every emitted job comes from one line of the document: it has an http url, and its company is the reference reading of that line's column 1 |
| Jobs.ParseLine | src/job_collector.py:63-101 | the loop body yields exactly what `ParseRow` specifies for the line |
| Jobs.ParseMarkdownLinks | src/job_collector.py:49-107 | `_parse_markdown_links` returns the jobs of the document's lines in order, as `ParseDocument` specifies |
| Jobs.Collected | src/job_collector.py:25-47 | every collected job is usable, and no job is collected when every download failed |
| Jobs.JobCollector.constructor | src/job_collector.py:17-18 | a new collector has no jobs |
| Jobs.JobCollector.FetchJobLinks | src/job_collector.py:20-47 | returns the jobs of every target file whose download succeeded, file after file, and stores exactly that list in `jobs` |
| Applier.RemoveFenceLeavesNone | src/applier_agent.py:68 | removing every "```" leaves no "```" |
| Applier.CleanFence | src/applier_agent.py:68 | the cleaned reply has no surrounding whitespace and holds no "```" |
| Applier.NoJsonFence | src/applier_agent.py:68 | a string without "```" holds no "```json" either |
| Applier.CleanFenceIdempotent | src/applier_agent.py:68 | cleaning a cleaned reply changes nothing |
| Applier.CleanFencedBlock | src/applier_agent.py:68 | a reply fenced as a json block, with no fence inside, is cleaned to the text inside, stripped |
| Applier.ClosedBlockHasNoJsonFence | src/applier_agent.py:68 | closing a fence-free text with "```" makes no "```json" |
| Applier.RemoveClosingFence | src/applier_agent.py:68 | removing every "```" from a fence-free text followed by "```" gives the text back |
| Applier.CleanFenceExample | src/applier_agent.py:68 | a reply fenced as a json block cleans to the JSON inside |
| Applier.Truncate | src/applier_agent.py:151 | the context is a prefix of the page body, at most 10000 characters long, and all of the body when it is shorter |
| Applier.AnalysisPrompt | src/applier_agent.py:142-152 | the prompt is the fixed instructions, then the first min(10000, length) characters of the body, then the fixed tail; its length is bounded whatever the page |
| Applier.CleanAnswer | src/applier_agent.py:109 | the typed answer neither starts nor ends with `"` and sits in the raw answer with only quotes around it |
| Applier.CleanAnswerIdempotent | src/applier_agent.py:109 | stripping quotes twice gives the same as stripping once |
| Applier.CleanAnswerExample | src/applier_agent.py:109 | `"San Francisco"` is typed as `San Francisco` |
| Applier.Question | src/applier_agent.py:104 | the question is the label (`None` when missing), then ` (Type: `, then the field type and `)` |
| Applier.Selector | src/applier_agent.py:101 | the XPath is `//*[@id='`, the id, `'] \| //*[@name='`, the id and `']` |
| Applier.Lower | src/applier_agent.py:118 | lower-casing keeps the length, turns each capital A-Z into its lower-case letter, and changes no other character |
| Applier.LowerIdempotent | src/applier_agent.py:118 | lower-casing twice gives the same as once |
| Applier.LowerKeeps | src/applier_agent.py:118 | an occurrence of a text without capitals survives lower-casing |
| Applier.MentionsResume | src/applier_agent.py:118 | a label that says "resume" or "cv" in lower case passes the check |
| Applier.CvLabelExample | src/applier_agent.py:118 | the label `Upload your CV (PDF)` counts as mentioning a CV |
| Applier.FillField | src/applier_agent.py:83-126 | the outcome of a field is fixed by its case. A missing or empty id means no lookup. An element that is not found is not filled. Only text-like types are asked a question; that question is `label (Type: type)` and the typed value is the cleaned answer. A `file` field gets its label checked and is not filled. Other types are not filled |
| Applier.FillAll | src/applier_agent.py:74-75 | the fields are handled once each, in order, up to the first item that is not an object; the flag says whether all were handled |
| Applier.FillAllIs | src/applier_agent.py:74-75 | the result of the loop is fixed by the position of the first non-object |
| Applier.FillFields | src/applier_agent.py:74-75 | the loop of `apply` computes `FillAll` |
| Applier.FormReply | src/applier_agent.py:58-63 | no reply when navigation or reading the body raised; otherwise the reply is the LLM's answer to the analysis prompt for that page's body |
| Applier.DecodedReply | src/applier_agent.py:68-69 | the decoder sees text with no surrounding whitespace and no "```" |
| Applier.DecodedFencedReply | src/applier_agent.py:63-69 | a reply fenced as a json block is decoded from the stripped text inside the fence |
| Applier.Attempt | src/applier_agent.py:58-81 | a reply that does not decode ends `apply` before any field is touched; an exception before the loop leaves nothing filled; a decoded list gets one action per field, in order, complete exactly when every item is an object |
| Applier.Apply | src/applier_agent.py:44-81 | `apply` follows `Attempt` for every behaviour of the oracles |

## Left out

- HTTP fetching is left out: `requests.get`, `raise_for_status` and the diagnostic `print`s. A download is the parameter `fetch`, which returns `None` when the request raised.
- Selenium is left out: `init_browser`, `driver.get`, `find_element`, `clear`, `send_keys`, `quit` and `time.sleep(5)`. Navigation, reading the body and the XPath lookup are oracles. `clear` and `send_keys` are assumed to succeed, and the model records the value typed.
- The LLM and its helpers are left out: `self.llm.invoke`, `GPTAnswerer`, `AIAdapter`, `Resume`, `JobModel` and `set_job`. These are foreign code, so the LLM call and the answerer are oracles. Loading the resume file in `__init__` is file I/O.
- The internals of `json.loads` are left out. The decoder is an oracle that yields the items the loop would iterate over, or a value that cannot be iterated over.
- FieldSpec: holds only strings or nothing for `id`, `type` and `label`. A JSON number, boolean, list or object in those members, with its own truthiness and formatting, is not modelled.
- Applier.Lower: lower-cases ASCII letters only. Python's `str.lower` is Unicode-aware, but no non-ASCII character lower-cases to a letter of "resume" or "cv", so `MentionsResume` is not affected.
- Logging is left out; it has no effect on behaviour.
- `src/libs/prompts.py` and `config.py` are left out. They hold constants and templates that the modelled code does not use.
- The `__main__` blocks of both files are left out. They are manual test drivers.
- Regular expressions are modelled as the two fixed patterns only, not as a general regex engine.
