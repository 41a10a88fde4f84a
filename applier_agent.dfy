/** The form filler: it shows the body of an application page to an LLM,
    reads back a JSON list of field descriptors, and fills each text-like
    field with an answer from the answerer. The browser driver, the LLM, the
    answerer and `json.loads` are given as oracles. */
module Applier {
  import opened Wrappers
  import opened Text
  import opened Jobs

  /** Markdown code fences that the LLM tends to wrap its JSON in. */
  const JsonFence := "```json"
  const Fence := "```"

  /** How many characters of the page body the analysis prompt shows. */
  const ContextLimit := 10000

  /** The analysis prompt around the page body. */
  const PromptHead := "\n        Analyze the following HTML form and identify the input fields, textareas, and file uploads.\n        Return a JSON list of objects with:\n        - \"id\": The html id or name or xpath selector\n        - \"type\": input type (text, email, file, radio, checkbox, etc)\n        - \"label\": The visible label text\n        - \"required\": boolean\n        \n        HTML Context (Truncated):\n        "
  const PromptTail := " \n        "

  /** The field types that get a typed answer. */
  const TextKinds: seq<string> := ["text", "email", "tel", "url", "number"]

  /** A field descriptor as `_fill_field` reads it: the `id`, `type` and
      `label` members of one JSON object, `None` when missing or null. */
  datatype FieldSpec = FieldSpec(id: Option<string>, kind: Option<string>, caption: Option<string>)

  /** One value visited by `for field in fields`: a JSON object, or anything
      else (a number, a string, a list, a key of an object). */
  datatype Item = Object(field: FieldSpec) | NonObject

  /** What `json.loads` gave, as the loop of `apply` sees it: the values it
      iterates over (the elements of a list, the keys of an object, the
      characters of a string), or a value it cannot iterate over. */
  datatype Decoded = Iterable(items: seq<Item>) | NotIterable

  /** What `_fill_field` did with one field. */
  datatype Action =
    | NoId                                                // no lookup, no question, no fill
    | LookupFailed(id: string)                            // the element was not found
    | AnswerFailed(id: string, question: string)          // the answerer raised
    | Typed(id: string, question: string, value: string)  // cleared, then given `value`
    | FileChecked(id: string, resume: Option<bool>)       // a `file` field: its label checked, nothing filled
    | Untouched(id: string)                               // found, but no fill for its type

  /** The outside world of `apply`. `None` stands for an exception.
      - navigate(url): `driver.get(url)` returned;
      - bodyHtml(url): the `innerHTML` of `<body>` of the page at `url`;
      - invoke(prompt): the content of the LLM's response;
      - decode(text): `json.loads(text)`, `None` on `JSONDecodeError`;
      - find(selector): `driver.find_element` by XPath found an element;
      - answer(question): the answerer's textual answer. */
  datatype Oracles = Oracles(
    navigate: string -> bool,
    bodyHtml: string -> Option<string>,
    invoke: string -> Option<string>,
    decode: string -> Option<Decoded>,
    find: string -> bool,
    answer: string -> Option<string>)

  /** How `apply` ended: an exception reached its handler after the fields
      in `filled` were handled, the cleaned response was not JSON, or every
      field was handled. */
  datatype Outcome = Aborted(filled: seq<Action>) | Unparsed(cleaned: string) | Done(filled: seq<Action>)

  /** Removing every "```" leaves none: an occurrence cannot be formed
      across a removed one, because the scan removes the leftmost first. */
  lemma {:induction false} RemoveFenceLeavesNone(s: string)
    ensures !Contains(RemoveAll(s, Fence), Fence)
  {
    var r := RemoveAll(s, Fence);
    if |s| < 3 {
      assert r == s;
    } else if s[..3] == Fence {
      RemoveFenceLeavesNone(s[3..]);
    } else {
      var t := s[1..];
      var rt := RemoveAll(t, Fence);
      RemoveFenceLeavesNone(t);
      assert r == [s[0]] + rt;
      if |r| >= 3 {
        if s[0] != '`' {
          assert r[0] != Fence[0];
        } else if s[1] != '`' {
          RemoveAllKeepsHead(t, Fence);
          assert r[1] != Fence[1];
        } else {
          assert s[2] != '`';
          if |t| >= 3 {
            assert t[..3] != Fence by { assert t[..3][1] == s[2]; }
            RemoveAllKeepsHead(t[1..], Fence);
            assert rt == [t[0]] + RemoveAll(t[1..], Fence);
          }
          assert r[2] == s[2];
        }
        assert r[..3] != Fence;
      }
      forall i | 1 <= i <= |r| - 3 ensures !At(r, Fence, i) {
        assert !At(rt, Fence, i - 1);
        assert r[i..i + 3] == rt[i - 1..i + 2];
      }
    }
  }

  /** The fence cleanup of the LLM's reply: every "```json" removed, then
      every "```", then surrounding whitespace stripped. The result has no
      surrounding whitespace and holds no "```". */
  function CleanFence(raw: string): (cleaned: string)
    ensures Trimmed(cleaned, IsSpace)
    ensures !Contains(cleaned, Fence)
  {
    var unfenced := RemoveAll(RemoveAll(raw, JsonFence), Fence);
    RemoveFenceLeavesNone(RemoveAll(raw, JsonFence));
    var cleaned := Trim(unfenced, IsSpace);
    var i := LeadLength(unfenced, IsSpace);
    NotContainsInfix(unfenced, Fence, i, i + |cleaned|);
    cleaned
  }

  /** "```json" holds "```", so a string without the one is without the other. */
  lemma NoJsonFence(s: string)
    requires !Contains(s, Fence)
    ensures !Contains(s, JsonFence)
  {
    forall i | 0 <= i <= |s| - |JsonFence| ensures !At(s, JsonFence, i) {
      assert !At(s, Fence, i);
      assert s[i..i + |JsonFence|][..3] == s[i..i + 3];
    }
  }

  /** Cleaning a cleaned reply changes nothing more. */
  lemma CleanFenceIdempotent(raw: string)
    ensures CleanFence(CleanFence(raw)) == CleanFence(raw)
  {
    var c := CleanFence(raw);
    NoJsonFence(c);
    RemoveAllAbsent(c, JsonFence);
    RemoveAllAbsent(c, Fence);
    TrimTrimmed(c, IsSpace);
  }

  /** A reply fenced as a json block is cleaned down to the text inside the
      fence, stripped, whatever that text is, as long as it holds no fence
      of its own. */
  lemma CleanFencedBlock(inner: string)
    requires !Contains(inner, Fence)
    ensures CleanFence(JsonFence + inner + Fence) == Trim(inner, IsSpace)
  {
    var raw := JsonFence + inner + Fence;
    assert raw[..|JsonFence|] == JsonFence && raw[|JsonFence|..] == inner + Fence;
    ClosedBlockHasNoJsonFence(inner);
    RemoveAllAbsent(inner + Fence, JsonFence);
    assert RemoveAll(raw, JsonFence) == inner + Fence;
    RemoveClosingFence(inner);
  }

  /** Closing a fence-free text with a fence makes no "```json". */
  lemma ClosedBlockHasNoJsonFence(inner: string)
    requires !Contains(inner, Fence)
    ensures !Contains(inner + Fence, JsonFence)
  {
    var s := inner + Fence;
    forall k | 0 <= k <= |s| - |JsonFence| ensures !At(s, JsonFence, k) {
      assert !At(inner, Fence, k);
      assert s[k..k + |JsonFence|][..3] == s[k..k + 3] == inner[k..k + 3];
    }
  }

  /** The closing fence of a fence-free text is removed, and nothing else:
      backquotes the text ends with are taken by the first "```" and given
      back by the last ones. */
  lemma {:induction false} RemoveClosingFence(inner: string)
    requires !Contains(inner, Fence)
    ensures RemoveAll(inner + Fence, Fence) == inner
  {
    var s := inner + Fence;
    if At(s, Fence, 0) {
      assert !At(inner, Fence, 0);
      assert forall k | 0 <= k < |inner| :: s[k] == inner[k];
      assert |inner| < 3;
      assert s[3..] == inner by {
        forall m | 0 <= m < |inner| ensures inner[m] == '`' {
          assert s[m] == s[..3][m];
        }
      }
    } else {
      assert inner != [];
      NotContainsTail(inner, Fence);
      RemoveClosingFence(inner[1..]);
      RemoveAllStep(s, Fence);
      ConsAppend(inner, Fence);
    }
  }

  /** The head and the tail of `a + b` for a non-empty `a`. */
  lemma ConsAppend<T>(a: seq<T>, b: seq<T>)
    requires a != []
    ensures (a + b)[0] == a[0] && (a + b)[1..] == a[1..] + b
    ensures [a[0]] + a[1..] == a
  {
  }

  /** A fenced reply is cleaned down to the JSON inside the fence. */
  lemma CleanFenceExample()
    ensures CleanFence("```json\n[]\n```") == "[]"
  {
    var inner := "\n[]\n";
    NotContainsChar(inner, Fence, 0);
    assert JsonFence + inner + Fence == "```json\n[]\n```";
    CleanFencedBlock(inner);
    StripLineBreaks();
  }

  /** The line breaks around the JSON of the example are stripped. */
  lemma StripLineBreaks()
    ensures Trim("\n[]\n", IsSpace) == "[]"
  {
    var s := "\n[]\n";
    assert s[1..3] == "[]";
    assert DropsBetween(s, 0, 1, IsSpace) && DropsBetween(s, 3, 4, IsSpace);
    TrimUnique(s, "[]", 1, IsSpace);
  }

  /** `inner_html[:10000]`: a prefix of the page body, all of it when it
      is short enough. */
  function Truncate(html: string): (context: string)
    ensures |context| <= ContextLimit && |context| <= |html|
    ensures context == html[..|context|]
    ensures |context| == |html| || |context| == ContextLimit
  {
    if |html| <= ContextLimit then html else html[..ContextLimit]
  }

  /** The prompt of `_analyze_form`: the instructions, then the first
      10000 characters of the body, then the closing blank line. Its length
      is bounded whatever the size of the page. */
  function AnalysisPrompt(html: string): (prompt: string)
    ensures prompt == PromptHead + Truncate(html) + PromptTail
    ensures |prompt| <= |PromptHead| + ContextLimit + |PromptTail|
    ensures |PromptHead| + |PromptTail| <= |prompt| <= |PromptHead| + |html| + |PromptTail|
  {
    PromptHead + Truncate(html) + PromptTail
  }

  /** The answer cleanup `str(answer).strip('"')`. */
  predicate IsQuote(c: char) {
    c == '"'
  }

  /** Every leading and trailing `"` removed and the inner ones kept: the
      result neither starts nor ends with `"` and sits in the raw answer with
      only quotes around it. */
  function CleanAnswer(raw: string): (value: string)
    ensures value == [] || (value[0] != '"' && value[|value| - 1] != '"')
    ensures Encloses(raw, value, LeadLength(raw, IsQuote), IsQuote)
  {
    Trim(raw, IsQuote)
  }

  /** Cleaning an answer twice changes nothing more. */
  lemma CleanAnswerIdempotent(raw: string)
    ensures CleanAnswer(CleanAnswer(raw)) == CleanAnswer(raw)
  {
    TrimIdempotent(raw, IsQuote);
  }

  /** The answer `"San Francisco"` is typed as `San Francisco`. */
  lemma CleanAnswerExample()
    ensures CleanAnswer("\"San Francisco\"") == "San Francisco"
  {
    var raw, value := "\"San Francisco\"", "San Francisco";
    assert raw[1..1 + |value|] == value && raw[..1] == "\"" && raw[1 + |value|..] == "\"";
    TrimUnique(raw, value, 1, IsQuote);
  }

  /** A label as an f-string shows it: a missing label reads `None`. */
  function LabelText(caption: Option<string>): string {
    match caption
    case None => "None"
    case Some(text) => text
  }

  /** The question put to the answerer for a text-like field. */
  function Question(caption: Option<string>, kind: string): (q: string)
    ensures |q| == |LabelText(caption)| + |kind| + 9
    ensures q[..|LabelText(caption)|] == LabelText(caption)
    ensures q[|LabelText(caption)|..|LabelText(caption)| + 8] == " (Type: "
    ensures q[|q| - |kind| - 1..] == kind + ")"
  {
    LabelText(caption) + " (Type: " + kind + ")"
  }

  /** The XPath that looks a field up by `id` or by `name`. */
  function Selector(id: string): (xpath: string)
    ensures |xpath| == 2 * |id| + 27
    ensures xpath[..9] == "//*[@id='" && xpath[9..9 + |id|] == id
    ensures xpath[9 + |id|..25 + |id|] == "'] | //*[@name='"
    ensures xpath[|xpath| - |id| - 2..] == id + "']"
  {
    var xpath := "//*[@id='" + id + "'] | //*[@name='" + id + "']";
    assert xpath[9..9 + |id|] == id;
    xpath
  }

  /** ASCII lower-casing of `label.lower()`. */
  function Lower(s: string): (r: string)
    ensures |r| == |s|
    ensures forall i | 0 <= i < |r| :: !('A' <= r[i] <= 'Z')
    ensures forall i | 0 <= i < |s| :: !('A' <= s[i] <= 'Z') ==> r[i] == s[i]
    ensures forall i | 0 <= i < |s| :: 'A' <= s[i] <= 'Z' ==> r[i] == (s[i] as int + 32) as char
  {
    seq(|s|, i requires 0 <= i < |s| => if 'A' <= s[i] <= 'Z' then (s[i] as int + 32) as char else s[i])
  }

  /** Lower-casing twice gives the same as lower-casing once. */
  lemma LowerIdempotent(s: string)
    ensures Lower(Lower(s)) == Lower(s)
  {
  }

  /** Lower-casing keeps every occurrence of a text without capitals. */
  lemma LowerKeeps(s: string, p: string)
    requires forall k | 0 <= k < |p| :: !('A' <= p[k] <= 'Z')
    ensures Contains(s, p) ==> Contains(Lower(s), p)
  {
    if Contains(s, p) {
      var i :| 0 <= i <= |s| - |p| && At(s, p, i);
      var l := Lower(s);
      forall k | 0 <= k < |p| ensures l[i + k] == p[k] {
        assert s[i + k] == s[i..i + |p|][k];
      }
      assert l[i..i + |p|] == p;
      assert At(l, p, i);
    }
  }

  /** The check of the `file` branch: the label, lower-cased, mentions a
      resume or a CV. A label that already says so in lower case passes. */
  function MentionsResume(caption: string): (mentions: bool)
    ensures Contains(caption, "resume") || Contains(caption, "cv") ==> mentions
  {
    LowerKeeps(caption, "resume");
    LowerKeeps(caption, "cv");
    Contains(Lower(caption), "resume") || Contains(Lower(caption), "cv")
  }

  /** The label `Upload your CV (PDF)` mentions a CV. */
  lemma CvLabelExample()
    ensures MentionsResume("Upload your CV (PDF)")
  {
    var l := Lower("Upload your CV (PDF)");
    assert l[12] == 'c' && l[13] == 'v';
    assert l[12..14] == "cv";
    assert At(l, "cv", 12);
  }

  /** `_fill_field` for one descriptor. A field without a (non-empty) id is
      skipped before anything is looked up; otherwise the element is looked
      up, a text-like field gets the cleaned answer to its question, a `file`
      field has its label checked for a resume or a CV but is left as it is
      either way, and any other field is left as it is.
      A raised exception ends only this field. */
  function FillField(f: FieldSpec, o: Oracles): (a: Action)
    ensures a.NoId? <==> f.id.None? || f.id.value == []
    ensures !a.NoId? ==> f.id == Some(a.id)
    ensures a.LookupFailed? <==> !a.NoId? && !o.find(Selector(a.id))
    ensures (a.Typed? || a.AnswerFailed?) <==>
              !a.NoId? && o.find(Selector(a.id)) && f.kind.Some? && f.kind.value in TextKinds
    ensures a.Typed? || a.AnswerFailed? ==> a.question == Question(f.caption, f.kind.value)
    ensures a.AnswerFailed? ==> o.answer(a.question).None?
    ensures a.Typed? ==> o.answer(a.question).Some? && a.value == CleanAnswer(o.answer(a.question).value)
    ensures a.FileChecked? <==> !a.NoId? && o.find(Selector(a.id)) && f.kind == Some("file")
    ensures a.FileChecked? ==> (a.resume.Some? <==> f.caption.Some?)
  {
    if f.id.None? || f.id.value == [] then NoId
    else
      var id := f.id.value;
      if !o.find(Selector(id)) then LookupFailed(id)
      else if f.kind.Some? && f.kind.value in TextKinds then
        var question := Question(f.caption, f.kind.value);
        match o.answer(question)
        case None => AnswerFailed(id, question)
        case Some(raw) => Typed(id, question, CleanAnswer(raw))
      else if f.kind == Some("file") then
        // `label.lower()` on a missing label raises, which is caught; either
        // way of the check leads to `pass`
        FileChecked(id, if f.caption.Some? then Some(MentionsResume(f.caption.value)) else None)
      else Untouched(id)
  }

  /** The loop `for field in fields: self._fill_field(field)`: objects are
      handled one by one, in order; the first non-object stops the loop,
      because `field.get` raises outside the `try` of `_fill_field`. The
      boolean says whether every item was handled. */
  function FillAll(items: seq<Item>, o: Oracles): (r: (seq<Action>, bool))
    ensures |r.0| <= |items|
    ensures forall k | 0 <= k < |r.0| :: items[k].Object? && r.0[k] == FillField(items[k].field, o)
    ensures r.1 <==> |r.0| == |items|
    ensures !r.1 ==> items[|r.0|].NonObject?
  {
    if items == [] then ([], true)
    else if items[0].NonObject? then ([], false)
    else
      var rest := FillAll(items[1..], o);
      ([FillField(items[0].field, o)] + rest.0, rest.1)
  }

  /** The loop's result is determined by where the first non-object sits:
      a run of actions for the objects before it, one per object, in order. */
  lemma {:induction false} FillAllIs(items: seq<Item>, o: Oracles, filled: seq<Action>)
    requires |filled| <= |items|
    requires forall k | 0 <= k < |filled| :: items[k].Object? && filled[k] == FillField(items[k].field, o)
    requires |filled| == |items| || items[|filled|].NonObject?
    ensures FillAll(items, o) == (filled, |filled| == |items|)
  {
    if filled != [] {
      FillAllIs(items[1..], o, filled[1..]);
      assert filled == [filled[0]] + filled[1..];
    }
  }

  /** The loop `for field in fields: self._fill_field(field)` of `apply`. */
  method FillFields(items: seq<Item>, o: Oracles) returns (filled: seq<Action>, complete: bool)
    ensures (filled, complete) == FillAll(items, o)
  {
    filled := [];
    for i := 0 to |items|
      invariant |filled| == i
      invariant forall k | 0 <= k < i :: items[k].Object? && filled[k] == FillField(items[k].field, o)
    {
      if items[i].NonObject? {
        FillAllIs(items, o, filled);
        return filled, false;
      }
      filled := filled + [FillField(items[i].field, o)];
    }
    FillAllIs(items, o, filled);
    complete := true;
  }

  /** The reply of `_analyze_form` for the page at `job.url`, or `None` when
      navigating, reading the body or calling the LLM raised. */
  function FormReply(job: Job, o: Oracles): (reply: Option<string>)
    ensures !o.navigate(job.url) || o.bodyHtml(job.url).None? ==> reply.None?
    ensures (o.navigate(job.url) && o.bodyHtml(job.url).Some?) ==> reply == o.invoke(AnalysisPrompt(o.bodyHtml(job.url).value))
  {
    if !o.navigate(job.url) then None
    else match o.bodyHtml(job.url)
      case None => None
      case Some(html) => o.invoke(AnalysisPrompt(html))
  }

  /** The cleaned reply of `_analyze_form`, decoded. */
  function DecodedReply(job: Job, o: Oracles): (decoded: Option<Decoded>)
    requires FormReply(job, o).Some?
    ensures exists text | Trimmed(text, IsSpace) && !Contains(text, Fence) :: decoded == o.decode(text)
  {
    var text := CleanFence(FormReply(job, o).value);
    assert Trimmed(text, IsSpace) && !Contains(text, Fence);
    o.decode(text)
  }

  /** A reply fenced as a json block is decoded from the text inside the
      fence, stripped. */
  lemma DecodedFencedReply(job: Job, o: Oracles, inner: string)
    requires FormReply(job, o) == Some(JsonFence + inner + Fence) && !Contains(inner, Fence)
    ensures DecodedReply(job, o) == o.decode(Trim(inner, IsSpace))
  {
    CleanFencedBlock(inner);
  }

  /** What `apply` does for a job. A reply that does not parse ends the
      attempt before any field is touched; a reply that parses to a list of
      field objects gets one action per field, in order; an exception
      before the loop ends the attempt with nothing filled. */
  function Attempt(job: Job, o: Oracles): (res: Outcome)
    ensures res.Unparsed? <==> FormReply(job, o).Some? && DecodedReply(job, o).None?
    ensures FormReply(job, o).None? ==> res == Aborted([])
    ensures FormReply(job, o).Some? && DecodedReply(job, o) == Some(NotIterable) ==> res == Aborted([])
    ensures FormReply(job, o).Some? && DecodedReply(job, o).Some? && DecodedReply(job, o).value.Iterable? ==>
              var items := DecodedReply(job, o).value.items;
              (res.Done? <==> forall k | 0 <= k < |items| :: items[k].Object?)
              && res.filled == FillAll(items, o).0
  {
    match FormReply(job, o)
    case None => Aborted([])
    case Some(raw) =>
      var cleaned := CleanFence(raw);
      match o.decode(cleaned)
      case None => Unparsed(cleaned)
      case Some(NotIterable) => Aborted([])
      case Some(Iterable(items)) =>
        var (filled, complete) := FillAll(items, o);
        if complete then Done(filled) else Aborted(filled)
  }

  /** `apply`. */
  method Apply(job: Job, o: Oracles) returns (res: Outcome)
    ensures res == Attempt(job, o)
  {
    if !o.navigate(job.url) {
      return Aborted([]);
    }
    var html := o.bodyHtml(job.url);
    if html.None? {
      return Aborted([]);
    }
    var reply := o.invoke(AnalysisPrompt(html.value));
    if reply.None? {
      return Aborted([]);
    }
    var cleaned := CleanFence(reply.value);
    var fields := o.decode(cleaned);
    if fields.None? {
      return Unparsed(cleaned);
    }
    if fields.value.NotIterable? {
      return Aborted([]);
    }
    var filled, complete := FillFields(fields.value.items, o);
    return if complete then Done(filled) else Aborted(filled);
  }
}
