/**
 * The logic of the results card (client/src/components/ResultsDisplay.js):
 * interpreting a quiz response (formatQuizResponse), choosing how the
 * body is rendered, the icon/title/colour lookups, and the list of
 * "Try Different Analysis" options.
 */
module ResultsDisplay {
  import opened Wrappers
  import opened JsText
  import opened Json

  // ---------------------------------------------------------------------
  // Step 1: cleaning — trim, remove every ```json and ``` fence, trim again
  // ---------------------------------------------------------------------

  const JsonFence: string := "```json"
  const Fence: string := "```"

  /** Three backticks start at position i of s. */
  predicate FenceAt(s: string, i: nat) {
    i + 3 <= |s| && s[i] == '`' && s[i + 1] == '`' && s[i + 2] == '`'
  }

  /** The fence at the start of s is followed by "json", so the whole of "```json" matches. */
  predicate JsonTagAfterFence(s: string) {
    |s| >= 7 && s[3] == 'j' && s[4] == 's' && s[5] == 'o' && s[6] == 'n'
  }

  predicate NoFence(s: string) {
    forall i: nat :: i < |s| ==> !FenceAt(s, i)
  }

  /**
   * `s.replace(/```json|```/g, '')`: scanning left to right, at each position
   * the alternative "```json" is tried before "```"; a match is deleted and
   * the scan resumes after it, otherwise the character is kept.
   */
  function StripFences(s: string): (r: string)
    ensures |r| <= |s|
    decreases |s|
  {
    if |s| == 0 then ""
    else if FenceAt(s, 0) then
      if JsonTagAfterFence(s) then StripFences(s[7..]) else StripFences(s[3..])
    else [s[0]] + StripFences(s[1..])
  }

  /** The whole cleaning step of formatQuizResponse. */
  function Clean(response: string): string {
    Trim(StripFences(Trim(response)))
  }

  /** Removing fences never leaves three backticks in a row behind. */
  lemma {:induction false} StripFencesNoFence(s: string)
    ensures NoFence(StripFences(s))
    decreases |s|
  {
    if |s| == 0 {
    } else if FenceAt(s, 0) && JsonTagAfterFence(s) {
      StripFencesNoFence(s[7..]);
    } else if FenceAt(s, 0) {
      StripFencesNoFence(s[3..]);
    } else {
      var tail := StripFences(s[1..]);
      StripFencesNoFence(s[1..]);
      var r := [s[0]] + tail;
      assert StripFences(s) == r;
      assert !FenceAt(r, 0) by {
        if s[0] == '`' && |s| >= 2 {
          if s[1] == '`' {
            // s[1] is a backtick, so s[2] is not (or does not exist)
            assert !FenceAt(s[1..], 0);
            assert StripFences(s[1..]) == [s[1]] + StripFences(s[2..]);
          }
        }
      }
      forall i: nat | 1 <= i < |r| ensures !FenceAt(r, i) {
        assert !FenceAt(tail, i - 1);
      }
    }
  }

  /** A stretch without backticks passes through the fence removal untouched. */
  lemma {:induction false} StripFencesPlain(x: string, y: string)
    requires '`' !in x
    ensures StripFences(x + y) == x + StripFences(y)
    decreases |x|
  {
    if x != [] {
      assert x[0] in x && (x + y)[0] == x[0];
      assert forall c :: c in x[1..] ==> c in x;
      assert (x + y)[1..] == x[1..] + y;
      StripFencesPlain(x[1..], y);
      assert x + StripFences(y) == [x[0]] + (x[1..] + StripFences(y));
    } else {
      assert x + y == y;
    }
  }

  /** A response that carries no backtick at all is only trimmed. */
  lemma CleanUnfenced(p: string)
    requires '`' !in p
    ensures Clean(p) == Trim(p)
  {
    var t := Trim(p);
    TrimDropsOnly(p, '`');
    StripFencesPlain(t, "");
    assert t + "" == t;
    TrimIdempotent(p);
  }

  /** The fenced form in which the service usually wraps its JSON. */
  function Fenced(p: string): string {
    JsonFence + "\n" + p + "\n" + Fence
  }

  lemma StripFenced(p: string)
    requires '`' !in p
    ensures StripFences(Fenced(p)) == "\n" + p + "\n"
  {
    var f, inner := Fenced(p), "\n" + p + "\n";
    assert f == JsonFence + (inner + Fence);
    assert FenceAt(f, 0) && JsonTagAfterFence(f) && f[7..] == inner + Fence;
    assert '`' !in inner;
    StripFencesPlain(inner, Fence);
    assert StripFences(Fence) == "" by { assert FenceAt(Fence, 0) && Fence[3..] == ""; }
  }

  lemma TrimFenced(p: string)
    ensures Trim(Fenced(p)) == Fenced(p)
  {
    var f := Fenced(p);
    assert IsTrimmed(f) by { assert f[0] == '`' && f[|f| - 1] == '`'; }
    TrimOfTrimmed(f);
  }

  lemma TrimNewlines(p: string)
    requires IsTrimmed(p)
    ensures Trim("\n" + p + "\n") == p
  {
    assert AllWhitespace("\n") by { assert IsWhitespace('\n'); }
    TrimOfPadded("\n", p, "\n");
  }

  /** The fence is optional: a trimmed, backtick-free payload cleans to itself whether or not it is fenced. */
  lemma CleanFenced(p: string)
    requires '`' !in p && IsTrimmed(p)
    ensures Clean(Fenced(p)) == p
    ensures Clean(p) == p
  {
    TrimFenced(p);
    StripFenced(p);
    TrimNewlines(p);
    CleanUnfenced(p);
    TrimOfTrimmed(p);
  }

  // ---------------------------------------------------------------------
  // Step 2: the JSON candidate — `cleaned.match(/{[\s\S]*}/)`
  // ---------------------------------------------------------------------

  /** Some '{' comes before some '}'. */
  predicate HasBracePair(s: string) {
    exists i, j :: 0 <= i < j < |s| && s[i] == '{' && s[j] == '}'
  }

  /**
   * The greedy match of `{[\s\S]*}`: from the first '{' through the last '}',
   * when that '}' lies after the '{'; otherwise the whole cleaned string.
   */
  function JsonCandidate(cleaned: string): string {
    var first, last := IndexOf(cleaned, '{'), LastIndexOf(cleaned, '}');
    if first.Some? && last.Some? && first.value < last.value then cleaned[first.value..last.value + 1]
    else cleaned
  }

  /** Whenever the regex finds a span, a '{' does come before a '}'. */
  lemma SpanHasBracePair(s: string)
    ensures var first, last := IndexOf(s, '{'), LastIndexOf(s, '}');
      first.Some? && last.Some? && first.value < last.value ==> HasBracePair(s)
  {
    var first, last := IndexOf(s, '{'), LastIndexOf(s, '}');
    if first.Some? && last.Some? && first.value < last.value {
      assert s[first.value] == '{' && s[last.value] == '}';
    }
  }

  /** s[i..j+1] runs from the first '{' of s to its last '}'. */
  predicate OuterBraceSpan(s: string, i: int, j: int) {
    0 <= i < j < |s| && s[i] == '{' && s[j] == '}' && '{' !in s[..i] && '}' !in s[j + 1..]
  }

  /** With some '{' before some '}', the candidate runs from indexOf('{') through lastIndexOf('}'). */
  lemma JsonCandidateFromPair(s: string, i0: nat, j0: nat)
    requires i0 < j0 < |s| && s[i0] == '{' && s[j0] == '}'
    ensures IndexOf(s, '{').Some? && LastIndexOf(s, '}').Some?
    ensures IndexOf(s, '{').value <= i0 && j0 <= LastIndexOf(s, '}').value
    ensures JsonCandidate(s) == s[IndexOf(s, '{').value..LastIndexOf(s, '}').value + 1]
  {
    IndexOfFirst(s, '{', i0);
    LastIndexOfLast(s, '}', j0);
  }

  /** The candidate is the span from the very first '{' to the very last '}', or the whole string when no such span exists. */
  lemma JsonCandidateSpec(s: string)
    ensures HasBracePair(s) ==> exists i, j :: OuterBraceSpan(s, i, j) && JsonCandidate(s) == s[i..j + 1]
    ensures !HasBracePair(s) ==> JsonCandidate(s) == s
  {
    SpanHasBracePair(s);
    if HasBracePair(s) {
      var i0, j0 :| 0 <= i0 < j0 < |s| && s[i0] == '{' && s[j0] == '}';
      JsonCandidateFromPair(s, i0, j0);
      var i, j := IndexOf(s, '{').value, LastIndexOf(s, '}').value;
      assert OuterBraceSpan(s, i, j) && JsonCandidate(s) == s[i..j + 1];
    }
  }

  /** Text before the object without '{' and text after it without '}' is cut away. */
  lemma JsonCandidateSurrounded(pre: string, obj: string, post: string)
    requires '{' !in pre && '}' !in post
    requires |obj| >= 2 && obj[0] == '{' && obj[|obj| - 1] == '}'
    ensures JsonCandidate(pre + obj + post) == obj
  {
    var s := pre + obj + post;
    var a, b := |pre|, |pre| + |obj| - 1;
    assert s == pre + (obj + post) && (obj + post)[0] == '{';
    IndexOfAfterPrefix(pre, obj + post, '{');
    assert s == (pre + obj) + post && (pre + obj)[b] == '}';
    LastIndexOfBeforeSuffix(pre + obj, post, '}');
    assert s[a..b + 1] == obj;
  }

  /** A text that starts with '{' and ends with '}' is its own candidate. */
  lemma JsonCandidateOfObject(obj: string)
    requires |obj| >= 2 && obj[0] == '{' && obj[|obj| - 1] == '}'
    ensures JsonCandidate(obj) == obj
  {
    JsonCandidateSurrounded("", obj, "");
    assert "" + obj + "" == obj;
  }

  /** A fenced object, or the bare object, is handed to JSON.parse exactly as it is. */
  lemma FencedObjectCandidate(obj: string)
    requires '`' !in obj
    requires |obj| >= 2 && obj[0] == '{' && obj[|obj| - 1] == '}'
    ensures JsonCandidate(Clean(Fenced(obj))) == obj
    ensures JsonCandidate(Clean(obj)) == obj
  {
    assert IsTrimmed(obj) by {
      assert !IsWhitespace('{') && !IsWhitespace('}');
    }
    CleanFenced(obj);
    JsonCandidateOfObject(obj);
  }

  /** Preamble and postamble text around the object (without backticks, a '{' before or a '}' after it) is cut away before parsing. */
  lemma PreambleCandidate(pre: string, obj: string, post: string)
    requires '`' !in pre + obj + post
    requires '{' !in pre && '}' !in post
    requires |obj| >= 2 && obj[0] == '{' && obj[|obj| - 1] == '}'
    ensures JsonCandidate(Clean(pre + obj + post)) == obj
  {
    CleanUnfenced(pre + obj + post);
    TrimAround(pre, obj, post);
    var p, q := TrimStart(pre), TrimEnd(post);
    assert p == pre[|pre| - |p|..] && q == post[..|q|];
    assert '{' !in p && '}' !in q;
    JsonCandidateSurrounded(p, obj, q);
  }

  // ---------------------------------------------------------------------
  // Step 3: interpreting the parsed value
  // ---------------------------------------------------------------------

  /** One rendered option: its label as a UTF-16 code unit, its text, and whether it is marked correct. */
  datatype OptionView = OptionView(letter: nat, text: Json, correct: bool)

  /** One question block, headed "Question <number>: <question>". */
  datatype QuestionView = QuestionView(number: nat, question: Option<Json>, options: seq<OptionView>)

  /** What formatQuizResponse returns: question blocks, or one paragraph per line of the raw response. */
  datatype Formatted = Questions(questions: seq<QuestionView>) | Lines(lines: seq<string>)

  /** String.fromCharCode takes its argument modulo 2^16. */
  function FromCharCode(n: nat): nat {
    n % 0x1_0000
  }

  /** `q.options.map(...)`: label 65+index, marked when `index === q.correct`. */
  function FormatOptions(options: seq<Json>, correct: Option<Json>): (r: seq<OptionView>)
    ensures |r| == |options|
    ensures forall j :: 0 <= j < |options| ==> r[j].text == options[j]
  {
    seq(|options|, j requires 0 <= j < |options| =>
      OptionView(FromCharCode(65 + j), options[j], correct == Some(JNumber(j as real))))
  }

  /** `q` survives `q.question` and `q.options.map`: an object whose `options` is an array. */
  predicate Renderable(q: Json) {
    q.JObject? && "options" in q.fields && q.fields["options"].JArray?
  }

  function FormatQuestion(q: Json, index: nat): QuestionView
    requires Renderable(q)
  {
    QuestionView(index + 1, Property(q.fields, "question"),
                 FormatOptions(q.fields["options"].items, Property(q.fields, "correct")))
  }

  /** `parsed.questions.map(...)`: all blocks, or None when some question throws. */
  function FormatQuestions(qs: seq<Json>): Option<seq<QuestionView>> {
    if forall i :: 0 <= i < |qs| ==> Renderable(qs[i]) then
      Some(seq(|qs|, i requires 0 <= i < |qs| && Renderable(qs[i]) => FormatQuestion(qs[i], i)))
    else None
  }

  /**
   * The branch on `parsed.questions`. None means the fallback is taken:
   * `null` throws on the property read; other primitives and arrays have no
   * `questions`; a falsy `questions` skips the branch; a truthy non-array has
   * no `map`, which throws.
   */
  function QuizBlocks(parsed: Json): (r: Option<seq<QuestionView>>)
    ensures r.Some? ==>
      parsed.JObject? && "questions" in parsed.fields && Truthy(parsed.fields["questions"]) &&
      parsed.fields["questions"].JArray? && |r.value| == |parsed.fields["questions"].items|
  {
    match parsed
    case JObject(fields) =>
      (match Property(fields, "questions")
       case Some(JArray(qs)) => FormatQuestions(qs)
       case _ => None)
    case _ => None
  }

  /** formatQuizResponse, with JSON.parse passed in (None is a SyntaxError). */
  function FormatQuizResponse(response: string, parse: string -> Option<Json>): Formatted {
    FormatParsed(response, parse(JsonCandidate(Clean(response))))
  }

  /** What formatQuizResponse does once JSON.parse has answered: question blocks, or the line-by-line fallback. */
  function FormatParsed(response: string, parsed: Option<Json>): Formatted {
    match parsed
    case Some(v) =>
      (match QuizBlocks(v)
       case Some(blocks) => Questions(blocks)
       case None => Lines(Split(response, '\n')))
    case None => Lines(Split(response, '\n'))
  }

  /** The fallback is taken exactly when parsing or interpretation fails, and then it loses no text: one paragraph per line of the untrimmed response. */
  lemma QuizFallback(response: string, parse: string -> Option<Json>)
    ensures var parsed := parse(JsonCandidate(Clean(response)));
      FormatQuizResponse(response, parse).Lines? <==> (parsed.None? || QuizBlocks(parsed.value).None?)
    ensures FormatQuizResponse(response, parse).Lines? ==>
      var lines := FormatQuizResponse(response, parse).lines;
      Join(lines, '\n') == response && |lines| == Count(response, '\n') + 1 &&
      forall k :: 0 <= k < |lines| ==> '\n' !in lines[k]
  {
    JoinSplit(response, '\n');
    SplitPieces(response, '\n');
  }

  /** A one-line reply that is not a quiz is shown as a single paragraph equal to the reply. */
  lemma SingleLineFallback(response: string, parsed: Option<Json>)
    requires '\n' !in response
    requires parsed.None? || QuizBlocks(parsed.value).None?
    ensures FormatParsed(response, parsed) == Lines([response])
  {
    SplitWithoutSeparator(response, '\n');
  }

  /**
   * Once JSON.parse yields an object whose `questions` is an array of
   * renderable questions, the result has one block per question, in order,
   * numbered from 1, each carrying that question's text and its options.
   */
  lemma QuizQuestions(response: string, fields: map<string, Json>, qs: seq<Json>)
    requires "questions" in fields && fields["questions"] == JArray(qs)
    requires forall i :: 0 <= i < |qs| ==> Renderable(qs[i])
    ensures FormatParsed(response, Some(JObject(fields))).Questions?
    ensures var blocks := FormatParsed(response, Some(JObject(fields))).questions;
      |blocks| == |qs| &&
      forall i :: 0 <= i < |qs| ==>
        blocks[i].number == i + 1 &&
        blocks[i].question == Property(qs[i].fields, "question") &&
        blocks[i].options == FormatOptions(qs[i].fields["options"].items, Property(qs[i].fields, "correct"))
  {
    assert QuizBlocks(JObject(fields)) == FormatQuestions(qs);
  }

  /** Any question that is not an object with an array `options` makes the whole response fall back to lines. */
  lemma QuizUnrenderable(response: string, fields: map<string, Json>, qs: seq<Json>, k: nat)
    requires "questions" in fields && fields["questions"] == JArray(qs)
    requires k < |qs| && !Renderable(qs[k])
    ensures FormatParsed(response, Some(JObject(fields))) == Lines(Split(response, '\n'))
  {
    assert QuizBlocks(JObject(fields)) == FormatQuestions(qs);
  }

  /** A parsed value that is not an object, or whose `questions` is missing, falsy, or a truthy non-array (whose `.map` throws), falls back to lines. */
  lemma QuizNoQuestions(response: string, parsed: Json)
    requires || !parsed.JObject?
             || "questions" !in parsed.fields
             || !Truthy(parsed.fields["questions"])
             || (Truthy(parsed.fields["questions"]) && !parsed.fields["questions"].JArray?)
    ensures FormatParsed(response, Some(parsed)) == Lines(Split(response, '\n'))
  {
  }

  /** `correct` is present and is a whole number naming one of n options. */
  predicate IsIndex(correct: Option<Json>, n: nat) {
    correct.Some? && correct.value.JNumber? && correct.value.n.Floor as real == correct.value.n &&
    0.0 <= correct.value.n < n as real
  }

  /** At most one option is marked; an index is marked exactly when `correct` is that number, so an out-of-range or fractional `correct` marks none. */
  lemma MarkedOption(options: seq<Json>, correct: Option<Json>)
    ensures forall j, k :: 0 <= j < k < |options| ==>
      !(FormatOptions(options, correct)[j].correct && FormatOptions(options, correct)[k].correct)
    ensures forall j :: 0 <= j < |options| ==>
      (FormatOptions(options, correct)[j].correct <==> correct == Some(JNumber(j as real)))
    ensures !IsIndex(correct, |options|) ==>
      forall j :: 0 <= j < |options| ==> !FormatOptions(options, correct)[j].correct
  {
  }

  /** Options are labelled with code unit 65+j ('A', 'B', ..., then '[' and on); the label wraps modulo 2^16 as fromCharCode does. */
  lemma OptionLabels(options: seq<Json>, correct: Option<Json>)
    ensures forall j :: 0 <= j < |options| && 65 + j < 0x1_0000 ==>
      FormatOptions(options, correct)[j].letter == 'A' as int + j
    ensures forall j :: 0 <= j < |options| ==> FormatOptions(options, correct)[j].letter < 0x1_0000
  {
  }

  // ---------------------------------------------------------------------
  // Choosing the body, lookups, and the reprocess options
  // ---------------------------------------------------------------------

  /** The body of the card: only kind "quiz" goes through formatQuizResponse; every other kind shows the response as Markdown. */
  datatype Body = QuizBody(formatted: Formatted) | MarkdownBody(markdown: string)

  function RenderBody(requestType: string, aiResponse: string, parse: string -> Option<Json>): (r: Body)
    ensures r.QuizBody? <==> requestType == "quiz"
    ensures r.MarkdownBody? ==> r.markdown == aiResponse
    ensures r.QuizBody? ==> r.formatted == FormatQuizResponse(aiResponse, parse)
  {
    if requestType == "quiz" then QuizBody(FormatQuizResponse(aiResponse, parse)) else MarkdownBody(aiResponse)
  }

  datatype Icon = FileText | BookOpen | HelpCircle | Sparkles

  /** The four request kinds, in the order the reprocess list shows them. */
  const Kinds: seq<string> := ["summarize", "explain", "quiz", "notes"]

  predicate IsKnownKind(t: string) {
    t in Kinds
  }

  function GetIcon(requestType: string): Icon {
    match requestType
    case "summarize" => FileText
    case "explain" => BookOpen
    case "quiz" => HelpCircle
    case "notes" => Sparkles
    case _ => FileText
  }

  function GetTitle(requestType: string): string {
    match requestType
    case "summarize" => "Summary"
    case "explain" => "Explanation"
    case "quiz" => "Quiz Questions"
    case "notes" => "Study Notes"
    case _ => "Results"
  }

  function GetColor(requestType: string): string {
    match requestType
    case "summarize" => "text-blue-600"
    case "explain" => "text-green-600"
    case "quiz" => "text-purple-600"
    case "notes" => "text-orange-600"
    case _ => "text-blue-600"
  }

  /** What the results card shows for each known kind, written as one table. */
  datatype KindStyle = KindStyle(kind: string, title: string, icon: Icon, color: string)

  const Styles: seq<KindStyle> := [
    KindStyle("summarize", "Summary", FileText, "text-blue-600"),
    KindStyle("explain", "Explanation", BookOpen, "text-green-600"),
    KindStyle("quiz", "Quiz Questions", HelpCircle, "text-purple-600"),
    KindStyle("notes", "Study Notes", Sparkles, "text-orange-600")
  ]

  /** The three switches agree with the table, row by row, and the table covers exactly the known kinds in order. */
  lemma LookupTable()
    ensures |Styles| == |Kinds|
    ensures forall k :: 0 <= k < |Styles| ==> Styles[k].kind == Kinds[k]
    ensures forall k :: 0 <= k < |Styles| ==>
      GetTitle(Styles[k].kind) == Styles[k].title &&
      GetIcon(Styles[k].kind) == Styles[k].icon &&
      GetColor(Styles[k].kind) == Styles[k].color
  {
  }

  /** The lookups are total; the title tells the four kinds apart and is "Results" exactly for anything else, while icon and colour fall back to the summary's. */
  lemma LookupDefaults(t: string)
    ensures GetTitle(t) == "Results" <==> !IsKnownKind(t)
    ensures GetIcon(t) == FileText <==> (t == "summarize" || !IsKnownKind(t))
    ensures GetColor(t) == "text-blue-600" <==> (t == "summarize" || !IsKnownKind(t))
    ensures forall u :: IsKnownKind(t) && IsKnownKind(u) && GetTitle(t) == GetTitle(u) ==> t == u
  {
  }

  /** One "Try Different Analysis" button. */
  datatype ReprocessOption = ReprocessOption(kind: string, caption: string, icon: Icon)

  const AnalysisOptions: seq<ReprocessOption> := [
    ReprocessOption("summarize", "Summarize", FileText),
    ReprocessOption("explain", "Explain", BookOpen),
    ReprocessOption("quiz", "Quiz Me", HelpCircle),
    ReprocessOption("notes", "Study Notes", Sparkles)
  ]

  /** `options.filter(o => o.type !== requestType)`. */
  function WithoutKind(options: seq<ReprocessOption>, requestType: string): seq<ReprocessOption> {
    if |options| == 0 then []
    else (if options[0].kind != requestType then [options[0]] else []) + WithoutKind(options[1..], requestType)
  }

  lemma {:induction false} WithoutKindAppend(a: seq<ReprocessOption>, b: seq<ReprocessOption>, t: string)
    ensures WithoutKind(a + b, t) == WithoutKind(a, t) + WithoutKind(b, t)
    decreases |a|
  {
    if a != [] {
      assert (a + b)[0] == a[0];
      assert (a + b)[1..] == a[1..] + b;
      WithoutKindAppend(a[1..], b, t);
      var h := if a[0].kind != t then [a[0]] else [];
      assert WithoutKind(a + b, t) == h + WithoutKind(a[1..] + b, t);
      assert h + (WithoutKind(a[1..], t) + WithoutKind(b, t)) == (h + WithoutKind(a[1..], t)) + WithoutKind(b, t);
    } else {
      assert a + b == b;
    }
  }

  lemma {:induction false} WithoutAbsentKind(a: seq<ReprocessOption>, t: string)
    requires forall k :: 0 <= k < |a| ==> a[k].kind != t
    ensures WithoutKind(a, t) == a
    decreases |a|
  {
    if a != [] {
      assert forall k :: 0 <= k < |a| - 1 ==> a[1..][k] == a[k + 1];
      WithoutAbsentKind(a[1..], t);
    }
  }

  function ReprocessOptions(requestType: string): seq<ReprocessOption> {
    WithoutKind(AnalysisOptions, requestType)
  }

  /** An entry of the filtered kind between entries of other kinds is the only one removed. */
  lemma WithoutKindAround(pre: seq<ReprocessOption>, x: ReprocessOption, post: seq<ReprocessOption>, t: string)
    requires x.kind == t
    requires forall k :: 0 <= k < |pre| ==> pre[k].kind != t
    requires forall k :: 0 <= k < |post| ==> post[k].kind != t
    ensures WithoutKind(pre + [x] + post, t) == pre + post
  {
    WithoutAbsentKind(pre, t);
    WithoutAbsentKind(post, t);
    assert WithoutKind([x], t) == [] by {
      assert [x][1..] == [];
    }
    WithoutKindAppend(pre, [x], t);
    assert WithoutKind(pre + [x], t) == pre;
    WithoutKindAppend(pre + [x], post, t);
  }

  /** Filtering out a kind that occurs exactly once removes just that entry. */
  lemma WithoutUniqueKind(a: seq<ReprocessOption>, i: nat, t: string)
    requires i < |a| && a[i].kind == t
    requires forall k :: 0 <= k < |a| && k != i ==> a[k].kind != t
    ensures WithoutKind(a, t) == a[..i] + a[i + 1..]
  {
    var pre, post := a[..i], a[i + 1..];
    assert forall k :: 0 <= k < |pre| ==> pre[k].kind != t by {
      assert forall k :: 0 <= k < |pre| ==> pre[k] == a[k];
    }
    assert forall k :: 0 <= k < |post| ==> post[k].kind != t by {
      assert forall k :: 0 <= k < |post| ==> post[k] == a[i + 1 + k];
    }
    assert a == pre + [a[i]] + post;
    WithoutKindAround(pre, a[i], post, t);
  }

  lemma DropKnownKind(i: nat)
    requires i < |Kinds|
    ensures ReprocessOptions(Kinds[i]) == AnalysisOptions[..i] + AnalysisOptions[i + 1..]
  {
    var all := AnalysisOptions;
    assert forall k :: 0 <= k < |all| ==> all[k].kind == Kinds[k];
    WithoutUniqueKind(all, i, Kinds[i]);
  }

  /** The buttons are the four kinds in fixed order with the current kind removed: three for a known kind, all four otherwise. */
  lemma ReprocessOptionsSpec(requestType: string)
    ensures IsKnownKind(requestType) ==>
      exists i :: 0 <= i < |AnalysisOptions| && AnalysisOptions[i].kind == requestType &&
        ReprocessOptions(requestType) == AnalysisOptions[..i] + AnalysisOptions[i + 1..]
    ensures IsKnownKind(requestType) ==> |ReprocessOptions(requestType)| == 3
    ensures !IsKnownKind(requestType) ==> ReprocessOptions(requestType) == AnalysisOptions
  {
    var all := AnalysisOptions;
    assert forall k :: 0 <= k < |all| ==> all[k].kind == Kinds[k];
    if IsKnownKind(requestType) {
      var i :| 0 <= i < |Kinds| && Kinds[i] == requestType;
      DropKnownKind(i);
    } else {
      WithoutAbsentKind(all, requestType);
    }
  }

  /** Each button carries the icon the card header would use for that kind. */
  lemma ReprocessIconsAgree()
    ensures forall k :: 0 <= k < |AnalysisOptions| ==> AnalysisOptions[k].icon == GetIcon(AnalysisOptions[k].kind)
    ensures forall k :: 0 <= k < |AnalysisOptions| ==> AnalysisOptions[k].kind == Kinds[k]
  {
  }
}
