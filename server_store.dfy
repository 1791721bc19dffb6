/**
 * The server's in-memory state (server.js): the `exerciseSets` table and the `systemSettings`
 * record, the API routes that read and change them, and the pure helpers around the LLM calls
 * (parsing the generated exercises, cleaning up or inventing a title, assembling the chat
 * prompt).
 *
 * HTTP plumbing is not modelled: a route is a method whose inputs are the request's fields and
 * whose result is the response's status and payload. The OpenAI calls, `jwt.verify`, the random
 * id and the clock are inputs too: a reply is `None` when the call failed, `verified` is what
 * `jwt.verify` said about the token, and the id and the timestamp are passed in.
 */
module ServerStore {
  import opened Wrappers
  import opened JsString
  import ExerciseList

  /** A field of a JSON request body: absent (`undefined`), `null`, or a string. */
  datatype BodyValue = Missing | Null | Text(s: string)

  /** JavaScript truthiness of a body field: a non-empty string. */
  predicate Truthy(v: BodyValue) {
    v.Text? && v.s != ""
  }

  /** The field as string concatenation prints it. */
  function Printed(v: BodyValue): string {
    match v
    case Missing => "undefined"
    case Null => "null"
    case Text(s) => s
  }

  /** One entry of an OpenAI message list. */
  datatype Message = Message(role: string, content: string)

  /** A stored exercise set; `chatModel` and `chatInstruction` are absent until an admin sets them. */
  datatype ExerciseSet = ExerciseSet(
    id: string,
    title: string,
    exercises: seq<ExerciseList.Exercise>,
    createdBy: string,
    createdAt: string,
    lastUsed: string,
    chatModel: BodyValue,
    chatInstruction: BodyValue)

  datatype Settings = Settings(llmModel: string, defaultChatInstruction: BodyValue)

  /** The response statuses the routes send: 200, 400, 401, 404 and 500. */
  datatype Status = Ok | BadRequest | Unauthorized | NotFound | ServerError

  /** The body of a successful generate response. */
  datatype Generated = Generated(exercises: seq<ExerciseList.Exercise>, title: string, id: string)

  /** The model and the instruction the chat route picks for a request. */
  datatype ChatConfig = ChatConfig(model: string, instruction: BodyValue)

  /** What the chat route sends to the completion API. */
  datatype Completion = Completion(model: string, messages: seq<Message>)

  const DefaultModel: string := "gpt-3.5-turbo"

  const DefaultInstruction: string :=
    "You are a helpful AI tutor assistant for students working on exercises. You should:\n"
    + "- Be encouraging and supportive\n"
    + "- Provide hints and guidance without giving away the answer\n"
    + "- Help students understand concepts and problem-solving approaches\n"
    + "- Ask clarifying questions when needed\n"
    + "- Keep responses concise and age-appropriate\n"
    + "- If the student asks for the direct answer, guide them to think through it step by step instead\n"
    + "\n"
    + "Respond naturally and helpfully to the student's question."

  const AdminUsername: string := "admin"
  const AdminPassword: string := "admin123"

  const ContextIntro: string := "\n\nIMPORTANT: " + "The student is currently working on this exercise: \""
  const ContextOutro: string :=
    "\"\n\nUse this exercise context to provide relevant help. If the student asks about \"the exercise\" "
    + "or \"this problem\", they are referring to the exercise above."
  const NoContextNote: string := "\n\nNote: " + "No specific exercise context is available at the moment."

  const ApologyReply: string := "I'm sorry, I'm having trouble responding right now. Please try again in a moment."

  const TitleSuffix: string := " Exercises"

  // ---------------------------------------------------------------------------------------
  // Looking sets up

  /** `exerciseSets.findIndex(set => set.id === id)`; `find` returns the set at that index. */
  function FindIndex(sets: seq<ExerciseSet>, id: string): (r: Option<nat>)
    ensures r.Some? ==> r.value < |sets| && sets[r.value].id == id
    ensures r.Some? ==> forall j :: 0 <= j < r.value ==> sets[j].id != id
    ensures r.None? ==> forall j :: 0 <= j < |sets| ==> sets[j].id != id
  {
    if |sets| == 0 then None
    else if sets[0].id == id then Some(0)
    else
      match FindIndex(sets[1..], id)
      case None => None
      case Some(k) => Some(k + 1)
  }

  /** The ids of the stored sets, in order. */
  function Ids(sets: seq<ExerciseSet>): (r: seq<string>)
    ensures |r| == |sets| && forall i :: 0 <= i < |sets| ==> r[i] == sets[i].id
  {
    seq(|sets|, i requires 0 <= i < |sets| => sets[i].id)
  }

  /** The search finds exactly the first set whose id matches. */
  lemma FindIndexFirst(sets: seq<ExerciseSet>, id: string, k: nat)
    requires k < |sets| && sets[k].id == id
    requires forall j :: 0 <= j < k ==> sets[j].id != id
    ensures FindIndex(sets, id) == Some(k)
  {
    var f := FindIndex(sets, id);
    assert f.Some?;
    assert sets[f.value].id == id;
  }

  /** Ids are random, so nothing stops two sets sharing one; the earlier one is always found. */
  lemma FirstOfDuplicatesFound(sets: seq<ExerciseSet>, i: nat, j: nat)
    requires i < j < |sets| && sets[i].id == sets[j].id
    requires forall k :: 0 <= k < i ==> sets[k].id != sets[i].id
    ensures FindIndex(sets, sets[j].id) == Some(i)
  {
    FindIndexFirst(sets, sets[i].id, i);
  }

  /** Appending a set with a fresh id makes it the one found; with a taken id the old one still is. */
  lemma AppendedSetFound(sets: seq<ExerciseSet>, s: ExerciseSet)
    ensures FindIndex(sets, s.id).None? ==> FindIndex(sets + [s], s.id) == Some(|sets|)
    ensures FindIndex(sets, s.id).Some? ==> FindIndex(sets + [s], s.id) == FindIndex(sets, s.id)
  {
    var all := sets + [s];
    var f := FindIndex(sets, s.id);
    if f.None? {
      assert forall j :: 0 <= j < |sets| ==> all[j].id != s.id;
      FindIndexFirst(all, s.id, |sets|);
    } else {
      assert forall j :: 0 <= j < f.value ==> all[j].id != s.id;
      FindIndexFirst(all, s.id, f.value);
    }
  }

  // ---------------------------------------------------------------------------------------
  // Admin authentication

  /** `req.headers.authorization?.split(' ')[1]`: the second space-separated piece of the header. */
  function BearerToken(authorization: Option<string>): Option<string> {
    if authorization.None? then None
    else
      var parts := Split(authorization.value, ' ');
      if |parts| >= 2 then Some(parts[1]) else None
  }

  /**
   * `verifyAdminToken` lets the request through: there is a non-empty token and `jwt.verify`
   * accepted it (`verified`).
   */
  predicate Admitted(authorization: Option<string>, verified: bool) {
    var token := BearerToken(authorization);
    token.Some? && token.value != "" && verified
  }

  /** A `Bearer <token>` header hands over exactly the token; a header without a space none. */
  lemma BearerTokenOf(scheme: string, token: string)
    requires ' ' !in scheme && ' ' !in token
    ensures BearerToken(Some(scheme + " " + token)) == Some(token)
    ensures !Admitted(Some(scheme), true)
  {
    SplitNoSep(token, ' ');
    SplitPrefix(scheme, token, ' ');
    SplitNoSep(scheme, ' ');
  }

  /** `/api/admin/login`: a token is issued exactly for the configured credentials. */
  function AdminLogin(username: BodyValue, password: BodyValue): (status: Status)
    ensures status == Ok <==> username == Text(AdminUsername) && password == Text(AdminPassword)
    ensures status == Ok || status == Unauthorized
  {
    if username == Text(AdminUsername) && password == Text(AdminPassword) then Ok else Unauthorized
  }

  // ---------------------------------------------------------------------------------------
  // Parsing generated exercises

  /** `.filter(line => line.trim())`: the lines that are not blank. */
  function NonBlank(lines: seq<string>): seq<string>
  {
    if |lines| == 0 then []
    else if Trim(lines[0]) != "" then [lines[0]] + NonBlank(lines[1..])
    else NonBlank(lines[1..])
  }

  /** The filter keeps every non-blank line and nothing else. */
  lemma {:induction false} NonBlankMembers(lines: seq<string>)
    ensures |NonBlank(lines)| <= |lines|
    ensures forall l :: l in NonBlank(lines) ==> Trim(l) != "" && l in lines
  {
    if |lines| > 0 {
      var rest := lines[1..];
      NonBlankMembers(rest);
      forall l | l in NonBlank(lines)
        ensures Trim(l) != "" && l in lines
      {
        if l != lines[0] || Trim(lines[0]) == "" {
          assert l in NonBlank(rest);
          var k :| 0 <= k < |rest| && rest[k] == l;
          assert lines[k + 1] == l;
        }
      }
    }
  }

  /** No non-blank line is dropped by the filter. */
  lemma {:induction false} NonBlankKeeps(lines: seq<string>, l: string)
    requires l in lines && Trim(l) != ""
    ensures l in NonBlank(lines)
  {
    if l != lines[0] {
      assert l in lines[1..];
      NonBlankKeeps(lines[1..], l);
    }
  }

  /**
   * The filter keeps the non-blank lines in their order and with their repetitions: it
   * distributes over concatenation, and a single line is kept exactly when it is not blank.
   */
  lemma {:induction false} NonBlankAppend(a: seq<string>, b: seq<string>)
    ensures NonBlank(a + b) == NonBlank(a) + NonBlank(b)
    ensures |a| == 1 ==> NonBlank(a) == (if Trim(a[0]) != "" then a else [])
    decreases |a|
  {
    if |a| == 0 {
      assert a + b == b;
    } else {
      var ab := a + b;
      assert ab[0] == a[0] && ab[1..] == a[1..] + b;
      NonBlankAppend(a[1..], b);
      if |a| == 1 {
        assert a[1..] == [];
        assert [a[0]] == a;
      }
    }
  }

  /** `.map(exercise => exercise.trim())` on the kept lines. */
  function TrimAll(lines: seq<string>): (r: seq<string>)
    ensures |r| == |lines|
  {
    seq(|lines|, i requires 0 <= i < |lines| => Trim(lines[i]))
  }

  /** `generateExercisesWithAI` on the completion text: one exercise per non-blank line, numbered from 1. */
  function ParseExercises(text: string): (r: seq<ExerciseList.Exercise>)
    ensures forall i :: 0 <= i < |r| ==> r[i].id == i + 1
  {
    ExerciseList.Numbered(TrimAll(NonBlank(Split(text, '\n'))), 0)
  }

  /** Every parsed exercise is one trimmed, non-blank line of the completion text. */
  lemma ParsedExercisesAreLines(text: string)
    ensures var r := ParseExercises(text);
      forall i :: 0 <= i < |r| ==>
        && r[i].text != "" && Trim(r[i].text) == r[i].text && '\n' !in r[i].text
        && exists l :: l in Split(text, '\n') && r[i].text == Trim(l)
  {
    var lines := Split(text, '\n');
    var kept := NonBlank(lines);
    var r := ParseExercises(text);
    NonBlankMembers(lines);
    forall i | 0 <= i < |r|
      ensures r[i].text != "" && Trim(r[i].text) == r[i].text && '\n' !in r[i].text
      ensures exists l :: l in lines && r[i].text == Trim(l)
    {
      assert r[i].text == Trim(kept[i]);
      assert kept[i] in lines;
      TrimmedLine(kept[i]);
    }
  }

  /** A trimmed line is its own trim and has no line break the line did not have. */
  lemma TrimmedLine(l: string)
    ensures Trim(Trim(l)) == Trim(l)
    ensures '\n' !in l ==> '\n' !in Trim(l)
  {
    TrimIdempotent(l);
    var t := TrimStart(l);
    NoCharInSlice(l, |l| - |t|, |l|, '\n');
    NoCharInSlice(t, 0, |TrimEnd(t)|, '\n');
  }

  /** A character that is not in a string is not in any slice of it. */
  lemma NoCharInSlice(s: string, i: nat, j: nat, c: char)
    requires i <= j <= |s|
    ensures c !in s ==> c !in s[i..j]
  {
    if c in s[i..j] {
      var k :| 0 <= k < j - i && s[i..j][k] == c;
      assert s[i + k] == c;
    }
  }

  /** Lines that are already trimmed and non-blank survive the filter. */
  lemma {:induction false} NonBlankKeepsAll(lines: seq<string>)
    requires forall i :: 0 <= i < |lines| ==> Trim(lines[i]) != ""
    ensures NonBlank(lines) == lines
  {
    if |lines| > 0 {
      NonBlankKeepsAll(lines[1..]);
      assert [lines[0]] + lines[1..] == lines;
    }
  }

  /** Exercises written one per line, trimmed and non-blank, are parsed back exactly, numbered 1..n. */
  lemma ParseRoundTrip(texts: seq<string>)
    requires forall i :: 0 <= i < |texts| ==> texts[i] != "" && Trim(texts[i]) == texts[i] && '\n' !in texts[i]
    ensures ParseExercises(Join(texts, "\n")) == ExerciseList.Numbered(texts, 0)
  {
    var lines := Split(Join(texts, "\n"), '\n');
    if |texts| == 0 {
      assert lines == [""];
      assert NonBlank(lines) == [];
    } else {
      assert "\n" == ['\n'];
      SplitJoin(texts, '\n');
      NonBlankKeepsAll(texts);
      TrimAllKeeps(texts);
    }
  }

  /** Lines that are already trimmed are left alone by the trim of every line. */
  lemma TrimAllKeeps(lines: seq<string>)
    requires forall i :: 0 <= i < |lines| ==> Trim(lines[i]) == lines[i]
    ensures TrimAll(lines) == lines
  {
  }

  // ---------------------------------------------------------------------------------------
  // Titles

  predicate IsQuote(c: char) {
    c == '"' || c == '\''
  }

  /** `.replace(/^["']|["']$/g, '')`: one leading and one trailing quote go, when present. */
  function StripQuotes(t: string): string {
    var a := if |t| > 0 && IsQuote(t[0]) then t[1..] else t;
    if |a| > 0 && IsQuote(a[|a| - 1]) then a[..|a| - 1] else a
  }

  /** The title made of the completion's reply: trimmed, then unquoted. */
  function CleanTitle(reply: string): string {
    StripQuotes(Trim(reply))
  }

  /**
   * The clean title is the trimmed reply with at most one character off each end, each of them a
   * quote; and a quote at an end always goes.
   */
  lemma CleanTitleBounds(reply: string) returns (a: nat, b: nat)
    ensures var t := Trim(reply);
      && a <= 1 && b <= |t| && |t| - b <= 1 && a <= b
      && CleanTitle(reply) == t[a..b]
      && (a == 1 <==> |t| > 0 && IsQuote(t[0]))
      && (b < |t| ==> IsQuote(t[|t| - 1]))
      && (|t| >= 2 && IsQuote(t[|t| - 1]) ==> b == |t| - 1)
  {
    a, b := StripQuotesBounds(Trim(reply));
  }

  /** `StripQuotes` takes at most one character off each end, each of them a quote. */
  lemma StripQuotesBounds(t: string) returns (a: nat, b: nat)
    ensures && a <= 1 && b <= |t| && |t| - b <= 1 && a <= b
      && StripQuotes(t) == t[a..b]
      && (a == 1 <==> |t| > 0 && IsQuote(t[0]))
      && (b < |t| ==> IsQuote(t[|t| - 1]))
      && (|t| >= 2 && IsQuote(t[|t| - 1]) ==> b == |t| - 1)
  {
    a := if |t| > 0 && IsQuote(t[0]) then 1 else 0;
    var s := t[a..];
    b := if |s| > 0 && IsQuote(s[|s| - 1]) then |t| - 1 else |t|;
    assert s[..|s|] == t[a..|t|];
  }

  /** A title the model wrapped in quotes comes out without them. */
  lemma QuotedTitleUnwrapped(open: char, x: string, close: char)
    requires IsQuote(open) && IsQuote(close)
    ensures CleanTitle([open] + x + [close]) == x
  {
    QuotesNotWhite(open, x, close);
    StripWrapped(open, x, close);
  }

  lemma QuotesNotWhite(open: char, x: string, close: char)
    requires IsQuote(open) && IsQuote(close)
    ensures Trim([open] + x + [close]) == [open] + x + [close]
  {
    var t := [open] + x + [close];
    assert t[0] == open && t[|t| - 1] == close;
    TrimKeeps(t);
  }

  lemma StripWrapped(open: char, x: string, close: char)
    requires IsQuote(open) && IsQuote(close)
    ensures StripQuotes([open] + x + [close]) == x
  {
    var t := [open] + x + [close];
    var a := t[1..];
    assert a == x + [close];
    assert a[..|a| - 1] == x;
  }

  /** Only one quote goes from each end: a title in doubled quotes keeps one pair. */
  lemma DoubleQuotesHalved(x: string)
    ensures CleanTitle("\"\"" + x + "\"\"") == "\"" + x + "\""
  {
    var inner := "\"" + x + "\"";
    assert "\"\"" + x + "\"\"" == ['"'] + inner + ['"'];
    QuotedTitleUnwrapped('"', inner, '"');
  }

  /** `word.charAt(0).toUpperCase() + word.slice(1)`. */
  function Capitalize(w: string): string {
    if |w| == 0 then "" else [ToUpperAscii(w[0])] + w[1..]
  }

  /** The first three space-separated words of the prompt, each capitalised. */
  function TitleWords(prompt: string): (r: seq<string>)
    ensures |r| <= 3
  {
    var words := Split(prompt, ' ');
    var first := if |words| > 3 then words[..3] else words;
    seq(|first|, i requires 0 <= i < |first| => Capitalize(first[i]))
  }

  /** The title `generateTitleWithAI` falls back to when the completion fails. */
  function FallbackTitle(prompt: string): string {
    Join(TitleWords(prompt), " ") + TitleSuffix
  }

  /** Capitalising keeps a word's length and spaces, and changes only its first character. */
  lemma CapitalizeFacts(w: string)
    ensures |Capitalize(w)| == |w|
    ensures |w| > 0 ==> Capitalize(w)[0] == ToUpperAscii(w[0]) && Capitalize(w)[1..] == w[1..]
    ensures ' ' !in w ==> ' ' !in Capitalize(w)
  {
    if |w| > 0 && ' ' !in w {
      assert w[0] != ' ';
      assert forall k :: 1 <= k < |w| ==> Capitalize(w)[k] == w[k];
    }
  }

  /**
   * The fallback title is ` Exercises` after the first `min(3, n)` words of the prompt, each
   * capitalised, separated by single spaces: splitting it again on spaces gives those words.
   */
  lemma FallbackTitleWords(prompt: string)
    ensures var title := FallbackTitle(prompt);
      var words := Split(prompt, ' ');
      var n := if |words| > 3 then 3 else |words|;
      var head := title[..|title| - |TitleSuffix|];
      && |title| >= |TitleSuffix| && title[|title| - |TitleSuffix|..] == TitleSuffix
      && |Split(head, ' ')| == n
      && forall i :: 0 <= i < n ==> Split(head, ' ')[i] == Capitalize(words[i])
  {
    var title := FallbackTitle(prompt);
    var words := Split(prompt, ' ');
    var r := TitleWords(prompt);
    var head := Join(r, " ");
    assert title == head + TitleSuffix;
    assert title[..|title| - |TitleSuffix|] == head;
    forall i | 0 <= i < |r| ensures ' ' !in r[i] {
      CapitalizeFacts(words[i]);
    }
    SplitJoin(r, ' ');
  }

  // ---------------------------------------------------------------------------------------
  // Chat

  /** The system prompt of `generateChatResponse`: the instruction, then the exercise or a note. */
  function SystemPrompt(instruction: BodyValue, exerciseContent: BodyValue): string {
    Printed(instruction)
    + if Truthy(exerciseContent) then ContextIntro + exerciseContent.s + ContextOutro else NoContextNote
  }

  /**
   * The system prompt starts with the instruction and tells the exercise apart: two requests
   * with the same instruction get the same prompt only when both or neither carry an exercise,
   * and the same one.
   */
  lemma SystemPromptDeterminesContext(instruction: BodyValue, c1: BodyValue, c2: BodyValue)
    ensures SystemPrompt(instruction, c1)[..|Printed(instruction)|] == Printed(instruction)
    ensures SystemPrompt(instruction, c1) == SystemPrompt(instruction, c2) ==>
              (Truthy(c1) <==> Truthy(c2)) && (Truthy(c1) ==> c1.s == c2.s)
  {
    PromptMarker(instruction, c1);
    PromptMarker(instruction, c2);
    if SystemPrompt(instruction, c1) == SystemPrompt(instruction, c2) && Truthy(c1) && Truthy(c2) {
      var head := Printed(instruction) + ContextIntro;
      PromptWithContext(instruction, c1);
      PromptWithContext(instruction, c2);
      SameFrame(head, c1.s, c2.s, ContextOutro);
    }
  }

  /** With an exercise, the prompt is the instruction, the intro, the exercise and the outro. */
  lemma PromptWithContext(instruction: BodyValue, c: BodyValue)
    requires Truthy(c)
    ensures SystemPrompt(instruction, c) == (Printed(instruction) + ContextIntro) + c.s + ContextOutro
  {
    Regroup(Printed(instruction), ContextIntro, c.s, ContextOutro);
  }

  /** What sits between the same two strings is determined by the whole. */
  lemma SameFrame(a: string, m1: string, m2: string, b: string)
    requires a + m1 + b == a + m2 + b
    ensures m1 == m2
  {
    assert |m1| == |m2|;
    assert (a + m1 + b)[|a|..|a| + |m1|] == m1;
    assert (a + m2 + b)[|a|..|a| + |m2|] == m2;
  }

  /** Two characters after the instruction, the prompt reads `I` (IMPORTANT) or `N` (Note). */
  lemma PromptMarker(instruction: BodyValue, c: BodyValue)
    ensures |SystemPrompt(instruction, c)| > |Printed(instruction)| + 2
    ensures SystemPrompt(instruction, c)[..|Printed(instruction)|] == Printed(instruction)
    ensures SystemPrompt(instruction, c)[|Printed(instruction)| + 2] == if Truthy(c) then 'I' else 'N'
  {
    var i := Printed(instruction);
    var tail := if Truthy(c) then ContextIntro + c.s + ContextOutro else NoContextNote;
    assert SystemPrompt(instruction, c) == i + tail;
    assert ContextIntro[2] == 'I' && NoContextNote[2] == 'N';
    assert tail[2] == if Truthy(c) then 'I' else 'N';
    assert (i + tail)[|i| + 2] == tail[2];
  }

  /** The message list is the system prompt, the earlier turns, then the student's message. */
  predicate Assembled(messages: seq<Message>, system: string, history: seq<Message>, user: string) {
    && |messages| == |history| + 2
    && messages[0] == Message("system", system)
    && messages[1..|messages| - 1] == history
    && messages[|messages| - 1] == Message("user", user)
  }

  /** The `messages` array of `generateChatResponse`, built by pushes. */
  method BuildMessages(message: string, exerciseContent: BodyValue, chatHistory: Option<seq<Message>>, instruction: BodyValue)
    returns (messages: seq<Message>)
    ensures Assembled(messages, SystemPrompt(instruction, exerciseContent), chatHistory.GetOr([]), message)
  {
    var systemPrompt := Printed(instruction);
    if Truthy(exerciseContent) {
      systemPrompt := systemPrompt + ContextIntro + exerciseContent.s + ContextOutro;
      Regroup(Printed(instruction), ContextIntro, exerciseContent.s, ContextOutro);
    } else {
      systemPrompt := systemPrompt + NoContextNote;
    }
    messages := [Message("system", systemPrompt)];
    if chatHistory.Some? && |chatHistory.value| > 0 {
      messages := messages + chatHistory.value;
    }
    messages := messages + [Message("user", message)];
    AssembledOf(systemPrompt, chatHistory.GetOr([]), message);
  }

  lemma Regroup(a: string, b: string, c: string, d: string)
    ensures a + b + c + d == a + (b + c + d)
  {
  }

  lemma AssembledOf(system: string, history: seq<Message>, user: string)
    ensures Assembled([Message("system", system)] + history + [Message("user", user)], system, history, user)
  {
    var m := [Message("system", system)] + history + [Message("user", user)];
    assert m[1..|m| - 1] == history;
  }

  /** The model and instruction the chat route picks: the set's own when truthy, else the system's. */
  function ChatConfigFor(settings: Settings, sets: seq<ExerciseSet>, exerciseSetId: BodyValue): ChatConfig {
    var found := if Truthy(exerciseSetId) then FindIndex(sets, exerciseSetId.s) else None;
    if found.None? then ChatConfig(settings.llmModel, settings.defaultChatInstruction)
    else
      var found := sets[found.value];
      ChatConfig(
        if Truthy(found.chatModel) then found.chatModel.s else settings.llmModel,
        if Truthy(found.chatInstruction) then found.chatInstruction else settings.defaultChatInstruction)
  }

  /** Without an id, or with one no set has, the system's model and instruction are used. */
  lemma DefaultsWithoutSet(settings: Settings, sets: seq<ExerciseSet>, exerciseSetId: BodyValue)
    requires !Truthy(exerciseSetId) || forall k :: 0 <= k < |sets| ==> sets[k].id != exerciseSetId.s
    ensures ChatConfigFor(settings, sets, exerciseSetId) == ChatConfig(settings.llmModel, settings.defaultChatInstruction)
  {
  }

  /** With the id of the first set `k` that has it, that set's own settings win wherever they are truthy. */
  lemma SetOverridesDefaults(settings: Settings, sets: seq<ExerciseSet>, k: nat)
    requires k < |sets| && sets[k].id != ""
    requires forall j :: 0 <= j < k ==> sets[j].id != sets[k].id
    ensures var c := ChatConfigFor(settings, sets, Text(sets[k].id));
      && (Truthy(sets[k].chatModel) ==> c.model == sets[k].chatModel.s)
      && (!Truthy(sets[k].chatModel) ==> c.model == settings.llmModel)
      && (Truthy(sets[k].chatInstruction) ==> c.instruction == sets[k].chatInstruction)
      && (!Truthy(sets[k].chatInstruction) ==> c.instruction == settings.defaultChatInstruction)
  {
    FindIndexFirst(sets, sets[k].id, k);
  }

  // ---------------------------------------------------------------------------------------
  // Other route helpers

  /** `req.ip || req.connection.remoteAddress || req.socket.remoteAddress || 'unknown'`. */
  function ClientAddress(candidates: seq<string>): (r: string)
    ensures r != ""
    ensures r == "unknown" || r in candidates
    ensures (forall i :: 0 <= i < |candidates| ==> candidates[i] == "") ==> r == "unknown"
    ensures |candidates| > 0 && candidates[0] != "" ==> r == candidates[0]
    ensures forall k :: 0 <= k < |candidates| && candidates[k] != "" && (forall i :: 0 <= i < k ==> candidates[i] == "") ==>
              r == candidates[k]
  {
    if |candidates| == 0 then "unknown"
    else if candidates[0] != "" then candidates[0]
    else ClientAddress(candidates[1..])
  }

  /** The `count` field is falsy: missing, `null` or zero. */
  predicate FalsyCount(count: Option<int>) {
    count.None? || count.value == 0
  }

  /** The set stored by a successful generate request. */
  function NewSet(id: string, title: string, exercises: seq<ExerciseList.Exercise>, createdBy: string, now: string): ExerciseSet {
    ExerciseSet(id, title, exercises, createdBy, now, now, Missing, Missing)
  }

  /** Deleting position `i` takes exactly one copy of its id out of the table; the rest keep their order. */
  lemma DeleteOneId(sets: seq<ExerciseSet>, i: nat)
    requires i < |sets|
    ensures multiset(Ids(sets[..i] + sets[i + 1..])) == multiset(Ids(sets)) - multiset{sets[i].id}
    ensures sets[i].id in multiset(Ids(sets))
  {
    assert Ids(sets) == Ids(sets[..i]) + [sets[i].id] + Ids(sets[i + 1..]);
    assert Ids(sets[..i] + sets[i + 1..]) == Ids(sets[..i]) + Ids(sets[i + 1..]);
  }

  /** When ids are unique, the deleted set's id is no longer found. */
  lemma DeleteUniqueGone(sets: seq<ExerciseSet>, i: nat)
    requires i < |sets|
    requires forall j :: 0 <= j < |sets| && j != i ==> sets[j].id != sets[i].id
    ensures FindIndex(sets[..i] + sets[i + 1..], sets[i].id).None?
  {
    var rest := sets[..i] + sets[i + 1..];
    forall j | 0 <= j < |rest| ensures rest[j].id != sets[i].id {
      if j < i { assert rest[j] == sets[j]; } else { assert rest[j] == sets[j + 1]; }
    }
  }

  /** After a set's model is changed to a truthy value, chat requests for that id pick it up. */
  lemma ModelUpdateSeen(settings: Settings, sets: seq<ExerciseSet>, id: string, v: BodyValue)
    requires id != "" && FindIndex(sets, id).Some? && Truthy(v)
    ensures var i := FindIndex(sets, id).value;
      ChatConfigFor(settings, sets[i := sets[i].(chatModel := v)], Text(id)).model == v.s
  {
    var i := FindIndex(sets, id).value;
    var updated := sets[i := sets[i].(chatModel := v)];
    SetOverridesDefaults(settings, updated, i);
  }

  // ---------------------------------------------------------------------------------------
  // The store

  class Server {
    var exerciseSets: seq<ExerciseSet>
    var systemSettings: Settings

    /**
     * The system model is never empty and the default instruction never absent. The
     * constructor sets it up and `UpdateSettings` keeps it, so every chat completion request
     * names a model.
     */
    predicate Valid()
      reads this
    {
      systemSettings.llmModel != "" && !systemSettings.defaultChatInstruction.Missing?
    }

    constructor ()
      ensures Valid()
      ensures exerciseSets == [] && systemSettings == Settings(DefaultModel, Text(DefaultInstruction))
    {
      exerciseSets := [];
      systemSettings := Settings(DefaultModel, Text(DefaultInstruction));
    }

    /**
     * `/api/generate-exercises`: 400 when the prompt or the count is falsy, 500 when the
     * exercise completion fails, and otherwise one set appended at the end. The title comes
     * from the title completion, or from the prompt when that one fails.
     */
    method GenerateExercises(
      prompt: BodyValue, count: Option<int>, exercisesReply: Option<string>, titleReply: Option<string>,
      newId: string, clientAddresses: seq<string>, now: string)
      returns (status: Status, result: Option<Generated>)
      modifies this`exerciseSets
      ensures status == BadRequest <==> !Truthy(prompt) || FalsyCount(count)
      ensures status == ServerError <==> Truthy(prompt) && !FalsyCount(count) && exercisesReply.None?
      ensures status != Ok <==> result.None?
      ensures status != Ok ==> exerciseSets == old(exerciseSets)
      ensures status == Ok ==>
        var exercises := ParseExercises(exercisesReply.value);
        var title := if titleReply.Some? then CleanTitle(titleReply.value) else FallbackTitle(prompt.s);
        && result == Some(Generated(exercises, title, newId))
        && exerciseSets == old(exerciseSets) + [NewSet(newId, title, exercises, ClientAddress(clientAddresses), now)]
    {
      if !Truthy(prompt) || FalsyCount(count) {
        return BadRequest, None;
      }
      if exercisesReply.None? {
        return ServerError, None;
      }
      var exercises := ParseExercises(exercisesReply.value);
      var title := if titleReply.Some? then CleanTitle(titleReply.value) else FallbackTitle(prompt.s);
      var exerciseSet := NewSet(newId, title, exercises, ClientAddress(clientAddresses), now);
      exerciseSets := exerciseSets + [exerciseSet];
      status, result := Ok, Some(Generated(exercises, title, newId));
    }

    /**
     * `/api/chat`: 400 without a message; otherwise the completion request carries the system
     * model, whatever the set says, and the reply is trimmed, or replaced by an apology when
     * the completion fails (`reply == None`).
     */
    method Chat(
      message: BodyValue, exerciseContent: BodyValue, chatHistory: Option<seq<Message>>,
      exerciseSetId: BodyValue, reply: Option<string>)
      returns (status: Status, request: Option<Completion>, response: Option<string>)
      requires Valid()
      ensures status == Ok || status == BadRequest
      ensures status == BadRequest <==> !Truthy(message)
      ensures status == BadRequest ==> request.None? && response.None?
      ensures status == Ok ==>
        && request.Some?
        && request.value.model == systemSettings.llmModel
        && request.value.model != ""
        && Assembled(request.value.messages,
                     SystemPrompt(ChatConfigFor(systemSettings, exerciseSets, exerciseSetId).instruction, exerciseContent),
                     chatHistory.GetOr([]), message.s)
        && response == Some(if reply.Some? then Trim(reply.value) else ApologyReply)
    {
      if !Truthy(message) {
        return BadRequest, None, None;
      }
      var config := ChatConfigFor(systemSettings, exerciseSets, exerciseSetId);
      var messages := BuildMessages(message.s, exerciseContent, chatHistory, config.instruction);
      request := Some(Completion(systemSettings.llmModel, messages));
      response := Some(if reply.Some? then Trim(reply.value) else ApologyReply);
      status := Ok;
    }

    /** `GET /api/admin/settings`: the settings, to an admitted caller only. */
    method GetSettings(authorization: Option<string>, verified: bool) returns (status: Status, settings: Option<Settings>)
      ensures Admitted(authorization, verified) ==> status == Ok && settings == Some(systemSettings)
      ensures !Admitted(authorization, verified) ==> status == Unauthorized && settings.None?
    {
      if !Admitted(authorization, verified) {
        return Unauthorized, None;
      }
      status, settings := Ok, Some(systemSettings);
    }

    /** `GET /api/settings/default-chat-instruction`: open to anyone. */
    method DefaultChatInstruction() returns (instruction: BodyValue)
      ensures instruction == systemSettings.defaultChatInstruction
    {
      instruction := systemSettings.defaultChatInstruction;
    }

    /**
     * `POST /api/admin/settings`: the model changes only to a truthy value; the instruction
     * changes whenever the field is present, even to an empty string or `null`.
     */
    method UpdateSettings(authorization: Option<string>, verified: bool, llmModel: BodyValue, defaultChatInstruction: BodyValue)
      returns (status: Status)
      requires Valid()
      modifies this`systemSettings
      ensures Valid()
      ensures !Admitted(authorization, verified) ==> status == Unauthorized && systemSettings == old(systemSettings)
      ensures Admitted(authorization, verified) ==>
        && status == Ok
        && systemSettings.llmModel == (if Truthy(llmModel) then llmModel.s else old(systemSettings.llmModel))
        && systemSettings.defaultChatInstruction ==
             (if defaultChatInstruction.Missing? then old(systemSettings.defaultChatInstruction) else defaultChatInstruction)
    {
      if !Admitted(authorization, verified) {
        return Unauthorized;
      }
      if Truthy(llmModel) {
        systemSettings := systemSettings.(llmModel := llmModel.s);
      }
      if !defaultChatInstruction.Missing? {
        systemSettings := systemSettings.(defaultChatInstruction := defaultChatInstruction);
      }
      status := Ok;
    }

    /** `GET /api/admin/exercise-sets`: the whole table, to an admitted caller only. */
    method ListExerciseSets(authorization: Option<string>, verified: bool) returns (status: Status, sets: Option<seq<ExerciseSet>>)
      ensures Admitted(authorization, verified) ==> status == Ok && sets == Some(exerciseSets)
      ensures !Admitted(authorization, verified) ==> status == Unauthorized && sets.None?
    {
      if !Admitted(authorization, verified) {
        return Unauthorized, None;
      }
      status, sets := Ok, Some(exerciseSets);
    }

    /** `DELETE /api/admin/exercise-sets/:id`: the first set with the id is spliced out; 404 when there is none. */
    method DeleteExerciseSet(authorization: Option<string>, verified: bool, id: string) returns (status: Status)
      modifies this`exerciseSets
      ensures !Admitted(authorization, verified) ==> status == Unauthorized && exerciseSets == old(exerciseSets)
      ensures Admitted(authorization, verified) && FindIndex(old(exerciseSets), id).None? ==>
                status == NotFound && exerciseSets == old(exerciseSets)
      ensures Admitted(authorization, verified) && FindIndex(old(exerciseSets), id).Some? ==>
                var i := FindIndex(old(exerciseSets), id).value;
                status == Ok && exerciseSets == old(exerciseSets)[..i] + old(exerciseSets)[i + 1..]
    {
      if !Admitted(authorization, verified) {
        return Unauthorized;
      }
      var index := FindIndex(exerciseSets, id);
      if index.None? {
        return NotFound;
      }
      exerciseSets := exerciseSets[..index.value] + exerciseSets[index.value + 1..];
      status := Ok;
    }

    /** `POST /api/admin/exercise-sets/:id/chat-model`: only that set's model changes, to whatever was sent. */
    method SetChatModel(authorization: Option<string>, verified: bool, id: string, chatModel: BodyValue) returns (status: Status)
      modifies this`exerciseSets
      ensures !Admitted(authorization, verified) ==> status == Unauthorized && exerciseSets == old(exerciseSets)
      ensures Admitted(authorization, verified) && FindIndex(old(exerciseSets), id).None? ==>
                status == NotFound && exerciseSets == old(exerciseSets)
      ensures Admitted(authorization, verified) && FindIndex(old(exerciseSets), id).Some? ==>
                var i := FindIndex(old(exerciseSets), id).value;
                status == Ok && exerciseSets == old(exerciseSets)[i := old(exerciseSets)[i].(chatModel := chatModel)]
    {
      if !Admitted(authorization, verified) {
        return Unauthorized;
      }
      var index := FindIndex(exerciseSets, id);
      if index.None? {
        return NotFound;
      }
      exerciseSets := exerciseSets[index.value := exerciseSets[index.value].(chatModel := chatModel)];
      status := Ok;
    }

    /** `POST /api/admin/exercise-sets/:id/chat-instruction`: like the model, but with no token check. */
    method SetChatInstruction(id: string, chatInstruction: BodyValue) returns (status: Status)
      modifies this`exerciseSets
      ensures FindIndex(old(exerciseSets), id).None? ==> status == NotFound && exerciseSets == old(exerciseSets)
      ensures FindIndex(old(exerciseSets), id).Some? ==>
                var i := FindIndex(old(exerciseSets), id).value;
                status == Ok && exerciseSets == old(exerciseSets)[i := old(exerciseSets)[i].(chatInstruction := chatInstruction)]
    {
      var index := FindIndex(exerciseSets, id);
      if index.None? {
        return NotFound;
      }
      exerciseSets := exerciseSets[index.value := exerciseSets[index.value].(chatInstruction := chatInstruction)];
      status := Ok;
    }

    /** `POST /api/exercise-sets/:id/access`: touches `lastUsed` of the first match; succeeds even for an unknown id. */
    method TrackAccess(id: string, now: string) returns (status: Status)
      modifies this`exerciseSets
      ensures status == Ok
      ensures FindIndex(old(exerciseSets), id).None? ==> exerciseSets == old(exerciseSets)
      ensures FindIndex(old(exerciseSets), id).Some? ==>
                var i := FindIndex(old(exerciseSets), id).value;
                exerciseSets == old(exerciseSets)[i := old(exerciseSets)[i].(lastUsed := now)]
    {
      var index := FindIndex(exerciseSets, id);
      if index.Some? {
        exerciseSets := exerciseSets[index.value := exerciseSets[index.value].(lastUsed := now)];
      }
      status := Ok;
    }
  }
}
