/**
 * The grounded query of the chat app (`search_and_answer`): build the
 * request's conversation from the recent history and the query, then turn
 * the service's reply into an answer string and a bounded, deduplicated
 * list of citations. The completion service is an oracle: its reply (a
 * decoded response, a status, a timeout or an exception) is an input.
 */
module GroundedAnswer {
  import opened Common

  /** At most this many prior messages are sent with a query. */
  const HistoryWindow: nat := 6
  /** Citation snippets are cut to this many characters. */
  const SnippetLimit: nat := 150
  /** At most this many citations are returned. */
  const CitationLimit: nat := 5
  /** The title of a retrieved context that has none. */
  const UnknownTitle: string := "Unknown"

  const TimeoutMessage: string := "응답 시간이 너무 오래 걸렸어요. 다시 시도해주세요!"
  const ApiErrorPrefix: string := "API 오류가 발생했어요: "
  const ErrorPrefix: string := "오류가 발생했어요: "

  /** A raw citation: the store's display title and a snippet. */
  datatype Citation = Citation(title: string, text: string)

  /** A chat message: its role (`"user"` or `"assistant"`), text, and the citations of an answer. */
  datatype Message = Message(role: string, content: string, citations: seq<Citation>)

  /** A turn of the request's conversation. */
  datatype Role = User | Model
  datatype Turn = Turn(role: Role, text: string)

  // The decoded response: every field the app reads is optional.
  datatype RetrievedContext = RetrievedContext(title: Option<string>, text: Option<string>)
  datatype Chunk = Chunk(retrievedContext: Option<RetrievedContext>)
  datatype GroundingMetadata = GroundingMetadata(groundingChunks: Option<seq<Chunk>>)
  datatype Part = Part(text: Option<string>)
  datatype Content = Content(parts: Option<seq<Part>>)
  datatype Candidate = Candidate(content: Option<Content>, groundingMetadata: Option<GroundingMetadata>)
  datatype Response = Response(candidates: Option<seq<Candidate>>)

  /** How the call ended: timed out, raised (with its message), or answered with a status and a body. */
  datatype Reply = TimedOut | Failed(detail: string) | Answered(status: nat, body: Response)

  // ---------------------------------------------------------------- context

  /** The request role of a history message. */
  function ApiRole(role: string): Role {
    if role == "user" then User else Model
  }

  function TurnOf(m: Message): Turn {
    Turn(ApiRole(m.role), m.content)
  }

  /** One request turn per message, in order. */
  function TurnsOf(ms: seq<Message>): seq<Turn>
    decreases |ms|
  {
    if ms == [] then [] else TurnsOf(ms[..|ms| - 1]) + [TurnOf(ms[|ms| - 1])]
  }

  lemma {:induction false} TurnsOfEach(ms: seq<Message>)
    ensures |TurnsOf(ms)| == |ms|
    ensures forall i :: 0 <= i < |ms| ==> TurnsOf(ms)[i] == TurnOf(ms[i])
    decreases |ms|
  {
    if ms != [] {
      TurnsOfEach(ms[..|ms| - 1]);
    }
  }

  /** The history messages sent with a query: the last (at most) six. */
  function Recent(history: seq<Message>): seq<Message> {
    history[|history| - Min(HistoryWindow, |history|)..]
  }

  /**
   * The request's conversation: the last (at most) six history messages in
   * their original order, a `"user"` role staying `User` and every other
   * role becoming `Model`, followed by the query as a user turn.
   */
  function Contents(history: seq<Message>, query: string): (c: seq<Turn>)
    ensures |c| == Min(HistoryWindow, |history|) + 1
    ensures c[|c| - 1] == Turn(User, query)
    ensures forall i :: 0 <= i < |c| - 1 ==>
              var m := history[|history| - (|c| - 1) + i];
              && c[i].text == m.content
              && (c[i].role == User <==> m.role == "user")
  {
    TurnsOfEach(Recent(history));
    TurnsOf(Recent(history)) + [Turn(User, query)]
  }

  /** The loop that appends one turn per recent message, then the query. */
  method BuildContents(history: seq<Message>, query: string) returns (contents: seq<Turn>)
    ensures contents == Contents(history, query)
  {
    contents := [];
    var recent := Recent(history);
    if history != [] {
      for i := 0 to |recent|
        invariant contents == TurnsOf(recent[..i])
      {
        assert recent[..i + 1][..i] == recent[..i];
        var role := if recent[i].role == "user" then User else Model;
        contents := contents + [Turn(role, recent[i].content)];
      }
      assert recent[..|recent|] == recent;
    }
    contents := contents + [Turn(User, query)];
  }

  // ---------------------------------------------------------------- answer

  function TextOf(p: Part): string {
    p.text.GetOr("")
  }

  /** The texts of `parts` concatenated in arrival order; a part without text adds nothing. */
  function Joined(parts: seq<Part>): string
    decreases |parts|
  {
    if parts == [] then ""
    else Joined(parts[..|parts| - 1]) + TextOf(parts[|parts| - 1])
  }

  /** Concatenation is kept: the answer of two runs of parts is the two answers in order. */
  lemma {:induction false} JoinedAppend(a: seq<Part>, b: seq<Part>)
    ensures Joined(a + b) == Joined(a) + Joined(b)
    decreases |b|
  {
    if b == [] {
      assert a + b == a;
    } else {
      var n := |b| - 1;
      assert (a + b)[..|a + b| - 1] == a + b[..n];
      JoinedAppend(a, b[..n]);
    }
  }

  /** The first part's text comes first; parts without text contribute nothing. */
  lemma JoinedFirst(parts: seq<Part>)
    requires parts != []
    ensures Joined(parts) == TextOf(parts[0]) + Joined(parts[1..])
    ensures parts[0].text.None? ==> Joined(parts) == Joined(parts[1..])
  {
    assert parts == [parts[0]] + parts[1..];
    JoinedAppend([parts[0]], parts[1..]);
    assert [parts[0]][..0] == [];
  }

  /** The loop that accumulates the answer with `+=`. */
  method ConcatParts(parts: seq<Part>) returns (answer: string)
    ensures answer == Joined(parts)
  {
    answer := "";
    for i := 0 to |parts|
      invariant answer == Joined(parts[..i])
    {
      assert parts[..i + 1][..i] == parts[..i];
      if parts[i].text.Some? {
        answer := answer + parts[i].text.value;
      }
    }
    assert parts[..|parts|] == parts;
  }

  // ---------------------------------------------------------------- citations

  function TitleOf(ctx: RetrievedContext): string {
    ctx.title.GetOr(UnknownTitle)
  }

  /** The snippet: the first 150 characters of the text, empty when the text is absent or empty. */
  function SnippetOf(ctx: RetrievedContext): (s: string)
    ensures |s| <= SnippetLimit
    ensures ctx.text.Some? ==> s == ctx.text.value[..Min(SnippetLimit, |ctx.text.value|)]
    ensures ctx.text.None? ==> s == ""
  {
    match ctx.text
    case None => ""
    case Some(t) => if t == "" then "" else Take(t, SnippetLimit)
  }

  function CitationOf(ctx: RetrievedContext): Citation {
    Citation(TitleOf(ctx), SnippetOf(ctx))
  }

  function Titles(cs: seq<Citation>): set<string> {
    set c | c in cs :: c.title
  }

  /** The citations gathered from `chunks` in order, a title already seen being skipped. */
  function Collected(chunks: seq<Chunk>): seq<Citation>
    decreases |chunks|
  {
    if chunks == [] then []
    else
      var prev := Collected(chunks[..|chunks| - 1]);
      var c := chunks[|chunks| - 1];
      if c.retrievedContext.None? || TitleOf(c.retrievedContext.value) in Titles(prev) then prev
      else prev + [CitationOf(c.retrievedContext.value)]
  }

  /** The titles of the chunks that carry a retrieved context. */
  function ChunkTitles(chunks: seq<Chunk>): set<string> {
    set k | 0 <= k < |chunks| && chunks[k].retrievedContext.Some? :: TitleOf(chunks[k].retrievedContext.value)
  }

  /** The collected titles are exactly the titles of the chunks with a retrieved context. */
  lemma {:induction false} CollectedTitles(chunks: seq<Chunk>)
    ensures Titles(Collected(chunks)) == ChunkTitles(chunks)
    decreases |chunks|
  {
    if chunks != [] {
      var n := |chunks| - 1;
      var init := chunks[..n];
      CollectedTitles(init);
      var prev := Collected(init);
      var c := chunks[n];
      assert forall k :: 0 <= k < n ==> chunks[k] == init[k];
      if c.retrievedContext.Some? {
        assert ChunkTitles(chunks) == ChunkTitles(init) + {TitleOf(c.retrievedContext.value)};
        if TitleOf(c.retrievedContext.value) !in Titles(prev) {
          assert Titles(prev + [CitationOf(c.retrievedContext.value)]) == Titles(prev) + {TitleOf(c.retrievedContext.value)};
        }
      } else {
        assert ChunkTitles(chunks) == ChunkTitles(init);
      }
    }
  }

  /** No two citations share a title. */
  predicate DistinctTitles(cs: seq<Citation>) {
    forall i, j :: 0 <= i < j < |cs| ==> cs[i].title != cs[j].title
  }

  /** No title is collected twice. */
  lemma {:induction false} CollectedDistinct(chunks: seq<Chunk>)
    ensures DistinctTitles(Collected(chunks))
    decreases |chunks|
  {
    if chunks != [] {
      var n := |chunks| - 1;
      CollectedDistinct(chunks[..n]);
      var prev := Collected(chunks[..n]);
      var c := chunks[n];
      if c.retrievedContext.Some? && TitleOf(c.retrievedContext.value) !in Titles(prev) {
        var r := prev + [CitationOf(c.retrievedContext.value)];
        assert Collected(chunks) == r;
        forall i, j | 0 <= i < j < |r| ensures r[i].title != r[j].title {
          if j == |prev| {
            assert r[i] == prev[i] && prev[i] in prev;
            assert prev[i].title in Titles(prev);
            assert r[j].title == TitleOf(c.retrievedContext.value);
          } else {
            assert r[i] == prev[i] && r[j] == prev[j];
          }
        }
      } else {
        assert Collected(chunks) == prev;
      }
    }
  }

  /** Chunk `k` carries a retrieved context whose title no earlier such chunk has. */
  predicate FirstOfTitle(chunks: seq<Chunk>, k: int) {
    && 0 <= k < |chunks|
    && chunks[k].retrievedContext.Some?
    && forall j :: 0 <= j < k && chunks[j].retrievedContext.Some? ==>
         TitleOf(chunks[j].retrievedContext.value) != TitleOf(chunks[k].retrievedContext.value)
  }

  /**
   * Reference definition: the citations of the chunks that are the first to
   * carry their title, in chunk order.
   */
  function FirstOccurrences(chunks: seq<Chunk>): seq<Citation>
    decreases |chunks|
  {
    if chunks == [] then []
    else
      var n := |chunks| - 1;
      FirstOccurrences(chunks[..n])
        + (if FirstOfTitle(chunks, n) then [CitationOf(chunks[n].retrievedContext.value)] else [])
  }

  /** The loop's deduplication keeps exactly the first chunk of each title, in first-seen order. */
  lemma {:induction false} CollectedIsFirstOccurrences(chunks: seq<Chunk>)
    ensures Collected(chunks) == FirstOccurrences(chunks)
    decreases |chunks|
  {
    if chunks != [] {
      var n := |chunks| - 1;
      var init := chunks[..n];
      CollectedIsFirstOccurrences(init);
      CollectedTitles(init);
      var c := chunks[n];
      if c.retrievedContext.Some? {
        var t := TitleOf(c.retrievedContext.value);
        if t in ChunkTitles(init) {
          var k :| 0 <= k < n && init[k].retrievedContext.Some? && TitleOf(init[k].retrievedContext.value) == t;
          assert chunks[k] == init[k];
          assert !FirstOfTitle(chunks, n);
        } else {
          forall j | 0 <= j < n && chunks[j].retrievedContext.Some?
            ensures TitleOf(chunks[j].retrievedContext.value) != t
          {
            assert chunks[j] == init[j];
          }
          assert FirstOfTitle(chunks, n);
        }
      }
    }
  }

  /** The first candidate of a response, if any. */
  function FirstCandidate(r: Response): Option<Candidate> {
    if r.candidates.Some? && r.candidates.value != [] then Some(r.candidates.value[0]) else None
  }

  function PartsOf(c: Candidate): seq<Part> {
    if c.content.Some? && c.content.value.parts.Some? then c.content.value.parts.value else []
  }

  function ChunksOf(c: Candidate): seq<Chunk> {
    if c.groundingMetadata.Some? && c.groundingMetadata.value.groundingChunks.Some?
    then c.groundingMetadata.value.groundingChunks.value else []
  }

  /** The answer of a decoded response: the first candidate's texts, `""` without candidates. */
  function AnswerText(r: Response): string {
    match FirstCandidate(r)
    case None => ""
    case Some(c) => Joined(PartsOf(c))
  }

  /** The citations of a decoded response: the collected citations cut to five. */
  function CitationsOf(r: Response): seq<Citation> {
    match FirstCandidate(r)
    case None => []
    case Some(c) => Take(Collected(ChunksOf(c)), CitationLimit)
  }

  /**
   * What is returned: at most five citations, pairwise distinct titles,
   * snippets of at most 150 characters, and they are exactly the first five
   * of the first occurrences of each title among the first candidate's
   * chunks; none without a candidate.
   */
  lemma CitationsOfBounded(r: Response)
    ensures var cs := CitationsOf(r);
            && |cs| <= CitationLimit
            && DistinctTitles(cs)
            && (forall i :: 0 <= i < |cs| ==> |cs[i].text| <= SnippetLimit)
            && (FirstCandidate(r).None? ==> cs == [])
            && (FirstCandidate(r).Some? ==>
                  var firsts := FirstOccurrences(ChunksOf(FirstCandidate(r).value));
                  cs == firsts[..Min(CitationLimit, |firsts|)])
  {
    if FirstCandidate(r).Some? {
      var chunks := ChunksOf(FirstCandidate(r).value);
      CollectedDistinct(chunks);
      CollectedIsFirstOccurrences(chunks);
      CollectedSnippets(chunks);
    }
  }

  /** Every collected snippet is at most 150 characters. */
  lemma {:induction false} CollectedSnippets(chunks: seq<Chunk>)
    ensures forall i :: 0 <= i < |Collected(chunks)| ==> |Collected(chunks)[i].text| <= SnippetLimit
    decreases |chunks|
  {
    if chunks != [] {
      CollectedSnippets(chunks[..|chunks| - 1]);
    }
  }

  /** One step of the collection: how chunk `i` extends the citations of the chunks before it. */
  lemma CollectedStep(chunks: seq<Chunk>, i: nat)
    requires i < |chunks|
    ensures var prev := Collected(chunks[..i]);
            var c := chunks[i];
            Collected(chunks[..i + 1]) ==
              if c.retrievedContext.None? || TitleOf(c.retrievedContext.value) in Titles(prev) then prev
              else prev + [CitationOf(c.retrievedContext.value)]
  {
    assert chunks[..i + 1][..i] == chunks[..i];
  }

  /** Adding a citation adds its title. */
  lemma TitlesAppend(cs: seq<Citation>, c: Citation)
    ensures Titles(cs + [c]) == Titles(cs) + {c.title}
  {
    assert forall x :: x in cs + [c] <==> x in cs || x == c;
  }

  /** The loop over grounding chunks with its `seen_titles` set. */
  method CollectCitations(chunks: seq<Chunk>) returns (citations: seq<Citation>)
    ensures citations == Collected(chunks)
  {
    citations := [];
    var seen: set<string> := {};
    for i := 0 to |chunks|
      invariant citations == Collected(chunks[..i])
      invariant seen == Titles(citations)
    {
      CollectedStep(chunks, i);
      if chunks[i].retrievedContext.Some? {
        var ctx := chunks[i].retrievedContext.value;
        var title := if ctx.title.Some? then ctx.title.value else UnknownTitle;
        assert title == TitleOf(ctx);
        if title !in seen {
          seen := seen + {title};
          var text := if ctx.text.Some? && ctx.text.value != "" then Take(ctx.text.value, SnippetLimit) else "";
          assert Citation(title, text) == CitationOf(ctx);
          TitlesAppend(citations, Citation(title, text));
          citations := citations + [Citation(title, text)];
        }
      }
    }
    assert chunks[..|chunks|] == chunks;
  }

  // ---------------------------------------------------------------- the call

  /** Decimal digits of a status code. */
  function DecimalString(n: nat): (s: string)
    ensures s != [] && forall i :: 0 <= i < |s| ==> '0' <= s[i] <= '9'
  {
    var d := [('0' as int + n % 10) as char];
    if n < 10 then d else DecimalString(n / 10) + d
  }

  /** The value of a string of decimal digits. */
  function DecimalValue(s: string): nat
    requires forall i :: 0 <= i < |s| ==> '0' <= s[i] <= '9'
    decreases |s|
  {
    if s == [] then 0 else 10 * DecimalValue(s[..|s| - 1]) + (s[|s| - 1] as int - '0' as int)
  }

  /** The status code can be read back from the error text. */
  lemma {:induction false} DecimalRoundTrip(n: nat)
    ensures DecimalValue(DecimalString(n)) == n
  {
    var s := DecimalString(n);
    if n >= 10 {
      DecimalRoundTrip(n / 10);
      assert s[..|s| - 1] == DecimalString(n / 10);
    }
  }

  /** The text returned for a reply. */
  function AnswerFor(reply: Reply): string {
    match reply
    case TimedOut => TimeoutMessage
    case Failed(detail) => ErrorPrefix + detail
    case Answered(status, body) =>
      if status != 200 then ApiErrorPrefix + DecimalString(status) else AnswerText(body)
  }

  /** The citations returned for a reply: none unless the call answered with status 200. */
  function CitationsFor(reply: Reply): (cs: seq<Citation>)
    ensures cs != [] ==> reply.Answered? && reply.status == 200
  {
    if reply.Answered? && reply.status == 200 then CitationsOf(reply.body) else []
  }

  /**
   * Every failure resolves to an apology or error text and no citations:
   * a timeout to the fixed apology, an exception to a text carrying its
   * message, a non-200 status to a text carrying the status code.
   */
  lemma FailuresReturnNoCitations(reply: Reply)
    ensures reply.TimedOut? ==> AnswerFor(reply) == TimeoutMessage && CitationsFor(reply) == []
    ensures reply.Failed? ==> AnswerFor(reply) == ErrorPrefix + reply.detail && CitationsFor(reply) == []
    ensures reply.Answered? && reply.status != 200 ==>
              var text := AnswerFor(reply);
              && text[..|ApiErrorPrefix|] == ApiErrorPrefix
              && DecimalValue(text[|ApiErrorPrefix|..]) == reply.status
              && CitationsFor(reply) == []
  {
    if reply.Answered? && reply.status != 200 {
      DecimalRoundTrip(reply.status);
      var text := AnswerFor(reply);
      assert text[|ApiErrorPrefix|..] == DecimalString(reply.status);
    }
  }

  /**
   * `search_and_answer`: the request conversation it sends, and the answer
   * and citations it returns for the service's reply.
   */
  method SearchAndAnswer(query: string, history: seq<Message>, reply: Reply)
    returns (request: seq<Turn>, answer: string, citations: seq<Citation>)
    ensures request == Contents(history, query)
    ensures answer == AnswerFor(reply)
    ensures citations == CitationsFor(reply)
  {
    request := BuildContents(history, query);
    match reply
    case TimedOut =>
      return request, TimeoutMessage, [];
    case Failed(detail) =>
      return request, ErrorPrefix + detail, [];
    case Answered(status, body) =>
      if status != 200 {
        return request, ApiErrorPrefix + DecimalString(status), [];
      }
      answer, citations := "", [];
      if body.candidates.Some? && body.candidates.value != [] {
        var candidate := body.candidates.value[0];
        if candidate.content.Some? && candidate.content.value.parts.Some? {
          answer := ConcatParts(candidate.content.value.parts.value);
        }
        if candidate.groundingMetadata.Some? && candidate.groundingMetadata.value.groundingChunks.Some? {
          citations := CollectCitations(candidate.groundingMetadata.value.groundingChunks.value);
        }
      }
      citations := Take(citations, CitationLimit);
  }
}
