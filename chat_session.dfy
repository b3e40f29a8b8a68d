/**
 * The answering step of the chat app's page (`main` in `app.py`): an answer
 * is owed when the transcript ends with a user message and the assistant
 * has answered fewer messages than the user sent; the owed answer is then
 * produced from the last message and the history before it, and appended.
 */
module ChatSession {
  import opened Common
  import opened GroundedAnswer

  const UserRole: string := "user"
  const AssistantRole: string := "assistant"

  /** The number of messages with role `role`. */
  function CountRole(ms: seq<Message>, role: string): (n: nat)
    ensures n <= |ms|
    decreases |ms|
  {
    if ms == [] then 0
    else CountRole(ms[..|ms| - 1], role) + (if ms[|ms| - 1].role == role then 1 else 0)
  }

  /**
   * `needs_response`. When it holds, the history sent with the owed query
   * holds no more assistant answers than user messages.
   */
  predicate NeedsResponse(ms: seq<Message>): (owed: bool)
    ensures owed ==> |ms| > 0 && CountRole(ms[..|ms| - 1], AssistantRole) <= CountRole(ms[..|ms| - 1], UserRole)
  {
    && ms != []
    && ms[|ms| - 1].role == UserRole
    && CountRole(ms, AssistantRole) < CountRole(ms, UserRole)
  }

  /** A transcript in which user and assistant messages alternate, the user first. */
  predicate Alternating(ms: seq<Message>) {
    forall i :: 0 <= i < |ms| ==> ms[i].role == (if i % 2 == 0 then UserRole else AssistantRole)
  }

  lemma {:induction false} AlternatingCounts(ms: seq<Message>)
    requires Alternating(ms)
    ensures CountRole(ms, UserRole) == (|ms| + 1) / 2
    ensures CountRole(ms, AssistantRole) == |ms| / 2
    decreases |ms|
  {
    if ms != [] {
      AlternatingCounts(ms[..|ms| - 1]);
    }
  }

  /** On an alternating transcript an answer is owed exactly when its length is odd. */
  lemma NeedsResponseAlternating(ms: seq<Message>)
    requires Alternating(ms)
    ensures NeedsResponse(ms) <==> |ms| % 2 == 1
  {
    AlternatingCounts(ms);
  }

  /** Appending the owed answer to an alternating transcript keeps it alternating. */
  lemma AnswerKeepsAlternation(ms: seq<Message>, answer: string, citations: seq<Citation>)
    requires Alternating(ms) && NeedsResponse(ms)
    ensures Alternating(ms + [Message(AssistantRole, answer, citations)])
  {
    NeedsResponseAlternating(ms);
  }

  /**
   * The answering step: when an answer is owed, the last message is the
   * query, the messages before it are the history, and the assistant's
   * answer with its citations is appended; afterwards no answer is owed.
   */
  method RespondIfNeeded(messages: seq<Message>, reply: Reply)
    returns (transcript: seq<Message>, request: Option<seq<Turn>>)
    ensures !NeedsResponse(messages) ==> transcript == messages && request.None?
    ensures NeedsResponse(messages) ==>
              var n := |messages| - 1;
              && request == Some(Contents(messages[..n], messages[n].content))
              && transcript == messages + [Message(AssistantRole, AnswerFor(reply), CitationsFor(reply))]
    ensures !NeedsResponse(transcript)
  {
    if !NeedsResponse(messages) {
      return messages, None;
    }
    var n := |messages| - 1;
    var sent, answer, citations := SearchAndAnswer(messages[n].content, messages[..n], reply);
    transcript := messages + [Message(AssistantRole, answer, citations)];
    request := Some(sent);
    assert transcript[|transcript| - 1].role == AssistantRole;
  }
}
