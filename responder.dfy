/**
 * The conversation handler of `Chatbotai.py`: the rule-based intercepts of
 * `ai_chatbot` and the nearest-answer selection of `ai_search`.
 *
 * The similarity scores themselves (TF-IDF transform of the query and cosine
 * similarity against every indexed question) are not modelled: a scorer is a
 * parameter that maps a query to one score per corpus row.
 */
module Responder {
  import opened Text

  /** A row of the flat corpus searched by similarity. */
  datatype Row = Row(question: string, answer: string)

  const GreetingReply: string := "Hello! How can I help you?"
  const ThanksReply: string := "You're welcome!"
  const Fallback: string := "I'm not sure. Could you clarify your question?"

  /** The greeting substrings, checked in this order. */
  const Greetings: seq<string> := ["hello", "hi", "hey"]
  const ThanksWord: string := "thank"

  /** A score must be strictly above this to select a corpus answer. */
  const Threshold: real := 0.2

  /** `k` is the lowest index holding the maximum of `s` (numpy's `argmax`). */
  ghost predicate IsFirstMax(s: seq<real>, k: int) {
    && 0 <= k < |s|
    && (forall j :: 0 <= j < |s| ==> s[j] <= s[k])
    && (forall j :: 0 <= j < k ==> s[j] < s[k])
  }

  /** There is exactly one lowest index of the maximum. */
  lemma FirstMaxUnique(s: seq<real>, k1: int, k2: int)
    requires IsFirstMax(s, k1) && IsFirstMax(s, k2)
    ensures k1 == k2
  {
    assert s[k1] <= s[k2] && s[k2] <= s[k1];
  }

  /** The lowest index of a maximal score. */
  function ArgMax(s: seq<real>): (k: nat)
    requires |s| > 0
    ensures IsFirstMax(s, k)
  {
    if |s| == 1 then
      0
    else
      var init := s[..|s| - 1];
      var k := ArgMax(init);
      assert forall j :: 0 <= j < |s| - 1 ==> init[j] == s[j];
      if s[|s| - 1] > s[k] then |s| - 1 else k
  }

  /**
   * The selection rule of `ai_search`: the answer of the first best-scoring
   * row if its score is strictly above the threshold, the fallback otherwise.
   */
  function Search(scores: seq<real>, corpus: seq<Row>): (r: string)
    requires |scores| == |corpus| > 0
    ensures forall k :: IsFirstMax(scores, k) ==>
              r == if scores[k] > Threshold then corpus[k].answer else Fallback
    ensures (forall j :: 0 <= j < |scores| ==> scores[j] <= Threshold) ==> r == Fallback
    ensures (exists j :: 0 <= j < |scores| && scores[j] > Threshold) ==>
              exists k :: 0 <= k < |corpus| && scores[k] > Threshold && r == corpus[k].answer
  {
    var k := ArgMax(scores);
    assert forall k' :: IsFirstMax(scores, k') ==> k' == k by {
      forall k' | IsFirstMax(scores, k') ensures k' == k {
        FirstMaxUnique(scores, k', k);
      }
    }
    if scores[k] > Threshold then corpus[k].answer else Fallback
  }

  /** `ai_chatbot`: greetings first, then thanks, else the similarity search on the original input. */
  function Respond(input: string, score: string -> seq<real>, corpus: seq<Row>): (r: string)
    requires |corpus| > 0 && |score(input)| == |corpus|
    ensures var lower := ToLower(input);
            Contains(lower, "hello") || Contains(lower, "hi") || Contains(lower, "hey") ==>
              r == GreetingReply
    ensures var lower := ToLower(input);
            !Contains(lower, "hello") && !Contains(lower, "hi") && !Contains(lower, "hey") &&
            Contains(lower, "thank") ==>
              r == ThanksReply
    ensures var lower := ToLower(input);
            !Contains(lower, "hello") && !Contains(lower, "hi") && !Contains(lower, "hey") &&
            !Contains(lower, "thank") ==>
              r == Search(score(input), corpus)
  {
    var lower := ToLower(input);
    assert Greetings[0] == "hello" && Greetings[1] == "hi" && Greetings[2] == "hey";
    if ContainsAny(lower, Greetings) then
      GreetingReply
    else if Contains(lower, ThanksWord) then
      ThanksReply
    else
      Search(score(input), corpus)
  }

  /** Whatever else `input` says, a "hi" hidden inside a word such as "this" makes it a greeting. */
  lemma {:induction false} GreetingInsideWord(input: string, score: string -> seq<real>, corpus: seq<Row>)
    requires |corpus| > 0 && |score(input)| == |corpus|
    requires Contains(ToLower(input), "this")
    ensures Respond(input, score, corpus) == GreetingReply
  {
    assert OccursAt("this", "hi", 1);
    ContainsTransitive(ToLower(input), "this", "hi");
  }

  /**
   * The rules read the input case-insensitively: two inputs that agree once
   * lower-cased get the same rule-based reply.
   */
  lemma RulesIgnoreCase(a: string, b: string, score: string -> seq<real>, corpus: seq<Row>)
    requires |corpus| > 0 && |score(a)| == |corpus| && |score(b)| == |corpus|
    requires ToLower(a) == ToLower(b)
    requires ContainsAny(ToLower(a), Greetings) || Contains(ToLower(a), ThanksWord)
    ensures Respond(b, score, corpus) == Respond(a, score, corpus)
  {
  }

  /** "hi there" is answered with the greeting, whatever the corpus holds. */
  lemma HiThereIsGreeting(score: string -> seq<real>, corpus: seq<Row>)
    requires |corpus| > 0 && |score("hi there")| == |corpus|
    ensures Respond("hi there", score, corpus) == GreetingReply
  {
  }
}
