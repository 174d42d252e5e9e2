/**
 * The FAQ keyword matcher of the `/api/chatbot` handler in app.py.
 *
 * The query is lower-cased; an empty query gets a fixed prompt. Otherwise
 * every FAQ is scored by the number of distinct lower-cased words its
 * question shares with the query; the first FAQ with the strictly highest
 * score is kept, and its answer is returned only when that score is at
 * least 2. The FAQ rows arrive as a sequence, in the order the database
 * returned them.
 */
module Chatbot {
  import opened Wrappers
  import opened Text

  datatype Faq = Faq(question: string, answer: string)

  const AskPrompt := "Please ask a question."
  /** The initial value of `best_match_answer`; never returned on its own account. */
  const DefaultAnswer := "I'm sorry, I don't have an answer for that. Please try rephrasing your question or contact a regulatory authority directly."
  const NoMatchAnswer := "I'm sorry, I don't have a specific answer for that. You can browse the documents or contact a regulator for more help."
  /** The least score that counts as a match. */
  const MatchThreshold := 2

  /** `len(query_words.intersection(set(question.lower().split())))`. */
  function Overlap(queryWords: set<string>, question: string): (n: nat)
    ensures n <= |queryWords|
  {
    IntersectionBounded(queryWords, Words(Lower(question)));
    |queryWords * Words(Lower(question))|
  }

  /**
   * The score of one FAQ for the raw query: never more than the number of
   * distinct words of the query, nor of the question.
   */
  function Score(query: string, faq: Faq): (n: nat)
    ensures n <= |Words(Lower(query))|
    ensures n <= |Words(Lower(faq.question))|
  {
    var a, b := Words(Lower(query)), Words(Lower(faq.question));
    IntersectionBounded(b, a);
    assert a * b == b * a;
    Overlap(a, faq.question)
  }

  function Scores(query: string, faqs: seq<Faq>): (s: seq<nat>)
    ensures |s| == |faqs|
  {
    seq(|faqs|, k requires 0 <= k < |faqs| => Score(query, faqs[k]))
  }

  function Max(a: nat, b: nat): nat {
    if a < b then b else a
  }

  /** The value `highest_score` holds after a pass over `scores`; it starts at 0. */
  function Top(scores: seq<nat>): (t: nat)
    ensures forall j :: 0 <= j < |scores| ==> scores[j] <= t
    ensures t == 0 || t in scores
  {
    if scores == [] then 0
    else Max(Top(scores[..|scores| - 1]), scores[|scores| - 1])
  }

  /**
   * The index whose answer `best_match_answer` holds after a pass over
   * `scores`: the earliest index of a positive maximum, or None when every
   * score is 0.
   */
  function Leader(scores: seq<nat>): (r: Option<nat>)
    ensures r.None? <==> Top(scores) == 0
    ensures r.Some? ==>
      && r.value < |scores|
      && scores[r.value] == Top(scores)
      && forall j :: 0 <= j < r.value ==> scores[j] < scores[r.value]
  {
    if scores == [] then None
    else
      var prefix := scores[..|scores| - 1];
      if scores[|scores| - 1] > Top(prefix) then Some(|scores| - 1)
      else
        var r := Leader(prefix);
        assert r.Some? ==> prefix[r.value] == scores[r.value];
        r
  }

  /** What the handler decides, before it is turned into text. */
  datatype Verdict = AskForQuestion | NoMatch | Matched(index: nat)

  /**
   * The prompt is the verdict exactly for the empty query; a matched FAQ
   * exists and scores at least 2.
   */
  function Decide(query: string, faqs: seq<Faq>): (v: Verdict)
    ensures v == AskForQuestion <==> query == []
    ensures v.Matched? ==> v.index < |faqs| && MatchThreshold <= Score(query, faqs[v.index])
  {
    var q := Lower(query);
    if q == [] then AskForQuestion
    else
      var scores := Scores(query, faqs);
      if Top(scores) < MatchThreshold then NoMatch
      else Matched(Leader(scores).value)
  }

  /**
   * The `answer` field of the JSON reply: the prompt for an empty query, and
   * otherwise the fixed no-match text or the answer of an FAQ scoring at least 2.
   */
  function Reply(query: string, faqs: seq<Faq>): (r: string)
    ensures query == [] ==> r == AskPrompt
    ensures || r == AskPrompt
            || r == NoMatchAnswer
            || exists i :: 0 <= i < |faqs| && r == faqs[i].answer && MatchThreshold <= Score(query, faqs[i])
  {
    match Decide(query, faqs)
    case AskForQuestion => AskPrompt
    case NoMatch => NoMatchAnswer
    case Matched(i) => faqs[i].answer
  }

  /** The answer `best_match_answer` holds for a given leader. */
  function AnswerOf(faqs: seq<Faq>, leader: Option<nat>): string
    requires leader.Some? ==> leader.value < |faqs|
  {
    match leader
    case None => DefaultAnswer
    case Some(k) => faqs[k].answer
  }

  /** The scoring loop of `chatbot_query`, over the FAQ rows fetched from the database. */
  method ChatbotQuery(query: string, faqs: seq<Faq>) returns (answer: string)
    ensures answer == Reply(query, faqs)
  {
    var userQuery := Lower(query);
    if userQuery == [] {
      return AskPrompt;
    }
    var bestMatchAnswer := DefaultAnswer;
    var highestScore := 0;
    var queryWords := Words(userQuery);
    ghost var scores := Scores(query, faqs);
    for i := 0 to |faqs|
      invariant highestScore == Top(scores[..i])
      invariant bestMatchAnswer == AnswerOf(faqs, Leader(scores[..i]))
    {
      var score := Overlap(queryWords, faqs[i].question);
      assert score == scores[i];
      PrefixStep(scores, i);
      if score > highestScore {
        highestScore := score;
        bestMatchAnswer := faqs[i].answer;
      }
    }
    assert scores[..|faqs|] == scores;
    if highestScore < MatchThreshold {
      return NoMatchAnswer;
    }
    return bestMatchAnswer;
  }

  /** Extending a prefix of the scores by one: how `Top` and `Leader` move. */
  lemma PrefixStep(scores: seq<nat>, i: nat)
    requires i < |scores|
    ensures Top(scores[..i + 1]) == Max(Top(scores[..i]), scores[i])
    ensures Leader(scores[..i + 1]) ==
      if scores[i] > Top(scores[..i]) then Some(i) else Leader(scores[..i])
  {
    assert scores[..i + 1][..i] == scores[..i];
  }

  /** A set shares at most as many elements with another as it has. */
  lemma {:induction false} IntersectionBounded(a: set<string>, b: set<string>)
    ensures |a * b| <= |a|
    decreases |a|
  {
    if a != {} {
      var x :| x in a;
      IntersectionBounded(a - {x}, b);
      if x in b {
        assert a * b == (a - {x}) * b + {x};
      } else {
        assert a * b == (a - {x}) * b;
      }
    }
  }

  /** The query is empty exactly when the prompt to ask is returned, whatever the FAQs. */
  lemma EmptyQueryAsks(query: string, faqs: seq<Faq>)
    ensures Decide(query, faqs) == AskForQuestion <==> query == []
    ensures query == [] ==> Reply(query, faqs) == AskPrompt
  {
  }

  /** An earliest positive maximum is the leader: the leader is the only index with that property. */
  lemma EarliestMaximumIsLeader(scores: seq<nat>, i: nat)
    requires i < |scores| && 0 < scores[i]
    requires forall j :: 0 <= j < |scores| ==> scores[j] <= scores[i]
    requires forall j :: 0 <= j < i ==> scores[j] < scores[i]
    ensures Leader(scores) == Some(i)
  {
    assert Top(scores) in scores;
    var k := Leader(scores).value;
    assert !(k < i) && !(i < k);
  }

  /** Every score is below `bound` exactly when the top score is. */
  lemma TopBelow(scores: seq<nat>, bound: nat)
    requires 0 < bound
    ensures Top(scores) < bound <==> forall j :: 0 <= j < |scores| ==> scores[j] < bound
  {
    if Top(scores) != 0 {
      assert Top(scores) in scores;
    }
  }

  /**
   * A matched FAQ is the earliest one of highest score, and that score is at
   * least 2; conversely such an FAQ is the one matched.
   */
  lemma MatchedIsEarliestBest(query: string, faqs: seq<Faq>, i: nat)
    ensures Decide(query, faqs) == Matched(i) <==>
      && query != []
      && i < |faqs|
      && MatchThreshold <= Score(query, faqs[i])
      && (forall j :: 0 <= j < |faqs| ==> Score(query, faqs[j]) <= Score(query, faqs[i]))
      && (forall j :: 0 <= j < i ==> Score(query, faqs[j]) < Score(query, faqs[i]))
  {
    var scores := Scores(query, faqs);
    assert forall j :: 0 <= j < |faqs| ==> scores[j] == Score(query, faqs[j]);
    if i < |faqs| && MatchThreshold <= scores[i]
      && (forall j :: 0 <= j < |faqs| ==> scores[j] <= scores[i])
      && (forall j :: 0 <= j < i ==> scores[j] < scores[i])
    {
      EarliestMaximumIsLeader(scores, i);
    }
  }

  /** No FAQ is matched exactly when the query is non-empty and every score is below 2. */
  lemma NoMatchIffAllBelowThreshold(query: string, faqs: seq<Faq>)
    ensures Decide(query, faqs) == NoMatch <==>
      query != [] && forall j :: 0 <= j < |faqs| ==> Score(query, faqs[j]) < MatchThreshold
  {
    var scores := Scores(query, faqs);
    assert forall j :: 0 <= j < |faqs| ==> scores[j] == Score(query, faqs[j]);
    TopBelow(scores, MatchThreshold);
  }

  /** A query of whitespace only is not empty, so it is looked up, and it matches nothing. */
  lemma BlankQueryNoMatch(query: string, faqs: seq<Faq>)
    requires query != []
    requires forall i :: 0 <= i < |query| ==> IsSpace(query[i])
    ensures Decide(query, faqs) == NoMatch
  {
    forall i | 0 <= i < |query| ensures IsSpace(Lower(query)[i]) {
      LowerCharKeepsSpace(query[i]);
    }
    SplitAllSpace(Lower(query));
    NoMatchIffAllBelowThreshold(query, faqs);
  }

  /** Matching ignores case, in the query and in the questions alike. */
  lemma ScoreIgnoresCase(query: string, faq: Faq)
    ensures Score(Lower(query), faq) == Score(query, faq)
    ensures Score(query, Faq(Lower(faq.question), faq.answer)) == Score(query, faq)
  {
    LowerIdempotent(query);
    LowerIdempotent(faq.question);
  }

  lemma DecideIgnoresCase(query: string, faqs: seq<Faq>)
    ensures Decide(Lower(query), faqs) == Decide(query, faqs)
  {
    LowerIdempotent(query);
    assert Scores(Lower(query), faqs) == Scores(query, faqs);
  }

  /**
   * The default text set before the loop is never returned on its own
   * account: it comes back only if some FAQ's own answer is that text.
   */
  lemma DefaultAnswerOnlyFromFaq(query: string, faqs: seq<Faq>)
    ensures Reply(query, faqs) == DefaultAnswer ==>
      exists i :: 0 <= i < |faqs| && faqs[i].answer == DefaultAnswer
  {
    assert DefaultAnswer != AskPrompt && DefaultAnswer != NoMatchAnswer;
  }
}
