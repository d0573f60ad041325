/**
 * The mock language-model service: the question template, the heuristic scorer
 * and the feedback builder. Every random draw is a parameter: `pick` chooses
 * among templates (`pick % n`), `roll` is `random.random()` and `raise` says
 * which way the optional one-point adjustment goes.
 */
module LlmService {
  import opened Wrappers
  import opened Text
  import opened DataModels

  /** The stop words removed from both answer and reference before comparing them. */
  const CommonWords: set<string> := {
    "the", "a", "an", "and", "or", "but", "in", "on", "at", "to", "for", "of", "with", "by",
    "is", "are", "was", "were", "be", "been", "being", "have", "has", "had", "do", "does",
    "did", "will", "would", "could", "should", "may", "might", "can", "this", "that",
    "these", "those", "it", "they", "them", "their", "there", "where", "when", "how", "why"
  }

  /** Words whose presence in the answer earns the bonus for explanatory language. */
  const ExplanatoryWords: seq<string> := ["because", "therefore", "however", "although", "since"]

  /** Words whose presence in the answer earns the bonus for giving examples. */
  const ExampleWords: seq<string> := ["example", "instance", "such as", "like"]

  /** `set(s.lower().split())` without the stop words. */
  function Terms(s: string): set<string> {
    (set w | w in Words(Lower(s))) - CommonWords
  }

  lemma IntersectionCard(u: set<string>, r: set<string>)
    ensures |u * r| <= |r|
    ensures |u * r| == |r| ==> r <= u
  {
    assert r == (u * r) + (r - u);
    assert (u * r) * (r - u) == {};
    assert |r| == |u * r| + |r - u|;
  }

  /** The share of reference terms the answer also uses. */
  function OverlapRatio(user: set<string>, reference: set<string>): (x: real)
    ensures 0.0 <= x <= 1.0
    ensures reference != {} ==> (x == 1.0 <==> reference <= user)
    ensures reference != {} ==> (x == 0.0 <==> user * reference == {})
  {
    if reference == {} then 0.0
    else
      IntersectionCard(user, reference);
      var shared, total := |user * reference|, |reference|;
      assert reference <= user ==> user * reference == reference;
      assert shared == 0 <==> user * reference == {};
      RatioFacts(shared, total);
      shared as real / total as real
  }

  lemma RatioFacts(shared: nat, total: nat)
    requires 0 < total && shared <= total
    ensures 0.0 <= shared as real / total as real <= 1.0
    ensures shared as real / total as real == 1.0 <==> shared == total
    ensures shared as real / total as real == 0.0 <==> shared == 0
  {
  }

  /** `min(1.0, len(answer.split()) / 20)`. */
  function LengthFactor(answer: string): (x: real)
    ensures 0.0 <= x <= 1.0
    ensures x == 1.0 <==> |Words(answer)| >= 20
  {
    var n := |Words(answer)| as real / 20.0;
    if n < 1.0 then n else 1.0
  }

  /** `any(w in s for w in words)`: some listed word occurs in `s` as a substring. */
  predicate AnyContained(s: string, words: seq<string>) {
    exists i :: 0 <= i < |words| && Contains(s, words[i])
  }

  /** The "semantic understanding" bonus: 0.1 for explanatory language, 0.1 for examples. */
  function UnderstandingBonus(answer: string): (b: real)
    ensures b == 0.0 || b == 0.1 || b == 0.2
    ensures b >= 0.1 <==> AnyContained(Lower(answer), ExplanatoryWords) || AnyContained(Lower(answer), ExampleWords)
    ensures b == 0.2 <==> AnyContained(Lower(answer), ExplanatoryWords) && AnyContained(Lower(answer), ExampleWords)
  {
    var lower := Lower(answer);
    (if AnyContained(lower, ExplanatoryWords) then 0.1 else 0.0) +
    (if AnyContained(lower, ExampleWords) then 0.1 else 0.0)
  }

  /** `overlap_ratio + understanding_bonus + answer_length_factor * 0.2`. */
  function BaseScore(answer: string, reference: string): (x: real)
    ensures 0.0 <= x <= 1.4
  {
    OverlapRatio(Terms(answer), Terms(reference)) + UnderstandingBonus(answer) + LengthFactor(answer) * 0.2
  }

  /** The map from the base score to the 0 to 3 scale. */
  function ThresholdScore(base: real): (s: int)
    ensures 0 <= s <= 3
    ensures s == 3 <==> base >= 0.8
    ensures s >= 2 <==> base >= 0.6
    ensures s >= 1 <==> base >= 0.3
  {
    if base >= 0.8 then 3
    else if base >= 0.6 then 2
    else if base >= 0.3 then 1
    else 0
  }

  /** A higher base score never maps to a lower score. */
  lemma ThresholdMonotone(b1: real, b2: real)
    requires b1 <= b2
    ensures ThresholdScore(b1) <= ThresholdScore(b2)
  {
  }

  /** The one-in-five adjustment by one point up or down, kept within 0 to 3. */
  function Adjust(score: int, roll: real, raise: bool): (r: int)
    requires 0 <= score <= 3
    ensures 0 <= r <= 3
    ensures score - 1 <= r <= score + 1
    ensures roll >= 0.2 ==> r == score
    ensures roll < 0.2 && raise ==> r == if score == 3 then 3 else score + 1
    ensures roll < 0.2 && !raise ==> r == if score == 0 then 0 else score - 1
  {
    if roll < 0.2 then
      var adjusted := score + (if raise then 1 else -1);
      if adjusted < 0 then 0 else if adjusted > 3 then 3 else adjusted
    else score
  }

  /** `_mock_llm_scoring`. */
  function MockScore(answer: string, reference: string, roll: real, raise: bool): (s: int)
    ensures 0 <= s <= 3
    ensures Terms(reference) == {} ==> s == 1
    ensures Terms(reference) != {} ==>
      var t := ThresholdScore(BaseScore(answer, reference));
      t - 1 <= s <= t + 1 && (roll >= 0.2 ==> s == t)
  {
    if Terms(reference) == {} then 1
    else Adjust(ThresholdScore(BaseScore(answer, reference)), roll, raise)
  }

  /**
   * An answer that uses every reference term and runs to twenty words or more
   * scores 3 before the adjustment, so never below 2.
   */
  lemma FullOverlapScoresHigh(answer: string, reference: string, roll: real, raise: bool)
    requires Terms(reference) != {} && Terms(reference) <= Terms(answer) && |Words(answer)| >= 20
    ensures ThresholdScore(BaseScore(answer, reference)) == 3
    ensures MockScore(answer, reference, roll, raise) >= 2
  {
  }

  /** An answer that shares no term with the reference and is short scores 0 before the adjustment. */
  lemma NoOverlapScoresLow(answer: string, reference: string)
    requires Terms(reference) != {} && Terms(answer) * Terms(reference) == {} && |Words(answer)| < 10
    ensures ThresholdScore(BaseScore(answer, reference)) == 0
  {
  }

  const ExcellentTemplates: seq<string> := [
    "Excellent answer! You demonstrated a comprehensive understanding of the topic.",
    "Outstanding! Your answer covers all the key concepts thoroughly.",
    "Perfect! You've shown deep understanding and provided a complete response."]

  const GoodTemplates: seq<string> := [
    "Good answer! You covered most of the important points with solid understanding.",
    "Well done! Your response shows good grasp of the material with minor gaps.",
    "Nice work! You've captured the main ideas effectively."]

  const FairTemplates: seq<string> := [
    "Fair answer. You touched on some relevant points but could expand on key concepts.",
    "Partially correct. Try to include more specific details and explanations.",
    "You're on the right track, but your answer needs more depth and detail."]

  const PoorTemplates: seq<string> := [
    "Your answer needs significant improvement. Please review the material more carefully.",
    "This answer doesn't address the question adequately. Consider the key concepts more thoroughly.",
    "Please try again with more focus on the specific topic and its main ideas."]

  /** The feedback templates for a score, or None for a score outside 0 to 3 (a `KeyError`). */
  function FeedbackTemplates(score: int): (t: Option<seq<string>>)
    ensures t.Some? <==> 0 <= score <= 3
    ensures t.Some? ==> |t.value| == 3
  {
    if score == 3 then Some(ExcellentTemplates)
    else if score == 2 then Some(GoodTemplates)
    else if score == 1 then Some(FairTemplates)
    else if score == 0 then Some(PoorTemplates)
    else None
  }

  /** Every template ends in a plain full stop or exclamation, never in a quoted phrase. */
  lemma TemplateEnding(score: int, k: nat)
    requires 0 <= score <= 3 && k < 3
    ensures var t := FeedbackTemplates(score).value[k];
      |t| >= 2 && !EndsWith(t, "'.")
  {
  }

  const MoreDetail: string := " Try to provide more detailed explanations."

  /** The words `[n // 3, n // 3 + 3)` of the reference, joined by spaces. */
  function KeyPhrase(words: seq<string>): (p: string)
    requires |words| > 10
  {
    JoinWith(words[|words| / 3..|words| / 3 + 3], " ")
  }

  function Suggestion(phrase: string): string {
    " Consider discussing concepts like '" + phrase + "'."
  }

  /** Whether the answer is short enough, for its score, to be told to say more. */
  predicate WantsMoreDetail(score: int, answer: string) {
    score < 2 && |Words(answer)| < 10
  }

  /** Whether the feedback names a key phrase of the reference. */
  predicate WantsSuggestion(score: int, reference: string) {
    score < 3 && |Words(reference)| > 10
  }

  /**
   * `_generate_feedback`: None when the score has no templates. Otherwise the
   * feedback opens with the drawn template for that score; the request for more
   * detail follows it exactly when the score is below 2 and the answer has fewer
   * than ten words; it ends with a quoted key phrase exactly when the score is
   * below 3 and the reference has more than ten words; and its length leaves room
   * for nothing else.
   */
  function GenerateFeedback(score: int, answer: string, reference: string, pick: nat): (r: Option<string>)
    ensures r.None? <==> !(0 <= score <= 3)
    ensures r.Some? ==>
      var template := FeedbackTemplates(score).value[pick % 3];
      StartsWith(r.value, template) &&
      (WantsMoreDetail(score, answer) <==> StartsWith(r.value[|template|..], MoreDetail)) &&
      (WantsSuggestion(score, reference) <==> EndsWith(r.value, "'.")) &&
      (WantsSuggestion(score, reference) ==> EndsWith(r.value, Suggestion(KeyPhrase(Words(reference))))) &&
      |r.value| == |template| + (if WantsMoreDetail(score, answer) then |MoreDetail| else 0) +
        (if WantsSuggestion(score, reference) then |Suggestion(KeyPhrase(Words(reference)))| else 0)
  {
    match FeedbackTemplates(score)
    case None => None
    case Some(templates) =>
      var template := templates[pick % 3];
      var detail := if WantsMoreDetail(score, answer) then MoreDetail else "";
      var suggestion := if WantsSuggestion(score, reference) then Suggestion(KeyPhrase(Words(reference))) else "";
      TemplateEnding(score, pick % 3);
      FeedbackShape(template, detail, suggestion);
      Some(template + detail + suggestion)
  }

  /** A suggestion ends in a closing quote and full stop, and does not open like the request for detail. */
  lemma SuggestionShape(phrase: string)
    ensures var s := Suggestion(phrase);
      EndsWith(s, "'.") && !StartsWith(s, MoreDetail)
  {
    var s := Suggestion(phrase);
    assert s == " Consider discussing concepts like '" + (phrase + "'.");
    assert s[1] == 'C';
    assert s[|s| - 2..] == "'.";
    if |MoreDetail| <= |s| {
      assert s[..|MoreDetail|][1] == s[1];
    }
  }

  /** The request for detail ends in a plain full stop. */
  lemma MoreDetailShape()
    ensures |MoreDetail| >= 2 && !EndsWith(MoreDetail, "'.")
  {
  }

  /** Text ends with a suffix iff the text joined after something else does. */
  lemma EndsAfter(a: string, b: string, suffix: string)
    requires |suffix| <= |b|
    ensures EndsWith(a + b, suffix) <==> EndsWith(b, suffix)
  {
    assert (a + b)[|a + b| - |suffix|..] == b[|b| - |suffix|..];
  }

  /** The joined feedback opens with the template, ends with the suggestion, and holds the rest between. */
  lemma FeedbackParts(template: string, detail: string, suggestion: string)
    ensures var r := template + detail + suggestion;
      StartsWith(r, template) && r[|template|..] == detail + suggestion && EndsWith(r, suggestion)
  {
    var r := template + detail + suggestion;
    assert r[..|template|] == template;
    assert r[|template|..] == detail + suggestion;
    assert r[|r| - |suggestion|..] == suggestion;
  }

  /** After the template, the feedback opens with the request for detail iff it was added. */
  lemma DetailShown(detail: string, suggestion: string)
    requires detail == "" || detail == MoreDetail
    requires suggestion == "" || exists phrase :: suggestion == Suggestion(phrase)
    ensures detail != "" <==> StartsWith(detail + suggestion, MoreDetail)
  {
    var rest := detail + suggestion;
    if detail != "" {
      assert rest[..|MoreDetail|] == MoreDetail;
    } else if suggestion != "" {
      var phrase :| suggestion == Suggestion(phrase);
      SuggestionShape(phrase);
      assert rest == suggestion;
    }
  }

  /** The feedback ends in a quoted phrase iff a suggestion was added. */
  lemma SuggestionShown(template: string, detail: string, suggestion: string)
    requires |template| >= 2 && !EndsWith(template, "'.")
    requires detail == "" || detail == MoreDetail
    requires suggestion == "" || exists phrase :: suggestion == Suggestion(phrase)
    ensures suggestion != "" <==> EndsWith(template + detail + suggestion, "'.")
  {
    if suggestion != "" {
      var phrase :| suggestion == Suggestion(phrase);
      SuggestionShape(phrase);
      EndsAfter(template + detail, suggestion, "'.");
    } else {
      assert template + detail + suggestion == template + detail;
      if detail != "" {
        MoreDetailShape();
        EndsAfter(template, detail, "'.");
      } else {
        assert template + detail == template;
      }
    }
  }

  /** How the three parts of the feedback can be told apart once joined. */
  lemma FeedbackShape(template: string, detail: string, suggestion: string)
    requires |template| >= 2 && !EndsWith(template, "'.")
    requires detail == "" || detail == MoreDetail
    requires suggestion == "" || exists phrase :: suggestion == Suggestion(phrase)
    ensures var r := template + detail + suggestion;
      StartsWith(r, template) &&
      (detail != "" <==> StartsWith(r[|template|..], MoreDetail)) &&
      (suggestion != "" <==> EndsWith(r, "'.")) &&
      EndsWith(r, suggestion)
  {
    FeedbackParts(template, detail, suggestion);
    DetailShown(detail, suggestion);
    SuggestionShown(template, detail, suggestion);
  }

  /** The key phrase is three consecutive words of the reference, taken a third of the way in. */
  lemma KeyPhraseWords(words: seq<string>)
    requires |words| > 10
    ensures var k := |words| / 3;
      k + 3 <= |words| && KeyPhrase(words) == words[k] + " " + words[k + 1] + " " + words[k + 2]
  {
    var k := |words| / 3;
    var w := words[k..k + 3];
    var w1 := w[1..];
    assert w1[1..] == [words[k + 2]];
    assert JoinWith(w1, " ") == words[k + 1] + " " + words[k + 2];
    assert JoinWith(w, " ") == words[k] + " " + JoinWith(w1, " ");
  }

  /** The five question openings; the question is one of them, the first 100 characters of the passage, and `...`. */
  const QuestionPrefixes: seq<string> := [
    "Based on the following information, explain the main concept: ",
    "What are the key points mentioned in this text: ",
    "Summarize and explain the following: ",
    "What is the significance of the ideas presented in: ",
    "Analyze and discuss the following content: "]

  function Excerpt(content: string): (e: string)
    ensures |e| <= 100 && |e| <= |content| && e == content[..|e|]
    ensures |e| == 100 || e == content
  {
    if |content| <= 100 then content else content[..100]
  }

  /** `generate_question`. */
  function GenerateQuestion(paragraph: Paragraph, pick: nat): (q: string)
    ensures exists k :: 0 <= k < |QuestionPrefixes| && q == QuestionPrefixes[k] + Excerpt(paragraph.content) + "..."
  {
    QuestionPrefixes[pick % |QuestionPrefixes|] + Excerpt(paragraph.content) + "..."
  }

  /** The excerpt can be read back from the question once its opening is known. */
  lemma QuestionShowsExcerpt(paragraph: Paragraph, pick: nat)
    ensures var prefix := QuestionPrefixes[pick % |QuestionPrefixes|];
      var q := GenerateQuestion(paragraph, pick);
      |prefix| + 3 <= |q| && q[|prefix|..|q| - 3] == Excerpt(paragraph.content)
  {
    var prefix := QuestionPrefixes[pick % |QuestionPrefixes|];
    var q := GenerateQuestion(paragraph, pick);
    assert q == prefix + Excerpt(paragraph.content) + "...";
  }

  /** Two passages of at most 100 characters asked about with the same opening give different questions unless equal. */
  lemma QuestionDeterminesShortContent(p1: Paragraph, p2: Paragraph, pick: nat)
    requires |p1.content| <= 100 && |p2.content| <= 100
    requires GenerateQuestion(p1, pick) == GenerateQuestion(p2, pick)
    ensures p1.content == p2.content
  {
    QuestionShowsExcerpt(p1, pick);
    QuestionShowsExcerpt(p2, pick);
  }

  /** `score_answer`: the mock score and the feedback for it. */
  function ScoreAnswer(answer: string, reference: Paragraph, roll: real, raise: bool, pick: nat): (r: (int, string))
    ensures 0 <= r.0 <= 3
    ensures r.0 == MockScore(answer, reference.content, roll, raise)
    ensures Some(r.1) == GenerateFeedback(r.0, answer, reference.content, pick)
  {
    var score := MockScore(answer, reference.content, roll, raise);
    (score, GenerateFeedback(score, answer, reference.content, pick).value)
  }
}
