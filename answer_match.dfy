/** The fuzzy comparison between a stored answer and the label of a rendered choice
    (`isAnswerMatch` inside `answerLearnQuestions`). */
module AnswerMatch {
  import opened Text

  /** `filter(w => w.length > 3)`. */
  function LongWords(words: seq<string>): (r: seq<string>)
    ensures |r| <= |words|
    ensures forall k :: 0 <= k < |r| ==> |r[k]| > 3
    ensures forall w :: w in r <==> w in words && |w| > 3
  {
    if words == [] then []
    else if |words[0]| > 3 then [words[0]] + LongWords(words[1..])
    else LongWords(words[1..])
  }

  /** The filter keeps the order of the words: filtering a concatenation is filtering
      each half (and a single word is kept exactly when it is longer than three,
      `LongWordsOne`). */
  lemma {:induction false} LongWordsAppend(a: seq<string>, b: seq<string>)
    ensures LongWords(a + b) == LongWords(a) + LongWords(b)
    decreases |a|
  {
    if a != [] {
      assert (a + b)[1..] == a[1..] + b;
      LongWordsAppend(a[1..], b);
      assert LongWords(a + b) == (if |a[0]| > 3 then [a[0]] else []) + LongWords(a[1..] + b);
    } else {
      assert a + b == b;
    }
  }

  lemma LongWordsOne(w: string)
    ensures LongWords([w]) == (if |w| > 3 then [w] else [])
  {
    assert [w][1..] == [];
  }

  /** The answer's words longer than three characters: `split(/\s+/)` then the filter.
      The words in order are fixed by `LongWordsAppend` and `SplitWsAt`. */
  function KeyWords(answer: string): (r: seq<string>)
    ensures forall k :: 0 <= k < |r| ==> |r[k]| > 3
    ensures forall w :: w in r <==> w in SplitWs(answer) && |w| > 3
  {
    LongWords(SplitWs(answer))
  }

  /** `words.filter(word => text.includes(word)).length`: how many of the words (with
      repetitions) are found in the text. */
  function Hits(text: string, words: seq<string>): (n: nat)
    ensures n <= |words|
    ensures n == |words| <==> forall k :: 0 <= k < |words| ==> Occurs(words[k], text)
    ensures n == 0 <==> forall k :: 0 <= k < |words| ==> !Occurs(words[k], text)
    decreases |words|
  {
    if words == [] then 0
    else
      ContainsIff(text, words[0]);
      (if Contains(text, words[0]) then 1 else 0) + Hits(text, words[1..])
  }

  /** The count adds up word by word: the hits of a concatenation are the hits of each
      half, and a single word counts one exactly when the text contains it. */
  lemma {:induction false} HitsAppend(text: string, a: seq<string>, b: seq<string>)
    ensures Hits(text, a + b) == Hits(text, a) + Hits(text, b)
    ensures forall w :: Hits(text, [w]) == (if Occurs(w, text) then 1 else 0)
    decreases |a|
  {
    if a != [] {
      assert (a + b)[1..] == a[1..] + b;
      HitsAppend(text, a[1..], b);
    } else {
      assert a + b == b;
    }
    forall w
      ensures Hits(text, [w]) == (if Occurs(w, text) then 1 else 0)
    {
      assert [w][1..] == [];
      ContainsIff(text, w);
    }
  }

  /** `isAnswerMatch(text, answer)`: the answer is found in the text, or at least 70% of
      its long words are (`matchCount / answerWords.length >= 0.7`, which for whole
      numbers is `10 * matchCount >= 7 * answerWords.length`). */
  function IsAnswerMatch(text: string, answer: string): (r: bool)
    ensures Occurs(Clean(answer), Clean(text)) ==> r
    ensures !Occurs(Clean(answer), Clean(text)) ==>
      (r <==> |KeyWords(Clean(answer))| > 0 &&
              10 * Hits(Clean(text), KeyWords(Clean(answer))) >= 7 * |KeyWords(Clean(answer))|)
  {
    var t := Clean(text);
    var a := Clean(answer);
    ContainsIff(t, a);
    if Contains(t, a) then true
    else
      var words := KeyWords(a);
      |words| > 0 && 10 * Hits(t, words) >= 7 * |words|
  }

  /** An answer without a word longer than three characters matches only by being found. */
  lemma ShortAnswerNeedsContainment(text: string, answer: string)
    requires KeyWords(Clean(answer)) == []
    ensures IsAnswerMatch(text, answer) <==> Occurs(Clean(answer), Clean(text))
  {
  }

  /** When every long word of the answer is in the text, the choice matches. */
  lemma AllKeyWordsMatch(text: string, answer: string)
    requires KeyWords(Clean(answer)) != []
    requires forall k :: 0 <= k < |KeyWords(Clean(answer))| ==> Occurs(KeyWords(Clean(answer))[k], Clean(text))
    ensures IsAnswerMatch(text, answer)
  {
  }

  /** When the answer is not found and none of its long words is, the choice does not match. */
  lemma NoKeyWordNoMatch(text: string, answer: string)
    requires !Occurs(Clean(answer), Clean(text))
    requires forall k :: 0 <= k < |KeyWords(Clean(answer))| ==> !Occurs(KeyWords(Clean(answer))[k], Clean(text))
    ensures !IsAnswerMatch(text, answer)
  {
  }

  /** Words found in a text are found in any text that contains it. */
  lemma {:induction false} HitsMonotone(t: string, t2: string, words: seq<string>)
    requires Occurs(t, t2)
    ensures Hits(t, words) <= Hits(t2, words)
    decreases |words|
  {
    if words != [] {
      HitsMonotone(t, t2, words[1..]);
      ContainsIff(t, words[0]);
      ContainsIff(t2, words[0]);
      if Contains(t, words[0]) {
        OccursTrans(words[0], t, t2);
      }
    }
  }

  /** A label that matches still matches when it is read as part of a longer text, as when
      the label falls back to the parent element's whole `textContent`. */
  lemma MatchMonotone(text: string, text2: string, answer: string)
    requires Occurs(text, text2)
    requires IsAnswerMatch(text, answer)
    ensures IsAnswerMatch(text2, answer)
  {
    OccursLower(text, text2);
    OccursTrim(Lower(text), Lower(text2));
    var a := Clean(answer);
    if Occurs(a, Clean(text)) {
      OccursTrans(a, Clean(text), Clean(text2));
    } else if !Occurs(a, Clean(text2)) {
      HitsMonotone(Clean(text), Clean(text2), KeyWords(a));
    }
  }

  /** A label made of the answer with surrounding text matches it. */
  lemma AnswerInsideLabelMatches(pre: string, answer: string, post: string)
    ensures IsAnswerMatch(pre + answer + post, answer)
  {
    OccursSelf(answer);
    assert IsAnswerMatch(answer, answer) by {
      OccursSelf(Clean(answer));
    }
    OccursInMiddle(pre, answer, post);
    MatchMonotone(answer, pre + answer + post, answer);
  }
}
