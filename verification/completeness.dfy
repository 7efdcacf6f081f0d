/**
 The completeness validator (`is_story_complete`): a generated story is kept
 only if it is long enough, does not stop on a known truncated phrase, ends in
 sentence-closing punctuation and has enough words.
 */
module Completeness {
  import opened Text

  /** Fewest characters a trimmed story may have. */
  const MinStoryLength: nat := 50

  /** Fewest whitespace-separated words a story may have. */
  const MinWordCount: nat := 30

  /** Phrases a truncated story is known to stop on. */
  const IncompletePatterns: seq<string> := [
    "The old woman then asks the girl if she will",
    "and is eventually caught up in the story line",
    "taken away by the evil witch",
    "However, Jyao has trouble finding out",
    "and is later captured by the Fairy Godmother",
    "and is later captured by",
    "taken away by the",
    "asks the girl if she will"
  ]

  /** The pattern test as the validator writes it: the lower-cased story both
      contains a lower-cased pattern and ends with it. */
  predicate MatchesIncompletePattern(lower: string) {
    exists k :: 0 <= k < |IncompletePatterns| &&
      Contains(lower, Lower(IncompletePatterns[k])) && EndsWith(lower, Lower(IncompletePatterns[k]))
  }

  /** The same test with the redundant containment dropped. */
  predicate EndsWithIncompletePattern(lower: string) {
    exists k :: 0 <= k < |IncompletePatterns| && EndsWith(lower, Lower(IncompletePatterns[k]))
  }

  /** The validator, check by check in the order `is_story_complete` makes them. */
  function IsStoryComplete(story: string): (b: bool)
    ensures b ==> |story| >= MinStoryLength
  {
    if story == [] || |Strip(story)| < MinStoryLength then false
    else if MatchesIncompletePattern(Lower(story)) then false
    else if !EndsWithTerminal(RStrip(story)) then false
    else if |Words(story)| < MinWordCount then false
    else true
  }

  /** Containment adds nothing to the pattern test: a string contains each of
      its suffixes. */
  lemma PatternTestIsEndsWith(lower: string)
    ensures MatchesIncompletePattern(lower) <==> EndsWithIncompletePattern(lower)
  {
    if EndsWithIncompletePattern(lower) {
      var k :| 0 <= k < |IncompletePatterns| && EndsWith(lower, Lower(IncompletePatterns[k]));
      EndsWithContains(lower, Lower(IncompletePatterns[k]));
    }
  }

  /** The validator accepts exactly the stories that are long enough once
      trimmed, end (lower-cased) on none of the patterns, end in '.', '!' or '?'
      once right-trimmed, and have enough words. */
  lemma StoryCompleteIff(story: string)
    ensures IsStoryComplete(story) <==>
      && |Strip(story)| >= MinStoryLength
      && !EndsWithIncompletePattern(Lower(story))
      && EndsWithTerminal(RStrip(story))
      && |Words(story)| >= MinWordCount
  {
    PatternTestIsEndsWith(Lower(story));
  }

  /** Anything shorter than the minimum is rejected, whatever it says. */
  lemma ShortRejected(story: string)
    requires |story| < MinStoryLength
    ensures !IsStoryComplete(story)
  {
  }

  /** Every pattern ends in a lower-case letter. */
  lemma PatternsEndInLetters(k: nat)
    requires k < |IncompletePatterns|
    ensures var p := IncompletePatterns[k]; p != [] && 'a' <= p[|p| - 1] <= 'z'
  {
  }

  /** A story whose lower-cased form ends on a pattern ends in a letter, so it
      can never pass the punctuation check: the pattern test never decides. */
  lemma PatternImpliesNoTerminal(story: string)
    requires EndsWithIncompletePattern(Lower(story))
    ensures !EndsWithTerminal(RStrip(story))
  {
    var k :| 0 <= k < |IncompletePatterns| && EndsWith(Lower(story), Lower(IncompletePatterns[k]));
    var c := LoweredEnding(story, k);
    LetterIsPlain(story[|story| - 1]);
    assert TrailingSpaces(story) == 0;
  }

  /** A story whose lower-cased form ends on pattern `k` ends in a character
      that folds to a lower-case letter. */
  lemma LoweredEnding(story: string, k: nat) returns (c: char)
    requires k < |IncompletePatterns|
    requires EndsWith(Lower(story), Lower(IncompletePatterns[k]))
    ensures story != [] && c == LowerChar(story[|story| - 1]) && 'a' <= c <= 'z'
  {
    var p := IncompletePatterns[k];
    PatternsEndInLetters(k);
    var lp := Lower(p);
    var ls := Lower(story);
    assert lp[|lp| - 1] == p[|p| - 1];
    assert ls[|ls| - 1] == lp[|lp| - 1];
    c := ls[|ls| - 1];
  }

  /** A character that folds to a lower-case letter is neither whitespace nor
      punctuation. */
  lemma LetterIsPlain(c: char)
    requires 'a' <= LowerChar(c) <= 'z'
    ensures !IsSpace(c) && !IsTerminal(c)
  {
  }

  /** The validator is equivalent to its three other checks alone. */
  lemma StoryCompleteWithoutPatterns(story: string)
    ensures IsStoryComplete(story) <==>
      && |Strip(story)| >= MinStoryLength
      && EndsWithTerminal(RStrip(story))
      && |Words(story)| >= MinWordCount
  {
    StoryCompleteIff(story);
    if EndsWithIncompletePattern(Lower(story)) {
      PatternImpliesNoTerminal(story);
    }
  }
}
