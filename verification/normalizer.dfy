/**
 The story normalizer (`clean_and_complete_story`): trims the raw model output,
 repairs a few known truncated endings, enforces terminal punctuation, drops
 empty, short and repeated sentences and rejoins the rest into prose.
 */
module Normalizer {
  import opened Text

  /** Returned for an empty input. */
  const Placeholder: string := "Sorry, I couldn't generate a story this time. Please try again."

  /** The two sentences the placeholder is made of. */
  const PlaceholderSentences: seq<string> := [PlaceholderApology, PlaceholderAdvice]
  const PlaceholderApology: string := "Sorry, I couldn't generate a story this time"
  const PlaceholderAdvice: string := "Please try again"

  /** Endings the model is known to stop on in mid-sentence. */
  const IncompleteEndings: seq<string> := [
    "The old woman then asks the girl if she will",
    "and is eventually caught up in the story line",
    "taken away by the evil witch",
    "However, Jyao has trouble finding out",
    "and is later captured by the Fairy Godmother"
  ]

  /** Appended to a story that stops on one of the known endings. */
  const HappyEnding: string := " find the answers they seek and live happily ever after."

  /** Appended to a story whose last fragment is too short to be a sentence. */
  const GenericEnding: string := " and they all lived happily ever after."

  /** A trailing fragment longer than this is closed with a period. */
  const MinTailLength: nat := 10

  /** A sentence must be longer than this to survive cleaning. */
  const MinSentenceLength: nat := 5

  predicate EndsIncomplete(s: string) {
    exists k :: 0 <= k < |IncompleteEndings| && EndsWith(s, IncompleteEndings[k])
  }

  /** Every '.' is the last character or is followed by a space. */
  predicate DotsSeparated(s: string) {
    forall i :: 0 <= i < |s| - 1 && s[i] == '.' ==> s[i + 1] == ' '
  }

  predicate Distinct(xs: seq<string>) {
    forall p, q :: 0 <= p < q < |xs| ==> xs[p] != xs[q]
  }

  /** What a cleaned story is built from: distinct, stripped, period-free
      sentences longer than the minimum. */
  predicate WellFormedSentences(ds: seq<string>) {
    && Distinct(ds)
    && forall k :: 0 <= k < |ds| ==>
         |ds[k]| > MinSentenceLength && IsStripped(ds[k]) && '.' !in ds[k]
  }

  /** None of the known endings finishes on terminal punctuation. */
  lemma TerminalIsNotIncomplete(s: string)
    requires EndsWithTerminal(s)
    ensures !EndsIncomplete(s)
  {
    forall k | 0 <= k < |IncompleteEndings|
      ensures !EndsWith(s, IncompleteEndings[k])
    {
      var e := IncompleteEndings[k];
      assert e != [] && !IsTerminal(e[|e| - 1]);
    }
  }

  /** The text after the last '.' (`t.split('.')[-1]`). */
  function LastPiece(t: string): (r: string)
    ensures EndsWith(t, r) && '.' !in r
    ensures |r| == |t| || t[|t| - |r| - 1] == '.'
  {
    LastPieceIsSuffix(t);
    FinalPiece(Split(t, '.'))
  }

  /** The last of a non-empty sequence of pieces. */
  function FinalPiece(ps: seq<string>): string
    requires |ps| >= 1
  {
    ps[|ps| - 1]
  }

  /** `r` is a suffix of `t` that is all of `t` or follows a '.'. */
  predicate IsTailPiece(t: string, r: string) {
    EndsWith(t, r) && (|r| == |t| || t[|t| - |r| - 1] == '.')
  }

  lemma {:induction false} LastPieceIsSuffix(t: string)
    ensures IsTailPiece(t, FinalPiece(Split(t, '.')))
    decreases |t|
  {
    var i := FirstIndexOf(t, '.');
    if i < |t| {
      LastPieceIsSuffix(t[i + 1..]);
      assert t == t[..i] + ['.'] + t[i + 1..];
      SplitLast(t[..i], t[i + 1..]);
      SuffixOfSuffix(t, i + 1, FinalPiece(Split(t[i + 1..], '.')));
    } else {
      assert Split(t, '.') == [t];
    }
  }

  /** Past a '.'-free lead and its '.', the last piece is that of the rest. */
  lemma SplitLast(a: string, b: string)
    requires '.' !in a
    ensures FinalPiece(Split(a + ['.'] + b, '.')) == FinalPiece(Split(b, '.'))
  {
    SplitCons(a, '.', b);
    FinalOfCons(a, Split(b, '.'));
  }

  lemma FinalOfCons(a: string, ps: seq<string>)
    requires |ps| >= 1
    ensures FinalPiece([a] + ps) == FinalPiece(ps)
  {
  }

  /** A tail piece of a suffix that follows a '.' is a tail piece of the whole. */
  lemma SuffixOfSuffix(t: string, j: nat, r: string)
    requires 0 < j <= |t| && t[j - 1] == '.'
    requires IsTailPiece(t[j..], r)
    ensures IsTailPiece(t, r)
  {
    assert t[|t| - |r|..] == t[j..][|t[j..]| - |r|..];
  }

  /** Ending repair (the known-ending completion, then punctuation): the result
      is the input with at most one closing clause or period appended, and a
      non-empty result always ends in terminal punctuation. The `rstrip('.')`
      of the short-fragment branch never removes anything. */
  function RepairEnding(t: string): (r: string)
    ensures EndsIncomplete(t) ==> r == t + HappyEnding
    ensures !EndsIncomplete(t) && (t == [] || EndsWithTerminal(t)) ==> r == t
    ensures !EndsIncomplete(t) && t != [] && !EndsWithTerminal(t) ==>
      r == t + (if |Strip(LastPiece(t))| > MinTailLength then "." else GenericEnding)
    ensures t != [] ==> EndsWithTerminal(r)
  {
    var u := if EndsIncomplete(t) then t + HappyEnding else t;
    if u != [] && !EndsWithTerminal(u) then
      if |Strip(LastPiece(u))| > MinTailLength then u + "."
      else RStripChar(u, '.') + GenericEnding
    else
      u
  }

  /** Repairing an already repaired ending changes nothing. */
  lemma RepairEndingIdempotent(t: string)
    ensures RepairEnding(RepairEnding(t)) == RepairEnding(t)
  {
    if t == [] {
      RepairEmpty();
    } else {
      RepairTerminal(RepairEnding(t));
    }
  }

  /** Nothing to repair in the empty text. */
  lemma RepairEmpty()
    ensures RepairEnding([]) == []
  {
    assert !EndsIncomplete([]);
  }

  /** Text that already ends in terminal punctuation is left alone. */
  lemma RepairTerminal(u: string)
    requires EndsWithTerminal(u)
    ensures RepairEnding(u) == u
  {
    TerminalIsNotIncomplete(u);
  }

  /** Each piece of `ps`, stripped. */
  function StripAll(ps: seq<string>): (r: seq<string>)
    ensures |r| == |ps|
    ensures forall k :: 0 <= k < |ps| ==> r[k] == Strip(ps[k])
  {
    seq(|ps|, k requires 0 <= k < |ps| => Strip(ps[k]))
  }

  /** The trimmed '.'-separated segments of `s`. */
  function Segments(s: string): (ts: seq<string>)
    ensures |ts| >= 1
    ensures forall k :: 0 <= k < |ts| ==> IsStripped(ts[k]) && '.' !in ts[k]
  {
    var ps := Split(s, '.');
    forall k | 0 <= k < |ps| ensures '.' !in Strip(ps[k]) {
      StripSubset(ps[k], '.');
    }
    StripAll(ps)
  }

  /** Position of the first occurrence of `x` in `ts`. */
  function IndexIn(ts: seq<string>, x: string): (i: nat)
    requires x in ts
    ensures i < |ts| && ts[i] == x
    ensures forall j :: 0 <= j < i ==> ts[j] != x
  {
    if ts[0] == x then 0 else 1 + IndexIn(ts[1..], x)
  }

  /** The values of `r`, all taken from `ts`, appear in `r` in the order of
      their first occurrence in `ts`. */
  predicate FirstOccurrenceOrder(ts: seq<string>, r: seq<string>)
    requires forall k :: 0 <= k < |r| ==> r[k] in ts
  {
    forall p, q :: 0 <= p < q < |r| ==> IndexIn(ts, r[p]) < IndexIn(ts, r[q])
  }

  /** The de-duplication loop: keeps each segment that is non-empty, longer than
      the minimum and not yet seen, adding it to the seen set. */
  function Dedup(ts: seq<string>, seen: set<string>): (r: seq<string>)
    ensures forall k :: 0 <= k < |r| ==> r[k] in ts && r[k] !in seen && |r[k]| > MinSentenceLength
  {
    if ts == [] then
      []
    else
      var s := ts[0];
      if s != [] && s !in seen && |s| > MinSentenceLength then
        [s] + Dedup(ts[1..], seen + {s})
      else
        Dedup(ts[1..], seen)
  }

  /** Every long segment not seen before survives de-duplication. */
  lemma {:induction false} DedupComplete(ts: seq<string>, seen: set<string>)
    ensures forall k :: 0 <= k < |ts| && |ts[k]| > MinSentenceLength && ts[k] !in seen ==>
      ts[k] in Dedup(ts, seen)
  {
    if ts != [] {
      var s := ts[0];
      if s != [] && s !in seen && |s| > MinSentenceLength {
        DedupComplete(ts[1..], seen + {s});
      } else {
        DedupComplete(ts[1..], seen);
      }
      forall k | 1 <= k < |ts| ensures ts[k] == ts[1..][k - 1] { }
    }
  }

  /** De-duplication keeps first occurrences in their original order. */
  lemma {:induction false} DedupOrdered(ts: seq<string>, seen: set<string>)
    ensures FirstOccurrenceOrder(ts, Dedup(ts, seen))
  {
    if ts != [] {
      var s := ts[0];
      var kept := s != [] && s !in seen && |s| > MinSentenceLength;
      var seen' := if kept then seen + {s} else seen;
      var rest := Dedup(ts[1..], seen');
      DedupOrdered(ts[1..], seen');
      assert forall k :: 0 <= k < |rest| ==> rest[k] != s;
      if kept {
        assert Dedup(ts, seen) == [s] + rest;
        OrderedCons(ts, rest);
      } else {
        assert Dedup(ts, seen) == rest;
        OrderedSkip(ts, rest);
      }
    }
  }

  /** Past the head, positions in `ts` are one more than in its tail. */
  lemma IndexInTail(ts: seq<string>, x: string)
    requires ts != [] && x in ts[1..] && x != ts[0]
    ensures x in ts && IndexIn(ts, x) == 1 + IndexIn(ts[1..], x)
  {
  }

  /** Order among tail values carries over to the whole sequence. */
  lemma OrderedSkip(ts: seq<string>, rest: seq<string>)
    requires ts != []
    requires forall k :: 0 <= k < |rest| ==> rest[k] in ts[1..] && rest[k] != ts[0]
    requires FirstOccurrenceOrder(ts[1..], rest)
    ensures forall k :: 0 <= k < |rest| ==> rest[k] in ts
    ensures FirstOccurrenceOrder(ts, rest)
  {
    forall k | 0 <= k < |rest| ensures rest[k] in ts && IndexIn(ts, rest[k]) == 1 + IndexIn(ts[1..], rest[k]) {
      IndexInTail(ts, rest[k]);
    }
  }

  /** The head comes first, so putting it in front keeps the order. */
  lemma OrderedCons(ts: seq<string>, rest: seq<string>)
    requires ts != []
    requires forall k :: 0 <= k < |rest| ==> rest[k] in ts[1..] && rest[k] != ts[0]
    requires FirstOccurrenceOrder(ts[1..], rest)
    ensures forall k :: 0 <= k < |[ts[0]] + rest| ==> ([ts[0]] + rest)[k] in ts
    ensures FirstOccurrenceOrder(ts, [ts[0]] + rest)
  {
    OrderedSkip(ts, rest);
    var r := [ts[0]] + rest;
    assert IndexIn(ts, ts[0]) == 0;
    forall p, q | 0 <= p < q < |r| ensures IndexIn(ts, r[p]) < IndexIn(ts, r[q]) {
      assert r[q] == rest[q - 1];
      if p > 0 {
        assert r[p] == rest[p - 1];
      }
    }
  }

  /** Values in first-occurrence order are pairwise distinct. */
  lemma OrderedDistinct(ts: seq<string>, r: seq<string>)
    requires forall k :: 0 <= k < |r| ==> r[k] in ts
    requires FirstOccurrenceOrder(ts, r)
    ensures Distinct(r)
  {
    forall p, q | 0 <= p < q < |r| ensures r[p] != r[q] {
      assert IndexIn(ts, r[p]) < IndexIn(ts, r[q]);
    }
  }

  /** `ds` is `ts` de-duplicated: distinct long segments of `ts`, every long
      segment of `ts` among them, in order of first occurrence. */
  predicate IsDedupOf(ts: seq<string>, ds: seq<string>) {
    && Distinct(ds)
    && (forall k :: 0 <= k < |ds| ==> |ds[k]| > MinSentenceLength && ds[k] in ts)
    && (forall k :: 0 <= k < |ts| && |ts[k]| > MinSentenceLength ==> ts[k] in ds)
    && FirstOccurrenceOrder(ts, ds)
  }

  /** `'. '.join(ds)`, closed with a period unless it already ends in one: the
      join is kept whole, at most one character is added, and a non-empty
      result ends in '.'. */
  function Rejoin(ds: seq<string>): (r: string)
    ensures var j := Join(ds, ". ");
      && |j| <= |r| <= |j| + 1 && r[..|j|] == j
      && (r == [] <==> j == [])
      && (r != [] ==> r[|r| - 1] == '.')
  {
    var j := Join(ds, ". ");
    if j != [] && !EndsWith(j, ".") then j + "." else j
  }

  /** The sentences the cleaned story keeps: the repaired input's segments,
      de-duplicated. */
  function Sentences(story: string): (ds: seq<string>)
    ensures IsDedupOf(Segments(RepairEnding(Strip(story))), ds)
  {
    var ts := Segments(RepairEnding(Strip(story)));
    DedupComplete(ts, {});
    DedupOrdered(ts, {});
    OrderedDistinct(ts, Dedup(ts, {}));
    Dedup(ts, {})
  }

  /** The full normalizer. An empty input gives the placeholder; a whitespace-only
      input gives the empty string (the emptiness test comes before trimming).
      Anything else non-empty ends in a period, and every period in it is the
      last character or followed by a space. */
  function Clean(story: string): (r: string)
    ensures story == [] ==> r == Placeholder
    ensures story != [] && AllSpace(story) ==> r == []
    ensures r != [] ==> r[|r| - 1] == '.' && DotsSeparated(r)
  {
    if story == [] then
      PlaceholderShape();
      RejoinShape(PlaceholderSentences);
      Placeholder
    else
      RejoinedSentences(story);
      Rejoin(Sentences(story))
  }

  lemma RejoinedSentences(story: string)
    ensures var r := Rejoin(Sentences(story));
      && (AllSpace(story) ==> r == [])
      && (r != [] ==> r[|r| - 1] == '.' && DotsSeparated(r))
  {
    var ds := Sentences(story);
    if AllSpace(story) {
      BlankSentences(story);
    } else if ds != [] {
      SentencesWellFormed(story);
      RejoinShape(ds);
    }
  }

  /** Whitespace alone leaves no sentence. */
  lemma BlankSentences(story: string)
    requires AllSpace(story)
    ensures Sentences(story) == []
  {
    assert Strip(story) == [];
    RepairEmpty();
    SegmentsEmpty();
    assert Dedup([[]], {}) == [];
  }

  lemma SentencesWellFormed(story: string)
    ensures WellFormedSentences(Sentences(story))
  {
    var ts := Segments(RepairEnding(Strip(story)));
    var ds := Sentences(story);
    assert forall k :: 0 <= k < |ds| ==> ds[k] in ts;
  }

  /** The placeholder is itself a rejoined story. */
  lemma PlaceholderShape()
    ensures WellFormedSentences(PlaceholderSentences)
    ensures Placeholder == Join(PlaceholderSentences, ". ") + "."
  {
    PlaceholderWellFormed();
    PlaceholderJoin();
  }

  lemma PlaceholderWellFormed()
    ensures WellFormedSentences(PlaceholderSentences)
  {
    ApologyWellFormed();
    AdviceWellFormed();
    assert |PlaceholderApology| != |PlaceholderAdvice|;
  }

  lemma ApologyWellFormed()
    ensures '.' !in PlaceholderApology && IsStripped(PlaceholderApology)
  {
    assert PlaceholderApology[0] == 'S' && PlaceholderApology[43] == 'e';
  }

  lemma AdviceWellFormed()
    ensures '.' !in PlaceholderAdvice && IsStripped(PlaceholderAdvice)
  {
    assert PlaceholderAdvice[0] == 'P' && PlaceholderAdvice[15] == 'n';
  }

  lemma PlaceholderJoin()
    ensures Placeholder == Join(PlaceholderSentences, ". ") + "."
  {
    assert Join(PlaceholderSentences, ". ") == PlaceholderApology + ". " + PlaceholderAdvice;
  }

  /** Joining sentences without periods puts a space after every period. */
  lemma {:induction false} JoinDotsSeparated(ds: seq<string>)
    requires |ds| >= 1
    requires forall k :: 0 <= k < |ds| ==> '.' !in ds[k]
    ensures DotsSeparated(Join(ds, ". ") + ".")
  {
    var a := ds[0];
    if |ds| == 1 {
      var r := a + ".";
      assert forall i :: 0 <= i < |a| ==> r[i] == a[i];
    } else {
      var t := Join(ds[1..], ". ") + ".";
      JoinDotsSeparated(ds[1..]);
      var r := a + ". " + t;
      assert Join(ds, ". ") + "." == r;
      forall i | 0 <= i < |r| - 1 && r[i] == '.' ensures r[i + 1] == ' ' {
        if i > |a| + 1 {
          assert r[i] == t[i - |a| - 2];
          assert r[i + 1] == t[i + 1 - |a| - 2];
        }
      }
    }
  }

  /** A rejoined non-empty list of sentences is the join closed by one period. */
  lemma RejoinShape(ds: seq<string>)
    requires |ds| >= 1 && WellFormedSentences(ds)
    ensures Rejoin(ds) == Join(ds, ". ") + "."
    ensures DotsSeparated(Rejoin(ds))
  {
    JoinLast(ds);
    JoinDotsSeparated(ds);
  }

  /** The join ends with the last sentence's last character. */
  lemma {:induction false} JoinLast(ds: seq<string>)
    requires |ds| >= 1 && ds[|ds| - 1] != []
    ensures var j := Join(ds, ". "); j != [] && j[|j| - 1] == ds[|ds| - 1][|ds[|ds| - 1]| - 1]
  {
    if |ds| > 1 {
      JoinLast(ds[1..]);
    }
  }

  /** The join starts with the first sentence's first character. */
  lemma JoinFirst(ds: seq<string>)
    requires |ds| >= 1 && ds[0] != []
    ensures var j := Join(ds, ". "); j != [] && j[0] == ds[0][0]
  {
  }

  lemma StripAllCons(a: string, ps: seq<string>)
    ensures StripAll([a] + ps) == [Strip(a)] + StripAll(ps)
  {
  }

  /** Splitting at the first period of the text. */
  lemma SegmentsCons(a: string, t: string)
    requires '.' !in a
    ensures Segments(a + "." + t) == [Strip(a)] + Segments(t)
  {
    SplitCons(a, '.', t);
    StripAllCons(a, Split(t, '.'));
  }

  lemma SegmentsEmpty()
    ensures Segments([]) == [[]]
  {
    assert Split([], '.') == [[]];
  }

  /** Splitting a rejoined story at its periods and trimming recovers its
      sentences, followed by the empty piece after the final period. */
  lemma {:induction false} SegmentsOfJoined(p: string, ds: seq<string>)
    requires AllSpace(p)
    requires |ds| >= 1
    requires forall k :: 0 <= k < |ds| ==> ds[k] != [] && IsStripped(ds[k]) && '.' !in ds[k]
    ensures Segments(p + Join(ds, ". ") + ".") == ds + [""]
    decreases |ds|
  {
    if |ds| == 1 {
      SegmentsOfLast(p, ds[0]);
    } else {
      var t := " " + Join(ds[1..], ". ") + ".";
      SegmentsOfJoined(" ", ds[1..]);
      SegmentsOfFirst(p, ds[0], t);
      JoinStep(ds);
      Regroup(p, ds[0], Join(ds[1..], ". "));
      AppendCons(ds, "");
    }
  }

  lemma JoinStep(ds: seq<string>)
    requires |ds| >= 2
    ensures Join(ds, ". ") == ds[0] + ". " + Join(ds[1..], ". ")
  {
  }

  lemma AppendCons(ds: seq<string>, x: string)
    requires |ds| >= 1
    ensures ds + [x] == [ds[0]] + (ds[1..] + [x])
  {
  }

  lemma SegmentsOfLast(p: string, a: string)
    requires AllSpace(p) && a != [] && IsStripped(a) && '.' !in a
    ensures Segments(p + Join([a], ". ") + ".") == [a] + [""]
  {
    assert '.' !in p + a;
    StripPadded(p, a);
    assert p + Join([a], ". ") + "." == (p + a) + "." + [];
    SegmentsCons(p + a, []);
    SegmentsEmpty();
  }

  /** Regrouping the first sentence of a padded join with its period; kept as
      its own lemma so that the inductive step does not reason about sequence
      associativity itself. */
  lemma Regroup(p: string, a: string, j: string)
    ensures p + (a + ". " + j) + "." == (p + a) + "." + (" " + j + ".")
  {
  }

  lemma SegmentsOfFirst(p: string, a: string, t: string)
    requires AllSpace(p) && a != [] && IsStripped(a) && '.' !in a
    ensures Segments((p + a) + "." + t) == [a] + Segments(t)
  {
    assert '.' !in p + a;
    StripPadded(p, a);
    SegmentsCons(p + a, t);
  }

  /** De-duplicating sentences that are already distinct and long changes nothing. */
  lemma {:induction false} DedupKeepsDistinct(xs: seq<string>, seen: set<string>)
    requires Distinct(xs)
    requires forall k :: 0 <= k < |xs| ==> |xs[k]| > MinSentenceLength && xs[k] !in seen
    ensures Dedup(xs + [""], seen) == xs
  {
    if xs == [] {
      assert xs + [""] == [""];
    } else {
      assert (xs + [""])[1..] == xs[1..] + [""];
      DedupKeepsDistinct(xs[1..], seen + {xs[0]});
    }
  }

  /** A rejoined story is a fixed point of the normalizer. */
  lemma CleanFixedPoint(ds: seq<string>)
    requires |ds| >= 1 && WellFormedSentences(ds)
    ensures Clean(Join(ds, ". ") + ".") == Join(ds, ". ") + "."
  {
    RejoinShape(ds);
    JoinedSentences(ds);
  }

  /** Reading the sentences back from a rejoined story. */
  lemma JoinedSentences(ds: seq<string>)
    requires |ds| >= 1 && WellFormedSentences(ds)
    ensures Sentences(Join(ds, ". ") + ".") == ds
  {
    var r := Join(ds, ". ") + ".";
    JoinedRepairEnding(ds);
    JoinedSegments(ds);
    DedupKeepsDistinct(ds, {});
  }

  /** A rejoined story needs neither trimming nor ending repair. */
  lemma JoinedRepairEnding(ds: seq<string>)
    requires |ds| >= 1 && WellFormedSentences(ds)
    ensures RepairEnding(Strip(Join(ds, ". ") + ".")) == Join(ds, ". ") + "."
  {
    var r := Join(ds, ". ") + ".";
    JoinedIsStripped(ds);
    StripStripped(r);
    assert EndsWithTerminal(r);
    TerminalIsNotIncomplete(r);
  }

  lemma JoinedIsStripped(ds: seq<string>)
    requires |ds| >= 1 && ds[0] != [] && !IsSpace(ds[0][0])
    ensures IsStripped(Join(ds, ". ") + ".")
  {
    JoinFirst(ds);
  }

  lemma JoinedSegments(ds: seq<string>)
    requires |ds| >= 1 && WellFormedSentences(ds)
    ensures Segments(Join(ds, ". ") + ".") == ds + [""]
  {
    SegmentsOfJoined("", ds);
    EmptyPadding(Join(ds, ". "));
  }

  lemma EmptyPadding(j: string)
    ensures "" + j + "." == j + "."
  {
  }

  /** Cleaning is idempotent on every input whose cleaned form is not empty. */
  lemma CleanIdempotent(story: string)
    requires Clean(story) != []
    ensures Clean(Clean(story)) == Clean(story)
  {
    if story == [] {
      PlaceholderShape();
      CleanFixedPoint(PlaceholderSentences);
    } else {
      CleanIsRejoined(story);
      CleanFixedPoint(Sentences(story));
    }
  }

  /** A non-empty cleaned story is its sentences joined and closed by a period. */
  lemma CleanIsRejoined(story: string)
    requires story != [] && Clean(story) != []
    ensures |Sentences(story)| >= 1 && WellFormedSentences(Sentences(story))
    ensures Clean(story) == Join(Sentences(story), ". ") + "."
  {
    SentencesWellFormed(story);
    RejoinShape(Sentences(story));
  }

  /** Splitting a cleaned story at its periods gives back its sentences and a
      trailing empty piece; those sentences are the de-duplicated segments of
      the repaired input. */
  lemma CleanedSentences(story: string)
    requires story != [] && Clean(story) != []
    ensures Segments(Clean(story)) == Sentences(story) + [""]
    ensures IsDedupOf(Segments(RepairEnding(Strip(story))), Sentences(story))
  {
    CleanIsRejoined(story);
    JoinedSegments(Sentences(story));
  }

  /** A single sentence closed by '!' or '?' keeps that mark and still gets a
      period appended, since the final check looks only for '.'. */
  lemma ExclaimedSentence(t: string)
    requires IsStripped(t) && |t| > MinSentenceLength && '.' !in t
    requires t[|t| - 1] == '!' || t[|t| - 1] == '?'
    ensures Clean(t) == t + "."
  {
    SingleSentence(t);
    RejoinSingle(t);
  }

  /** A single long, trimmed, period-free sentence closed by '!' or '?' is kept
      as the only sentence. */
  lemma SingleSentence(t: string)
    requires IsStripped(t) && |t| > MinSentenceLength && '.' !in t
    requires t[|t| - 1] == '!' || t[|t| - 1] == '?'
    ensures Sentences(t) == [t]
  {
    TerminalKept(t);
    SegmentsNoDot(t);
    DedupSingle(t);
  }

  lemma TerminalKept(t: string)
    requires IsStripped(t) && |t| > MinSentenceLength
    requires t[|t| - 1] == '!' || t[|t| - 1] == '?'
    ensures RepairEnding(Strip(t)) == t
  {
    StripStripped(t);
    TerminalIsNotIncomplete(t);
  }

  lemma SegmentsNoDot(t: string)
    requires IsStripped(t) && '.' !in t
    ensures Segments(t) == [t]
  {
    SplitNoSep(t, '.');
    StripStripped(t);
  }

  lemma DedupSingle(t: string)
    requires |t| > MinSentenceLength
    ensures Dedup([t], {}) == [t]
  {
    assert [t][1..] == [];
  }

  /** One sentence not ending in '.' is closed with a period. */
  lemma RejoinSingle(t: string)
    requires t != [] && t[|t| - 1] != '.'
    ensures Rejoin([t]) == t + "."
  {
    assert Join([t], ". ") == t;
  }
}
