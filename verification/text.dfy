/**
 The Python string primitives the story pipeline relies on (`strip`, `rstrip`,
 `split`, `join`, `endswith`, `in`, `lower`, `replace`), modelled on `seq<char>`.
 Whitespace and case folding are restricted to the ASCII range.
 */
module Text {

  /** `str.isspace` on the ASCII range: space, \t \n \v \f \r and the four
      separator controls \x1c-\x1f. */
  predicate IsSpace(c: char) {
    c == ' ' || c == '\t' || c == '\n' || c == '\r' || c == '\U{B}' || c == '\U{C}'
    || ('\U{1C}' <= c <= '\U{1F}')
  }

  predicate AllSpace(s: string) {
    forall i :: 0 <= i < |s| ==> IsSpace(s[i])
  }

  predicate NoSpace(s: string) {
    forall i :: 0 <= i < |s| ==> !IsSpace(s[i])
  }

  /** A non-empty run of non-whitespace characters. */
  predicate IsWord(w: string) {
    w != [] && NoSpace(w)
  }

  /** Neither starts nor ends with whitespace: what `strip` leaves behind. */
  predicate IsStripped(s: string) {
    s == [] || (!IsSpace(s[0]) && !IsSpace(s[|s| - 1]))
  }

  /** Number of whitespace characters `s` starts with. */
  function LeadingSpaces(s: string): (n: nat)
    ensures n <= |s|
    ensures forall k :: 0 <= k < n ==> IsSpace(s[k])
    ensures n < |s| ==> !IsSpace(s[n])
  {
    if s != [] && IsSpace(s[0]) then 1 + LeadingSpaces(s[1..]) else 0
  }

  /** Number of whitespace characters `s` ends with. */
  function TrailingSpaces(s: string): (n: nat)
    ensures n <= |s|
    ensures forall k :: |s| - n <= k < |s| ==> IsSpace(s[k])
    ensures n < |s| ==> !IsSpace(s[|s| - n - 1])
  {
    if s != [] && IsSpace(s[|s| - 1]) then 1 + TrailingSpaces(s[..|s| - 1]) else 0
  }

  /** `s.lstrip()` */
  function LStrip(s: string): (r: string)
    ensures r == [] || !IsSpace(r[0])
    ensures r == [] <==> AllSpace(s)
  {
    s[LeadingSpaces(s)..]
  }

  /** `lstrip` leaves a suffix of the input and removes only whitespace. */
  lemma LStripSuffix(s: string)
    ensures var r := LStrip(s);
      |r| <= |s| && r == s[|s| - |r|..] && AllSpace(s[..|s| - |r|])
  {
  }

  /** `s.rstrip()`: the prefix of `s` left once its trailing whitespace is gone. */
  function RStrip(s: string): (r: string)
    ensures |r| <= |s| && r == s[..|r|] && AllSpace(s[|r|..])
    ensures r == [] || !IsSpace(r[|r| - 1])
    ensures r == [] <==> AllSpace(s)
  {
    s[..|s| - TrailingSpaces(s)]
  }

  /** `s.strip()`: what is left once the whitespace at both ends is gone. */
  function Strip(s: string): (r: string)
    ensures |r| <= |s|
    ensures IsStripped(r)
    ensures r == [] <==> AllSpace(s)
  {
    RStrip(LStrip(s))
  }

  /** The stripped string is a contiguous slice of the original, with only
      whitespace around it. */
  lemma StripSlice(s: string) returns (i: nat)
    ensures i + |Strip(s)| <= |s|
    ensures Strip(s) == s[i..i + |Strip(s)|]
    ensures AllSpace(s[..i]) && AllSpace(s[i + |Strip(s)|..])
  {
    var l := LStrip(s);
    i := LeadingSpaces(s);
    var j := |l| - TrailingSpaces(l);
    assert Strip(s) == s[i..][..j];
    assert s[i + j..] == l[j..];
  }

  /** Stripping never introduces a character. */
  lemma StripSubset(s: string, c: char)
    requires c !in s
    ensures c !in Strip(s)
  {
    var _ := StripSlice(s);
  }

  /** Stripping something already stripped changes nothing. */
  lemma StripStripped(t: string)
    requires IsStripped(t)
    ensures Strip(t) == t
  {
  }

  /** Leading whitespace in front of a non-empty stripped string is all `strip` removes. */
  lemma StripPadded(w: string, t: string)
    requires AllSpace(w) && t != [] && IsStripped(t)
    ensures Strip(w + t) == t
  {
    LStripPadded(w, t);
  }

  lemma {:induction false} LStripPadded(w: string, t: string)
    requires AllSpace(w) && t != [] && !IsSpace(t[0])
    ensures LeadingSpaces(w + t) == |w|
    ensures LStrip(w + t) == t
  {
    if w == [] {
      assert w + t == t;
    } else {
      assert (w + t)[1..] == w[1..] + t;
      LStripPadded(w[1..], t);
    }
    assert (w + t)[|w|..] == t;
  }

  predicate EndsWith(s: string, suffix: string) {
    |suffix| <= |s| && s[|s| - |suffix|..] == suffix
  }

  /** Sentence-closing punctuation. */
  predicate IsTerminal(c: char) {
    c == '.' || c == '!' || c == '?'
  }

  /** `s.endswith(('.', '!', '?'))` */
  predicate EndsWithTerminal(s: string) {
    s != [] && IsTerminal(s[|s| - 1])
  }

  /** `p in s` for strings: `p` occurs as a contiguous substring of `s`. */
  predicate Contains(s: string, p: string) {
    exists i :: 0 <= i <= |s| - |p| && OccursAt(s, p, i)
  }

  /** `p` occurs in `s` starting at position `i`. */
  predicate OccursAt(s: string, p: string, i: int) {
    0 <= i && i + |p| <= |s| && s[i..i + |p|] == p
  }

  /** A string contains every one of its suffixes. */
  lemma EndsWithContains(s: string, p: string)
    requires EndsWith(s, p)
    ensures Contains(s, p)
  {
    assert OccursAt(s, p, |s| - |p|);
  }

  /** ASCII `str.lower` on one character. */
  function LowerChar(c: char): char {
    if 'A' <= c <= 'Z' then (c as int - 'A' as int + 'a' as int) as char else c
  }

  /** `s.lower()`, ASCII case folding only. */
  function Lower(s: string): (r: string)
    ensures |r| == |s|
    ensures forall i :: 0 <= i < |s| ==> r[i] == LowerChar(s[i])
  {
    seq(|s|, i requires 0 <= i < |s| => LowerChar(s[i]))
  }

  /** Position of the first `c` in `s`, or `|s|` when there is none. */
  function FirstIndexOf(s: string, c: char): (i: nat)
    ensures i <= |s|
    ensures i < |s| ==> s[i] == c
    ensures c !in s[..i]
  {
    if s == [] then 0
    else if s[0] == c then 0
    else
      var j := FirstIndexOf(s[1..], c);
      assert s[..1 + j] == [s[0]] + s[1..][..j];
      1 + j
  }

  /** `s.split(c)` for a one-character separator: the maximal `c`-free pieces,
      empty pieces included, so there is always at least one. */
  function Split(s: string, c: char): (parts: seq<string>)
    ensures |parts| >= 1
    ensures forall k :: 0 <= k < |parts| ==> c !in parts[k]
    decreases |s|
  {
    var i := FirstIndexOf(s, c);
    if i == |s| then
      assert s[..i] == s;
      [s]
    else
      [s[..i]] + Split(s[i + 1..], c)
  }

  /** `sep.join(parts)` */
  function Join(parts: seq<string>, sep: string): string {
    if |parts| == 0 then ""
    else if |parts| == 1 then parts[0]
    else parts[0] + sep + Join(parts[1..], sep)
  }

  /** Joining a piece in front of at least one more. */
  lemma JoinCons(a: string, parts: seq<string>, sep: string)
    requires |parts| >= 1
    ensures Join([a] + parts, sep) == a + (sep + Join(parts, sep))
  {
    assert ([a] + parts)[1..] == parts;
  }

  /** A separator-free piece followed by the separator splits off as one piece. */
  lemma SplitCons(a: string, c: char, b: string)
    requires c !in a
    ensures Split(a + [c] + b, c) == [a] + Split(b, c)
  {
    var s := a + [c] + b;
    var i := FirstIndexOf(s, c);
    assert s[|a|] == c;
    assert i == |a|;
    assert s[..|a|] == a;
    assert s[|a| + 1..] == b;
  }

  /** A separator-free string is a single piece. */
  lemma SplitNoSep(a: string, c: char)
    requires c !in a
    ensures Split(a, c) == [a]
  {
  }

  /** Joining the pieces with the separator gives back the string. */
  lemma {:induction false} JoinSplit(s: string, c: char)
    ensures Join(Split(s, c), [c]) == s
    decreases |s|
  {
    var i := FirstIndexOf(s, c);
    if i < |s| {
      var rest := Split(s[i + 1..], c);
      JoinSplit(s[i + 1..], c);
      assert s == s[..i] + [c] + s[i + 1..];
      assert Split(s, c) == [s[..i]] + rest;
      assert ([s[..i]] + rest)[1..] == rest;
    }
  }

  /** Splitting a join of separator-free pieces gives back the pieces. */
  lemma {:induction false} SplitJoin(parts: seq<string>, c: char)
    requires |parts| >= 1
    requires forall k :: 0 <= k < |parts| ==> c !in parts[k]
    ensures Split(Join(parts, [c]), c) == parts
  {
    if |parts| == 1 {
      SplitNoSep(parts[0], c);
    } else {
      SplitJoin(parts[1..], c);
      SplitCons(parts[0], c, Join(parts[1..], [c]));
      assert parts == [parts[0]] + parts[1..];
    }
  }

  /** Position of the first whitespace character in `s`, or `|s|`. */
  function FirstSpace(s: string): (i: nat)
    ensures i <= |s|
    ensures i < |s| ==> IsSpace(s[i])
    ensures NoSpace(s[..i])
  {
    if s == [] then 0
    else if IsSpace(s[0]) then 0
    else
      var j := FirstSpace(s[1..]);
      assert s[..1 + j] == [s[0]] + s[1..][..j];
      1 + j
  }

  /** `s.split()`: the maximal runs of non-whitespace characters, in order.
      Every word is a non-empty run of non-whitespace, so there are never more
      words than characters. */
  function Words(s: string): (ws: seq<string>)
    ensures AllWords(ws) && |ws| <= |s|
    decreases |s|
  {
    var t := LStrip(s);
    if t == [] then
      []
    else
      var i := FirstSpace(t);
      assert i != 0 && IsWord(t[..i]);
      [t[..i]] + Words(t[i..])
  }

  /** Every entry is a word. */
  predicate AllWords(ws: seq<string>) {
    forall k :: 0 <= k < |ws| ==> IsWord(ws[k])
  }

  /** There are no words exactly when the string is all whitespace. */
  lemma {:induction false} WordsAreWords(s: string)
    ensures Words(s) == [] <==> AllSpace(s)
    decreases |s|
  {
    var t := LStrip(s);
    if t != [] {
      var i := FirstSpace(t);
      WordsAreWords(t[i..]);
      WordsFirst(s);
    }
  }

  /** Unless `s` is blank, its first word is the leading non-whitespace run. */
  lemma WordsFirst(s: string)
    requires LStrip(s) != []
    ensures var t := LStrip(s); var i := FirstSpace(t);
      && Words(s) == [t[..i]] + Words(t[i..])
      && IsWord(t[..i])
      && !AllSpace(s)
  {
    var t := LStrip(s);
    assert s[LeadingSpaces(s)] == t[0];
  }

  /** A word followed by nothing or by whitespace is split off whole. */
  lemma WordsCons(w: string, r: string)
    requires IsWord(w)
    requires r == [] || IsSpace(r[0])
    ensures Words(w + r) == [w] + Words(r)
  {
    var s := w + r;
    assert LeadingSpaces(s) == 0;
    assert LStrip(s) == s;
    var i := FirstSpace(s);
    assert s[..|w|] == w;
    assert i == |w|;
    assert s[|w|..] == r;
  }

  /** Leading whitespace does not change the words. */
  lemma WordsSkipSpace(c: char, r: string)
    requires IsSpace(c)
    ensures Words([c] + r) == Words(r)
  {
    var s := [c] + r;
    assert s[1..] == r;
    assert LeadingSpaces(s) == 1 + LeadingSpaces(r);
    assert LStrip(s) == LStrip(r);
  }

  /** Joining words with single spaces and splitting again gives back the words. */
  lemma {:induction false} WordsJoin(ws: seq<string>)
    requires AllWords(ws)
    ensures Words(Join(ws, " ")) == ws
  {
    if |ws| == 1 {
      WordsCons(ws[0], []);
      assert ws[0] + [] == ws[0];
    } else if |ws| > 1 {
      WordsJoin(ws[1..]);
      WordsJoinStep(ws[0], ws[1..]);
      assert ws == [ws[0]] + ws[1..];
    }
  }

  lemma WordsJoinStep(w: string, ws: seq<string>)
    requires IsWord(w) && |ws| >= 1
    requires Words(Join(ws, " ")) == ws
    ensures Words(Join([w] + ws, " ")) == [w] + ws
  {
    JoinCons(w, ws, " ");
    WordsSpaced(w, Join(ws, " "));
  }

  /** A word, a space, then more text: the word comes first. */
  lemma WordsSpaced(w: string, rest: string)
    requires IsWord(w)
    ensures Words(w + (" " + rest)) == [w] + Words(rest)
  {
    WordsCons(w, " " + rest);
    WordsSkipSpace(' ', rest);
  }

  /** `s.rstrip(c)` for a single character `c`. */
  function RStripChar(s: string, c: char): (r: string)
    ensures |r| <= |s| && r == s[..|r|]
    ensures forall i :: |r| <= i < |s| ==> s[i] == c
    ensures r == [] || r[|r| - 1] != c
  {
    if s != [] && s[|s| - 1] == c then RStripChar(s[..|s| - 1], c) else s
  }

  /** `s.replace(pat, "")`: every leftmost, non-overlapping occurrence of `pat`
      removed. Replacing the empty string by the empty string changes nothing. */
  function RemoveAll(s: string, pat: string): (r: string)
    ensures |r| <= |s|
    ensures pat == [] ==> r == s
  {
    RemoveFrom(s, pat, 0)
  }

  /** The scan `replace` makes, from position `i` on: an occurrence of `pat`
      is skipped, any other character kept. */
  function RemoveFrom(s: string, pat: string, i: nat): (r: string)
    requires i <= |s|
    ensures |r| <= |s| - i
    ensures pat == [] ==> r == s[i..]
    decreases |s| - i
  {
    if pat == [] || |s| - i < |pat| then s[i..]
    else if OccursAt(s, pat, i) then RemoveFrom(s, pat, i + |pat|)
    else [s[i]] + RemoveFrom(s, pat, i + 1)
  }

  /** `pat` starts nowhere in `s` from position `i` up to, not including, `j`. */
  predicate NoOccurrenceIn(s: string, pat: string, i: nat, j: nat) {
    forall k :: i <= k < j ==> !OccursAt(s, pat, k)
  }

  /** With no occurrence left, the scan keeps the rest of the text. */
  lemma {:induction false} RemoveFromAbsent(s: string, pat: string, i: nat)
    requires i <= |s| && NoOccurrenceIn(s, pat, i, |s| + 1)
    ensures RemoveFrom(s, pat, i) == s[i..]
    decreases |s| - i
  {
    if pat != [] && |s| - i >= |pat| {
      assert !OccursAt(s, pat, i);
      RemoveFromAbsent(s, pat, i + 1);
      assert s[i..] == [s[i]] + s[i + 1..];
    }
  }

  /** A string in which `pat` does not occur comes through `RemoveAll` unchanged. */
  lemma RemoveAllAbsent(s: string, pat: string)
    requires !Contains(s, pat)
    ensures RemoveAll(s, pat) == s
  {
    assert NoOccurrenceIn(s, pat, 0, |s| + 1) by {
      forall k | 0 <= k < |s| + 1 ensures !OccursAt(s, pat, k) {
        if OccursAt(s, pat, k) {
          assert false;
        }
      }
    }
    RemoveFromAbsent(s, pat, 0);
  }

  /** `replace` works from the first occurrence: the scan from `i` keeps
      everything up to the first occurrence at `j` and carries on past it.
      With `RemoveFromAbsent` for text holding no further occurrence, this pins
      the scan down at every position. */
  lemma {:induction false} RemoveFromFirst(s: string, pat: string, i: nat, j: nat)
    requires pat != [] && i <= j && OccursAt(s, pat, j)
    requires NoOccurrenceIn(s, pat, i, j)
    ensures RemoveFrom(s, pat, i) == s[i..j] + RemoveFrom(s, pat, j + |pat|)
    decreases j - i
  {
    if i < j {
      RemoveFromKeep(s, pat, i);
      RemoveFromFirst(s, pat, i + 1, j);
      SliceCons(s, i, j);
      ConsAssoc(s[i], s[i + 1..j], RemoveFrom(s, pat, j + |pat|));
    }
  }

  lemma ConsAssoc(c: char, x: string, y: string)
    ensures [c] + (x + y) == ([c] + x) + y
  {
  }

  /** Where `pat` does not start, the scan keeps the character and moves on. */
  lemma RemoveFromKeep(s: string, pat: string, i: nat)
    requires pat != [] && i + |pat| <= |s| && !OccursAt(s, pat, i)
    ensures RemoveFrom(s, pat, i) == [s[i]] + RemoveFrom(s, pat, i + 1)
  {
  }

  lemma SliceCons(s: string, i: nat, j: nat)
    requires i < j <= |s|
    ensures s[i..j] == [s[i]] + s[i + 1..j]
  {
  }

  /** The prompt echoed in front of text that does not repeat it is removed exactly. */
  lemma RemoveEcho(pat: string, t: string)
    requires pat != []
    requires !Contains(t, pat)
    ensures RemoveAll(pat + t, pat) == t
  {
    var s := pat + t;
    assert OccursAt(s, pat, 0);
    RemoveFromSkip(s, pat, 0);
    forall k | |pat| <= k < |s| + 1 ensures !OccursAt(s, pat, k) {
      if OccursAt(s, pat, k) {
        assert s[k..k + |pat|] == t[k - |pat|..k - |pat| + |pat|];
        assert OccursAt(t, pat, k - |pat|);
        assert false;
      }
    }
    RemoveFromAbsent(s, pat, |pat|);
    assert s[|pat|..] == t;
  }

  /** Where `pat` starts, the scan drops it and moves on. */
  lemma RemoveFromSkip(s: string, pat: string, i: nat)
    requires pat != [] && OccursAt(s, pat, i)
    ensures RemoveFrom(s, pat, i) == RemoveFrom(s, pat, i + |pat|)
  {
  }
}
