# Storyteller: a Dafny model of the story pipeline

The storyteller web app turns a theme and a genre into a short story. A text
generator writes the story, and the app post-processes what comes back. This
project models that post-processing and the request handling around it:

- **`Text`** (`text.dfy`): the Python string operations the app relies on.
  These are `strip`, `lstrip`, `rstrip`, `rstrip(c)`, `split(c)`, `split()`,
  `join`, `lower`, `endswith`, `in` and `replace(p, "")`.
  - `strip`, `lstrip`, `rstrip` and `rstrip(c)` are characterised as the
    slice of the input that is left, with only the removed characters around it.
  - `split(c)` with `join` and `split()` with `join` have round-trip lemmas.
  - `lower` is characterised character by character.
  - `replace(p, "")` is characterised by the scan it makes: text with no
    occurrence is kept, and the first occurrence is dropped before the scan
    carries on.
- **`Normalizer`** (`normalizer.dfy`): `clean_and_complete_story`. It trims
  the text and repairs known truncated endings. It enforces terminal
  punctuation, de-duplicates sentences and rejoins them.
- **`Completeness`** (`completeness.dfy`): `is_story_complete`, the
  validator.
- **`Retry`** (`retry.dfy`): `generate_story_with_retry`, the bounded retry
  loop. The generator is replaced by a sequence of outcomes, one per call:
  each either raised or produced text. The loop records the parameters of
  every call it makes.
  - The loop is written once against any post-processing step and validator.
    `GenerateWithRetry` instantiates it with the real cleaning and validation.
- **`Request`** (`request.dfy`): the part of the `index` page that reads the
  form and picks the genre, length, token budget and full prompt. It then
  runs the retry loop with three attempts.

Two consequences of the order in which the code makes its checks:
- A whitespace-only story is cleaned to the empty string, not to the
  placeholder, because the emptiness test comes before the trim.
- A story whose last incomplete phrase is "taken away by the." is not
  rejected by the pattern test. The pattern test only fires on stories that
  end exactly on a pattern, and such a story is already rejected by the
  punctuation test (`Completeness.PatternImpliesNoTerminal`).

Code behaviour that the model keeps rather than corrects:
- A story closed by `!` or `?` is given a final `.` as well
  (`Normalizer.ExclaimedSentence`).
- The `rstrip('.')` in the short-fragment repair never removes anything,
  since that branch only runs on text that does not end in `.`.
- The pattern test `p in s and s.endswith(p)` is the same as
  `s.endswith(p)` (`Completeness.PatternTestIsEndsWith`).

## Model

| member | source | states |
|---|---|---|
| Text.Strip | app.py:31 | The trimmed text is never longer than the input, has no whitespace at either end, and is empty exactly when the input is all whitespace |
| Text.StripSlice | app.py:31 | The trimmed text is a contiguous slice of the input with only whitespace on each side of it |
| Text.StripStripped | app.py:31 | Trimming text that is already trimmed changes nothing |
| Text.JoinSplit | app.py:60 | Joining the pieces of `split(c)` with `c` gives back the original string |
| Text.SplitJoin | app.py:60-71 | Splitting a join of `c`-free pieces gives back exactly those pieces |
| Text.LStripSuffix | app.py:31 | `lstrip` leaves a suffix of the input and removes only whitespace |
| Text.RStrip | app.py:148 | `rstrip` leaves a prefix of the input, removes only whitespace, does not end in whitespace, and is empty exactly when the input is all whitespace |
| Text.Split | app.py:52 | `split(c)` gives at least one piece, and no piece contains `c` |
| Text.Words | app.py:97 | Every word of `split()` is non-empty and whitespace-free, and there are never more words than characters |
| Text.WordsAreWords | app.py:152 | There are no words exactly when the text is all whitespace |
| Text.WordsJoin | app.py:152 | Words joined with single spaces split back into the same words |
| Text.RStripChar | app.py:57 | `rstrip(c)` leaves a prefix of the input, removes only copies of `c`, and the result does not end in `c` |
| Text.Lower | app.py:142-144 | `lower` keeps the length and folds each character on its own, A-Z to a-z |
| Text.RemoveAll | app.py:109 | Removing a pattern never lengthens the text, and removing the empty pattern changes nothing |
| Text.RemoveFromFirst | app.py:109 | Scanning from a position, everything up to the first occurrence of the pattern is kept, that occurrence is dropped, and the scan carries on after it |
| Text.RemoveFromAbsent | app.py:109 | Scanning from a position after which the pattern never occurs keeps the rest of the text unchanged |
| Text.RemoveAllAbsent | app.py:109 | Removing a pattern that does not occur leaves the text unchanged |
| Text.RemoveEcho | app.py:109 | A prompt echoed in front of text that never repeats it is removed exactly |
| Text.EndsWithContains | app.py:144 | A string contains each of its suffixes |
| Normalizer.LastPiece | app.py:52 | The text after the last '.' is a '.'-free suffix that is either the whole text or directly preceded by a '.' |
| Normalizer.TerminalIsNotIncomplete | app.py:34-50 | Text ending in '.', '!' or '?' ends on none of the known truncated endings |
| Normalizer.RepairEnding | app.py:42-57 | A known truncated ending gets the happy-ending clause; otherwise unpunctuated text gets '.' when its last fragment trims to more than 10 characters and the generic ending otherwise; punctuated or empty text is unchanged; a non-empty result ends in '.', '!' or '?' |
| Normalizer.RepairEndingIdempotent | app.py:42-57 | Repairing an already repaired ending changes nothing |
| Normalizer.Segments | app.py:60-65 | Every segment is trimmed and '.'-free, and there is at least one |
| Normalizer.Dedup | app.py:61-69 | Every kept sentence is a segment, was not seen before, and is longer than 5 characters |
| Normalizer.DedupComplete | app.py:64-68 | Every segment longer than 5 characters that was not seen before is kept |
| Normalizer.DedupOrdered | app.py:64-68 | Kept sentences appear in the order of their first occurrence among the segments |
| Normalizer.OrderedDistinct | app.py:62-68 | Sentences in first-occurrence order are pairwise distinct |
| Normalizer.Sentences | app.py:59-69 | The kept sentences are the de-duplicated segments of the repaired input: distinct, longer than 5 characters, each a segment, every long segment present, in first-occurrence order |
| Normalizer.Rejoin | app.py:70-73 | The `". "` join is kept whole with at most one character added; the result is empty exactly when the join is, and otherwise ends in '.' |
| Normalizer.JoinDotsSeparated | app.py:70-73 | Rejoining '.'-free sentences with ". " and a final '.' puts a space after every period but the last |
| Normalizer.JoinedSegments | app.py:60-73 | Splitting a rejoined story at its periods gives back its sentences and a trailing empty piece |
| Normalizer.Clean | app.py:25-75 | Empty input gives the placeholder; whitespace-only input gives ""; any other non-empty result ends in '.' with every period followed by a space or at the end |
| Normalizer.CleanedSentences | app.py:59-73 | The cleaned story's sentences are the de-duplicated segments of the repaired input: distinct, longer than 5 characters, each a segment, every long segment present, in first-occurrence order |
| Normalizer.CleanIdempotent | app.py:25-75 | Cleaning a non-empty cleaned story gives it back unchanged |
| Normalizer.ExclaimedSentence | app.py:49-73 | A single trimmed sentence closed by '!' or '?' comes out with an extra '.' appended |
| Completeness.IsStoryComplete | app.py:125-155 | An accepted story has at least 50 characters |
| Completeness.PatternTestIsEndsWith | app.py:143-145 | "Contains and ends with" a pattern is the same test as "ends with" it |
| Completeness.StoryCompleteIff | app.py:125-155 | A story is accepted exactly when its trimmed length is at least 50, its lower-cased form ends on none of the eight patterns, its right-trimmed form ends in '.', '!' or '?', and it has at least 30 words |
| Completeness.ShortRejected | app.py:127-128 | Any story shorter than 50 characters is rejected |
| Completeness.PatternsEndInLetters | app.py:131-140 | Every incomplete pattern ends in a lower-case letter |
| Completeness.PatternImpliesNoTerminal | app.py:142-149 | A story that ends on a pattern always fails the punctuation test |
| Completeness.StoryCompleteWithoutPatterns | app.py:125-155 | Acceptance is equivalent to the length, punctuation and word-count tests alone |
| Retry.AttemptCount | app.py:92 | `range(max_retries)` makes no attempt for a non-positive count, and `max_retries` attempts otherwise |
| Retry.AttemptCall | app.py:95-99 | Every call uses the full prompt, a length budget widened by at most the prompt's length, and temperature 7 + attempt tenths |
| Retry.Candidate | app.py:109-112 | A candidate is empty, or ends in '.' with a space after every other period |
| Retry.EchoedPromptRemoved | app.py:109-112 | Output that echoes the prompt once at its start is cleaned as if the echo were absent |
| Retry.RetryResult | app.py:90-123 | The loop-free description of the loop's result is a story the validator keeps or one of the two messages, and the incomplete-story message when no attempt is made |
| Retry.RetryLoop | app.py:90-123 | The loop makes one call per attempt up to and including the first accepted one. Call i uses the prompt, the budget plus the prompt's word count, and temperature 7 + i tenths. It returns what the loop-free `RetryResult` describes |
| Retry.Attempt | app.py:93-121 | One attempt either ends the loop with its final story, or is rejected; a rejected last attempt did not raise |
| Retry.GenerateWithRetry | app.py:90-123 | The loop with the real cleaning and validation returns a story the validator accepts, or one of the two fixed messages |
| Retry.ResultIsKeptOrMessage | app.py:114-123 | The result is a kept candidate, the issue message or the incomplete-story message |
| Retry.CallsStopAtFirstAccepted | app.py:92-116 | At most `n` calls are made. Every call but the last was rejected. Stopping early means the last call was accepted and its candidate is the result |
| Retry.CallCountPositive | app.py:92-96 | With at least one attempt, between one and `n` calls are made |
| Retry.LastRaiseGivesIssue | app.py:118-121 | When the last attempt raises and no earlier one was accepted, the result is the issue message after all `n` calls |
| Retry.AllRejectedGivesIncomplete | app.py:92-123 | When every attempt is rejected and the last did not raise, or there are no attempts, the result is the incomplete-story message |
| Retry.EarlierRaiseIsSkipped | app.py:118-121 | A raise before the last attempt has the same effect on result and call count as a rejected candidate |
| Request.GetOr | app.py:161-163 | A missing form field reads as its default, a present one as its value |
| Request.ParseGenre | app.py:173-176 | A valid genre name selects that genre, anything else selects Fantasy |
| Request.ParseLength | app.py:178-181 | A valid length name selects that length, anything else selects medium |
| Request.GenreNameRoundTrip | app.py:173-176 | Parsing a genre's name gives back the genre |
| Request.LengthNameRoundTrip | app.py:178-181 | Parsing a length's name gives back the length |
| Request.TokenBudget | app.py:195-201 | The budget is 400, 600 or 1000, below 600 exactly for short and above 600 exactly for long |
| Request.GenreTemplate | app.py:203-210 | Every genre template opens with "Write a ", and the next character tells the genre apart |
| Request.FullPrompt | app.py:203-212 | The full prompt is the genre's template, then the theme, then "\n\nStory:", and each part can be read back |
| Request.FullPromptInjective | app.py:203-212 | Two full prompts are equal only when built from the same genre and theme |
| Request.PlanRequest | app.py:160-212 | An empty trimmed prompt is rejected with the prompt message; otherwise the parsed genre and length, the length's budget and the full prompt are used |
| Request.DefaultsAreFantasyMedium | app.py:161-201 | A missing or unknown genre and length give a Fantasy story of medium length with a 600-token budget |
| Request.NamedChoicesHonoured | app.py:161-201 | A named genre and length are used as given, with that length's budget |
| Request.Index | app.py:157-224 | A plain visit shows no story and makes no call. An empty prompt shows the prompt message with no call. Otherwise the page shows the retry loop's result for three attempts, after one to three calls with the planned prompt and budget |

## Left out

- HTTP plumbing is not modelled: the Flask routes, `render_template`, `send_file` and `jsonify`, and the `/debug`, `/download_story` and `/generate_speech` handlers. A plain visit versus a submission is a boolean parameter of `Request.Index`.
- The text generator is not modelled, being a foreign library call. What each call does is a given `Outcome`. A failure inside the call or in reading its result is `Raised`.
- Retry.GenerateWithRetry: requires an outcome for every attempt the loop may make. Only that prefix of the sequence is ever read.
- The sampling parameters are left out because the generator is not modelled: `top_k`, `top_p`, the repetition penalty, token ids and `no_repeat_ngram_size`.
- The temperature is an integer number of tenths (7 + attempt). Floating-point rounding of `0.7 + attempt * 0.1` is not modelled.
- `load_model`, the global generator swap and the `model` form field are left out. Only one model exists, and any requested model is replaced by it. That model is always the current one, so the load branch and its error message cannot run.
- `gTTS` speech generation and the temporary-file cleanup thread are left out: they involve the filesystem, wall-clock time and a background thread.
- `print` logging is left out.
- Python's Unicode behaviour is narrowed to ASCII:
  - whitespace for `strip` and `split()` is the ASCII whitespace Python recognises (space, tab, newline, carriage return, vertical tab, form feed and the four separators 0x1C-0x1F);
  - `lower` folds only A-Z.
- Text.RemoveAll: `replace("", "")` is modelled as the identity it is in Python, but `replace` with a non-empty replacement is not modelled, since the app only deletes.
