/**
 The story request handled by the index page (`index`): the form fields are
 read with their defaults, the genre and length are validated, the length is
 turned into a token budget, and the theme is wrapped in the genre's prompt
 template before the retry loop runs.
 */
module Request {
  import opened Text
  import opened Completeness
  import opened Retry

  datatype Option<T> = None | Some(value: T)

  /** `form.get(key, default)` */
  function GetOr(o: Option<string>, default: string): (r: string)
    ensures o.None? ==> r == default
    ensures o.Some? ==> r == o.value
  {
    match o
    case None => default
    case Some(v) => v
  }

  /** The submitted form; a field the client left out is `None`. */
  datatype Form = Form(prompt: Option<string>, genre: Option<string>, length: Option<string>)

  datatype Genre = Fantasy | Romance | SciFi | Horror | Mystery

  datatype Length = Short | Medium | Long

  /** Shown instead of a story when the trimmed prompt is empty. */
  const EmptyPromptMessage: string := "Please enter a story prompt!"

  /** Closes every full prompt. */
  const StorySuffix: string := "\n\nStory:"

  /** Attempts the page asks the retry loop for. */
  const MaxRetries: int := 3

  const GenreNames: seq<string> := ["Fantasy", "Romance", "Sci-Fi", "Horror", "Mystery"]

  const LengthNames: seq<string> := ["short", "medium", "long"]

  /** The form value naming each genre. */
  function GenreName(g: Genre): (s: string)
    ensures s in GenreNames
  {
    match g
    case Fantasy => "Fantasy"
    case Romance => "Romance"
    case SciFi => "Sci-Fi"
    case Horror => "Horror"
    case Mystery => "Mystery"
  }

  /** The form value naming each length. */
  function LengthName(l: Length): (s: string)
    ensures s in LengthNames
  {
    match l
    case Short => "short"
    case Medium => "medium"
    case Long => "long"
  }

  /** The genre a form value selects: the one it names, Fantasy when it names
      none. */
  function ParseGenre(s: string): (g: Genre)
    ensures s in GenreNames ==> GenreName(g) == s
    ensures s !in GenreNames ==> g == Fantasy
  {
    if s == "Romance" then Romance
    else if s == "Sci-Fi" then SciFi
    else if s == "Horror" then Horror
    else if s == "Mystery" then Mystery
    else Fantasy
  }

  /** The length a form value selects: the one it names, medium when it names
      none. */
  function ParseLength(s: string): (l: Length)
    ensures s in LengthNames ==> LengthName(l) == s
    ensures s !in LengthNames ==> l == Medium
  {
    if s == "short" then Short
    else if s == "long" then Long
    else Medium
  }

  /** Reading back a genre's name gives the genre. */
  lemma GenreNameRoundTrip(g: Genre)
    ensures ParseGenre(GenreName(g)) == g
  {
  }

  /** Reading back a length's name gives the length. */
  lemma LengthNameRoundTrip(l: Length)
    ensures ParseLength(LengthName(l)) == l
  {
  }

  /** The token budget for each length; budgets grow with the length. */
  function TokenBudget(l: Length): (n: int)
    ensures n == 400 || n == 600 || n == 1000
    ensures l == Short <==> n < 600
    ensures l == Long <==> n > 600
  {
    match l
    case Short => 400
    case Medium => 600
    case Long => 1000
  }

  /* Each genre's prompt template is kept in three pieces, TemplateOpening +
     StoryKind(g) + StoryDetails(g), which concatenate to the template the app
     writes out whole; the split lets proofs read the genre off the character
     after the opening. */

  /** Every template opens with this. */
  const TemplateOpening: string := "Write a "

  /** The kind of story each genre asks for, right after the opening. */
  function StoryKind(g: Genre): (k: string)
    ensures k != []
  {
    match g
    case Fantasy => "fantasy"
    case Romance => "romantic"
    case SciFi => "science fiction"
    case Horror => "horror"
    case Mystery => "mystery"
  }

  /** What each genre's story should contain, up to the theme. */
  function StoryDetails(g: Genre): string {
    match g
    case Fantasy => " story with magic, mythical creatures, and adventure. Theme: "
    case Romance => " story about love, relationships, and emotions. Theme: "
    case SciFi => " story with futuristic technology, space, or advanced science. Theme: "
    case Horror => " story that creates suspense, fear, and mystery. Theme: "
    case Mystery => " story with puzzles, clues, and investigation. Theme: "
  }

  /** The instruction that precedes the theme, one per genre. Each opens with
      "Write a ", and the character after that tells the genre. */
  function GenreTemplate(g: Genre): (t: string)
    ensures |t| > |TemplateOpening| && t[..|TemplateOpening|] == TemplateOpening
    ensures t[|TemplateOpening|] == KindInitial(g)
  {
    InitialAfterPrefix(TemplateOpening, StoryKind(g), StoryDetails(g));
    TemplateOpening + StoryKind(g) + StoryDetails(g)
  }

  /** The first letter of each kind of story; no two genres share one. */
  function KindInitial(g: Genre): (c: char)
    ensures c == StoryKind(g)[0]
  {
    match g
    case Fantasy => 'f'
    case Romance => 'r'
    case SciFi => 's'
    case Horror => 'h'
    case Mystery => 'm'
  }

  /** In `a + b + c`, `a` comes first and the character after it is the first of `b`. */
  lemma InitialAfterPrefix(a: string, b: string, c: string)
    requires b != []
    ensures |a + b + c| > |a| && (a + b + c)[..|a|] == a && (a + b + c)[|a|] == b[0]
  {
    assert a + b + c == a + (b + c);
  }

  /** The text handed to the generator: the genre's template, the theme, then
      the story cue; each part can be read back from it. */
  function FullPrompt(g: Genre, theme: string): (p: string)
    ensures |p| == |GenreTemplate(g)| + |theme| + |StorySuffix|
    ensures EndsWith(p, StorySuffix)
    ensures p[..|GenreTemplate(g)|] == GenreTemplate(g)
    ensures p[|GenreTemplate(g)|..|p| - |StorySuffix|] == theme
  {
    GenreTemplate(g) + theme + StorySuffix
  }

  /** The templates differ right after the opening, so a full prompt tells
      which genre and which theme it was built from. */
  lemma FullPromptInjective(g1: Genre, t1: string, g2: Genre, t2: string)
    requires FullPrompt(g1, t1) == FullPrompt(g2, t2)
    ensures g1 == g2 && t1 == t2
  {
    PromptInitial(g1, t1);
    PromptInitial(g2, t2);
    InitialsDiffer(g1, g2);
  }

  /** Right after the opening, a full prompt shows its kind's initial. */
  lemma PromptInitial(g: Genre, theme: string)
    ensures |FullPrompt(g, theme)| > |TemplateOpening|
    ensures FullPrompt(g, theme)[|TemplateOpening|] == KindInitial(g)
  {
    var t := GenreTemplate(g);
    assert FullPrompt(g, theme)[|TemplateOpening|] == t[|TemplateOpening|];
  }

  lemma InitialsDiffer(g1: Genre, g2: Genre)
    requires KindInitial(g1) == KindInitial(g2)
    ensures g1 == g2
  {
  }

  /** What the page does with a form: reject an empty prompt, or generate with
      these settings. */
  datatype Plan =
    | Reject(message: string)
    | Generate(genre: Genre, length: Length, maxLength: int, fullPrompt: string)

  /** The trimmed prompt field, empty when absent. */
  function Theme(form: Form): string {
    Strip(GetOr(form.prompt, ""))
  }

  /** The validation and prompt selection of the index page. */
  function PlanRequest(form: Form): (p: Plan)
    ensures p.Reject? <==> Theme(form) == []
    ensures p.Reject? ==> p.message == EmptyPromptMessage
    ensures p.Generate? ==>
      && p.genre == ParseGenre(GetOr(form.genre, "Fantasy"))
      && p.length == ParseLength(GetOr(form.length, "medium"))
      && p.maxLength == TokenBudget(p.length)
      && p.fullPrompt == FullPrompt(p.genre, Theme(form))
  {
    var theme := Theme(form);
    if theme == [] then
      Reject(EmptyPromptMessage)
    else
      var genre := ParseGenre(GetOr(form.genre, "Fantasy"));
      var length := ParseLength(GetOr(form.length, "medium"));
      Generate(genre, length, TokenBudget(length), FullPrompt(genre, theme))
  }

  /** A missing or unknown genre and length give a fantasy story of medium
      length, 600 tokens. */
  lemma DefaultsAreFantasyMedium(form: Form)
    requires Theme(form) != []
    requires form.genre.None? || form.genre.value !in GenreNames
    requires form.length.None? || form.length.value !in LengthNames
    ensures var p := PlanRequest(form);
      p.Generate? && p.genre == Fantasy && p.length == Medium && p.maxLength == 600
  {
  }

  /** A named genre and length are honoured. */
  lemma NamedChoicesHonoured(form: Form, g: Genre, l: Length)
    requires Theme(form) != []
    requires form.genre == Some(GenreName(g)) && form.length == Some(LengthName(l))
    ensures var p := PlanRequest(form);
      p.Generate? && p.genre == g && p.length == l && p.maxLength == TokenBudget(l)
  {
    GenreNameRoundTrip(g);
    LengthNameRoundTrip(l);
  }

  /** The index page. A plain visit shows no story; a submission with an empty
      prompt shows the prompt message without calling the generator; any other
      submission runs the retry loop with three attempts on the planned prompt
      and budget. */
  method Index(submitted: bool, form: Form, outcomes: seq<Outcome>) returns (story: string, calls: seq<Call>)
    requires |outcomes| >= MaxRetries
    ensures !submitted ==> story == [] && calls == []
    ensures submitted && Theme(form) == [] ==> story == EmptyPromptMessage && calls == []
    ensures submitted && Theme(form) != [] ==>
      var p := PlanRequest(form);
      && story == RetryResult(Finisher(p.fullPrompt), IsStoryComplete, outcomes, AttemptCount(MaxRetries))
      && 1 <= |calls| <= MaxRetries
      && forall i :: 0 <= i < |calls| ==> calls[i] == AttemptCall(p.fullPrompt, p.maxLength, i)
  {
    story, calls := [], [];
    if submitted {
      var plan := PlanRequest(form);
      match plan
      case Reject(message) =>
        story := message;
      case Generate(_, _, maxLength, fullPrompt) =>
        story, calls := GenerateWithRetry(fullPrompt, maxLength, MaxRetries, outcomes);
        CallCountPositive(Finisher(fullPrompt), IsStoryComplete, outcomes, AttemptCount(MaxRetries));
    }
  }
}
