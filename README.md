# AI-safety sentiment pipeline, modelled in Dafny

The dashboard tracks Twitter accounts. The user submits a handle. The app
fetches that author's tweets and adds them to a shared log. It cleans the
tweets and keeps the last seven days. It batches the author's tweets by day
into a prompt and asks a language model for a score per day. It then lays
the scores of all authors out as a seven-day table with an `Overall` mean
column. This project models that pipeline and proves what each step
guarantees.

Modules, one per concern:

- `Text` (text.dfy): Python's whitespace class, Python's string order, and
  newline counting.
- `Calendar` (calendar.dfy): timestamps to calendar days, and days to their
  `YYYY-MM-DD` rendering. The conversion is proved to round-trip, so the
  rendering is injective.
- `TweetCleaning` (cleaning.dfy): `clean_tweet`. The three `re.sub` calls
  are written as scanners that follow Python's leftmost, greedy,
  non-overlapping semantics.
- `TweetFrame` (frame.dfy): `create_df_from_tweets`, written as a method
  with its loop. It returns one row per tweet with non-empty cleaned text,
  keeps the rows of the last seven days, and sorts them newest first.
- `PromptBatcher` (prompt.dfy): `create_tweet_list_for_prompt`, written as
  methods with its loops. It selects the author's rows, samples at most 100
  of them, groups them by date in ascending order, and renders each group as
  `date:` followed by one `\n`-prefixed line per tweet.
- `Dicts` (dicts.dfy): Python's insertion-ordered `dict`.
- `SeriesAligner` (series.dfy): `create_sentiment_df`, written as a method
  with its nested loops, checked against the frame function `AlignedFrame`.
- `AppSession` (session.dfy): the session state as a class, its first-run
  initialisation, and `on_add_author` as a method that updates the state.

External collaborators are parameters:

- the current date `today` (a day number);
- the tweet fetcher `fetch: string -> seq<Tweet>`;
- the language model `analyze: (handle, prompt) -> Option<map<date, score>>`,
  where `None` stands for a call or parse that raised.

The row sampling is a nondeterministic choice. The method contracts hold
for every possible sample.

A reader might expect cleaned text to be free of `http` and `www`, and rows
to be unique by tweet id. The code guarantees neither, and the model follows
the code:

- Cleaned text is not free of `http`/`www`. The code removes only matches of
  `http\S+` and `www.\S+`.
  - A bare `http` followed by whitespace or by the end of the text stays
    (`CleanTweetKeepsBareHttp`).
  - `www` followed by a newline is not a match. Once whitespace is
    collapsed it reads `www x`, which is a match (`WwwCanReappear`).
  - `http` followed by a non-space character never survives
    (`CleanTweetShape`).
  - The `.` in `www.\S+` is unescaped. A match is `www`, then any character
    but a newline, then at least one non-whitespace character.
- Rows are not unique by tweet id. A tweet fetched twice, for example by
  adding two authors whose timelines share it, gives two rows
  (`NoDeduplication`).

## Model

| member | source | states |
|---|---|---|
| Calendar.DayOf | sentiment_analyzer.py:49 | the calendar day of a timestamp is the day whose 86400-second span contains it |
| Calendar.Iso | sentiment_analyzer.py:49 | `str(date)` is at least ten characters long, all of them digits or `-` |
| Calendar.CivilRoundTrip | sentiment_analyzer.py:49 | converting a day number to year/month/day and back gives the same day |
| Calendar.IsoInjective | sentiment_analyzer.py:49 | two days with the same `YYYY-MM-DD` text are the same day |
| Calendar.IsoExample | sentiment_analyzer.py:49 | day 19723 renders as `2024-01-01` and day 19729 as `2024-01-07` |
| TweetCleaning.TokenEnd | sentiment_analyzer.py:32-33 | a match is the four fixed characters plus the greedy `\S+`: it ends at the next whitespace or at the end of the text |
| TweetCleaning.StripIsSubsequence | sentiment_analyzer.py:32-33 | removing `http\S+` or `www.\S+` matches only deletes characters and keeps the rest in order |
| TweetCleaning.StripShrinks | sentiment_analyzer.py:32-33 | a removal never lengthens the text |
| TweetCleaning.StripLeavesNoToken | sentiment_analyzer.py:32-33 | after a removal no match of that pattern starts anywhere |
| TweetCleaning.StripCreatesNone | sentiment_analyzer.py:32-33 | a removal cannot join characters into a new match at the head of the text |
| TweetCleaning.StripIdentity | sentiment_analyzer.py:32-33 | a text without matches is returned unchanged |
| TweetCleaning.StripFixpoint | sentiment_analyzer.py:32-33 | a removal is idempotent, and it changes a text exactly when the text holds a match |
| TweetCleaning.HttpNotCreated | sentiment_analyzer.py:32-34 | none of the three substitutions creates an `http` match at the head of its output |
| TweetCleaning.WwwNotCreatedByStrip | sentiment_analyzer.py:32-33 | removing matches never creates a `www` match at the head |
| TweetCleaning.NoHttpPreserved | sentiment_analyzer.py:33-34 | a text without `http` matches keeps none through the later substitutions |
| TweetCleaning.CollapseHead | sentiment_analyzer.py:34 | collapsing empties only the empty text and keeps whether the text starts with whitespace |
| TweetCleaning.CollapseCollapsed | sentiment_analyzer.py:34 | after `\s+` → `" "`, every whitespace character is a plain space and no two are adjacent |
| TweetCleaning.CollapseIdentity | sentiment_analyzer.py:34 | an already collapsed text is unchanged |
| TweetCleaning.CollapseKeepsNonSpace | sentiment_analyzer.py:34 | collapsing keeps every non-whitespace character in order |
| TweetCleaning.CleanTweetShape | sentiment_analyzer.py:31-35 | the cleaned text is collapsed and holds no `http` match |
| TweetCleaning.CleanTweetEmpty | sentiment_analyzer.py:31-35 | the cleaned text is empty exactly when the two removals left nothing |
| TweetCleaning.BlankCleansToSpace | sentiment_analyzer.py:34-42 | whitespace-only text becomes a single space, so it is kept |
| TweetCleaning.LinkOnlyCleansToEmpty | sentiment_analyzer.py:32-42 | a tweet that is a single link cleans to empty, so it is dropped |
| TweetCleaning.CleanTweetKeepsBareHttp | sentiment_analyzer.py:32 | `"a http"` is unchanged: a bare `http` is not a match |
| TweetCleaning.NewlineBlocksWww | sentiment_analyzer.py:32-33 | `"www\nx"` passes both removals unchanged |
| TweetCleaning.NewlineCollapses | sentiment_analyzer.py:34 | collapsing turns `"www\nx"` into `"www x"` |
| TweetCleaning.WwwCanReappear | sentiment_analyzer.py:33-34 | `"www\nx"` cleans to `"www x"`, which holds a `www` match |
| TweetFrame.CreateDfFromTweets | sentiment_analyzer.py:37-73 | the result is a permutation of the recent rows, in non-increasing `created_at` order; every row is well formed and recent |
| TweetFrame.RowsAppend | sentiment_analyzer.py:38-54 | the rows of a concatenation of tweet lists are the rows of each part, in order |
| TweetFrame.RowsOfOne | sentiment_analyzer.py:40-54 | a tweet gives one row when its cleaned text is non-empty, and none otherwise |
| TweetFrame.NoDeduplication | sentiment_analyzer.py:39-54 | the same kept tweet twice gives two identical rows |
| TweetFrame.RowsMembership | sentiment_analyzer.py:39-54 | a row is present iff it is the row of some kept tweet |
| TweetFrame.RowOfWellFormed | sentiment_analyzer.py:40-54 | a kept tweet's row has non-empty cleaned text, and its `date` is the ISO day of its `created_at` |
| TweetFrame.RowsWellFormed | sentiment_analyzer.py:44-54 | every row of the table is well formed |
| TweetFrame.RecentMembership | sentiment_analyzer.py:71 | a row survives the filter iff its day is after today − 7, future rows included |
| TweetFrame.RecentMultiplicity | sentiment_analyzer.py:71 | the filter keeps every copy of a recent row and drops every copy of an old one |
| TweetFrame.SortDescSpec | sentiment_analyzer.py:72 | a newest-first ordering exists for any rows: a permutation sorted by `created_at`, non-increasing |
| PromptBatcher.CreateTweetListForPrompt | sentiment_analyzer.py:76-91 | the text is the grouped rendering of an allowed sample of the author's rows in some valid tweet frame |
| PromptBatcher.RenderGroups | sentiment_analyzer.py:84-89 | the loop produces the groups for the ascending date keys, concatenated with no separator |
| PromptBatcher.AppendGroup | sentiment_analyzer.py:87-89 | one group is `date:` followed by `\n` + text for each row of that date, in row order |
| PromptBatcher.UserRowsMembership | sentiment_analyzer.py:78 | a row is selected iff it is in the frame and its author is the handle |
| PromptBatcher.UserRowsMultiplicity | sentiment_analyzer.py:78 | the selection keeps every copy of the author's rows and none of the others |
| PromptBatcher.UserRowsPermutation | sentiment_analyzer.py:77-78 | frames with the same rows in any order select the same rows |
| PromptBatcher.GroupKeysSpec | sentiment_analyzer.py:86 | the group keys are strictly ascending and are exactly the dates that occur |
| PromptBatcher.GroupKeysEmpty | sentiment_analyzer.py:86 | there are no groups iff there are no rows |
| PromptBatcher.RenderEmpty | sentiment_analyzer.py:84-89 | the rendering is empty iff there are no groups |
| PromptBatcher.PromptEmptyIff | sentiment_analyzer.py:77-82 | the prompt text is `""` iff no recent row has the handle as author |
| PromptBatcher.WellFormedOneLine | sentiment_analyzer.py:34-49 | a row's text and date hold no newline |
| PromptBatcher.LinesCount | sentiment_analyzer.py:88-89 | a group body has one newline per tweet |
| PromptBatcher.RenderCount | sentiment_analyzer.py:86-89 | the rendering has one newline per tweet that falls on a listed date |
| PromptBatcher.PromptTweetCount | sentiment_analyzer.py:81-89 | the prompt holds min(number of the author's recent rows, 100) tweets, one per newline |
| PromptBatcher.TwoDatesLayout | sentiment_analyzer.py:86-89 | a newer and an older tweet are laid out older date first, each with its header |
| PromptBatcher.SameDateLayout | sentiment_analyzer.py:86-89 | two tweets of one date share one header and keep their order |
| Dicts.Empty | app.py:68-72 | `{}` is a valid dictionary with no keys |
| Dicts.PutSpec | app.py:24-26 | `d[k] = v` keeps the dictionary valid and maps `k` to `v`; a new key goes last, an existing key keeps its place |
| SeriesAligner.CreateSentimentDf | app.py:30-54 | the nested loops build exactly the frame `AlignedFrame(data, today)` |
| SeriesAligner.WindowShape | app.py:31-34 | the index is seven consecutive days, oldest first, ending today |
| SeriesAligner.WindowLabels | app.py:31-34 | the index holds `Iso(d)` exactly for the seven days `today-6..today`, so its seven labels are distinct |
| SeriesAligner.WindowMembership | app.py:31-34 | a given day's ISO date is in the index exactly when the day is one of the last seven |
| SeriesAligner.WindowSlotDay | app.py:31-34 | position `i` of the index holds the date of day `today-6+i` and of no other day |
| SeriesAligner.WindowExample | app.py:31-34 | on 2024-01-07 the window starts at `2024-01-01`, and no later day renders as that date |
| SeriesAligner.CellsSpec | app.py:40-44 | the inner loop yields one cell per date: the score when the date is a key, missing otherwise |
| SeriesAligner.AuthorColumnsSpec | app.py:37-46 | the outer loop yields one column per author, in dictionary order, named by the author |
| SeriesAligner.FrameColumns | app.py:35-52 | authors in insertion order, then `Overall` iff there is an author; no columns when there is none; every column has seven cells |
| SeriesAligner.FrameCell | app.py:40-44 | an author's cell on day i of the window is the score for that ISO date, or missing |
| SeriesAligner.OutsideWindowIgnored | app.py:40-44 | scores for dates outside the window do not affect the frame |
| SeriesAligner.OverallCell | app.py:51-52 | each `Overall` cell is the mean of that row's author cells |
| SeriesAligner.MeanMissing | app.py:52 | a row's mean is missing iff every cell of the row is missing |
| SeriesAligner.MeanBounds | app.py:52 | the mean lies within any bounds that hold for the present scores |
| SeriesAligner.MeanExample | app.py:52 | 80, missing and 60 average to 70: missing cells are skipped, not counted as zero |
| SeriesAligner.OverallBounds | app.py:52 | when all scores are in [lo, hi], every `Overall` value is too (for example 0 to 100) |
| SeriesAligner.SingleAuthorOverall | app.py:52 | with one author, `Overall` repeats that author's column |
| AppSession.StripAtOnce | app.py:16-17 | exactly one leading `@` is removed (`@@x` becomes `@x`); other input is unchanged |
| AppSession.Session.constructor | app.py:68-72 | the first run starts with an empty log, empty registries and an empty key |
| AppSession.Session.AddAuthor | app.py:14-28 | a registered handle or an empty fetch leaves the state unchanged; otherwise the handle maps to the first tweet's author name, the log grows by the fetched tweets, the prompt is built over the whole log, and only that handle's sentiment is set, and only when the analysis succeeds; sentiment keys stay within the registered handles |
| AppSession.Session.Register | app.py:24-27 | the success path of `on_add_author`: registry, log and sentiment as above, and `Added` exactly when the analysis returns a map |

## Left out

- Page layout, widgets, charts and tables (app.py:57-117) are not modelled.
  They only display the state. The handle form calls `on_add_author`, which
  is modelled.
- Exporting the API key to the environment (app.py:74) is not modelled. The
  key is a session field that only the UI writes.
- The Twitter client is the `fetch` parameter. Errors it raises are not
  modelled.
- The language model, the prompt template, the LLM chain and `json.loads`
  (sentiment_analyzer.py:5-29, 93-106) are the `analyze` oracle. It
  receives the handle and the rendered prompt text. That text comes from
  `create_tweet_list_for_prompt` (sentiment_analyzer.py:103), which is
  modelled outside the oracle as `PromptBatcher.CreateTweetListForPrompt`.
  The template text around them is not modelled. Scores are modelled as integers. Values of another JSON type
  are not modelled.
- The clock is the `today` parameter. Timestamps are naive seconds since the
  epoch, and the day of a timestamp is taken in that same time scale. Time
  zones are not modelled. The source reads the clock separately in each
  function; the model uses one `today` per call.
- The random sample (sentiment_analyzer.py:82) is any 100 of the author's
  rows, taken as a sub-multiset. A sampled group keeps the rows in the order
  the model's chosen sample lists them; which random order pandas produces
  is not modelled.
- `mean(axis=1)` uses floating point in the source. The model uses exact
  rationals, and `None` is the `Missing` cell.
- An author named `date` or `Overall` would clash with a column name. That
  case is not modelled.
- Whitespace is the fixed set of characters for which `str.isspace()`
  holds. No other Unicode processing takes place.
- A failed analysis raises out of `on_add_author` after the registry and
  the log have been updated. The model returns `AnalysisFailed` with exactly
  that state.
