/**
 * The app's session state and `on_add_author`, the callback run when a
 * handle is submitted: it fetches the author's tweets, appends them to the
 * shared tweet log, registers the handle with the author's display name and
 * stores the sentiment the language model returns for it.
 */
module AppSession {
  import opened Wrappers
  import opened Dicts
  import opened TweetFrame
  import opened PromptBatcher

  /** The handle with one leading `@` removed, if it has one. */
  function StripAt(input: string): string
  {
    if |input| > 0 && input[0] == '@' then input[1..] else input
  }

  /** Exactly one `@` is removed: `"@@x"` becomes `"@x"`, and a handle without `@` is left alone. */
  lemma StripAtOnce(s: string)
    ensures StripAt("@" + s) == s
    ensures StripAt("@@" + s) == "@" + s
    ensures |s| == 0 || s[0] != '@' ==> StripAt(s) == s
  {
    assert ("@@" + s)[1..] == "@" + s;
  }

  /** Which path `on_add_author` took. */
  datatype Outcome =
    | AlreadyRegistered  // the handle is in the registry: nothing happens
    | NoTweets           // the fetch returned no tweet: nothing happens
    | Added              // registered, tweets logged, sentiment stored
    | AnalysisFailed     // registered and tweets logged, but the analysis raised

  /** `st.session_state` as the app uses it. */
  class Session {
    /** Every tweet fetched so far, for all authors, in fetch order. */
    var tweets: seq<Tweet>
    /** Registered handles (without `@`) to the author's display name. */
    var handles: Dict<string, string>
    var apiKey: string
    /** Handle to its map from ISO date to sentiment score. */
    var authorSentiment: Dict<string, map<string, int>>

    /** Both dictionaries are well formed and only registered handles have a sentiment. */
    ghost predicate Valid()
      reads this
    {
      && handles.Valid()
      && authorSentiment.Valid()
      && authorSentiment.entries.Keys <= handles.entries.Keys
    }

    /** The first run of the script: every field starts empty. */
    constructor ()
      ensures Valid()
      ensures tweets == [] && apiKey == ""
      ensures handles == Empty() && authorSentiment == Empty()
    {
      tweets := [];
      handles := Empty();
      apiKey := "";
      authorSentiment := Empty();
    }

    /**
     * `on_add_author` for the submitted text `input`. `fetch` stands for the
     * Twitter client and `analyze` for the language model, which answers a
     * handle and a prompt with a date-to-score map or fails; `today` is the
     * current date as a day number. `prompt` is the tweet list the model was
     * given (empty when the callback returned early).
     */
    method AddAuthor(input: string, fetch: string -> seq<Tweet>,
                     analyze: (string, string) -> Option<map<string, int>>, today: int)
      returns (outcome: Outcome, prompt: string)
      requires Valid()
      modifies this
      ensures Valid()
      ensures apiKey == old(apiKey)
      ensures outcome == AlreadyRegistered <==> StripAt(input) in old(handles.entries)
      ensures outcome == NoTweets <==>
        StripAt(input) !in old(handles.entries) && |fetch(StripAt(input))| == 0
      ensures outcome == AlreadyRegistered || outcome == NoTweets ==>
        && tweets == old(tweets)
        && handles == old(handles)
        && authorSentiment == old(authorSentiment)
      ensures outcome == Added || outcome == AnalysisFailed ==>
        var h := StripAt(input);
        var fetched := fetch(h);
        && |fetched| > 0
        && handles == Put(old(handles), h, fetched[0].author.name)
        && tweets == old(tweets) + fetched
        && PromptFor(tweets, h, today, prompt)
        && (outcome == Added <==> analyze(h, prompt).Some?)
        && authorSentiment ==
             (if outcome == Added then Put(old(authorSentiment), h, analyze(h, prompt).value)
              else old(authorSentiment))
      ensures outcome == AnalysisFailed ==>
        StripAt(input) in handles.entries && StripAt(input) !in authorSentiment.entries
    {
      prompt := "";
      var handle := StripAt(input);
      if handle in handles.entries {
        return AlreadyRegistered, prompt;
      }
      var allTweets := fetch(handle);
      if |allTweets| == 0 {
        return NoTweets, prompt;
      }
      outcome, prompt := Register(handle, allTweets, analyze, today);
    }

    /**
     * The rest of `on_add_author` once `handle` is known to be new and its
     * tweets `fetched` are non-empty.
     */
    method Register(handle: string, fetched: seq<Tweet>,
                    analyze: (string, string) -> Option<map<string, int>>, today: int)
      returns (outcome: Outcome, prompt: string)
      requires Valid() && handle !in handles.entries && |fetched| > 0
      modifies this
      ensures Valid()
      ensures apiKey == old(apiKey)
      ensures outcome == Added || outcome == AnalysisFailed
      ensures handles == Put(old(handles), handle, fetched[0].author.name)
      ensures tweets == old(tweets) + fetched
      ensures PromptFor(tweets, handle, today, prompt)
      ensures outcome == Added <==> analyze(handle, prompt).Some?
      ensures authorSentiment ==
        if outcome == Added then Put(old(authorSentiment), handle, analyze(handle, prompt).value)
        else old(authorSentiment)
    {
      var registry := Put(handles, handle, fetched[0].author.name);
      var log := tweets + fetched;
      PutSpec(handles, handle, fetched[0].author.name);
      prompt := CreateTweetListForPrompt(log, handle, today);
      var sentiment := analyze(handle, prompt);
      if sentiment.None? {
        handles, tweets := registry, log;
        return AnalysisFailed, prompt;
      }
      PutSpec(authorSentiment, handle, sentiment.value);
      handles, tweets := registry, log;
      authorSentiment := Put(authorSentiment, handle, sentiment.value);
      outcome := Added;
    }
  }
}
