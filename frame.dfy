/**
 * `create_df_from_tweets`: one row per tweet whose cleaned text is not
 * empty, then the rows dated within the last seven days, newest first.
 */
module TweetFrame {
  import opened Calendar
  import opened TweetCleaning

  datatype Author = Author(username: string, name: string, followers: int)

  /** A fetched tweet; `date` is its creation instant in seconds since the epoch. */
  datatype Tweet = Tweet(id: int, text: string, author: Author, date: int, views: int)

  /** A row of the tweet table, with the columns of the frame (`id` is its index). */
  datatype Row = Row(
    id: int,
    text: string,
    author: string,
    views: int,
    followers: int,
    date: string,
    createdAt: int)

  /** The cleaned text is not empty, so the tweet gets a row. */
  predicate Kept(t: Tweet)
  {
    |CleanTweet(t.text)| != 0
  }

  /** The row built for one tweet. */
  function RowOf(t: Tweet): Row
  {
    Row(t.id, CleanTweet(t.text), t.author.username, t.views, t.author.followers,
        Iso(DayOf(t.date)), t.date)
  }

  /**
   * What a row of the table always satisfies: its text is non-empty cleaned
   * text and its `date` is the calendar date of its `created_at`.
   */
  predicate WellFormed(r: Row)
  {
    && r.text != []
    && Collapsed(r.text)
    && NoToken(Http, r.text)
    && r.date == Iso(DayOf(r.createdAt))
  }

  /** The `rows` list once the loop has seen `ts`. */
  function Rows(ts: seq<Tweet>): seq<Row>
  {
    if ts == [] then []
    else
      var t := ts[|ts| - 1];
      Rows(ts[..|ts| - 1]) + (if Kept(t) then [RowOf(t)] else [])
  }

  /** Strictly after `today - 7` days: the rows the table keeps. */
  predicate IsRecent(r: Row, today: int)
  {
    DayOf(r.createdAt) > today - 7
  }

  /** `df[df.created_at.dt.date > today - 7 days]`, which keeps the row order. */
  function Recent(rows: seq<Row>, today: int): seq<Row>
  {
    if rows == [] then []
    else (if IsRecent(rows[0], today) then [rows[0]] else []) + Recent(rows[1..], today)
  }

  /** Ordered by `created_at`, newest first. */
  predicate SortedDesc(rows: seq<Row>)
  {
    forall i, j :: 0 <= i < j < |rows| ==> rows[i].createdAt >= rows[j].createdAt
  }

  /**
   * The frames `create_df_from_tweets` may return for `tweets` on day
   * `today`: the recent rows in any order that is newest first (the sort is
   * not stable, so rows with equal timestamps may come in any order).
   */
  predicate IsTweetFrame(tweets: seq<Tweet>, today: int, df: seq<Row>)
  {
    multiset(df) == multiset(Recent(Rows(tweets), today)) && SortedDesc(df)
  }

  // ---------------------------------------------------------------------
  // The operation

  method CreateDfFromTweets(tweets: seq<Tweet>, today: int) returns (df: seq<Row>)
    ensures IsTweetFrame(tweets, today, df)
    ensures forall r :: r in df ==> WellFormed(r) && IsRecent(r, today)
  {
    var rows: seq<Row> := [];
    for i := 0 to |tweets|
      invariant rows == Rows(tweets[..i])
    {
      var t := tweets[i];
      var cleanText := CleanTweet(t.text);
      assert tweets[..i + 1][..i] == tweets[..i];
      if |cleanText| != 0 {
        rows := rows + [Row(t.id, cleanText, t.author.username, t.views, t.author.followers,
                            Iso(DayOf(t.date)), t.date)];
      }
    }
    assert tweets[..|tweets|] == tweets;
    if |rows| == 0 {
      df := rows;
      assert Recent(rows, today) == [];
    } else {
      var recent := Recent(rows, today);
      SortDescSpec(recent);
      df :| multiset(df) == multiset(recent) && SortedDesc(df);
    }
    forall r | r in df ensures WellFormed(r) && IsRecent(r, today) {
      assert r in multiset(Recent(Rows(tweets), today));
      RecentMembership(Rows(tweets), today, r);
      RowsWellFormed(tweets, r);
    }
  }

  // ---------------------------------------------------------------------
  // Rows

  /** The rows of a concatenation are the rows of each part, in order: nothing is merged or deduplicated. */
  lemma {:induction false} RowsAppend(a: seq<Tweet>, b: seq<Tweet>)
    ensures Rows(a + b) == Rows(a) + Rows(b)
    decreases |b|
  {
    if b == [] {
      assert a + b == a;
    } else {
      var c := a + b;
      assert c[..|c| - 1] == a + b[..|b| - 1];
      assert c[|c| - 1] == b[|b| - 1];
      RowsAppend(a, b[..|b| - 1]);
    }
  }

  /** A tweet gets exactly one row if its cleaned text is non-empty, none otherwise. */
  lemma RowsOfOne(t: Tweet)
    ensures Rows([t]) == (if |CleanTweet(t.text)| == 0 then [] else [RowOf(t)])
  {
    assert [t][..0] == [];
  }

  /** The same tweet twice gives two identical rows. */
  lemma NoDeduplication(t: Tweet)
    requires |CleanTweet(t.text)| != 0
    ensures Rows([t, t]) == [RowOf(t), RowOf(t)]
  {
    RowsAppend([t], [t]);
    RowsOfOne(t);
    assert [t] + [t] == [t, t];
  }

  /** Every row comes from a kept tweet and every kept tweet has its row. */
  lemma {:induction false} RowsMembership(ts: seq<Tweet>, r: Row)
    ensures r in Rows(ts) <==> exists t :: t in ts && Kept(t) && r == RowOf(t)
    decreases |ts|
  {
    if ts != [] {
      var init := ts[..|ts| - 1];
      var t := ts[|ts| - 1];
      assert ts == init + [t];
      RowsMembership(init, r);
      if exists u :: u in ts && Kept(u) && r == RowOf(u) {
        var u :| u in ts && Kept(u) && r == RowOf(u);
        if u != t {
          assert u in init;
        }
      }
    }
  }

  /** The row of a kept tweet is well formed. */
  lemma RowOfWellFormed(t: Tweet)
    requires Kept(t)
    ensures WellFormed(RowOf(t))
  {
    CleanTweetShape(t.text);
  }

  /** Every row of the table is well formed. */
  lemma RowsWellFormed(ts: seq<Tweet>, r: Row)
    requires r in Rows(ts)
    ensures WellFormed(r)
  {
    RowsMembership(ts, r);
    var t :| t in ts && Kept(t) && r == RowOf(t);
    RowOfWellFormed(t);
  }

  // ---------------------------------------------------------------------
  // The seven-day window

  /** A row is kept by the window exactly when it is recent; rows dated in the future are kept. */
  lemma {:induction false} RecentMembership(rows: seq<Row>, today: int, r: Row)
    ensures r in Recent(rows, today) <==> r in rows && IsRecent(r, today)
    decreases |rows|
  {
    if rows != [] {
      RecentMembership(rows[1..], today, r);
      assert rows == [rows[0]] + rows[1..];
    }
  }

  /** The window keeps every copy of a recent row and drops every copy of an old one. */
  lemma {:induction false} RecentMultiplicity(rows: seq<Row>, today: int, r: Row)
    ensures multiset(Recent(rows, today))[r] == if IsRecent(r, today) then multiset(rows)[r] else 0
    decreases |rows|
  {
    if rows != [] {
      RecentMultiplicity(rows[1..], today, r);
      assert rows == [rows[0]] + rows[1..];
    }
  }

  // ---------------------------------------------------------------------
  // Newest first

  function InsertDesc(r: Row, rows: seq<Row>): seq<Row>
  {
    if rows == [] || r.createdAt >= rows[0].createdAt then [r] + rows
    else [rows[0]] + InsertDesc(r, rows[1..])
  }

  /** A reference sort: insertion by `created_at`, newest first. */
  function SortDesc(rows: seq<Row>): seq<Row>
  {
    if rows == [] then [] else InsertDesc(rows[0], SortDesc(rows[1..]))
  }

  lemma {:induction false} InsertDescSpec(r: Row, rows: seq<Row>)
    requires SortedDesc(rows)
    ensures multiset(InsertDesc(r, rows)) == multiset(rows) + multiset{r}
    ensures SortedDesc(InsertDesc(r, rows))
    ensures InsertDesc(r, rows) != [] &&
            (InsertDesc(r, rows)[0] == r || (rows != [] && InsertDesc(r, rows)[0] == rows[0]))
    decreases |rows|
  {
    if rows != [] && r.createdAt < rows[0].createdAt {
      var rest := InsertDesc(r, rows[1..]);
      InsertDescSpec(r, rows[1..]);
      assert rows == [rows[0]] + rows[1..];
      var s := [rows[0]] + rest;
      forall i, j | 0 <= i < j < |s| ensures s[i].createdAt >= s[j].createdAt {
        if i == 0 {
          assert s[j] in multiset(rest);
          assert s[j] == r || s[j] in multiset(rows[1..]);
        }
      }
    }
  }

  /** The reference sort is a permutation ordered newest first. */
  lemma {:induction false} SortDescSpec(rows: seq<Row>)
    ensures multiset(SortDesc(rows)) == multiset(rows)
    ensures SortedDesc(SortDesc(rows))
    decreases |rows|
  {
    if rows != [] {
      SortDescSpec(rows[1..]);
      InsertDescSpec(rows[0], SortDesc(rows[1..]));
      assert rows == [rows[0]] + rows[1..];
    }
  }
}
