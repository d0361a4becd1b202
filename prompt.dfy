/**
 * `create_tweet_list_for_prompt`: one author's rows of the tweet table, at
 * most a hundred of them, grouped by date and written out as one block of
 * text, each group a `"{date}:"` header followed by one `"\n{text}"` line
 * per tweet.
 */
module PromptBatcher {
  import opened Text
  import opened Calendar
  import opened TweetCleaning
  import opened TweetFrame

  /** `sample(n=100)`: the largest number of tweets one prompt carries. */
  const MaxTweets: nat := 100

  /** `df[df.author == handle]`: one author's rows in frame order (an exact, case-sensitive match). */
  function UserRows(df: seq<Row>, handle: string): seq<Row>
  {
    if df == [] then []
    else (if df[0].author == handle then [df[0]] else []) + UserRows(df[1..], handle)
  }

  /**
   * The rows a prompt may carry: all of them when there are at most a
   * hundred, otherwise any hundred of them in any order (`sample` picks
   * without replacement and shuffles).
   */
  predicate ValidSample(picked: seq<Row>, user: seq<Row>)
  {
    if |user| > MaxTweets then |picked| == MaxTweets && multiset(picked) <= multiset(user)
    else picked == user
  }

  /** Dates strictly ascending in Python's string order. */
  predicate Ascending(keys: seq<string>)
  {
    forall i, j :: 0 <= i < j < |keys| ==> LexLess(keys[i], keys[j])
  }

  /** Adds `d` to a strictly ascending list of dates unless it is already there. */
  function InsertKey(d: string, keys: seq<string>): seq<string>
  {
    if keys == [] then [d]
    else if d == keys[0] then keys
    else if LexLess(d, keys[0]) then [d] + keys
    else [keys[0]] + InsertKey(d, keys[1..])
  }

  /** The group keys of `groupby("date")`: the distinct dates, sorted. */
  function GroupKeys(rows: seq<Row>): seq<string>
  {
    if rows == [] then [] else InsertKey(rows[0].date, GroupKeys(rows[1..]))
  }

  /** The rows of one group, in frame order. */
  function RowsOn(rows: seq<Row>, d: string): seq<Row>
  {
    if rows == [] then []
    else
      var r := rows[|rows| - 1];
      RowsOn(rows[..|rows| - 1], d) + (if r.date == d then [r] else [])
  }

  /** One `"\n{text}"` per row. */
  function Lines(rows: seq<Row>): string
  {
    if rows == [] then "" else Lines(rows[..|rows| - 1]) + "\n" + rows[|rows| - 1].text
  }

  /** A group: its `"{date}:"` header and its lines. */
  function Group(rows: seq<Row>, d: string): string
  {
    d + ":" + Lines(RowsOn(rows, d))
  }

  /** The groups of the listed dates one after the other, with nothing between them. */
  function Render(keys: seq<string>, rows: seq<Row>): string
  {
    if keys == [] then "" else Render(keys[..|keys| - 1], rows) + Group(rows, keys[|keys| - 1])
  }

  /**
   * The texts `create_tweet_list_for_prompt(tweets, handle)` may return on
   * day `today`: some frame `create_df_from_tweets` may return, some
   * sample of the author's rows in it, rendered group by group.
   */
  ghost predicate PromptFor(tweets: seq<Tweet>, handle: string, today: int, text: string)
  {
    exists df: seq<Row>, picked: seq<Row> ::
      && IsTweetFrame(tweets, today, df)
      && ValidSample(picked, UserRows(df, handle))
      && text == Render(GroupKeys(picked), picked)
  }

  /** The author's rows among the recent rows, whatever their order. */
  function Matching(tweets: seq<Tweet>, handle: string, today: int): seq<Row>
  {
    UserRows(Recent(Rows(tweets), today), handle)
  }

  // ---------------------------------------------------------------------
  // The operation

  method CreateTweetListForPrompt(tweets: seq<Tweet>, handle: string, today: int)
    returns (text: string)
    ensures PromptFor(tweets, handle, today, text)
  {
    var df := CreateDfFromTweets(tweets, today);
    var user := UserRows(df, handle);
    if |user| == 0 {
      assert ValidSample([], user) && Render(GroupKeys([]), []) == "";
      return "";
    }
    var picked := user;
    if |user| > MaxTweets {
      PrefixIsSubMultiset(user, MaxTweets);
      picked :| |picked| == MaxTweets && multiset(picked) <= multiset(user);
    }
    text := RenderGroups(picked);
    assert ValidSample(picked, UserRows(df, handle));
  }

  /** The loop over the date groups (lines 84-89). */
  method RenderGroups(picked: seq<Row>) returns (text: string)
    ensures text == Render(GroupKeys(picked), picked)
  {
    var keys := GroupKeys(picked);
    text := "";
    for k := 0 to |keys|
      invariant text == Render(keys[..k], picked)
    {
      text := AppendGroup(text, picked, keys[k]);
      assert keys[..k + 1][..k] == keys[..k];
    }
    assert keys[..|keys|] == keys;
  }

  /** One group: the header, then the inner loop over the group's rows. */
  method AppendGroup(before: string, picked: seq<Row>, d: string) returns (text: string)
    ensures text == before + Group(picked, d)
  {
    var header := before + d + ":";
    text := header;
    for j := 0 to |picked|
      invariant text == header + Lines(RowsOn(picked[..j], d))
    {
      var group := RowsOn(picked[..j], d);
      RowsOnSnoc(picked[..j], picked[j], d);
      assert picked[..j] + [picked[j]] == picked[..j + 1];
      if picked[j].date == d {
        LinesSnoc(group, picked[j]);
        Assoc(header, Lines(group), "\n" + picked[j].text);
        text := text + ("\n" + picked[j].text);
        assert RowsOn(picked[..j + 1], d) == group + [picked[j]];
      } else {
        assert group + [] == group;
        assert RowsOn(picked[..j + 1], d) == group;
      }
    }
    assert picked[..|picked|] == picked;
    Assoc(before, d + ":", Lines(RowsOn(picked, d)));
  }

  lemma Assoc(a: string, b: string, c: string)
    ensures (a + b) + c == a + (b + c)
  {
  }

  lemma RowsOnSnoc(rows: seq<Row>, r: Row, d: string)
    ensures RowsOn(rows + [r], d) == RowsOn(rows, d) + (if r.date == d then [r] else [])
  {
    assert (rows + [r])[..|rows|] == rows;
  }

  lemma LinesSnoc(rows: seq<Row>, r: Row)
    ensures Lines(rows + [r]) == Lines(rows) + ("\n" + r.text)
  {
    assert (rows + [r])[..|rows|] == rows;
  }

  lemma PrefixIsSubMultiset(s: seq<Row>, n: nat)
    requires n <= |s|
    ensures multiset(s[..n]) <= multiset(s)
  {
    assert s == s[..n] + s[n..];
  }

  // ---------------------------------------------------------------------
  // One author's rows

  /** The author filter keeps every copy of the author's rows and nothing else. */
  lemma {:induction false} UserRowsMultiplicity(df: seq<Row>, handle: string, r: Row)
    ensures multiset(UserRows(df, handle))[r] == if r.author == handle then multiset(df)[r] else 0
    decreases |df|
  {
    if df != [] {
      UserRowsMultiplicity(df[1..], handle, r);
      assert df == [df[0]] + df[1..];
    }
  }

  lemma UserRowsMembership(df: seq<Row>, handle: string, r: Row)
    ensures r in UserRows(df, handle) <==> r in df && r.author == handle
  {
    UserRowsMultiplicity(df, handle, r);
    assert r in UserRows(df, handle) <==> r in multiset(UserRows(df, handle));
  }

  /** Reordering the frame reorders the author's rows and changes nothing else. */
  lemma UserRowsPermutation(a: seq<Row>, b: seq<Row>, handle: string)
    requires multiset(a) == multiset(b)
    ensures multiset(UserRows(a, handle)) == multiset(UserRows(b, handle))
  {
    forall r ensures multiset(UserRows(a, handle))[r] == multiset(UserRows(b, handle))[r] {
      UserRowsMultiplicity(a, handle, r);
      UserRowsMultiplicity(b, handle, r);
    }
  }

  // ---------------------------------------------------------------------
  // Group keys

  lemma {:induction false} InsertKeySpec(d: string, keys: seq<string>)
    requires Ascending(keys)
    ensures Ascending(InsertKey(d, keys))
    ensures forall x :: x in InsertKey(d, keys) <==> x == d || x in keys
    decreases |keys|
  {
    if keys != [] && d != keys[0] {
      if LexLess(d, keys[0]) {
        var s := [d] + keys;
        forall i, j | 0 <= i < j < |s| ensures LexLess(s[i], s[j]) {
          if i == 0 && j > 1 {
            LexLessTransitive(d, keys[0], keys[j - 1]);
          }
        }
      } else {
        LexLessTotal(d, keys[0]);
        InsertKeySpec(d, keys[1..]);
        var rest := InsertKey(d, keys[1..]);
        var s := [keys[0]] + rest;
        forall i, j | 0 <= i < j < |s| ensures LexLess(s[i], s[j]) {
          if i == 0 {
            assert s[j] in rest;
          }
        }
        assert keys == [keys[0]] + keys[1..];
      }
    }
  }

  /** `groupby("date")` visits every date of the rows once, in ascending order, and no other. */
  lemma {:induction false} GroupKeysSpec(rows: seq<Row>)
    ensures Ascending(GroupKeys(rows))
    ensures forall d :: d in GroupKeys(rows) <==> exists r :: r in rows && r.date == d
    decreases |rows|
  {
    if rows != [] {
      GroupKeysSpec(rows[1..]);
      InsertKeySpec(rows[0].date, GroupKeys(rows[1..]));
      assert rows == [rows[0]] + rows[1..];
    }
  }

  lemma AscendingDistinct(keys: seq<string>, i: int, j: int)
    requires Ascending(keys) && 0 <= i < j < |keys|
    ensures keys[i] != keys[j]
  {
    LexLessIrreflexive(keys[i]);
  }

  // ---------------------------------------------------------------------
  // When the block is empty

  lemma {:induction false} GroupKeysEmpty(rows: seq<Row>)
    ensures GroupKeys(rows) == [] <==> rows == []
  {
    if rows != [] {
      assert rows[0].date in GroupKeys(rows) by {
        GroupKeysSpec(rows);
      }
    }
  }

  lemma RenderEmpty(keys: seq<string>, rows: seq<Row>)
    ensures Render(keys, rows) == "" <==> keys == []
  {
    if keys != [] {
      var d := keys[|keys| - 1];
      assert Group(rows, d) == d + ":" + Lines(RowsOn(rows, d));
      assert |Group(rows, d)| >= 1;
    }
  }

  /**
   * The block is empty exactly when no recent row has the handle as its
   * author; whichever frame order and sample were taken does not matter.
   */
  lemma PromptEmptyIff(tweets: seq<Tweet>, handle: string, today: int, text: string)
    requires PromptFor(tweets, handle, today, text)
    ensures text == "" <==> forall r :: r in Recent(Rows(tweets), today) ==> r.author != handle
  {
    var df: seq<Row>, picked: seq<Row> :|
      && IsTweetFrame(tweets, today, df)
      && ValidSample(picked, UserRows(df, handle))
      && text == Render(GroupKeys(picked), picked);
    var recent := Recent(Rows(tweets), today);
    var user := UserRows(df, handle);
    RenderEmpty(GroupKeys(picked), picked);
    GroupKeysEmpty(picked);
    assert picked == [] <==> user == [];
    UserRowsPermutation(df, recent, handle);
    assert |user| == |multiset(user)| == |multiset(Matching(tweets, handle, today))|;
    if exists r :: r in recent && r.author == handle {
      var r :| r in recent && r.author == handle;
      UserRowsMembership(recent, handle, r);
    }
    if Matching(tweets, handle, today) != [] {
      var r := Matching(tweets, handle, today)[0];
      UserRowsMembership(recent, handle, r);
    }
  }

  // ---------------------------------------------------------------------
  // How many tweets the block holds

  /** No newline inside. */
  predicate OneLine(s: string)
  {
    forall i :: 0 <= i < |s| ==> s[i] != '\n'
  }

  /** Rows per listed date, summed. */
  function SumOn(keys: seq<string>, rows: seq<Row>): nat
  {
    if keys == [] then 0 else SumOn(keys[..|keys| - 1], rows) + |RowsOn(rows, keys[|keys| - 1])|
  }

  lemma {:induction false} LinesCount(rows: seq<Row>)
    requires forall r :: r in rows ==> OneLine(r.text)
    ensures Count(Lines(rows), '\n') == |rows|
    decreases |rows|
  {
    if rows != [] {
      var r := rows[|rows| - 1];
      LinesCount(rows[..|rows| - 1]);
      CountAppend(Lines(rows[..|rows| - 1]) + "\n", r.text, '\n');
      CountAppend(Lines(rows[..|rows| - 1]), "\n", '\n');
      CountAbsent(r.text, '\n');
      assert Count("\n", '\n') == 1 by {
        assert "\n"[..0] == [];
      }
    }
  }

  /** The newlines of the block are the line starts, one per row of each group. */
  lemma {:induction false} RenderCount(keys: seq<string>, rows: seq<Row>)
    requires forall d :: d in keys ==> OneLine(d)
    requires forall r :: r in rows ==> OneLine(r.text)
    ensures Count(Render(keys, rows), '\n') == SumOn(keys, rows)
    decreases |keys|
  {
    if keys != [] {
      var init := keys[..|keys| - 1];
      var d := keys[|keys| - 1];
      var group := RowsOn(rows, d);
      assert d in keys && OneLine(d);
      assert forall e :: e in init ==> e in keys;
      RenderCount(init, rows);
      RowsOnMembership(rows, d);
      LinesCount(group);
      CountAppend(Render(init, rows), d + ":" + Lines(group), '\n');
      CountAppend(d + ":", Lines(group), '\n');
      CountAppend(d, ":", '\n');
      CountAbsent(d, '\n');
      CountAbsent(":", '\n');
    }
  }

  lemma {:induction false} RowsOnMembership(rows: seq<Row>, d: string)
    ensures forall r :: r in RowsOn(rows, d) ==> r in rows
    decreases |rows|
  {
    if rows != [] {
      RowsOnMembership(rows[..|rows| - 1], d);
      assert forall r :: r in rows[..|rows| - 1] ==> r in rows;
    }
  }

  lemma {:induction false} SumOnNoRows(keys: seq<string>)
    ensures SumOn(keys, []) == 0
    decreases |keys|
  {
    if keys != [] {
      SumOnNoRows(keys[..|keys| - 1]);
    }
  }

  /** One more row counts once, under the one key equal to its date. */
  lemma {:induction false} SumOnSnoc(keys: seq<string>, rows: seq<Row>, r: Row)
    requires Ascending(keys)
    ensures SumOn(keys, rows + [r]) == SumOn(keys, rows) + (if r.date in keys then 1 else 0)
    decreases |keys|
  {
    if keys != [] {
      var init := keys[..|keys| - 1];
      var d := keys[|keys| - 1];
      assert Ascending(init);
      SumOnSnoc(init, rows, r);
      RowsOnSnoc(rows, r, d);
      assert keys == init + [d];
      LastKeyFresh(keys);
    }
  }

  lemma LastKeyFresh(keys: seq<string>)
    requires Ascending(keys) && keys != []
    ensures keys[|keys| - 1] !in keys[..|keys| - 1]
  {
    if keys[|keys| - 1] in keys[..|keys| - 1] {
      var i :| 0 <= i < |keys| - 1 && keys[i] == keys[|keys| - 1];
      AscendingDistinct(keys, i, |keys| - 1);
    }
  }

  /** The groups of distinct keys covering every date partition the rows. */
  lemma {:induction false} SumOnPartition(keys: seq<string>, rows: seq<Row>)
    requires Ascending(keys)
    requires forall r :: r in rows ==> r.date in keys
    ensures SumOn(keys, rows) == |rows|
    decreases |rows|
  {
    if rows == [] {
      SumOnNoRows(keys);
    } else {
      var init := rows[..|rows| - 1];
      var r := rows[|rows| - 1];
      assert rows == init + [r];
      SumOnPartition(keys, init);
      SumOnSnoc(keys, init, r);
    }
  }

  /** Cleaned text and dates hold no newline. */
  lemma WellFormedOneLine(r: Row)
    requires WellFormed(r)
    ensures OneLine(r.text) && OneLine(r.date)
  {
    forall i | 0 <= i < |r.text| ensures r.text[i] != '\n' {
      if r.text[i] == '\n' {
        assert IsSpace(r.text[i]);
      }
    }
  }

  /**
   * The block holds one line per tweet: exactly as many as the author has
   * recent rows, but never more than a hundred.
   */
  lemma PromptTweetCount(tweets: seq<Tweet>, handle: string, today: int, text: string)
    requires PromptFor(tweets, handle, today, text)
    ensures var n := |Matching(tweets, handle, today)|;
            Count(text, '\n') == if n > MaxTweets then MaxTweets else n
  {
    var df: seq<Row>, picked: seq<Row> :|
      && IsTweetFrame(tweets, today, df)
      && ValidSample(picked, UserRows(df, handle))
      && text == Render(GroupKeys(picked), picked);
    var recent := Recent(Rows(tweets), today);
    var user := UserRows(df, handle);
    UserRowsPermutation(df, recent, handle);
    assert |user| == |multiset(user)| == |multiset(Matching(tweets, handle, today))|;
    forall r | r in picked ensures WellFormed(r) {
      assert r in multiset(user);
      UserRowsMembership(df, handle, r);
      assert r in multiset(recent);
      RecentMembership(Rows(tweets), today, r);
      RowsWellFormed(tweets, r);
    }
    var keys := GroupKeys(picked);
    GroupKeysSpec(picked);
    forall d | d in keys ensures OneLine(d) {
      var r :| r in picked && r.date == d;
      WellFormedOneLine(r);
    }
    forall r | r in picked ensures OneLine(r.text) {
      WellFormedOneLine(r);
    }
    RenderCount(keys, picked);
    SumOnPartition(keys, picked);
  }

  // ---------------------------------------------------------------------
  // The layout on small inputs

  /** A group of a single row: its header, then its one line. */
  lemma SingleGroup(rows: seq<Row>, r: Row)
    requires RowsOn(rows, r.date) == [r]
    ensures Group(rows, r.date) == r.date + ":" + "\n" + r.text
  {
    LinesSnoc([], r);
    assert [] + [r] == [r];
    Assoc(r.date + ":", "\n", r.text);
  }

  lemma RowsOnOne(r: Row, d: string)
    ensures RowsOn([r], d) == if r.date == d then [r] else []
  {
    RowsOnSnoc([], r, d);
    assert [] + [r] == [r];
  }

  /**
   * Two rows of different dates, newest first as in the frame: the older
   * date's group comes first, and the newer date's header follows the
   * older group's last line with nothing in between.
   */
  lemma TwoDatesLayout(newer: Row, older: Row)
    requires LexLess(older.date, newer.date)
    ensures Render(GroupKeys([newer, older]), [newer, older]) ==
            (older.date + ":" + "\n" + older.text) + (newer.date + ":" + "\n" + newer.text)
  {
    var rows := [newer, older];
    InsertAfter(older.date, newer.date);
    assert rows[1..] == [older] && rows[..1] == [newer];
    assert GroupKeys([older]) == [older.date];
    assert GroupKeys(rows) == [older.date, newer.date];
    RowsOnOne(newer, older.date);
    RowsOnOne(newer, newer.date);
    RowsOnSnoc([newer], older, older.date);
    RowsOnSnoc([newer], older, newer.date);
    SingleGroup(rows, older);
    SingleGroup(rows, newer);
    assert [older.date, newer.date][..1] == [older.date];
    assert Render([older.date], rows) == Group(rows, older.date);
  }

  lemma InsertAfter(older: string, newer: string)
    requires LexLess(older, newer)
    ensures newer != older && InsertKey(newer, [older]) == [older, newer]
  {
    LexLessIrreflexive(older);
    if LexLess(newer, older) {
      LexLessTransitive(older, newer, older);
    }
    assert [older][1..] == [];
  }

  /** Two rows of the same date: one header, then both lines in frame order. */
  lemma SameDateLayout(first: Row, second: Row)
    requires first.date == second.date
    ensures Render(GroupKeys([first, second]), [first, second]) ==
            first.date + ":" + "\n" + first.text + "\n" + second.text
  {
    var rows := [first, second];
    assert rows[1..] == [second] && rows[..1] == [first];
    assert GroupKeys([second]) == [first.date];
    assert GroupKeys(rows) == [first.date];
    RowsOnOne(first, first.date);
    RowsOnSnoc([first], second, first.date);
    LinesSnoc([], first);
    assert [] + [first] == [first];
    LinesSnoc([first], second);
    assert Render([first.date], rows) == Group(rows, first.date);
    Assoc(first.date + ":", "\n", first.text);
    Assoc(first.date + ":" + "\n" + first.text, "\n", second.text);
    Assoc(first.date + ":", "\n" + first.text, "\n" + second.text);
  }
}
