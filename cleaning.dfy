/**
 * `clean_tweet`: the three regular-expression substitutions applied to a
 * tweet's text, written as scanners with the semantics of Python's
 * `re.sub` (leftmost match first, greedy, matches do not overlap, scanning
 * resumes after each match).
 */
module TweetCleaning {
  import opened Text

  /** `r"http\S+"` and `r"www.\S+"` (the `.` matches any character but a newline). */
  datatype Pattern = Http | Www

  /** A match of the pattern starts at the first character of `s`. */
  predicate TokenAt(p: Pattern, s: string)
  {
    && |s| >= 5
    && !IsSpace(s[4])
    && match p
       case Http => s[0] == 'h' && s[1] == 't' && s[2] == 't' && s[3] == 'p'
       case Www => s[0] == 'w' && s[1] == 'w' && s[2] == 'w' && s[3] != '\n'
  }

  /** No match of the pattern starts anywhere in `s`. */
  predicate NoToken(p: Pattern, s: string)
  {
    forall i :: 0 <= i < |s| ==> !TokenAt(p, s[i..])
  }

  /** Length of the leading run of non-whitespace characters. */
  function NonSpaceRun(s: string): (n: nat)
    ensures n <= |s|
    ensures forall i :: 0 <= i < n ==> !IsSpace(s[i])
    ensures n < |s| ==> IsSpace(s[n])
  {
    if s == [] || IsSpace(s[0]) then 0 else 1 + NonSpaceRun(s[1..])
  }

  /** Length of the leading run of whitespace characters. */
  function SpaceRun(s: string): (n: nat)
    ensures n <= |s|
    ensures forall i :: 0 <= i < n ==> IsSpace(s[i])
    ensures n < |s| ==> !IsSpace(s[n])
  {
    if s == [] || !IsSpace(s[0]) then 0 else 1 + SpaceRun(s[1..])
  }

  /**
   * Where a match starting at the head of `s` ends: four fixed characters,
   * then `\S+` taken greedily, that is up to the next whitespace.
   */
  function TokenEnd(p: Pattern, s: string): (e: nat)
    requires TokenAt(p, s)
    ensures 5 <= e <= |s|
    ensures forall i :: 4 <= i < e ==> !IsSpace(s[i])
    ensures e < |s| ==> IsSpace(s[e])
  {
    4 + NonSpaceRun(s[4..])
  }

  /** `re.sub(pattern, "", s)`. */
  function Strip(p: Pattern, s: string): string
    decreases |s|
  {
    if s == [] then []
    else if TokenAt(p, s) then Strip(p, s[TokenEnd(p, s)..])
    else [s[0]] + Strip(p, s[1..])
  }

  /** `re.sub(r"\s+", " ", s)`. */
  function Collapse(s: string): string
    decreases |s|
  {
    if s == [] then []
    else if IsSpace(s[0]) then " " + Collapse(s[SpaceRun(s)..])
    else [s[0]] + Collapse(s[1..])
  }

  /** `clean_tweet`. */
  function CleanTweet(s: string): string
  {
    Collapse(Strip(Www, Strip(Http, s)))
  }

  /** Every whitespace character is a plain space and no two whitespace characters touch. */
  predicate Collapsed(s: string)
  {
    && (forall i :: 0 <= i < |s| && IsSpace(s[i]) ==> s[i] == ' ')
    && (forall i :: 0 <= i < |s| - 1 && IsSpace(s[i]) ==> !IsSpace(s[i + 1]))
  }

  /** The non-whitespace characters of `s`, in order. */
  function NonSpace(s: string): string
  {
    if s == [] then [] else (if IsSpace(s[0]) then [] else [s[0]]) + NonSpace(s[1..])
  }

  // ---------------------------------------------------------------------
  // The substitutions delete, they never insert

  /** Removing matches of either pattern only deletes characters. */
  lemma {:induction false} StripIsSubsequence(p: Pattern, s: string)
    ensures IsSubsequence(Strip(p, s), s)
    decreases |s|
  {
    if s != [] {
      if TokenAt(p, s) {
        var e := TokenEnd(p, s);
        StripIsSubsequence(p, s[e..]);
        SubsequenceOfSuffix(Strip(p, s), s, e);
      } else {
        StripIsSubsequence(p, s[1..]);
      }
    }
  }

  lemma StripShrinks(p: Pattern, s: string)
    ensures |Strip(p, s)| <= |s|
  {
    StripIsSubsequence(p, s);
    SubsequenceLength(Strip(p, s), s);
  }

  // ---------------------------------------------------------------------
  // How the head of a substitution's output relates to the head of its input

  datatype Step = Remove(p: Pattern) | Squeeze

  function Apply(st: Step, s: string): string
  {
    match st
    case Remove(p) => Strip(p, s)
    case Squeeze => Collapse(s)
  }

  /** An output that starts with a non-whitespace character starts with the input's first character. */
  lemma HeadStep(st: Step, u: string)
    ensures Apply(st, u) != [] && !IsSpace(Apply(st, u)[0]) ==>
              u != [] && Apply(st, u)[0] == u[0] && Apply(st, u)[1..] == Apply(st, u[1..])
  {
    match st
    case Remove(p) =>
      if u != [] && TokenAt(p, u) {
        var v := u[TokenEnd(p, u)..];
        assert Strip(p, u) == Strip(p, v);
        if v != [] {
          assert IsSpace(v[0]) && !TokenAt(p, v);
          assert Strip(p, v) == [v[0]] + Strip(p, v[1..]);
        }
      }
    case Squeeze =>
  }

  /** A non-whitespace prefix of the output is copied from the input unchanged. */
  lemma {:induction false} HeadAgree(st: Step, u: string, k: nat)
    requires k <= |Apply(st, u)|
    requires forall i :: 0 <= i < k ==> !IsSpace(Apply(st, u)[i])
    ensures k <= |u| && Apply(st, u[k..]) == Apply(st, u)[k..]
    ensures forall i :: 0 <= i < k ==> u[i] == Apply(st, u)[i]
    decreases k
  {
    if k == 0 {
      assert u[0..] == u;
    } else {
      var r := Apply(st, u);
      HeadStep(st, u);
      var v := u[1..];
      var r' := Apply(st, v);
      assert r' == r[1..];
      assert forall i :: 0 <= i < k - 1 ==> !IsSpace(r'[i]) by {
        forall i | 0 <= i < k - 1 ensures !IsSpace(r'[i]) {
          assert r'[i] == r[i + 1];
        }
      }
      HeadAgree(st, v, k - 1);
      assert v[k - 1..] == u[k..];
      assert r'[k - 1..] == r[k..];
      forall i | 0 <= i < k ensures u[i] == r[i] {
        if i > 0 {
          assert u[i] == v[i - 1] && r[i] == r'[i - 1];
        }
      }
    }
  }

  /** No substitution creates an `http` match where the input had none. */
  lemma HttpNotCreated(st: Step, u: string)
    ensures TokenAt(Http, Apply(st, u)) ==> TokenAt(Http, u)
  {
    var r := Apply(st, u);
    if TokenAt(Http, r) {
      assert !IsSpace('h') && !IsSpace('t') && !IsSpace('p');
      HeadAgree(st, u, 5);
    }
  }

  /** Removing matches never assembles a new `www` match. */
  lemma WwwNotCreatedByStrip(p: Pattern, u: string)
    ensures TokenAt(Www, Strip(p, u)) ==> TokenAt(Www, u)
  {
    var r := Strip(p, u);
    if TokenAt(Www, r) {
      assert !IsSpace('w');
      HeadAgree(Remove(p), u, 3);
      var v := u[3..];
      if TokenAt(p, v) {
        assert u[3] == v[0] && u[4] == v[1];
      } else {
        assert Strip(p, v) == [v[0]] + Strip(p, v[1..]);
        HeadStep(Remove(p), v[1..]);
        assert u[3] == v[0] && u[4] == v[1];
      }
    }
  }

  lemma SuffixNoToken(p: Pattern, u: string, j: nat)
    requires j <= |u| && NoToken(p, u)
    ensures NoToken(p, u[j..])
  {
    forall i | 0 <= i < |u[j..]| ensures !TokenAt(p, u[j..][i..]) {
      assert u[j..][i..] == u[j + i..];
    }
  }

  /** The output of one step is a one-character-or-empty prefix followed by the step applied to a suffix. */
  lemma ApplyUnfold(st: Step, u: string) returns (pre: string, j: nat)
    requires u != []
    ensures 1 <= j <= |u| && |pre| <= 1
    ensures Apply(st, u) == pre + Apply(st, u[j..])
    ensures st.Remove? && TokenAt(st.p, u) ==> pre == [] && j == TokenEnd(st.p, u)
    ensures st.Squeeze? && IsSpace(u[0]) ==> pre == " " && j == SpaceRun(u)
    ensures (st.Remove? && !TokenAt(st.p, u)) || (st.Squeeze? && !IsSpace(u[0])) ==>
              pre == [u[0]] && j == 1
  {
    match st
    case Remove(p) =>
      if TokenAt(p, u) {
        pre, j := [], TokenEnd(p, u);
      } else {
        pre, j := [u[0]], 1;
      }
    case Squeeze =>
      if IsSpace(u[0]) {
        pre, j := " ", SpaceRun(u);
      } else {
        pre, j := [u[0]], 1;
      }
  }

  /** A text without matches, preceded by at most one character that does not start one, has none. */
  lemma NoTokenPrepend(p: Pattern, pre: string, rest: string)
    requires |pre| <= 1 && NoToken(p, rest)
    requires pre != [] ==> !TokenAt(p, pre + rest)
    ensures NoToken(p, pre + rest)
  {
    var r := pre + rest;
    forall i | 0 <= i < |r| ensures !TokenAt(p, r[i..]) {
      if i >= |pre| {
        assert r[i..] == rest[i - |pre|..];
      }
    }
  }

  /** A text without `http` matches keeps none through any of the substitutions. */
  lemma {:induction false} NoHttpPreserved(st: Step, u: string)
    requires NoToken(Http, u)
    ensures NoToken(Http, Apply(st, u))
    decreases |u|
  {
    if u != [] {
      var pre, j := ApplyUnfold(st, u);
      SuffixNoToken(Http, u, j);
      NoHttpPreserved(st, u[j..]);
      assert u[0..] == u;
      HttpNotCreated(st, u);
      NoTokenPrepend(Http, pre, Apply(st, u[j..]));
    }
  }

  // ---------------------------------------------------------------------
  // Removing matches leaves none, and is the identity exactly when there are none

  lemma StripCreatesNone(p: Pattern, u: string)
    ensures TokenAt(p, Strip(p, u)) ==> TokenAt(p, u)
  {
    match p
    case Http => HttpNotCreated(Remove(Http), u);
    case Www => WwwNotCreatedByStrip(Www, u);
  }

  /** After `re.sub(pattern, "", s)` no match of the pattern is left. */
  lemma {:induction false} StripLeavesNoToken(p: Pattern, s: string)
    ensures NoToken(p, Strip(p, s))
    decreases |s|
  {
    if s != [] {
      var pre, j := ApplyUnfold(Remove(p), s);
      StripLeavesNoToken(p, s[j..]);
      StripCreatesNone(p, s);
      NoTokenPrepend(p, pre, Strip(p, s[j..]));
    }
  }

  /** A text without matches is left as it is. */
  lemma {:induction false} StripIdentity(p: Pattern, s: string)
    requires NoToken(p, s)
    ensures Strip(p, s) == s
    decreases |s|
  {
    if s != [] {
      assert s[0..] == s;
      SuffixNoToken(p, s, 1);
      StripIdentity(p, s[1..]);
    }
  }

  /** Removing matches is idempotent, and changes a text exactly when it holds a match. */
  lemma StripFixpoint(p: Pattern, s: string)
    ensures Strip(p, Strip(p, s)) == Strip(p, s)
    ensures Strip(p, s) == s <==> NoToken(p, s)
  {
    StripLeavesNoToken(p, s);
    StripIdentity(p, Strip(p, s));
    if NoToken(p, s) {
      StripIdentity(p, s);
    }
  }

  // ---------------------------------------------------------------------
  // Collapsing whitespace

  lemma {:induction false} CollapseHead(s: string)
    ensures Collapse(s) == [] <==> s == []
    ensures s != [] ==> (IsSpace(Collapse(s)[0]) <==> IsSpace(s[0]))
  {
    if s != [] && !IsSpace(s[0]) {
      assert Collapse(s)[0] == s[0];
    }
  }

  /** Every whitespace run becomes one plain space. */
  lemma {:induction false} CollapseCollapsed(s: string)
    ensures Collapsed(Collapse(s))
    decreases |s|
  {
    if s != [] {
      var r := Collapse(s);
      var pre, j := ApplyUnfold(Squeeze, s);
      var rest := Collapse(s[j..]);
      CollapseCollapsed(s[j..]);
      CollapseHead(s[j..]);
      assert r == pre + rest;
      if IsSpace(s[0]) {
        assert j == SpaceRun(s);
        assert rest != [] ==> !IsSpace(rest[0]);
      }
      forall i | 0 <= i < |r| && IsSpace(r[i]) ensures r[i] == ' ' {
        if i > 0 {
          assert r[i] == rest[i - 1];
        }
      }
      forall i | 0 <= i < |r| - 1 && IsSpace(r[i]) ensures !IsSpace(r[i + 1]) {
        if i > 0 {
          assert r[i] == rest[i - 1] && r[i + 1] == rest[i];
        }
      }
    }
  }

  /** A collapsed text is left as it is. */
  lemma {:induction false} CollapseIdentity(s: string)
    requires Collapsed(s)
    ensures Collapse(s) == s
    decreases |s|
  {
    if s != [] {
      assert Collapsed(s[1..]);
      CollapseIdentity(s[1..]);
      if IsSpace(s[0]) {
        assert SpaceRun(s) == 1;
      }
    }
  }

  /** Collapsing keeps every non-whitespace character, in order. */
  lemma {:induction false} CollapseKeepsNonSpace(s: string)
    ensures NonSpace(Collapse(s)) == NonSpace(s)
    decreases |s|
  {
    if s != [] {
      var pre, j := ApplyUnfold(Squeeze, s);
      CollapseKeepsNonSpace(s[j..]);
      assert Collapse(s) == pre + Collapse(s[j..]);
      NonSpaceAppend(pre, Collapse(s[j..]));
      if IsSpace(s[0]) {
        SpacesVanish(s, j);
      }
    }
  }

  lemma {:induction false} NonSpaceAppend(a: string, b: string)
    ensures NonSpace(a + b) == NonSpace(a) + NonSpace(b)
    decreases |a|
  {
    if a == [] {
      assert a + b == b;
    } else {
      assert (a + b)[1..] == a[1..] + b;
      NonSpaceAppend(a[1..], b);
    }
  }

  lemma {:induction false} SpacesVanish(s: string, j: nat)
    requires j <= |s| && forall i :: 0 <= i < j ==> IsSpace(s[i])
    ensures NonSpace(s) == NonSpace(s[j..])
    decreases j
  {
    if j > 0 {
      SpacesVanish(s[1..], j - 1);
      assert s[1..][j - 1..] == s[j..];
    }
  }

  // ---------------------------------------------------------------------
  // clean_tweet

  /**
   * The cleaned text has only plain spaces as whitespace, never two in a
   * row, and holds no `http` followed by a non-whitespace character.
   */
  lemma CleanTweetShape(s: string)
    ensures Collapsed(CleanTweet(s))
    ensures NoToken(Http, CleanTweet(s))
  {
    var a := Strip(Http, s);
    var b := Strip(Www, a);
    CollapseCollapsed(b);
    StripLeavesNoToken(Http, s);
    NoHttpPreserved(Remove(Www), a);
    NoHttpPreserved(Squeeze, b);
  }

  /** The cleaned text is empty exactly when the two removals left nothing. */
  lemma CleanTweetEmpty(s: string)
    ensures CleanTweet(s) == [] <==> Strip(Www, Strip(Http, s)) == []
  {
    CollapseHead(Strip(Www, Strip(Http, s)));
  }

  /** A text too short to hold a match is left as it is. */
  lemma ShortStrip(p: Pattern, s: string)
    requires |s| < 5
    ensures Strip(p, s) == s
  {
    StripIdentity(p, s);
  }

  lemma {:induction false} NonSpaceRunIs(s: string, n: nat)
    requires n <= |s| && forall i :: 0 <= i < n ==> !IsSpace(s[i])
    requires n < |s| ==> IsSpace(s[n])
    ensures NonSpaceRun(s) == n
    decreases n
  {
    if n > 0 {
      assert !IsSpace(s[0]);
      NonSpaceRunIs(s[1..], n - 1);
    }
  }

  lemma {:induction false} SpaceRunIs(s: string, n: nat)
    requires n <= |s| && forall i :: 0 <= i < n ==> IsSpace(s[i])
    requires n < |s| ==> !IsSpace(s[n])
    ensures SpaceRun(s) == n
    decreases n
  {
    if n > 0 {
      assert IsSpace(s[0]);
      SpaceRunIs(s[1..], n - 1);
    }
  }

  /** Non-empty whitespace-only text cleans to a single space, so it is kept. */
  lemma BlankCleansToSpace(s: string)
    requires s != [] && forall i :: 0 <= i < |s| ==> IsSpace(s[i])
    ensures CleanTweet(s) == " "
  {
    assert NoToken(Http, s) && NoToken(Www, s) by {
      forall i | 0 <= i < |s| ensures !TokenAt(Http, s[i..]) && !TokenAt(Www, s[i..]) {
        assert IsSpace(s[i..][0]);
      }
    }
    StripIdentity(Http, s);
    StripIdentity(Www, s);
    assert IsSpace(s[0]);
    SpaceRunIs(s, |s|);
    assert s[|s|..] == [];
    assert Collapse(s) == " " + Collapse([]);
  }

  /** A tweet that is nothing but one link cleans to the empty text, so it is dropped. */
  lemma LinkOnlyCleansToEmpty(s: string)
    requires TokenAt(Http, s) && forall i :: 0 <= i < |s| ==> !IsSpace(s[i])
    ensures CleanTweet(s) == []
  {
    assert forall i :: 0 <= i < |s| - 4 ==> !IsSpace(s[4..][i]);
    NonSpaceRunIs(s[4..], |s| - 4);
    assert TokenEnd(Http, s) == |s| && s[|s|..] == [];
    assert Strip(Http, s) == [];
  }

  /** A bare `http` with nothing after it is not a match and stays. */
  lemma CleanTweetKeepsBareHttp()
    ensures CleanTweet("a http") == "a http"
  {
    var s := "a http";
    assert Strip(Http, s) == s by {
      assert !TokenAt(Http, s) && !TokenAt(Http, s[1..]);
      ShortStrip(Http, s[2..]);
      assert s[1..][1..] == s[2..];
    }
    assert Strip(Www, s) == s by {
      assert !TokenAt(Www, s) && !TokenAt(Www, s[1..]);
      ShortStrip(Www, s[2..]);
      assert s[1..][1..] == s[2..];
    }
    assert Collapsed(s);
    CollapseIdentity(s);
  }

  /**
   * The `.` of `www.\S+` does not match a newline, so `"www\nx"` survives
   * the removals; collapsing whitespace then turns it into `"www x"`, text
   * that the `www` pattern would match: the cleaned text can hold a `www`
   * match, unlike an `http` one.
   */
  lemma WwwCanReappear()
    ensures CleanTweet("www\nx") == "www x"
    ensures TokenAt(Www, CleanTweet("www\nx"))
  {
    NewlineBlocksWww();
    NewlineCollapses();
  }

  lemma NewlineBlocksWww()
    ensures Strip(Http, "www\nx") == "www\nx" && Strip(Www, "www\nx") == "www\nx"
  {
    var a := "www\nx";
    assert !TokenAt(Http, a) && !TokenAt(Www, a);
    ShortStrip(Http, a[1..]);
    ShortStrip(Www, a[1..]);
    assert a == [a[0]] + a[1..];
  }

  lemma NewlineCollapses()
    ensures Collapse("www\nx") == "www x"
  {
    var a := "www\nx";
    var t := a[3..];
    SpaceRunIs(t, 1);
    assert Collapse(t[1..]) == "x";
    assert Collapse(t) == " x";
    assert a[2..][1..] == t && a[1..][1..] == a[2..];
    assert Collapse(a[2..]) == "w" + Collapse(t);
    assert Collapse(a[1..]) == "w" + Collapse(a[2..]);
    assert Collapse(a) == "w" + Collapse(a[1..]);
  }
}
