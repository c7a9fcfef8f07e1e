/**
 * `boost::split(tokens, str, boost::is_any_of(", "))` without token compression:
 * every ',' or ' ' ends a token, so adjacent delimiters yield empty tokens and the
 * empty string yields one empty token; and `boost::algorithm::join(tokens, ",")`.
 */
module TokenSplit {

  predicate IsDelimiter(c: char) {
    c == ',' || c == ' '
  }

  predicate NoDelimiter(t: string) {
    forall j :: 0 <= j < |t| ==> !IsDelimiter(t[j])
  }

  function DelimiterCount(s: string): nat {
    if s == [] then 0 else (if IsDelimiter(s[0]) then 1 else 0) + DelimiterCount(s[1..])
  }

  function Split(s: string): (r: seq<string>)
    ensures |r| > 0
    decreases |s|
  {
    if s == [] then [[]]
    else
      var rest := Split(s[1..]);
      if IsDelimiter(s[0]) then [[]] + rest else [[s[0]] + rest[0]] + rest[1..]
  }

  function Join(ts: seq<string>, sep: char): string
    decreases |ts|
  {
    if ts == [] then []
    else if |ts| == 1 then ts[0]
    else ts[0] + [sep] + Join(ts[1..], sep)
  }

  /** The input with every delimiter written as ','. */
  function Normalize(s: string): (r: string)
    decreases |s|
  {
    if s == [] then [] else [if IsDelimiter(s[0]) then ',' else s[0]] + Normalize(s[1..])
  }

  /** One token more than there are delimiters, and no token holds a delimiter. */
  lemma {:induction false} SplitShape(s: string)
    ensures |Split(s)| == DelimiterCount(s) + 1
    ensures forall i :: 0 <= i < |Split(s)| ==> NoDelimiter(Split(s)[i])
    decreases |s|
  {
    if s != [] {
      SplitShape(s[1..]);
      var rest := Split(s[1..]);
      if !IsDelimiter(s[0]) {
        var t := [s[0]] + rest[0];
        assert NoDelimiter(rest[0]);
        assert forall j :: 1 <= j < |t| ==> t[j] == rest[0][j - 1];
      }
    }
  }

  lemma JoinCons(c: char, ts: seq<string>, sep: char)
    requires |ts| > 0
    ensures Join([[c] + ts[0]] + ts[1..], sep) == [c] + Join(ts, sep)
  {
    var us := [[c] + ts[0]] + ts[1..];
    assert us[1..] == ts[1..];
  }

  /** Joining the tokens with ',' gives back the input, delimiters normalised to ','. */
  lemma {:induction false} JoinSplit(s: string)
    ensures Join(Split(s), ',') == Normalize(s)
    decreases |s|
  {
    if s != [] {
      JoinSplit(s[1..]);
      var rest := Split(s[1..]);
      if IsDelimiter(s[0]) {
        assert ([[]] + rest)[1..] == rest;
      } else {
        JoinCons(s[0], rest, ',');
      }
    }
  }

  lemma {:induction false} SplitToken(t: string)
    requires NoDelimiter(t)
    ensures Split(t) == [t]
    decreases |t|
  {
    if t != [] {
      assert !IsDelimiter(t[0]);
      assert NoDelimiter(t[1..]) by {
        forall j | 0 <= j < |t[1..]| ensures !IsDelimiter(t[1..][j]) {
          assert t[1..][j] == t[j + 1];
        }
      }
      SplitToken(t[1..]);
      assert t == [t[0]] + t[1..];
    }
  }

  lemma {:induction false} SplitTokenThenRest(t: string, u: string)
    requires NoDelimiter(t)
    ensures Split(t + [','] + u) == [t] + Split(u)
    decreases |t|
  {
    if t == [] {
      assert t + [','] + u == [','] + u;
      assert ([','] + u)[1..] == u;
    } else {
      var s := t + [','] + u;
      assert s[0] == t[0] && s[1..] == t[1..] + [','] + u;
      SplitTokenThenRest(t[1..], u);
      assert t == [t[0]] + t[1..];
    }
  }

  /** Splitting tokens joined with ',' gives the tokens back. */
  lemma {:induction false} SplitJoin(ts: seq<string>)
    requires |ts| > 0
    requires forall i :: 0 <= i < |ts| ==> NoDelimiter(ts[i])
    ensures Split(Join(ts, ',')) == ts
    decreases |ts|
  {
    if |ts| == 1 {
      SplitToken(ts[0]);
    } else {
      SplitJoin(ts[1..]);
      SplitTokenThenRest(ts[0], Join(ts[1..], ','));
      assert ts == [ts[0]] + ts[1..];
    }
  }
}
