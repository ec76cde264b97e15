/** The string helpers of the echo service (util.go): finding a separator,
    cutting a string at its first occurrence, splitting a query string on
    `&`, and turning `KEY=VALUE` lists into last-write-wins maps. */
module Util {

  /** `sep` occurs in `text` starting at position `i`. */
  predicate OccursAt(text: string, sep: string, i: int) {
    0 <= i && i + |sep| <= |text| && text[i..i + |sep|] == sep
  }

  /** `sep` occurs somewhere in `text`. */
  predicate Contains(text: string, sep: string) {
    exists i | 0 <= i <= |text| :: OccursAt(text, sep, i)
  }

  /** The first position at or after `from` where `sep` occurs, or -1. */
  function IndexFrom(text: string, sep: string, from: nat): (r: int)
    requires from <= |text|
    ensures r == -1 || (from <= r && OccursAt(text, sep, r))
    ensures r == -1 ==> forall j :: from <= j ==> !OccursAt(text, sep, j)
    ensures r != -1 ==> forall j :: from <= j < r ==> !OccursAt(text, sep, j)
    decreases |text| - from
  {
    if from + |sep| > |text| then -1
    else if text[from..from + |sep|] == sep then from
    else IndexFrom(text, sep, from + 1)
  }

  /** Go's `strings.Index`: the position of the first occurrence of `sep`
      in `text`, or -1 when there is none; 0 for an empty `sep`. */
  function Index(text: string, sep: string): (r: int)
    ensures r == -1 <==> !Contains(text, sep)
    ensures r != -1 ==> OccursAt(text, sep, r)
    ensures r != -1 ==> forall j :: 0 <= j < r ==> !OccursAt(text, sep, j)
  {
    IndexFrom(text, sep, 0)
  }

  /** `split` (util.go): the text before the first occurrence of `separator`
      and the text after it; two empty strings when it does not occur. */
  function Split(text: string, separator: string): (r: (string, string))
    ensures !Contains(text, separator) ==> r == ("", "")
    ensures Contains(text, separator) ==> r.0 + separator + r.1 == text
    ensures Contains(text, separator) ==> !Contains(r.0, separator) || separator == ""
  {
    var index := Index(text, separator);
    if index < 0 then ("", "")
    else
      var before := text[..index];
      var after := text[index + |separator|..];
      assert before + separator + after == text by {
        CutAtIndex(text, separator, index);
      }
      assert separator != "" ==> !Contains(before, separator) by {
        NoOccurrenceBefore(text, separator, index);
      }
      (before, after)
  }

  /** Go's `strings.Split` for a non-empty separator: the pieces of `s`
      between the occurrences of `sep`, left to right. Joined back with
      `sep` they give `s`, and no piece holds `sep`. */
  function SplitAll(s: string, sep: string): (r: seq<string>)
    requires sep != ""
    ensures |r| >= 1
    ensures Join(r, sep) == s
    ensures forall k :: 0 <= k < |r| ==> !Contains(r[k], sep)
    decreases |s|
  {
    var i := Index(s, sep);
    if i < 0 then [s]
    else
      var rest := SplitAll(s[i + |sep|..], sep);
      CutAtIndex(s, sep, i);
      NoOccurrenceBefore(s, sep, i);
      var r := [s[..i]] + rest;
      assert r[0] == s[..i] && r[1..] == rest;
      r
  }

  /** The inverse of `SplitAll`: the pieces glued back together with `sep`
      in between (Go's `strings.Join`). */
  function Join(pieces: seq<string>, sep: string): string
    requires |pieces| >= 1
  {
    if |pieces| == 1 then pieces[0]
    else pieces[0] + sep + Join(pieces[1..], sep)
  }

  /** A key/value pair as `split` produces it. */
  type Pair = (string, string)

  /** The pairs of a sequence of `KEY=VALUE` entries, in order. */
  function PairsOf(entries: seq<string>): seq<Pair>
  {
    seq(|entries|, i requires 0 <= i < |entries| => Split(entries[i], "="))
  }

  /** The map obtained by writing the pairs in order, each write replacing
      any earlier value for the same key. */
  function Collect(pairs: seq<Pair>): map<string, string>
  {
    if pairs == [] then map[]
    else Collect(pairs[..|pairs| - 1])[pairs[|pairs| - 1].0 := pairs[|pairs| - 1].1]
  }

  /** The keys written by `pairs`. */
  function KeysOf(pairs: seq<Pair>): set<string>
  {
    set i | 0 <= i < |pairs| :: pairs[i].0
  }

  /** Position `i` holds the last pair of `pairs` with its key. */
  predicate IsLastFor(pairs: seq<Pair>, i: int)
    requires 0 <= i < |pairs|
  {
    forall j :: i < j < |pairs| ==> pairs[j].0 != pairs[i].0
  }

  /** `m` holds, for every key written by `pairs`, the value of the last
      pair with that key, and no other key. */
  predicate LastWriteWins(pairs: seq<Pair>, m: map<string, string>)
  {
    && m.Keys == KeysOf(pairs)
    && forall i :: 0 <= i < |pairs| && IsLastFor(pairs, i) ==> pairs[i].0 in m && m[pairs[i].0] == pairs[i].1
  }

  /** Writing one more entry's pair extends the collected map by that pair. */
  lemma CollectStep(entries: seq<string>, i: int)
    requires 0 <= i < |entries|
    ensures Collect(PairsOf(entries[..i + 1]))
         == Collect(PairsOf(entries[..i]))[Split(entries[i], "=").0 := Split(entries[i], "=").1]
  {
    var pairs := PairsOf(entries[..i + 1]);
    assert pairs[..i] == PairsOf(entries[..i]);
    assert pairs[i] == Split(entries[i], "=");
  }

  /** What `splitParams` returns for `query`. */
  function ParamsOf(query: string): map<string, string>
  {
    if |query| < 1 then map[] else Collect(PairsOf(SplitAll(query, "&")))
  }

  /** What `splitEnv` returns for the environment list `environ`. */
  function EnvOf(environ: seq<string>): map<string, string>
  {
    Collect(PairsOf(environ))
  }

  /** `splitParams` (util.go): the query's `&`-segments, each cut at its
      first `=`, written into a map in order. */
  method SplitParams(query: string) returns (res: map<string, string>)
    ensures res == ParamsOf(query)
    ensures |query| < 1 ==> res == map[]
    ensures |query| >= 1 ==> LastWriteWins(PairsOf(SplitAll(query, "&")), res)
  {
    res := map[];
    if |query| < 1 {
      return res;
    }
    ParamsOfLastWriteWins(query);
    var segments := SplitAll(query, "&");
    for i := 0 to |segments|
      invariant res == Collect(PairsOf(segments[..i]))
    {
      var (key, val) := Split(segments[i], "=");
      CollectStep(segments, i);
      res := res[key := val];
    }
    assert segments[..|segments|] == segments;
  }

  /** `splitEnv` (util.go), with the process environment passed in as
      `environ`: each entry cut at its first `=`, written into a map in order. */
  method SplitEnv(environ: seq<string>) returns (env: map<string, string>)
    ensures env == EnvOf(environ)
    ensures LastWriteWins(PairsOf(environ), env)
  {
    EnvOfLastWriteWins(environ);
    env := map[];
    for i := 0 to |environ|
      invariant env == Collect(PairsOf(environ[..i]))
    {
      var (key, val) := Split(environ[i], "=");
      CollectStep(environ, i);
      env := env[key := val];
    }
    assert environ[..|environ|] == environ;
  }

  // ---------------------------------------------------------------------
  // Properties of `split`

  /** The text before the cut, followed by the separator, holds exactly one
      occurrence of the separator, and it is at its end: the cut is at the
      first occurrence. */
  lemma SplitAtFirstOccurrence(text: string, separator: string)
    requires Contains(text, separator)
    ensures var (before, _) := Split(text, separator);
      forall j :: OccursAt(before + separator, separator, j) <==> j == |before|
  {
    var (before, after) := Split(text, separator);
    var index := Index(text, separator);
    assert |before| == index;
    forall j | OccursAt(before + separator, separator, j)
      ensures j == |before|
    {
      assert (before + separator)[j..j + |separator|] == text[j..j + |separator|];
      assert OccursAt(text, separator, j);
    }
    assert (before + separator)[|before|..] == separator;
  }

  /** With an empty separator the first occurrence is at 0: everything
      goes to the part after the cut. */
  lemma SplitEmptySeparator(text: string)
    ensures Split(text, "") == ("", text)
  {
    assert OccursAt(text, "", 0);
  }

  /** A one-character separator that is absent is not found. */
  lemma CharIndexAbsent(text: string, c: char)
    requires c !in text
    ensures Index(text, [c]) == -1
  {
    forall j | 0 <= j < |text|
      ensures !OccursAt(text, [c], j)
    {
      assert text[j] in text;
    }
  }

  /** A one-character separator is found right after a key free of it. */
  lemma CharIndexAfter(key: string, c: char, val: string)
    requires c !in key
    ensures Index(key + [c] + val, [c]) == |key|
  {
    var text := key + [c] + val;
    assert OccursAt(text, [c], |key|);
    forall j | 0 <= j < |key|
      ensures !OccursAt(text, [c], j)
    {
      assert text[j] == key[j];
    }
  }

  /** Cutting at the first occurrence of a one-character separator gives
      back a key without it and a value that may hold it again. */
  lemma SplitCharRoundTrip(key: string, c: char, val: string)
    requires c !in key
    ensures Split(key + [c] + val, [c]) == (key, val)
  {
    var text := key + [c] + val;
    CharIndexAfter(key, c, val);
    assert text[..|key|] == key;
    assert text[|key| + 1..] == val;
  }

  /** An entry `A=B=C` is cut at its first `=`. */
  lemma SplitFirstEqualsOnly()
    ensures Split("A=B=C", "=") == ("A", "B=C")
  {
    SplitCharRoundTrip("A", '=', "B=C");
    assert "A" + ['='] + "B=C" == "A=B=C";
  }

  // ---------------------------------------------------------------------
  // Properties of `strings.Split`

  /** A string is the text before a found separator, the separator and
      the text after it. */
  lemma CutAtIndex(s: string, sep: string, i: int)
    requires OccursAt(s, sep, i)
    ensures s == s[..i] + sep + s[i + |sep|..]
  {
    assert s[i..] == s[i..i + |sep|] + s[i + |sep|..];
    assert s == s[..i] + s[i..];
  }

  /** Before the first occurrence of a non-empty separator, the text holds
      no occurrence of it. */
  lemma NoOccurrenceBefore(s: string, sep: string, i: int)
    requires 0 <= i <= |s|
    requires forall j :: 0 <= j < i ==> !OccursAt(s, sep, j)
    ensures sep != "" ==> !Contains(s[..i], sep)
  {
    forall j | OccursAt(s[..i], sep, j)
      ensures OccursAt(s, sep, j)
    {
      assert s[..i][j..j + |sep|] == s[j..j + |sep|];
    }
  }

  // ---------------------------------------------------------------------
  // Properties of last-write-wins collection

  /** The keys of a prefix extended by one pair. */
  lemma KeysOfSnoc(pairs: seq<Pair>)
    requires pairs != []
    ensures KeysOf(pairs) == KeysOf(pairs[..|pairs| - 1]) + {pairs[|pairs| - 1].0}
  {
    var init := pairs[..|pairs| - 1];
    forall k | k in KeysOf(pairs)
      ensures k in KeysOf(init) + {pairs[|pairs| - 1].0}
    {
      var i :| 0 <= i < |pairs| && pairs[i].0 == k;
      if i < |pairs| - 1 {
        assert init[i].0 == k;
      }
    }
    forall k | k in KeysOf(init)
      ensures k in KeysOf(pairs)
    {
      var i :| 0 <= i < |init| && init[i].0 == k;
      assert pairs[i].0 == k;
    }
  }

  /** `Collect` keeps, for each key written, the last value written for it,
      and holds no other key. */
  lemma {:induction false} CollectLastWriteWins(pairs: seq<Pair>)
    ensures LastWriteWins(pairs, Collect(pairs))
    decreases |pairs|
  {
    if pairs != [] {
      var n := |pairs|;
      var init := pairs[..n - 1];
      CollectLastWriteWins(init);
      KeysOfSnoc(pairs);
      var m := Collect(pairs);
      forall i | 0 <= i < n && IsLastFor(pairs, i)
        ensures pairs[i].0 in m && m[pairs[i].0] == pairs[i].1
      {
        if i < n - 1 {
          assert pairs[n - 1].0 != pairs[i].0;
          assert init[i] == pairs[i];
          assert IsLastFor(init, i);
        }
      }
    }
  }

  /** Distinct keys are never more than the pairs that write them. */
  lemma {:induction false} KeysOfSize(pairs: seq<Pair>)
    ensures |KeysOf(pairs)| <= |pairs|
    decreases |pairs|
  {
    if pairs != [] {
      KeysOfSnoc(pairs);
      KeysOfSize(pairs[..|pairs| - 1]);
    }
  }

  /** The collected map has at most one entry per pair. */
  lemma CollectSize(pairs: seq<Pair>)
    ensures |Collect(pairs)| <= |pairs|
  {
    CollectLastWriteWins(pairs);
    KeysOfSize(pairs);
    assert |Collect(pairs)| == |Collect(pairs).Keys|;
  }

  // ---------------------------------------------------------------------
  // Properties of `splitParams`

  /** An empty query string gives the empty map. */
  lemma ParamsOfEmpty()
    ensures ParamsOf("") == map[]
  {
  }

  /** For a non-empty query, the keys are exactly those `split` gives for
      the segments, each with the value of the last segment giving it, and
      there are no more entries than segments. */
  lemma ParamsOfLastWriteWins(query: string)
    requires |query| >= 1
    ensures LastWriteWins(PairsOf(SplitAll(query, "&")), ParamsOf(query))
    ensures |ParamsOf(query)| <= |SplitAll(query, "&")|
  {
    CollectLastWriteWins(PairsOf(SplitAll(query, "&")));
    CollectSize(PairsOf(SplitAll(query, "&")));
  }

  /** `strings.Split` of a string free of a one-character separator is
      that string alone. */
  lemma SplitAllCharAbsent(text: string, c: char)
    requires c !in text
    ensures SplitAll(text, [c]) == [text]
  {
    CharIndexAbsent(text, c);
  }

  /** `strings.Split` cuts off the first piece at the first separator. */
  lemma SplitAllCharAfter(key: string, c: char, rest: string)
    requires c !in key
    ensures SplitAll(key + [c] + rest, [c]) == [key] + SplitAll(rest, [c])
  {
    var text := key + [c] + rest;
    CharIndexAfter(key, c, rest);
    assert text[..|key|] == key;
    assert text[|key| + 1..] == rest;
  }

  /** Two pieces joined by a one-character separator free of both split
      back into the two. */
  lemma SplitAllCharTwo(first: string, c: char, second: string)
    requires c !in first && c !in second
    ensures SplitAll(first + [c] + second, [c]) == [first, second]
  {
    SplitAllCharAfter(first, c, second);
    SplitAllCharAbsent(second, c);
  }

  /** Two entries are written in order, the second one last. */
  lemma CollectTwo(first: string, second: string)
    ensures Collect(PairsOf([first, second]))
         == map[Split(first, "=").0 := Split(first, "=").1][Split(second, "=").0 := Split(second, "=").1]
  {
    var pairs := PairsOf([first, second]);
    assert pairs[0] == Split(first, "=") && pairs[1] == Split(second, "=");
    assert pairs[..1] == [pairs[0]];
    assert pairs[..1][..0] == [];
    assert Collect(pairs[..1]) == Collect([])[pairs[0].0 := pairs[0].1];
    assert Collect(pairs) == Collect(pairs[..1])[pairs[1].0 := pairs[1].1];
  }

  /** A repeated parameter keeps its last value. */
  lemma ParamsRepeatedKey()
    ensures ParamsOf("a=1&a=2") == map["a" := "2"]
  {
    var first, second := "a" + ['='] + "1", "a" + ['='] + "2";
    SplitAllCharTwo(first, '&', second);
    assert first + ['&'] + second == "a=1&a=2";
    SplitCharRoundTrip("a", '=', "1");
    SplitCharRoundTrip("a", '=', "2");
    CollectTwo(first, second);
  }

  /** A segment without `=`, such as the two empty segments of `&`,
      contributes the entry `"" -> ""`. */
  lemma ParamsMalformedSegments()
    ensures ParamsOf("&") == map["" := ""]
  {
    assert SplitAll("&", "&") == ["", ""] by {
      assert "&" == "" + ['&'] + "";
      SplitAllCharAfter("", '&', "");
      SplitAllCharAbsent("", '&');
    }
    CharIndexAbsent("", '=');
    assert Split("", "=") == ("", "");
    CollectTwo("", "");
  }

  // ---------------------------------------------------------------------
  // Properties of `splitEnv`

  /** The environment map holds exactly the keys of the entries, each with
      the value of the last entry giving it. */
  lemma EnvOfLastWriteWins(environ: seq<string>)
    ensures LastWriteWins(PairsOf(environ), EnvOf(environ))
    ensures |EnvOf(environ)| <= |environ|
  {
    CollectLastWriteWins(PairsOf(environ));
    CollectSize(PairsOf(environ));
  }

  /** An entry is cut at its first `=`, and an entry without `=` lands
      under the empty key. */
  lemma EnvEntries()
    ensures EnvOf(["A=B=C", "NOEQ"]) == map["A" := "B=C", "" := ""]
  {
    SplitFirstEqualsOnly();
    var e := "NOEQ";
    CharIndexAbsent(e, '=');
    assert Split(e, "=") == ("", "");
    CollectTwo("A=B=C", e);
  }
}
