/** The shader-text preprocessor of src/utils.ts: while the pattern
    `\$<(?<key>[a-zA-Z0-9_]*)>` matches, replace its leftmost match by the value
    the replacement map holds for the key. */
module Preprocessor {

  datatype Option<T> = None | Some(value: T)

  /** A character of the class `[a-zA-Z0-9_]`. */
  predicate IsKeyChar(c: char)
  {
    ('a' <= c <= 'z') || ('A' <= c <= 'Z') || ('0' <= c <= '9') || c == '_'
  }

  /** The first index at or after j that does not hold a key character, or |s|:
      where the greedy `[a-zA-Z0-9_]*` starting at j stops. */
  function KeyEnd(s: string, j: nat): (e: nat)
    requires j <= |s|
    ensures j <= e <= |s|
    ensures forall k :: j <= k < e ==> IsKeyChar(s[k])
    ensures e < |s| ==> !IsKeyChar(s[e])
    decreases |s| - j
  {
    if j == |s| || !IsKeyChar(s[j]) then j else KeyEnd(s, j + 1)
  }

  /** The pattern matches at position i, as the regular-expression engine decides it:
      `$<`, the greedy run of key characters, then `>`. The class excludes `>`, so no
      backtracking into the run can produce another match. */
  predicate MatchesAt(s: string, i: nat)
  {
    i + 1 < |s| && s[i] == '$' && s[i + 1] == '<' &&
    KeyEnd(s, i + 2) < |s| && s[KeyEnd(s, i + 2)] == '>'
  }

  /** The pattern's meaning written directly: `$<`, any run of key characters, `>`. */
  ghost predicate PatternAt(s: string, i: nat)
  {
    i + 1 < |s| && s[i] == '$' && s[i + 1] == '<' &&
    exists e :: i + 2 <= e < |s| && s[e] == '>' &&
      forall k :: i + 2 <= k < e ==> IsKeyChar(s[k])
  }

  lemma MatchesAtIsPattern(s: string, i: nat)
    ensures MatchesAt(s, i) <==> PatternAt(s, i)
  {
    if PatternAt(s, i) {
      var e :| i + 2 <= e < |s| && s[e] == '>' && forall k :: i + 2 <= k < e ==> IsKeyChar(s[k]);
      KeyEndIsFirstNonKey(s, i + 2, e);
    }
  }

  /** The greedy run stops exactly at the first non-key character. */
  lemma KeyEndIsFirstNonKey(s: string, j: nat, e: nat)
    requires j <= e < |s| && !IsKeyChar(s[e])
    requires forall k :: j <= k < e ==> IsKeyChar(s[k])
    ensures KeyEnd(s, j) == e
    decreases e - j
  {
    if j < e {
      KeyEndIsFirstNonKey(s, j + 1, e);
    }
  }

  /** No match anywhere in s. */
  predicate NoPlaceholder(s: string)
  {
    forall i :: 0 <= i < |s| ==> !MatchesAt(s, i)
  }

  /** A match: the key is s[start + 2 .. close] and s[close] is the closing `>`. */
  datatype Placeholder = Placeholder(start: nat, close: nat)

  /** The leftmost match at or after `from`. */
  function ExecFrom(s: string, from: nat): (r: Option<Placeholder>)
    requires from <= |s|
    ensures r.None? ==> forall i :: from <= i < |s| ==> !MatchesAt(s, i)
    ensures r.Some? ==>
      from <= r.value.start && MatchesAt(s, r.value.start) &&
      r.value.close == KeyEnd(s, r.value.start + 2) &&
      forall i :: from <= i < r.value.start ==> !MatchesAt(s, i)
    decreases |s| - from
  {
    if from == |s| then None
    else if MatchesAt(s, from) then Some(Placeholder(from, KeyEnd(s, from + 2)))
    else ExecFrom(s, from + 1)
  }

  /** `re.exec(code)` for the non-global pattern: the leftmost match, if any. */
  function Exec(s: string): (r: Option<Placeholder>)
    ensures r.None? <==> NoPlaceholder(s)
    ensures r.Some? ==>
      MatchesAt(s, r.value.start) && r.value.close == KeyEnd(s, r.value.start + 2) &&
      forall i :: 0 <= i < r.value.start ==> !MatchesAt(s, i)
  {
    ExecFrom(s, 0)
  }

  /** The text of the key group of a match. */
  function Key(s: string, p: Placeholder): (key: string)
    requires p.start + 2 <= p.close <= |s|
    ensures |key| == p.close - (p.start + 2)
    ensures p.close == KeyEnd(s, p.start + 2) ==> forall k :: 0 <= k < |key| ==> IsKeyChar(key[k])
  {
    s[p.start + 2..p.close]
  }

  /** `code.replace(re, v)` for a `v` without `$`: the leftmost match gives way to v. */
  function Replace(s: string, v: string): (r: string)
    ensures NoPlaceholder(s) ==> r == s
    ensures Exec(s).Some? ==> |r| == |s| - (Exec(s).value.close + 1 - Exec(s).value.start) + |v|
  {
    match Exec(s)
    case None => s
    case Some(p) => s[..p.start] + v + s[p.close + 1..]
  }

  /** `replacements[key]`, stringified: a missing key yields `undefined`, which
      String.replace turns into the text "undefined". */
  function Lookup(m: map<string, string>, key: string): (v: string)
    ensures key in m ==> v == m[key]
    ensures v in m.Values || v == "undefined"
  {
    if key in m then m[key] else "undefined"
  }

  /** No replacement value holds a `$`, so String.replace inserts it literally. */
  predicate DollarFree(m: map<string, string>)
  {
    forall k :: k in m ==> '$' !in m[k]
  }

  lemma LookupDollarFree(m: map<string, string>, key: string)
    requires DollarFree(m)
    ensures '$' !in Lookup(m, key)
  {
    if key !in m {
      var u := "undefined";
      assert forall k | 0 <= k < |u| :: u[k] != '$';
    }
  }

  /** Number of `$` characters: what every replacement lowers. */
  function Dollars(s: string): nat
  {
    multiset(s)['$']
  }

  /** One pass of the source loop's body, given that `re.exec(code)` matched: an
      empty key is falsy, so `code` is left as it is. */
  function Iterate(s: string, m: map<string, string>): (r: string)
    requires Exec(s).Some?
    ensures Key(s, Exec(s).value) == "" ==> r == s
  {
    var key := Key(s, Exec(s).value);
    if key != "" then Replace(s, Lookup(m, key)) else s
  }

  /** Inside a match only its first character is a `$`. */
  lemma MatchHasOneDollar(s: string, p: Placeholder)
    requires MatchesAt(s, p.start) && p.close == KeyEnd(s, p.start + 2)
    ensures Dollars(s[p.start..p.close + 1]) == 1
  {
    var mid := s[p.start..p.close + 1];
    var body := s[p.start + 1..p.close + 1];
    assert mid == ['$'] + body;
    forall k | 0 <= k < |body|
      ensures body[k] != '$'
    {
      assert body[k] == s[p.start + 1 + k];
    }
    assert multiset(body)['$'] == 0;
  }

  /** A replacement by a `$`-free value removes exactly the one `$` of the match. */
  lemma ReplaceRemovesOneDollar(s: string, v: string)
    requires Exec(s).Some? && '$' !in v
    ensures Dollars(Replace(s, v)) == Dollars(s) - 1
  {
    var p := Exec(s).value;
    var pre, mid, post := s[..p.start], s[p.start..p.close + 1], s[p.close + 1..];
    assert s == pre + mid + post;
    MatchHasOneDollar(s, p);
    assert multiset(v)['$'] == 0;
    assert Replace(s, v) == pre + v + post;
  }

  /** Outcome of the preprocessor: the finished text, or the text at which the source
      loop spins forever (its leftmost match has an empty key). */
  datatype Outcome = Done(text: string) | Diverges(text: string)

  /** What the source loop computes, iteration by iteration. */
  function Expand(code: string, m: map<string, string>): (r: Outcome)
    requires DollarFree(m)
    ensures r.Done? ==> NoPlaceholder(r.text)
    ensures r.Diverges? ==> Exec(r.text).Some? && Key(r.text, Exec(r.text).value) == ""
    decreases Dollars(code)
  {
    match Exec(code)
    case None => Done(code)
    case Some(p) =>
      var key := Key(code, p);
      if key == "" then Diverges(code)
      else
        LookupDollarFree(m, key);
        ReplaceRemovesOneDollar(code, Lookup(m, key));
        Expand(Iterate(code, m), m)
  }

  /** At a Diverges outcome the loop body leaves the text as it is while `exec` still
      matches, so the source's `while` never exits. */
  lemma DivergesIsStuck(code: string, m: map<string, string>)
    requires DollarFree(m) && Expand(code, m).Diverges?
    ensures var t := Expand(code, m).text; Exec(t).Some? && Iterate(t, m) == t
  {
  }

  /** Every iteration replaces exactly the leftmost match, with the value of its key. */
  lemma IterateReplacesLeftmost(s: string, m: map<string, string>, i: nat)
    requires MatchesAt(s, i) && forall j :: 0 <= j < i ==> !MatchesAt(s, j)
    requires s[i + 2..KeyEnd(s, i + 2)] != ""
    ensures Exec(s).Some?
    ensures Iterate(s, m) == s[..i] + Lookup(m, s[i + 2..KeyEnd(s, i + 2)]) + s[KeyEnd(s, i + 2) + 1..]
  {
    ExecFindsLeftmost(s, i);
    var key := s[i + 2..KeyEnd(s, i + 2)];
    assert Key(s, Exec(s).value) == key;
    ReplaceLeftmost(s, Lookup(m, key), i);
  }

  /** `replace` cuts out the leftmost match, whatever the value put in its place. */
  lemma ReplaceLeftmost(s: string, v: string, i: nat)
    requires MatchesAt(s, i) && Exec(s) == Some(Placeholder(i, KeyEnd(s, i + 2)))
    ensures Replace(s, v) == s[..i] + v + s[KeyEnd(s, i + 2) + 1..]
  {
  }

  /** `exec` reports the leftmost match, whichever it is. */
  lemma ExecFindsLeftmost(s: string, i: nat)
    requires MatchesAt(s, i) && forall j :: 0 <= j < i ==> !MatchesAt(s, j)
    ensures Exec(s) == Some(Placeholder(i, KeyEnd(s, i + 2)))
  {
    assert !NoPlaceholder(s);
  }

  /** The outcome of the loop is that of the text after one more iteration. */
  lemma ExpandStep(code: string, m: map<string, string>)
    requires DollarFree(m) && Exec(code).Some? && Key(code, Exec(code).value) != ""
    ensures Iterate(code, m) == Replace(code, Lookup(m, Key(code, Exec(code).value)))
    ensures Expand(code, m) == Expand(Iterate(code, m), m)
  {
  }

  /** A leftmost match with an empty key is where the loop sticks. */
  lemma ExpandEmptyKey(code: string, m: map<string, string>)
    requires DollarFree(m) && Exec(code).Some? && Key(code, Exec(code).value) == ""
    ensures Expand(code, m) == Diverges(code)
  {
  }

  /** Every match starts with a `$`. */
  lemma DollarFreeTextHasNoPlaceholder(s: string)
    requires '$' !in s
    ensures NoPlaceholder(s)
  {
  }

  /** Text without a placeholder comes back unchanged. */
  lemma ExpandWithoutPlaceholder(code: string, m: map<string, string>)
    requires DollarFree(m) && NoPlaceholder(code)
    ensures Expand(code, m) == Done(code)
  {
  }

  /** A finished text is a fixed point: preprocessing it again changes nothing. */
  lemma ExpandIdempotent(code: string, m: map<string, string>)
    requires DollarFree(m) && Expand(code, m).Done?
    ensures Expand(Expand(code, m).text, m) == Expand(code, m)
  {
    ExpandWithoutPlaceholder(Expand(code, m).text, m);
  }

  /** `preprocessor(code, replacements)`: the `while (array = re.exec(code))` loop.
      Where the source would spin forever on an empty key, the model stops and
      reports Diverges. */
  method Preprocess(code: string, replacements: map<string, string>) returns (r: Outcome)
    requires DollarFree(replacements)
    ensures r == Expand(code, replacements)
    ensures r.Done? ==> NoPlaceholder(r.text)
  {
    var current := code;
    while true
      invariant Expand(current, replacements) == Expand(code, replacements)
      decreases Dollars(current)
    {
      var found := Exec(current);
      if found.None? {
        ExpandWithoutPlaceholder(current, replacements);
        return Done(current);
      }
      var key := Key(current, found.value);
      if key == "" {
        ExpandEmptyKey(current, replacements);
        return Diverges(current);
      }
      ExpandStep(current, replacements);
      LookupDollarFree(replacements, key);
      ReplaceRemovesOneDollar(current, Lookup(replacements, key));
      current := Replace(current, Lookup(replacements, key));
    }
  }

  /** An empty key `$<>` stops the source loop for good. */
  lemma EmptyKeyDiverges(m: map<string, string>)
    requires DollarFree(m)
    ensures Expand("a$<>b", m) == Diverges("a$<>b")
  {
    var s := "a$<>b";
    assert !MatchesAt(s, 0);
    assert KeyEnd(s, 3) == 3;
    assert MatchesAt(s, 1);
    assert Exec(s) == Some(Placeholder(1, 3));
  }

  /** In `$<$<a>>` the only match is the inner `$<a>`: the outer `$<` is followed by
      `$`, which is not a key character. */
  lemma NestedPlaceholderMatchesInside()
    ensures Exec("$<$<a>>") == Some(Placeholder(2, 5))
    ensures Key("$<$<a>>", Placeholder(2, 5)) == "a"
    ensures "$<$<a>>"[..2] == "$<" && "$<$<a>>"[6..] == ">"
  {
    var s := "$<$<a>>";
    assert KeyEnd(s, 2) == 2;
    assert !MatchesAt(s, 0) && !MatchesAt(s, 1);
    assert KeyEnd(s, 4) == 5;
    assert MatchesAt(s, 2);
    ExecFindsLeftmost(s, 2);
  }

  /** A replacement is rescanned: one iteration turns the match `$<a>` inside
      `$<$<a>>` into a new match `$<b>`, so the number of placeholders does not drop,
      and the next iteration expands the text that the first one produced (here with
      the missing key `b`, which becomes "undefined"). */
  lemma ReplacementIsRescanned()
    ensures Iterate("$<$<a>>", map["a" := "b"]) == "$<b>"
    ensures Expand("$<$<a>>", map["a" := "b"]) == Done("undefined")
  {
    var s := "$<$<a>>";
    var m := map["a" := "b"];
    NestedPlaceholderMatchesInside();
    assert Lookup(m, "a") == "b";
    assert Iterate(s, m) == "$<" + "b" + ">";
    ExpandStep(s, m);
    MissingKeyExpands(m);
  }

  /** A text that is one placeholder with a key of at most one character matches as a
      whole. */
  lemma WholeTextMatches(t: string)
    requires 3 <= |t| <= 4 && t[0] == '$' && t[1] == '<' && t[|t| - 1] == '>'
    requires |t| == 4 ==> IsKeyChar(t[2])
    ensures Exec(t) == Some(Placeholder(0, |t| - 1))
  {
    KeyEndIsFirstNonKey(t, 2, |t| - 1);
    ExecFindsLeftmost(t, 0);
  }

  /** `$<b>` with `b` missing from the map expands to the text "undefined". */
  lemma MissingKeyExpands(m: map<string, string>)
    requires DollarFree(m) && "b" !in m
    ensures Expand("$<b>", m) == Done("undefined")
  {
    var t := "$<b>";
    WholeTextMatches(t);
    assert Key(t, Placeholder(0, 3)) == "b";
    assert Iterate(t, m) == "" + "undefined" + "";
    ExpandStep(t, m);
    DollarFreeTextHasNoPlaceholder("undefined");
    ExpandWithoutPlaceholder("undefined", m);
  }

  /** Non-empty keys in the input do not make the loop end: the value "" turns
      `$<$<a>>` into `$<>`, a placeholder with an empty key, on which the source loop
      spins. */
  lemma ReplacementCreatesEmptyKey()
    ensures Iterate("$<$<a>>", map["a" := ""]) == "$<>"
    ensures Expand("$<$<a>>", map["a" := ""]) == Diverges("$<>")
  {
    var s := "$<$<a>>";
    var m := map["a" := ""];
    NestedPlaceholderMatchesInside();
    assert Lookup(m, "a") == "";
    assert Iterate(s, m) == "$<" + "" + ">";
    var t := "$<>";
    WholeTextMatches(t);
    ExpandStep(s, m);
    ExpandEmptyKey(t, m);
  }
}
