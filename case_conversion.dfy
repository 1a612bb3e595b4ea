/** A model of `camel_to_snake(identifier, disallow_single_symbols)`: turning
    a camelCase or PascalCase name into a snake_case one.

    The conversion has three steps: split the identifier into tokens at case
    boundaries, optionally merge runs of one-letter tokens into the token that
    follows them, then lower-case every token and join them with '_'.

    Only 'A'..'Z' count as upper case; every other character is treated as
    lower case. */
module CaseConversion {

  const Separator: char := '_'

  predicate IsUpper(c: char) {
    'A' <= c <= 'Z'
  }

  predicate AllUpper(s: string) {
    forall i :: 0 <= i < |s| ==> IsUpper(s[i])
  }

  predicate NoUpper(s: string) {
    forall i :: 0 <= i < |s| ==> !IsUpper(s[i])
  }

  function ToLower(c: char): (r: char)
    ensures !IsUpper(r)
    ensures IsUpper(c) ==> 'a' <= r <= 'z' && r as int - c as int == 'a' as int - 'A' as int
    ensures !IsUpper(c) ==> r == c
  {
    if IsUpper(c) then (c as int - 'A' as int + 'a' as int) as char else c
  }

  function LowerString(s: string): (r: string)
    ensures |r| == |s|
    ensures forall i :: 0 <= i < |s| ==> r[i] == ToLower(s[i])
  {
    if s == [] then [] else [ToLower(s[0])] + LowerString(s[1..])
  }

  /** The concatenation of a sequence of strings. */
  function Flatten(ts: seq<string>): string {
    if ts == [] then [] else ts[0] + Flatten(ts[1..])
  }

  /** The strings joined with the separator between neighbours. */
  function Join(ts: seq<string>): string {
    if ts == [] then []
    else if |ts| == 1 then ts[0]
    else ts[0] + [Separator] + Join(ts[1..])
  }

  /** `s` with every separator removed. */
  function Strip(s: string): string {
    if s == [] then []
    else if s[0] == Separator then Strip(s[1..])
    else [s[0]] + Strip(s[1..])
  }

  // ---------------------------------------------------------------------
  // Step 1: tokenisation.

  /** A token boundary sits just before position `i` when `s[i]` is upper case
      and either the character before it is not, or upper case does not run
      from `i` to the end of the string. So the last capital of a run that is
      followed by lower case starts the next word, and each capital before it
      stands alone, while a capital run that ends the string stays whole. */
  predicate IsBoundary(s: string, i: nat)
    requires 0 < i < |s|
  {
    IsUpper(s[i]) && (!IsUpper(s[i - 1]) || !AllUpper(s[i..]))
  }

  /** The end of the token that contains position `j - 1`: the first boundary
      at or after `j`, or the end of the string. */
  function TokenEnd(s: string, j: nat): (e: nat)
    requires 1 <= j <= |s|
    ensures j <= e <= |s|
    ensures e == |s| || IsBoundary(s, e)
    ensures forall k :: j <= k < e ==> !IsBoundary(s, k)
    decreases |s| - j
  {
    if j == |s| || IsBoundary(s, j) then j else TokenEnd(s, j + 1)
  }

  /** The tokens of `s`, cut at every boundary. */
  function Tokenize(s: string): (ts: seq<string>)
    ensures Flatten(ts) == s
    ensures forall k :: 0 <= k < |ts| ==> ts[k] != []
    decreases |s|
  {
    if s == [] then []
    else
      var e := TokenEnd(s, 1);
      var rest := Tokenize(s[e..]);
      assert s[..e] + s[e..] == s;
      [s[..e]] + rest
  }

  /** A word: one leading character of any case, then no upper case. */
  predicate IsWord(t: string) {
    t != [] && forall i :: 1 <= i < |t| ==> !IsUpper(t[i])
  }

  /** An acronym run: upper case throughout. */
  predicate IsAcronym(t: string) {
    t != [] && AllUpper(t)
  }

  /** The shape of a tokenisation, stated token by token: every token is a
      word, except that the last may be an acronym run; every token after the
      first starts with a capital; and a final acronym run is not preceded by
      a capital (it takes the whole trailing capital run). */
  predicate WellTokenised(ts: seq<string>) {
    && (forall k :: 0 <= k < |ts| ==> IsWord(ts[k]) || (k == |ts| - 1 && IsAcronym(ts[k])))
    && (forall k :: 0 < k < |ts| ==> IsUpper(ts[k][0]))
    && (|ts| >= 2 && IsAcronym(ts[|ts| - 1]) ==> !IsUpper(ts[|ts| - 2][|ts[|ts| - 2]| - 1]))
  }

  predicate IsTokenisation(s: string, ts: seq<string>) {
    Flatten(ts) == s && WellTokenised(ts)
  }

  // ---------------------------------------------------------------------
  // Step 2: merging one-letter tokens.

  /** The number of one-character tokens at the front of `ts`. */
  function SingleRunLength(ts: seq<string>): (k: nat)
    ensures k <= |ts|
    ensures forall i :: 0 <= i < k ==> |ts[i]| == 1
    ensures k < |ts| ==> |ts[k]| != 1
  {
    if ts == [] || |ts[0]| != 1 then 0 else 1 + SingleRunLength(ts[1..])
  }

  /** Every maximal run of one-character tokens is joined with the token that
      follows it; a run with no token after it is left as it is. */
  function MergeSingles(ts: seq<string>): (r: seq<string>)
    decreases |ts|
  {
    if ts == [] then []
    else
      var k := SingleRunLength(ts);
      if k == 0 then [ts[0]] + MergeSingles(ts[1..])
      else if k == |ts| then ts
      else [Flatten(ts[..k + 1])] + MergeSingles(ts[k + 1..])
  }

  // ---------------------------------------------------------------------
  // Step 3: rendering.

  function LowerAll(ts: seq<string>): (r: seq<string>)
    ensures |r| == |ts|
    ensures forall k :: 0 <= k < |ts| ==> r[k] == LowerString(ts[k])
  {
    if ts == [] then [] else [LowerString(ts[0])] + LowerAll(ts[1..])
  }

  function CamelToSnake(identifier: string, disallowSingleSymbols: bool): (r: string)
    ensures NoUpper(r)
  {
    var tokens := Tokenize(identifier);
    var words := if disallowSingleSymbols then MergeSingles(tokens) else tokens;
    JoinNoUpper(LowerAll(words));
    Join(LowerAll(words))
  }

  // ---------------------------------------------------------------------
  // Lemmas about the pieces.

  lemma {:induction false} FlattenAppend(xs: seq<string>, ys: seq<string>)
    ensures Flatten(xs + ys) == Flatten(xs) + Flatten(ys)
    decreases |xs|
  {
    if xs == [] {
      assert xs + ys == ys;
    } else {
      assert (xs + ys)[1..] == xs[1..] + ys;
      FlattenAppend(xs[1..], ys);
    }
  }

  lemma {:induction false} JoinNoUpper(ts: seq<string>)
    requires forall k :: 0 <= k < |ts| ==> NoUpper(ts[k])
    ensures NoUpper(Join(ts))
    decreases |ts|
  {
    if |ts| > 1 {
      JoinNoUpper(ts[1..]);
      var rest := Join(ts[1..]);
      var j := ts[0] + [Separator] + rest;
      forall i | 0 <= i < |j| ensures !IsUpper(j[i]) {
        if i < |ts[0]| {
          assert j[i] == ts[0][i];
        } else if i > |ts[0]| {
          assert j[i] == rest[i - |ts[0]| - 1];
        }
      }
    }
  }

  /** Tokenize meets the shape of a tokenisation. */
  lemma {:induction false} TokenizeWellTokenised(s: string)
    ensures IsTokenisation(s, Tokenize(s))
    decreases |s|
  {
    if s != [] {
      var e := TokenEnd(s, 1);
      var t := s[..e];
      var rest := Tokenize(s[e..]);
      TokenizeWellTokenised(s[e..]);
      assert Tokenize(s) == [t] + rest;
      FirstTokenShape(s, e);
      if rest != [] {
        assert Flatten(rest) == rest[0] + Flatten(rest[1..]);
        assert rest[0][0] == s[e];
        if |rest| == 1 {
          assert Flatten(rest) == rest[0] + Flatten([]);
          assert rest[0] == s[e..];
          assert t[|t| - 1] == s[e - 1];
        }
      }
      ConsWellTokenised(t, rest);
    }
  }

  /** A token placed in front of a shaped tokenisation keeps the shape when it
      is a word (or an acronym run standing alone), when the next token opens
      with a capital, and when a final acronym run after it is not preceded by
      a capital. */
  lemma ConsWellTokenised(t: string, rest: seq<string>)
    requires WellTokenised(rest)
    requires IsWord(t) || (rest == [] && IsAcronym(t))
    requires rest != [] ==> IsUpper(rest[0][0])
    requires |rest| == 1 && IsAcronym(rest[0]) ==> !IsUpper(t[|t| - 1])
    ensures WellTokenised([t] + rest)
  {
    var ts := [t] + rest;
    forall k | 0 <= k < |ts|
      ensures IsWord(ts[k]) || (k == |ts| - 1 && IsAcronym(ts[k]))
    {
      if k > 0 {
        assert ts[k] == rest[k - 1];
      }
    }
    forall k | 0 < k < |ts| ensures IsUpper(ts[k][0]) {
      assert ts[k] == rest[k - 1];
    }
  }

  /** The first token is a word, or it is the whole string and upper case. */
  lemma FirstTokenShape(s: string, e: nat)
    requires 1 <= e <= |s| && e == TokenEnd(s, 1)
    ensures IsWord(s[..e]) || (e == |s| && IsAcronym(s[..e]))
  {
    var t := s[..e];
    if !IsWord(t) {
      var k :| 1 <= k < |t| && IsUpper(t[k]);
      assert !IsBoundary(s, k);
      assert AllUpper(s[k..]);
      forall i | 0 <= i < |t| ensures IsUpper(t[i]) {
        if i >= k {
          assert t[i] == s[k..][i - k];
        } else {
          UpperBeforeCapital(s, i, k);
        }
      }
    }
  }

  /** Inside the first token, a capital at `k` is preceded only by capitals. */
  lemma {:induction false} UpperBeforeCapital(s: string, i: nat, k: nat)
    requires s != [] && i < k < TokenEnd(s, 1) && IsUpper(s[k])
    ensures IsUpper(s[i])
    decreases k - i
  {
    assert !IsBoundary(s, k);
    if i < k - 1 {
      UpperBeforeCapital(s, i, k - 1);
    }
  }

  /** Tokenize is the only tokenisation of `s` with that shape. */
  lemma {:induction false} TokenisationUnique(s: string, ts: seq<string>)
    requires IsTokenisation(s, ts)
    ensures ts == Tokenize(s)
    decreases |s|
  {
    if ts != [] {
      var c := FirstCutIsTokenEnd(s, ts);
      TailWellTokenised(ts);
      TokenisationUnique(s[c..], ts[1..]);
      assert ts == [ts[0]] + ts[1..];
    }
  }

  /** The first token of a shaped tokenisation ends where Tokenize cuts. */
  lemma FirstCutIsTokenEnd(s: string, ts: seq<string>) returns (c: nat)
    requires IsTokenisation(s, ts) && ts != []
    ensures 1 <= c <= |s| && c == TokenEnd(s, 1)
    ensures ts[0] == s[..c] && Flatten(ts[1..]) == s[c..]
  {
    assert ts[0] != [] by {
      assert IsWord(ts[0]) || IsAcronym(ts[0]);
    }
    c := |ts[0]|;
    assert s == ts[0] + Flatten(ts[1..]);
    assert s[..c] == ts[0];
    assert s[c..] == Flatten(ts[1..]);
    forall k | 1 <= k < c ensures !IsBoundary(s, k) {
      NoBoundaryInFirstToken(s, ts, k);
    }
    if c < |s| {
      CutIsBoundary(s, ts);
    }
  }

  lemma NoBoundaryInFirstToken(s: string, ts: seq<string>, k: nat)
    requires IsTokenisation(s, ts) && ts != [] && 1 <= k < |ts[0]|
    requires s == ts[0] + Flatten(ts[1..])
    ensures !IsBoundary(s, k)
  {
    assert s[k] == ts[0][k];
    if IsUpper(s[k]) {
      assert !IsWord(ts[0]);
      assert |ts| == 1 && AllUpper(ts[0]);
      assert s[k - 1] == ts[0][k - 1];
      forall i | 0 <= i < |s[k..]| ensures IsUpper(s[k..][i]) {
        assert s[k..][i] == ts[0][k + i];
      }
    }
  }

  lemma TailWellTokenised(ts: seq<string>)
    requires WellTokenised(ts) && ts != []
    ensures WellTokenised(ts[1..])
  {
    var tail := ts[1..];
    forall k | 0 <= k < |tail|
      ensures IsWord(tail[k]) || (k == |tail| - 1 && IsAcronym(tail[k]))
    {
      assert tail[k] == ts[k + 1];
    }
    forall k | 0 < k < |tail| ensures IsUpper(tail[k][0]) {
      assert tail[k] == ts[k + 1];
    }
  }

  /** In a shaped tokenisation, the end of the first token, when it is not the
      end of the string, is a boundary. */
  lemma CutIsBoundary(s: string, ts: seq<string>)
    requires IsTokenisation(s, ts) && |ts| >= 1
    requires ts[0] != [] && |ts[0]| < |s|
    requires s == ts[0] + Flatten(ts[1..])
    ensures IsBoundary(s, |ts[0]|)
  {
    var c := |ts[0]|;
    var tail := ts[1..];
    assert tail != [];
    assert Flatten(tail) == tail[0] + Flatten(tail[1..]);
    assert tail[0] == ts[1] && ts[1] != [];
    assert s[c] == ts[1][0];
    assert s[c..] == Flatten(tail);
    if |ts| == 2 {
      assert Flatten(tail[1..]) == [];
      assert s[c..] == ts[1];
      assert s[c - 1] == ts[0][c - 1];
      assert AllUpper(ts[1]) ==> IsAcronym(ts[1]);
    } else {
      TailWellTokenised(ts);
      TrailingCapitals(tail, s[c..]);
    }
  }

  /** A shaped tokenisation of two or more tokens never covers an all-capital
      string: a final acronym run is preceded by a character that is not a
      capital. */
  lemma {:induction false} TrailingCapitals(ts: seq<string>, s: string)
    requires WellTokenised(ts) && Flatten(ts) == s && |ts| >= 2
    ensures !AllUpper(s)
    decreases |ts|
  {
    assert ts[0] != [] by {
      assert IsWord(ts[0]);
    }
    assert Flatten(ts) == ts[0] + Flatten(ts[1..]);
    var rest := Flatten(ts[1..]);
    var i: nat;
    if |ts| == 2 {
      assert ts[1..] == [ts[1]];
      assert rest == ts[1] + Flatten([]);
      assert rest == ts[1];
      if AllUpper(ts[1]) {
        assert IsAcronym(ts[1]) by {
          assert IsWord(ts[1]) || IsAcronym(ts[1]);
        }
        i := |ts[0]| - 1;
        assert s[i] == ts[0][|ts[0]| - 1];
      } else {
        var j :| 0 <= j < |rest| && !IsUpper(rest[j]);
        i := |ts[0]| + j;
        assert s[i] == rest[j];
      }
    } else {
      TailWellTokenised(ts);
      TrailingCapitals(ts[1..], rest);
      var j :| 0 <= j < |rest| && !IsUpper(rest[j]);
      i := |ts[0]| + j;
      assert s[i] == rest[j];
    }
    assert !IsUpper(s[i]);
  }

  // ---------------------------------------------------------------------
  // Merging.

  /** One-character tokens survive merging only at the end of the result. */
  predicate SinglesOnlyAtEnd(ts: seq<string>) {
    forall i, j :: 0 <= i <= j < |ts| && |ts[i]| == 1 ==> |ts[j]| == 1
  }

  predicate NonEmptyTokens(ts: seq<string>) {
    forall k :: 0 <= k < |ts| ==> ts[k] != []
  }

  lemma {:induction false} FlattenLength(ts: seq<string>)
    requires NonEmptyTokens(ts)
    ensures |Flatten(ts)| >= |ts|
    decreases |ts|
  {
    if ts != [] {
      assert NonEmptyTokens(ts[1..]) by {
        forall k | 0 <= k < |ts[1..]| ensures ts[1..][k] != [] {
          assert ts[1..][k] == ts[k + 1];
        }
      }
      FlattenLength(ts[1..]);
    }
  }

  lemma NonEmptySlice(ts: seq<string>, i: nat, j: nat)
    requires NonEmptyTokens(ts) && i <= j <= |ts|
    ensures NonEmptyTokens(ts[i..j])
  {
    forall k | 0 <= k < j - i ensures ts[i..j][k] != [] {
      assert ts[i..j][k] == ts[i + k];
    }
  }

  lemma ConsToken(x: string, rs: seq<string>)
    ensures Flatten([x] + rs) == x + Flatten(rs)
    ensures x != [] && NonEmptyTokens(rs) ==> NonEmptyTokens([x] + rs)
  {
    var r := [x] + rs;
    assert r[1..] == rs;
    if x != [] && NonEmptyTokens(rs) {
      forall k | 0 <= k < |r| ensures r[k] != [] {
        if k > 0 {
          assert r[k] == rs[k - 1];
        }
      }
    }
  }

  /** Merging keeps the characters and their order, and keeps every token
      non-empty. */
  lemma {:induction false} MergeKeepsCharacters(ts: seq<string>)
    requires NonEmptyTokens(ts)
    ensures Flatten(MergeSingles(ts)) == Flatten(ts)
    ensures NonEmptyTokens(MergeSingles(ts))
    ensures |MergeSingles(ts)| <= |ts|
    decreases |ts|
  {
    if ts != [] {
      var k := SingleRunLength(ts);
      if k == 0 {
        NonEmptySlice(ts, 1, |ts|);
        MergeKeepsCharacters(ts[1..]);
        ConsToken(ts[0], MergeSingles(ts[1..]));
      } else if k < |ts| {
        MergeRunKeepsCharacters(ts, k);
      }
    }
  }

  lemma {:induction false} MergeRunKeepsCharacters(ts: seq<string>, k: nat)
    requires NonEmptyTokens(ts) && 0 < k < |ts| && k == SingleRunLength(ts)
    ensures Flatten(MergeSingles(ts)) == Flatten(ts)
    ensures NonEmptyTokens(MergeSingles(ts))
    ensures |MergeSingles(ts)| <= |ts|
    decreases |ts|, 0
  {
    var front, tail := ts[..k + 1], ts[k + 1..];
    assert MergeSingles(ts) == [Flatten(front)] + MergeSingles(tail);
    NonEmptySlice(ts, k + 1, |ts|);
    NonEmptySlice(ts, 0, k + 1);
    FlattenLength(front);
    MergeKeepsCharacters(tail);
    ConsToken(Flatten(front), MergeSingles(tail));
    assert ts == front + tail;
    FlattenAppend(front, tail);
  }

  /** After merging, one-character tokens occur only in a trailing run that
      has no token after it to merge into. */
  lemma {:induction false} MergeSinglesAtEnd(ts: seq<string>)
    requires NonEmptyTokens(ts)
    ensures SinglesOnlyAtEnd(MergeSingles(ts))
    decreases |ts|
  {
    if ts != [] {
      var k := SingleRunLength(ts);
      if k < |ts| {
        var start := if k == 0 then 1 else k + 1;
        var tail := ts[start..];
        var head := if k == 0 then ts[0] else Flatten(ts[..k + 1]);
        if k > 0 {
          NonEmptySlice(ts, 0, k + 1);
          FlattenLength(ts[..k + 1]);
        }
        assert |head| != 1;
        NonEmptySlice(ts, start, |ts|);
        MergeSinglesAtEnd(tail);
        assert MergeSingles(ts) == [head] + MergeSingles(tail);
        ConsNonSingle(head, MergeSingles(tail));
      }
    }
  }

  lemma ConsNonSingle(head: string, rest: seq<string>)
    requires |head| != 1 && SinglesOnlyAtEnd(rest)
    ensures SinglesOnlyAtEnd([head] + rest)
  {
    var r := [head] + rest;
    forall i, j | 0 <= i <= j < |r| && |r[i]| == 1 ensures |r[j]| == 1 {
      assert r[i] == rest[i - 1] && r[j] == rest[j - 1];
    }
  }

  // The merge rule stated on groups of input tokens: every output token is
  // the concatenation of one group.

  /** A group that merging turns into one token: one-character tokens followed
      by a single token of any other length, or a lone one-character token. */
  predicate IsMergeGroup(g: seq<string>) {
    && g != []
    && (forall i :: 0 <= i < |g| - 1 ==> |g[i]| == 1)
    && (|g| > 1 ==> |g[|g| - 1]| != 1)
  }

  predicate IsLoneSingle(g: seq<string>) {
    |g| == 1 && |g[0]| == 1
  }

  /** Groups in which a lone one-character token is followed only by lone
      one-character tokens: a run of them joins the token after it, and only
      a run at the end stays apart. */
  predicate IsMergeGrouping(gs: seq<seq<string>>) {
    && (forall i :: 0 <= i < |gs| ==> IsMergeGroup(gs[i]))
    && (forall i, j :: 0 <= i <= j < |gs| && IsLoneSingle(gs[i]) ==> IsLoneSingle(gs[j]))
  }

  function ConcatGroups(gs: seq<seq<string>>): seq<string> {
    if gs == [] then [] else gs[0] + ConcatGroups(gs[1..])
  }

  function FlattenGroups(gs: seq<seq<string>>): (r: seq<string>)
    ensures |r| == |gs|
  {
    if gs == [] then [] else [Flatten(gs[0])] + FlattenGroups(gs[1..])
  }

  lemma TailMergeGrouping(gs: seq<seq<string>>)
    requires IsMergeGrouping(gs) && gs != []
    ensures IsMergeGrouping(gs[1..])
  {
    var tail := gs[1..];
    forall i | 0 <= i < |tail| ensures IsMergeGroup(tail[i]) {
      assert tail[i] == gs[i + 1];
    }
    forall i, j | 0 <= i <= j < |tail| && IsLoneSingle(tail[i]) ensures IsLoneSingle(tail[j]) {
      assert tail[i] == gs[i + 1] && tail[j] == gs[j + 1];
    }
  }

  /** Lone one-character groups concatenate to their tokens, one per group. */
  lemma {:induction false} LoneGroups(gs: seq<seq<string>>)
    requires forall i :: 0 <= i < |gs| ==> IsLoneSingle(gs[i])
    ensures ConcatGroups(gs) == FlattenGroups(gs)
    ensures forall i :: 0 <= i < |ConcatGroups(gs)| ==> |ConcatGroups(gs)[i]| == 1
    decreases |gs|
  {
    if gs != [] {
      var tail := gs[1..];
      assert forall i :: 0 <= i < |tail| ==> IsLoneSingle(tail[i]) by {
        forall i | 0 <= i < |tail| ensures IsLoneSingle(tail[i]) {
          assert tail[i] == gs[i + 1];
        }
      }
      LoneGroups(tail);
      var t := gs[0][0];
      assert gs[0] == [t];
      FlattenSingleton(t);
      var c := ConcatGroups(gs);
      assert c == [t] + ConcatGroups(tail);
      assert FlattenGroups(gs) == [t] + FlattenGroups(tail);
      forall i | 0 <= i < |c| ensures |c[i]| == 1 {
        if i > 0 {
          assert c[i] == ConcatGroups(tail)[i - 1];
        }
      }
    }
  }

  lemma FlattenSingleton(t: string)
    ensures Flatten([t]) == t
  {
    assert [t][1..] == [];
    assert t + [] == t;
  }

  lemma SingleRunLengthIs(ts: seq<string>, m: nat)
    requires m < |ts| && |ts[m]| != 1
    requires forall i :: 0 <= i < m ==> |ts[i]| == 1
    ensures SingleRunLength(ts) == m
  {
  }

  /** A first group that is not a lone one-character token becomes the first
      merged token. */
  lemma MergeFirstGroup(ts: seq<string>, g: seq<string>, rest: seq<string>)
    requires ts == g + rest && IsMergeGroup(g) && !IsLoneSingle(g)
    ensures MergeSingles(ts) == [Flatten(g)] + MergeSingles(rest)
  {
    var m := |g| - 1;
    assert forall i :: 0 <= i < m ==> |ts[i]| == 1 by {
      forall i | 0 <= i < m ensures |ts[i]| == 1 {
        assert ts[i] == g[i];
      }
    }
    assert ts[m] == g[m];
    SingleRunLengthIs(ts, m);
    assert ts[m + 1..] == rest;
    if m == 0 {
      assert g == [ts[0]];
      FlattenSingleton(ts[0]);
    } else {
      assert ts[..m + 1] == g;
    }
  }

  /** Merging concatenates each group of any merge grouping of the tokens. */
  lemma {:induction false} MergeMatchesGrouping(ts: seq<string>, gs: seq<seq<string>>)
    requires ConcatGroups(gs) == ts && IsMergeGrouping(gs)
    ensures MergeSingles(ts) == FlattenGroups(gs)
    decreases |gs|
  {
    if gs != [] {
      var g, rest := gs[0], gs[1..];
      assert ts == g + ConcatGroups(rest);
      if IsLoneSingle(g) {
        assert forall i :: 0 <= i < |gs| ==> IsLoneSingle(gs[i]);
        LoneGroups(gs);
        assert SingleRunLength(ts) == |ts|;
      } else {
        TailMergeGrouping(gs);
        MergeMatchesGrouping(ConcatGroups(rest), rest);
        MergeFirstGroup(ts, g, ConcatGroups(rest));
      }
    }
  }

  /** Every sequence of tokens has a merge grouping. */
  lemma {:induction false} MergeGroupingExists(ts: seq<string>) returns (gs: seq<seq<string>>)
    ensures ConcatGroups(gs) == ts && IsMergeGrouping(gs)
    decreases |ts|
  {
    if ts == [] {
      gs := [];
    } else {
      var k := SingleRunLength(ts);
      if k == |ts| {
        gs := LoneGrouping(ts);
      } else {
        var g := ts[..k + 1];
        var rest := MergeGroupingExists(ts[k + 1..]);
        gs := [g] + rest;
        assert gs[1..] == rest;
        assert ts == g + ts[k + 1..];
        assert !IsLoneSingle(g);
        forall i | 0 <= i < |gs| ensures IsMergeGroup(gs[i]) {
          if i > 0 {
            assert gs[i] == rest[i - 1];
          }
        }
        forall i, j | 0 <= i <= j < |gs| && IsLoneSingle(gs[i]) ensures IsLoneSingle(gs[j]) {
          assert gs[i] == rest[i - 1] && gs[j] == rest[j - 1];
        }
      }
    }
  }

  /** One lone group per token, for a sequence of one-character tokens. */
  lemma {:induction false} LoneGrouping(ts: seq<string>) returns (gs: seq<seq<string>>)
    requires forall i :: 0 <= i < |ts| ==> |ts[i]| == 1
    ensures ConcatGroups(gs) == ts
    ensures forall i :: 0 <= i < |gs| ==> IsLoneSingle(gs[i])
    decreases |ts|
  {
    if ts == [] {
      gs := [];
    } else {
      var rest := LoneGrouping(ts[1..]);
      gs := [[ts[0]]] + rest;
      assert gs[1..] == rest;
      assert ts == [ts[0]] + ts[1..];
      forall i | 0 <= i < |gs| ensures IsLoneSingle(gs[i]) {
        if i > 0 {
          assert gs[i] == rest[i - 1];
        }
      }
    }
  }

  /** Without one-character tokens, merging changes nothing. */
  lemma {:induction false} MergeWithoutSingles(ts: seq<string>)
    requires forall k :: 0 <= k < |ts| ==> |ts[k]| != 1
    ensures MergeSingles(ts) == ts
    decreases |ts|
  {
    if ts != [] {
      var tail := ts[1..];
      assert forall k :: 0 <= k < |tail| ==> |tail[k]| != 1 by {
        forall k | 0 <= k < |tail| ensures |tail[k]| != 1 {
          assert tail[k] == ts[k + 1];
        }
      }
      MergeWithoutSingles(tail);
      assert ts == [ts[0]] + tail;
    }
  }

  // ---------------------------------------------------------------------
  // Laws of the conversion.

  /** The flag changes nothing unless the identifier has a one-letter token. */
  lemma FlagNeedsSingleLetterTokens(identifier: string)
    requires forall k :: 0 <= k < |Tokenize(identifier)| ==> |Tokenize(identifier)[k]| != 1
    ensures CamelToSnake(identifier, true) == CamelToSnake(identifier, false)
  {
    MergeWithoutSingles(Tokenize(identifier));
  }

  /** An identifier without capitals is returned as it is, whatever the flag. */
  lemma NoCapitalsUnchanged(identifier: string, disallowSingleSymbols: bool)
    requires NoUpper(identifier)
    ensures CamelToSnake(identifier, disallowSingleSymbols) == identifier
  {
    if identifier != [] {
      var tokens := [identifier];
      assert Flatten(tokens) == identifier + Flatten([]);
      assert IsTokenisation(identifier, tokens);
      TokenisationUnique(identifier, tokens);
      assert LowerString(identifier) == identifier;
      if |identifier| == 1 {
        assert SingleRunLength(tokens) == 1;
      } else {
        assert SingleRunLength(tokens) == 0;
        assert MergeSingles(tokens) == [identifier] + MergeSingles([]);
      }
      assert LowerAll(tokens) == [identifier];
    }
  }

  lemma {:induction false} StripAppend(a: string, b: string)
    ensures Strip(a + b) == Strip(a) + Strip(b)
    decreases |a|
  {
    if a != [] {
      assert (a + b)[1..] == a[1..] + b;
      StripAppend(a[1..], b);
    } else {
      assert a + b == b;
    }
  }

  lemma {:induction false} StripJoin(ts: seq<string>)
    ensures Strip(Join(ts)) == Strip(Flatten(ts))
    decreases |ts|
  {
    if |ts| == 1 {
      assert Flatten(ts) == ts[0] + Flatten([]);
      assert ts[0] + [] == ts[0];
    } else if |ts| > 1 {
      StripJoin(ts[1..]);
      StripAppend(ts[0] + [Separator], Join(ts[1..]));
      StripAppend(ts[0], [Separator]);
      StripAppend(ts[0], Flatten(ts[1..]));
      assert Strip([Separator]) == [];
    }
  }

  lemma {:induction false} LowerStringAppend(a: string, b: string)
    ensures LowerString(a + b) == LowerString(a) + LowerString(b)
    decreases |a|
  {
    if a == [] {
      assert a + b == b;
    } else {
      assert (a + b)[1..] == a[1..] + b;
      LowerStringAppend(a[1..], b);
    }
  }

  lemma {:induction false} FlattenLowerAll(ts: seq<string>)
    ensures Flatten(LowerAll(ts)) == LowerString(Flatten(ts))
    decreases |ts|
  {
    if ts != [] {
      FlattenLowerAll(ts[1..]);
      assert LowerAll(ts)[1..] == LowerAll(ts[1..]);
      LowerStringAppend(ts[0], Flatten(ts[1..]));
    }
  }

  lemma {:induction false} StripLower(s: string)
    ensures Strip(LowerString(s)) == LowerString(Strip(s))
    decreases |s|
  {
    if s != [] {
      StripLower(s[1..]);
      assert LowerString(s)[1..] == LowerString(s[1..]);
      if s[0] != Separator {
        assert LowerString([s[0]] + Strip(s[1..])) == [ToLower(s[0])] + LowerString(Strip(s[1..]));
      }
    }
  }

  /** The conversion only lower-cases and inserts separators: with the
      separators removed, the output is the input lower-cased with its own
      separators removed. */
  lemma OnlySeparatorsInserted(identifier: string, disallowSingleSymbols: bool)
    ensures Strip(CamelToSnake(identifier, disallowSingleSymbols)) == LowerString(Strip(identifier))
  {
    var tokens := Tokenize(identifier);
    var words := if disallowSingleSymbols then MergeSingles(tokens) else tokens;
    if disallowSingleSymbols {
      MergeKeepsCharacters(tokens);
    }
    assert Flatten(words) == identifier;
    StripJoin(LowerAll(words));
    FlattenLowerAll(words);
    StripLower(identifier);
  }

  // ---------------------------------------------------------------------
  // The parametrised vectors.

  /** `lower` is `word` lower-cased, checked letter by letter. */
  lemma LowerLetters(word: string, lower: string)
    requires |word| == |lower|
    requires forall i :: 0 <= i < |word| ==> ToLower(word[i]) == lower[i]
    ensures LowerString(word) == lower
  {
  }

  lemma TokensOfIP()
    ensures Tokenize("IP") == ["IP"]
  {
    var ts := ["IP"];
    assert Flatten(ts) == "IP" + Flatten([]);
    assert IsTokenisation("IP", ts);
    TokenisationUnique("IP", ts);
  }

  lemma TokensOfPodIPs()
    ensures Tokenize("podIPs") == ["pod", "I", "Ps"]
  {
    var ts := ["pod", "I", "Ps"];
    assert Flatten(ts) == "pod" + ("I" + ("Ps" + Flatten([])));
    assert !IsUpper(ts[2][1]);
    assert IsTokenisation("podIPs", ts);
    TokenisationUnique("podIPs", ts);
  }

  lemma TokensOfSomeCamelCased()
    ensures Tokenize("someCamelCased") == ["some", "Camel", "Cased"]
  {
    var ts := ["some", "Camel", "Cased"];
    assert Flatten(ts) == "some" + ("Camel" + ("Cased" + Flatten([])));
    assert IsTokenisation("someCamelCased", ts);
    TokenisationUnique("someCamelCased", ts);
  }

  lemma VectorIP(disallowSingleSymbols: bool)
    ensures CamelToSnake("IP", disallowSingleSymbols) == "ip"
  {
    TokensOfIP();
    assert SingleRunLength(["IP"]) == 0;
    assert MergeSingles(["IP"]) == ["IP"] + MergeSingles([]);
    LowerLetters("IP", "ip");
  }

  lemma VectorSomeCamelCased(disallowSingleSymbols: bool)
    ensures CamelToSnake("someCamelCased", disallowSingleSymbols) == "some_camel_cased"
  {
    var ts := ["some", "Camel", "Cased"];
    TokensOfSomeCamelCased();
    if disallowSingleSymbols {
      assert forall k :: 0 <= k < |ts| ==> |ts[k]| != 1;
      MergeWithoutSingles(ts);
    }
    RenderSomeCamelCased();
  }

  lemma RenderSomeCamelCased()
    ensures Join(LowerAll(["some", "Camel", "Cased"])) == "some_camel_cased"
  {
    LowerLetters("some", "some");
    LowerLetters("Camel", "camel");
    LowerLetters("Cased", "cased");
    LowerAllOf3("some", "Camel", "Cased");
    JoinOf3("some", "camel", "cased");
    assert "some" + "_" + ("camel" + "_" + "cased") == "some_camel_cased";
  }

  lemma VectorPodIPsMerged()
    ensures CamelToSnake("podIPs", true) == "pod_ips"
  {
    TokensOfPodIPs();
    MergeOfPodIPs();
    LowerLetters("pod", "pod");
    LowerLetters("IPs", "ips");
    assert LowerAll(["pod", "IPs"]) == ["pod", "ips"];
    assert Join(["pod", "ips"]) == "pod" + "_" + "ips";
  }

  /** The lone `I` joins `Ps`: the groups are `pod` and `I`,`Ps`. */
  lemma MergeOfPodIPs()
    ensures MergeSingles(["pod", "I", "Ps"]) == ["pod", "IPs"]
  {
    var gs := [["pod"], ["I", "Ps"]];
    assert gs[1..] == [["I", "Ps"]] && gs[1..][1..] == [];
    assert ConcatGroups(gs) == ["pod", "I", "Ps"];
    assert IsMergeGrouping(gs);
    MergeMatchesGrouping(["pod", "I", "Ps"], gs);
    FlattenSingleton("pod");
    assert ["I", "Ps"][1..] == ["Ps"] && ["Ps"][1..] == [];
    assert Flatten(["I", "Ps"]) == "I" + ("Ps" + Flatten([])) == "IPs";
    assert FlattenGroups(gs) == [Flatten(["pod"])] + ([Flatten(["I", "Ps"])] + FlattenGroups([]));
  }

  lemma VectorPodIPsSplit()
    ensures CamelToSnake("podIPs", false) == "pod_i_ps"
  {
    TokensOfPodIPs();
    LowerLetters("pod", "pod");
    LowerLetters("I", "i");
    LowerLetters("Ps", "ps");
    LowerAllOf3("pod", "I", "Ps");
    JoinOf3("pod", "i", "ps");
    assert "pod" + "_" + ("i" + "_" + "ps") == "pod_i_ps";
  }

  lemma LowerAllOf3(a: string, b: string, c: string)
    ensures LowerAll([a, b, c]) == [LowerString(a), LowerString(b), LowerString(c)]
  {
  }

  lemma JoinOf3(a: string, b: string, c: string)
    ensures Join([a, b, c]) == a + "_" + (b + "_" + c)
  {
    assert [Separator] == "_";
    assert [a, b, c][1..] == [b, c];
    assert [b, c][1..] == [c];
    assert Join([c]) == c;
    assert Join([b, c]) == b + "_" + c;
  }
}
