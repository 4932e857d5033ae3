/**
 The JavaScript string operations the dictionary routes rely on:
 `String.prototype.trim`, `toLowerCase`, `split(/\s+/)` and `join(' ')`,
 over strings as sequences of characters.
 */
module Text {

  /** JavaScript's white space: the WhiteSpace and LineTerminator characters.
      `trim` removes exactly these, and the regular-expression class `\s`
      matches exactly these. */
  predicate IsSpace(c: char)
  {
    || c == ' ' || c == '\t' || c == '\n' || c == '\r'
    || c == '\U{000B}' || c == '\U{000C}' || c == '\U{00A0}' || c == '\U{1680}'
    || ('\U{2000}' <= c <= '\U{200A}')
    || c == '\U{2028}' || c == '\U{2029}' || c == '\U{202F}' || c == '\U{205F}'
    || c == '\U{3000}' || c == '\U{FEFF}'
  }

  /** A string with no white space at either end (what `trim` produces). */
  predicate Stripped(s: string)
  {
    s == [] || (!IsSpace(s[0]) && !IsSpace(s[|s| - 1]))
  }

  /** A string with no white space anywhere (one token of `split(/\s+/)`). */
  predicate SpaceFree(s: string)
  {
    forall i :: 0 <= i < |s| ==> !IsSpace(s[i])
  }

  /** Lower-casing of one character; only the ASCII letters are mapped. */
  function ToLowerChar(c: char): char
  {
    if 'A' <= c <= 'Z' then (c as int + 32) as char else c
  }

  /** `s.toLowerCase()`, character by character. */
  function Lower(s: string): (r: string)
    ensures |r| == |s| && LowerCase(r)
  {
    seq(|s|, i requires 0 <= i < |s| => ToLowerChar(s[i]))
  }

  /** Every character is already lower-case. */
  predicate LowerCase(s: string)
  {
    forall i :: 0 <= i < |s| ==> ToLowerChar(s[i]) == s[i]
  }

  lemma LowerCaseFixed(s: string)
    ensures LowerCase(s) <==> Lower(s) == s
  {
    if Lower(s) == s {
      forall i | 0 <= i < |s| ensures ToLowerChar(s[i]) == s[i] {
        assert Lower(s)[i] == ToLowerChar(s[i]);
      }
    }
  }

  /** Equality up to case, as a regular expression with the `i` flag compares. */
  predicate EqualIgnoringCase(a: string, b: string)
  {
    Lower(a) == Lower(b)
  }

  /** Drops the leading white space: the result is the longest suffix of `s`
      that does not start with white space. */
  function TrimStart(s: string): (r: string)
    ensures |r| <= |s| && r == s[|s| - |r|..]
    ensures forall i :: 0 <= i < |s| - |r| ==> IsSpace(s[i])
    ensures r == [] || !IsSpace(r[0])
    decreases |s|
  {
    if |s| > 0 && IsSpace(s[0]) then TrimStart(s[1..]) else s
  }

  /** Drops the trailing white space: the result is the longest prefix of `s`
      that does not end with white space. */
  function TrimEnd(s: string): (r: string)
    ensures |r| <= |s| && r == s[..|r|]
    ensures forall i :: |r| <= i < |s| ==> IsSpace(s[i])
    ensures r == [] || !IsSpace(r[|r| - 1])
    decreases |s|
  {
    if |s| > 0 && IsSpace(s[|s| - 1]) then TrimEnd(s[..|s| - 1]) else s
  }

  /** `r` is the slice of `s` starting at `a`, with only white space on
      either side of it. */
  predicate SliceBetweenSpaces(s: string, a: nat, r: string)
  {
    && a + |r| <= |s| && r == s[a..a + |r|]
    && (forall i :: 0 <= i < a ==> IsSpace(s[i]))
    && (forall i :: a + |r| <= i < |s| ==> IsSpace(s[i]))
  }

  /** `s.trim()`. */
  function Trim(s: string): (r: string)
    ensures Stripped(r)
    ensures |r| <= |s|
  {
    TrimEnd(TrimStart(s))
  }

  /** What `trim` keeps is the slice of `s` left once the white space at
      both ends is dropped. */
  lemma TrimIsSliceBetweenSpaces(s: string)
    ensures SliceBetweenSpaces(s, |s| - |TrimStart(s)|, Trim(s))
  {
    var t := TrimStart(s);
    SliceOfSuffix(s, |s| - |t|, t, TrimEnd(t));
  }

  /** A prefix `r` of the suffix `t` of `s` starting at `a`, with white space
      before `a` and after `r` in `t`, lies between spaces in `s`. */
  lemma SliceOfSuffix(s: string, a: nat, t: string, r: string)
    requires a <= |s| && t == s[a..] && |r| <= |t| && r == t[..|r|]
    requires forall i :: 0 <= i < a ==> IsSpace(s[i])
    requires forall i :: |r| <= i < |t| ==> IsSpace(t[i])
    ensures SliceBetweenSpaces(s, a, r)
  {
    forall i | a + |r| <= i < |s| ensures IsSpace(s[i]) {
      assert s[i] == t[i - a];
    }
  }

  /** `s.trim().toLowerCase()`: the normal form of a phrase, trimmed and
      lower-case. */
  function Clean(s: string): (r: string)
    ensures Stripped(r) && LowerCase(r) && |r| <= |s|
  {
    LowerKeepsStripped(Trim(s));
    Lower(Trim(s))
  }

  lemma TrimOfStripped(s: string)
    requires Stripped(s)
    ensures Trim(s) == s
  {
  }

  lemma LowerIdempotent(s: string)
    ensures Lower(Lower(s)) == Lower(s)
  {
  }

  /** Lower-casing neither creates nor removes white space. */
  lemma LowerKeepsStripped(s: string)
    requires Stripped(s)
    ensures Stripped(Lower(s))
  {
    if s != [] {
      assert Lower(s)[0] == ToLowerChar(s[0]);
      assert Lower(s)[|s| - 1] == ToLowerChar(s[|s| - 1]);
    }
  }

  lemma CleanOfEmpty()
    ensures Clean("") == ""
  {
    assert Trim("") == "";
  }

  /** A cleaned phrase is trimmed and lower-case, so cleaning it again
      changes nothing. */
  lemma {:induction false} CleanIdempotent(s: string)
    ensures Stripped(Clean(s)) && Lower(Clean(s)) == Clean(s)
    ensures Clean(Clean(s)) == Clean(s)
  {
    LowerKeepsStripped(Trim(s));
    TrimOfStripped(Clean(s));
    LowerIdempotent(Trim(s));
  }

  /** A cleaned phrase is trimmed and every character of it is lower-case. */
  lemma CleanIsNormal(s: string)
    ensures Stripped(Clean(s)) && LowerCase(Clean(s))
  {
    CleanIdempotent(s);
    LowerCaseFixed(Clean(s));
  }

  /** The first index at or after `k` holding white space, or `|s|`. */
  function NextSpace(s: string, k: nat): (r: nat)
    requires k <= |s|
    ensures k <= r <= |s| && (r == |s| || IsSpace(s[r]))
    ensures forall i :: k <= i < r ==> !IsSpace(s[i])
    decreases |s| - k
  {
    if k == |s| || IsSpace(s[k]) then k else NextSpace(s, k + 1)
  }

  /** The first index at or after `k` not holding white space, or `|s|`. */
  function SkipSpaces(s: string, k: nat): (r: nat)
    requires k <= |s|
    ensures k <= r <= |s| && (r == |s| || !IsSpace(s[r]))
    ensures forall i :: k <= i < r ==> IsSpace(s[i])
    decreases |s| - k
  {
    if k == |s| || !IsSpace(s[k]) then k else SkipSpaces(s, k + 1)
  }

  /** `s.split(/\s+/)`: the pieces between maximal runs of white space. A
      string without white space is one piece (the empty string gives `[""]`),
      and white space at either end yields an empty first or last piece. */
  function Words(s: string): (r: seq<string>)
    ensures |r| >= 1
    ensures forall i :: 0 <= i < |r| ==> SpaceFree(r[i])
    ensures r[0] <= s
    ensures SpaceFree(s) ==> r == [s]
    ensures s != "" && !IsSpace(s[0]) ==> r[0] != ""
    ensures forall i :: 0 < i < |r| - 1 ==> r[i] != ""
    decreases |s|
  {
    var i := NextSpace(s, 0);
    if i == |s| then [s]
    else [s[..i]] + Words(s[SkipSpaces(s, i)..])
  }

  /** `ts.join(' ')`: starts with the first token and ends with the last. */
  function JoinSpace(ts: seq<string>): (r: string)
    ensures |ts| == 0 ==> r == ""
    ensures |ts| >= 1 ==> ts[0] <= r
    ensures |ts| >= 1 ==> |ts[|ts| - 1]| <= |r| && r[|r| - |ts[|ts| - 1]|..] == ts[|ts| - 1]
  {
    if |ts| == 0 then ""
    else if |ts| == 1 then ts[0]
    else ts[0] + " " + JoinSpace(ts[1..])
  }

  /** A trimmed, non-empty string splits into non-empty tokens. */
  lemma {:induction false} WordsOfStripped(s: string)
    requires Stripped(s) && s != ""
    ensures forall i :: 0 <= i < |Words(s)| ==> Words(s)[i] != ""
  {
    var i := NextSpace(s, 0);
    if i < |s| {
      var j := SkipSpaces(s, i);
      assert !IsSpace(s[|s| - 1]);
      var rest := s[j..];
      assert rest[|rest| - 1] == s[|s| - 1];
      WordsOfStripped(rest);
      assert Words(s) == [s[..i]] + Words(rest);
    }
  }

  /** A token, one space and a remainder that does not start with white
      space split into that token followed by the remainder's tokens. */
  lemma WordsCons(t: string, rest: string)
    requires t != "" && SpaceFree(t) && rest != "" && !IsSpace(rest[0])
    ensures Words(t + " " + rest) == [t] + Words(rest)
  {
    var s := t + " " + rest;
    var n := |t|;
    assert forall k :: 0 <= k < n ==> s[k] == t[k];
    assert s[n] == ' ';
    assert NextSpace(s, 0) == n;
    assert s[n + 1] == rest[0];
    assert SkipSpaces(s, n) == n + 1;
    assert s[..n] == t;
    assert s[n + 1..] == rest;
  }

  /** Splitting undoes joining: tokens that are non-empty and free of white
      space come back unchanged from `split(/\s+/)` after `join(' ')`. */
  lemma {:induction false} WordsJoinSpace(ts: seq<string>)
    requires |ts| >= 1
    requires forall i :: 0 <= i < |ts| ==> ts[i] != "" && SpaceFree(ts[i])
    ensures Words(JoinSpace(ts)) == ts
  {
    if |ts| == 1 {
      assert JoinSpace(ts) == ts[0];
    } else {
      var rest := JoinSpace(ts[1..]);
      assert JoinSpace(ts) == ts[0] + " " + rest;
      WordsJoinSpace(ts[1..]);
      JoinSpaceStartsWithFirst(ts[1..]);
      WordsCons(ts[0], rest);
    }
  }

  /** A join of non-empty tokens begins with the first token's first
      character. */
  lemma {:induction false} JoinSpaceStartsWithFirst(ts: seq<string>)
    requires |ts| >= 1 && ts[0] != ""
    ensures JoinSpace(ts) != "" && JoinSpace(ts)[0] == ts[0][0]
  {
    if |ts| > 1 {
      assert JoinSpace(ts) == ts[0] + " " + JoinSpace(ts[1..]);
    }
  }

  /** The tokens of a lower-case string are lower-case. */
  lemma {:induction false} WordsKeepLowerCase(s: string)
    requires Lower(s) == s
    ensures forall i :: 0 <= i < |Words(s)| ==> Lower(Words(s)[i]) == Words(s)[i]
    decreases |s|
  {
    LowerCaseFixed(s);
    var n := NextSpace(s, 0);
    if n == |s| {
    } else {
      var rest := s[SkipSpaces(s, n)..];
      LowerCaseFixed(rest);
      WordsKeepLowerCase(rest);
      LowerCaseFixed(s[..n]);
      assert Words(s) == [s[..n]] + Words(rest);
    }
  }
}
