/** The placeholder scanner: the fields of a prompt are the non-overlapping
    matches of the pattern `\{[a-zA-Z0-9_]+\}`, left to right.

    The scanner is written by hand.  At a `{` it takes the longest run of
    identifier characters; when that run is non-empty and a `}` follows, the
    whole token is a match and scanning resumes after it, otherwise scanning
    moves on by one character.  Because the identifier class contains neither
    brace, this is exactly the leftmost-first result of the pattern.
 */
module Fields {
  import opened Text

  /** The character class `[a-zA-Z0-9_]`. */
  predicate IsIdentChar(c: char)
  {
    ('a' <= c <= 'z') || ('A' <= c <= 'Z') || ('0' <= c <= '9') || c == '_'
  }

  /** `t` is a whole match of the placeholder pattern: `{`, one or more
      identifier characters, `}`. */
  predicate IsToken(t: string)
  {
    && |t| >= 3
    && t[0] == '{'
    && t[|t| - 1] == '}'
    && forall k :: 1 <= k < |t| - 1 ==> IsIdentChar(t[k])
  }

  /** A possible field name: one or more identifier characters. */
  predicate IsFieldName(n: string)
  {
    |n| >= 1 && forall k :: 0 <= k < |n| ==> IsIdentChar(n[k])
  }

  /** Wrapping a field name in braces gives a token with that name. */
  lemma TokenOf(n: string)
    requires IsFieldName(n)
    ensures IsToken("{" + n + "}") && FieldName("{" + n + "}") == n
  {
    var t := "{" + n + "}";
    assert forall k :: 1 <= k < |t| - 1 ==> t[k] == n[k - 1];
  }

  /** A placeholder token starts at position `q` of `s`. */
  ghost predicate TokenStartsAt(s: string, q: int)
  {
    exists e :: 0 <= q < e <= |s| && IsToken(s[q..e])
  }

  /** The name inside a token's braces. */
  function FieldName(field: string): (name: string)
    requires IsToken(field)
    ensures |name| >= 1
    ensures field == "{" + name + "}"
  {
    field[1..|field| - 1]
  }

  /** The length of the longest run of identifier characters starting at `i`. */
  function IdentRun(s: string, i: nat): (n: nat)
    requires i <= |s|
    ensures i + n <= |s|
    ensures forall k :: i <= k < i + n ==> IsIdentChar(s[k])
    ensures i + n == |s| || !IsIdentChar(s[i + n])
    decreases |s| - i
  {
    if i < |s| && IsIdentChar(s[i]) then 1 + IdentRun(s, i + 1) else 0
  }

  /** The scanner's test: at `q` there is a `{`, a non-empty run of
      identifier characters, and then a `}`. */
  predicate MatchAt(s: string, q: int)
  {
    && 0 <= q < |s|
    && s[q] == '{'
    && var n := IdentRun(s, q + 1);
    && n > 0
    && q + 1 + n < |s|
    && s[q + 1 + n] == '}'
  }

  /** One past the closing brace of the match at `q`. */
  function MatchEnd(s: string, q: int): (e: nat)
    requires MatchAt(s, q)
    ensures q + 3 <= e <= |s|
  {
    q + IdentRun(s, q + 1) + 2
  }

  /** The start positions of the matches at or after `i`, left to right. */
  function ScanFrom(s: string, i: nat): (starts: seq<nat>)
    requires i <= |s|
    decreases |s| - i
  {
    if i == |s| then
      []
    else if MatchAt(s, i) then
      [i] + ScanFrom(s, MatchEnd(s, i))
    else
      ScanFrom(s, i + 1)
  }

  /** `starts` lists exactly the matches of `s` at or after `i`, in
      increasing order and without overlap. */
  predicate IsScanOf(s: string, i: nat, starts: seq<nat>)
  {
    && (forall k :: 0 <= k < |starts| ==> i <= starts[k] && MatchAt(s, starts[k]))
    && (forall k, l :: 0 <= k < l < |starts| ==> MatchEnd(s, starts[k]) <= starts[l])
    && (forall q :: i <= q < |s| ==> (MatchAt(s, q) <==> q in starts))
  }

  /** A match at `i`, nothing starting inside it, and the scan after it: the
      scan from `i`. */
  lemma ScanCons(s: string, i: nat, rest: seq<nat>)
    requires MatchAt(s, i) && IsScanOf(s, MatchEnd(s, i), rest)
    requires forall q :: i < q < MatchEnd(s, i) ==> !MatchAt(s, q)
    ensures IsScanOf(s, i, [i] + rest)
  {
    ScanConsMatches(s, i, rest);
    ScanConsOrdered(s, i, rest);
    ScanConsComplete(s, i, rest);
  }

  /** The first part of `ScanCons`: every entry is a match at or after `i`. */
  lemma ScanConsMatches(s: string, i: nat, rest: seq<nat>)
    requires MatchAt(s, i) && IsScanOf(s, MatchEnd(s, i), rest)
    ensures forall k :: 0 <= k < |[i] + rest| ==> i <= ([i] + rest)[k] && MatchAt(s, ([i] + rest)[k])
  {
    var starts := [i] + rest;
    forall k | 0 < k < |starts| ensures i <= starts[k] && MatchAt(s, starts[k]) {
      assert starts[k] == rest[k - 1];
    }
  }

  /** The second part of `ScanCons`: the entries do not overlap. */
  lemma ScanConsOrdered(s: string, i: nat, rest: seq<nat>)
    requires MatchAt(s, i) && IsScanOf(s, MatchEnd(s, i), rest)
    ensures forall k :: 0 <= k < |[i] + rest| ==> MatchAt(s, ([i] + rest)[k])
    ensures forall k, l :: 0 <= k < l < |[i] + rest| ==> MatchEnd(s, ([i] + rest)[k]) <= ([i] + rest)[l]
  {
    ScanConsMatches(s, i, rest);
    var starts := [i] + rest;
    forall k, l | 0 <= k < l < |starts| ensures MatchEnd(s, starts[k]) <= starts[l] {
      assert starts[l] == rest[l - 1];
      if k > 0 {
        assert starts[k] == rest[k - 1];
      }
    }
  }

  /** The third part of `ScanCons`: no match from `i` on is missed. */
  lemma ScanConsComplete(s: string, i: nat, rest: seq<nat>)
    requires MatchAt(s, i) && IsScanOf(s, MatchEnd(s, i), rest)
    requires forall q :: i < q < MatchEnd(s, i) ==> !MatchAt(s, q)
    ensures forall q :: i <= q < |s| ==> (MatchAt(s, q) <==> q in [i] + rest)
  {
    forall q | i <= q < |s| ensures MatchAt(s, q) <==> q in [i] + rest {
      assert q in [i] + rest <==> q == i || q in rest;
    }
  }

  /** The scanner finds every match at or after `i`, in increasing order and
      without overlap. */
  lemma {:induction false} ScanFromComplete(s: string, i: nat)
    requires i <= |s|
    ensures IsScanOf(s, i, ScanFrom(s, i))
    decreases |s| - i
  {
    if i == |s| {
    } else if MatchAt(s, i) {
      var e := MatchEnd(s, i);
      NoMatchInside(s, i);
      ScanFromComplete(s, e);
      ScanCons(s, i, ScanFrom(s, e));
      assert ScanFrom(s, i) == [i] + ScanFrom(s, e);
    } else {
      ScanFromComplete(s, i + 1);
      assert ScanFrom(s, i) == ScanFrom(s, i + 1);
    }
  }

  /** No match starts strictly inside another: the characters after a `{`
      are identifier characters and the closing `}`. */
  lemma NoMatchInside(s: string, i: int)
    requires MatchAt(s, i)
    ensures forall q :: i < q < MatchEnd(s, i) ==> !MatchAt(s, q)
  {
    forall q | i < q < MatchEnd(s, i)
      ensures s[q] != '{'
    {
      if q < MatchEnd(s, i) - 1 {
        assert IsIdentChar(s[q]);
      }
    }
  }

  /** Positions where no match starts are passed over by the scanner. */
  lemma {:induction false} ScanSkips(s: string, i: nat, j: nat)
    requires i <= j <= |s|
    requires forall q :: i <= q < j ==> !MatchAt(s, q)
    ensures ScanFrom(s, i) == ScanFrom(s, j)
    decreases j - i
  {
    if i < j {
      ScanSkips(s, i + 1, j);
    }
  }

  /** The start positions, in characters, of the matches `FindAllString`
      returns for the placeholder pattern. */
  function FieldStarts(p: string): (starts: seq<nat>)
    ensures forall k :: 0 <= k < |starts| ==> MatchAt(p, starts[k])
  {
    ScanFromComplete(p, 0);
    ScanFrom(p, 0)
  }

  /** `getFields`: every placeholder token of `p`, left to right, repeats
      included. */
  function GetFields(p: string): (fields: seq<string>)
    ensures |fields| == |FieldStarts(p)|
    ensures forall k :: 0 <= k < |fields| ==> IsToken(fields[k])
    ensures forall k :: 0 <= k < |fields| ==> OccursAt(p, fields[k], FieldStarts(p)[k])
  {
    TokensAtIndex(p, FieldStarts(p));
    AllMatchTokens(p, FieldStarts(p));
    TokensAt(p, FieldStarts(p))
  }

  /** The texts of the matches at `starts`, in order. */
  function TokensAt(s: string, starts: seq<nat>): (tokens: seq<string>)
    requires forall k :: 0 <= k < |starts| ==> MatchAt(s, starts[k])
    ensures |tokens| == |starts|
    decreases |starts|
  {
    if |starts| == 0 then [] else [MatchToken(s, starts[0])] + TokensAt(s, starts[1..])
  }

  /** Each entry of `TokensAt` is the text of the match at its position. */
  lemma {:induction false} TokensAtIndex(s: string, starts: seq<nat>)
    requires forall k :: 0 <= k < |starts| ==> MatchAt(s, starts[k])
    ensures forall k :: 0 <= k < |starts| ==> TokensAt(s, starts)[k] == MatchToken(s, starts[k])
    decreases |starts|
  {
    if |starts| > 0 {
      TokensAtIndex(s, starts[1..]);
      forall k | 0 < k < |starts| ensures TokensAt(s, starts)[k] == MatchToken(s, starts[k]) {
        assert starts[k] == starts[1..][k - 1];
      }
    }
  }

  /** The text of the match at `q`. */
  function MatchToken(s: string, q: int): (t: string)
    requires MatchAt(s, q)
    ensures |t| == MatchEnd(s, q) - q
  {
    s[q..MatchEnd(s, q)]
  }

  /** The text of a match is a token, and it is what `s` holds there. */
  lemma MatchTokenIsToken(s: string, q: int)
    requires MatchAt(s, q)
    ensures IsToken(MatchToken(s, q)) && OccursAt(s, MatchToken(s, q), q)
  {
  }

  /** `MatchTokenIsToken` for a whole list of match positions. */
  lemma AllMatchTokens(s: string, starts: seq<nat>)
    requires forall k :: 0 <= k < |starts| ==> MatchAt(s, starts[k])
    ensures forall k :: 0 <= k < |starts| ==>
              IsToken(MatchToken(s, starts[k])) && OccursAt(s, MatchToken(s, starts[k]), starts[k])
  {
    forall k | 0 <= k < |starts|
      ensures IsToken(MatchToken(s, starts[k])) && OccursAt(s, MatchToken(s, starts[k]), starts[k])
    {
      MatchTokenIsToken(s, starts[k]);
    }
  }

  /** A run of identifier characters ended by a non-identifier character (or
      the end of the text) is the longest run. */
  lemma {:induction false} IdentRunExact(s: string, i: nat, n: nat)
    requires i + n <= |s|
    requires forall k :: i <= k < i + n ==> IsIdentChar(s[k])
    requires i + n == |s| || !IsIdentChar(s[i + n])
    ensures IdentRun(s, i) == n
    decreases n
  {
    if n > 0 {
      IdentRunExact(s, i + 1, n - 1);
    }
  }

  /** The scanner's test agrees with the pattern: a match starts at `q`
      exactly when some token starts there, and that token ends where the
      scanner says it does. */
  lemma MatchAtIsTokenStart(s: string, q: int)
    ensures MatchAt(s, q) <==> TokenStartsAt(s, q)
    ensures forall e :: 0 <= q < e <= |s| && IsToken(s[q..e]) ==> MatchAt(s, q) && e == MatchEnd(s, q)
  {
    if MatchAt(s, q) {
      assert IsToken(s[q..MatchEnd(s, q)]);
    }
    forall e | 0 <= q < e <= |s| && IsToken(s[q..e])
      ensures MatchAt(s, q) && e == MatchEnd(s, q)
    {
      var t := s[q..e];
      assert forall k :: q + 1 <= k < e - 1 ==> IsIdentChar(s[k]) by {
        forall k | q + 1 <= k < e - 1 ensures IsIdentChar(s[k]) {
          assert s[k] == t[k - q];
        }
      }
      assert s[e - 1] == t[|t| - 1] == '}';
      IdentRunExact(s, q + 1, e - q - 2);
    }
  }

  /** The fields of `p` are the tokens at every position where the pattern
      matches, in increasing position order and without overlap. */
  lemma FieldsAreAllTokens(p: string)
    ensures forall q :: TokenStartsAt(p, q) <==> q in FieldStarts(p)
    ensures forall k, l :: 0 <= k < l < |GetFields(p)| ==>
              FieldStarts(p)[k] + |GetFields(p)[k]| <= FieldStarts(p)[l]
  {
    ScanFromComplete(p, 0);
    TokensAtIndex(p, FieldStarts(p));
    forall q ensures TokenStartsAt(p, q) <==> MatchAt(p, q) {
      MatchAtIsTokenStart(p, q);
    }
  }

  /** A prompt without `{` has no fields. */
  lemma NoBraceNoFields(p: string)
    requires '{' !in p
    ensures GetFields(p) == []
  {
    forall q | 0 <= q < |p| ensures !MatchAt(p, q) {
      assert p[q] in p;
    }
    var starts := FieldStarts(p);
    assert |starts| > 0 ==> MatchAt(p, starts[0]);
  }

  /** Every position moved along by `d`. */
  function Shift(xs: seq<nat>, d: nat): (ys: seq<nat>)
    ensures |ys| == |xs|
    ensures forall k :: 0 <= k < |xs| ==> ys[k] == xs[k] + d
  {
    seq(|xs|, k requires 0 <= k < |xs| => xs[k] + d)
  }

  /** The identifier run at a position of `b` does not depend on what comes
      before `b`. */
  lemma {:induction false} IdentRunShift(a: string, b: string, i: nat)
    requires i <= |b|
    ensures IdentRun(a + b, |a| + i) == IdentRun(b, i)
    decreases |b| - i
  {
    assert forall k :: 0 <= k < |b| ==> (a + b)[|a| + k] == b[k];
    if i < |b| && IsIdentChar(b[i]) {
      IdentRunShift(a, b, i + 1);
    }
  }

  /** A match at a position of `b` does not depend on what comes before `b`. */
  lemma MatchShift(a: string, b: string, q: nat)
    ensures MatchAt(a + b, |a| + q) <==> MatchAt(b, q)
    ensures MatchAt(b, q) ==> MatchEnd(a + b, |a| + q) == |a| + MatchEnd(b, q)
  {
    assert forall k :: 0 <= k < |b| ==> (a + b)[|a| + k] == b[k];
    if q < |b| {
      IdentRunShift(a, b, q + 1);
    }
  }

  /** Shifting distributes over a leading element. */
  lemma ShiftCons(x: nat, xs: seq<nat>, d: nat)
    ensures Shift([x] + xs, d) == [x + d] + Shift(xs, d)
  {
  }

  /** Scanning the `b` part of `a + b` finds the matches of `b`, moved along
      by `|a|`. */
  lemma {:induction false} ScanShift(a: string, b: string, i: nat)
    requires i <= |b|
    ensures ScanFrom(a + b, |a| + i) == Shift(ScanFrom(b, i), |a|)
    decreases |b| - i
  {
    MatchShift(a, b, i);
    if i == |b| {
      assert ScanFrom(a + b, |a| + i) == [];
    } else if MatchAt(b, i) {
      ScanShift(a, b, MatchEnd(b, i));
      ScanShiftMatch(a, b, i);
    } else {
      ScanShift(a, b, i + 1);
      assert ScanFrom(a + b, |a| + i) == ScanFrom(a + b, |a| + i + 1);
      assert ScanFrom(b, i) == ScanFrom(b, i + 1);
    }
  }

  /** The step of `ScanShift` at a match: both scans record it and resume
      after it. */
  lemma ScanShiftMatch(a: string, b: string, i: nat)
    requires i < |b| && MatchAt(b, i)
    requires ScanFrom(a + b, |a| + MatchEnd(b, i)) == Shift(ScanFrom(b, MatchEnd(b, i)), |a|)
    ensures ScanFrom(a + b, |a| + i) == Shift(ScanFrom(b, i), |a|)
  {
    var s := a + b;
    var e := MatchEnd(b, i);
    var q := |a| + i;
    MatchShift(a, b, i);
    ScanAtMatch(s, q);
    ScanAtMatch(b, i);
    ShiftCons(i, ScanFrom(b, e), |a|);
  }

  /** At a match, the scan records it and resumes after it. */
  lemma ScanAtMatch(s: string, q: nat)
    requires q < |s| && MatchAt(s, q)
    ensures ScanFrom(s, q) == [q] + ScanFrom(s, MatchEnd(s, q))
  {
  }


  /** The text of a match in `b` does not depend on what comes before `b`. */
  lemma MatchTokenShift(a: string, b: string, q: nat)
    requires MatchAt(b, q)
    ensures MatchAt(a + b, |a| + q) && MatchToken(a + b, |a| + q) == MatchToken(b, q)
  {
    MatchShift(a, b, q);
    assert (a + b)[|a| + q..|a| + MatchEnd(b, q)] == b[q..MatchEnd(b, q)];
  }

  /** Matches of `b` are matches of `a + b`, moved along by `|a|`. */
  lemma MatchesShift(a: string, b: string, xs: seq<nat>)
    requires forall k :: 0 <= k < |xs| ==> MatchAt(b, xs[k])
    ensures forall k :: 0 <= k < |xs| ==> MatchAt(a + b, Shift(xs, |a|)[k])
  {
    forall k | 0 <= k < |xs| ensures MatchAt(a + b, Shift(xs, |a|)[k]) {
      MatchShift(a, b, xs[k]);
    }
  }

  /** The texts of matches of `b`, read in `a + b` at the shifted positions,
      are the texts read in `b`. */
  lemma {:induction false} TokensShift(a: string, b: string, xs: seq<nat>)
    requires forall k :: 0 <= k < |xs| ==> MatchAt(b, xs[k])
    requires forall k :: 0 <= k < |xs| ==> MatchAt(a + b, Shift(xs, |a|)[k])
    ensures TokensAt(a + b, Shift(xs, |a|)) == TokensAt(b, xs)
    decreases |xs|
  {
    if |xs| > 0 {
      assert Shift(xs[1..], |a|) == Shift(xs, |a|)[1..];
      TokensShift(a, b, xs[1..]);
      TokensShiftStep(a, b, xs);
    }
  }

  /** The inductive step of `TokensShift`: the heads agree, and the tails
      agree by hypothesis. */
  lemma TokensShiftStep(a: string, b: string, xs: seq<nat>)
    requires |xs| > 0
    requires forall k :: 0 <= k < |xs| ==> MatchAt(b, xs[k])
    requires forall k :: 0 <= k < |xs| ==> MatchAt(a + b, Shift(xs, |a|)[k])
    requires TokensAt(a + b, Shift(xs, |a|)[1..]) == TokensAt(b, xs[1..])
    ensures TokensAt(a + b, Shift(xs, |a|)) == TokensAt(b, xs)
  {
    MatchTokenShift(a, b, xs[0]);
  }

  /** A prefix in which no match starts contributes no fields. */
  lemma FieldsAfterUnmatchedPrefix(a: string, b: string)
    requires forall q :: 0 <= q < |a| ==> !MatchAt(a + b, q)
    ensures GetFields(a + b) == GetFields(b)
  {
    ScanSkips(a + b, 0, |a|);
    ScanShift(a, b, 0);
    MatchesShift(a, b, FieldStarts(b));
    TokensShift(a, b, FieldStarts(b));
  }

  /** A prefix without `{` contributes no fields. */
  lemma FieldsAfterPlainPrefix(a: string, b: string)
    requires '{' !in a
    ensures GetFields(a + b) == GetFields(b)
  {
    forall q | 0 <= q < |a| ensures !MatchAt(a + b, q) {
      assert (a + b)[q] == a[q] && a[q] in a;
    }
    FieldsAfterUnmatchedPrefix(a, b);
  }

  /** After a leading token, scanning resumes right after it. */
  lemma StartsAfterToken(t: string, b: string)
    requires IsToken(t)
    ensures FieldStarts(t + b) == [0] + Shift(FieldStarts(b), |t|)
    ensures MatchAt(t + b, 0) && MatchToken(t + b, 0) == t
  {
    var s := t + b;
    assert s[..|t|] == t;
    assert forall k :: 1 <= k < |t| - 1 ==> IsIdentChar(s[k]);
    IdentRunExact(s, 1, |t| - 2);
    assert MatchAt(s, 0) && MatchEnd(s, 0) == |t|;
    assert ScanFrom(s, 0) == [0] + ScanFrom(s, |t|);
    ScanShift(t, b, 0);
  }

  /** A leading token is the first field, and scanning resumes right after
      it. */
  lemma FieldsAfterToken(t: string, b: string)
    requires IsToken(t)
    ensures GetFields(t + b) == [t] + GetFields(b)
  {
    var s := t + b;
    StartsAfterToken(t, b);
    var sh := Shift(FieldStarts(b), |t|);
    MatchesShift(t, b, FieldStarts(b));
    TokensShift(t, b, FieldStarts(b));
    assert ([0] + sh)[1..] == sh;
    assert TokensAt(s, [0] + sh) == [t] + TokensAt(s, sh);
  }

  /** Inside a token the only `{` is the first character and the only `}`
      is the last. */
  lemma TokenBraces(t: string)
    requires IsToken(t)
    ensures forall k :: 0 < k < |t| ==> t[k] != '{'
    ensures forall k :: 0 <= k < |t| - 1 ==> t[k] != '}'
  {
    forall k | 0 < k < |t| - 1 ensures t[k] != '{' && t[k] != '}' {
      assert IsIdentChar(t[k]);
    }
  }

  /** A token does not occur in a different token that follows a text
      without `{`. */
  lemma TokenNotInOther(b: string, t: string, u: string)
    requires '{' !in b && IsToken(t) && IsToken(u) && t != u
    ensures !Occurs(b + u, t)
  {
    var s := b + u;
    TokenBraces(t);
    TokenBraces(u);
    forall i | 0 <= i <= |s| ensures !OccursAt(s, t, i) {
      if i + |t| <= |s| {
        if i < |b| {
          assert s[i] == b[i] && b[i] in b;
        } else if i > |b| {
          assert s[i] == u[i - |b|];
        } else if |t| < |u| {
          assert s[i + |t| - 1] == u[|t| - 1];
        } else {
          assert s[i..i + |t|] == u;
        }
      }
    }
  }
}
