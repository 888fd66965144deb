/** String searching and replacement, as Go's `strings.Index`, `strings.Split`,
    `strings.Join` and `strings.Replace(s, old, new, -1)` behave for a
    non-empty search string.
 */
module Text {

  /** `t` occurs in `s` starting at position `i`. */
  predicate OccursAt(s: string, t: string, i: int)
  {
    0 <= i && i + |t| <= |s| && s[i..i + |t|] == t
  }

  /** `t` occurs somewhere in `s`. */
  predicate Occurs(s: string, t: string)
  {
    exists i :: 0 <= i <= |s| && OccursAt(s, t, i)
  }

  /** The position of the first occurrence of `t` in `s`, or -1. */
  function IndexOf(s: string, t: string): (r: int)
    ensures r == -1 || OccursAt(s, t, r)
    ensures forall i :: 0 <= i < r ==> !OccursAt(s, t, i)
    ensures r == -1 <==> !Occurs(s, t)
    decreases |s|
  {
    if |s| < |t| then
      -1
    else if s[..|t|] == t then
      0
    else
      var k := IndexOf(s[1..], t);
      assert forall i :: 1 <= i ==> (OccursAt(s, t, i) <==> OccursAt(s[1..], t, i - 1));
      if k == -1 then -1 else k + 1
  }

  /** The text between the separators, glued back together with `sep`. */
  function Join(pieces: seq<string>, sep: string): string
  {
    if |pieces| == 0 then ""
    else if |pieces| == 1 then pieces[0]
    else pieces[0] + sep + Join(pieces[1..], sep)
  }

  /** The pieces of `s` between the non-overlapping occurrences of `sep`,
      found left to right. */
  function Split(s: string, sep: string): (pieces: seq<string>)
    requires |sep| > 0
    ensures |pieces| >= 1
    ensures Join(pieces, sep) == s
    ensures forall k :: 0 <= k < |pieces| ==> !Occurs(pieces[k], sep)
    ensures !Occurs(s, sep) ==> pieces == [s]
    decreases |s|
  {
    var j := IndexOf(s, sep);
    if j == -1 then
      [s]
    else
      var head := s[..j];
      NoneBeforeFirst(s, sep, j);
      var rest := Split(s[j + |sep|..], sep);
      JoinCons(head, rest, sep);
      AroundOccurrence(s, sep, j);
      [head] + rest
  }

  /** The text before the first occurrence of `t` does not contain `t`. */
  lemma NoneBeforeFirst(s: string, t: string, j: int)
    requires |t| > 0 && 0 <= j <= |s|
    requires forall i :: 0 <= i < j ==> !OccursAt(s, t, i)
    ensures !Occurs(s[..j], t)
  {
    forall i | 0 <= i <= j ensures !OccursAt(s[..j], t, i) {
      if i + |t| <= j {
        assert !OccursAt(s, t, i);
        assert s[..j][i..i + |t|] == s[i..i + |t|];
      }
    }
  }

  /** A text is what comes before an occurrence, the occurrence, and what
      comes after it. */
  lemma AroundOccurrence(s: string, t: string, j: int)
    requires OccursAt(s, t, j)
    ensures s == s[..j] + t + s[j + |t|..]
  {
    assert s[j..] == s[j..j + |t|] + s[j + |t|..];
    assert s == s[..j] + s[j..];
  }

  /** Joining puts the separator after the first piece. */
  lemma JoinCons(head: string, rest: seq<string>, sep: string)
    requires |rest| >= 1
    ensures Join([head] + rest, sep) == head + sep + Join(rest, sep)
  {
    assert ([head] + rest)[1..] == rest;
  }

  /** Every non-overlapping occurrence of `pattern` in `s`, found left to right,
      replaced by `value`. */
  function ReplaceAll(s: string, pattern: string, value: string): (r: string)
    requires |pattern| > 0
    ensures IndexOf(s, pattern) == -1 ==> r == s
    ensures IndexOf(s, pattern) >= 0 ==> OccursAt(r, value, IndexOf(s, pattern))
  {
    var j := IndexOf(s, pattern);
    if j == -1 then
      Join(Split(s, pattern), value)
    else
      var rest := Split(s[j + |pattern|..], pattern);
      JoinCons(s[..j], rest, value);
      var r := Join(Split(s, pattern), value);
      assert r[j..j + |value|] == value;
      r
  }

  /** The two cases where Go's `strings.Replace` returns its input: the
      pattern does not occur, or it is replaced by itself. */
  lemma ReplaceAllUnchanged(s: string, pattern: string, value: string)
    requires |pattern| > 0
    ensures !Occurs(s, pattern) ==> ReplaceAll(s, pattern, value) == s
    ensures pattern == value ==> ReplaceAll(s, pattern, value) == s
  {
  }

  /** Replacement works left to right: the text before the first occurrence
      is kept, the occurrence becomes `value`, and the rest is replaced in
      turn. */
  lemma ReplaceAllFirst(s: string, pattern: string, value: string, j: int)
    requires |pattern| > 0
    requires OccursAt(s, pattern, j)
    requires forall i :: 0 <= i < j ==> !OccursAt(s, pattern, i)
    ensures ReplaceAll(s, pattern, value) == s[..j] + value + ReplaceAll(s[j + |pattern|..], pattern, value)
  {
    assert IndexOf(s, pattern) == j;
    var rest := Split(s[j + |pattern|..], pattern);
    assert Split(s, pattern) == [s[..j]] + rest;
    assert ([s[..j]] + rest)[1..] == rest;
  }

  /** A pattern that begins with a character absent from `s` does not occur
      in `s`. */
  lemma AbsentFirstChar(s: string, pattern: string)
    requires |pattern| > 0 && pattern[0] !in s
    ensures !Occurs(s, pattern)
  {
    forall i | 0 <= i < |s| ensures !OccursAt(s, pattern, i) {
      assert s[i] in s;
    }
  }

  /** When the pattern does not occur in the text before it, the first
      occurrence is the one right after the prefix. */
  lemma ReplaceAfterUnmatchedPrefix(a: string, pattern: string, b: string, value: string)
    requires |pattern| > 0
    requires forall i :: 0 <= i < |a| ==> !OccursAt(a + pattern + b, pattern, i)
    ensures ReplaceAll(a + pattern + b, pattern, value) == a + value + ReplaceAll(b, pattern, value)
  {
    var s := a + pattern + b;
    assert s[|a|..|a| + |pattern|] == pattern;
    ReplaceAllFirst(s, pattern, value, |a|);
    assert s[..|a|] == a && s[|a| + |pattern|..] == b;
  }

  /** When the first character of the pattern does not occur before it, the
      first occurrence is the one right after the prefix. */
  lemma ReplaceAfterPrefix(a: string, pattern: string, b: string, value: string)
    requires |pattern| > 0 && pattern[0] !in a
    ensures ReplaceAll(a + pattern + b, pattern, value) == a + value + ReplaceAll(b, pattern, value)
  {
    var s := a + pattern + b;
    forall i | 0 <= i < |a| ensures !OccursAt(s, pattern, i) {
      assert s[i] == a[i] && a[i] in a;
    }
    ReplaceAfterUnmatchedPrefix(a, pattern, b, value);
  }

  /** A pattern at the very end, after a text free of its first character,
      is the only replacement. */
  lemma ReplaceAtEnd(a: string, pattern: string, value: string)
    requires |pattern| > 0 && pattern[0] !in a
    ensures ReplaceAll(a + pattern, pattern, value) == a + value
  {
    ReplaceAfterPrefix(a, pattern, [], value);
    assert a + pattern + [] == a + pattern;
    assert ReplaceAll([], pattern, value) == [];
    assert a + value + [] == a + value;
  }
}
