/** Behaviours of the library on shaped inputs: how repeated placeholders
    are counted, how duplicate argument names resolve, how a later
    substitution pass reaches into earlier values, how a replacement can put
    a new token together, and the merge outcomes for a name that is already
    present.  The prompts are generic: `a` and `b` stand for any text
    without `{`, `t`, `t1`, `t2` for any placeholder tokens.
 */
module Scenarios {
  import opened Outcomes
  import opened Text
  import opened Fields
  import opened Interpolation
  import opened Library

  /** Concatenation regrouped. */
  lemma Regroup(a: string, b: string, c: string)
    ensures a + b + c == a + (b + c)
  {
  }

  /** Both copies of a pattern are replaced when the texts before them are
      free of its first character. */
  lemma TwoCopiesReplaced(a: string, t: string, b: string, v: string)
    requires |t| > 0 && t[0] !in a && t[0] !in b
    ensures ReplaceAll(a + t + b + t, t, v) == a + v + b + v
  {
    Regroup(a + t, b, t);
    ReplaceAfterPrefix(a, t, b + t, v);
    ReplaceAtEnd(b, t, v);
    Regroup(a + v, b, v);
  }

  /** A lone token is the only field of itself. */
  lemma SingleTokenFields(t: string)
    requires IsToken(t)
    ensures GetFields(t) == [t]
  {
    FieldsAfterToken(t, []);
    assert t + [] == t;
    NoBraceNoFields([]);
  }

  /** Two tokens after texts without `{` are the two fields, also when they
      are the same token. */
  lemma TwoFieldsScan(a: string, t1: string, b: string, t2: string)
    requires '{' !in a && '{' !in b && IsToken(t1) && IsToken(t2)
    ensures GetFields(a + t1 + b + t2) == [t1, t2]
  {
    Regroup(a + t1, b, t2);
    Regroup(a, t1, b + t2);
    FieldsAfterPlainPrefix(a, t1 + (b + t2));
    FieldsAfterToken(t1, b + t2);
    FieldsAfterPlainPrefix(b, t2);
    SingleTokenFields(t2);
  }

  /** Occurrences are counted, not names: one pair of arguments for a
      placeholder written twice is a count error. */
  lemma RepeatedFieldOnePair(a: string, t: string, b: string, v: string)
    requires '{' !in a && '{' !in b && IsToken(t)
    ensures Interpolate(a + t + b + t, [FieldName(t), v]) == Err(CountMismatch([t, t]))
  {
    TwoFieldsScan(a, t, b, t);
  }

  /** Substitution of exactly two bound fields is the two replacement
      passes in order. */
  lemma SubstituteTwo(p: string, t1: string, t2: string, m: map<string, string>, s1: string, s2: string)
    requires IsToken(t1) && IsToken(t2)
    requires FieldName(t1) in m && FieldName(t2) in m
    requires s1 == ReplaceAll(p, t1, m[FieldName(t1)])
    requires s2 == ReplaceAll(s1, t2, m[FieldName(t2)])
    ensures Substitute(p, [t1, t2], [t1, t2], m) == Ok(s2)
  {
    var fields := [t1, t2];
    assert fields[1..] == [t2];
    assert [t2][1..] == [];
    assert Substitute(s1, [t2], fields, m) == Substitute(s2, [], fields, m);
  }

  /** Interpolation of a prompt with exactly two fields, both bound, is the
      two replacement passes in order. */
  lemma InterpolateTwoFields(p: string, t1: string, t2: string, args: seq<string>)
    requires IsToken(t1) && IsToken(t2) && |args| == 4
    ensures GetFields(p) == [t1, t2] && FieldName(t1) in ArgMap(args) && FieldName(t2) in ArgMap(args) ==>
              Interpolate(p, args) ==
              Ok(ReplaceAll(ReplaceAll(p, t1, ArgMap(args)[FieldName(t1)]), t2, ArgMap(args)[FieldName(t2)]))
  {
    if GetFields(p) == [t1, t2] && FieldName(t1) in ArgMap(args) && FieldName(t2) in ArgMap(args) {
      var m := ArgMap(args);
      var s1 := ReplaceAll(p, t1, m[FieldName(t1)]);
      SubstituteTwo(p, t1, t2, m, s1, ReplaceAll(s1, t2, m[FieldName(t2)]));
    }
  }

  /** The map for two pairs with the same name keeps the second value. */
  lemma SameNameMap(n: string, v1: string, v2: string)
    ensures ArgMap([n, v1, n, v2]) == map[n := v2]
  {
    assert [n, v1, n, v2][..2] == [n, v1];
  }

  /** The map for two pairs with different names. */
  lemma TwoPairMap(n1: string, v1: string, n2: string, v2: string)
    requires n1 != n2
    ensures ArgMap([n1, v1, n2, v2]) == map[n1 := v1, n2 := v2]
  {
    assert [n1, v1, n2, v2][..2] == [n1, v1];
  }

  /** Two pairs for a placeholder written twice: the map keeps the later
      value, and the first replacement pass fills both copies with it. */
  lemma RepeatedFieldTwoPairs(a: string, t: string, b: string, v1: string, v2: string)
    requires '{' !in a && '{' !in b && '{' !in v2 && IsToken(t)
    ensures Interpolate(a + t + b + t, [FieldName(t), v1, FieldName(t), v2]) == Ok(a + v2 + b + v2)
  {
    var n := FieldName(t);
    TwoFieldsScan(a, t, b, t);
    SameNameMap(n, v1, v2);
    TwoCopiesReplaced(a, t, b, v2);
    var s1 := a + v2 + b + v2;
    assert '{' !in s1;
    AbsentFirstChar(s1, t);
    ReplaceAllUnchanged(s1, t, v2);
    InterpolateTwoFields(a + t + b + t, t, t, [n, v1, n, v2]);
  }

  /** The replacement of a token that, after a plain prefix, is followed by
      plain text and a different token. */
  lemma FirstOfTwoReplaced(a: string, t1: string, b: string, t2: string, v1: string)
    requires '{' !in a && '{' !in b && IsToken(t1) && IsToken(t2) && t1 != t2
    ensures ReplaceAll(a + t1 + b + t2, t1, v1) == a + v1 + b + t2
  {
    Regroup(a + t1, b, t2);
    ReplaceAfterPrefix(a, t1, b + t2, v1);
    TokenNotInOther(b, t1, t2);
    ReplaceAllUnchanged(b + t2, t1, v1);
    Regroup(a + v1, b, t2);
  }

  /** Two different placeholders, each given a plain value: every
      placeholder is filled with its own value. */
  lemma TwoFieldsFilled(a: string, t1: string, b: string, t2: string, v1: string, v2: string)
    requires '{' !in a && '{' !in b && '{' !in v1 && '{' !in v2
    requires IsToken(t1) && IsToken(t2) && FieldName(t1) != FieldName(t2)
    ensures Interpolate(a + t1 + b + t2, [FieldName(t1), v1, FieldName(t2), v2]) == Ok(a + v1 + b + v2)
  {
    var n1, n2 := FieldName(t1), FieldName(t2);
    TwoFieldsScan(a, t1, b, t2);
    TwoPairMap(n1, v1, n2, v2);
    FirstOfTwoReplaced(a, t1, b, t2, v1);
    assert '{' !in a + v1 + b;
    ReplaceAtEnd(a + v1 + b, t2, v2);
    TwoPasses(a + t1 + b + t2, t1, t2, [n1, v1, n2, v2], a + v1 + b + t2, a + v1 + b + v2);
  }

  /** A value that is itself a later field's token is rewritten by that
      later pass: earlier values are not protected. */
  lemma LaterPassRewritesValue(a: string, t1: string, b: string, t2: string, w: string)
    requires '{' !in a && '{' !in b && '{' !in w
    requires IsToken(t1) && IsToken(t2) && FieldName(t1) != FieldName(t2)
    ensures Interpolate(a + t1 + b + t2, [FieldName(t1), t2, FieldName(t2), w]) == Ok(a + w + b + w)
  {
    var n1, n2 := FieldName(t1), FieldName(t2);
    TwoFieldsScan(a, t1, b, t2);
    TwoPairMap(n1, t2, n2, w);
    FirstOfTwoReplaced(a, t1, b, t2, t2);
    TwoCopiesReplaced(a, t2, b, w);
    TwoPasses(a + t1 + b + t2, t1, t2, [n1, t2, n2, w], a + t2 + b + t2, a + w + b + w);
  }

  /** Two bound fields and the results of their two passes give the
      outcome of the interpolation. */
  lemma TwoPasses(p: string, t1: string, t2: string, args: seq<string>, s1: string, s2: string)
    requires IsToken(t1) && IsToken(t2) && |args| == 4
    requires GetFields(p) == [t1, t2] && FieldName(t1) in ArgMap(args) && FieldName(t2) in ArgMap(args)
    requires ReplaceAll(p, t1, ArgMap(args)[FieldName(t1)]) == s1
    requires ReplaceAll(s1, t2, ArgMap(args)[FieldName(t2)]) == s2
    ensures Interpolate(p, args) == Ok(s2)
  {
    InterpolateTwoFields(p, t1, t2, args);
  }

  /** Substitution of exactly one bound field is one replacement pass. */
  lemma SubstituteOne(p: string, t: string, m: map<string, string>, s1: string)
    requires IsToken(t) && FieldName(t) in m
    requires s1 == ReplaceAll(p, t, m[FieldName(t)])
    ensures Substitute(p, [t], [t], m) == Ok(s1)
  {
    assert [t][1..] == [];
  }

  /** Interpolation of a prompt with exactly one field, bound, is one
      replacement pass. */
  lemma InterpolateOneField(p: string, t: string, args: seq<string>)
    requires IsToken(t) && |args| == 2
    ensures GetFields(p) == [t] && FieldName(t) in ArgMap(args) ==>
              Interpolate(p, args) == Ok(ReplaceAll(p, t, ArgMap(args)[FieldName(t)]))
  {
    if GetFields(p) == [t] && FieldName(t) in ArgMap(args) {
      SubstituteOne(p, t, ArgMap(args), ReplaceAll(p, t, ArgMap(args)[FieldName(t)]));
    }
  }

  /** The name inside a token, and its closing brace, have no `{`. */
  lemma NameHasNoBrace(t: string)
    requires IsToken(t)
    ensures '{' !in FieldName(t) + "}"
  {
    var n := FieldName(t);
    TokenBraces(t);
    forall k | 0 <= k < |n| ensures n[k] != '{' {
      assert n[k] == t[k + 1];
    }
  }

  /** The braced form of a token, `{` + token + name + `}`, regrouped. */
  lemma BracedRegroup(t: string, n: string)
    ensures "{" + t + n + "}" == "{" + (t + (n + "}"))
  {
    Regroup("{" + t, n, "}");
    Regroup("{", t, n + "}");
  }

  /** `{` directly before a token is not a match of its own, and the token
      is the only field. */
  lemma BracedTokenFields(t: string)
    requires IsToken(t)
    ensures GetFields("{" + t + FieldName(t) + "}") == [t]
  {
    var rest := FieldName(t) + "}";
    var p := "{" + (t + rest);
    BracedRegroup(t, FieldName(t));
    assert p[1] == '{' && IdentRun(p, 1) == 0;
    FieldsAfterUnmatchedPrefix("{", t + rest);
    FieldsAfterToken(t, rest);
    NameHasNoBrace(t);
    NoBraceNoFields(rest);
  }

  /** Removing the token from `{` + token + name + `}` leaves the token. */
  lemma BracedTokenReplaced(t: string)
    requires IsToken(t)
    ensures ReplaceAll("{" + t + FieldName(t) + "}", t, "") == t
  {
    var n := FieldName(t);
    var rest := n + "}";
    BracedRegroup(t, n);
    Regroup("{", t, rest);
    BraceBeforeToken(t, rest);
    assert ReplaceAll(rest, t, "") == rest by {
      NameHasNoBrace(t);
      AbsentFirstChar(rest, t);
      ReplaceAllUnchanged(rest, t, "");
    }
    Regroup("{", n, "}");
  }

  /** A `{` directly before a token is kept, and the token is removed. */
  lemma BraceBeforeToken(t: string, rest: string)
    requires IsToken(t)
    ensures ReplaceAll("{" + t + rest, t, "") == "{" + ReplaceAll(rest, t, "")
  {
    var p := "{" + t + rest;
    assert !OccursAt(p, t, 0) by {
      assert p[1] == '{' && t[1] != '{';
    }
    ReplaceAfterUnmatchedPrefix("{", t, rest, "");
    assert "{" + "" + ReplaceAll(rest, t, "") == "{" + ReplaceAll(rest, t, "");
  }

  /** Replacement does not leave a text free of tokens: removing `{x}` from
      `{{x}x}` puts a new `{x}` together out of the surrounding characters,
      so a successful result can still contain a field. */
  lemma TokenCanReappear(t: string)
    requires IsToken(t)
    ensures Interpolate("{" + t + FieldName(t) + "}", [FieldName(t), ""]) == Ok(t)
    ensures GetFields(t) == [t]
  {
    var n := FieldName(t);
    BracedTokenFields(t);
    assert [n, ""][..0] == [];
    assert ArgMap([n, ""]) == map[n := ""];
    BracedTokenReplaced(t);
    InterpolateOneField("{" + t + n + "}", t, [n, ""]);
    SingleTokenFields(t);
  }

  /** A protected entry is kept whatever the incoming prompt says. */
  lemma ProtectedEntryWins(n: string, x: string, y: string, f: bool)
    ensures ReplacePrompts(PromptLibrary([Prompt(n, x, false)]), [Prompt(n, y, f)])
              == PromptLibrary([Prompt(n, x, false)])
  {
    var lib := PromptLibrary([Prompt(n, x, false)]);
    assert IsFirstNamed(lib.prompts, n, 0);
    assert MergeOne(lib, Prompt(n, y, f)) == lib;
    assert [Prompt(n, y, f)][1..] == [];
  }

  /** An override carries its own flag: once a replaceable entry has been
      overwritten by a protected prompt, later prompts of that name are
      refused. */
  lemma OverrideCarriesFlag(n: string, x: string, y: string, z: string)
    ensures ReplacePrompts(PromptLibrary([Prompt(n, x, true)]), [Prompt(n, y, false), Prompt(n, z, true)])
              == PromptLibrary([Prompt(n, y, false)])
  {
    var lib := PromptLibrary([Prompt(n, x, true)]);
    var ns := [Prompt(n, y, false), Prompt(n, z, true)];
    assert IsFirstNamed(lib.prompts, n, 0);
    var lib1 := PromptLibrary([Prompt(n, y, false)]);
    assert MergeOne(lib, ns[0]) == lib1;
    assert IsFirstNamed(lib1.prompts, n, 0);
    assert MergeOne(lib1, ns[1]) == lib1;
    assert ns[1..] == [ns[1]] && ns[1..][1..] == [];
    assert ReplacePrompts(lib1, ns[1..]) == ReplacePrompts(lib1, []);
  }

  /** Later incoming prompts see the ones appended before them: two new
      prompts of one name leave a single entry, the second one when the
      first allows replacement. */
  lemma AppendedThenReplaced(n: string, x: string, y: string, f: bool)
    ensures ReplacePrompts(PromptLibrary([]), [Prompt(n, x, true), Prompt(n, y, f)])
              == PromptLibrary([Prompt(n, y, f)])
  {
    var ns := [Prompt(n, x, true), Prompt(n, y, f)];
    var lib1 := PromptLibrary([Prompt(n, x, true)]);
    assert !HasName([], n);
    assert [] + [ns[0]] == lib1.prompts;
    assert MergeOne(PromptLibrary([]), ns[0]) == lib1;
    assert IsFirstNamed(lib1.prompts, n, 0);
    var lib2 := PromptLibrary([Prompt(n, y, f)]);
    assert MergeOne(lib1, ns[1]) == lib2;
    assert ns[1..] == [ns[1]] && ns[1..][1..] == [];
    assert ReplacePrompts(lib1, ns[1..]) == ReplacePrompts(lib2, []);
  }
}
