/** `Interpolate`: substitute caller-supplied values for the placeholder
    fields of a prompt.

    The variadic arguments alternate field name and value.  They are first
    turned into a map (a later pair for the same name overwrites an earlier
    one), then the argument count is checked against the number of field
    occurrences, then each occurrence in turn has every copy of its token
    replaced, in the string as substituted so far.
 */
module Interpolation {
  import opened Outcomes
  import opened Text
  import opened Fields

  /** `k` is one of the field names of the argument list, i.e. it sits at an
      even position. */
  predicate IsKey(args: seq<string>, k: string)
  {
    exists i :: 0 <= i < |args| && i % 2 == 0 && args[i] == k
  }

  /** The pair at `j` is the last one in `args` naming `k`. */
  predicate LastPairFor(args: seq<string>, k: string, j: int)
  {
    && 0 <= j && j + 1 < |args| && j % 2 == 0 && args[j] == k
    && forall i :: j < i < |args| && i % 2 == 0 ==> args[i] != k
  }

  /** The map the argument pairs build, written in the order they are given. */
  function ArgMap(args: seq<string>): (m: map<string, string>)
    requires |args| % 2 == 0
    ensures forall k :: k in m <==> IsKey(args, k)
    decreases |args|
  {
    if |args| == 0 then
      map[]
    else
      var init := args[..|args| - 2];
      assert forall i :: 0 <= i < |init| ==> init[i] == args[i];
      ArgMap(init)[args[|args| - 2] := args[|args| - 1]]
  }

  /** Last write wins: the value stored for a name is the one paired with its
      last occurrence as a field name. */
  lemma {:induction false} ArgMapLastWriteWins(args: seq<string>, k: string)
    requires |args| % 2 == 0
    requires k in ArgMap(args)
    ensures exists j :: LastPairFor(args, k, j) && ArgMap(args)[k] == args[j + 1]
    decreases |args|
  {
    var n := |args|;
    var init := args[..n - 2];
    if args[n - 2] == k {
      ArgMapLastPair(args);
      assert LastPairFor(args, k, n - 2);
    } else {
      ArgMapEarlierPair(args, k);
      ArgMapLastWriteWins(init, k);
      var j :| LastPairFor(init, k, j) && ArgMap(init)[k] == init[j + 1];
      LastPairExtends(args, k, j);
    }
  }

  /** The last pair's value is what the map holds for its name. */
  lemma ArgMapLastPair(args: seq<string>)
    requires |args| >= 2 && |args| % 2 == 0
    ensures args[|args| - 2] in ArgMap(args) && ArgMap(args)[args[|args| - 2]] == args[|args| - 1]
  {
  }

  /** For any other name the map holds what the earlier pairs gave it. */
  lemma ArgMapEarlierPair(args: seq<string>, k: string)
    requires |args| >= 2 && |args| % 2 == 0 && args[|args| - 2] != k
    ensures k in ArgMap(args) <==> k in ArgMap(args[..|args| - 2])
    ensures k in ArgMap(args) ==> ArgMap(args)[k] == ArgMap(args[..|args| - 2])[k]
  {
  }

  /** A last pair for `k` stays last when a pair for another name follows. */
  lemma LastPairExtends(args: seq<string>, k: string, j: int)
    requires |args| >= 2 && |args| % 2 == 0 && args[|args| - 2] != k
    requires LastPairFor(args[..|args| - 2], k, j)
    ensures LastPairFor(args, k, j) && args[j + 1] == args[..|args| - 2][j + 1]
  {
    var n := |args|;
    forall i | j < i < n && i % 2 == 0 ensures args[i] != k {
      if i < n - 2 {
        assert args[i] == args[..n - 2][i];
      } else {
        assert i == n - 2;
      }
    }
  }

  /** Every field name of `fields` is bound in `m`. */
  predicate AllBound(fields: seq<string>, m: map<string, string>)
    requires forall k :: 0 <= k < |fields| ==> IsToken(fields[k])
  {
    forall k :: 0 <= k < |fields| ==> FieldName(fields[k]) in m
  }

  /** `fields[k]` is the first field whose name `m` does not bind. */
  predicate FirstUnbound(fields: seq<string>, m: map<string, string>, k: int)
    requires forall i :: 0 <= i < |fields| ==> IsToken(fields[i])
  {
    && 0 <= k < |fields|
    && FieldName(fields[k]) !in m
    && forall i :: 0 <= i < k ==> FieldName(fields[i]) in m
  }

  /** The substitution fold: for each field in order, replace every copy of
      its token in the current string by its value. */
  function ReplaceEach(s: string, fields: seq<string>, m: map<string, string>): string
    requires forall k :: 0 <= k < |fields| ==> IsToken(fields[k])
    requires AllBound(fields, m)
    decreases |fields|
  {
    if |fields| == 0 then
      s
    else
      ReplaceEach(ReplaceAll(s, fields[0], m[FieldName(fields[0])]), fields[1..], m)
  }

  /** The substitution loop with its early exit: `all` is the complete field
      list, reported in the error; `rest` is what is left to substitute. */
  function Substitute(s: string, rest: seq<string>, all: seq<string>, m: map<string, string>): (r: Result<string>)
    requires forall k :: 0 <= k < |rest| ==> IsToken(rest[k])
    ensures !r.Panic?
    ensures r.Ok? <==> AllBound(rest, m)
    ensures r.Ok? ==> r.value == ReplaceEach(s, rest, m)
    ensures r.Err? ==> exists k :: FirstUnbound(rest, m, k) && r.error == MissingField(rest[k], all)
    decreases |rest|
  {
    if |rest| == 0 then
      Ok(s)
    else if FieldName(rest[0]) !in m then
      assert FirstUnbound(rest, m, 0);
      Err(MissingField(rest[0], all))
    else
      var r := Substitute(ReplaceAll(s, rest[0], m[FieldName(rest[0])]), rest[1..], all, m);
      BoundTail(rest, m);
      if r.Err? then
        var k :| FirstUnbound(rest[1..], m, k) && r.error == MissingField(rest[1..][k], all);
        FirstUnboundTail(rest, m, k);
        r
      else
        r
  }

  /** With the first field bound, the whole list is bound exactly when its
      tail is. */
  lemma BoundTail(fields: seq<string>, m: map<string, string>)
    requires |fields| > 0 && forall k :: 0 <= k < |fields| ==> IsToken(fields[k])
    requires FieldName(fields[0]) in m
    ensures AllBound(fields, m) <==> AllBound(fields[1..], m)
  {
    if AllBound(fields[1..], m) {
      forall k | 0 <= k < |fields| ensures FieldName(fields[k]) in m {
        if k > 0 { assert fields[k] == fields[1..][k - 1]; }
      }
    }
  }

  /** With the first field bound, the first unbound field of the tail is the
      first unbound field of the whole list. */
  lemma FirstUnboundTail(fields: seq<string>, m: map<string, string>, k: int)
    requires |fields| > 0 && forall i :: 0 <= i < |fields| ==> IsToken(fields[i])
    requires FieldName(fields[0]) in m
    requires FirstUnbound(fields[1..], m, k)
    ensures FirstUnbound(fields, m, k + 1) && fields[k + 1] == fields[1..][k]
  {
    forall i | 0 <= i < k + 1 ensures FieldName(fields[i]) in m {
      if i > 0 { assert fields[i] == fields[1..][i - 1]; }
    }
  }

  /** `Interpolate(p, args...)`. */
  function Interpolate(p: string, args: seq<string>): (r: Result<string>)
    ensures r.Panic? <==> |args| % 2 == 1
    ensures r.Err? && r.error.CountMismatch? <==>
              |args| % 2 == 0 && |args| != 2 * |GetFields(p)|
    ensures r.Err? && r.error.CountMismatch? ==> r.error.fields == GetFields(p)
    ensures r.Err? && r.error.MissingField? <==>
              && |args| == 2 * |GetFields(p)|
              && !AllBound(GetFields(p), ArgMap(args))
    ensures r.Err? && r.error.MissingField? ==>
              && r.error.fields == GetFields(p)
              && exists k :: FirstUnbound(GetFields(p), ArgMap(args), k) && r.error.field == GetFields(p)[k]
    ensures r.Ok? <==>
              && |args| == 2 * |GetFields(p)|
              && AllBound(GetFields(p), ArgMap(args))
    ensures r.Ok? ==> r.value == ReplaceEach(p, GetFields(p), ArgMap(args))
  {
    if |args| % 2 == 1 then
      // the pair loop reads args[i + 1] past the end
      Panic
    else
      var m := ArgMap(args);
      var fields := GetFields(p);
      if 2 * |fields| != |args| then
        Err(CountMismatch(fields))
      else
        Substitute(p, fields, fields, m)
  }

  /** A list of fields is bound by the argument map exactly when each field
      name is given as a key, and otherwise some field is the first unbound
      one. */
  lemma BoundIffKeys(fields: seq<string>, args: seq<string>)
    requires |args| % 2 == 0
    requires forall k :: 0 <= k < |fields| ==> IsToken(fields[k])
    ensures AllBound(fields, ArgMap(args)) <==> forall k :: 0 <= k < |fields| ==> IsKey(args, FieldName(fields[k]))
    ensures !AllBound(fields, ArgMap(args)) <==> exists k :: 0 <= k < |fields| && !IsKey(args, FieldName(fields[k]))
  {
  }

  /** A prompt without fields, given no arguments, comes back unchanged. */
  lemma NoFieldsUnchanged(p: string)
    requires GetFields(p) == []
    ensures Interpolate(p, []) == Ok(p)
  {
  }

  /** In particular a prompt without `{` needs no arguments and is returned
      as it is. */
  lemma NoBraceUnchanged(p: string)
    requires '{' !in p
    ensures Interpolate(p, []) == Ok(p)
  {
    NoBraceNoFields(p);
  }

  /** The fold over a concatenation of field lists is the fold over the
      second list applied to the fold over the first. */
  lemma {:induction false} ReplaceEachAppend(s: string, a: seq<string>, b: seq<string>, m: map<string, string>)
    requires forall k :: 0 <= k < |a| ==> IsToken(a[k])
    requires forall k :: 0 <= k < |b| ==> IsToken(b[k])
    requires AllBound(a, m) && AllBound(b, m)
    ensures forall k :: 0 <= k < |a + b| ==> IsToken((a + b)[k])
    ensures AllBound(a + b, m)
    ensures ReplaceEach(s, a + b, m) == ReplaceEach(ReplaceEach(s, a, m), b, m)
    decreases |a|
  {
    forall k | 0 <= k < |a + b|
      ensures IsToken((a + b)[k]) && FieldName((a + b)[k]) in m
    {
      if k >= |a| { assert (a + b)[k] == b[k - |a|]; }
    }
    if |a| > 0 {
      var s' := ReplaceAll(s, a[0], m[FieldName(a[0])]);
      assert (a + b)[1..] == a[1..] + b;
      assert (a + b)[0] == a[0];
      assert ReplaceEach(s, a + b, m) == ReplaceEach(s', a[1..] + b, m);
      assert ReplaceEach(s, a, m) == ReplaceEach(s', a[1..], m);
      ReplaceEachAppend(s', a[1..], b, m);
    } else {
      assert a + b == b;
    }
  }

  /** A map that sends every field name back to its own token leaves the
      string unchanged. */
  lemma {:induction false} ReplaceEachIdentity(s: string, fields: seq<string>, m: map<string, string>)
    requires forall k :: 0 <= k < |fields| ==> IsToken(fields[k])
    requires AllBound(fields, m)
    requires forall k :: 0 <= k < |fields| ==> m[FieldName(fields[k])] == fields[k]
    ensures ReplaceEach(s, fields, m) == s
    decreases |fields|
  {
    if |fields| > 0 {
      ReplaceAllUnchanged(s, fields[0], m[FieldName(fields[0])]);
      assert forall k :: 0 <= k < |fields| - 1 ==> fields[1..][k] == fields[k + 1];
      ReplaceEachIdentity(s, fields[1..], m);
    }
  }

  /** Every name in `args` is paired with its own token, `{name}`. */
  predicate BindsOwnTokens(args: seq<string>)
  {
    forall j :: 0 <= j && j + 1 < |args| && j % 2 == 0 ==> args[j + 1] == "{" + args[j] + "}"
  }

  /** Binding each field to its own token is a successful no-op: the
      substitution touches nothing but the placeholder tokens. */
  lemma SelfBindingIsIdentity(p: string, args: seq<string>)
    requires BindsOwnTokens(args)
    ensures Interpolate(p, args).Ok? ==> Interpolate(p, args) == Ok(p)
  {
    if Interpolate(p, args).Ok? {
      var fields := GetFields(p);
      var m := ArgMap(args);
      forall k | 0 <= k < |fields| ensures m[FieldName(fields[k])] == fields[k] {
        var name := FieldName(fields[k]);
        ArgMapLastWriteWins(args, name);
      }
      ReplaceEachIdentity(p, fields, m);
    }
  }
}
