/** What `ReplacePrompts` does to a library, over a whole sequence of new
    prompts: it never removes or reorders entries, it touches only the first
    replaceable entry of a name, it appends exactly one entry per new name,
    and it never changes a protected entry.
 */
module MergeProperties {
  import opened Library

  /** The names of the entries of `ps`. */
  ghost function NameSet(ps: seq<Prompt>): set<string>
  {
    set p | p in ps :: p.name
  }

  /** The names carried by new prompts that the library does not have yet. */
  ghost function NewNames(ps: seq<Prompt>, newPrompts: seq<Prompt>): set<string>
  {
    set p | p in newPrompts && !HasName(ps, p.name) :: p.name
  }

  /** No two entries of `ps` share a name. */
  predicate DistinctNames(ps: seq<Prompt>)
  {
    forall i, j :: 0 <= i < j < |ps| ==> ps[i].name != ps[j].name
  }

  /** A single step, spelled out position by position. */
  lemma MergeOneShape(lib: PromptLibrary, np: Prompt)
    ensures var ps, r := lib.prompts, MergeOne(lib, np).prompts;
      && |r| == (if HasName(ps, np.name) then |ps| else |ps| + 1)
      && (!HasName(ps, np.name) ==> r[|ps|] == np)
      && (forall i :: 0 <= i < |ps| ==> r[i].name == ps[i].name)
      && (forall i :: 0 <= i < |ps| ==>
            r[i] == ps[i] || (IsFirstNamed(ps, ps[i].name, i) && ps[i].okToReplace && r[i] == np))
      && (forall n :: HasName(r, n) <==> HasName(ps, n) || n == np.name)
  {
    var ps := lib.prompts;
    var r := MergeOne(lib, np).prompts;
    if HasName(ps, np.name) {
      var index := ContainsPromptNamed(lib, np.name);
      assert IsFirstNamed(ps, np.name, index);
      forall n ensures HasName(r, n) <==> HasName(ps, n) || n == np.name {
        if HasName(ps, n) {
          var i :| 0 <= i < |ps| && ps[i].name == n;
          assert r[i].name == n;
        }
        if HasName(r, n) {
          var i :| 0 <= i < |r| && r[i].name == n;
          assert ps[i].name == n;
        }
      }
    } else {
      forall n ensures HasName(r, n) <==> HasName(ps, n) || n == np.name {
        if HasName(ps, n) {
          var i :| 0 <= i < |ps| && ps[i].name == n;
          assert r[i].name == n;
        }
        if HasName(r, n) {
          var i :| 0 <= i < |r| && r[i].name == n;
          if i < |ps| { assert ps[i].name == n; }
        }
        if n == np.name {
          assert r[|ps|].name == n;
        }
      }
    }
  }

  /** Existing entries keep their positions and their names; the library
      never shrinks. */
  lemma {:induction false} KeepsPositions(lib: PromptLibrary, newPrompts: seq<Prompt>)
    ensures |lib.prompts| <= |ReplacePrompts(lib, newPrompts).prompts|
    ensures forall i :: 0 <= i < |lib.prompts| ==>
              ReplacePrompts(lib, newPrompts).prompts[i].name == lib.prompts[i].name
    decreases |newPrompts|
  {
    if |newPrompts| > 0 {
      MergeOneShape(lib, newPrompts[0]);
      KeepsPositions(MergeOne(lib, newPrompts[0]), newPrompts[1..]);
    }
  }

  /** After the merge the library has exactly the names it had plus the names
      of the new prompts. */
  lemma {:induction false} NamesAfterMerge(lib: PromptLibrary, newPrompts: seq<Prompt>)
    ensures forall n :: HasName(ReplacePrompts(lib, newPrompts).prompts, n) <==>
              HasName(lib.prompts, n) || HasName(newPrompts, n)
    decreases |newPrompts|
  {
    if |newPrompts| > 0 {
      var np := newPrompts[0];
      var rest := newPrompts[1..];
      MergeOneShape(lib, np);
      NamesAfterMerge(MergeOne(lib, np), rest);
      forall n ensures HasName(newPrompts, n) <==> n == np.name || HasName(rest, n) {
        if HasName(newPrompts, n) {
          var i :| 0 <= i < |newPrompts| && newPrompts[i].name == n;
          if i > 0 { assert rest[i - 1].name == n; }
        }
        if HasName(rest, n) {
          var i :| 0 <= i < |rest| && rest[i].name == n;
          assert newPrompts[i + 1].name == n;
        }
      }
    }
  }

  /** A protected entry (`okToReplace` false) is never changed. */
  lemma {:induction false} ProtectedUnchanged(lib: PromptLibrary, newPrompts: seq<Prompt>)
    ensures forall i :: 0 <= i < |lib.prompts| && !lib.prompts[i].okToReplace ==>
              i < |ReplacePrompts(lib, newPrompts).prompts| &&
              ReplacePrompts(lib, newPrompts).prompts[i] == lib.prompts[i]
    decreases |newPrompts|
  {
    if |newPrompts| > 0 {
      MergeOneShape(lib, newPrompts[0]);
      ProtectedUnchanged(MergeOne(lib, newPrompts[0]), newPrompts[1..]);
    }
  }

  /** The only existing entries that change are replaceable entries that come
      first among those of their name, and they become one of the new
      prompts. */
  lemma {:induction false} OnlyFirstReplaceableChanges(lib: PromptLibrary, newPrompts: seq<Prompt>)
    ensures |lib.prompts| <= |ReplacePrompts(lib, newPrompts).prompts|
    ensures forall i :: 0 <= i < |lib.prompts| ==>
              || ReplacePrompts(lib, newPrompts).prompts[i] == lib.prompts[i]
              || (&& IsFirstNamed(lib.prompts, lib.prompts[i].name, i)
                  && lib.prompts[i].okToReplace
                  && ReplacePrompts(lib, newPrompts).prompts[i] in newPrompts)
    decreases |newPrompts|
  {
    KeepsPositions(lib, newPrompts);
    if |newPrompts| > 0 {
      var ps := lib.prompts;
      var np := newPrompts[0];
      var rest := newPrompts[1..];
      var lib1 := MergeOne(lib, np);
      var r1 := lib1.prompts;
      var r := ReplacePrompts(lib1, rest).prompts;
      MergeOneShape(lib, np);
      OnlyFirstReplaceableChanges(lib1, rest);
      forall i | 0 <= i < |ps|
        ensures r[i] == ps[i] || (IsFirstNamed(ps, ps[i].name, i) && ps[i].okToReplace && r[i] in newPrompts)
      {
        if r[i] != r1[i] {
          assert IsFirstNamed(r1, r1[i].name, i) && r1[i].okToReplace && r[i] in rest;
          assert IsFirstNamed(ps, ps[i].name, i) by {
            forall j | 0 <= j < i ensures ps[j].name != ps[i].name {
              assert r1[j].name == ps[j].name;
            }
          }
        }
      }
    }
  }

  /** Entries whose name no new prompt carries are left as they were. */
  lemma UnrelatedUnchanged(lib: PromptLibrary, newPrompts: seq<Prompt>, i: int)
    requires 0 <= i < |lib.prompts| && !HasName(newPrompts, lib.prompts[i].name)
    ensures i < |ReplacePrompts(lib, newPrompts).prompts|
    ensures ReplacePrompts(lib, newPrompts).prompts[i] == lib.prompts[i]
  {
    OnlyFirstReplaceableChanges(lib, newPrompts);
    KeepsPositions(lib, newPrompts);
  }

  /** The entries after the old ones are new prompts whose names the library
      did not have. */
  lemma {:induction false} AppendedAreNew(lib: PromptLibrary, newPrompts: seq<Prompt>)
    ensures |lib.prompts| <= |ReplacePrompts(lib, newPrompts).prompts|
    ensures forall i :: |lib.prompts| <= i < |ReplacePrompts(lib, newPrompts).prompts| ==>
              && ReplacePrompts(lib, newPrompts).prompts[i] in newPrompts
              && !HasName(lib.prompts, ReplacePrompts(lib, newPrompts).prompts[i].name)
    decreases |newPrompts|
  {
    KeepsPositions(lib, newPrompts);
    if |newPrompts| > 0 {
      var ps := lib.prompts;
      var np := newPrompts[0];
      var rest := newPrompts[1..];
      var lib1 := MergeOne(lib, np);
      var r1 := lib1.prompts;
      var r := ReplacePrompts(lib1, rest).prompts;
      MergeOneShape(lib, np);
      AppendedAreNew(lib1, rest);
      KeepsPositions(lib1, rest);
      OnlyFirstReplaceableChanges(lib1, rest);
      forall i | |ps| <= i < |r|
        ensures r[i] in newPrompts && !HasName(ps, r[i].name)
      {
        if i >= |r1| {
          assert r[i] in rest;
          assert !HasName(r1, r[i].name);
        } else {
          assert i == |ps| && r1[i] == np && r[i].name == np.name;
        }
      }
    }
  }

  /** No two appended entries share a name. */
  lemma {:induction false} AppendedDistinct(lib: PromptLibrary, newPrompts: seq<Prompt>)
    ensures |lib.prompts| <= |ReplacePrompts(lib, newPrompts).prompts|
    ensures forall i, j :: |lib.prompts| <= i < j < |ReplacePrompts(lib, newPrompts).prompts| ==>
              ReplacePrompts(lib, newPrompts).prompts[i].name != ReplacePrompts(lib, newPrompts).prompts[j].name
    decreases |newPrompts|
  {
    KeepsPositions(lib, newPrompts);
    if |newPrompts| > 0 {
      var ps := lib.prompts;
      var np := newPrompts[0];
      var rest := newPrompts[1..];
      var lib1 := MergeOne(lib, np);
      var r1 := lib1.prompts;
      var r := ReplacePrompts(lib1, rest).prompts;
      MergeOneShape(lib, np);
      AppendedDistinct(lib1, rest);
      AppendedAreNew(lib1, rest);
      KeepsPositions(lib1, rest);
      forall i, j | |ps| <= i < j < |r| ensures r[i].name != r[j].name {
        if i < |r1| {
          assert r[i].name == r1[i].name;
          assert HasName(r1, r1[i].name);
          assert !HasName(r1, r[j].name);
        }
      }
    }
  }

  /** A sequence whose names are pairwise distinct has as many names as
      entries. */
  lemma {:induction false} DistinctNamesCount(ps: seq<Prompt>)
    requires DistinctNames(ps)
    ensures |NameSet(ps)| == |ps|
    decreases |ps|
  {
    if |ps| > 0 {
      var init := ps[..|ps| - 1];
      var last := ps[|ps| - 1];
      DistinctInit(ps);
      DistinctNamesCount(init);
      LastNameIsNew(ps);
      NameSetLast(ps);
    }
  }

  /** Dropping the last entry keeps the names distinct. */
  lemma DistinctInit(ps: seq<Prompt>)
    requires |ps| > 0 && DistinctNames(ps)
    ensures DistinctNames(ps[..|ps| - 1])
  {
    var init := ps[..|ps| - 1];
    forall i, j | 0 <= i < j < |init| ensures init[i].name != init[j].name {
      assert init[i] == ps[i] && init[j] == ps[j];
    }
  }

  /** With distinct names, the last name is not among the earlier ones. */
  lemma LastNameIsNew(ps: seq<Prompt>)
    requires |ps| > 0 && DistinctNames(ps)
    ensures ps[|ps| - 1].name !in NameSet(ps[..|ps| - 1])
  {
    var init := ps[..|ps| - 1];
    forall p | p in init ensures p.name != ps[|ps| - 1].name {
      var i :| 0 <= i < |init| && init[i] == p;
      assert ps[i] == p;
    }
  }

  /** The names of a sequence are those of all but its last entry, and the
      last one's. */
  lemma NameSetLast(ps: seq<Prompt>)
    requires |ps| > 0
    ensures NameSet(ps) == NameSet(ps[..|ps| - 1]) + {ps[|ps| - 1].name}
  {
    var init := ps[..|ps| - 1];
    forall p | p in ps ensures p in init || p == ps[|ps| - 1] {
      var i :| 0 <= i < |ps| && ps[i] == p;
      if i < |ps| - 1 { assert init[i] == p; }
    }
  }

  /** Every name of an appended entry is a new name. */
  lemma TailNamesAreNew(lib: PromptLibrary, newPrompts: seq<Prompt>)
    ensures |lib.prompts| <= |ReplacePrompts(lib, newPrompts).prompts|
    ensures NameSet(ReplacePrompts(lib, newPrompts).prompts[|lib.prompts|..]) <= NewNames(lib.prompts, newPrompts)
  {
    var ps := lib.prompts;
    var r := ReplacePrompts(lib, newPrompts).prompts;
    KeepsPositions(lib, newPrompts);
    AppendedAreNew(lib, newPrompts);
    var tail := r[|ps|..];
    forall n | n in NameSet(tail) ensures n in NewNames(ps, newPrompts) {
      var p :| p in tail && p.name == n;
      var a :| 0 <= a < |tail| && tail[a] == p;
      assert r[|ps| + a] == p;
    }
  }

  /** Every new name is the name of an appended entry. */
  lemma NewNamesAreInTail(lib: PromptLibrary, newPrompts: seq<Prompt>)
    ensures |lib.prompts| <= |ReplacePrompts(lib, newPrompts).prompts|
    ensures NewNames(lib.prompts, newPrompts) <= NameSet(ReplacePrompts(lib, newPrompts).prompts[|lib.prompts|..])
  {
    var ps := lib.prompts;
    var r := ReplacePrompts(lib, newPrompts).prompts;
    KeepsPositions(lib, newPrompts);
    NamesAfterMerge(lib, newPrompts);
    var tail := r[|ps|..];
    forall n | n in NewNames(ps, newPrompts) ensures n in NameSet(tail) {
      var p :| p in newPrompts && !HasName(ps, p.name) && p.name == n;
      var k :| 0 <= k < |newPrompts| && newPrompts[k] == p;
      assert HasName(newPrompts, n);
      assert HasName(r, n);
      var i :| 0 <= i < |r| && r[i].name == n;
      assert tail[i - |ps|] == r[i];
    }
  }

  /** The names of the appended entries are exactly the new names. */
  lemma TailNames(lib: PromptLibrary, newPrompts: seq<Prompt>)
    ensures |lib.prompts| <= |ReplacePrompts(lib, newPrompts).prompts|
    ensures NameSet(ReplacePrompts(lib, newPrompts).prompts[|lib.prompts|..]) == NewNames(lib.prompts, newPrompts)
  {
    TailNamesAreNew(lib, newPrompts);
    NewNamesAreInTail(lib, newPrompts);
  }

  /** The appended entries have pairwise distinct names. */
  lemma TailDistinct(lib: PromptLibrary, newPrompts: seq<Prompt>)
    ensures |lib.prompts| <= |ReplacePrompts(lib, newPrompts).prompts|
    ensures DistinctNames(ReplacePrompts(lib, newPrompts).prompts[|lib.prompts|..])
  {
    AppendedDistinct(lib, newPrompts);
    DistinctSuffix(ReplacePrompts(lib, newPrompts).prompts, |lib.prompts|);
  }

  /** Entries from `d` on with pairwise distinct names form a suffix with
      distinct names. */
  lemma DistinctSuffix(r: seq<Prompt>, d: nat)
    requires d <= |r|
    requires forall i, j :: d <= i < j < |r| ==> r[i].name != r[j].name
    ensures DistinctNames(r[d..])
  {
    var tail := r[d..];
    forall a, b | 0 <= a < b < |tail| ensures tail[a].name != tail[b].name {
      assert tail[a] == r[d + a] && tail[b] == r[d + b];
    }
  }

  /** The library grows by exactly one entry per distinct new name it did
      not have before. */
  lemma GrowthCountsNewNames(lib: PromptLibrary, newPrompts: seq<Prompt>)
    ensures |ReplacePrompts(lib, newPrompts).prompts| == |lib.prompts| + |NewNames(lib.prompts, newPrompts)|
  {
    var ps := lib.prompts;
    var r := ReplacePrompts(lib, newPrompts).prompts;
    TailDistinct(lib, newPrompts);
    DistinctNamesCount(r[|ps|..]);
    TailNames(lib, newPrompts);
  }
}
