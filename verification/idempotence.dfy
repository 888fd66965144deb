/** Merging the same new prompts a second time changes nothing.

    The entry a merge leaves for a name depends only on where that entry
    started and on the new prompts carrying the name: each one in turn
    replaces the current entry as long as the current entry allows it.
    `Settle` follows that chain.  A settled entry is either protected, and
    stays, or it is the last new prompt of its name reached through
    replaceable ones, and running the chain again arrives there once more.
 */
module MergeIdempotence {
  import opened Library
  import opened MergeProperties

  /** The entry that `c` becomes as the new prompts `ns` go by: a new prompt
      with `c`'s name takes its place when the current entry allows it. */
  function Settle(c: Prompt, ns: seq<Prompt>): (r: Prompt)
    ensures r.name == c.name
    decreases |ns|
  {
    if |ns| == 0 then c
    else if ns[0].name == c.name && c.okToReplace then Settle(ns[0], ns[1..])
    else Settle(c, ns[1..])
  }

  /** A protected entry never moves. */
  lemma {:induction false} SettleProtected(c: Prompt, ns: seq<Prompt>)
    requires !c.okToReplace
    ensures Settle(c, ns) == c
    decreases |ns|
  {
    if |ns| > 0 {
      SettleProtected(c, ns[1..]);
    }
  }

  /** An entry whose name no new prompt carries never moves. */
  lemma {:induction false} SettleUnnamed(c: Prompt, ns: seq<Prompt>)
    requires !HasName(ns, c.name)
    ensures Settle(c, ns) == c
    decreases |ns|
  {
    if |ns| > 0 {
      assert !HasName(ns[1..], c.name) by {
        forall i | 0 <= i < |ns[1..]| ensures ns[1..][i].name != c.name {
          assert ns[1..][i] == ns[i + 1];
        }
      }
      SettleUnnamed(c, ns[1..]);
    }
  }

  /** Two replaceable entries of the same name settle alike once some new
      prompt carries that name: the first such prompt replaces either. */
  lemma {:induction false} SettleReplaceable(c: Prompt, x: Prompt, ns: seq<Prompt>)
    requires c.okToReplace && x.okToReplace && x.name == c.name
    requires HasName(ns, c.name)
    ensures Settle(x, ns) == Settle(c, ns)
    decreases |ns|
  {
    if ns[0].name != c.name {
      assert HasName(ns[1..], c.name) by {
        var i :| 0 <= i < |ns| && ns[i].name == c.name;
        assert ns[1..][i - 1] == ns[i];
      }
      SettleReplaceable(c, x, ns[1..]);
    }
  }

  /** Settling is idempotent. */
  lemma SettleIdempotent(c: Prompt, ns: seq<Prompt>)
    ensures Settle(Settle(c, ns), ns) == Settle(c, ns)
  {
    var d := Settle(c, ns);
    if !d.okToReplace {
      SettleProtected(d, ns);
    } else if !HasName(ns, c.name) {
      SettleUnnamed(c, ns);
      SettleUnnamed(d, ns);
    } else if !c.okToReplace {
      SettleProtected(c, ns);
    } else {
      SettleReplaceable(c, d, ns);
    }
  }

  /** A new prompt that starts its own chain may skip itself. */
  lemma SettleFromItself(ns: seq<Prompt>)
    requires |ns| > 0
    ensures Settle(ns[0], ns) == Settle(ns[0], ns[1..])
  {
    if !ns[0].okToReplace {
      SettleProtected(ns[0], ns);
      SettleProtected(ns[0], ns[1..]);
    }
  }

  /** At most one position is the first with a given name. */
  lemma FirstNamedUnique(ps: seq<Prompt>, name: string, i: int, j: int)
    requires IsFirstNamed(ps, name, i) && IsFirstNamed(ps, name, j)
    ensures i == j
  {
  }

  /** The library `r` is what merging `ns` into entries `ps` settles on:
      the first entry of each name has settled, later entries of a name are
      as they were, and each appended entry is the settled form of the first
      new prompt carrying its name. */
  ghost predicate SettledFrom(ps: seq<Prompt>, ns: seq<Prompt>, r: seq<Prompt>)
  {
    && |ps| <= |r|
    && (forall i :: 0 <= i < |ps| ==>
          r[i] == if IsFirstNamed(ps, ps[i].name, i) then Settle(ps[i], ns) else ps[i])
    && (forall i :: |ps| <= i < |r| ==>
          && ContainsPromptNamed(PromptLibrary(ns), r[i].name) >= 0
          && r[i] == Settle(ns[ContainsPromptNamed(PromptLibrary(ns), r[i].name)], ns))
  }

  /** One merge step at an original position: the name stays, and the
      entry changes only when it is the first of the new prompt's name and
      replaceable. */
  lemma MergeOneAt(lib: PromptLibrary, e: Prompt, i: int)
    requires 0 <= i < |lib.prompts|
    ensures i < |MergeOne(lib, e).prompts|
    ensures MergeOne(lib, e).prompts[i] ==
              if IsFirstNamed(lib.prompts, e.name, i) && lib.prompts[i].okToReplace then e else lib.prompts[i]
  {
    var index := ContainsPromptNamed(lib, e.name);
    if index >= 0 && IsFirstNamed(lib.prompts, e.name, i) {
      FirstNamedUnique(lib.prompts, e.name, i, index);
    }
  }

  /** Whether an original position is the first of its name survives one
      merge step. */
  lemma FirstNamedKept(lib: PromptLibrary, e: Prompt, i: int)
    requires 0 <= i < |lib.prompts|
    ensures i < |MergeOne(lib, e).prompts|
    ensures IsFirstNamed(MergeOne(lib, e).prompts, lib.prompts[i].name, i) <==>
              IsFirstNamed(lib.prompts, lib.prompts[i].name, i)
  {
    var ps, ps' := lib.prompts, MergeOne(lib, e).prompts;
    forall j | 0 <= j <= i ensures ps'[j].name == ps[j].name {
      MergeOneAt(lib, e, j);
    }
  }

  /** One merge step never shrinks the library. */
  lemma MergeOneGrows(lib: PromptLibrary, e: Prompt)
    ensures |lib.prompts| <= |MergeOne(lib, e).prompts|
  {
    var index := ContainsPromptNamed(lib, e.name);
    if index >= 0 {
      assert IsFirstNamed(lib.prompts, e.name, index);
    }
  }

  /** One merge step followed by the rest, at an original position. */
  lemma StepOriginalAt(lib: PromptLibrary, ns: seq<Prompt>, x: Prompt, i: int)
    requires |ns| > 0 && 0 <= i < |lib.prompts|
    requires i < |MergeOne(lib, ns[0]).prompts|
    requires var ps' := MergeOne(lib, ns[0]).prompts;
      x == if IsFirstNamed(ps', ps'[i].name, i) then Settle(ps'[i], ns[1..]) else ps'[i]
    ensures x == if IsFirstNamed(lib.prompts, lib.prompts[i].name, i) then Settle(lib.prompts[i], ns)
                 else lib.prompts[i]
  {
    var ps := lib.prompts;
    MergeOneAt(lib, ns[0], i);
    FirstNamedKept(lib, ns[0], i);
    if !IsFirstNamed(ps, ps[i].name, i) {
      assert !IsFirstNamed(ps, ns[0].name, i);
    }
  }

  /** The original positions after a merge, from the first step and the
      rest of the merge. */
  lemma StepOriginal(lib: PromptLibrary, ns: seq<Prompt>)
    requires |ns| > 0
    ensures |lib.prompts| <= |ReplacePrompts(lib, ns).prompts|
    ensures forall i :: 0 <= i < |lib.prompts| ==>
              ReplacePrompts(lib, ns).prompts[i] ==
              if IsFirstNamed(lib.prompts, lib.prompts[i].name, i) then Settle(lib.prompts[i], ns) else lib.prompts[i]
    decreases |ns|, 0
  {
    var ps := lib.prompts;
    var r := ReplacePrompts(lib, ns).prompts;
    MergeSettles(MergeOne(lib, ns[0]), ns[1..]);
    MergeOneGrows(lib, ns[0]);
    forall i | 0 <= i < |ps|
      ensures r[i] == if IsFirstNamed(ps, ps[i].name, i) then Settle(ps[i], ns) else ps[i]
    {
      StepOriginalAt(lib, ns, r[i], i);
    }
  }

  /** One merge step followed by the rest, at an appended position `i`
      holding `x`. */
  lemma StepAppendedAt(lib: PromptLibrary, ns: seq<Prompt>, x: Prompt, i: int)
    requires |ns| > 0 && |lib.prompts| <= i
    requires var ps' := MergeOne(lib, ns[0]).prompts;
      if i < |ps'| then
        x == if IsFirstNamed(ps', ps'[i].name, i) then Settle(ps'[i], ns[1..]) else ps'[i]
      else
        && !HasName(ps', x.name)
        && ContainsPromptNamed(PromptLibrary(ns[1..]), x.name) >= 0
        && x == Settle(ns[1..][ContainsPromptNamed(PromptLibrary(ns[1..]), x.name)], ns[1..])
    ensures ContainsPromptNamed(PromptLibrary(ns), x.name) >= 0
    ensures x == Settle(ns[ContainsPromptNamed(PromptLibrary(ns), x.name)], ns)
  {
    var e, rest := ns[0], ns[1..];
    if i < |MergeOne(lib, e).prompts| {
      AppendedFirst(lib, e, i);
      FirstNamedSelf(ns);
      SettleFromItself(ns);
    } else {
      MergeOneHasName(lib, e);
      AppendedLater(ns, x, rest);
    }
  }

  /** After one merge step the new prompt's name is present. */
  lemma MergeOneHasName(lib: PromptLibrary, e: Prompt)
    ensures HasName(MergeOne(lib, e).prompts, e.name)
  {
    var ps := lib.prompts;
    var index := ContainsPromptNamed(lib, e.name);
    if index >= 0 {
      assert IsFirstNamed(ps, e.name, index);
      assert MergeOne(lib, e).prompts[index].name == e.name;
    } else {
      assert MergeOne(lib, e).prompts[|ps|] == e;
    }
  }

  /** The first new prompt is the first of its name. */
  lemma FirstNamedSelf(ns: seq<Prompt>)
    requires |ns| > 0
    ensures ContainsPromptNamed(PromptLibrary(ns), ns[0].name) == 0
  {
    FirstNamedUnique(ns, ns[0].name, 0, ContainsPromptNamed(PromptLibrary(ns), ns[0].name));
  }

  /** The appended positions after a merge, from the first step and the
      rest of the merge. */
  lemma StepAppended(lib: PromptLibrary, ns: seq<Prompt>)
    requires |ns| > 0
    ensures forall i :: |lib.prompts| <= i < |ReplacePrompts(lib, ns).prompts| ==>
              && ContainsPromptNamed(PromptLibrary(ns), ReplacePrompts(lib, ns).prompts[i].name) >= 0
              && ReplacePrompts(lib, ns).prompts[i] ==
                 Settle(ns[ContainsPromptNamed(PromptLibrary(ns), ReplacePrompts(lib, ns).prompts[i].name)], ns)
    decreases |ns|, 0
  {
    var lib' := MergeOne(lib, ns[0]);
    var r := ReplacePrompts(lib, ns).prompts;
    MergeSettles(lib', ns[1..]);
    AppendedAreNew(lib', ns[1..]);
    forall i | |lib.prompts| <= i < |r|
      ensures && ContainsPromptNamed(PromptLibrary(ns), r[i].name) >= 0
              && r[i] == Settle(ns[ContainsPromptNamed(PromptLibrary(ns), r[i].name)], ns)
    {
      StepAppendedAt(lib, ns, r[i], i);
    }
  }

  /** The entry one step appends is the first of its name. */
  lemma AppendedFirst(lib: PromptLibrary, e: Prompt, i: int)
    requires |lib.prompts| <= i < |MergeOne(lib, e).prompts|
    ensures i == |lib.prompts| && MergeOne(lib, e).prompts[i] == e
    ensures IsFirstNamed(MergeOne(lib, e).prompts, e.name, i)
  {
    MergeOneShape(lib, e);
  }

  /** An entry the rest of the merge appends settles from the first new
      prompt of its name, which comes after the first new prompt. */
  lemma AppendedLater(ns: seq<Prompt>, x: Prompt, rest: seq<Prompt>)
    requires |ns| > 0 && rest == ns[1..] && x.name != ns[0].name
    requires ContainsPromptNamed(PromptLibrary(rest), x.name) >= 0
    requires x == Settle(rest[ContainsPromptNamed(PromptLibrary(rest), x.name)], rest)
    ensures ContainsPromptNamed(PromptLibrary(ns), x.name) >= 0
    ensures x == Settle(ns[ContainsPromptNamed(PromptLibrary(ns), x.name)], ns)
  {
    var j := ContainsPromptNamed(PromptLibrary(rest), x.name);
    assert IsFirstNamed(ns, x.name, j + 1) by {
      assert forall k :: 0 < k <= j ==> ns[k] == rest[k - 1];
    }
    FirstNamedUnique(ns, x.name, j + 1, ContainsPromptNamed(PromptLibrary(ns), x.name));
    assert Settle(ns[j + 1], ns) == Settle(rest[j], rest);
  }

  /** What a whole merge settles on. */
  lemma {:induction false} MergeSettles(lib: PromptLibrary, ns: seq<Prompt>)
    ensures SettledFrom(lib.prompts, ns, ReplacePrompts(lib, ns).prompts)
    decreases |ns|, 1
  {
    if |ns| > 0 {
      StepOriginal(lib, ns);
      StepAppended(lib, ns);
    }
  }

  /** A merge appends nothing when every name it brings is already
      present. */
  lemma NothingNewNothingAppended(x: PromptLibrary, ns: seq<Prompt>)
    requires forall n :: HasName(ns, n) ==> HasName(x.prompts, n)
    ensures |ReplacePrompts(x, ns).prompts| == |x.prompts|
  {
    var y := ReplacePrompts(x, ns).prompts;
    KeepsPositions(x, ns);
    if |y| > |x.prompts| {
      var p := y[|x.prompts|];
      AppendedAreNew(x, ns);
      assert false;
    }
  }

  /** A second merge of the same prompts appends nothing: every name they
      carry is already present. */
  lemma SecondMergeSameLength(lib: PromptLibrary, ns: seq<Prompt>)
    ensures |ReplacePrompts(ReplacePrompts(lib, ns), ns).prompts| == |ReplacePrompts(lib, ns).prompts|
  {
    NamesAfterMerge(lib, ns);
    NothingNewNothingAppended(ReplacePrompts(lib, ns), ns);
  }

  /** `ReplacePrompts` is idempotent: merging the same new prompts twice
      gives the library that merging them once gives. */
  lemma ReplacePromptsIdempotent(lib: PromptLibrary, ns: seq<Prompt>)
    ensures ReplacePrompts(ReplacePrompts(lib, ns), ns) == ReplacePrompts(lib, ns)
  {
    var ps := lib.prompts;
    var x := ReplacePrompts(lib, ns).prompts;
    var y := ReplacePrompts(ReplacePrompts(lib, ns), ns).prompts;
    MergeSettles(lib, ns);
    MergeSettles(ReplacePrompts(lib, ns), ns);
    KeepsPositions(lib, ns);
    SecondMergeSameLength(lib, ns);
    forall i | 0 <= i < |x| ensures y[i] == x[i] {
      if IsFirstNamed(x, x[i].name, i) {
        if i < |ps| {
          assert IsFirstNamed(ps, ps[i].name, i);
          SettleIdempotent(ps[i], ns);
        } else {
          SettleIdempotent(ns[ContainsPromptNamed(PromptLibrary(ns), x[i].name)], ns);
        }
      }
    }
  }
}
