/** The prompt store: an ordered sequence of named prompts, first-match
    lookup by name, fetching a prompt raw or interpolated, the merge rule for
    replacing prompts, and the emptiness guard in front of saving.
 */
module Library {
  import opened Outcomes
  import opened Fields
  import opened Interpolation

  /** One stored prompt.  `okToReplace` says whether a later merge may
      overwrite it. */
  datatype Prompt = Prompt(name: string, prompt: string, okToReplace: bool)

  /** The in-memory library: the stored prompts, in order.  The file path
      and the logging settings play no part in the pure operations. */
  datatype PromptLibrary = PromptLibrary(prompts: seq<Prompt>)

  /** Some entry of `ps` has name `name`. */
  predicate HasName(ps: seq<Prompt>, name: string)
  {
    exists i :: 0 <= i < |ps| && ps[i].name == name
  }

  /** `i` is the position of the first entry of `ps` named `name`. */
  predicate IsFirstNamed(ps: seq<Prompt>, name: string, i: int)
  {
    && 0 <= i < |ps|
    && ps[i].name == name
    && forall j :: 0 <= j < i ==> ps[j].name != name
  }

  /** The loop of `ContainsPromptNamed`, from position `i` on. */
  function SearchFrom(ps: seq<Prompt>, name: string, i: nat): (index: int)
    requires i <= |ps|
    ensures index == -1 || i <= index < |ps|
    ensures index == -1 <==> forall j :: i <= j < |ps| ==> ps[j].name != name
    ensures index >= 0 ==> ps[index].name == name && forall j :: i <= j < index ==> ps[j].name != name
    decreases |ps| - i
  {
    if i == |ps| then -1
    else if ps[i].name == name then i
    else SearchFrom(ps, name, i + 1)
  }

  /** `ContainsPromptNamed`: the position of the first prompt named `name`,
      or -1 when there is none. */
  function ContainsPromptNamed(lib: PromptLibrary, name: string): (index: int)
    ensures -1 <= index < |lib.prompts|
    ensures index == -1 <==> !HasName(lib.prompts, name)
    ensures index >= 0 ==> IsFirstNamed(lib.prompts, name, index)
  {
    SearchFrom(lib.prompts, name, 0)
  }

  /** `GetUninterpolatedPrompt`: the stored text of the first prompt named
      `name`. */
  function GetUninterpolatedPrompt(lib: PromptLibrary, name: string): (r: Result<string>)
    ensures r.Err? <==> !HasName(lib.prompts, name)
    ensures r.Err? ==> r.error == NotFound
    ensures r.Ok? ==> exists i :: IsFirstNamed(lib.prompts, name, i) && r.value == lib.prompts[i].prompt
    ensures !r.Panic?
  {
    var index := ContainsPromptNamed(lib, name);
    if index == -1 then Err(NotFound) else Ok(lib.prompts[index].prompt)
  }

  /** `GetPrompt`: the first prompt named `name`, interpolated with `args`. */
  function GetPrompt(lib: PromptLibrary, name: string, args: seq<string>): (r: Result<string>)
    ensures !HasName(lib.prompts, name) ==> r == Err(NotFound)
    ensures HasName(lib.prompts, name) ==>
              exists i :: IsFirstNamed(lib.prompts, name, i) && r == Interpolate(lib.prompts[i].prompt, args)
  {
    var index := ContainsPromptNamed(lib, name);
    if index == -1 then Err(NotFound) else Interpolate(lib.prompts[index].prompt, args)
  }

  /** `InterpolatePrompt`: interpolation of caller-supplied text; the stored
      prompts play no part, and the outcomes are those of `Interpolate`. */
  function InterpolatePrompt(lib: PromptLibrary, p: string, args: seq<string>): (r: Result<string>)
    ensures r.Panic? <==> |args| % 2 == 1
    ensures r.Err? && r.error.CountMismatch? <==>
              |args| % 2 == 0 && |args| != 2 * |GetFields(p)|
    ensures r.Err? && r.error.MissingField? <==>
              |args| == 2 * |GetFields(p)| && !AllBound(GetFields(p), ArgMap(args))
    ensures r.Ok? <==> |args| == 2 * |GetFields(p)| && AllBound(GetFields(p), ArgMap(args))
    ensures r.Ok? ==> r.value == ReplaceEach(p, GetFields(p), ArgMap(args))
  {
    Interpolate(p, args)
  }

  /** Fetching a prompt raw and interpolating it, through any library, is
      fetching it interpolated. */
  lemma FetchRawThenInterpolate(lib: PromptLibrary, other: PromptLibrary, name: string, args: seq<string>)
    ensures GetUninterpolatedPrompt(lib, name).Ok? <==> HasName(lib.prompts, name)
    ensures GetUninterpolatedPrompt(lib, name).Ok? ==>
              GetPrompt(lib, name, args) == InterpolatePrompt(other, GetUninterpolatedPrompt(lib, name).value, args)
  {
  }

  /** One step of `ReplacePrompts`. */
  function MergeOne(lib: PromptLibrary, np: Prompt): (r: PromptLibrary)
    ensures |lib.prompts| <= |r.prompts| <= |lib.prompts| + 1
    ensures forall i :: 0 <= i < |lib.prompts| ==> r.prompts[i].name == lib.prompts[i].name
    ensures !HasName(lib.prompts, np.name) ==> r.prompts == lib.prompts + [np]
    ensures forall i :: IsFirstNamed(lib.prompts, np.name, i) ==>
              r.prompts == if lib.prompts[i].okToReplace then lib.prompts[i := np] else lib.prompts
  {
    var index := ContainsPromptNamed(lib, np.name);
    if index == -1 then
      PromptLibrary(lib.prompts + [np])
    else if lib.prompts[index].okToReplace then
      PromptLibrary(lib.prompts[index := np])
    else
      lib
  }

  /** `ReplacePrompts`: merge the new prompts in, one after another; each
      step sees what the earlier ones appended. */
  function ReplacePrompts(lib: PromptLibrary, newPrompts: seq<Prompt>): (r: PromptLibrary)
    ensures |lib.prompts| <= |r.prompts| <= |lib.prompts| + |newPrompts|
    ensures forall i :: 0 <= i < |lib.prompts| ==> r.prompts[i].name == lib.prompts[i].name
    decreases |newPrompts|
  {
    if |newPrompts| == 0 then lib
    else ReplacePrompts(MergeOne(lib, newPrompts[0]), newPrompts[1..])
  }

  /** The search loop of `ContainsPromptNamed`, written as a loop. */
  method FindNamed(ps: seq<Prompt>, name: string) returns (index: int)
    ensures index == ContainsPromptNamed(PromptLibrary(ps), name)
  {
    index := -1;
    var j := 0;
    while j < |ps|
      invariant 0 <= j <= |ps|
      invariant SearchFrom(ps, name, j) == SearchFrom(ps, name, 0)
    {
      if ps[j].name == name {
        index := j;
        return;
      }
      j := j + 1;
    }
  }

  /** Merging a non-empty suffix is one merge step followed by the rest. */
  lemma ReplacePromptsStep(lib: PromptLibrary, newPrompts: seq<Prompt>, i: nat)
    requires i < |newPrompts|
    ensures ReplacePrompts(lib, newPrompts[i..]) == ReplacePrompts(MergeOne(lib, newPrompts[i]), newPrompts[i + 1..])
  {
    assert newPrompts[i..][1..] == newPrompts[i + 1..];
  }

  /** `ReplacePrompts` as the loop the library runs: a search per new
      prompt, then append, overwrite in place, or leave the entry alone.  It
      computes the same library as the fold. */
  method ReplacePromptsLoop(lib: PromptLibrary, newPrompts: seq<Prompt>) returns (r: PromptLibrary)
    ensures r == ReplacePrompts(lib, newPrompts)
  {
    var ps := lib.prompts;
    var i := 0;
    while i < |newPrompts|
      invariant 0 <= i <= |newPrompts|
      invariant ReplacePrompts(PromptLibrary(ps), newPrompts[i..]) == ReplacePrompts(lib, newPrompts)
    {
      var np := newPrompts[i];
      ReplacePromptsStep(PromptLibrary(ps), newPrompts, i);
      var index := FindNamed(ps, np.name);
      if index == -1 {
        ps := ps + [np];
      } else if ps[index].okToReplace {
        ps := ps[index := np];
      }
      i := i + 1;
    }
    r := PromptLibrary(ps);
  }

  /** The guard at the top of `Save`: an empty library is an error; otherwise
      the prompts, as they are, go on to be serialised. */
  function SaveGuard(lib: PromptLibrary): (r: Result<seq<Prompt>>)
    ensures r.Err? <==> |lib.prompts| == 0
    ensures r.Err? ==> r.error == EmptyLibrary
    ensures r.Ok? ==> r.value == lib.prompts
    ensures !r.Panic?
  {
    if |lib.prompts| == 0 then Err(EmptyLibrary) else Ok(lib.prompts)
  }
}
