# Prompt library core, modelled in Dafny

This project models the pure core of the butterfish prompt library
(`prompt/library.go`). The library keeps an ordered list of named prompt
templates. Each prompt has a name, a body, and an `OkToReplace` flag.
The model covers:

- **Scanning a body for placeholder fields** (`getFields`). The fields are
  the non-overlapping, leftmost matches of `\{[a-zA-Z0-9_]+\}`, in order,
  with repeats kept. Here they come from a hand-written scanner, and lemmas
  prove it finds exactly the token positions the pattern describes.
- **`Interpolate`**, in the order the code runs its steps:
  1. The alternating name/value arguments become a map; a later pair
     overwrites an earlier one.
  2. An odd number of arguments makes the map loop index past the end. That
     is a Go runtime panic, modelled as the outcome `Panic`.
  3. The argument count must be exactly twice the number of field
     occurrences; otherwise the result is a count-mismatch error carrying
     the field list.
  4. Each field occurrence in turn is looked up. An unbound name stops with
     a missing-field error. A bound one has every copy of its token replaced
     (Go's `strings.Replace(s, old, new, -1)`) in the string substituted so
     far.
- **Lookup by name** (`ContainsPromptNamed`, first match or -1), and the
  three fetch operations built on it: `GetPrompt`, `GetUninterpolatedPrompt`
  and `InterpolatePrompt`.
- **The merge `ReplacePrompts`**. For each new prompt in order:
  - a name that is absent is appended;
  - the first entry of a present name is overwritten if its own flag allows
    it;
  - otherwise the new prompt is dropped.

  Later new prompts see what earlier ones appended. The merge is written
  both as a fold (`Library.ReplacePrompts`) and as the loop the Go method
  runs (`Library.ReplacePromptsLoop`), and the two are proved to compute the
  same library.
- **The guard in front of `Save`**: an empty library is an error.

Two behaviours of the code are easy to misread, and the model keeps them
as written:

- **Values can be rewritten by later passes.** The substitution runs one
  pass per field on the current string, so a value that contains a later
  field's token is rewritten by that later pass
  (`Scenarios.LaterPassRewritesValue`). Values are therefore not protected
  from rescanning, and the order of the passes matters.
- **A repeated field needs one pair per occurrence.** A body such as
  `"{x} and {x}"` with the single pair `x, Z` fails the count check
  (`Scenarios.RepeatedFieldOnePair`). It needs two pairs, and then the last
  value fills both copies (`Scenarios.RepeatedFieldTwoPairs`).

Modules and files:

| file | module | contents |
|---|---|---|
| `outcomes.dfy` | `Outcomes` | error kinds and the `Ok` / `Err` / `Panic` outcome |
| `text.dfy` | `Text` | occurrence, first index, split/join, replace-all |
| `fields.dfy` | `Fields` | the placeholder scanner and its characterisation |
| `interpolation.dfy` | `Interpolation` | argument map, substitution fold, `Interpolate` |
| `library.dfy` | `Library` | prompts, lookup, fetches, merge (fold and loop), save guard |
| `merge.dfy` | `MergeProperties` | whole-merge properties of `ReplacePrompts` |
| `idempotence.dfy` | `MergeIdempotence` | what a merge settles on for each name, and idempotence |
| `scenarios.dfy` | `Scenarios` | behaviour on shaped prompts and small libraries |

## Model

| member | source | states |
|---|---|---|
| Text.IndexOf | prompt/library.go:116 | the first position where the search string occurs, no occurrence before it, and -1 exactly when it does not occur |
| Text.Split | prompt/library.go:116 | joining the pieces with the separator gives back the string, no piece contains the separator, and a string without the separator is one piece; replace-all is join-after-split |
| Text.ReplaceAll | prompt/library.go:116 | replace-all is the pieces between the occurrences joined with the value: a string without the token comes back unchanged, and otherwise the value stands where the first occurrence stood |
| Text.ReplaceAllUnchanged | prompt/library.go:116 | replacing a token that does not occur, or replacing a token by itself, leaves the string as it was |
| Text.ReplaceAllFirst | prompt/library.go:116 | replace-all keeps the text before the first occurrence, puts the value there, and continues after the occurrence |
| Text.ReplaceAfterPrefix | prompt/library.go:116 | text that cannot start the token passes through replace-all unchanged ahead of the first occurrence |
| Fields.FieldName | prompt/library.go:110 | trimming the braces of a token gives a non-empty name `n` with token = `{` + n + `}` |
| Fields.IdentRun | prompt/library.go:51 | the run of identifier characters starting at a position is maximal: all characters in it match `[a-zA-Z0-9_]` and the next one does not |
| Fields.MatchAtIsTokenStart | prompt/library.go:51 | the scanner accepts a position exactly when a pattern token starts there, and the only token starting there ends where the scanner ends it |
| Fields.ScanFromComplete | prompt/library.go:49-53 | the scanner `ScanFrom` finds every match position from its start on and nothing else, in increasing order, and each match ends before the next begins |
| Fields.GetFields | prompt/library.go:49-53 | one field per match position, each a token of the pattern, occurring in the body at its position |
| Fields.FieldsAreAllTokens | prompt/library.go:49-53 | the fields start exactly where pattern tokens start, and consecutive fields do not overlap |
| Fields.NoBraceNoFields | prompt/library.go:49-53 | a body without `{` has no fields |
| Fields.FieldsAfterPlainPrefix | prompt/library.go:49-53 | text without `{` in front of a body does not change its fields |
| Fields.FieldsAfterToken | prompt/library.go:49-53 | a body that starts with a token has that token as its first field, followed by the fields of the rest |
| Fields.TokenNotInOther | prompt/library.go:116 | a token does not occur in brace-free text followed by a different token |
| Interpolation.ArgMap | prompt/library.go:94-97 | the map's keys are exactly the names at even positions of the arguments |
| Interpolation.ArgMapLastWriteWins | prompt/library.go:94-97 | the value stored for a name is the one paired with its last occurrence as a name |
| Interpolation.Substitute | prompt/library.go:109-117 | the loop succeeds exactly when every remaining field name is bound, and then equals the replace-all fold; otherwise it reports the first unbound field along with the full field list |
| Interpolation.Interpolate | prompt/library.go:92-120 | panic exactly for an odd argument count; a count mismatch exactly when an even count is not twice the number of fields; a missing field exactly when the count fits but some field name is unbound (the first such field is reported); otherwise success, with the fold of replace-all over the fields in order |
| Interpolation.BoundIffKeys | prompt/library.go:94-97 | every field name is bound in the map exactly when each appears as a name in the arguments |
| Interpolation.NoFieldsUnchanged | prompt/library.go:99-103 | a body with no fields and no arguments comes back unchanged |
| Interpolation.NoBraceUnchanged | prompt/library.go:99-103 | a body without `{` and no arguments comes back unchanged |
| Interpolation.ReplaceEachAppend | prompt/library.go:109-117 | substituting a field list is substituting its first part, then its second part in the result |
| Interpolation.ReplaceEachIdentity | prompt/library.go:109-117 | substituting fields each bound to its own token changes nothing |
| Interpolation.SelfBindingIsIdentity | prompt/library.go:92-120 | a successful interpolation whose arguments bind every name to its own token returns the body unchanged |
| Library.SearchFrom | prompt/library.go:149-154 | the search from a position returns the first later position with the name, or -1 when none has it |
| Library.ContainsPromptNamed | prompt/library.go:148-155 | -1 exactly when no prompt has the name, otherwise the position of the first prompt that has it |
| Library.FindNamed | prompt/library.go:148-155 | the early-exit search loop returns the same index as the lookup |
| Library.GetUninterpolatedPrompt | prompt/library.go:76-86 | not-found exactly when no prompt has the name; otherwise the stored body of the first prompt with the name; never panics |
| Library.GetPrompt | prompt/library.go:60-73 | not-found when no prompt has the name; otherwise the interpolation of the first such prompt's body with the arguments |
| Library.InterpolatePrompt | prompt/library.go:88-90 | the stored prompts play no part: a panic exactly for an odd argument count, a count mismatch, a missing field or success under the same conditions as `Interpolate`, and on success the replace-all fold over the text's fields |
| Library.FetchRawThenInterpolate | prompt/library.go:60-90 | fetching a prompt raw succeeds exactly when its name is present, and interpolating the raw text through any library gives the same outcome as fetching it interpolated |
| Library.MergeOne | prompt/library.go:160-165 | an absent name is appended; for a present name the first entry is overwritten when its flag allows it and the library is unchanged otherwise; the library grows by at most one and keeps the name at every original position |
| Library.ReplacePrompts | prompt/library.go:158-167 | the merge is the left fold of single merges over the new prompts; the library grows by at most the number of new prompts and keeps the name at every original position |
| Library.ReplacePromptsLoop | prompt/library.go:158-167 | the search-and-update loop over the new prompts computes the same library as the fold of single merges |
| Library.SaveGuard | prompt/library.go:123-126 | an error exactly when there are no prompts; otherwise the prompts, unchanged, go on to serialisation |
| MergeProperties.MergeOneShape | prompt/library.go:160-165 | one merge grows the library by one exactly when the name is new, keeps every name at its position, changes at most the first replaceable entry of the name, and adds the name to the names present |
| MergeProperties.KeepsPositions | prompt/library.go:158-167 | the merge never shrinks the library, and keeps every original entry's name at its position |
| MergeProperties.NamesAfterMerge | prompt/library.go:158-167 | the names present afterwards are exactly the original names together with the new prompts' names |
| MergeProperties.ProtectedUnchanged | prompt/library.go:163 | an entry whose flag forbids replacement is never changed |
| MergeProperties.OnlyFirstReplaceableChanges | prompt/library.go:160-165 | an original entry changes only if it is the first with its name and replaceable, and then it becomes one of the new prompts |
| MergeProperties.UnrelatedUnchanged | prompt/library.go:158-167 | an entry whose name no new prompt carries is unchanged |
| MergeProperties.AppendedAreNew | prompt/library.go:161-162 | every appended entry is one of the new prompts and carries a name the original library lacked |
| MergeProperties.AppendedDistinct | prompt/library.go:158-167 | the appended entries carry pairwise different names |
| MergeProperties.TailNames | prompt/library.go:158-167 | the names of the appended entries are exactly the new names absent from the original library |
| MergeProperties.GrowthCountsNewNames | prompt/library.go:158-167 | the library grows by exactly the number of distinct new names absent from the original |
| MergeIdempotence.SettleProtected | prompt/library.go:163 | following the new prompts of a name, a protected entry is never replaced |
| MergeIdempotence.SettleIdempotent | prompt/library.go:159-165 | running a name's chain of replacements again from where it settled leaves it there |
| MergeIdempotence.MergeSettles | prompt/library.go:158-167 | after a merge, the first entry of each original name is its settled form, later entries of a name are unchanged, and each appended entry is the settled form of the first new prompt with its name |
| MergeIdempotence.NothingNewNothingAppended | prompt/library.go:159-162 | a merge whose names are all present already appends nothing |
| MergeIdempotence.ReplacePromptsIdempotent | prompt/library.go:158-167 | merging the same new prompts a second time gives the library the first merge gave |
| Scenarios.TwoCopiesReplaced | prompt/library.go:116 | replace-all substitutes every copy of a token, not just the first |
| Scenarios.TwoFieldsScan | prompt/library.go:49-53 | two tokens in brace-free text are the two fields, in order |
| Scenarios.RepeatedFieldOnePair | prompt/library.go:99-106 | a body with one token twice and a single argument pair fails the count check, which lists the token twice |
| Scenarios.RepeatedFieldTwoPairs | prompt/library.go:94-97 | with two pairs for a repeated token, the last value fills both copies |
| Scenarios.TwoFieldsFilled | prompt/library.go:92-120 | two distinct fields with brace-free values are each replaced by their own value |
| Scenarios.LaterPassRewritesValue | prompt/library.go:109-117 | a value containing a later field's token is rewritten by that later pass |
| Scenarios.TokenCanReappear | prompt/library.go:109-119 | a successful interpolation can return text that is itself a field token: `{{x}x}` with `x` bound to the empty string gives `{x}` |
| Scenarios.ProtectedEntryWins | prompt/library.go:163 | a protected entry keeps its body and flag against a new prompt of the same name |
| Scenarios.OverrideCarriesFlag | prompt/library.go:163-164 | an override copies the new flag too, so a later new prompt of that name is then dropped |
| Scenarios.AppendedThenReplaced | prompt/library.go:159-164 | a prompt appended earlier in the same merge is overwritten by a later one of that name when its flag allows it |

## Left out

- The YAML encoding, `Load`, `Save`'s file writes and directory creation,
  and `LibraryFileExists`: these are serialisation and file-system I/O.
  Only `Save`'s emptiness guard is modelled.
- `NewPromptLibrary`, the `Path` field, and the verbose logging: these are
  construction and output plumbing, with no logic of their own.
- The text of error messages: each error kind carries the data its message
  shows (the field list, the missing field), not the formatted string.
- The regular-expression engine: the pattern is modelled by a hand scanner,
  proved equal to the pattern's token positions.
- Text.ReplaceAll: requires a non-empty search string. Go's behaviour for an
  empty `old` is not modelled, because the only search strings are field
  tokens, which are at least three characters long.
- The hope that no original placeholder survives a successful interpolation
  is not stated as a property, because it does not hold even when no value
  contains a token. `Scenarios.TokenCanReappear` exhibits an input.
- Go strings are byte sequences; here a `string` is a sequence of
  characters. Invalid UTF-8 cannot be written, and positions such as the
  field starts count characters where Go counts bytes. The pattern and the
  tokens are ASCII and every result is a whole string, so the outcomes agree
  on every text the model can express.
