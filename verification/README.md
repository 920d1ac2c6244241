# `$ref` resolution and the split helpers of dotnet-codegen, in Dafny

This project models two parts of the code generator.

**The `$ref` resolution engine (`ReferenceLoader`).** The engine takes a loaded JSON (or YAML)
document. It finds every `$ref` property in it. For each one it looks up the target, either in the
same document or in another document, which it loads once and registers by absolute URI. It then
expands the target's own references. Finally it splices a deep copy of the target in place of the
object that holds the `$ref`.

The model keeps the engine's object identity, which its behaviour depends on. Newtonsoft's mutable
`JToken` tree is modelled as a heap of nodes addressed by id, and every node knows its parent
(module `Tokens`). The session invariant keeps the parent links in agreement with the slots: a
token held by another names it as its parent, so a token without a parent is in no tree. Three pieces of the source rely on that identity:

- the test `refProperty.Parent?.Parent == null`, which detects that an earlier splice already cut
  the `$ref` object loose;
- the `replacement` variable, which keeps pointing at the target token after `ResolveRef` has
  rewritten that token;
- the fact that all loaders share one tree-per-document state.

These modules describe the engine:

- `Json`: immutable values.
- `DocumentPath`: the walk of `GetDocumentPart`.
- `ReferenceLoader`: the loader registry and the mutually recursive `EnsureRefResolved`,
  `ResolveRef`, `GetRefJToken`, `GetDocumentPart` and `GetReferenceLoader`.
- `SingleReference`: what resolution does to a document with a single in-document `$ref`.
- `InlineExample`: one document resolved end to end, under a strategy that inlines every
  reference.

The recursion is bounded by a `fuel` argument that only the descent into a reference consumes,
because the source does not terminate on cyclic references.

**The `split_get_last` / `split_get_first` template helpers.** These split a string on a separator,
drop empty chunks, and write the last (or first) remaining chunk, or `""`. They are modelled in two
modules:

- `Text` models ordinal `String.Split` with `StringSplitOptions.RemoveEmptyEntries`, with the
  chunks written out and a `Join` round trip.
- `SplitHelpers` models the helpers themselves.

Collaborators whose code is not part of the model are parameters of the `Settings` datatype:

- `RefInfo.GetRefInfo`, which parses a `$ref` against the current document's URI;
- the strategy's `ShouldResolveReference` and `ApplyRefReplacement`;
- the download and deserialisation of a document.

Three behaviours of the code that the OpenAPI `$ref` conventions do not lead one to expect:

- **A `$ref` at the root of a document is never replaced.** Its object has no parent, so the test
  at `ReferenceLoader.cs:95` skips it (`DocumentRootNotSpliced`). A document that is just
  `{"$ref": "shared.json#/Item"}` therefore stays as it is.
- **A missing key is not always a lookup failure.**
  - On an intermediate segment, the next lookup fails, and this is reported as `PathNotFound`
    naming the path and the document.
  - On the last non-blank segment, the Newtonsoft object indexer returns null. `GetDocumentPart`
    then returns null. That null makes the later `DeepClone` fail (`NullReplacement`), but only
    when the `$ref` object is still attached.
- **The test for "already replaced" looks one level up only.** It checks for a parent. It does not
  check that the chain of parents reaches the root.

## Model

| member | source | states |
|---|---|---|
| `SplitHelpers.SplitGetLastHelper` | src/CodegenUP.Engine/CustomHandlebars/Helpers/Split.cs:18-26 | fails exactly when the argument count is not two; otherwise writes a substring of the input that never contains the separator, and a non-empty input without the separator comes back unchanged |
| `SplitHelpers.SplitGetFirstHelper` | src/CodegenUP.Engine/CustomHandlebars/Helpers/Split.cs:39-47 | same contract for the first-chunk helper |
| `SplitHelpers.EnsureArgumentsCount` | src/CodegenUP.Engine/CustomHandlebars/Helpers/Split.cs:20 | succeeds exactly when there are `n` arguments, and the error records the expected and actual counts |
| `SplitHelpers.SplitGetLast` | src/CodegenUP.Engine/CustomHandlebars/Helpers/Split.cs:25 | the result never contains the separator and occurs contiguously in the input |
| `SplitHelpers.SplitGetFirst` | src/CodegenUP.Engine/CustomHandlebars/Helpers/Split.cs:46 | the result never contains the separator and occurs contiguously in the input |
| `SplitHelpers.LoneChunk` | src/CodegenUP.Engine/CustomHandlebars/Helpers/Split.cs:25 | a non-empty input without the separator is returned unchanged by both helpers |
| `SplitHelpers.LastIsLastNonEmptyChunk` | src/CodegenUP.Engine/CustomHandlebars/Helpers/Split.cs:25 | the output is `""` iff every chunk is empty; otherwise it is a chunk followed only by empty chunks |
| `SplitHelpers.FirstIsFirstNonEmptyChunk` | src/CodegenUP.Engine/CustomHandlebars/Helpers/Split.cs:46 | the output is `""` iff every chunk is empty; otherwise it is a chunk preceded only by empty chunks |
| `SplitHelpers.EmptyOutputIffOnlySeparators` | src/CodegenUP.Engine/CustomHandlebars/Helpers/Split.cs:25 | both helpers write `""` exactly when the input is empty or a repetition of the separator |
| `SplitHelpers.SplitGetLastExample` | src/CodegenUP.Engine/CustomHandlebars/Helpers/Split.cs:12 | `#/parameters/myDataType` split on `/` gives `myDataType` |
| `SplitHelpers.SplitGetFirstExample` | src/CodegenUP.Engine/CustomHandlebars/Helpers/Split.cs:33 | `/myDataType/parameters/` split on `/` gives `myDataType` |
| `Text.IndexOf` | src/CodegenUP.Engine/CustomHandlebars/Helpers/Split.cs:25 | ordinal search: the first occurrence at or after `from`, or none at all |
| `Text.Pieces` | src/CodegenUP.Engine/CustomHandlebars/Helpers/Split.cs:25 | at least one chunk, and no chunk contains the separator |
| `Text.RemoveEmpty` | src/CodegenUP.Engine/CustomHandlebars/Helpers/Split.cs:25 | keeps exactly the non-empty chunks: every chunk kept is non-empty and taken from the input list, and every non-empty chunk of the input is kept |
| `Text.JoinPieces` | src/CodegenUP.Engine/CustomHandlebars/Helpers/Split.cs:25 | gluing the chunks back with the separator gives the input again |
| `Text.PiecesAreSubstrings` | src/CodegenUP.Engine/CustomHandlebars/Helpers/Split.cs:25 | every chunk occurs contiguously in the input |
| `Text.PiecesOfRepeat` | src/CodegenUP.Engine/CustomHandlebars/Helpers/Split.cs:25 | `n` separators split into `n + 1` empty chunks |
| `Text.RemoveEmptyIsEmpty` | src/CodegenUP.Engine/CustomHandlebars/Helpers/Split.cs:25 | nothing survives empty-entry removal iff every chunk is empty |
| `Text.RemoveEmptyLast` | src/CodegenUP.Engine/CustomHandlebars/Helpers/Split.cs:25 | the last surviving chunk is the last non-empty chunk |
| `Text.Split` | src/CodegenUP.Engine/CustomHandlebars/Helpers/Split.cs:25 | every chunk kept is non-empty, free of the separator, and occurs contiguously in the input, and every non-empty chunk between separators is kept; the same call splits an in-document path on `/` in `GetDocumentPart` (`ReferenceLoader.cs:118`) |
| `Text.IsWhiteSpace` | src/DocumentRefLoader/ReferenceLoader.cs:123 | the characters .NET classifies as white space: U+0009 to U+000D, U+0085 and the Unicode space, line and paragraph separators |
| `Text.IsBlank` | src/DocumentRefLoader/ReferenceLoader.cs:123 | `string.IsNullOrWhiteSpace` for a non-null string: every character is white space, so the empty string is blank |
| `Text.RemoveEmptyFirst` | src/CodegenUP.Engine/CustomHandlebars/Helpers/Split.cs:46 | the first surviving chunk is the first non-empty chunk |
| `Json.Child` | src/DocumentRefLoader/ReferenceLoader.cs:127 | a member is found iff the value is an object with a member of that name |
| `Tokens.Alloc` | src/DocumentRefLoader/ReferenceLoader.cs:100 | the deep copy occupies fresh ids only, leaves every existing token as it was, reads back as the copied value, and keeps every held token naming its holder as parent |
| `Tokens.Markers` | src/DocumentRefLoader/ReferenceLoader.cs:78-81 | a marker is collected exactly when it is a `$ref` property of an object in the subtree: every collected one is such a property, and every such property is collected |
| `Tokens.Attached` | src/DocumentRefLoader/ReferenceLoader.cs:95 | `refProperty.Parent?.Parent != null`: the object holding the `$ref` hangs under a token that still exists |
| `Tokens.Replace` | src/DocumentRefLoader/ReferenceLoader.cs:102 | a token without a parent is left alone; otherwise only its parent's slot and the two parent links change, and the tree invariant and every token's shape are kept |
| `Tokens.Splice` | src/DocumentRefLoader/ReferenceLoader.cs:99-102 | the spliced copy is a fresh token that reads as the replacement value; shapes, the tree invariant and the agreement of parent links with slots are kept |
| `Tokens.ReplaceLinked` | src/DocumentRefLoader/ReferenceLoader.cs:102 | `JToken.Replace` of a token by one that hangs nowhere keeps every held token naming its holder as parent |
| `Tokens.LooseUnheld` | src/DocumentRefLoader/ReferenceLoader.cs:95 | when parent links agree with slots, a token whose parent is missing is held by no token, so the `Parent` test tells whether a token is still in a tree |
| `Tokens.UnheldUnreached` | src/DocumentRefLoader/ReferenceLoader.cs:95 | a token held by no token lies in no subtree but its own |
| `Tokens.SpliceEffect` | src/DocumentRefLoader/ReferenceLoader.cs:102 | the copy takes the `$ref` object's slot in its parent and hangs under that parent, the `$ref` object is cut loose, and nothing else changes |
| `Tokens.SpliceKeepsDonor` | src/DocumentRefLoader/ReferenceLoader.cs:99-100 | every subtree not holding the spliced slot, the donor included, reads the same after the splice |
| `Tokens.SpliceKeepsDetached` | src/DocumentRefLoader/ReferenceLoader.cs:95-97 | a token already cut loose is still loose after any later splice |
| `DocumentPath.Index` | src/DocumentRefLoader/ReferenceLoader.cs:127 | indexing succeeds iff the token is an object; it yields null iff no property has that name |
| `DocumentPath.Walk` | src/DocumentRefLoader/ReferenceLoader.cs:120-134 | a token found is in the subtree of the start token; from null the walk never finds a token |
| `DocumentPath.WalkMatchesAt` | src/DocumentRefLoader/ReferenceLoader.cs:118-136 | the walk finds a token iff the start value has a member at the non-blank segments, and that token holds the member's value |
| `DocumentPath.NullWalk` | src/DocumentRefLoader/ReferenceLoader.cs:121-132 | at null, the walk fails at the next non-blank segment and otherwise ends at null |
| `DocumentPath.NonBlank` | src/DocumentRefLoader/ReferenceLoader.cs:121-123 | exactly the segments that are not blank, taken from the path: every kept segment is non-blank and every non-blank segment is kept |
| `DocumentPath.BlankWalk` | src/DocumentRefLoader/ReferenceLoader.cs:123 | blank segments leave the walk where it is |
| `DocumentPath.SeparatorsPathIsStart` | src/DocumentRefLoader/ReferenceLoader.cs:118-120 | an empty path, `/`, `//`, ... navigates to the start token |
| `DocumentPath.DoubledSeparators` | src/DocumentRefLoader/ReferenceLoader.cs:118 | `//a//b` and `a/b` split into the same segments `[a, b]` |
| `ReferenceLoader.NewLoader` | src/DocumentRefLoader/ReferenceLoader.cs:35-46 | fails exactly when the download fails; otherwise a fresh unresolved loader whose detached tree reads as the downloaded document |
| `ReferenceLoader.Open` | src/DocumentRefLoader/ReferenceLoader.cs:40 | the registry starts with exactly the root document, under its own URI, unresolved, downloaded once |
| `ReferenceLoader.GetReferenceLoader` | src/DocumentRefLoader/ReferenceLoader.cs:139-150 | a nested reference is served by the current loader with nothing changed; a registered URI by its loader with nothing changed; otherwise a new loader is downloaded and registered under the URI, or the download failure is reported |
| `ReferenceLoader.EnsureRefResolved` | src/DocumentRefLoader/ReferenceLoader.cs:63-71 | an already-flagged loader returns at once with nothing changed; on success the loader is flagged and the session invariant holds |
| `ReferenceLoader.ResolveRef` | src/DocumentRefLoader/ReferenceLoader.cs:73-81 | a scalar or null token changes nothing; on success the session invariant holds, and no existing token moves to a new parent |
| `ReferenceLoader.ResolveMarkers` | src/DocumentRefLoader/ReferenceLoader.cs:83-103 | on success the session invariant holds, and no existing token moves to a new parent |
| `ReferenceLoader.ResolveMarker` | src/DocumentRefLoader/ReferenceLoader.cs:85-102 | a declined marker changes nothing; an accepted one ends with its object cut loose; a copy is spliced only for a marker whose object was still attached after the target was fetched and expanded, and the copy is a fresh attached token |
| `ReferenceLoader.ResolveMarkerSplice` | src/DocumentRefLoader/ReferenceLoader.cs:92-102 | when a copy is spliced, it takes the slot that the `$ref` object held in its original parent and hangs under that parent; it reads as the strategy's replacement for the target as it stands after its own references were expanded; the `$ref` object is cut loose and no token holds it any more; the splice changes no other token |
| `ReferenceLoader.AcceptedMarkersDetached` | src/DocumentRefLoader/ReferenceLoader.cs:83-103 | under a strategy that accepts every reference, a successful loop leaves the object of every visited `$ref` cut loose and held by no token |
| `ReferenceLoader.AcceptedRefsDetached` | src/DocumentRefLoader/ReferenceLoader.cs:73-103 | under such a strategy, a successful expansion of a token leaves every `$ref` object below it cut loose and held by no token |
| `ReferenceLoader.AcceptingStrategyDetachesAll` | src/DocumentRefLoader/ReferenceLoader.cs:64-103 | under such a strategy, a successful first resolution of a document leaves every `$ref` object of the document cut loose and held by no token, so that none but a `$ref`-holding root is reachable from the document's root |
| `ReferenceLoader.RefValue` | src/DocumentRefLoader/ReferenceLoader.cs:85 | the value read is the value of the `$ref` member of the object holding the marker |
| `ReferenceLoader.MarkerRef` | src/DocumentRefLoader/ReferenceLoader.cs:85-86 | the reference is `GetRefInfo` applied to the loader's URI and the `$ref` value |
| `ReferenceLoader.SpliceWf` | src/DocumentRefLoader/ReferenceLoader.cs:100-102 | a splice keeps the session invariant, detaches the `$ref` object and attaches the copy |
| `ReferenceLoader.GetRefJToken` | src/DocumentRefLoader/ReferenceLoader.cs:106-112 | on success the loader chosen for the reference (the current one for an in-document reference, otherwise the one registered under the document URI) is registered and resolved, and the token returned is where the walk of the in-document path from its root ends |
| `ReferenceLoader.GetDocumentPart` | src/DocumentRefLoader/ReferenceLoader.cs:114-137 | resolution comes first and its failure is passed on; after it, the call fails only with `PathNotFound` naming the path and the document; a result is where the walk along the split path from the root ends, and a token found holds the member at the non-blank segments; for a resolved loader it fails exactly when a lookup throws |
| `ReferenceLoader.GetRefResolved` | src/DocumentRefLoader/ReferenceLoader.cs:57-61 | the value returned is the root document's tree after resolution, and the root loader is flagged |
| `ReferenceLoader.ResolveIdempotent` | src/DocumentRefLoader/ReferenceLoader.cs:63-71 | after a successful resolution, a second resolution of the same loader, with any fuel, succeeds and changes nothing |
| `ReferenceLoader.GetRefResolvedIdempotent` | src/DocumentRefLoader/ReferenceLoader.cs:57-61 | after a successful call, asking again for the resolved document gives the same tree and the same session |
| `ReferenceLoader.DeclinedMarkersUntouched` | src/DocumentRefLoader/ReferenceLoader.cs:83-90 | when the strategy declines every marker, the loop changes nothing |
| `ReferenceLoader.DecliningStrategyChangesNothing` | src/DocumentRefLoader/ReferenceLoader.cs:64-90 | under a strategy that declines everything, resolution only sets the flag |
| `ReferenceLoader.RegisteredLoaderReused` | src/DocumentRefLoader/ReferenceLoader.cs:139-150 | after a successful lookup, looking the same reference up again downloads and registers nothing and gives the same loader |
| `ReferenceLoader.OneDownloadPerUri` | src/DocumentRefLoader/ReferenceLoader.cs:139-150 | after a successful resolution, no URI appears twice in the download log, every loader registered before keeps its tree, and no URI registered before was downloaded again |
| `ReferenceLoader.SeparatorsPathIsRoot` | src/DocumentRefLoader/ReferenceLoader.cs:118-136 | an empty path, `/`, `//`, ... in a resolved document returns its root with nothing changed |
| `ReferenceLoader.DoubledSeparatorsSameTarget` | src/DocumentRefLoader/ReferenceLoader.cs:118-124 | `//a//b` succeeds iff `a/b` does, with the same result |
| `ReferenceLoader.DocumentRootNotSpliced` | src/DocumentRefLoader/ReferenceLoader.cs:95-97 | a `$ref` held by a document's root object is never replaced |
| `SingleReference.FirstResolution` | src/DocumentRefLoader/ReferenceLoader.cs:64-81 | the first resolution of a document whose root is a container flags the loader, then loops over every `$ref` collected below the root |
| `SingleReference.NestedTarget` | src/DocumentRefLoader/ReferenceLoader.cs:106-141 | once the loader is flagged, a reference into the same document yields the token the path walk reaches, with nothing changed |
| `SingleReference.NoMarkersNoChange` | src/DocumentRefLoader/ReferenceLoader.cs:73-81 | expanding a token with no `$ref` below it changes nothing |
| `SingleReference.SingleMarker` | src/DocumentRefLoader/ReferenceLoader.cs:85-102 | an accepted in-document reference to a part without `$ref` splices the strategy's replacement of that part, as a copy at the next free id, in place of the `$ref` object |
| `SingleReference.SingleNestedRef` | src/DocumentRefLoader/ReferenceLoader.cs:64-102 | a document whose only `$ref` is attached, accepted, points inside the document, and reaches a part with no `$ref` resolves by exactly one splice of the replacement |
| `InlineExample.OpenDocument` | src/DocumentRefLoader/ReferenceLoader.cs:35-46 | loading `{"a": {"$ref": "#/b"}, "b": {"x": 1}}` gives the root id 0, the `$ref` object id 1 under `a`, and the object under `b` id 3, unresolved |
| `InlineExample.MarkersOfDocument` | src/DocumentRefLoader/ReferenceLoader.cs:78-81 | the `$ref` under `a` is the only one collected below the root, and none is collected below `b` |
| `InlineExample.WalkToB` | src/DocumentRefLoader/ReferenceLoader.cs:118-134 | the path `/b` leads from the root to the object under `b` |
| `InlineExample.SplicedDocument` | src/DocumentRefLoader/ReferenceLoader.cs:99-102 | splicing the value under `b` in place of the object under `a` gives both members that value |
| `InlineExample.InlinedReference` | src/DocumentRefLoader/ReferenceLoader.cs:57-102 | under a strategy that inlines every reference, `{"a": {"$ref": "#/b"}, "b": {"x": 1}}` resolves to `{"a": {"x": 1}, "b": {"x": 1}}` |

## Left out

- Download and deserialisation (`DownloadDocumentAsync`, `Deserialise`, `ReferenceLoader.cs:43-45`)
  are file and network I/O plus the Newtonsoft and YamlDotNet codecs. They are the `load` parameter,
  which gives the parsed value or fails.
- `OriginalJson`, `FinalJson`, `GetRefResolvedYaml` and `GetRefResolvedJson` are codec wrappers and
  are not modelled.
- `RefInfo.GetRefInfo`, `GetAbsolute` and `GetFolder` depend on `System.Uri` and are not part of this
  model. `RefInfo` is an opaque input computed by the `refInfo` parameter. `GetAbsolute` is assumed
  to be the identity on the absolute URIs that `RefInfo` yields, so a loader's URI is its registry key.
- The bodies of `ShouldResolveReference` and `ApplyRefReplacement` are not part of this model.
  `ApplyRefReplacement` is taken as putting a value chosen by the strategy in place of the `$ref`
  object. Strategies that also rewrite other parts of the root tree are not modelled.
- `ReferenceLoader.EnsureRefResolved`: termination on cyclic references is not claimed. Expansion
  depth is bounded by `fuel`, and running out is the `OutOfFuel` error. The source overflows its
  stack instead.
- `ReferenceLoader.EnsureRefResolved`: the session after a failure is not modelled; a failure
  carries only the error. The source sets `_isResolved` before it expands (`ReferenceLoader.cs:69-70`),
  so after an exception the loader stays flagged, splices made before the failure stay in the tree,
  and loaders registered during the attempt stay registered (`ReferenceLoader.cs:148`).
- `ReferenceLoader.GetRefResolved`: likewise returns only the error on failure, not the session the
  failed resolution left behind.
- `ReferenceLoader.MarkerRef`: states only what is passed to `GetRefInfo`, because the parsing of
  a `$ref` is not part of this model.
- `InlineExample.InlinedReference`: the example's own `refInfo` reads `#/b` as the in-document
  path `/b`, because `RefInfo.GetRefInfo` is not part of this model.
- `DocumentPath.Index`: an object is assumed to hold at most one property per name, and the first
  match is used. Newtonsoft objects cannot hold duplicates.
- `SplitHelpers.SplitGetLastHelper`: requires a non-empty separator. With an empty separator .NET
  splits on white space instead.
- `SplitHelpers.SplitGetFirstHelper`: requires a non-empty separator, for the same reason.
- A null first argument and non-string arguments are not modelled. The helpers receive the
  arguments' `ToString()` texts.
- Helper registration and dispatch (`HandlebarsConfigurationHelper.cs`, `SimpleBlockHelperBase.cs`)
  and `JsonHelper.cs` are reflection, process and codec plumbing, and are not part of this model.
- Concurrency is not modelled. The resolution is sequential.
