# A minimal JavaScript bundler, modelled in Dafny

The bundler (`index.mjs`) takes an entry file and produces one bundle from it. It works in two phases.

1. **Building the dependency graph.** It first checks that the entry file exists in the project index. Then it runs a breadth-first traversal from the entry over a FIFO queue, a `seen` set, an insertion-ordered `modules` map and an `id` counter. For each path it dequeues the first time, it:
   - marks the path seen;
   - builds the ordered `dependencyMap` from each specifier the index lists to the path the resolver gives for it;
   - reads the file;
   - stores the record under the next id;
   - enqueues every resolved path, duplicates included.

   Paths already seen are skipped when they are dequeued.
2. **Serializing.** It walks the modules in reverse traversal order. In each module's code it rewrites, for every dependency edge, the first `require('spec')` or `require("spec")` call into `require(<id>)`. It wraps the code as `define(<id>, function(module, exports, require) {\n<code>});`. Finally it puts the runtime preamble first and the bootstrap call `requireModule(0);` last.

The model has six modules:

- `Wrappers`: `Option` and `Result`.
- `OrderedMaps`: a JavaScript `Map` as a key sequence plus a finite map. `Set` appends a new key or updates an existing one in place, and `FromEntries` is `new Map(pairs)`.
- `Text`: decimal numerals and their parser.
- `GraphBuilder`: the traversal. It has:
  - the imperative `Build`, whose loop has invariants;
  - the queue-free reference traversal `Explore`/`BuildSpec`. This reference repeatedly takes the first path that the entry or an already discovered module has enqueued but that is not yet discovered.

  `Build` is proved to compute exactly `BuildSpec`, and the promised properties are proved about `BuildSpec`.
- `WrapSerializer`: the wrapper and its inverse, the literal leftmost-match rewrite, and the nested serializer loops (`RewriteModule`, `Serialize`).
- `Bundler`: the whole build (`BuildBundle`).

The external collaborators become a table, `Project`:

- `index` stands for the project index. A path exists when it is a key, and the key's value is the result of `getDependencies`.
- `contents` stands for `readFileSync`.
- `resolution` stands for `resolveModule`.

A lookup that the source would answer by throwing becomes a `BuildError`:

- `EntryNotFound`: the entry guard.
- `NotIndexed`: `getDependencies` of an unknown path gives nothing to `.map` over.
- `ResolutionFailure`: the resolver throws.
- `ReadFailure`: the read throws.

Because the index is finite, the traversal terminates even on cyclic graphs. The decreasing measure is the number of indexed paths not yet seen, together with the queue length.

## Model

| member | source | states |
|---|---|---|
| GraphBuilder.Build | index.mjs:45-80 | The queue/seen/modules/id loop returns exactly the reference traversal `BuildSpec`, errors included. It terminates because every iteration either sees one more indexed path or shortens the queue. |
| GraphBuilder.BuildSpecFailure | index.mjs:31-68 | A failed build reports `EntryNotFound` exactly when the entry is not in the index. Otherwise the error is the visit failure of a module the traversal actually reached. |
| GraphBuilder.BuildSpecSound | index.mjs:45-80 | A successful build puts the entry at position 0, and module `i` has id `i`, so ids are 0..n-1 with no duplicates. Every module is the first undiscovered path enqueued before it. Nothing enqueued is left out. The table is closed under dependency edges. |
| GraphBuilder.BuildSpecRecords | index.mjs:59-78 | Every stored record holds the file's text. Its dependency map has one key per distinct specifier the index lists, in that order, and each value is the resolver's answer for that module and specifier. |
| GraphBuilder.ExploreDiscovers | index.mjs:50-80 | Going on from a discovered table, a successful traversal ends in a table that is still discovered and is complete. |
| GraphBuilder.ExploreFailure | index.mjs:50-80 | A traversal fails only when the next path to discover, from some discovered table, fails its visit with that error. |
| GraphBuilder.CompleteIsClosed | index.mjs:79-94 | When nothing enqueued is undiscovered, the entry and every dependency of every module are in the table, so `modules.get(dependencyPath)` is always defined. |
| GraphBuilder.ResolveAll | index.mjs:60-65 | It succeeds exactly when every listed specifier resolves. The pairs are `(specifier, resolved path)` in index order. On failure, the error names the first specifier that does not resolve. |
| GraphBuilder.Visit | index.mjs:56-78 | One visit of a path: `NotIndexed` when the index does not list it, the error of its first unresolvable specifier, `ReadFailure` when its file cannot be read, and otherwise a record with the given id, the file's text and `new Map` of the resolved pairs. `VisitRecord` and `VisitFailure` prove these cases. |
| GraphBuilder.VisitRecord | index.mjs:59-78 | A successful visit yields the given id, the file's text, and a valid dependency map. The map's keys are the deduplicated specifier list, and its values are the resolver's answers. |
| GraphBuilder.VisitFailure | index.mjs:59-68 | A failed visit failed for one of three reasons. Either the path is not indexed, or the error names the first of its specifiers, in index order, that does not resolve, or every specifier resolved and the file could not be read. So resolution comes before the read, as `.map` throws before `readFileSync` runs. |
| GraphBuilder.FirstUnseen | index.mjs:50-56 | The first element of the queue that is not yet seen: it is in the queue and unseen, every element before its position is seen, and when there is none, every element is seen. |
| GraphBuilder.QueueHeadIsNext | index.mjs:51-56 | An unseen queue head is the reference traversal's next path, because everything already dequeued has been seen. |
| GraphBuilder.FirstUnseenAfterSeen | index.mjs:53-55 | Skipping paths that are already seen does not change which path is next. |
| GraphBuilder.LoopInit | index.mjs:45-48 | The empty `seen`, empty `modules`, queue `[entry]` and id 0 satisfy the loop invariant. |
| GraphBuilder.LoopSkip | index.mjs:53-55 | Discarding a seen queue head keeps the invariant. |
| GraphBuilder.LoopAbort | index.mjs:59-68 | A dequeued path whose visit fails makes the whole build fail with that error. |
| GraphBuilder.LoopVisit | index.mjs:56-79 | Marking the head seen, storing its record under id `id`, incrementing `id` and appending its dependency values keeps the invariant. One more indexed path is then seen. |
| GraphBuilder.LoopDone | index.mjs:50 | With the queue empty, the table is the result of the reference traversal. |
| GraphBuilder.VisitKeepsQueue | index.mjs:78-79 | Storing the head and pushing its dependency values keeps the dequeued part plus the queue equal to everything ever enqueued. |
| GraphBuilder.PushedAfterSet | index.mjs:78-79 | Adding a new module appends exactly its dependency values to what has been enqueued. |
| GraphBuilder.VisitShrinks | index.mjs:53-56 | Recording a newly discovered path leaves one indexed path fewer unseen. |
| GraphBuilder.ExploreStep | index.mjs:56-79 | Discovering the next path and going on reaches the same result. |
| OrderedMaps.OrderedMap.Set | index.mjs:78 | `Map.set` maps the key to the value. A new key is appended to the key order. An existing key keeps its position. |
| OrderedMaps.OrderedMap.Values | index.mjs:79 | `dependencyMap.values()`: the values in key order. `PushedAfterSet` proves that recording a module enqueues exactly these values. |
| OrderedMaps.FromEntries | index.mjs:59-66 | `new Map(pairs)`: the pairs are set one after another, giving a valid ordered map. `FromEntriesKeys`, `FromEntriesLastWins` and `FromEntriesFromPairs` prove what its keys and values are. |
| OrderedMaps.FromEntriesKeys | index.mjs:59-66 | `new Map(pairs)` has the first components, deduplicated, in order of first appearance, as its keys. |
| OrderedMaps.FromEntriesLastWins | index.mjs:59-66 | For a key of `new Map(pairs)`, the value is the one from the last pair with that key. |
| OrderedMaps.FromEntriesFromPairs | index.mjs:59-66 | Every key/value of `new Map(pairs)` is one of the pairs. |
| OrderedMaps.Dedup | index.mjs:59-66 | The key order keeps exactly the elements of the list, each element once. |
| OrderedMaps.DedupOrder | index.mjs:59-66 | The kept elements are in order of first occurrence: of two kept elements, the earlier occurs in the list before the later first does. |
| OrderedMaps.DedupOfDistinct | index.mjs:59-66 | A specifier list without repetitions gives one key per specifier, in the same order. |
| Text.NatToString | index.mjs:87 | `${id}` is a non-empty decimal numeral without leading zeros. |
| Text.ParseNatToString | index.mjs:87 | Reading the numeral back gives the id: the decimal rendering is injective. |
| WrapSerializer.WrapModule | index.mjs:86-88 | The `define(<id>, function(module, exports, require) {\n<code>});` template. `WrapRoundTrip` proves that `UnwrapModule` recovers the id and the code from it. |
| WrapSerializer.WrapRoundTrip | index.mjs:86-88 | `wrapModule(id, code)` carries exactly its id and code: `UnwrapModule` recovers both. |
| WrapSerializer.UnitRoundTrip | index.mjs:86-104 | The unit emitted for a module unwraps to the module's id and its rewritten code. |
| WrapSerializer.FindRequire | index.mjs:97-102 | The leftmost position at or after `from` where a `require` call of the specifier matches. The match lies inside the code and no earlier position from `from` on matches. `None` means no position from `from` on matches. This makes `ReplaceFirst` replace the leftmost match. |
| WrapSerializer.ReplaceFirst | index.mjs:97-102 | `code.replace` with a non-global pattern. `ReplaceFirstLeftmost` proves it replaces exactly the leftmost match, and `ReplaceFirstNoMatch` proves code without a match is unchanged. |
| WrapSerializer.ReplaceFirstLeftmost | index.mjs:97-102 | Only the leftmost `require(q spec q)` call (the same quote, `'` or `"`, on both sides) is replaced. Every character before and after it is kept. |
| WrapSerializer.ReplaceFirstNoMatch | index.mjs:97-102 | Code with no matching call comes out identical. |
| WrapSerializer.RewriteRequires | index.mjs:93-103 | The module's code after its first k dependency edges are rewritten in dependency-map order. `RewriteEdge` proves what one edge rewrites, and `RewriteWithoutCalls` proves code with no calls is unchanged. |
| WrapSerializer.RewriteEdge | index.mjs:93-102 | Edge `k` of the dependency map turns the leftmost call of its specifier into `require(<dependency id>)` and keeps the rest of the code. |
| WrapSerializer.RewriteWithoutCalls | index.mjs:93-102 | A module whose code calls none of its specifiers is emitted with its code unchanged. |
| WrapSerializer.OnlyFirstCallRewritten | index.mjs:97-102 | A second identical call of the same specifier survives the rewrite, still addressed by specifier. |
| WrapSerializer.RewriteModule | index.mjs:92-103 | The inner loop over the dependency map computes the edge-by-edge rewrite of the module's code. |
| WrapSerializer.Serialize | index.mjs:89-110 | The output is the preamble, then the units of all modules in reverse traversal order, then `requireModule(0);`. |
| WrapSerializer.UnitsUpToAt | index.mjs:104 | Element `i` of the unit list is the unit of the module at traversal position `i`. |
| WrapSerializer.Reversed | index.mjs:91 | `Array.from(modules).reverse()`: a sequence of the same length. `ReversedAt` proves that position j holds element \|s\| - 1 - j. |
| WrapSerializer.ReversedAt | index.mjs:91 | `Array.from(modules).reverse()` puts element \|s\| - 1 - j at position j. |
| WrapSerializer.FramedReversedAt | index.mjs:104-110 | After `unshift` and `push`, the output has length n + 2. The preamble is at position 0, the bootstrap call at n + 1, and module `i`'s unit at n - i. |
| Bundler.BuildBundle | index.mjs:31-110 | Either the build fails with the same error as the reference traversal (`EntryNotFound` exactly when the entry is not indexed), or it returns the bundle of the traversal's table. In that table the entry is module 0 and the ids are the positions. |
| Bundler.BuiltIsSerializable | index.mjs:94 | Every module a build records has dependency targets in the table, and its specifiers are plain, so the serializer is always defined. Only the specifiers of reached files are required to be plain. |
| Bundler.UnitAtPosition | index.mjs:104 | In a built table, unit `i` unwraps to id `i` and the rewritten code of module `i`. |
| Bundler.BundleUnits | index.mjs:104 | Every unit unwraps to its module's position and rewritten code. |
| Bundler.FirstModuleUnitIsLast | index.mjs:89-110 | The bundle has n + 2 lines, and its last unit is the entry module's, under id 0. |

## Left out

- `jest-haste-map` and `jest-resolve` (index.mjs:9-26, 39-43) are foreign libraries. They become the `index` and `resolution` tables of `Project`, and the files' `.js` extension filtering is not modelled.
- `yargs` argument parsing, `chalk` and `console.log` output, `output.join("\n")` and `fs.writeFileSync` (index.mjs:28-29, 37, 82-83, 111-115) are command-line and I/O plumbing. The model's bundle is the list of lines before they are joined.
- `fs.readFileSync` (index.mjs:68, 108) becomes an I/O lookup: module sources come from the `contents` table, where a missing entry is a `ReadFailure`. The runtime `require.js` is an opaque `preamble` string, so its memoizing `require` semantics are not modelled, and neither is a failed read of `./require.js` (index.mjs:108): the preamble is a parameter, so that read cannot fail in the model.
- The `moduleBody` match (index.mjs:70) is not modelled, because its result is never used.
- General regular-expression semantics are not modelled (index.mjs:97-102). The source escapes only `/` and `.` in a specifier, so the model matches literally, and it requires every specifier listed by a file the build reaches to be free of the other metacharacters (`PlainSpecifier`, `Bundler.PlainReached`). Files the build never reaches may list any specifiers. The replacement cannot contain `$` patterns, because it is `require(` + digits + `)`.
- The bootstrap line is pushed as a one-element array (index.mjs:110), whose `join` text is its string. The model pushes the string itself.
- Ids are JavaScript numbers. They are modelled as unbounded naturals, because any real project stays well below 2^53.
- Evaluation order of cyclic graphs at run time is not modelled, and neither is the inline-substitution strategy, because the source has no code for it.
- GraphBuilder.Build: the loop invariant states that `seen` equals the key set of `modules`. `seen` is local to the loop, so it does not appear in the method's postcondition.
- GraphBuilder.BuildSpecRecords: the dependency map's keys are the deduplicated specifier list. When the index lists a specifier twice, `new Map` keeps its first position, and both resolved values are the same, because resolution is a function of the module and the specifier.

## Notes

- The rewrite pattern has no `g` flag (index.mjs:97-102), so `String.prototype.replace` rewrites only the leftmost `require` call of each specifier. The model follows the code: `OnlyFirstCallRewritten` shows a second identical call surviving the rewrite.
