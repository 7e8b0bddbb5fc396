# Icon set generator, modelled in Dafny

The plugin turns each selected icon of a design document into a *component
set*: one component per requested pixel size, each holding a clone of the icon
scaled to fit a `size × size` square, with one stroke weight set on the whole
clone, the clone centred, and the component's fill cleared. The components are
combined into one set with a horizontal auto-layout (16 spacing, 16 padding).
When several icons are selected, the sets are named from a shared custom name
with a 1-based suffix, stacked vertically in the column of the first icon with
a 32-unit gap, and a failure on one icon is recorded without stopping the
others. A summary notification ends the run.

The model follows `code.ts` function by function, grouped into Dafny modules:

- `Scene` — the scene node as a value (`Node`: kind, name, geometry, optional
  stroke weight, optional clipping flag, whether it can be rescaled, children)
  and the icon check `IsValidIconNode`.
- `Resizer` — `CreateResizedIcon`, the clone scaled by `target / max(width, height)`.
- `Strokes` — `ApplyStrokeWidth`, the depth-first walk, as a tree map with its
  characterising predicates.
- `ComponentSets` — one pass of the per-size loop (`BuildComponent`) and
  `CreateSingleComponentSet`, a method whose loop collects the components.
- `Batch` — `GenerateBulkComponentSets`, a method whose loop names, builds,
  places and records each icon, and `Summary`, the closing notification.
- `Plugin` — the selection filter, the status sent to the panel, and the
  generate-request handler with its "no icon selected" check.
- `Decimal` and `Wrappers` — whole numbers as decimal text (as template literals
  print them below 10^21) with the reading that undoes it, and `Option`/`Result`.

The host is not visible: for each icon the batch receives a `HostReply`, either
the height the host's auto-layout gave the finished set or the value one of the
host's primitives threw. Nodes are values, so the source icons are never
changed by construction; a clone is an equal value.

The icon check follows `code.ts:19`, which is looser than "a frame must clip
its content": a frame is rejected only when its clipping flag is explicitly
`false`, so a frame without the flag is accepted.

## Model

| member | source | states |
|---|---|---|
| Scene.MaxDimension | code.ts:31 | the reference dimension is at least the width and the height and equals one of them |
| Scene.IsValidIconNode | code.ts:12-24 | a node is accepted iff it is a vector, a group, or a frame whose clipping flag is not false; every other type is rejected |
| Resizer.CreateResizedIcon | code.ts:27-39 | the clone differs from the source at most in width and height; a rescalable clone has both scaled by target / max(width, height); any other clone keeps the source's size |
| Resizer.ResizedFitsTarget | code.ts:30-35 | for a rescalable clone and a positive target, the larger scaled dimension equals the target, both lie in [0, target], and the aspect ratio is kept |
| Strokes.ApplyStrokeWidth | code.ts:42-52 | afterwards every node of the tree that has a stroke weight has the given weight, and the tree is otherwise unchanged (shape, names, geometry, which nodes have strokes) |
| Strokes.StrokeWalkUnique | code.ts:42-52 | the two properties above determine the walk's result: any tree having both is the walk's result |
| Strokes.StrokeWalkFixpoint | code.ts:42-52 | a tree whose stroke weights already all equal the weight is left as it is |
| Strokes.StrokeWalkLastWins | code.ts:42-52 | walking with one weight and then another equals walking once with the second |
| Decimal.NatToString | code.ts:77 | a whole number prints as a non-empty run of digits with no leading zero |
| Decimal.ParseNatToString | code.ts:77 | reading the printed number back, followed by a non-digit, yields the number and that remainder |
| Decimal.NatToStringInjective | code.ts:133 | different numbers print differently |
| Decimal.CanonicalIsNatToString | code.ts:77 | every non-empty digit run without a leading zero (a lone "0" allowed) is exactly the printing of its value |
| Decimal.ParseNatExact | code.ts:77 | whatever the reader accepts is the printing of the number it returns followed by a remainder that does not start with a digit, so a number is read only from its own printing ("016" and "" are refused) |
| ComponentSets.IconName | code.ts:62 | a non-empty custom name wins; an absent or empty one falls back to the icon's own name |
| ComponentSets.SizeName | code.ts:77 | the variant name is `Size=` followed by the size's decimal digits, without leading zeros, whose value is the size |
| ComponentSets.SizeNameExact | code.ts:77 | a name that reads back as a size is exactly that size's variant name |
| ComponentSets.BuildComponent | code.ts:65-90 | each component is size × size with no fills; its icon is the source's clone scaled to the size, differing from it only in stroke weights (which all equal the requested stroke) and position; the icon is centred: its left and right (top and bottom) margins are equal |
| ComponentSets.ComponentIconDetermined | code.ts:66-84 | the component's contract pins its icon: any size × size component whose icon carries only the requested stroke weight, differs from the scaled clone only in strokes and position, and has equal opposite margins holds exactly the icon built at code.ts:66-84 |
| ComponentSets.ComponentNamedBySize | code.ts:77 | the component's name reads back as its size |
| ComponentSets.ComponentFitsIcon | code.ts:69-84 | for a rescalable source and positive size the centred icon lies inside the component and touches two opposite sides |
| ComponentSets.CreateSingleComponentSet | code.ts:55-110 | the set has one component per size, the k-th built from sizes[k] and strokes[k]; it is named `customName` when non-empty and the icon's name otherwise, with horizontal auto-layout, spacing 16, padding 16 on all sides, and no fills |
| ComponentSets.VariantsInRequestOrder | code.ts:64-93 | the k-th variant reads back as sizes[k], is sizes[k] square and carries strokes[k]: request order, not sorted |
| Batch.ComponentName | code.ts:129-137 | a name is passed to the builder iff the custom name is non-empty and there is at least one icon, and it is never empty |
| Batch.NamingPolicy | code.ts:129-140 | with no or an empty custom name the set takes the icon's own name; with one icon it takes the custom name; with several it is `<custom>-<position>` and the position reads back as index + 1 |
| Batch.IndexedNameExact | code.ts:133 | a name that reads back as position k under a base is exactly `<base>-<k>` |
| Batch.SharedNamesDiffer | code.ts:131-133 | sets sharing a custom name in one batch get pairwise different names |
| Batch.OneOutcomePerSource | code.ts:127-156 | succeeded and failed positions partition the sources: each source is in exactly one list, according to its outcome, both lists in source order |
| Batch.StackedSetsApart | code.ts:122-147 | with non-negative heights, stacked sets run top to bottom and each ends at least 32 above every later one |
| Batch.Summary | code.ts:165-174 | the notification is error-styled iff some icon failed |
| Batch.SetNoun | code.ts:167 | the noun is "set" exactly for a count of one and "sets" otherwise |
| Batch.SummaryExact | code.ts:165-174 | a message that reads back as a pair of counts is exactly the summary text printed for those counts |
| Batch.SummaryReadsBack | code.ts:165-174 | the notification text gives back both counts, and a success message says "set" exactly when one set was generated |
| Batch.ErrorMessage | code.ts:152 | a thrown `Error` gives its message and any other thrown value "Unknown error" |
| Batch.BuildIcon | code.ts:128-155 | a thrown `Error` becomes its message and anything else "Unknown error"; a build that completes gives the set for the icon under the chosen name |
| Batch.GenerateBulkComponentSets | code.ts:113-178 | the sets are the builds of the succeeded icons in order, named by the naming policy, all at the first icon's x, the first at its y and each later one 32 below the previous one's bottom (failed icons do not advance y); the errors name the failed icons in order with their messages; the notice is the summary of both counts; the sets are selected iff there is one |
| Batch.EverySourceAccountedFor | code.ts:127-156 | every succeeded icon has its set and every failed icon its error whatever happened before it, sets plus errors equal the number of icons, and, when every laid-out height is non-negative, placed sets do not overlap |
| Batch.MiddleFailureIsolated | code.ts:127-156 | of three icons with the middle one failing, the first and third get sets at the first icon's position and 32 below the first set, and the middle one gives the only error |
| Plugin.ValidNodes | code.ts:185 | the filter keeps exactly the selected icon nodes |
| Plugin.ValidNodesDistributes | code.ts:185 | the filter keeps selection order: it distributes over concatenation |
| Plugin.Names | code.ts:188 | the names list has the nodes' names position by position |
| Plugin.UpdateSelectionStatus | code.ts:181-204 | the status lists the icon names in selection order with count equal to their number, the flag is set iff the count is positive, and a selection without icons reports false, 0 and no names |
| Plugin.HandleGenerate | code.ts:218-233 | a request is turned away with the "select at least one valid icon" notice, generating nothing, iff no selected node is an icon; otherwise it gives the batch report over the selected icons in selection order |

## Left out

- Host I/O and UI: showing the panel, posting the status message, the selection-change listener, delivering notifications, scrolling into view, closing the plugin and the console log. The model computes what is posted, notified and selected.
- Host primitives are not modelled inside: cloning (a clone is an equal value), creating and resizing components, appending children, combining variants, and the fill and layout setters. Their results are stated as the values the model builds. Where the host first places a new set does not matter, because every set is placed afterwards.
- The set's height after auto-layout is computed by the host; it is an input of each build (`HostReply.Laid`).
- Which host primitive throws, and when, is an input per icon (`HostReply.Raised`). Components created before a throw stay on the page in the real document; the model does not track them.
- The model's rescale changes only the clone's own width and height. The host's `rescale` also scales the children's geometry and the stroke weights; that is host behaviour and is not modelled. Stroke weights are overwritten by the stroke walk anyway.
- Resizer.CreateResizedIcon: requires a positive larger dimension, because the model uses exact reals. In the plugin a zero-size source divides by zero and gets an infinite scale factor. Floating-point rounding is not modelled either.
- Batch.GenerateBulkComponentSets: requires every icon to have a positive larger dimension (`AllMeasurable`), so one zero-size icon is a precondition on the whole request; in the plugin that icon would fail alone inside the per-icon `try`, or succeed unchanged if it cannot be rescaled.
- Plugin.HandleGenerate: requires the same of every selected icon, for the same reason.
- Decimal.NatToString: matches the plugin's printing only below 10^21; JavaScript prints larger numbers in exponent form and cannot hold whole numbers above 2^53 exactly, which the model's unbounded sizes do not reflect.
- Batch.GenerateBulkComponentSets: requires at least as many stroke weights as sizes. The plugin reads `undefined` for a missing stroke weight.
- Plugin.HandleGenerate: requires at least as many stroke weights as sizes in the request, for the same reason.
- Sizes are whole non-negative numbers, because only their decimal text for whole numbers is modelled. Stroke weights are arbitrary reals.
- The stroke walk changes the tree in place in the plugin. Here it returns the updated tree, so aliasing between nodes is not captured.
- A set's position suffix is the loop position, not `indexOf(node)`. Scene nodes are distinct objects, so the two coincide. Nodes are values here, so two equal-looking nodes would collide under `indexOf`.
- A stroke weight that the host reports as "mixed" is not distinguished from a numeric one.
