# Compositor graph and pass, modelled in Dafny

This project models the core of a WebGL post-processing compositor and proves properties of the model. It has three parts.

- **The graph** (`graph.dfy`, module `CompositorGraph`). The graph is a list of nodes. Each node has named inputs, which name a producer node and optionally one of its output pins. `update` clears every node's links. It then resolves each truthy input with `findPin` and links it. `findPin` looks a producer up by name (the last match wins) or takes a node handle. A missing pin becomes the producer's first output key, and for an explicit `{node, pin}` reference object that key is written back into the object. `addNode`, `removeNode` and `getNodeByName` maintain and query the list.
- **The pass** (`pass.dfy`, module `CompositorPass`). A pass holds a uniform table, an attachment table from framebuffer slots to textures, and the flags `blendWithPrevious` and `clearColor`. Its `render` issues a fixed sequence of device commands. The device is modelled as an append-only command log, and the `beforerender`/`afterrender` events are entries in that log.
- **The normal-distribution table** (`cubemap.dfy`, module `Cubemap`). This is the integer part of `generateNormalDistribution`: default sizes, the 32-bit Hammersley bit reversal and the RGBA layout of the pixel buffer.

`wrappers.dfy` holds an `Option` type.

JavaScript semantics are written out in the model:

- A `for ... in` loop over integer-like keys visits them in ascending order (`SortedKeys`).
- `indexOf` returns -1 for an absent element, and `splice(-1, 1)` removes the last element.
- `x || d` picks the default for a falsy count.
- `>>> 0` is `bv32` arithmetic.

Three behaviours of the code deserve a note:

- The two name lookups differ. `getNodeByName` returns the first node carrying the name, while the lookup inside `findPin` keeps the last one. Both are modelled, and `LookupsDisagreeOnDuplicates` shows them diverging.
- Removing a node that is not in the list drops the last node (see Findings).
- After `removeNode` and `update`, an input that holds the removed node itself, rather than its name, still resolves to it (`RemovedNodeStillReachableByHandle`).

## Model

| member | source | states |
|---|---|---|
| CompositorGraph.Graph.constructor | src/compositor/Graph.js:11-18 | A new graph has no nodes and is not dirty. |
| CompositorGraph.Graph.AddNode | src/compositor/Graph.js:24-29 | The node is appended after the existing nodes, which keep their places; the graph becomes dirty. |
| CompositorGraph.Graph.RemoveNode | src/compositor/Graph.js:33-37 | The list becomes `splice(indexOf(node), 1)` of the old list, including the -1 case; the graph becomes dirty. |
| CompositorGraph.Graph.RemoveNodeChecked | src/compositor/Graph.js:33-37 | Corrected removal: the first occurrence of the node is removed, an absent node leaves the list as it is; the graph becomes dirty. |
| CompositorGraph.IndexOf | src/compositor/Graph.js:34 | The result is -1 exactly when the node is absent; otherwise it is a position holding the node with no earlier occurrence. |
| CompositorGraph.RemovePresentDropsFirstOccurrence | src/compositor/Graph.js:34 | For a listed node, the splice removes exactly its first occurrence: the length drops by one, the entries before and after keep their order, and the multiset loses one copy of the node. |
| CompositorGraph.RemoveAbsentDropsLast | src/compositor/Graph.js:34 | For an unlisted node and a non-empty list, the splice drops the last node, so the list shrinks although the node was never there. |
| CompositorGraph.RemoveCheckedAbsentKeepsList | src/compositor/Graph.js:33-37 | The corrected removal leaves a list without the node unchanged. |
| CompositorGraph.RemovedNodeStillReachableByHandle | src/compositor/Graph.js:99-109 | After removing a node listed once under a unique name, the name resolves to no producer, while a handle to the node still designates it. |
| CompositorGraph.Graph.GetNodeByName | src/compositor/Graph.js:42-48 | The result is the first node carrying the name, or null when none does. |
| CompositorGraph.FirstNamedIsFirstMatch | src/compositor/Graph.js:42-48 | The lookup returns null iff no node carries the name, and otherwise the node at the first position carrying it. |
| CompositorGraph.LastNamedIsLastMatch | src/compositor/Graph.js:99-106 | The lookup in `findPin` returns null iff no node carries the name, and otherwise the node at the last position carrying it (the loop has no break). |
| CompositorGraph.LookupsDisagreeOnDuplicates | src/compositor/Graph.js:99-106 | With two distinct nodes sharing a name, `getNodeByName` returns the earlier one and `findPin`'s lookup the later one. |
| CompositorGraph.Graph.FindPin | src/compositor/Graph.js:88-122 | The result is the resolution of the input both before and after the call. The write-back sets an explicit reference's missing pin to the producer's first output key, and only when a producer is found. |
| CompositorGraph.OutputEnabledIsFirstMatch | src/compositor/Graph.js:115 | `outputs[pin]` is truthy iff the first output with that key is enabled. |
| CompositorGraph.ResolvedPinIsEnabledOutput | src/compositor/Graph.js:110-121 | A resolution names the producer and a truthy output of it; a missing pin resolves like the first output key, so writing that key back changes nothing. |
| CompositorGraph.Node.Clear | src/compositor/Graph.js:54 | The node's links become empty. |
| CompositorGraph.Node.Link | src/compositor/Graph.js:74 | The node's link for the input is set to (producer, pin) and no other link changes. |
| CompositorGraph.Graph.ClearNodes | src/compositor/Graph.js:53-55 | Every listed node is left without links, a `clear` call is logged for each node in list order, and no reference object changes, so the tables of resolutions and settled pins stay true. |
| CompositorGraph.Graph.FindListedPin | src/compositor/Graph.js:72 | The call inside `update` returns what the input resolves to according to the table of resolutions. Afterwards every reference object of the graph still resolves as before and still settles on its recorded pin, and the input's own reference object now holds that pin. |
| CompositorGraph.Graph.LinkInput | src/compositor/Graph.js:63-84 | A truthy input that resolves is linked under its name, with a `link` call logged; otherwise the links and the log are unchanged. No reference object changes what it resolves to. The input's reference object, if any, now holds its settled pin (`PinsSettle`): its own pin, or the producer's first output key written back when the pin was missing and the producer exists. |
| CompositorGraph.Graph.LinkNode | src/compositor/Graph.js:63-84 | The node gains exactly the links its inputs resolve to, in input order, with the matching calls logged. Other nodes' links are unchanged, and reference resolutions are kept. The reference objects of the node's inputs now hold their settled pins, and those settled before still do. |
| CompositorGraph.Graph.LinkNodes | src/compositor/Graph.js:57-85 | Starting from cleared nodes, every listed node ends with exactly the links of its own inputs; the calls are logged node by node; every reference object of the graph holds its settled pin. |
| CompositorGraph.Graph.LinkEntry | src/compositor/Graph.js:63-84 | One iteration of the inner loop: the links and calls of the node's first j inputs become those of its first j + 1 inputs, the reference object of input j joins the settled ones, and reference resolutions are kept. |
| CompositorGraph.Graph.LinkNext | src/compositor/Graph.js:57-85 | One iteration of the outer loop. If the first i nodes are linked and the others clear, afterwards the first i + 1 nodes are linked, with node i's calls appended, and the reference objects of the first i + 1 nodes hold their settled pins. |
| CompositorGraph.Graph.Update | src/compositor/Graph.js:52-86 | Each listed node ends with the links its inputs resolve to. This is the same before and after the call, so it does not depend on earlier links. Every reference object of the graph ends with the pin `findPin` writes back: the producer's first output key if its pin was missing and the producer exists, and its own pin otherwise. The log gains the `clear` calls and then the `link` calls, and the list and dirty flag are unchanged. |
| CompositorGraph.Resolutions | src/compositor/Graph.js:72 | Input k resolves to what `findPin` returns for it. |
| CompositorGraph.ResolutionsWith | src/compositor/Graph.js:72 | Input k resolves as recorded in a table of the reference objects' resolutions. |
| CompositorGraph.LinksOverExact | src/compositor/Graph.js:63-84 | With distinct input names, processing the inputs links input k iff it is truthy and resolves, to that resolution, and makes no other link. |
| CompositorGraph.UpdateLinksExact | src/compositor/Graph.js:52-86 | After `update`, a node has a link for input k iff the input is truthy and `findPin` resolves it, that link is the resolved (node, pin), and there are no other links. |
| CompositorGraph.ClearCallsInOrder | src/compositor/Graph.js:53-55 | The first phase makes one `clear` call per listed node, in list order. |
| CompositorGraph.CallsOverAreLinks | src/compositor/Graph.js:63-84 | Processing a node's inputs makes only `link` calls on that node. |
| CompositorGraph.LinkCallsAreLinks | src/compositor/Graph.js:57-85 | The second phase makes only `link` calls, each on a listed node. |
| CompositorGraph.ClearsBeforeLinks | src/compositor/Graph.js:52-86 | In the calls `update` makes, the first n calls clear the n listed nodes in order and every later call is a `link` on a listed node. |
| CompositorPass.Pass.constructor | src/compositor/Pass.js:26-67 | A new pass has no attachment table, does not blend, has a falsy `clearColor` and a non-transparent material. |
| CompositorPass.Pass.SetUniform | src/compositor/Pass.js:74-79 | The uniform table becomes `WithUniform`: only an existing uniform takes the value. |
| CompositorPass.Pass.GetUniform | src/compositor/Pass.js:84-89 | The result is the value of an existing uniform, or nothing. |
| CompositorPass.SetThenGetUniform | src/compositor/Pass.js:74-89 | Setting never adds or removes a uniform; reading back gives the value set iff the uniform exists; other uniforms keep their values. |
| CompositorPass.SlotOf | src/compositor/Pass.js:98 | A falsy attachment selects COLOR_ATTACHMENT0; any other attachment is kept. |
| CompositorPass.Pass.AttachOutput | src/compositor/Pass.js:94-100 | The table, created when missing, has the slot set to the texture. |
| CompositorPass.AttachSetsOneSlot | src/compositor/Pass.js:94-100 | Attaching adds exactly the slot, which holds the texture; other slots keep theirs; a second attachment to the same slot replaces the first. |
| CompositorPass.Pass.DetachOutput | src/compositor/Pass.js:104-110 | Without a table nothing changes; otherwise every slot holding exactly the texture is emptied, visiting slots in key order. |
| CompositorPass.DetachEmptiesItsSlots | src/compositor/Pass.js:104-110 | Detaching keeps every key, empties the slots holding the texture and keeps the others; attach then detach leaves the slot empty. |
| CompositorPass.SortedKeysAscending | src/compositor/Pass.js:115 | The key order of `for ... in` lists each key of the table exactly once, strictly ascending. |
| CompositorPass.Pass.Bind | src/compositor/Pass.js:112-126 | The log gains the attachments of the non-empty slots in key order, then the framebuffer bind. |
| CompositorPass.AttachCommandsExact | src/compositor/Pass.js:115-120 | Every attachment names a visited slot and its own texture; every visited slot holding a texture is attached. |
| CompositorPass.BindAttachesFilledSlots | src/compositor/Pass.js:112-126 | `bind` ends with the framebuffer bind; everything before it attaches a table slot with its texture; every filled slot is attached. |
| CompositorPass.Pass.Unbind | src/compositor/Pass.js:128-130 | The log gains the framebuffer unbind. |
| CompositorPass.Pass.Render | src/compositor/Pass.js:135-191 | The log gains `RenderCommands`. The material is transparent iff the pass blends with the previous one. |
| CompositorPass.Pass.SelectDrawBuffers | src/compositor/Pass.js:143-153 | With the extension and a table, one `drawBuffersEXT` call with the colour-attachment keys in key order; nothing otherwise. |
| CompositorPass.DrawBufferListExact | src/compositor/Pass.js:145-151 | The `bufs` list holds exactly the keys in [COLOR_ATTACHMENT0, COLOR_ATTACHMENT0 + 8], and is ascending when the keys are. |
| CompositorPass.DrawBuffersAreAttachmentKeys | src/compositor/Pass.js:144-152 | For a table, `bufs` holds exactly its keys in range, ascending, whether or not the slot still holds a texture. |
| CompositorPass.Pass.ClearTargets | src/compositor/Pass.js:160-170 | The log gains depth mask, colour mask when `clearColor` is truthy, clear colour when it is an array, then the clear. |
| CompositorPass.ClearMaskBits | src/compositor/Pass.js:160-163 | The clear mask always has the depth bit, has the colour bit iff `clearColor` is truthy, and no other bit. |
| CompositorPass.ClearInOrder | src/compositor/Pass.js:160-170 | The clearing commands come in the order depth mask, colour mask, clear colour, clear. |
| CompositorPass.RenderClears | src/compositor/Pass.js:158-170 | Every render enables depth writes and clears with the mask. The colour mask is enabled iff `clearColor` is truthy. The clear colour is set iff `clearColor` is an array, and then to that colour. |
| CompositorPass.Pass.SetBlend | src/compositor/Pass.js:172-182 | BLEND is enabled or disabled, and the material's transparency set, according to `blendWithPrevious`. |
| CompositorPass.RenderBlend | src/compositor/Pass.js:172-182 | A render enables BLEND iff the pass blends with the previous one and disables it otherwise. |
| CompositorPass.RenderFramebuffer | src/compositor/Pass.js:135-191 | With a framebuffer it is bound and unbound as the last command. Without one, nothing is attached, bound or unbound. Draw buffers are chosen iff there is a framebuffer, the extension and a table. |
| CompositorPass.BindPhaseInOrder | src/compositor/Pass.js:139-154 | Before `beforerender`, the commands attach, then bind, then choose draw buffers. |
| CompositorPass.RenderInOrder | src/compositor/Pass.js:135-191 | A render issues its commands in the order: attach, bind, draw buffers, `beforerender`, depth mask, colour mask, clear colour, clear, blend, draw, `afterrender`, unbind. |
| Cubemap.OrDefault | src/util/cubemap.js:208-209 | A zero (falsy) size selects the default and any other size is kept. |
| Cubemap.ReverseBitsMirrors | src/util/cubemap.js:226-230 | Bit k of the five-stage result is bit 31 - k of the index. |
| Cubemap.ReverseBitsInvolution | src/util/cubemap.js:226-230 | Reversing twice gives the word back. |
| Cubemap.RadicalInverse | src/util/cubemap.js:226-230 | The radical inverse lies in [0, 1). |
| Cubemap.TexelOffsetInBounds | src/util/cubemap.js:219-239 | Every texel's four slots lie inside the `sampleSize * roughnessLevels * 4` buffer. |
| Cubemap.TexelSlotsDisjoint | src/util/cubemap.js:239 | Two different texels never write the same buffer position. |
| Cubemap.PixelAtTexel | src/util/cubemap.js:239-243 | The position of component c of texel (i, j) holds that component. |
| Cubemap.WriteTexel | src/util/cubemap.js:240-243 | The four positions of a texel get its three payload values and 1.0; no other position changes. |
| Cubemap.GenerateNormalDistribution | src/util/cubemap.js:203-249 | Width and height are the sizes or their defaults. The buffer has `height * width * 4` entries, and every position holds the component of its own texel. |

## Left out

- The `console.warn` diagnostics of `update`, and the `isUniformEnabled` check that only guards them, are not modelled.
- Node internals are not modelled. The node class (`Node.js`) is not part of this model. `Clear` and `Link` stand for its contract: drop all links, or set one link.
- An input object that is `null` is treated as an empty list of inputs.
- Input names are assumed distinct (`DistinctNames`), because they are the keys of a JavaScript object.
- An explicit reference whose `node` field is falsy is excluded by its type. The source would then take the reference object itself as the producer, which fails.
- A node's output pins are a list in `Object.keys` order. The reordering JavaScript applies to integer-like keys is taken as already done, so `FirstKey` is the first entry of that list.
- A requested pin that is falsy but non-empty (such as `0`) is not distinguished from a missing pin.
- `render`'s `renderQuad`, the shared mesh and the camera are not modelled. The draw is one `DrawQuad` log entry.
- The trigger machinery and event listeners are not modelled. `beforerender` and `afterrender` are log entries.
- `getExtension` is a boolean input to `Render` rather than a query of the device.
- The pass's material is reduced to its uniform table and its `transparent` flag. Compiling the shader in the constructor is not modelled.
- Attachment keys are naturals. Negative, fractional and non-numeric keys, which `for ... in` would visit in another order, are not modelled.
- `clearColor` is modelled as falsy, truthy non-array, or an array of four reals. Arrays of other lengths are not modelled.
- CompositorPass.Pass.Bind: the framebuffer is never null. The source would fail on `frameBuffer.attach` when the table is non-empty and no framebuffer is given, and `render` only calls `bind` with one.
- CompositorPass.Pass.Unbind: the framebuffer is never null, because the source calls `frameBuffer.unbind` unconditionally.
- Cubemap.ToUint32 carries no ensures. It is the identity on indices below 2^32, and larger ones are not meaningful sample sizes.
- The trigonometric payload of `generateNormalDistribution` (`Math.sqrt`, `Math.cos`, `Math.sin` over doubles) is an opaque function parameter. Floating point is not modelled, and the `Texture2D` object's filter settings are not modelled.
- `prefilterEnvironmentMap` and `integrateBrdf` in the same file, the shader library (`src/shader/buildin.js`) and the example pass in the tests are not part of this model.

## Findings

| source | as written | input that shows it | evidently intended | confidence | as-written member | corrected member |
|---|---|---|---|---|---|---|
| src/compositor/Graph.js:34 | `nodes.splice(nodes.indexOf(node), 1)` | a node that is not in a non-empty list: `indexOf` gives -1 and `splice(-1, 1)` removes the last node | removing an absent node leaves the list unchanged | high (not executed) | CompositorGraph.RemoveAbsentDropsLast | CompositorGraph.RemoveCheckedAbsentKeepsList |
