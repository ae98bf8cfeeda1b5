# Verified models of the client mods

These Dafny modules model the algorithms of the client modification crates (`mhf/crates/mods`)
that keep state over time or transform data whose meaning must survive, and prove what those
algorithms promise. Run `dafny verify dfyconfig.toml` in this directory.

**Weapon textures** (`WeaponTextures`, `WeaponTextureIndex`, `WeaponTextureRuns`,
`WeaponTextureAnswers`). Owners, handle
generations, pending and published textures and release claims. `Ownership` is the class with the
redundant count per handle; its `Valid()` ties each count to the number of owners that a full scan
finds, and every method's contract equates its effect with an abstract step. `WeaponTextureRuns`
then speaks about all finite runs of calls in any order: conservation of textures, what is left
when everything ends, and the safety of releases. `WeaponTextureAnswers` tells what each call answers
from the calls before it.

**Meshes** (`TriangleStrips`, `StripStream`, `MeshBatches`, `MeshCompiler`, `MeshBones`, `FmodBlocks`,
`FmodGeometry`, `FmodObjectCache`). From FMOD blocks to a word stream to index lists and
descriptors. The specification is the triangle oracle of the crate's tests: oriented,
non-degenerate triangles, each rotated to its smallest index. The compiler's loop is proved against
batches of strips, and the printer and parser against each other in both directions. The object
cache is proved equal to a full reparse in every nesting of scopes, while memory changes wherever no
open scope has parsed.

**Vertices** (`VertexPacking`, `VertexWords`, `WordBits`). Packing attributes and weights into the native layout;
shifts and disjunctions are modelled bit by bit, so that what happens when a correction goes below
zero is part of the model.

**Configuration** (`TomlTables`, `IniValues`, `IniMeaning`, `ConfigRules`, `ConfigMeaning`, `IniEdits`,
`EditFrames`, `ConfigStore`). TOML as a
recursive datatype, the file as a mutable field that other programs may replace at any time. The
class invariant of `Store` says that registrations are disjoint and valid, and that every registered
section of the cached document is sound, after any run of operations. The `Meaning` modules say what
texts, merged tables and checks mean without the functions that compute them, and `EditFrames` says
how far an edit reaches and when it is possible.

**Native storage** (`NativeBuffer`). Allocations with the history of every use begun on them, and
the memory bound of geometric growth. The allocator is a parameter; it may grant an address again
after its storage was freed.

**Workbench** (`MotionSelection`, `EditSession`, `Inspection`, `NodeKeys`, `FiniteChains`). The
newest-first choice among clashing motions, the bounded undo and redo history over a timeline, the
explicit work list against recursion, and keys of nodes in an ownership tree.

`Wrappers`, `Words` and `Sequences` hold shared definitions.

## What the proofs found

- Registering a handle twice with one owner yields the same ticket and one shared entry, so completing
  both creations loses the first pointer. Textures are conserved in exactly the runs that never
  complete a ticket while its previous completion stands published.
- `merge` is not associative in general: a plain value in the middle layer cuts a table below it off
  from a table above it. As a consequence a write may read back differently from its four layers in
  order, and an update of one section may change the effective values of another, because fixed values are merged into
  the stored document. The exact conditions are `TomlTables.Layered` and `TomlTables.Stacked`.
- The packed weight bytes of a vertex add up to 255 exactly when the influences beside the corrected
  one do not exceed 255; otherwise the negative share spills into the bytes before it.
- 2^30 bytes is the exact limit of the native buffer's memory bound: for requests up to any larger
  limit there are allocations that total twice the largest or more.
- A located node has the key it was located by exactly when the key's way passes no reference node
  and names the record of any EMD resource it enters.

## Model

| member | source | states |
|---|---|---|
| WeaponTextureIndex.Ownership.constructor | mhf/crates/mods/geometry/src/weapon_textures.rs:76-89 | no owner, no claim, every count zero; the index agrees with the (empty) scan |
| WeaponTextureIndex.Ownership.Reserve | mhf/crates/mods/geometry/src/weapon_textures.rs:97-107 | a reservation starts a generation no texture has yet, zeroes the handle's count and drops its claim; handle 0 and handles past the table change nothing |
| WeaponTextureIndex.Ownership.Begin | mhf/crates/mods/geometry/src/weapon_textures.rs:109-124 | a new owner replaces the resource's previous one, whose completed textures are handed back; the new owner is constructing and holds nothing |
| WeaponTextureIndex.Ownership.Finish | mhf/crates/mods/geometry/src/weapon_textures.rs:126-131 | construction ends; the owner disappears exactly if it is retired and holds nothing |
| WeaponTextureIndex.Ownership.Pending | mhf/crates/mods/geometry/src/weapon_textures.rs:133-157 | a ticket is issued exactly for a reservable handle and a known owner; a second registration of the same generation adds no entry and no count |
| WeaponTextureIndex.Ownership.Created | mhf/crates/mods/geometry/src/weapon_textures.rs:159-188 | published, handed back retired or discarded as the abstract completion says, with every count still equal to a scan; `WeaponTextureAnswers.CompletionIsAnswered` says which answer it is |
| WeaponTextureIndex.Ownership.Protects | mhf/crates/mods/geometry/src/weapon_textures.rs:190-206 | the shortcut on a zero count and the early exit answer with an owner exactly when a scan of all owners finds one that holds the handle's current generation pending or with that pointer |
| WeaponTextureIndex.Ownership.Take | mhf/crates/mods/geometry/src/weapon_textures.rs:208-212 | retires exactly the resource's owner and returns its completed textures |
| WeaponTextureIndex.Ownership.TakeAll | mhf/crates/mods/geometry/src/weapon_textures.rs:214-226 | retires every owner; the list names each surrendered texture once and nothing else, in whatever order owners are visited |
| WeaponTextureIndex.Ownership.RetireOwner | mhf/crates/mods/geometry/src/weapon_textures.rs:228-243 | completed textures leave the owner, pending ones stay, and each departure lowers exactly the count it contributed to |
| WeaponTextureIndex.Ownership.RemoveTextureReference | mhf/crates/mods/geometry/src/weapon_textures.rs:245-249 | the subtraction never underflows: the index is exact except for the one texture being removed |
| WeaponTextureIndex.Ownership.RemoveFinished | mhf/crates/mods/geometry/src/weapon_textures.rs:251-259 | an owner leaves only when retired, finished and empty, which moves no count |
| WeaponTextureIndex.Ownership.PrepareRelease | mhf/crates/mods/geometry/src/weapon_textures.rs:275-307 | protected, claimed or ignored exactly by the rules; a claim is recorded under a fresh identity |
| WeaponTextureIndex.Ownership.ClaimRelease | mhf/crates/mods/geometry/src/weapon_textures.rs:261-273 | a claim exactly where the release is granted |
| WeaponTextureIndex.Ownership.FinishRelease | mhf/crates/mods/geometry/src/weapon_textures.rs:309-313 | ends a claim only if it is the one outstanding |
| WeaponTextureIndex.HoldersReplace | mhf/crates/mods/geometry/src/weapon_textures.rs:133-188 | replacing one owner's record moves the number of holders of a handle by exactly that owner's own entry |
| WeaponTextures.ReserveKeepsInv | mhf/crates/mods/geometry/src/weapon_textures.rs:97-107 | the invariant (one entry per handle and generation and owner, claims of the current generation, resources naming live owners) survives a reservation |
| WeaponTextures.BeginKeepsInv | mhf/crates/mods/geometry/src/weapon_textures.rs:109-124 | the invariant survives the beginning of an owner |
| WeaponTextures.CreatedKeepsInv | mhf/crates/mods/geometry/src/weapon_textures.rs:163-188 | the invariant survives every completion, late or stale ones included |
| WeaponTextures.TakeAllKeepsInv | mhf/crates/mods/geometry/src/weapon_textures.rs:214-226 | the invariant survives a bulk cleanup |
| WeaponTextureRuns.Reachable | mhf/crates/mods/geometry/src/weapon_textures.rs:91-314 | every state of every run of calls, in any interleaving, satisfies the invariant |
| WeaponTextureRuns.Conservation | mhf/crates/mods/geometry/src/weapon_textures.rs:109-259 | in every run, for every owner and texture: how often a completion was accepted equals how often the owner holds the texture, plus how often it was handed back, plus what repeated completions lost; a completion is accepted if, before the call, the owner has an entry of its handle and generation, that generation is current and the pointer is a real one |
| WeaponTextureRuns.ConservedUnlessCompletedAgain | mhf/crates/mods/geometry/src/weapon_textures.rs:163-188 | a run conserves every texture (accepted equals held plus handed back, for every owner and texture) if and only if no call completes a ticket whose previous completion was answered as published and whose owner was not retired since |
| WeaponTextureRuns.LosesWhenPublished | mhf/crates/mods/geometry/src/weapon_textures.rs:163-188 | a completion overwrites or drops a completed pointer exactly when an earlier completion of its ticket was answered as published and neither a cleanup of the owner nor another completion came between |
| WeaponTextureRuns.ConservationWithSingleCompletions | mhf/crates/mods/geometry/src/weapon_textures.rs:109-259 | in runs whose completions have pairwise different tickets, an owner takes a texture on at most once, and it then is held or was handed back exactly once |
| WeaponTextureRuns.SharedTicketLosesATexture | mhf/crates/mods/geometry/src/weapon_textures.rs:133-183 | two registrations of one handle share a ticket: a concrete run in which each is completed once and the first pointer is lost |
| WeaponTextureRuns.BulkListMatchesHandedBack | mhf/crates/mods/geometry/src/weapon_textures.rs:214-226 | the merged list of a bulk cleanup names a texture once exactly if some owner surrendered it |
| WeaponTextureRuns.RunIsAccounted | mhf/crates/mods/geometry/src/weapon_textures.rs:109-259 | in every run, an owner that still constructs has not been finished, and every pending texture of a live owner has a ticket that is still open |
| WeaponTextureRuns.NothingIsLeftBehind | mhf/crates/mods/geometry/src/weapon_textures.rs:228-259 | once no resource is live, every construction is finished and every ticket completed, no owner remains and every count is zero |
| WeaponTextureRuns.GrantsOnlyUnowned | mhf/crates/mods/geometry/src/weapon_textures.rs:275-307 | a release is granted only if no owner holds the handle's current generation pending or with that pointer |
| WeaponTextureRuns.OneClaimAtATime | mhf/crates/mods/geometry/src/weapon_textures.rs:286-306 | between two grants for one handle the first was finished or the handle was reserved again |
| WeaponTextureRuns.SupersededFinishIsHarmless | mhf/crates/mods/geometry/src/weapon_textures.rs:309-313 | finishing a superseded claim never clears a newer one |
| WeaponTextureRuns.SnapshotClaimIsCurrent | mhf/crates/mods/geometry/src/weapon_textures.rs:291-295 | a claim for a texture handed back earlier implies that its handle was not reserved since |
| WeaponTextureRuns.PendingCreationIsProtected | mhf/crates/mods/geometry/src/weapon_textures.rs:159-206 | from registration until its completion or a new reservation, no release of the handle is granted, whatever else is called |
| WeaponTextureRuns.RegistrationStartsProtection | mhf/crates/mods/geometry/src/weapon_textures.rs:133-157 | registering with an owner that has no completed entry for the handle starts that protection |
| WeaponTextureAnswers.RetiredByCleaning | mhf/crates/mods/geometry/src/weapon_textures.rs:109-243 | in every run, a live owner is retired exactly if some call since it was begun has cleaned its resource |
| WeaponTextureAnswers.CompletionIsAnswered | mhf/crates/mods/geometry/src/weapon_textures.rs:163-188 | in every run, a completion is discarded exactly if its entry, its generation or its pointer does not stand; otherwise it is handed back as exactly that texture if the owner's resource was cleaned since, and published and held if not |
| WeaponTextureAnswers.OwnerIsLive | mhf/crates/mods/geometry/src/weapon_textures.rs:109-259 | an owner stays from its beginning on while its construction lasts or its resource has not been cleaned |
| WeaponTextureAnswers.TicketIsIssued | mhf/crates/mods/geometry/src/weapon_textures.rs:133-157 | such an owner gets a ticket of the current generation for exactly the handles 1 to 4095 |
| WeaponTextureAnswers.ReleasingIsOutstanding | mhf/crates/mods/geometry/src/weapon_textures.rs:286-313 | in every run, a handle is marked as being released exactly while a grant for it has been ended neither by its finish nor by a reservation |
| WeaponTextureAnswers.ReleaseIsGranted | mhf/crates/mods/geometry/src/weapon_textures.rs:261-307 | in every run, a release is granted if and only if handle and pointer are usable, no owner has the handle's current texture pending or at that pointer, no grant for the handle is outstanding, and an expected texture is the current one |
| TriangleStrips.SplitStrip | mhf/crates/mods/geometry/src/tests.rs:211-238 | the oracle's triangles of a strip are those of a prefix and of the rest, started at the parity of the prefix |
| TriangleStrips.Join | mhf/crates/mods/geometry/src/mesh.rs:280-287 | a prefix, a connector and a strip draw exactly the prefix's and the strip's triangles, the strip at the parity the connector leaves |
| TriangleStrips.ConnectorDrawsNothing | mhf/crates/mods/geometry/src/mesh.rs:280-287 | every window that touches a connector is degenerate |
| TriangleStrips.DoubleFirst | mhf/crates/mods/geometry/src/mesh.rs:277-279 | doubling the first index flips the winding and draws nothing more |
| TriangleStrips.StripTriangles | mhf/crates/mods/geometry/src/tests.rs:211-238 | a strip draws exactly the triangles of three different neighbouring indices, every second one swapped, each from its smallest corner on |
| StripStream.ReadEncodedStrip | mhf/crates/mods/geometry/src/mesh.rs:244-261 | one printed strip is read back at any cursor as winding, selected material and variant, and indices |
| StripStream.ReadEncoded | mhf/crates/mods/geometry/src/mesh.rs:244-297 | reading inverts printing for every list of strips and all flags |
| StripStream.EncodeRead | mhf/crates/mods/geometry/src/mesh.rs:244-297 | an accepted stream is the printed form of the strips read from it |
| StripStream.PrintedWords | mhf/crates/mods/geometry/src/fmod.rs:361-381 | the words of a printed strip under each flag word an object is drawn with: header, material and variant in this order, indices |
| StripStream.SelectorsOfFlags | mhf/crates/mods/geometry/src/mesh.rs:250-256 | which selectors each of those flag words lets through |
| MeshBatches.BatchesRegroup | mhf/crates/mods/geometry/src/mesh.rs:262-286 | batching reorders nothing, every batch has one selector pair, and neighbouring batches differ |
| MeshBatches.StitchDraws | mhf/crates/mods/geometry/src/mesh.rs:262-293 | each batch's index list, drawn as one strip, yields exactly the oriented non-degenerate triangles of its strips in order |
| MeshBatches.DrawAssembled | mhf/crates/mods/geometry/src/mesh.rs:244-300 | drawing by descriptors yields every strip's triangles tagged with its selectors, and the descriptor lengths partition the index list |
| MeshBatches.IndexListBound | mhf/crates/mods/geometry/src/mesh.rs:217-225 | the index list never exceeds the stream length plus (3 - stride) per strip |
| MeshBatches.DescriptorWords | mhf/crates/mods/geometry/src/mesh.rs:262-276 | the words of a batch's descriptor under each of those flag words |
| MeshCompiler.ReadOne | mhf/crates/mods/geometry/src/mesh.rs:245-261 | reads one strip and the next cursor, or the parser's error |
| MeshCompiler.OpenBatch | mhf/crates/mods/geometry/src/mesh.rs:262-279 | opens a batch: a zero length, the selectors the flags ask for, and a doubled first index for reversed winding |
| MeshCompiler.ExtendBatch | mhf/crates/mods/geometry/src/mesh.rs:280-288 | appends a strip with the connector its parity needs |
| MeshCompiler.IncludeVertices | mhf/crates/mods/geometry/src/mesh.rs:151-174 | refuses a vertex out of range, a position that is not finite and a bone outside the palette, in the order of the indices; otherwise adds every weight to its bone, as `MeshCompiler.RefusedVertex` and `MeshBones.WeightOfBone` tell |
| MeshCompiler.HeaviestBone | mhf/crates/mods/geometry/src/mesh.rs:176-191 | the first bone of maximal weight |
| MeshCompiler.CompileStep | mhf/crates/mods/geometry/src/mesh.rs:262-293 | the loop invariant over one strip: indices, descriptors, bounds, batch start, previous key and winding represent the batches so far |
| MeshCompiler.Compile | mhf/crates/mods/geometry/src/mesh.rs:197-302 | fails exactly where, and with the error with which, the declarative check fails; otherwise the mesh draws the strips' tagged triangles through vertices that all exist, are finite and, when skinned, weigh on bones below 32; it has one bounds record per batch naming its heaviest bone, descriptors that partition the index list, and lists that stay within the reserved and addressable sizes |
| MeshCompiler.RefusedVertex | mhf/crates/mods/geometry/src/mesh.rs:67-75 | each refusal for a vertex is due to an index of one of the stream's strips: one past the vertices, one at a position that is not finite, or under skinning one with a bone past the palette |
| MeshCompiler.AcceptedVertices | mhf/crates/mods/geometry/src/mesh.rs:151-174 | every index of an accepted mesh names an existing, finite vertex, and under skinning one whose bones are all below 32 |
| MeshCompiler.AcceptedSizes | mhf/crates/mods/geometry/src/mesh.rs:212-227 | of an accepted mesh the vertices are all there, and indices, descriptors and bounds each fit an addressable allocation |
| MeshBones.WeightOfBone | mhf/crates/mods/geometry/src/mesh.rs:160-172 | a bone's total over a vertex is the weight of the influences that name it |
| MeshBones.BonesShareBatch | mhf/crates/mods/geometry/src/mesh.rs:160-172 | the 32 totals of a skinned batch add up to all influence weights of the vertices it draws |
| MeshBones.RecordNamesMajority | mhf/crates/mods/geometry/src/mesh.rs:151-191 | a skinned batch's record names the bone that has more than half of the weight of every vertex it draws; without skinning every record names bone 0 |
| FmodBlocks.ReadBlock | mhf/crates/mods/geometry/src/fmod.rs:49-61 | a block is read exactly when its header and its announced size fit and the size covers the header; its fields are the header words, and each refusal has its own error |
| FmodBlocks.ChildrenAdjoin | mhf/crates/mods/geometry/src/fmod.rs:63-82 | the children are as many as announced, follow each other from the header on without gaps, and each is the block read at its place |
| FmodBlocks.VisitChildren | mhf/crates/mods/geometry/src/fmod.rs:63-82 | the loop visits every child until a visitor fails, and a malformed later header takes precedence over a visitor's error |
| FmodBlocks.MainBlock | mhf/crates/mods/geometry/src/fmod.rs:84-93 | the first child of kind 2, after every sibling's header has been checked |
| FmodBlocks.DirectoryOfMain | mhf/crates/mods/geometry/src/fmod.rs:84-93 | the directory is the child list of the root's first child of kind 2, and there is none exactly if the root, its children, that child or its own children cannot be read |
| FmodObjectCache.ReadDirectory | mhf/crates/mods/geometry/src/fmod.rs:109-132 | the cached directory is the parsed list of children of the main block |
| FmodObjectCache.ReadUncached | mhf/crates/mods/geometry/src/fmod.rs:180-192 | the counting visitor finds the same object, or the same error, as the directory |
| FmodObjectCache.ObjectScopes.Enter | mhf/crates/mods/geometry/src/fmod.rs:164-173 | a construction starts with an empty cache of its own and keeps the enclosing one |
| FmodObjectCache.ObjectScopes.Remap | mhf/crates/mods/geometry/src/fmod.rs:156-163 | sources may change at any time except where an open scope has parsed one, and every cache still agrees |
| FmodObjectCache.ObjectScopes.Leave | mhf/crates/mods/geometry/src/fmod.rs:164-173 | return or unwinding restores the enclosing cache and frees the places that only the finished scope had parsed |
| FmodObjectCache.ObjectScopes.Object | mhf/crates/mods/geometry/src/fmod.rs:134-149 | cached or not, in any nesting of scopes and any order of sources and indices, and with memory changing wherever no open scope has parsed, the answer is that of a full reparse: the directory's entry if its kind is 4, and otherwise the error of the directory, of an index past it or of a block that is no object |
| FmodObjectCache.AddressReusedInside | mhf/crates/mods/geometry/src/fmod.rs:156-173 | two constructions inside an open one may use one address for different sources: each lookup is that of the source there at the time, and the outer cache survives |
| FmodGeometry.AddStrip | mhf/crates/mods/geometry/src/fmod.rs:257-294 | one source strip with its material, or the error of the first check that fails; `FmodGeometry.GeometryIsSaid` tells which |
| FmodGeometry.AddGroup | mhf/crates/mods/geometry/src/fmod.rs:244-296 | all strips of one group appended in order |
| FmodGeometry.GeometryIsSaid | mhf/crates/mods/geometry/src/fmod.rs:237-304 | a geometry is read if and only if the words of the blocks say it: strips follow the groups in order and adjoin inside each from its header on; a strip's winding is the top bit of the word before its indices and its length the other bits, its material the word at 12 + 4i of the map or 0 without one and at most 16 bits wide, its variant 1 exactly in a 0x40000 group, and every index is below the vertex count |
| FmodGeometry.GeometryOf | mhf/crates/mods/geometry/src/fmod.rs:237-304 | succeeds if and only if the words of the blocks describe some geometry, and returns that one; it is drawable: strips inside the source, indices below the vertex count, 16-bit materials, at least one strip and one vertex |
| FmodGeometry.EncodedSize | mhf/crates/mods/geometry/src/fmod.rs:347-359 | the size is exactly four bytes for every word that printing writes, or an error |
| FmodGeometry.EncodeInto | mhf/crates/mods/geometry/src/fmod.rs:361-381 | fills exactly the announced destination with the printed form of the decoded strips |
| FmodGeometry.PrintedGeometryCompiles | mhf/crates/mods/geometry/src/fmod.rs:347-381 | printed geometry with matching vertices is refused only for size, a non-finite position or a bone out of range; otherwise the compiler recovers the same strips |
| FmodGeometry.DrawObject | mhf/crates/mods/geometry/src/fmod.rs:237-381 | end to end: parse, size, print and compile draw the triangles of the strips that the source's words describe, tagged with the selectors that the flags let through |
| VertexPacking.New | mhf/crates/mods/geometry/src/vertex.rs:50-91 | accepted exactly when the layout is supported, the native allocation stays addressable and every attribute covers all vertices; each part is then its attribute's leading bytes, with the format announced; each refusal says what was wrong |
| VertexPacking.LayoutMatchesFormat | mhf/crates/mods/geometry/src/vertex.rs:73-80 | packed vertices lie at the distance that the mesh compiler derives from the announced format, and fill the allocation except for the untextured layout's tail |
| VertexPacking.ForwardKeepsShares | mhf/crates/mods/geometry/src/vertex.rs:155-162 | the single forward pass keeps the ordered list of influences with a share, so the sum and each bone's total |
| VertexPacking.PackedWeightsAddUp | mhf/crates/mods/geometry/src/vertex.rs:142-170 | shares add up to 255 before packing; the four packed bytes add up to 255 if and only if the influences beside the corrected one do not exceed 255 |
| VertexPacking.FullWeightsDoNotAddUp | mhf/crates/mods/geometry/src/vertex.rs:142-170 | whatever the other bytes are, three weights that convert to 255 leave packed bytes that do not add up to 255 |
| VertexPacking.ThreeFullWeightsDoNotAddUp | mhf/crates/mods/geometry/src/vertex.rs:142-170 | a stored vertex of three bones with weight 100.0 each, and the shares it is read as |
| VertexPacking.ReadInfluences | mhf/crates/mods/geometry/src/vertex.rs:142-153 | the stored bones and amounts and the last influence with a share |
| VertexPacking.PackInfluences | mhf/crates/mods/geometry/src/vertex.rs:142-162 | read, corrected and moved forward as specified |
| VertexPacking.RefusedForGood | mhf/crates/mods/geometry/src/vertex.rs:134-142 | what is wrong with an early vertex decides, whatever follows |
| VertexPacking.EncodeInto | mhf/crates/mods/geometry/src/vertex.rs:97-173 | on success every vertex's words stand in their places and the tail is zero; an error is that of the first vertex whose weights do not fit |
| VertexPacking.EncodingIsDetermined | mhf/crates/mods/geometry/src/vertex.rs:97-112 | every word of the destination is written: two successful encodings agree whatever the memory held |
| VertexPacking.EncodedWeightsAddUp | mhf/crates/mods/geometry/src/vertex.rs:149-170 | in the written destination, a vertex's weight bytes add up to 255 exactly when no correction went below zero |
| VertexWords.EncodedAttributes | mhf/crates/mods/geometry/src/vertex.rs:105-133 | in the written destination, the position, normal, texture coordinate and attribute words of every vertex are those of its source arrays, in their places |
| VertexWords.EncodedColor | mhf/crates/mods/geometry/src/vertex.rs:117-122 | channels that convert to bytes are the colour word's bytes: alpha, red, green, blue, most significant first |
| VertexWords.CorrectedShares | mhf/crates/mods/geometry/src/vertex.rs:142-154 | bones and amounts are those stored; only the last nonzero amount is changed, to what makes the sum 255 |
| VertexWords.EncodedInfluences | mhf/crates/mods/geometry/src/vertex.rs:142-169 | the bone and weight words hold, byte by byte, one forward pass over the corrected influences, which keeps their order |
| VertexWords.ForwardCloses | mhf/crates/mods/geometry/src/vertex.rs:155-162 | the pass pulls a share into every place whose successor had one |
| VertexWords.ForwardKeepsFull | mhf/crates/mods/geometry/src/vertex.rs:155-162 | influences without gaps stay where they are |
| VertexWords.RefusedFor | mhf/crates/mods/geometry/src/vertex.rs:134-142 | a refusal is for the first vertex whose weights do not fit: its count is cut off, above four, or followed by too few bytes |
| WordBits.OrWordIsOr | mhf/crates/mods/geometry/src/vertex.rs:122 | joining words byte by byte is joining their bits |
| WordBits.PackedWord | mhf/crates/mods/geometry/src/vertex.rs:164-169 | the bytes of `a << 24 | b << 16 | c << 8 | d`, overflowing numbers included |
| NativeBuffer.Capacity | mhf/crates/mods/geometry/src/cache.rs:3-9 | an error exactly above the 31-bit limit; otherwise between the request and the limit |
| NativeBuffer.CapacityIsGeometric | mhf/crates/mods/geometry/src/cache.rs:3-9 | requests are rounded to a power of two up to 2^30 bytes, and taken as they are above |
| NativeBuffer.GeometricTotal | mhf/crates/mods/geometry/src/cache.rs:72-93 | growing powers of two total less than twice the largest |
| NativeBuffer.BoundHoldsUpTo | mhf/crates/mods/geometry/src/cache.rs:3-9 | for every limit: all growing lists of differently placed allocations given to requests up to it total less than twice their last if and only if the limit is at most 2^30 |
| NativeBuffer.Buffer.Prepare | mhf/crates/mods/geometry/src/cache.rs:72-93 | sufficient storage is reused, otherwise a strictly larger allocation is added and nothing is freed; failure changes nothing |
| NativeBuffer.Buffer.BeginUse | mhf/crates/mods/geometry/src/cache.rs:95-113 | a use is never one returned before, even for a reused address; an unconfirmed predecessor or an exhausted serial pins the allocation |
| NativeBuffer.Buffer.Complete | mhf/crates/mods/geometry/src/cache.rs:115-120 | confirms exactly the newest use of an allocation and no other use of any; a stale completion confirms nothing |
| NativeBuffer.Buffer.Reclaim | mhf/crates/mods/geometry/src/cache.rs:122-130 | frees an allocation if and only if every use ever begun on it was completed while it was the newest, there was one, and it is neither published nor the latest |
| NativeBuffer.Buffer.RetainedIsBounded | mhf/crates/mods/geometry/src/cache.rs:72-93 | the retained sizes always grow and were given to accepted requests; while none of these exceeds 2^30 bytes, everything retained is less than twice the newest allocation |
| NativeBuffer.FinishedStorageIsFreed | mhf/crates/mods/geometry/src/cache.rs:95-130 | storage that is neither the newest nor published, used once and completed, is gone after the next reclaim |
| MotionSelection.SortedInOrder | mhf/crates/mods/workbench/src/native.rs:682 | newest first, the same bindings |
| MotionSelection.SortedIsStable | mhf/crates/mods/workbench/src/native.rs:682 | bindings of one activation keep their order |
| MotionSelection.SettledIsUnique | mhf/crates/mods/workbench/src/native.rs:681-705 | there is only one choice of motions in which a motion runs exactly when it meets no newer running one |
| MotionSelection.RunningMotionsAreApart | mhf/crates/mods/workbench/src/native.rs:689-697 | of two clashing motions at least one is stopped |
| MotionSelection.SelectMotionBindings | mhf/crates/mods/workbench/src/native.rs:681-705 | the selection is exactly the bindings of motions not stopped, newest first; no two selected bindings of different motions share a node of one skeleton on one target, and every stopped motion has a binding that shares one with a newer selected binding; the stopped list names each stopped motion once, newest first |
| MotionSelection.SelectedAreApart | mhf/crates/mods/workbench/src/native.rs:689-697 | no two selected bindings of different motions share a node of one skeleton on one target |
| MotionSelection.StoppedMeetsSelected | mhf/crates/mods/workbench/src/native.rs:689-700 | every stopped motion has a binding that shares such a node with a newer selected one |
| MotionSelection.OrderDoesNotMatter | mhf/crates/mods/workbench/src/native.rs:681-705 | the input order decides neither which motions stop nor which bindings run |
| EditSession.Session.HistoryBytes | mhf/crates/mods/workbench/src/session.rs:83-91 | the bytes of all buffers of the history, shared ones once, saturating |
| EditSession.HistoryCountsOnce | mhf/crates/mods/workbench/src/session.rs:83-91 | the history's size is the length of a list of its sources and layers in which every address of theirs occurs once |
| EditSession.Session.TrimHistory | mhf/crates/mods/workbench/src/session.rs:93-105 | drops the farthest steps as `Trimmed` says, for every budget |
| EditSession.BudgetIsExact | mhf/crates/mods/workbench/src/session.rs:93-105 | the saturating count hides no excess over a budget below its ceiling |
| EditSession.TrimmedKeepsNearest | mhf/crates/mods/workbench/src/session.rs:93-105 | what is kept is the nearest part of each side, redo steps go last, one step on each side survives, and both budgets hold unless each side has at most one step |
| EditSession.TrimmedKeepsMost | mhf/crates/mods/workbench/src/session.rs:93-105 | no longer history of that shape fits |
| EditSession.Session.Apply | mhf/crates/mods/workbench/src/session.rs:40-49 | equal bytes change nothing; otherwise the document becomes the next step of the timeline and the redo side is empty |
| EditSession.Session.Undo | mhf/crates/mods/workbench/src/session.rs:51-58 | moves one step back on an unchanged timeline, the left document becoming the nearest redo |
| EditSession.Session.Redo | mhf/crates/mods/workbench/src/session.rs:60-67 | moves one step ahead on an unchanged timeline, the left document becoming the nearest undo |
| EditSession.Session.Saved | mhf/crates/mods/workbench/src/session.rs:69-81 | adopts the packed snapshot exactly if the requested revision is current and differs; dirty is measured against the snapshot from now on |
| EditSession.Session.UpdateDirty | mhf/crates/mods/workbench/src/session.rs:107-110 | with the pointer shortcut, dirty still means that current and saved bytes differ |
| EditSession.UndoThenRedo | mhf/crates/mods/workbench/src/session.rs:51-67 | an undo and a redo restore document, place and dirtiness despite trimming |
| EditSession.RedoThenUndo | mhf/crates/mods/workbench/src/session.rs:51-67 | a redo and an undo restore document, place and dirtiness despite trimming |
| Inspection.UnfoldsOnce | mhf/crates/mods/workbench/src/inspect.rs:608-646 | the recursive traversal of given tasks is unique |
| Inspection.UnfoldsBeside | mhf/crates/mods/workbench/src/inspect.rs:642-644 | forests side by side are the traversal of the concatenated tasks |
| Inspection.CompletionRunsLast | mhf/crates/mods/workbench/src/inspect.rs:1254-1284 | a completion pushed after the members runs when every task in the members' subtrees has run, on the document they leave |
| Inspection.WorkStep | mhf/crates/mods/workbench/src/inspect.rs:609-644 | popping, running and reversing the pushed suffix is one step of the recursion, and the remaining forest shrinks |
| Inspection.Builder.Run | mhf/crates/mods/workbench/src/inspect.rs:608-646 | the work list runs the recursive traversal's tasks in its order and with its effect, and ends whenever recursion does |
| Inspection.Payload | mhf/crates/mods/workbench/src/inspect.rs:333-346 | a payload is found if and only if a chain of transparent nodes, each with one child, the next, leads to it, of any length: the bound on hops cuts nothing off |
| Inspection.WrapsIff | mhf/crates/mods/workbench/src/inspect.rs:333-346 | following wrappers hop by hop is having such a chain |
| FiniteChains.EndingChainIsShort | mhf/crates/mods/workbench/src/inspect.rs:336-345 | a deterministic chain that ends among n nodes ends before n hops |
| NodeKeys.Parents | mhf/crates/mods/workbench/src/edit.rs:247-259 | each node's parent entry is its owner |
| NodeKeys.OwnerIsLast | mhf/crates/mods/workbench/src/edit.rs:247-259 | the owner is the last owning edge in document order, references excluded, and missing only where there is none |
| NodeKeys.NodeKeyOf | mhf/crates/mods/workbench/src/edit.rs:75-94 | the loop computes the path from the root and the identity in the nearest EMD resource, or nothing; `NodeKeys.HasKeyIff` says when, and `NodeKeys.KeyFollowsRecord` what the identity tells apart |
| NodeKeys.Locate | mhf/crates/mods/workbench/src/edit.rs:96-112 | the loop walks the path and checks the identity in the last EMD resource entered; `NodeKeys.KeyFollowsRecord` says for which nodes that succeeds |
| NodeKeys.KeyFindsNode | mhf/crates/mods/workbench/src/edit.rs:75-112 | in any document, a node is located again under its key |
| NodeKeys.KeysAreDistinct | mhf/crates/mods/workbench/src/edit.rs:75-112 | two nodes never share a key |
| NodeKeys.KeyFollowsRecord | mhf/crates/mods/workbench/src/edit.rs:43-112 | a key taken from one document locates a node of another if and only if its ordinals lead there and, where they pass an EMD resource in the first, both nodes have one kind, one name and one place relative to the last EMD resource passed, each in that resource's buffer |
| NodeKeys.MovedRecordKeepsKey | mhf/crates/mods/workbench/src/edit.rs:43-112 | a record that moves together with its EMD resource is located by the key it had before |
| NodeKeys.HasKeyIff | mhf/crates/mods/workbench/src/edit.rs:75-94 | in an ownership tree, a node has a key if and only if an owned way leads to it and it lies in the buffer of the last EMD resource on that way, not before it |
| NodeKeys.NodeHasKey | mhf/crates/mods/workbench/src/edit.rs:75-112 | in an ownership tree, the key of the located node is the original key if and only if its way goes through no reference and it names the record of any EMD resource it enters |
| NodeKeys.ReferenceKeyIsNotKept | mhf/crates/mods/workbench/src/edit.rs:75-112 | a tree in which a key through a stage reference locates a node that has another key |
| NodeKeys.StepLimitIsEnough | mhf/crates/mods/workbench/src/edit.rs:80-93 | the step limit never cuts off a climb that more steps would finish |
| TomlTables.MergeInto | mhf/crates/mods/config/src/service.rs:407-415 | merging key by key, in any order, computes the recursive merge |
| ConfigMeaning.MergedAt | mhf/crates/mods/config/src/service.rs:407-415 | a merged table path by path: the upper value wins, two tables merge, a plain upper value hides what is below it, and the lower value shows where the upper table is silent |
| TomlTables.MergeIdempotent | mhf/crates/mods/config/src/service.rs:407-415 | a patch applied twice is applied once |
| TomlTables.AbsorbedIffWithin | mhf/crates/mods/config/src/service.rs:407-415 | a lower table adds nothing to the one merged over it if and only if the upper one already has all its paths |
| TomlTables.MergeAssociative | mhf/crates/mods/config/src/service.rs:407-415 | merging three layers associates if and only if wherever a plain value of the middle layer separates a table below from a table above, the upper table has every path of the lower one |
| TomlTables.SameShapeIsLayered | mhf/crates/mods/config/src/service.rs:407-415 | layers that agree on which shared paths are tables associate |
| TomlTables.StackedIff | mhf/crates/mods/config/src/service.rs:289-319 | the exact condition under which four layers read back in order |
| TomlTables.SetThenGet | mhf/crates/mods/config/src/service.rs:493-510 | a value set along a path is read along it, and no value off the path changes |
| TomlTables.SetSucceedsIff | mhf/crates/mods/config/src/service.rs:502-510 | setting fails exactly where a plain value stands on the way |
| TomlTables.RemoveThenGet | mhf/crates/mods/config/src/service.rs:512-524 | a removed path reads as nothing, and nothing off the path changes |
| TomlTables.RemovePrunes | mhf/crates/mods/config/src/service.rs:512-524 | of the tables on the way exactly those go that hold nothing but the removed path; the others keep the rest |
| EditFrames.RemoveSucceedsIff | mhf/crates/mods/config/src/service.rs:512-524 | removing fails exactly where a plain value stands on the way |
| IniValues.IntegerRoundTrip | mhf/crates/mods/config/src/service.rs:573-580 | every 64-bit integer is parsed back from its decimal form |
| IniValues.ShownIsReadBack | mhf/crates/mods/config/src/service.rs:526-571 | for every kind, parsing inverts showing |
| IniValues.AcceptedIsShown | mhf/crates/mods/config/src/service.rs:526-571 | accepted text has a canonical form, accepted as the same value |
| IniMeaning.TrimIsCore | mhf/crates/mods/config/src/service.rs:546-574 | trimming finds the one text that white space surrounds |
| IniMeaning.IntegerMeans | mhf/crates/mods/config/src/service.rs:573-580 | a text is read as a number if and only if, between white space, it is an optional sign and decimal digits, or 0x or 0X, an optional sign and hexadecimal digits of either case, whose positional sum is that number |
| IniMeaning.AcceptedMeans | mhf/crates/mods/config/src/service.rs:544-571 | a text is accepted as a value if and only if it stands for it: 1 for true and 0 for false, a number of the range, the text itself, or the name with the number it denotes |
| IniMeaning.ShownMeans | mhf/crates/mods/config/src/service.rs:526-542 | a value is shown by exactly one text: 1 for true and 0 for false, the decimal form without leading zeros, or the text itself |
| IniMeaning.SameNameMeans | mhf/crates/mods/config/src/service.rs:439-444 | names are the same if and only if they differ at most in the case of ASCII letters |
| ConfigRules.AdmissibleIsSound | mhf/crates/mods/config/src/service.rs:264-280 | a saved document is sound: every registered section valid and no other key aliasing it |
| ConfigMeaning.TypesMatchIff | mhf/crates/mods/config/src/service.rs:345-362 | the nested check passes if and only if no path that both tables have holds values of two TOML types |
| ConfigMeaning.SoundTypes | mhf/crates/mods/config/src/service.rs:289-319 | in a sound document no path that a registered section reads has another type than its default |
| ConfigMeaning.EffectiveIff | mhf/crates/mods/config/src/service.rs:289-319 | a section has effective values if and only if it is absent or a table, no path has another type than its default, and every mapped value is of its field's kind |
| ConfigMeaning.AdmissibleIff | mhf/crates/mods/config/src/service.rs:264-280 | a changed document is saved if and only if for every registered section no other key answers to its names, it is absent or a table, no path of what it will read has another type than its default, and every mapped value is of its field's kind |
| ConfigMeaning.RefusedForTypes | mhf/crates/mods/config/src/service.rs:345-362 | an edit that fails on nothing but types leaves a path whose value has another type than its default |
| ConfigMeaning.DisjointIff | mhf/crates/mods/config/src/service.rs:43-53 | sections are apart if and only if no name, in any ASCII case, is answered by two of them |
| ConfigMeaning.ValidRegistrationIff | mhf/crates/mods/config/src/service.rs:364-397 | a registration is valid if and only if names and keys are nonempty without NUL, keys differ in more than case, paths differ, kinds have values and unique numbers, and the defaults under the fixed values keep types and kinds |
| ConfigRules.UneditedSectionKept | mhf/crates/mods/config/src/service.rs:264-280 | an update keeps a section it does not edit if and only if wherever the stored section hides a default table from a fixed table, the fixed table has every path of the default one |
| ConfigRules.UneditedSectionMayChange | mhf/crates/mods/config/src/service.rs:264-280 | a valid section whose effective values an unrelated update changes |
| ConfigRules.WriteReadsBack | mhf/crates/mods/config/src/service.rs:64-70 | a write reads back as defaults, stored, patch, fixed if and only if those layers are stacked |
| ConfigRules.WriteMayReadBackOtherwise | mhf/crates/mods/config/src/service.rs:64-70 | a valid registration and an admissible write that reads back differently |
| ConfigRules.WriteReadsBackWhenShapesAgree | mhf/crates/mods/config/src/service.rs:64-70 | it does whenever stored section and patch agree with the defaults on which paths are tables |
| ConfigStore.NormalizeStep | mhf/crates/mods/config/src/service.rs:267-273 | checking and normalizing one section gives the same verdict and result whatever was normalized before |
| ConfigStore.Store.Register | mhf/crates/mods/config/src/service.rs:32-58 | accepted exactly for a repeated equal registration, or a valid one whose aliases are free and whose section is sound; `ConfigMeaning` says what each of these asks |
| ConfigStore.Store.Read | mhf/crates/mods/config/src/service.rs:60-62 | a registered section always reads as its three layers, and no path it reads has another type than its default |
| ConfigStore.Store.NormalizeAll | mhf/crates/mods/config/src/service.rs:267-273 | the loop over registrations, in any order, accepts exactly admissible documents and yields the normalized one |
| ConfigStore.Store.Update | mhf/crates/mods/config/src/service.rs:264-280 | succeeds exactly for an admissible edit of the file as it is now that can be saved; cache and file then hold the normalized document; any failure changes neither; afterwards no path of a registered section has another type than its default |
| ConfigStore.Store.Write | mhf/crates/mods/config/src/service.rs:64-70 | as an update; the written section reads as defaults under stored, patch and fixed, and every other section is kept exactly if layered; afterwards no path of a registered section has another type than its default |
| ConfigStore.Store.Value | mhf/crates/mods/config/src/service.rs:72-86 | the lookup through exposure, effective section, field, reserved keys and string tables computes the shown value; for a mapped field the text shows its effective value (1 for true, 0 for false, the canonical decimal number) and stands for it, and is missing only where that is |
| ConfigStore.Store.SetValue | mhf/crates/mods/config/src/service.rs:142-175 | as an update with the field's path set; on success the stored section holds at the field's path, and reads back, a value that the text stands for, unless the fixed layer has something there; every section the name does not expose is kept exactly if layered |
| ConfigStore.SetTextIsStored | mhf/crates/mods/config/src/service.rs:142-175 | a text set through a field is stored as what it means |
| ConfigStore.Store.RemoveKey | mhf/crates/mods/config/src/service.rs:177-209 | as an update with the key or field removed, keeping every section the name does not expose exactly if layered |
| ConfigStore.Store.RemoveSection | mhf/crates/mods/config/src/service.rs:211-225 | as an update with the section removed, keeping every section the name does not expose exactly if layered |
| IniEdits.MatchingKey | mhf/crates/mods/config/src/service.rs:439-444 | the first key, in table order, equal up to ASCII case; nothing only if there is none |
| IniEdits.ExposureOf | mhf/crates/mods/config/src/service.rs:227-248 | the one registration that a name exposes; a hidden name is a registered section's own; a free name is an alias of none |
| IniEdits.TargetOf | mhf/crates/mods/config/src/service.rs:250-255 | where a name and a key lead; nowhere exactly for invalid and hidden names and for reserved keys that no field maps |
| IniEdits.FieldIsReached | mhf/crates/mods/config/src/service.rs:464-471 | every mapped field is reached by its key in any ASCII case, and is the only one at its path |
| IniEdits.EditsAreApart | mhf/crates/mods/config/src/service.rs:142-225 | an edit under a name leaves every registered section that the name does not expose untouched |
| EditFrames.SetTouchesOnePath | mhf/crates/mods/config/src/service.rs:142-175 | setting a value changes one path of the document, the field's or the matching key's, and no path that runs apart from it |
| EditFrames.RemoveTouchesOnePath | mhf/crates/mods/config/src/service.rs:177-209 | removing a key empties one path of the document and changes no path that runs apart from it |
| EditFrames.RemovedSectionIsGone | mhf/crates/mods/config/src/service.rs:211-225 | removing a section takes exactly its key out of the document |
| EditFrames.RemovedSectionReadsDefaults | mhf/crates/mods/config/src/service.rs:211-225 | a removed section reads its defaults under its fixed values |
| EditFrames.ExtraValueKeepsFields | mhf/crates/mods/config/src/service.rs:142-175 | a key that no field maps can be set without changing what any field reads |
| EditFrames.SetIsPossible | mhf/crates/mods/config/src/service.rs:142-175 | an edit is made if and only if the names are valid and lead to an editable section and to a field or a key that is not taken, the text stands for a value of the field, and no plain value stands on the way to its path |
| EditFrames.RemoveIsPossible | mhf/crates/mods/config/src/service.rs:177-209 | a key is removed if and only if the names lead somewhere, the section is editable and no plain value stands on the way |
| EditFrames.RemoveSectionIsPossible | mhf/crates/mods/config/src/service.rs:211-225 | a section is removed if and only if the name is valid and leads to one that is absent or editable |
| IniEdits.SetValueIsShown | mhf/crates/mods/config/src/service.rs:72-86 | after a successful edit of a field the fixed layer does not touch, any ASCII case of name and key shows the canonical form |
| IniEdits.FreeValueIsShown | mhf/crates/mods/config/src/service.rs:142-175 | after a successful edit under a free name, any ASCII case of name and key shows the text |
| IniEdits.ExtraValueIsShown | mhf/crates/mods/config/src/service.rs:142-175 | after a successful edit of an unreserved key of an exposed section, any ASCII case of name and key shows the text |
| IniEdits.FixedValueWins | mhf/crates/mods/config/src/service.rs:305-306 | a fixed value is read whatever was set |
| IniEdits.RemovedFieldReadsDefault | mhf/crates/mods/config/src/service.rs:177-209 | a removed field reads as its default again |

## Left out

- The 64-bit counters of the texture owners are unbounded; wrapping after 2^64 reservations is not modelled.
- Calls into native code, hooks, locks and threads: a run is any sequence of whole calls, as the mutex around the owners enforces.
- Handles are natural numbers; those beyond 32 bits behave like any other handle past the table.
- The handle of a finished release is within the table, since claims are made only by granting one.
- Centres and radii of the bounds are floats and left out; each record keeps its bone.
- Whether a position is finite, and a vertex's influences, are parameters of the mesh compiler's model rather than bytes.
- Failure to allocate, and the reuse of mesh storage between constructions, are left out.
- FmodGeometry.DrawObject: takes the blocks of an object as given and supposes fewer than 2^32 strips, as the count passed to the compiler is a 32-bit number; collecting the blocks by kind and choosing the flags in `read_source` is not modelled.
- FmodObjectCache.ObjectScopes.Object: supposes, as the unsafe contract does, that a source parsed in a scope stays unchanged until that scope ends, and that no source has address zero.
- VertexPacking.EncodeInto: the float conversions of colours and weights are parameters; what is proved holds for any of them.
- Text of TOML files: the file is the table it parses to, and a failed write leaves the file as it was.
- Error messages of the configuration store are reduced to refusal.
- Dates, floats and arrays in TOML are values that are kept and compared by kind but never looked into.
- Listing section names and key names in the INI view only projects what the model already describes.
- NativeBuffer.Buffer.Prepare: the allocator either grants an address apart from all live ones or fails; running out of memory for the list itself is the same failure.
- The completion guard that runs or skips a callback, writing a prefix into all allocations, and handing all storage to native code on exit are left out.
- MotionSelection.SelectMotionBindings: supposes one activation per motion and distinct activations, which the caller's counter gives until it wraps; the library's stable sort is modelled as an insertion sort.
- EditSession.Session.Saved: supposes that two live buffers at one address are one buffer, as shared pointers guarantee; the same holds of `Apply`.
- Inspection.Builder.Run: what a task does is a parameter, so format detection and the fields of nodes are left out; only the traversals that recursion would finish are claimed to end.
- Batch edits, repacking, matching of EMD identities by other callers, resource formats, user interface and package handling are left out.
