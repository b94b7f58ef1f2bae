# OctaneToC4d conversion rule, modelled in Dafny

The OctaneToC4d macro takes the materials selected in a Cinema 4D document,
keeps the Octane ones, and rebuilds each as a native Cinema 4D material. For
each of five channels (diffuse, opacity, normal, bump, roughness) it walks a
short, fixed chain of shader wrappers to find an image file, loads that file
into a bitmap shader in the matching native slot (colour, alpha, normal,
bump, or the roughness shader of the reflection layer), switches on the
alpha, normal or bump flag with its texture (colour gets no flag; a roughness
texture switches reflection on and sets the Beckmann distribution), and
finally repoints the texture tags that used the Octane material to the new
one.

This project replaces the host scene graph with plain datatypes and models
that rule:

- `wrappers.dfy` — `Option`, for empty links and "no file found".
- `shaders.dfy` (`Shaders`) — the shader graph under a channel link
  (`Shader`), the lookup `GetTexture` written as the script's four peeling
  stages over a cursor (the held shader and the type id last read), and an
  independent description of the same rule on the whole wrapper chain
  (`ChainOf`, `Ordered`, `Accepted`), with the proof that the two agree.
- `selection.dfy` (`Selection`) — selected materials and `CheckSelection`,
  the order-preserving filter by Octane type, against its reference
  definition `OctaneOnly`.
- `rebuild.dfy` (`Rebuild`) — the native material record, `RebuildOne`
  (one Octane material to one native material), `ReAssign` (tag repointing
  as an update of a tag-to-material map) and `RebuildMats` (the loop over all
  Octane materials, with the undo steps it records).
- `script.dfy` (`Script`) — `Run`, the entry point's "nothing selected, do
  nothing" guard around the rebuild.

Host objects are opaque ids: materials and texture tags are `nat`s, a tag's
material link is an entry of a `map<TagId, MatId>`, and the identities the
host gives new materials are passed in as `freshIds`. Fields of a new native
material that the script never writes are `None` in the record.

Details of the script's behaviour that the model keeps:

- The lookup stops with no result not only at an empty link but at any node
  type other than the four wrappers and the image texture.
- After a wrapper whose link is empty, the script keeps the wrapper's type id;
  no later stage matches it and the result is no file.
- Each found filename is tested for truth, so an image node with an empty
  filename leaves its slot unset, exactly like a missing texture (`Found`).
- Tags are repointed by walking each Octane material's own assignment list.
  In the model the lists are fixed when the selection is taken, so a tag
  listed by several rebuilt materials ends up on the last one's replacement
  (`LastOwner`); in a scene every tag links one material, so the lists do not
  overlap, and every listed tag ends up on its own material's replacement.
  When each list holds exactly the tags that point at its material and the
  new identities are fresh, no tag is left on a rebuilt Octane material
  (`NoTagLeftOnOctane`).

## Model

| member | source | states |
|---|---|---|
| Shaders.Peel | octane2C4D.py:40-58 | one stage follows the link of the held wrapper exactly when the last type id read is this stage's wrapper, and leaves the cursor alone otherwise; an empty cursor still records a wrapper already peeled |
| Shaders.Finish | octane2C4D.py:60-63 | a filename comes back exactly when the node left is an Image texture, and it is that node's file |
| Shaders.EmptyCursorFinds | octane2C4D.py:42-61 | once a wrapper's link is empty, no later stage moves and the lookup finds nothing |
| Shaders.PipelineByChain | octane2C4D.py:40-61 | from any stage on, the remaining stages accept exactly the chains whose wrappers all belong to those stages, in order, over an Image node |
| Shaders.GetTextureByChain | octane2C4D.py:34-63 | the lookup yields a file exactly when the chain under the link ends at an Image node reached through ordered wrappers, and then it is that node's file: it yields f exactly when the wrappers under the link are an ordered run of at most one Multiply, Mix, Colour-Correction and Invert, in that order, over Image(f); every other graph yields nothing |
| Shaders.GetTextureDepth | octane2C4D.py:40-61 | a successful lookup has passed at most four wrappers, no wrapper type twice, and ended at an Image node with the returned file |
| Shaders.GetTextureDirect | octane2C4D.py:35-61 | an empty channel link yields nothing; a bare Image node yields its filename |
| Shaders.GetTextureFullChain | octane2C4D.py:40-61 | Multiply over Mix over Colour-Correction over Invert over Image(f) yields f |
| Shaders.GetTextureRejects | octane2C4D.py:40-63 | Invert over Multiply over Image, Mix over Mix over Image, and a Multiply with an empty link all yield nothing |
| Selection.CheckSelection | octane2C4D.py:25-32 | the loop's result equals the reference filter `OctaneOnly` of the selection (whose meaning the next four lemmas state) and is never longer than the selection |
| Selection.OctaneOnlyAppend | octane2C4D.py:29-31 | the filter keeps input order: filtering a concatenation is the concatenation of the filtered parts |
| Selection.OctaneOnlyCount | octane2C4D.py:29-31 | each Octane material is kept as many times as it was selected, and no other material is kept |
| Selection.OctaneOnlyLength | octane2C4D.py:25-32 | the filter never lengthens the list |
| Selection.OctaneOnlyIdempotent | octane2C4D.py:25-32 | filtering twice is filtering once |
| Rebuild.SlotFor | octane2C4D.py:84-87 | a bitmap shader is made exactly when the lookup returned a non-empty filename, and it loads that filename |
| Rebuild.FlagFor | octane2C4D.py:91-96 | a channel flag is switched on exactly when its texture was found and is otherwise left untouched |
| Rebuild.RebuildOne | octane2C4D.py:79-121 | the new material carries the Octane name; colour, alpha, normal, bump and roughness hold a bitmap with the found file exactly when diffuse, opacity, normal, bump, roughness yield one; alpha, normal and bump switch their flag on with it, colour sets none; a roughness texture switches reflection on and sets distribution 2; unfound channels leave everything unset |
| Rebuild.RebuildOneByChain | octane2C4D.py:83-117 | each slot, stated directly on the channel's shader graph: it holds the file of an Image node under an ordered run of distinct wrappers when that file is non-empty, and is unset otherwise |
| Rebuild.ReAssign | octane2C4D.py:65-72 | after repointing, every tag in the assignment list points at the new material, every other tag keeps its material, and no tag is dropped |
| Rebuild.LastOwner | octane2C4D.py:77-123 | the last Octane material, in processing order, whose assignment list holds a tag, or none if no list holds it |
| Rebuild.RebuildMats | octane2C4D.py:74-129 | one new material per Octane material, in input order, each the rebuild of its source under the identity the host gave it; every listed tag ends on the replacement of the last material listing it (its own material's, when lists are disjoint); other tags are unchanged; one undo step per repointed tag and per new material; when the assignment lists match the tags and the new identities are fresh, no tag is left on an Octane material |
| Rebuild.RepointStep | octane2C4D.py:65-72 | repointing one more material's tags keeps every tag on the replacement of the last material so far that lists it, and every other tag as it was |
| Rebuild.NoTagLeftOnOctane | octane2C4D.py:65-72 | when each assignment list is exactly the set of tags pointing at its Octane material and the new identities differ from the Octane ones, no tag points at any rebuilt Octane material afterwards |
| Rebuild.OwnersRepointed | octane2C4D.py:65-72 | with disjoint assignment lists, every tag of every rebuilt material points at that material's replacement |
| Script.Run | octane2C4D.py:132-141 | with no Octane material selected nothing is rebuilt, no tag changes, no undo bracket is opened and the host is not notified; otherwise the i-th selected Octane material becomes the i-th new material under its name, equal to the rebuild of that Octane material, inside one undo bracket holding one step per repointed tag and per new material, with the host notified; unlisted tags keep their material, every tag of a rebuilt material is repointed when lists are disjoint, and none is left on a rebuilt Octane material when the lists match the tags |

## Left out

- Host document and API calls (getting the active document and its selected
  materials, creating shaders and materials, inserting shaders and materials,
  the change message to each tag, the closing event): replaced by the
  datatypes and the `made`, `tags` and `notified` results, since their
  behaviour lives in the host application.
- Undo handling is reduced to whether a bracket is opened and a count of the
  steps registered. The entry point opens and closes the bracket on the
  host-injected global document rather than on the document it fetched; both
  are the active document when the macro runs, so the model does not tell
  them apart.
- The numeric Octane type ids other than the material type, the reflection
  layer offset and the Cinema 4D channel constants: shader types are
  constructors and slots are record fields.
- The debug print of each found filename.
- Assignment lists are read once, when the selection is taken. The script
  reads each material's list as it reaches that material, after earlier
  materials' tags were already repointed; whether the host's list still
  names a tag that has moved to another material is host behaviour not
  shown in the script. With non-overlapping lists, as in a scene, the two
  readings agree.
- Objects in an assignment list that are no longer in the document (the
  script would fail on them): every listed entry is taken to be a texture tag.
- Filenames are plain strings; the host's filename type and path handling are
  not modelled.
