/**
 Rebuilding Octane materials as native materials: the per-material record
 (`RebuildOne`), the repointing of texture tags (`ReAssign`) and the loop over
 all selected Octane materials (`RebuildMats`).
 */
module Rebuild {
  import opened Wrappers
  import opened Shaders
  import opened Selection

  /** A bitmap shader created for a slot, holding the filename it loads. */
  datatype Bitmap = Bitmap(file: string)

  /** The part of a new native material the conversion writes. A slot holding
      `None` was never listed; a flag or value holding `None` was left at
      whatever the host gives a new material. */
  datatype NativeMaterial = NativeMaterial(
    id: MatId,
    name: string,
    color: Option<Bitmap>,
    alpha: Option<Bitmap>,
    useAlpha: Option<bool>,
    normal: Option<Bitmap>,
    useNormal: Option<bool>,
    bump: Option<Bitmap>,
    useBump: Option<bool>,
    useReflection: Option<bool>,
    distribution: Option<int>,
    roughness: Option<Bitmap>)

  /** Distribution written into the main reflection layer when a roughness
      texture is found (Beckmann). */
  const BeckmannDistribution: int := 2

  /** The script tests each filename for truth, so an empty filename counts as
      not found, just like no filename. */
  predicate Found(f: Option<string>) {
    f.Some? && f.value != ""
  }

  /** The bitmap put into a slot for a lookup result, if any. */
  function SlotFor(f: Option<string>): (b: Option<Bitmap>)
    ensures b.Some? <==> Found(f)
    ensures b.Some? ==> b.value.file == f.value
  {
    if Found(f) then Some(Bitmap(f.value)) else None
  }

  /** The flag a found texture switches on; otherwise the flag is untouched. */
  function FlagFor(f: Option<string>): (u: Option<bool>)
    ensures u.Some? <==> Found(f)
    ensures u.Some? ==> u.value
  {
    if Found(f) then Some(true) else None
  }

  /** The native material built for Octane material `m` under the new identity
      `id`: the name is copied, each of the colour, alpha, normal and bump slots
      gets a bitmap exactly when the diffuse, opacity, normal or bump channel
      yields a filename, alpha, normal and bump are switched on with their
      texture (colour is not), and a roughness texture switches reflection on,
      sets the Beckmann distribution and loads the roughness shader. */
  function RebuildOne(m: Material, id: MatId): (r: NativeMaterial)
    ensures r.id == id && r.name == m.name
    ensures r.color.Some? <==> Found(GetTexture(m.diffuse))
    ensures r.alpha.Some? <==> Found(GetTexture(m.opacity))
    ensures r.normal.Some? <==> Found(GetTexture(m.normal))
    ensures r.bump.Some? <==> Found(GetTexture(m.bump))
    ensures r.roughness.Some? <==> Found(GetTexture(m.roughness))
    ensures r.color.Some? ==> r.color.value.file == GetTexture(m.diffuse).value
    ensures r.alpha.Some? ==> r.alpha.value.file == GetTexture(m.opacity).value
    ensures r.normal.Some? ==> r.normal.value.file == GetTexture(m.normal).value
    ensures r.bump.Some? ==> r.bump.value.file == GetTexture(m.bump).value
    ensures r.roughness.Some? ==> r.roughness.value.file == GetTexture(m.roughness).value
    ensures r.useAlpha == (if r.alpha.Some? then Some(true) else None)
    ensures r.useNormal == (if r.normal.Some? then Some(true) else None)
    ensures r.useBump == (if r.bump.Some? then Some(true) else None)
    ensures r.useReflection == (if r.roughness.Some? then Some(true) else None)
    ensures r.distribution == (if r.roughness.Some? then Some(BeckmannDistribution) else None)
  {
    var diffuse := GetTexture(m.diffuse);
    var opacity := GetTexture(m.opacity);
    var normal := GetTexture(m.normal);
    var bump := GetTexture(m.bump);
    var roughness := GetTexture(m.roughness);
    NativeMaterial(
      id := id,
      name := m.name,
      color := SlotFor(diffuse),
      alpha := SlotFor(opacity),
      useAlpha := FlagFor(opacity),
      normal := SlotFor(normal),
      useNormal := FlagFor(normal),
      bump := SlotFor(bump),
      useBump := FlagFor(bump),
      useReflection := FlagFor(roughness),
      distribution := if Found(roughness) then Some(BeckmannDistribution) else None,
      roughness := SlotFor(roughness))
  }

  /** The file a channel provides under the wrapper-chain rule, if the script
      would use it. */
  function ChannelFile(link: Option<Shader>): Option<string> {
    Accepted(ChainOf(link), 0)
  }

  /** The slots of a rebuilt material, stated directly on the shader graphs of
      its channels: a slot holds the file of an Image node reached through an
      ordered run of distinct wrappers, provided the filename is not empty,
      and is unset otherwise. */
  lemma RebuildOneByChain(m: Material, id: MatId)
    ensures RebuildOne(m, id).color == SlotFor(ChannelFile(m.diffuse))
    ensures RebuildOne(m, id).alpha == SlotFor(ChannelFile(m.opacity))
    ensures RebuildOne(m, id).normal == SlotFor(ChannelFile(m.normal))
    ensures RebuildOne(m, id).bump == SlotFor(ChannelFile(m.bump))
    ensures RebuildOne(m, id).roughness == SlotFor(ChannelFile(m.roughness))
  {
    GetTextureByChain(m.diffuse);
    GetTextureByChain(m.opacity);
    GetTextureByChain(m.normal);
    GetTextureByChain(m.bump);
    GetTextureByChain(m.roughness);
  }

  /** Points every tag of `listed` at `target`, one after the other. Tags in
      the list end up on `target`; every other tag keeps its material. */
  function ReAssign(tags: map<TagId, MatId>, listed: seq<TagId>, target: MatId)
    : (r: map<TagId, MatId>)
    ensures forall t :: t in r <==> t in tags || t in listed
    ensures forall t :: t in listed ==> r[t] == target
    ensures forall t :: t in tags && t !in listed ==> r[t] == tags[t]
    decreases |listed|
  {
    if |listed| == 0 then tags
    else
      var rest := ReAssign(tags[listed[0] := target], listed[1..], target);
      assert forall t :: t in listed <==> t == listed[0] || t in listed[1..];
      rest
  }

  /** Index of the last material in `octs` whose assignment list holds `t`. */
  function LastOwner(octs: seq<Material>, t: TagId): (r: Option<nat>)
    ensures r.Some? ==> r.value < |octs| && t in octs[r.value].assignments
    ensures r.Some? ==> forall j :: r.value < j < |octs| ==> t !in octs[j].assignments
    ensures r.None? ==> forall j :: 0 <= j < |octs| ==> t !in octs[j].assignments
    decreases |octs|
  {
    if |octs| == 0 then None
    else if t in octs[|octs| - 1].assignments then Some(|octs| - 1)
    else LastOwner(octs[..|octs| - 1], t)
  }

  /** Number of tag assignments over all of `octs`. */
  function AssignmentCount(octs: seq<Material>): nat
    decreases |octs|
  {
    if |octs| == 0 then 0
    else AssignmentCount(octs[..|octs| - 1]) + |octs[|octs| - 1].assignments|
  }

  /** Tag `t` in `cur` is where repointing the tags of `done`, in order,
      leaves it, the material built for `done[j]` having identity
      `freshIds[j]`: on the last owner's replacement, or as in `tags`. */
  predicate TagFollows(tags: map<TagId, MatId>, done: seq<Material>, freshIds: seq<MatId>,
                       cur: map<TagId, MatId>, t: TagId)
  {
    match LastOwner(done, t)
    case Some(j) => t in cur && j < |freshIds| && cur[t] == freshIds[j]
    case None => (t in cur <==> t in tags) && (t in cur ==> cur[t] == tags[t])
  }

  ghost predicate TagsFollow(tags: map<TagId, MatId>, done: seq<Material>, freshIds: seq<MatId>,
                             cur: map<TagId, MatId>)
  {
    forall t :: TagFollows(tags, done, freshIds, cur, t)
  }

  /** Repointing the tags of one more material keeps `TagsFollow`. */
  lemma RepointStep(tags: map<TagId, MatId>, octs: seq<Material>, freshIds: seq<MatId>, i: nat,
                    cur: map<TagId, MatId>)
    requires i < |octs| && |freshIds| == |octs|
    requires TagsFollow(tags, octs[..i], freshIds, cur)
    ensures TagsFollow(tags, octs[..i + 1], freshIds, ReAssign(cur, octs[i].assignments, freshIds[i]))
  {
    var next := ReAssign(cur, octs[i].assignments, freshIds[i]);
    var done := octs[..i + 1];
    forall t
      ensures TagFollows(tags, done, freshIds, next, t)
    {
      LastOwnerExtend(octs, i, t);
      assert TagFollows(tags, octs[..i], freshIds, cur, t);
    }
  }

  /** Taking one more material into account changes a tag's last owner only
      if that material lists the tag. */
  lemma LastOwnerExtend(octs: seq<Material>, i: nat, t: TagId)
    requires i < |octs|
    ensures LastOwner(octs[..i + 1], t)
            == if t in octs[i].assignments then Some(i) else LastOwner(octs[..i], t)
  {
    assert octs[..i + 1][..i] == octs[..i];
  }

  /** Rebuilds every material of `octs` in order, the i-th under the identity
      `freshIds[i]` the host hands out, and repoints its texture tags to it.
      A tag listed by several materials ends up on the material built for the
      last of them; tags listed by none keep their material. One undo step is
      recorded per repointed tag and one per new material. */
  method RebuildMats(octs: seq<Material>, tags: map<TagId, MatId>, freshIds: seq<MatId>)
    returns (made: seq<NativeMaterial>, tags': map<TagId, MatId>, undoSteps: nat)
    requires |freshIds| == |octs|
    ensures |made| == |octs|
    ensures forall i :: 0 <= i < |octs| ==> made[i] == RebuildOne(octs[i], freshIds[i])
    ensures forall t :: t in tags' <==> t in tags || LastOwner(octs, t).Some?
    ensures forall t :: t in tags' && LastOwner(octs, t).Some? ==>
              tags'[t] == freshIds[LastOwner(octs, t).value]
    ensures forall t :: t in tags' && LastOwner(octs, t).None? ==> tags'[t] == tags[t]
    ensures undoSteps == |octs| + AssignmentCount(octs)
    ensures DisjointAssignments(octs) ==>
              forall i, t :: 0 <= i < |octs| && t in octs[i].assignments ==>
                t in tags' && tags'[t] == freshIds[i]
    ensures ListsMatchTags(octs, tags) && FreshFromOctane(octs, freshIds) ==>
              forall i, t :: 0 <= i < |octs| && t in tags' ==> tags'[t] != octs[i].id
  {
    made := [];
    tags' := tags;
    undoSteps := 0;
    for i := 0 to |octs|
      invariant |made| == i
      invariant forall j :: 0 <= j < i ==> made[j] == RebuildOne(octs[j], freshIds[j])
      invariant TagsFollow(tags, octs[..i], freshIds, tags')
      invariant undoSteps == i + AssignmentCount(octs[..i])
    {
      var oct := octs[i];
      var native := RebuildOne(oct, freshIds[i]);
      RepointStep(tags, octs, freshIds, i, tags');
      assert octs[..i + 1][..i] == octs[..i];
      tags' := ReAssign(tags', oct.assignments, freshIds[i]);
      undoSteps := undoSteps + |oct.assignments| + 1;
      made := made + [native];
    }
    assert octs[..|octs|] == octs;
    forall t
      ensures t in tags' <==> t in tags || LastOwner(octs, t).Some?
      ensures t in tags' && LastOwner(octs, t).Some? ==>
                tags'[t] == freshIds[LastOwner(octs, t).value]
      ensures t in tags' && LastOwner(octs, t).None? ==> tags'[t] == tags[t]
    {
      assert TagFollows(tags, octs[..|octs|], freshIds, tags', t);
    }
    if DisjointAssignments(octs) {
      OwnersRepointed(octs, freshIds, tags');
    }
    if ListsMatchTags(octs, tags) && FreshFromOctane(octs, freshIds) {
      NoTagLeftOnOctane(octs, tags, freshIds, tags');
    }
  }

  /** In a scene every texture tag refers to one material, so the assignment
      lists of distinct materials are disjoint. */
  predicate DisjointAssignments(octs: seq<Material>) {
    forall j, k, u :: 0 <= j < k < |octs| && u in octs[j].assignments ==> u !in octs[k].assignments
  }

  /** With disjoint lists, the last material listing a tag is the only one. */
  lemma LastOwnerIsOwner(octs: seq<Material>, i: nat, t: TagId)
    requires DisjointAssignments(octs)
    requires i < |octs| && t in octs[i].assignments
    ensures LastOwner(octs, t) == Some(i)
  {
  }

  /** With disjoint lists, a tag map that follows `LastOwner` sends every tag
      of every material to that material's replacement. */
  lemma OwnersRepointed(octs: seq<Material>, freshIds: seq<MatId>, tags': map<TagId, MatId>)
    requires |freshIds| == |octs| && DisjointAssignments(octs)
    requires forall t :: LastOwner(octs, t).Some? ==> t in tags'
    requires forall t :: t in tags' && LastOwner(octs, t).Some? ==>
               tags'[t] == freshIds[LastOwner(octs, t).value]
    ensures forall i, t :: 0 <= i < |octs| && t in octs[i].assignments ==>
              t in tags' && tags'[t] == freshIds[i]
  {
    forall i, t | 0 <= i < |octs| && t in octs[i].assignments
      ensures t in tags' && tags'[t] == freshIds[i]
    {
      LastOwnerIsOwner(octs, i, t);
    }
  }

  /** Each Octane material's assignment list holds exactly the tags that
      point at it, as the host keeps it. */
  ghost predicate ListsMatchTags(octs: seq<Material>, tags: map<TagId, MatId>) {
    forall i, t :: 0 <= i < |octs| ==>
      (t in octs[i].assignments <==> t in tags && tags[t] == octs[i].id)
  }

  /** The host gives the new materials identities no Octane material has. */
  predicate FreshFromOctane(octs: seq<Material>, freshIds: seq<MatId>) {
    forall i, j :: 0 <= i < |freshIds| && 0 <= j < |octs| ==> freshIds[i] != octs[j].id
  }

  /** When the assignment lists are exactly the tags pointing at each Octane
      material, a tag map that follows `LastOwner` leaves no tag on any of
      the rebuilt Octane materials. */
  lemma NoTagLeftOnOctane(octs: seq<Material>, tags: map<TagId, MatId>, freshIds: seq<MatId>,
                          tags': map<TagId, MatId>)
    requires |freshIds| == |octs|
    requires ListsMatchTags(octs, tags) && FreshFromOctane(octs, freshIds)
    requires forall t :: t in tags' <==> t in tags || LastOwner(octs, t).Some?
    requires forall t :: t in tags' && LastOwner(octs, t).Some? ==>
               tags'[t] == freshIds[LastOwner(octs, t).value]
    requires forall t :: t in tags' && LastOwner(octs, t).None? ==> tags'[t] == tags[t]
    ensures forall i, t :: 0 <= i < |octs| && t in tags' ==> tags'[t] != octs[i].id
  {
  }
}
