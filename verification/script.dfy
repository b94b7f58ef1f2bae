/**
 The macro's entry point: filter the selection, and only if Octane materials
 remain, rebuild them inside one undo bracket and notify the host.
 */
module Script {
  import opened Selection
  import opened Rebuild

  /** What one run leaves behind: the new materials inserted into the
      document, the material every texture tag points at, whether an undo
      bracket was opened and closed, how many undo steps it holds, and whether
      the host was notified of the change. */
  datatype Outcome = Outcome(
    made: seq<NativeMaterial>,
    tags: map<TagId, MatId>,
    undoBracket: bool,
    undoSteps: nat,
    notified: bool)

  /** Runs the conversion on the selected materials `selection`, with the
      texture tags of the scene in `tags` and the identities the host gives
      the new materials in `freshIds`. With no Octane material selected the
      run changes nothing. Otherwise the i-th selected Octane material, in
      selection order, is rebuilt as the i-th new material under its name,
      the undo bracket holds one step per repointed tag and per new material,
      and, when each assignment list is exactly the set of tags pointing at
      its material, no tag is left on a rebuilt Octane material. */
  method Run(selection: seq<Material>, tags: map<TagId, MatId>, freshIds: seq<MatId>)
    returns (o: Outcome)
    requires |freshIds| == |OctaneOnly(selection)|
    ensures OctaneOnly(selection) == [] ==> o == Outcome([], tags, false, 0, false)
    ensures OctaneOnly(selection) != [] ==> o.undoBracket && o.notified
    ensures |o.made| == |OctaneOnly(selection)|
    ensures forall i :: 0 <= i < |o.made| ==>
              o.made[i].name == OctaneOnly(selection)[i].name && o.made[i].id == freshIds[i]
    ensures forall i :: 0 <= i < |o.made| ==>
              o.made[i] == RebuildOne(OctaneOnly(selection)[i], freshIds[i])
    ensures forall t :: t in o.tags <==> t in tags || LastOwner(OctaneOnly(selection), t).Some?
    ensures forall t :: t in o.tags && LastOwner(OctaneOnly(selection), t).None? ==>
              o.tags[t] == tags[t]
    ensures o.undoSteps == |OctaneOnly(selection)| + AssignmentCount(OctaneOnly(selection))
    ensures ListsMatchTags(OctaneOnly(selection), tags)
              && FreshFromOctane(OctaneOnly(selection), freshIds) ==>
              forall i, t :: 0 <= i < |o.made| && t in o.tags ==>
                o.tags[t] != OctaneOnly(selection)[i].id
    ensures DisjointAssignments(OctaneOnly(selection)) ==>
              forall i, t :: 0 <= i < |o.made| && t in OctaneOnly(selection)[i].assignments ==>
                t in o.tags && o.tags[t] == o.made[i].id
  {
    var octs := CheckSelection(selection);
    if octs == [] {
      o := Outcome([], tags, false, 0, false);
    } else {
      var made, tags', undoSteps := RebuildMats(octs, tags, freshIds);
      o := Outcome(made, tags', true, undoSteps, true);
    }
  }
}
