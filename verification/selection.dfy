/**
 The materials the user has selected, and the filter that keeps the Octane
 ones (`CheckSelection`).
 */
module Selection {
  import opened Wrappers
  import opened Shaders

  /** Opaque identities of host objects. */
  type TagId = nat
  type MatId = nat

  /** Type id of an Octane material. */
  const OctaneMaterialType: int := 1029501

  /** A selected material: its identity, type id and name, and, for an Octane
      material, the five channel links the conversion reads and the list of
      texture tags the material is assigned through. */
  datatype Material = Material(
    id: MatId,
    typeId: int,
    name: string,
    diffuse: Option<Shader>,
    opacity: Option<Shader>,
    normal: Option<Shader>,
    bump: Option<Shader>,
    roughness: Option<Shader>,
    assignments: seq<TagId>)

  predicate IsOctane(m: Material) {
    m.typeId == OctaneMaterialType
  }

  /** The Octane materials of `mats`, in their order. */
  function OctaneOnly(mats: seq<Material>): seq<Material>
    decreases |mats|
  {
    if |mats| == 0 then []
    else
      var init := OctaneOnly(mats[..|mats| - 1]);
      if IsOctane(mats[|mats| - 1]) then init + [mats[|mats| - 1]] else init
  }

  /** Walks the selection once and keeps every material of Octane type. An
      empty selection gives an empty list. */
  method CheckSelection(mats: seq<Material>) returns (octs: seq<Material>)
    ensures octs == OctaneOnly(mats)
    ensures |octs| <= |mats|
  {
    octs := [];
    for i := 0 to |mats|
      invariant octs == OctaneOnly(mats[..i])
    {
      assert mats[..i + 1][..i] == mats[..i];
      if IsOctane(mats[i]) {
        octs := octs + [mats[i]];
      }
    }
    assert mats[..|mats|] == mats;
    OctaneOnlyLength(mats);
  }

  /** Order is kept: filtering a concatenation filters each part in place. */
  lemma {:induction false} OctaneOnlyAppend(a: seq<Material>, b: seq<Material>)
    ensures OctaneOnly(a + b) == OctaneOnly(a) + OctaneOnly(b)
    decreases |b|
  {
    if |b| == 0 {
      assert a + b == a;
    } else {
      var b' := b[..|b| - 1];
      assert (a + b)[..|a + b| - 1] == a + b';
      OctaneOnlyAppend(a, b');
    }
  }

  /** Every Octane material is kept as often as it occurs, and nothing else is. */
  lemma {:induction false} OctaneOnlyCount(mats: seq<Material>)
    ensures forall m :: multiset(OctaneOnly(mats))[m]
              == if IsOctane(m) then multiset(mats)[m] else 0
    ensures forall m :: m in OctaneOnly(mats) <==> m in mats && IsOctane(m)
    decreases |mats|
  {
    if |mats| > 0 {
      var init := mats[..|mats| - 1];
      OctaneOnlyCount(init);
      assert mats == init + [mats[|mats| - 1]];
      assert multiset(mats) == multiset(init) + multiset{mats[|mats| - 1]};
      forall m ensures m in OctaneOnly(mats) <==> m in mats && IsOctane(m) {
        assert m in OctaneOnly(mats) <==> multiset(OctaneOnly(mats))[m] > 0;
      }
    }
  }

  lemma {:induction false} OctaneOnlyLength(mats: seq<Material>)
    ensures |OctaneOnly(mats)| <= |mats|
    decreases |mats|
  {
    if |mats| > 0 {
      OctaneOnlyLength(mats[..|mats| - 1]);
    }
  }

  /** Filtering an already filtered list changes nothing. */
  lemma {:induction false} OctaneOnlyIdempotent(mats: seq<Material>)
    ensures OctaneOnly(OctaneOnly(mats)) == OctaneOnly(mats)
    decreases |mats|
  {
    if |mats| > 0 {
      var init := mats[..|mats| - 1];
      var last := mats[|mats| - 1];
      OctaneOnlyIdempotent(init);
      if IsOctane(last) {
        OctaneOnlyAppend(OctaneOnly(init), [last]);
        assert OctaneOnly([last]) == [last] by {
          assert [last][..0] == [];
        }
      }
    }
  }
}
