/**
 parameter_variants.py: the per-set write with an optional forced overwrite.
 */
module ParameterVariants {
  import opened ParameterSets

  /** write_single_parametric_json of parameter_variants.py: write set `name`
      to its per-set file when `forceWrite` is set or the set differs from what
      that file holds. */
  method WriteSingle(fs: FileSystem, sets: Collection, name: string, forceWrite: bool)
    returns (outcome: Outcome)
    modifies fs
    ensures outcome == Decide(sets, name, old(fs.Load(VariantPath(name))).parameterSets, forceWrite)
    ensures outcome == Updated ==>
              fs.files == old(fs.files)[VariantPath(name) := Store(FormatVersion, map[name := sets[name]])]
    ensures outcome != Updated ==> fs.files == old(fs.files)
  {
    if name in sets {
      var path := VariantPath(name);
      var single := map[name := sets[name]];
      var previous := fs.Load(path);
      var changed := true;
      if !forceWrite {
        changed := HasChanged(single, previous.parameterSets);
      }
      if changed {
        fs.Save(single, path);
        outcome := Updated;
      } else {
        outcome := Unchanged;
      }
    } else {
      outcome := NotFound;
    }
  }

  /** Performs a sequence of calls on an empty variants directory and asserts
      each outcome: the first write of a set updates and stores exactly that
      set, repeating it reports no change, a changed value updates again, a
      forced write updates, and an unknown name touches nothing. */
  method VariantScenario()
  {
    var fs := new FileSystem(map[]);
    var name := "variation_1";
    var path := VariantPath(name);
    var first: ParameterSet := map["$fn" := "40", "RODCOUNT" := "1"];
    var sets: Collection := map[name := first];

    var o1 := WriteSingle(fs, sets, name, false);
    assert o1 == Updated;
    assert fs.Load(path) == Store("1", map["variation_1" := map["$fn" := "40", "RODCOUNT" := "1"]]);

    var o2 := WriteSingle(fs, sets, name, false);
    RewriteIsNoChange(sets, name);
    assert o2 == Unchanged;

    var second: ParameterSet := map["$fn" := "40", "RODCOUNT" := "2"];
    var changedSets: Collection := map[name := second];
    assert EntryDiffers(second, first, "RODCOUNT");
    var o3 := WriteSingle(fs, changedSets, name, false);
    assert o3 == Updated;
    assert fs.Load(path).parameterSets[name]["RODCOUNT"] == "2";

    var o4 := WriteSingle(fs, changedSets, name, true);
    assert o4 == Updated;

    var before := fs.files;
    var o5 := WriteSingle(fs, changedSets, "variation_2", false);
    assert o5 == NotFound && fs.files == before;
  }
}
