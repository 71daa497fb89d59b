/**
 The parameter-set store shared by the three scripts: the data model, the
 forward-only change check, the versioned store file, a file system holding
 store files by path, and the write-if-changed decision.
 */
module ParameterSets {

  /** One parameter set: parameter key to its (string-serialised) value. */
  type ParameterSet = map<string, string>

  /** A collection of named parameter sets: set name to parameter set. */
  type Collection = map<string, ParameterSet>

  /** The format version written into every store file. */
  const FormatVersion: string := "1"

  /** The directory that holds one store file per named set. */
  const VariantsDir: string := "variants"

  /** The contents of one store file: its version tag and its parameter sets. */
  datatype Store = Store(version: string, parameterSets: Collection)

  /** What loading a file that cannot be opened yields. */
  const EmptyStore: Store := Store(FormatVersion, map[])

  /** The per-set file `./variants/<name>.json`: the set name can be read back
      from between the directory prefix and the extension. */
  function VariantPath(name: string): (p: string)
    ensures |p| == |name| + 16
    ensures p[..11] == "./variants/" && p[|p| - 5..] == ".json"
    ensures p[11..|p| - 5] == name
  {
    "./" + VariantsDir + "/" + name + ".json"
  }

  /** Different set names have different per-set files. */
  lemma VariantPathInjective(a: string, b: string)
    requires VariantPath(a) == VariantPath(b)
    ensures a == b
  {
    var p := VariantPath(a);
    assert a == p[11..|p| - 5] == b;
  }

  // ---------------------------------------------------------------------------
  // Forward-only change check

  /** Key `k` of a new set is new to, or has a different value in, the old set. */
  predicate EntryDiffers(newSet: ParameterSet, oldSet: ParameterSet, k: string)
    requires k in newSet
  {
    k !in oldSet || newSet[k] != oldSet[k]
  }

  /** The new set called `name` is absent from the old collection, or one of its
      entries differs from the old set of that name. */
  predicate SetDiffers(newSet: ParameterSet, name: string, oldSets: Collection)
  {
    name !in oldSets || exists k :: k in newSet && EntryDiffers(newSet, oldSets[name], k)
  }

  /** The change check: some set of the new collection differs from the old one.
      Sets and keys that exist only in the old collection play no part. */
  predicate Changed(newSets: Collection, oldSets: Collection)
  {
    exists name :: name in newSets && SetDiffers(newSets[name], name, oldSets)
  }

  /** An independent statement of "nothing changed": every new set exists in the
      old collection and its (key, value) pairs are among the old set's pairs. */
  predicate ForwardCovered(newSets: Collection, oldSets: Collection)
  {
    forall name :: name in newSets ==> name in oldSets && newSets[name].Items <= oldSets[name].Items
  }

  /** The change check reports a change exactly when the new collection is not
      covered by the old one. */
  lemma ChangedIffNotCovered(newSets: Collection, oldSets: Collection)
    ensures Changed(newSets, oldSets) <==> !ForwardCovered(newSets, oldSets)
  {
    if Changed(newSets, oldSets) {
      var name :| name in newSets && SetDiffers(newSets[name], name, oldSets);
      if name in oldSets {
        var k :| k in newSets[name] && EntryDiffers(newSets[name], oldSets[name], k);
        assert (k, newSets[name][k]) in newSets[name].Items;
        assert (k, newSets[name][k]) !in oldSets[name].Items;
      }
    } else {
      forall name | name in newSets
        ensures name in oldSets && newSets[name].Items <= oldSets[name].Items
      {
        assert !SetDiffers(newSets[name], name, oldSets);
        forall p | p in newSets[name].Items ensures p in oldSets[name].Items {
          assert p.0 in newSets[name] && newSets[name][p.0] == p.1;
          assert !EntryDiffers(newSets[name], oldSets[name], p.0);
        }
      }
    }
  }

  /** A collection compared with itself has not changed. */
  lemma UnchangedAgainstItself(sets: Collection)
    ensures !Changed(sets, sets)
  {
  }

  /** An empty new collection has never changed. */
  lemma UnchangedWhenNewEmpty(oldSets: Collection)
    ensures !Changed(map[], oldSets)
  {
  }

  /** A new set name that the old collection lacks is a change. */
  lemma ChangedOnNewSetName(newSets: Collection, oldSets: Collection, name: string)
    requires name in newSets && name !in oldSets
    ensures Changed(newSets, oldSets)
  {
  }

  /** A key of a new set that is missing from the old set of the same name, or
      held there with another value, is a change. */
  lemma ChangedOnEntry(newSets: Collection, oldSets: Collection, name: string, k: string)
    requires name in newSets && name in oldSets && k in newSets[name]
    requires k !in oldSets[name] || newSets[name][k] != oldSets[name][k]
    ensures Changed(newSets, oldSets)
  {
  }

  /** The old collection `bigger` has every set and entry of `oldSets`, possibly more. */
  predicate Extends(bigger: Collection, oldSets: Collection)
  {
    forall name :: name in oldSets ==> name in bigger && oldSets[name].Items <= bigger[name].Items
  }

  /** Forward-only: sets or keys present only in the old collection never turn
      "unchanged" into "changed". */
  lemma ExtraOldEntriesIgnored(newSets: Collection, oldSets: Collection, bigger: Collection)
    requires Extends(bigger, oldSets)
    requires !Changed(newSets, oldSets)
    ensures !Changed(newSets, bigger)
  {
    ChangedIffNotCovered(newSets, oldSets);
    ChangedIffNotCovered(newSets, bigger);
  }

  /** The change check over a collection is the change check of each of its sets
      taken alone, as the per-set write compares single-entry collections. */
  lemma ChangedIffSomeSingleChanged(newSets: Collection, oldSets: Collection)
    ensures Changed(newSets, oldSets) <==>
            exists name :: name in newSets && Changed(map[name := newSets[name]], oldSets)
  {
    if Changed(newSets, oldSets) {
      var name :| name in newSets && SetDiffers(newSets[name], name, oldSets);
      assert name in map[name := newSets[name]];
    }
  }

  /** The change check of parameter_generator.py and parameter_variants.py: a
      loop over the new sets and their keys that returns at the first mismatch. */
  method HasChanged(newSets: Collection, oldSets: Collection) returns (changed: bool)
    ensures changed == Changed(newSets, oldSets)
  {
    var names := newSets.Keys;
    while names != {}
      invariant names <= newSets.Keys
      invariant forall n :: n in newSets && n !in names ==> !SetDiffers(newSets[n], n, oldSets)
      decreases names
    {
      var name :| name in names;
      if name in oldSets {
        var newSet, oldSet := newSets[name], oldSets[name];
        var keys := newSet.Keys;
        while keys != {}
          invariant keys <= newSet.Keys
          invariant forall k :: k in newSet && k !in keys ==> !EntryDiffers(newSet, oldSet, k)
          decreases keys
        {
          var k :| k in keys;
          if k in oldSet {
            if newSet[k] != oldSet[k] {
              assert EntryDiffers(newSet, oldSet, k);
              return true;  // mismatched value
            }
          } else {
            assert EntryDiffers(newSet, oldSet, k);
            return true;  // mismatched key
          }
          keys := keys - {k};
        }
      } else {
        assert SetDiffers(newSets[name], name, oldSets);
        return true;  // mismatched set name
      }
      names := names - {name};
    }
    return false;
  }

  // ---------------------------------------------------------------------------
  // Store files

  /** The status a per-set write reports. */
  datatype Outcome = NotFound | Updated | Unchanged

  /** The decision of write_single_parametric_json for set `name` of `sets`,
      given the sets of its per-set file as `baseline`. */
  function Decide(sets: Collection, name: string, baseline: Collection, forceWrite: bool): (o: Outcome)
    ensures o == NotFound <==> name !in sets
    ensures o == Updated <==> name in sets && (forceWrite || SetDiffers(sets[name], name, baseline))
  {
    if name !in sets then NotFound
    else
      var single := map[name := sets[name]];
      assert name in single && single[name] == sets[name];
      if forceWrite || Changed(single, baseline) then Updated else Unchanged
  }

  /** With no previous file, the first unforced write of an existing set updates. */
  lemma FirstWriteUpdates(sets: Collection, name: string)
    requires name in sets
    ensures Decide(sets, name, EmptyStore.parameterSets, false) == Updated
  {
  }

  /** Once the per-set file holds exactly that set, an unforced write reports no change. */
  lemma RewriteIsNoChange(sets: Collection, name: string)
    requires name in sets
    ensures Decide(sets, name, map[name := sets[name]], false) == Unchanged
  {
  }

  /** A forced write of an existing set always updates, whatever the baseline. */
  lemma ForcedWriteUpdates(sets: Collection, name: string, baseline: Collection)
    requires name in sets
    ensures Decide(sets, name, baseline, true) == Updated
  {
  }

  /** The files of the store, by path; the serialised JSON text is not modelled,
      so saving and loading a file are inverse on its contents. */
  class FileSystem {
    var files: map<string, Store>

    constructor (initial: map<string, Store>)
      ensures files == initial
    {
      files := initial;
    }

    /** get_current_parametric_json: the store at `path`, or an empty store with
        version "1" when no file is there (the IOError path). */
    function Load(path: string): (s: Store)
      reads this
      ensures path in files ==> s == files[path]
      ensures path !in files ==> s.version == FormatVersion && s.parameterSets == map[]
    {
      if path in files then files[path] else EmptyStore
    }

    /** write_parametric_json: overwrite `path` with `sets` under version "1". */
    method Save(sets: Collection, path: string)
      modifies this
      ensures files == old(files)[path := Store(FormatVersion, sets)]
      ensures Load(path) == Store(FormatVersion, sets)
      ensures forall q :: q != path ==> Load(q) == old(Load(q))
    {
      files := files[path := Store(FormatVersion, sets)];
    }
  }
}
