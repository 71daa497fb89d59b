/**
 parameter_generator.py: the unforced per-set write, stripping the ".scad"
 extension from a model name, and the reference sweep of parameter sets.
 */
module ParameterGenerator {
  import opened ParameterSets

  datatype Option<T> = None | Some(value: T)

  /** write_single_parametric_json of parameter_generator.py: write set `name`
      to its per-set file when it differs from what that file holds. */
  method WriteSingle(fs: FileSystem, sets: Collection, name: string) returns (outcome: Outcome)
    modifies fs
    ensures outcome == Decide(sets, name, old(fs.Load(VariantPath(name))).parameterSets, false)
    ensures outcome == Updated ==>
              fs.files == old(fs.files)[VariantPath(name) := Store(FormatVersion, map[name := sets[name]])]
    ensures outcome != Updated ==> fs.files == old(fs.files)
  {
    if name in sets {
      var path := VariantPath(name);
      var single := map[name := sets[name]];
      var previous := fs.Load(path);
      var changed := HasChanged(single, previous.parameterSets);
      if changed {
        fs.Save(single, path);
        outcome := Updated;
      } else {
        outcome := Unchanged;
      }
    } else {
      outcome := NotFound;
    }
  }

  // ---------------------------------------------------------------------------
  // remove_scad_filename_extension

  /** The index of the last '.' in `s`, if there is one. */
  function LastDot(s: string): (r: Option<nat>)
    ensures r.None? <==> '.' !in s
    ensures r.Some? ==> r.value < |s| && s[r.value] == '.' && '.' !in s[r.value + 1..]
  {
    if s == [] then None
    else if s[|s| - 1] == '.' then Some(|s| - 1)
    else
      var r := LastDot(s[..|s| - 1]);
      assert r.Some? ==> s[r.value + 1..] == s[..|s| - 1][r.value + 1..] + [s[|s| - 1]];
      r
  }

  /** The extension that is removed. */
  const ScadSuffix: string := ".scad"

  /** remove_scad_filename_extension: split at the last '.'; drop it and what
      follows when that is exactly "scad". A name without a '.' makes the
      source index past the end of the split (None). */
  function RemoveScadExtension(name: string): (r: Option<string>)
    ensures r.None? <==> '.' !in name
    ensures r.Some? && |name| >= 5 && name[|name| - 5..] == ScadSuffix ==> r.value == name[..|name| - 5]
    ensures r.Some? && !(|name| >= 5 && name[|name| - 5..] == ScadSuffix) ==> r.value == name
  {
    match LastDot(name)
    case None => None
    case Some(i) =>
      if name[i + 1..] == "scad" then Some(name[..i])
      else
        assert |name| >= 5 && name[|name| - 5..] == ScadSuffix ==> |name| - 5 == i by {
          if |name| >= 5 && name[|name| - 5..] == ScadSuffix {
            assert name[|name| - 5] == '.';
          }
        }
        Some(name)
  }

  /** Stripping the extension and putting it back gives the name again. */
  lemma RemoveScadExtensionRestores(name: string)
    requires '.' in name
    ensures var r := RemoveScadExtension(name).value;
            r == name || r + ScadSuffix == name
  {
  }

  // ---------------------------------------------------------------------------
  // The reference sweep

  /** One decimal digit. */
  function Digit(d: nat): (c: char)
    requires d < 10
    ensures '0' <= c <= '9' && c as int == 48 + d
  {
    (48 + d) as char
  }

  predicate AllDigits(s: string)
  {
    forall i :: 0 <= i < |s| ==> '0' <= s[i] <= '9'
  }

  /** The number a string of decimal digits denotes. */
  function DecimalValue(s: string): nat
    requires AllDigits(s)
  {
    if s == [] then 0 else DecimalValue(s[..|s| - 1]) * 10 + (s[|s| - 1] as int - 48)
  }

  /** Python's f"{n}" for a natural number: the digits that denote `n`, with no
      leading zero; a number below 10 is its single digit. */
  function DecimalString(n: nat): (s: string)
    ensures 1 <= |s| && AllDigits(s)
    ensures DecimalValue(s) == n
    ensures n >= 10 ==> s[0] != '0'
    ensures n < 10 ==> s == [Digit(n)]
    ensures (|s| == 1) == (n < 10)
  {
    if n < 10 then [Digit(n)]
    else
      var front := DecimalString(n / 10);
      var s := front + [Digit(n % 10)];
      assert s[..|s| - 1] == front;
      s
  }

  /** Different numbers have different decimal strings: each string gives its
      number back through `DecimalValue`. */
  lemma DecimalStringInjective(a: nat, b: nat)
    requires DecimalString(a) == DecimalString(b)
    ensures a == b
  {
    assert a == DecimalValue(DecimalString(a)) == DecimalValue(DecimalString(b)) == b;
  }

  /** The name of the i-th set of the sweep. */
  function VariationName(i: nat): string
  {
    "variation_" + DecimalString(i)
  }

  /** Different sweep indices name different sets. */
  lemma VariationNameInjective(i: nat, j: nat)
    requires VariationName(i) == VariationName(j)
    ensures i == j
  {
    assert DecimalString(i) == VariationName(i)[10..];
    assert DecimalString(j) == VariationName(j)[10..];
    DecimalStringInjective(i, j);
  }

  /** The lowest and one past the highest index of the sweep. */
  const SweepFirst: nat := 1
  const SweepEnd: nat := 10

  /** The sweep of parameter_generator.py: for i in 1..9 the set
      "variation_<i>" with the fixed facet count "$fn" = "40" and "RODCOUNT" = i. */
  method GenerateSweep() returns (sets: Collection)
    ensures sets.Keys == set i | SweepFirst <= i < SweepEnd :: VariationName(i)
    ensures forall i :: SweepFirst <= i < SweepEnd ==>
              sets[VariationName(i)] == map["$fn" := "40", "RODCOUNT" := DecimalString(i)]
  {
    sets := map[];
    var i := SweepFirst;
    while i < SweepEnd
      invariant SweepFirst <= i <= SweepEnd
      invariant sets.Keys == set j | SweepFirst <= j < i :: VariationName(j)
      invariant forall j :: SweepFirst <= j < i ==>
                  sets[VariationName(j)] == map["$fn" := "40", "RODCOUNT" := DecimalString(j)]
    {
      var rodCount := i;
      forall j | SweepFirst <= j < i ensures VariationName(j) != VariationName(i) {
        if VariationName(j) == VariationName(i) { VariationNameInjective(j, i); }
      }
      sets := sets[VariationName(i) := map["$fn" := "40", "RODCOUNT" := DecimalString(rodCount)]];
      i := i + 1;
    }
  }
}
