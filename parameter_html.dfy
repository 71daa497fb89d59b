/**
 parameter_html.py: turning a variable name into a title, and splitting the
 parameters of a collection into the ones that are constant across all sets
 and the ones that vary, as the catalog page lists them.
 */
module ParameterHtml {

  // ---------------------------------------------------------------------------
  // variableNameToTitle

  /** The characters Python's `str.split()` without arguments splits on
      (those for which `str.isspace()` holds). */
  predicate IsSpace(c: char)
  {
    || c == ' ' || '\t' <= c <= '\r' || '\U{1c}' <= c <= '\U{1f}'
    || c == '\U{85}' || c == '\U{a0}' || c == '\U{1680}'
    || '\U{2000}' <= c <= '\U{200a}' || c == '\U{2028}' || c == '\U{2029}'
    || c == '\U{202f}' || c == '\U{205f}' || c == '\U{3000}'
  }

  /** The characters the title turns into spaces. */
  predicate IsSeparator(c: char)
  {
    c == '-' || c == '_'
  }

  predicate NoSpace(w: string)
  {
    forall i :: 0 <= i < |w| ==> !IsSpace(w[i])
  }

  predicate NoSeparator(w: string)
  {
    forall i :: 0 <= i < |w| ==> !IsSeparator(w[i])
  }

  predicate IsLowerAscii(c: char) { 'a' <= c <= 'z' }
  predicate IsUpperAscii(c: char) { 'A' <= c <= 'Z' }

  function ToUpper(c: char): (u: char)
    ensures !IsLowerAscii(u)
    ensures IsLowerAscii(c) ==> IsUpperAscii(u)
    ensures !IsLowerAscii(c) ==> u == c
  {
    if IsLowerAscii(c) then (c as int - 32) as char else c
  }

  function ToLower(c: char): (l: char)
    ensures !IsUpperAscii(l)
    ensures IsUpperAscii(c) ==> IsLowerAscii(l)
    ensures !IsUpperAscii(c) ==> l == c
  {
    if IsUpperAscii(c) then (c as int + 32) as char else c
  }

  /** `s.replace(a, b)` for one-character strings `a` and `b`. */
  function Replace(s: string, a: char, b: char): (r: string)
    ensures |r| == |s|
    ensures forall i :: 0 <= i < |s| ==> r[i] == (if s[i] == a then b else s[i])
  {
    if s == [] then [] else [if s[0] == a then b else s[0]] + Replace(s[1..], a, b)
  }

  /** `text.replace("-", " ").replace("_", " ")`. */
  function ReplaceSeparators(text: string): (r: string)
    ensures |r| == |text|
    ensures NoSeparator(r)
    ensures forall i :: 0 <= i < |text| && IsSeparator(text[i]) ==> r[i] == ' '
    ensures forall i :: 0 <= i < |text| && !IsSeparator(text[i]) ==> r[i] == text[i]
  {
    Replace(Replace(text, '-', ' '), '_', ' ')
  }

  /** `str.split()` of `s`, the word under construction being `cur`: runs of
      whitespace separate words, and no word is empty. */
  function SplitFrom(s: string, cur: string): (ws: seq<string>)
    ensures NoSpace(cur) ==> forall j :: 0 <= j < |ws| ==> ws[j] != [] && NoSpace(ws[j])
    ensures NoSeparator(s) && NoSeparator(cur) ==> forall j :: 0 <= j < |ws| ==> NoSeparator(ws[j])
  {
    if s == [] then (if cur == [] then [] else [cur])
    else if IsSpace(s[0]) then (if cur == [] then SplitFrom(s[1..], []) else [cur] + SplitFrom(s[1..], []))
    else SplitFrom(s[1..], cur + [s[0]])
  }

  /** `s.split()`. */
  function Words(s: string): seq<string>
  {
    SplitFrom(s, [])
  }

  /** The words glued together with nothing between them. */
  function Concat(ws: seq<string>): string
  {
    if ws == [] then "" else ws[0] + Concat(ws[1..])
  }

  /** `s` with every whitespace character taken out. */
  function RemoveSpaces(s: string): string
  {
    if s == [] then "" else (if IsSpace(s[0]) then "" else [s[0]]) + RemoveSpaces(s[1..])
  }

  /** The split loses and reorders nothing: its words, glued together, are the
      word under construction followed by the input without its whitespace. */
  lemma {:induction false} SplitKeepsCharacters(s: string, cur: string)
    ensures Concat(SplitFrom(s, cur)) == cur + RemoveSpaces(s)
  {
    if s == [] {
      if cur != [] {
        assert Concat([cur]) == cur + Concat([cur][1..]);
        assert [cur][1..] == [];
      }
    } else if IsSpace(s[0]) {
      SplitKeepsCharacters(s[1..], []);
      if cur != [] {
        var rest := SplitFrom(s[1..], []);
        assert ([cur] + rest)[1..] == rest;
      }
    } else {
      SplitKeepsCharacters(s[1..], cur + [s[0]]);
    }
  }

  /** Every character of the input that is not whitespace is in one of its words,
      in order. */
  lemma WordsKeepCharacters(s: string)
    ensures Concat(Words(s)) == RemoveSpaces(s)
  {
    SplitKeepsCharacters(s, []);
  }

  /** `' '.join(ws)`. */
  function Join(ws: seq<string>): string
  {
    if ws == [] then "" else if |ws| == 1 then ws[0] else ws[0] + " " + Join(ws[1..])
  }

  function LowerAll(s: string): (r: string)
    ensures |r| == |s|
    ensures forall i :: 0 <= i < |s| ==> r[i] == ToLower(s[i])
  {
    seq(|s|, i requires 0 <= i < |s| => ToLower(s[i]))
  }

  /** Python's `str.capitalize` on ASCII letters: the first character upper-cased,
      the rest lower-cased. */
  function Capitalize(w: string): string
  {
    seq(|w|, i requires 0 <= i < |w| => if i == 0 then ToUpper(w[0]) else ToLower(w[i]))
  }

  /** A word whose first character is not a lower-case letter and whose other
      characters are not upper-case letters. */
  predicate IsCapitalized(w: string)
  {
    (w != [] ==> !IsLowerAscii(w[0])) && forall i :: 1 <= i < |w| ==> !IsUpperAscii(w[i])
  }

  /** Capitalizing yields a capitalized word that equals the input up to case,
      keeps every non-letter in place, and leaves a capitalized word alone. */
  lemma CapitalizeSpec(w: string)
    ensures |Capitalize(w)| == |w|
    ensures IsCapitalized(Capitalize(w))
    ensures LowerAll(Capitalize(w)) == LowerAll(w)
    ensures NoSpace(w) ==> NoSpace(Capitalize(w))
    ensures NoSeparator(w) ==> NoSeparator(Capitalize(w))
    ensures Capitalize(w) == w <==> IsCapitalized(w)
  {
    var c := Capitalize(w);
    forall i | 0 <= i < |w| ensures LowerAll(c)[i] == LowerAll(w)[i] {
      assert ToLower(ToUpper(w[i])) == ToLower(w[i]);
    }
    if IsCapitalized(w) {
      forall i | 0 <= i < |w| ensures c[i] == w[i] {
      }
    }
  }

  /** Every word capitalized: the same number of words, each capitalized and
      equal to its original up to case. */
  function MapCapitalize(ws: seq<string>): (cs: seq<string>)
    ensures |cs| == |ws|
    ensures forall j :: 0 <= j < |ws| ==> IsCapitalized(cs[j]) && LowerAll(cs[j]) == LowerAll(ws[j])
  {
    var cs := seq(|ws|, j requires 0 <= j < |ws| => Capitalize(ws[j]));
    assert forall j :: 0 <= j < |ws| ==> cs[j] == Capitalize(ws[j]);
    forall j | 0 <= j < |ws| ensures IsCapitalized(cs[j]) && LowerAll(cs[j]) == LowerAll(ws[j]) {
      CapitalizeSpec(ws[j]);
    }
    cs
  }

  /** variableNameToTitle. */
  function Title(text: string): string
  {
    if |text| == 0 then text else Join(MapCapitalize(Words(ReplaceSeparators(text))))
  }

  /** Words that the split may hand back unchanged: non-empty, without whitespace. */
  predicate ProperWords(ws: seq<string>)
  {
    forall j :: 0 <= j < |ws| ==> ws[j] != [] && NoSpace(ws[j])
  }

  /** Whitespace in `s` is only single spaces strictly inside it. */
  predicate WellSpaced(s: string)
  {
    forall i :: 0 <= i < |s| && IsSpace(s[i]) ==>
      s[i] == ' ' && 0 < i < |s| - 1 && !IsSpace(s[i - 1]) && !IsSpace(s[i + 1])
  }

  /** Reading a word without whitespace moves it onto the word under construction. */
  lemma {:induction false} SplitAcrossWord(w: string, s: string, cur: string)
    requires NoSpace(w)
    ensures SplitFrom(w + s, cur) == SplitFrom(s, cur + w)
  {
    if w != [] {
      assert (w + s)[0] == w[0] && (w + s)[1..] == w[1..] + s;
      assert cur + w == (cur + [w[0]]) + w[1..];
      SplitAcrossWord(w[1..], s, cur + [w[0]]);
    } else {
      assert w + s == s && cur + w == cur;
    }
  }

  /** Every whitespace character ends the word under construction: the split of
      `s + [c] + t` is the split of `s` followed by the split of `t`. */
  lemma {:induction false} SplitAtSpace(s: string, c: char, t: string, cur: string)
    requires IsSpace(c)
    ensures SplitFrom(s + [c] + t, cur) == SplitFrom(s, cur) + SplitFrom(t, [])
  {
    var u := s + [c] + t;
    if s == [] {
      assert u[0] == c && u[1..] == t;
    } else {
      assert u[0] == s[0] && u[1..] == s[1..] + [c] + t;
      if IsSpace(s[0]) {
        SplitAtSpace(s[1..], c, t, []);
        if cur != [] {
          assert [cur] + (SplitFrom(s[1..], []) + SplitFrom(t, []))
              == ([cur] + SplitFrom(s[1..], [])) + SplitFrom(t, []);
        }
      } else {
        SplitAtSpace(s[1..], c, t, cur + [s[0]]);
      }
    }
  }

  /** The words of `s + [c] + t`, for a whitespace character `c`, are the words
      of `s` followed by the words of `t`. */
  lemma WordsAtSpace(s: string, c: char, t: string)
    requires IsSpace(c)
    ensures Words(s + [c] + t) == Words(s) + Words(t)
  {
    SplitAtSpace(s, c, t, []);
  }

  /** A non-empty run without whitespace is one word. With `WordsAtSpace` this
      fixes the words of every input. */
  lemma WordsOfRun(w: string)
    requires w != [] && NoSpace(w)
    ensures Words(w) == [w]
  {
    SplitAcrossWord(w, [], []);
    assert w + [] == w && [] + w == w;
  }

  /** Splitting a join of proper words gives the words back. */
  lemma {:induction false} SplitJoin(ws: seq<string>)
    requires ProperWords(ws)
    ensures Words(Join(ws)) == ws
  {
    if |ws| == 1 {
      WordsOfRun(ws[0]);
    } else if |ws| > 1 {
      var rest := Join(ws[1..]);
      assert Join(ws) == ws[0] + [' '] + rest;
      WordsAtSpace(ws[0], ' ', rest);
      WordsOfRun(ws[0]);
      SplitJoin(ws[1..]);
      assert ws == [ws[0]] + ws[1..];
    }
  }

  /** A join of proper words is well spaced, starts and ends with a word
      character, and has a separator only where a word has one. */
  lemma {:induction false} JoinShape(ws: seq<string>)
    requires ProperWords(ws) && ws != []
    ensures Join(ws) != [] && !IsSpace(Join(ws)[0]) && !IsSpace(Join(ws)[|Join(ws)| - 1])
    ensures WellSpaced(Join(ws))
    ensures (forall j :: 0 <= j < |ws| ==> NoSeparator(ws[j])) ==> NoSeparator(Join(ws))
  {
    if |ws| > 1 {
      var w, rest := ws[0], Join(ws[1..]);
      JoinShape(ws[1..]);
      var r := Join(ws);
      assert r == w + [' '] + rest;
      assert forall i :: |w| < i < |r| ==> r[i] == rest[i - |w| - 1];
      assert forall i :: 0 <= i < |w| ==> r[i] == w[i];
      forall i | 0 <= i < |r| && IsSpace(r[i])
        ensures r[i] == ' ' && 0 < i < |r| - 1 && !IsSpace(r[i - 1]) && !IsSpace(r[i + 1])
      {
        if i > |w| {
          assert rest[i - |w| - 1] == r[i];
        }
      }
    }
  }

  /** What variableNameToTitle promises: no '-' or '_', whitespace only as single
      spaces between words, every word capitalized, and the same words as the
      input (split at whitespace, '-' and '_') up to case. */
  lemma TitleShape(text: string)
    ensures var r := Title(text);
            && NoSeparator(r)
            && WellSpaced(r)
            && (forall j :: 0 <= j < |Words(r)| ==> IsCapitalized(Words(r)[j]))
            && |Words(r)| == |Words(ReplaceSeparators(text))|
            && forall j :: 0 <= j < |Words(r)| ==>
                 LowerAll(Words(r)[j]) == LowerAll(Words(ReplaceSeparators(text))[j])
  {
    if |text| > 0 {
      var ws := Words(ReplaceSeparators(text));
      var cs := MapCapitalize(ws);
      forall j | 0 <= j < |ws| ensures cs[j] != [] && NoSpace(cs[j]) && NoSeparator(cs[j]) {
        CapitalizeSpec(ws[j]);
      }
      SplitJoin(cs);
      if cs != [] { JoinShape(cs); }
      forall j | 0 <= j < |cs|
        ensures IsCapitalized(cs[j]) && LowerAll(cs[j]) == LowerAll(ws[j])
      {
        CapitalizeSpec(ws[j]);
      }
    }
  }

  /** variableNameToTitle("") is "". */
  lemma TitleOfEmpty()
    ensures Title("") == ""
  {
  }

  /** Making a title of a title changes nothing. */
  lemma TitleIdempotent(text: string)
    ensures Title(Title(text)) == Title(text)
  {
    if |text| > 0 {
      var ws := Words(ReplaceSeparators(text));
      var cs := MapCapitalize(ws);
      var t := Join(cs);
      if |t| > 0 {
        forall j | 0 <= j < |ws| ensures cs[j] != [] && NoSpace(cs[j]) && NoSeparator(cs[j]) {
          CapitalizeSpec(ws[j]);
        }
        JoinShape(cs);
        assert ReplaceSeparators(t) == t;
        SplitJoin(cs);
        forall j | 0 <= j < |cs| ensures Capitalize(cs[j]) == cs[j] {
          CapitalizeSpec(ws[j]);
          CapitalizeSpec(cs[j]);
        }
        assert MapCapitalize(cs) == cs;
      }
    }
  }

  // ---------------------------------------------------------------------------
  // Constant and variable parameters

  /** One parameter: its key and its value. */
  type Entry = (string, string)

  /** A parameter set in iteration order: its name and its entries in order. */
  type NamedSet = (string, seq<Entry>)

  /** The entries of all sets, set after set, in iteration order. */
  function AllEntries(sets: seq<NamedSet>): seq<Entry>
  {
    if sets == [] then [] else AllEntries(sets[..|sets| - 1]) + sets[|sets| - 1].1
  }

  function KeysOf(es: seq<Entry>): set<string>
  {
    set i | 0 <= i < |es| :: es[i].0
  }

  /** Entry `i` holds the first occurrence of its key. */
  predicate IsFirstOccurrence(es: seq<Entry>, i: int)
    requires 0 <= i < |es|
  {
    forall j :: 0 <= j < i ==> es[j].0 != es[i].0
  }

  /** Two entries hold different values for key `k`. */
  predicate Varies(es: seq<Entry>, k: string)
  {
    exists i, j :: 0 <= i < |es| && 0 <= j < |es| && es[i].0 == k && es[j].0 == k && es[i].1 != es[j].1
  }

  /** `first` maps every key of `es` to the value of its first occurrence. */
  predicate RecordsFirstValues(es: seq<Entry>, first: map<string, string>)
  {
    && first.Keys == KeysOf(es)
    && forall i :: 0 <= i < |es| && IsFirstOccurrence(es, i) ==> es[i].0 in first && first[es[i].0] == es[i].1
  }

  /** `variable` holds exactly the keys that vary in `es`. */
  ghost predicate RecordsVaryingKeys(es: seq<Entry>, variable: set<string>)
  {
    forall k :: k in variable <==> Varies(es, k)
  }

  /** The loop state `first`, `variable` with the ghost index of each first
      occurrence, after the entries `seen`. */
  ghost predicate ScanState(seen: seq<Entry>, first: map<string, string>, variable: set<string>,
                            firstIndex: map<string, nat>)
  {
    && first.Keys == KeysOf(seen)
    && firstIndex.Keys == first.Keys
    && (forall k :: k in firstIndex ==>
          firstIndex[k] < |seen| && seen[firstIndex[k]] == (k, first[k])
          && forall j :: 0 <= j < firstIndex[k] ==> seen[j].0 != k)
    && RecordsVaryingKeys(seen, variable)
  }

  /** How appending one entry changes whether key `k` varies. */
  lemma VariesAppend(seen: seq<Entry>, key: string, value: string, k: string)
    ensures k != key ==> (Varies(seen + [(key, value)], k) <==> Varies(seen, k))
    ensures k == key && k !in KeysOf(seen) ==> !Varies(seen + [(key, value)], k)
    ensures forall f :: 0 <= f < |seen| && seen[f].0 == k && k == key ==>
              (Varies(seen + [(key, value)], k) <==> Varies(seen, k) || seen[f].1 != value)
  {
    var next := seen + [(key, value)];
    assert forall i :: 0 <= i < |seen| ==> next[i] == seen[i];
    if k == key && k !in KeysOf(seen) {
      forall i | 0 <= i < |seen| ensures next[i].0 != k {
        assert seen[i].0 in KeysOf(seen);
      }
    }
    forall f | 0 <= f < |seen| && seen[f].0 == k && k == key
      ensures Varies(next, k) <==> Varies(seen, k) || seen[f].1 != value
    {
      if Varies(next, k) && !Varies(seen, k) {
        var i, j :| 0 <= i < |next| && 0 <= j < |next| && next[i].0 == k && next[j].0 == k && next[i].1 != next[j].1;
        assert i == |seen| || j == |seen|;
        if i == |seen| {
          assert next[j].1 == seen[f].1;
        } else {
          assert next[i].1 == seen[f].1;
        }
      }
      if seen[f].1 != value {
        assert next[f].0 == k && next[|seen|].0 == k;
      }
    }
  }

  /** The entries of a prefix of `sets`, extended by one whole set. */
  lemma AllEntriesSnoc(sets: seq<NamedSet>, s: nat)
    requires s < |sets|
    ensures AllEntries(sets[..s + 1]) == AllEntries(sets[..s]) + sets[s].1
  {
    assert sets[..s + 1][..s] == sets[..s];
  }

  /** One entry of the scan keeps the loop state: a new key records its value
      and index, a known key with another value becomes variable. */
  lemma ScanStep(seen: seq<Entry>, first: map<string, string>, variable: set<string>,
                 firstIndex: map<string, nat>, key: string, value: string)
    requires ScanState(seen, first, variable, firstIndex)
    ensures key !in first ==>
              ScanState(seen + [(key, value)], first[key := value], variable, firstIndex[key := |seen|])
    ensures key in first && first[key] != value ==>
              ScanState(seen + [(key, value)], first, variable + {key}, firstIndex)
    ensures key in first && first[key] == value ==>
              ScanState(seen + [(key, value)], first, variable, firstIndex)
  {
    var next := seen + [(key, value)];
    assert forall i :: 0 <= i < |seen| ==> next[i] == seen[i];
    assert KeysOf(next) == KeysOf(seen) + {key} by {
      assert next[|seen|].0 == key;
    }
    forall k ensures Varies(next, k) <==> Varies(seen, k) || (k == key && key in first && first[key] != value) {
      VariesAppend(seen, key, value, k);
      if k == key && key in first {
        assert seen[firstIndex[key]].0 == key;
      }
    }
  }

  /** The constant-detection loop of write_parametric_html: for each key, the
      value of its first occurrence, and the keys that take more than one value. */
  method DetectConstants(sets: seq<NamedSet>) returns (firstSetValues: map<string, string>, setValuesIsVariable: set<string>)
    ensures RecordsFirstValues(AllEntries(sets), firstSetValues)
    ensures RecordsVaryingKeys(AllEntries(sets), setValuesIsVariable)
    ensures setValuesIsVariable <= firstSetValues.Keys
  {
    firstSetValues, setValuesIsVariable := map[], {};
    ghost var seen: seq<Entry> := [];
    ghost var firstIndex: map<string, nat> := map[];
    var s := 0;
    while s < |sets|
      invariant 0 <= s <= |sets|
      invariant seen == AllEntries(sets[..s])
      invariant ScanState(seen, firstSetValues, setValuesIsVariable, firstIndex)
    {
      var entries := sets[s].1;
      var e := 0;
      while e < |entries|
        invariant 0 <= e <= |entries|
        invariant seen == AllEntries(sets[..s]) + entries[..e]
        invariant ScanState(seen, firstSetValues, setValuesIsVariable, firstIndex)
      {
        var (key, value) := entries[e];
        ghost var next := seen + [(key, value)];
        ScanStep(seen, firstSetValues, setValuesIsVariable, firstIndex, key, value);
        if key !in firstSetValues {
          firstSetValues := firstSetValues[key := value];
          firstIndex := firstIndex[key := |seen|];
        } else if firstSetValues[key] != value {
          setValuesIsVariable := setValuesIsVariable + {key};
        }
        seen := next;
        assert entries[..e + 1] == entries[..e] + [entries[e]];
        e := e + 1;
      }
      assert entries[..e] == entries;
      AllEntriesSnoc(sets, s);
      s := s + 1;
    }
    assert sets[..s] == sets;
    forall i | 0 <= i < |seen| && IsFirstOccurrence(seen, i)
      ensures seen[i].0 in firstSetValues && firstSetValues[seen[i].0] == seen[i].1
    {
      assert seen[i].0 in KeysOf(seen);
      var f := firstIndex[seen[i].0];
      assert !(f < i) && !(i < f);
    }
    forall k | k in setValuesIsVariable ensures k in firstSetValues {
      var i, j :| 0 <= i < |seen| && 0 <= j < |seen| && seen[i].0 == k && seen[j].0 == k && seen[i].1 != seen[j].1;
      assert seen[i].0 in KeysOf(seen);
    }
  }

  /** The "Common Parameters" list: recorded keys not marked as variable. */
  function CommonParameters(first: map<string, string>, variable: set<string>): (c: map<string, string>)
    ensures c.Keys == first.Keys - variable
    ensures forall k :: k in c ==> c[k] == first[k]
  {
    map k | k in first && k !in variable :: first[k]
  }

  /** The parameters listed beside one set: its entries whose key is variable,
      in order. */
  function VariableParameters(entries: seq<Entry>, variable: set<string>): (r: seq<Entry>)
    ensures forall j :: 0 <= j < |r| ==> r[j].0 in variable && r[j] in entries
    ensures forall j :: 0 <= j < |entries| && entries[j].0 in variable ==> entries[j] in r
  {
    if entries == [] then []
    else
      var rest := VariableParameters(entries[1..], variable);
      assert forall j :: 1 <= j < |entries| ==> entries[j] == entries[1..][j - 1];
      (if entries[0].0 in variable then [entries[0]] else []) + rest
  }

  /** The list keeps the order of the set: filtering a concatenation is
      concatenating the filtered parts. */
  lemma {:induction false} VariableParametersAppend(a: seq<Entry>, b: seq<Entry>, variable: set<string>)
    ensures VariableParameters(a + b, variable) == VariableParameters(a, variable) + VariableParameters(b, variable)
  {
    if a == [] {
      assert a + b == b;
    } else {
      assert (a + b)[0] == a[0] && (a + b)[1..] == a[1..] + b;
      VariableParametersAppend(a[1..], b, variable);
      var head := if a[0].0 in variable then [a[0]] else [];
      calc {
        VariableParameters(a + b, variable);
        head + VariableParameters(a[1..] + b, variable);
        head + (VariableParameters(a[1..], variable) + VariableParameters(b, variable));
        (head + VariableParameters(a[1..], variable)) + VariableParameters(b, variable);
      }
    }
  }

  /** A single entry is listed exactly when its key is variable. */
  lemma VariableParametersSingle(e: Entry, variable: set<string>)
    ensures VariableParameters([e], variable) == if e.0 in variable then [e] else []
  {
    assert [e][1..] == [];
  }

  /** Key `k` appears among the variable parameters of some set. */
  predicate ListedPerSet(sets: seq<NamedSet>, variable: set<string>, k: string)
  {
    exists s :: 0 <= s < |sets| && k in KeysOf(VariableParameters(sets[s].1, variable))
  }

  /** Every entry of the scan comes from one of the sets. */
  lemma {:induction false} EntryOfSomeSet(sets: seq<NamedSet>, i: nat)
    requires i < |AllEntries(sets)|
    ensures exists s :: 0 <= s < |sets| && AllEntries(sets)[i] in sets[s].1
  {
    var n := |sets|;
    var front := AllEntries(sets[..n - 1]);
    if i < |front| {
      EntryOfSomeSet(sets[..n - 1], i);
      var s :| 0 <= s < n - 1 && front[i] in sets[..n - 1][s].1;
      assert AllEntries(sets)[i] in sets[s].1;
    } else {
      assert AllEntries(sets)[i] == sets[n - 1].1[i - |front|];
    }
  }

  /** Every entry of every set is part of the scan. */
  lemma {:induction false} EntryInAll(sets: seq<NamedSet>, s: nat, j: nat)
    requires s < |sets| && j < |sets[s].1|
    ensures sets[s].1[j] in AllEntries(sets)
  {
    var n := |sets|;
    var front := AllEntries(sets[..n - 1]);
    if s < n - 1 {
      EntryInAll(sets[..n - 1], s, j);
      assert sets[..n - 1][s] == sets[s];
    } else {
      assert AllEntries(sets)[|front| + j] == sets[s].1[j];
    }
  }

  /** The key of every entry has a first occurrence. */
  lemma {:induction false} FirstOccurrenceExists(es: seq<Entry>, k: string)
    requires k in KeysOf(es)
    ensures exists i :: 0 <= i < |es| && es[i].0 == k && IsFirstOccurrence(es, i)
  {
    var front := es[..|es| - 1];
    if k in KeysOf(front) {
      FirstOccurrenceExists(front, k);
      var i :| 0 <= i < |front| && front[i].0 == k && IsFirstOccurrence(front, i);
      assert es[i] == front[i];
      assert IsFirstOccurrence(es, i);
    } else {
      forall j | 0 <= j < |es| - 1 ensures es[j].0 != k {
        assert es[j] == front[j];
        assert front[j].0 in KeysOf(front);
      }
      var i :| 0 <= i < |es| && es[i].0 == k;
      assert i == |es| - 1;
    }
  }

  /** Each key of any set is either a common parameter or listed beside the
      sets, never both. */
  lemma ConstantOrVariable(sets: seq<NamedSet>, first: map<string, string>, variable: set<string>, k: string)
    requires RecordsFirstValues(AllEntries(sets), first)
    requires RecordsVaryingKeys(AllEntries(sets), variable)
    requires k in KeysOf(AllEntries(sets))
    ensures k in CommonParameters(first, variable) <==> !ListedPerSet(sets, variable, k)
  {
    var es := AllEntries(sets);
    if k in variable {
      var i, j :| 0 <= i < |es| && 0 <= j < |es| && es[i].0 == k && es[j].0 == k && es[i].1 != es[j].1;
      EntryOfSomeSet(sets, i);
      var s :| 0 <= s < |sets| && es[i] in sets[s].1;
      var r := VariableParameters(sets[s].1, variable);
      var m :| 0 <= m < |r| && r[m] == es[i];
      assert r[m].0 in KeysOf(r);
    } else {
      forall s | 0 <= s < |sets| ensures k !in KeysOf(VariableParameters(sets[s].1, variable)) {
      }
    }
  }

  /** A common parameter has its listed value in every set that has it. */
  lemma CommonValueEverywhere(sets: seq<NamedSet>, first: map<string, string>, variable: set<string>,
                              k: string, s: nat, j: nat)
    requires RecordsFirstValues(AllEntries(sets), first)
    requires RecordsVaryingKeys(AllEntries(sets), variable)
    requires k in CommonParameters(first, variable)
    requires s < |sets| && j < |sets[s].1| && sets[s].1[j].0 == k
    ensures sets[s].1[j].1 == CommonParameters(first, variable)[k]
  {
    var es := AllEntries(sets);
    FirstOccurrenceExists(es, k);
    var f :| 0 <= f < |es| && es[f].0 == k && IsFirstOccurrence(es, f);
    EntryInAll(sets, s, j);
    var i :| 0 <= i < |es| && es[i] == sets[s].1[j];
    assert !Varies(es, k);
  }
}
