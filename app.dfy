/**
 * The application layer: loaded dictionaries by name, definition lookup
 * that merges direct hits with hits found through synonyms, lookup across
 * the enabled dictionaries, and the sorted search index of the index group.
 */
module App {
  import opened Wrappers
  import opened ByteCodec
  import opened Lexicographic
  import Grouping
  import IdxFile
  import SynFile
  import DictFile
  import Settings

  type Entry = DictFile.Entry

  datatype AppError =
    | UnknownDictionary(name: string)       // the source's KeyError
    | DecodeFailed(error: DictFile.DictError)

  /** A loaded bundle: its name and the readers of its files. */
  class Dictionary {
    const name: string
    const dictReader: DictFile.DictFileReader
    const synReader: SynFile.SynFileReader?
    const idxReader: IdxFile.IdxFileReader

    /** The definitions are read through this bundle's own index, and every reader is consistent. */
    ghost predicate Valid()
      reads idxReader, synReader
    {
      dictReader.dictIndex == idxReader && idxReader.Valid() && (synReader != null ==> synReader.Valid())
    }

    constructor (name: string, dictReader: DictFile.DictFileReader, synReader: SynFile.SynFileReader?,
                 idxReader: IdxFile.IdxFileReader)
      ensures this.name == name && this.dictReader == dictReader && this.synReader == synReader
      ensures this.idxReader == idxReader
    {
      this.name := name;
      this.dictReader := dictReader;
      this.synReader := synReader;
      this.idxReader := idxReader;
    }
  }

  /** The `.idx` positions `word` is a synonym of; none without a synonym file or a record. */
  function SynonymsOf(d: Dictionary, word: Bytes): (r: seq<nat>)
    requires d.Valid()
    reads d.idxReader, d.synReader
    ensures d.synReader == null ==> r == []
    ensures d.synReader != null ==> r == Grouping.Select(d.synReader.records, word)
  {
    if d.synReader == null then []
    else
      Grouping.GroupIsSelect(d.synReader.records, word);
      match d.synReader.GetSyn(word)
      case None => []
      case Some(ix) => ix
  }

  /** The definition at each of `indexes`, in order, or the first failure. */
  function SynonymDefinitions(dr: DictFile.DictFileReader, indexes: seq<nat>): (r: Result<seq<Entry>, DictFile.DictError>)
    reads dr.dictIfo, dr.dictIndex
    ensures r.Ok? ==> |r.value| == |indexes|
  {
    if indexes == [] then Ok([])
    else
      match SynonymDefinitions(dr, indexes[..|indexes| - 1])
      case Err(e) => Err(e)
      case Ok(ds) =>
        match dr.DefinitionByIndex(indexes[|indexes| - 1])
        case Err(e) => Err(e)
        case Ok(d) => Ok(ds + [d])
  }

  /** Resolving synonyms succeeds with one definition per index, each the one recorded there. */
  lemma {:induction false} SynonymDefinitionsEach(dr: DictFile.DictFileReader, indexes: seq<nat>)
    requires SynonymDefinitions(dr, indexes).Ok?
    ensures |SynonymDefinitions(dr, indexes).value| == |indexes|
    ensures forall k :: 0 <= k < |indexes| ==> dr.DefinitionByIndex(indexes[k]) == Ok(SynonymDefinitions(dr, indexes).value[k])
  {
    if indexes != [] {
      var p := indexes[..|indexes| - 1];
      SynonymDefinitionsEach(dr, p);
      assert forall k :: 0 <= k < |p| ==> indexes[k] == p[k];
    }
  }

  /** Every synonym index resolves to a definition. */
  ghost predicate AllResolve(dr: DictFile.DictFileReader, indexes: seq<nat>)
    reads dr.dictIfo, dr.dictIndex
  {
    forall k :: 0 <= k < |indexes| ==> dr.DefinitionByIndex(indexes[k]).Ok?
  }

  /** Some synonym index fails to resolve with `e`, and every index before it resolves. */
  ghost predicate FirstUnresolved(dr: DictFile.DictFileReader, indexes: seq<nat>, e: DictFile.DictError)
    reads dr.dictIfo, dr.dictIndex
  {
    exists k :: 0 <= k < |indexes| && dr.DefinitionByIndex(indexes[k]) == Err(e) &&
      forall i :: 0 <= i < k ==> dr.DefinitionByIndex(indexes[i]).Ok?
  }

  /** Resolving synonyms succeeds exactly when every index resolves, and otherwise fails with the first failure. */
  lemma {:induction false} SynonymDefinitionsOk(dr: DictFile.DictFileReader, indexes: seq<nat>)
    ensures SynonymDefinitions(dr, indexes).Ok? <==> AllResolve(dr, indexes)
    ensures SynonymDefinitions(dr, indexes).Err? ==> FirstUnresolved(dr, indexes, SynonymDefinitions(dr, indexes).error)
  {
    if indexes != [] {
      var p := indexes[..|indexes| - 1];
      var n := |indexes| - 1;
      SynonymDefinitionsOk(dr, p);
      assert forall i :: 0 <= i < |p| ==> indexes[i] == p[i];
      if SynonymDefinitions(dr, p).Err? {
        var e := SynonymDefinitions(dr, p).error;
        var k :| 0 <= k < |p| && dr.DefinitionByIndex(p[k]) == Err(e) &&
          forall i :: 0 <= i < k ==> dr.DefinitionByIndex(p[i]).Ok?;
        assert dr.DefinitionByIndex(indexes[k]) == Err(e);
      } else if dr.DefinitionByIndex(indexes[n]).Err? {
        assert forall i :: 0 <= i < n ==> dr.DefinitionByIndex(indexes[i]).Ok?;
      }
    }
  }

  /** Resolving synonyms fails from the first failing prefix on. */
  lemma {:induction false} SynonymDefinitionsPrefixErr(dr: DictFile.DictFileReader, indexes: seq<nat>, j: nat, e: DictFile.DictError)
    requires j < |indexes| && SynonymDefinitions(dr, indexes[..j + 1]) == Err(e)
    ensures SynonymDefinitions(dr, indexes) == Err(e)
    decreases |indexes|
  {
    if j + 1 < |indexes| {
      var p := indexes[..|indexes| - 1];
      assert p[..j + 1] == indexes[..j + 1];
      SynonymDefinitionsPrefixErr(dr, p, j, e);
    } else {
      assert indexes[..j + 1] == indexes;
    }
  }

  /**
   * The merge at the end of `get_definitions`: the direct definitions (none
   * when the word has no record) followed by those reached through synonyms;
   * nothing at all when there are neither.
   */
  function Merged(direct: Option<seq<Entry>>, viaSynonyms: seq<Entry>): (r: Option<seq<Entry>>)
    ensures r.None? <==> direct.None? && viaSynonyms == []
  {
    if direct.None? && viaSynonyms == [] then None
    else Some((if direct.Some? then direct.value else []) + viaSynonyms)
  }

  /**
   * `get_definitions`: the direct definitions of `word`, then one definition
   * per synonym record of `word`, in synonym order; `None` when there are
   * neither; the first decoding failure otherwise.
   */
  function DefinitionsOf(word: Bytes, d: Dictionary): Result<Option<seq<Entry>>, DictFile.DictError>
    requires d.Valid()
    reads d.idxReader, d.synReader, d.dictReader.dictIfo, d.dictReader.dictIndex
  {
    var synonyms := SynonymsOf(d, word);
    match d.dictReader.DefinitionsByWord(word)
    case Err(e) => Err(e)
    case Ok(direct) =>
      match SynonymDefinitions(d.dictReader, synonyms)
      case Err(e) => Err(e)
      case Ok(viaSynonyms) =>
        if direct.None? && synonyms == [] then Ok(None)
        else Ok(Some((if direct.Some? then direct.value else []) + viaSynonyms))
  }

  /**
   * A successful lookup lists the direct definitions first, then exactly one
   * definition per synonym record, each the one recorded at that position.
   */
  lemma DefinitionsOrder(word: Bytes, d: Dictionary)
    requires d.Valid() && DefinitionsOf(word, d).Ok? && DefinitionsOf(word, d).value.Some?
    ensures var ds := DefinitionsOf(word, d).value.value;
      var direct := d.dictReader.DefinitionsByWord(word).value;
      var synonyms := SynonymsOf(d, word);
      var n := if direct.Some? then |direct.value| else 0;
      |ds| == n + |synonyms| &&
      (direct.Some? ==> ds[..n] == direct.value) &&
      ResolvesTo(d.dictReader, synonyms, ds[n..])
  {
    var synonyms := SynonymsOf(d, word);
    DefinitionsMerged(word, d);
    SynonymDefinitionsEach(d.dictReader, synonyms);
    var via := SynonymDefinitions(d.dictReader, synonyms).value;
    MergedParts(d.dictReader.DefinitionsByWord(word).value, via);
    assert ResolvesTo(d.dictReader, synonyms, via);
  }

  /** The definitions `defs` are those recorded at `indexes`, one per index, in order. */
  ghost predicate ResolvesTo(dr: DictFile.DictFileReader, indexes: seq<nat>, defs: seq<Entry>)
    reads dr.dictIfo, dr.dictIndex
  {
    |defs| == |indexes| && forall k :: 0 <= k < |indexes| ==> dr.DefinitionByIndex(indexes[k]) == Ok(defs[k])
  }

  /** The merge puts the direct definitions first and the synonym definitions after them, in order. */
  lemma MergedParts(direct: Option<seq<Entry>>, via: seq<Entry>)
    requires Merged(direct, via).Some?
    ensures var ds := Merged(direct, via).value;
      var n := if direct.Some? then |direct.value| else 0;
      |ds| == n + |via| && (direct.Some? ==> ds[..n] == direct.value) && ds[n..] == via
  {
  }

  /** A successful lookup is the merge of the direct definitions with those reached through synonyms. */
  lemma DefinitionsMerged(word: Bytes, d: Dictionary)
    requires d.Valid() && DefinitionsOf(word, d).Ok?
    ensures d.dictReader.DefinitionsByWord(word).Ok?
    ensures SynonymDefinitions(d.dictReader, SynonymsOf(d, word)).Ok?
    ensures DefinitionsOf(word, d).value ==
      Merged(d.dictReader.DefinitionsByWord(word).value, SynonymDefinitions(d.dictReader, SynonymsOf(d, word)).value)
  {
    SynonymDefinitionsEach(d.dictReader, SynonymsOf(d, word));
  }

  /**
   * When a lookup succeeds and when it fails: it succeeds exactly when the
   * direct definitions decode and every synonym resolves; it finds nothing
   * exactly when no index record carries `word` and no synonym record does;
   * a failure is the direct lookup's failure, or else the first synonym that
   * does not resolve.
   */
  lemma DefinitionsOfOk(word: Bytes, d: Dictionary)
    requires d.Valid()
    ensures DefinitionsOf(word, d).Ok? <==>
      d.dictReader.DefinitionsByWord(word).Ok? && AllResolve(d.dictReader, SynonymsOf(d, word))
    ensures DefinitionsOf(word, d) == Ok(None) <==>
      (forall i :: 0 <= i < |d.idxReader.indexIdx| ==> d.idxReader.indexIdx[i].word != word) && SynonymsOf(d, word) == []
    ensures d.dictReader.DefinitionsByWord(word).Err? ==>
      DefinitionsOf(word, d) == Err(d.dictReader.DefinitionsByWord(word).error)
    ensures d.dictReader.DefinitionsByWord(word).Ok? && DefinitionsOf(word, d).Err? ==>
      FirstUnresolved(d.dictReader, SynonymsOf(d, word), DefinitionsOf(word, d).error)
  {
    SynonymDefinitionsOk(d.dictReader, SynonymsOf(d, word));
  }

  /** Strictly increasing in Python's byte-string order: sorted with no duplicates. */
  predicate StrictlySorted(s: seq<Bytes>)
  {
    forall i, j :: 0 <= i < j < |s| ==> Less(ByteCodes(s[i]), ByteCodes(s[j]))
  }

  /** Insert `w` into a strictly sorted sequence unless it is already there. */
  function InsertUnique(w: Bytes, s: seq<Bytes>): (r: seq<Bytes>)
    requires StrictlySorted(s)
    ensures StrictlySorted(r)
    ensures forall x :: x in r <==> x == w || x in s
  {
    if s == [] then [w]
    else if Less(ByteCodes(w), ByteCodes(s[0])) then
      assert forall j :: 0 < j < |s| ==> Less(ByteCodes(w), ByteCodes(s[j])) by {
        forall j | 0 < j < |s| ensures Less(ByteCodes(w), ByteCodes(s[j])) {
          LessTransitive(ByteCodes(w), ByteCodes(s[0]), ByteCodes(s[j]));
        }
      }
      [w] + s
    else if w == s[0] then s
    else
      LessTrichotomy(ByteCodes(w), ByteCodes(s[0]));
      ByteCodesInjective(w, s[0]);
      var rest := InsertUnique(w, s[1..]);
      assert forall x :: x in rest ==> Less(ByteCodes(s[0]), ByteCodes(x));
      [s[0]] + rest
  }

  /** `sorted(set(words))`: the distinct words in increasing order. */
  function SortedUnique(words: seq<Bytes>): (r: seq<Bytes>)
    ensures StrictlySorted(r)
    ensures forall x :: x in r <==> x in words
  {
    if words == [] then [] else InsertUnique(words[|words| - 1], SortedUnique(words[..|words| - 1]))
  }

  /** Nothing a lookup in `d` reads has changed since the earlier state. */
  twostate predicate Unchanged(d: Dictionary)
    reads d.idxReader, d.dictReader.dictIfo, d.synReader
  {
    unchanged(d.idxReader, d.dictReader.dictIfo) && (d.synReader != null ==> unchanged(d.synReader))
  }

  /** A lookup depends only on the bundle's index, synonym and metadata readers, not on the dictionary file's cursor. */
  twostate lemma DefinitionsStable(d: Dictionary)
    requires old(d.Valid()) && Unchanged(d)
    ensures d.Valid() && forall word :: DefinitionsOf(word, d) == old(DefinitionsOf(word, d))
  {
  }

  /** Two sequences with the same elements are empty together. */
  lemma SameEmptiness(a: seq<Bytes>, b: seq<Bytes>)
    requires forall x :: x in a <==> x in b
    ensures a == [] <==> b == []
  {
    if a != [] {
      assert a[0] in a;
    }
    if b != [] {
      assert b[0] in b;
    }
  }

  /** A strictly sorted sequence is determined by its elements: the search index does not depend on union order. */
  lemma {:induction false} StrictlySortedUnique(a: seq<Bytes>, b: seq<Bytes>)
    requires StrictlySorted(a) && StrictlySorted(b)
    requires forall x :: x in a <==> x in b
    ensures a == b
  {
    SameEmptiness(a, b);
    if a != [] {
      assert a[0] in b && b[0] in a;
      if a[0] != b[0] {
        var i :| 0 <= i < |b| && b[i] == a[0];
        var j :| 0 <= j < |a| && a[j] == b[0];
        LessTransitive(ByteCodes(a[0]), ByteCodes(a[j]), ByteCodes(a[0]));
        LessIrreflexive(ByteCodes(a[0]));
      }
      assert a == [a[0]] + a[1..] && b == [b[0]] + b[1..];
      forall x ensures x in a[1..] <==> x in b[1..] {
        if x in a[1..] {
          var i :| 0 <= i < |a[1..]| && a[1..][i] == x;
          assert Less(ByteCodes(a[0]), ByteCodes(a[i + 1])) && a[i + 1] == x;
          LessIrreflexive(ByteCodes(a[0]));
          assert x in a && x in b;
          var k :| 0 <= k < |b| && b[k] == x;
          assert b[1..][k - 1] == x;
        }
        if x in b[1..] {
          var i :| 0 <= i < |b[1..]| && b[1..][i] == x;
          assert Less(ByteCodes(b[0]), ByteCodes(b[i + 1])) && b[i + 1] == x;
          LessIrreflexive(ByteCodes(b[0]));
          assert x in b && x in a;
          var k :| 0 <= k < |a| && a[k] == x;
          assert a[1..][k - 1] == x;
        }
      }
      StrictlySortedUnique(a[1..], b[1..]);
      assert a == [a[0]] + a[1..] && b == [b[0]] + b[1..];
    }
  }

  class StarDict {
    const settings: Settings.DictionarySettings
    var dictionaries: map<string, Dictionary>
    var searchIndex: seq<Bytes>

    constructor (settings: Settings.DictionarySettings)
      ensures this.settings == settings && dictionaries == map[] && searchIndex == []
    {
      this.settings := settings;
      dictionaries := map[];
      searchIndex := [];
    }

    /**
     * `_load_dictionary`: `loaded` is the dictionary the path yields, or
     * `None` when constructing it failed; a loaded one is stored under its
     * name, replacing any earlier one of that name.
     */
    method LoadDictionary(loaded: Option<Dictionary>)
      modifies this`dictionaries
      ensures loaded.None? ==> dictionaries == old(dictionaries)
      ensures loaded.Some? ==> dictionaries == old(dictionaries)[loaded.value.name := loaded.value]
    {
      if loaded.Some? {
        var dictionary := loaded.value;
        dictionaries := dictionaries[dictionary.name := dictionary];
      }
    }

    /** `get_definitions` on one dictionary. */
    method GetDefinitions(word: Bytes, dictionary: Dictionary) returns (r: Result<Option<seq<Entry>>, DictFile.DictError>)
      requires dictionary.Valid()
      modifies dictionary.dictReader`offset
      ensures r == DefinitionsOf(word, dictionary)
    {
      var dr := dictionary.dictReader;
      var definitions := dr.GetDictByWord(word);
      if definitions.Err? {
        return Err(definitions.error);
      }
      var indexes: seq<nat> := [];
      if dictionary.synReader != null {
        var syn := dictionary.synReader.GetSyn(word);
        if syn.Some? {
          indexes := syn.value;
        }
      }
      assert indexes == SynonymsOf(word := word, d := dictionary);
      var viaSynonyms := ResolveSynonyms(dr, indexes);
      if viaSynonyms.Err? {
        return Err(viaSynonyms.error);
      }
      if definitions.value.None? && indexes == [] {
        return Ok(None);
      }
      var result: seq<Entry> := if definitions.value.Some? then definitions.value.value else [];
      return Ok(Some(result + viaSynonyms.value));
    }

    /** The loop of `get_definitions`: the definition at each synonym's index, in order. */
    method ResolveSynonyms(dr: DictFile.DictFileReader, indexes: seq<nat>) returns (r: Result<seq<Entry>, DictFile.DictError>)
      modifies dr`offset
      ensures r == SynonymDefinitions(dr, indexes)
    {
      var viaSynonyms: seq<Entry> := [];
      for k := 0 to |indexes|
        invariant SynonymDefinitions(dr, indexes[..k]) == Ok(viaSynonyms)
      {
        assert indexes[..k + 1][..k] == indexes[..k];
        var definition := dr.GetDictByIndex(indexes[k]);
        if definition.Err? {
          SynonymDefinitionsPrefixErr(dr, indexes, k, definition.error);
          return Err(definition.error);
        }
        viaSynonyms := viaSynonyms + [definition.value];
      }
      assert indexes[..|indexes|] == indexes;
      return Ok(viaSynonyms);
    }

    /**
     * `get_definitions_from_enabled_dictionaries`: one `(dictionary,
     * definitions)` pair per enabled name of the selected mode, in that
     * order; a name that is not loaded fails.
     */
    method GetDefinitionsFromEnabledDictionaries(word: Bytes, textCaptureMode: bool)
      returns (r: Result<seq<(Dictionary, Option<seq<Entry>>)>, AppError>)
      requires forall n :: n in dictionaries ==> dictionaries[n].Valid()
      modifies (set n | n in dictionaries :: dictionaries[n].dictReader)`offset
      ensures dictionaries == old(dictionaries)
      ensures var names := if textCaptureMode then settings.enabledDictionariesInTextCaptureMode
                           else settings.enabledDictionariesInNormalMode;
        (r.Ok? <==> forall i :: 0 <= i < |names| ==>
          names[i] in dictionaries && DefinitionsOf(word, dictionaries[names[i]]).Ok?) &&
        (r.Ok? ==> |r.value| == |names| && forall i :: 0 <= i < |names| ==>
          r.value[i] == (dictionaries[names[i]], DefinitionsOf(word, dictionaries[names[i]]).value))
    {
      var names := if textCaptureMode then settings.enabledDictionariesInTextCaptureMode
                   else settings.enabledDictionariesInNormalMode;
      r := DefinitionsFromEach(word, names);
      assert names == if textCaptureMode then settings.enabledDictionariesInTextCaptureMode
                      else settings.enabledDictionariesInNormalMode;
      forall n | n in dictionaries
        ensures DefinitionsOf(word, dictionaries[n]) == old(DefinitionsOf(word, dictionaries[n]))
      {
        DefinitionsStable(dictionaries[n]);
      }
    }

    /** The loop of `get_definitions_from_enabled_dictionaries`, over the definitions as they stood before it. */
    method DefinitionsFromEach(word: Bytes, names: seq<string>)
      returns (r: Result<seq<(Dictionary, Option<seq<Entry>>)>, AppError>)
      requires forall n :: n in dictionaries ==> dictionaries[n].Valid()
      modifies (set n | n in dictionaries :: dictionaries[n].dictReader)`offset
      ensures forall n :: n in dictionaries ==> Unchanged(dictionaries[n])
      ensures r.Ok? <==> forall i :: 0 <= i < |names| ==>
        names[i] in dictionaries && old(DefinitionsOf(word, dictionaries[names[i]])).Ok?
      ensures r.Ok? ==> |r.value| == |names| && forall i :: 0 <= i < |names| ==>
        r.value[i] == (dictionaries[names[i]], old(DefinitionsOf(word, dictionaries[names[i]])).value)
    {
      var loaded := dictionaries;
      var enabledDictionariesDefinitions := [];
      for i := 0 to |names|
        invariant dictionaries == loaded
        invariant forall n :: n in loaded ==> Unchanged(loaded[n])
        invariant |enabledDictionariesDefinitions| == i
        invariant forall j :: 0 <= j < i ==> (names[j] in loaded && old(DefinitionsOf(word, loaded[names[j]])).Ok? &&
          enabledDictionariesDefinitions[j] == (loaded[names[j]], old(DefinitionsOf(word, loaded[names[j]])).value))
      {
        if names[i] !in loaded {
          return Err(UnknownDictionary(names[i]));
        }
        var dictionary := loaded[names[i]];
        DefinitionsStable(dictionary);
        var definitions := GetDefinitions(word, dictionary);
        if definitions.Err? {
          return Err(DecodeFailed(definitions.error));
        }
        enabledDictionariesDefinitions := enabledDictionariesDefinitions + [(dictionary, definitions.value)];
      }
      return Ok(enabledDictionariesDefinitions);
    }

    /** `get_definitions_from_one_dictionary`: a name that is not loaded fails. */
    method GetDefinitionsFromOneDictionary(word: Bytes, dictionaryName: string)
      returns (r: Result<Option<seq<Entry>>, AppError>)
      requires forall n :: n in dictionaries ==> dictionaries[n].Valid()
      modifies (set n | n in dictionaries :: dictionaries[n].dictReader)`offset
      ensures dictionaryName !in dictionaries ==> r == Err(UnknownDictionary(dictionaryName))
      ensures dictionaryName in dictionaries ==>
        match DefinitionsOf(word, dictionaries[dictionaryName])
        case Ok(ds) => r == Ok(ds)
        case Err(e) => r == Err(DecodeFailed(e))
    {
      if dictionaryName !in dictionaries {
        return Err(UnknownDictionary(dictionaryName));
      }
      var definitions := GetDefinitions(word, dictionaries[dictionaryName]);
      if definitions.Err? {
        return Err(DecodeFailed(definitions.error));
      }
      return Ok(definitions.value);
    }

    /**
     * `_build_search_index`: the distinct headwords of every dictionary of
     * the index group, sorted; a name that is not loaded fails.
     */
    method BuildSearchIndex() returns (r: Result<(), AppError>)
      modifies this`searchIndex
      ensures r.Err? ==> searchIndex == old(searchIndex)
      ensures var names := settings.enabledDictionariesInIndexGroup;
        (r.Ok? <==> forall i :: 0 <= i < |names| ==> names[i] in dictionaries) &&
        (r.Ok? ==> (StrictlySorted(searchIndex) &&
          forall w :: w in searchIndex <==> exists i :: (0 <= i < |names| && names[i] in dictionaries &&
            w in dictionaries[names[i]].idxReader.GetAllWords())))
    {
      var names := settings.enabledDictionariesInIndexGroup;
      var words: seq<Bytes> := [];
      for i := 0 to |names|
        invariant forall j :: 0 <= j < i ==> names[j] in dictionaries
        invariant forall w :: w in words <==> exists j :: (0 <= j < i && names[j] in dictionaries &&
          w in dictionaries[names[j]].idxReader.GetAllWords())
      {
        if names[i] !in dictionaries {
          return Err(UnknownDictionary(names[i]));
        }
        var dictionary := dictionaries[names[i]];
        words := words + dictionary.idxReader.GetAllWords();
      }
      searchIndex := SortedUnique(words);
      return Ok(());
    }
  }
}
