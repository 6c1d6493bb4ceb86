/**
 * The dictionary settings: three files of lines `name enabled order`. Each
 * line is split on single spaces into a settings tuple, the tuples are
 * sorted by their third field in string order, and a name is enabled when
 * its second field is not `0`. Reading the files is not modelled: each file
 * is given as its lines, or as `None` when it does not exist. A line keeps
 * its terminator, as Python's `for line in f` yields it, so the third field
 * of `a 1 2\n` is `2\n` and a blank line `\n` is a one-field tuple.
 */
module Settings {
  import opened Wrappers
  import opened Lexicographic

  /** A settings tuple: the fields of one line. */
  type Setting = seq<string>

  datatype SettingsError = MissingField(line: string)

  /** The position of the first space in `s`, if any. */
  function FirstSpace(s: string): (r: Option<nat>)
    ensures r.Some? ==> r.value < |s| && s[r.value] == ' ' && forall i :: 0 <= i < r.value ==> s[i] != ' '
    ensures r.None? ==> forall i :: 0 <= i < |s| ==> s[i] != ' '
  {
    if s == [] then None
    else if s[0] == ' ' then Some(0)
    else match FirstSpace(s[1..])
      case None => None
      case Some(i) => Some(i + 1)
  }

  /** `line.split(sep=' ')`: the pieces between single spaces, empty pieces included. */
  function SplitSpace(line: string): (r: seq<string>)
    ensures |r| > 0
    decreases |line|
  {
    match FirstSpace(line)
    case None => [line]
    case Some(i) => [line[..i]] + SplitSpace(line[i + 1..])
  }

  /** The pieces joined back with single spaces. */
  function JoinSpace(fields: seq<string>): string
    requires |fields| > 0
  {
    if |fields| == 1 then fields[0] else fields[0] + " " + JoinSpace(fields[1..])
  }

  /** Splitting loses nothing: joining the pieces gives the line back, and no piece holds a space. */
  lemma {:induction false} SplitJoin(line: string)
    ensures JoinSpace(SplitSpace(line)) == line
    ensures forall k :: 0 <= k < |SplitSpace(line)| ==> ' ' !in SplitSpace(line)[k]
    decreases |line|
  {
    match FirstSpace(line)
    case None =>
    case Some(i) =>
      SplitJoin(line[i + 1..]);
      assert line == line[..i] + " " + line[i + 1..];
      assert ' ' !in line[..i] by {
        forall j | 0 <= j < i ensures line[..i][j] != ' ' {
        }
      }
  }

  /** The sort key: the third field in string order (a tuple without one never reaches the sort). */
  function Key(t: Setting): seq<int>
  {
    if |t| >= 3 then StrCodes(t[2]) else []
  }

  /** Insert `t` after every tuple whose key is smaller, so it precedes tuples with an equal key. */
  function Insert(t: Setting, s: seq<Setting>): (r: seq<Setting>)
    ensures |r| == |s| + 1
  {
    if s == [] || !Less(Key(s[0]), Key(t)) then [t] + s else [s[0]] + Insert(t, s[1..])
  }

  /** `sorted(ts, key=lambda setting: setting[2])`: a stable sort by the third field. */
  function SortByKey(ts: seq<Setting>): (r: seq<Setting>)
    ensures |r| == |ts|
  {
    if ts == [] then [] else Insert(ts[0], SortByKey(ts[1..]))
  }

  predicate SortedByKey(s: seq<Setting>)
  {
    forall i, j :: 0 <= i < j < |s| ==> !Less(Key(s[j]), Key(s[i]))
  }

  /** The tuples of `s` whose key is `k`, in order. */
  function WithKey(s: seq<Setting>, k: seq<int>): seq<Setting>
  {
    if s == [] then [] else (if Key(s[0]) == k then [s[0]] else []) + WithKey(s[1..], k)
  }

  lemma NotLessTransitive(a: seq<int>, b: seq<int>, c: seq<int>)
    requires !Less(b, a) && !Less(c, b)
    ensures !Less(c, a)
  {
    LessTrichotomy(a, b);
    LessTrichotomy(b, c);
    LessTrichotomy(a, c);
    if Less(c, a) {
      if Less(a, b) { LessTransitive(c, a, b); }
    }
  }

  /** Inserting adds exactly `t`. */
  lemma {:induction false} InsertPermutes(t: Setting, s: seq<Setting>)
    ensures multiset(Insert(t, s)) == multiset(s) + multiset{t}
  {
    if s != [] && Less(Key(s[0]), Key(t)) {
      InsertPermutes(t, s[1..]);
      assert s == [s[0]] + s[1..];
    }
  }

  /** Inserting keeps a sorted sequence sorted. */
  lemma {:induction false} InsertSorted(t: Setting, s: seq<Setting>)
    requires SortedByKey(s)
    ensures SortedByKey(Insert(t, s))
  {
    if s == [] || !Less(Key(s[0]), Key(t)) {
      var r := [t] + s;
      forall i, j | 0 <= i < j < |r| ensures !Less(Key(r[j]), Key(r[i])) {
        if i == 0 && j > 1 {
          NotLessTransitive(Key(t), Key(s[0]), Key(s[j - 1]));
        }
      }
    } else {
      InsertSorted(t, s[1..]);
      forall j | 0 <= j < |s[1..]| ensures !Less(Key(s[1..][j]), Key(s[0])) {
        assert s[1..][j] == s[j + 1];
      }
      if Less(Key(t), Key(s[0])) {
        LessTransitive(Key(t), Key(s[0]), Key(t));
        LessIrreflexive(Key(t));
      }
      InsertBounded(t, s[1..], Key(s[0]));
      var rest := Insert(t, s[1..]);
      var r := [s[0]] + rest;
      assert forall i, j :: 0 < i < j < |r| ==> r[i] == rest[i - 1] && r[j] == rest[j - 1];
    }
  }

  /** Inserting a tuple whose key is not below `k` into tuples whose keys are not below `k` keeps that bound. */
  lemma InsertBounded(t: Setting, s: seq<Setting>, k: seq<int>)
    requires forall j :: 0 <= j < |s| ==> !Less(Key(s[j]), k)
    requires !Less(Key(t), k)
    ensures forall j :: 0 <= j < |Insert(t, s)| ==> !Less(Key(Insert(t, s)[j]), k)
  {
    InsertPermutes(t, s);
    var r := Insert(t, s);
    forall j | 0 <= j < |r| ensures !Less(Key(r[j]), k) {
      var y := r[j];
      assert y in multiset(r);
      if y != t {
        assert y in multiset(s);
        var m :| 0 <= m < |s| && s[m] == y;
      }
    }
  }

  /** The sort orders the tuples by key and keeps every one of them. */
  lemma {:induction false} SortByKeySorted(ts: seq<Setting>)
    ensures SortedByKey(SortByKey(ts))
    ensures multiset(SortByKey(ts)) == multiset(ts)
  {
    if ts != [] {
      SortByKeySorted(ts[1..]);
      var rest := SortByKey(ts[1..]);
      InsertSorted(ts[0], rest);
      InsertPermutes(ts[0], rest);
      MultisetCons(ts);
    }
  }

  /** The multiset of a non-empty sequence is its first element plus the multiset of the rest. */
  lemma MultisetCons(ts: seq<Setting>)
    requires ts != []
    ensures multiset(ts) == multiset(ts[1..]) + multiset{ts[0]}
  {
    assert ts == [ts[0]] + ts[1..];
  }

  /** Inserting `t` puts it in front of the tuples of its own key, and leaves every other key's tuples alone. */
  lemma {:induction false} InsertWithKey(t: Setting, s: seq<Setting>, k: seq<int>)
    ensures Key(t) == k ==> WithKey(Insert(t, s), k) == [t] + WithKey(s, k)
    ensures Key(t) != k ==> WithKey(Insert(t, s), k) == WithKey(s, k)
  {
    if s == [] || !Less(Key(s[0]), Key(t)) {
      assert Insert(t, s) == [t] + s;
      WithKeyCons(t, s, k);
    } else {
      InsertWithKey(t, s[1..], k);
      InsertPastHead(t, s, k);
    }
  }

  /** The step of `InsertWithKey` where `t` goes after the first tuple. */
  lemma InsertPastHead(t: Setting, s: seq<Setting>, k: seq<int>)
    requires s != [] && Less(Key(s[0]), Key(t))
    requires Key(t) == k ==> WithKey(Insert(t, s[1..]), k) == [t] + WithKey(s[1..], k)
    requires Key(t) != k ==> WithKey(Insert(t, s[1..]), k) == WithKey(s[1..], k)
    ensures Key(t) == k ==> WithKey(Insert(t, s), k) == [t] + WithKey(s, k)
    ensures Key(t) != k ==> WithKey(Insert(t, s), k) == WithKey(s, k)
  {
    var x := s[0];
    assert Insert(t, s) == [x] + Insert(t, s[1..]);
    assert s == [x] + s[1..];
    WithKeyCons(x, Insert(t, s[1..]), k);
    WithKeyCons(x, s[1..], k);
    if Key(t) == k {
      LessIrreflexive(k);
    }
  }

  /** `WithKey` of a sequence with a given first element. */
  lemma WithKeyCons(x: Setting, s: seq<Setting>, k: seq<int>)
    ensures Key(x) == k ==> WithKey([x] + s, k) == [x] + WithKey(s, k)
    ensures Key(x) != k ==> WithKey([x] + s, k) == WithKey(s, k)
  {
    assert ([x] + s)[1..] == s;
  }

  /** The sort is stable: tuples with equal keys keep their relative order. */
  lemma {:induction false} SortByKeyStable(ts: seq<Setting>, k: seq<int>)
    ensures WithKey(SortByKey(ts), k) == WithKey(ts, k)
  {
    if ts != [] {
      SortByKeyStable(ts[1..], k);
      InsertWithKey(ts[0], SortByKey(ts[1..]), k);
    }
  }

  /** The enabled names: the first field of each tuple whose second field is not `0`, in order. */
  function EnabledNames(ts: seq<Setting>): (r: seq<string>)
    requires forall i :: 0 <= i < |ts| ==> |ts[i]| >= 3
    ensures |r| <= |ts|
  {
    if ts == [] then []
    else
      (if ts[0][1] != "0" then [ts[0][0]] else []) + EnabledNames(ts[1..])
  }

  /** Every tuple gives a name exactly when none is disabled with `0`. */
  lemma {:induction false} EnabledNamesAll(ts: seq<Setting>)
    requires forall i :: 0 <= i < |ts| ==> |ts[i]| >= 3
    ensures |EnabledNames(ts)| == |ts| <==> forall i :: 0 <= i < |ts| ==> ts[i][1] != "0"
  {
    if ts != [] {
      assert forall i :: 1 <= i < |ts| ==> ts[i] == ts[1..][i - 1];
      EnabledNamesAll(ts[1..]);
    }
  }

  /** A name is enabled exactly when some tuple carries it with a second field other than `0`. */
  lemma {:induction false} EnabledNamesMembers(ts: seq<Setting>, name: string)
    requires forall i :: 0 <= i < |ts| ==> |ts[i]| >= 3
    ensures name in EnabledNames(ts) <==> exists i :: 0 <= i < |ts| && ts[i][1] != "0" && ts[i][0] == name
  {
    if ts != [] {
      EnabledNamesMembers(ts[1..], name);
      if exists i :: 0 <= i < |ts[1..]| && ts[1..][i][1] != "0" && ts[1..][i][0] == name {
        var i :| 0 <= i < |ts[1..]| && ts[1..][i][1] != "0" && ts[1..][i][0] == name;
        assert ts[i + 1] == ts[1..][i];
      }
      if exists i :: 0 <= i < |ts| && ts[i][1] != "0" && ts[i][0] == name {
        var i :| 0 <= i < |ts| && ts[i][1] != "0" && ts[i][0] == name;
        if i > 0 { assert ts[1..][i - 1] == ts[i]; }
      }
    }
  }

  /** The tuples of a settings file, one per line. */
  function Tuples(lines: seq<string>): (r: seq<Setting>)
    ensures |r| == |lines|
    ensures forall i :: 0 <= i < |lines| ==> r[i] == SplitSpace(lines[i])
  {
    seq(|lines|, i requires 0 <= i < |lines| => SplitSpace(lines[i]))
  }

  /** The first line whose tuple is too short to have a sort key, if any. */
  function ShortLine(lines: seq<string>): (r: Option<string>)
    ensures r.None? <==> forall i :: 0 <= i < |lines| ==> |SplitSpace(lines[i])| >= 3
    ensures r.Some? ==> r.value in lines && |SplitSpace(r.value)| < 3
  {
    if lines == [] then None
    else if |SplitSpace(lines[0])| < 3 then Some(lines[0])
    else
      var r := ShortLine(lines[1..]);
      assert forall i :: 1 <= i < |lines| ==> lines[i] == lines[1..][i - 1];
      r
  }

  /**
   * `_get_*_settings`: a missing file gives no tuples; otherwise its tuples
   * sorted by key, or a failure when a tuple has no third field.
   */
  function GetSettings(file: Option<seq<string>>): (r: Result<seq<Setting>, SettingsError>)
    ensures r.Ok? ==> forall i :: 0 <= i < |r.value| ==> |r.value[i]| >= 3
    ensures r.Err? <==> file.Some? && exists i :: 0 <= i < |file.value| && |SplitSpace(file.value[i])| < 3
    ensures file.None? ==> r == Ok([])
  {
    match file
    case None => Ok([])
    case Some(lines) =>
      match ShortLine(lines)
      case Some(line) => Err(MissingField(line))
      case None =>
        var ts := Tuples(lines);
        SortByKeySorted(ts);
        var r := SortByKey(ts);
        assert forall i :: 0 <= i < |r| ==> r[i] in multiset(ts);
        Ok(r)
  }

  /** The settings read from the three files are sorted, complete and stable. */
  lemma GetSettingsOrdered(lines: seq<string>, k: seq<int>)
    requires GetSettings(Some(lines)).Ok?
    ensures var ts := GetSettings(Some(lines)).value;
      SortedByKey(ts) && multiset(ts) == multiset(Tuples(lines)) && WithKey(ts, k) == WithKey(Tuples(lines), k)
    ensures |GetSettings(Some(lines)).value| == |lines|
  {
    SortByKeySorted(Tuples(lines));
    SortByKeyStable(Tuples(lines), k);
    assert |multiset(GetSettings(Some(lines)).value)| == |multiset(Tuples(lines))|;
  }

  class DictionarySettings {
    const dictsDirpath: string
    var installedDictionariesSettings: seq<Setting>
    var indexGroupSettings: seq<Setting>
    var textCaptureGroupSettings: seq<Setting>
    var enabledDictionariesInNormalMode: seq<string>
    var enabledDictionariesInIndexGroup: seq<string>
    var enabledDictionariesInTextCaptureMode: seq<string>

    /** The three enabled lists follow from the three settings lists. */
    ghost predicate Valid()
      reads this
    {
      (forall i :: 0 <= i < |installedDictionariesSettings| ==> |installedDictionariesSettings[i]| >= 3) &&
      (forall i :: 0 <= i < |indexGroupSettings| ==> |indexGroupSettings[i]| >= 3) &&
      (forall i :: 0 <= i < |textCaptureGroupSettings| ==> |textCaptureGroupSettings[i]| >= 3) &&
      enabledDictionariesInNormalMode == EnabledNames(installedDictionariesSettings) &&
      enabledDictionariesInIndexGroup == EnabledNames(indexGroupSettings) &&
      enabledDictionariesInTextCaptureMode == EnabledNames(textCaptureGroupSettings)
    }

    constructor Init(dictsDirpath: string)
      ensures this.dictsDirpath == dictsDirpath && Valid()
      ensures installedDictionariesSettings == [] && indexGroupSettings == [] && textCaptureGroupSettings == []
    {
      this.dictsDirpath := dictsDirpath;
      installedDictionariesSettings := [];
      indexGroupSettings := [];
      textCaptureGroupSettings := [];
      enabledDictionariesInNormalMode := [];
      enabledDictionariesInIndexGroup := [];
      enabledDictionariesInTextCaptureMode := [];
    }

    /** `_load_settings`: read the three files, then filter each into its enabled list. */
    method LoadSettings(installed: Option<seq<string>>, indexGroup: Option<seq<string>>, textCapture: Option<seq<string>>)
      returns (r: Result<(), SettingsError>)
      modifies this
      ensures r.Ok? <==> GetSettings(installed).Ok? && GetSettings(indexGroup).Ok? && GetSettings(textCapture).Ok?
      ensures r.Ok? ==> Valid()
      ensures r.Ok? ==> installedDictionariesSettings == GetSettings(installed).value &&
                        indexGroupSettings == GetSettings(indexGroup).value &&
                        textCaptureGroupSettings == GetSettings(textCapture).value
    {
      var a := GetSettings(installed);
      if a.Err? { return Err(a.error); }
      var b := GetSettings(indexGroup);
      if b.Err? { return Err(b.error); }
      var c := GetSettings(textCapture);
      if c.Err? { return Err(c.error); }
      installedDictionariesSettings := a.value;
      indexGroupSettings := b.value;
      textCaptureGroupSettings := c.value;
      enabledDictionariesInNormalMode := EnabledNames(installedDictionariesSettings);
      enabledDictionariesInIndexGroup := EnabledNames(indexGroupSettings);
      enabledDictionariesInTextCaptureMode := EnabledNames(textCaptureGroupSettings);
      return Ok(());
    }

    /** `find_enabled_dictionaries`: every name enabled in any of the three lists. */
    function FindEnabledDictionaries(): (r: set<string>)
      reads this
      ensures forall n :: n in r <==> (n in enabledDictionariesInNormalMode ||
        n in enabledDictionariesInIndexGroup || n in enabledDictionariesInTextCaptureMode)
    {
      set n | n in enabledDictionariesInNormalMode + enabledDictionariesInIndexGroup + enabledDictionariesInTextCaptureMode
    }

    /** A name is enabled exactly when one of the three settings lists carries it with a second field other than `0`. */
    lemma EnabledIffSetting(name: string)
      requires Valid()
      ensures name in FindEnabledDictionaries() <==>
        (exists i :: 0 <= i < |installedDictionariesSettings| &&
           installedDictionariesSettings[i][1] != "0" && installedDictionariesSettings[i][0] == name) ||
        (exists i :: 0 <= i < |indexGroupSettings| &&
           indexGroupSettings[i][1] != "0" && indexGroupSettings[i][0] == name) ||
        (exists i :: 0 <= i < |textCaptureGroupSettings| &&
           textCaptureGroupSettings[i][1] != "0" && textCaptureGroupSettings[i][0] == name)
    {
      EnabledNamesMembers(installedDictionariesSettings, name);
      EnabledNamesMembers(indexGroupSettings, name);
      EnabledNamesMembers(textCaptureGroupSettings, name);
    }
  }
}
