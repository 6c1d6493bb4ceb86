/**
 * The `.ifo` metadata file of a StarDict bundle: a free-text title line, a
 * `version=...` line, then `key=value` lines. Lines are given as the file
 * iterator yields them (each still carrying its line terminator).
 */
module IfoFile {
  import opened Wrappers

  datatype IfoError =
    | VersionLineExpected(key: string)   // the second line's key is not `version`
    | UnsupportedVersion(value: string)  // the version is neither 2.4.2 nor 3.0.0

  const TitleKey := "dict_title"
  const VersionKey := "version"
  const OffsetBitsKey := "idxoffsetbits"

  /** The characters Python's `str.isspace` accepts, which `str.strip` removes. */
  predicate IsSpace(c: char)
  {
    || ('\t' <= c <= '\r')
    || ('\U{1c}' <= c <= '\U{1f}')
    || c == ' ' || c == '\U{85}' || c == '\U{a0}' || c == '\U{1680}'
    || ('\U{2000}' <= c <= '\U{200a}')
    || c == '\U{2028}' || c == '\U{2029}' || c == '\U{202f}' || c == '\U{205f}' || c == '\U{3000}'
  }

  predicate AllSpace(s: string)
  {
    forall i :: 0 <= i < |s| ==> IsSpace(s[i])
  }

  /** Neither end of `s` is whitespace: what `strip` leaves. */
  predicate Trimmed(s: string)
  {
    s == [] || (!IsSpace(s[0]) && !IsSpace(s[|s| - 1]))
  }

  function StripLeft(s: string): (r: string)
    ensures r == [] || !IsSpace(r[0])
  {
    if s != [] && IsSpace(s[0]) then StripLeft(s[1..]) else s
  }

  function StripRight(s: string): (r: string)
    ensures r == [] || !IsSpace(r[|r| - 1])
  {
    if s != [] && IsSpace(s[|s| - 1]) then StripRight(s[..|s| - 1]) else s
  }

  /** `StripRight` keeps a prefix of its argument. */
  lemma {:induction false} StripRightPrefix(s: string)
    ensures |StripRight(s)| <= |s| && StripRight(s) == s[..|StripRight(s)|]
  {
    if s != [] && IsSpace(s[|s| - 1]) {
      StripRightPrefix(s[..|s| - 1]);
    }
  }

  /** `str.strip()`: drop leading and trailing whitespace. */
  function Strip(s: string): (r: string)
    ensures Trimmed(r)
  {
    var u := StripLeft(s);
    StripRightPrefix(u);
    StripRight(u)
  }

  /** `strip` removes exactly the padding around a trimmed text, so it is idempotent. */
  lemma {:induction false} StripPadded(a: string, t: string, b: string)
    requires AllSpace(a) && AllSpace(b) && Trimmed(t)
    ensures Strip(a + t + b) == t
  {
    if t == [] {
      assert a + t + b == (a + b) + [];
      StripLeftPadded(a + b, []);
    } else {
      assert a + t + b == a + (t + b);
      StripLeftPadded(a, t + b);
      StripRightPadded(t, b);
    }
  }

  lemma {:induction false} StripLeftPadded(a: string, u: string)
    requires AllSpace(a) && (u == [] || !IsSpace(u[0]))
    ensures StripLeft(a + u) == u
  {
    if a != [] {
      assert (a + u)[1..] == a[1..] + u;
      StripLeftPadded(a[1..], u);
    }
  }

  lemma {:induction false} StripRightPadded(t: string, b: string)
    requires AllSpace(b) && (t == [] || !IsSpace(t[|t| - 1]))
    ensures StripRight(t + b) == t
  {
    if b != [] {
      assert (t + b)[..|t + b| - 1] == t + b[..|b| - 1];
      StripRightPadded(t, b[..|b| - 1]);
    }
  }

  /**
   * `str.partition("=")`: the text before the first `=` and the text after
   * it; a line without `=` is all key and an empty value.
   */
  function Partition(line: string): (string, string)
  {
    if line == [] then ("", "")
    else if line[0] == '=' then ("", line[1..])
    else
      var p := Partition(line[1..]);
      ([line[0]] + p.0, p.1)
  }

  /** The key never holds `=`, and key, separator and value put back together give the line. */
  lemma {:induction false} PartitionSplits(line: string)
    ensures '=' in line ==> line == Partition(line).0 + "=" + Partition(line).1
    ensures '=' !in Partition(line).0
    ensures '=' !in line ==> Partition(line) == (line, "")
  {
    if line != [] && line[0] != '=' {
      PartitionSplits(line[1..]);
      assert line == [line[0]] + line[1..];
    }
  }

  /** The trimmed key and trimmed value of a `key=value` line. */
  function KeyValue(line: string): (string, string)
  {
    var p := Partition(line);
    (Strip(p.0), Strip(p.1))
  }

  /** The trimmed `(key, value)` pair of every line. */
  function Pairs(lines: seq<string>): (r: seq<(string, string)>)
    ensures |r| == |lines|
    ensures forall i :: 0 <= i < |lines| ==> r[i] == KeyValue(lines[i])
  {
    seq(|lines|, i requires 0 <= i < |lines| => KeyValue(lines[i]))
  }

  /** Store every pair into `m`, in order: a later pair overwrites an earlier one. */
  function Store(m: map<string, string>, kvs: seq<(string, string)>): map<string, string>
  {
    if kvs == [] then m
    else Store(m, kvs[..|kvs| - 1])[kvs[|kvs| - 1].0 := kvs[|kvs| - 1].1]
  }

  /** Storing pairs keeps the keys already there and adds exactly the keys the pairs carry. */
  lemma {:induction false} StoreKeys(m: map<string, string>, kvs: seq<(string, string)>, k: string)
    ensures k in Store(m, kvs) <==> k in m || exists j :: 0 <= j < |kvs| && kvs[j].0 == k
  {
    if kvs != [] {
      var p := kvs[..|kvs| - 1];
      StoreKeys(m, p, k);
      assert forall j :: 0 <= j < |p| ==> p[j] == kvs[j];
    }
  }

  function Title(lines: seq<string>): string
  {
    if |lines| > 0 then lines[0] else ""
  }

  function VersionLine(lines: seq<string>): string
  {
    if |lines| > 1 then lines[1] else ""
  }

  function Body(lines: seq<string>): seq<string>
  {
    if |lines| > 2 then lines[2..] else []
  }

  /**
   * The metadata a title, a parsed version line and the parsed later lines
   * describe, or the reason the file is rejected.
   */
  function Metadata(title: string, version: (string, string), kvs: seq<(string, string)>)
    : (r: Result<map<string, string>, IfoError>)
    ensures r.Err? <==> version.0 != VersionKey || version.1 !in {"2.4.2", "3.0.0"}
    ensures r.Ok? ==> TitleKey in r.value
  {
    if version.0 != VersionKey then Err(VersionLineExpected(version.0))
    else if version.1 != "2.4.2" && version.1 != "3.0.0" then Err(UnsupportedVersion(version.1))
    else
      var m := Store(map[TitleKey := title][VersionKey := version.1], kvs);
      StoreKeys(map[TitleKey := title][VersionKey := version.1], kvs, VersionKey);
      StoreKeys(map[TitleKey := title][VersionKey := version.1], kvs, TitleKey);
      Ok(if m[VersionKey] == "3.0.0" && OffsetBitsKey in m then m - {VersionKey} else m)
  }

  /** Every key but `version` is present exactly when it is the title's or some line carries it. */
  lemma MetadataKeys(title: string, version: (string, string), kvs: seq<(string, string)>, k: string)
    requires Metadata(title, version, kvs).Ok? && k != VersionKey
    ensures k in Metadata(title, version, kvs).value <==> k == TitleKey || exists j :: 0 <= j < |kvs| && kvs[j].0 == k
  {
    StoreKeys(map[TitleKey := title][VersionKey := version.1], kvs, k);
  }

  /** The metadata a file's lines describe. */
  function ReadIfo(lines: seq<string>): (r: Result<map<string, string>, IfoError>)
    ensures r.Err? <==> KeyValue(VersionLine(lines)).0 != VersionKey || KeyValue(VersionLine(lines)).1 !in {"2.4.2", "3.0.0"}
    ensures r.Ok? ==> TitleKey in r.value
  {
    Metadata(Title(lines), KeyValue(VersionLine(lines)), Pairs(Body(lines)))
  }

  /** `get_ifo`: the value stored under `key`, or None where the source returns False. */
  function Lookup(m: map<string, string>, key: string): (r: Option<string>)
    ensures r.Some? <==> key in m
    ensures r.Some? ==> r.value == m[key]
  {
    if key in m then Some(m[key]) else None
  }

  /** Last write wins: the value stored under a key is the one of the last pair carrying it. */
  lemma {:induction false} StoreLastWrite(m: map<string, string>, kvs: seq<(string, string)>, i: nat)
    requires i < |kvs|
    requires forall j :: i < j < |kvs| ==> kvs[j].0 != kvs[i].0
    ensures kvs[i].0 in Store(m, kvs) && Store(m, kvs)[kvs[i].0] == kvs[i].1
  {
    var n := |kvs| - 1;
    if i < n {
      var p := kvs[..n];
      assert p[i] == kvs[i];
      forall j | i < j < |p| ensures p[j].0 != p[i].0 {
        assert p[j] == kvs[j];
      }
      StoreLastWrite(m, p, i);
    }
  }

  /** A key no pair carries keeps whatever `m` held for it. */
  lemma {:induction false} StoreUntouched(m: map<string, string>, kvs: seq<(string, string)>, k: string)
    requires forall j :: 0 <= j < |kvs| ==> kvs[j].0 != k
    ensures k in Store(m, kvs) <==> k in m
    ensures k in m ==> Store(m, kvs)[k] == m[k]
  {
    if kvs != [] {
      var p := kvs[..|kvs| - 1];
      forall j | 0 <= j < |p| ensures p[j].0 != k {
        assert p[j] == kvs[j];
      }
      StoreUntouched(m, p, k);
    }
  }

  /** Storing trimmed pairs over trimmed entries leaves every entry trimmed. */
  lemma {:induction false} StoreTrimmed(m: map<string, string>, kvs: seq<(string, string)>, k: string)
    requires k in Store(m, kvs)
    requires forall j :: 0 <= j < |kvs| ==> Trimmed(kvs[j].0) && Trimmed(kvs[j].1)
    requires k in m ==> Trimmed(k) && Trimmed(m[k])
    ensures Trimmed(k) && Trimmed(Store(m, kvs)[k])
  {
    if kvs != [] {
      var n := |kvs| - 1;
      if kvs[n].0 != k {
        var p := kvs[..n];
        forall j | 0 <= j < |p| ensures Trimmed(p[j].0) && Trimmed(p[j].1) {
          assert p[j] == kvs[j];
        }
        StoreTrimmed(m, p, k);
      }
    }
  }

  /**
   * Apart from the title, which is kept verbatim, every key a loaded file
   * holds is trimmed, and so is its value.
   */
  lemma IfoTrimmed(lines: seq<string>, k: string)
    requires ReadIfo(lines).Ok? && k in ReadIfo(lines).value
    requires k != TitleKey
    ensures Trimmed(k) && Trimmed(ReadIfo(lines).value[k])
  {
    var kv := KeyValue(VersionLine(lines));
    var m0 := map[TitleKey := Title(lines)][VersionKey := kv.1];
    var kvs := Pairs(Body(lines));
    assert Trimmed(VersionKey);
    StoreTrimmed(m0, kvs, k);
  }

  /** No later line names `key`. */
  predicate NotRedefined(lines: seq<string>, key: string)
  {
    forall j :: 0 <= j < |Pairs(Body(lines))| ==> Pairs(Body(lines))[j].0 != key
  }

  /**
   * A file keeps its version when no later line redefines it, unless it is
   * 3.0.0 and sets `idxoffsetbits`: a 2.4.2 file always, a 3.0.0 file when
   * no line names `idxoffsetbits`.
   */
  lemma VersionKept(lines: seq<string>)
    requires ReadIfo(lines).Ok?
    requires NotRedefined(lines, VersionKey)
    requires KeyValue(VersionLine(lines)).1 == "2.4.2" || NotRedefined(lines, OffsetBitsKey)
    ensures Lookup(ReadIfo(lines).value, VersionKey) == Some(KeyValue(VersionLine(lines)).1)
  {
    var m0 := map[TitleKey := Title(lines)][VersionKey := KeyValue(VersionLine(lines)).1];
    StoreUntouched(m0, Pairs(Body(lines)), VersionKey);
    if KeyValue(VersionLine(lines)).1 != "2.4.2" {
      StoreUntouched(m0, Pairs(Body(lines)), OffsetBitsKey);
    }
  }

  /**
   * The 3.0.0 quirk: a file whose version stays 3.0.0 and that sets
   * `idxoffsetbits` loses its `version` key, and keeps every other key.
   */
  lemma VersionDropped(lines: seq<string>, i: nat)
    requires ReadIfo(lines).Ok?
    requires KeyValue(VersionLine(lines)).1 == "3.0.0"
    requires NotRedefined(lines, VersionKey)
    requires i < |Body(lines)| && KeyValue(Body(lines)[i]).0 == OffsetBitsKey
    ensures Lookup(ReadIfo(lines).value, VersionKey) == None
    ensures Lookup(ReadIfo(lines).value, OffsetBitsKey).Some?
    ensures Lookup(ReadIfo(lines).value, TitleKey).Some?
  {
    var m0 := map[TitleKey := Title(lines)][VersionKey := "3.0.0"];
    var kvs := Pairs(Body(lines));
    StoreUntouched(m0, kvs, VersionKey);
    assert kvs[i].0 == OffsetBitsKey;
    LastCarrier(kvs, i);
    var k :| 0 <= k < |kvs| && kvs[k].0 == OffsetBitsKey && forall j :: k < j < |kvs| ==> kvs[j].0 != OffsetBitsKey;
    StoreLastWrite(m0, kvs, k);
  }

  /** Among the pairs carrying a key there is a last one. */
  lemma {:induction false} LastCarrier(kvs: seq<(string, string)>, i: nat)
    requires i < |kvs|
    ensures exists k :: (0 <= k < |kvs| && kvs[k].0 == kvs[i].0 &&
      forall j :: k < j < |kvs| ==> kvs[j].0 != kvs[i].0)
    decreases |kvs| - i
  {
    if exists j :: i < j < |kvs| && kvs[j].0 == kvs[i].0 {
      var j :| i < j < |kvs| && kvs[j].0 == kvs[i].0;
      LastCarrier(kvs, j);
    } else {
      assert 0 <= i < |kvs| && kvs[i].0 == kvs[i].0 && forall j :: i < j < |kvs| ==> kvs[j].0 != kvs[i].0;
    }
  }

  class IfoFileReader {
    var ifo: map<string, string>

    constructor Init()
      ensures ifo == map[]
    {
      ifo := map[];
    }

    /**
     * `IfoFileReader(filename)`: check the version line, store the other
     * lines, then drop `version` when it is 3.0.0 and `idxoffsetbits` is set.
     */
    static method Load(lines: seq<string>) returns (r: Result<IfoFileReader, IfoError>)
      ensures r.Ok? ==> fresh(r.value) && ReadIfo(lines) == Ok(r.value.ifo)
      ensures r.Err? ==> ReadIfo(lines) == Err(r.error)
      ensures r.Err? <==> (KeyValue(VersionLine(lines)).0 != VersionKey ||
                           KeyValue(VersionLine(lines)).1 !in {"2.4.2", "3.0.0"})
    {
      var reader := new IfoFileReader.Init();
      reader.ifo := reader.ifo[TitleKey := Title(lines)];
      var kv := KeyValue(VersionLine(lines));
      if kv.0 != VersionKey {
        return Err(VersionLineExpected(kv.0));
      }
      if kv.1 != "2.4.2" && kv.1 != "3.0.0" {
        return Err(UnsupportedVersion(kv.1));
      }
      reader.ifo := reader.ifo[kv.0 := kv.1];
      ghost var m0 := reader.ifo;
      reader.StoreLines(Body(lines));
      StoreKeys(m0, Pairs(Body(lines)), VersionKey);
      if reader.ifo[VersionKey] == "3.0.0" && OffsetBitsKey in reader.ifo {
        reader.ifo := reader.ifo - {VersionKey};
      }
      return Ok(reader);
    }

    /** The loop of the constructor: store each `key=value` line in order, a later line overwriting an earlier one. */
    method StoreLines(body: seq<string>)
      modifies this
      ensures ifo == Store(old(ifo), Pairs(body))
    {
      ghost var m0 := ifo;
      ghost var kvs := Pairs(body);
      for i := 0 to |body|
        invariant ifo == Store(m0, kvs[..i])
      {
        assert kvs[..i + 1][..i] == kvs[..i];
        var line := KeyValue(body[i]);
        ifo := ifo[line.0 := line.1];
      }
      assert kvs[..|body|] == kvs;
    }

    /** `get_ifo(key)`. */
    function GetIfo(key: string): (r: Option<string>)
      reads this
      ensures r == Lookup(ifo, key)
    {
      if key !in ifo then None else Some(ifo[key])
    }
  }
}
