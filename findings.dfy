/**
 * Source lines that cannot do what the surrounding code and the format
 * intend. Each is modelled here exactly as written, with the input that
 * shows the discrepancy, and set against the corrected reading that the
 * rest of the model uses.
 */
module Findings {
  import opened Wrappers
  import opened ByteCodec
  import IdxFile
  import SynFile
  import DictFile
  import Grouping
  import App

  /** The Python exceptions raised by the lines modelled here. */
  datatype PyError =
    | StructError      // `struct.unpack` given a buffer of the wrong length
    | TypeError        // a tuple used as an index or added to an int, or `False` iterated
    | AttributeError   // `append` called on `False`
    | ValueError       // an unsupported `idxoffsetbits`

  /** Python's `s[a:b]` for a start that is not negative: a negative end counts from the back, and both ends are clamped. */
  function PySlice(s: Bytes, a: nat, b: int): (r: Bytes)
    ensures a <= b <= |s| ==> r == s[a..b]
    ensures a <= |s| <= b ==> r == s[a..]
    ensures |s| <= a ==> r == []
  {
    var e := if b < 0 then |s| + b else b;
    var lo := if a < |s| then a else |s|;
    var hi := if e < lo then lo else if e > |s| then |s| else e;
    s[lo..hi]
  }

  /** Python's `s.find(b'\0', from)`: the first NUL at or after `from`, or -1. */
  function PyFindNul(s: Bytes, from: nat): (r: int)
    ensures r == -1 <==> forall i :: from <= i < |s| ==> s[i] != NUL
    ensures r != -1 ==> from <= r < |s| && s[r] == NUL
  {
    match FindNul(s, from)
    case None => -1
    case Some(end) => end
  }

  /** `struct.unpack("!I", buf)`: a big-endian 32-bit value, which needs exactly four bytes. */
  function UnpackUInt(buf: Bytes): (r: Result<nat, PyError>)
    ensures r.Ok? <==> |buf| == 4
    ensures r.Ok? ==> r.value == BigEndian(buf) < Pow256(4)
  {
    if |buf| == 4 then BigEndianBound(buf); Ok(BigEndian(buf)) else Err(StructError)
  }

  // ---------------------------------------------------------------------
  // `.idx`: the 64-bit offset is unpacked with a 32-bit format.

  /** The offset field of an `.idx` record as written: a 64-bit field is sliced to 8 bytes but unpacked as `!I`. */
  function ReadOffsetAsWritten(content: Bytes, cursor: nat, bits: int): (r: Result<(nat, nat), PyError>)
    ensures r.Ok? ==> r.value.1 == cursor + (if bits == 64 then 8 else 4)
  {
    if bits == 64 then
      match UnpackUInt(PySlice(content, cursor, cursor + 8))
      case Err(e) => Err(e)
      case Ok(v) => Ok((v, cursor + 8))
    else if bits == 32 then
      match UnpackUInt(PySlice(content, cursor, cursor + 4))
      case Err(e) => Err(e)
      case Ok(v) => Ok((v, cursor + 4))
    else Err(ValueError)
  }

  /** As written, a 64-bit offset is read only when exactly four bytes are left, which no well-formed record allows. */
  lemma Offset64AsWritten(content: Bytes, cursor: nat)
    requires cursor <= |content|
    ensures ReadOffsetAsWritten(content, cursor, 64).Ok? <==> |content| - cursor == 4
  {
    var s := PySlice(content, cursor, cursor + 8);
    if cursor + 8 <= |content| {
      assert |s| == 8;
    } else {
      assert s == content[cursor..];
    }
  }

  /**
   * Every record of a 64-bit index fails at its offset field as written,
   * while the corrected reader returns the record.
   */
  lemma Offset64Record(e: IdxFile.IndexEntry)
    requires IdxFile.Encodable(e, 8)
    ensures var content := IdxFile.EncodeRecord(e, 8);
      ReadOffsetAsWritten(content, |e.word| + 1, 64).Err? &&
      IdxFile.ReadRecord(content, 0, 64) == Ok((e, |content|))
  {
    var content := IdxFile.EncodeRecord(e, 8);
    Offset64AsWritten(content, |e.word| + 1);
    IdxFile.ReadEncodedRecord([], e, [], 64);
    assert [] + content + [] == content;
  }

  // ---------------------------------------------------------------------
  // `.syn`: the index field is read by indexing the bytes with a tuple.

  /**
   * `SynFileReader.__init__` as written: the first record's index field is
   * read with `content[offset, offset + 4]`, which raises for any file that
   * has a record; only the empty file loads.
   */
  function SynLoadAsWritten(content: Bytes): (r: Result<map<Bytes, seq<nat>>, PyError>)
    ensures r.Ok? <==> content == []
  {
    if |content| == 0 then Ok(map[]) else Err(TypeError)
  }

  /** Any synonym file with a record fails to load as written, while the corrected parser returns its records. */
  lemma SynLoadFails(ps: seq<(Bytes, nat)>)
    requires ps != [] && forall i :: 0 <= i < |ps| ==> SynFile.Encodable(ps[i])
    ensures SynLoadAsWritten(SynFile.EncodeAll(ps)).Err?
    ensures SynFile.Parse(SynFile.EncodeAll(ps)) == Ok(ps)
  {
    assert |SynFile.EncodeRecord(ps[0])| > 0;
    SynFile.ParseEncoded(ps);
  }

  // ---------------------------------------------------------------------
  // `.syn`: synonyms are stored as bytes but looked up with a decoded word.

  /** A Python dictionary key: a `str` and a `bytes` value never compare equal. */
  datatype PyKey = StrKey(s: string) | BytesKey(b: Bytes)

  /** The records of a synonym file keyed as written: by the undecoded bytes of each synonym. */
  function KeyedAsWritten(ps: seq<(Bytes, nat)>): (r: seq<(PyKey, nat)>)
    ensures |r| == |ps|
    ensures forall i :: 0 <= i < |ps| ==> r[i] == (BytesKey(ps[i].0), ps[i].1)
  {
    seq(|ps|, i requires 0 <= i < |ps| => (BytesKey(ps[i].0), ps[i].1))
  }

  /**
   * `SynFileReader.get_syn` as written, reached from `get_definitions` with
   * the headword as a decoded `str`: the dictionary it searches is keyed by
   * `bytes`, so the key is never there and the answer is `False` (`None`).
   * The records are taken as stored once the index subscript of
   * `SynFileReader.__init__` is repaired; as written, a non-empty `.syn`
   * file fails to load before any record is stored (`SynLoadFails`).
   */
  function GetSynAsWritten(ps: seq<(Bytes, nat)>, query: string): (r: Option<seq<nat>>)
  {
    var syn := Grouping.Group(KeyedAsWritten(ps));
    if StrKey(query) in syn then Some(syn[StrKey(query)]) else None
  }

  /**
   * As written, no synonym record is ever found for a decoded word, while
   * the corrected lookup on the word's bytes returns the index of every
   * record that carries them, and at least one when some record does.
   */
  lemma SynonymLookupMisses(ps: seq<(Bytes, nat)>, query: string, w: Bytes)
    ensures GetSynAsWritten(ps, query) == None
    ensures (exists i :: 0 <= i < |ps| && ps[i].0 == w) ==> Grouping.Select(ps, w) != []
  {
    var keyed := KeyedAsWritten(ps);
    Grouping.GroupIsSelect(keyed, StrKey(query));
    Grouping.GroupIsSelect(ps, w);
  }

  // ---------------------------------------------------------------------
  // `.dict`: the free-form type byte is unpacked from no buffer.

  /** `DictFileReader._get_entry` as written: `struct.unpack("!c")` has no buffer and raises on the first field. */
  function GetEntryAsWritten(size: nat): (r: Result<DictFile.Entry, PyError>)
    ensures r.Ok? <==> size == 0
  {
    if size > 0 then Err(TypeError) else Ok(map[])
  }

  /** A free-form window holding any field fails as written, while the corrected decoder returns its fields. */
  lemma FreeFormFails(fs: seq<(byte, Bytes)>)
    requires fs != [] && forall i :: 0 <= i < |fs| ==> DictFile.FreeEncodable(fs[i])
    ensures var window := DictFile.EncodeFree(fs);
      GetEntryAsWritten(|window|).Err? &&
      DictFile.Decode(window, DictFile.FreeForm, 0, |window|) == Ok((DictFile.FillFree(fs, map[]), |window|))
  {
    var window := DictFile.EncodeFree(fs);
    assert |DictFile.EncodeFreeField(fs[0])| > 0;
    DictFile.FreeRoundTrip([], fs, []);
    assert [] + window + [] == window;
  }

  // ---------------------------------------------------------------------
  // `.dict`: a length prefix is unpacked to a tuple and used as an int.

  /**
   * `DictFileReader._get_entry_field_size` as written: without a size the
   * length prefix becomes a 1-tuple, and adding it to the cursor raises.
   */
  function SizedFieldAsWritten(blob: Bytes, cursor: nat, size: Option<int>): (r: Result<(Bytes, int), PyError>)
    ensures r.Ok? <==> size.Some?
    ensures r.Ok? ==> r.value.1 == cursor + size.value
  {
    match size
    case None =>
      if UnpackUInt(PySlice(blob, cursor, cursor + 4)).Err? then Err(StructError) else Err(TypeError)
    case Some(n) => Ok((PySlice(blob, cursor, cursor + n), cursor + n))
  }

  /** A length-prefixed field fails as written, while the corrected reader returns its bytes. */
  lemma SizedFieldFails(b: Bytes)
    requires |b| < Pow256(4)
    ensures var blob := EncodeBigEndian(|b|, 4) + b;
      SizedFieldAsWritten(blob, 0, None).Err? &&
      DictFile.SizedField(blob, 0, None) == Ok((b, |blob|))
  {
    var blob := EncodeBigEndian(|b|, 4) + b;
    assert blob[0..4 + |b|] == blob;
    DictFile.SizedAt(blob, 0, b);
  }

  // ---------------------------------------------------------------------
  // `.idx` and `.dict`: a missing NUL sends the cursor back to the start.

  /**
   * A NUL-terminated field as written in `IdxFileReader.__next__` and in
   * `DictFileReader._get_entry_field_null_trail`: the bytes up to the
   * found NUL, and the cursor just past it; `find` gives -1 when there is
   * none.
   */
  function NulFieldAsWritten(s: Bytes, cursor: nat): (r: (Bytes, int))
    ensures PyFindNul(s, cursor) != -1 ==> r.0 == s[cursor..PyFindNul(s, cursor)] && r.1 > cursor
  {
    var end := PyFindNul(s, cursor);
    (PySlice(s, cursor, end), end + 1)
  }

  /**
   * Without a NUL after the cursor, as written the field is everything
   * from the cursor but the last byte and the cursor returns to 0; the
   * corrected readers report the unterminated field instead.
   */
  lemma MissingNul(s: Bytes, cursor: nat)
    requires cursor < |s| && forall i :: cursor <= i < |s| ==> s[i] != NUL
    ensures NulFieldAsWritten(s, cursor) == (s[cursor..|s| - 1], 0)
    ensures DictFile.NullTrail(s, cursor) == Err(DictFile.FieldNotTerminated(cursor))
    ensures IdxFile.ReadRecord(s, cursor, 32) == Err(IdxFile.WordNotTerminated(cursor))
  {
    assert FindNul(s, cursor).None?;
  }

  /** The blob `abc` read from position 1: as written the field is `b` and the cursor moves back to 0. */
  lemma MissingNulExample()
    ensures NulFieldAsWritten([97, 98, 99], 1) == ([98], 0)
    ensures DictFile.NullTrail([97, 98, 99], 1).Err?
  {
    var s: Bytes := [97, 98, 99];
    MissingNul(s, 1);
    assert s[1..2] == [98];
  }

  // ---------------------------------------------------------------------
  // `get_definitions`: `False` is iterated and appended to.

  /**
   * `StarDict.get_definitions` as written, on values: `direct` is what
   * `get_dict_by_word` returned (`None` for `False`), `hasSynReader` whether
   * the bundle has a synonym file, and `synonyms` the definitions its
   * synonym records reach (`None` when `get_syn` returned `False`).
   */
  function GetDefinitionsAsWritten(direct: Option<seq<DictFile.Entry>>, hasSynReader: bool,
                                   synonyms: Option<seq<DictFile.Entry>>): (r: Result<Option<seq<DictFile.Entry>>, PyError>)
    ensures !hasSynReader ==> r == Ok(direct)
    ensures hasSynReader && synonyms.None? ==> r == Err(TypeError)
    ensures hasSynReader && synonyms.Some? && synonyms.value != [] && direct.None? ==> r == Err(AttributeError)
  {
    if !hasSynReader then Ok(direct)
    else if synonyms.None? then Err(TypeError)
    else if synonyms.value == [] then Ok(direct)
    else if direct.None? then Err(AttributeError)
    else Ok(Some(direct.value + synonyms.value))
  }

  /** Whenever the code as written returns, it agrees with the corrected merge. */
  lemma AsWrittenAgreesWhenItReturns(direct: Option<seq<DictFile.Entry>>, synonyms: seq<DictFile.Entry>)
    requires GetDefinitionsAsWritten(direct, true, Some(synonyms)).Ok?
    ensures GetDefinitionsAsWritten(direct, true, Some(synonyms)).value == App.Merged(direct, synonyms)
  {
    if direct.Some? {
      assert direct.value + [] == direct.value;
    }
  }

  /**
   * In a bundle with a synonym file, a word with definitions but no
   * synonym, and a word reached only through a synonym, both fail as
   * written; the corrected merge returns their definitions. The second case
   * is latent: it needs `get_syn` to answer, which as written it never does
   * (`SynLoadFails`, `SynonymLookupMisses`).
   */
  lemma GetDefinitionsFails(ds: seq<DictFile.Entry>, e: DictFile.Entry)
    ensures GetDefinitionsAsWritten(Some(ds), true, None) == Err(TypeError)
    ensures App.Merged(Some(ds), []) == Some(ds)
    ensures GetDefinitionsAsWritten(None, true, Some([e])) == Err(AttributeError)
    ensures App.Merged(None, [e]) == Some([e])
  {
    assert ds + [] == ds;
    assert [] + [e] == [e];
  }
}
