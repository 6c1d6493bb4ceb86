/**
 * The `.idx` word index of a StarDict bundle: a sequence of records
 * `word NUL offset size`, with a big-endian offset of 32 or 64 bits and a
 * big-endian 32-bit size. The reader scans it once with a cursor and keeps
 * the records in file order plus a map from each word to its positions.
 */
module IdxFile {
  import opened Wrappers
  import opened ByteCodec
  import Grouping

  datatype IdxError =
    | WordNotTerminated(at: nat)          // no NUL after the word starting here
    | RecordTruncated(at: nat)            // the offset or size field starting here runs past the end
    | UnsupportedOffsetBits(bits: int)    // the source's ValueError
    | IndexOutOfRange(number: int, count: nat)

  /** One record: the word, and the window `(offset, size)` of its definition in the `.dict` data. */
  datatype IndexEntry = IndexEntry(word: Bytes, offset: nat, size: nat)

  /** The width in bytes of the offset field for an `idxoffsetbits` value. */
  function OffsetWidth(bits: int): Option<nat>
  {
    if bits == 64 then Some(8) else if bits == 32 then Some(4) else None
  }

  /** The record starting at `cursor`, and the cursor just past it. */
  function ReadRecord(content: Bytes, cursor: nat, bits: int): (r: Result<(IndexEntry, nat), IdxError>)
    requires cursor < |content|
    ensures r == Err(WordNotTerminated(cursor)) <==> forall i :: cursor <= i < |content| ==> content[i] != NUL
    ensures r.Ok? ==> (OffsetWidth(bits).Some? &&
      r.value.1 == cursor + |r.value.0.word| + 1 + OffsetWidth(bits).value + 4 <= |content|)
    ensures r.Ok? ==> Encodable(r.value.0, OffsetWidth(bits).value)
    ensures r.Ok? ==> content[cursor..r.value.1] == EncodeRecord(r.value.0, OffsetWidth(bits).value)
  {
    match FindNul(content, cursor)
    case None => Err(WordNotTerminated(cursor))
    case Some(end) =>
      var c := end + 1;
      match OffsetWidth(bits)
      case None => Err(UnsupportedOffsetBits(bits))
      case Some(w) =>
        if c + w > |content| then Err(RecordTruncated(c))
        else if c + w + 4 > |content| then Err(RecordTruncated(c + w))
        else
          var e := IndexEntry(content[cursor..end], BigEndian(content[c..c + w]), BigEndian(content[c + w..c + w + 4]));
          RecordInPlace(content, cursor, end, w);
          Ok((e, c + w + 4))
  }

  /** A NUL-terminated word followed by two in-bounds number fields is the encoding of the record they decode to. */
  lemma RecordInPlace(content: Bytes, cursor: nat, end: nat, w: nat)
    requires cursor <= end && end + 1 + w + 4 <= |content| && content[end] == NUL
    requires forall i :: cursor <= i < end ==> content[i] != NUL
    ensures var c := end + 1;
      var e := IndexEntry(content[cursor..end], BigEndian(content[c..c + w]), BigEndian(content[c + w..c + w + 4]));
      Encodable(e, w) && content[cursor..c + w + 4] == EncodeRecord(e, w)
  {
    var c := end + 1;
    var word, off, size := content[cursor..end], content[c..c + w], content[c + w..c + w + 4];
    EncodeDecode(off);
    EncodeDecode(size);
    assert NUL !in word by {
      forall k | 0 <= k < |word| ensures word[k] != NUL {
        assert word[k] == content[cursor + k];
      }
    }
    var e := IndexEntry(word, BigEndian(off), BigEndian(size));
    assert EncodeRecord(e, w) == word + [NUL] + off + size;
    JoinSlices(content, cursor, end, c);
    assert content[end..c] == [NUL];
    JoinSlices(content, cursor, c, c + w);
    JoinSlices(content, cursor, c + w, c + w + 4);
  }

  /** The middle part of a three-part concatenation is recovered by slicing. */
  lemma Middle(a: Bytes, b: Bytes, c: Bytes)
    ensures (a + b + c)[|a|..|a| + |b|] == b
  {
  }

  /** Adjacent slices join into one. */
  lemma JoinSlices(s: Bytes, a: nat, b: nat, c: nat)
    requires a <= b <= c <= |s|
    ensures s[a..c] == s[a..b] + s[b..c]
  {
  }

  /** Every record from `cursor` to the end of the data, which must be reached exactly. */
  function ParseFrom(content: Bytes, cursor: nat, bits: int): (r: Result<seq<IndexEntry>, IdxError>)
    requires cursor <= |content|
    ensures r.Ok? && cursor < |content| ==> OffsetWidth(bits).Some?
    ensures r.Ok? && OffsetWidth(bits).Some? ==>
      (forall i :: 0 <= i < |r.value| ==> Encodable(r.value[i], OffsetWidth(bits).value)) &&
      EncodeAll(r.value, OffsetWidth(bits).value) == content[cursor..]
    decreases |content| - cursor
  {
    if cursor == |content| then Ok([])
    else
      match ReadRecord(content, cursor, bits)
      case Err(e) => Err(e)
      case Ok((e, next)) =>
        var rest := ParseFrom(content, next, bits);
        if rest.Ok? then
          PrependEncoded(content, cursor, next, e, rest.value, OffsetWidth(bits).value);
          Prepend([e], rest)
        else Prepend([e], rest)
  }

  /** A record written just before the encoding of more records extends that encoding. */
  lemma PrependEncoded(content: Bytes, cursor: nat, next: nat, e: IndexEntry, es: seq<IndexEntry>, w: nat)
    requires cursor <= next <= |content| && Encodable(e, w) && content[cursor..next] == EncodeRecord(e, w)
    requires (forall i :: 0 <= i < |es| ==> Encodable(es[i], w)) && EncodeAll(es, w) == content[next..]
    ensures forall i :: 0 <= i < |[e] + es| ==> Encodable(([e] + es)[i], w)
    ensures EncodeAll([e] + es, w) == content[cursor..]
  {
    assert ([e] + es)[1..] == es;
    assert content[cursor..] == content[cursor..next] + content[next..];
  }

  /**
   * The records of a whole `.idx` file, in file order; a non-empty file
   * needs a supported offset width, and writing the records back out gives
   * the file.
   */
  function Parse(content: Bytes, bits: int): (r: Result<seq<IndexEntry>, IdxError>)
    ensures r.Ok? && content != [] ==> OffsetWidth(bits).Some?
    ensures r.Ok? && OffsetWidth(bits).Some? ==>
      (forall i :: 0 <= i < |r.value| ==> Encodable(r.value[i], OffsetWidth(bits).value)) &&
      EncodeAll(r.value, OffsetWidth(bits).value) == content
  {
    assert content[0..] == content;
    ParseFrom(content, 0, bits)
  }

  function Prepend(es: seq<IndexEntry>, r: Result<seq<IndexEntry>, IdxError>): Result<seq<IndexEntry>, IdxError>
  {
    match r
    case Ok(rest) => Ok(es + rest)
    case Err(e) => Err(e)
  }

  /** A record the format can carry in a field of `w` offset bytes. */
  predicate Encodable(e: IndexEntry, w: nat)
  {
    NUL !in e.word && e.offset < Pow256(w) && e.size < Pow256(4)
  }

  /** The bytes of one record. */
  function EncodeRecord(e: IndexEntry, w: nat): (r: Bytes)
    requires Encodable(e, w)
    ensures |r| == |e.word| + 1 + w + 4
  {
    e.word + [NUL] + EncodeBigEndian(e.offset, w) + EncodeBigEndian(e.size, 4)
  }

  /** The bytes of a whole `.idx` file holding `es`. */
  function EncodeAll(es: seq<IndexEntry>, w: nat): Bytes
    requires forall i :: 0 <= i < |es| ==> Encodable(es[i], w)
  {
    if es == [] then [] else EncodeRecord(es[0], w) + EncodeAll(es[1..], w)
  }

  /** A record written anywhere in a file is read back from its first byte. */
  lemma ReadEncodedRecord(pre: Bytes, e: IndexEntry, post: Bytes, bits: int)
    requires OffsetWidth(bits).Some? && Encodable(e, OffsetWidth(bits).value)
    ensures var w := OffsetWidth(bits).value;
      ReadRecord(pre + EncodeRecord(e, w) + post, |pre|, bits) == Ok((e, |pre| + |EncodeRecord(e, w)|))
  {
    var w := OffsetWidth(bits).value;
    var s := pre + EncodeRecord(e, w) + post;
    RecordLaidOut(pre, e, post, w);
    assert FindNul(s, |pre|) == Some(|pre| + |e.word|);
    DecodeEncode(e.offset, w);
    DecodeEncode(e.size, 4);
  }

  /** Where the word, its NUL and the two numbers of a record sit once it is written into a file. */
  lemma RecordLaidOut(pre: Bytes, e: IndexEntry, post: Bytes, w: nat)
    requires Encodable(e, w)
    ensures var s, end := pre + EncodeRecord(e, w) + post, |pre| + |e.word|;
      end + 1 + w + 4 <= |s| && s[end] == NUL && (forall i :: |pre| <= i < end ==> s[i] == e.word[i - |pre|]) &&
      s[|pre|..end] == e.word && s[end + 1..end + 1 + w] == EncodeBigEndian(e.offset, w) &&
      s[end + 1 + w..end + 1 + w + 4] == EncodeBigEndian(e.size, 4)
  {
    var off, size := EncodeBigEndian(e.offset, w), EncodeBigEndian(e.size, 4);
    var s := pre + EncodeRecord(e, w) + post;
    var end := |pre| + |e.word|;
    assert s == pre + e.word + ([NUL] + off + size + post);
    Middle(pre, e.word, [NUL] + off + size + post);
    assert s[end] == NUL;
    assert s == (pre + e.word + [NUL]) + off + (size + post);
    Middle(pre + e.word + [NUL], off, size + post);
    assert s == (pre + e.word + [NUL] + off) + size + post;
    Middle(pre + e.word + [NUL] + off, size, post);
  }

  /** Scanning an encoded file from any record boundary yields the remaining records. */
  lemma {:induction false} ParseEncodedFrom(pre: Bytes, es: seq<IndexEntry>, bits: int)
    requires OffsetWidth(bits).Some?
    requires forall i :: 0 <= i < |es| ==> Encodable(es[i], OffsetWidth(bits).value)
    ensures ParseFrom(pre + EncodeAll(es, OffsetWidth(bits).value), |pre|, bits) == Ok(es)
    decreases |es|
  {
    var w := OffsetWidth(bits).value;
    if es == [] {
      assert pre + EncodeAll(es, w) == pre;
    } else {
      var rec := EncodeRecord(es[0], w);
      var rest := EncodeAll(es[1..], w);
      var s := pre + EncodeAll(es, w);
      assert s == pre + rec + rest;
      ReadEncodedRecord(pre, es[0], rest, bits);
      assert ReadRecord(s, |pre|, bits) == Ok((es[0], |pre + rec|));
      assert s == (pre + rec) + rest;
      ParseEncodedFrom(pre + rec, es[1..], bits);
      assert ParseFrom(s, |pre + rec|, bits) == Ok(es[1..]);
      assert [es[0]] + es[1..] == es;
    }
  }

  /** Round trip: the index read from the bytes of `es` is `es`, record for record. */
  lemma ParseEncoded(es: seq<IndexEntry>, bits: int)
    requires OffsetWidth(bits).Some?
    requires forall i :: 0 <= i < |es| ==> Encodable(es[i], OffsetWidth(bits).value)
    ensures Parse(EncodeAll(es, OffsetWidth(bits).value), bits) == Ok(es)
  {
    ParseEncodedFrom([], es, bits);
    assert [] + EncodeAll(es, OffsetWidth(bits).value) == EncodeAll(es, OffsetWidth(bits).value);
  }

  /** The window `(offset, size)` a record points at. */
  function Window(e: IndexEntry): (nat, nat)
  {
    (e.offset, e.size)
  }

  /** Reference definition of a word lookup: the windows of the records carrying `w`, in file order. */
  function Windows(es: seq<IndexEntry>, w: Bytes): seq<(nat, nat)>
  {
    if es == [] then []
    else Windows(es[..|es| - 1], w) + (if es[|es| - 1].word == w then [Window(es[|es| - 1])] else [])
  }

  /** Each record's word paired with its position in the file. */
  function Numbered(es: seq<IndexEntry>): (r: seq<(Bytes, nat)>)
    ensures |r| == |es|
    ensures forall i :: 0 <= i < |es| ==> r[i] == (es[i].word, i)
  {
    seq(|es|, i requires 0 <= i < |es| => (es[i].word, i))
  }

  /** The positions the word map records for `w`. */
  function Positions(es: seq<IndexEntry>, w: Bytes): seq<nat>
  {
    Grouping.Select(Numbered(es), w)
  }

  /**
   * The positions the word map records for `w` are exactly the positions of
   * the records carrying `w`, ascending, and following them gives the
   * reference lookup.
   */
  lemma {:induction false} PositionsOf(es: seq<IndexEntry>, w: Bytes)
    ensures forall k :: 0 <= k < |Positions(es, w)| ==>
      Positions(es, w)[k] < |es| && es[Positions(es, w)[k]].word == w
    ensures forall k, l :: 0 <= k < l < |Positions(es, w)| ==> Positions(es, w)[k] < Positions(es, w)[l]
    ensures forall i :: 0 <= i < |es| && es[i].word == w ==> i in Positions(es, w)
    ensures |Windows(es, w)| == |Positions(es, w)|
    ensures forall k :: 0 <= k < |Positions(es, w)| ==>
      Positions(es, w)[k] < |es| && Windows(es, w)[k] == Window(es[Positions(es, w)[k]])
  {
    if es != [] {
      var p := es[..|es| - 1];
      var last := es[|es| - 1];
      PositionsOf(p, w);
      assert Numbered(es) == Numbered(p) + [(last.word, |p|)];
      Grouping.SelectAppend(Numbered(p), last.word, |p|, w);
      var ps := Positions(es, w);
      var pp := Positions(p, w);
      assert ps == pp + (if last.word == w then [|p|] else []);
      assert Windows(es, w) == Windows(p, w) + (if last.word == w then [Window(last)] else []);
      forall k | 0 <= k < |pp|
        ensures ps[k] == pp[k] && es[pp[k]] == p[pp[k]]
      {
      }
      forall i | 0 <= i < |es| && es[i].word == w
        ensures i in ps
      {
        if i < |p| {
          assert p[i].word == w;
        } else {
          assert ps[|ps| - 1] == i;
        }
      }
    }
  }

  /** Recording one more record extends the word map by its position. */
  lemma IndexedAppend(es: seq<IndexEntry>, e: IndexEntry)
    ensures Grouping.Group(Numbered(es + [e])) == Grouping.Add(Grouping.Group(Numbered(es)), e.word, |es|)
  {
    assert Numbered(es + [e])[..|es|] == Numbered(es);
  }

  /** A scan that reads one record goes on from just past it. */
  lemma ParseStep(content: Bytes, cursor: nat, bits: int)
    requires cursor < |content| && ReadRecord(content, cursor, bits).Ok?
    ensures var (e, next) := ReadRecord(content, cursor, bits).value;
      ParseFrom(content, cursor, bits) == Prepend([e], ParseFrom(content, next, bits))
  {
  }

  lemma PrependAppend(es: seq<IndexEntry>, e: IndexEntry, r: Result<seq<IndexEntry>, IdxError>)
    ensures Prepend(es, Prepend([e], r)) == Prepend(es + [e], r)
  {
    if r.Ok? {
      assert es + ([e] + r.value) == es + [e] + r.value;
    }
  }

  /** A word lookup finds nothing exactly when no record carries the word. */
  lemma WindowsEmptyIffAbsent(es: seq<IndexEntry>, w: Bytes)
    ensures Windows(es, w) == [] <==> forall i :: 0 <= i < |es| ==> es[i].word != w
  {
    PositionsOf(es, w);
    if exists i :: 0 <= i < |es| && es[i].word == w {
      var i :| 0 <= i < |es| && es[i].word == w;
      assert i in Positions(es, w);
    }
  }

  /** What one step of the reader's scan produced. */
  datatype Step =
    | Stop
    | Record(word: Bytes, offset: nat, size: nat, number: nat)
    | Failed(error: IdxError)

  class IdxFileReader {
    var content: Bytes
    var offset: nat
    var index: nat
    var indexOffsetBits: int
    /** For each word, the positions in `indexIdx` of the records carrying it. */
    var wordIdx: map<Bytes, seq<nat>>
    /** The records in file order. */
    var indexIdx: seq<IndexEntry>

    /** The word map indexes the record list. */
    ghost predicate Valid()
      reads this
    {
      wordIdx == Grouping.Group(Numbered(indexIdx))
    }

    constructor Init(content: Bytes, bits: int)
      ensures this.content == content && indexOffsetBits == bits
      ensures offset == 0 && index == 0 && wordIdx == map[] && indexIdx == []
    {
      this.content := content;
      offset := 0;
      index := 0;
      indexOffsetBits := bits;
      wordIdx := map[];
      indexIdx := [];
    }

    /**
     * Read the record at the cursor and move past it, counting it; at the
     * end of the data report `Stop`.
     */
    method Next() returns (s: Step)
      requires offset <= |content|
      modifies this`offset, this`index
      ensures offset <= |content|
      ensures old(offset) == |content| ==> s == Stop && offset == old(offset) && index == old(index)
      ensures old(offset) < |content| ==>
        match ReadRecord(content, old(offset), indexOffsetBits)
        case Ok((e, next)) =>
          s == Record(e.word, e.offset, e.size, old(index) + 1) && offset == next && index == old(index) + 1
        case Err(err) => s == Failed(err) && offset == old(offset) && index == old(index)
    {
      if offset == |content| {
        return Stop;
      }
      var end := FindNul(content, offset);
      if end.None? {
        return Failed(WordNotTerminated(offset));
      }
      var word := content[offset..end.value];
      var cursor := end.value + 1;
      var width: nat;
      if indexOffsetBits == 64 {
        width := 8;
      } else if indexOffsetBits == 32 {
        width := 4;
      } else {
        return Failed(UnsupportedOffsetBits(indexOffsetBits));
      }
      if cursor + width > |content| {
        return Failed(RecordTruncated(cursor));
      }
      var dataOffset := BigEndian(content[cursor..cursor + width]);
      cursor := cursor + width;
      if cursor + 4 > |content| {
        return Failed(RecordTruncated(cursor));
      }
      var dataSize := BigEndian(content[cursor..cursor + 4]);
      assert ReadRecord(content, offset, indexOffsetBits) == Ok((IndexEntry(word, dataOffset, dataSize), cursor + 4));
      offset := cursor + 4;
      index := index + 1;
      return Record(word, dataOffset, dataSize, index);
    }

    /**
     * Scan the whole `.idx` data: the reader holds the file's records in
     * order, indexed by word, or the scan fails with the first bad record.
     */
    static method Build(content: Bytes, bits: int) returns (r: Result<IdxFileReader, IdxError>)
      ensures r.Ok? ==> fresh(r.value) && r.value.Valid() && Parse(content, bits) == Ok(r.value.indexIdx)
      ensures r.Err? ==> Parse(content, bits) == Err(r.error)
    {
      var reader := new IdxFileReader.Init(content, bits);
      assert Parse(content, bits) == Prepend([], ParseFrom(content, 0, bits)) by {
        if ParseFrom(content, 0, bits).Ok? {
          assert [] + ParseFrom(content, 0, bits).value == ParseFrom(content, 0, bits).value;
        }
      }
      while true
        invariant reader.content == content && reader.indexOffsetBits == bits
        invariant reader.offset <= |content|
        invariant reader.Valid()
        invariant Parse(content, bits) == Prepend(reader.indexIdx, ParseFrom(content, reader.offset, bits))
        decreases |content| - reader.offset
      {
        ghost var old_offset := reader.offset;
        var step := reader.Next();
        match step {
          case Stop =>
            assert reader.indexIdx + [] == reader.indexIdx;
            return Ok(reader);
          case Failed(e) =>
            return Err(e);
          case Record(w, o, size, _) =>
            var e := IndexEntry(w, o, size);
            ghost var before := reader.indexIdx;
            ghost var cursor := reader.offset;
            reader.Append(e);
            ParseStep(content, old_offset, bits);
            PrependAppend(before, e, ParseFrom(content, cursor, bits));
        }
      }
    }

    /** Record `e` at the end of the list and its position under its word. */
    method Append(e: IndexEntry)
      requires Valid()
      modifies this`indexIdx, this`wordIdx
      ensures Valid() && indexIdx == old(indexIdx) + [e]
    {
      var n := |indexIdx|;
      indexIdx := indexIdx + [e];
      if e.word in wordIdx {
        wordIdx := wordIdx[e.word := wordIdx[e.word] + [n]];
      } else {
        wordIdx := wordIdx[e.word := [n]];
      }
      IndexedAppend(old(indexIdx), e);
    }

    /**
     * The record at position `number`; a negative number counts from the
     * end, as a list index does.
     */
    function GetIndexByNum(number: int): (r: Result<IndexEntry, IdxError>)
      reads this
      ensures 0 <= number < |indexIdx| ==> r == Ok(indexIdx[number])
      ensures -|indexIdx| <= number < 0 ==> r == Ok(indexIdx[|indexIdx| + number])
      ensures r.Err? <==> !(-|indexIdx| <= number < |indexIdx|)
    {
      if number >= |indexIdx| then Err(IndexOutOfRange(number, |indexIdx|))
      else if number >= 0 then Ok(indexIdx[number])
      else if number >= -|indexIdx| then Ok(indexIdx[|indexIdx| + number])
      else Err(IndexOutOfRange(number, |indexIdx|))
    }

    /**
     * The windows of every record carrying `word`, in file order; `None`
     * when no record carries it.
     */
    method GetIndexByWord(word: Bytes) returns (r: Option<seq<(nat, nat)>>)
      requires Valid()
      ensures r.None? <==> forall i :: 0 <= i < |indexIdx| ==> indexIdx[i].word != word
      ensures r.Some? ==> r.value == Windows(indexIdx, word) && r.value != []
    {
      Grouping.GroupIsSelect(Numbered(indexIdx), word);
      PositionsOf(indexIdx, word);
      if word !in wordIdx {
        return None;
      }
      var numbers := wordIdx[word];
      assert numbers == Positions(indexIdx, word);
      var index := [];
      for j := 0 to |numbers|
        invariant |index| == j
        invariant forall k :: 0 <= k < j ==> index[k] == Window(indexIdx[numbers[k]])
      {
        index := index + [Window(indexIdx[numbers[j]])];
      }
      assert index == Windows(indexIdx, word);
      return Some(index);
    }

    /** Every headword of the index, in file order (a homograph once per record). */
    function GetAllWords(): (r: seq<Bytes>)
      reads this
      ensures forall w :: w in r <==> exists i :: 0 <= i < |indexIdx| && indexIdx[i].word == w
    {
      var es := indexIdx;
      var r := seq(|es|, i requires 0 <= i < |es| => es[i].word);
      assert forall i :: 0 <= i < |es| ==> r[i] == es[i].word;
      r
    }
  }
}
