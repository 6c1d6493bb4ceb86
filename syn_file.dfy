/**
 * The `.syn` synonym file of a StarDict bundle: records `synonym NUL index`,
 * where the big-endian 32-bit index is the position of the original word in
 * the `.idx` file. The reader maps each synonym to the indexes recorded for
 * it, in file order.
 */
module SynFile {
  import opened Wrappers
  import opened ByteCodec
  import Grouping

  datatype SynError =
    | SynonymNotTerminated(at: nat)   // no NUL after the synonym starting here
    | IndexTruncated(at: nat)         // the 4-byte index starting here runs past the end

  /** The record starting at `cursor`: the synonym, the original word's index, and the cursor after it. */
  function ReadSynonym(content: Bytes, cursor: nat): (r: Result<(Bytes, nat, nat), SynError>)
    requires cursor < |content|
    ensures r.Ok? ==> r.value.2 == cursor + |r.value.0| + 5 <= |content|
    ensures r.Ok? ==> Encodable((r.value.0, r.value.1))
    ensures r.Ok? ==> content[cursor..r.value.2] == EncodeRecord((r.value.0, r.value.1))
  {
    match FindNul(content, cursor)
    case None => Err(SynonymNotTerminated(cursor))
    case Some(end) =>
      if end + 5 > |content| then Err(IndexTruncated(end + 1))
      else
        var index := content[end + 1..end + 5];
        EncodeDecode(index);
        assert content[cursor..end + 5] == content[cursor..end] + [NUL] + index;
        Ok((content[cursor..end], BigEndian(index), end + 5))
  }

  /** Every `(synonym, index)` record from `cursor` to the end of the data. */
  function ParseFrom(content: Bytes, cursor: nat): (r: Result<seq<(Bytes, nat)>, SynError>)
    requires cursor <= |content|
    ensures r.Ok? ==> forall i :: 0 <= i < |r.value| ==> Encodable(r.value[i])
    ensures r.Ok? ==> EncodeAll(r.value) == content[cursor..]
    decreases |content| - cursor
  {
    if cursor == |content| then Ok([])
    else
      match ReadSynonym(content, cursor)
      case Err(e) => Err(e)
      case Ok((w, i, next)) =>
        var rest := ParseFrom(content, next);
        if rest.Ok? then
          var ps := [(w, i)] + rest.value;
          assert ps[1..] == rest.value;
          assert content[cursor..] == content[cursor..next] + content[next..];
          Prepend([(w, i)], rest)
        else Prepend([(w, i)], rest)
  }

  /** The records of a whole `.syn` file, in file order; writing them back out gives the file. */
  function Parse(content: Bytes): (r: Result<seq<(Bytes, nat)>, SynError>)
    ensures r.Ok? ==> forall i :: 0 <= i < |r.value| ==> Encodable(r.value[i])
    ensures r.Ok? ==> EncodeAll(r.value) == content
  {
    assert content[0..] == content;
    ParseFrom(content, 0)
  }

  function Prepend(ps: seq<(Bytes, nat)>, r: Result<seq<(Bytes, nat)>, SynError>): Result<seq<(Bytes, nat)>, SynError>
  {
    match r
    case Ok(rest) => Ok(ps + rest)
    case Err(e) => Err(e)
  }

  /** A record the format can carry. */
  predicate Encodable(p: (Bytes, nat))
  {
    NUL !in p.0 && p.1 < Pow256(4)
  }

  function EncodeRecord(p: (Bytes, nat)): (r: Bytes)
    requires Encodable(p)
    ensures |r| == |p.0| + 5
  {
    p.0 + [NUL] + EncodeBigEndian(p.1, 4)
  }

  /** The bytes of a whole `.syn` file holding `ps`. */
  function EncodeAll(ps: seq<(Bytes, nat)>): Bytes
    requires forall i :: 0 <= i < |ps| ==> Encodable(ps[i])
  {
    if ps == [] then [] else EncodeRecord(ps[0]) + EncodeAll(ps[1..])
  }

  lemma ReadEncodedRecord(pre: Bytes, p: (Bytes, nat), post: Bytes)
    requires Encodable(p)
    ensures ReadSynonym(pre + EncodeRecord(p) + post, |pre|) == Ok((p.0, p.1, |pre| + |EncodeRecord(p)|))
  {
    var s := pre + EncodeRecord(p) + post;
    var end := |pre| + |p.0|;
    assert s == pre + p.0 + [NUL] + EncodeBigEndian(p.1, 4) + post;
    assert s[end] == NUL;
    assert forall i :: |pre| <= i < end ==> s[i] == p.0[i - |pre|];
    assert FindNul(s, |pre|) == Some(end);
    assert s[|pre|..end] == p.0;
    assert s[end + 1..end + 5] == EncodeBigEndian(p.1, 4);
    DecodeEncode(p.1, 4);
  }

  lemma {:induction false} ParseEncodedFrom(pre: Bytes, ps: seq<(Bytes, nat)>)
    requires forall i :: 0 <= i < |ps| ==> Encodable(ps[i])
    ensures ParseFrom(pre + EncodeAll(ps), |pre|) == Ok(ps)
    decreases |ps|
  {
    if ps == [] {
      assert pre + EncodeAll(ps) == pre;
    } else {
      var rec := EncodeRecord(ps[0]);
      var rest := EncodeAll(ps[1..]);
      var s := pre + EncodeAll(ps);
      assert s == pre + rec + rest;
      ReadEncodedRecord(pre, ps[0], rest);
      assert ReadSynonym(s, |pre|) == Ok((ps[0].0, ps[0].1, |pre + rec|));
      assert s == (pre + rec) + rest;
      ParseEncodedFrom(pre + rec, ps[1..]);
      assert ParseFrom(s, |pre + rec|) == Ok(ps[1..]);
      assert ParseFrom(s, |pre|) == Prepend([ps[0]], ParseFrom(s, |pre + rec|));
      assert [ps[0]] + ps[1..] == ps;
    }
  }

  /** Round trip: the records read from the bytes of `ps` are `ps`. */
  lemma ParseEncoded(ps: seq<(Bytes, nat)>)
    requires forall i :: 0 <= i < |ps| ==> Encodable(ps[i])
    ensures Parse(EncodeAll(ps)) == Ok(ps)
  {
    ParseEncodedFrom([], ps);
    assert [] + EncodeAll(ps) == EncodeAll(ps);
  }

  /** A scan that reads one record goes on from just past it. */
  lemma ParseStep(content: Bytes, cursor: nat)
    requires cursor < |content| && ReadSynonym(content, cursor).Ok?
    ensures var (w, i, next) := ReadSynonym(content, cursor).value;
      ParseFrom(content, cursor) == Prepend([(w, i)], ParseFrom(content, next))
  {
  }

  lemma PrependAppend(ps: seq<(Bytes, nat)>, p: (Bytes, nat), r: Result<seq<(Bytes, nat)>, SynError>)
    ensures Prepend(ps, Prepend([p], r)) == Prepend(ps + [p], r)
  {
    if r.Ok? {
      assert ps + ([p] + r.value) == ps + [p] + r.value;
    }
  }

  class SynFileReader {
    /** For each synonym, the `.idx` positions recorded for it, in file order. */
    var syn: map<Bytes, seq<nat>>
    /** The records read so far, in file order. */
    ghost var records: seq<(Bytes, nat)>

    ghost predicate Valid()
      reads this
    {
      syn == Grouping.Group(records)
    }

    constructor Init()
      ensures syn == map[] && records == []
    {
      syn := map[];
      records := [];
    }

    /** Record that `word` is a synonym of the `.idx` entry at `index`. */
    method Append(word: Bytes, index: nat)
      requires Valid()
      modifies this
      ensures Valid() && records == old(records) + [(word, index)]
    {
      if word in syn {
        syn := syn[word := syn[word] + [index]];
      } else {
        syn := syn[word := [index]];
      }
      records := records + [(word, index)];
      assert records[..|records| - 1] == old(records);
    }

    /** Scan the whole `.syn` data, or fail with the first bad record. */
    static method Load(content: Bytes) returns (r: Result<SynFileReader, SynError>)
      ensures r.Ok? ==> fresh(r.value) && r.value.Valid() && Parse(content) == Ok(r.value.records)
      ensures r.Err? ==> Parse(content) == Err(r.error)
    {
      var reader := new SynFileReader.Init();
      var offset := 0;
      assert Parse(content) == Prepend([], ParseFrom(content, 0)) by {
        if ParseFrom(content, 0).Ok? {
          assert [] + ParseFrom(content, 0).value == ParseFrom(content, 0).value;
        }
      }
      while offset < |content|
        invariant offset <= |content|
        invariant reader.Valid()
        invariant Parse(content) == Prepend(reader.records, ParseFrom(content, offset))
        decreases |content| - offset
      {
        var end := FindNul(content, offset);
        if end.None? {
          return Err(SynonymNotTerminated(offset));
        }
        var word := content[offset..end.value];
        if end.value + 5 > |content| {
          return Err(IndexTruncated(end.value + 1));
        }
        var index := BigEndian(content[end.value + 1..end.value + 5]);
        ghost var before := reader.records;
        ParseStep(content, offset);
        offset := end.value + 5;
        reader.Append(word, index);
        PrependAppend(before, (word, index), ParseFrom(content, offset));
      }
      assert reader.records + [] == reader.records;
      return Ok(reader);
    }

    /**
     * The `.idx` positions recorded for `word`, in file order; `None` when
     * the file has no record for it.
     */
    function GetSyn(word: Bytes): (r: Option<seq<nat>>)
      requires Valid()
      reads this
      ensures r.None? <==> forall i :: 0 <= i < |records| ==> records[i].0 != word
      ensures r.Some? ==> r.value == Grouping.Select(records, word) && r.value != []
    {
      Grouping.GroupIsSelect(records, word);
      if word !in syn then None else Some(syn[word])
    }
  }
}
