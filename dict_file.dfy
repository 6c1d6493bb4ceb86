/**
 * The `.dict` definition data of a StarDict bundle. A word's definition is
 * the window `(offset, size)` its index record points at; the window holds
 * typed fields, decoded into a map from type character to field bytes.
 *
 * With `sametypesequence` set, the field types are not stored: they are the
 * characters of that string, in order, and the last field fills the rest of
 * the window. Without it, every field starts with its own type byte, and
 * decoding goes on while fewer than `size` bytes have been consumed.
 *
 * A text field (types `mlgtxykwhnr`) runs to a NUL; any other field is a
 * big-endian 32-bit length followed by that many bytes.
 */
module DictFile {
  import opened Wrappers
  import opened ByteCodec
  import IfoFile
  import IdxFile

  datatype DictError =
    | FieldNotTerminated(at: nat)          // no NUL after the text field starting here
    | LengthTruncated(at: nat)             // the 4-byte length starting here runs past the end
    | FieldTruncated(at: nat, size: int)   // a field of `size` bytes starting here runs past the end
    | TypeMissing(at: nat)                 // a free-form field's type byte would lie past the end
    | NoSuchIndex(number: int, count: nat) // the `.idx` position asked for does not exist

  type Entry = map<char, Bytes>

  /** Field types whose value is NUL-terminated text. */
  const TextTypes := "mlgtxykwhnr"
  /** Field types whose value is length-prefixed binary data. */
  const BinaryTypes := "WP"

  /** How a bundle's definitions are laid out. */
  datatype Layout = Fixed(types: string) | FreeForm

  /** The layout a `sametypesequence` value selects: fixed exactly when it is present and non-empty. */
  function LayoutOf(sameTypeSequence: Option<string>): (r: Layout)
    ensures r.Fixed? <==> sameTypeSequence.Some? && sameTypeSequence.value != ""
    ensures r.Fixed? ==> r.types == sameTypeSequence.value
  {
    match sameTypeSequence
    case Some(s) => if s != "" then Fixed(s) else FreeForm
    case None => FreeForm
  }

  /** A text field: the bytes from `cursor` up to the next NUL, and the cursor just past that NUL. */
  function NullTrail(blob: Bytes, cursor: nat): (r: Result<(Bytes, nat), DictError>)
    ensures r.Ok? ==> r.value.1 == cursor + |r.value.0| + 1 <= |blob|
    ensures r.Ok? ==> blob[cursor..r.value.1] == r.value.0 + [NUL] && NUL !in r.value.0
    ensures r.Err? <==> forall i :: cursor <= i < |blob| ==> blob[i] != NUL
  {
    match FindNul(blob, cursor)
    case None => Err(FieldNotTerminated(cursor))
    case Some(end) =>
      assert forall i :: 0 <= i < end - cursor ==> blob[cursor..end][i] == blob[cursor + i];
      Ok((blob[cursor..end], end + 1))
  }

  /**
   * A sized field: `size` bytes from `cursor`, or, when no size is given, a
   * 4-byte big-endian length and then that many bytes.
   */
  function SizedField(blob: Bytes, cursor: nat, size: Option<int>): (r: Result<(Bytes, nat), DictError>)
    ensures r.Ok? && size.Some? ==> |r.value.0| == size.value && r.value.1 == cursor + size.value <= |blob|
    ensures r.Ok? && size.Some? ==> r.value.0 == blob[cursor..r.value.1]
    ensures r.Ok? && size.None? ==> (cursor + 4 <= |blob| &&
      |r.value.0| == BigEndian(blob[cursor..cursor + 4]) && r.value.1 == cursor + 4 + |r.value.0| <= |blob|)
    ensures r.Ok? && size.None? ==> r.value.0 == blob[cursor + 4..r.value.1]
    decreases size.None?
  {
    match size
    case Some(n) =>
      if n < 0 || cursor + n > |blob| then Err(FieldTruncated(cursor, n))
      else Ok((blob[cursor..cursor + n], cursor + n))
    case None =>
      if cursor + 4 > |blob| then Err(LengthTruncated(cursor))
      else SizedField(blob, cursor + 4, Some(BigEndian(blob[cursor..cursor + 4])))
  }

  /**
   * Fixed layout from field `k` on: a known type reads its own field, text
   * up to a NUL and binary after a 4-byte length, except the field at the
   * last position, which takes what remains of the `size`-byte window that
   * began at `start`, text and binary alike; an unknown type reads nothing,
   * at the last position too. Returns the fields decoded so far plus these,
   * and the final cursor.
   */
  function FixedFrom(blob: Bytes, types: string, k: nat, start: nat, size: nat, cursor: nat, acc: Entry)
    : (r: Result<(Entry, nat), DictError>)
    requires k <= |types|
    ensures r.Ok? ==> cursor <= r.value.1
    ensures r.Ok? && k < |types| && Known(types[|types| - 1]) ==> r.value.1 == start + size
    decreases |types| - k
  {
    if k == |types| then Ok((acc, cursor))
    else
      var t := types[k];
      if t !in TextTypes && t !in BinaryTypes then FixedFrom(blob, types, k + 1, start, size, cursor, acc)
      else
        var field :=
          if k == |types| - 1 then SizedField(blob, cursor, Some(size - (cursor - start)))
          else if t in TextTypes then NullTrail(blob, cursor)
          else SizedField(blob, cursor, None);
        match field
        case Err(e) => Err(e)
        case Ok((b, next)) => FixedFrom(blob, types, k + 1, start, size, next, acc[t := b])
  }

  /** One free-form field at `cursor`: its type, its bytes, and the cursor after it. */
  function FreeField(blob: Bytes, cursor: nat): (r: Result<(char, Bytes, nat), DictError>)
    ensures r.Ok? ==> cursor < r.value.2 <= |blob|
  {
    if cursor >= |blob| then Err(TypeMissing(cursor))
    else
      var t := CharOf(blob[cursor]);
      var field := if t in TextTypes then NullTrail(blob, cursor + 1) else SizedField(blob, cursor + 1, None);
      match field
      case Err(e) => Err(e)
      case Ok((b, next)) => Ok((t, b, next))
  }

  /** Free-form fields from `cursor` while fewer than `size` bytes of the window that began at `start` are consumed. */
  function FreeFrom(blob: Bytes, start: nat, size: nat, cursor: nat, acc: Entry): (r: Result<(Entry, nat), DictError>)
    ensures r.Ok? ==> cursor <= r.value.1 && start + size <= r.value.1
    ensures r.Ok? ==> acc.Keys <= r.value.0.Keys
    decreases |blob| - cursor
  {
    if cursor - start >= size then Ok((acc, cursor))
    else
      match FreeField(blob, cursor)
      case Err(e) => Err(e)
      case Ok((t, b, next)) => FreeFrom(blob, start, size, next, acc[t := b])
  }

  /**
   * The entry stored in the window `(offset, size)` under `layout`, and the
   * cursor after it: a free-form decode stops only once the whole window is
   * consumed; a fixed one holds exactly the known types of its layout, and
   * ends at the window's end when its last type is known.
   */
  function Decode(blob: Bytes, layout: Layout, offset: nat, size: nat): (r: Result<(Entry, nat), DictError>)
    ensures r.Ok? ==> offset <= r.value.1
    ensures r.Ok? && layout.FreeForm? ==> offset + size <= r.value.1
    ensures r.Ok? && layout.Fixed? && layout.types != [] && Known(layout.types[|layout.types| - 1]) ==>
      r.value.1 == offset + size
  {
    assert layout.Fixed? ==> layout.types[0..] == layout.types;
    match layout
    case Fixed(types) => FixedFrom(blob, types, 0, offset, size, offset, map[])
    case FreeForm => FreeFrom(blob, offset, size, offset, map[])
  }

  /** The fields a fixed layout fills from position `k` on are those of `acc` and the known types still to read. */
  lemma {:induction false} FixedKeys(blob: Bytes, types: string, k: nat, start: nat, size: nat, cursor: nat, acc: Entry)
    requires k <= |types| && FixedFrom(blob, types, k, start, size, cursor, acc).Ok?
    ensures forall t :: t in FixedFrom(blob, types, k, start, size, cursor, acc).value.0 <==>
      t in acc || (t in types[k..] && Known(t))
    decreases |types| - k
  {
    if k < |types| {
      var t := types[k];
      assert types[k..] == [t] + types[k + 1..];
      if !Known(t) {
        FixedKeys(blob, types, k + 1, start, size, cursor, acc);
      } else {
        var field :=
          if k == |types| - 1 then SizedField(blob, cursor, Some(size - (cursor - start)))
          else if t in TextTypes then NullTrail(blob, cursor)
          else SizedField(blob, cursor, None);
        FixedKeys(blob, types, k + 1, start, size, field.value.1, acc[t := field.value.0]);
      }
    }
  }

  /** A fixed-layout entry holds exactly the known types of its layout. */
  lemma DecodeKeys(blob: Bytes, types: string, offset: nat, size: nat)
    requires Decode(blob, Fixed(types), offset, size).Ok?
    ensures forall t :: t in Decode(blob, Fixed(types), offset, size).value.0 <==> t in types && Known(t)
  {
    assert types[0..] == types;
    FixedKeys(blob, types, 0, offset, size, offset, map[]);
  }

  /** The entries stored in `windows`, in order, or the first failure. */
  function DecodeAll(blob: Bytes, layout: Layout, windows: seq<(nat, nat)>): (r: Result<seq<Entry>, DictError>)
    ensures r.Ok? ==> |r.value| == |windows|
  {
    if windows == [] then Ok([])
    else
      match DecodeAll(blob, layout, windows[..|windows| - 1])
      case Err(e) => Err(e)
      case Ok(es) =>
        match Decode(blob, layout, windows[|windows| - 1].0, windows[|windows| - 1].1)
        case Err(e) => Err(e)
        case Ok((entry, _)) => Ok(es + [entry])
  }

  /** A type the decoder reads a field for. */
  predicate Known(t: char)
  {
    t in TextTypes || t in BinaryTypes
  }

  /** A value a field of type `t` can carry: text has no NUL unless it is last, binary fits its length prefix. */
  predicate FieldEncodable(t: char, b: Bytes, last: bool)
  {
    last || (t in TextTypes && NUL !in b) || (t !in TextTypes && |b| < Pow256(4))
  }

  /** The bytes of one fixed-layout field; the last field is stored bare. */
  function EncodeFixedField(t: char, b: Bytes, last: bool): (r: Bytes)
    requires FieldEncodable(t, b, last)
  {
    if last then b
    else if t in TextTypes then b + [NUL]
    else EncodeBigEndian(|b|, 4) + b
  }

  /** Fields `types[k..]` carrying `fields[k..]`, each encodable in its place. */
  ghost predicate FixedEncodable(types: string, fields: seq<Bytes>)
  {
    |fields| == |types| &&
    forall i :: 0 <= i < |types| ==> Known(types[i]) && FieldEncodable(types[i], fields[i], i == |types| - 1)
  }

  /** The bytes of a fixed-layout window holding `fields[k..]`. */
  function EncodeFixedFrom(types: string, fields: seq<Bytes>, k: nat): Bytes
    requires FixedEncodable(types, fields) && k <= |types|
    decreases |types| - k
  {
    if k == |types| then []
    else EncodeFixedField(types[k], fields[k], k == |types| - 1) + EncodeFixedFrom(types, fields, k + 1)
  }

  /** The entry holding `fields[k..]` under their types on top of `acc`; a repeated type keeps its last field. */
  function FillFrom(types: string, fields: seq<Bytes>, k: nat, acc: Entry): Entry
    requires |fields| == |types| && k <= |types|
    decreases |types| - k
  {
    if k == |types| then acc else FillFrom(types, fields, k + 1, acc[types[k] := fields[k]])
  }

  /** Splitting a slice that holds `a + b` at the seam. */
  lemma SplitSlice(blob: Bytes, i: nat, j: nat, a: Bytes, b: Bytes)
    requires i + |a| + |b| == j <= |blob| && blob[i..j] == a + b
    ensures blob[i..i + |a|] == a && blob[i + |a|..j] == b
  {
    assert forall k :: 0 <= k < |a| ==> blob[i + k] == blob[i..j][k] == a[k];
    assert forall k :: 0 <= k < |b| ==> blob[i + |a| + k] == blob[i..j][|a| + k] == b[k];
  }

  lemma NullTrailAt(blob: Bytes, cursor: nat, b: Bytes)
    requires cursor + |b| < |blob| && blob[cursor..cursor + |b| + 1] == b + [NUL] && NUL !in b
    ensures NullTrail(blob, cursor) == Ok((b, cursor + |b| + 1))
  {
    assert forall i :: cursor <= i < cursor + |b| ==> blob[i] == b[i - cursor];
    assert blob[cursor + |b|] == NUL;
    assert FindNul(blob, cursor) == Some(cursor + |b|);
    assert blob[cursor..cursor + |b|] == b;
  }

  lemma SizedAt(blob: Bytes, cursor: nat, b: Bytes)
    requires |b| < Pow256(4) && cursor + 4 + |b| <= |blob|
    requires blob[cursor..cursor + 4 + |b|] == EncodeBigEndian(|b|, 4) + b
    ensures SizedField(blob, cursor, None) == Ok((b, cursor + 4 + |b|))
  {
    var len := EncodeBigEndian(|b|, 4);
    SplitSlice(blob, cursor, cursor + 4 + |b|, len, b);
    DecodeEncode(|b|, 4);
    assert BigEndian(blob[cursor..cursor + 4]) == |b|;
    assert SizedField(blob, cursor + 4, Some(|b|)) == Ok((b, cursor + 4 + |b|));
  }

  /** Field `k` of a fixed layout written at `cursor` is read back, and decoding goes on just past it. */
  lemma FixedFieldAt(blob: Bytes, types: string, k: nat, b: Bytes, start: nat, size: nat, cursor: nat, next: nat, acc: Entry)
    requires k < |types| && Known(types[k]) && FieldEncodable(types[k], b, k == |types| - 1) && start <= cursor
    requires next == cursor + |EncodeFixedField(types[k], b, k == |types| - 1)| <= |blob|
    requires blob[cursor..next] == EncodeFixedField(types[k], b, k == |types| - 1)
    requires k == |types| - 1 ==> next == start + size
    ensures FixedFrom(blob, types, k, start, size, cursor, acc) == FixedFrom(blob, types, k + 1, start, size, next, acc[types[k] := b])
  {
    var t := types[k];
    if k == |types| - 1 {
      assert SizedField(blob, cursor, Some(size - (cursor - start))) == Ok((b, next));
    } else if t in TextTypes {
      NullTrailAt(blob, cursor, b);
    } else {
      SizedAt(blob, cursor, b);
    }
  }

  lemma {:induction false} FixedRoundTripFrom(blob: Bytes, types: string, fields: seq<Bytes>, k: nat,
                                              start: nat, size: nat, cursor: nat, acc: Entry)
    requires FixedEncodable(types, fields) && k <= |types|
    requires start <= cursor && cursor + |EncodeFixedFrom(types, fields, k)| == start + size <= |blob|
    requires blob[cursor..start + size] == EncodeFixedFrom(types, fields, k)
    ensures FixedFrom(blob, types, k, start, size, cursor, acc) == Ok((FillFrom(types, fields, k, acc), start + size))
    decreases |types| - k
  {
    if k < |types| {
      var next := FixedStep(blob, types, fields, k, start, size, cursor, acc);
      FixedRoundTripFrom(blob, types, fields, k + 1, start, size, next, acc[types[k] := fields[k]]);
    }
  }

  /** Reading field `k` of an encoded fixed window moves the cursor to the encoding of the fields after it. */
  lemma FixedStep(blob: Bytes, types: string, fields: seq<Bytes>, k: nat, start: nat, size: nat, cursor: nat, acc: Entry)
    returns (next: nat)
    requires FixedEncodable(types, fields) && k < |types|
    requires start <= cursor && cursor + |EncodeFixedFrom(types, fields, k)| == start + size <= |blob|
    requires blob[cursor..start + size] == EncodeFixedFrom(types, fields, k)
    ensures start <= next && next + |EncodeFixedFrom(types, fields, k + 1)| == start + size
    ensures blob[next..start + size] == EncodeFixedFrom(types, fields, k + 1)
    ensures FixedFrom(blob, types, k, start, size, cursor, acc) ==
      FixedFrom(blob, types, k + 1, start, size, next, acc[types[k] := fields[k]])
  {
    var t, b, last := types[k], fields[k], k == |types| - 1;
    assert Known(t) && FieldEncodable(t, b, last);
    var chunk := EncodeFixedField(t, b, last);
    var rest := EncodeFixedFrom(types, fields, k + 1);
    assert EncodeFixedFrom(types, fields, k) == chunk + rest;
    next := cursor + |chunk|;
    SplitSlice(blob, cursor, start + size, chunk, rest);
    if last {
      assert rest == [];
    }
    FixedFieldAt(blob, types, k, b, start, size, cursor, next, acc);
  }

  /**
   * Fixed-layout round trip: wherever a window written from one field per
   * type sits in the file, it decodes to those fields under their types,
   * ending exactly at the end of the window.
   */
  lemma FixedRoundTrip(blob: Bytes, types: string, fields: seq<Bytes>, offset: nat)
    requires FixedEncodable(types, fields)
    requires offset + |EncodeFixedFrom(types, fields, 0)| <= |blob|
    requires blob[offset..offset + |EncodeFixedFrom(types, fields, 0)|] == EncodeFixedFrom(types, fields, 0)
    ensures Decode(blob, Fixed(types), offset, |EncodeFixedFrom(types, fields, 0)|)
      == Ok((FillFrom(types, fields, 0, map[]), offset + |EncodeFixedFrom(types, fields, 0)|))
  {
    var size := |EncodeFixedFrom(types, fields, 0)|;
    FixedRoundTripFrom(blob, types, fields, 0, offset, size, offset, map[]);
    DecodeFixedIs(blob, types, offset, size, Ok((FillFrom(types, fields, 0, map[]), offset + size)));
  }

  /** A fixed layout decodes its fields from the start of the window with nothing read yet. */
  lemma DecodeFixedIs(blob: Bytes, types: string, offset: nat, size: nat, r: Result<(Entry, nat), DictError>)
    requires FixedFrom(blob, types, 0, offset, size, offset, map[]) == r
    ensures Decode(blob, Fixed(types), offset, size) == r
  {
  }

  /** A single-type layout gives its one field the whole window. */
  lemma SingleTypeTakesWindow(blob: Bytes, t: char, offset: nat, size: nat)
    requires Known(t) && offset + size <= |blob|
    ensures Decode(blob, Fixed([t]), offset, size) == Ok((map[t := blob[offset..offset + size]], offset + size))
  {
    var b := blob[offset..offset + size];
    assert SizedField(blob, offset, Some(size)) == Ok((b, offset + size));
    assert FixedFrom(blob, [t], 1, offset, size, offset + size, map[t := b]) == Ok((map[t := b], offset + size));
  }

  /** A free-form field the format can carry: its type byte, and a value as that type stores it. */
  predicate FreeEncodable(f: (byte, Bytes))
  {
    if CharOf(f.0) in TextTypes then NUL !in f.1 else |f.1| < Pow256(4)
  }

  function EncodeFreeField(f: (byte, Bytes)): (r: Bytes)
    requires FreeEncodable(f)
    ensures |r| > 0
  {
    [f.0] + (if CharOf(f.0) in TextTypes then f.1 + [NUL] else EncodeBigEndian(|f.1|, 4) + f.1)
  }

  /** The bytes of a free-form window holding `fs`. */
  function EncodeFree(fs: seq<(byte, Bytes)>): Bytes
    requires forall i :: 0 <= i < |fs| ==> FreeEncodable(fs[i])
  {
    if fs == [] then [] else EncodeFreeField(fs[0]) + EncodeFree(fs[1..])
  }

  /** The entry holding `fs` on top of `acc`; a repeated type keeps its last field. */
  function FillFree(fs: seq<(byte, Bytes)>, acc: Entry): Entry
  {
    if fs == [] then acc else FillFree(fs[1..], acc[CharOf(fs[0].0) := fs[0].1])
  }

  /** A free-form field written at `cursor` is read back with its type, and the cursor moves past it. */
  lemma FreeFieldAt(blob: Bytes, f: (byte, Bytes), cursor: nat, next: nat)
    requires FreeEncodable(f)
    requires next == cursor + |EncodeFreeField(f)| <= |blob| && blob[cursor..next] == EncodeFreeField(f)
    ensures FreeField(blob, cursor) == Ok((CharOf(f.0), f.1, next))
  {
    var chunk := EncodeFreeField(f);
    SplitSlice(blob, cursor, next, [f.0], chunk[1..]);
    assert blob[cursor] == f.0;
    if CharOf(f.0) in TextTypes {
      NullTrailAt(blob, cursor + 1, f.1);
    } else {
      SizedAt(blob, cursor + 1, f.1);
    }
  }

  lemma {:induction false} FreeRoundTripFrom(blob: Bytes, fs: seq<(byte, Bytes)>, start: nat, size: nat, cursor: nat, acc: Entry)
    requires forall i :: 0 <= i < |fs| ==> FreeEncodable(fs[i])
    requires start <= cursor && cursor + |EncodeFree(fs)| == start + size <= |blob|
    requires blob[cursor..start + size] == EncodeFree(fs)
    ensures FreeFrom(blob, start, size, cursor, acc) == Ok((FillFree(fs, acc), start + size))
    decreases |fs|
  {
    if fs != [] {
      var f := fs[0];
      var chunk := EncodeFreeField(f);
      var rest := EncodeFree(fs[1..]);
      var next := cursor + |chunk|;
      SplitSlice(blob, cursor, start + size, chunk, rest);
      FreeFieldAt(blob, f, cursor, next);
      FreeRoundTripFrom(blob, fs[1..], start, size, next, acc[CharOf(f.0) := f.1]);
    }
  }

  /**
   * Free-form round trip: a window written as typed fields decodes to those
   * fields under their types, ending exactly at the end of the window.
   */
  lemma FreeRoundTrip(pre: Bytes, fs: seq<(byte, Bytes)>, post: Bytes)
    requires forall i :: 0 <= i < |fs| ==> FreeEncodable(fs[i])
    ensures var window := EncodeFree(fs);
      Decode(pre + window + post, FreeForm, |pre|, |window|) == Ok((FillFree(fs, map[]), |pre| + |window|))
  {
    var window := EncodeFree(fs);
    var blob := pre + window + post;
    assert blob[|pre|..|pre| + |window|] == window;
    FreeRoundTripFrom(blob, fs, |pre|, |window|, |pre|, map[]);
  }

  /** The key under which the metadata names a bundle's fixed field types. */
  const SameTypeSequenceKey := "sametypesequence"

  /** Decoding every window of `ws[..j + 1]` fails with `e`, so decoding all of `ws` fails with `e`. */
  lemma {:induction false} DecodeAllPrefixErr(blob: Bytes, layout: Layout, ws: seq<(nat, nat)>, j: nat, e: DictError)
    requires j < |ws| && DecodeAll(blob, layout, ws[..j + 1]) == Err(e)
    ensures DecodeAll(blob, layout, ws) == Err(e)
    decreases |ws|
  {
    if j + 1 < |ws| {
      var p := ws[..|ws| - 1];
      assert p[..j + 1] == ws[..j + 1];
      DecodeAllPrefixErr(blob, layout, p, j, e);
    } else {
      assert ws[..j + 1] == ws;
    }
  }

  /** Every window of `ws` decodes. */
  predicate AllDecode(blob: Bytes, layout: Layout, ws: seq<(nat, nat)>)
  {
    forall i :: 0 <= i < |ws| ==> Decode(blob, layout, ws[i].0, ws[i].1).Ok?
  }

  /** Some window of `ws` fails to decode with `e`, and every window before it decodes. */
  predicate FirstFailure(blob: Bytes, layout: Layout, ws: seq<(nat, nat)>, e: DictError)
  {
    exists k :: 0 <= k < |ws| && Decode(blob, layout, ws[k].0, ws[k].1) == Err(e) &&
      forall i :: 0 <= i < k ==> Decode(blob, layout, ws[i].0, ws[i].1).Ok?
  }

  /** Decoding a list of windows succeeds exactly when every window decodes, and otherwise fails with the first failure. */
  lemma {:induction false} DecodeAllOk(blob: Bytes, layout: Layout, ws: seq<(nat, nat)>)
    ensures DecodeAll(blob, layout, ws).Ok? <==> AllDecode(blob, layout, ws)
    ensures DecodeAll(blob, layout, ws).Err? ==> FirstFailure(blob, layout, ws, DecodeAll(blob, layout, ws).error)
  {
    if ws != [] {
      var p := ws[..|ws| - 1];
      DecodeAllOk(blob, layout, p);
      if DecodeAll(blob, layout, p).Err? {
        EarlierFailure(blob, layout, ws);
      } else {
        LastWindow(blob, layout, ws);
      }
    }
  }

  /** The step of `DecodeAllOk` where a window before the last one fails. */
  lemma EarlierFailure(blob: Bytes, layout: Layout, ws: seq<(nat, nat)>)
    requires ws != [] && DecodeAll(blob, layout, ws[..|ws| - 1]).Err?
    requires FirstFailure(blob, layout, ws[..|ws| - 1], DecodeAll(blob, layout, ws[..|ws| - 1]).error)
    ensures DecodeAll(blob, layout, ws) == DecodeAll(blob, layout, ws[..|ws| - 1])
    ensures FirstFailure(blob, layout, ws, DecodeAll(blob, layout, ws).error)
  {
    var p := ws[..|ws| - 1];
    var e := DecodeAll(blob, layout, p).error;
    var k :| 0 <= k < |p| && Decode(blob, layout, p[k].0, p[k].1) == Err(e) &&
      forall i :: 0 <= i < k ==> Decode(blob, layout, p[i].0, p[i].1).Ok?;
    assert forall i :: 0 <= i <= k ==> ws[i] == p[i];
  }

  /** The step of `DecodeAllOk` where every window before the last one decodes. */
  lemma LastWindow(blob: Bytes, layout: Layout, ws: seq<(nat, nat)>)
    requires ws != [] && DecodeAll(blob, layout, ws[..|ws| - 1]).Ok? && AllDecode(blob, layout, ws[..|ws| - 1])
    ensures DecodeAll(blob, layout, ws).Ok? <==> AllDecode(blob, layout, ws)
    ensures DecodeAll(blob, layout, ws).Err? ==> FirstFailure(blob, layout, ws, DecodeAll(blob, layout, ws).error)
  {
    var p := ws[..|ws| - 1];
    var n := |ws| - 1;
    assert forall i :: 0 <= i < n ==> ws[i] == p[i];
    var d := Decode(blob, layout, ws[n].0, ws[n].1);
    if d.Err? {
      assert DecodeAll(blob, layout, ws) == Err(d.error);
      assert forall i :: 0 <= i < n ==> Decode(blob, layout, ws[i].0, ws[i].1).Ok?;
    }
  }

  /** Unknown types read nothing: from a position where only unknown types remain, the fields and the cursor stay as they are. */
  lemma {:induction false} UnknownTypesSkipped(blob: Bytes, types: string, k: nat, start: nat, size: nat, cursor: nat, acc: Entry)
    requires k <= |types| && forall j :: k <= j < |types| ==> !Known(types[j])
    ensures FixedFrom(blob, types, k, start, size, cursor, acc) == Ok((acc, cursor))
    decreases |types| - k
  {
    if k < |types| {
      UnknownTypesSkipped(blob, types, k + 1, start, size, cursor, acc);
    }
  }

  /**
   * When the last type is unknown, nothing takes the rest of the window: a
   * text field followed by an unknown type ends the decode just past the
   * text's NUL, leaving `tail` unread.
   */
  lemma UnknownLastLeavesRest(blob: Bytes, t: char, u: char, b: Bytes, tail: Bytes, offset: nat)
    requires t in TextTypes && !Known(u) && NUL !in b
    requires offset + |b| + 1 + |tail| <= |blob| && blob[offset..offset + |b| + 1 + |tail|] == b + [NUL] + tail
    ensures Decode(blob, Fixed([t, u]), offset, |b| + 1 + |tail|) == Ok((map[t := b], offset + |b| + 1))
  {
    SplitSlice(blob, offset, offset + |b| + 1 + |tail|, b + [NUL], tail);
    NullTrailAt(blob, offset, b);
    UnknownTypesSkipped(blob, [t, u], 1, offset, |b| + 1 + |tail|, offset + |b| + 1, map[t := b]);
  }

  /** A successful decode of a list of windows gives one entry per window, in order. */
  lemma {:induction false} DecodeAllEach(blob: Bytes, layout: Layout, ws: seq<(nat, nat)>)
    requires DecodeAll(blob, layout, ws).Ok?
    ensures |DecodeAll(blob, layout, ws).value| == |ws|
    ensures forall i :: 0 <= i < |ws| ==>
      Decode(blob, layout, ws[i].0, ws[i].1).Ok? && Decode(blob, layout, ws[i].0, ws[i].1).value.0 == DecodeAll(blob, layout, ws).value[i]
  {
    if ws != [] {
      var p := ws[..|ws| - 1];
      DecodeAllEach(blob, layout, p);
      assert forall i :: 0 <= i < |p| ==> ws[i] == p[i];
    }
  }

  /** The result of a word lookup: `None` for a word the index lacks, otherwise one entry per hit. */
  function Found(r: Result<seq<Entry>, DictError>): Result<Option<seq<Entry>>, DictError>
  {
    match r
    case Ok(es) => Ok(Some(es))
    case Err(e) => Err(e)
  }

  class DictFileReader {
    const dictFile: Bytes
    const dictIfo: IfoFile.IfoFileReader
    const dictIndex: IdxFile.IdxFileReader
    /** The decoding cursor into `dictFile`. */
    var offset: nat

    constructor (dictFile: Bytes, dictIfo: IfoFile.IfoFileReader, dictIndex: IdxFile.IdxFileReader)
      ensures this.dictFile == dictFile && this.dictIfo == dictIfo && this.dictIndex == dictIndex && offset == 0
    {
      this.dictFile := dictFile;
      this.dictIfo := dictIfo;
      this.dictIndex := dictIndex;
      offset := 0;
    }

    /** The layout the bundle's `sametypesequence` selects. */
    function CurrentLayout(): Layout
      reads dictIfo
    {
      LayoutOf(dictIfo.GetIfo(SameTypeSequenceKey))
    }

    /** Read a text field at the cursor and move past its NUL. */
    method GetEntryFieldNullTrail() returns (r: Result<Bytes, DictError>)
      modifies this`offset
      ensures NullTrail(dictFile, old(offset)).Ok? ==>
        r == Ok(NullTrail(dictFile, old(offset)).value.0) && offset == NullTrail(dictFile, old(offset)).value.1
      ensures NullTrail(dictFile, old(offset)).Err? ==> r == Err(NullTrail(dictFile, old(offset)).error)
    {
      var end := FindNul(dictFile, offset);
      if end.None? {
        return Err(FieldNotTerminated(offset));
      }
      var result := dictFile[offset..end.value];
      offset := end.value + 1;
      return Ok(result);
    }

    /** Read a sized field at the cursor (its length first when none is given) and move past it. */
    method GetEntryFieldSize(size: Option<int>) returns (r: Result<Bytes, DictError>)
      modifies this`offset
      ensures SizedField(dictFile, old(offset), size).Ok? ==>
        r == Ok(SizedField(dictFile, old(offset), size).value.0) && offset == SizedField(dictFile, old(offset), size).value.1
      ensures SizedField(dictFile, old(offset), size).Err? ==> r == Err(SizedField(dictFile, old(offset), size).error)
    {
      var n: int;
      if size.None? {
        if offset + 4 > |dictFile| {
          return Err(LengthTruncated(offset));
        }
        n := BigEndian(dictFile[offset..offset + 4]);
        offset := offset + 4;
      } else {
        n := size.value;
      }
      if n < 0 || offset + n > |dictFile| {
        return Err(FieldTruncated(offset, n));
      }
      var result := dictFile[offset..offset + n];
      offset := offset + n;
      return Ok(result);
    }

    /** Decode a fixed-layout window of `size` bytes starting at the cursor. */
    method GetEntrySameTypeSequence(size: nat) returns (r: Result<Entry, DictError>)
      requires CurrentLayout().Fixed?
      modifies this`offset
      ensures Decode(dictFile, CurrentLayout(), old(offset), size).Ok? ==>
        r == Ok(Decode(dictFile, CurrentLayout(), old(offset), size).value.0) &&
        offset == Decode(dictFile, CurrentLayout(), old(offset), size).value.1
      ensures Decode(dictFile, CurrentLayout(), old(offset), size).Err? ==>
        r == Err(Decode(dictFile, CurrentLayout(), old(offset), size).error)
    {
      var startOffset := offset;
      var result: Entry := map[];
      var types := dictIfo.GetIfo(SameTypeSequenceKey).value;
      for k := 0 to |types|
        invariant startOffset <= offset
        invariant FixedFrom(dictFile, types, 0, startOffset, size, startOffset, map[])
               == FixedFrom(dictFile, types, k, startOffset, size, offset, result)
      {
        var t := types[k];
        if t in TextTypes || t in BinaryTypes {
          var field: Result<Bytes, DictError>;
          if k == |types| - 1 {
            field := GetEntryFieldSize(Some(size - (offset - startOffset)));
          } else if t in TextTypes {
            field := GetEntryFieldNullTrail();
          } else {
            field := GetEntryFieldSize(None);
          }
          if field.Err? {
            return Err(field.error);
          }
          result := result[t := field.value];
        }
      }
      return Ok(result);
    }

    /** Decode a free-form window of `size` bytes starting at the cursor. */
    method GetEntry(size: nat) returns (r: Result<Entry, DictError>)
      modifies this`offset
      ensures Decode(dictFile, FreeForm, old(offset), size).Ok? ==>
        r == Ok(Decode(dictFile, FreeForm, old(offset), size).value.0) &&
        offset == Decode(dictFile, FreeForm, old(offset), size).value.1
      ensures Decode(dictFile, FreeForm, old(offset), size).Err? ==>
        r == Err(Decode(dictFile, FreeForm, old(offset), size).error)
    {
      var result: Entry := map[];
      var readSize := 0;
      var startOffset := offset;
      while readSize < size
        invariant startOffset <= offset && readSize == offset - startOffset
        invariant FreeFrom(dictFile, startOffset, size, startOffset, map[])
               == FreeFrom(dictFile, startOffset, size, offset, result)
        decreases |dictFile| - offset
      {
        if offset >= |dictFile| {
          return Err(TypeMissing(offset));
        }
        var t := CharOf(dictFile[offset]);
        offset := offset + 1;
        var field: Result<Bytes, DictError>;
        if t in TextTypes {
          field := GetEntryFieldNullTrail();
        } else {
          field := GetEntryFieldSize(None);
        }
        if field.Err? {
          return Err(field.error);
        }
        result := result[t := field.value];
        readSize := offset - startOffset;
      }
      return Ok(result);
    }
  
    /**
     * The definitions of `word`: `None` when no index record carries it,
     * otherwise the decoded window of every record carrying it, in file
     * order, or the first decoding failure.
     */
    function DefinitionsByWord(word: Bytes): (r: Result<Option<seq<Entry>>, DictError>)
      reads dictIfo, dictIndex
      ensures r == Ok(None) <==> forall i :: 0 <= i < |dictIndex.indexIdx| ==> dictIndex.indexIdx[i].word != word
      ensures r.Ok? && r.value.Some? ==>
        |r.value.value| == |IdxFile.Windows(dictIndex.indexIdx, word)| &&
        forall k :: 0 <= k < |r.value.value| ==>
          var w := IdxFile.Windows(dictIndex.indexIdx, word)[k];
          Decode(dictFile, CurrentLayout(), w.0, w.1).Ok? &&
          Decode(dictFile, CurrentLayout(), w.0, w.1).value.0 == r.value.value[k]
      ensures r.Err? <==> !AllDecode(dictFile, CurrentLayout(), IdxFile.Windows(dictIndex.indexIdx, word))
      ensures r.Err? ==> FirstFailure(dictFile, CurrentLayout(), IdxFile.Windows(dictIndex.indexIdx, word), r.error)
    {
      var ws := IdxFile.Windows(dictIndex.indexIdx, word);
      IdxFile.WindowsEmptyIffAbsent(dictIndex.indexIdx, word);
      DecodeAllOk(dictFile, CurrentLayout(), ws);
      if ws == [] then Ok(None)
      else
        var d := DecodeAll(dictFile, CurrentLayout(), ws);
        if d.Ok? then DecodeAllEach(dictFile, CurrentLayout(), ws); Found(d) else Found(d)
    }

    /** The definition recorded at position `index` of the index (negative counts from the end). */
    function DefinitionByIndex(index: int): (r: Result<Entry, DictError>)
      reads dictIfo, dictIndex
      ensures dictIndex.GetIndexByNum(index).Err? ==> r == Err(NoSuchIndex(index, |dictIndex.indexIdx|))
      ensures dictIndex.GetIndexByNum(index).Ok? ==>
        var e := dictIndex.GetIndexByNum(index).value;
        (r.Ok? <==> Decode(dictFile, CurrentLayout(), e.offset, e.size).Ok?) &&
        (r.Ok? ==> r.value == Decode(dictFile, CurrentLayout(), e.offset, e.size).value.0)
    {
      match dictIndex.GetIndexByNum(index)
      case Err(_) => Err(NoSuchIndex(index, |dictIndex.indexIdx|))
      case Ok(e) =>
        match Decode(dictFile, CurrentLayout(), e.offset, e.size)
        case Err(err) => Err(err)
        case Ok((entry, _)) => Ok(entry)
    }

    /** Decode the window `(at, size)` under the bundle's layout, leaving the cursor after it. */
    method DecodeWindow(at: nat, size: nat) returns (r: Result<Entry, DictError>)
      modifies this`offset
      ensures Decode(dictFile, CurrentLayout(), at, size).Ok? ==>
        r == Ok(Decode(dictFile, CurrentLayout(), at, size).value.0) &&
        offset == Decode(dictFile, CurrentLayout(), at, size).value.1
      ensures Decode(dictFile, CurrentLayout(), at, size).Err? ==>
        r == Err(Decode(dictFile, CurrentLayout(), at, size).error)
    {
      offset := at;
      var sameTypeSequence := dictIfo.GetIfo(SameTypeSequenceKey);
      if sameTypeSequence.Some? && sameTypeSequence.value != "" {
        r := GetEntrySameTypeSequence(size);
      } else {
        r := GetEntry(size);
      }
    }

    /**
     * Every definition of `word`, one entry per index hit in file order;
     * `None` when the index lacks the word; the first decoding failure
     * otherwise.
     */
    method GetDictByWord(word: Bytes) returns (r: Result<Option<seq<Entry>>, DictError>)
      requires dictIndex.Valid()
      modifies this`offset
      ensures r == DefinitionsByWord(word)
    {
      var indexes := dictIndex.GetIndexByWord(word);
      if indexes.None? {
        return Ok(None);
      }
      var ws := indexes.value;
      var result: seq<Entry> := [];
      for j := 0 to |ws|
        invariant DecodeAll(dictFile, CurrentLayout(), ws[..j]) == Ok(result)
      {
        assert ws[..j + 1][..j] == ws[..j];
        var entry := DecodeWindow(ws[j].0, ws[j].1);
        if entry.Err? {
          DecodeAllPrefixErr(dictFile, CurrentLayout(), ws, j, entry.error);
          IdxFile.WindowsEmptyIffAbsent(dictIndex.indexIdx, word);
          return Err(entry.error);
        }
        result := result + [entry.value];
      }
      assert ws[..|ws|] == ws;
      IdxFile.WindowsEmptyIffAbsent(dictIndex.indexIdx, word);
      return Ok(Some(result));
    }

    /** The definition recorded at position `index` of the `.idx` file (negative counts from the end). */
    method GetDictByIndex(index: int) returns (r: Result<Entry, DictError>)
      modifies this`offset
      ensures r == DefinitionByIndex(index)
    {
      var hit := dictIndex.GetIndexByNum(index);
      if hit.Err? {
        return Err(NoSuchIndex(index, |dictIndex.indexIdx|));
      }
      r := DecodeWindow(hit.value.offset, hit.value.size);
    }
  }
}
