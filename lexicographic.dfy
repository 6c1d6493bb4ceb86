/**
 * Python's ordering of `str` and `bytes` values, which `sorted` uses: compare
 * code by code, the first difference decides, and a proper prefix sorts first.
 * Both kinds of value are compared through their sequence of codes. UTF-8
 * preserves code-point order, so ordering decoded words and ordering their
 * bytes agree.
 */
module Lexicographic {
  import opened ByteCodec

  /** `a < b` in Python's sense. */
  predicate Less(a: seq<int>, b: seq<int>)
  {
    if a == [] then b != []
    else if b == [] then false
    else if a[0] != b[0] then a[0] < b[0]
    else Less(a[1..], b[1..])
  }

  lemma {:induction false} LessIrreflexive(a: seq<int>)
    ensures !Less(a, a)
  {
    if a != [] { LessIrreflexive(a[1..]); }
  }

  lemma {:induction false} LessTransitive(a: seq<int>, b: seq<int>, c: seq<int>)
    requires Less(a, b) && Less(b, c)
    ensures Less(a, c)
  {
    if a != [] && b != [] && c != [] && a[0] == b[0] == c[0] {
      LessTransitive(a[1..], b[1..], c[1..]);
    }
  }

  /** Any two distinct values are ordered one way or the other, never both. */
  lemma {:induction false} LessTrichotomy(a: seq<int>, b: seq<int>)
    ensures a == b || Less(a, b) || Less(b, a)
    ensures !(Less(a, b) && Less(b, a))
  {
    if a != [] && b != [] && a[0] == b[0] {
      LessTrichotomy(a[1..], b[1..]);
      if a[1..] == b[1..] {
        assert a == [a[0]] + a[1..] && b == [b[0]] + b[1..];
      }
    }
  }

  /** The code points of a string. */
  function StrCodes(s: string): (r: seq<int>)
    ensures |r| == |s|
    ensures forall i :: 0 <= i < |s| ==> r[i] == s[i] as int
  {
    seq(|s|, i requires 0 <= i < |s| => s[i] as int)
  }

  /** The byte values of a byte string. */
  function ByteCodes(b: Bytes): (r: seq<int>)
    ensures |r| == |b|
    ensures forall i :: 0 <= i < |b| ==> r[i] == b[i] as int
  {
    seq(|b|, i requires 0 <= i < |b| => b[i] as int)
  }

  /** Distinct strings have distinct codes, so string order is a total order on strings. */
  lemma StrCodesInjective(a: string, b: string)
    ensures StrCodes(a) == StrCodes(b) <==> a == b
  {
    if StrCodes(a) == StrCodes(b) {
      assert |a| == |b|;
      forall i | 0 <= i < |a| ensures a[i] == b[i] {
        assert StrCodes(a)[i] == StrCodes(b)[i];
      }
    }
  }

  /** Distinct byte strings have distinct codes, so byte-string order is a total order on byte strings. */
  lemma ByteCodesInjective(a: Bytes, b: Bytes)
    ensures ByteCodes(a) == ByteCodes(b) <==> a == b
  {
    if ByteCodes(a) == ByteCodes(b) {
      assert |a| == |b|;
      forall i | 0 <= i < |a| ensures a[i] == b[i] {
        assert ByteCodes(a)[i] == ByteCodes(b)[i];
      }
    }
  }
}
