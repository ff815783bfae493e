/** HDFS paths: validation, percent-encoding of single segments (section 2.1 of RFC 3986) and the
    object path built from them.  Strings are their UTF-8 bytes. */
module HdfsPath {
  import opened Basics

  type Bytes = seq<byte>

  const PERCENT: byte := 37
  const DOT: byte := 46
  const SLASH: byte := 47
  const BACKSLASH: byte := 92

  // ---- splitting at slashes -----------------------------------------------------------------------------

  function Split(s: Bytes): (r: seq<Bytes>)
    ensures |r| >= 1
  {
    if s == [] then [[]]
    else
      var rest := Split(s[1..]);
      if s[0] == SLASH then [[]] + rest else [[s[0]] + rest[0]] + rest[1..]
  }

  function Join(segments: seq<Bytes>): Bytes {
    if segments == [] then []
    else if |segments| == 1 then segments[0]
    else segments[0] + [SLASH] + Join(segments[1..])
  }

  predicate Plain(segment: Bytes) {
    SLASH !in segment
  }

  lemma {:induction false} SplitPlain(segment: Bytes)
    requires Plain(segment)
    ensures Split(segment) == [segment]
    decreases |segment|
  {
    if segment != [] {
      SplitPlain(segment[1..]);
      assert segment == [segment[0]] + segment[1..];
    }
  }

  lemma {:induction false} SplitFirst(segment: Bytes, rest: Bytes)
    requires Plain(segment)
    ensures Split(segment + [SLASH] + rest) == [segment] + Split(rest)
    decreases |segment|
  {
    var s := segment + [SLASH] + rest;
    if segment == [] {
      assert s[1..] == rest;
    } else {
      SplitFirst(segment[1..], rest);
      assert s[1..] == segment[1..] + [SLASH] + rest;
      assert segment == [segment[0]] + segment[1..];
    }
  }

  /** Splitting undoes joining. */
  lemma {:induction false} SplitJoin(segments: seq<Bytes>)
    requires segments != [] && forall s | s in segments :: Plain(s)
    ensures Split(Join(segments)) == segments
    decreases |segments|
  {
    if |segments| == 1 {
      SplitPlain(segments[0]);
    } else {
      assert forall s | s in segments[1..] :: s in segments;
      SplitJoin(segments[1..]);
      SplitFirst(segments[0], Join(segments[1..]));
    }
  }

  lemma {:induction false} SegmentsArePlain(s: Bytes)
    ensures forall i | 0 <= i < |Split(s)| :: Plain(Split(s)[i])
    decreases |s|
  {
    if s != [] {
      SegmentsArePlain(s[1..]);
    }
  }

  /** Joining undoes splitting. */
  lemma {:induction false} JoinSplit(s: Bytes)
    ensures Join(Split(s)) == s
    decreases |s|
  {
    if s != [] {
      var rest := Split(s[1..]);
      JoinSplit(s[1..]);
      assert s == [s[0]] + s[1..];
      if s[0] == SLASH {
        assert Split(s)[1..] == rest;
        assert Join(Split(s)) == [] + [SLASH] + Join(rest);
      } else {
        assert Split(s) == [[s[0]] + rest[0]] + rest[1..];
        if |rest| > 1 {
          assert Split(s)[1..] == rest[1..];
          assert Join(Split(s)) == [s[0]] + rest[0] + [SLASH] + Join(rest[1..]);
          assert Join(rest) == rest[0] + [SLASH] + Join(rest[1..]);
          assert Join(Split(s)) == [s[0]] + Join(rest);
        }
      }
    }
  }

  // ---- percent-encoding -----------------------------------------------------------------------------------

  predicate Unreserved(b: byte) {
    65 <= b <= 90 || 97 <= b <= 122 || 48 <= b <= 57 || b == 45 || b == 95 || b == DOT || b == 126
  }

  function HexDigit(n: int): byte
    requires 0 <= n < 16
  {
    if n < 10 then 48 + n else 55 + n
  }

  function HexValue(b: byte): Option<int> {
    if 48 <= b <= 57 then Some(b - 48)
    else if 65 <= b <= 70 then Some(b - 55)
    else if 97 <= b <= 102 then Some(b - 87)
    else None
  }

  function EncodeByte(b: byte): Bytes {
    if Unreserved(b) then [b] else [PERCENT, HexDigit(b / 16), HexDigit(b % 16)]
  }

  function Encode(s: Bytes): Bytes {
    if s == [] then [] else EncodeByte(s[0]) + Encode(s[1..])
  }

  lemma {:induction false} EncodeAppend(s: Bytes, b: byte)
    ensures Encode(s + [b]) == Encode(s) + EncodeByte(b)
    decreases |s|
  {
    if s == [] {
      assert s + [b] == [b] && Encode([b]) == EncodeByte(b) + Encode([b][1..]);
    } else {
      EncodeAppend(s[1..], b);
      assert (s + [b])[1..] == s[1..] + [b];
    }
  }

  /** `percent_encode_segment`. */
  method PercentEncodeSegment(s: Bytes) returns (out: Bytes)
    ensures out == Encode(s)
  {
    out := [];
    for i := 0 to |s|
      invariant out == Encode(s[..i])
    {
      EncodeAppend(s[..i], s[i]);
      assert s[..i + 1] == s[..i] + [s[i]];
      if Unreserved(s[i]) {
        out := out + [s[i]];
      } else {
        out := out + [PERCENT, HexDigit(s[i] / 16), HexDigit(s[i] % 16)];
      }
    }
    assert s[..|s|] == s;
  }

  /** Percent-decoding; None for a stray percent sign. */
  function Decode(s: Bytes): Option<Bytes>
    decreases |s|
  {
    if s == [] then Some([])
    else if s[0] != PERCENT then
      var rest := Decode(s[1..]);
      if rest.None? then None else Some([s[0]] + rest.value)
    else if |s| < 3 || HexValue(s[1]).None? || HexValue(s[2]).None? then None
    else
      var rest := Decode(s[3..]);
      if rest.None? then None else Some([HexValue(s[1]).value * 16 + HexValue(s[2]).value] + rest.value)
  }

  lemma {:induction false} DecodeEncode(s: Bytes)
    ensures Decode(Encode(s)) == Some(s)
    decreases |s|
  {
    if s != [] {
      DecodeEncode(s[1..]);
      var b, rest := s[0], Encode(s[1..]);
      assert s == [b] + s[1..];
      if Unreserved(b) {
        assert ([b] + rest)[1..] == rest;
      } else {
        var e := [PERCENT, HexDigit(b / 16), HexDigit(b % 16)];
        assert HexValue(HexDigit(b / 16)) == Some(b / 16) && HexValue(HexDigit(b % 16)) == Some(b % 16);
        assert (e + rest)[3..] == rest && (e + rest)[1] == e[1] && (e + rest)[2] == e[2];
      }
    }
  }

  /** The unreserved characters of section 2.3 of RFC 3986. */
  ghost predicate UriUnreserved(b: byte) {
    var c := b as char;
    'A' <= c <= 'Z' || 'a' <= c <= 'z' || '0' <= c <= '9' || c == '-' || c == '.' || c == '_' || c == '~'
  }

  lemma EncodeNothing()
    ensures Encode([]) == []
  {
  }

  lemma {:induction false} EncodeConcat(s: Bytes, t: Bytes)
    ensures Encode(s + t) == Encode(s) + Encode(t)
    decreases |t|
  {
    hide Encode, EncodeByte;
    if t == [] {
      EncodeNothing();
      assert s + t == s;
    } else {
      var b := t[|t| - 1];
      EncodeConcat(s, t[..|t| - 1]);
      EncodeAppend(s + t[..|t| - 1], b);
      EncodeAppend(t[..|t| - 1], b);
      assert s + t == (s + t[..|t| - 1]) + [b] && t == t[..|t| - 1] + [b];
    }
  }

  /** Only unreserved characters and percent signs come out, so no slash and no backslash. */
  lemma {:induction false} EncodedIsSafe(s: Bytes)
    ensures forall i | 0 <= i < |Encode(s)| :: UriUnreserved(Encode(s)[i]) || Encode(s)[i] as char == '%'
    ensures Plain(Encode(s)) && BACKSLASH !in Encode(s)
    decreases |s|
  {
    if s != [] {
      EncodedIsSafe(s[1..]);
      var e := EncodeByte(s[0]);
      assert forall i | 0 <= i < |e| :: UriUnreserved(e[i]) || e[i] as char == '%';
    }
  }

  /** A segment of unreserved characters is its own encoding. */
  lemma {:induction false} UnreservedIsKept(s: Bytes)
    requires forall i | 0 <= i < |s| :: UriUnreserved(s[i])
    ensures Encode(s) == s
    decreases |s|
  {
    if s != [] {
      UnreservedIsKept(s[1..]);
      assert s == [s[0]] + s[1..];
    }
  }

  const HEX := "0123456789ABCDEF"

  /** Every other byte becomes a percent sign and its two upper-case hexadecimal digits, wherever it
      stands (section 2.1 of RFC 3986). */
  lemma OtherIsEscaped(s: Bytes, b: byte, t: Bytes)
    requires !UriUnreserved(b)
    ensures Encode(s + [b] + t) == Encode(s) + ['%' as byte, HEX[b / 16] as byte, HEX[b % 16] as byte] + Encode(t)
  {
    EncodeConcat(s + [b], t);
    EncodeAppend(s, b);
    HexDigitIs(b / 16);
    HexDigitIs(b % 16);
  }

  lemma HexDigitIs(n: int)
    requires 0 <= n < 16
    ensures HexDigit(n) == HEX[n] as int
  {
  }

  lemma EncodeIsInjective(s: Bytes, t: Bytes)
    requires Encode(s) == Encode(t)
    ensures s == t
  {
    DecodeEncode(s);
    DecodeEncode(t);
  }

  // ---- validation -------------------------------------------------------------------------------------------

  predicate DotSegment(s: Bytes) {
    s == [DOT] || s == [DOT, DOT]
  }

  predicate ValidChildName(s: Bytes) {
    s != [] && !DotSegment(s) && SLASH !in s && BACKSLASH !in s
  }

  predicate ValidBucket(s: Bytes) {
    ValidChildName(s)
  }

  predicate ValidKey(key: Bytes) {
    forall s | s in Split(key) :: ValidChildName(s)
  }

  /** Which names are accepted, said without the list of exceptions: those that are one non-empty path
      segment, hold no backslash, and survive dot-segment removal. */
  ghost predicate OneSegment(s: Bytes) {
    && s != [] && '\\' as byte !in s
    && Split(s) == [s]
    && RemoveDotSegments([SLASH] + s, []) == [SLASH] + s
  }

  lemma ChildNameIff(s: Bytes)
    ensures ValidChildName(s) <==> OneSegment(s)
  {
    if SLASH in s {
      SegmentsArePlain(s);
      assert Plain(Split(s)[0]);
    } else {
      SplitPlain(s);
      if DotSegment(s) {
        DotsAreRemoved();
      } else {
        assert forall t | t in [s] :: Proper(t);
        NothingToRemove([s], []);
        assert [s][1..] == [] && Absolute([s]) == [SLASH] + s + Absolute([]);
        assert Absolute([s]) == [SLASH] + s && [] + Absolute([s]) == Absolute([s]);
      }
    }
  }

  lemma DotsAreRemoved()
    ensures RemoveDotSegments([SLASH, DOT], []) == [SLASH] && RemoveDotSegments([SLASH, DOT, DOT], []) == [SLASH]
    ensures [SLASH] + [DOT] == [SLASH, DOT] && [SLASH] + [DOT, DOT] == [SLASH, DOT, DOT]
  {
    MovesSegment([], [], []);
    assert [SLASH] + [] + [] == [SLASH] && [] + ([SLASH] + []) == [SLASH];
    assert RemoveDotSegments([], [SLASH]) == [SLASH];
    assert WithoutLast([]) == [];
    NotAPrefix([SLASH, DOT, SLASH], [SLASH, DOT, DOT], 2);
    NotAPrefix([DOT, DOT, SLASH], [SLASH, DOT, DOT], 0);
    NotAPrefix([DOT, SLASH], [SLASH, DOT, DOT], 0);
    NotAPrefix([DOT, SLASH], [SLASH, DOT], 0);
  }

  lemma NotAPrefix(a: Bytes, b: Bytes, i: nat)
    requires i < |a| <= |b| && a[i] != b[i]
    ensures !(a <= b)
  {
  }

  /** `validate_key`: non-empty, relative, no backslash, and no empty or dot segment.  Exactly the keys
      all of whose segments are proper names pass. */
  method ValidateKey(key: Bytes) returns (ok: bool)
    ensures ok <==> ValidKey(key)
  {
    hide Split;
    var segments := Split(key);
    KeySegments(key);
    if key == [] || key[0] == SLASH || BACKSLASH in key {
      BadKey(key);
      return false;
    }
    for i := 0 to |segments|
      invariant forall k | 0 <= k < i :: ValidChildName(segments[k])
    {
      if segments[i] == [] || DotSegment(segments[i]) {
        assert !ValidChildName(segments[i]);
        return false;
      }
      assert BACKSLASH !in segments[i];
    }
    return true;
  }

  lemma BadKey(key: Bytes)
    requires key == [] || key[0] == SLASH || BACKSLASH in key
    ensures !ValidKey(key)
  {
    hide Split;
    KeySegments(key);
    if BACKSLASH in key {
      var i :| 0 <= i < |Split(key)| && BACKSLASH in Split(key)[i];
      assert Split(key)[i] in Split(key) && !ValidChildName(Split(key)[i]);
    } else {
      assert Split(key)[0] in Split(key) && !ValidChildName(Split(key)[0]);
    }
  }

  lemma KeySegments(key: Bytes)
    ensures key == [] || key[0] == SLASH ==> Split(key)[0] == []
    ensures BACKSLASH in key <==> exists i :: 0 <= i < |Split(key)| && BACKSLASH in Split(key)[i]
    ensures BACKSLASH !in key ==> forall i | 0 <= i < |Split(key)| :: BACKSLASH !in Split(key)[i]
    ensures forall i | 0 <= i < |Split(key)| :: SLASH !in Split(key)[i]
  {
    SegmentsArePlain(key);
    BackslashSurvives(key);
  }

  lemma {:induction false} BackslashSurvives(key: Bytes)
    ensures BACKSLASH in key <==> exists i :: 0 <= i < |Split(key)| && BACKSLASH in Split(key)[i]
    decreases |key|
  {
    if key != [] {
      BackslashSurvives(key[1..]);
      var rest, all := Split(key[1..]), Split(key);
      assert key == [key[0]] + key[1..];
      if key[0] == SLASH {
        assert forall i | 0 <= i < |rest| :: all[i + 1] == rest[i];
        assert forall i | 0 < i < |all| :: all[i] == rest[i - 1];
      } else {
        assert all[0] == [key[0]] + rest[0];
        assert forall i | 0 < i < |rest| :: all[i] == rest[i];
        if BACKSLASH in key[1..] {
          var i :| 0 <= i < |rest| && BACKSLASH in rest[i];
          assert BACKSLASH in all[i];
        }
      }
    }
  }

  // ---- object_path --------------------------------------------------------------------------------------------

  function EncodeAll(segments: seq<Bytes>): seq<Bytes> {
    seq(|segments|, i requires 0 <= i < |segments| => Encode(segments[i]))
  }

  lemma EncodedArePlain(segments: seq<Bytes>)
    ensures |EncodeAll(segments)| == |segments| && forall s | s in EncodeAll(segments) :: Plain(s)
  {
    hide Encode;
    forall s | s in EncodeAll(segments)
      ensures Plain(s)
    {
      var i :| 0 <= i < |segments| && EncodeAll(segments)[i] == s;
      EncodedIsSafe(segments[i]);
    }
  }

  function EncodeKeyPath(key: Bytes): Bytes {
    Join(EncodeAll(Split(key)))
  }

  function ObjectPath(bucket: Bytes, key: Bytes): Option<Bytes> {
    if ValidBucket(bucket) && ValidKey(key) then Some([SLASH] + Encode(bucket) + [SLASH] + EncodeKeyPath(key)) else None
  }

  /** Which bucket and key pairs have a path: those made of such names. */
  lemma PathExistsIff(bucket: Bytes, key: Bytes)
    ensures ObjectPath(bucket, key).Some? <==> OneSegment(bucket) && forall s | s in Split(key) :: OneSegment(s)
  {
    hide OneSegment, Split, ValidChildName;
    ChildNameIff(bucket);
    forall s | s in Split(key)
      ensures ValidChildName(s) <==> OneSegment(s)
    {
      ChildNameIff(s);
    }
  }

  /** The path splits at its slashes into an empty segment, the encoded bucket and the encoded segments
      of the key: no segment of the input can add or merge one. */
  lemma PathSegments(bucket: Bytes, key: Bytes)
    requires ObjectPath(bucket, key).Some?
    ensures Split(ObjectPath(bucket, key).value) == [[], Encode(bucket)] + EncodeAll(Split(key))
  {
    hide Split, Join, Encode, ValidBucket, ValidKey, EncodeAll;
    var path := ObjectPath(bucket, key).value;
    var encoded := EncodeAll(Split(key));
    EncodedIsSafe(bucket);
    EncodedArePlain(Split(key));
    SplitJoin(encoded);
    SplitFirst(Encode(bucket), Join(encoded));
    SplitFirst([], Encode(bucket) + [SLASH] + Join(encoded));
    assert path == [] + [SLASH] + (Encode(bucket) + [SLASH] + Join(encoded));
    assert [[]] + ([Encode(bucket)] + encoded) == [[], Encode(bucket)] + encoded;
  }

  /** Splitting and decoding the path gives bucket and key back. */
  lemma PathReadsBack(bucket: Bytes, key: Bytes)
    requires ObjectPath(bucket, key).Some?
    ensures var segments := Split(ObjectPath(bucket, key).value);
            && |segments| == |Split(key)| + 2
            && Decode(segments[1]) == Some(bucket)
            && (forall i | 0 <= i < |Split(key)| :: Decode(segments[i + 2]) == Some(Split(key)[i]))
  {
    PathSegments(bucket, key);
    DecodeEncode(bucket);
    hide Split, Encode, Decode, ObjectPath;
    forall i | 0 <= i < |Split(key)|
      ensures Decode(EncodeAll(Split(key))[i]) == Some(Split(key)[i])
    {
      DecodeEncode(Split(key)[i]);
    }
  }

  /** Different objects have different paths. */
  lemma PathIsInjective(bucket: Bytes, key: Bytes, bucket': Bytes, key': Bytes)
    requires ObjectPath(bucket, key).Some? && ObjectPath(bucket, key) == ObjectPath(bucket', key')
    ensures bucket == bucket' && key == key'
  {
    PathReadsBack(bucket, key);
    PathReadsBack(bucket', key');
    JoinSplit(key);
    JoinSplit(key');
    hide Split, Join, Encode, Decode, ObjectPath;
    var segments := Split(ObjectPath(bucket, key).value);
    forall i | 0 <= i < |Split(key)|
      ensures Split(key)[i] == Split(key')[i]
    {
      assert Decode(segments[i + 2]) == Some(Split(key)[i]) && Decode(segments[i + 2]) == Some(Split(key')[i]);
    }
    assert Split(key) == Split(key');
  }

  // ---- dot segments -----------------------------------------------------------------------------------------

  /** Where the next slash is, not counting the first byte. */
  function SegmentEnd(s: Bytes, from: nat): (i: nat)
    requires from <= |s|
    ensures from <= i <= |s|
    decreases |s| - from
  {
    if from == |s| || s[from] == SLASH then from else SegmentEnd(s, from + 1)
  }

  /** The output buffer without its last segment and the slash before it. */
  function WithoutLast(s: Bytes): Bytes {
    if s == [] then [] else if s[|s| - 1] == SLASH then s[..|s| - 1] else WithoutLast(s[..|s| - 1])
  }

  /** remove_dot_segments, section 5.2.4 of RFC 3986: steps 2A to 2E. */
  function RemoveDotSegments(input: Bytes, output: Bytes): Bytes
    decreases |input|
  {
    if input == [] then output
    else if [DOT, DOT, SLASH] <= input then RemoveDotSegments(input[3..], output)
    else if [DOT, SLASH] <= input then RemoveDotSegments(input[2..], output)
    else if [SLASH, DOT, SLASH] <= input then RemoveDotSegments(input[2..], output)
    else if input == [SLASH, DOT] then RemoveDotSegments([SLASH], output)
    else if [SLASH, DOT, DOT, SLASH] <= input then RemoveDotSegments(input[3..], WithoutLast(output))
    else if input == [SLASH, DOT, DOT] then RemoveDotSegments([SLASH], WithoutLast(output))
    else if DotSegment(input) then output
    else
      var end := SegmentEnd(input, 1);
      RemoveDotSegments(input[end..], output + input[..end])
  }

  /** Every segment of an absolute path, each with its slash. */
  function Absolute(segments: seq<Bytes>): Bytes {
    if segments == [] then [] else [SLASH] + segments[0] + Absolute(segments[1..])
  }

  lemma {:induction false} SegmentEndIs(s: Bytes, from: nat, end: nat)
    requires from <= end <= |s| && (forall k | from <= k < end :: s[k] != SLASH) && (end < |s| ==> s[end] == SLASH)
    ensures SegmentEnd(s, from) == end
    decreases end - from
  {
    if from < end {
      SegmentEndIs(s, from + 1, end);
    }
  }

  ghost predicate Proper(s: Bytes) {
    Plain(s) && !DotSegment(s)
  }

  lemma MovesSegment(segment: Bytes, rest: Bytes, output: Bytes)
    requires Proper(segment) && (rest == [] || rest[0] == SLASH)
    ensures RemoveDotSegments([SLASH] + segment + rest, output) == RemoveDotSegments(rest, output + ([SLASH] + segment))
  {
    var input := [SLASH] + segment + rest;
    var end := 1 + |segment|;
    assert input[0] == SLASH;
    assert forall k | 1 <= k < end :: input[k] == segment[k - 1];
    assert end < |input| ==> input[end] == rest[0];
    SegmentEndIs(input, 1, end);
    NotDotPrefix(segment, rest);
    assert input[end..] == rest && input[..end] == [SLASH] + segment;
  }

  lemma NotDotPrefix(segment: Bytes, rest: Bytes)
    requires Proper(segment) && (rest == [] || rest[0] == SLASH)
    ensures var input := [SLASH] + segment + rest;
            && !([SLASH, DOT, SLASH] <= input) && input != [SLASH, DOT]
            && !([SLASH, DOT, DOT, SLASH] <= input) && input != [SLASH, DOT, DOT]
  {
    var input := [SLASH] + segment + rest;
    if |input| >= 2 && |segment| >= 1 {
      assert input[1] == segment[0];
    }
    if |segment| == 0 && |input| >= 2 {
      assert input[1] == SLASH;
    }
    if |segment| == 1 {
      assert segment == [segment[0]];
      assert |input| > 2 ==> input[2] == SLASH;
    }
    if |segment| >= 2 {
      assert input[2] == segment[1];
      assert segment[1] != SLASH;
      if |segment| == 2 {
        assert segment == [segment[0], segment[1]];
      } else {
        assert input[3] == segment[2] && segment[2] != SLASH;
      }
    }
  }

  lemma {:induction false} NothingToRemove(segments: seq<Bytes>, output: Bytes)
    requires forall s | s in segments :: Proper(s)
    ensures RemoveDotSegments(Absolute(segments), output) == output + Absolute(segments)
    decreases |segments|
  {
    if segments != [] {
      var rest := Absolute(segments[1..]);
      assert forall s | s in segments[1..] :: s in segments;
      MovesSegment(segments[0], rest, output);
      NothingToRemove(segments[1..], output + ([SLASH] + segments[0]));
    }
  }

  lemma {:induction false} JoinIsAbsolute(segments: seq<Bytes>)
    requires segments != []
    ensures [SLASH] + Join(segments) == Absolute(segments)
    decreases |segments|
  {
    if |segments| == 1 {
      assert Absolute(segments[1..]) == [];
      assert Absolute(segments) == [SLASH] + segments[0] + [];
    } else {
      JoinIsAbsolute(segments[1..]);
      assert [SLASH] + Join(segments) == [SLASH] + segments[0] + ([SLASH] + Join(segments[1..]));
    }
  }

  /** Encoding makes no dot segment: one comes out only if one went in. */
  lemma EncodedIsProper(s: Bytes)
    requires !DotSegment(s)
    ensures Proper(Encode(s))
  {
    EncodedIsSafe(s);
    assert Unreserved(DOT);
    assert Encode([DOT]) == [DOT] + Encode([DOT][1..]) == [DOT];
    assert [DOT, DOT][1..] == [DOT];
    assert Encode([DOT, DOT]) == [DOT] + Encode([DOT]) == [DOT, DOT];
    if Encode(s) == [DOT] {
      EncodeIsInjective(s, [DOT]);
    }
    if Encode(s) == [DOT, DOT] {
      EncodeIsInjective(s, [DOT, DOT]);
    }
  }

  /** An object path is a fixed point of dot-segment removal: whatever normalises it on the way cannot
      move it out of its bucket. */
  lemma PathIsNormalised(bucket: Bytes, key: Bytes)
    requires ObjectPath(bucket, key).Some?
    ensures RemoveDotSegments(ObjectPath(bucket, key).value, []) == ObjectPath(bucket, key).value
  {
    hide Split, Encode, Join, RemoveDotSegments;
    var encoded := EncodeAll(Split(key));
    var all := [Encode(bucket)] + encoded;
    EncodedIsProper(bucket);
    forall s | s in encoded
      ensures Proper(s)
    {
      var i :| 0 <= i < |encoded| && encoded[i] == s;
      assert Split(key)[i] in Split(key);
      EncodedIsProper(Split(key)[i]);
    }
    JoinIsAbsolute(encoded);
    assert all[1..] == encoded;
    assert Absolute(all) == [SLASH] + Encode(bucket) + Absolute(encoded);
    assert ObjectPath(bucket, key).value == Absolute(all);
    NothingToRemove(all, []);
    assert [] + Absolute(all) == Absolute(all);
  }
}
