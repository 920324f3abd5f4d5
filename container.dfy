/**
 * The save-file container (legilimens.py, SaveReader.__enter__): a GVAS file
 * that embeds the game's SQLite database image after the ASCII marker
 * "RawDatabaseImage". Extraction works on the whole file held in memory and
 * mirrors Python's semantics: `bytes.index` finds the first occurrence,
 * slicing clamps to the end of the data, and `int.from_bytes(b'')` is 0.
 */
module Container {
  import opened Results

  newtype byte = b: int | 0 <= b < 256

  /** "GVAS" in ASCII. */
  const Magic: seq<byte> := [71, 86, 65, 83]

  /** "RawDatabaseImage" in ASCII. */
  const Marker: seq<byte> := [82, 97, 119, 68, 97, 116, 97, 98, 97, 115, 101, 73, 109, 97, 103, 101]

  /** Distance from the start of the marker to the first byte of the image. */
  const ImageOffset: nat := 65

  /** The image length is stored in the bytes just before the image. */
  const LengthFieldSize: nat := 4

  /** Bytes between the end of the marker and the length field. */
  const MetadataSize: nat := ImageOffset - |Marker| - LengthFieldSize

  /** The two ways the container layout can be rejected. */
  datatype FormatError = MagicNotFound | MarkerNotFound

  function Min(a: int, b: int): int { if a <= b then a else b }

  function Max(a: int, b: int): int { if a <= b then b else a }

  predicate StartsWith(s: seq<byte>, prefix: seq<byte>) {
    |prefix| <= |s| && s[..|prefix|] == prefix
  }

  predicate OccursAt(s: seq<byte>, pat: seq<byte>, i: nat) {
    i + |pat| <= |s| && s[i..i + |pat|] == pat
  }

  /** p is where `pat` first occurs in `s`. */
  predicate IsFirstOccurrence(s: seq<byte>, pat: seq<byte>, p: nat) {
    OccursAt(s, pat, p) && forall j: nat :: j < p ==> !OccursAt(s, pat, j)
  }

  /** Search for `pat` in `s` from position `from` on, knowing it does not occur earlier. */
  function IndexFrom(s: seq<byte>, pat: seq<byte>, from: nat): (r: Option<nat>)
    requires forall j: nat :: j < from ==> !OccursAt(s, pat, j)
    ensures r.Some? ==> IsFirstOccurrence(s, pat, r.value)
    ensures r.None? ==> forall j: nat :: !OccursAt(s, pat, j)
    decreases |s| + 1 - from
  {
    if from + |pat| > |s| then None
    else if s[from..from + |pat|] == pat then Some(from)
    else IndexFrom(s, pat, from + 1)
  }

  /** `bytes.index` without the exception: the first occurrence of `pat`, if any. */
  function IndexOf(s: seq<byte>, pat: seq<byte>): (r: Option<nat>)
    ensures r.Some? ==> IsFirstOccurrence(s, pat, r.value)
    ensures r.None? <==> forall j: nat :: !OccursAt(s, pat, j)
  {
    IndexFrom(s, pat, 0)
  }

  lemma FirstOccurrenceUnique(s: seq<byte>, pat: seq<byte>, p: nat, q: nat)
    requires IsFirstOccurrence(s, pat, p) && IsFirstOccurrence(s, pat, q)
    ensures p == q
  {
  }

  /** Python's `s[a:b]` for non-negative bounds: never fails, clamps to the end of `s`. */
  function PySlice(s: seq<byte>, a: nat, b: nat): (r: seq<byte>)
    ensures |r| == Max(0, Min(b, |s|) - a)
    ensures forall k :: 0 <= k < |r| ==> r[k] == s[a + k]
  {
    if |s| <= a || b <= a then [] else s[a..Min(b, |s|)]
  }

  function Pow256(k: nat): (r: nat)
    ensures r > 0
  {
    if k == 0 then 1 else 256 * Pow256(k - 1)
  }

  /** `int.from_bytes(bs, byteorder='little')`; the empty sequence gives 0. */
  function LittleEndian(bs: seq<byte>): nat {
    if bs == [] then 0 else bs[0] as nat + 256 * LittleEndian(bs[1..])
  }

  /** The inverse of LittleEndian for a fixed width. */
  function EncodeLittleEndian(n: nat, width: nat): (bs: seq<byte>)
    requires n < Pow256(width)
    ensures |bs| == width
  {
    if width == 0 then [] else [(n % 256) as byte] + EncodeLittleEndian(n / 256, width - 1)
  }

  lemma {:induction false} LittleEndianBound(bs: seq<byte>)
    ensures LittleEndian(bs) < Pow256(|bs|)
  {
    if bs != [] {
      LittleEndianBound(bs[1..]);
      assert LittleEndian(bs[1..]) + 1 <= Pow256(|bs| - 1);
      assert 256 * (LittleEndian(bs[1..]) + 1) <= 256 * Pow256(|bs| - 1);
    }
  }

  lemma {:induction false} Pow256Monotone(i: nat, j: nat)
    requires i <= j
    ensures Pow256(i) <= Pow256(j)
    decreases j
  {
    if i < j {
      Pow256Monotone(i, j - 1);
    }
  }

  /** The length field, even when cut short by the end of the data, holds less than 2^32. */
  lemma FieldBound(data: seq<byte>, start: nat)
    requires start >= LengthFieldSize
    ensures LittleEndian(PySlice(data, start - LengthFieldSize, start)) < Pow256(LengthFieldSize)
  {
    var field := PySlice(data, start - LengthFieldSize, start);
    LittleEndianBound(field);
    Pow256Monotone(|field|, LengthFieldSize);
  }

  lemma {:induction false} DecodeEncode(n: nat, width: nat)
    requires n < Pow256(width)
    ensures LittleEndian(EncodeLittleEndian(n, width)) == n
  {
    if width > 0 {
      assert n / 256 < Pow256(width - 1);
      DecodeEncode(n / 256, width - 1);
      var bs := EncodeLittleEndian(n, width);
      assert bs[1..] == EncodeLittleEndian(n / 256, width - 1);
    }
  }

  lemma {:induction false} EncodeDecode(bs: seq<byte>)
    ensures LittleEndian(bs) < Pow256(|bs|)
    ensures EncodeLittleEndian(LittleEndian(bs), |bs|) == bs
  {
    LittleEndianBound(bs);
    if bs != [] {
      EncodeDecode(bs[1..]);
      var n := LittleEndian(bs);
      assert n % 256 == bs[0] as nat;
      assert n / 256 == LittleEndian(bs[1..]);
    }
  }

  /**
   * SaveReader.__enter__ up to the point where the image is written out:
   * the magic header check, the marker search and the length-prefixed slice.
   */
  function Extract(data: seq<byte>): (r: Result<seq<byte>, FormatError>)
    ensures r.Success? ==> |r.value| < Pow256(LengthFieldSize)
  {
    if !StartsWith(data, Magic) then Failure(MagicNotFound)
    else match IndexOf(data, Marker)
      case None => Failure(MarkerNotFound)
      case Some(p) =>
        var start := p + ImageOffset;
        FieldBound(data, start);
        var size := LittleEndian(PySlice(data, start - LengthFieldSize, start));
        Success(PySlice(data, start, start + size))
  }

  /** The two errors: no GVAS magic at the start, or no marker anywhere after a good magic. */
  lemma ExtractErrors(data: seq<byte>)
    ensures Extract(data) == Failure(MagicNotFound) <==> !StartsWith(data, Magic)
    ensures Extract(data) == Failure(MarkerNotFound) <==>
              StartsWith(data, Magic) && forall j: nat :: !OccursAt(data, Marker, j)
  {
  }

  /** Extraction once the header and the first marker occurrence `p` are known. */
  lemma ExtractAt(data: seq<byte>, p: nat)
    requires StartsWith(data, Magic) && IsFirstOccurrence(data, Marker, p)
    ensures Extract(data) ==
              Success(PySlice(data, p + ImageOffset,
                              p + ImageOffset + LittleEndian(PySlice(data, p + ImageOffset - LengthFieldSize, p + ImageOffset))))
  {
    var q := IndexOf(data, Marker);
    assert q.Some?;
    FirstOccurrenceUnique(data, Marker, p, q.value);
  }

  /**
   * Where the image comes from: for the first marker occurrence p, the length L
   * is read from the (clamped) bytes [p+61, p+65), and the image is the
   * (clamped) bytes [p+65, p+65+L).
   */
  lemma ExtractLayout(data: seq<byte>, p: nat)
    requires StartsWith(data, Magic) && IsFirstOccurrence(data, Marker, p)
    ensures var start := p + ImageOffset;
            var size := LittleEndian(PySlice(data, start - LengthFieldSize, start));
            var r := Extract(data);
            && size < Pow256(LengthFieldSize)
            && r.Success?
            && |r.value| == Min(size, Max(0, |data| - start))
            && forall k :: 0 <= k < |r.value| ==> r.value[k] == data[start + k]
  {
    var start := p + ImageOffset;
    var size := LittleEndian(PySlice(data, start - LengthFieldSize, start));
    ExtractWith(data, p, size);
    FieldBound(data, start);
  }

  /** A marker that starts inside `header` and ends inside the marker itself cannot occur: no proper suffix of the marker is a prefix of it. */
  lemma MarkerFirstAfter(header: seq<byte>, rest: seq<byte>)
    requires forall j: nat :: !OccursAt(header, Marker, j)
    ensures IsFirstOccurrence(header + Marker + rest, Marker, |header|)
  {
    var s := header + Marker + rest;
    assert s[|header|..|header| + |Marker|] == Marker;
    forall j: nat | j < |header|
      ensures !OccursAt(s, Marker, j)
    {
      if j + |Marker| <= |header| {
        assert !OccursAt(header, Marker, j);
        assert s[j..j + |Marker|] == header[j..j + |Marker|];
      } else {
        var k := |header| - j;
        assert s[j + k] == Marker[0] != Marker[k];
        assert j + |Marker| <= |s| ==> s[j..j + |Marker|][k] == s[j + k];
      }
    }
  }

  /** A well-formed container: header (starting with GVAS), marker, metadata, length field, image, anything. */
  function Frame(header: seq<byte>, metadata: seq<byte>, image: seq<byte>, trailer: seq<byte>): seq<byte>
    requires |image| < Pow256(LengthFieldSize)
  {
    header + Marker + metadata + EncodeLittleEndian(|image|, LengthFieldSize) + image + trailer
  }

  lemma PySliceWithin(s: seq<byte>, a: nat, b: nat)
    requires a <= b <= |s|
    ensures PySlice(s, a, b) == s[a..b]
  {
  }

  lemma MiddleOf(p: seq<byte>, x: seq<byte>, q: seq<byte>)
    ensures (p + x + q)[|p|..|p| + |x|] == x
  {
  }

  /** The header and the marker of a framed container are where they should be. */
  lemma FrameMarker(header: seq<byte>, rest: seq<byte>)
    requires StartsWith(header, Magic)
    requires forall j: nat :: !OccursAt(header, Marker, j)
    ensures StartsWith(header + Marker + rest, Magic)
    ensures IsFirstOccurrence(header + Marker + rest, Marker, |header|)
  {
    assert (header + Marker + rest)[..|Magic|] == header[..|Magic|];
    MarkerFirstAfter(header, rest);
  }

  /** The length field of a framed container holds the image length. */
  lemma FrameLength(prefix: seq<byte>, n: nat, rest: seq<byte>)
    requires n < Pow256(LengthFieldSize)
    ensures var data := prefix + EncodeLittleEndian(n, LengthFieldSize) + rest;
            LittleEndian(PySlice(data, |prefix|, |prefix| + LengthFieldSize)) == n
  {
    var field := EncodeLittleEndian(n, LengthFieldSize);
    MiddleOf(prefix, field, rest);
    PySliceWithin(prefix + field + rest, |prefix|, |prefix| + LengthFieldSize);
    DecodeEncode(n, LengthFieldSize);
  }

  /** Extraction once the header, the first marker occurrence `p` and the length `n` in its field are known. */
  lemma ExtractWith(data: seq<byte>, p: nat, n: nat)
    requires StartsWith(data, Magic) && IsFirstOccurrence(data, Marker, p)
    requires LittleEndian(PySlice(data, p + ImageOffset - LengthFieldSize, p + ImageOffset)) == n
    ensures Extract(data) == Success(PySlice(data, p + ImageOffset, p + ImageOffset + n))
  {
    ExtractAt(data, p);
  }

  /**
   * The layout of a framed container up to its image: it starts with the
   * magic, the marker first occurs right after the header, and the length
   * field holds `n`.
   */
  lemma FrameLayout(header: seq<byte>, metadata: seq<byte>, n: nat, rest: seq<byte>)
    requires StartsWith(header, Magic)
    requires forall j: nat :: !OccursAt(header, Marker, j)
    requires |metadata| == MetadataSize
    requires n < Pow256(LengthFieldSize)
    ensures var data := header + Marker + metadata + EncodeLittleEndian(n, LengthFieldSize) + rest;
            && StartsWith(data, Magic)
            && IsFirstOccurrence(data, Marker, |header|)
            && LittleEndian(PySlice(data, |header| + ImageOffset - LengthFieldSize, |header| + ImageOffset)) == n
  {
    var field := EncodeLittleEndian(n, LengthFieldSize);
    var prefix := header + Marker + metadata;
    var data := prefix + field + rest;
    assert |prefix| == |header| + ImageOffset - LengthFieldSize;
    assert data == header + Marker + (metadata + field + rest);
    FrameMarker(header, metadata + field + rest);
    FrameLength(prefix, n, rest);
  }

  /** Extraction recovers exactly the framed image, whatever follows it. */
  lemma ExtractFrame(header: seq<byte>, metadata: seq<byte>, image: seq<byte>, trailer: seq<byte>)
    requires StartsWith(header, Magic)
    requires forall j: nat :: !OccursAt(header, Marker, j)
    requires |metadata| == MetadataSize
    requires |image| < Pow256(LengthFieldSize)
    ensures Extract(Frame(header, metadata, image, trailer)) == Success(image)
  {
    var front := header + Marker + metadata + EncodeLittleEndian(|image|, LengthFieldSize);
    var data := Frame(header, metadata, image, trailer);
    assert data == front + (image + trailer);
    FrameLayout(header, metadata, |image|, image + trailer);
    ExtractWith(data, |header|, |image|);
    MiddleOf(front, image, trailer);
    PySliceWithin(data, |front|, |front| + |image|);
  }

  /** A framed container cut `n` bytes into its image. */
  lemma TruncatedFrame(header: seq<byte>, metadata: seq<byte>, image: seq<byte>, n: nat)
    requires |metadata| == MetadataSize
    requires |image| < Pow256(LengthFieldSize)
    requires n <= |image|
    ensures Frame(header, metadata, image, [])[..|header| + ImageOffset + n] ==
              header + Marker + metadata + EncodeLittleEndian(|image|, LengthFieldSize) + image[..n]
  {
    var front := header + Marker + metadata + EncodeLittleEndian(|image|, LengthFieldSize);
    assert Frame(header, metadata, image, []) == front + image + [];
    assert front + image + [] == front + image;
    assert |front| == |header| + ImageOffset;
    PrefixOfAppend(front, image, n);
  }

  lemma PrefixOfAppend(a: seq<byte>, b: seq<byte>, n: nat)
    requires n <= |b|
    ensures (a + b)[..|a| + n] == a + b[..n]
  {
  }

  /** Extraction when the data ends inside the image: the image is clamped to the bytes that are there. */
  lemma ExtractClamped(data: seq<byte>, p: nat, n: nat)
    requires StartsWith(data, Magic) && IsFirstOccurrence(data, Marker, p)
    requires LittleEndian(PySlice(data, p + ImageOffset - LengthFieldSize, p + ImageOffset)) == n
    requires p + ImageOffset <= |data| <= p + ImageOffset + n
    ensures Extract(data) == Success(data[p + ImageOffset..])
  {
    ExtractWith(data, p, n);
    assert PySlice(data, p + ImageOffset, p + ImageOffset + n) == data[p + ImageOffset..];
  }

  /** A container cut short inside the image still extracts: the image is clamped to what is there. */
  lemma ExtractTruncated(header: seq<byte>, metadata: seq<byte>, image: seq<byte>, n: nat)
    requires StartsWith(header, Magic)
    requires forall j: nat :: !OccursAt(header, Marker, j)
    requires |metadata| == MetadataSize
    requires |image| < Pow256(LengthFieldSize)
    requires n <= |image|
    ensures Extract(Frame(header, metadata, image, [])[..|header| + ImageOffset + n]) == Success(image[..n])
  {
    var front := header + Marker + metadata + EncodeLittleEndian(|image|, LengthFieldSize);
    var data := front + image[..n];
    TruncatedFrame(header, metadata, image, n);
    FrameLayout(header, metadata, |image|, image[..n]);
    assert |front| == |header| + ImageOffset;
    ExtractClamped(data, |header|, |image|);
    assert data[|front|..] == image[..n];
    assert Extract(data) == Success(image[..n]);
  }
}
