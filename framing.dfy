/**
 * The binary envelope: the magic "EZ", the header length as a 4-byte
 * big-endian unsigned integer, the header bytes, and then the cipher's
 * output. Envelope builds it as `encrypt` yields it; ParseFrame takes it
 * apart with the reads `decrypt` performs.
 */
module Framing {
  import opened Wrappers
  import opened BigEndian
  import opened Errors

  /** The ASCII bytes 'E', 'Z'. */
  const Magic: seq<byte> := [0x45, 0x5A]

  /** Width of the header length field. */
  const LengthFieldSize: nat := 4

  /** Offset of the first header byte. */
  const HeaderOffset: nat := |Magic| + LengthFieldSize

  /** The parts of a parsed envelope: the header bytes and everything after them. */
  datatype Frame = Frame(header: seq<byte>, body: seq<byte>)

  function Min(a: nat, b: nat): nat {
    if a <= b then a else b
  }

  /** What a reader's `read(n)` hands back from input `s`: at most `n` bytes, fewer only at the end. */
  function Prefix(s: seq<byte>, n: nat): (r: seq<byte>)
    ensures |r| <= n && r <= s
    ensures |r| < n ==> r == s
  {
    s[..Min(n, |s|)]
  }

  /** The four chunks `encrypt` yields, concatenated. */
  function Envelope(header: seq<byte>, body: seq<byte>): (r: Result<seq<byte>, Error>)
    ensures r.Success? <==> |header| < Uint32Limit
    ensures r.Failure? ==> r.error == HeaderTooLong
  {
    Pow256Four();
    var lengthField :- ToBytes(|header|, LengthFieldSize).ToResult(HeaderTooLong);
    Success(Magic + lengthField + header + body)
  }

  /**
   * Lines 37-50 and 69 of `decrypt`: check the magic, read and decode the
   * length field, read that many header bytes, and leave the rest as the body.
   */
  function ParseFrame(input: seq<byte>): Result<Frame, Error> {
    var magic := Prefix(input, |Magic|);
    if magic != Magic then Failure(MagicMissing)
    else
      var lengthField := Prefix(input[|Magic|..], LengthFieldSize);
      if |lengthField| != LengthFieldSize then Failure(LengthFieldMissing)
      else
        var headerLength := FromBytes(lengthField);
        if headerLength < 0 then Failure(LengthNegative)
        else
          var header := Prefix(input[HeaderOffset..], headerLength);
          if |header| != headerLength then Failure(HeaderTruncated)
          else Success(Frame(header, input[HeaderOffset + headerLength..]))
  }

  /** The layout of a built envelope, piece by piece, with nothing in between. */
  lemma EnvelopeLayout(header: seq<byte>, body: seq<byte>)
    requires |header| < Uint32Limit
    ensures var e := Envelope(header, body).value;
      && |e| == HeaderOffset + |header| + |body|
      && e[..2] == Magic
      && ToBytes(|header|, 4) == Some(e[2..6])
      && FromBytes(e[2..6]) == |header|
      && e[6..6 + |header|] == header
      && e[6 + |header|..] == body
  {
    Pow256Four();
    var lengthField := ToBytes(|header|, 4).value;
    var e := Envelope(header, body).value;
    assert e == Magic + lengthField + header + body;
    assert e[2..6] == lengthField;
  }

  /** Parsing a built envelope passes every check and recovers the header and body exactly. */
  lemma ParseEnvelope(header: seq<byte>, body: seq<byte>)
    requires |header| < Uint32Limit
    ensures ParseFrame(Envelope(header, body).value) == Success(Frame(header, body))
  {
    EnvelopeLayout(header, body);
    var e := Envelope(header, body).value;
    assert Prefix(e, 2) == e[..2];
    assert Prefix(e[2..], 4) == e[2..6];
    FromBytesNonNegative(e[2..6]);
    assert Prefix(e[6..], |header|) == e[6..6 + |header|];
  }

  /** Anything ParseFrame accepts is exactly the envelope of what it returns. */
  lemma ParseFrameSound(input: seq<byte>)
    requires ParseFrame(input).Success?
    ensures var f := ParseFrame(input).value;
      && |f.header| < Uint32Limit
      && HeaderOffset + |f.header| <= |input|
      && Envelope(f.header, f.body) == Success(input)
  {
    var f := ParseFrame(input).value;
    var lengthField := input[2..6];
    assert Prefix(input[2..], 4) == lengthField;
    ToBytesFromBytes(lengthField);
    Pow256Four();
    assert |f.header| == FromBytes(lengthField);
    assert input == input[..2] + lengthField + f.header + f.body;
  }

  /** "magic header missing" is raised exactly when the input does not begin with "EZ", short inputs included. */
  lemma MagicChecked(input: seq<byte>)
    ensures ParseFrame(input) == Failure(MagicMissing) <==> |input| < 2 || input[..2] != Magic
  {
  }

  /** "header length field missing" is raised exactly when "EZ" is followed by fewer than 4 bytes. */
  lemma LengthFieldChecked(input: seq<byte>)
    ensures ParseFrame(input) == Failure(LengthFieldMissing)
        <==> |input| >= 2 && input[..2] == Magic && |input| < HeaderOffset
  {
  }

  /** The "header length is negative" branch is unreachable: an unsigned decode is never negative. */
  lemma HeaderLengthNeverNegative(input: seq<byte>)
    ensures ParseFrame(input) != Failure(LengthNegative)
  {
    if |input| >= HeaderOffset {
      FromBytesNonNegative(Prefix(input[2..], 4));
    }
  }

  /**
   * "reached EOF while reading header" is raised exactly when the framing
   * checks before it pass and fewer bytes than the declared length remain
   * after offset 6.
   */
  lemma HeaderTruncationChecked(input: seq<byte>)
    ensures ParseFrame(input) == Failure(HeaderTruncated)
        <==> && |input| >= HeaderOffset && input[..2] == Magic
             && |input| - HeaderOffset < FromBytes(input[2..6])
  {
    if |input| >= HeaderOffset {
      assert Prefix(input, 2) == input[..2];
      assert Prefix(input[2..], 4) == input[2..6];
      FromBytesNonNegative(input[2..6]);
    }
  }
}
