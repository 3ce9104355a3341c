/** Canonical envelopes: the byte buffer that encoders extend, the cursor-based
    decoder, and the functions on byte strings that specify both. */
module Wire {
  import opened Bits
  import opened Nibbles
  import opened Messages

  datatype WireError =
    | InvalidEncoding | WrongArtifact | WrongParameterSet | WrongIssuer
    | TooLarge | InvalidCredential | UnsupportedVersion

  datatype Result<+T> = Success(value: T) | Failure(error: WireError) {
    predicate IsFailure() {
      Failure?
    }

    function PropagateFailure<U>(): (r: Result<U>)
      requires Failure?
    {
      Failure(error)
    }

    function Extract(): (r: T)
      requires Success?
    {
      value
    }
  }

  const WIRE_VERSION: bv8 := 1
  const MAX_WIRE_BYTES: nat := 32 * 1024 * 1024

  function Magic(): (bytes: seq<bv8>)
    ensures |bytes| == 4
  {
    Ascii("VARC")
  }

  function HeaderBytes(artifact: bv8, parameterSet: bv8): (bytes: seq<bv8>)
    ensures |bytes| == 9
  {
    Magic() + [WIRE_VERSION, artifact, parameterSet, 0, 0]
  }

  /** A byte string preceded by its 32-bit length. */
  function Framed(bytes: seq<bv8>): (r: seq<bv8>)
    requires |bytes| < 0x1_0000_0000
  {
    LeBytes(|bytes|, 4) + bytes
  }

  class ByteBuffer {
    var bytes: seq<bv8>

    constructor ()
      ensures bytes == []
    {
      bytes := [];
    }

    method Extend(more: seq<bv8>)
      modifies this
      ensures bytes == old(bytes) + more
    {
      bytes := bytes + more;
    }

    method Header(artifact: bv8, parameterSet: bv8)
      modifies this
      ensures bytes == old(bytes) + HeaderBytes(artifact, parameterSet)
    {
      Extend(Magic());
      Extend([WIRE_VERSION]);
      Extend([artifact, parameterSet, 0, 0]);
      assert old(bytes) + Magic() + [WIRE_VERSION] + [artifact, parameterSet, 0, 0]
          == old(bytes) + HeaderBytes(artifact, parameterSet);
    }

    method PutBytes(more: seq<bv8>)
      requires |more| < 0x1_0000_0000
      modifies this
      ensures bytes == old(bytes) + Framed(more)
    {
      Extend(LeBytes(|more|, 4));
      Extend(more);
    }
  }

  // ----- Parsing: a value and the rest of the input

  type Parse<T> = Result<(T, seq<bv8>)>

  function ParseTake(input: seq<bv8>, length: nat): (r: Parse<seq<bv8>>) {
    if length <= |input| then Success((input[..length], input[length..])) else Failure(InvalidEncoding)
  }

  function ParseU32(input: seq<bv8>): (r: Parse<U32>) {
    var (bytes, rest) :- ParseTake(input, 4);
    Success((NumberOf(bytes), rest))
  }

  function NumberOf(bytes: seq<bv8>): (n: U32)
    requires |bytes| == 4
  {
    assert OfLeBytes(bytes) < 0x1_0000_0000 by { Pow2Of32(); }
    OfLeBytes(bytes)
  }

  function ParseDigest(input: seq<bv8>): (r: Parse<Digest>) {
    var (bytes, rest) :- ParseTake(input, 32);
    Success((bytes, rest))
  }

  function ParseFramed(input: seq<bv8>): (r: Parse<seq<bv8>>) {
    var (length, rest) :- ParseU32(input);
    ParseTake(rest, length)
  }

  function ParseNibbles(input: seq<bv8>, count: nat): (r: Parse<seq<bv4>>) {
    var (bytes, rest) :- ParseTake(input, (count + 1) / 2);
    if Canonical(bytes, count) then Success((Unpack(bytes, count), rest)) else Failure(InvalidEncoding)
  }

  /** The checks of a new decoder, in the order the source makes them. */
  function ParseHeader(input: seq<bv8>, artifact: bv8, parameterSet: bv8): (r: Result<seq<bv8>>) {
    if |input| > MAX_WIRE_BYTES then Failure(TooLarge) else
      var (magic, rest) :- ParseTake(input, 4);
      if magic != Magic() then Failure(InvalidEncoding) else
        var (version, rest) :- ParseTake(rest, 1);
        if version[0] != WIRE_VERSION then Failure(UnsupportedVersion) else
          var (actual, rest) :- ParseTake(rest, 4);
          if actual[0] != artifact then Failure(WrongArtifact)
          else if actual[1] != parameterSet then Failure(WrongParameterSet)
          else if actual[2..] != [0, 0] then Failure(InvalidEncoding)
          else Success(rest)
  }

  // ----- The decoder

  class Decoder {
    const input: seq<bv8>
    var offset: nat

    predicate Valid()
      reads this
    {
      offset <= |input|
    }

    function Rest(): (bytes: seq<bv8>)
      reads this
      requires Valid()
    {
      input[offset..]
    }

    constructor (input: seq<bv8>)
      ensures Valid() && this.input == input && Rest() == input
    {
      this.input := input;
      offset := 0;
    }

    method Take(length: nat) returns (r: Result<seq<bv8>>)
      requires Valid()
      modifies this
      ensures Valid()
      ensures match ParseTake(old(Rest()), length)
              case Success((bytes, rest)) => r == Success(bytes) && Rest() == rest
              case Failure(e) => r == Failure(e) && Rest() == old(Rest())
    {
      var end := offset + length;
      if end > |input| {
        return Failure(InvalidEncoding);
      }
      var output := input[offset..end];
      assert output == input[offset..][..length];
      assert input[end..] == input[offset..][length..];
      offset := end;
      r := Success(output);
    }

    method TakeU32() returns (r: Result<U32>)
      requires Valid()
      modifies this
      ensures Valid()
      ensures match ParseU32(old(Rest()))
              case Success((n, rest)) => r == Success(n) && Rest() == rest
              case Failure(e) => r == Failure(e)
    {
      var bytes :- Take(4);
      r := Success(NumberOf(bytes));
    }

    method TakeDigest() returns (r: Result<Digest>)
      requires Valid()
      modifies this
      ensures Valid()
      ensures match ParseDigest(old(Rest()))
              case Success((d, rest)) => r == Success(d) && Rest() == rest
              case Failure(e) => r == Failure(e)
    {
      var bytes :- Take(32);
      r := Success(bytes);
    }

    method TakeFramed() returns (r: Result<seq<bv8>>)
      requires Valid()
      modifies this
      ensures Valid()
      ensures match ParseFramed(old(Rest()))
              case Success((bytes, rest)) => r == Success(bytes) && Rest() == rest
              case Failure(e) => r == Failure(e)
    {
      var length :- TakeU32();
      r := Take(length);
    }

    method TakeNibbles(count: nat) returns (r: Result<seq<bv4>>)
      requires Valid()
      modifies this
      ensures Valid()
      ensures match ParseNibbles(old(Rest()), count)
              case Success((values, rest)) => r == Success(values) && Rest() == rest
              case Failure(e) => r == Failure(e)
    {
      var byteLength := (count + 1) / 2;
      var bytes :- Take(byteLength);
      if count % 2 == 1 && bytes[|bytes| - 1] & 0xf0 != 0 {
        return Failure(InvalidEncoding);
      }
      r := Success(Unpack(bytes, count));
    }

    method Finish() returns (r: Result<()>)
      requires Valid()
      ensures r == if Rest() == [] then Success(()) else Failure(InvalidEncoding)
    {
      if offset == |input| {
        r := Success(());
      } else {
        assert |Rest()| > 0;
        r := Failure(InvalidEncoding);
      }
    }
  }

  /** `Decoder::new`: check the envelope and stand behind it. */
  method NewDecoder(input: seq<bv8>, artifact: bv8, parameterSet: bv8) returns (r: Result<Decoder>)
    ensures match ParseHeader(input, artifact, parameterSet)
            case Success(rest) => r.Success? && fresh(r.value) && r.value.Valid() && r.value.Rest() == rest
            case Failure(e) => r == Failure(e)
  {
    hide Ascii;
    if |input| > MAX_WIRE_BYTES {
      return Failure(TooLarge);
    }
    var decoder := new Decoder(input);
    var magic :- decoder.Take(|Magic()|);
    if magic != Magic() {
      return Failure(InvalidEncoding);
    }
    var version :- decoder.Take(1);
    if version[0] != WIRE_VERSION {
      return Failure(UnsupportedVersion);
    }
    var actual :- decoder.Take(4);
    if actual[0] != artifact {
      return Failure(WrongArtifact);
    }
    if actual[1] != parameterSet {
      return Failure(WrongParameterSet);
    }
    if actual[2..] != [0, 0] {
      return Failure(InvalidEncoding);
    }
    r := Success(decoder);
  }

  // ----- Parsing and formatting are inverse

  lemma ParseTakeFormat(bytes: seq<bv8>, rest: seq<bv8>)
    ensures ParseTake(bytes + rest, |bytes|) == Success((bytes, rest))
  {
  }

  lemma ParseU32Format(n: U32, rest: seq<bv8>)
    ensures ParseU32(LeBytes(n, 4) + rest) == Success((n, rest))
  {
    hide LeBytes, OfLeBytes;
    ParseTakeFormat(LeBytes(n, 4), rest);
    Pow2Of32();
    hide Pow2;
    LeBytesRoundTrip(n, 4);
  }

  lemma FormatParseU32(input: seq<bv8>)
    requires ParseU32(input).Success?
    ensures input == LeBytes(ParseU32(input).value.0, 4) + ParseU32(input).value.1
  {
    hide LeBytes, OfLeBytes;
    OfLeBytesRoundTrip(input[..4]);
  }

  lemma ParseNibblesFormat(values: seq<bv4>, rest: seq<bv8>)
    ensures ParseNibbles(Pack(values) + rest, |values|) == Success((values, rest))
  {
    hide Pack, Unpack, Canonical;
    UnpackPack(values);
    ParseTakeFormat(Pack(values), rest);
  }

  lemma FormatParseNibbles(input: seq<bv8>, count: nat)
    requires ParseNibbles(input, count).Success?
    ensures var (values, rest) := ParseNibbles(input, count).value;
            |values| == count && input == Pack(values) + rest
  {
    hide Pack, Unpack, Canonical;
    PackUnpack(input[..(count + 1) / 2], count);
  }

  /** Length-prefixed byte strings parse back, and only from their framing. */
  lemma ParseFramedFormat(bytes: seq<bv8>, rest: seq<bv8>)
    requires |bytes| < 0x1_0000_0000
    ensures ParseFramed(Framed(bytes) + rest) == Success((bytes, rest))
  {
    hide LeBytes, ParseU32;
    ParseU32Format(|bytes|, bytes + rest);
    assert Framed(bytes) + rest == LeBytes(|bytes|, 4) + (bytes + rest);
    ParseTakeFormat(bytes, rest);
  }

  lemma FormatParseFramed(input: seq<bv8>)
    requires ParseFramed(input).Success?
    ensures var (bytes, rest) := ParseFramed(input).value;
            |bytes| < 0x1_0000_0000 && input == Framed(bytes) + rest
  {
    hide LeBytes, ParseU32;
    FormatParseU32(input);
  }

  lemma ParseHeaderFormat(artifact: bv8, parameterSet: bv8, rest: seq<bv8>)
    requires 9 + |rest| <= MAX_WIRE_BYTES
    ensures ParseHeader(HeaderBytes(artifact, parameterSet) + rest, artifact, parameterSet) == Success(rest)
  {
    hide Ascii;
    var input := HeaderBytes(artifact, parameterSet) + rest;
    assert input[..4] == Magic();
    assert input[4..][..1] == [WIRE_VERSION];
    assert input[4..][1..] == [artifact, parameterSet, 0, 0] + rest;
    ParseTakeFormat([artifact, parameterSet, 0, 0], rest);
  }

  /** Which error an envelope gives: the first field that differs decides. */
  lemma HeaderOutcome(magic: seq<bv8>, version: bv8, artifact: bv8, suite: bv8, reserved: seq<bv8>, rest: seq<bv8>,
                      expectedArtifact: bv8, expectedSuite: bv8)
    requires |magic| == 4 && |reserved| == 2 && 9 + |rest| <= MAX_WIRE_BYTES
    ensures ParseHeader(magic + [version, artifact, suite] + reserved + rest, expectedArtifact, expectedSuite)
         == if magic != [86, 65, 82, 67] then Failure(InvalidEncoding)
            else if version != 1 then Failure(UnsupportedVersion)
            else if artifact != expectedArtifact then Failure(WrongArtifact)
            else if suite != expectedSuite then Failure(WrongParameterSet)
            else if reserved != [0, 0] then Failure(InvalidEncoding)
            else Success(rest)
  {
    MagicBytes();
    hide Magic;
    var input := magic + [version, artifact, suite] + reserved + rest;
    assert input[..4] == magic;
    assert input[4..][..1] == [version];
    assert input[4..][1..][..4] == [artifact, suite] + reserved;
    assert ([artifact, suite] + reserved)[2..] == reserved;
    assert input[4..][1..][4..] == rest;
  }

  /** The envelope, byte by byte. */
  lemma HeaderLayout(artifact: bv8, suite: bv8)
    ensures HeaderBytes(artifact, suite) == [86, 65, 82, 67] + [1, artifact, suite] + [0, 0]
  {
    MagicBytes();
    hide Magic;
  }

  lemma MagicBytes()
    ensures Magic() == [86, 65, 82, 67]
  {
    MagicLetters();
    hide CharByte;
    assert Magic() == [CharByte('V'), CharByte('A'), CharByte('R'), CharByte('C')];
  }

  lemma MagicLetters()
    ensures CharByte('V') == 86 && CharByte('A') == 65 && CharByte('R') == 82 && CharByte('C') == 67
  {
  }

  lemma FormatParseHeader(input: seq<bv8>, artifact: bv8, parameterSet: bv8)
    requires ParseHeader(input, artifact, parameterSet).Success?
    ensures input == HeaderBytes(artifact, parameterSet) + ParseHeader(input, artifact, parameterSet).value
    ensures |input| <= MAX_WIRE_BYTES
  {
    hide Ascii;
    var rest := ParseHeader(input, artifact, parameterSet).value;
    var five := input[4..];
    var four := five[1..];
    assert input == input[..4] + (five[..1] + (four[..4] + four[4..]));
    assert four[..4] == [artifact, parameterSet] + four[..4][2..];
    assert five[..1] == [WIRE_VERSION];
  }
}
