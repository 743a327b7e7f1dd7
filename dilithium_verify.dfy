/** A model of the Dilithium3 signature-verification precompile
    (`dilithiumVerify` in core/vm/contracts_dilithium.go).

    The precompile has no state: its receiver is an empty struct, so its two
    operations are modelled as module-level members.  `RequiredGas` is pure
    arithmetic on the input length; `Run` slices the input into public key,
    signature and message, asks the external Dilithium3 verifier for a
    verdict, and encodes that verdict as a 32-byte word.

    The verifier itself (key unpacking, signature copy and `mode3.Verify`
    from the circl library) is not modelled: every operation that consults it
    takes it as a parameter `verify(publicKey, message, signature)`.
 */
module DilithiumVerify {

  newtype byte = x: int | 0 <= x < 256

  datatype Option<T> = None | Some(value: T)

  /** The error value of a precompile call; `Run` never returns one. */
  datatype Error = Error(message: string)

  /** The external Dilithium3 verification predicate, in the argument order of
      `mode3.Verify(pk, msg, sig)`. */
  type Verifier = (seq<byte>, seq<byte>, seq<byte>) -> bool

  // Sizes of the Dilithium3 (round-3, circl `mode3`) public key and signature.
  const PublicKeySize: nat := 1952
  const SignatureSize: nat := 3293
  const FixedSize: nat := PublicKeySize + SignatureSize

  // Gas parameters: a base cost and a cost per started 32-byte word of message.
  const BaseCost: nat := 25000
  const WordCost: nat := 100
  const WordSize: nat := 32

  /** Width of the result word. */
  const OutputSize: nat := 32

  /** The name under which the host registers the precompile. */
  function Name(): string { "DILITHIUM3" }

  /* ---------------------------------------------------------------------
     Gas
     --------------------------------------------------------------------- */

  /** Length of the message region, clamped to zero when the input does not
      go past the fixed key and signature regions. */
  function MessageLength(inputLength: nat): (m: nat)
    ensures inputLength <= FixedSize ==> m == 0
    ensures inputLength > FixedSize ==> FixedSize + m == inputLength
  {
    if inputLength > FixedSize then inputLength - FixedSize else 0
  }

  /** Gas charged for a call on `input`: the base cost plus the word cost for
      every started 32-byte word of the message region. */
  function RequiredGas(input: seq<byte>): (gas: nat)
    ensures gas >= BaseCost && (gas - BaseCost) % WordCost == 0
    // the number of words charged is the ceiling of messageLength / 32
    ensures WordSize * ((gas - BaseCost) / WordCost) < MessageLength(|input|) + WordSize
    ensures MessageLength(|input|) <= WordSize * ((gas - BaseCost) / WordCost)
  {
    var words := (MessageLength(|input|) + 31) / 32;
    BaseCost + words * WordCost
  }

  /** An input that does not go past the key and signature pays the base cost
      only; in particular an undersized input does. */
  lemma GasOfShortInput(input: seq<byte>)
    requires |input| <= FixedSize
    ensures RequiredGas(input) == BaseCost
  {
  }

  /** Gas is a function of the input length alone, never of its bytes. */
  lemma GasDependsOnlyOnLength(a: seq<byte>, b: seq<byte>)
    requires |a| == |b|
    ensures RequiredGas(a) == RequiredGas(b)
  {
  }

  /** A longer input never costs less. */
  lemma GasMonotone(a: seq<byte>, b: seq<byte>)
    requires |a| <= |b|
    ensures RequiredGas(a) <= RequiredGas(b)
  {
  }

  /** A byte at offset `offset` of the input opens a new 32-byte word of the message. */
  predicate StartsWord(offset: nat) {
    offset >= FixedSize && (offset - FixedSize) % WordSize == 0
  }

  /** Appending one byte raises the gas by exactly one word cost when the new
      byte starts a new 32-byte word of the message, and leaves it unchanged
      otherwise. */
  lemma GasOfOneMoreByte(input: seq<byte>, x: byte)
    ensures RequiredGas(input + [x]) == RequiredGas(input) + (if StartsWord(|input|) then WordCost else 0)
  {
    var m := MessageLength(|input|);
    var m' := MessageLength(|input + [x]|);
    if |input| >= FixedSize {
      assert m' == m + 1;
      var q, r := m / WordSize, m % WordSize;
      assert m == WordSize * q + r;
      if r == 0 {
        assert (m + 31) / 32 == q;
        assert (m' + 31) / 32 == q + 1;
      } else {
        assert (m + 31) / 32 == q + 1;
        assert (m' + 31) / 32 == q + 1;
      }
    } else {
      assert m == m' == 0;
    }
  }

  /** A reference schedule built byte by byte: the empty input costs the base
      cost, and each further byte pays one word cost when it opens a new
      32-byte word of the message. */
  function IncrementalGas(n: nat): nat {
    if n == 0 then BaseCost
    else IncrementalGas(n - 1) + (if StartsWord(n - 1) then WordCost else 0)
  }

  /** The closed-form gas agrees with the byte-by-byte schedule on every input. */
  lemma {:induction false} GasMatchesIncremental(input: seq<byte>)
    ensures RequiredGas(input) == IncrementalGas(|input|)
  {
    if |input| > 0 {
      var prefix, last := input[..|input| - 1], input[|input| - 1];
      GasMatchesIncremental(prefix);
      GasOfOneMoreByte(prefix, last);
      assert prefix + [last] == input;
    }
  }

  /** For every input shorter than 2^62 bytes the gas fits the unsigned
      64-bit result type, so the model's unbounded arithmetic agrees with
      the source's `uint64` arithmetic there. */
  lemma GasFitsUint64(input: seq<byte>)
    requires |input| < 0x4000_0000_0000_0000
    ensures RequiredGas(input) < 0x1_0000_0000_0000_0000
  {
    var m := MessageLength(|input|);
    var words := (m + 31) / 32;
    assert words <= 0x200_0000_0000_0000;
    assert words * WordCost <= 0x200_0000_0000_0000 * 100;
  }

  /* ---------------------------------------------------------------------
     Input layout
     --------------------------------------------------------------------- */

  /** The three regions of a call's input. */
  datatype Request = Request(publicKey: seq<byte>, signature: seq<byte>, message: seq<byte>)

  predicate WellSized(r: Request) {
    |r.publicKey| == PublicKeySize && |r.signature| == SignatureSize
  }

  /** The input bytes a request is laid out as: key, then signature, then message. */
  function Serialize(r: Request): (input: seq<byte>)
    ensures |input| == |r.publicKey| + |r.signature| + |r.message|
  {
    r.publicKey + r.signature + r.message
  }

  /** Split an input into its regions; `None` for an input too short to hold
      a public key and a signature. */
  function Parse(input: seq<byte>): (r: Option<Request>)
    ensures r.None? <==> |input| < FixedSize
    ensures r.Some? ==> WellSized(r.value) && Serialize(r.value) == input
    // the message region is the one whose length the gas schedule charges for
    ensures r.Some? ==> |r.value.message| == MessageLength(|input|)
  {
    if |input| < FixedSize then None
    else
      var publicKey := input[..PublicKeySize];
      var signature := input[PublicKeySize..PublicKeySize + SignatureSize];
      var message := input[PublicKeySize + SignatureSize..];
      assert publicKey + signature + message == input;
      Some(Request(publicKey, signature, message))
  }

  /** Laying out a well-sized request and splitting it again gives the request back. */
  lemma ParseSerialize(r: Request)
    requires WellSized(r)
    ensures Parse(Serialize(r)) == Some(r)
  {
    var input := Serialize(r);
    assert input[..PublicKeySize] == r.publicKey;
    assert input[PublicKeySize..FixedSize] == r.signature;
    assert input[FixedSize..] == r.message;
  }

  /** At exactly the fixed size the input is not undersized: it parses, with
      an empty message, and costs the base gas. */
  lemma ExactFixedSize(input: seq<byte>)
    requires |input| == FixedSize
    ensures Parse(input).Some? && Parse(input).value.message == []
    ensures RequiredGas(input) == BaseCost
  {
  }

  /* ---------------------------------------------------------------------
     Result encoding
     --------------------------------------------------------------------- */

  function Zeros(n: nat): (s: seq<byte>)
    ensures |s| == n && forall i | 0 <= i < n :: s[i] == 0
  {
    seq(n, _ => 0)
  }

  /** The 32-byte big-endian encoding of a verdict: 1 in the last byte for
      true, all zero for false. */
  function EncodeResult(valid: bool): (out: seq<byte>)
    ensures |out| == OutputSize
    ensures forall i | 0 <= i < OutputSize - 1 :: out[i] == 0
    ensures out[OutputSize - 1] == (if valid then 1 else 0)
  {
    Zeros(OutputSize - 1) + [if valid then 1 else 0]
  }

  /** How a caller reads the result word back; `None` for any word that is
      neither of the two encodings. */
  function DecodeResult(out: seq<byte>): Option<bool> {
    if out == EncodeResult(false) then Some(false)
    else if out == EncodeResult(true) then Some(true)
    else None
  }

  /** Decoding an encoded verdict gives the verdict back. */
  lemma DecodeEncode(valid: bool)
    ensures DecodeResult(EncodeResult(valid)) == Some(valid)
  {
    assert EncodeResult(true)[OutputSize - 1] != EncodeResult(false)[OutputSize - 1];
  }

  /** The words that decode are exactly the 32-byte words that are zero
      except possibly for a last byte of 0 or 1. */
  lemma DecodableShape(out: seq<byte>)
    ensures DecodeResult(out).Some? <==>
              |out| == OutputSize && (forall i | 0 <= i < OutputSize - 1 :: out[i] == 0)
              && (out[OutputSize - 1] == 0 || out[OutputSize - 1] == 1)
  {
    if |out| == OutputSize && (forall i | 0 <= i < OutputSize - 1 :: out[i] == 0)
       && (out[OutputSize - 1] == 0 || out[OutputSize - 1] == 1)
    {
      var valid := out[OutputSize - 1] == 1;
      assert out == EncodeResult(valid);
    }
  }

  /* ---------------------------------------------------------------------
     Execution
     --------------------------------------------------------------------- */

  /** The verdict of a call: false for an undersized input, otherwise the
      external verifier's answer on the parsed regions. */
  function Accepts(input: seq<byte>, verify: Verifier): (v: bool)
    ensures v <==> |input| >= FixedSize
                   && verify(input[..PublicKeySize], input[FixedSize..], input[PublicKeySize..FixedSize])
  {
    match Parse(input)
    case None => false
    case Some(r) => verify(r.publicKey, r.message, r.signature)
  }

  /** The bytes a call on `input` returns. */
  function RunOutput(input: seq<byte>, verify: Verifier): (out: seq<byte>)
    ensures |out| == OutputSize
    ensures forall i | 0 <= i < OutputSize - 1 :: out[i] == 0
    ensures out[OutputSize - 1] == 0 || out[OutputSize - 1] == 1
    ensures out[OutputSize - 1] == 1 <==>
              |input| >= FixedSize
              && verify(input[..PublicKeySize], input[FixedSize..], input[PublicKeySize..FixedSize])
  {
    EncodeResult(Accepts(input, verify))
  }

  /** Every output is one of the two encodings, and it decodes to the verdict. */
  lemma RunOutputDecodes(input: seq<byte>, verify: Verifier)
    ensures DecodeResult(RunOutput(input, verify)) == Some(Accepts(input, verify))
  {
    DecodeEncode(Accepts(input, verify));
  }

  /** An undersized input yields the all-zero word whatever the verifier
      would say: the verifier is not consulted. */
  lemma UndersizedIgnoresVerifier(input: seq<byte>, verify: Verifier, other: Verifier)
    requires |input| < FixedSize
    ensures RunOutput(input, verify) == RunOutput(input, other) == Zeros(OutputSize)
  {
    assert EncodeResult(false) == Zeros(OutputSize);
  }

  /** A call on a key, a signature and a message laid out one after another
      returns the verifier's verdict on exactly those three; in particular a
      genuine signature is accepted. */
  lemma RunOnRequest(r: Request, verify: Verifier)
    requires WellSized(r)
    ensures RunOutput(Serialize(r), verify) == EncodeResult(verify(r.publicKey, r.message, r.signature))
  {
    ParseSerialize(r);
  }

  /** The result of Go's `make([]byte, n)`: a new zero-filled buffer. */
  method MakeZeroed(n: nat) returns (buf: array<byte>)
    ensures fresh(buf) && buf.Length == n
    ensures buf[..] == Zeros(n)
  {
    buf := new byte[n](_ => 0);
  }

  /** Executes the precompile: a fresh 32-byte result and no error, on every path. */
  method Run(input: seq<byte>, verify: Verifier) returns (res: array<byte>, err: Option<Error>)
    ensures fresh(res)
    ensures res[..] == RunOutput(input, verify)
    ensures err == None
  {
    if |input| < FixedSize {
      res := MakeZeroed(OutputSize);
      return res, None;
    }

    var publicKey := input[..PublicKeySize];
    var signature := input[PublicKeySize..PublicKeySize + SignatureSize];
    var message := input[PublicKeySize + SignatureSize..];

    if verify(publicKey, message, signature) {
      res := MakeZeroed(OutputSize);
      res[OutputSize - 1] := 1;
      assert res[..] == EncodeResult(true);
      return res, None;
    }

    res := MakeZeroed(OutputSize);
    return res, None;
  }
}
