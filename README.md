# Dilithium3 verification precompile — a Dafny model

This project models `dilithiumVerify`, the precompiled contract that checks a
post-quantum Dilithium3 signature (round-3 CRYSTALS-Dilithium, as in circl's
`mode3` package) inside the EVM. It is consensus-facing: every node must
compute the same gas and the same 32 output bytes for the same input.

The model lives in one module, `DilithiumVerify` (`dilithium_verify.dfy`). It
has four parts:

- **Gas.** `RequiredGas` is a function of the input. It charges a base cost of
  25000, plus 100 for every started 32-byte word of the message region. The
  message length is clamped to zero when the input is at most
  1952 + 3293 = 5245 bytes long.
- **Input layout.** `Parse` splits an input into the public key `[0,1952)`, the
  signature `[1952,5245)` and the message `[5245,len)`. It returns `None` for
  an undersized input. `Serialize` is its inverse.
- **Result encoding.** `EncodeResult` maps a verdict to the 32-byte word.
  `DecodeResult` reads a word back.
- **Execution.** The method `Run` mirrors the Go code. It allocates the buffer,
  sets byte 31 on success, and always returns a nil error. Its contract ties
  the buffer to the function `RunOutput`, which states the result bytes.

The Dilithium verifier is external code (circl). Every member that consults it
takes it as a parameter `verify(publicKey, message, signature)`, a total
predicate on the three byte regions. The receiver `dilithiumVerify` is an
empty struct, so the operations are module-level members. Being functions of
their arguments, they are deterministic and keep no state between calls.

## Model

| member | source | states |
|---|---|---|
| `DilithiumVerify.MessageLength` | core/vm/contracts_dilithium.go:23-26 | the message length is 0 when the input is at most 5245 bytes, and otherwise is the input length minus 5245 |
| `DilithiumVerify.RequiredGas` | core/vm/contracts_dilithium.go:19-30 | gas is at least 25000, and the part above 25000 is a multiple of 100; the number of words charged is the ceiling of messageLength / 32 |
| `DilithiumVerify.GasOfShortInput` | core/vm/contracts_dilithium.go:23-29 | every input of at most 5245 bytes (undersized ones included) costs exactly 25000 |
| `DilithiumVerify.GasDependsOnlyOnLength` | core/vm/contracts_dilithium.go:19-30 | two inputs of equal length cost the same, whatever their bytes |
| `DilithiumVerify.GasMonotone` | core/vm/contracts_dilithium.go:19-30 | a longer input never costs less |
| `DilithiumVerify.GasOfOneMoreByte` | core/vm/contracts_dilithium.go:24-29 | appending one byte adds exactly 100 when the byte starts a new 32-byte message word (input length at least 5245 and length − 5245 divisible by 32), and adds 0 otherwise |
| `DilithiumVerify.GasMatchesIncremental` | core/vm/contracts_dilithium.go:19-30 | the closed-form gas equals an independent byte-by-byte schedule: 25000 for the empty input, plus 100 for every byte at an offset that opens a new 32-byte message word |
| `DilithiumVerify.GasFitsUint64` | core/vm/contracts_dilithium.go:28-29 | for inputs shorter than 2^62 bytes the gas is below 2^64, so the `uint64` result does not wrap |
| `DilithiumVerify.Serialize` | core/vm/contracts_dilithium.go:33 | the laid-out input has length key + signature + message |
| `DilithiumVerify.Parse` | core/vm/contracts_dilithium.go:36-43 | the input is undersized (no split) exactly when it is shorter than 5245 bytes; otherwise the key has 1952 bytes, the signature 3293, and key ++ signature ++ message is the input; the message region's length is the clamped message length the gas schedule charges for |
| `DilithiumVerify.ParseSerialize` | core/vm/contracts_dilithium.go:41-43 | splitting a laid-out key, signature and message of the right sizes gives back those three regions |
| `DilithiumVerify.ExactFixedSize` | core/vm/contracts_dilithium.go:24-43 | an input of exactly 5245 bytes is not undersized: it splits with an empty message and costs 25000 |
| `DilithiumVerify.Zeros` | core/vm/contracts_dilithium.go:37 | `make([]byte, n)` contents: n bytes, all zero |
| `DilithiumVerify.EncodeResult` | core/vm/contracts_dilithium.go:57-62 | the result word is 32 bytes, bytes 0..30 are zero, and byte 31 is 1 for true and 0 for false |
| `DilithiumVerify.DecodeEncode` | core/vm/contracts_dilithium.go:57-62 | the two encodings are distinct, and decoding an encoded verdict gives the verdict back |
| `DilithiumVerify.DecodableShape` | core/vm/contracts_dilithium.go:57-62 | the only words that decode are 32 bytes long, zero in bytes 0..30, with a last byte of 0 or 1 |
| `DilithiumVerify.Accepts` | core/vm/contracts_dilithium.go:36-55 | the verdict is true exactly when the input has at least 5245 bytes and the verifier accepts (input[..1952], input[5245..], input[1952..5245]); an undersized input is always rejected |
| `DilithiumVerify.RunOutput` | core/vm/contracts_dilithium.go:35-63 | the output is 32 bytes, zero except for byte 31, which is 0 or 1; byte 31 is 1 exactly when the input has at least 5245 bytes and the verifier accepts (input[..1952], input[5245..], input[1952..5245]) |
| `DilithiumVerify.RunOutputDecodes` | core/vm/contracts_dilithium.go:55-62 | every output is one of the two encodings and decodes to the verdict |
| `DilithiumVerify.UndersizedIgnoresVerifier` | core/vm/contracts_dilithium.go:36-38 | an input shorter than 5245 bytes yields 32 zero bytes, whatever the verifier would answer |
| `DilithiumVerify.RunOnRequest` | core/vm/contracts_dilithium.go:41-59 | running on key ++ signature ++ message (right sizes) returns the verifier's verdict on exactly those three regions; a genuine signature yields 0x00…01 |
| `DilithiumVerify.MakeZeroed` | core/vm/contracts_dilithium.go:37 | `make([]byte, 32)`: a fresh buffer of the requested length, all zero |
| `DilithiumVerify.Run` | core/vm/contracts_dilithium.go:35-63 | returns a fresh 32-byte buffer whose contents are `RunOutput(input, verify)`, and a nil error, on every path |

## Left out

- The Dilithium mathematics (`mode3.PublicKeyFromBytes`, the copy into `mode3.Signature`, `mode3.Verify`, lines 46-55). This is foreign code in the circl library. It is a parameter `verify` over the three byte regions. The source assumes that the 3293-byte signature region matches the size of circl's `mode3.Signature` array (line 48); the circl size is not part of this model. The model does not depend on it: `verify` is an arbitrary predicate on the raw 3293-byte region, so it also covers any truncation or padding the copy might do.
- What the circl parse does on malformed key bytes. The source does not know whether it panics (lines 50-53), so the model treats `verify` as total. A panic is not modelled, and no boundary converts one into the "invalid" result. The source has no such boundary either.
- `Name()` returns `"DILITHIUM3"` (lines 65-67). It is the constant function `DilithiumVerify.Name`, with no contract, because it has no behaviour.
- The host's precompile registry and dispatch, and gas charging by the interpreter. They are not part of this model.
- `RequiredGas`: Go `int` and `uint64` overflow is not modelled; lengths and gas are unbounded naturals. `GasFitsUint64` shows that no wrap-around happens for inputs below 2^62 bytes. Nearer Go's largest slice length, `words * wordCost` could in principle wrap.
- Concurrency: the operations touch no shared state, so there is nothing to model.
