# Withdraw-proof marshalling, modelled in Dafny

This project models `prove` in `src/proof.rs` of the owshen wallet: the function that
produces a Groth16 proof for a coin withdrawal. `prove` does three pieces of real data work
around calls to external programs:

1. **Canonical encoding.** 256-bit integers are rendered in decimal through
   `to_string` and `BigUint::from_str`. Field elements are read as little-endian bytes
   (`BigUint::from_bytes_le(x.to_repr())`) and then rendered in decimal.
2. **Witness-input JSON.** A fixed-key JSON text for the witness generator. The keys come in
   the order `index, token_address, amount, new_amount1, new_amount2, pk_ax1, pk_ay1,
   pk_ax2, pk_ay2, secret, proof`. Every value is a quoted decimal. The 16x3 witness matrix
   is written row by row as arrays of three quoted decimals.
3. **Calldata parsing.** The text printed by `snarkjs generatecall` is stripped of `"`, `[`,
   `]`, spaces and newlines. It is split on `,`, and every piece is read as a base-16 256-bit
   integer. The values are then laid out by position into
   `Proof { a, b, c, public }`.

The orchestration between these steps is modelled too, with the external programs as
function parameters: the witness generator, `snarkjs groth16 prove`, `snarkjs generatecall`,
and UTF-8 decoding.

Files, one module each:

- `wrappers.dfy`: `Option` and `Result`.
- `numerals.dfy` (`Numerals`): the `U32`/`U256` types, numerals in base 10 and 16 with
  their readers, and little-endian byte reading with its inverse.
- `text.dfy` (`Text`): `split`/`join` on one separator character.
- `calldata.dfy` (`Calldata`): normalisation, tokens, hex parsing, the `Proof` layout and
  the whole calldata parse.
- `witness_input.dfy` (`WitnessInput`): the encoders, matrix rendering, the JSON text, and
  a reader for exactly that layout that serves as the builder's inverse.
- `prover.dfy` (`Prover`): `prove`'s control flow and its outcomes (a proof, an error
  returned through `?`, or a panic).

The data work is pure: the source builds values through expression pipelines (`replace`
chains, `split().map().collect()`, nested `map(format!).collect().join(",")`). There are two
mutable bindings. `calldata` (src/proof.rs:124-130) is rebound exactly once, to its
normalised text. `inputs_file` (src/proof.rs:32) is a temporary file that `write!`
(src/proof.rs:85) fills in place with the JSON text and that the witness generator then
reads. The model passes that text as a value (`WitnessInputJson`) straight to the
witness-generator parameter of `Prove`, so it uses functions and lemmas only. The file
itself is listed under "Left out".

## Model

| member | source | states |
|---|---|---|
| `Numerals.Numeral` | src/proof.rs:60-67 | Rendering gives a canonical numeral: nonempty, only digits of the radix, lower-case, and no leading zero unless the text is `0`. It begins with `0` exactly when the value is zero. |
| `Numerals.DecimalString` | src/proof.rs:60-67 | The decimal text holds only `0`-`9`, with no sign and no leading zero except for `0` itself. |
| `Numerals.NumeralRoundTrip` | src/proof.rs:60-67 | Reading back a rendered numeral gives the original value, in either radix. |
| `Numerals.DecimalRoundTrip` | src/proof.rs:60-67 | `from_str(&n.to_string())` gives back `n`, so the `unwrap` never fails. |
| `Numerals.CanonicalNumeralRoundTrip` | src/proof.rs:60-67 | Rendering the value of a canonical numeral gives the same text back, so decimal text and value determine each other. |
| `Numerals.CanonicalNumeralUnique` | src/proof.rs:60-67 | Two canonical numerals with the same value are the same text. |
| `Numerals.ParseDecimal` | src/proof.rs:60-67 | The decimal reader accepts a string exactly when it is a nonempty run of `0`-`9`. An accepted string of k digits has a value below 10^k. |
| `Numerals.NumeralValueBound` | src/proof.rs:134 | A numeral of k digits has a value below radix^k. |
| `Numerals.ParseHexU256` | src/proof.rs:134 | When a token is accepted, its value is the token read as a base-16 numeral. |
| `Numerals.HexRoundTrip` | src/proof.rs:134 | Every value below 2^256 is read back from its hex text. No larger value is accepted. |
| `Numerals.ShortHexFits` | src/proof.rs:134 | Any nonempty hex-digit token of at most 64 digits is accepted, with its numeral value. |
| `Numerals.FromBytesLe` | src/proof.rs:68 | A byte string reads as zero exactly when every byte is zero. |
| `Numerals.FromBytesLeIsWeightedSum` | src/proof.rs:68 | The little-endian value equals the sum of `bytes[i] * 256^i`. |
| `Numerals.FromBytesLeBound` | src/proof.rs:76 | The value of n bytes is below 256^n. |
| `Numerals.FromBytesLeZeroExtend` | src/proof.rs:76 | Appending zero bytes at the most significant end leaves the value unchanged. |
| `Numerals.BytesLeRoundTrip` | src/proof.rs:68 | Every value below 256^len is recovered from its `len` little-endian bytes. |
| `Numerals.BytesLeRoundTripBack` | src/proof.rs:68 | Every byte string is the `len`-byte little-endian encoding of its own value, so byte strings of one length and their values correspond one to one. |
| `Numerals.LittleEndianIsReversedBigEndian` | src/proof.rs:68 | Reading bytes little-endian is the same as reading them reversed big-endian, so byte order changes the value. |
| `Numerals.ByteOrderMatters` | src/proof.rs:68 | Little-endian and big-endian reading give the same value exactly when the byte string is a palindrome. |
| `Text.Split` | src/proof.rs:132-133 | Splitting gives one more piece than there are separators, and no piece contains a separator. |
| `Text.Join` | src/proof.rs:78-82 | Joining n pieces gives their total length plus n - 1 separator characters. |
| `Text.JoinCount` | src/proof.rs:78-82 | Joining n separator-free pieces puts exactly n - 1 separators in the text. |
| `Text.JoinSplit` | src/proof.rs:132-133 | Joining the pieces with the separator gives back the split text. |
| `Text.SplitJoin` | src/proof.rs:132-133 | Splitting a join of separator-free pieces gives back the pieces. |
| `Calldata.RemoveAll` | src/proof.rs:125-130 | One `replace(c, "")` leaves no `c`, adds no character, and shortens the text by exactly the number of `c` it held. |
| `Calldata.Normalize` | src/proof.rs:125-130 | After the five `replace` calls no `"`, `[`, `]`, space or newline is left, and the text is no longer than before. |
| `Calldata.Kept` | src/proof.rs:125-130 | The reference filter never yields a stripped character. |
| `Calldata.NormalizeIsKept` | src/proof.rs:125-130 | The five chained `replace` calls delete exactly `"`, `[`, `]`, space and newline, and keep every other character in its original order. |
| `Calldata.NormalizeSpec` | src/proof.rs:125-130 | After normalisation no stripped character is left. Normalisation works piece by piece over concatenation, keeps a single character exactly when it is not stripped, and is idempotent. |
| `Calldata.Tokens` | src/proof.rs:132-133 | There is one more token than there are commas in the normalised text. No token holds a comma, and the tokens joined by `,` are that text. |
| `Calldata.ParseTokens` | src/proof.rs:132-135 | Collecting into a `Result` either reads every token, one value per token in order, or fails at the first token that is not a 256-bit hex value, with every earlier token valid. |
| `Calldata.Layout` | src/proof.rs:137-142 | A layout exists exactly when there are at least 8 values. It then holds all values past the eighth as public inputs, and flattening it in the order `a, b[0], b[1], c, public` gives the values back. With fewer than 8 values the model fails with the count. |
| `Calldata.LayoutFlatten` | src/proof.rs:12-18 | Every `Proof` is recovered by laying out its flattened values, so layout and flattening are inverse. |
| `Calldata.Flatten` | src/proof.rs:12-18 | A proof flattens to 8 values plus one per public input: `a` at 0-1, `b[0]` at 2-3, `b[1]` at 4-5, `c` at 6-7 and `public` from 8 on. |
| `Calldata.ParseCalldata` | src/proof.rs:124-142 | The parse succeeds exactly when there are at least 8 tokens and every token is a 256-bit hex value. It then returns the proof whose flattened values are the token values in order. Otherwise it fails at the first bad token, with every earlier token valid, or, when all tokens are valid, with the count of fewer than 8. |
| `Calldata.PrefixedTokenRejected` | src/proof.rs:132-135 | When the first token has `x` as its second character, as in `0x1a`, the parse fails with a bad token at position 0 before any value count is taken. |
| `Calldata.EmptyOutputRejected` | src/proof.rs:124-135 | Empty `generatecall` output splits into one empty token, and the parse fails with a bad token at position 0. |
| `Calldata.PublicCount` | src/proof.rs:137-142 | 8 values give an empty `public`, 9 give exactly `[values[8]]`, and 7 are too few. |
| `Calldata.CalldataRoundTrip` | src/proof.rs:124-142 | Every proof is parsed back from its values written as comma-separated hex. |
| `Calldata.ListTextTokens` | src/proof.rs:125-133 | Normalising a printed list `["t0","t1",...]` and splitting it recovers the tokens. |
| `Calldata.ParseListText` | src/proof.rs:124-142 | A printed list of valid hex tokens parses to the layout of their values. |
| `Calldata.NineValueExample` | src/proof.rs:124-142 | The printed list `["1a","2b","3c","4d","5e","6f","70","81","92"]` (`NineValueText`) parses to `a=[0x1a,0x2b]`, `b=[[0x3c,0x4d],[0x5e,0x6f]]`, `c=[0x70,0x81]`, `public=[0x92]` (`NineValueProof`). |
| `WitnessInput.EncodeU256` | src/proof.rs:60-67 | Going through `to_string`, `from_str` and `{:?}` yields exactly the canonical decimal text of the integer, which reads back as that integer. |
| `WitnessInput.EncodeField` | src/proof.rs:68-76 | A field element's text is canonical decimal and reads back as the little-endian value of its representation bytes. |
| `WitnessInput.RenderRow` | src/proof.rs:71-79 | A rendered row is bracketed by `[` and `]`, and a row of n cells holds exactly n - 1 commas. |
| `WitnessInput.RenderMatrix` | src/proof.rs:69-82 | The matrix text is empty exactly when there are no rows. Otherwise it begins with `[` and ends with `]`. |
| `WitnessInput.WitnessInputJson` | src/proof.rs:47-58 | The JSON text opens with `{ "index": ` and closes with `] }`, the end of the `proof` member. |
| `WitnessInput.ReadQuotedDecimal` | src/proof.rs:48-58 | A quoted decimal value reads back as its value and leaves the rest of the text untouched. |
| `WitnessInput.ReadRowRoundTrip` | src/proof.rs:71-79 | A rendered row `["d0","d1",...]` reads back as the little-endian values of its cells, in order. |
| `WitnessInput.ReadRowsRoundTrip` | src/proof.rs:69-82 | The rendered matrix reads back as the same rows in the same order, each with its cells in order (row-major). |
| `WitnessInput.ReadMembersRoundTrip` | src/proof.rs:47-67 | The scalar members read back key by key, in key order, each as its value. |
| `WitnessInput.DocumentRoundTrip` | src/proof.rs:47-83 | For any keys, decimal members and nonempty matrix with nonempty rows, reading the document gives the member values in key order and the matrix values row by row. |
| `WitnessInput.WitnessInputRoundTrip` | src/proof.rs:47-83 | Reading the JSON text gives the ten scalar values in schema key order, and the `proof` matrix as its rows of values. |
| `WitnessInput.MatrixShape` | src/proof.rs:30 | The `proof` array stands for exactly 16 rows of exactly 3 values. Cell (i, j) is the little-endian value of the matrix's element (i, j). |
| `Prover.Prove` | src/proof.rs:85-144 | Each stage's outcome is stated in turn. The witness generator: a launch failure is an error, and output on stdout and then stderr is a panic. If it ran silently, `groth16 prove` is treated the same way. If both ran silently: a `generatecall` launch failure is an error, and undecodable output is an error. Otherwise the outcome is `Proved(p)` when the normalised output parses to `p`, an error at the first bad token, and a panic when there are fewer than 8 values. |
| `Prover.ExitStatusIgnored` | src/proof.rs:88-117 | Exit statuses never change the outcome. |
| `Prover.GenerateCallStderrIgnored` | src/proof.rs:119-124 | Anything `generatecall` writes to its error stream never changes the outcome. |

## Notes on the code's behaviour

The model follows the code at these points:

- The exit status of the external programs is never checked. Only a failure to launch is an
  error (`output()?`), and a program that exits non-zero in silence counts as a success.
- Output on stdout or stderr of the witness generator or of `groth16 prove` is a panic
  (`assert_eq!`), not an error value. The model returns it as `Panicked`.
- Fewer than 8 calldata values also panic, when `data` is sliced past its end. `Layout`
  reports this as `TooFewValues` and `Prove` as a panic. Slice lengths are exact, so the
  `try_into()?` conversions cannot fail.
- The stderr of `generatecall` is not checked.

## Left out

- Temporary files (`NamedTempFile::new`, `write!`, deletion on drop) and their I/O errors are left out. The model passes file contents between the programs directly.
- The command lines (`contracts/circuits/coin_withdraw_cpp/coin_withdraw`, `snarkjs groth16 prove <params> ...`, `snarkjs generatecall`) are left out. Each program is modelled as a function from its inputs to its run.
- The debug `println!` output is left out.
- UTF-8 decoding of the calldata (`std::str::from_utf8`) is a parameter of `Prove`.
- `Fp` arithmetic, the field modulus, the `PublicKey` point, `to_repr()` and the `Fp` to `U256` conversion are left out. These live in `crate::fp` and `crate::keys`, which are not part of this model. Key coordinates are taken as already-converted 256-bit integers, and a field element as its byte representation of any length. The invariant that a field element is below the modulus is not modelled.
- Numerals.ParseHexU256: this is a stated assumption about `U256::from_str_radix(_, 16)`, whose code is not part of this model. It accepts a nonempty hex-digit token (either case) whose value is below 2^256. Handling of a `0x` prefix, of the empty token and any length limit on leading zeros is not modelled. For such input the outcome of `Prove` follows this assumed reader, which rejects `0x1a` and the empty token. So calldata whose first token is `0x`-prefixed, and empty `generatecall` output, end in a bad-token error at position 0 (`Calldata.PrefixedTokenRejected`, `Calldata.EmptyOutputRejected`).
- Numerals.ParseDecimal: this models `BigUint::from_str` only on plain digit strings. A leading `+` and `_` separators are not modelled. The code only ever passes it the output of `to_string`.
- WitnessInput.EncodeU256: this assumes that `{:?}` on a `BigUint` and on a `u32` prints the same decimal text as `to_string`.
- Arithmetic overflow is not an issue: all values are arbitrary-precision naturals bounded by the `U32` and `U256` subset types.
