# Signed sign policy of the encrypted-integer layer

The runtime's encrypted integers are generic over a sign policy. The policy
chooses three things. It picks the comparison circuit requested from the
mux-circuit library. It picks the multiplier appended to the circuit graph.
It also gives the resize rule, `resize_config`. This project models the
`Signed` policy of `parasol_runtime/src/fluent/int.rs`.

- `signed_int.dfy`, module `SignedInt`: the policy itself. `Signed` is a
  one-constructor datatype standing for the unit marker struct. Its three
  operations are static functions, like the associated functions of the
  source's `Sign` impl. `ResizeConfig` returns the exact triple
  `(keep, extend, signExtend)`. The `usize` subtraction `min - 1` becomes the
  precondition that both widths are at least 1. `GenCompareCircuit` returns a
  descriptor of the library circuit it requests. `AppendMultiply` forwards to
  the signed integer multiplier. That multiplier is outside the model, so it is
  a function parameter (a field of `CircuitLibrary`). The circuit graph is
  modelled as an append-only arena of nodes. A multiplier that only appends
  nodes is captured by the explicit assumption `AppendsOnly`.
- `signed_bits.dfy`, module `SignedBits`: an ASSUMED bit-level reading of the
  triple. It is not taken from the policy's code. The code that consumes the
  triple is in the generic integer layer (`generic_int.rs`), which is not part
  of this model. The assumed consumer `ApplyResize` keeps the `keep` lowest
  bits. It then writes `extend` copies of the old sign bit, or zero bits when
  `signExtend` is false. Bits are little-endian and read as two's complement.
  Under this assumption, the lemmas show that a resize has the requested width
  and keeps the sign. Growing preserves the value. Shrinking preserves every
  value that the new width can represent. Growing and then shrinking back
  restores the original bits.

Two consequences of the rule are worth stating:

- The minus one on `keep` and the plus one on `extend` apply to every pair
  of widths, including equal widths (`ResizeConfigSameWidth`).
- Under the assumed consumer, a signed shrink to M bits keeps the low M-1
  bits and re-emits the old sign bit. It does not truncate to the low M bits
  (`ShrinkKeepsSignNotWrapAround`). The two give the same bits exactly when
  bit M-1 already equals the old sign bit (`ShrinkMatchesTruncationIff`).
  Every value that fits in M bits keeps its value
  (`ResizeShrinkPreservesRepresentable`).

## Model

| member | source | states |
|---|---|---|
| `SignedInt.Signed.ResizeConfig` | parasol_runtime/src/fluent/int.rs:31-40 | requires both widths ≥ 1, because `min - 1` underflows otherwise; `signExtend` is always true; `keep + extend == newSize`; `keep` is below both widths, so it excludes the old sign bit; `extend ≥ 1`; when shrinking or keeping the width, `keep == newSize - 1` and `extend == 1`; when growing, `keep == oldSize - 1` and `extend == newSize - oldSize + 1` |
| `SignedInt.Min` | parasol_runtime/src/fluent/int.rs:34 | `usize::min`: the result is at most both arguments and equals one of them |
| `SignedInt.SaturatingSub` | parasol_runtime/src/fluent/int.rs:36 | `usize::saturating_sub`: the result is 0 when the subtrahend is at least as large, otherwise it is the exact difference |
| `SignedInt.ResizeConfigSameWidth` | parasol_runtime/src/fluent/int.rs:31-40 | for equal widths `n`, the triple is `(n - 1, 1, true)`: all non-sign bits are kept and the sign bit is re-emitted |
| `SignedInt.ResizeConfigFitsUsize` | parasol_runtime/src/fluent/int.rs:34-36 | for widths up to the largest `usize` (any bound), `keep` stays below it and `extend` does not exceed it, so the `+ 1` cannot overflow |
| `SignedInt.ResizeConfigUnique` | parasol_runtime/src/fluent/int.rs:31-40 | any triple with sign extension, total `newSize`, `keep == oldSize - 1` when growing and `extend == 1` when shrinking is exactly the policy's triple |
| `SignedInt.Signed.GenCompareCircuit` | parasol_runtime/src/fluent/int.rs:19-21 | the signed policy requests the signed compare-or-maybe-equal circuit of width `maxLen`, forwarding the `gt` and `eq` flags |
| `SignedInt.GenCompareCircuitInjective` | parasol_runtime/src/fluent/int.rs:19-21 | distinct requests give distinct circuit descriptors, so the request keeps the width and both flags |
| `SignedInt.Signed.AppendMultiply` | parasol_runtime/src/fluent/int.rs:23-29 | the signed policy delegates to the signed integer multiplier unchanged; if that multiplier satisfies the assumption `AppendsOnly`, the graph only grows, stays acyclic, and both returned node lists name nodes of the new graph |
| `SignedBits.ApplyResize` | parasol_runtime/src/fluent/int.rs:31-40 | (assumed consumer) the result has `keep + extend` bits; the first `keep` are the old low bits; the rest are the old sign bit when sign-extending, else zero |
| `SignedBits.Resize` | parasol_runtime/src/fluent/int.rs:31-40 | (assumed consumer) a signed resize has exactly the requested width and the old sign bit on top; below the smaller width's sign position it has the old low bits, and above that position every bit is the old sign bit |
| `SignedBits.SignedValueRange` | parasol_runtime/src/fluent/int.rs:33 | an `n`-bit two's-complement value lies in `[-2^(n-1), 2^(n-1))` |
| `SignedBits.SignedNegativeIffSignBit` | parasol_runtime/src/fluent/int.rs:33 | the value is negative exactly when the top bit, the sign bit, is set |
| `SignedBits.SignExtendPreservesValue` | parasol_runtime/src/fluent/int.rs:35-36 | (assumed consumer) appending any number of copies of the sign bit leaves the signed value unchanged |
| `SignedBits.ResizeGrowPreservesValue` | parasol_runtime/src/fluent/int.rs:35-38 | (assumed consumer) growing a signed value never changes its value |
| `SignedBits.ResizeShrinkValue` | parasol_runtime/src/fluent/int.rs:33-34 | (assumed consumer) after shrinking to `m` bits, the value is the old low `m-1` bits minus `2^(m-1)` when the old sign bit is set |
| `SignedBits.ResizeShrinkPreservesRepresentable` | parasol_runtime/src/fluent/int.rs:33-34 | (assumed consumer) shrinking to `m` bits keeps every value in `[-2^(m-1), 2^(m-1))` |
| `SignedBits.ResizePreservesRepresentable` | parasol_runtime/src/fluent/int.rs:31-40 | (assumed consumer) a resize to any width keeps every value that the new width can represent |
| `SignedBits.ResizePreservesSign` | parasol_runtime/src/fluent/int.rs:31-40 | (assumed consumer) a resize is negative exactly when the original is, whatever the widths |
| `SignedBits.ResizeSameWidthIdentity` | parasol_runtime/src/fluent/int.rs:31-40 | (assumed consumer) resizing to the same width returns the same bits |
| `SignedBits.ResizeThroughWider` | parasol_runtime/src/fluent/int.rs:31-40 | (assumed consumer) first growing to any width at least the original, then resizing, gives the same bits as resizing directly |
| `SignedBits.ResizeGrowShrinkRoundTrip` | parasol_runtime/src/fluent/int.rs:31-40 | (assumed consumer) growing and then shrinking back to the original width restores the original bits |
| `SignedBits.ShrinkMatchesTruncationIff` | parasol_runtime/src/fluent/int.rs:33-34 | (assumed consumer) shrinking to `m` bits yields exactly the low `m` bits if and only if bit `m-1` equals the old sign bit |
| `SignedBits.ShrinkKeepsSignNotWrapAround` | parasol_runtime/src/fluent/int.rs:33-34 | (assumed consumer) the 4-bit value 3 shrunk to 2 bits becomes 1, which keeps the sign, while its low 2 bits alone would read -1 |

## Left out

- Encryption, decryption, trivial encryption and the public and secret keys used by the tests (int.rs:74-95, 255-274) are not modelled. They are cryptographic primitives whose semantics are not visible.
- Building and evaluating circuit graphs (`FheCircuitCtx`, `graph_input`, `unpack`, `pack`, `collect_outputs`, `run_graph_blocking` in int.rs:97-191) is not modelled. That code and the multithreaded processor are in files that are not part of this model.
- `compare_or_maybe_equal_signed` and `append_int_multiply` are external circuit synthesis. The first is a descriptor; the second is a function parameter. Neither circuit's meaning is modelled.
- SignedInt.Signed.GenCompareCircuit: its contract says which circuit is requested, not what the circuit computes, because the library that builds it is not part of this model.
- SignedInt.Signed.AppendMultiply: its graph guarantees hold only under the stated assumption `AppendsOnly` about the external multiplier, whose code is not part of this model.
- The bincode serialisation tests and `safe_bincode::deserialize` (int.rs:193-253) are not modelled. They test a library wire format that is not visible.
- The type aliases (int.rs:43-59) are not modelled. They only fix the generic integer types of `generic_int.rs` to the `Signed` policy, and `generic_int.rs` is not part of this model.
- The `Unsigned` policy (`uint.rs`) is not part of this model. `ApplyResize` still accepts a triple whose `signExtend` is false, and then fills with zero bits.
- `parasol_cpu/benches/chi_squared.rs` is not modelled. It is a benchmark harness: key generation, ELF loading, timed execution and an instruction listing for an interpreter that is not part of this model.
- Rust's `usize` is not a separate type in the model. Widths are `nat`. Both widths must be at least 1, where the source would underflow, and `ResizeConfigFitsUsize` shows that the results stay within the `usize` range.
