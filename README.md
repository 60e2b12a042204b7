# ipcalc core, modelled in Dafny

`ipcalc` is a command-line tool. It takes IPv4 range descriptors and prints,
for each one, the network, prefix length, broadcast address and mask that the
library's `CalculateNetwork` returns for it. A descriptor comes in one of three forms:

- `A-B`: a start and an end address;
- `A/N`: an address and a prefix length;
- `A%M`: an address and a dotted subnet mask.

This project models the logic of `ipcalc/Program.cs`:

- `types.dfy`, module `Types`: octets, 4-octet addresses, `Option` and
  `Result`, and the exceptions a token can raise.
- `mask.dfy`, module `Mask`: `ParseMask`, the mask validator. It copies the
  address bytes into a fresh array and reverses that array in place. It then
  scans bits 0..31 from the least significant end. A flag `lastOne` flips at
  the first set bit, and `bits` records that index. After that every bit must
  be set, or `Invalid mask` is thrown. The result is `32 - bits`. The method
  is proved against the function `MaskToPrefix`. Lemmas then prove three
  things about `MaskToPrefix`:
  - the masks it accepts are exactly the prefix masks `MaskOfPrefix(k)` for
    `0 <= k <= 32`;
  - the mask of prefix k reads back as k;
  - the all-zero mask reads back as 32.
- `descriptor.dfy`, module `Descriptor`: the classifier at the head of
  `CalculateAddress`. It cuts the token on `-`, `/` and `%` and keeps pieces 0
  and 1 of each cut. Three guarded branches, tried in order, then pick the
  range, CIDR or mask form. If none applies, it rejects the token with
  `Invalid address range syntax`. `Classify` is a pure function. The lemmas
  cover:
  - the three grammars;
  - what each form says about the token;
  - the quirks that come from the branch order.
- `calculator.dfy`, module `Calculator`: the dispatch in `CalculateAddress`
  and the per-token loop of `Main`.
  - The framework parsers and the library's `CalculateNetwork` are not part of
    this model. They enter as the fields of a `Library` value.
  - `CalculateAddress` is a method. It calls the imperative `ParseMask` and is
    proved equal to the function `Calculate`.
  - `ProcessArguments` produces one outcome per token, and a failure never
    stops later tokens. The exit code is always 0.

Modelling assumptions. Where the code departs from the usual CIDR
conventions, the model follows the code:

- The code scans bits from the least significant end. A scan from the most
  significant end would accept the same masks.
- Conventionally `0.0.0.0` is the mask of `/0`. This code returns 32 for it,
  because `bits` never leaves its initial 0 (`Mask.ZeroMaskYields32`,
  `Calculator.ZeroMaskIsHostNetwork`).
- The code has no check that a `/N` prefix is at most 32. The model passes
  any value `byte.Parse` accepts (0..255) straight on.
- A token such as `A-B/N` mixes two forms, and neither the range nor the
  CIDR branch accepts it (`Descriptor.ClassifyRangeWithPrefix`). The mask
  branch looks only at the pieces on either side of the first `%`.
  `A-B/N%M`, with `M` non-empty and the `%` after `N`, is the mask form with
  address operand `A-B/N` (`Descriptor.ClassifyRangeWithPrefixAndMask`).
  `A-B%M/N` is the mask form `(A-B, M/N)`
  (`Descriptor.ClassifyMaskBeforePrefix`). Without a `%`, or with an empty
  piece on either side of the first `%`, the token is rejected
  (`Descriptor.ClassifyEmptyMaskPiece`).
- The byte-array `GetBit` extension is assumed to read bit `i % 8` of byte
  `i / 8` (`Mask.GetBit`).
- The span `Split` extension is assumed to cut at every separator and keep
  empty pieces. `ElementAtOrDefault` gives the empty span when a piece is
  absent (`Descriptor.Split`, `Descriptor.ElementAtOrDefault`).

## Model

| member | source | states |
|---|---|---|
| `Mask.ParseMask` | ipcalc/Program.cs:75-108 | The bit scan over the reversed copy of the address returns exactly `MaskToPrefix(address)`. That is `32 - bits`, with `bits` the lowest set bit, or `Invalid mask` carrying the address when a clear bit lies above a set one. |
| `Mask.MaskToPrefix` | ipcalc/Program.cs:86-107 | An accepted mask yields a prefix in 1..32. A rejected mask yields `InvalidMask` carrying that mask. |
| `Mask.LowestSetBit` | ipcalc/Program.cs:97-103 | The index the loop stores in `bits`. It is at least `from`, the bit there is set when the index is below 32, and every bit between `from` and it is clear. |
| `Mask.ReverseBytes` | ipcalc/Program.cs:81-84 | `Array.Reverse` in place. Element k afterwards is the old element `Length - 1 - k`. |
| `Mask.GetBit` | ipcalc/Program.cs:92-99 | `bytes.GetBit(i)` is true exactly when byte `i / 8` has the bit `1 << (i % 8)` set. |
| `Mask.ReversedBit` | ipcalc/Program.cs:88-99 | After the reversal, `GetBit(bytes, i)` reads bit i of the address counted from its least significant end. |
| `Mask.GapRejected` | ipcalc/Program.cs:90-95 | A clear bit above a set bit makes the mask invalid. |
| `Mask.RunAccepted` | ipcalc/Program.cs:97-107 | Clear bits below `low` and set bits from `low` to the top give prefix `32 - low`. |
| `Mask.ZeroAccepted` | ipcalc/Program.cs:77-107 | With no bit set the mask is accepted and the result is 32. |
| `Mask.MaskOfPrefixBit` | ipcalc/Program.cs:86-107 | The mask of prefix k has exactly its k most significant bits set. |
| `Mask.ContiguousIsPrefixMask` | ipcalc/Program.cs:88-107 | Every mask that passes the scan is the prefix mask of `32 - lowest set bit`. |
| `Mask.PrefixMaskIsContiguous` | ipcalc/Program.cs:88-107 | Every prefix mask passes the scan, and its lowest set bit is `32 - k`. |
| `Mask.PrefixMaskRoundTrip` | ipcalc/Program.cs:86-107 | For 1 <= k <= 32, the mask with the top k bits set parses back to k. |
| `Mask.ZeroMaskYields32` | ipcalc/Program.cs:77-107 | `0.0.0.0` is the prefix-0 mask, and it is accepted with result 32, not 0. |
| `Mask.MaskAcceptedIffPrefixMask` | ipcalc/Program.cs:88-95 | A mask is accepted if and only if it is `MaskOfPrefix(k)` for some k in 0..32. So only "k ones, then 32-k zeros" passes. |
| `Mask.AcceptedMaskPrefix` | ipcalc/Program.cs:99-107 | An accepted mask other than `0.0.0.0` is the mask of the prefix returned. `0.0.0.0` returns 32. |
| `Mask.NonContiguousMaskRejected` | ipcalc/Program.cs:90-95 | `255.0.255.0` is rejected with `Invalid mask`. |
| `Descriptor.Split` | ipcalc/Program.cs:44-49 | Splitting gives at least one piece, and no piece contains the separator. |
| `Descriptor.JoinSplit` | ipcalc/Program.cs:44-49 | Joining the pieces with the separator gives back the token. |
| `Descriptor.SplitJoin` | ipcalc/Program.cs:44-49 | Splitting a join of separator-free pieces gives back those pieces. |
| `Descriptor.ElementAtOrDefault` | ipcalc/Program.cs:44-49 | Piece i when there are more than i pieces. Otherwise the empty span. The result is always one of the pieces or empty. |
| `Descriptor.Segment` | ipcalc/Program.cs:44-49 | Each of the six operands read from the token is free of its separator. Piece 0 opens the token. Without the separator, piece 0 is the whole token and piece 1 is empty. |
| `Descriptor.FirstPieceOpens` | ipcalc/Program.cs:44-49 | The first piece of a split opens the text. A text without the separator splits into itself alone. |
| `Descriptor.Classify` | ipcalc/Program.cs:44-70 | The range form has two non-empty operands without `-`. The CIDR form has two non-empty operands without `/`. The mask form has two non-empty operands without `%`. A token with none of the three separators is rejected. |
| `Descriptor.ClassifySound` | ipcalc/Program.cs:42-70 | Each form's two operands are non-empty and free of its separator. Joined by that separator, they open the token. A range token has an empty second `/` piece, and a CIDR token an empty second `-` piece. |
| `Descriptor.ClassifyRange` | ipcalc/Program.cs:55-57 | `A-B` with plain, non-empty A and B is the range form `(A, B)`. |
| `Descriptor.ClassifyCidr` | ipcalc/Program.cs:59-61 | `A/N` is the CIDR form `(A, N)`. |
| `Descriptor.ClassifyMaskForm` | ipcalc/Program.cs:63-65 | `A%M` is the mask form `(A, M)`. |
| `Descriptor.ClassifyNoSeparator` | ipcalc/Program.cs:67-70 | A token with none of the three separators is rejected. This covers `abc` and the empty token. |
| `Descriptor.ClassifyRangeWithMask` | ipcalc/Program.cs:44-57 | Because the range form is tried first, `A-B%M` is the range `(A, B%M)`. |
| `Descriptor.ClassifyRangeWithPrefix` | ipcalc/Program.cs:44-70 | `A-B/N` without `%` is rejected. The second `/` piece blocks the range form, and the second `-` piece blocks the CIDR form. |
| `Descriptor.ClassifyRangeWithPrefixAndMask` | ipcalc/Program.cs:44-65 | `A-B/N%M` falls through to the mask form `(A-B/N, M)`. |
| `Descriptor.ClassifyEmptyMaskPiece` | ipcalc/Program.cs:44-70 | `A-B/N%` fails all three guards, because its piece after the `%` is empty, and is rejected. |
| `Descriptor.ClassifyMaskBeforePrefix` | ipcalc/Program.cs:44-65 | `A-B%M/N` fails the range and CIDR guards and is the mask form `(A-B, M/N)`: only the first `%` splits off the mask. |
| `Descriptor.ClassifyIgnoresExtraPieces` | ipcalc/Program.cs:44-61 | Pieces after the second are never looked at. `A-B-C` is the range `(A, B)`, and `A/N/X` is the CIDR form `(A, N)`. |
| `Calculator.Calculate` | ipcalc/Program.cs:42-73 | "Invalid address range syntax" is reported exactly when the classifier finds no form. A `byte.Parse` failure can come only from a CIDR token. `Invalid mask` can come only from a mask-form token. |
| `Calculator.CalculateAddress` | ipcalc/Program.cs:42-73 | The result equals `Calculate`: it classifies the token, then parses the operands left to right. The first failure is reported. Otherwise the parsed values go to the matching `CalculateNetwork`, and the mask form goes through `ParseMask`. |
| `Calculator.ProcessArguments` | ipcalc/Program.cs:13-30 | There is one outcome per token, and each is that token's own `Calculate` result. A failing token does not affect the others. The exit code is 0. |
| `Calculator.MaskFormMatchesCidr` | ipcalc/Program.cs:59-65 | `A%M`, with M the mask of prefix k in 1..32, gives the same result as `A/N` with N read as k. |
| `Calculator.ZeroMaskIsHostNetwork` | ipcalc/Program.cs:63-65 | `A%0.0.0.0` asks for the network of A with prefix 32. |
| `Calculator.NonContiguousMaskReported` | ipcalc/Program.cs:63-65 | `A%255.0.255.0` reports `Invalid mask` once A parses. |
| `Calculator.PlainTokenRejected` | ipcalc/Program.cs:67-70 | A token without separators reports "Invalid address range syntax", whatever the parsers do. |
| `Calculator.RangeWithPrefixRejected` | ipcalc/Program.cs:55-70 | `A-B/N` reports "Invalid address range syntax". |
| `Calculator.RangeOutcome` | ipcalc/Program.cs:55-58 | For `A-B`, an unparsable start is reported first, then an unparsable end. Otherwise both parsed ends go to the range calculator. |

## Left out

- Console output, colours and message joining (ipcalc/Program.cs:23-25, 72) are I/O. The outcomes returned by `ProcessArguments` stand for the printed lines. The model does not render `IPAddress.ToString` text.
- `IPAddress.Parse` and `byte.Parse` are framework parsers and are not part of this model. They are the `parseIp` and `parseByte` fields of `Calculator.Library`. `None` stands for the exception they throw.
- IPv6 results of `IPAddress.Parse` are not modelled. An address is always 4 octets, because the calculator is fixed to `InterNetwork`. A 16-byte mask reaching `ParseMask` is therefore outside the model.
- `IPAddressRanges.CalculateNetwork` (both overloads) lives in a library that is not part of this model. It is the pair of total functions `rangeNetwork` and `prefixNetwork` in `Calculator.Library`. No algorithm is attributed to it, and any exception it might throw is not modelled.
- The big-endian host path (ipcalc/Program.cs:81) is not modelled. The model always reverses, as on a little-endian host.
- `Mask.ParseMask` returns its prefix as an unbounded natural number, not a `byte`. Its value is always 1..32, so the `(byte)` cast in the source never truncates.
- The `LTRData` `Split`, `ElementAtOrDefault` and `GetBit` extensions are not part of this model. Their behaviour is the assumption stated above, written out as `Descriptor.Split`, `Descriptor.ElementAtOrDefault` and `Mask.GetBit`.
