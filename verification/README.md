# The entropy-coded core of CELT, and an H.264 packetizer

A Dafny model of the part of the Opus/CELT codec under `sip/native/opus/celt` that has to be exact,
because encoder and decoder must take the same decisions from the same bits, and of the H.264
packetizer of baresip. The range coder is that of sections 4.1 and 5.1 of RFC 6716, the pulse vector
codebook that of its section 4.3.4.2, the fragmentation that of section 5.8 of RFC 3984.

`dafny verify dfyconfig.toml` checks everything. One module a file:

- **The range coder.** `Interval` is the coder with unbounded integers. `Encoder`, `Flush` and
  `Decoder` are the two finite machines of `entenc.c` and `entdec.c` with all their registers: delayed
  carries, raw bits packed backwards from the end of the same buffer, finishing, the decoder's
  distance from the top of the range. Both are proved to represent the same interval. `RoundTrip`
  couples them: any mix of calls that finishes without error is decoded in lockstep, whatever follows
  the bits that were fixed. A carry that meets `rem == 255` is harmless: by the invariant
  `Encoder.CarryInv`, which `Encoder.NormalizeRefines` keeps, `rem + carry` never exceeds 255. `Space`
  shows that an error only ever appears once `ec_tell` has passed `8 * storage`, so a stream whose
  `ec_tell` ends within the buffer is finished and decoded. `EcCtx` is `struct ec_ctx` with its buffer,
  updated in place, each method proved to take the step of the value-level coder. `Symbols` holds the
  alphabets, `Bits` powers of two and bit strings, `Arith` the nonlinear arithmetic, `Integers` minimum,
  maximum and absolute value.
- **Counting bits.** `Tell` (both forms of `ec_tell_frac`, `ec_ilog`), `Log2Frac`, `LogBounds` (how far
  both logarithms can be off on the safe side), and `SmallDiv` (the reciprocal table of `celt_udiv`).
- **Frame syntax.** `FrameSyntax` and `FrameCode` are the budgeted blocks of `celt_encoder.c` and
  `celt_decoder.c`: `tf_encode`/`tf_decode`, spread, dynalloc and trim. The decoder recovers them from
  the packet as encoded, and also from a packet shrunk afterwards to no less than `min_allowed`, which
  is what the comment at `celt_encoder.c:2099-2102` says the margin of two bytes is for. `Postfilter`
  is the block whose encoder does not ask the bit count while its decoder does. `FrameStart` puts the
  silence flag, this block and the transient flag in front: `FrameStart.WholeFrame` is a frame from its
  first bit on. `Budgets` says what the tests themselves are for: each asks for the dearest value of the
  symbol it guards, so that the header never overruns the packet, and nothing is cut short while bits last.
- **Around the coder.** `Pvq` (table-based and row-based numbering of pulse vectors) and `Pulses`
  (the same through the coder), `Theta` (the split angle, three probability models, integer square
  root), `TfAnalysis` (two-state Viterbi search), `Hadamard` (time-frequency changes and their
  undoing) and `Walsh` (the transform they amount to), `Lpc` (Levinson-Durbin), `Iir` and `Fir` (the
  unrolled filters; `celt_fir` and the simple form of `celt_iir` are inverse), over the reals.
- **`H264`**: start code scan, fragmentation, reassembly.

How the model is built: what the C code does step by step is a method over the same fields and arrays,
proved equal to a function of the old state; what the code is for is proved of those functions.
Integers are unbounded; where the C width matters it is an invariant (val + rng < 2^32 in the encoder),
a precondition (codebooks below 2^32) or written out (`& (EC_CODE_TOP - 1)`, byte casts). Shifts are
powers of two, and the bitwise operations on disjoint or masked parts are defined bit by bit in `Bits`.
`error` is sticky and non-zero means failure.

What the code does not do, although its surroundings suggest it:

- `celt_iir` is only right for N divisible by 4. The tail loop (`celt_lpc.c:196-203`) subtracts
  products of a history that the main loop stores negated. `Iir.Unrolled` is what it computes, and
  `Iir.CeltIir` proves that of every sample and of mem. The two forms agree on an input if and only if
  the whole blocks feed nothing back into the tail (`Iir.AgreeExactly`), and on all inputs of a length
  if and only if it is a multiple of 4 (`Iir.WholeBlocksNeeded`).
- The postfilter parameters are written without a test of the bit count (`celt_encoder.c:1676-1687`)
  but read under two (`celt_decoder.c:972`, `980`). `Postfilter.ParamsStep` gives the exact conditions,
  in terms of the encoder's state before it writes them, under which they arrive and under which the
  coders stay in step: the first is weaker, as a tapset of 0 that is not read has arrived all the same.
  For a fresh coder both come down to one number: the packet must have at least 3 bytes
  (`Postfilter.FreshExactly`). The test of `nbAvailableBytes` at `celt_encoder.c:1664` implies it for a
  packet of the size that count was taken for (`Postfilter.GuardEnough`), and a VBR shrink to
  `min_allowed` keeps it (`Postfilter.ShrinkHarmless`). The path that fails is a constant bitrate other
  than `OPUS_BITRATE_MAX`, where `celt_encoder.c:1569-1571` makes the packet smaller, down to 2 bytes,
  after line 1552 has computed `nbAvailableBytes`: `PostfilterLoss.ConstantRateFails` is a packet of two
  bytes that finishes without error, whose postfilter the decoder does not see and behind which it is out
  of step.
- Both sides test a `tell` taken before the silence flag. It can be one less than the count where the
  parameters stand (`Postfilter.SilenceFlag`); the model keeps it as a parameter of its own. The decoder
  takes a new count only behind the postfilter's block, the encoder before every flag;
  `FrameStart.SameDecisions` shows that this makes no difference.
- An H.264 unit does not always survive: fragments drop the forbidden_zero_bit (`h264.c:102-105`), and
  a unit sent whole whose type is 28 looks like a fragment. A stream comes back if and only if none of
  its units is of either kind (`H264.PacketsReassemble`); `H264.LostUnitExample` is one that does not.
- A packet can be longer than `maxsz`, because the test at `h264.c:95` does not count the header byte: a
  unit of exactly `maxsz` + 1 bytes is sent whole. No packet is longer than `maxsz` if and only if no unit
  has that size (`H264.PacketSizes`, with `H264.LongPacketExample`).
- An empty unit makes `r1-r-1` at `h264.c:149` wrap around. There is none if and only if no two start
  codes adjoin (`H264.NoneEmptyExactly`, with `H264.EmptyUnitExample`), which `H264.Packetize` requires.

## Model

| member | source | states |
|---|---|---|
| IntervalCoder.StepNests | sip/native/opus/celt/entenc.c:128-137 | coding a symbol, at any precision, never leaves the interval reached before |
| IntervalCoder.RescaleNests | sip/native/opus/celt/entenc.c:101-110 | rescaling an interval to more precision keeps its points |
| IntervalCoder.NestedTransitive | sip/native/opus/celt/entenc.c:101-137 | nesting carries over from step to step, so the last interval lies in all earlier ones |
| IntervalCoder.CoversOuter | sip/native/opus/celt/entenc.c:248-249 | a byte stream inside an interval is inside every interval around it |
| IntervalCoder.ZeroPadded | sip/native/opus/celt/entdec.c:91-93 | a stream selects the same point as with zeros behind it |
| Symbols.CutBounds | sip/native/opus/celt/entenc.c:128-173 | every symbol of every alphabet owns a nonempty slice of every normalised range, so rng never becomes 0 |
| Symbols.SlicesTile | sip/native/opus/celt/entenc.c:128-137 | the slices of an alphabet fill the range in order, without gap or overlap |
| Symbols.FairShare | sip/native/opus/celt/entenc.c:128-137 | a slice is the symbol's share of the range, rounded down for each unit of frequency; the first symbol gets what is left |
| Symbols.FlagIsFreq | sip/native/opus/celt/entenc.c:151-162 | a flag of 1 has one part in 2^logp, behind 0 |
| Symbols.IcdfIsFreq | sip/native/opus/celt/entenc.c:164-173 | an inverse table stands for the frequencies counted down from 2^ftb; only where its first symbol has no share does the rounding go to no one |
| Symbols.UintArithmetic | sip/native/opus/celt/entenc.c:175-191 | the range-coded part of a large integer has at most 256 values and at most 24 bits stay raw |
| Symbols.UintTop | sip/native/opus/celt/entenc.c:181-185 | the range-coded part of a large integer keeps all of its top 8 bits |
| Encoder.CarryOutDigit | sip/native/opus/celt/entenc.c:82-99 | with the carry delayed in rem and ext, symbol c (carry bit included) becomes exactly the next base-256 digit of the number written so far |
| Encoder.NormalizeRefines | sip/native/opus/celt/entenc.c:101-110 | written bytes, rem, ext 255s and val denote the low end of the ideal interval through every renormalisation; the carry stops before the first byte |
| Encoder.EncodeSymbolRefines | sip/native/opus/celt/entenc.c:128-173 | each of the four symbol calls narrows the ideal interval to the symbol's slice, keeps val + rng < 2^32 and counts the bits |
| Encoder.EncodeBinIsEncode | sip/native/opus/celt/entenc.c:139-149 | ec_encode_bin is ec_encode with total 2^bits |
| Encoder.FlushWindowKeepsBits | sip/native/opus/celt/entenc.c:193-205 | moving whole bytes from the window to the end of the buffer keeps the raw bit string |
| Encoder.EncodeBitsAppends | sip/native/opus/celt/entenc.c:193-212 | ec_enc_bits appends exactly the given bits to the raw bit string and leaves the range coder alone |
| Flush.ChooseFits | sip/native/opus/celt/entenc.c:250-261 | [end, end\|msk] lies inside [val, val + rng): the second choice of msk always suffices |
| Flush.NoBitsNeeded | sip/native/opus/celt/entenc.c:250-262 | no bits are written only while the range is whole and val is 0 |
| Flush.ChooseMinimal | sip/native/opus/celt/entenc.c:248-261 | no value with fewer fixed bits keeps all its continuations inside [val, val + rng): the least number of bits is chosen |
| Flush.PutEndValue | sip/native/opus/celt/entenc.c:262-266 | the bytes ec_enc_done emits through the carry buffer spell low's digits followed by end |
| Flush.WrittenValue | sip/native/opus/celt/entenc.c:262-268 | after the flush the buffer prefix equals that number and its free low bits are zero |
| Flush.LayoutParts | sip/native/opus/celt/entenc.c:276-278 | the finished buffer holds the range coder bytes in front, the raw bytes in reverse at its end, and zeros in between |
| Flush.FixedBitsCover | sip/native/opus/celt/entenc.c:248-249 | every stream that starts with the fixed bits, whatever follows them, selects a point of the final interval |
| Flush.MergeKeepsCode | sip/native/opus/celt/entenc.c:276-292 | or-ing the last raw bits into a shared byte never changes the fixed range coder bits, even when busting |
| Flush.MergeKeepsRaw | sip/native/opus/celt/entenc.c:276-292 | after a success the raw bits stand at the end of the buffer in order, even in a shared byte |
| Flush.CarryOutSpace | sip/native/opus/celt/entenc.c:60-99 | ec_enc_carry_out fails exactly when the digits known so far and the tail exceed the buffer |
| Flush.FlushedSpace | sip/native/opus/celt/entenc.c:262-275 | the flush fails exactly when whole range coder bytes and whole raw bytes exceed the buffer |
| Flush.FinishFits | sip/native/opus/celt/entenc.c:244-294 | ec_enc_done ends without error if and only if 8 * digits + l + raw bits <= 8 * storage |
| Decoder.InitAt | sip/native/opus/celt/entdec.c:119-137 | on every input, also an empty one, decoding starts at the whole interval |
| Decoder.NormalizeAt | sip/native/opus/celt/entdec.c:102-117 | the register "top of range minus input minus one" keeps its meaning through renormalisation |
| Decoder.CutCovers | sip/native/opus/celt/entdec.c:139-160 | the input lies in a slice if and only if val lies between the slice's bounds |
| Decoder.DecodeFreqMatches | sip/native/opus/celt/entdec.c:139-151 | ec_decode returns a frequency of [fl, fh) if and only if the input is in that slice |
| Decoder.IcdfSearchMatches | sip/native/opus/celt/entdec.c:177-196 | the search of ec_dec_icdf stops at s if and only if the input is in the slice of s |
| Decoder.DecodedMatches | sip/native/opus/celt/entdec.c:139-196 | for all four alphabets: the right symbol is decoded exactly when the input is in its slice |
| Decoder.AdvanceAt | sip/native/opus/celt/entdec.c:153-196 | after the right symbol the decoder stands at that symbol's slice, rescaled, with the same rng and bit count as the encoder |
| Decoder.DecodeBitsValue | sip/native/opus/celt/entdec.c:225-245 | ec_dec_bits returns the next bits of the raw string and does not disturb the range decoder |
| Decoder.DecodeBitsMoves | sip/native/opus/celt/entdec.c:225-245 | and moves on by exactly that many bits |
| Decoder.UintClamps | sip/native/opus/celt/entdec.c:198-223 | on any stream, the smaller of the composed value and ft - 1, with error set exactly when that value is ft or more; a small alphabet has no such value |
| Bits.RawBitAt | sip/native/opus/celt/entdec.c:95-98 | raw bits fill the buffer from its end, the lowest bit of each byte first |
| RoundTrip.OpExtends | sip/native/opus/celt/entenc.c:128-242 | every call keeps the invariant, nests the interval and only appends raw bits |
| RoundTrip.AlwaysRunnable | sip/native/opus/celt/entenc.c:128-212 | calls other than ec_enc_shrink can come in any order: none ever breaks what another one needs |
| RoundTrip.RunExtends | sip/native/opus/celt/entenc.c:128-242 | so does every run of calls |
| RoundTrip.SymbolStep | sip/native/opus/celt/entdec.c:139-196 | a decoder coupled to the encoder, on a stream carrying the next state, reads the symbol and stays coupled |
| RoundTrip.RawStep | sip/native/opus/celt/entdec.c:225-245 | the same for raw bits |
| RoundTrip.UintStep | sip/native/opus/celt/entdec.c:198-223 | the same for ec_enc_uint and ec_dec_uint, small and large |
| RoundTrip.LockstepHolds | sip/native/opus/celt/entdec.c:102-245 | for every run of calls, on every stream that carries its end: each call returns what was encoded, and rng and the bit count agree before and after every call |
| RoundTrip.FinishCarries | sip/native/opus/celt/entenc.c:244-294 | a buffer finished without error carries the whole run |
| RoundTrip.FinishKeeps | sip/native/opus/celt/entenc.c:244-294 | even a busted buffer still carries the range-coded symbols |
| RoundTrip.StreamRoundTrip | sip/native/opus/celt/entenc.c:112-294 | for every mix of symbols, integers, raw bits and shrinks that finishes without error, the decoder runs in lockstep on the finished buffer |
| RoundTrip.AnyContinuation | sip/native/opus/celt/entenc.c:248-249 | the same for any stream that agrees on the fixed bits and carries the raw bits, whatever else it holds |
| RoundTrip.TellIsEnough | sip/native/opus/celt/entcode.h:105-113 | if no error is set and ec_tell <= 8 * storage, ec_enc_done succeeds |
| Space.SymbolErrorIsLate | sip/native/opus/celt/entenc.c:60-173 | a symbol that sets the error has pushed ec_tell past the end of the buffer |
| Space.RawErrorIsLate | sip/native/opus/celt/entenc.c:193-212 | so has a raw value |
| Space.RunKeepsLate | sip/native/opus/celt/entcode.h:105-113 | over every run of calls, shrinks included, error is only set once ec_tell > 8 * storage |
| Space.FittingRun | sip/native/opus/celt/entcode.h:105-113 | a run whose ec_tell ends within the buffer has no error, is finished without one, and is decoded in lockstep |
| Space.FittingStream | sip/native/opus/celt/entcode.h:105-113 | every sequence of symbols, integers and raw bits, in any order, whose ec_tell ends within the buffer is decoded in lockstep |
| EntropyContext.EcCtx.EncInit | sip/native/opus/celt/entenc.c:112-126 | the object starts as the initial encoder state |
| EntropyContext.EcCtx.WriteByte | sip/native/opus/celt/entenc.c:60-64 | in place, one step of the value-level byte writer, error when front and back meet |
| EntropyContext.EcCtx.WriteByteAtEnd | sip/native/opus/celt/entenc.c:66-70 | the same from the back |
| EntropyContext.EcCtx.CarryOut | sip/native/opus/celt/entenc.c:82-99 | in place, equal to the value-level carry-out |
| EntropyContext.EcCtx.FlushExt | sip/native/opus/celt/entenc.c:91-96 | the do-while loop equals the recursive flush |
| EntropyContext.EcCtx.EncNormalize | sip/native/opus/celt/entenc.c:101-110 | the loop equals the recursive normalisation |
| EntropyContext.EcCtx.Encode | sip/native/opus/celt/entenc.c:128-137 | in place, equal to the value-level call |
| EntropyContext.EcCtx.EncodeBin | sip/native/opus/celt/entenc.c:139-149 | likewise |
| EntropyContext.EcCtx.EncodeBit | sip/native/opus/celt/entenc.c:151-162 | likewise |
| EntropyContext.EcCtx.EncodeIcdf | sip/native/opus/celt/entenc.c:164-173 | likewise |
| EntropyContext.EcCtx.FlushWindow | sip/native/opus/celt/entenc.c:199-205 | the loop equals the recursive flush of the window |
| EntropyContext.EcCtx.EncodeBits | sip/native/opus/celt/entenc.c:193-212 | in place, equal to the value-level call |
| EntropyContext.EcCtx.EncodeUint | sip/native/opus/celt/entenc.c:175-191 | likewise |
| EntropyContext.EcCtx.EncShrink | sip/native/opus/celt/entenc.c:237-242 | the last bytes move to the new end, and every other part of the state is as it was |
| EntropyContext.EcCtx.EncDone | sip/native/opus/celt/entenc.c:244-294 | error is 0 exactly when the value-level finish is Done, and the buffer is the one it yields |
| EntropyContext.EcCtx.DecInit | sip/native/opus/celt/entdec.c:119-137 | the object starts as the initial decoder state on its buffer |
| EntropyContext.EcCtx.ReadByte | sip/native/opus/celt/entdec.c:91-93 | the next byte, or 0 past the end |
| EntropyContext.EcCtx.ReadByteFromEnd | sip/native/opus/celt/entdec.c:95-98 | the next byte from the back, or 0 |
| EntropyContext.EcCtx.DecNormalize | sip/native/opus/celt/entdec.c:102-117 | the loop equals the recursive normalisation |
| EntropyContext.EcCtx.Decode | sip/native/opus/celt/entdec.c:139-144 | the frequency, with the unit saved in ext |
| EntropyContext.EcCtx.DecodeBin | sip/native/opus/celt/entdec.c:146-151 | the same with total 2^bits |
| EntropyContext.EcCtx.DecUpdate | sip/native/opus/celt/entdec.c:153-160 | in place, equal to the value-level update |
| EntropyContext.EcCtx.DecodeBit | sip/native/opus/celt/entdec.c:162-175 | in place, equal to the value-level call |
| EntropyContext.EcCtx.DecodeIcdf | sip/native/opus/celt/entdec.c:177-196 | the returned symbol's slice contains val; the new state is the one behind it |
| EntropyContext.EcCtx.DecodeBits | sip/native/opus/celt/entdec.c:225-245 | in place, equal to the value-level call |
| EntropyContext.EcCtx.DecodeUint | sip/native/opus/celt/entdec.c:198-223 | likewise, with the error flag and the clamped result on a bad stream |
| Tell.TableIsSquared | sip/native/opus/celt/entcode.c:69-114 | for every 16-bit leading part the table form and three squarings find the same eighths |
| Tell.TellFracBySquaring | sip/native/opus/celt/entcode.c:86-114 | the iterated-squaring form of ec_tell_frac returns what the table form returns, for every rng |
| Tell.NeverUnderReports | sip/native/opus/celt/entcode.h:115-121 | rng^8 >= 2^(l - 8): the count of used bits is never too low |
| LogBounds.BarelyOverReports | sip/native/opus/celt/entcode.h:115-121 | rng^8 < 2^(l - 6): nor is it too high by a quarter bit or more |
| Tell.Log8Monotone | sip/native/opus/celt/entcode.c:69-84 | a larger range never counts as fewer bits |
| Tell.CountsGrow | sip/native/opus/celt/entcode.h:105-121 | coding a symbol never lowers ec_tell or ec_tell_frac |
| Tell.TellRoundsUp | sip/native/opus/celt/entcode.h:105-121 | ec_tell is ec_tell_frac rounded up to whole bits |
| Tell.EcIlog | sip/native/opus/celt/entcode.c:41-62 | the halving search returns the position of the leading bit of every 32-bit number |
| Log2Frac.PowerOfTwoTest | sip/native/opus/celt/cwrs.c:49 | val & (val - 1) is 0 exactly for powers of two |
| Log2Frac.LoopRange | sip/native/opus/celt/cwrs.c:58-65 | the loop's square fits 32 bits and its value stays below 2^17 |
| Log2Frac.Log2Frac | sip/native/opus/celt/cwrs.c:45-71 | the do-while loop computes the recursive logarithm |
| Log2Frac.NeverTooLow | sip/native/opus/celt/cwrs.c:41-44 | val^(2^frac) <= 2^result, with equality at powers of two |
| LogBounds.BarelyTooHigh | sip/native/opus/celt/cwrs.c:41-44 | 2^result <= 4 * val^(2^frac) for up to 12 fractional bits: at most two units too high, although the loop rounds up at every turn |
| SmallDiv.TableExact | sip/native/opus/celt/entcode.c:117-152 | every entry used is 2^32 / (2i + 1) rounded down, or one less where that does not fit |
| SmallDiv.AndNegated | sip/native/opus/celt/entcode.h:131 | d & -d is the lowest set bit |
| SmallDiv.Estimate | sip/native/opus/celt/entcode.h:132 | the multiplied estimate is the quotient or one less |
| SmallDiv.UdivExact | sip/native/opus/celt/entcode.h:123-138 | celt_udiv is n / d for every 32-bit n and d |
| SmallDiv.SudivTruncates | sip/native/opus/celt/entcode.h:140-150 | celt_sudiv rounds towards zero |
| Pvq.Symmetric | sip/native/opus/celt/cwrs.c:195-196 | U(n, k) = U(k, n), which the table's row and column swap relies on |
| Pvq.Slice | sip/native/opus/celt/cwrs.c:198-199 | U(n, k + 1) - U(n, k) counts the vectors of one less dimension and norm k |
| Pvq.IndexBound | sip/native/opus/celt/cwrs.c:440-456 | the number of a vector is below V(n, k), and its slice is that of its first coordinate |
| Pvq.VectorOfIndex | sip/native/opus/celt/cwrs.c:440-537 | ranking is one to one: unranking gives the vector back |
| Pvq.IndexOfVector | sip/native/opus/celt/cwrs.c:440-537 | ranking is onto: every number below V(n, k) is that of a vector of norm k |
| Pvq.IndexOrder | sip/native/opus/celt/cwrs.c:440-456 | the order of the codebook: vectors that begin with a negative value come last, then the larger a first value the earlier, then the other coordinates decide |
| Pvq.RankByTable | sip/native/opus/celt/cwrs.c:440-456 | icwrs over the array computes the number, in 32 bits |
| Pvq.SearchPulses | sip/native/opus/celt/cwrs.c:481-491 | the many-pulses search, from either end, finds the largest k with U(n, k) <= i |
| Pvq.StepDown | sip/native/opus/celt/cwrs.c:509-513 | so does the search along a column in the many-dimensions branch |
| Pvq.NextCoordinate | sip/native/opus/celt/cwrs.c:470-520 | one round of cwrsi yields the next coordinate and the norm and number of the rest, in both branches |
| Pvq.LastCoordinates | sip/native/opus/celt/cwrs.c:521-535 | the last two coordinates need no search |
| Pvq.UnrankByTable | sip/native/opus/celt/cwrs.c:463-537 | cwrsi writes the vector with the given number and returns its sum of squares |
| Pvq.RowStepsInverse | sip/native/opus/celt/cwrs.c:545-576 | unext and uprev undo each other on every row |
| Pvq.NextRowIsU | sip/native/opus/celt/cwrs.c:545-559 | unext takes row n of U to row n + 1 |
| Pvq.PrevRowIsU | sip/native/opus/celt/cwrs.c:561-575 | uprev takes it back |
| Pvq.Unext | sip/native/opus/celt/cwrs.c:548-559 | the in-place loop is that row step |
| Pvq.Uprev | sip/native/opus/celt/cwrs.c:564-575 | likewise |
| Pvq.FillRow | sip/native/opus/celt/cwrs.c:577-598 | ncwrs_urow leaves row n and returns V(n, k) |
| Pvq.UnrankByRow | sip/native/opus/celt/cwrs.c:600-630 | the row-based cwrsi writes the same vector as the table-based one |
| Pvq.RankByRow | sip/native/opus/celt/cwrs.c:641-667 | the row-based icwrs returns the same number, and V(n, k) |
| Pulses.DecodedNorm | sip/native/opus/celt/cwrs.c:539-541 | on every stream decode_pulses yields a vector of the right dimension and norm |
| Pulses.VectorStep | sip/native/opus/celt/cwrs.c:458-541 | a vector encoded by encode_pulses is decoded unchanged and the coders stay in step |
| Pulses.EncodePulses | sip/native/opus/celt/cwrs.c:458-461 | on the coder and the array, equal to the value-level encoding |
| Pulses.DecodePulses | sip/native/opus/celt/cwrs.c:539-541 | likewise, with the sum of squares |
| Lpc.LevinsonStep | sip/native/opus/celt/celt_lpc.c:56-76 | one iteration turns a solution of the normal equations of order i into one of order i + 1 and updates the error exactly |
| Lpc.LevinsonSolves | sip/native/opus/celt/celt_lpc.c:53-83 | after every iteration all normal equations hold and error follows e - r*r*e, as long as no error was 0 |
| Lpc.Reflect | sip/native/opus/celt/celt_lpc.c:67-74 | the paired update from both ends computes every new coefficient from old ones, middle element included |
| Lpc.InnerProduct | sip/native/opus/celt/celt_lpc.c:59-61 | the sum over lpc[j] * ac[i - j] |
| Lpc.CeltLpc | sip/native/opus/celt/celt_lpc.c:37-88 | the array ends with the recursion's coefficients of the first order whose error fell below 0.001 ac[0] (or the last order), zeros behind, and no division by 0 |
| Iir.NearAndFar | sip/native/opus/celt/celt_lpc.c:145-148 | the feedback sum split into its first n terms and the rest, in either order |
| Iir.FilterSimple | sip/native/opus/celt/celt_lpc.c:137-153 | the per-sample loop, in place or not, outputs the recursive filter and leaves its last outputs in mem |
| Iir.XcorrKernel | sip/native/opus/celt/celt_lpc.c:173-177 | lane c receives sum_j x[j] * y[j + c] |
| Iir.Patched | sip/native/opus/celt/celt_lpc.c:179-194 | the corrections within a block turn the four partial sums into filter outputs |
| Iir.Block | sip/native/opus/celt/celt_lpc.c:169-195 | one unrolled turn outputs four samples and stores them negated |
| Iir.CeltIir | sip/native/opus/celt/celt_lpc.c:155-206 | in place or not, every output and mem are those of the form unrolled by four: the simple form in whole blocks, and behind them the recursion with the wrong sign for earlier samples |
| Iir.Remainder | sip/native/opus/celt/celt_lpc.c:196-203 | the tail loop computes that recursion |
| Iir.SampleIsOff | sip/native/opus/celt/celt_lpc.c:196-203 | while the tail is right so far, the next sample is off by exactly twice the feedback of the samples before it |
| Iir.TailRight | sip/native/opus/celt/celt_lpc.c:196-203 | the tail agrees with the simple form if and only if that feedback is zero at each of its times |
| Iir.AgreeExactly | sip/native/opus/celt/celt_lpc.c:137-206 | the two forms agree on an input if and only if its whole blocks feed nothing back into the tail |
| Iir.WholeBlocksNeeded | sip/native/opus/celt/celt_lpc.c:137-206 | they agree on all inputs of a length if and only if it is a multiple of four |
| Iir.RemainderWrong | sip/native/opus/celt/celt_lpc.c:196-203 | for every N not divisible by 4 there is an input on which the unrolled form differs from the simple one |
| Fir.CeltFir | sip/native/opus/celt/celt_lpc.c:91-123 | the loop unrolled by four and its tail compute the filter |
| Fir.FirUndoesIir | sip/native/opus/celt/celt_lpc.c:91-153 | celt_fir gives back the input of the simple form of celt_iir with the same coefficients |
| Fir.IirUndoesFir | sip/native/opus/celt/celt_lpc.c:91-153 | the simple form of celt_iir gives back the signal celt_fir was applied to, from the same history |
| TfAnalysis.BestIsLowerBound | sip/native/opus/celt/celt_encoder.c:674-688 | no path costs less than the recurrence says |
| TfAnalysis.TraceCost | sip/native/opus/celt/celt_encoder.c:693-733 | following the stored decisions back yields a path of exactly that cost |
| TfAnalysis.TraceIsOptimal | sip/native/opus/celt/celt_encoder.c:672-734 | so the traced path is a cheapest one among all 2^len |
| TfAnalysis.TiesGoToOne | sip/native/opus/celt/celt_encoder.c:693-733 | of all the cheapest paths the traced one has the 1 where they differ last |
| TfAnalysis.ExactMetrics | sip/native/opus/celt/celt_encoder.c:672-688 | a path whose flags stand for exactly the resolutions measured costs its changes alone, in a long frame also a start at 1 |
| TfAnalysis.TfTable | sip/native/opus/celt/celt.c:259-268 | flag 1 always asks for better time resolution than flag 0, which leaves a long frame alone and joins the blocks of a transient; with the other values of Tables 60 to 63 of RFC 6716, every entry |
| TfAnalysis.SelCost | sip/native/opus/celt/celt_encoder.c:674-688 | selcost[sel] is the least cost over all paths |
| TfAnalysis.Forward | sip/native/opus/celt/celt_encoder.c:693-724 | the forward pass stores the decisions of the recurrence |
| TfAnalysis.Backward | sip/native/opus/celt/celt_encoder.c:725-733 | the backward pass writes the traced path into tf_res |
| TfAnalysis.TfAnalysis | sip/native/opus/celt/celt_encoder.c:672-742 | tf_res is a cheapest path for the returned tf_select, and of all the cheapest the one that ties leave; tf_select is 1 exactly for transients it makes strictly cheaper |
| Hadamard.HaarInvolution | sip/native/opus/celt/bands.c:632-645 | a Haar step done twice changes nothing |
| Hadamard.HaarPair | sip/native/opus/celt/bands.c:632-645 | each pair becomes its scaled sum and difference, the sum first; nothing behind the last pair changes |
| Hadamard.HaarsCommute | sip/native/opus/celt/bands.c:632-645 | steps at nested strides commute |
| Hadamard.LevelsCommute | sip/native/opus/celt/bands.c:1150-1160 | in particular the recombine levels, whatever N, incomplete blocks included |
| Hadamard.RecombinedTwice | sip/native/opus/celt/bands.c:1209-1217 | undoing the recombine levels in the order they were applied undoes them |
| Hadamard.HalvingsExact | sip/native/opus/celt/bands.c:1164-1176 | the halving loop runs while N_B is even, and every halving is exact |
| Hadamard.UndividedDivided | sip/native/opus/celt/bands.c:1164-1207 | the time-resolution steps undone from the last back |
| Hadamard.OrderIsPermutation | sip/native/opus/celt/bands.c:572-581 | each line of ordery_table is a permutation |
| Hadamard.InterleavedInverse | sip/native/opus/celt/bands.c:583-630 | deinterleave and interleave are inverse both ways, with and without the Hadamard order |
| Hadamard.LayoutFits | sip/native/opus/celt/bands.c:1177-1187 | the reordering stays inside the band and uses a line the table has |
| Hadamard.SynthesisUndoesAnalysis | sip/native/opus/celt/bands.c:1140-1217 | resynthesis gives back every band for every N, B and tf_change, given 2*c*c = 1 |
| Walsh.DividedIsWalsh | sip/native/opus/celt/bands.c:1164-1176 | t Haar stages turn every complete block of 2^t samples at stride B into its Walsh-Hadamard transform |
| Walsh.RecombinedIsWalsh | sip/native/opus/celt/bands.c:1150-1160 | k recombining levels do the same to every complete block of 2^k neighbours |
| Walsh.OrderIsSequency | sip/native/opus/celt/bands.c:572-581 | a line of ordery_table puts the row that changes sign most often first and the constant one last |
| Walsh.AnalysedIsWalsh | sip/native/opus/celt/bands.c:1140-1187 | what quant_partition is given when the time resolution is raised or kept: group Order(B * r + w) holds coefficient r of the transforms of block w |
| Walsh.AnalysedIsRecombined | sip/native/opus/celt/bands.c:1140-1187 | what it is given when the time resolution is lowered: the transforms of the levels, with the samples of each remaining block collected |
| Hadamard.Haar1 | sip/native/opus/celt/bands.c:632-645 | the nested loops in place are one Haar step |
| Hadamard.DeinterleaveHadamard | sip/native/opus/celt/bands.c:583-607 | the loops through tmp are the reordering, and the rest of X is kept |
| Hadamard.InterleaveHadamard | sip/native/opus/celt/bands.c:609-630 | likewise |
| Hadamard.RecombineLevels | sip/native/opus/celt/bands.c:1150-1160 | the loop applies the levels in order |
| Hadamard.DivideTime | sip/native/opus/celt/bands.c:1164-1176 | the loop with its B, N_B and time_divide is the sequence of stages |
| Hadamard.UndoDivide | sip/native/opus/celt/bands.c:1198-1207 | the loop from B0 and N_B0 undoes them in reverse |
| Hadamard.Analyse | sip/native/opus/celt/bands.c:1130-1187 | X is left as the analysis of the band |
| Hadamard.Resynthesise | sip/native/opus/celt/bands.c:1192-1217 | X is left as its synthesis |
| Theta.Isqrt32 | sip/native/opus/celt/mathops.c:43-66 | the digit-by-digit root is the exact floor of the square root |
| Theta.QnIsEven | sip/native/opus/celt/bands.c:647-671 | compute_qn yields 1 or an even value from 2 to 256 |
| Theta.QbLargest | sip/native/opus/celt/bands.c:651-661 | the bits for the angle are the most that keep within 8 bits, within b less the pulse cap and 4 bits, and within the share of b and offset |
| Theta.TableIsRoot | sip/native/opus/celt/bands.c:649-650 | every entry of exp2_table8 is 2^(14 + r / 8), rounded down |
| Theta.QnNearest | sip/native/opus/celt/bands.c:666-667 | the number of steps is the even number within one of 2^(qb / 8) |
| Theta.QnMonotone | sip/native/opus/celt/bands.c:647-671 | it never falls when b grows or the pulse cap shrinks |
| Theta.Partition | sip/native/opus/celt/bands.c:803-836 | under all three models the intervals of the angles 0..qn tile [0, ft) without gap or overlap |
| Theta.AngleShares | sip/native/opus/celt/bands.c:789-815 | which model is taken, and the share of every angle under it: 3 to 1 below the middle, all alike, or growing towards the middle |
| Theta.AngleOwns | sip/native/opus/celt/bands.c:820-838 | every frequency decodes to an angle in 0..qn whose interval holds it |
| Theta.AngleInverts | sip/native/opus/celt/bands.c:803-838 | and to x exactly when it lies in the interval of x |
| Theta.AngleStep | sip/native/opus/celt/bands.c:781-841 | the coded angle is decoded unchanged under every model and the coders stay in step |
| Theta.EncodeAngleExtends | sip/native/opus/celt/bands.c:781-815 | writing an angle keeps the encoder's invariant and what it has committed to |
| Theta.EncodeTheta | sip/native/opus/celt/bands.c:781-815 | on the coder, equal to the value-level encoding |
| Theta.LowerAngle | sip/native/opus/celt/bands.c:821-826 | below the middle: angle, fl and fl + fs of the frequency, by the root |
| Theta.UpperAngle | sip/native/opus/celt/bands.c:827-833 | from the middle on: the same from the mirrored formula |
| Theta.AngleOf | sip/native/opus/celt/bands.c:789-835 | the angle and its interval under the step and the triangular model |
| Theta.DecodeTheta | sip/native/opus/celt/bands.c:781-838 | on the coder, equal to the value-level decoding, for every stream |
| FrameSyntax.NormalizeReady | sip/native/opus/celt/entdec.c:102-117 | on any stream the decoder keeps val < rng, so every call stays defined |
| FrameSyntax.FlagsStep | sip/native/opus/celt/celt_encoder.c:759-772 | per-band flags are recovered, also those replaced when the budget ran out |
| FrameSyntax.TfStep | sip/native/opus/celt/celt_decoder.c:441-478 | tf_decode ends with the tf_res that tf_encode left, on the same packet or one shrunk with 6 bits to spare |
| FrameSyntax.BoostStep | sip/native/opus/celt/celt_decoder.c:1034-1044 | one band's boost is recovered |
| FrameSyntax.DynallocStep | sip/native/opus/celt/celt_decoder.c:1020-1049 | all boosts are recovered and both sides count the same bits as spent |
| FrameSyntax.MarginEnough | sip/native/opus/celt/celt_encoder.c:2099-2103 | a packet of min_allowed bytes passes every budget test the larger packet passed |
| FrameSyntax.ShrinkFits | sip/native/opus/celt/celt_encoder.c:2099-2103 | shrinking to min_allowed leaves room for everything written |
| FrameSyntax.HeaderStep | sip/native/opus/celt/celt_decoder.c:1005-1053 | tf_res, spread, boosts, their total and the trim are all recovered, from the packet as encoded or shrunk to min_allowed |
| FrameSyntax.RunStep | sip/native/opus/celt/entdec.c:102-245 | after every run of calls the decoder is still coupled to the encoder |
| FrameSyntax.FrameStep | sip/native/opus/celt/celt_decoder.c:994-1095 | from coupled coders on, for any calls before and after a header shrunk to no less than min_allowed: on any packet of the final size that carries the end, everything is recovered |
| FrameSyntax.FrameRoundTrip | sip/native/opus/celt/celt_encoder.c:1931-2162 | for any calls before, any header, a shrink to no less than min_allowed and any calls after: if ec_enc_done reports no error the decoder recovers everything |
| Budgets.BitCost | sip/native/opus/celt/entenc.c:151-162 | a flag of 1 costs exactly logp bits by either count, one of 0 at most one bit |
| Budgets.IcdfCost | sip/native/opus/celt/entenc.c:164-173 | a symbol of share 2^m or more costs at most ftb - m bits by either count, a later one of share 2^m exactly that |
| Budgets.FlagsUntil | sip/native/opus/celt/celt_encoder.c:759-772 | flags are sent as long as a 1 would fit the budget; from then on the last one sent stands for the others, and tf_changed tells if any was 1 |
| Budgets.SelectMattersExactly | sip/native/opus/celt/celt_encoder.c:773-777 | the test for sending tf_select holds if and only if it would change tf_res |
| Budgets.TfKept | sip/native/opus/celt/celt_encoder.c:745-783 | with room for the dearest flags, 2 and then 4 bits each or 4 and then 5, tf_res stands for the flags and the selection asked for |
| Budgets.TfDearest | sip/native/opus/celt/celt_encoder.c:751-772 | flags that change from band to band cost exactly that |
| Budgets.TfFits | sip/native/opus/celt/celt_encoder.c:745-783 | tf_encode never uses more bits than the packet has |
| Budgets.TfComplete | sip/native/opus/celt/celt_encoder.c:745-783 | with 6 bits left behind it, nothing in tf_encode was cut short |
| Budgets.QuantaNearest | sip/native/opus/celt/celt_encoder.c:1996-1998 | a step of boost lies between 1 and 8 eighths a sample, and no value in between is nearer to 6 bits |
| Budgets.BoostsGetCheaper | sip/native/opus/celt/celt_encoder.c:2014-2016 | every boosted band makes the next boost one bit cheaper, from 6 down to 2 |
| Budgets.BoostExactly | sip/native/opus/celt/celt_encoder.c:1994-2013 | a band is boosted by whole steps until it has what it wants, has reached its cap, or the next step would not fit |
| Budgets.BoostsExactly | sip/native/opus/celt/celt_encoder.c:1985-2018 | every band has what it wants or its cap allows unless less than 6 bits are left; what is left is the total less all boosts, and the total is not exceeded |
| Budgets.SpreadShares | sip/native/opus/celt/celt.h:167 | the shares of the spread decision; the default is the likeliest |
| Budgets.TrimShares | sip/native/opus/celt/celt.h:165 | the shares of the trim; the default is the likeliest |
| Budgets.TapsetShares | sip/native/opus/celt/celt.h:169 | the shares of the tapset |
| Budgets.SpreadSent | sip/native/opus/celt/celt_encoder.c:1933-1977 | the spread decision is sent if and only if the dearest one fits, and is 2 otherwise |
| Budgets.TrimSent | sip/native/opus/celt/celt_encoder.c:2037-2051 | the trim is sent if and only if the dearest one leaves room for the boosts, and is 5 otherwise |
| Budgets.MinAllowedLeast | sip/native/opus/celt/celt_encoder.c:2103 | min_allowed is the least size of which all but two bytes hold what is used and boosted |
| Budgets.HeaderFits | sip/native/opus/celt/celt_encoder.c:1931-2051 | the header never uses more bits than the packet has |
| Budgets.HeaderComplete | sip/native/opus/celt/celt_encoder.c:1931-2051 | with more than 6 bits left behind the header, every flag, the selection, spread and trim are those asked for and every band has its boost |
| Budgets.HeaderOrder | sip/native/opus/celt/celt_encoder.c:1931-2051 | the flags of tf_encode, the spread decision, the boosts and the trim follow each other in this order |
| FrameCode.EncodeTfFlags | sip/native/opus/celt/celt_encoder.c:759-772 | the loop over tf_res in place is the value-level coding |
| FrameCode.EncodeTf | sip/native/opus/celt/celt_encoder.c:745-783 | tf_encode on the coder and the array |
| FrameCode.DecodeTfFlags | sip/native/opus/celt/celt_decoder.c:457-467 | the decoder's loop |
| FrameCode.DecodeTf | sip/native/opus/celt/celt_decoder.c:441-478 | tf_decode on the coder and the array |
| FrameCode.BoostBand | sip/native/opus/celt/celt_encoder.c:2001-2013 | the inner loop with its break, boost and total_boost |
| FrameCode.BoostAt | sip/native/opus/celt/celt_encoder.c:1994-2017 | one band: its offset becomes its boost, and dynalloc_logp falls if it was boosted |
| FrameCode.EncodeBoosts | sip/native/opus/celt/celt_encoder.c:1985-2018 | the dynalloc block: offsets becomes the boosts |
| FrameCode.TakeBoost | sip/native/opus/celt/celt_decoder.c:1034-1044 | the decoder's inner loop |
| FrameCode.DecodeBoosts | sip/native/opus/celt/celt_decoder.c:1020-1049 | the decoder's block, with the remaining total_bits |
| Postfilter.PitchSplits | sip/native/opus/celt/celt_encoder.c:1681-1684 | the octave is below 6 and the rest of the pitch fits 4 + octave bits |
| Postfilter.ParamsOrder | sip/native/opus/celt/celt_encoder.c:1676-1687 | flag, octave, rest of the pitch, gain and tapset are coded in this order |
| Postfilter.MainStep | sip/native/opus/celt/celt_decoder.c:974-979 | flag, pitch and gain are recovered once the first test passed |
| Postfilter.ParamsStep | sip/native/opus/celt/celt_decoder.c:969-985 | for all parameters and packet sizes: what the decoder gets; that it is everything if and only if a condition on the encoder before writing holds; that the coders stay in step if and only if both tests pass |
| Postfilter.SymbolCost | sip/native/opus/celt/entcode.h:111-113 | every symbol moves ec_tell by the difference of the logarithms of the range and of its share |
| Postfilter.SilenceFlag | sip/native/opus/celt/celt_encoder.c:1630-1633 | the silence flag moves ec_tell by at most one |
| Postfilter.MainCostExact | sip/native/opus/celt/celt_encoder.c:1676-1686 | flag, octave, pitch and gain cost exactly what can be reckoned from the range before them |
| Postfilter.MainCostBounds | sip/native/opus/celt/celt_encoder.c:1676-1686 | that is octave + 10 or octave + 11 bits, at most 16 |
| Budgets.PostfilterTests | sip/native/opus/celt/celt_decoder.c:972-981 | the 16 and 2 bits the decoder asks for are what the parameters before the tapset, and the tapset, can cost, and no less would do |
| Postfilter.FreshExactly | sip/native/opus/celt/celt_decoder.c:969-985 | behind the silence flag of a fresh coder parameters that are on arrive if and only if the packet has at least 3 bytes, and not at all in a smaller one |
| Postfilter.GuardEnough | sip/native/opus/celt/celt_encoder.c:1660-1665 | the guard on nbAvailableBytes, either arm, makes both of the decoder's tests pass in a packet of the size it was computed for |
| Postfilter.ShrinkHarmless | sip/native/opus/celt/celt_encoder.c:2099-2103 | tests that passed still pass in a packet shrunk to min_allowed |
| PostfilterLoss.ConstantRateFails | sip/native/opus/celt/celt_encoder.c:1550-1582 | where the packet is made smaller after the guard was computed: a packet of two bytes that finishes without error, whose parameters the decoder does not see and behind which it is out of step |
| FrameStart.StartOrder | sip/native/opus/celt/celt_encoder.c:1630-1866 | silence flag, postfilter parameters, and the transient flag if and only if a 1 would fit |
| FrameStart.SameDecisions | sip/native/opus/celt/celt_encoder.c:1656-1687 | for every start of a frame, the tests of silence, postfilter and transient flag come out alike in the final packet, shrunk to min_allowed or not, although the two sides take their bit counts at different places |
| FrameStart.StartStep | sip/native/opus/celt/celt_decoder.c:954-991 | a decoder coupled to a fresh encoder recovers silence flag, postfilter parameters and transient flag and stays coupled |
| FrameStart.WholeFrame | sip/native/opus/celt/celt_encoder.c:1630-2162 | from the first bit: start, any calls for the coarse energy, header, shrink to no less than min_allowed, any calls; if ec_enc_done reports no error the decoder recovers every field and every call |
| Postfilter.SecondTestHarmless | sip/native/opus/celt/celt_encoder.c:1676-1687 | if ec_tell after the parameters is within the packet, they arrive if and only if tell + 16 <= total_bits |
| H264.FindStartcode | sip/native/baresip/src/h264.c:42-75 | the word-at-a-time scan returns the least p in [start, end - 3) with 00 00 01, else end, at any alignment |
| H264.StreamOfNals | sip/native/baresip/src/h264.c:137-152 | the units found, each behind its start code, are the whole stream from the first start code on |
| H264.NoZeroByte | sip/native/baresip/src/h264.c:52-53 | a word that fails the test holds no zero byte |
| H264.InWord | sip/native/baresip/src/h264.c:51-66 | the tests on one word find the first start code that begins in it, if any |
| H264.NalSend | sip/native/baresip/src/h264.c:87-126 | the packets handed on are those of the recursive description |
| H264.HeaderBits | sip/native/baresip/src/h264.c:105-118 | clearing S and setting E in fu_hdr[1] give the header of a later and of the last fragment |
| H264.HeaderFields | sip/native/baresip/src/h264.c:99-118 | both header bytes as sums of their fields: NRI and 28, and S, E and the type |
| H264.FragmentMarks | sip/native/baresip/src/h264.c:105-122 | S only on the first fragment, E and the marker only on the last, none above maxsz - 2 bytes |
| H264.SendSizes | sip/native/baresip/src/h264.c:87-126 | a unit is sent in packets of at most maxsz + 1 bytes, and of at most maxsz exactly when it has not maxsz + 1 bytes |
| H264.PacketSizes | sip/native/baresip/src/h264.c:95-98 | for every stream: no packet is longer than maxsz if and only if no unit has maxsz + 1 bytes; none is ever longer than maxsz + 1 |
| H264.UnitCut | sip/native/baresip/src/h264.c:87-126 | every unit of a stream has its own packets in their place: one with the unit whole, or as few as there can be, all but the last of exactly maxsz bytes and the last not empty |
| H264.LongPacketExample | sip/native/baresip/src/h264.c:95-98 | a unit of 4 bytes sent for maxsz 3 in one packet of 4 |
| H264.Packetize | sip/native/baresip/src/h264.c:129-155 | for every stream without adjoining start codes the packets sent are those of the scanned NAL units in order, none of them empty |
| H264.SurvivesExactly | sip/native/baresip/src/h264.c:87-126 | a unit comes back from its packets if and only if it is sent whole and does not look like a fragment, or is fragmented and has a zero forbidden_zero_bit |
| H264.NoneAdded | sip/native/baresip/src/h264.c:129-155 | never more units come back than were sent, whatever part of a unit is pending |
| H264.PacketsReassemble | sip/native/baresip/src/h264.c:87-155 | reassembling the packets gives back exactly the NAL units in order if and only if every unit survives |
| H264.LostUnitExample | sip/native/baresip/src/h264.c:95-98 | for every maxsz, a unit of type 28 and two bytes that does not come back |
| H264.MarkerOnLast | sip/native/baresip/src/h264.c:129-155 | the marker is on the very last packet and no other |
| H264.EmptyNal | sip/native/baresip/src/h264.c:139-152 | the unit behind a known start code is empty exactly when another start code follows at once |
| H264.NoneEmptyExactly | sip/native/baresip/src/h264.c:129-152 | a stream holds no empty unit if and only if no two of its start codes adjoin |
| H264.EmptyUnitExample | sip/native/baresip/src/h264.c:139-152 | a stream of two adjoining start codes, whose first unit is empty |

## Left out

- Floating-point rounding, MDCT, pitch search, band energies, comb filter, transient and tonality
  analysis, VBR targets, packet-loss concealment: signal quality without a crisp specification.
- `clt_compute_allocation`, `bits2pulses`, `alg_quant`, coarse and fine energy: not part of this model.
  In `FrameSyntax.FrameRoundTrip` and `FrameStart.WholeFrame` they are arbitrary runs of calls before and
  after the header.
- `ec_enc_patch_initial_bits`: it rewrites committed output.
- Silent frames with their `nbits_total` adjustment and shrink (`celt_encoder.c:1634-1647`), the intra
  flag and the inversion flag of `compute_theta`: single guarded bits like those proved.
- FrameStart.WholeFrame: starts with the size left by the shrink at `celt_encoder.c:1606`, which comes
  before the first bit. The intra flag is one of the calls for the coarse energy. A packet of one byte or
  none goes to concealment (`celt_decoder.c:929`), before any of this.
- FrameSyntax.FrameRoundTrip: sizes below `min_allowed` are excluded. In the source only silent frames
  and, in frames shorter than 20 ms, the cap of `1275>>(3-LM)` bytes can choose one.
- The hybrid term of `min_allowed` (`celt_encoder.c:2107-2108`): it only raises the bound.
- The numbers of `CELT_PVQ_U_DATA`: `Pvq.U` is the recurrence the comment above the table defines.
- The 32-bit wrap-around of the last, unused `uprev` of the row-based `cwrsi`: the row then holds
  negative numbers in the model and large ones in C, and neither is read.
- The 129th entry of `SMALL_DIV_TABLE`: 128 values are given for 129 entries, and no divisor up to 256
  uses the last.
- LogBounds.BarelyTooHigh: stops at 12 fractional bits, where the source asks for 3 (`rate.c:135`). A
  bound of one unit would be too strict: the comment at `cwrs.c:43-44` gives 0.06254243 bits for 4
  fractional bits, which is more than one.
- Overflow of `nbits_total` and `ext` after billions of symbols (`entenc.c:72-81`).
- Iir.CeltIir: N >= ord is required, as mem is read from the output; for a shorter N the code reads
  before the start of `_y`.
- PostfilterLoss.ConstantRateFails: is a packet at the level of the coder; that `run_prefilter` turns the
  filter on for some signal at so low a rate is signal analysis.
- Hadamard.SynthesisUndoesAnalysis: takes the Haar factor as an exact root of 1/2, the fixed constant
  being .70710678; the bit masks `fill` and `cm` are not modelled, nor is the copy of `lowband`, which
  gets the same steps. A band of one sample never reaches these steps in the source.
- Theta.QnIsEven: 32-bit overflow of `N2` and of `b + N2*offset` is excluded.
- TfAnalysis.TfAnalysis: starts from the metrics; how they are computed is signal analysis.
- H264.Packetize: streams with adjoining start codes are excluded, as the size the C code computes for
  them wraps around. Errors returned by the packet callback are not modelled, only the packets it is given.
- `h264_fu_hdr_encode` and `h264_fu_hdr_decode`: the encoder writes `s` into both flags, and sending
  does not use it.
- Lpc.CeltLpc: a negative ac[0] is excluded; an autocorrelation at lag 0 is a sum of squares.
- SIP, call, account, user agent, network, UI and platform code: callback plumbing with few invariants.
