# Verified model of the secure inference system

This project models, in Dafny, the parts of the repository whose correctness is not visible from any
one function:

- **The TinyMaix INT8 inference engine** in the configuration of `tm_port.h` (plain C, no optimisation
  level, fixed-point scales, 16 channels, 3x3 kernels): the convolution routine with its four
  strategies, pooling, full connection, softmax, addition, the requantizer, the model loader, and the
  interpreter that runs a packed layer list inside one shared buffer.
- **The encrypted model package**: the Python writer, the C reader, and the service loop around the
  reader, which loads the model and runs it on clients' images.
- **The UF2 converter**: block writer, block reader, and the Intel HEX front end.
- **The buffered log printer** of the secure side.
- **The client-id table and the TrustZone context shim** that uses it.
- **The C array text** the encryptor writes and the scan that reads such arrays.

Each component is a pair. The loops of the source are methods over the arrays and fields the source
updates (`Engine`, `Mdl`, `Partition`, `Converter`, `Printer`, `Table`, `Shim`); every method's
postcondition equates the new state with a function of the old one. The theorems are lemmas about
those functions: refinement of a textbook definition, exact conditions of success, inverses,
invariants of all runs, and laws that fix a function from outside, by literal bytes, field layouts,
remainders or the status each case has, so that function and method cannot be wrong together. `Operand`, `Holds` and ghost parameters named `inp` or `a`, `b` only name the
values an operand has in memory.

## Conventions

- C's `/` is `TruncDiv`, its `>>` of a negative number is `Shr16` (rounding down), casts to `int8_t`
  and `int32_t` are `ToInt8` and `ToInt32`. Accumulators and the intermediates of the requantizer are
  of the subset type `int32`, so that the absence of overflow is proved and not assumed; where it
  depends on the data of a layer it is the precondition `Defined`, `GapRunnable` or `FcRunnable`.
  Offsets and addresses (`k_oft`, `TM_MATP`, the window corner) are unbounded integers: that those
  followed lie inside the buffer is proved, that computing them fits an `int` is not.
- Floats are the 32-bit words they are stored as. The elementary float operations of the source
  (conversion, sum, difference, product, quotient, exponential, cast, comparison) are the arbitrary
  functions of a `FloatOps` record, so every statement holds for IEEE single precision and for any
  other choice. `Quantization.dfy` says what the bytes stand for where those operations are exact.
- Pointers into the main buffer are offsets; `base` is the buffer's address, which matters only for
  the alignment of dequantized outputs.
- Exceptions and error codes are values of `Result`, `Option`, `TmErr` and `Status`.
- Inputs from outside (the crypto service, the client's message and image bytes, the secure side's
  answers to the shim, the UART's return value) are parameters.
- Where the C code relies on something it never checks, the theorems about runs carry it as a
  condition on each message in the state it meets: `FreshRun` for tokens, `AllSafe` for models that
  keep to their buffers. `ServiceModels.GoodPackageIsSafe` derives the second from the package alone.

## Files

| file | contents |
|---|---|
| `Bytes.dfy`, `CArithmetic.dfy`, `Options.dfy`, `FloatWords.dfy` | words and bytes, C operators and sums, optional values, floats in a byte buffer |
| `DotProduct.dfy`, `Requantize.dfy` | `arch_cpu.h` |
| `ConvolutionSpec.dfy`, `Convolution.dfy`, `Layers.dfy`, `Quantization.dfy` | `tm_layers.c`, and what the bytes of its float layers stand for |
| `Model.dfy`, `Records.dfy`, `ModelRuns.dfy`, `ModelFlow.dfy`, `ModelPlan.dfy` | `tinymaix.h`, `tm_model.c`, whole runs, and conditions on a model alone |
| `Package.dfy`, `Scores.dfy`, `Service.dfy`, `ServiceRuns.dfy`, `ServiceReplies.dfy`, `ServiceModels.dfy`, `ServiceHistory.dfy`, `ServiceAnswers.dfy` | package codec, `tinymaix_inference.c`, all message sequences, the replies, the models behind them, what earlier messages change, and what clients are told |
| `Uf2.dfy`, `Uf2Families.dfy`, `HexImage.dfy`, `Uf2Tool.dfy` | `uf2conv.py` |
| `Log.dfy`, `Nsid.dfy`, `TzShim.dfy`, `CArray.dfy` | `tfm_log_raw.c`, `tfm_nsid_manager.c`, `tz_shim_layer.c`, array text |

## Where code and documentation differ

- `tfm_log_raw.h` promises the number of characters printed; the code counts the last, unfinished
  chunk twice (`Log.ReturnedLaw` gives the exact law, `Log.OneCharacterCountsTwice` a concrete call).
- `uf2conv.py` announces that it skips a block with a bad magic number, but the message adds an integer
  to a string, so Python raises `TypeError`: such a block ends the conversion (`Uf2.ZeroBlockIsNotSkipped`).
- The service calls the image it classifies without client data built-in. That is so if and only if
  every pixel a client has delivered to a loaded service was last delivered with its built-in value
  (`ServiceHistory.StillBuiltInExactly`; a run in which it is not: `ServiceHistory.BlackToWhite`).
- Some of the Markdown documents describe GCM and a different model magic; the code uses CBC and
  `MAIX`.

## Model

| member | source | states |
|---|---|---|
| DotProduct.DotProd | partitions/tinymaix_inference/tinymaix/src/arch_cpu.h:21-41 | the eight-way unrolled loop and its tail give the mathematical sum of products for every size up to 131071, every partial sum an int32 |
| DotProduct.DotProdPack2 | partitions/tinymaix_inference/tinymaix/src/arch_cpu.h:43-70 | the packed loop gives the two dot products of one datum row with two consecutive weight rows |
| DotProduct.DotProd3x3x1 | partitions/tinymaix_inference/tinymaix/src/arch_cpu.h:80-86 | the nine-term expression is the dot product of nine |
| DotProduct.PartialSumBound | partitions/tinymaix_inference/tinymaix/src/arch_cpu.h:21-41 | n products of int8 values sum to between -16256n and 16384n |
| DotProduct.MaxSizeIsTight | partitions/tinymaix_inference/tinymaix/src/arch_cpu.h:21-41 | 131071 is the largest safe size: one more product of -128 by -128 makes exactly 2^31 |
| Requantize.PostprocessOne | partitions/tinymaix_inference/tinymaix/src/arch_cpu.h:163-191 | under the conditions that exclude undefined behaviour, the statements with int32 intermediates compute the requantized byte, and that byte is the one described by truncated quotient, activation, floor shift and zero point |
| Requantize.TruncDivIsQuotient | partitions/tinymaix_inference/tinymaix/src/arch_cpu.h:169 | the division leaves a remainder smaller than the scale and of the sign of the dividend |
| Requantize.RequantByteIsOutput | partitions/tinymaix_inference/tinymaix/src/arch_cpu.h:164-189 | the byte is the shifted activation of that quotient plus the zero point if that fits a byte, and congruent to it modulo 256 otherwise; stated with remainders and without the functions that compute it |
| Requantize.OutputUnique | partitions/tinymaix_inference/tinymaix/src/arch_cpu.h:164-189 | no other byte meets that description |
| Requantize.PostprocessSum | partitions/tinymaix_inference/tinymaix/src/arch_cpu.h:160-193 | n sums become n consecutive output bytes, each with the bias and scale of its own channel, and nothing else changes |
| Requantize.Monotone | partitions/tinymaix_inference/tinymaix/src/arch_cpu.h:164-189 | for positive scales and every activation a larger accumulator never gives a smaller pre-cast output |
| Requantize.ErrorBound | partitions/tinymaix_inference/tinymaix/src/arch_cpu.h:164-189 | without activation the result lies within 1 + out_s/65536 below and out_s/65536 above the exact rational |
| Requantize.ReluClamps | partitions/tinymaix_inference/tinymaix/src/arch_cpu.h:171-174 | RELU before the rounding is a clamp of the rounded result at the zero point |
| Requantize.Relu6Clamps | partitions/tinymaix_inference/tinymaix/src/arch_cpu.h:175-182 | RELU6 is that clamp and one at the requantized 6.0 |
| ConvolutionSpec.OutputIsConvolution | partitions/tinymaix_inference/tinymaix/src/tm_layers.c:62-200 | byte (y*out.w+x)*out.c+c of the specified output is the byte that description prescribes for the bias plus the triple sum over channel, kernel row and kernel column |
| ConvolutionSpec.TermIs | partitions/tinymaix_inference/tinymaix/src/tm_layers.c:131-196 | a summand is the input cell under the kernel cell, or the low byte of the zero point outside the picture, times the weight at (c, ci, ky, kx), with channel c/dmul when depthwise; both indices are in range |
| ConvolutionSpec.PixelIndex | partitions/tinymaix_inference/tinymaix/src/tm_layers.c:133-196 | the flat output index of (y, x, c) is in range and determines y, x and c |
| ConvolutionSpec.DotIsAccumulator | partitions/tinymaix_inference/tinymaix/src/tm_layers.c:179-193 | the flat dot product over a gathered patch equals the textbook triple sum |
| ConvolutionSpec.WeightIndex | partitions/tinymaix_inference/tinymaix/src/tm_layers.c:65 | row c*chi*maxk plus the patch offset is the (cho, chi, h, w) weight index |
| ConvolutionSpec.AccumulatorBound | partitions/tinymaix_inference/tinymaix/src/tm_layers.c:178-194 | n products give an accumulator between -16256n and 16384n, for every layer and input |
| ConvolutionSpec.AccumulatorFits | partitions/tinymaix_inference/tinymaix/src/tm_layers.c:178-194 | with at most 144 products no accumulator leaves int32, nor does its shift by 8 when the bias is at most 6029311 in size |
| Convolution.CheckLaw | partitions/tinymaix_inference/tinymaix/src/tm_layers.c:69-74 | which layers are refused with which error, and which are accepted |
| Convolution.Engine.GenOffsets | partitions/tinymaix_inference/tinymaix/src/tm_layers.c:121-130 | the k_oft loops store for each kernel cell its distance from the corner of the window |
| Convolution.Engine.TapAddress | partitions/tinymaix_inference/tinymaix/src/tm_layers.c:141-149 | the address sptr + k_oft[k] is inside the input, for every patch and cell in the picture, and holds the tap of that cell |
| Convolution.Engine.GatherInside | partitions/tinymaix_inference/tinymaix/src/tm_layers.c:140-150 | the fast gather fills the patch buffer with the patch of the window, reading only input bytes and writing only below 144 |
| Convolution.Engine.GatherPadded | partitions/tinymaix_inference/tinymaix/src/tm_layers.c:151-177 | the clip-and-copy gather fills it with the same patch, for any position of the window, even wholly outside the picture |
| Convolution.Engine.Memset | partitions/tinymaix_inference/tinymaix/src/tm_layers.c:161 | padding stores the low byte of the zero point |
| Convolution.Engine.RowOperands | partitions/tinymaix_inference/tinymaix/src/tm_layers.c:179-193 | the part of the patch buffer and the weight row that an output channel uses have that channel's accumulator as dot product |
| Convolution.Engine.Pixel3x3 | partitions/tinymaix_inference/tinymaix/src/tm_layers.c:180-186 | the 3x3 depthwise shortcut writes the specified bytes of all channels of a pixel and no others |
| Convolution.Engine.PixelGeneral | partitions/tinymaix_inference/tinymaix/src/tm_layers.c:187-194 | so does the general channel loop |
| Convolution.Engine.PixelPointwise | partitions/tinymaix_inference/tinymaix/src/tm_layers.c:98-113 | so do pairs through the packed dot product with the odd channel last, for every number of channels |
| Convolution.Engine.PointwiseOperands | partitions/tinymaix_inference/tinymaix/src/tm_layers.c:98-112 | a 1x1 layer's accumulator is the dot product of one input pixel with one weight row, inside the input |
| Convolution.Engine.RunPointwise | partitions/tinymaix_inference/tinymaix/src/tm_layers.c:93-118 | the pointwise loop nest leaves every output byte as specified |
| Convolution.Engine.RunPatches | partitions/tinymaix_inference/tinymaix/src/tm_layers.c:131-197 | the gathering loop nest leaves every output byte as specified, choosing the gather by the window's position |
| Convolution.Engine.Conv2d | partitions/tinymaix_inference/tinymaix/src/tm_layers.c:62-200 | a refused layer returns its error and changes nothing; any other fills exactly its output range with the textbook convolution, for every shape, stride and padding |
| Layers.WalkIsChannelSum | partitions/tinymaix_inference/tinymaix/src/tm_layers.c:206-214 | the strided walk sums each pixel of its channel exactly once |
| Layers.GapChannel | partitions/tinymaix_inference/tinymaix/src/tm_layers.c:207-214 | the pixel loops compute the channel sum in int32 |
| Layers.GapMeanBetween | partitions/tinymaix_inference/tinymaix/src/tm_layers.c:216 | the truncated mean lies between any bounds on the channel's values |
| Layers.RunGap | partitions/tinymaix_inference/tinymaix/src/tm_layers.c:203-223 | pooling writes one requantized mean per channel and nothing else |
| Layers.RunFc | partitions/tinymaix_inference/tinymaix/src/tm_layers.c:226-241 | each output is the requantized dot product of the input with its weight row plus its bias |
| Layers.SoftmaxLogits | partitions/tinymaix_inference/tinymaix/src/tm_layers.c:249-256 | the first pass leaves the dequantized logits in the float scratch and finds their maximum |
| Layers.SoftmaxExps | partitions/tinymaix_inference/tinymaix/src/tm_layers.c:257-263 | the second pass turns them in place into the kept exponentials and their sum |
| Layers.SoftmaxBytes | partitions/tinymaix_inference/tinymaix/src/tm_layers.c:264-270 | every result byte is computed from the original float of its own position, although results overwrite the floats still being read |
| Layers.RunSoftmax | partitions/tinymaix_inference/tinymaix/src/tm_layers.c:244-272 | the aliased passes leave the softmax computed without aliasing, followed by the rest of the float scratch |
| Layers.RunAdd | partitions/tinymaix_inference/tinymaix/src/tm_layers.c:282-306 | the unrolled loop adds elementwise, also when the result starts at or before an operand it overlaps |
| Quantization.GapMeaning | partitions/tinymaix_inference/tinymaix/src/tm_layers.c:216 | where the float operations are exact, a pooled byte dequantizes to the truncated mean of its channel, dequantized, up to one quantum |
| Quantization.FcMeaning | partitions/tinymaix_inference/tinymaix/src/tm_layers.c:233-235 | so does an fc byte to its accumulator times input scale times weight scale |
| Quantization.FcDotIs | partitions/tinymaix_inference/tinymaix/src/tm_layers.c:232-233 | an fc accumulator is the sum over all inputs i of input i times weight c*in.c+i, plus bias c |
| Quantization.AddMeaning | partitions/tinymaix_inference/tinymaix/src/tm_layers.c:294-301 | so does a byte of a sum to the sum of what its operands stand for, each with its own scale and zero point |
| Quantization.LargestIsMaximum | partitions/tinymaix_inference/tinymaix/src/tm_layers.c:248-256 | dmax is one of the logits and none is above it, for logits that are ordered and above the start value |
| Quantization.SoftmaxMeaning | partitions/tinymaix_inference/tinymaix/src/tm_layers.c:244-270 | a softmax byte from the input alone: the exponential of its logit minus the largest one, less epsilon, divided by the sum of all exponentials from the left, requantized, operand by operand |
| Quantization.SoftmaxShare | partitions/tinymaix_inference/tinymaix/src/tm_layers.c:257-270 | where sums and divisions are exact, that byte stands for the share of its exponential in the sum of all, up to one quantum |
| FloatWords.WordOfCells | partitions/tinymaix_inference/tinymaix/src/tm_layers.c:247 | a float stored in four buffer bytes is read back unchanged |
| FloatWords.CellsAreBytes | partitions/tinymaix_inference/tinymaix/src/tm_layers.c:247 | the four cells are the bytes of the word, low byte first |
| FloatWords.StoreItem | partitions/tinymaix_inference/tinymaix/src/tm_layers.c:251 | storing one float of a row changes its four bytes and no other float |
| Model.LoadsExactly | partitions/tinymaix_inference/tinymaix/src/tm_model.c:17-41 | which models load and what each of the others is answered: not MAIX a magic error, then a type byte other than 0 a type error, then a sub buffer (the build has no malloc) or no main buffer out of memory |
| Model.Mdl.Load | partitions/tinymaix_inference/tinymaix/src/tm_model.c:17-41 | which error is returned, and what the descriptor refers to afterwards |
| Model.Preprocess | partitions/tinymaix_inference/tinymaix/src/tm_model.c:63-66 | every pixel is shifted by 128 into the main buffer, and nothing else changes |
| Model.Centred | partitions/tinymaix_inference/tinymaix/src/tm_model.c:65 | the shift loses nothing: adding 128 gives the pixel back |
| Model.AlignUp | partitions/tinymaix_inference/tinymaix/include/tinymaix.h:36-37 | the alignment macro gives the next multiple of eight |
| Model.FloatOffIsFirst | partitions/tinymaix_inference/tinymaix/src/tm_model.c:146 | the dequantized copy starts at the first place behind the output whose address is a multiple of eight |
| Model.PublishLaw | partitions/tinymaix_inference/tinymaix/src/tm_model.c:140-152 | float k of that copy is output byte k minus the zero point times the scale; nothing else changes, and nothing at all if the layer is no output or the model asks for no floats |
| Model.RunLayer | partitions/tinymaix_inference/tinymaix/src/tm_model.c:102-137 | the dispatch applies exactly the pure layer to the input range and changes only the output range, or returns the layer's error and changes nothing |
| Model.Dequantize | partitions/tinymaix_inference/tinymaix/src/tm_model.c:145-149 | the dequantizing loop writes the floats of the output bytes behind them |
| Model.Mdl.RunStep | partitions/tinymaix_inference/tinymaix/src/tm_model.c:94-153 | one turn of the loop: error, new buffer, new output entry and new record position |
| Model.Mdl.Run | partitions/tinymaix_inference/tinymaix/src/tm_model.c:87-156 | the in-place run equals the layers applied one after the other as functions of the buffer, up to the first failure, including the final layer counter and outputs |
| Records.HeadRoundTrip | partitions/tinymaix_inference/tinymaix/include/tinymaix.h:192-206 | the offsets the model reads a layer head by agree with the fields laid out in declaration order, anywhere in a model (the repository has no writer of these records; the layout function is this project's reading of the struct) |
| Records.MdlRoundTrip | partitions/tinymaix_inference/tinymaix/include/tinymaix.h:150-164 | magic, type, output flag, layer count, sub-buffer size and input shape are read back from a 64-byte model header laid out field by field with independent values, and the layers start behind it (again this project's reading of the struct) |
| Records.RecordsInRow | partitions/tinymaix_inference/tinymaix/src/tm_model.c:93-153 | in a model of a header and records in a row, layer i of the walk is record i |
| Records.StepRead | partitions/tinymaix_inference/tinymaix/src/tm_model.c:96-152 | the first layer reads the caller's matrix and every other the one its head says, each writes where its head says, and an output layer adds its shape and the offset of its bytes or of their floats |
| Records.ConvRoundTrip | partitions/tinymaix_inference/tinymaix/include/tinymaix.h:208-231 | the same for a convolution record's geometry and table offsets, again against a layout function of this project |
| Records.ConvLayerRead | partitions/tinymaix_inference/tinymaix/src/tm_model.c:103-111 | a convolution record and its tables give the layer: geometry, signed weights, biases, per channel the scale of its weight scale and the input scale, and that of the output scale |
| Records.FcLayerRead | partitions/tinymaix_inference/tinymaix/src/tm_model.c:116-121 | a full connection record and its tables give its weights, biases, the one weight scale, and the scales of its head |
| Records.AddLayerRead | partitions/tinymaix_inference/tinymaix/src/tm_model.c:130-135 | an addition record gives the second operand's offset, scale and zero point, with the size of the first |
| Records.PlainLayerRead | partitions/tinymaix_inference/tinymaix/src/tm_model.c:112-129 | pooling, softmax and reshape take everything from head and input shape; an unknown type is a layer-type error |
| ModelRuns.RunStopsAtFirstFailure | partitions/tinymaix_inference/tinymaix/src/tm_model.c:94-155 | a run stops at the first failing layer with its error, else after the last; it has one output per is_out layer before that point, in order |
| ModelRuns.EffectKeeps | partitions/tinymaix_inference/tinymaix/src/tm_model.c:100-138 | a layer changes only its output range |
| ModelRuns.RunKeeps | partitions/tinymaix_inference/tinymaix/src/tm_model.c:94-155 | a run leaves every cell alone that no layer writes as output or dequantized copy |
| ModelFlow.EffectIsValue | partitions/tinymaix_inference/tinymaix/src/tm_model.c:100-138 | a layer's result in the buffer is its value as a function of the operand values |
| ModelFlow.CellKept | partitions/tinymaix_inference/tinymaix/src/tm_model.c:94-155 | a cell that the layers j..k-1 do not write is the same before layers j and k |
| ModelFlow.OperandInPlace | partitions/tinymaix_inference/tinymaix/src/tm_model.c:96-101 | if every operand comes from one earlier result, the bytes at a layer's input offset are that result, or the untouched input |
| ModelFlow.ResultInPlace | partitions/tinymaix_inference/tinymaix/src/tm_model.c:100-152 | right after a layer its data-flow value lies at its output offset, and the dequantized floats behind it |
| ModelFlow.RunIsDataflow | partitions/tinymaix_inference/tinymaix/src/tm_model.c:87-156 | running all layers in one shared buffer, residual additions and reshapes included, gives for every layer the value of the composition of pure layers, still in the final buffer with its dequantized floats unless a later layer was given the same room |
| ModelFlow.SameData | partitions/tinymaix_inference/tinymaix/src/tm_model.c:87-156 | if no layer up to k reads the initial buffer behind its first n cells, the result of layer k is a function of those cells |
| ModelPlan.SafeIsDefined | partitions/tinymaix_inference/tinymaix/src/arch_cpu.h:163-191 | bounds on a channel's scales and on the size of its accumulator under which no accumulator of that size makes the requantizer undefined |
| ModelPlan.LayerPlanFits | partitions/tinymaix_inference/tinymaix/src/tm_model.c:100-137 | a layer that can run keeps to its ranges; for a layer whose arithmetic is safe for every input that is the exact condition, on every buffer |
| ModelPlan.RunsExactly | partitions/tinymaix_inference/tinymaix/src/tm_model.c:87-156 | a model that can be run keeps to its ranges; for a model whose layers are safe in their arithmetic the two are equivalent, on every buffer of that size, and both sides of the condition can be computed before the run |
| ModelPlan.PlanRuns | partitions/tinymaix_inference/tinymaix/src/tm_model.c:87-156 | a model whose records satisfy the plan can be run on every buffer of that size, with no condition on its contents |
| Package.XorTwice | tools/tinymaix_model_encryptor.py:132-137 | exclusive or with the same value twice gives the value back (the step CBC rests on) |
| Package.XorBit | tools/tinymaix_model_encryptor.py:132-137 | bit i of an exclusive or is set exactly if it is set in one operand |
| Package.CbcBlock | tools/tinymaix_model_encryptor.py:132-137 | ciphertext block i is the encryption of plaintext block i mixed with ciphertext block i-1, or with the IV |
| Package.PackageBytes | tools/tinymaix_model_encryptor.py:153-178 | the bytes of a package, literally: TMAX, version 3, the size, the IV, the ciphertext; none for 2^32 bytes or more |
| Package.CbcDecryptsEncrypted | tools/tinymaix_model_encryptor.py:132-137 | CBC decryption undoes CBC encryption, for any block permutation |
| Package.CbcEncryptsDecrypted | partitions/tinymaix_inference/tinymaix_inference.c:268-281 | and the other way round |
| Package.WellPaddedIsPad | partitions/tinymaix_inference/tinymaix_inference.c:293-325 | whole blocks that pass the reader's padding check are exactly the writer's padding of what remains |
| Package.PadIsWellPadded | tools/tinymaix_model_encryptor.py:147-151 | the writer's padding passes the reader's check and says how long it is |
| Package.HeaderWords | partitions/tinymaix_inference/tinymaix_inference.c:189-205 | the reader's word comparisons hold exactly for the header bytes the writer packs |
| Package.WriterThenReader | tools/tinymaix_model_encryptor.py:153-178 | a package made from a model of at most 4095 bytes that starts with MAIX is accepted and gives the model back |
| Package.ReaderThenWriter | partitions/tinymaix_inference/tinymaix_inference.c:172-356 | every accepted package is byte for byte what the writer makes of its plaintext, key and IV |
| Package.PackageBijection | partitions/tinymaix_inference/tinymaix_inference.c:172-356 | the two as one equivalence: the exact set of packages accepted for a plaintext, and of plaintexts that can come out |
| Package.PackageRoundTrip | tools/tinymaix_model_encryptor.py:153-178 | the round trip under any IV, and 4063 bytes as exactly the size limit that makes the package fit 4096 |
| Service.Partition.PaddingOk | partitions/tinymaix_inference/tinymaix_inference.c:293-321 | the padding loop answers yes exactly for well-padded bytes |
| Service.Partition.DecryptModel | partitions/tinymaix_inference/tinymaix_inference.c:172-356 | decrypt_model on the static buffer: its status, the bytes and the size it leaves on every path |
| Service.Partition.HandleLoad | partitions/tinymaix_inference/tinymaix_inference.c:399-442 | the load branch: status, flag, buffer, descriptor and input matrix on every path |
| Scores.ParseOutput | partitions/tinymaix_inference/tinymaix_inference.c:156-170 | the loop finds the winner among the ten floats in the buffer |
| Scores.WinnerIsFirstLargest | partitions/tinymaix_inference/tinymaix_inference.c:156-170 | the winner is the first of the largest scores if that is positive, and -1 exactly if none is, for scores that are ordered (no NaN) |
| Service.Partition.Classify | partitions/tinymaix_inference/tinymaix_inference.c:469-500 | tm_preprocess, tm_run and parse_output on the static buffers: the main buffer, outputs, answer and status they leave, and nothing else |
| Service.Partition.HandleInference | partitions/tinymaix_inference/tinymaix_inference.c:457-548 | the order of the checks, what psa_read leaves of the image when it is cut short, and the run |
| Service.Partition.Handle | partitions/tinymaix_inference/tinymaix_inference.c:386-603 | one message: every branch leaves the state and sends the words and the reply the transition function says |
| Service.Partition.Serve | partitions/tinymaix_inference/tinymaix_inference.c:367-605 | a run of the loop, models running inside it, leaves the state and the outputs of the delivered messages; a failed psa_get changes nothing |
| ServiceRuns.LoadSetsFlag | partitions/tinymaix_inference/tinymaix_inference.c:400-442 | a load sets the flag, and is answered with success, exactly when the package fits, decrypts and passes tm_load |
| ServiceRuns.ShortPlaintextFails | partitions/tinymaix_inference/tinymaix_inference.c:343-353 | although the magic is checked only from four bytes on, no plaintext shorter than five bytes can ever load |
| ServiceRuns.ResidueMattersExactly | partitions/tinymaix_inference/tinymaix/src/tm_model.c:32-35 | of the bytes the static model buffer starts with: an accepted package with the right magic and type loads alike from all of them if and only if its plaintext has at least 16 bytes, since tm_load reads bytes 16 to 19 |
| ServiceHistory.ResidueNeverChanges | partitions/tinymaix_inference/tinymaix_inference.c:268-281 | no sequence of messages, whatever keys are derived and whether loads succeed, changes the model buffer behind the whole blocks of the built-in package |
| ServiceHistory.LoadIgnoresHistory | partitions/tinymaix_inference/tinymaix_inference.c:392-449 | a load succeeds after any messages if and only if it would have succeeded before them, and leaves the same model bytes |
| ServiceHistory.LoadsExactlyFromZero | partitions/tinymaix_inference/tinymaix_inference.c:392-449 | the exact condition on the package under which a load succeeds, at any time, in a service whose model buffer starts zeroed |
| ServiceRuns.InferenceKeeps | partitions/tinymaix_inference/tinymaix_inference.c:452-557 | an inference, its run included, changes only the image, the main buffer and the outputs |
| ServiceRuns.InvariantHolds | partitions/tinymaix_inference/tinymaix_inference.c:358-605 | after any messages during which models keep to their buffers, a loaded model has MAIX magic, INT8 type, no sub buffer and at least five bytes, and descriptor and input matrix refer to it and to the static main buffer; the buffers keep their 4096, 1464 and 784 bytes |
| ServiceRuns.LoadedIffLastLoadSucceeded | partitions/tinymaix_inference/tinymaix_inference.c:386-449 | after any messages a model counts as loaded if and only if the most recent load request succeeded, and then holds that request's plaintext |
| ServiceRuns.OneMessageAnsweredOnce | partitions/tinymaix_inference/tinymaix_inference.c:386-603 | every branch ends in exactly one reply, preceded by at most one word, which needs a success and room for it |
| ServiceRuns.OneReplyEach | partitions/tinymaix_inference/tinymaix_inference.c:376-604 | among everything sent during a run, every message has exactly one reply, in order, on its own handle |
| ServiceReplies.LoadAnswer | partitions/tinymaix_inference/tinymaix_inference.c:392-449 | the status of a load as that of the first check that fails, in terms of the package bytes, the crypto service's answers and the model buffer: size, header, setup calls, whole blocks, and a plaintext that ends in its padding and is a loadable model |
| ServiceReplies.EveryRequestIsAnswered | partitions/tinymaix_inference/tinymaix_inference.c:376-604 | everything a run sends is one answer for each message, in order: the reply with its status by request and state met and, for a success with room for four bytes, the word 0 of a load or the class of an inference before it |
| ServiceReplies.ReplyStatus | partitions/tinymaix_inference/tinymaix_inference.c:376-604 | reply k of a run: success for connect and disconnect, not supported for an unknown type, the load status above, and for an inference bad state, invalid argument, communication failure, success or generic error, each under its exact condition |
| ServiceReplies.ClassIsArgmax | partitions/tinymaix_inference/tinymaix_inference.c:156-170 | the class sent is the first of the largest of the ten scores in the buffer if that is positive, and -1 if none is |
| ServiceRuns.RunSucceedsExactly | partitions/tinymaix_inference/tinymaix/src/tm_model.c:94-155 | tm_run on the loaded model succeeds if and only if no layer is one that fails, whatever the image |
| ServiceRuns.InferenceSucceedsExactly | partitions/tinymaix_inference/tinymaix_inference.c:452-557 | an inference in any run is answered with success exactly when a model is loaded, the input is absent or a whole image read in full, and no layer of that model is one that fails |
| ServiceRuns.LastImageStays | partitions/tinymaix_inference/tinymaix_inference.c:464-510 | an image sent in full is the one every later inference without data classifies, until more image bytes arrive |
| ServiceHistory.PixelLaw | partitions/tinymaix_inference/tinymaix_inference.c:464-470 | after any messages, short reads included, each pixel is that of the last delivery long enough to hold it, or the one the service started with |
| ServiceHistory.StillBuiltInExactly | partitions/tinymaix_inference/tinymaix_inference.c:464-510 | the image is still the built-in one if and only if every pixel that was delivered was last delivered with its built-in value |
| ServiceHistory.WholeImagesLaw | partitions/tinymaix_inference/tinymaix_inference.c:464-510 | if no read is cut short in the middle, the image is the last one delivered, or the built-in one if there is none |
| ServiceHistory.SentImageReplacesBuiltIn | partitions/tinymaix_inference/tinymaix_inference.c:464-510 | a load of a small model followed by one image, under any working cipher: the model is loaded and the image is the client's |
| ServiceHistory.BlackToWhite | partitions/tinymaix_inference/tinymaix_inference.c:464-510 | a concrete such run, in which the image changes |
| ServiceModels.LoadIgnoresLayers | partitions/tinymaix_inference/tinymaix/src/tm_model.c:17-41 | whether a model loads depends on its first twenty bytes only |
| ServiceModels.LoadedModelMayStray | partitions/tinymaix_inference/tinymaix/src/tm_model.c:17-41 | so loading does not bound what runs: replacing the first layer of a loadable model by one head gives a loadable model that does not fit the main buffer |
| ServiceModels.RunSafeExactly | partitions/tinymaix_inference/tinymaix_inference.c:469-500 | when a loaded model does stay in its buffers: for layers safe in their arithmetic, if and only if the records keep to their ranges, one output at most is reached, and a successful run has ten scores to read |
| ServiceModels.GoodIsSafe | partitions/tinymaix_inference/tinymaix_inference.c:469-500 | a model that meets a computable condition (planned layers, one output, ten scores) is safe to run on every buffer contents |
| ServiceModels.GoodPackageIsSafe | partitions/tinymaix_inference/tinymaix_inference.c:367-605 | if the package decrypts to such a model only, every sequence of messages is safe, so that every theorem about runs applies |
| ServiceModels.TinyModelIsGood | partitions/tinymaix_inference/tinymaix_inference.c:392-449 | such models exist and load |
| ServiceModels.AnswerIsDataflow | partitions/tinymaix_inference/tinymaix_inference.c:452-557 | the class sent to the client wins among the dequantized scores of the output layer, which are the value of the composition of the pure layers on the centred image |
| ServiceAnswers.AnswerIsClass | partitions/tinymaix_inference/tinymaix_inference.c:452-557 | if of the initial buffer the layers read the image only, that class is a function of the model bytes and the image: nothing an earlier inference left in the main buffer shows |
| ServiceAnswers.EveryAnswerIsTheClass | partitions/tinymaix_inference/tinymaix_inference.c:367-605 | end to end: if the package can only decrypt to good models with one output layer, then in every sequence of messages every inference answered with success sends the class of the image it saw, and its reply, and nothing else |
| ServiceAnswers.TinyModelAnswers | partitions/tinymaix_inference/tinymaix_inference.c:367-605 | a model that meets these conditions exists |
| Uf2.HeaderRoundTrip | uf2conv.py:49 | the eight header words packed are the eight words unpacked |
| Uf2.EncodeFields | uf2conv.py:148-160 | a written block carries the magic numbers, its address, number, family and flag, and its 256 bytes at offset 32 |
| Uf2Families.BlockBytes | uf2conv.py:120-160 | the 512 bytes of a written block, literally, the zeros behind the data and both magics included |
| Uf2Families.FileBlock | uf2conv.py:195-199 | block i of a file is page i, numbered i of the number of pages |
| Uf2Families.ContentLaw | uf2conv.py:120-141 | page i of a content starts at base + 256*i and holds its bytes, the last one filled with zeros |
| Uf2Families.BlockRead | uf2conv.py:49-66 | what the reader takes from any block: magic, no-flash bit, family bit, address, length, family, payload |
| Uf2.ReadsExactly | uf2conv.py:36-108 | block by block, for every single-family file and every family asked for: reading succeeds if and only if all blocks have the magic numbers, payloads have at most 476 bytes, and addresses ascend without overlap and with word-multiple gaps of at most 10M; what is read are the wanted payloads and the zeros of all gaps |
| Uf2.ReadPlaces | uf2conv.py:36-108 | the whole file: that condition, the bytes read and the start address, and that they are the image of the payloads when all are wanted |
| Uf2Families.ReadsAny | uf2conv.py:36-108 | the same for every mix of families: which payloads start a new run of addresses, the exact condition of success, and the bytes, start address and families read |
| Uf2Families.ReadsAnyFile | uf2conv.py:36-108 | the whole of any file: that condition, and that several families without a choice give an empty image at 0 unless the last block is a no-flash block |
| Uf2.ImageLength | uf2conv.py:67-79 | the image is as long as end address minus start address |
| Uf2.ImageHolds | uf2conv.py:77-79 | every payload lies at its own address |
| Uf2.ImageCoveredOrZero | uf2conv.py:74-76 | every other byte is zero |
| Uf2.WrittenThenRead | uf2conv.py:36-108 | pages written by either writer can be read back exactly when they ascend, and give their image |
| Uf2.ZeroBlockIsNotSkipped | uf2conv.py:50-52 | a concrete file: a block of zeros ends the conversion with an error |
| Uf2.Uf2RoundTrip | uf2conv.py:120-141 | for every content and base within 32 bits, reading back under the same family or none gives the content zero-filled to whole pages and the base address |
| Uf2.WritesExactly | uf2conv.py:120-141 | writing succeeds exactly for contents whose page addresses and count fit 32 bits |
| HexImage.SegmentDecoded | uf2conv.py:176-194 | an address record of either form and the lines behind it put the bytes at 65536 or 16 times its word plus their offset, whatever the address bits were before; unknown records change nothing |
| HexImage.EndStops | uf2conv.py:181-182 | nothing behind the end record counts |
| HexImage.HexRoundTrip | uf2conv.py:168-194 | a file of lines and of segments of both forms in any mix is decoded to the same bytes at the same addresses, the first data line giving the start address, whatever the checksums and whatever follows the end record |
| HexImage.PagesAscend | uf2conv.py:188-194 | the pages built can be placed exactly when the bytes never move back to an earlier page nor skip more than 10M |
| HexImage.PagesHold | uf2conv.py:188-194 | each page holds the last byte written to each of its addresses, 0xFF elsewhere |
| HexImage.WholeImage | uf2conv.py:162-199 | extent and every byte of the image of a forward stream |
| HexImage.DecodesExactly | uf2conv.py:176-194 | the record loop ends without an error exactly when every record up to the first end record is long enough for its type |
| HexImage.HexWritesExactly | uf2conv.py:162-199 | the front end succeeds exactly when that holds and all addresses and the number of pages fit 32 bits |
| HexImage.HexToBin | uf2conv.py:143-199 | of the files it writes, HEX to UF2 to BIN succeeds exactly for forward streams, and then every address holds its last byte, 0xFF in touched pages, 0 in untouched ones |
| Uf2Tool.Block.Encode | uf2conv.py:148-160 | a block under construction is encoded to its 512 bytes, or refused by struct.pack |
| Uf2Tool.Converter.PadTo | uf2conv.py:74-76 | the padding loop appends exactly the gap in zero bytes |
| Uf2Tool.Converter.ConvertFromUf2 | uf2conv.py:36-108 | the reader's loop with its lists and globals computes the specified image, start address or error |
| Uf2Tool.Converter.ConvertToUf2 | uf2conv.py:120-141 | the writer's loop computes the specified file or error |
| Uf2Tool.Converter.PutByte | uf2conv.py:188-194 | one byte goes into the current bytearray or a new one, and no other block changes |
| Uf2Tool.Converter.ConvertFromHex | uf2conv.py:162-199 | the record loop, with blocks updated in place, computes the specified file, start address or error |
| Log.NumeralRoundTrip | lib/log/tfm_log_raw.c:50-95 | a printed number parses back to its value and has no leading zero |
| Log.SignedRoundTrip | lib/log/tfm_log_raw.c:50-75 | so does a signed one, with a minus exactly for negative values, the most negative included |
| Log.TablesAreSymbols | lib/log/tfm_log_raw.c:21-24 | in each digit table every symbol stands for its index, and which characters the symbols are |
| Log.RenderLaws | lib/log/tfm_log_raw.c:104-150 | the rendering piece by piece: ordinary characters, every conversion with its argument, %%, an unknown conversion whose character is then ordinary text, and a trailing % |
| Log.Printer.Put | lib/log/tfm_log_raw.c:26-35 | a character joins the text; a full buffer goes out, so the position stays below 32 |
| Log.Printer.CollectDigits | lib/log/tfm_log_raw.c:54-87 | the digit loop leaves the numeral reversed and never exceeds its twelve bytes |
| Log.Printer.NumeralOutput | lib/log/tfm_log_raw.c:77-95 | the two loops together print the numeral and count it |
| Log.Printer.DecNumOutput | lib/log/tfm_log_raw.c:50-75 | %d prints sign and magnitude, %u the unsigned value of the same bits |
| Log.Printer.StringOutput | lib/log/tfm_log_raw.c:37-48 | a string joins the text character by character |
| Log.Printer.Tag | lib/log/tfm_log_raw.c:106-144 | each conversion prints the text its argument stands for |
| Log.Printer.Format | lib/log/tfm_log_raw.c:104-150 | the format loop prints exactly the rendering of format and arguments, unknown conversions and a trailing % included, and counts it |
| Log.LogVprintf | lib/log/tfm_log_raw.c:97-158 | what reaches the UART is the rendering cut into pieces of 32, the rest last, and the value returned |
| Log.CutJoins | lib/log/tfm_log_raw.c:29-34 | the pieces joined are the text, all but the last of 32 characters, none empty |
| Log.ReturnedLaw | lib/log/tfm_log_raw.c:152-157 | with a UART call that returns its length the value returned is n + n mod 32, so it is the number printed if and only if that is a multiple of 32 |
| Log.OneCharacterCountsTwice | lib/log/tfm_log_raw.c:152-157 | a concrete call: one character printed, 2 returned |
| Nsid.AddIsInsertion | lib/nsid_manager/tfm_nsid_manager.c:36-58 | adding a new token succeeds exactly for a negative id, a valid token and fewer than ten entries, and is a map insertion |
| Nsid.EntryErrors | lib/nsid_manager/tfm_nsid_manager.c:36-78 | which error an addition or a removal is answered with |
| Nsid.EntryRows | lib/nsid_manager/tfm_nsid_manager.c:48-74 | a success rewrites exactly the first free row, or clears exactly the first row with the token; an error changes no row |
| Nsid.AddAgain | lib/nsid_manager/tfm_nsid_manager.c:48-93 | after adding a token already in use, queries answer with the new id exactly if the free row taken comes first, else with the old one |
| Nsid.RemoveIsDeletion | lib/nsid_manager/tfm_nsid_manager.c:60-78 | removing succeeds exactly for a token in use and is a map deletion |
| Nsid.QueryIsLookup | lib/nsid_manager/tfm_nsid_manager.c:80-97 | a query answers with a negative id exactly for a token in use, namely its own |
| Nsid.LiveCount | lib/nsid_manager/tfm_nsid_manager.c:48-57 | at most as many tokens as rows are in use, fewer exactly if a row is free |
| Nsid.Table.Init | lib/nsid_manager/tfm_nsid_manager.c:24-34 | the table is emptied |
| Nsid.Table.Add | lib/nsid_manager/tfm_nsid_manager.c:36-58 | the search loop writes the first free row, or answers which error applies |
| Nsid.Table.Remove | lib/nsid_manager/tfm_nsid_manager.c:60-78 | the search loop clears the first row with the token |
| Nsid.Table.Query | lib/nsid_manager/tfm_nsid_manager.c:80-97 | the search loop finds the first row with the token |
| TzShim.Shim.InitContextSystem | lib/nsid_manager/tz_shim_layer.c:43-63 | initialisation empties the table and the active token but keeps the thread counter |
| TzShim.Shim.AllocModuleContext | lib/nsid_manager/tz_shim_layer.c:71-95 | allocation uses up a thread id before it knows whether the table has room |
| TzShim.Shim.FreeModuleContext | lib/nsid_manager/tz_shim_layer.c:102-127 | a free forgets the token even if the secure side then refuses the release |
| TzShim.Shim.LoadContext | lib/nsid_manager/tz_shim_layer.c:134-160 | a load reaches the secure side only with an id found in the table |
| TzShim.Shim.StoreContext | lib/nsid_manager/tz_shim_layer.c:167-188 | a store is passed on for any token |
| TzShim.StepOnEntries | lib/nsid_manager/tz_shim_layer.c:43-188 | what each call does to the map of tokens, given that the secure side hands out fresh tokens |
| TzShim.AllocSucceedsExactly | lib/nsid_manager/tz_shim_layer.c:71-95 | the exact condition under which an allocation succeeds |
| TzShim.TableIsGiven | lib/nsid_manager/tz_shim_layer.c:71-188 | in every run the table holds exactly what allocations have returned and frees have not taken back |
| TzShim.LoadPresentsItsNsid | lib/nsid_manager/tz_shim_layer.c:134-160 | a load presents exactly the id given at that token's allocation, and only between its allocation and its free |
| TzShim.FreeTakesBack | lib/nsid_manager/tz_shim_layer.c:102-127 | a release reaches the secure side exactly for such a token, and at most ten exist at a time |
| TzShim.ThreadIdsNeverRepeat | lib/nsid_manager/tz_shim_layer.c:80-85 | over any run the thread ids handed out are 1, 2, 3, ... and at most 254, so acquire is reached at most 254 times |
| TzShim.LastAnswer | lib/nsid_manager/tz_shim_layer.c:43-188 | result and secure-side calls of the last call of any run, from the calls before it |
| TzShim.HeldAreEntries | lib/nsid_manager/tz_shim_layer.c:71-127 | the tokens given out and not taken back are those in the table |
| TzShim.ActiveIsLastLoaded | lib/nsid_manager/tz_shim_layer.c:43-188 | the active token is that of the last successful load, until a store, a free or an initialisation succeeds |
| TzShim.RepeatedTokenMixesNsids | lib/nsid_manager/tz_shim_layer.c:85-91 | freshness is needed: a concrete run in which a repeated token makes a load present another allocation's id |
| TzShim.RepeatedTokenPresents | lib/nsid_manager/tz_shim_layer.c:71-160 | which id a load presents after any repeated token: the new one exactly if its row precedes the token's row, or the ids are equal |
| CArray.ArrayBody | tools/tinymaix_model_encryptor.py:273-277 | the writer's loop produces the lines of the array |
| CArray.Layout | tools/tinymaix_model_encryptor.py:273-277 | where value i stands in the text: its line, its place, its separator and the indentation, and the length of the whole |
| CArray.HexText | tools/tinymaix_model_encryptor.py:275 | a value is written 0x and its two lower-case digits, the high one first |
| CArray.HexDigits | tools/tinymaix_model_encryptor.py:106-112 | which digits are written, and that both cases are read |
| CArray.AnyLayoutIsRead | tools/tinymaix_model_encryptor.py:106-112 | the scan reads every layout whose gaps hold no digit zero, in either case of the digits |
| CArray.ArrayRoundTrip | tools/tinymaix_model_encryptor.py:99-112 | the generated array, whatever follows it, reads back as exactly its bytes, and only an empty one is refused |

## Left out

- Quantization.GapMeaning, Quantization.FcMeaning, Quantization.AddMeaning, Quantization.SoftmaxShare:
  they ask that the float operations of the byte in question are exact. IEEE rounding and the fast
  exponential are parameters of the model (`FloatOps`), so nothing is said about how much rounding
  adds; `sumscale` and `outscale` enter the convolution as the integers their casts give.
- Division by a zero scale and int32 overflow in the requantizer or in an fc bias: excluded by
  preconditions, since C leaves them undefined.
- Requantize.PostprocessSum: the scales are a sequence, not an array, so aliasing of the scale table
  with the output is not captured; the callers keep the two apart.
- Model.Mdl.Run: the input matrix lies in the main buffer, as tm_load leaves it; a caller's matrix in
  other memory and models whose records point outside the binary are not modelled. The layer callback
  of this build does nothing and is left out; the output array's capacity of one is a condition of
  Service.RunSafe. FP input preprocessing is left out.
- ModelFlow.RunIsDataflow: asks for a plan in which no operand mixes bytes of different results; a run
  whose operands do mix still satisfies Model.Mdl.Run and ModelRuns.RunKeeps.
- ServiceRuns.InvariantHolds: nothing is said about runs in which a model leaves its buffers, which C
  leaves undefined; ServiceModels.LoadedModelMayStray shows that loading does not exclude them.
- Service.Partition.DecryptModel: the status of a partial last block and of an output that does not
  fit stands for whatever the crypto service answers; AES, key derivation and random IVs are external.
  The package is the built-in array, so the null-pointer check is not modelled, nor is the
  developer-only key message.
- ModelPlan.RunsExactly: the half that concerns arithmetic is sufficient, not necessary: it bounds every
  product by 16384 and not by the weights of the model.
- Uf2.ReadsExactly: files in which every flagged block names one family; Uf2Families.ReadsAny covers
  the others. Printing of the header report and of family names is left out.
- HexImage.HexRoundTrip: decoded records; splitting the text into lines and digit pairs is not
  modelled (the code does not check the checksum either).
- Log.LogVprintf: strings stand for the characters before the terminating NUL, and the count does not
  wrap at 2^31; the magnitude of the most negative word is its two's complement negation.
- TzShim.LoadPresentsItsNsid: assumes that the secure side returns the invalid token or a nonzero one
  not in use. TFM_NS_CLIENT_INVALID_TOKEN is defined outside the repository and is a parameter. The
  variant without TFM_NS_MANAGE_NSID returns constants.
- CArray.ArrayRoundTrip: the part between the braces; the regular expressions that find the array's
  name and the two buffer lengths are left out, as is the C array output of uf2conv.py.
- Loops whose bodies share many variables are split into one method per loop level; the C code keeps
  them in one function.
- The PSA clients, the echo service, boot code, RTOS glue, key files, command lines, drive discovery
  and build scripts: plumbing.
