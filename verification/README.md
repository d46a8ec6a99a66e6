# NumToy, verified

NumToy is a lazy array library with bit-packed storage. Expressions are trees
of element-wise operations; they are compiled to machine code, by a small
x86-64 compiler of its own for IEEE floats and by a generic code generator for
packed integers, and can be cut into tiles and sent to other machines. This
project models these parts in Dafny and proves what they promise.

`dafny verify dfyconfig.toml` checks everything.

## What is modelled

**The JIT compiler** (`Expr`, `Graph`, `Lower`, `Intervals`, `LinearScan`,
`Pressure`, `Ssa`, `Bounds`, `TryLower`, `Encode`, `Emit`, `X86`, `Simulation`,
`KernelRun`, `KernelLoop`, `KernelCall`, `Jit`, `Constants`, `RealKernel`).
From the expression tree to a running kernel: the arena, single-assignment code,
live intervals, linear-scan register allocation, the assembler that appends and
patches bytes, and an x86-64 machine that fetches and decodes those bytes (after the Intel SDM,
volume 2, chapter 2 and the instruction reference) and executes them. The main
result is the contract of `Jit.Compile`: code comes out exactly for the trees
in `Accepts`, and calling it on a machine with the arguments in place returns
with every output element equal to the value of the tree, the callee-saved
registers and the stack pointer as they were, and no other memory changed.
Floating-point arithmetic is nine functions about which nothing is assumed
(`DataTypes.Fpu`), so the result holds for every rounding mode and NaN
convention. `RealKernel` says what that means for numbers: where the operations
round as IEEE 754 has them, constants are the numbers they stand for
(`Constants`), and a tree whose constants and intermediate results are floats
is computed exactly. `Pressure.FitsExactly` says which trees the allocator
accepts: the register need of a tree has a closed form, and the allocator
succeeds exactly when it is at most 14.

**Bit-packed storage and the integer kernel** (`BitOps`, `BitBuffer`,
`PackedAccess`, `Packing`, `Unpacking`, `Storage`, `TwosComplement`, `Limbs`,
`DoubleInt`, `KernelConstants`, `IntKernel`, `PackedKernel`, `IntPipeline`,
`IntExecution`, `WideUnpack`).
Buffers are byte arrays with a reading as one string of bits; each store is
proved to replace exactly the bits of its field. Packing and unpacking
(native-width fast paths, sixteen-lane batch, bit loop) agree with one
specification and invert each other, and the kernel's own stores, limb by limb
into zeroed memory, produce the same bytes as the packer (`Storage`). The fused
kernel with its eight-fold unrolled loop and its cleanup loop is proved to
leave in every output field the exact integer value of the tree modulo the
width. `IntExecution` carries this through the whole life of an array: created
from integers, run through a kernel, whose output is again the packed array of
the results and so may be the operand of the next kernel, and unpacked.

**Number codecs** (`Limbs`, `FloatCodec`, `FloatValues`, `FloatRounding`,
`FloatLimbs`, `FloatStorage`).
Two's complement in limbs with its carry loop, sign extension, scalable widths;
floats with any split of their bits up to 64, and beyond 64 with an exact
statement of what comes back. `FloatRounding.EncodeNearest` says when encoding
finds the nearest value of a format among all its patterns.
`FloatStorage` ties the codec to the compiler: what is packed at 32 and 64 bits
is what the compiled code loads.

**Views** (`Views`, `BitOffset`, `Broadcast`). Composition of transposes and
slices, the mapping from flat indices to bit positions, and broadcasting.

**The tile layer** (`Ring`, `RingProtocol`, `Wire`, `Transport`, `Tiles`,
`Dispatch`). The ring buffer as a class and as a protocol of two threads over
every interleaving of single loads, byte copies and publications, with 64-bit
counters that wrap and loads that may be stale; framing under arbitrary
chunking; tiling and reassembly through echoing workers in any order; and which
tiles get through the rings at all.

**Differentiation** (`Grad`) against the derivative over the reals, and the
**compile pool** (`Pool`) over every interleaving of its steps.

## Results that contradict a natural expectation

The code is modelled as it is; where it does not do what one might expect, a
lemma says exactly when it does.

- `BitOffset.OffsetExact`: the emitted index arithmetic is right on all
  elements exactly when the view has one dimension or one element, or the
  dimensions after the last one of size above 1 have stride 0.
  `BitOffset.ColumnGoesWrong` is the concrete input: a row-major 3 by 1 matrix.
- `DoubleInt.ConstantExact`: integer constants reach the kernel through a
  double, unchanged exactly if they fit 53 binary digits (or are the largest
  64-bit integer).
  `DoubleInt.OddGoesWrong` is 2^53 + 1.
- `IntKernel.LoadRight`: a kernel over 64 bits extends no signs. It takes an
  operand right exactly under `IntKernel.TakenRight`: one no narrower than the
  result always; a narrower one read bit by bit when it is not negative; one of
  a native width, which is read once more as high limb, when the bits that
  would change are zero. `IntKernel.NarrowGoesWrong` has -1 in 7 bits and 1 in
  8 bits in a kernel of 100 bits.
- `PackedKernel.WholeFieldRight`: into zeroed memory the kernel writes the value
  modulo 2^bits exactly for outputs of up to 128 bits, or when no bit above 128
  is set in it. `PackedKernel.WideGoesWrong` is -1 at 129 bits.
- `FloatCodec.EncodeDecode`: a bit pattern comes back from decoding and
  encoding exactly when its mantissa fits 52 bits.
  `FloatCodec.StolenSignGoesWrong` is a 64-bit pattern with 53 mantissa bits.
- `FloatRounding.EncodeNearest`: what is decoded of an encoded value is as near
  to it as any pattern of the format, exactly unless the mantissa is clamped
  although the next power of two is nearer and within the format.
- `FloatRounding.WholeSurvives`: whole numbers below 2^33 come back unchanged
  from every scalable array; `FloatRounding.WholeGoesWrong` is 2^33 + 1.
- `KernelConstants.PatternTruncates`: a float constant in an integer kernel is
  cut towards zero; `KernelConstants.HalfIsCut` is 1.5.
- `WideUnpack.LimbsToDouble`: of integers of more than 1024 bits none is
  unpacked as a number, and small ones not even as an infinity; up to 1024 bits
  those within 2^53 are unpacked exactly.
- `Pool.WaitCanEnd`: a caller's wait for its kernel can end exactly if some
  graph of the same hash compiles.
- `Limbs.DecodeEncode`: decoding two's complement limbs fails for the most
  negative 64-bit integer only.
- `Limbs.ExtensionComposes`: extending in two steps is extending at once exactly
  if the first step does not narrow, or the target is no wider than the first,
  or what the target reads of the number fits the middle width.
- `Grad.GradFitsKernel`: gradients have type Float(32) whatever the type of the
  expression, so the gradient of an expression of one width has that width
  exactly if it is 32 or the expression neither multiplies nor divides
  variables. `Grad.SquareGoesWrong` is x * x for a double x, and
  `Jit.SquareIsMisread` shows that its gradient is accepted and loads x as
  single-precision values.
- `Tiles.MissingShortens`: reassembly equals the whole result exactly when no
  remote result is missing; a missing one shortens the output (the comment in
  network.rs speaks of zeros).
- `Tiles.RestoredExactly`: cut into two parts or more and echoed, an array comes
  back as it was exactly if its buffer has whole bytes for every element; a
  packed one exactly if their padding would not fill a byte (`PackedRestored`).
  `Tiles.SevenBitsGrow` is any 7-bit array large enough to be cut.
- `Dispatch.SendableTiles`: a tile can be sent exactly if its message is no
  longer than the ring, and the output is whole exactly if all were
  (`Dispatch.WholeIffSent`). `Dispatch.DoublesNeverSent`: with one worker, no
  array of doubles that is cut is ever whole.
- `Grad.GradKeepsSize`: a gradient has the size of the expression exactly if
  that is 1 or some product or quotient in it is as large. `Grad.SumShrinks` is
  x + x.
- `FloatLimbs.WideLossless`: beyond 64 bits a double comes back exactly if the
  mantissa has room for its fraction.
- `Pool.XtremeTaskEnds`: unless someone turns the Xtreme mode on, a task in its
  queue can be brought to its end exactly if the mode is on or has just been
  seen on. `Pool.XtremeTaskStranded` is the run that leaves one behind: mode
  on, submit, mode off.

The header comment of network.rs describes the messages without the length
prefixes of the buffers; the model follows the code.

## Preconditions

- Compiled float kernels: every variable of the tree has the width of the root
  and its buffer covers the element count (`GoodCall`), because the code reads
  every variable at the root's width and contiguously; an id names one buffer;
  output, inputs, pointer table and stack frame do not overlap.
- Float(32) constants are rounded to single precision by the JIT; the value of
  a tree (`Expr.Eval`) says so.
- Integer kernels: a root and variables of integer types, constants that are
  integers or floats, no division; in kernels over 64 bits, operands the kernel
  takes right.
- `Constants.Ieee`: conversions and operations round to nearest, as IEEE 754 has
  it, where results are zero or in the normal range. Only the statements that
  name it assume it.

## Model

| member | source | states |
|---|---|---|
| Graph.Builder.Push | numtoy-core/src/graph.rs:46-50 | the node is appended and its index returned |
| Graph.Builder.Traverse | numtoy-core/src/graph.rs:59-104 | the tree is laid out in post order behind the nodes already there, which do not change |
| Graph.FromExpr | numtoy-core/src/graph.rs:52-57 | the arena of an expression holds exactly that tree, with its root last |
| Graph.ArenaWellFormed | numtoy-core/src/graph.rs:59-104 | operands always precede the node that uses them, and the root exists |
| Graph.HoldsDataType | numtoy-core/src/graph.rs:106-113 | the type computed on the arena is the type of the expression |
| Lower.LowerCtx.FreshVreg | numtoy-core/src/jit/ir.rs:155-159 | registers are numbered in order, none twice |
| Lower.LowerCtx.LowerNode | numtoy-core/src/jit/ir.rs:163-224 | lowering succeeds exactly on supported nodes, keeps everything lowered before, lowers a fresh tree to one instruction a node and numbers inputs by first occurrence |
| Ssa.LoweringPreservesValue | numtoy-core/src/jit/ir.rs:163-224 | the register of the root has the value of the expression, for every arithmetic and every input |
| Intervals.ComputeIntervals | numtoy-core/src/jit/ir.rs:228-254 | the table-filling loops give, for each register, its first definition and its last use, sorted by start |
| Intervals.FirstDefIsFirst | numtoy-core/src/jit/ir.rs:228-254 | an interval starts at the first definition and at no earlier one |
| Intervals.LastUseIsLast | numtoy-core/src/jit/ir.rs:228-254 | no mention of a register lies after the end of its interval |
| LinearScan.Expire | numtoy-core/src/jit/ir.rs:272-279 | exactly the intervals that end strictly before the new start give their registers back |
| LinearScan.LinearScanAlloc | numtoy-core/src/jit/ir.rs:264-290 | allocation succeeds exactly if no more than 14 closed intervals meet in a point; then overlapping intervals have different registers, and each gets the lowest free one |
| Pressure.ProgramIntervals | numtoy-core/src/jit/ir.rs:228-254 | the intervals of a lowered tree are those read off the tree |
| Pressure.FitsExactly | numtoy-core/src/jit/ir.rs:228-290 | a tree can be allocated exactly if its register need is at most 14, where a leaf needs 1 and an operation the largest of the left need, 1 more than the right need, and 3 |
| Bounds.CheckProgram | numtoy-core/src/jit/bounds.rs:57-152 | the report is positive exactly for programs of 1 to 4096 instructions and up to 256 inputs within all limits; of a program in order it names, in ascending order, exactly the divisions and the registers that depend on one |
| Bounds.MarksExactlyDivisions | numtoy-core/src/jit/bounds.rs:57-152 | the forward pass marks exactly the values that depend on a division |
| TryLower.TryLower | numtoy-core/src/jit/ir.rs:72-142 | a program comes out exactly for accepted trees; it is valid, computes the value of the arena's root, lists its inputs by first occurrence and carries a positive report |
| Expr.RootType | numtoy-core/src/types.rs:732-743 | a tree has the type of its leftmost leaf, variable or constant |
| Encode.RexRoundTrip | numtoy-core/src/jit/emit.rs:150-158 | the four bits of a REX prefix are read back as they were put in |
| Encode.DecodeEnc | numtoy-core/src/jit/emit.rs:142-333 | every emitted instruction, followed by anything, decodes to itself and its own length |
| Emit.Assembler.EmitPrologue | numtoy-core/src/jit/emit.rs:163-193 | the appended bytes encode the prologue of the System V convention |
| Emit.Assembler.EmitEpilogue | numtoy-core/src/jit/emit.rs:195-203 | the appended bytes encode the epilogue |
| Emit.Assembler.PatchJge | numtoy-core/src/jit/emit.rs:217-221 | patching fills in the distance from the jump to the present end of the buffer and changes nothing else |
| Emit.Assembler.JmpRel32Back | numtoy-core/src/jit/emit.rs:222-227 | the appended jump goes back to the recorded label |
| Emit.Assembler.EmitInst | numtoy-core/src/jit/emit.rs:64-123 | the appended bytes encode the two-address form of the instruction under the allocation |
| Emit.BodyLength | numtoy-core/src/jit/emit.rs:64-123 | within the instruction limit, every jump distance fits 32 bits |
| Emit.EmitKernel | numtoy-core/src/jit/emit.rs:64-123 | for a valid program the buffer is the encoding of prologue, loop with both jumps resolved, and epilogue |
| Simulation.SimBin | numtoy-core/src/jit/emit.rs:92-104 | copy then operate in place gives the operation's value in the destination and leaves every other register |
| Simulation.OperandsHeld | numtoy-core/src/jit/ir.rs:272-279 | a destination shares its register with neither operand, so the operands are still there when it is written |
| Simulation.SimInst | numtoy-core/src/jit/emit.rs:64-123 | executing the code of one instruction leaves its value in its register and keeps all values still needed |
| Simulation.SimBody | numtoy-core/src/jit/emit.rs:64-123 | one pass over the body stores the value of the stored register at the current element and changes no other memory |
| KernelRun.MachineStep | numtoy-core/src/jit/emit.rs:64-123 | where the bytes of an instruction lie in the code, the machine executes that instruction |
| KernelRun.RunHead | numtoy-core/src/jit/emit.rs:206-221 | the compare and conditional jump enter the body below the count and otherwise land on the epilogue |
| KernelRun.RunTail | numtoy-core/src/jit/emit.rs:222-232 | increment and jump come back to the compare with the next index |
| KernelLoop.LoopRuns | numtoy-core/src/jit/emit.rs:64-123 | from any index the loop fills the rest of the output and stops at the epilogue |
| KernelCall.KernelReturns | numtoy-core/src/jit/emit.rs:64-203 | a call of the kernel bytes returns to its caller with the output filled and saved registers restored |
| Jit.OrderedInputs | numtoy-core/src/array.rs:319-333 | the input list holds the variables by first occurrence of their id |
| Jit.FirstOntoIds | numtoy-core/src/array.rs:319-327 | the inputs a caller lists are in the order of the slots the compiler assigned |
| Jit.CallCorrect | numtoy-core/src/jit/mod.rs:35-71 | every proper call of the emitted bytes computes the tree |
| Jit.TryCompile | numtoy-core/src/jit/mod.rs:35-71 | code comes out exactly for accepted trees, and every proper call of it computes the tree |
| Jit.Compile | numtoy-core/src/jit/mod.rs:35-71 | the same from the expression: for every element count, out[i] is the stored form of the tree's value at i, and of all other memory only the 32 bytes of stack below the return address may change |
| Constants.ToDoubleRounds | numtoy-core/src/types.rs:717-730 | the double of a constant is nearest to the number it stands for: that of its bit pattern, the integer, n / 10^scale, or the signed value of its limbs |
| Constants.ToDoubleExact | numtoy-core/src/types.rs:717-730 | a constant whose number is a double becomes that double; float constants and whole numbers of up to 2^53 always do |
| RealKernel.EvalIsExact | numtoy-core/src/jit/ir.rs:163-224 | under IEEE arithmetic, a tree whose constants and results over the reals are floats is evaluated exactly, at 64 and at 32 bits |
| RealKernel.StoredReads | numtoy-core/src/jit/ir.rs:80-95 | an element of a packed 64-bit array is loaded as the number that was stored |
| RealKernel.StoredSingleReads | numtoy-core/src/jit/ir.rs:80-95 | an element of a packed 32-bit array of singles is loaded as the number that was stored |
| RealKernel.PackedCovers | numtoy-core/src/lib.rs:181-199 | a packed array of floats covers as many elements as it was made of |
| RealKernel.OutputIsExact | numtoy-core/src/jit/mod.rs:35-71 | the bytes a compiled kernel leaves for such a tree read as its value over the reals |
| Jit.SquareIsMisread | numtoy-core/src/jit/ir.rs:163-190 | the gradient of the square of a double is accepted by the compiler, and every load of its program is single precision |
| PackedAccess.LoadU64 | numtoy-core/src/fuser.rs:14-65 | a load returns the number in the bits it addresses, on the byte-wise paths and in the bit loop |
| PackedAccess.StoreU64 | numtoy-core/src/fuser.rs:70-126 | a store replaces exactly the bits it addresses by those of the value |
| PackedAccess.StoreThenLoad | numtoy-core/src/fuser.rs:14-126 | what is stored is loaded again modulo the limb's width, and all other bits are unchanged |
| PackedAccess.FastPathAligned | numtoy-core/src/fuser.rs:24-49 | from every buffer the byte-wise paths load what the bit loop would, exactly at positions on a byte boundary |
| Packing.PackBits | numtoy-hardware/src/main.zig:60-155 | the output is the low bits of every element, one after another, then zeros to the end of the last byte, at every width and on every path |
| Packing.PackBytes | numtoy-hardware/src/main.zig:65-92 | sixteen lanes at a time and the scalar tail together write every element once |
| Unpacking.UnpackBits | numtoy-hardware/src/main.zig:158-227 | every limb is the number in its bits, bits beyond the buffer being zero |
| Unpacking.PackThenUnpack | numtoy-hardware/src/main.zig:60-227 | packing and unpacking returns every limb modulo what the width leaves of it |
| Unpacking.UnpackThenPack | numtoy-hardware/src/main.zig:60-227 | unpacking and packing returns the same bits |
| Storage.StoreElement | numtoy-core/src/fuser.rs:908-938 | the limbs of an element stored one after another into zeros fill its field with the low bits of the element, at every width |
| Storage.StoreArray | numtoy-core/src/fuser.rs:70-126 | storing all elements in order into zeroed memory leaves the packed array |
| Storage.PackedUnique | numtoy-hardware/src/main.zig:60-155 | the packed form of an array is unique, byte for byte |
| Storage.StoreAndPack | numtoy-core/src/fuser.rs:70-126 | the bytes the kernel stores leave are those the packer returns |
| IntPipeline.ElementValue | numtoy-hardware/src/main.zig:130-155 | the packed bits of a multi-limb element are its value modulo 2^width |
| TwosComplement.SignExtension | numtoy-core/src/fuser.rs:447-455 | shifting left and back arithmetically extends the sign of the low bits |
| TwosComplement.SignedInverts | numtoy-core/src/types.rs:589-606 | the signed reading inverts reduction modulo 2^width on what the width can represent |
| TwosComplement.FromLimbIsSigned | numtoy-core/src/types.rs:650-665 | masking, testing the sign bit and filling up with ones computes the signed reading of the low bits |
| IntKernel.LoadRight | numtoy-core/src/fuser.rs:441-461 | what the kernel loads is congruent to the signed element exactly if the operand is one it takes right: always up to 64 bits, beyond as TakenRight says |
| IntKernel.WideEnoughRight | numtoy-core/src/fuser.rs:441-461 | operands no narrower than the result are always taken right |
| IntKernel.OpRight | numtoy-core/src/fuser.rs:256-275 | one operation on 64 or on 128 bits is right modulo the register width if its operands are |
| IntKernel.MeaningRight | numtoy-core/src/fuser.rs:367-523 | for every tree whose operands are taken right the emitted operations compute its exact integer value modulo the register width |
| IntKernel.NarrowLimb | numtoy-core/src/fuser.rs:14-65 | the high limb of an element of up to 64 bits reads as zero, or as the low limb again at native widths, wherever in the buffer it lies |
| IntKernel.NarrowOperand | numtoy-core/src/fuser.rs:456-461 | an operand narrower than the result of a kernel over 64 bits is taken right exactly if, read bit by bit, it is not negative, or, at a native width, the low bits of its second reading are those of its sign |
| IntKernel.NarrowGoesWrong | numtoy-core/src/fuser.rs:456-461 | in a kernel of 100 bits, -1 in 7 bits is taken for 127 and 1 in 8 bits for 2^64 + 1 |
| DoubleInt.ConstantExact | numtoy-core/src/fuser.rs:464-475 | an integer constant reaches the kernel unchanged exactly if a double can hold it or it is the largest one |
| DoubleInt.OddGoesWrong | numtoy-core/src/fuser.rs:464-475 | the constant 2^53 + 1 reaches the kernel as 2^53 |
| DoubleInt.NearestIs | numtoy-core/src/fuser.rs:464-475 | rounding to a multiple finds the nearest one, and the even one of two |
| FloatValues.RoundedNearest | numtoy-core/src/fuser.rs:464-475 | an integer rounded to 53 binary digits is as near to itself as any double |
| KernelConstants.PatternTruncates | numtoy-core/src/fuser.rs:464-475 | a float constant reaches an integer kernel rounded towards zero, and saturates beyond 64 bits |
| KernelConstants.WholeConstant | numtoy-core/src/fuser.rs:464-475 | a float constant that is a whole number of 64 bits reaches the kernel as that number |
| KernelConstants.HalfIsCut | numtoy-core/src/fuser.rs:464-475 | the constant 1.5 reaches the kernel as 1 |
| KernelConstants.SpecialPatterns | numtoy-core/src/fuser.rs:464-475 | as constants of an integer kernel, infinities saturate and what is not a number becomes 0 |
| PackedKernel.StoreResult | numtoy-core/src/fuser.rs:941-977 | a result fills its output field, with one limb or two, and touches nothing else |
| PackedKernel.RunKernel | numtoy-core/src/fuser.rs:779-866 | the unrolled loop and the cleanup loop together write every output field once, in order |
| PackedKernel.KernelOutput | numtoy-core/src/fuser.rs:779-977 | output field i is the exact value of the tree at element i modulo 2^bits, or its low 128 bits |
| PackedKernel.KernelExactWhenFits | numtoy-core/src/fuser.rs:779-977 | a value that fits the width is read back exactly |
| PackedKernel.KernelFrame | numtoy-core/src/fuser.rs:955-976 | bits beyond the fields, and bits of a field above 128, keep their value |
| PackedKernel.WholeFieldRight | numtoy-core/src/fuser.rs:955-976 | in a zeroed output, field i is the exact value modulo 2^bits if and only if the output has at most 128 bits or no higher bit is set in the value |
| PackedKernel.WideGoesWrong | numtoy-core/src/fuser.rs:955-976 | at 129 bits the constant -1 is stored as 2^128 - 1 |
| IntPipeline.StoredField | numtoy-core/src/lib.rs:181-199 | field i of an encoded and packed array is value i modulo 2^width |
| IntPipeline.ValuesToValues | numtoy-core/src/array.rs:262-353 | from integer arrays to output: element i is the tree on the i-th values modulo 2^bits |
| IntExecution.NewIntVariable | numtoy-core/src/lib.rs:181-199 | a variable made from integers holds exactly the packed array of their limbs |
| IntExecution.NewScalableVariable | numtoy-core/src/lib.rs:147-153 | a scalable variable has every integer in the range of its width, some integer that needs that width, and holds their packed array |
| IntExecution.KernelPacks | numtoy-core/src/fuser.rs:779-977 | the bytes a kernel leaves in a zeroed output of the right size are the packed array of its results |
| IntExecution.Execute | numtoy-core/src/array.rs:262-353 | the result is an array variable of the leftmost leaf's integer type, 64 bits wide if that is scalable; it stores the value of the tree on every row of values, reduced to that width, and exactly where the value fits it |
| IntExecution.UnpackInts | numtoy-core/src/lib.rs:234-251 | unpacking such a variable of up to 64 bits returns the stored integers |
| WideUnpack.LimbsToDouble | numtoy-core/src/types.rs:531-580 | limbs of up to 1024 bits that hold a number within 2^53 become that number; limbs of more bits never become a number, and become no number at all where they hold a small one |
| Limbs.AddOne | numtoy-core/src/types.rs:395-405 | the carry loop, left early, adds one modulo the size of the array |
| Limbs.Negate | numtoy-core/src/types.rs:392-405 | complement and carry negate the number the limbs hold |
| Limbs.MaskLast | numtoy-core/src/types.rs:406-410 | masking the last limb reduces modulo 2^bits |
| Limbs.EncodeInt | numtoy-core/src/types.rs:373-413 | the limbs of a 64-bit integer hold it modulo 2^bits |
| Limbs.DecodeInt | numtoy-core/src/types.rs:455-495 | decoding gives the low 64 bits of the signed value, or overflows where its magnitude is 2^63 |
| Limbs.DecodesLow | numtoy-core/src/types.rs:455-495 | whatever the width, what is decoded is the 64-bit integer congruent to the signed value, and decoding fails only for a negative value congruent to the most negative one |
| Limbs.DecodeEncode | numtoy-core/src/types.rs:373-495 | decoding inverts encoding on all the width holds but the most negative 64-bit integer |
| Limbs.SignBitMeans | numtoy-core/src/types.rs:459-465 | the looked-up bit is set exactly when the field is in the upper half of its range |
| Limbs.ExtendLimbs | numtoy-core/src/types.rs:497-529 | the result is the signed value modulo 2^to, widening or narrowing |
| Limbs.ExtensionPreserves | numtoy-core/src/types.rs:497-529 | widening keeps the signed value |
| Limbs.ExtensionOfEncoding | numtoy-core/src/types.rs:621-631 | extending an encoding gives the encoding at the new width |
| Limbs.ExtensionComposes | numtoy-core/src/types.rs:497-529 | extending in two steps is extending at once if and only if the first does not narrow, or the target is no wider than the first, or what the target reads fits the middle width |
| Limbs.ScalableFits | numtoy-core/src/types.rs:48-57 | the width chosen for an integer holds it, and half its range would not hold the magnitude |
| Limbs.ScalableSurvives | numtoy-core/src/lib.rs:147-153 | every element of an array survives at the width chosen for the array |
| Limbs.ScalableTight | numtoy-core/src/lib.rs:147-153 | the width chosen for an array holds every element, and some element needs it |
| FloatCodec.OrIsFields | numtoy-core/src/types.rs:132-141 | or-ing sign, exponent and mantissa lays the three fields side by side |
| FloatCodec.FieldsReadBack | numtoy-core/src/types.rs:144-161 | the masks and shifts of decoding recover the three fields |
| FloatCodec.EncodeDecode | numtoy-core/src/types.rs:108-175 | a pattern with an ordinary exponent comes back exactly when its mantissa fits 52 bits |
| FloatCodec.StolenSignGoesWrong | numtoy-core/src/types.rs:108-175 | at 64 bits with a stolen sign the pattern with exponent 1 and mantissa 1 does not come back |
| FloatCodec.DecodeEncode | numtoy-core/src/types.rs:108-175 | a normal value in range keeps sign and exponent, and its fraction is rounded to the nearest mantissa, halves upward, the last mantissa standing in for the next power of two; from 52 mantissa bits on it does not move |
| FloatRounding.EncodeNearest | numtoy-core/src/types.rs:108-175 | what is decoded of an encoded normal value is as near to it as the value of any 64-bit pattern in the format, if and only if the mantissa is not clamped where the next power of two is nearer and in range |
| FloatRounding.ExactIffFits | numtoy-core/src/types.rs:108-175 | a normal value in range comes back unchanged, but for a stolen sign, if and only if its fraction fits the mantissa |
| FloatRounding.OutOfRange | numtoy-core/src/types.rs:121-128 | an exponent above the range becomes an infinity, one below becomes zero |
| FloatRounding.TenthRounds | numtoy-core/src/types.rs:130-133 | 0.1 is encoded at 32 bits as 0x3DCCCCCD |
| FloatCodec.EncodesBinary64 | numtoy-core/src/types.rs:177-186 | at 64 bits a normal double is encoded as its own bit pattern |
| FloatCodec.EncodesBinary32 | numtoy-core/src/types.rs:177-186 | at 32 bits a single-precision value is encoded as its binary32 pattern |
| FloatCodec.RangeOfWidth | numtoy-core/src/types.rs:177-197 | without a split of their own, formats of up to 16 bits have the exponents of half precision, of up to 32 bits those of single, and wider ones those of double |
| FloatCodec.ExponentBitsRight | numtoy-core/src/types.rs:66-76 | the search for exponent bits ends at the first width in range, at 11 bits at the latest |
| FloatCodec.ArrayInRange | numtoy-core/src/lib.rs:154-171 | the configuration chosen for an array keeps every normal value in range and leaves a mantissa |
| FloatRounding.ConfigOfValue | numtoy-core/src/types.rs:59-106 | the format of a value has its exponent in range and 8, 16, 24, 32 or 40 mantissa bits by the size of the exponent |
| FloatRounding.ArrayMantissa | numtoy-core/src/lib.rs:154-171 | the mantissa of an array has at least the width every element calls for, or 6 bits for exponents below 4 either way |
| FloatRounding.WholeSurvives | numtoy-core/src/lib.rs:154-171 | whole numbers below 2^33 come back unchanged from every scalable array |
| FloatRounding.WholeGoesWrong | numtoy-core/src/types.rs:59-106 | 2^33 + 1 alone in an array comes back as 2^33 + 2 |
| FloatLimbs.SetBits | numtoy-core/src/types.rs:199-219 | the loop replaces exactly the addressed field by the given bits |
| FloatLimbs.GetBits | numtoy-core/src/types.rs:221-240 | the loop returns the number in the addressed field |
| FloatLimbs.ShiftMantissa | numtoy-core/src/types.rs:278-288 | the 52-bit fraction is shifted to the top of a mantissa across limbs without loss |
| FloatLimbs.UnshiftMantissa | numtoy-core/src/types.rs:343-356 | the top 52 bits of a mantissa are taken out across limbs |
| FloatLimbs.EncodeWide | numtoy-core/src/types.rs:242-302 | zero gives zeros; for every other double the written fields read back as mantissa (rounded and clamped up to 52 bits, exact beyond), exponent and sign, an infinity by the exponent above the largest |
| FloatLimbs.DecodeWide | numtoy-core/src/types.rs:304-371 | the fields of any limbs are decoded to zero, infinity or the double they stand for |
| FloatLimbs.WideLossless | numtoy-core/src/types.rs:242-371 | beyond 64 bits zero, every normal double and the infinities come back as they were, but for a stolen sign, if and only if the mantissa has room for the fraction; 52 bits always have |
| FloatLimbs.FracKept | numtoy-core/src/types.rs:273-277 | the fraction that comes back is the nearest multiple of the mantissa's last place, halves upward, the last one standing in for the next power of two; it does not move if and only if that place does not cut it |
| FloatLimbs.EncodeThenDecode | numtoy-core/src/types.rs:242-371 | the two methods one after the other return the double with the fraction its mantissa holds; with 52 bits or more the same double, but for a stolen sign |
| FloatStorage.JitLoadsDouble | numtoy-core/src/jit/ir.rs:80-95 | the raw bytes of a packed 64-bit array are the doubles' own patterns, as the JIT loads them |
| FloatStorage.JitLoadsSingle | numtoy-core/src/jit/ir.rs:80-95 | the same at 32 bits for single-precision values |
| Views.RowMajorBitStrides | numtoy-core/src/array.rs:244-250 | the loop from the right multiplies up the sizes of the inner dimensions |
| Views.SliceAndDice | numtoy-core/src/lib.rs:475-520 | the loops build the sliced shape, strides and offset |
| Views.SliceOfAll | numtoy-core/src/lib.rs:475-520 | ranges that take everything in steps of 1 change nothing |
| Views.PickedExactly | numtoy-core/src/lib.rs:486-500 | a range picks exactly the elements whose index stays below both its stop and the size |
| Views.SliceAddress | numtoy-core/src/lib.rs:475-520 | a coordinate of a slice addresses the picked element of the original, inside it |
| Views.TransposeAddress | numtoy-core/src/array.rs:29-57 | a transposed view addresses the element at the reversed coordinates |
| Views.ViewsCompose | numtoy-core/src/lib.rs:475-520 | after any sequence of transposes and slices, coordinates address the original element at the composed index |
| Views.ViewElement | numtoy-core/src/lib.rs:475-520 | every address of a view of a row-major array is that of a whole element inside the buffer |
| Views.ViewElementsDiffer | numtoy-core/src/lib.rs:475-520 | no two coordinates of a view share an address |
| Views.FlatUnflatten | numtoy-core/src/array.rs:254-260 | flat indices and coordinates correspond one to one |
| BitOffset.ComputeBitOffset | numtoy-core/src/fuser.rs:311-359 | the emitted arithmetic computes base plus the walk over the dimensions |
| BitOffset.WalkIsDot | numtoy-core/src/fuser.rs:333-357 | the walk is the address plus an excess contributed by trailing dimensions of size 1 |
| BitOffset.OffsetExact | numtoy-core/src/fuser.rs:311-359 | all elements are addressed right exactly under the stated condition on trailing dimensions |
| BitOffset.LastNotOne | numtoy-core/src/fuser.rs:350-356 | with a last dimension above 1 there is no trailing dimension to go wrong |
| BitOffset.ColumnGoesWrong | numtoy-core/src/fuser.rs:350-356 | in a row-major column, element 1 is fetched from position 2 |
| Broadcast.BroadcastShape | numtoy-core/src/array.rs:356-373 | the loop gives the common shape, or fails exactly if some dimension has none |
| Broadcast.CommonMeans | numtoy-core/src/array.rs:356-373 | aligned at the right, a common shape exists if and only if sizes facing each other are equal or one is 1; it has the other size there, and the sizes of the longer shape beyond the shorter |
| Broadcast.CommonCommutes | numtoy-core/src/array.rs:356-373 | broadcasting shapes is commutative, failures included |
| Broadcast.CommonAssociates | numtoy-core/src/array.rs:356-373 | and associative, failures included |
| Broadcast.CommonAccepts | numtoy-core/src/array.rs:92-104 | both operands pass the checks for their common shape |
| Broadcast.BroadcastIndex | numtoy-core/src/array.rs:126-134 | the coordinate loop computes the index by dimensions |
| Broadcast.BroadcastReads | numtoy-core/src/array.rs:113-134 | an element of the target reads the source element with size-1 axes set to 0, inside the source, so clamping changes nothing |
| Ring.RingBuffer.Push | numtoy-core/src/network.rs:100-134 | a push succeeds exactly if the bytes fit, and then appends them; one copy or two |
| Ring.RingBuffer.Drain | numtoy-core/src/network.rs:138-161 | a drain takes the oldest bytes, as many as asked for and there |
| Ring.SlotIsPlace | numtoy-core/src/network.rs:107-131 | both pieces of a transfer put byte i where the counter says, past the wrap of the 64-bit counter too |
| RingProtocol.StepKeeps | numtoy-core/src/network.rs:100-161 | every single step of either thread keeps the invariant of the shared ring |
| RingProtocol.RingIsSafe | numtoy-core/src/network.rs:100-161 | in every interleaving, drained bytes followed by those in the ring are the bytes pushed, the ring never overfills, and no slot is written while it is being read |
| RingProtocol.PushDecision | numtoy-core/src/network.rs:101-106 | a push is refused exactly if the bytes do not fit beside those not yet seen drained |
| RingProtocol.DrainTakesNext | numtoy-core/src/network.rs:138-161 | what a finished drain hands out are the next bytes in order |
| Wire.EncodeTileReq | numtoy-core/src/network.rs:295-307 | the message is tag 1, header and length-prefixed buffers |
| Wire.TcpStream.ReadExact | numtoy-core/src/network.rs:274-282 | exactly the next n bytes are returned, however they arrive, or the stream has closed before |
| Wire.ReadRequest | numtoy-core/src/network.rs:545-564 | reading a request from chunks is parsing the bytes, and leaves the rest |
| Wire.RequestRoundTrip | numtoy-core/src/network.rs:295-307 | an encoded tile is parsed to itself, with nothing of what follows consumed |
| Wire.HandleConnection | numtoy-core/src/network.rs:527-543 | the connection loop answers every request it understands, in order |
| Wire.TilesServed | numtoy-core/src/network.rs:527-587 | tiles sent one after another are answered one by one, in order, with nothing left over |
| Wire.DecodeTileResp | numtoy-core/src/network.rs:310-318 | reading a response from chunks is parsing the bytes |
| Wire.ResponseRoundTrip | numtoy-core/src/network.rs:310-318 | a response decodes to what was sent |
| Wire.EchoKeeps | numtoy-core/src/network.rs:545-587 | the echo of a tile carries its id, element count and width |
| Wire.ReceiveResults | numtoy-core/src/network.rs:372-386 | the receive loop leaves in the results map the responses of the stream, a later one of the same id replacing an earlier one |
| Wire.ResponsesReceived | numtoy-core/src/network.rs:372-386 | responses sent one after another are received one by one, in order, with nothing left over |
| Transport.ServedGrows | numtoy-core/src/network.rs:527-543 | a worker that has seen part of a stream has answered a prefix of its answers |
| Transport.RingToWorker | numtoy-core/src/network.rs:341-367 | whatever has passed the ring, the answers are the first echoes of the tiles pushed, and all of them once it is empty |
| Tiles.Partition | numtoy-core/src/network.rs:215-223 | the parts cover the array, none is empty and sizes differ by at most one |
| Tiles.Decompose | numtoy-core/src/network.rs:199-260 | no tiles for arrays of up to 2^20 elements or no nodes; otherwise one tile more than there are nodes, or one for every element if those are fewer, consecutive, with their slices of the buffer of every distinct variable of the graph |
| Tiles.ArenaInputs | numtoy-core/src/network.rs:204-230 | the graph of an expression is cut at the size and width of the expression, and its buffers are those its kernel is called with, in the same order |
| Tiles.SlicesJoin | numtoy-core/src/network.rs:232-246 | the slices of a buffer that covers the array, joined, are that buffer |
| Tiles.IdsDistinct | numtoy-core/src/network.rs:249-250 | tiles of one call have different ids although the counter wraps |
| Tiles.EveryEchoFound | numtoy-core/src/network.rs:372-386 | once what the workers wrote has been received, the results map has the echoes of exactly the remote tiles that were dispatched, whatever the order and the worker |
| Tiles.Reassemble | numtoy-core/src/network.rs:475-493 | the local output is followed by the results found, in tile order |
| Tiles.EchoIsShare | numtoy-core/src/network.rs:564-576 | the echo of a tile is its share of the first input, padded with zeros where the input is too short |
| Tiles.EchoRestoresAll | numtoy-core/src/network.rs:435-493 | cut, echoed by any workers and received in any order, the first input comes back cut or zero-padded to whole bytes per element, except that the caller's own tile is not padded |
| Tiles.RestoredExactly | numtoy-core/src/network.rs:232-246 | with at least two parts the array comes back as it was if and only if its buffer has exactly the bytes the tiles assume |
| Tiles.PackedRestored | numtoy-core/src/network.rs:199-260 | cut into two parts or more and echoed, a packed array comes back as it was if and only if the bits that whole bytes would add to its elements do not fill a byte |
| Tiles.SevenBitsGrow | numtoy-core/src/network.rs:224-246 | a 7-bit integer array large enough to be cut comes back longer, padded with zeros |
| Tiles.MissingShortens | numtoy-core/src/network.rs:486-491 | reassembly is complete exactly when no result is missing |
| Tiles.WholeIffDispatched | numtoy-core/src/network.rs:435-493 | the reassembled output is that of all tiles if and only if every remote tile was dispatched |
| Dispatch.DispatchDecision | numtoy-core/src/network.rs:101-106 | in every interleaving a tile is sent if and only if its message of 21 bytes and 4 more per buffer fits beside the bytes not seen drained |
| Dispatch.SendableTiles | numtoy-core/src/network.rs:397-401 | a tile can be sent in some run if and only if its message is no longer than the ring; a longer one is refused for ever |
| Dispatch.WholeIffSent | numtoy-core/src/network.rs:435-493 | from the rings to the result: the output is that of all tiles if and only if every remote tile was sent, and only tiles whose message fits the ring can have been |
| Dispatch.DoublesNeverSent | numtoy-core/src/network.rs:199-260 | of every array of doubles large enough to be cut for one worker, the worker's tile is too long for the ring and never sent |
| Grad.GradIsDerivative | numtoy-core/src/ir.rs:182-225 | where all denominators are non-zero and every constant is read as the number its pattern stands for, the value of the gradient is the derivative, with a quadratic error bound |
| Grad.ExactIsStandard | numtoy-core/src/ir.rs:184-192 | the patterns of the constants in a gradient stand for 1.0 and 0.0 |
| Grad.ExactReading | numtoy-core/src/ir.rs:184-192 | for all values of the variables there is such a reading |
| Grad.DerivativeIsUnique | numtoy-core/src/ir.rs:182-225 | no other number satisfies that bound |
| Grad.NearProduct | numtoy-core/src/ir.rs:205-211 | the product rule with its error |
| Grad.NearQuotient | numtoy-core/src/ir.rs:213-221 | the quotient rule with its error |
| Grad.GradExists | numtoy-core/src/ir.rs:182-225 | differentiation gives up exactly on matrix products |
| Grad.GradKeeps | numtoy-core/src/ir.rs:182-225 | a gradient has variables if and only if the expression multiplies or divides some |
| Grad.GradFitsKernel | numtoy-core/src/ir.rs:184-192 | a gradient has type Float(32); the gradient of an expression of one width has it throughout if and only if that width is 32 or the expression neither multiplies nor divides variables |
| Grad.SquareGoesWrong | numtoy-core/src/ir.rs:205-211 | the gradient of x * x for a double x has type Float(32) and the double as a leaf |
| Grad.GradSize | numtoy-core/src/ir.rs:182-225 | a gradient has the size of the largest product or quotient of the expression, and at least 1 |
| Grad.GradKeepsSize | numtoy-core/src/ir.rs:182-225 | a gradient has the size of the expression if and only if that is 1 or some product or quotient is as large |
| Grad.SumShrinks | numtoy-core/src/ir.rs:193-197 | the gradient of x + x for an array x is a single element |
| Pool.StepKeeps | numtoy-core/src/pool.rs:389-436 | every step of a submitter, worker, eager caller or mode change keeps the invariant |
| Pool.PoolIsSafe | numtoy-core/src/pool.rs:96-113 | in every interleaving tasks carry their graph's hash, cached code was compiled from a graph of its key, no submitted hash is lost, and every worker, the Xtreme worker too, deals with one task at a time |
| Pool.WorkDecreases | numtoy-core/src/pool.rs:389-436 | every step of work uses up a measure that only a new submission or eager call raises, so a task is worked on a bounded number of times |
| Pool.TaskDelivered | numtoy-core/src/pool.rs:152-236 | without anyone turning the Xtreme mode on, some run brings every task of the ordinary pool from every state to its end, with its hash cached or its graph given up on by the compiler |
| Pool.SubmittedIsCached | numtoy-core/src/pool.rs:96-113 | a graph submitted with the mode off, in any state, can get its hash cached, or does not compile |
| Pool.WaitCanEnd | numtoy-core/src/array.rs:310-318 | after a submission some run caches its hash if and only if some graph of that hash compiles |
| Pool.EagerCaches | numtoy-core/src/array.rs:299-308 | an eager caller has its hash cached when it is done, unless its graph does not compile |
| Pool.AssemblesStabilized | numtoy-core/src/pool.rs:400-413 | while no worker sees the Xtreme mode, only stabilized graphs are assembled |
| Pool.XtremeTaskWaits | numtoy-core/src/pool.rs:284-342 | a task in the Xtreme queue waits while the mode is off, whatever else runs |
| Pool.XtremeTaskEnds | numtoy-core/src/pool.rs:284-342 | without anyone turning the mode on, some run brings a task in the Xtreme queue to its end if and only if the mode is on or the worker has just seen it on |
| Pool.XtremeTaskStranded | numtoy-core/src/pool.rs:96-113 | turning the mode on, submitting and turning it off leaves a task that no such run ends |
| Pool.PolledInTime | numtoy-core/src/pool.rs:284-342 | where the worker polls in between, the task can be brought to its end although the mode is off again |

## Left out

- The Windows prologue, the AArch64 back end, executable pages and guard zones: the modelled kernel is the one for x86-64 under the System V convention.
- Floating-point exceptions, the MXCSR register and the upper halves of vector registers: the arithmetic is left uninterpreted. Of the flags, only the one the loop's jump reads is kept.
- Names of variables, timing, logging, sockets and threads as such: byte streams and steps stand for them.
- The Cranelift back end is modelled by the meaning of the instructions it is asked for; its float mode and the dequantizing matrix product are not part of this model.
- Stable sorting of live intervals is an insertion function; the register map's sentinel is an Option.
- Constants of the integer kernel given as limbs or decimal fractions, and wide limbs beyond 2^53: their rounding on the way to a double.
- 128-bit division, which is unsigned in the code, and division in integer kernels altogether.
- The per-id maps of widths, shapes and strides in the integer kernel: the model reads each variable's own, so it does not capture two views of one id in a graph, where the last one wins.
- Aliasing of input buffers and the output in the integer kernel: inputs are values there.
- Weak memory beyond stale loads: the threads of the ring interleave single steps, with acquire and release as in the code.
- Injectivity of the graph hash: the pool is proved for any hash.
- Queue order and fairness in the pool: any task may be taken next.
- Subnormals and NaNs in the float codec; rounding of FloatingInt values.
- Rounding of doubles to integers when an integer array is created, and the conversion back when it is read: arrays start and end as integers.
- IntExecution.UnpackInts: integers of up to 64 bits, because wider ones are handed out as doubles (WideUnpack), signs of infinities left out.
- Constants.ToDoubleRounds: decimal fractions with a numerator no double holds or more than 22 digits, which the code rounds twice, and limbs beyond 2^53.
- FloatLimbs.DecodeWide: returns None where the code computes a subnormal, because subnormals are not modelled.
- Reading strided views outside kernels (to_flat_f64 reads the packed buffer contiguously), reshape, and the calculator.
