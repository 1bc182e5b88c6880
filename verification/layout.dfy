/**
 * The decoder register of the virtual machine and the sizing constants around it.
 * The register is a row of bits split into half-open fields:
 *
 *   ctr | sponge  | cf_ops  | ld_ops   | hd_ops  | ctx, loop ...
 *    0  | 1 .. 4  | 5 .. 7  | 8 .. 12  | 13, 14  | 15 ..
 *
 * Only the constants are part of the source; nothing here decodes a register value.
 */
module DecoderLayout {
  import opened Results

  // Global bounds
  const MAX_CONTEXT_DEPTH: nat := 16
  const MAX_LOOP_DEPTH: nat := 8
  const MIN_TRACE_LENGTH: nat := 16
  const MAX_REGISTER_COUNT: nat := 128
  const MIN_EXTENSION_FACTOR: nat := 16
  const BASE_CYCLE_LENGTH: nat := 16
  const MIN_STACK_DEPTH: nat := 8
  const MIN_CONTEXT_DEPTH: nat := 1
  const MIN_LOOP_DEPTH: nat := 1
  const PUSH_OP_ALIGNMENT: nat := 8

  // Hash operation
  const HASH_STATE_RATE: nat := 4
  const HASH_STATE_CAPACITY: nat := 2
  const HASH_STATE_WIDTH: nat := HASH_STATE_RATE + HASH_STATE_CAPACITY
  const HASH_NUM_ROUNDS: nat := 10
  const HASH_DIGEST_SIZE: nat := 2

  // Operation sponge
  const SPONGE_WIDTH: nat := 4
  const PROGRAM_DIGEST_SIZE: nat := 2
  const HACC_NUM_ROUNDS: nat := 14

  // Stack layout
  const MAX_PUBLIC_INPUTS: nat := 8
  const MAX_OUTPUTS: nat := MAX_PUBLIC_INPUTS
  const MAX_STACK_DEPTH: nat := 32

  /** Rust's `Range<usize>`: the bits `start <= b < end`. */
  datatype BitRange = BitRange(start: nat, end: nat) {
    predicate Contains(bit: nat) {
      start <= bit < end
    }

    function Width(): nat {
      if start <= end then end - start else 0
    }
  }

  // Decoder layout
  const NUM_CF_OP_BITS: nat := 3
  const NUM_LD_OP_BITS: nat := 5
  const NUM_HD_OP_BITS: nat := 2

  const NUM_CF_OPS: nat := 8
  const NUM_LD_OPS: nat := 32
  const NUM_HD_OPS: nat := 4

  const OP_COUNTER_IDX: nat := 0
  const SPONGE_RANGE: BitRange := BitRange(1, 5)
  const CF_OP_BITS_RANGE: BitRange := BitRange(5, 8)
  const LD_OP_BITS_RANGE: BitRange := BitRange(8, 13)
  const HD_OP_BITS_RANGE: BitRange := BitRange(13, 15)

  /** The fields of the register that the constants place, from bit 0 upward. */
  datatype Field = OpCounter | Sponge | ControlFlowOp | LoadOp | HashDomainOp

  /** The opcode fields, each with a bit count and an operation count. */
  datatype OpcodeField = ControlFlow | Load | HashDomain

  function Bits(f: Field): (r: BitRange)
    ensures r.start < r.end
  {
    match f
    case OpCounter => BitRange(OP_COUNTER_IDX, OP_COUNTER_IDX + 1)
    case Sponge => SPONGE_RANGE
    case ControlFlowOp => CF_OP_BITS_RANGE
    case LoadOp => LD_OP_BITS_RANGE
    case HashDomainOp => HD_OP_BITS_RANGE
  }

  function FieldOf(op: OpcodeField): Field {
    match op
    case ControlFlow => ControlFlowOp
    case Load => LoadOp
    case HashDomain => HashDomainOp
  }

  function OpBits(op: OpcodeField): nat {
    match op
    case ControlFlow => NUM_CF_OP_BITS
    case Load => NUM_LD_OP_BITS
    case HashDomain => NUM_HD_OP_BITS
  }

  function OpCount(op: OpcodeField): nat {
    match op
    case ControlFlow => NUM_CF_OPS
    case Load => NUM_LD_OPS
    case HashDomain => NUM_HD_OPS
  }

  /** Number of bits the named fields occupy: the first bit above all of them. */
  const LAYOUT_BITS: nat := HD_OP_BITS_RANGE.end

  function Pow2(n: nat): (p: nat)
    ensures p >= 1
  {
    if n == 0 then 1 else 2 * Pow2(n - 1)
  }

  /** The field that owns a bit, if any: every bit below LAYOUT_BITS belongs to exactly one field. */
  function FieldAt(bit: nat): (r: Option<Field>)
    ensures r.Some? <==> bit < LAYOUT_BITS
    ensures r.Some? ==> Bits(r.value).Contains(bit)
    ensures forall f :: Bits(f).Contains(bit) ==> r == Some(f)
  {
    if bit == OP_COUNTER_IDX then Some(OpCounter)
    else if bit < SPONGE_RANGE.end then Some(Sponge)
    else if bit < CF_OP_BITS_RANGE.end then Some(ControlFlowOp)
    else if bit < LD_OP_BITS_RANGE.end then Some(LoadOp)
    else if bit < HD_OP_BITS_RANGE.end then Some(HashDomainOp)
    else None
  }

  /** Each field starts where the previous one ends, and the last one ends at bit 15. */
  lemma FieldsContiguous()
    ensures OP_COUNTER_IDX + 1 == SPONGE_RANGE.start
    ensures SPONGE_RANGE.end == CF_OP_BITS_RANGE.start
    ensures CF_OP_BITS_RANGE.end == LD_OP_BITS_RANGE.start
    ensures LD_OP_BITS_RANGE.end == HD_OP_BITS_RANGE.start
    ensures HD_OP_BITS_RANGE.end == LAYOUT_BITS == 15
  {
  }

  /** No bit belongs to two different fields. */
  lemma FieldsDisjoint(f: Field, g: Field, bit: nat)
    requires f != g
    ensures !(Bits(f).Contains(bit) && Bits(g).Contains(bit))
  {
  }

  /** The widths of the fields add up to the bits the layout uses. */
  lemma WidthsFillLayout()
    ensures Bits(OpCounter).Width() + Bits(Sponge).Width() + Bits(ControlFlowOp).Width()
            + Bits(LoadOp).Width() + Bits(HashDomainOp).Width() == LAYOUT_BITS
  {
  }

  /** Each opcode range is as wide as its bit count, and those bits encode exactly its operations. */
  lemma OpcodeWidths(op: OpcodeField)
    ensures Bits(FieldOf(op)).Width() == OpBits(op)
    ensures Pow2(OpBits(op)) == OpCount(op)
  {
    match op
    case ControlFlow =>
      assert Pow2(3) == 8;
    case Load =>
      assert Pow2(5) == 32;
    case HashDomain =>
      assert Pow2(2) == 4;
  }

  /** Powers of two grow strictly with the exponent. */
  lemma {:induction false} Pow2Increasing(a: nat, b: nat)
    requires a < b
    ensures Pow2(a) < Pow2(b)
  {
    if a + 1 < b {
      Pow2Increasing(a, b - 1);
    }
  }

  /** Each opcode bit count is the fewest bits that can tell its operations apart: ceil(log2(count)). */
  lemma OpcodeBitsMinimal(op: OpcodeField)
    ensures Pow2(OpBits(op)) >= OpCount(op)
    ensures forall b: nat :: b < OpBits(op) ==> Pow2(b) < OpCount(op)
  {
    OpcodeWidths(op);
    forall b: nat | b < OpBits(op) ensures Pow2(b) < OpCount(op) {
      Pow2Increasing(b, OpBits(op));
    }
  }

  /** Every code an opcode field can hold names an operation: no code is left unused or invalid. */
  lemma OpcodeCodesAllValid(op: OpcodeField, code: nat)
    ensures code < Pow2(Bits(FieldOf(op)).Width()) <==> code < OpCount(op)
  {
    OpcodeWidths(op);
  }

  /** The hash state is rate plus capacity, the sponge is as wide as the rate, and the digest fits in the state. */
  lemma HashSizing()
    ensures HASH_STATE_WIDTH == HASH_STATE_RATE + HASH_STATE_CAPACITY == 6
    ensures SPONGE_WIDTH == HASH_STATE_RATE == 4
    ensures HASH_DIGEST_SIZE <= HASH_STATE_WIDTH
  {
  }

  /** The program may produce as many outputs as it takes public inputs. */
  lemma OutputsMatchInputs()
    ensures MAX_OUTPUTS == MAX_PUBLIC_INPUTS == 8
  {
  }

  /** Each depth lower bound lies below its upper bound. */
  lemma DepthBoundsOrdered()
    ensures MIN_STACK_DEPTH <= MAX_STACK_DEPTH
    ensures MIN_CONTEXT_DEPTH <= MAX_CONTEXT_DEPTH
    ensures MIN_LOOP_DEPTH <= MAX_LOOP_DEPTH
  {
  }
}
