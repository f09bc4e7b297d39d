/**
 The opcode tables of src/cfg_oracle.rs, kept apart from those of the decoder
 and the builder: control-flow classes as sets of bytes, and a size per byte.
 The classes agree everywhere, the sizes on all but seven opcodes.
 */
module OpcodeTables {
  import opened Basics
  import opened CodeModel
  import opened InsnDecoder

  predicate GotoByte(op: byte) {
    op in {0x28, 0x29, 0x2a}
  }

  predicate IfByte(op: byte) {
    op in {0x32, 0x33, 0x34, 0x35, 0x36, 0x37, 0x38, 0x39, 0x3a, 0x3b, 0x3c, 0x3d}
  }

  predicate SwitchByte(op: byte) {
    op in {0x2b, 0x2c}
  }

  predicate LeavingByte(op: byte) {
    op in {0x27, 0x0e, 0x0f, 0x10, 0x11}
  }

  /** The two classifications of every byte are the same, and no byte is in two classes. */
  lemma ClassesAgree(op: byte)
    ensures GotoByte(op) <==> IsUnconditionalBranch(op)
    ensures IfByte(op) <==> IsConditionalBranch(op)
    ensures SwitchByte(op) <==> IsSwitch(op)
    ensures LeavingByte(op) <==> IsTerminal(op)
    ensures GotoByte(op) || IfByte(op) || SwitchByte(op) <==> IsBranch(op)
    ensures !(GotoByte(op) && IfByte(op)) && !(SwitchByte(op) && (GotoByte(op) || IfByte(op)))
    ensures !(IsBranch(op) && IsTerminal(op))
  {
  }

  /** Code units of the instruction that starts with `op`; a byte without an entry counts one. */
  function UnitsOf(op: byte): nat {
    if op <= 0x12 || op in {0x1d, 0x1e, 0x21, 0x27, 0x28} || 0x7b <= op <= 0x8f || 0xb0 <= op <= 0xcf then 1
    else if op in {0x14, 0x17, 0x1b, 0x24, 0x25, 0x26, 0x2a, 0x2b, 0x2c} then 3
    else if op in {0x13, 0x15, 0x16, 0x19, 0x1a, 0x1c, 0x1f, 0x20, 0x22, 0x23, 0x29} then 2
    else if 0x2d <= op <= 0x3d then 2
    else if 0x44 <= op <= 0x6d then 2
    else if 0x6e <= op <= 0x72 || 0x74 <= op <= 0x78 || op in {0xfc, 0xfd} then 3
    else if 0x90 <= op <= 0xaf || 0xd0 <= op <= 0xe2 || op in {0xfe, 0xff} then 2
    else if op in {0xfa, 0xfb} then 4
    else 1
  }

  /** Units the decoder's cursor moves over for a byte that starts an item: one for an unmapped byte. */
  function CursorUnits(op: byte): nat {
    match FormatOf(op)
    case Some(f) => f.Size()
    case None => 1
  }

  /**
   The two size tables agree on every byte but the seven long forms the oracle's table does not know:
   the `/from16` moves take two units, the `/16` moves three and const-wide five.
   */
  lemma SizesAgreeExactly(op: byte)
    ensures CursorUnits(op) == UnitsOf(op) <==> op !in {0x02, 0x05, 0x08, 0x03, 0x06, 0x09, 0x18}
    ensures op in {0x02, 0x05, 0x08} ==> CursorUnits(op) == 2
    ensures op in {0x03, 0x06, 0x09} ==> CursorUnits(op) == 3
    ensures op == 0x18 ==> CursorUnits(op) == 5
  {
  }

  /** Where each branch form keeps its displacement: in its own byte, in one unit, or in two. */
  lemma BranchForms(op: byte)
    ensures FormatOf(op) == Some(Branch8) <==> op == 0x28
    ensures FormatOf(op) == Some(Branch16) <==> op == 0x29 || IfByte(op)
    ensures FormatOf(op) == Some(Branch32) <==> op == 0x2a || SwitchByte(op) || op == 0x26
  {
  }
}
