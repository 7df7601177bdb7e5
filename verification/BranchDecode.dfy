/** The architecture's reading of PC-relative instructions, and HotSpot's two dispatch chains over
    the same words. */
module BranchDecode {
  import opened Bits
  import opened BitFields
  import opened Instruction
  import opened Branches
  import opened Wrappers

  // ---------------------------------------------------------------- the architecture

  /** Section C4.1 of the Arm Architecture Reference Manual (DDI 0487): the instruction and its
      displacement, in pages for `adrp` and in bytes otherwise. */
  function Decode(w: seq<bool>): Option<(Branch, int)>
    requires |w| == 32
  {
    if Extract(w, 30, 26) == 5 then
      Some((B(w[31]), 4 * SExtract(w, 25, 0)))
    else if Extract(w, 31, 25) == 0x2A && !w[24] && !w[4] then
      Some((BCond(Extract(w, 3, 0)), 4 * SExtract(w, 23, 5)))
    else if Extract(w, 30, 25) == 0x1A then
      Some((CompareBranch(w[31], w[24], Extract(w, 4, 0)), 4 * SExtract(w, 23, 5)))
    else if Extract(w, 30, 25) == 0x1B then
      Some((TestBranch(w[24], 32 * Bit(w[31]) + Extract(w, 23, 19), Extract(w, 4, 0)), 4 * SExtract(w, 18, 5)))
    else if Extract(w, 29, 27) == 3 && Extract(w, 25, 24) == 0 && !(w[26] && Extract(w, 31, 30) == 3) then
      Some((LoadLiteral(w[26], Extract(w, 31, 30), Extract(w, 4, 0)), 4 * SExtract(w, 23, 5)))
    else if Extract(w, 28, 24) == 16 then
      Some((Adr(w[31], Extract(w, 4, 0)), 4 * SExtract(w, 23, 5) + Extract(w, 30, 29)))
    else
      None
  }

  // ---------------------------------------------------------------- the dispatch chains

  datatype Kind = Literal | Unconditional | Conditional | Compare | Test | PcRel | Other

  /** The chain of pd_patch_instruction_size. */
  function PatchKind(w: seq<bool>): Kind
    requires |w| == 32
  {
    if Extract(w, 29, 27) == 3 && Extract(w, 25, 24) == 0 then Literal
    else if Extract(w, 30, 26) == 5 then Unconditional
    else if Extract(w, 31, 25) == 0x2A then Conditional
    else if Extract(w, 30, 25) == 0x1A then Compare
    else if Extract(w, 30, 25) == 0x1B then Test
    else if Extract(w, 28, 24) == 16 then PcRel
    else Other
  }

  /** The chain of target_addr_for_insn; its first mask leaves out bit 29. */
  function TargetKind(w: seq<bool>): Kind
    requires |w| == 32
  {
    if Extract(w, 28, 27) == 3 && Extract(w, 25, 24) == 0 then Literal
    else if Extract(w, 30, 26) == 5 then Unconditional
    else if Extract(w, 31, 25) == 0x2A then Conditional
    else if Extract(w, 30, 25) == 0x1A then Compare
    else if Extract(w, 30, 25) == 0x1B then Test
    else if Extract(w, 28, 24) == 16 then PcRel
    else Other
  }

  // ---------------------------------------------------------------- opcode tests, bit by bit

  lemma TestUnconditional(w: seq<bool>)
    requires |w| == 32
    ensures Extract(w, 30, 26) == 5 <==> !w[30] && !w[29] && w[28] && !w[27] && w[26]
  {
    hide Extract;
    ExtractStep2(w, 30, 26);
    ExtractStep2(w, 30, 28);
    ExtractStep(w, 30, 30);
  }

  lemma TestConditional(w: seq<bool>)
    requires |w| == 32
    ensures Extract(w, 31, 25) == 0x2A <==> !w[31] && w[30] && !w[29] && w[28] && !w[27] && w[26] && !w[25]
  {
    hide Extract;
    ExtractStep2(w, 31, 25);
    ExtractStep2(w, 31, 27);
    ExtractStep2(w, 31, 29);
    ExtractStep(w, 31, 31);
  }

  lemma TestCompare(w: seq<bool>)
    requires |w| == 32
    ensures Extract(w, 30, 25) == 0x1A <==> !w[30] && w[29] && w[28] && !w[27] && w[26] && !w[25]
  {
    hide Extract;
    ExtractStep2(w, 30, 25);
    ExtractStep2(w, 30, 27);
    ExtractStep2(w, 30, 29);
  }

  lemma TestTest(w: seq<bool>)
    requires |w| == 32
    ensures Extract(w, 30, 25) == 0x1B <==> !w[30] && w[29] && w[28] && !w[27] && w[26] && w[25]
  {
    hide Extract;
    ExtractStep2(w, 30, 25);
    ExtractStep2(w, 30, 27);
    ExtractStep2(w, 30, 29);
  }

  lemma TestLiteral(w: seq<bool>)
    requires |w| == 32
    ensures Extract(w, 29, 27) == 3 <==> !w[29] && w[28] && w[27]
  {
    hide Extract;
    ExtractStep2(w, 29, 27);
    ExtractStep(w, 29, 29);
  }

  lemma TestLiteralMasked(w: seq<bool>)
    requires |w| == 32
    ensures Extract(w, 28, 27) == 3 <==> w[28] && w[27]
  {
    hide Extract;
    ExtractStep2(w, 28, 27);
  }

  lemma TestLowZero(w: seq<bool>)
    requires |w| == 32
    ensures Extract(w, 25, 24) == 0 <==> !w[25] && !w[24]
  {
    hide Extract;
    ExtractStep2(w, 25, 24);
  }

  lemma TestPcRel(w: seq<bool>)
    requires |w| == 32
    ensures Extract(w, 28, 24) == 16 <==> w[28] && !w[27] && !w[26] && !w[25] && !w[24]
  {
    hide Extract;
    ExtractStep2(w, 28, 24);
    ExtractStep2(w, 28, 26);
    ExtractStep(w, 28, 28);
  }

  // ---------------------------------------------------------------- opcode bits of emitted words

  /** Position of the offset field among the fields. */
  function OffsetField(b: Branch): nat {
    match b
    case B(_) => 2
    case BCond(_) => 2
    case CompareBranch(_, _, _) => 1
    case TestBranch(_, _, _) => 3
    case LoadLiteral(_, _, _) => 4
    case Adr(_, _) => 3
  }

  lemma Reads(b: Branch, d: int, k: nat)
    requires b.Ok() && k < |Fields(b, d)|
    ensures Fields(b, d)[k].Ok()
    ensures Extract(Encode(b, d), Fields(b, d)[k].msb, Fields(b, d)[k].lsb) == Fields(b, d)[k].val
  {
    hide Fields, Assemble, Extract;
    FieldsOk(b, d);
    ReadBack(Fields(b, d), k);
  }

  /** Bits 31 to 24 as far as the emitters fix them, and bit 4 of a conditional branch. */
  predicate OpcodeBits(b: Branch, w: seq<bool>)
    requires |w| == 32
  {
    match b
    case B(link) => w[31] == link && !w[30] && !w[29] && w[28] && !w[27] && w[26]
    case BCond(_) => !w[31] && w[30] && !w[29] && w[28] && !w[27] && w[26] && !w[25] && !w[24] && !w[4]
    case CompareBranch(wide, nz, _) =>
      w[31] == wide && !w[30] && w[29] && w[28] && !w[27] && w[26] && !w[25] && w[24] == nz
    case TestBranch(nz, bit, _) =>
      w[31] == (bit >= 32) && !w[30] && w[29] && w[28] && !w[27] && w[26] && w[25] && w[24] == nz
    case LoadLiteral(vector, _, _) => !w[29] && w[28] && w[27] && w[26] == vector && !w[25] && !w[24]
    case Adr(page, _) => w[31] == page && w[28] && !w[27] && !w[26] && !w[25] && !w[24]
  }

  lemma EmittedOpcodeBits(b: Branch, d: int)
    requires b.Ok()
    ensures OpcodeBits(b, Encode(b, d))
  {
    hide Encode, Extract, SignedField;
    var w := Encode(b, d);
    Reads(b, d, 0);
    Reads(b, d, 1);
    match b {
      case B(link) =>
        BitReads(w, 31, link);
        TestUnconditional(w);
      case BCond(_) =>
        TestConditional(w);
        BitReads(w, 24, false);
        Reads(b, d, 3);
        BitReads(w, 4, false);
      case CompareBranch(wide, nz, _) =>
        CompareBits(w, wide, nz);
      case TestBranch(nz, bit, _) =>
        BitReads(w, 31, bit >= 32);
        TestBits(w, nz);
      case LoadLiteral(vector, _, _) =>
        TestLiteral(w);
        Reads(b, d, 2);
        BitReads(w, 26, vector);
        Reads(b, d, 3);
        TestLowZero(w);
      case Adr(page, _) =>
        BitReads(w, 31, page);
        Reads(b, d, 2);
        TestPcRel(w);
    }
  }

  lemma CompareBits(w: seq<bool>, wide: bool, nz: bool)
    requires |w| == 32 && Extract(w, 31, 24) == 0x34 + 0x80 * Bit(wide) + Bit(nz)
    ensures w[31] == wide && !w[30] && w[29] && w[28] && !w[27] && w[26] && !w[25] && w[24] == nz
  {
    hide Extract;
    ExtractStep2(w, 31, 24);
    ExtractStep2(w, 31, 26);
    ExtractStep2(w, 31, 28);
    ExtractStep2(w, 31, 30);
  }

  lemma TestBits(w: seq<bool>, nz: bool)
    requires |w| == 32 && Extract(w, 30, 24) == 0x36 + Bit(nz)
    ensures !w[30] && w[29] && w[28] && !w[27] && w[26] && w[25] && w[24] == nz
  {
    hide Extract;
    ExtractStep2(w, 30, 24);
    ExtractStep2(w, 30, 26);
    ExtractStep2(w, 30, 28);
    ExtractStep(w, 30, 30);
  }

  // ---------------------------------------------------------------- decoding an emitted word

  /** The displacement the word holds: `adr` keeps the two low bits, the branches drop them. */
  function Reached(b: Branch, d: int): int {
    if b.Adr? then d else d - d % 4
  }

  /** The address a decoded instruction at `pc` refers to. */
  function Target(b: Branch, pc: nat, d: int): int {
    if b.Adr? && b.page then 4096 * (pc / 4096 + d) else pc + d
  }

  lemma OffsetReadsBack(b: Branch, d: int)
    requires b.Ok() && InRange(b, d)
    ensures var f := Fields(b, d)[OffsetField(b)];
            f.lsb <= f.msb < 32 && f.msb - f.lsb + 1 == b.Width() && SExtract(Encode(b, d), f.msb, f.lsb) == d / 4
  {
    hide Assemble, SExtract, SignedFits;
    FieldsOk(b, d);
    SignedReadBack(Fields(b, d), OffsetField(b), d / 4);
  }

  lemma DecodeEncode(b: Branch, d: int)
    requires b.Ok() && InRange(b, d)
    ensures Decode(Encode(b, d)) == Some((b, Reached(b, d)))
  {
    hide Encode, Extract, SExtract, SignedField, InRange;
    var w := Encode(b, d);
    EmittedOpcodeBits(b, d);
    OpcodeTests(w);
    OffsetReadsBack(b, d);
    match b {
      case B(_) =>
      case BCond(_) => Reads(b, d, 4);
      case CompareBranch(_, _, _) => Reads(b, d, 2);
      case TestBranch(_, _, _) => Reads(b, d, 2); Reads(b, d, 4);
      case LoadLiteral(_, _, _) => Reads(b, d, 0); Reads(b, d, 5);
      case Adr(_, _) => Reads(b, d, 1); Reads(b, d, 4);
    }
  }

  /** Every in-range instruction decodes to its target: exactly for `adr`, to its page for `adrp`,
      and for the branches exactly when the target is a multiple of 4 bytes away. */
  lemma DecodesToTarget(b: Branch, pc: nat, dest: nat)
    requires b.Ok() && InRange(b, Displacement(b, pc, dest))
    ensures var d := Decode(Encode(b, Displacement(b, pc, dest)));
            && d.Some? && d.value.0 == b
            && Target(b, pc, d.value.1) ==
                 if !b.Adr? then dest - (dest - pc) % 4 else if b.page then dest - dest % 4096 else dest
  {
    hide Encode, Decode, InRange;
    DecodeEncode(b, Displacement(b, pc, dest));
  }

  /** The offsets `sf` accepts, in bytes: `reachable_from_branch_at` leaves out only the lowest. */
  lemma RangeExact(b: Branch, d: int)
    ensures InRange(b, d) <==> -d <= 4 * Pow2(b.Width() - 1) && d < 4 * Pow2(b.Width() - 1)
  {
    SignedFitsExact(d / 4, b.Width());
  }

  const BRANCH_RANGE: nat := 128 * 1024 * 1024

  predicate Reachable(branch: nat, target: nat) {
    (if target - branch < 0 then branch - target else target - branch) < BRANCH_RANGE
  }

  lemma ReachableExact(link: bool, branch: nat, target: nat)
    ensures Reachable(branch, target) <==> InRange(B(link), target - branch) && branch - target != BRANCH_RANGE
  {
    hide InRange;
    RangeExact(B(link), target - branch);
    Pow2At8Steps(1);
    Pow2At8Steps(9);
    Pow2At8Steps(17);
  }

  lemma OpcodeTests(w: seq<bool>)
    requires |w| == 32
    ensures Extract(w, 30, 26) == 5 <==> !w[30] && !w[29] && w[28] && !w[27] && w[26]
    ensures Extract(w, 31, 25) == 0x2A <==> !w[31] && w[30] && !w[29] && w[28] && !w[27] && w[26] && !w[25]
    ensures Extract(w, 30, 25) == 0x1A <==> !w[30] && w[29] && w[28] && !w[27] && w[26] && !w[25]
    ensures Extract(w, 30, 25) == 0x1B <==> !w[30] && w[29] && w[28] && !w[27] && w[26] && w[25]
    ensures Extract(w, 29, 27) == 3 <==> !w[29] && w[28] && w[27]
    ensures Extract(w, 28, 27) == 3 <==> w[28] && w[27]
    ensures Extract(w, 25, 24) == 0 <==> !w[25] && !w[24]
    ensures Extract(w, 28, 24) == 16 <==> w[28] && !w[27] && !w[26] && !w[25] && !w[24]
  {
    TestUnconditional(w);
    TestConditional(w);
    TestCompare(w);
    TestTest(w);
    TestLiteral(w);
    TestLiteralMasked(w);
    TestLowZero(w);
    TestPcRel(w);
  }

  function KindOf(b: Branch): Kind {
    match b
    case B(_) => Unconditional
    case BCond(_) => Conditional
    case CompareBranch(_, _, _) => Compare
    case TestBranch(_, _, _) => Test
    case LoadLiteral(_, _, _) => Literal
    case Adr(_, _) => PcRel
  }

  lemma DispatchesRight(b: Branch, d: int)
    requires b.Ok()
    ensures PatchKind(Encode(b, d)) == TargetKind(Encode(b, d)) == KindOf(b)
  {
    hide Encode, Extract;
    EmittedOpcodeBits(b, d);
    OpcodeTests(Encode(b, d));
  }

  // ---------------------------------------------------------------- patching

  /** Instruction_aarch64::spatch, with None where its guarantee fails. */
  function Spatch(w: seq<bool>, msb: nat, lsb: nat, val: int): Option<seq<bool>>
    requires lsb <= msb < 32 == |w|
  {
    if SignedFits(val, msb - lsb + 1) then Some(Patch(w, SignedField(val, msb, lsb))) else None
  }

  /** pd_patch_instruction_size on a word at `branch` that is no `adrp`. */
  function PatchInstruction(w: seq<bool>, branch: nat, target: nat): (r: Option<seq<bool>>)
    requires |w| == 32 && (PatchKind(w) == PcRel ==> !w[31])
  {
    var offset := (target - branch) / 4;
    match PatchKind(w)
    case Literal => Spatch(w, 23, 5, offset)
    case Unconditional => Spatch(w, 25, 0, offset)
    case Conditional => Spatch(w, 23, 5, offset)
    case Compare => Spatch(w, 23, 5, offset)
    case Test => Spatch(w, 18, 5, offset)
    case PcRel =>
      var r := Spatch(w, 23, 5, offset);
      if r.None? then None else Some(Patch(r.value, Field((target - branch) % 4, 30, 29)))
    case Other => None
  }

  /** target_addr_for_insn on a word at `addr` that is no `adrp`; it has no case for `adr`. */
  function TargetAddr(w: seq<bool>, addr: nat): Option<int>
    requires |w| == 32 && (TargetKind(w) == PcRel ==> !w[31])
  {
    match TargetKind(w)
    case Literal => Some(addr + 4 * SExtract(w, 23, 5))
    case Unconditional => Some(addr + 4 * SExtract(w, 25, 0))
    case Conditional => Some(addr + 4 * SExtract(w, 23, 5))
    case Compare => Some(addr + 4 * SExtract(w, 23, 5))
    case Test => Some(addr + 4 * SExtract(w, 18, 5))
    case PcRel => None
    case Other => None
  }

  /** Emitting with displacement `d` and then patching in `e` is emitting with `e`. */
  lemma PatchIsEmit(b: Branch, pc: nat, d: int, target: nat)
    requires b.Ok() && !(b.Adr? && b.page)
    ensures PatchKind(Encode(b, d)) == PcRel ==> !Encode(b, d)[31]
    ensures PatchInstruction(Encode(b, d), pc, target) ==
            if InRange(b, target - pc) then Some(Encode(b, target - pc)) else None
  {
    hide Encode, Extract, SignedField, SignedFits, Patch;
    var e := target - pc;
    DispatchesRight(b, d);
    EmittedOpcodeBits(b, d);
    PatchOffset(b, d, e);
  }

  /** The word holding offset `e` and, for `adr`, the low bits of `d`. */
  lemma PatchOffset(b: Branch, d: int, e: int)
    requires b.Ok()
    ensures Fields(b, e)[OffsetField(b)].Ok()
    ensures var w := Patch(Encode(b, d), Fields(b, e)[OffsetField(b)]);
            if b.Adr? then Patch(w, Field(e % 4, 30, 29)) == Encode(b, e) else w == Encode(b, e)
  {
    hide Assemble, SignedField, Patch;
    FieldsOk(b, d);
    FieldsOk(b, e);
    var k := OffsetField(b);
    var fs, v := Fields(b, d), Fields(b, e)[k].val;
    PatchIsRewrite(fs, k, v);
    var gs := fs[k := fs[k].(val := v)];
    if b.Adr? {
      PatchIsRewrite(gs, 1, e % 4);
      assert gs[1 := gs[1].(val := e % 4)] == Fields(b, e);
    } else {
      assert gs == Fields(b, e);
    }
  }

  /** Where target_addr_for_insn is defined it agrees with the architecture. */
  lemma TargetAddrExact(b: Branch, pc: nat, d: int)
    requires b.Ok() && InRange(b, d) && !(b.Adr? && b.page)
    ensures TargetKind(Encode(b, d)) == PcRel ==> !Encode(b, d)[31]
    ensures TargetAddr(Encode(b, d), pc) == if b.Adr? then None else Some(pc + d - d % 4)
  {
    hide Encode, Extract, SExtract, SignedField, InRange;
    DispatchesRight(b, d);
    EmittedOpcodeBits(b, d);
    OffsetReadsBack(b, d);
  }
}
