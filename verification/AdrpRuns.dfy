/** What patched pairs do when they are executed: an `adrp` from the emitter, followed by an add, a load
    or store, or a MOVK from theirs. */
module AdrpRuns {
  import opened Bits
  import opened BitFields
  import opened Instruction
  import opened Wrappers
  import opened AdrpPairs
  import Branches
  import BranchDecode
  import AddSub
  import Addressing
  import AddressDecode
  import Lea
  import MovImmediate

  // ---------------------------------------------------------------- the adrp

  /** The word the emitter writes for an adrp into `rd`, holding any page displacement. */
  function AdrpWord(rd: nat, pages: int): (w: seq<bool>)
    requires rd < 32
    ensures |w| == 32
  {
    Branches.Encode(Branches.Adr(true, rd), pages)
  }

  lemma AdrpIsAdrp(rd: nat, pages: int)
    requires rd < 32
    ensures IsAdrp(AdrpWord(rd, pages)) && Extract(AdrpWord(rd, pages), 4, 0) == rd
  {
    hide Branches.Encode, Extract, SignedField;
    var b := Branches.Adr(true, rd);
    BranchDecode.Reads(b, pages, 0);
    BranchDecode.Reads(b, pages, 2);
    BranchDecode.Reads(b, pages, 4);
  }

  /** Executed at `branch`, the word leaves the address of a page in its register. */
  function AdrpValue(w: seq<bool>, branch: nat): Option<(nat, int)>
    requires |w| == 32
  {
    match BranchDecode.Decode(w)
    case None => None
    case Some(d) =>
      if d.0.Adr? && d.0.page then Some((d.0.rd, BranchDecode.Target(d.0, branch, d.1))) else None
  }

  /** Patching the page leaves the adrp the emitter would have written for the target. */
  lemma PatchedAdrp(rd: nat, pages: int, branch: nat, dest: nat)
    requires rd < 32 && InReach(branch, dest)
    ensures var p := PatchPage(AdrpWord(rd, pages), dest / PAGE - branch / PAGE);
            p == Some(AdrpWord(rd, dest / PAGE - branch / PAGE)) &&
            AdrpValue(p.value, branch) == Some((rd, dest - dest % PAGE))
  {
    hide Branches.Encode, BranchDecode.Decode, SignedFits, Patch;
    var b, off := Branches.Adr(true, rd), dest / PAGE - branch / PAGE;
    PageFits(off);
    BranchDecode.PatchOffset(b, pages, off);
    BranchDecode.DecodesToTarget(b, branch, dest);
  }

  /** Patching the adrp and the word after it. */
  function PatchFrom(rd: nat, pages: int, next: seq<bool>, branch: nat, target: nat): Option<(seq<bool>, seq<bool>)>
    requires rd < 32 && |next| == 32 && target < 0x1_0000_0000_0000
  {
    AdrpIsAdrp(rd, pages);
    PatchPair(AdrpWord(rd, pages), next, branch, target)
  }

  // ---------------------------------------------------------------- joining fields

  lemma {:induction false} JoinBits(a: seq<bool>, b: seq<bool>)
    ensures FromBits(a + b) == FromBits(a) + Pow2(|a|) * FromBits(b)
  {
    if a == [] {
      assert a + b == b;
    } else {
      JoinBits(a[1..], b);
      assert (a + b)[1..] == a[1..] + b;
      assert Pow2(|a|) * FromBits(b) == 2 * (Pow2(|a| - 1) * FromBits(b));
    }
  }

  /** Two neighbouring fields read as one. */
  lemma JoinFields(w: seq<bool>, msb: nat, mid: nat, lsb: nat)
    requires lsb <= mid < msb < |w|
    ensures Extract(w, msb, lsb) == Extract(w, mid, lsb) + Pow2(mid + 1 - lsb) * Extract(w, msb, mid + 1)
  {
    assert w[lsb..msb + 1] == w[lsb..mid + 1] + w[mid + 1..msb + 1];
    JoinBits(w[lsb..mid + 1], w[mid + 1..msb + 1]);
  }

  // ---------------------------------------------------------------- adrp and add

  const ADD := AddSub.Op(true, false, false)

  /** An add of an offset in the page, from a register to itself. */
  function AddWord(rd: nat, imm: nat): (w: seq<bool>)
    requires rd < 32 && imm < 4096
    ensures |w| == 32
  {
    AddSub.Encode(ADD, imm, rd, rd)
  }

  lemma AddIsAdd(rd: nat, pages: int, imm: nat)
    requires rd < 32 && imm < 4096
    ensures KindOf(AdrpWord(rd, pages), AddWord(rd, imm)) == Add
  {
    hide Extract, AddSub.Encode, AdrpWord, IsAdrp;
    var w := AddWord(rd, imm);
    AdrpIsAdrp(rd, pages);
    AddSub.Reads(ADD, imm, rd, rd, 0);
    AddSub.Reads(ADD, imm, rd, rd, 1);
    AddSub.Reads(ADD, imm, rd, rd, 2);
    AddSub.Reads(ADD, imm, rd, rd, 4);
    AddOpcode(w);
  }

  lemma AddOpcode(w: seq<bool>)
    requires |w| == 32 && Extract(w, 31, 29) == 4 && Extract(w, 28, 24) == 17 && Extract(w, 23, 22) == 0
    ensures Extract(w, 31, 22) == 0x244 && Extract(w, 29, 24) != 0x39
  {
    hide Extract;
    PowValues();
    JoinFields(w, 28, 23, 22);
    JoinFields(w, 31, 28, 22);
    JoinFields(w, 29, 28, 24);
    ExtractStep(w, 29, 29);
  }

  lemma PatchedAdd(rd: nat, imm: nat, v: nat)
    requires rd < 32 && imm < 4096 && v < 4096
    ensures Field(v, 21, 10).Ok() && Patch(AddWord(rd, imm), Field(v, 21, 10)) == AddWord(rd, v)
  {
    hide Assemble, Patch;
    assert Pow2(12) == 4096;
    AddSub.FieldsOk(ADD, imm, rd, rd);
    var fs := AddSub.Fields(ADD, imm, rd, rd);
    PatchIsRewrite(fs, 3, v);
    assert fs[3 := fs[3].(val := v)] == AddSub.Fields(ADD, v, rd, rd);
  }

  function PageOf(target: nat): nat {
    target - target % PAGE
  }

  /** Executed one after the other, the two words leave `target` in `rd`. */
  predicate AddLeaves(p: seq<bool>, q: seq<bool>, rd: nat, branch: nat, target: nat) {
    && |p| == |q| == 32
    && AdrpValue(p, branch) == Some((rd, PageOf(target)))
    && AddSub.Decode(q) == Some(AddSub.Decoded(ADD, target % PAGE, rd, rd))
    && AddSub.Run(q, PageOf(target)).Some? && AddSub.Run(q, PageOf(target)).value.value == target
  }

  /** An adrp and an add, patched to any target in reach and executed, leave the target in the register. */
  lemma AddReachesTarget(rd: nat, pages: int, imm: nat, branch: nat, target: nat)
    requires rd < 32 && imm < 4096 && target < 0x1_0000_0000_0000 && InReach(branch, target)
    ensures var r := PatchFrom(rd, pages, AddWord(rd, imm), branch, target);
            r.Some? && AddLeaves(r.value.0, r.value.1, rd, branch, target)
  {
    hide AdrpWord, AddWord, KindOf, Patch, AdrpValue, AddSub.Decode, IsAdrp, PatchPage;
    AdrpIsAdrp(rd, pages);
    AddIsAdd(rd, pages, imm);
    PatchedAdrp(rd, pages, branch, target);
    PatchedAdd(rd, imm, target % PAGE);
    AddRuns(rd, target % PAGE, target - target % PAGE);
  }

  lemma AddRuns(rd: nat, v: nat, x: nat)
    requires rd < 32 && v < 4096 && x < 0x1_0000_0000_0000
    ensures AddSub.Decode(AddWord(rd, v)) == Some(AddSub.Decoded(ADD, v, rd, rd))
    ensures var sum := AddSub.Run(AddWord(rd, v), x); sum.Some? && sum.value.value == x + v
  {
    hide AddSub.Encode, AddSub.Decode;
    AddSub.DecodeEncode(ADD, v, rd, rd);
  }

  // ---------------------------------------------------------------- adrp and load or store

  /** A load or store through `rd` with the unsigned offset form. */
  function LoadWord(acc: Addressing.Access, rd: nat, q: nat): (w: seq<bool>)
    requires acc.Ok() && rd < 32 && q < 4096
    ensures |w| == 32
  {
    ScaledEncodable(acc, rd, q);
    Addressing.Encode(acc, Scaled(acc, rd, q))
  }

  function Scaled(acc: Addressing.Access, rd: nat, q: nat): Addressing.Address {
    Addressing.BaseOffset(rd, q * Pow2(acc.Scale()))
  }

  lemma ScaledEncodable(acc: Addressing.Access, rd: nat, q: nat)
    requires acc.Ok() && rd < 32 && q < 4096
    ensures var a := Scaled(acc, rd, q);
            && !Addressing.Unscaled(a.offset, acc.Scale()) && a.offset / Pow2(acc.Scale()) == q
            && Addressing.Encodable(acc, a)
            && Addressing.ModeFields(acc.Scale(), a) == [Field(1, 25, 24), Field(q, 21, 10)]
  {
    hide Pow2, SignedFits;
    ModUnique(q * Pow2(acc.Scale()), Pow2(acc.Scale()), q, 0);
  }

  lemma LoadKind(acc: Addressing.Access, rd: nat, pages: int, q: nat)
    requires acc.Ok() && rd < 32 && q < 4096
    ensures KindOf(AdrpWord(rd, pages), LoadWord(acc, rd, q)) == if acc.vector then Alone else LoadStore
    ensures Extract(LoadWord(acc, rd, q), 31, 30) == acc.size
  {
    hide Extract, Addressing.Encode, AdrpWord, IsAdrp, Addressing.Encodable, Addressing.ModeFields, Scaled;
    var a, w := Scaled(acc, rd, q), LoadWord(acc, rd, q);
    AdrpIsAdrp(rd, pages);
    ScaledEncodable(acc, rd, q);
    ScaledBase(acc, rd, q);
    AddressDecode.ReadsAccess(acc, a);
    AddressDecode.ReadsMode(acc, a, 0);
    LoadOpcode(w, acc.vector);
  }

  lemma ScaledBase(acc: Addressing.Access, rd: nat, q: nat)
    ensures Scaled(acc, rd, q).base == rd
  {
  }

  lemma LoadOpcode(w: seq<bool>, vector: bool)
    requires |w| == 32 && Extract(w, 29, 27) == 7 && w[26] == vector && Extract(w, 25, 24) == 1
    ensures Extract(w, 29, 24) == 0x39 <==> !vector
    ensures Extract(w, 31, 22) != 0x244 && Extract(w, 31, 21) != 0x796
  {
    hide Extract;
    PowValues();
    JoinFields(w, 29, 26, 24);
    JoinFields(w, 26, 25, 24);
    ExtractStep(w, 26, 26);
    NotAddNorMovk(w);
  }

  lemma NotAddNorMovk(w: seq<bool>)
    requires |w| == 32 && Extract(w, 29, 27) == 7
    ensures Extract(w, 31, 22) != 0x244 && Extract(w, 31, 21) != 0x796
  {
    hide Extract;
    ExtractStep(w, 29, 27);
    ExtractStep2(w, 31, 22);
    ExtractStep2(w, 31, 24);
    ExtractStep(w, 31, 26);
    ExtractStep(w, 31, 27);
    ExtractStep(w, 31, 21);
  }

  lemma PatchedLoad(acc: Addressing.Access, rd: nat, q: nat, v: nat)
    requires acc.Ok() && rd < 32 && q < 4096 && v < 4096
    ensures Field(v, 21, 10).Ok() && Patch(LoadWord(acc, rd, q), Field(v, 21, 10)) == LoadWord(acc, rd, v)
  {
    hide Assemble, Patch, Addressing.Encodable, Addressing.ModeFields, Addressing.AccessFields;
    assert Pow2(12) == 4096;
    ScaledEncodable(acc, rd, q);
    ScaledEncodable(acc, rd, v);
    var a, b := Scaled(acc, rd, q), Scaled(acc, rd, v);
    Addressing.FieldsOk(acc, a);
    Addressing.FieldsOk(acc, b);
    var fs := Addressing.Fields(acc, a);
    assert |Addressing.AccessFields(acc, rd)| == 6 by { SixFields(acc, rd); }
    PatchIsRewrite(fs, 7, v);
    assert fs[7 := fs[7].(val := v)] == Addressing.Fields(acc, b);
  }

  lemma SixFields(acc: Addressing.Access, rd: nat)
    ensures |Addressing.AccessFields(acc, rd)| == 6
  {
  }

  /** Executed one after the other, the two words access `address` through `rd`. */
  predicate LoadAccesses(p: seq<bool>, q: seq<bool>, acc: Addressing.Access, rd: nat, branch: nat,
                         page: int, address: int) {
    && |p| == |q| == 32 && 0 <= page
    && AdrpValue(p, branch) == Some((rd, page))
    && var d := AddressDecode.Decode(q);
       && d.Some? && d.value.0 == acc && d.value.1.Offset? && d.value.1.base == rd
       && Lea.EffectiveAddress(d.value.1, page, 0) == address
  }

  /** An adrp and a load or store of a general register, patched to any aligned target in reach and
      executed, access the target. A load or store of a vector register is not recognised: it keeps its
      offset and accesses the target exactly when it had the target's place in the page. */
  lemma LoadReachesTarget(acc: Addressing.Access, rd: nat, pages: int, q: nat, branch: nat, target: nat)
    requires acc.Ok() && rd < 32 && q < 4096 && target < 0x1_0000_0000_0000 && InReach(branch, target)
    requires !acc.vector ==> target % Pow2(acc.size) == 0
    ensures var r, page := PatchFrom(rd, pages, LoadWord(acc, rd, q), branch, target), target - target % PAGE;
            && r.Some?
            && LoadAccesses(r.value.0, r.value.1, acc, rd, branch, page,
                            if acc.vector then page + q * Pow2(acc.Scale()) else target)
  {
    hide AdrpWord, LoadWord, KindOf, Patch, AdrpValue, AddressDecode.Decode, IsAdrp, PatchPage, Pow2, ShiftRight,
         Extract, Lea.EffectiveAddress;
    AdrpIsAdrp(rd, pages);
    LoadKind(acc, rd, pages, q);
    PatchedAdrp(rd, pages, branch, target);
    var page := target - target % PAGE;
    if acc.vector {
      LoadRuns(acc, rd, q, page);
    } else {
      ShiftBack(target, acc.size);
      LowMultiple(target, acc.size);
      var v := ShiftRight(target % PAGE, acc.size);
      PatchedLoad(acc, rd, q, v);
      LoadRuns(acc, rd, v, page);
    }
  }

  lemma LoadRuns(acc: Addressing.Access, rd: nat, v: nat, page: nat)
    requires acc.Ok() && rd < 32 && v < 4096 && page < 0x1_0000_0000_0000
    ensures var d := AddressDecode.Decode(LoadWord(acc, rd, v));
            && d.Some? && d.value.0 == acc && d.value.1.Offset? && d.value.1.base == rd
            && Lea.EffectiveAddress(d.value.1, page, 0) == page + v * Pow2(acc.Scale())
  {
    hide Addressing.Encode, AddressDecode.Decode, Addressing.Encodable, Pow2;
    ScaledEncodable(acc, rd, v);
    AddressDecode.DecodeEncode(acc, Scaled(acc, rd, v));
    SmallOffset(acc.Scale(), v);
  }

  lemma SmallOffset(scale: nat, v: nat)
    requires scale <= 4 && v < 4096
    ensures v * Pow2(scale) < 0x1_0000
  {
    PowValues();
  }

  // ---------------------------------------------------------------- adrp and movk

  lemma MovkIsMovk(rd: nat, pages: int, next: seq<bool>)
    requires rd < 32 && |next| == 32 && Extract(next, 31, 23) == 0x1E5 && Extract(next, 22, 21) == 2
    requires Extract(next, 4, 0) == rd
    ensures KindOf(AdrpWord(rd, pages), next) == Movk
  {
    hide Extract, AdrpWord, IsAdrp;
    PowValues();
    AdrpIsAdrp(rd, pages);
    JoinFields(next, 31, 22, 21);
    ExtractStep(next, 31, 21);
    MovkIsNoLoad(next);
  }

  /** Executed one after the other, the two words leave `value` in `rd`. */
  predicate MovkLeaves(p: seq<bool>, q: seq<bool>, rd: nat, branch: nat, value: int) {
    && |p| == |q| == 32 && Extract(q, 4, 0) == rd
    && AdrpValue(p, branch).Some? && AdrpValue(p, branch).value.0 == rd
    && var x, m := AdrpValue(p, branch).value.1, DecodeMove(q);
       && 0 <= x < WORD && m.Some? && m.value.Movk? && m.value.Ok()
       && MovImmediate.Value(MovImmediate.Apply(m.value, MovImmediate.Split(x))) == value
  }

  /** An adrp and a MOVK of bits 47 to 32, patched to any target and executed, leave the target's page. */
  lemma MovkReachesPage(rd: nat, pages: int, next: seq<bool>, branch: nat, target: nat)
    requires rd < 32 && |next| == 32 && branch < 0x1_0000_0000_0000 && target < 0x1_0000_0000_0000
    requires Extract(next, 4, 0) == rd && DecodeMove(next).Some?
    requires DecodeMove(next).value.Movk? && DecodeMove(next).value.half == 2
    ensures var r := PatchFrom(rd, pages, next, branch, target);
            r.Some? && MovkLeaves(r.value.0, r.value.1, rd, branch, target - target % PAGE)
  {
    hide AdrpWord, KindOf, Patch, AdrpValue, IsAdrp, PatchPage, Extract, LocalTarget, Pow2, MovImmediate.Apply,
         MovImmediate.Split, MovImmediate.Value;
    var dest, top := LocalTarget(branch, target), target / U32;
    AdrpIsAdrp(rd, pages);
    MovkIsMovk(rd, pages, next);
    LocalReach(branch, target);
    PatchedAdrp(rd, pages, branch, dest);
    PatchedMove(next, top);
    KeepsRegister(next, top);
    TopReplaced(branch, target);
  }

  lemma KeepsRegister(next: seq<bool>, top: nat)
    requires |next| == 32 && top < 0x1_0000
    ensures Extract(Patch(next, Field(top, 20, 5)), 4, 0) == Extract(next, 4, 0)
  {
    hide Extract, Patch;
    assert Pow2(16) == 0x1_0000 by { PowValues(); Pow2At8Steps(8); }
    PatchedElsewhere(next, Field(top, 20, 5), 4, 0);
  }

  /** Replacing bits 47 to 32 of the local page by the target's gives the target's page. */
  lemma TopReplaced(branch: nat, target: nat)
    requires branch < 0x1_0000_0000_0000 && target < 0x1_0000_0000_0000
    ensures var dest, m := LocalTarget(branch, target), MovImmediate.Movk(target / U32, 2);
            && m.Ok() && 0 <= dest - dest % PAGE < WORD
            && MovImmediate.Value(MovImmediate.Apply(m, MovImmediate.Split(dest - dest % PAGE))) ==
                 target - target % PAGE
  {
    var dest := LocalTarget(branch, target);
    var x := dest - dest % PAGE;
    LocalPage(branch, target);
    assert dest < 0x1_0000_0000_0000;
    HighHalf(x, target / U32);
  }

  lemma HighHalf(x: nat, top: nat)
    requires x < 0x1_0000_0000_0000 && top < 0x1_0000
    ensures MovImmediate.Value(MovImmediate.Apply(MovImmediate.Movk(top, 2), MovImmediate.Split(x))) ==
            x % U32 + top * U32
  {
    var h := MovImmediate.Split(x);
    assert h[3] == 0 && h[0] + 0x1_0000 * h[1] == x % U32;
  }
}
