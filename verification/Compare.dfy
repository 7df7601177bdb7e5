/** Compare with a constant, then branch on a LIR condition. */
module Compare {
  import opened Bits
  import opened Wrappers
  import opened AddSub
  import opened MovImmediate

  datatype Condition = Equal | NotEqual | Less | LessEqual | GreaterEqual | Greater | BelowEqual | AboveEqual

  /** What the LIR condition asks of two operands. */
  predicate Holds(cond: Condition, x: nat, y: nat, modulus: nat) {
    var sx, sy := ToSigned(x, modulus), ToSigned(y, modulus);
    match cond
    case Equal => x == y
    case NotEqual => x != y
    case Less => sx < sy
    case LessEqual => sx <= sy
    case GreaterEqual => sx >= sy
    case Greater => sx > sy
    case BelowEqual => x <= y
    case AboveEqual => x >= y
  }

  /** The condition code emit_opBranch picks, numbered as in Assembler::Condition. */
  function ConditionCode(cond: Condition): nat {
    match cond
    case Equal => 0
    case NotEqual => 1
    case Less => 11
    case LessEqual => 13
    case GreaterEqual => 10
    case Greater => 12
    case BelowEqual => 9
    case AboveEqual => 2
  }

  /** ConditionHolds of section C1.2.4 of the Arm Architecture Reference Manual (DDI 0487). */
  predicate ConditionHolds(code: nat, f: Flags) {
    var base := match code / 2
                case 0 => f.z
                case 1 => f.c
                case 2 => f.n
                case 3 => f.v
                case 4 => f.c && !f.z
                case 5 => f.n == f.v
                case 6 => f.n == f.v && !f.z
                case _ => true;
    if code % 2 == 1 && code != 15 then !base else base
  }

  /** A compare sets the flags of SUBS. */
  function Subs(wide: bool): Op {
    Op(wide, true, true)
  }

  /** The compare with an immediate, or with a scratch register filled by `moves`. */
  datatype Lowered =
    | Immediate(word: seq<bool>)
    | Register(moves: seq<Mov>)
  {
    predicate Ok() {
      if Immediate? then |word| == 32 else AllOk(moves)
    }
  }

  /** What the constant branch of comp_op must emit: an immediate compare where the operand is valid,
      else the constant built in a scratch register. */
  ghost predicate Lowers(wide: bool, imm: int, rn: nat, l: Lowered)
    requires rn < 32
  {
    if OperandValid(imm) then
      TruncationKeepsOperand(imm);
      l == Immediate(Encode(Subs(wide), imm % U32, 31, rn))
    else l.Register? && Builds(l.moves, Split(imm % WORD))
  }

  method CompOp(wide: bool, imm: int, rn: nat) returns (l: Lowered)
    requires rn < 32
    ensures Lowers(wide, imm, rn, l) && l.Ok()
  {
    if OperandValid(imm) {
      TruncationKeepsOperand(imm);
      var w := AddSubImmediate(Subs(wide), imm % U32, 31, rn);
      l := Immediate(w);
    } else {
      var moves := MovImmediate64(imm % WORD);
      l := Register(moves);
    }
  }

  lemma TruncationKeepsOperand(imm: int)
    requires OperandValid(imm)
    ensures ToSigned(imm % U32, U32) == imm
  {
  }

  /** The flags after the lowered compare, on a register holding `x`; the 32-bit form reads the low
      half of the scratch register. */
  function FlagsAfter(wide: bool, l: Lowered, x: nat): Option<Flags>
    requires l.Ok() && x < Subs(wide).Modulus()
  {
    match l
    case Immediate(w) =>
      var r := Run(w, x);
      if r.None? then None else Some(r.value.flags)
    case Register(moves) =>
      Some(Execute(Subs(wide), x, Value(RunMoves(moves, [0, 0, 0, 0])) % Subs(wide).Modulus()).flags)
  }

  lemma FlagsOfSubs(wide: bool, cond: Condition, x: nat, y: nat)
    requires x < Subs(wide).Modulus() && y < Subs(wide).Modulus()
    ensures ConditionHolds(ConditionCode(cond), Execute(Subs(wide), x, y).flags)
            <==> Holds(cond, x, y, Subs(wide).Modulus())
  {
  }

  lemma LowHalf(imm: int)
    ensures imm % WORD % U32 == imm % U32
  {
  }

  /** For every register value and constant the branch is taken exactly when the condition holds. */
  lemma BranchTakenExactly(wide: bool, imm: int, rn: nat, l: Lowered, x: nat, cond: Condition)
    requires rn < 32 && Lowers(wide, imm, rn, l) && l.Ok() && x < Subs(wide).Modulus()
    ensures FlagsAfter(wide, l, x).Some?
    ensures ConditionHolds(ConditionCode(cond), FlagsAfter(wide, l, x).value)
            <==> Holds(cond, x, imm % Subs(wide).Modulus(), Subs(wide).Modulus())
  {
    hide ConditionHolds, Holds, Execute, Encode, Run, OperandValid, RunMoves, Value, Split;
    if OperandValid(imm) {
      TruncationKeepsOperand(imm);
      RunImmediate(Subs(wide), imm % U32, 31, rn, x);
    } else {
      BuildsValue(l.moves, Split(imm % WORD));
      LowHalf(imm);
    }
    FlagsOfSubs(wide, cond, x, imm % Subs(wide).Modulus());
  }
}
