/** Branches to labels that are not bound yet: emission with a placeholder, the patch list, and
    binding. */
module Labels {
  import opened Bits
  import opened BitFields
  import opened Branches
  import opened BranchDecode

  datatype Dest = Address(addr: nat) | ToLabel(id: nat)

  /** One emitted instruction and what it refers to. */
  datatype Item = Item(branch: Branch, dest: Dest)

  /** The displacement of item `i`; 0 stands in while its label is unbound. */
  function ItemDisplacement(item: Item, pc: nat, bound: map<nat, nat>): int {
    match item.dest
    case Address(a) => Displacement(item.branch, pc, a)
    case ToLabel(l) => if l in bound then bound[l] - pc else 0
  }

  predicate ItemOk(item: Item) {
    item.branch.Ok() && (item.dest.ToLabel? ==> !(item.branch.Adr? && item.branch.page))
  }

  function Pc(base: nat, i: nat): nat {
    base + 4 * i
  }

  function ItemWord(item: Item, pc: nat, bound: map<nat, nat>): seq<bool>
    requires ItemOk(item)
  {
    Encode(item.branch, ItemDisplacement(item, pc, bound))
  }

  predicate ItemFits(item: Item, pc: nat, bound: map<nat, nat>) {
    InRange(item.branch, ItemDisplacement(item, pc, bound))
  }

  /** Every word is what its item asks for under `bound`. */
  predicate Emitted(code: seq<seq<bool>>, log: seq<Item>, base: nat, bound: map<nat, nat>) {
    && |code| == |log|
    && forall i | 0 <= i < |log| ::
         && ItemOk(log[i])
         && code[i] == ItemWord(log[i], Pc(base, i), bound)
         && ItemFits(log[i], Pc(base, i), bound)
  }

  /** `p` lists the instructions of `log` that refer to label `l`. */
  predicate Lists(p: seq<nat>, log: seq<Item>, l: nat) {
    && (forall k | 0 <= k < |p| :: p[k] < |log| && log[p[k]].dest == ToLabel(l))
    && (forall i | 0 <= i < |log| && log[i].dest == ToLabel(l) :: i in p)
  }

  function PatchList(patches: map<nat, seq<nat>>, l: nat): seq<nat> {
    if l in patches then patches[l] else []
  }

  /** Each unbound label has its patch list. */
  ghost predicate Tracked(patches: map<nat, seq<nat>>, log: seq<Item>, bound: map<nat, nat>) {
    forall l :: l !in bound ==> Lists(PatchList(patches, l), log, l)
  }

  /** Label `l` is being bound to `target`: `p` is what is left to patch. */
  predicate Binding(code: seq<seq<bool>>, log: seq<Item>, base: nat, bound: map<nat, nat>,
                    l: nat, target: nat, p: seq<nat>) {
    && |code| == |log|
    && (forall k | 0 <= k < |p| :: p[k] < |log| && log[p[k]].dest == ToLabel(l))
    && forall i | 0 <= i < |log| ::
         && ItemOk(log[i])
         && ItemFits(log[i], Pc(base, i), bound[l := target])
         && (code[i] == ItemWord(log[i], Pc(base, i), bound[l := target])
             || (i in p && code[i] == ItemWord(log[i], Pc(base, i), bound)))
  }

  class Assembler {
    const base: nat
    var code: seq<seq<bool>>
    var bound: map<nat, nat>
    /** Per label, the instructions to patch once it is bound. */
    var patches: map<nat, seq<nat>>
    ghost var log: seq<Item>

    ghost predicate Valid()
      reads this
    {
      && Emitted(code, log, base, bound)
      && Tracked(patches, log, bound)
      && forall l | l in bound :: bound[l] % 4 == base % 4
    }

    constructor (start: nat)
      ensures Valid() && base == start && log == [] && bound == map[]
    {
      base := start;
      code, bound, patches, log := [], map[], map[], [];
    }

    /** An emitter given an address, and `wrap_label`. */
    method Emit(branch: Branch, dest: Dest)
      requires Valid() && ItemOk(Item(branch, dest))
      requires ItemFits(Item(branch, dest), Pc(base, |code|), bound)
      modifies this
      ensures Valid() && log == old(log) + [Item(branch, dest)] && bound == old(bound)
    {
      hide Encode, InRange, Lists;
      var pc := Pc(base, |code|);
      var w;
      ExtendTracked(patches, log, bound, Item(branch, dest));
      match dest {
        case Address(a) =>
          w := Branches.Emit(branch, pc, a);
        case ToLabel(l) =>
          if l in bound {
            w := Branches.Emit(branch, pc, bound[l]);
          } else {
            patches := patches[l := PatchList(patches, l) + [|code|]];
            w := Branches.Emit(branch, pc, pc);
          }
      }
      code := code + [w];
      log := log + [Item(branch, dest)];
    }

    /** `bind` of an unbound label, with Label::patch_instructions: pops the patch list, patching
        each instruction. */
    method Bind(l: nat)
      requires Valid() && l !in bound
      requires forall i | 0 <= i < |log| && log[i].dest == ToLabel(l) ::
                 ItemFits(log[i], Pc(base, i), map[l := Pc(base, |code|)])
      modifies this
      ensures Valid() && log == old(log) && bound == old(bound)[l := Pc(base, |log|)]
    {
      hide Binding, PatchInstruction, PatchKind, InRange, Lists, ItemWord;
      var target := Pc(base, |code|);
      var p := PatchList(patches, l);
      StartBinding(code, log, base, bound, l, target, p);
      while |p| > 0
        invariant log == old(log) && bound == old(bound) && patches == old(patches)
        invariant Binding(code, log, base, bound, l, target, p)
        decreases |p|
      {
        var i := p[|p| - 1];
        LastPending(code, log, base, bound, l, target, p);
        p := p[..|p| - 1];
        PatchOne(code, log, base, bound, l, target, p, i);
        var r := PatchInstruction(code[i], Pc(base, i), target);
        code := code[i := r.value];
      }
      FinishBinding(code, log, base, bound, patches, l, target);
      patches := patches[l := []];
      bound := bound[l := target];
    }
  }

  lemma ExtendTracked(patches: map<nat, seq<nat>>, log: seq<Item>, bound: map<nat, nat>, item: Item)
    requires Tracked(patches, log, bound)
    ensures var ps := if item.dest.ToLabel? && item.dest.id !in bound
                      then patches[item.dest.id := PatchList(patches, item.dest.id) + [|log|]] else patches;
            Tracked(ps, log + [item], bound)
  {
    hide Lists;
    var ps := if item.dest.ToLabel? && item.dest.id !in bound
              then patches[item.dest.id := PatchList(patches, item.dest.id) + [|log|]] else patches;
    forall l | l !in bound ensures Lists(PatchList(ps, l), log + [item], l) {
      ExtendLists(PatchList(patches, l), log, l, item);
    }
  }

  lemma ExtendLists(p: seq<nat>, log: seq<Item>, l: nat, item: Item)
    requires Lists(p, log, l)
    ensures Lists(if item.dest == ToLabel(l) then p + [|log|] else p, log + [item], l)
  {
    var grown, q := log + [item], p + [|log|];
    if item.dest == ToLabel(l) {
      assert q[|p|] == |log|;
      forall i | 0 <= i < |grown| && grown[i].dest == ToLabel(l) ensures i in q {
        if i < |log| {
          assert i in p;
        }
      }
    }
  }

  lemma FinishBinding(code: seq<seq<bool>>, log: seq<Item>, base: nat, bound: map<nat, nat>,
                      patches: map<nat, seq<nat>>, l: nat, target: nat)
    requires Binding(code, log, base, bound, l, target, []) && Tracked(patches, log, bound)
    ensures Emitted(code, log, base, bound[l := target])
    ensures Tracked(patches[l := []], log, bound[l := target])
  {
  }

  lemma StartBinding(code: seq<seq<bool>>, log: seq<Item>, base: nat, bound: map<nat, nat>,
                     l: nat, target: nat, p: seq<nat>)
    requires Emitted(code, log, base, bound) && Lists(p, log, l)
    requires forall i | 0 <= i < |log| && log[i].dest == ToLabel(l) :: ItemFits(log[i], Pc(base, i), map[l := target])
    ensures Binding(code, log, base, bound, l, target, p)
  {
    hide ItemOk, Encode, InRange;
    forall i | 0 <= i < |log|
      ensures code[i] == ItemWord(log[i], Pc(base, i), bound[l := target]) || i in p
    {
      if log[i].dest == ToLabel(l) {
        assert i in p;
      }
    }
  }

  lemma LastPending(code: seq<seq<bool>>, log: seq<Item>, base: nat, bound: map<nat, nat>,
                    l: nat, target: nat, p: seq<nat>)
    requires Binding(code, log, base, bound, l, target, p) && p != []
    ensures p[|p| - 1] < |log| == |code| && log[p[|p| - 1]].dest == ToLabel(l)
    ensures Binding(code, log, base, bound, l, target, p[..|p| - 1] + [p[|p| - 1]])
  {
    hide ItemWord, ItemOk;
    assert p == p[..|p| - 1] + [p[|p| - 1]];
  }

  lemma PatchOne(code: seq<seq<bool>>, log: seq<Item>, base: nat, bound: map<nat, nat>,
                 l: nat, target: nat, p: seq<nat>, i: nat)
    requires l !in bound && Binding(code, log, base, bound, l, target, p + [i])
    requires i < |log|
    ensures |code[i]| == 32 && (PatchKind(code[i]) == PcRel ==> !code[i][31])
    ensures PatchInstruction(code[i], Pc(base, i), target).Some?
    ensures Binding(code[i := PatchInstruction(code[i], Pc(base, i), target).value], log, base, bound, l, target, p)
  {
    hide Encode, InRange, PatchKind, PatchInstruction;
    var item, pc := log[i], Pc(base, i);
    assert (p + [i])[|p|] == i;
    PatchIsEmit(item.branch, pc, 0, target);
    PatchIsEmit(item.branch, pc, target - pc, target);
    assert ItemWord(item, pc, bound[l := target]) == Encode(item.branch, target - pc);
    assert code[i] == ItemWord(item, pc, bound) || code[i] == ItemWord(item, pc, bound[l := target]);
    var done := code[i := PatchInstruction(code[i], pc, target).value];
    assert forall k | 0 <= k < |p| :: p[k] == (p + [i])[k];
    forall j | 0 <= j < |log|
      ensures done[j] == ItemWord(log[j], Pc(base, j), bound[l := target])
              || (j in p && done[j] == ItemWord(log[j], Pc(base, j), bound))
    {
      if j != i && j in p + [i] {
        assert j in p;
      }
    }
  }

  /** Once every label is bound, each instruction decodes to the one asked for, and reaches the
      address or the label it was emitted for. */
  lemma EveryBranchArrives(code: seq<seq<bool>>, log: seq<Item>, base: nat, bound: map<nat, nat>, i: nat)
    requires Emitted(code, log, base, bound) && i < |log|
    requires log[i].dest.ToLabel? ==> log[i].dest.id in bound && bound[log[i].dest.id] % 4 == base % 4
    ensures |code[i]| == 32 && Decode(code[i]).Some? && Decode(code[i]).value.0 == log[i].branch
    ensures Target(log[i].branch, base + 4 * i, Decode(code[i]).value.1) ==
            match log[i].dest
            case ToLabel(l) => bound[l]
            case Address(a) =>
              if !log[i].branch.Adr? then a - (a - (base + 4 * i)) % 4
              else if log[i].branch.page then a - a % 4096
              else a
  {
    hide Encode, Decode, InRange;
    var dest := if log[i].dest.ToLabel? then bound[log[i].dest.id] else log[i].dest.addr;
    DecodesToTarget(log[i].branch, Pc(base, i), dest);
  }
}
