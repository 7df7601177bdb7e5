/** `zero_memory`: an unrolled loop entered in the middle through a computed branch. */
module Zeroing {
  import opened Bits
  import opened Wrappers
  import opened Machine

  /** The eight unrolled stores through `n`. */
  function StoreRun(n: Reg): (code: seq<Instr>)
    ensures |code| == 8 && forall i | 0 <= i < 8 :: code[i] == StrZr(n, 8 * i - 64)
  {
    seq(8, i requires i >= 0 => StrZr(n, 8 * i - 64))
  }

  /** The code emitted at index `at`: the loop is at index 7, its entry at index 16. */
  function ZeroMemory(at: nat): (code: seq<Instr>)
    ensures |code| == 18
  {
    [Lsr(Len, Len, 3), AndImm(S1, Len, 7), SubReg(Len, Len, S1, 0), AddReg(T1, Obj, S1, 3),
     Adr(S2, at + 16), SubReg(S2, S2, S1, 2), Br(S2), SubImm(Len, Len, 8)]
    + StoreRun(T1)
    + [AddImm(T1, T1, 64), Cbnz(Len, at + 7)]
  }

  method EmitZeroMemory(at: nat) returns (code: seq<Instr>)
    ensures code == ZeroMemory(at)
  {
    code := [Lsr(Len, Len, 3), AndImm(S1, Len, 7), SubReg(Len, Len, S1, 0), AddReg(T1, Obj, S1, 3),
             Adr(S2, at + 16), SubReg(S2, S2, S1, 2), Br(S2)];
    code := code + [SubImm(Len, Len, 8)];
    ghost var head := code;
    var i := -8;
    while i < 0
      invariant -8 <= i <= 0
      invariant code == head + StoreRun(T1)[..i + 8]
    {
      code := code + [StrZr(T1, i * 8)];
      i := i + 1;
      assert StoreRun(T1)[..i + 8] == StoreRun(T1)[..i + 7] + [StoreRun(T1)[i + 7]];
    }
    code := code + [AddImm(T1, T1, 64), Cbnz(Len, at + 7)];
    assert StoreRun(T1)[..8] == StoreRun(T1);
  }

  /** The program holds the code at `at`, and all its instructions have 64-bit addresses. */
  predicate Loaded(prog: seq<Instr>, base: nat, at: nat) {
    Holds(prog, at, ZeroMemory(at)) && base + 4 * |prog| <= WORD
  }

  lemma LoadedAt(prog: seq<Instr>, base: nat, at: nat)
    requires Loaded(prog, base, at)
    ensures at + 18 <= |prog| && base + 4 * |prog| <= WORD
    ensures prog[at] == Lsr(Len, Len, 3) && prog[at + 1] == AndImm(S1, Len, 7)
    ensures prog[at + 2] == SubReg(Len, Len, S1, 0) && prog[at + 3] == AddReg(T1, Obj, S1, 3)
    ensures prog[at + 4] == Adr(S2, at + 16)
    ensures prog[at + 5] == SubReg(S2, S2, S1, 2) && prog[at + 6] == Br(S2) && prog[at + 7] == SubImm(Len, Len, 8)
    ensures forall i | at + 8 <= i < at + 16 :: prog[i] == StrZr(T1, 8 * (i - at - 8) - 64)
    ensures prog[at + 16] == AddImm(T1, T1, 64) && prog[at + 17] == Cbnz(Len, at + 7)
  {
    var code := ZeroMemory(at);
    assert code[0] == Lsr(Len, Len, 3) && code[1] == AndImm(S1, Len, 7) && code[2] == SubReg(Len, Len, S1, 0);
    assert code[3] == AddReg(T1, Obj, S1, 3) && code[4] == Adr(S2, at + 16) && code[5] == SubReg(S2, S2, S1, 2);
    assert code[6] == Br(S2) && code[7] == SubImm(Len, Len, 8);
    assert code[16] == AddImm(T1, T1, 64) && code[17] == Cbnz(Len, at + 7);
    forall i | at + 8 <= i < at + 16 ensures prog[i] == StrZr(T1, 8 * (i - at - 8) - 64) {
      assert prog[at + (i - at)] == code[i - at] == StoreRun(T1)[i - at - 8];
    }
  }

  lemma RowFrom(prog: seq<Instr>, base: nat, at: nat, k: nat)
    requires Loaded(prog, base, at) && k <= 8
    ensures StoreRow(prog, at + 16 - k, T1, -8 * k, k)
  {
    LoadedAt(prog, base, at);
  }

  /** The last `k` unrolled stores, which zero the `k` words below `t1`. */
  lemma RunStores(prog: seq<Instr>, base: nat, at: nat, s: State, k: nat)
    requires Loaded(prog, base, at) && k <= 8 && s.pc == at + 16 - k && 8 * k <= s.r.t1 < WORD
    ensures Leads(prog, base, s, s.(pc := at + 16, stores := s.stores + Words(s.r.t1 - 8 * k, k)))
  {
    hide Leads, Loaded, StoreRow;
    RowFrom(prog, base, at, k);
    StoresLead(prog, base, s, T1, -8 * k, k);
  }

  /** From the loop's entry: `q` more rounds of eight words each, starting at `t1`. */
  lemma {:induction false} EntryLoops(prog: seq<Instr>, base: nat, at: nat, s: State, q: nat) returns (t: State)
    requires Loaded(prog, base, at) && s.pc == at + 16 && s.r.len == 8 * q < WORD
    requires s.r.t1 + 64 * q < WORD
    ensures Leads(prog, base, s, t) && t.pc == at + 18 && t.r.obj == s.r.obj
    ensures t.stores == s.stores + Words(s.r.t1, 8 * q)
    decreases q
  {
    hide Leads, Loaded, Step;
    var p := s.r.t1;
    var s1 := s.(pc := at + 17, r := s.r.(t1 := Wrap(p + 64)));
    EntrySteps(prog, base, at, s);
    LeadsOne(prog, base, s, s1);
    if q == 0 {
      t := s1.(pc := at + 18);
      LeadsOne(prog, base, s1, t);
      LeadsTrans(prog, base, s, s1, t);
      assert t.stores == s.stores + Words(p, 0);
    } else {
      WrapSmall(p + 64);
      var s2 := s1.(pc := at + 7);
      LeadsOne(prog, base, s1, s2);
      var s3 := s2.(pc := at + 8, r := s2.r.(len := 8 * (q - 1)));
      LoopSteps(prog, base, at, s2, q);
      LeadsOne(prog, base, s2, s3);
      var s4 := s3.(pc := at + 16, stores := s3.stores + Words(p, 8));
      RunStores(prog, base, at, s3, 8);
      t := EntryLoops(prog, base, at, s4, q - 1);
      LeadsTrans(prog, base, s, s1, s2);
      LeadsTrans(prog, base, s, s2, s3);
      LeadsTrans(prog, base, s, s3, s4);
      LeadsTrans(prog, base, s, s4, t);
      WordsConcat(p, 8, 8 * (q - 1));
      assert t.stores == s.stores + Words(p, 8 * q);
    }
  }

  lemma EntrySteps(prog: seq<Instr>, base: nat, at: nat, s: State)
    requires Loaded(prog, base, at) && s.pc == at + 16
    ensures at + 18 <= |prog|
    ensures var s1 := s.(pc := at + 17, r := s.r.(t1 := Wrap(s.r.t1 + 64)));
            && Step(prog, base, s) == Some(s1)
            && Step(prog, base, s1) == Some(s1.(pc := if s.r.len != 0 then at + 7 else at + 18))
  {
    LoadedAt(prog, base, at);
  }

  lemma LoopSteps(prog: seq<Instr>, base: nat, at: nat, s: State, q: nat)
    requires Loaded(prog, base, at) && s.pc == at + 7 && q > 0 && s.r.len == 8 * q < WORD
    ensures at + 18 <= |prog|
    ensures Step(prog, base, s) == Some(s.(pc := at + 8, r := s.r.(len := 8 * (q - 1))))
  {
    LoadedAt(prog, base, at);
    WrapSmall(8 * q - 8);
  }

  // ---------------------------------------------------------------- the computed branch

  lemma EighthPart(cnt: nat)
    ensures ShiftRight(8 * cnt, 3) == cnt
  {
    assert ShiftRight(8 * cnt, 3) == ShiftRight(8 * cnt / 2, 2) == ShiftRight(8 * cnt / 2 / 2, 1);
  }

  lemma LowThree(cnt: nat)
    ensures And(cnt, 7) == cnt % 8
  {
    Pow2At3();
    AndKeepLow(cnt, 3);
  }

  /** The state after the branch: `cnt % 8` stores before the loop's entry. */
  function Entered(base: nat, at: nat, s: State, cnt: nat): State
    requires base + 4 * at + 64 - 4 * (cnt % 8) >= 0
  {
    var k := cnt % 8;
    s.(pc := at + 16 - k,
       r := s.r.(len := cnt - k, s1 := k, t1 := s.r.obj + 8 * k, s2 := base + 4 * (at + 16) - 4 * k))
  }

  /** The state before the branch address is formed. */
  function Counted(at: nat, s: State, cnt: nat): State {
    var k := cnt % 8;
    s.(pc := at + 4, r := s.r.(len := cnt - k, s1 := k, t1 := s.r.obj + 8 * k))
  }

  lemma SplitSteps(prog: seq<Instr>, base: nat, at: nat, s: State, cnt: nat)
    requires Loaded(prog, base, at) && s.pc == at && s.r.len == 8 * cnt
    ensures Leads(prog, base, s, s.(pc := at + 2, r := s.r.(len := cnt, s1 := cnt % 8)))
  {
    hide Leads, And, ShiftRight, Loaded;
    LoadedAt(prog, base, at);
    EighthPart(cnt);
    LowThree(cnt);
    var ss := [s, s.(pc := at + 1, r := s.r.(len := cnt)), s.(pc := at + 2, r := s.r.(len := cnt, s1 := cnt % 8))];
    assert Step(prog, base, ss[0]) == Some(ss[1]);
    assert Step(prog, base, ss[1]) == Some(ss[2]);
    LeadsAlong(prog, base, ss);
  }

  lemma CountSteps(prog: seq<Instr>, base: nat, at: nat, s: State, cnt: nat)
    requires Loaded(prog, base, at) && s.pc == at && s.r.len == 8 * cnt && s.r.obj + 8 * cnt < WORD
    ensures Leads(prog, base, s, Counted(at, s, cnt))
  {
    hide Leads, Loaded, Pow2;
    LoadedAt(prog, base, at);
    SplitSteps(prog, base, at, s, cnt);
    PowValues();
    var k := cnt % 8;
    WrapSmall(cnt - k);
    WrapSmall(s.r.obj + 8 * k);
    var s2 := s.(pc := at + 2, r := s.r.(len := cnt, s1 := k));
    var ss := [s2, s2.(pc := at + 3, r := s2.r.(len := cnt - k)), Counted(at, s, cnt)];
    assert Step(prog, base, ss[0]) == Some(ss[1]);
    assert Step(prog, base, ss[1]) == Some(ss[2]);
    LeadsAlong(prog, base, ss);
    LeadsTrans(prog, base, s, s2, Counted(at, s, cnt));
  }

  lemma JumpSteps(prog: seq<Instr>, base: nat, at: nat, s: State, cnt: nat)
    requires Loaded(prog, base, at)
    ensures Leads(prog, base, Counted(at, s, cnt), Entered(base, at, s, cnt))
  {
    hide Leads, Loaded, Pow2;
    LoadedAt(prog, base, at);
    PowValues();
    var k, c := cnt % 8, Counted(at, s, cnt);
    WrapSmall(base + 4 * (at + 16) - 4 * k);
    var ss := [c, c.(pc := at + 5, r := c.r.(s2 := base + 4 * (at + 16))),
               c.(pc := at + 6, r := c.r.(s2 := base + 4 * (at + 16) - 4 * k)), Entered(base, at, s, cnt)];
    assert Step(prog, base, ss[0]) == Some(ss[1]);
    assert Step(prog, base, ss[1]) == Some(ss[2]);
    assert Step(prog, base, ss[2]) == Some(ss[3]);
    LeadsAlong(prog, base, ss);
  }

  lemma BranchEnters(prog: seq<Instr>, base: nat, at: nat, s: State, cnt: nat)
    requires Loaded(prog, base, at) && s.pc == at && s.r.len == 8 * cnt && s.r.obj + 8 * cnt < WORD
    ensures Leads(prog, base, s, Entered(base, at, s, cnt))
  {
    hide Leads, Loaded;
    CountSteps(prog, base, at, s, cnt);
    JumpSteps(prog, base, at, s, cnt);
    LeadsTrans(prog, base, s, Counted(at, s, cnt), Entered(base, at, s, cnt));
  }

  /** For every word count the code ends, having zeroed each word of the region once, from low to
      high, and nothing else; the address register is kept. */
  lemma ZeroesExactly(prog: seq<Instr>, base: nat, at: nat, s: State, cnt: nat) returns (t: State)
    requires Loaded(prog, base, at) && s.pc == at && s.r.len == 8 * cnt && s.r.obj + 8 * cnt < WORD
    ensures Leads(prog, base, s, t) && t.pc == at + 18 && t.r.obj == s.r.obj
    ensures t.stores == s.stores + Words(s.r.obj, cnt)
  {
    hide Leads, Loaded;
    var k := cnt % 8;
    BranchEnters(prog, base, at, s, cnt);
    var s1 := Entered(base, at, s, cnt);
    RunStores(prog, base, at, s1, k);
    var s2 := s1.(pc := at + 16, stores := s1.stores + Words(s1.r.t1 - 8 * k, k));
    t := EntryLoops(prog, base, at, s2, cnt / 8);
    LeadsTrans(prog, base, s, s1, s2);
    LeadsTrans(prog, base, s, s2, t);
    WordsConcat(s.r.obj, k, 8 * (cnt / 8));
    assert t.stores == s.stores + (Words(s.r.obj, k) + Words(s.r.obj + 8 * k, 8 * (cnt / 8)));
  }
}
