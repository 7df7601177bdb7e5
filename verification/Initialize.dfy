/** `initialize_body`, and the explicit stores `initialize_object` uses for small objects. */
module Initialize {
  import opened Bits
  import opened Wrappers
  import opened Machine
  import opened Zeroing

  // ---------------------------------------------------------------- initialize_body

  /** Bytes of an instance header. */
  const HEADER: nat := 16

  function BodyLength(hdr: nat): nat {
    if hdr > 0 then 22 else 20
  }

  function InitializeBody(at: nat, hdr: nat): (code: seq<Instr>)
    ensures |code| == BodyLength(hdr)
  {
    [SubsImm(Len, Len, hdr), BEq(at + BodyLength(hdr))]
    + (if hdr > 0 then [AddImm(Obj, Obj, hdr)] + ZeroMemory(at + 3) + [SubImm(Obj, Obj, hdr)]
       else ZeroMemory(at + 2))
  }

  method EmitInitializeBody(at: nat, hdr: nat) returns (code: seq<Instr>)
    ensures code == InitializeBody(at, hdr)
  {
    code := [SubsImm(Len, Len, hdr), BEq(at + BodyLength(hdr))];
    if hdr > 0 {
      code := code + [AddImm(Obj, Obj, hdr)];
    }
    var zero := EmitZeroMemory(at + |code|);
    code := code + zero;
    if hdr > 0 {
      code := code + [SubImm(Obj, Obj, hdr)];
    }
  }

  predicate BodyLoaded(prog: seq<Instr>, base: nat, at: nat, hdr: nat) {
    Holds(prog, at, InitializeBody(at, hdr)) && base + 4 * |prog| <= WORD
  }

  lemma BodyLoadedAt(prog: seq<Instr>, base: nat, at: nat, hdr: nat)
    requires BodyLoaded(prog, base, at, hdr)
    ensures at + BodyLength(hdr) <= |prog|
    ensures prog[at] == SubsImm(Len, Len, hdr) && prog[at + 1] == BEq(at + BodyLength(hdr))
    ensures if hdr > 0 then prog[at + 2] == AddImm(Obj, Obj, hdr) && Loaded(prog, base, at + 3)
                            && prog[at + 21] == SubImm(Obj, Obj, hdr)
            else Loaded(prog, base, at + 2)
  {
    hide ZeroMemory;
    var code := InitializeBody(at, hdr);
    var skip := if hdr > 0 then 3 else 2;
    assert code[0] == SubsImm(Len, Len, hdr) && code[1] == BEq(at + BodyLength(hdr));
    if hdr > 0 {
      assert code[2] == AddImm(Obj, Obj, hdr) && code[21] == SubImm(Obj, Obj, hdr);
    }
    assert code[skip..skip + 18] == ZeroMemory(at + skip);
    HoldsPart(prog, at, code, skip, ZeroMemory(at + skip));
  }

  /** Subtract the header and test: the rest of the body in bytes, or the end. */
  lemma BodyStarts(prog: seq<Instr>, base: nat, at: nat, hdr: nat, s: State)
    requires BodyLoaded(prog, base, at, hdr) && s.pc == at && hdr <= s.r.len < WORD
    ensures Leads(prog, base, s,
                  s.(pc := if s.r.len == hdr then at + BodyLength(hdr) else at + 2,
                     r := s.r.(len := s.r.len - hdr), zero := s.r.len == hdr))
  {
    hide Leads, BodyLoaded;
    BodyLoadedAt(prog, base, at, hdr);
    WrapSmall(s.r.len - hdr);
    var s1 := s.(pc := at + 1, r := s.r.(len := s.r.len - hdr), zero := s.r.len == hdr);
    LeadsOne(prog, base, s, s1);
    var s2 := s1.(pc := if s.r.len == hdr then at + BodyLength(hdr) else at + 2);
    LeadsOne(prog, base, s1, s2);
    LeadsTrans(prog, base, s, s1, s2);
  }

  /** Adding or subtracting the header size. */
  lemma MoveSteps(prog: seq<Instr>, base: nat, s: State, imm: nat, up: bool)
    requires s.pc < |prog| && prog[s.pc] == (if up then AddImm(Obj, Obj, imm) else SubImm(Obj, Obj, imm))
    requires if up then s.r.obj + imm < WORD else imm <= s.r.obj < WORD
    ensures Leads(prog, base, s, s.(pc := s.pc + 1, r := s.r.(obj := if up then s.r.obj + imm else s.r.obj - imm)))
  {
    hide Leads;
    WrapSmall(if up then s.r.obj + imm else s.r.obj - imm);
    LeadsOne(prog, base, s, s.(pc := s.pc + 1, r := s.r.(obj := if up then s.r.obj + imm else s.r.obj - imm)));
  }

  /** The words from header end to object end are zeroed once each, and the object register is kept. */
  lemma BodyZeroed(prog: seq<Instr>, base: nat, at: nat, hdr: nat, s: State, cnt: nat) returns (t: State)
    requires BodyLoaded(prog, base, at, hdr) && s.pc == at && s.r.len == hdr + 8 * cnt && s.r.obj + s.r.len < WORD
    ensures Leads(prog, base, s, t) && t.pc == at + BodyLength(hdr) && t.r.obj == s.r.obj
    ensures t.stores == s.stores + Words(s.r.obj + hdr, cnt)
  {
    hide Leads, BodyLoaded, Loaded, Step;
    BodyLoadedAt(prog, base, at, hdr);
    BodyStarts(prog, base, at, hdr, s);
    var s1 := s.(pc := if cnt == 0 then at + BodyLength(hdr) else at + 2, r := s.r.(len := 8 * cnt), zero := cnt == 0);
    if cnt == 0 {
      t := s1;
      assert t.stores == s.stores + Words(s.r.obj + hdr, 0);
    } else if hdr == 0 {
      t := ZeroesExactly(prog, base, at + 2, s1, cnt);
      LeadsTrans(prog, base, s, s1, t);
    } else {
      MoveSteps(prog, base, s1, hdr, true);
      var s2 := s1.(pc := at + 3, r := s1.r.(obj := s.r.obj + hdr));
      var s3 := ZeroesExactly(prog, base, at + 3, s2, cnt);
      MoveSteps(prog, base, s3, hdr, false);
      t := s3.(pc := at + 22, r := s3.r.(obj := s.r.obj));
      LeadsTrans(prog, base, s, s1, s2);
      LeadsTrans(prog, base, s, s2, s3);
      LeadsTrans(prog, base, s, s3, t);
    }
  }

  // ---------------------------------------------------------------- explicit stores

  /** Pairs of zero stores from offset `i` up to `size`. */
  function Pairs(i: nat, size: nat): seq<Instr>
    decreases size - i
  {
    if i >= size then [] else [StpZr(Obj, i)] + Pairs(i + 16, size)
  }

  /** The strategy for small constant sizes. */
  function Explicit(size: nat): seq<Instr> {
    if HEADER < size && size % 16 != 0 then [StrZr(Obj, HEADER)] + Pairs(HEADER + 8, size) else Pairs(HEADER, size)
  }

  method EmitExplicit(size: nat) returns (code: seq<Instr>)
    ensures code == Explicit(size)
  {
    hide Pairs;
    code := [];
    var i := HEADER;
    if i < size && size % 16 != 0 {
      code := code + [StrZr(Obj, i)];
      i := i + 8;
    }
    assert code + Pairs(i, size) == Explicit(size);
    while i < size
      invariant code + Pairs(i, size) == Explicit(size)
      decreases size - i
    {
      PairsStep(code, i, size);
      code := code + [StpZr(Obj, i)];
      i := i + 16;
    }
    PairsEnd(code, i, size);
  }

  lemma PairsStep(code: seq<Instr>, i: nat, size: nat)
    requires i < size
    ensures code + Pairs(i, size) == code + [StpZr(Obj, i)] + Pairs(i + 16, size)
  {
  }

  lemma PairsEnd(code: seq<Instr>, i: nat, size: nat)
    requires i >= size
    ensures code + Pairs(i, size) == code
  {
  }

  lemma {:induction false} PairsLead(prog: seq<Instr>, base: nat, s: State, i: nat, size: nat, pairs: nat)
    requires size == i + 16 * pairs && s.r.obj + size < WORD && Holds(prog, s.pc, Pairs(i, size))
    ensures Leads(prog, base, s,
                  s.(pc := s.pc + |Pairs(i, size)|, stores := s.stores + Words(s.r.obj + i, 2 * pairs)))
    decreases pairs
  {
    hide Leads, Holds;
    var code, a := Pairs(i, size), s.r.obj + i;
    if pairs == 0 {
      LeadsSelf(prog, base, s);
      assert s.stores + Words(a, 0) == s.stores;
    } else {
      var rest := Pairs(i + 16, size);
      assert code == [StpZr(Obj, i)] + rest;
      var t := s.(pc := s.pc + 1, stores := s.stores + [a, a + 8]);
      HoldsFirst(prog, s.pc, code);
      PairSteps(prog, base, s, i);
      LeadsOne(prog, base, s, t);
      HoldsPart(prog, s.pc, code, 1, rest);
      PairsLead(prog, base, t, i + 16, size, pairs - 1);
      var u := t.(pc := t.pc + |rest|, stores := t.stores + Words(a + 16, 2 * (pairs - 1)));
      LeadsTrans(prog, base, s, t, u);
      WordsTwo(a);
      WordsConcat(a, 2, 2 * (pairs - 1));
      assert u.stores == s.stores + Words(a, 2 * pairs);
    }
  }

  lemma PairSteps(prog: seq<Instr>, base: nat, s: State, offset: nat)
    requires s.pc < |prog| && prog[s.pc] == StpZr(Obj, offset) && s.r.obj + offset + 16 < WORD
    ensures Step(prog, base, s) ==
            Some(s.(pc := s.pc + 1, stores := s.stores + [s.r.obj + offset, s.r.obj + offset + 8]))
  {
  }

  lemma WordsTwo(a: nat)
    ensures Words(a, 2) == [a, a + 8]
  {
  }

  lemma ExplicitZeroes(prog: seq<Instr>, base: nat, s: State, size: nat, n: nat)
    requires size == HEADER + 8 * n && s.r.obj + size < WORD && Holds(prog, s.pc, Explicit(size))
    ensures Leads(prog, base, s,
                  s.(pc := s.pc + |Explicit(size)|, stores := s.stores + Words(s.r.obj + HEADER, n)))
  {
    hide Leads, Pairs, Holds, Step;
    var code, a := Explicit(size), s.r.obj + HEADER;
    if n % 2 == 1 {
      var rest := Pairs(HEADER + 8, size);
      assert code == [StrZr(Obj, HEADER)] + rest;
      var t := s.(pc := s.pc + 1, stores := s.stores + [a]);
      HoldsFirst(prog, s.pc, code);
      StoreSteps(prog, base, s, Obj, HEADER);
      LeadsOne(prog, base, s, t);
      HoldsPart(prog, s.pc, code, 1, rest);
      PairsLead(prog, base, t, HEADER + 8, size, n / 2);
      var u := t.(pc := t.pc + |rest|, stores := t.stores + Words(a + 8, n - 1));
      LeadsTrans(prog, base, s, t, u);
      WordsOne(a);
      WordsConcat(a, 1, n - 1);
      assert u.stores == s.stores + Words(a, n);
    } else {
      PairsLead(prog, base, s, HEADER, size, n / 2);
    }
  }
}
