/** `initialize_object` with its three strategies, and `allocate_array`. */
module ObjectInit {
  import opened Bits
  import opened Wrappers
  import opened Machine
  import opened Zeroing
  import opened Initialize

  // ---------------------------------------------------------------- the counted loop

  function BodyWords(size: nat): nat {
    if size >= HEADER then (size - HEADER) / 8 else 0
  }

  /** The strategy for large constant sizes: the loop is at index 3, its entry `words % 8` stores
      before index 12. */
  function LoopCode(at: nat, size: nat): (code: seq<Instr>)
    ensures |code| == 14
  {
    var words := BodyWords(size);
    [MovImm(Len, words / 8), AddImm(S1, Obj, HEADER + 8 * (words % 8)), B(at + 12 - words % 8), SubImm(Len, Len, 1)]
    + StoreRun(S1)
    + [AddImm(S1, S1, 64), Cbnz(Len, at + 3)]
  }

  /** The entry label is bound while the stores are emitted; the branch to it is then filled in. */
  method EmitLoop(at: nat, size: nat) returns (code: seq<Instr>)
    ensures code == LoopCode(at, size)
  {
    var words := BodyWords(size);
    var remainder := words % 8;
    code := [MovImm(Len, words / 8), AddImm(S1, Obj, HEADER + remainder * 8), B(0), SubImm(Len, Len, 1)];
    ghost var head := code;
    var entry: nat := 0;
    var i: int := -8;
    while i < 0
      invariant -8 <= i <= 0
      invariant code == head + StoreRun(S1)[..i + 8]
      invariant -i < remainder ==> entry == at + 12 - remainder
    {
      if -i == remainder {
        entry := at + |code|;
      }
      code := code + [StrZr(S1, i * 8)];
      i := i + 1;
      assert StoreRun(S1)[..i + 8] == StoreRun(S1)[..i + 7] + [StoreRun(S1)[i + 7]];
    }
    assert StoreRun(S1)[..8] == StoreRun(S1);
    if remainder == 0 {
      entry := at + |code|;
    }
    code := code + [AddImm(S1, S1, 64), Cbnz(Len, at + 3)];
    code := code[2 := B(entry)];
  }

  predicate LoopLoaded(prog: seq<Instr>, at: nat, size: nat) {
    Holds(prog, at, LoopCode(at, size))
  }

  lemma LoopLoadedAt(prog: seq<Instr>, at: nat, size: nat)
    requires LoopLoaded(prog, at, size)
    ensures at + 14 <= |prog|
    ensures prog[at] == MovImm(Len, BodyWords(size) / 8)
    ensures prog[at + 1] == AddImm(S1, Obj, HEADER + 8 * (BodyWords(size) % 8))
    ensures prog[at + 2] == B(at + 12 - BodyWords(size) % 8) && prog[at + 3] == SubImm(Len, Len, 1)
    ensures forall i | at + 4 <= i < at + 12 :: prog[i] == StrZr(S1, 8 * (i - at - 4) - 64)
    ensures prog[at + 12] == AddImm(S1, S1, 64) && prog[at + 13] == Cbnz(Len, at + 3)
  {
    var code := LoopCode(at, size);
    assert code[0] == MovImm(Len, BodyWords(size) / 8);
    assert code[1] == AddImm(S1, Obj, HEADER + 8 * (BodyWords(size) % 8));
    assert code[2] == B(at + 12 - BodyWords(size) % 8) && code[3] == SubImm(Len, Len, 1);
    assert code[12] == AddImm(S1, S1, 64) && code[13] == Cbnz(Len, at + 3);
    forall i | at + 4 <= i < at + 12 ensures prog[i] == StrZr(S1, 8 * (i - at - 4) - 64) {
      assert prog[at + (i - at)] == code[i - at] == StoreRun(S1)[i - at - 4];
    }
  }

  lemma LoopRowFrom(prog: seq<Instr>, at: nat, size: nat, k: nat)
    requires LoopLoaded(prog, at, size) && k <= 8
    ensures StoreRow(prog, at + 12 - k, S1, -8 * k, k)
  {
    LoopLoadedAt(prog, at, size);
  }

  lemma LoopStores(prog: seq<Instr>, base: nat, at: nat, size: nat, s: State, k: nat)
    requires LoopLoaded(prog, at, size) && k <= 8 && s.pc == at + 12 - k && 8 * k <= s.r.s1 < WORD
    ensures Leads(prog, base, s, s.(pc := at + 12, stores := s.stores + Words(s.r.s1 - 8 * k, k)))
  {
    hide Leads, LoopLoaded, StoreRow;
    LoopRowFrom(prog, at, size, k);
    StoresLead(prog, base, s, S1, -8 * k, k);
  }

  lemma LoopEntrySteps(prog: seq<Instr>, base: nat, at: nat, size: nat, s: State)
    requires LoopLoaded(prog, at, size) && s.pc == at + 12
    ensures at + 14 <= |prog|
    ensures var s1 := s.(pc := at + 13, r := s.r.(s1 := Wrap(s.r.s1 + 64)));
            && Step(prog, base, s) == Some(s1)
            && Step(prog, base, s1) == Some(s1.(pc := if s.r.len != 0 then at + 3 else at + 14))
  {
    LoopLoadedAt(prog, at, size);
  }

  lemma LoopCounts(prog: seq<Instr>, base: nat, at: nat, size: nat, s: State)
    requires LoopLoaded(prog, at, size) && s.pc == at + 3 && 0 < s.r.len < WORD
    ensures at + 14 <= |prog| && Step(prog, base, s) == Some(s.(pc := at + 4, r := s.r.(len := s.r.len - 1)))
  {
    LoopLoadedAt(prog, at, size);
    WrapSmall(s.r.len - 1);
  }

  lemma {:induction false} LoopRounds(prog: seq<Instr>, base: nat, at: nat, size: nat, s: State, q: nat)
    returns (t: State)
    requires LoopLoaded(prog, at, size) && s.pc == at + 12 && s.r.len == q < WORD && s.r.s1 + 64 * q < WORD
    ensures Leads(prog, base, s, t) && t.pc == at + 14 && t.r.obj == s.r.obj
    ensures t.stores == s.stores + Words(s.r.s1, 8 * q)
    decreases q
  {
    hide Leads, LoopLoaded, Step;
    var p := s.r.s1;
    var s1 := s.(pc := at + 13, r := s.r.(s1 := Wrap(p + 64)));
    LoopEntrySteps(prog, base, at, size, s);
    LeadsOne(prog, base, s, s1);
    if q == 0 {
      t := s1.(pc := at + 14);
      LeadsOne(prog, base, s1, t);
      LeadsTrans(prog, base, s, s1, t);
      assert t.stores == s.stores + Words(p, 0);
    } else {
      WrapSmall(p + 64);
      var s2 := s1.(pc := at + 3);
      LeadsOne(prog, base, s1, s2);
      var s3 := s2.(pc := at + 4, r := s2.r.(len := q - 1));
      LoopCounts(prog, base, at, size, s2);
      LeadsOne(prog, base, s2, s3);
      var s4 := s3.(pc := at + 12, stores := s3.stores + Words(p, 8));
      LoopStores(prog, base, at, size, s3, 8);
      t := LoopRounds(prog, base, at, size, s4, q - 1);
      LeadsTrans(prog, base, s, s1, s2);
      LeadsTrans(prog, base, s, s2, s3);
      LeadsTrans(prog, base, s, s3, s4);
      LeadsTrans(prog, base, s, s4, t);
      WordsConcat(p, 8, 8 * (q - 1));
      assert t.stores == s.stores + Words(p, 8 * q);
    }
  }

  /** The state at the entry, with the remainder still to be stored. */
  function LoopEntered(at: nat, s: State, words: nat): State {
    s.(pc := at + 12 - words % 8, r := s.r.(len := words / 8, s1 := s.r.obj + HEADER + 8 * (words % 8)))
  }

  lemma LoopEnters(prog: seq<Instr>, base: nat, at: nat, size: nat, s: State)
    requires LoopLoaded(prog, at, size) && s.pc == at && HEADER <= size && s.r.obj + size < WORD
    ensures Leads(prog, base, s, LoopEntered(at, s, BodyWords(size)))
  {
    hide Leads;
    LoopLoadedAt(prog, at, size);
    var words := BodyWords(size);
    WrapSmall(words / 8);
    WrapSmall(s.r.obj + (HEADER + 8 * (words % 8)));
    var s1 := s.(pc := at + 1, r := s.r.(len := words / 8));
    var s2 := s1.(pc := at + 2, r := s1.r.(s1 := s.r.obj + HEADER + 8 * (words % 8)));
    assert Step(prog, base, s) == Some(s1);
    assert Step(prog, base, s1) == Some(s2);
    assert Step(prog, base, s2) == Some(LoopEntered(at, s, words));
    LeadsAlong(prog, base, [s, s1, s2, LoopEntered(at, s, words)]);
  }

  lemma LoopZeroes(prog: seq<Instr>, base: nat, at: nat, size: nat, s: State) returns (t: State)
    requires LoopLoaded(prog, at, size) && s.pc == at && HEADER <= size && s.r.obj + size < WORD
    ensures Leads(prog, base, s, t) && t.pc == at + 14 && t.r.obj == s.r.obj
    ensures t.stores == s.stores + Words(s.r.obj + HEADER, BodyWords(size))
  {
    hide Leads, LoopLoaded;
    var words := BodyWords(size);
    var k, q, a := words % 8, words / 8, s.r.obj + HEADER;
    LoopEnters(prog, base, at, size, s);
    var s1 := LoopEntered(at, s, words);
    LoopStores(prog, base, at, size, s1, k);
    var s2 := s1.(pc := at + 12, stores := s1.stores + Words(a, k));
    t := LoopRounds(prog, base, at, size, s2, q);
    LeadsTrans(prog, base, s, s1, s2);
    LeadsTrans(prog, base, s, s2, t);
    WordsConcat(a, k, 8 * q);
    assert t.stores == s.stores + (Words(a, k) + Words(a + 8 * k, 8 * q));
  }

  // ---------------------------------------------------------------- initialize_object

  const THRESHOLD: nat := 128

  /** The zeroing part of initialize_object: a size in a register, or a constant. */
  function InitializeObject(at: nat, constant: Option<nat>): seq<Instr> {
    match constant
    case None => [Mov(Len, Size)] + InitializeBody(at + 1, HEADER)
    case Some(size) => if size <= THRESHOLD then Explicit(size) else LoopCode(at, size)
  }

  method EmitInitializeObject(at: nat, constant: Option<nat>) returns (code: seq<Instr>)
    ensures code == InitializeObject(at, constant)
  {
    match constant {
      case None =>
        var body := EmitInitializeBody(at + 1, HEADER);
        code := [Mov(Len, Size)] + body;
      case Some(size) =>
        if size <= THRESHOLD {
          code := EmitExplicit(size);
        } else {
          code := EmitLoop(at, size);
        }
    }
  }

  /** A constant size loops exactly when it is above 128 bytes. */
  lemma LoopsExactly(at: nat, size: nat)
    ensures (exists i :: 0 <= i < |InitializeObject(at, Some(size))| && InitializeObject(at, Some(size))[i].Cbnz?)
            <==> size > 128
  {
    var code := InitializeObject(at, Some(size));
    if size > 128 {
      assert code[13].Cbnz?;
    } else {
      forall i | 0 <= i < |code| ensures !code[i].Cbnz? {
        StraightLine(size, i);
      }
    }
  }

  lemma StraightLine(size: nat, i: nat)
    requires i < |Explicit(size)|
    ensures !Explicit(size)[i].Cbnz?
  {
    if HEADER < size && size % 16 != 0 {
      if i > 0 {
        PairsStraight(HEADER + 8, size, i - 1);
      }
    } else {
      PairsStraight(HEADER, size, i);
    }
  }

  lemma {:induction false} PairsStraight(from: nat, size: nat, i: nat)
    requires i < |Pairs(from, size)|
    ensures Pairs(from, size)[i].StpZr?
    decreases i
  {
    if i > 0 {
      PairsStraight(from + 16, size, i - 1);
    }
  }

  /** Whichever strategy is chosen, the words from header end to object end are zeroed once each in
      ascending order, nothing else is stored to, and the object register is kept. */
  lemma ObjectZeroed(prog: seq<Instr>, base: nat, at: nat, constant: Option<nat>, s: State, size: nat)
    returns (t: State)
    requires Holds(prog, at, InitializeObject(at, constant)) && base + 4 * |prog| <= WORD && s.pc == at
    requires size == (if constant.Some? then constant.value else s.r.size)
    requires 16 <= size && size % 8 == 0 && s.r.obj + size < WORD
    ensures Leads(prog, base, s, t) && t.pc == at + |InitializeObject(at, constant)| && t.r.obj == s.r.obj
    ensures t.stores == s.stores + Words(s.r.obj + 16, size / 8 - 2)
  {
    hide Leads, Explicit, LoopCode, InitializeBody, Step;
    match constant {
      case None =>
        var code, body := InitializeObject(at, constant), InitializeBody(at + 1, HEADER);
        assert code[0] == Mov(Len, Size) && code[1..1 + |body|] == body;
        HoldsPart(prog, at, code, 1, body);
        var s1 := s.(pc := at + 1, r := s.r.(len := size));
        SizeMoved(prog, base, s);
        LeadsOne(prog, base, s, s1);
        t := BodyZeroed(prog, base, at + 1, HEADER, s1, (size - HEADER) / 8);
        LeadsTrans(prog, base, s, s1, t);
      case Some(_) =>
        if size <= THRESHOLD {
          ExplicitZeroes(prog, base, s, size, (size - HEADER) / 8);
          t := s.(pc := s.pc + |Explicit(size)|, stores := s.stores + Words(s.r.obj + HEADER, (size - HEADER) / 8));
        } else {
          t := LoopZeroes(prog, base, at, size, s);
        }
    }
  }

  lemma SizeMoved(prog: seq<Instr>, base: nat, s: State)
    requires s.pc < |prog| && prog[s.pc] == Mov(Len, Size)
    ensures Step(prog, base, s) == Some(s.(pc := s.pc + 1, r := s.r.(len := s.r.size)))
  {
  }

  // ---------------------------------------------------------------- allocate_array

  const MAX_ARRAY_LENGTH: nat := 0x00FF_FFFF

  /** The rounded size, or None for the slow path; `align` is the object alignment in bytes. */
  function ArraySize(length: nat, hdr: nat, log: nat, align: nat): Option<nat>
    requires length < WORD && align <= WORD && log <= 3
  {
    if length >= MAX_ARRAY_LENGTH then None
    else Some(And(Wrap(hdr + (align - 1) + length % U32 * Pow2(log)), WORD - align))
  }

  predicate IsAlignment(align: nat, k: nat) {
    3 <= k <= 31 && align == Pow2(k)
  }

  /** Header size plus alignment mask is computed as a 32-bit `int`. */
  predicate ConstantFits(hdr: nat, align: nat) {
    hdr + align <= 0x8000_0000
  }

  lemma AlignmentOfWord(align: nat, k: nat)
    requires IsAlignment(align, k)
    ensures align % 8 == 0 && 8 <= align
  {
    hide Pow2;
    Pow2Splits(3, k);
    Pow2Monotonic(3, k);
    Pow2At3();
  }

  lemma {:induction false} Pow2Splits(j: nat, k: nat)
    requires j <= k
    ensures Pow2(k) % Pow2(j) == 0
    decreases k - j
  {
    if j < k {
      Pow2Splits(j, k - 1);
      var p, q := Pow2(j), Pow2(k - 1) / Pow2(j);
      assert Pow2(k - 1) == q * p;
      assert Pow2(k) == (2 * q) * p;
      ModUnique(Pow2(k), p, 2 * q, 0);
    } else {
      ModUnique(Pow2(k), Pow2(k), 1, 0);
    }
  }

  /** The accepted lengths are exactly those below the limit; the size is the least aligned one that
      holds header and elements, and no sum overflows. */
  lemma ArraySizeLeast(length: nat, hdr: nat, log: nat, align: nat, k: nat)
    requires length < WORD && log <= 3 && ConstantFits(hdr, align) && IsAlignment(align, k)
    ensures ArraySize(length, hdr, log, align).None? <==> length >= 0x00FF_FFFF
    ensures length < 0x00FF_FFFF ==>
              var need, size := hdr + length * Pow2(log), ArraySize(length, hdr, log, align).value;
              && size % align == 0
              && need <= size < need + align
              && size < U32
  {
    hide And, Pow2, IsAlignment;
    AlignmentOfWord(align, k);
    if length < MAX_ARRAY_LENGTH {
      ElementBytes(length, log);
      var bytes := length * Pow2(log);
      ModUnique(length, U32, 0, length);
      var x := hdr + (align - 1) + bytes;
      WrapSmall(x);
      RoundDown(x, align, k);
      assert ArraySize(length, hdr, log, align) == Some(x - x % align);
    }
  }

  lemma ElementBytes(length: nat, log: nat)
    requires log <= 3
    ensures length * Pow2(log) <= 8 * length
  {
  }

  lemma RoundDown(x: nat, align: nat, k: nat)
    requires IsAlignment(align, k) && align <= WORD && x < WORD
    ensures And(x, WORD - align) == x - x % align && (x - x % align) % align == 0
  {
    hide And, Pow2;
    Pow2At64();
    AndClearLow(x, k, 64);
    ModUnique(x - x % align, align, x / align, 0);
  }

  /** Any aligned size that holds the array is at least the one chosen. */
  lemma ArraySizeMinimal(length: nat, hdr: nat, log: nat, align: nat, k: nat, other: nat)
    requires length < MAX_ARRAY_LENGTH && log <= 3 && ConstantFits(hdr, align) && IsAlignment(align, k)
    requires other % align == 0 && other >= hdr + length * Pow2(log)
    ensures ArraySize(length, hdr, log, align).value <= other
  {
    hide And, Pow2;
    ArraySizeLeast(length, hdr, log, align, k);
    MultiplesApart(ArraySize(length, hdr, log, align).value, other, align);
  }

  lemma MultiplesApart(x: int, y: int, d: int)
    requires d > 0 && x % d == 0 && y % d == 0 && x < y + d
    ensures x <= y
  {
    var a, b := x / d, y / d;
    MulSign(a - b, d);
    assert x - y == (a - b) * d;
  }

  lemma MultipleOfEight(x: nat, align: nat)
    requires align > 0 && align % 8 == 0 && x % align == 0
    ensures x % 8 == 0
  {
    var a, b := x / align, align / 8;
    assert x == a * align && align == b * 8;
    assert x == (a * b) * 8;
    ModUnique(x, 8, a * b, 0);
  }

  /** The body of an accepted array, from header end to the rounded object end, is zeroed once. */
  lemma ArrayZeroed(prog: seq<Instr>, base: nat, at: nat, s: State, length: nat, hdr: nat, log: nat, align: nat, k: nat)
    returns (t: State, cnt: nat)
    requires length < MAX_ARRAY_LENGTH && log <= 3 && ConstantFits(hdr, align) && hdr % 8 == 0
    requires IsAlignment(align, k)
    requires BodyLoaded(prog, base, at, hdr) && s.pc == at
    requires Some(s.r.len) == ArraySize(length, hdr, log, align) && s.r.obj + s.r.len < WORD
    ensures Leads(prog, base, s, t) && t.pc == at + BodyLength(hdr) && t.r.obj == s.r.obj
    ensures s.r.len == hdr + 8 * cnt && t.stores == s.stores + Words(s.r.obj + hdr, cnt)
  {
    hide Leads, BodyLoaded, And, Pow2, ArraySize;
    ArraySizeLeast(length, hdr, log, align, k);
    AlignmentOfWord(align, k);
    MultipleOfEight(s.r.len, align);
    cnt := (s.r.len - hdr) / 8;
    t := BodyZeroed(prog, base, at, hdr, s, cnt);
  }
}
