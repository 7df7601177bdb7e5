/** Type profiling: one word summarising the klasses seen at a profile point. */
module TypeProfile {
  import opened Bits
  import opened Wrappers

  const NULL_SEEN: nat := 1
  const TYPE_UNKNOWN: nat := 2
  const TYPE_MASK: nat := WORD - 2
  const KLASS_MASK: nat := WORD - 4

  datatype Event = Null | Obj(klass: nat)

  /** Klass pointers leave the two status bits free. */
  predicate IsKlass(k: nat) {
    k % 4 == 0 && 0 < k < WORD
  }

  // ---------------------------------------------------------------- what the word should say

  /** First klass seen (0 if none), whether another one followed, whether a null was seen. */
  datatype Summary = Summary(klass: nat, unknown: bool, nulls: bool) {
    predicate Ok() {
      klass % 4 == 0 && klass < WORD && (klass == 0 ==> !unknown)
    }

    function Encode(): nat {
      klass + UnknownBit(unknown) + NullBit(nulls)
    }
  }

  function Add(s: Summary, e: Event): Summary {
    match e
    case Null => s.(nulls := true)
    case Obj(k) =>
      if s.klass == 0 then s.(klass := k)
      else if s.klass == k then s
      else s.(unknown := true)
  }

  function Summarize(history: seq<Event>): Summary {
    if history == [] then Summary(0, false, false)
    else Add(Summarize(history[..|history| - 1]), history[|history| - 1])
  }

  predicate EventsOk(history: seq<Event>) {
    forall i | 0 <= i < |history| && history[i].Obj? :: IsKlass(history[i].klass)
  }

  predicate SawNull(h: seq<Event>) {
    exists i :: 0 <= i < |h| && h[i].Null?
  }

  predicate AllNull(h: seq<Event>) {
    forall i | 0 <= i < |h| :: h[i].Null?
  }

  predicate FirstKlass(h: seq<Event>, k: nat) {
    exists i :: 0 <= i < |h| && h[i] == Obj(k) && AllNull(h[..i])
  }

  predicate SawOther(h: seq<Event>, k: nat) {
    exists i :: 0 <= i < |h| && h[i].Obj? && h[i].klass != k
  }

  /** Two objects of different klass. */
  predicate Conflict(h: seq<Event>) {
    exists i, j :: 0 <= i < |h| && 0 <= j < |h| && h[i].Obj? && h[j].Obj? && h[i].klass != h[j].klass
  }

  /** `s` is an exact summary: the first klass, a conflict exactly when two klasses differ, a null
      exactly when one was seen. */
  predicate IsSummaryOf(s: Summary, h: seq<Event>) {
    && (s.nulls <==> SawNull(h))
    && (s.klass == 0 <==> AllNull(h))
    && (s.klass != 0 ==> FirstKlass(h, s.klass))
    && (s.unknown <==> Conflict(h))
  }

  // ---------------------------------------------------------------- the emitted code

  /** What the compiler knew: an exact klass, the word at compile time, and two promises. */
  datatype Site = Site(exact: Option<nat>, current: nat, notNull: bool, noConflict: bool) {
    predicate TypeNone() {
      And(current, TYPE_MASK) == 0
    }

    predicate Unknown() {
      And(current, TYPE_UNKNOWN) != 0
    }

    predicate ExactSet() {
      exact.Some? && !TypeNone() && !Unknown() && And(current, KLASS_MASK) == exact.value
    }

    /** A single possible klass is promised only where the klass is known. */
    predicate Ok() {
      noConflict ==> exact.Some?
    }

    /** An event the promises allow. */
    predicate Allows(e: Event) {
      match e
      case Null => !notNull
      case Obj(k) => IsKlass(k) && (exact.Some? ==> k == exact.value)
    }
  }

  /** The word after the emitted code has profiled one object. */
  function Step(site: Site, cell: nat, e: Event): nat {
    match e
    case Null => if And(site.current, NULL_SEEN) == 0 then Or(cell, NULL_SEEN) else cell
    case Obj(k) =>
      if site.Unknown() || site.ExactSet() then cell
      else if site.noConflict then StepNoConflict(site, cell)
      else if site.exact.None? || site.TypeNone() then StepLoaded(site, cell, k)
      else if And(cell, TYPE_UNKNOWN) != 0 then cell
      else Or(cell, TYPE_UNKNOWN)
  }

  function StepLoaded(site: Site, cell: nat, k: nat): nat {
    var tmp := Xor(k, cell);
    if And(tmp, KLASS_MASK) == 0 then cell
    else if And(tmp, TYPE_UNKNOWN) != 0 then cell
    else if site.TypeNone() && (cell == 0 || cell == NULL_SEEN) then tmp
    else if site.TypeNone() && And(Xor(tmp, cell), KLASS_MASK) == 0 then cell
    else Or(cell, TYPE_UNKNOWN)
  }

  /** With nothing recorded at compile time this path only loads. */
  function StepNoConflict(site: Site, cell: nat): nat {
    if site.TypeNone() || And(cell, TYPE_UNKNOWN) != 0 then cell else Or(cell, TYPE_UNKNOWN)
  }

  /** The profile word, updated in place. */
  class TypeCell {
    var cell: nat

    constructor ()
      ensures cell == Summarize([]).Encode()
    {
      cell := 0;
    }

    method Profile(site: Site, e: Event)
      requires site.Allows(e)
      modifies this
      ensures cell == Step(site, old(cell), e)
    {
      hide And, Or, Xor;
      if e.Null? {
        if And(site.current, NULL_SEEN) == 0 {
          cell := Or(cell, NULL_SEEN);
        }
        return;
      }
      if site.Unknown() || site.ExactSet() {
        return;
      }
      if !site.noConflict {
        if site.exact.None? || site.TypeNone() {
          var klass := if site.exact.Some? then site.exact.value else e.klass;
          var tmp := Xor(klass, cell);
          if And(tmp, KLASS_MASK) == 0 || And(tmp, TYPE_UNKNOWN) != 0 {
            return;
          }
          if site.TypeNone() {
            if cell == 0 || cell == NULL_SEEN {
              cell := tmp;
              return;
            }
            tmp := Xor(tmp, cell);
            if And(tmp, KLASS_MASK) == 0 {
              return;
            }
          }
        } else if And(cell, TYPE_UNKNOWN) != 0 {
          return;
        }
        cell := Or(cell, TYPE_UNKNOWN);
      } else if !site.TypeNone() && And(cell, TYPE_UNKNOWN) == 0 {
        cell := Or(cell, TYPE_UNKNOWN);
      }
    }
  }

  // ---------------------------------------------------------------- facts about encoded summaries

  function UnknownBit(b: bool): nat {
    if b then TYPE_UNKNOWN else 0
  }

  function NullBit(b: bool): nat {
    if b then NULL_SEEN else 0
  }

  lemma ReadFacts(s: Summary)
    requires s.Ok()
    ensures s.Encode() < WORD
    ensures And(s.Encode(), NULL_SEEN) == NullBit(s.nulls)
    ensures And(s.Encode(), TYPE_UNKNOWN) == UnknownBit(s.unknown)
    ensures And(s.Encode(), KLASS_MASK) == s.klass
    ensures And(s.Encode(), TYPE_MASK) == s.klass + UnknownBit(s.unknown)
  {
    hide And;
    LowBits(s.Encode());
    ClearLow(s.Encode());
  }

  lemma ClearLow(x: nat)
    requires x < WORD
    ensures And(x, TYPE_MASK) == x - x % 2 && And(x, KLASS_MASK) == x - x % 4
  {
    hide And;
    Pow2At64();
    PowValues();
    AndClearLow(x, 1, 64);
    AndClearLow(x, 2, 64);
  }

  lemma SetFacts(s: Summary)
    requires s.Ok()
    ensures Or(s.Encode(), NULL_SEEN) == s.(nulls := true).Encode()
    ensures Or(s.Encode(), TYPE_UNKNOWN) == s.(unknown := true).Encode()
  {
    hide Or;
    LowBits(s.Encode());
  }

  lemma XorParts(s: Summary, k: nat)
    requires s.Ok() && IsKlass(k)
    ensures var tmp := Xor(k, s.Encode());
            && tmp < WORD && tmp - tmp % 4 == 4 * Xor(k / 4, s.klass / 4)
            && tmp % 4 == UnknownBit(s.unknown) + NullBit(s.nulls)
  {
    hide And, Or, Xor;
    var cell := s.Encode();
    assert cell / 4 == s.klass / 4 && cell % 4 == UnknownBit(s.unknown) + NullBit(s.nulls);
    XorAbove(k, cell);
    Pow2At64();
    XorBound(k, cell, 64);
  }

  lemma XorFacts(s: Summary, k: nat)
    requires s.Ok() && IsKlass(k)
    ensures And(Xor(k, s.Encode()), KLASS_MASK) == 0 <==> k == s.klass
    ensures And(Xor(k, s.Encode()), TYPE_UNKNOWN) == UnknownBit(s.unknown)
    ensures And(Xor(Xor(k, s.Encode()), s.Encode()), KLASS_MASK) == k
    ensures s.klass == 0 ==> Xor(k, s.Encode()) == Summary(k, false, s.nulls).Encode()
  {
    hide And, Or, Xor;
    var tmp := Xor(k, s.Encode());
    XorParts(s, k);
    XorCancel(k, s.Encode());
    XorZero(k / 4, s.klass / 4);
    XorNothing(k / 4);
    LowBits(tmp);
    ClearLow(tmp);
    ClearLow(k);
  }

  // ---------------------------------------------------------------- every step keeps the summary exact

  /** `s` extends `earlier`: what was recorded stays. */
  predicate Extends(s: Summary, earlier: Summary) {
    && (earlier.klass != 0 ==> s.klass == earlier.klass)
    && (earlier.unknown ==> s.unknown)
    && (earlier.nulls ==> s.nulls)
  }

  /** The one case that records nothing: no conflict promised, nothing known at compile time. */
  predicate Forgets(site: Site, s: Summary, e: Event) {
    site.noConflict && site.current <= NULL_SEEN && e.Obj? && s.klass != e.klass && !s.unknown
  }

  /** Code compiled against any earlier state of the word keeps it an exact summary, except exactly
      where the no-conflict path forgets. */
  lemma StepExact(site: Site, earlier: Summary, s: Summary, e: Event)
    requires s.Ok() && earlier.Ok() && Extends(s, earlier) && site.current == earlier.Encode()
    requires site.Ok() && site.Allows(e)
    ensures Step(site, s.Encode(), e) == Add(s, e).Encode() <==> !Forgets(site, s, e)
  {
    hide And, Or, Xor;
    ReadFacts(s);
    ReadFacts(earlier);
    SetFacts(s);
    match e {
      case Null =>
        if earlier.nulls {
          assert s.(nulls := true) == s;
        }
      case Obj(k) =>
        ObjExact(site, earlier, s, k);
    }
  }

  lemma ObjExact(site: Site, earlier: Summary, s: Summary, k: nat)
    requires s.Ok() && earlier.Ok() && Extends(s, earlier) && site.current == earlier.Encode()
    requires site.Ok() && site.Allows(Obj(k))
    ensures Step(site, s.Encode(), Obj(k)) == Add(s, Obj(k)).Encode() <==> !Forgets(site, s, Obj(k))
  {
    hide And, Or, Xor;
    ReadFacts(s);
    ReadFacts(earlier);
    SetFacts(s);
    XorFacts(s, k);
    ReadFacts(Add(s, Obj(k)));
    if s.klass != k && s.klass != 0 {
      assert s.unknown ==> s.(unknown := true) == s;
    }
    if s.klass == 0 {
      assert s.(klass := k) == Summary(k, false, s.nulls);
    }
  }

  // ---------------------------------------------------------------- whole histories

  /** One object profiled by code compiled when the first `compiledAfter` objects had been seen. */
  datatype Execution = Execution(site: Site, compiledAfter: nat, event: Event)

  function Events(xs: seq<Execution>): (h: seq<Event>)
    ensures |h| == |xs|
    ensures forall i | 0 <= i < |xs| :: h[i] == xs[i].event
  {
    seq(|xs|, i requires 0 <= i < |xs| => xs[i].event)
  }

  function Run(xs: seq<Execution>): nat {
    if xs == [] then 0 else Step(xs[|xs| - 1].site, Run(xs[..|xs| - 1]), xs[|xs| - 1].event)
  }

  /** The site was compiled against the word then in the cell, and its promises hold. */
  predicate ExecutionOk(xs: seq<Execution>, i: nat)
    requires i < |xs|
  {
    && xs[i].compiledAfter <= i
    && xs[i].site.Ok()
    && xs[i].site.Allows(xs[i].event)
    && xs[i].site.current == Run(xs[..xs[i].compiledAfter])
  }

  lemma SummaryOk(history: seq<Event>)
    requires EventsOk(history)
    ensures Summarize(history).Ok()
  {
  }

  lemma {:induction false} SummaryExtends(history: seq<Event>, n: nat)
    requires n <= |history| && EventsOk(history)
    ensures Extends(Summarize(history), Summarize(history[..n]))
    decreases |history| - n
  {
    if n == |history| {
      assert history[..n] == history;
    } else {
      SummaryExtends(history, n + 1);
      assert history[..n + 1][..n] == history[..n];
    }
  }

  /** The word after the first `n` executions is the exact summary of their objects. */
  predicate ExactAfter(xs: seq<Execution>, n: nat)
    requires n <= |xs|
  {
    Run(xs[..n]) == Summarize(Events(xs)[..n]).Encode()
  }

  predicate ForgetsAt(xs: seq<Execution>, i: nat)
    requires i < |xs|
  {
    Forgets(xs[i].site, Summarize(Events(xs)[..i]), xs[i].event)
  }

  /** From an exact word, and compiled against an exact word, an execution leaves an exact word if and only
      if it does not forget. */
  lemma ExecutionExact(xs: seq<Execution>, i: nat)
    requires i < |xs| && ExecutionOk(xs, i) && (forall j | 0 <= j < |xs| :: ExecutionOk(xs, j))
    requires ExactAfter(xs, i) && ExactAfter(xs, xs[i].compiledAfter)
    ensures ExactAfter(xs, i + 1) <==> !ForgetsAt(xs, i)
  {
    hide Step, Forgets;
    var h := Events(xs);
    var before, n := h[..i], xs[i].compiledAfter;
    assert ExecutionOk(xs, i);
    assert EventsOk(h) by {
      forall j | 0 <= j < |h| && h[j].Obj? ensures IsKlass(h[j].klass) {
        assert ExecutionOk(xs, j);
      }
    }
    assert before[..n] == h[..n];
    SummaryOk(before);
    SummaryOk(h[..n]);
    SummaryExtends(before, n);
    StepExact(xs[i].site, Summarize(h[..n]), Summarize(before), xs[i].event);
    assert h[..i + 1][..i] == before;
    assert xs[..i + 1][..i] == xs[..i];
  }

  /** Whatever the cell held when the sites were compiled, the word is the exact summary of all objects
      seen so far as long as no execution was in the forgetful case. */
  lemma {:induction false} RunExact(xs: seq<Execution>, n: nat)
    requires n <= |xs| && (forall j | 0 <= j < |xs| :: ExecutionOk(xs, j))
    requires forall i | 0 <= i < n :: !ForgetsAt(xs, i)
    ensures forall i | 0 <= i <= n :: ExactAfter(xs, i)
  {
    if n == 0 {
      assert xs[..0] == [] && Events(xs)[..0] == [];
    } else {
      hide ForgetsAt, ExactAfter;
      RunExact(xs, n - 1);
      assert ExecutionOk(xs, n - 1);
      ExecutionExact(xs, n - 1);
    }
  }

  /** The word is exact after every execution if and only if none of them forgets. */
  lemma AlwaysExactIff(xs: seq<Execution>)
    requires forall j | 0 <= j < |xs| :: ExecutionOk(xs, j)
    ensures (forall n | 0 <= n <= |xs| :: ExactAfter(xs, n)) <==> forall i | 0 <= i < |xs| :: !ForgetsAt(xs, i)
  {
    hide ForgetsAt, ExactAfter;
    if forall i | 0 <= i < |xs| :: !ForgetsAt(xs, i) {
      RunExact(xs, |xs|);
    } else if forall n | 0 <= n <= |xs| :: ExactAfter(xs, n) {
      var i :| 0 <= i < |xs| && ForgetsAt(xs, i);
      assert ExecutionOk(xs, i);
      ExecutionExact(xs, i);
    }
  }

  /** The first object, of whatever klass, is forgotten when one possible klass is promised. */
  lemma FirstKlassForgotten(k: nat)
    requires IsKlass(k)
    ensures var xs := [Execution(Site(Some(k), 0, false, true), 0, Obj(k))];
            && ExecutionOk(xs, 0) && ForgetsAt(xs, 0)
            && Run(xs) == 0 && Summarize(Events(xs)).Encode() == k
  {
    var xs := [Execution(Site(Some(k), 0, false, true), 0, Obj(k))];
    assert xs[..0] == [] && Events(xs) == [Obj(k)] && Events(xs)[..0] == [];
    assert Run(xs[..0]) == 0;
    assert Summarize([Obj(k)][..0]) == Summary(0, false, false);
  }

  /** The running summary means what it should. */
  lemma {:induction false} SummaryMeaning(history: seq<Event>)
    requires EventsOk(history)
    ensures IsSummaryOf(Summarize(history), history)
  {
    if history == [] {
    } else {
      var before, e := history[..|history| - 1], history[|history| - 1];
      SummaryMeaning(before);
      assert history == before + [e];
      AddMeaning(Summarize(before), before, e);
    }
  }

  lemma NullsGrow(h: seq<Event>, e: Event)
    ensures SawNull(h + [e]) <==> SawNull(h) || e.Null?
    ensures AllNull(h + [e]) <==> AllNull(h) && e.Null?
  {
    var g := h + [e];
    assert g[|h|] == e;
    assert forall i | 0 <= i < |h| :: g[i] == h[i];
  }

  lemma FirstGrows(h: seq<Event>, e: Event, k: nat)
    ensures FirstKlass(h, k) ==> FirstKlass(h + [e], k)
    ensures AllNull(h) && e == Obj(k) ==> FirstKlass(h + [e], k)
  {
    var g := h + [e];
    if i :| 0 <= i < |h| && h[i] == Obj(k) && AllNull(h[..i]) {
      assert g[i] == h[i] && g[..i] == h[..i];
    }
    if AllNull(h) && e == Obj(k) {
      assert g[|h|] == e && g[..|h|] == h;
    }
  }

  lemma ConflictGrows(h: seq<Event>, e: Event)
    ensures Conflict(h + [e]) <==> Conflict(h) || (e.Obj? && SawOther(h, e.klass))
  {
    var g := h + [e];
    assert g[|h|] == e;
    assert forall i | 0 <= i < |h| :: g[i] == h[i];
    if Conflict(h) {
      var i, j :| 0 <= i < |h| && 0 <= j < |h| && h[i].Obj? && h[j].Obj? && h[i].klass != h[j].klass;
      assert g[i].klass != g[j].klass;
    }
    if e.Obj? && SawOther(h, e.klass) {
      var i :| 0 <= i < |h| && h[i].Obj? && h[i].klass != e.klass;
      assert g[i].klass != g[|h|].klass;
    }
  }

  /** With first klass `k`, another klass than `m` was seen exactly when `k` differs or there is a
      conflict. */
  lemma OtherThanFirst(h: seq<Event>, k: nat, m: nat)
    requires FirstKlass(h, k)
    ensures SawOther(h, m) ==> k != m || Conflict(h)
    ensures k != m ==> SawOther(h, m)
  {
  }

  lemma NoneSeen(h: seq<Event>, m: nat)
    requires AllNull(h)
    ensures !SawOther(h, m) && !Conflict(h)
  {
  }

  lemma AddMeaning(s: Summary, h: seq<Event>, e: Event)
    requires IsSummaryOf(s, h) && EventsOk(h + [e])
    ensures IsSummaryOf(Add(s, e), h + [e])
  {
    hide SawNull, AllNull, FirstKlass, SawOther, Conflict;
    assert (h + [e])[|h|] == e;
    NullsGrow(h, e);
    ConflictGrows(h, e);
    FirstGrows(h, e, s.klass);
    if e.Obj? {
      FirstGrows(h, e, e.klass);
      if s.klass == 0 {
        NoneSeen(h, e.klass);
      } else {
        OtherThanFirst(h, s.klass, e.klass);
      }
    }
  }
}
