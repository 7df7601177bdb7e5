/** Virtual-call profiling: receiver rows with counts, and a counter for the polymorphic rest. */
module ReceiverProfile {
  import opened Bits

  datatype Profile = Profile(receivers: seq<nat>, counts: seq<nat>, poly: nat)

  function Increment(count: nat): (r: nat)
    ensures r < WORD
  {
    (count + 1) % WORD
  }

  /** First row holding `x`, or the number of rows. */
  function IndexOf(s: seq<nat>, x: nat): (i: nat)
    ensures i <= |s| && x !in s[..i] && (i < |s| ==> s[i] == x)
  {
    if s == [] || s[0] == x then 0
    else
      var j := IndexOf(s[1..], x);
      assert s[..1 + j] == [s[0]] + s[1..][..j];
      1 + j
  }

  /** One profiled call: the matching row, else the first empty row, else the counter. */
  function Step(p: Profile, recv: nat): Profile
    requires |p.receivers| == |p.counts|
  {
    var i, e := IndexOf(p.receivers, recv), IndexOf(p.receivers, 0);
    if i < |p.receivers| then p.(counts := p.counts[i := Increment(p.counts[i])])
    else if e < |p.receivers| then p.(receivers := p.receivers[e := recv], counts := p.counts[e := 1])
    else p.(poly := Increment(p.poly))
  }

  /** The rows as type_profile_helper updates them. */
  class ReceiverData {
    var receivers: array<nat>
    var counts: array<nat>
    var poly: nat

    ghost predicate Valid()
      reads this
    {
      receivers.Length == counts.Length && receivers != counts
    }

    ghost function State(): Profile
      requires Valid()
      reads this, receivers, counts
    {
      Profile(receivers[..], counts[..], poly)
    }

    constructor (rowLimit: nat)
      ensures Valid() && State() == Empty(rowLimit)
    {
      receivers := new nat[rowLimit](_ => 0);
      counts := new nat[rowLimit](_ => 0);
      poly := 0;
    }

    /** A virtual call with a receiver of klass `recv`. */
    method ProfileCall(recv: nat)
      requires Valid() && recv != 0
      modifies this`poly, receivers, counts
      ensures Valid() && State() == Step(old(State()), recv)
    {
      var i := 0;
      while i < receivers.Length
        invariant 0 <= i <= receivers.Length && recv !in receivers[..i]
      {
        if receivers[i] == recv {
          IndexUnique(receivers[..], recv, i);
          counts[i] := Increment(counts[i]);
          return;
        }
        i := i + 1;
      }
      IndexUnique(receivers[..], recv, i);
      i := 0;
      while i < receivers.Length
        invariant 0 <= i <= receivers.Length && 0 !in receivers[..i]
      {
        if receivers[i] == 0 {
          IndexUnique(receivers[..], 0, i);
          receivers[i] := recv;
          counts[i] := 1;
          return;
        }
        i := i + 1;
      }
      IndexUnique(receivers[..], 0, i);
      poly := Increment(poly);
    }
  }

  lemma IndexUnique(s: seq<nat>, x: nat, i: nat)
    requires i <= |s| && x !in s[..i] && (i < |s| ==> s[i] == x)
    ensures IndexOf(s, x) == i
  {
  }

  function Empty(rowLimit: nat): Profile {
    Profile(seq(rowLimit, _ => 0), seq(rowLimit, _ => 0), 0)
  }

  function Run(rowLimit: nat, history: seq<nat>): (p: Profile)
    ensures |p.receivers| == |p.counts| == rowLimit
  {
    if history == [] then Empty(rowLimit)
    else Step(Run(rowLimit, history[..|history| - 1]), history[|history| - 1])
  }

  // ---------------------------------------------------------------- what the rows should hold

  /** The receivers of a history in order of first appearance. */
  function Distinct(history: seq<nat>): (d: seq<nat>)
    ensures forall x :: x in d <==> x in history
    ensures forall i, j | 0 <= i < j < |d| :: d[i] != d[j]
  {
    if history == [] then []
    else
      var d, x := Distinct(history[..|history| - 1]), history[|history| - 1];
      assert history == history[..|history| - 1] + [x];
      if x in d then d else d + [x]
  }

  function Calls(history: seq<nat>, x: nat): nat {
    if history == [] then 0
    else Calls(history[..|history| - 1], x) + if history[|history| - 1] == x then 1 else 0
  }

  /** Calls whose receiver is not among `rows`. */
  function Missed(history: seq<nat>, rows: seq<nat>): nat {
    if history == [] then 0
    else Missed(history[..|history| - 1], rows) + if history[|history| - 1] in rows then 0 else 1
  }

  function Rows(rowLimit: nat, history: seq<nat>): seq<nat> {
    var d := Distinct(history);
    if |d| <= rowLimit then d else d[..rowLimit]
  }

  ghost predicate Exact(p: Profile, rowLimit: nat, history: seq<nat>) {
    var rows := Rows(rowLimit, history);
    && |p.receivers| == |p.counts| == rowLimit
    && p.receivers[..|rows|] == rows
    && (forall i | |rows| <= i < rowLimit :: p.receivers[i] == 0 && p.counts[i] == 0)
    && (forall i | 0 <= i < |rows| :: p.counts[i] == Calls(history, rows[i]) % WORD)
    && p.poly == Missed(history, rows) % WORD
  }

  lemma CallsAbsent(history: seq<nat>, x: nat)
    requires x !in history
    ensures Calls(history, x) == 0
  {
  }

  lemma MissedAbsent(history: seq<nat>, rows: seq<nat>, x: nat)
    requires x !in history
    ensures Missed(history, rows + [x]) == Missed(history, rows)
  {
    if history != [] {
      MissedAbsent(history[..|history| - 1], rows, x);
    }
  }

  lemma IncrementMod(n: nat)
    ensures Increment(n % WORD) == (n + 1) % WORD
  {
  }

  lemma StepExact(p: Profile, rowLimit: nat, history: seq<nat>, recv: nat)
    requires Exact(p, rowLimit, history) && recv != 0 && 0 !in history
    ensures Exact(Step(p, recv), rowLimit, history + [recv])
  {
    hide Exact, Step, Rows;
    var rows := Rows(rowLimit, history);
    RowsDistinct(rowLimit, history);
    if i :| 0 <= i < |rows| && rows[i] == recv {
      HitExact(p, rowLimit, history, recv, i);
    } else if |rows| < rowLimit {
      FillExact(p, rowLimit, history, recv);
    } else {
      MissExact(p, rowLimit, history, recv);
    }
  }

  /** A new receiver takes a row exactly while there is room. */
  lemma RowsGrow(rowLimit: nat, history: seq<nat>, recv: nat)
    ensures var rows := Rows(rowLimit, history);
            Rows(rowLimit, history + [recv]) == if recv in rows || |rows| == rowLimit then rows else rows + [recv]
  {
  }

  lemma CountsGrow(history: seq<nat>, rows: seq<nat>, recv: nat)
    ensures forall x :: Calls(history + [recv], x) == Calls(history, x) + if x == recv then 1 else 0
    ensures Missed(history + [recv], rows) == Missed(history, rows) + if recv in rows then 0 else 1
  {
  }

  lemma HitExact(p: Profile, rowLimit: nat, history: seq<nat>, recv: nat, i: nat)
    requires Exact(p, rowLimit, history) && recv != 0 && 0 !in history
    requires i < |Rows(rowLimit, history)| && Rows(rowLimit, history)[i] == recv
    ensures Exact(Step(p, recv), rowLimit, history + [recv])
  {
    hide Rows, Calls, Missed;
    var rows := Rows(rowLimit, history);
    RowsGrow(rowLimit, history, recv);
    CountsGrow(history, rows, recv);
    RowsDistinct(rowLimit, history);
    assert forall j | 0 <= j < |rows| :: p.receivers[j] == p.receivers[..|rows|][j] == rows[j];
    IndexUnique(p.receivers, recv, i);
    IncrementMod(Calls(history, recv));
  }

  lemma RowsDistinct(rowLimit: nat, history: seq<nat>)
    ensures var rows := Rows(rowLimit, history);
            && |rows| <= rowLimit
            && (forall i, j | 0 <= i < j < |rows| :: rows[i] != rows[j])
            && (forall x | x in rows :: x in history)
            && (|rows| < rowLimit ==> forall x | x in history :: x in rows)
  {
  }

  /** The first empty row is filled: what the step does, from the rows' point of view. */
  lemma FillStep(p: Profile, rowLimit: nat, history: seq<nat>, recv: nat)
    requires Exact(p, rowLimit, history) && recv != 0 && 0 !in history
    requires recv !in Rows(rowLimit, history) && |Rows(rowLimit, history)| < rowLimit
    ensures var m := |Rows(rowLimit, history)|;
            Step(p, recv) == p.(receivers := p.receivers[m := recv], counts := p.counts[m := 1])
  {
    hide Rows, Calls, Missed, IndexOf;
    ExactIndex(p, rowLimit, history, recv);
  }

  lemma FillExact(p: Profile, rowLimit: nat, history: seq<nat>, recv: nat)
    requires Exact(p, rowLimit, history) && recv != 0 && 0 !in history
    requires recv !in Rows(rowLimit, history) && |Rows(rowLimit, history)| < rowLimit
    ensures Exact(Step(p, recv), rowLimit, history + [recv])
  {
    hide Rows, Calls, Missed, Step;
    var rows := Rows(rowLimit, history);
    var m := |rows|;
    FillStep(p, rowLimit, history, recv);
    RowsGrow(rowLimit, history, recv);
    RowsDistinct(rowLimit, history);
    CountsGrow(history, rows + [recv], recv);
    CallsAbsent(history, recv);
    MissedAbsent(history, rows, recv);
    assert Step(p, recv).receivers[..m + 1] == rows + [recv];
  }

  lemma MissExact(p: Profile, rowLimit: nat, history: seq<nat>, recv: nat)
    requires Exact(p, rowLimit, history) && recv != 0 && 0 !in history
    requires recv !in Rows(rowLimit, history) && |Rows(rowLimit, history)| == rowLimit
    ensures Exact(Step(p, recv), rowLimit, history + [recv])
  {
    hide Rows, Calls, Missed;
    var rows := Rows(rowLimit, history);
    RowsGrow(rowLimit, history, recv);
    RowsDistinct(rowLimit, history);
    CountsGrow(history, rows, recv);
    assert p.receivers[..rowLimit] == p.receivers;
    IndexUnique(p.receivers, recv, rowLimit);
    IndexUnique(p.receivers, 0, rowLimit);
    IncrementMod(Missed(history, rows));
  }

  /** After any history the rows hold the first `rowLimit` distinct receivers with their exact
      counts, and the counter holds the calls of all others. */
  lemma {:induction false} RowsExact(rowLimit: nat, history: seq<nat>)
    requires 0 !in history
    ensures Exact(Run(rowLimit, history), rowLimit, history)
  {
    if history == [] {
    } else {
      var before := history[..|history| - 1];
      RowsExact(rowLimit, before);
      StepExact(Run(rowLimit, before), rowLimit, before, history[|history| - 1]);
      assert history == before + [history[|history| - 1]];
    }
  }

  // ---------------------------------------------------------------- conservation

  function Sum(s: seq<nat>): nat {
    if s == [] then 0 else Sum(s[..|s| - 1]) + s[|s| - 1]
  }

  function Total(p: Profile): nat {
    (Sum(p.counts) + p.poly) % WORD
  }

  lemma SumUpdate(s: seq<nat>, i: nat, v: nat)
    requires i < |s|
    ensures Sum(s[i := v]) == Sum(s) - s[i] + v
  {
    var t := s[i := v];
    if i < |s| - 1 {
      SumUpdate(s[..|s| - 1], i, v);
      assert t[..|s| - 1] == s[..|s| - 1][i := v];
    } else {
      assert t[..|s| - 1] == s[..|s| - 1];
    }
  }

  lemma SumZeros(s: seq<nat>)
    requires forall i | 0 <= i < |s| :: s[i] == 0
    ensures Sum(s) == 0
  {
  }

  /** An empty row has no count yet. */
  predicate EmptyRowsZero(p: Profile) {
    && |p.receivers| == |p.counts|
    && forall i | 0 <= i < |p.receivers| && p.receivers[i] == 0 :: p.counts[i] == 0
  }

  lemma AddOne(sum: nat, rest: nat, count: nat)
    requires count <= sum
    ensures (sum - count + Increment(count) + rest) % WORD == (sum + rest + 1) % WORD
  {
  }

  lemma BumpRow(p: Profile, i: nat)
    requires i < |p.counts|
    ensures Total(p.(counts := p.counts[i := Increment(p.counts[i])])) == (Total(p) + 1) % WORD
  {
    hide Increment, Sum;
    SumUpdate(p.counts, i, Increment(p.counts[i]));
    SumAtLeast(p.counts, i);
    AddOne(Sum(p.counts), p.poly, p.counts[i]);
    IncrementIs(Sum(p.counts) + p.poly);
  }

  lemma BumpPoly(p: Profile)
    ensures Total(p.(poly := Increment(p.poly))) == (Total(p) + 1) % WORD
  {
    hide Increment, Sum;
    AddOne(Sum(p.counts) + p.poly, 0, p.poly);
    IncrementIs(Sum(p.counts) + p.poly);
  }

  lemma IncrementIs(n: nat)
    ensures (n % WORD + 1) % WORD == (n + 1) % WORD
  {
  }

  /** Every dynamically profiled call adds exactly one to the total. */
  lemma StepConserves(p: Profile, recv: nat)
    requires EmptyRowsZero(p) && recv != 0
    ensures EmptyRowsZero(Step(p, recv)) && Total(Step(p, recv)) == (Total(p) + 1) % WORD
  {
    hide Increment, Total;
    var i, e := IndexOf(p.receivers, recv), IndexOf(p.receivers, 0);
    if i < |p.receivers| {
      BumpRow(p, i);
    } else if e < |p.receivers| {
      BumpRow(p, e);
      IncrementMod(0);
      SameTotal(p.(counts := p.counts[e := 1]), Step(p, recv));
    } else {
      BumpPoly(p);
    }
  }

  lemma SameTotal(p: Profile, q: Profile)
    requires p.counts == q.counts && p.poly == q.poly
    ensures Total(p) == Total(q)
  {
  }

  lemma SumAtLeast(s: seq<nat>, i: nat)
    requires i < |s|
    ensures s[i] <= Sum(s)
  {
  }

  /** Row counts plus the polymorphic counter equal the number of calls, modulo the word size. */
  lemma {:induction false} CallsConserved(rowLimit: nat, history: seq<nat>)
    requires 0 !in history
    ensures EmptyRowsZero(Run(rowLimit, history)) && Total(Run(rowLimit, history)) == |history| % WORD
  {
    if history == [] {
      SumZeros(Run(rowLimit, history).counts);
    } else {
      var before := history[..|history| - 1];
      CallsConserved(rowLimit, before);
      StepConserves(Run(rowLimit, before), history[|history| - 1]);
      IncrementMod(|before|);
    }
  }

  // ---------------------------------------------------------------- statically known receivers

  /** The code compiled for a known klass when the profile was `seen`: a row chosen once and for all. */
  function KnownStep(seen: Profile, p: Profile, klass: nat): Profile
    requires |seen.receivers| == |p.receivers| == |p.counts|
  {
    var i, e := IndexOf(seen.receivers, klass), IndexOf(seen.receivers, 0);
    if i < |seen.receivers| then p.(counts := p.counts[i := Increment(p.counts[i])])
    else if e < |seen.receivers| then
      p.(receivers := p.receivers[e := klass], counts := p.counts[e := Increment(p.counts[e])])
    else p
  }

  function KnownRun(seen: Profile, p: Profile, klass: nat, calls: nat): (r: Profile)
    requires |seen.receivers| == |p.receivers| == |p.counts|
    ensures |r.receivers| == |r.counts| == |p.receivers|
  {
    if calls == 0 then p else KnownStep(seen, KnownRun(seen, p, klass, calls - 1), klass)
  }

  predicate HasRowFor(seen: Profile, klass: nat) {
    klass in seen.receivers || 0 in seen.receivers
  }

  lemma KnownStepConserves(seen: Profile, p: Profile, klass: nat)
    requires |seen.receivers| == |p.receivers| == |p.counts|
    ensures Total(KnownStep(seen, p, klass)) ==
            if HasRowFor(seen, klass) then (Total(p) + 1) % WORD else Total(p)
  {
    hide Increment, Total;
    var i, e := IndexOf(seen.receivers, klass), IndexOf(seen.receivers, 0);
    var k := if i < |seen.receivers| then i else e;
    assert HasRowFor(seen, klass) <==> k < |seen.receivers| by {
      assert seen.receivers[..|seen.receivers|] == seen.receivers;
    }
    if k < |seen.receivers| {
      BumpRow(p, k);
      SameTotal(p.(counts := p.counts[k := Increment(p.counts[k])]), KnownStep(seen, p, klass));
    }
  }

  lemma {:induction false} KnownRunTotal(seen: Profile, p: Profile, klass: nat, calls: nat)
    requires |seen.receivers| == |p.receivers| == |p.counts|
    ensures Total(KnownRun(seen, p, klass, calls)) ==
            if HasRowFor(seen, klass) then (Total(p) + calls) % WORD else Total(p)
  {
    if calls > 0 {
      KnownRunTotal(seen, p, klass, calls - 1);
      KnownStepConserves(seen, KnownRun(seen, p, klass, calls - 1), klass);
      IncrementMod(Total(p) + calls - 1);
    }
  }

  /** The row chosen at compile time. */
  function KnownRow(seen: Profile, klass: nat): nat {
    var i := IndexOf(seen.receivers, klass);
    if i < |seen.receivers| then i else IndexOf(seen.receivers, 0)
  }

  /** With a row for the klass, exactly that row changes: it counts the calls, and is given the klass
      unless it had it at compile time. */
  lemma {:induction false} KnownRowCounts(seen: Profile, p: Profile, klass: nat, calls: nat)
    requires |seen.receivers| == |p.receivers| == |p.counts| && KnownRow(seen, klass) < |p.counts| && calls > 0
    ensures var r, q := KnownRow(seen, klass), KnownRun(seen, p, klass, calls);
            && q.receivers == (if klass in seen.receivers then p.receivers else p.receivers[r := klass])
            && q.counts == p.counts[r := (p.counts[r] + calls) % WORD]
            && q.poly == p.poly
  {
    var r := KnownRow(seen, klass);
    assert seen.receivers[..|seen.receivers|] == seen.receivers;
    if calls == 1 {
      assert KnownRun(seen, p, klass, 0) == p;
    } else {
      KnownRowCounts(seen, p, klass, calls - 1);
      IncrementMod(p.counts[r] + calls - 1);
    }
  }

  /** With a known receiver the calls are counted exactly when the klass had a row, or an empty row
      was left, at compile time; otherwise they are all lost. */
  lemma KnownCountedExactly(seen: Profile, p: Profile, klass: nat)
    requires |seen.receivers| == |p.receivers| == |p.counts|
    ensures (forall calls: nat :: Total(KnownRun(seen, p, klass, calls)) == (Total(p) + calls) % WORD)
            <==> HasRowFor(seen, klass)
  {
    hide KnownRun, Total, HasRowFor;
    forall calls: nat
      ensures Total(KnownRun(seen, p, klass, calls)) ==
              if HasRowFor(seen, klass) then (Total(p) + calls) % WORD else Total(p)
    {
      KnownRunTotal(seen, p, klass, calls);
    }
    if !HasRowFor(seen, klass) {
      var t := Total(p);
      assert Total(KnownRun(seen, p, klass, 1)) == t;
      assert t != (t + 1) % WORD;
    }
  }

  // ---------------------------------------------------------------- dynamic and known calls mixed

  /** The row chosen at compile time is still the klass's own to take: empty, or already its row. */
  predicate RowFits(seen: Profile, p: Profile, klass: nat)
    requires |seen.receivers| == |p.receivers|
  {
    var r := KnownRow(seen, klass);
    r < |p.receivers| && (p.receivers[r] == 0 || p.receivers[r] == klass)
  }

  lemma {:induction false} RowsExtend(rowLimit: nat, g: seq<nat>, h: seq<nat>)
    requires g <= h
    ensures Rows(rowLimit, g) <= Rows(rowLimit, h)
    decreases |h|
  {
    hide Rows;
    if |g| < |h| {
      var before := h[..|h| - 1];
      RowsExtend(rowLimit, g, before);
      RowsGrow(rowLimit, before, h[|h| - 1]);
      assert h == before + [h[|h| - 1]];
    } else {
      assert g == h;
    }
  }

  /** In an exact profile the first empty row follows the rows in use. */
  lemma ExactIndex(p: Profile, rowLimit: nat, h: seq<nat>, x: nat)
    requires Exact(p, rowLimit, h) && 0 !in h
    ensures x != 0 ==> IndexOf(p.receivers, x) ==
                       (if x in Rows(rowLimit, h) then IndexOf(Rows(rowLimit, h), x) else rowLimit)
    ensures IndexOf(p.receivers, 0) == |Rows(rowLimit, h)|
  {
    hide Rows, Calls, Missed;
    var rows := Rows(rowLimit, h);
    RowsDistinct(rowLimit, h);
    assert forall j | 0 <= j < |rows| :: p.receivers[j] == p.receivers[..|rows|][j] == rows[j];
    IndexUnique(p.receivers, 0, |rows|);
    if x != 0 {
      if x in rows {
        var k := IndexOf(rows, x);
        assert rows[..|rows|] == rows;
        assert p.receivers[..k] == rows[..k];
        IndexUnique(p.receivers, x, k);
      } else {
        IndexUnique(p.receivers, x, rowLimit);
      }
    }
  }

  lemma FittingKnownStep(seen: Profile, p: Profile, rowLimit: nat, g: seq<nat>, h: seq<nat>, klass: nat)
    requires Exact(seen, rowLimit, g) && Exact(p, rowLimit, h) && g <= h && 0 !in h && klass != 0
    requires RowFits(seen, p, klass)
    ensures KnownStep(seen, p, klass) == Step(p, klass)
  {
    hide Rows, Calls, Missed, IndexOf, Increment;
    var pr, r := Rows(rowLimit, h), KnownRow(seen, klass);
    FittingRow(seen, p, rowLimit, g, h, klass);
    ExactIndex(p, rowLimit, h, klass);
    if klass in pr {
      assert p.receivers[r := klass] == p.receivers;
    } else {
      FirstCount();
    }
  }

  lemma FirstCount()
    ensures Increment(0) == 1
  {
  }

  /** The row compiled in is the one the dynamic code would pick. */
  lemma FittingRow(seen: Profile, p: Profile, rowLimit: nat, g: seq<nat>, h: seq<nat>, klass: nat)
    requires Exact(seen, rowLimit, g) && Exact(p, rowLimit, h) && g <= h && 0 !in h && klass != 0
    requires RowFits(seen, p, klass)
    ensures var pr, r := Rows(rowLimit, h), KnownRow(seen, klass);
            if klass in pr then r < |pr| && r == IndexOf(pr, klass) && p.receivers[r] == klass
            else r == |pr| < rowLimit && IndexOf(seen.receivers, klass) == rowLimit && IndexOf(seen.receivers, 0) == r
  {
    hide Calls, Missed, IndexOf, Rows;
    var sr, pr, r := Rows(rowLimit, g), Rows(rowLimit, h), KnownRow(seen, klass);
    RowsExtend(rowLimit, g, h);
    RowsDistinct(rowLimit, g);
    RowsDistinct(rowLimit, h);
    ExactIndex(seen, rowLimit, g, klass);
    assert forall j | 0 <= j < |pr| :: p.receivers[j] == p.receivers[..|pr|][j] == pr[j] && pr[j] in pr;
    if klass in sr {
      assert sr[..|sr|] == sr;
      assert pr[r] == sr[r] == klass;
    }
    if r < |pr| {
      assert klass !in pr[..r];
      IndexUnique(pr, klass, r);
    }
  }

  lemma MisfitKnownStep(seen: Profile, p: Profile, rowLimit: nat, g: seq<nat>, h: seq<nat>, klass: nat)
    requires Exact(seen, rowLimit, g) && Exact(p, rowLimit, h) && g <= h && 0 !in h && klass != 0
    requires !RowFits(seen, p, klass)
    ensures !Exact(KnownStep(seen, p, klass), rowLimit, h + [klass])
  {
    hide Rows, Calls, Missed;
    var sr, pr := Rows(rowLimit, g), Rows(rowLimit, h);
    RowsExtend(rowLimit, g, h);
    RowsDistinct(rowLimit, g);
    RowsDistinct(rowLimit, h);
    ExactIndex(seen, rowLimit, g, klass);
    RowsGrow(rowLimit, h, klass);
    assert forall j | 0 <= j < |pr| :: p.receivers[j] == p.receivers[..|pr|][j] == pr[j];
    var q, r, rows := KnownStep(seen, p, klass), KnownRow(seen, klass), Rows(rowLimit, h + [klass]);
    if r < rowLimit {
      assert r < |pr| && rows[r] == pr[r] != klass;
      assert q.receivers[..|rows|][r] == klass;
    } else {
      assert sr == pr;
      CountsGrow(h, pr, klass);
      NextDiffers(Missed(h, pr));
    }
  }

  lemma NextDiffers(n: nat)
    ensures n % WORD != (n + 1) % WORD
  {
    IncrementMod(n);
  }

  /** A call profiled by the emitted dynamic code, or by code compiled for a known klass when the
      first `compiledAfter` calls had been made. */
  datatype Call = Dynamic(klass: nat) | Known(klass: nat, compiledAfter: nat)

  predicate CallsOk(calls: seq<Call>) {
    forall i | 0 <= i < |calls| :: calls[i].klass != 0 && (calls[i].Known? ==> calls[i].compiledAfter <= i)
  }

  function Receivers(calls: seq<Call>): (h: seq<nat>)
    ensures |h| == |calls| && forall i | 0 <= i < |calls| :: h[i] == calls[i].klass
  {
    seq(|calls|, i requires 0 <= i < |calls| => calls[i].klass)
  }

  function MixedRun(rowLimit: nat, calls: seq<Call>): (p: Profile)
    requires CallsOk(calls)
    ensures |p.receivers| == |p.counts| == rowLimit
    decreases |calls|
  {
    if calls == [] then Empty(rowLimit)
    else
      var n := |calls| - 1;
      var p := MixedRun(rowLimit, calls[..n]);
      match calls[n]
      case Dynamic(klass) => Step(p, klass)
      case Known(klass, m) => KnownStep(MixedRun(rowLimit, calls[..m]), p, klass)
  }

  /** Call `i` finds the row it was compiled for still empty or its own. */
  predicate Fitting(rowLimit: nat, calls: seq<Call>, i: nat)
    requires CallsOk(calls) && i < |calls|
  {
    calls[i].Known? ==>
      RowFits(MixedRun(rowLimit, calls[..calls[i].compiledAfter]), MixedRun(rowLimit, calls[..i]), calls[i].klass)
  }

  ghost predicate ExactAfter(rowLimit: nat, calls: seq<Call>, n: nat)
    requires CallsOk(calls) && n <= |calls|
  {
    Exact(MixedRun(rowLimit, calls[..n]), rowLimit, Receivers(calls)[..n])
  }

  lemma MixedStep(rowLimit: nat, calls: seq<Call>, i: nat)
    requires CallsOk(calls) && i < |calls|
    ensures var p, q := MixedRun(rowLimit, calls[..i]), MixedRun(rowLimit, calls[..i + 1]);
            if calls[i].Dynamic? then q == Step(p, calls[i].klass)
            else q == KnownStep(MixedRun(rowLimit, calls[..calls[i].compiledAfter]), p, calls[i].klass)
  {
    hide Step, KnownStep;
    var prefix := calls[..i + 1];
    assert prefix[..i] == calls[..i];
    if calls[i].Known? {
      assert prefix[..calls[i].compiledAfter] == calls[..calls[i].compiledAfter];
    }
  }

  /** From exact rows a call leaves exact rows if and only if it is fitting. */
  lemma CallExact(rowLimit: nat, calls: seq<Call>, i: nat)
    requires CallsOk(calls) && i < |calls| && ExactAfter(rowLimit, calls, i)
    requires calls[i].Known? ==> ExactAfter(rowLimit, calls, calls[i].compiledAfter)
    ensures ExactAfter(rowLimit, calls, i + 1) <==> Fitting(rowLimit, calls, i)
  {
    hide Exact, Step, KnownStep, MixedRun, RowFits;
    var all := Receivers(calls);
    var h, p := all[..i], MixedRun(rowLimit, calls[..i]);
    MixedStep(rowLimit, calls, i);
    assert all[..i + 1] == h + [calls[i].klass];
    match calls[i] {
      case Dynamic(klass) => StepExact(p, rowLimit, h, klass);
      case Known(klass, m) =>
        var seen, g := MixedRun(rowLimit, calls[..m]), all[..m];
        assert g <= h;
        if RowFits(seen, p, klass) {
          FittingKnownStep(seen, p, rowLimit, g, h, klass);
          StepExact(p, rowLimit, h, klass);
        } else {
          MisfitKnownStep(seen, p, rowLimit, g, h, klass);
        }
    }
  }

  lemma {:induction false} FittingCallsExact(rowLimit: nat, calls: seq<Call>, n: nat)
    requires CallsOk(calls) && n <= |calls| && forall i | 0 <= i < n :: Fitting(rowLimit, calls, i)
    ensures forall i | 0 <= i <= n :: ExactAfter(rowLimit, calls, i)
  {
    hide Fitting, ExactAfter;
    if n == 0 {
      StartExact(rowLimit, calls);
    } else {
      FittingCallsExact(rowLimit, calls, n - 1);
      CallExact(rowLimit, calls, n - 1);
    }
  }

  lemma StartExact(rowLimit: nat, calls: seq<Call>)
    requires CallsOk(calls)
    ensures ExactAfter(rowLimit, calls, 0)
  {
    RowsExact(rowLimit, []);
  }

  /** Over any history of dynamic and known calls the rows are exact after every call if and only if
      each known call finds the row it was compiled for still empty or its own; otherwise the row of
      another receiver is overwritten, or the call is lost. */
  lemma MixedRowsExactIff(rowLimit: nat, calls: seq<Call>)
    requires CallsOk(calls)
    ensures (forall n | 0 <= n <= |calls| :: ExactAfter(rowLimit, calls, n))
            <==> forall i | 0 <= i < |calls| :: Fitting(rowLimit, calls, i)
  {
    hide Fitting, ExactAfter;
    if forall i | 0 <= i < |calls| :: Fitting(rowLimit, calls, i) {
      FittingCallsExact(rowLimit, calls, |calls|);
    } else if forall n | 0 <= n <= |calls| :: ExactAfter(rowLimit, calls, n) {
      var i :| 0 <= i < |calls| && !Fitting(rowLimit, calls, i);
      CallExact(rowLimit, calls, i);
    }
  }

  /** With one row: a call compiled for `known` before `other` took the row counts both receivers there. */
  lemma OverwrittenRow(other: nat, known: nat)
    requires other != 0 && known != 0 && other != known
    ensures var calls := [Dynamic(other), Known(known, 0)];
            && CallsOk(calls)
            && MixedRun(1, calls).receivers == [known] && MixedRun(1, calls).counts == [2]
            && !Fitting(1, calls, 1) && !ExactAfter(1, calls, 2)
  {
    var calls := [Dynamic(other), Known(known, 0)];
    assert calls[..0] == [] && calls[..1] == [Dynamic(other)] && calls[..2] == calls;
    assert !ExactAfter(1, calls, 2) by {
      hide Step, KnownStep, ExactAfter;
      StartExact(1, calls);
      CallExact(1, calls, 0);
      CallExact(1, calls, 1);
    }
  }
}
