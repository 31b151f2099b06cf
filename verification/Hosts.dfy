/**
 What the stack machine does on any depth list, well nested or not: which shell each hole is
 given to, what is dropped, and what stands on the stack at every moment.
 */
module Hosts {
  import opened ShellStack

  predicate Even(d: int) {
    d % 2 == 0
  }

  /** Loop `j` encloses loop `k`: everything after `j` up to and including `k` is deeper than `j`. */
  ghost predicate Encloses(d: seq<int>, j: nat, k: nat) {
    j < k < |d| && forall i :: j < i <= k ==> d[j] < d[i]
  }

  /** The nearest shell that encloses `k`. */
  ghost predicate IsHost(d: seq<int>, j: nat, k: nat) {
    Encloses(d, j, k) && Even(d[j]) && forall i :: j < i < k && Even(d[i]) ==> !Encloses(d, i, k)
  }

  /** Shell `j` is still open after the first `n` loops: nothing since is as shallow. */
  ghost predicate OpenAt(d: seq<int>, j: nat, n: nat) {
    j < n <= |d| && Even(d[j]) && forall i :: j < i < n ==> d[j] < d[i]
  }

  /** The holes shell `j` has been given after `n` loops, in list order. */
  ghost function HolesOf(d: seq<int>, j: nat, n: nat): seq<nat>
    requires n <= |d|
  {
    if n == 0 then []
    else HolesOf(d, j, n - 1) + if !Even(d[n - 1]) && IsHost(d, j, n - 1) then [n - 1] else []
  }

  /** One polygon for each even-depth loop, in list order, with the odd-depth loops it hosts. */
  ghost function Ledger(d: seq<int>, n: nat, upTo: nat): seq<GeoPoly<nat>>
    requires n <= |d| && upTo <= |d|
  {
    if n == 0 then []
    else Ledger(d, n - 1, upTo) + if Even(d[n - 1]) then [GeoPoly(n - 1, HolesOf(d, n - 1, upTo))] else []
  }

  /** The loops named by their positions. */
  function Positions(d: seq<int>): (items: seq<Item<nat>>)
    ensures |items| == |d| && forall k :: 0 <= k < |d| ==> items[k] == Item(d[k], k)
  {
    seq(|d|, k requires 0 <= k < |d| => Item(d[k], k))
  }

  function FinishAll<R>(stack: seq<ShellBuilder<R>>): (polys: seq<GeoPoly<R>>)
    ensures |polys| == |stack|
  {
    seq(|stack|, t requires 0 <= t < |stack| => Finished(stack[t]))
  }

  ghost predicate OnStack(s: State<nat>, j: nat) {
    exists t :: 0 <= t < |s.stack| && s.stack[t].exterior == j
  }

  /**
   The state after `n` loops: result and stack together hold one polygon per shell, and the
   stack holds the open shells, in order; those at depth `cut` or deeper may have been flushed.
   */
  ghost predicate StateAt(d: seq<int>, s: State<nat>, n: nat, cut: int) {
    && n <= |d|
    && multiset(s.result + FinishAll(s.stack)) == multiset(Ledger(d, n, n))
    && (forall t :: 0 <= t < |s.stack| ==> BuilderAt(d, s.stack[t], n))
    && (forall t, u :: 0 <= t < u < |s.stack| ==> s.stack[t].exterior < s.stack[u].exterior)
    && (forall j: nat :: OpenAt(d, j, n) && d[j] < cut ==> OnStack(s, j))
  }

  ghost predicate BuilderAt(d: seq<int>, sb: ShellBuilder<nat>, n: nat) {
    OpenAt(d, sb.exterior, n) && sb.depth == d[sb.exterior] && sb.holes == HolesOf(d, sb.exterior, n)
  }

  lemma StackDepthsRise(d: seq<int>, s: State<nat>, n: nat, cut: int, t: nat, u: nat)
    requires StateAt(d, s, n, cut) && t < u < |s.stack|
    ensures s.stack[t].depth < s.stack[u].depth
  {
    assert BuilderAt(d, s.stack[t], n) && BuilderAt(d, s.stack[u], n);
    assert s.stack[t].exterior < s.stack[u].exterior;
  }

  lemma PopKeeps(d: seq<int>, s: State<nat>, n: nat, cut: int)
    requires StateAt(d, s, n, cut) && s.stack != [] && s.stack[|s.stack| - 1].depth >= cut
    ensures StateAt(d, Pop(s), n, cut)
  {
    PopMoves(s);
    forall j: nat | OpenAt(d, j, n) && d[j] < cut ensures OnStack(Pop(s), j) {
      hide StateAt, Ledger, HolesOf, FinishAll;
      StillOnStack(d, s, n, cut, j);
    }
    hide Ledger, HolesOf, FinishAll, OpenAt;
  }

  lemma StillOnStack(d: seq<int>, s: State<nat>, n: nat, cut: int, j: nat)
    requires StateAt(d, s, n, cut) && s.stack != [] && s.stack[|s.stack| - 1].depth >= cut
    requires OpenAt(d, j, n) && d[j] < cut
    ensures OnStack(Pop(s), j)
  {
    hide Ledger, HolesOf, FinishAll;
    assert OnStack(s, j);
    var t :| 0 <= t < |s.stack| && s.stack[t].exterior == j;
    assert BuilderAt(d, s.stack[t], n);
    assert Pop(s).stack[t].exterior == j;
  }

  lemma PopMoves<R>(s: State<R>)
    requires s.stack != []
    ensures multiset(Pop(s).result + FinishAll(Pop(s).stack)) == multiset(s.result + FinishAll(s.stack))
  {
    var top, init := s.stack[|s.stack| - 1], s.stack[..|s.stack| - 1];
    var rest, one := FinishAll(init), [Finished(top)];
    assert FinishAll(s.stack) == rest + one;
    hide FinishAll;
    assert multiset(s.result + one + rest) == multiset(s.result) + multiset(one) + multiset(rest);
    assert multiset(s.result + (rest + one)) == multiset(s.result) + multiset(rest) + multiset(one);
  }

  lemma {:induction false} FlushKeeps(d: seq<int>, s: State<nat>, n: nat, cut: int)
    requires StateAt(d, s, n, cut)
    ensures StateAt(d, Flush(s, cut), n, cut)
    ensures AllShallower(Flush(s, cut).stack, cut)
    decreases |s.stack|
  {
    hide StateAt, FinishAll;
    if s.stack != [] {
      var top := |s.stack| - 1;
      if s.stack[top].depth >= cut {
        PopKeeps(d, s, n, cut);
        FlushKeeps(d, Pop(s), n, cut);
      } else {
        forall t | 0 <= t < top ensures s.stack[t].depth < cut {
          StackDepthsRise(d, s, n, cut, t, top);
        }
      }
    }
  }

  // ----- one loop read -----

  /** Reading a loop changes only the holes of its host. */
  lemma {:induction false} LedgerNext(d: seq<int>, m: nat, n: nat)
    requires m <= n < |d|
    ensures |Ledger(d, m, n)| == |Ledger(d, m, n + 1)|
    ensures forall t :: 0 <= t < |Ledger(d, m, n)| ==>
      && Ledger(d, m, n)[t].exterior < m
      && Ledger(d, m, n + 1)[t] == GeoPoly(Ledger(d, m, n)[t].exterior, HolesOf(d, Ledger(d, m, n)[t].exterior, n + 1))
      && Ledger(d, m, n)[t] == GeoPoly(Ledger(d, m, n)[t].exterior, HolesOf(d, Ledger(d, m, n)[t].exterior, n))
    ensures forall t, u :: 0 <= t < u < |Ledger(d, m, n)| ==> Ledger(d, m, n)[t].exterior < Ledger(d, m, n)[u].exterior
  {
    hide HolesOf, IsHost;
    if m > 0 {
      LedgerNext(d, m - 1, n);
    }
  }

  lemma {:induction false} FindInLedger(d: seq<int>, m: nat, n: nat, j: nat) returns (t: nat)
    requires j < m <= |d| && n <= |d| && Even(d[j])
    ensures t < |Ledger(d, m, n)| && Ledger(d, m, n)[t] == GeoPoly(j, HolesOf(d, j, n))
  {
    hide HolesOf;
    if j == m - 1 {
      t := |Ledger(d, m - 1, n)|;
    } else {
      t := FindInLedger(d, m - 1, n, j);
    }
  }

  lemma OpenNext(d: seq<int>, j: nat, n: nat)
    requires n < |d|
    ensures OpenAt(d, j, n + 1) <==> (j == n && Even(d[n])) || (OpenAt(d, j, n) && d[j] < d[n])
    ensures OpenAt(d, j, n) && d[j] < d[n] <==> Even(if j < |d| then d[j] else 1) && Encloses(d, j, n)
  {
  }

  lemma {:induction false} NoHolesYet(d: seq<int>, j: nat, n: nat)
    requires n <= j + 1 && n <= |d|
    ensures HolesOf(d, j, n) == []
  {
    if n > 0 {
      NoHolesYet(d, j, n - 1);
    }
  }

  /** A loop that is nobody's hole leaves the other shells' holes alone. */
  lemma HolesUnchanged(d: seq<int>, j: nat, n: nat)
    requires n < |d| && (Even(d[n]) || !IsHost(d, j, n))
    ensures HolesOf(d, j, n + 1) == HolesOf(d, j, n)
  {
  }

  /** A shell: it opens on top of the flushed stack. */
  lemma ReadShell(d: seq<int>, f: State<nat>, n: nat, cut: int)
    requires n < |d| && Even(d[n]) && StateAt(d, f, n, d[n]) && AllShallower(f.stack, d[n])
    ensures StateAt(d, f.(stack := f.stack + [ShellBuilder(n, [], d[n])]), n + 1, cut)
  {
    hide Ledger, HolesOf, IsHost, Encloses;
    var sb := ShellBuilder(n, [], d[n]);
    var g := f.(stack := f.stack + [sb]);
    NoHolesYet(d, n, n + 1);
    SameLedger(d, n);
    LedgerPush(d, n);
    assert FinishAll(g.stack) == FinishAll(f.stack) + [GeoPoly(n, [])];
    assert g.result + FinishAll(g.stack) == (f.result + FinishAll(f.stack)) + [GeoPoly(n, [])];
    forall t | 0 <= t < |g.stack| ensures BuilderAt(d, g.stack[t], n + 1) && g.stack[t].exterior <= n {
      OpenNext(d, g.stack[t].exterior, n);
      if t < |f.stack| {
        assert BuilderAt(d, f.stack[t], n);
        HolesUnchanged(d, f.stack[t].exterior, n);
      }
    }
    forall j: nat | OpenAt(d, j, n + 1) ensures OnStack(g, j) {
      OpenNext(d, j, n);
      StackGrows(f, g, j);
      assert g.stack[|f.stack|].exterior == n;
    }
    forall t, u | 0 <= t < u < |g.stack| ensures g.stack[t].exterior < g.stack[u].exterior {
      assert t < |f.stack| && BuilderAt(d, f.stack[t], n);
    }
  }

  lemma StackGrows(f: State<nat>, g: State<nat>, j: nat)
    requires |f.stack| <= |g.stack| && forall t :: 0 <= t < |f.stack| ==> f.stack[t].exterior == g.stack[t].exterior
    ensures OnStack(f, j) ==> OnStack(g, j)
  {
    if OnStack(f, j) {
      var t :| 0 <= t < |f.stack| && f.stack[t].exterior == j;
      assert g.stack[t].exterior == j;
    }
  }

  lemma {:induction false} LedgerPush(d: seq<int>, n: nat)
    requires n < |d| && Even(d[n])
    ensures Ledger(d, n + 1, n + 1) == Ledger(d, n, n + 1) + [GeoPoly(n, [])]
  {
    NoHolesYet(d, n, n + 1);
  }

  lemma {:induction false} SameLedger(d: seq<int>, n: nat)
    requires n < |d| && (Even(d[n]) || forall j: nat :: !IsHost(d, j, n))
    ensures Ledger(d, n, n + 1) == Ledger(d, n, n)
  {
    LedgerNext(d, n, n);
    forall t | 0 <= t < |Ledger(d, n, n)| ensures Ledger(d, n, n + 1)[t] == Ledger(d, n, n)[t] {
      HolesUnchanged(d, Ledger(d, n, n)[t].exterior, n);
    }
  }

  /** On the flushed stack the top is exactly the host of the loop about to be read. */
  lemma TopIsHost(d: seq<int>, f: State<nat>, n: nat)
    requires n < |d| && StateAt(d, f, n, d[n]) && AllShallower(f.stack, d[n])
    ensures f.stack == [] ==> forall j: nat :: !IsHost(d, j, n)
    ensures f.stack != [] ==> IsHost(d, f.stack[|f.stack| - 1].exterior, n)
    ensures f.stack != [] ==> forall j: nat :: IsHost(d, j, n) ==> j == f.stack[|f.stack| - 1].exterior
  {
    hide Ledger, HolesOf;
    forall j: nat | j < n && Even(d[j]) && Encloses(d, j, n) ensures OnStack(f, j) {
      OpenNext(d, j, n);
    }
    if f.stack != [] {
      var top := |f.stack| - 1;
      var h := f.stack[top].exterior;
      assert BuilderAt(d, f.stack[top], n);
      OpenNext(d, h, n);
      assert forall i :: h < i < n ==> !OnStack(f, i);
    }
  }

  /** A hole: it joins the top of the flushed stack, or is dropped when there is none. */
  lemma ReadHole(d: seq<int>, f: State<nat>, n: nat, cut: int)
    requires n < |d| && !Even(d[n]) && StateAt(d, f, n, d[n]) && AllShallower(f.stack, d[n])
    ensures StateAt(d, if f.stack != [] then f.(stack := AddHole(f.stack, n)) else f, n + 1, cut)
  {
    hide StateAt, AllShallower, AddHole;
    if f.stack == [] {
      DropHole(d, f, n, cut);
    } else {
      TakeHole(d, f, n, cut);
    }
  }

  lemma DropHole(d: seq<int>, f: State<nat>, n: nat, cut: int)
    requires n < |d| && !Even(d[n]) && StateAt(d, f, n, d[n]) && f.stack == []
    ensures StateAt(d, f, n + 1, cut)
  {
    TopIsHost(d, f, n);
    LedgerSkip(d, n);
    SameLedger(d, n);
    hide Ledger, HolesOf, IsHost, Encloses, FinishAll, BuilderAt, OnStack, OpenAt;
    forall j: nat | OpenAt(d, j, n + 1) ensures OnStack(f, j) {
      OpenAfterHole(d, f, n, j);
    }
  }

  lemma TakeHole(d: seq<int>, f: State<nat>, n: nat, cut: int)
    requires n < |d| && !Even(d[n]) && StateAt(d, f, n, d[n]) && AllShallower(f.stack, d[n]) && f.stack != []
    ensures StateAt(d, f.(stack := AddHole(f.stack, n)), n + 1, cut)
  {
    hide Ledger, HolesOf, IsHost, Encloses, OpenAt, BuilderAt, OnStack, FinishAll, AllShallower;
    var g := f.(stack := AddHole(f.stack, n));
    LedgerSkip(d, n);
    LedgerGains(d, f, n);
    forall t | 0 <= t < |g.stack| ensures BuilderAt(d, g.stack[t], n + 1) {
      BuilderAfterHole(d, f, n, t);
    }
    forall j: nat | OpenAt(d, j, n + 1) ensures OnStack(g, j) {
      OpenAfterHole(d, f, n, j);
      StackGrows(f, g, j);
    }
  }

  /** The top of the stack has the new hole, and the shells below it have no more than before. */
  lemma BuilderAfterHole(d: seq<int>, f: State<nat>, n: nat, t: nat)
    requires n < |d| && !Even(d[n]) && StateAt(d, f, n, d[n]) && AllShallower(f.stack, d[n]) && t < |f.stack|
    ensures BuilderAt(d, AddHole(f.stack, n)[t], n + 1)
  {
    hide Ledger, HolesOf, IsHost, Encloses, FinishAll;
    TopIsHost(d, f, n);
    assert BuilderAt(d, f.stack[t], n);
    OpenNext(d, f.stack[t].exterior, n);
    HolesNext(d, f.stack[t].exterior, n);
  }

  lemma OpenAfterHole(d: seq<int>, f: State<nat>, n: nat, j: nat)
    requires n < |d| && !Even(d[n]) && StateAt(d, f, n, d[n]) && OpenAt(d, j, n + 1)
    ensures OnStack(f, j)
  {
    hide Ledger, HolesOf, IsHost, Encloses, FinishAll;
    OpenNext(d, j, n);
  }

  lemma {:induction false} LedgerSkip(d: seq<int>, n: nat)
    requires n < |d| && !Even(d[n])
    ensures Ledger(d, n + 1, n + 1) == Ledger(d, n, n + 1)
  {
  }

  lemma HolesNext(d: seq<int>, j: nat, n: nat)
    requires n < |d| && !Even(d[n])
    ensures HolesOf(d, j, n + 1) == if IsHost(d, j, n) then HolesOf(d, j, n) + [n] else HolesOf(d, j, n)
  {
  }

  /** Giving the hole to the top of the stack is giving it to its host in the ledger. */
  lemma {:induction false} LedgerGains(d: seq<int>, f: State<nat>, n: nat)
    requires n < |d| && !Even(d[n]) && StateAt(d, f, n, d[n]) && AllShallower(f.stack, d[n]) && f.stack != []
    ensures multiset(f.result + FinishAll(AddHole(f.stack, n))) == multiset(Ledger(d, n, n + 1))
  {
    hide Ledger, HolesOf, IsHost, Encloses;
    TopIsHost(d, f, n);
    var top := f.stack[|f.stack| - 1];
    var h := top.exterior;
    assert BuilderAt(d, top, n);
    var lesser, grown := GeoPoly(h, HolesOf(d, h, n)), GeoPoly(h, HolesOf(d, h, n) + [n]);
    var before, after := f.result + FinishAll(f.stack), f.result + FinishAll(AddHole(f.stack, n));
    var at := |before| - 1;
    assert before[at] == lesser && after == before[at := grown];
    var t := FindInLedger(d, n, n, h);
    LedgerNext(d, n, n);
    var ledger, next := Ledger(d, n, n), Ledger(d, n, n + 1);
    forall u | 0 <= u < |ledger| ensures next[u] == if u == t then grown else ledger[u] {
      HolesNext(d, ledger[u].exterior, n);
    }
    assert next == ledger[t := grown];
  }

  // ----- whole runs -----

  /** Reading the next loop keeps the invariant, whatever may be flushed after it. */
  lemma StepKeeps(d: seq<int>, s: State<nat>, n: nat, cut: int)
    requires n < |d| && StateAt(d, s, n, d[n])
    ensures StateAt(d, Step(s, Item(d[n], n)), n + 1, cut)
  {
    hide StateAt, Flush, AllShallower;
    FlushKeeps(d, s, n, d[n]);
    if Even(d[n]) {
      ReadShell(d, Flush(s, d[n]), n, cut);
    } else {
      ReadHole(d, Flush(s, d[n]), n, cut);
    }
  }

  lemma {:induction false} RunNext<R>(items: seq<Item<R>>, n: nat, s: State<R>)
    requires n < |items|
    ensures Run(items[..n + 1], s) == Step(Run(items[..n], s), items[n])
  {
    hide Step;
    assert items[..n + 1][..n] == items[..n];
  }

  lemma {:induction false} RunState(d: seq<int>, n: nat, cut: int)
    requires n <= |d|
    ensures StateAt(d, Run(Positions(d)[..n], State([], [])), n, cut)
    decreases n
  {
    var empty: State<nat> := State([], []);
    if n == 0 {
      assert StateAt(d, empty, 0, cut);
    } else {
      hide StateAt, Step, Run;
      RunState(d, n - 1, d[n - 1]);
      RunNext(Positions(d), n - 1, empty);
      StepKeeps(d, Run(Positions(d)[..n - 1], empty), n - 1, cut);
    }
  }

  lemma {:induction false} DrainIsAll<R>(s: State<R>)
    ensures multiset(Drain(s)) == multiset(s.result + FinishAll(s.stack))
    decreases |s.stack|
  {
    if s.stack == [] {
      assert s.result + FinishAll(s.stack) == s.result;
    } else {
      DrainIsAll(Pop(s));
      PopMoves(s);
    }
  }

  /**
   Conservation, for any depth list: the output is one polygon for each even-depth loop, whose
   holes are the odd-depth loops it hosts, in list order, and nothing else.
   */
  lemma {:induction false} Conservation(d: seq<int>)
    ensures multiset(Converted(Positions(d))) == multiset(Ledger(d, |d|, |d|))
  {
    hide Ledger, Run;
    RunState(d, |d|, 0);
    assert Positions(d)[..|d|] == Positions(d);
    DrainIsAll(Run(Positions(d), State([], [])));
  }

  // ----- the order of the output -----

  /** Shell `a` is finished before shell `b`: it lies inside `b`, or stands before `b` and not around it. */
  ghost predicate FinishedFirst(d: seq<int>, a: nat, b: nat) {
    Encloses(d, b, a) || (a < b && !Encloses(d, a, b))
  }

  /** The result is in order, and comes before everything on the stack. */
  ghost predicate InOrder(d: seq<int>, s: State<nat>) {
    && (forall t, u :: 0 <= t < u < |s.result| ==> FinishedFirst(d, s.result[t].exterior, s.result[u].exterior))
    && (forall t, u :: 0 <= t < |s.result| && 0 <= u < |s.stack| ==> FinishedFirst(d, s.result[t].exterior, s.stack[u].exterior))
  }

  /** Shell `j` encloses no loop from `n` on. */
  ghost predicate IsClosed(d: seq<int>, j: nat, n: nat) {
    j < n && forall x: nat :: n <= x < |d| ==> !Encloses(d, j, x)
  }

  ghost predicate AllClosed(d: seq<int>, s: State<nat>, n: nat) {
    forall t :: 0 <= t < |s.result| ==> IsClosed(d, s.result[t].exterior, n)
  }

  /** A shell as deep as the next loop encloses nothing any more. */
  lemma DeepIsClosed(d: seq<int>, j: nat, n: nat)
    requires j < n < |d| && d[j] >= d[n]
    ensures IsClosed(d, j, n)
  {
  }

  /** On the stack each shell lies inside those below it. */
  ghost predicate StackNested(d: seq<int>, s: State<nat>) {
    forall t, u :: 0 <= t < u < |s.stack| ==> Encloses(d, s.stack[t].exterior, s.stack[u].exterior)
  }

  lemma StackIsNested(d: seq<int>, s: State<nat>, n: nat, cut: int)
    requires StateAt(d, s, n, cut)
    ensures StackNested(d, s)
  {
    hide Ledger, HolesOf, FinishAll;
    forall t, u | 0 <= t < u < |s.stack| ensures Encloses(d, s.stack[t].exterior, s.stack[u].exterior) {
      assert BuilderAt(d, s.stack[t], n) && BuilderAt(d, s.stack[u], n);
    }
  }

  lemma PopInOrder(d: seq<int>, s: State<nat>)
    requires InOrder(d, s) && StackNested(d, s) && s.stack != []
    ensures InOrder(d, Pop(s)) && StackNested(d, Pop(s))
  {
    hide Encloses;
  }

  lemma {:induction false} FlushInOrder(d: seq<int>, s: State<nat>, n: nat)
    requires n < |d| && StateAt(d, s, n, d[n]) && InOrder(d, s) && AllClosed(d, s, n)
    ensures InOrder(d, Flush(s, d[n])) && AllClosed(d, Flush(s, d[n]), n)
    decreases |s.stack|
  {
    hide StateAt, InOrder, AllClosed, StackNested;
    if s.stack != [] && s.stack[|s.stack| - 1].depth >= d[n] {
      StackIsNested(d, s, n, d[n]);
      PopInOrder(d, s);
      PopCloses(d, s, n);
      PopKeeps(d, s, n, d[n]);
      FlushInOrder(d, Pop(s), n);
    }
  }

  lemma PopCloses(d: seq<int>, s: State<nat>, n: nat)
    requires n < |d| && StateAt(d, s, n, d[n]) && AllClosed(d, s, n)
    requires s.stack != [] && s.stack[|s.stack| - 1].depth >= d[n]
    ensures AllClosed(d, Pop(s), n)
  {
    hide Ledger, HolesOf, FinishAll, IsClosed, Encloses;
    var top := s.stack[|s.stack| - 1];
    assert BuilderAt(d, top, n);
    DeepIsClosed(d, top.exterior, n);
  }

  lemma StepInOrder(d: seq<int>, s: State<nat>, n: nat)
    requires n < |d| && StateAt(d, s, n, d[n]) && InOrder(d, s) && AllClosed(d, s, n)
    ensures InOrder(d, Step(s, Item(d[n], n))) && AllClosed(d, Step(s, Item(d[n], n)), n + 1)
  {
    hide Flush, StateAt, Encloses;
    FlushInOrder(d, s, n);
    var f, g := Flush(s, d[n]), Step(s, Item(d[n], n));
    assert g.result == f.result;
    forall t | 0 <= t < |g.result| ensures IsClosed(d, g.result[t].exterior, n + 1) && FinishedFirst(d, g.result[t].exterior, n) {
      assert IsClosed(d, f.result[t].exterior, n);
    }
    forall t, u | 0 <= t < |g.result| && 0 <= u < |g.stack|
      ensures FinishedFirst(d, g.result[t].exterior, g.stack[u].exterior)
    {
      assert g.stack[u].exterior == if u < |f.stack| then f.stack[u].exterior else n;
    }
  }

  lemma {:induction false} RunInOrder(d: seq<int>, n: nat)
    requires n <= |d|
    ensures InOrder(d, Run(Positions(d)[..n], State([], []))) && AllClosed(d, Run(Positions(d)[..n], State([], [])), n)
  {
    var empty: State<nat> := State([], []);
    if n == 0 {
      assert InOrder(d, empty) && AllClosed(d, empty, 0);
    } else {
      hide InOrder, AllClosed, StateAt, Step, Run;
      RunInOrder(d, n - 1);
      RunState(d, n - 1, d[n - 1]);
      RunNext(Positions(d), n - 1, empty);
      StepInOrder(d, Run(Positions(d)[..n - 1], empty), n - 1);
    }
  }

  lemma {:induction false} DrainInOrder(d: seq<int>, s: State<nat>)
    requires InOrder(d, s) && StackNested(d, s)
    ensures InOrder(d, State([], Drain(s)))
    decreases |s.stack|
  {
    if s.stack != [] {
      PopInOrder(d, s);
      DrainInOrder(d, Pop(s));
    }
  }

  /** For any depth list the polygons come out inner shells first, and otherwise in list order. */
  lemma OutputOrder(d: seq<int>, t: nat, u: nat)
    requires t < u < |Converted(Positions(d))|
    ensures FinishedFirst(d, Converted(Positions(d))[t].exterior, Converted(Positions(d))[u].exterior)
  {
    hide Run, Drain, StateAt, FinishedFirst, StackNested;
    var s := Run(Positions(d), State([], []));
    assert Positions(d)[..|d|] == Positions(d);
    RunInOrder(d, |d|);
    RunState(d, |d|, 0);
    StackIsNested(d, s, |d|, 0);
    DrainInOrder(d, s);
  }

  /** A hole is in the list of one shell only, its host; it is dropped iff no shell encloses it. */
  lemma {:induction false} HoleMembership(d: seq<int>, j: nat, n: nat, k: nat)
    requires n <= |d|
    ensures k in HolesOf(d, j, n) <==> k < n && !Even(d[k]) && IsHost(d, j, k)
    ensures forall t, u :: 0 <= t < u < |HolesOf(d, j, n)| ==> HolesOf(d, j, n)[t] < HolesOf(d, j, n)[u] < n
  {
    hide IsHost;
    if n > 0 {
      var init := HolesOf(d, j, n - 1);
      HoleMembership(d, j, n - 1, k);
      forall t | 0 <= t < |init| ensures init[t] < n - 1 {
        HoleMembership(d, j, n - 1, init[t]);
      }
    }
  }

  lemma HostIsUnique(d: seq<int>, i: nat, j: nat, k: nat)
    requires IsHost(d, i, k) && IsHost(d, j, k)
    ensures i == j
  {
  }

  /** A hole has a host, and so is kept, exactly when some shell encloses it. */
  lemma KeptIffEnclosed(d: seq<int>, k: nat)
    requires k < |d|
    ensures (exists j: nat :: IsHost(d, j, k)) <==> exists j: nat :: j < k && Even(d[j]) && Encloses(d, j, k)
  {
    if j: nat :| j < k && Even(d[j]) && Encloses(d, j, k) {
      var h := NearestShell(d, j, k);
    }
  }

  lemma {:induction false} NearestShell(d: seq<int>, j: nat, k: nat) returns (h: nat)
    requires j < k < |d| && Even(d[j]) && Encloses(d, j, k)
    ensures IsHost(d, h, k)
    decreases k - j
  {
    if i: nat :| j < i < k && Even(d[i]) && Encloses(d, i, k) {
      h := NearestShell(d, i, k);
    } else {
      h := j;
    }
  }

  /**
   At every moment the stack holds exactly the even-depth loops among the last loop read and
   those that enclose it, in increasing order of depth.
   */
  lemma StackIsEvenAncestors(d: seq<int>, n: nat)
    requires n < |d|
    ensures var s := Run(Positions(d)[..n + 1], State([], []));
      && (forall j: nat :: OnStack(s, j) <==> j <= n && Even(d[j]) && (j == n || Encloses(d, j, n)))
      && (forall t :: 0 <= t < |s.stack| ==> s.stack[t].exterior < |d| && s.stack[t].depth == d[s.stack[t].exterior])
      && (forall t, u :: 0 <= t < u < |s.stack| ==> s.stack[t].depth < s.stack[u].depth)
  {
    hide Run, StateAt;
    var s := Run(Positions(d)[..n + 1], State([], []));
    forall j: nat ensures OnStack(s, j) <==> j <= n && Even(d[j]) && (j == n || Encloses(d, j, n)) {
      RunState(d, n + 1, if j < |d| then d[j] + 1 else 0);
      OnStackIffOpen(d, s, n + 1, if j < |d| then d[j] + 1 else 0, j);
    }
    RunState(d, n + 1, 0);
    StackIsOrdered(d, s, n + 1, 0);
  }

  lemma OnStackIffOpen(d: seq<int>, s: State<nat>, n: nat, cut: int, j: nat)
    requires StateAt(d, s, n, cut) && (j < |d| ==> d[j] < cut)
    ensures OnStack(s, j) <==> OpenAt(d, j, n)
  {
    hide Ledger, HolesOf, FinishAll;
    if OnStack(s, j) {
      var t :| 0 <= t < |s.stack| && s.stack[t].exterior == j;
      assert BuilderAt(d, s.stack[t], n);
    }
  }

  lemma StackIsOrdered(d: seq<int>, s: State<nat>, n: nat, cut: int)
    requires StateAt(d, s, n, cut)
    ensures forall t :: 0 <= t < |s.stack| ==> s.stack[t].exterior < |d| && s.stack[t].depth == d[s.stack[t].exterior]
    ensures forall t, u :: 0 <= t < u < |s.stack| ==> s.stack[t].depth < s.stack[u].depth
  {
    hide Ledger, HolesOf, FinishAll;
    forall t | 0 <= t < |s.stack| ensures s.stack[t].exterior < |d| && s.stack[t].depth == d[s.stack[t].exterior] {
      assert BuilderAt(d, s.stack[t], n);
    }
    forall t, u | 0 <= t < u < |s.stack| ensures s.stack[t].depth < s.stack[u].depth {
      StackDepthsRise(d, s, n, cut, t, u);
    }
  }

  // ----- valid depth lists -----

  /** `Polygon::parent`: the nearest earlier loop one level up. */
  ghost predicate IsParent(d: seq<int>, j: nat, k: nat) {
    j < k < |d| && d[j] == d[k] - 1 && forall i :: j < i < k ==> d[i] != d[k] - 1
  }

  /** In a valid list a hole's parent shell is its host, so no hole is dropped or misplaced. */
  lemma ParentIsHost(d: seq<int>, k: nat) returns (j: nat)
    requires ValidDepths(Positions(d)) && k < |d| && !Even(d[k])
    ensures IsParent(d, j, k) && IsHost(d, j, k)
  {
    hide ValidDepths;
    ValidStep(d, k);
    j := FindParent(d, k, k);
  }

  lemma ValidStep(d: seq<int>, n: nat)
    requires ValidDepths(Positions(d)) && n < |d|
    ensures 0 <= d[n] <= if n == 0 then 0 else d[n - 1] + 1
  {
    var items := Positions(d);
    assert 0 <= items[n].depth <= LastDepth(items, n) + 1;
  }

  /** Walking back from `k` while every loop passed is at least as deep. */
  lemma {:induction false} FindParent(d: seq<int>, k: nat, n: nat) returns (j: nat)
    requires ValidDepths(Positions(d)) && n <= k < |d| && d[k] > 0
    requires forall i :: n <= i <= k ==> d[k] <= d[i]
    ensures IsParent(d, j, k) && Encloses(d, j, k)
    ensures forall i :: j < i < k ==> !Encloses(d, i, k)
  {
    hide ValidDepths;
    ValidStep(d, n);
    if d[n - 1] == d[k] - 1 {
      j := n - 1;
    } else {
      j := FindParent(d, k, n - 1);
    }
  }
}
