/**
 `CellUnion::normalize`, and sibling merging as a rewriting system.
 */
module Normalize {
  import opened Cells
  import opened CellUnion

  // ----- sorting by id -----

  ghost predicate SortedById(s: seq<Cell>) {
    forall i, j :: 0 <= i < j < |s| ==> Id(s[i]) <= Id(s[j])
  }

  function Insert(c: Cell, s: seq<Cell>): (t: seq<Cell>)
    requires SortedById(s)
    ensures SortedById(t)
    ensures forall d: Cell :: d in t <==> d == c || d in s
  {
    if s == [] || Id(c) <= Id(s[0]) then [c] + s
    else
      var t := Insert(c, s[1..]);
      InsertedBehind(c, s, t);
      [s[0]] + t
  }

  lemma InsertedBehind(c: Cell, s: seq<Cell>, t: seq<Cell>)
    requires SortedById(s) && s != [] && Id(s[0]) < Id(c)
    requires SortedById(t) && forall d: Cell :: d in t <==> d == c || d in s[1..]
    ensures SortedById([s[0]] + t)
    ensures forall d: Cell :: d in [s[0]] + t <==> d == c || d in s
  {
    hide Id, Pow4;
    var u := [s[0]] + t;
    forall i, j | 0 <= i < j < |u| ensures Id(u[i]) <= Id(u[j]) {
      assert u[j] == t[j - 1] && t[j - 1] in t;
    }
    assert s == [s[0]] + s[1..];
  }

  function SortById(s: seq<Cell>): (t: seq<Cell>)
    ensures SortedById(t)
    ensures forall d: Cell :: d in t <==> d in s
  {
    if s == [] then []
    else
      assert s == [s[0]] + s[1..];
      Insert(s[0], SortById(s[1..]))
  }

  lemma SameMembersSameCoverage(u: seq<Cell>, v: seq<Cell>)
    requires forall d: Cell :: d in u <==> d in v
    ensures SameCoverage(u, v)
  {
    forall x ensures Covers(u, x) <==> Covers(v, x) {
      if Covers(u, x) {
        var i :| 0 <= i < |u| && InCell(u[i], x);
        assert u[i] in v;
      }
      if Covers(v, x) {
        var i :| 0 <= i < |v| && InCell(v[i], x);
        assert v[i] in u;
      }
    }
  }

  // ----- coverage of list operations -----

  lemma CoversConcat(u: seq<Cell>, v: seq<Cell>, x: int)
    ensures Covers(u + v, x) <==> Covers(u, x) || Covers(v, x)
  {
    if Covers(u, x) {
      var i :| 0 <= i < |u| && InCell(u[i], x);
      assert (u + v)[i] == u[i];
    }
    if Covers(v, x) {
      var i :| 0 <= i < |v| && InCell(v[i], x);
      assert (u + v)[|u| + i] == v[i];
    }
  }

  lemma CoversOne(c: Cell, x: int)
    ensures Covers([c], x) <==> InCell(c, x)
  {
    if InCell(c, x) {
      assert InCell([c][0], x);
    }
  }

  lemma CoversAppend(u: seq<Cell>, c: Cell)
    ensures forall x :: Covers(u + [c], x) <==> Covers(u, x) || InCell(c, x)
  {
    forall x ensures Covers(u + [c], x) <==> Covers(u, x) || InCell(c, x) {
      CoversConcat(u, [c], x);
      CoversOne(c, x);
    }
  }

  // ----- the normalisation loop -----

  ghost predicate HoldsSome(c: Cell, read: seq<Cell>) {
    exists m :: 0 <= m < |read| && Inside(read[m], c)
  }

  /** Every cell of the output so far includes a cell that has been read. */
  ghost predicate Witnessed(out: seq<Cell>, read: seq<Cell>) {
    forall i :: 0 <= i < |out| ==> HoldsSome(out[i], read)
  }

  /** No cell of the output lies wholly after the cell being read. */
  lemma NoneAfter(out: seq<Cell>, read: seq<Cell>, c: Cell, i: nat)
    requires Witnessed(out, read) && i < |out|
    requires forall m :: 0 <= m < |read| ==> Id(read[m]) <= Id(c)
    ensures Lo(out[i]) < Hi(c)
    ensures Inside(c, out[i]) || Inside(out[i], c) || Hi(out[i]) <= Lo(c)
  {
    hide Lo, Hi, Id, Width, Pow4;
    assert HoldsSome(out[i], read);
    var m :| 0 <= m < |read| && Inside(read[m], out[i]);
    RangeOfId(read[m]);
    RangeOfId(c);
    RangeOfId(out[i]);
    if c.level <= out[i].level {
      NestedOrApart(c, out[i]);
    } else {
      NestedOrApart(out[i], c);
    }
  }

  /** Where the whole output stands relative to the next cell once its last cell does not hold it. */
  lemma OutputBefore(out: seq<Cell>, read: seq<Cell>, c: Cell)
    requires Ascending(out) && Witnessed(out, read)
    requires forall m :: 0 <= m < |read| ==> Id(read[m]) <= Id(c)
    requires out != [] ==> !Contains(out[|out| - 1], c)
    ensures forall i :: 0 <= i < |out| ==> Inside(out[i], c) || Hi(out[i]) <= Lo(c)
  {
    hide Lo, Hi, Id, Width, Pow4;
    forall i | 0 <= i < |out| ensures Inside(out[i], c) || Hi(out[i]) <= Lo(c) {
      NoneAfter(out, read, c, i);
      NoneAfter(out, read, c, |out| - 1);
      ContainsIsInside(out[|out| - 1], c);
    }
  }

  lemma PrefixNormalized(u: seq<Cell>, n: nat)
    requires n <= |u| && IsNormalized(u)
    ensures IsNormalized(u[..n])
  {
    forall i: nat | i < n ensures !SiblingsAt(u[..n], i) {
      assert !SiblingsAt(u, i);
    }
  }

  lemma PushNormalized(out: seq<Cell>, c: Cell)
    requires IsNormalized(out) && Ascending(out + [c])
    requires |out| >= 3 ==> !AreSiblings(out[|out| - 3], out[|out| - 2], out[|out| - 1], c)
    ensures IsNormalized(out + [c])
  {
    hide Lo, Hi, Id, Width, Pow4, AreSiblings;
    var u := out + [c];
    ValidIsAscending(u);
    forall i: nat | i < |u| ensures !SiblingsAt(u, i) {
      if i + 3 < |out| {
        assert !SiblingsAt(out, i);
      }
    }
  }

  /** What merging the last three cells with `c` does to the region and to the order. */
  lemma MergeLast(out: seq<Cell>, c: Cell)
    requires |out| >= 3 && Ascending(out + [c])
    requires AreSiblings(out[|out| - 3], out[|out| - 2], out[|out| - 1], c)
    ensures c.level > 0 && Inside(c, Parent(c))
    ensures Ascending(out[..|out| - 3] + [Parent(c)])
    ensures SameCoverage(out + [c], out[..|out| - 3] + [Parent(c)])
  {
    hide Lo, Hi, Id, Width, Pow4;
    var n := |out| - 3;
    var u := out + [c];
    assert u[n] == out[n] && u[n + 1] == out[n + 1] && u[n + 2] == out[n + 2] && u[n + 3] == c;
    SiblingsAreChildren(u[n], u[n + 1], u[n + 2], u[n + 3]);
    var p := Parent(c);
    ChildrenCover(p);
    ParentChild(c);
    assert u == out[..n] + Children(p);
    forall x ensures Covers(u, x) <==> Covers(out[..n] + [p], x) {
      CoversConcat(out[..n], Children(p), x);
      CoversConcat(out[..n], [p], x);
      CoversOne(p, x);
    }
    forall i, j | 0 <= i < j < n + 1 ensures Hi((out[..n] + [p])[i]) <= Lo((out[..n] + [p])[j]) {
      assert Hi(u[i]) <= Lo(u[j]);
    }
  }

  method NormalizeCells(ids: seq<Cell>) returns (output: seq<Cell>)
    ensures IsNormalized(output)
    ensures SameCoverage(output, ids)
  {
    var sorted := SortById(ids);
    SameMembersSameCoverage(sorted, ids);
    output := [];
    for n := 0 to |sorted|
      invariant IsNormalized(output)
      invariant Witnessed(output, sorted[..n])
      invariant SameCoverage(output, sorted[..n])
    {
      output := ReadCell(output, sorted[..n], sorted[n]);
      assert sorted[..n] + [sorted[n]] == sorted[..n + 1];
    }
    assert sorted[..|sorted|] == sorted;
  }

  /** One turn of the loop, for the next cell in id order. */
  method ReadCell(output: seq<Cell>, ghost read: seq<Cell>, next: Cell) returns (out: seq<Cell>)
    requires IsNormalized(output) && Witnessed(output, read) && SameCoverage(output, read)
    requires forall m :: 0 <= m < |read| ==> Id(read[m]) <= Id(next)
    ensures IsNormalized(out) && Witnessed(out, read + [next]) && SameCoverage(out, read + [next])
  {
    hide Lo, Hi, Id, Width, Pow4, AreSiblings;
    CoversAppend(read, next);
    ValidIsAscending(output);
    if output != [] && Contains(output[|output| - 1], next) {
      ContainsIsInside(output[|output| - 1], next);
      assert forall x :: InCell(next, x) ==> InCell(output[|output| - 1], x);
      StillWitnessed(output, read, next);
      return output;
    }
    OutputBefore(output, read, next);
    var kept := DropContained(output, next);
    CoversAppend(output, next);
    CoversAppend(kept, next);
    StillWitnessed(kept, read, next);
    out := MergeAndPush(kept, next, read);
  }

  lemma StillWitnessed(out: seq<Cell>, read: seq<Cell>, next: Cell)
    requires Witnessed(out, read)
    ensures Witnessed(out, read + [next])
  {
    forall i | 0 <= i < |out| ensures HoldsSome(out[i], read + [next]) {
      assert HoldsSome(out[i], read);
      var m :| 0 <= m < |read| && Inside(read[m], out[i]);
      assert (read + [next])[m] == read[m];
    }
  }

  /** The loop that discards the earlier cells inside the next one. */
  method DropContained(output: seq<Cell>, next: Cell) returns (out: seq<Cell>)
    requires IsNormalized(output) && Ascending(output)
    requires forall i :: 0 <= i < |output| ==> Inside(output[i], next) || Hi(output[i]) <= Lo(next)
    ensures out <= output && IsNormalized(out) && Ascending(out + [next])
    ensures forall x :: Covers(out, x) || InCell(next, x) <==> Covers(output, x) || InCell(next, x)
  {
    hide Lo, Hi, Id, Width, Pow4, AreSiblings;
    out := output;
    while out != [] && Contains(next, out[|out| - 1])
      invariant out <= output
      invariant forall x :: Covers(out, x) || InCell(next, x) <==> Covers(output, x) || InCell(next, x)
      decreases |out|
    {
      ContainsIsInside(next, out[|out| - 1]);
      CoversAppend(out[..|out| - 1], out[|out| - 1]);
      assert out[..|out| - 1] + [out[|out| - 1]] == out;
      out := out[..|out| - 1];
    }
    assert out == output[..|out|];
    PrefixNormalized(output, |out|);
    if out != [] {
      ContainsIsInside(next, out[|out| - 1]);
      RangeOfId(out[|out| - 1]);
    }
  }

  /** The loop that collapses finished groups of four, and the push that ends the turn. */
  method MergeAndPush(output: seq<Cell>, next: Cell, ghost read: seq<Cell>) returns (out: seq<Cell>)
    requires IsNormalized(output) && Ascending(output + [next])
    requires Witnessed(output, read + [next])
    ensures IsNormalized(out) && SameCoverage(out, output + [next])
    ensures Witnessed(out, read + [next])
  {
    hide Lo, Hi, Id, Width, Pow4, AreSiblings;
    out := output;
    var c := next;
    while |out| >= 3 && AreSiblings(out[|out| - 3], out[|out| - 2], out[|out| - 1], c)
      invariant out <= output && IsNormalized(out) && Ascending(out + [c])
      invariant Inside(next, c)
      invariant SameCoverage(out + [c], output + [next])
      decreases |out|
    {
      MergeLast(out, c);
      PrefixNormalized(out, |out| - 3);
      out, c := out[..|out| - 3], Parent(c);
    }
    PushNormalized(out, c);
    assert HoldsSome(c, read + [next]) by {
      assert Inside((read + [next])[|read|], c);
    }
    forall i | 0 <= i < |out| ensures HoldsSome(out[i], read + [next]) {
      assert out[i] == output[i];
    }
    out := out + [c];
  }

  // ----- merging siblings in any order -----

  function MergeAt(u: seq<Cell>, i: nat): (v: seq<Cell>)
    requires SiblingsAt(u, i)
  {
    u[..i] + [Parent(u[i + 3])] + u[i + 4..]
  }

  lemma MergeKeeps(u: seq<Cell>, i: nat)
    requires IsValid(u) && SiblingsAt(u, i)
    ensures IsValid(MergeAt(u, i)) && SameCoverage(u, MergeAt(u, i)) && |MergeAt(u, i)| == |u| - 3
  {
    hide Lo, Hi, Id, Width, Pow4, AreSiblings, Covers;
    ValidIsAscending(u);
    MergeOrder(u, i);
    MergeRegion(u, i);
    ValidIsAscending(MergeAt(u, i));
  }

  lemma MergeRegion(u: seq<Cell>, i: nat)
    requires Ascending(u) && SiblingsAt(u, i)
    ensures SameCoverage(u, MergeAt(u, i))
  {
    hide Lo, Hi, Id, Width, Pow4, Covers;
    var head, tail, merged := u[..i + 3], u[i + 4..], u[..i] + [Parent(u[i + 3])];
    assert head + [u[i + 3]] == u[..i + 4] && head[..i] == u[..i];
    assert u == u[..i + 4] + tail;
    MergeLast(head, u[i + 3]);
    forall x ensures Covers(u, x) <==> Covers(MergeAt(u, i), x) {
      CoversConcat(u[..i + 4], tail, x);
      CoversConcat(merged, tail, x);
    }
  }

  lemma MergeOrder(u: seq<Cell>, i: nat)
    requires Ascending(u) && SiblingsAt(u, i)
    ensures Ascending(MergeAt(u, i))
  {
    hide Lo, Hi, Id, Width, Pow4, Covers;
    var head, tail, p := u[..i + 3], u[i + 4..], Parent(u[i + 3]);
    var merged := u[..i] + [p];
    assert head + [u[i + 3]] == u[..i + 4] && head[..i] == u[..i];
    MergeLast(head, u[i + 3]);
    ParentEndsWithLast(u, i);
    RangeOfId(p);
    assert merged[i] == p;
    ConcatAscending(merged, tail, Hi(p));
  }

  lemma ParentEndsWithLast(u: seq<Cell>, i: nat)
    requires Ascending(u) && SiblingsAt(u, i)
    ensures Hi(Parent(u[i + 3])) == Hi(u[i + 3])
  {
    hide Lo, Hi, Id, Width, Pow4, AreSiblings;
    SiblingsAreChildren(u[i], u[i + 1], u[i + 2], u[i + 3]);
    ChildrenCover(Parent(u[i + 3]));
  }

  lemma ConcatAscending(u: seq<Cell>, v: seq<Cell>, seam: int)
    requires Ascending(u) && Ascending(v)
    requires forall i :: 0 <= i < |u| ==> Hi(u[i]) <= seam
    requires forall i :: 0 <= i < |v| ==> seam <= Lo(v[i])
    ensures Ascending(u + v)
  {
  }

  /** `v` is reached from `u` by exactly `k` merges of four sibling neighbours. */
  ghost predicate Merges(u: seq<Cell>, v: seq<Cell>, k: nat)
    decreases k
  {
    if k == 0 then u == v else exists i: nat :: SiblingsAt(u, i) && Merges(MergeAt(u, i), v, k - 1)
  }

  lemma {:induction false} MergesKeep(u: seq<Cell>, v: seq<Cell>, k: nat)
    requires IsValid(u) && Merges(u, v, k)
    ensures IsValid(v) && SameCoverage(u, v) && |u| == |v| + 3 * k
    decreases k
  {
    hide Lo, Hi, Id, Width, Pow4, AreSiblings, Covers, IsValid, MergeAt;
    if k > 0 {
      var i: nat :| SiblingsAt(u, i) && Merges(MergeAt(u, i), v, k - 1);
      MergeKeeps(u, i);
      MergesKeep(MergeAt(u, i), v, k - 1);
    }
  }

  /** Merging can stop only at the normal form, and always after the same number of merges. */
  lemma {:induction false} MergingIsConfluent(u: seq<Cell>, v: seq<Cell>, k: nat, w: seq<Cell>, m: nat)
    requires IsValid(u) && Merges(u, v, k) && Merges(u, w, m)
    requires forall i: nat :: !SiblingsAt(v, i) && !SiblingsAt(w, i)
    ensures v == w && k == m && IsNormalized(v) && SameCoverage(u, v)
  {
    hide Lo, Hi, Id, Width, Pow4, AreSiblings;
    MergesKeep(u, v, k);
    MergesKeep(u, w, m);
    NormalFormUnique(v, w);
  }

  /** Merging always reaches the normal form. */
  lemma {:induction false} MergingTerminates(u: seq<Cell>) returns (v: seq<Cell>, k: nat)
    requires IsValid(u)
    ensures Merges(u, v, k) && IsNormalized(v) && SameCoverage(u, v)
    decreases |u|
  {
    hide Lo, Hi, Id, Width, Pow4, AreSiblings;
    if i: nat :| i < |u| && SiblingsAt(u, i) {
      MergeKeeps(u, i);
      v, k := MergingTerminates(MergeAt(u, i));
      k := k + 1;
    } else {
      v, k := u, 0;
    }
  }
}
