/**
 Lifting loop literals out of source text: matching a bracket with its partner, and splitting
 `vec![ vec![...], vec![...] ]` into the texts of its inner vectors.
 */
module VecLiteral {
  datatype Option<T> = None | Some(value: T)

  /** What one character does to the nesting depth; the opening test comes first. */
  function Turn(c: char, open: char, close: char): int {
    if c == open then 1 else if c == close then -1 else 0
  }

  function Balance(s: string, open: char, close: char): int {
    if s == [] then 0 else Balance(s[..|s| - 1], open, close) + Turn(s[|s| - 1], open, close)
  }

  /** How much of `s` is read until the depth, `depth` before it, is back at zero. */
  function MatchLength(s: string, depth: int, open: char, close: char): Option<nat> {
    if s == [] then None
    else
      var d := depth + Turn(s[0], open, close);
      if s[0] != open && s[0] == close && d == 0 then Some(1)
      else
        match MatchLength(s[1..], d, open, close)
        case None => None
        case Some(n) => Some(n + 1)
  }

  /** The end of the bracket that opens at `start`; none if that is not an opening bracket or never closes. */
  function MatchEnd(text: string, start: nat, open: char, close: char): (r: Option<nat>)
    requires start <= |text|
  {
    if start == |text| || text[start] != open then None
    else
      match MatchLength(text[start..], 0, open, close)
      case None => None
      case Some(n) => Some(start + n)
  }

  method MatchDelim(text: string, start: nat, open: char, close: char) returns (r: Option<nat>)
    requires start <= |text|
    ensures r == MatchEnd(text, start, open, close)
  {
    if start == |text| || text[start] != open {
      return None;
    }
    var depth := 0;
    var i := start;
    while i < |text|
      invariant start <= i <= |text|
      invariant MatchEnd(text, start, open, close)
             == match MatchLength(text[i..], depth, open, close) case None => None case Some(n) => Some(i + n)
    {
      var c := text[i];
      assert text[i..][0] == c && text[i..][1..] == text[i + 1..];
      if c == open {
        depth := depth + 1;
      } else if c == close {
        depth := depth - 1;
        if depth == 0 {
          return Some(i + 1);
        }
      }
      i := i + 1;
    }
    return None;
  }

  lemma {:induction false} BalanceFront(c: char, s: string, open: char, close: char)
    ensures Balance([c] + s, open, close) == Turn(c, open, close) + Balance(s, open, close)
  {
    if s == [] {
      assert [c][..0] == [] && [c] + s == [c];
    } else {
      BalanceFront(c, s[..|s| - 1], open, close);
      assert ([c] + s)[..|s|] == [c] + s[..|s| - 1];
    }
  }

  lemma {:induction false} PrefixBalance(s: string, k: nat, open: char, close: char)
    requires 0 < k <= |s|
    ensures Balance(s[..k], open, close) == Turn(s[0], open, close) + Balance(s[1..][..k - 1], open, close)
  {
    BalanceFront(s[0], s[1..][..k - 1], open, close);
    assert s[..k] == [s[0]] + s[1..][..k - 1];
  }

  /** `n` characters of `s` bring the depth to zero for the first time. */
  ghost predicate FirstZero(s: string, depth: int, n: nat, open: char, close: char) {
    && n <= |s| && depth + Balance(s[..n], open, close) == 0
    && StaysPositive(s[..n], depth, open, close)
  }

  /** No proper, non-empty prefix brings the depth to zero or below. */
  ghost predicate StaysPositive(s: string, depth: int, open: char, close: char) {
    forall k :: 0 < k < |s| ==> depth + Balance(s[..k], open, close) > 0
  }

  ghost predicate NeverZero(s: string, depth: int, open: char, close: char) {
    forall k :: 0 < k <= |s| ==> depth + Balance(s[..k], open, close) > 0
  }

  /** From an opening bracket, or inside one, the match is the first return to depth zero. */
  lemma {:induction false} MatchLengthIsFirst(s: string, depth: int, open: char, close: char)
    requires open != close && depth >= 0 && (depth == 0 ==> s != [] && s[0] == open)
    ensures match MatchLength(s, depth, open, close)
      case Some(n) => n >= 1 && (depth == 0 ==> n >= 2) && FirstZero(s, depth, n, open, close)
      case None => NeverZero(s, depth, open, close)
  {
    hide Balance;
    if s != [] {
      var t, d := s[1..], depth + Turn(s[0], open, close);
      PrefixBalance(s, 1, open, close);
      assert t[..0] == [];
      EmptyBalance(open, close);
      forall k: nat | 0 < k <= |s| ensures Balance(s[..k], open, close) == d - depth + Balance(t[..k - 1], open, close) {
        PrefixBalance(s, k, open, close);
      }
      if d > 0 {
        MatchLengthIsFirst(t, d, open, close);
        match MatchLength(t, d, open, close) {
          case None =>
          case Some(n) =>
            var p := s[..n + 1];
            forall k | 0 < k < |p| ensures depth + Balance(p[..k], open, close) > 0 {
              assert p[..k] == s[..k] && t[..n][..k - 1] == t[..k - 1];
            }
        }
      } else {
        assert s[..1][..0] == [];
      }
    }
  }

  lemma {:induction false} EmptyBalance(open: char, close: char)
    ensures Balance([], open, close) == 0
  {
  }

  lemma {:induction false} MatchEndIsShortestBalanced(text: string, start: nat, open: char, close: char)
    requires start <= |text|
    ensures match MatchEnd(text, start, open, close)
      case Some(e) =>
        && open != close && start + 2 <= e <= |text| && text[start] == open && Balance(text[start..e], open, close) == 0
        && forall k :: start < k < e ==> Balance(text[start..k], open, close) > 0
      case None =>
        || open == close || start == |text| || text[start] != open
        || forall k :: start < k <= |text| ==> Balance(text[start..k], open, close) > 0
  {
    hide Balance, MatchLength;
    if open == close {
      NoClosing(text[start..], 0, open);
    } else if start < |text| && text[start] == open {
      var s := text[start..];
      MatchLengthIsFirst(s, 0, open, close);
      forall k | start < k <= |text| ensures text[start..k] == s[..k - start] {
      }
      match MatchLength(s, 0, open, close) {
        case None =>
        case Some(n) =>
          forall k | start < k < start + n ensures Balance(text[start..k], open, close) > 0 {
            assert s[..n][..k - start] == text[start..k];
          }
      }
    }
  }

  lemma {:induction false} NoClosing(s: string, depth: int, c: char)
    ensures MatchLength(s, depth, c, c) == None
  {
    if s != [] {
      NoClosing(s[1..], depth + Turn(s[0], c, c), c);
    }
  }

  /** The depth is the number of opening brackets less the number of closing ones. */
  lemma {:induction false} BalanceCounts(s: string, open: char, close: char)
    requires open != close
    ensures Balance(s, open, close) == multiset(s)[open] as int - multiset(s)[close] as int
  {
    if s != [] {
      BalanceCounts(s[..|s| - 1], open, close);
      assert s == s[..|s| - 1] + [s[|s| - 1]];
    }
  }

  // ----- splitting a nested literal -----

  const VEC: string := "vec!["

  predicate StartsWith(s: string, pattern: string) {
    |pattern| <= |s| && s[..|pattern|] == pattern
  }

  /** `str.find`: the first place the pattern occurs. */
  function Find(s: string, pattern: string): (r: Option<nat>)
    ensures r.Some? ==> r.value <= |s| && StartsWith(s[r.value..], pattern)
  {
    if StartsWith(s, pattern) then Some(0)
    else if s == [] then None
    else
      match Find(s[1..], pattern)
      case None => None
      case Some(n) => assert s[1..][n..] == s[n + 1..]; Some(n + 1)
  }

  lemma {:induction false} FindIsFirst(s: string, pattern: string)
    ensures match Find(s, pattern)
      case Some(n) => forall k: nat :: k < n ==> !StartsWith(s[k..], pattern)
      case None => forall k: nat :: k <= |s| ==> !StartsWith(s[k..], pattern)
  {
    hide StartsWith;
    assert s[0..] == s;
    if !StartsWith(s, pattern) && s != [] {
      FindIsFirst(s[1..], pattern);
      forall k: nat | k < |s| ensures s[1..][k..] == s[k + 1..] {
      }
      match Find(s[1..], pattern) {
        case None =>
          forall k: nat | k <= |s| ensures !StartsWith(s[k..], pattern) {
            assert k > 0 ==> s[1..][k - 1..] == s[k..];
          }
        case Some(n) =>
          forall k: nat | k < n + 1 ensures !StartsWith(s[k..], pattern) {
            assert k > 0 ==> s[1..][k - 1..] == s[k..];
          }
      }
    }
  }

  /** The bracketed texts after each `vec!` of `s`, in order; none if a bracket is never closed. */
  function InnerVecs(s: string): Option<seq<string>>
    decreases |s|
  {
    match Find(s, VEC)
    case None => Some([])
    case Some(v) =>
      match MatchEnd(s, v + 4, '[', ']')
      case None => None
      case Some(end) =>
        MatchAdvances(s, v + 4);
        match InnerVecs(s[end..])
        case None => None
        case Some(rest) => Some([s[v + 4..end]] + rest)
  }

  lemma MatchAdvances(text: string, start: nat)
    requires start <= |text|
    ensures match MatchEnd(text, start, '[', ']') case None => true case Some(e) => start + 2 <= e <= |text|
  {
    if start < |text| && text[start] == '[' {
      MatchEndIsShortestBalanced(text, start, '[', ']');
    }
  }

  function LoopsOf(region: string): Option<seq<string>> {
    match Find(region, "[")
    case None => None
    case Some(outer) =>
      match MatchEnd(region, outer, '[', ']')
      case None => None
      case Some(end) => MatchAdvances(region, outer); InnerVecs(region[outer + 1..end - 1])
  }

  method LoopsInVec(region: string) returns (loops: Option<seq<string>>)
    ensures loops == LoopsOf(region)
  {
    hide Find, MatchEnd, Continued;
    var outer := Find(region, "[");
    if outer == None {
      return None;
    }
    var outerEnd := MatchDelim(region, outer.value, '[', ']');
    if outerEnd == None {
      return None;
    }
    MatchAdvances(region, outer.value);
    var inner := region[outer.value + 1..outerEnd.value - 1];
    var found, i := [], 0;
    assert inner[0..] == inner;
    ContinuedNothing(InnerVecs(inner));
    while true
      invariant 0 <= i <= |inner|
      invariant LoopsOf(region) == Continued(found, InnerVecs(inner[i..]))
      decreases |inner| - i
    {
      var rest := inner[i..];
      var v := Find(rest, VEC);
      if v == None {
        break;
      }
      var end := MatchDelim(rest, v.value + 4, '[', ']');
      if end == None {
        ContinuedToEnd(found);
        return None;
      }
      MatchAdvances(rest, v.value + 4);
      var body := rest[v.value + 4..end.value];
      assert rest[end.value..] == inner[i + end.value..];
      ContinuedOne(found, body, InnerVecs(rest[end.value..]));
      found := found + [body];
      i := i + end.value;
    }
    ContinuedToEnd(found);
    return Some(found);
  }

  lemma ContinuedOne(found: seq<string>, body: string, rest: Option<seq<string>>)
    ensures Continued(found + [body], rest)
         == Continued(found, match rest case None => None case Some(more) => Some([body] + more))
  {
    if rest.Some? {
      assert found + ([body] + rest.value) == (found + [body]) + rest.value;
    }
  }

  lemma ContinuedNothing(r: Option<seq<string>>)
    ensures Continued([], r) == r
  {
    if r.Some? {
      assert [] + r.value == r.value;
    }
  }

  lemma ContinuedToEnd(found: seq<string>)
    ensures Continued(found, Some([])) == Some(found) && Continued(found, None) == None
  {
    assert found + [] == found;
  }

  function Continued(found: seq<string>, rest: Option<seq<string>>): Option<seq<string>> {
    match rest
    case None => None
    case Some(more) => Some(found + more)
  }

  // ----- printed literals -----

  /** One inner vector as it is printed: what stands before it, and its contents. */
  datatype Entry = Entry(gap: string, body: string)

  predicate BracketFree(s: string) {
    forall i :: 0 <= i < |s| ==> s[i] != '[' && s[i] != ']'
  }

  function Bracketed(body: string): string {
    "[" + body + "]"
  }

  function Printed(entries: seq<Entry>, tail: string): string {
    if entries == [] then tail
    else entries[0].gap + "vec!" + Bracketed(entries[0].body) + Printed(entries[1..], tail)
  }

  /** Every closing bracket has its opening one, and every opening one is closed. */
  ghost predicate Balanced(s: string) {
    NeverZero(s, 1, '[', ']') && Balance(s, '[', ']') == 0
  }

  /** No bracket outside the vectors; inside them brackets are balanced, further vectors included. */
  ghost predicate WellFormed(entries: seq<Entry>) {
    forall i :: 0 <= i < |entries| ==> BracketFree(entries[i].gap) && Balanced(entries[i].body)
  }

  function Bodies(entries: seq<Entry>): seq<string> {
    if entries == [] then [] else [Bracketed(entries[0].body)] + Bodies(entries[1..])
  }

  /** Text in which the depth stays positive is passed over. */
  lemma {:induction false} PassOver(s: string, rest: string, depth: int)
    requires depth > 0 && NeverZero(s, depth, '[', ']')
    ensures MatchLength(s + rest, depth, '[', ']')
         == match MatchLength(rest, depth + Balance(s, '[', ']'), '[', ']') case None => None case Some(n) => Some(|s| + n)
  {
    hide Balance;
    EmptyBalance('[', ']');
    if s == [] {
      assert s + rest == rest;
    } else {
      var t, d := s[1..], depth + Turn(s[0], '[', ']');
      assert t[..0] == [] && s[..|s|] == s && t[..|t|] == t;
      PrefixBalance(s, 1, '[', ']');
      PrefixBalance(s, |s|, '[', ']');
      forall k | 0 < k <= |t| ensures d + Balance(t[..k], '[', ']') > 0 {
        PrefixBalance(s, k + 1, '[', ']');
      }
      PassOver(t, rest, d);
      assert (s + rest)[1..] == t + rest;
    }
  }

  lemma {:induction false} PassBalanced(s: string, rest: string, depth: int)
    requires Balanced(s) && depth > 0
    ensures MatchLength(s + rest, depth, '[', ']')
         == match MatchLength(rest, depth, '[', ']') case None => None case Some(n) => Some(|s| + n)
  {
    PassOver(s, rest, depth);
  }

  lemma {:induction false} PlainIsBalanced(s: string)
    requires BracketFree(s)
    ensures Balanced(s)
  {
    forall k | 0 <= k <= |s| ensures Balance(s[..k], '[', ']') == 0 {
      PlainIsFlat(s[..k]);
    }
    assert s[..|s|] == s;
  }

  lemma {:induction false} PlainIsFlat(s: string)
    requires BracketFree(s)
    ensures Balance(s, '[', ']') == 0
  {
    if s != [] {
      PlainIsFlat(s[..|s| - 1]);
    }
  }

  lemma {:induction false} MatchBalanced(body: string, rest: string)
    requires Balanced(body)
    ensures MatchLength(Bracketed(body) + rest, 0, '[', ']') == Some(|body| + 2)
  {
    hide Balanced;
    var s := Bracketed(body) + rest;
    assert s[1..] == body + ("]" + rest);
    PassBalanced(body, "]" + rest, 1);
  }

  /** A bracketed text is passed over inside another bracket. */
  lemma {:induction false} PassBracketed(body: string, rest: string, depth: int)
    requires Balanced(body) && depth > 0
    ensures MatchLength(Bracketed(body) + rest, depth, '[', ']')
         == match MatchLength(rest, depth, '[', ']') case None => None case Some(n) => Some(|body| + 2 + n)
  {
    hide Balanced;
    var s := Bracketed(body) + rest;
    assert s[1..] == body + ("]" + rest);
    PassBalanced(body, "]" + rest, depth + 1);
    assert ("]" + rest)[1..] == rest;
  }

  lemma {:induction false} PassPrinted(entries: seq<Entry>, tail: string, rest: string)
    requires WellFormed(entries) && BracketFree(tail)
    ensures MatchLength(Printed(entries, tail) + rest, 1, '[', ']')
         == match MatchLength(rest, 1, '[', ']') case None => None case Some(n) => Some(|Printed(entries, tail)| + n)
  {
    hide *;
    PrintedIs(entries, tail);
    if entries == [] {
      PlainIsBalanced(tail);
      PassBalanced(tail, rest, 1);
    } else {
      var e, more := entries[0], Printed(entries[1..], tail);
      var lead := e.gap + "vec!";
      LeadIsBalanced(entries);
      assert Printed(entries, tail) + rest == lead + (Bracketed(e.body) + (more + rest));
      PassBalanced(lead, Bracketed(e.body) + (more + rest), 1);
      PassBracketed(e.body, more + rest, 1);
      PassPrinted(entries[1..], tail, rest);
    }
  }

  lemma LeadIsBalanced(entries: seq<Entry>)
    requires WellFormed(entries) && entries != []
    ensures Balanced(entries[0].gap + "vec!") && Balanced(entries[0].body) && WellFormed(entries[1..])
    ensures BracketFree(entries[0].gap)
  {
    PlainIsBalanced(entries[0].gap + "vec!");
    hide Balanced;
  }

  lemma {:induction false} PrintedIs(entries: seq<Entry>, tail: string)
    ensures entries == [] ==> Printed(entries, tail) == tail
    ensures entries != [] ==>
      var e, more := entries[0], Printed(entries[1..], tail);
      && Printed(entries, tail) == e.gap + "vec!" + Bracketed(e.body) + more
      && Printed(entries, tail) == e.gap + VEC + (e.body + "]" + more)
      && |Printed(entries, tail)| == |e.gap + "vec!"| + (|e.body| + 2) + |more|
  {
  }

  /** The first `[` of a text decides where the pattern can first occur. */
  lemma {:induction false} FindAfterGap(gap: string, rest: string)
    requires BracketFree(gap)
    ensures Find(gap + VEC + rest, VEC) == Some(|gap|)
  {
    var s := gap + VEC + rest;
    if gap == [] {
      assert s[..5] == VEC;
    } else {
      assert s[4] != '[' by {
        assert s[4] == (gap + "vec!")[4];
      }
      assert s[..5][4] == s[4] && VEC[4] == '[';
      FindAfterGap(gap[1..], rest);
      assert s[1..] == gap[1..] + VEC + rest;
    }
  }

  lemma {:induction false} FindNone(s: string)
    requires BracketFree(s)
    ensures Find(s, VEC) == None
  {
    assert |s| >= 5 ==> s[..5][4] == s[4];
    assert VEC[4] == '[';
    if s != [] {
      FindNone(s[1..]);
    }
  }

  lemma {:induction false} InnerVecsOfPrinted(entries: seq<Entry>, tail: string)
    requires WellFormed(entries) && BracketFree(tail)
    ensures InnerVecs(Printed(entries, tail)) == Some(Bodies(entries))
  {
    hide BracketFree, Balanced, MatchEnd, Find;
    if entries == [] {
      FindNone(tail);
    } else {
      var e, more := entries[0], Printed(entries[1..], tail);
      FirstEntry(e, more);
      InnerVecsOfPrinted(entries[1..], tail);
      assert Printed(entries, tail) == e.gap + VEC + (e.body + "]" + more);
    }
  }

  /** Where the first vector of a printed list is found, where it ends, and what it is. */
  lemma FirstEntry(e: Entry, more: string)
    requires BracketFree(e.gap) && Balanced(e.body)
    ensures var s := e.gap + VEC + (e.body + "]" + more);
      var start := |e.gap| + 4;
      var end := start + |e.body| + 2;
      && Find(s, VEC) == Some(|e.gap|) && MatchEnd(s, start, '[', ']') == Some(end)
      && s[start..end] == Bracketed(e.body) && s[end..] == more
  {
    hide BracketFree, Balanced, MatchLength, Find;
    var s := e.gap + VEC + (e.body + "]" + more);
    var start := |e.gap| + 4;
    FindAfterGap(e.gap, e.body + "]" + more);
    assert s[start..] == Bracketed(e.body) + more;
    assert s[start] == s[start..][0];
    MatchBalanced(e.body, more);
  }

  lemma {:induction false} FindBracket(before: string, rest: string)
    requires BracketFree(before)
    ensures Find(before + "[" + rest, "[") == Some(|before|)
  {
    var s := before + "[" + rest;
    if before == [] {
      assert s[..1] == "[";
    } else {
      assert s[..1][0] == before[0];
      FindBracket(before[1..], rest);
      assert s[1..] == before[1..] + "[" + rest;
    }
  }

  lemma {:induction false} MatchOuter(s: string, inner: string, after: string)
    requires s == "[" + (inner + ("]" + after))
    requires MatchLength(inner + ("]" + after), 1, '[', ']')
      == match MatchLength("]" + after, 1, '[', ']') case None => None case Some(n) => Some(|inner| + n)
    ensures MatchLength(s, 0, '[', ']') == Some(|inner| + 2)
  {
    assert s[1..] == inner + ("]" + after);
  }

  /**
   Every inner vector of a printed literal comes back, in order, whatever surrounds the literal
   and however the vectors are spaced, as long as spacing has no brackets and contents are balanced.
   */
  lemma {:induction false} LoopsOfPrinted(before: string, entries: seq<Entry>, tail: string, after: string)
    requires BracketFree(before) && WellFormed(entries) && BracketFree(tail)
    ensures LoopsOf(before + Bracketed(Printed(entries, tail)) + after) == Some(Bodies(entries))
  {
    hide BracketFree, MatchLength, Find, InnerVecs, Printed, WellFormed;
    var inner := Printed(entries, tail);
    var region := before + Bracketed(inner) + after;
    var outer := |before|;
    assert region == before + "[" + (inner + "]" + after);
    FindBracket(before, inner + "]" + after);
    PassPrinted(entries, tail, "]" + after);
    var s := region[outer..];
    MatchOuter(s, inner, after);
    assert region[outer + 1..outer + |inner| + 1] == inner;
    InnerVecsOfPrinted(entries, tail);
  }

  // ----- literals that are not closed -----

  /** There is nothing to return when no bracket opens, or the first that does is never closed. */
  lemma {:induction false} NoLoops(before: string, rest: string)
    requires BracketFree(before) && NeverZero(rest, 1, '[', ']')
    ensures LoopsOf(before + "[" + rest) == None
    ensures '[' !in rest ==> LoopsOf(rest) == None
  {
    hide BracketFree, Find, MatchLength;
    var s := "[" + rest;
    assert before + "[" + rest == before + s && (before + s)[|before|..] == s;
    FindBracket(before, rest);
    OpenForEver(rest);
    if '[' !in rest {
      NotFound(rest);
    }
  }

  lemma {:induction false} OpenForEver(rest: string)
    requires NeverZero(rest, 1, '[', ']')
    ensures MatchLength("[" + rest, 0, '[', ']') == None
  {
    assert ("[" + rest)[1..] == rest && rest + [] == rest;
    PassOver(rest, [], 1);
  }

  lemma {:induction false} NotFound(s: string)
    requires '[' !in s
    ensures Find(s, "[") == None
  {
    if s != [] {
      assert s[..1][0] == s[0];
      NotFound(s[1..]);
    }
  }

  /** One vector that is never closed spoils the whole list, wherever it stands. */
  lemma {:induction false} UnclosedVec(entries: seq<Entry>, gap: string, rest: string)
    requires WellFormed(entries) && BracketFree(gap) && NeverZero(rest, 1, '[', ']')
    ensures InnerVecs(Printed(entries, gap + "vec![" + rest)) == None
  {
    hide *;
    var tail := gap + "vec![" + rest;
    PrintedIs(entries, tail);
    if entries == [] {
      FindAfterGap(gap, rest);
      AfterVec(gap, rest);
      OpenEnd(tail, |gap| + 4, rest);
      NoEndNoVecs(tail);
    } else {
      var e, more := entries[0], Printed(entries[1..], tail);
      LeadIsBalanced(entries);
      FirstEntry(e, more);
      UnclosedVec(entries[1..], gap, rest);
      NoEndNoVecs(Printed(entries, tail));
    }
  }

  lemma AfterVec(gap: string, rest: string)
    ensures gap + "vec![" + rest == gap + VEC + rest
    ensures (gap + "vec![" + rest)[|gap| + 4..] == "[" + rest
  {
  }

  lemma {:induction false} NoEndNoVecs(s: string)
    requires Find(s, VEC).Some?
    ensures var end := MatchEnd(s, Find(s, VEC).value + 4, '[', ']');
      InnerVecs(s) == None <==> end == None || (end.value <= |s| && InnerVecs(s[end.value..]) == None)
  {
    hide MatchEnd, Find, MatchLength;
    MatchAdvances(s, Find(s, VEC).value + 4);
  }

  lemma {:induction false} OpenEnd(s: string, start: nat, rest: string)
    requires start <= |s| && s[start..] == "[" + rest && NeverZero(rest, 1, '[', ']')
    ensures MatchEnd(s, start, '[', ']') == None
  {
    OpenForEver(rest);
  }
}
