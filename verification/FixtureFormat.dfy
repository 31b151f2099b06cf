/**
 The fixture format held to the letter: a reader that wants each keyword, blank and line end at its
 place and every count to be right, and the proof that it accepts what the writer writes.
 */
module FixtureFormat {
  import opened Decimals
  import opened FixtureText

  datatype Outcome<+T> = Accepted(value: T, rest: string) | Rejected

  /** The text up to the first `sep`. */
  function Field(s: string, sep: char): (r: Outcome<string>)
    ensures r.Accepted? ==> s == r.value + [sep] + r.rest && sep !in r.value
  {
    if s == [] then Rejected
    else if s[0] == sep then Accepted("", s[1..])
    else
      match Field(s[1..], sep)
      case Accepted(value, rest) => Accepted([s[0]] + value, rest)
      case Rejected => Rejected
  }

  /** One word and the end of the field, as demanded. */
  function Expect(s: string, word: string, sep: char): Outcome<()> {
    var r := Field(s, sep);
    if r.Accepted? && r.value == word then Accepted((), r.rest) else Rejected
  }

  predicate AllDigits(s: string) {
    forall i :: 0 <= i < |s| ==> IsDigit(s[i])
  }

  /** A number at the end of a line. */
  function Number(s: string): Outcome<int> {
    var r := Field(s, '\n');
    if r.Accepted? && IsNumber(r.value) then Accepted(NumberOf(r.value), r.rest) else Rejected
  }

  predicate IsNumber(t: string) {
    t != [] && AllDigits(if t[0] == '-' then t[1..] else t) && t != "-"
  }

  function NumberOf(t: string): int
    requires IsNumber(t)
  {
    if t[0] == '-' then 0 - DigitsValue(t[1..]) else DigitsValue(t)
  }

  lemma PrintedIsNumber(n: int)
    ensures IsNumber(Printed(n)) && NumberOf(Printed(n)) == n && '\n' !in Printed(n)
  {
    var d := Decimal(if n < 0 then -n else n);
    DecimalValue(if n < 0 then -n else n);
    assert n < 0 ==> Printed(n)[1..] == d;
    hide Decimal, DigitsValue;
  }

  /** A line of three coordinates. */
  function StrictVertex(s: string): Outcome<Vertex> {
    var x := Field(s, ' ');
    if x.Rejected? then Rejected else
    var y := Field(x.rest, ' ');
    if y.Rejected? then Rejected else
    var z := Field(y.rest, '\n');
    if z.Rejected? then Rejected else Accepted(Vertex(x.value, y.value, z.value), z.rest)
  }

  function StrictVertices(s: string, n: int): Outcome<Loop>
    decreases n
  {
    if n <= 0 then Accepted([], s) else
    var before := StrictVertices(s, n - 1);
    if before.Rejected? then Rejected else
    var v := StrictVertex(before.rest);
    if v.Rejected? then Rejected else Accepted(before.value + [v.value], v.rest)
  }

  function StrictLoop(s: string): Outcome<Loop> {
    var keyword := Expect(s, "LOOP", ' ');
    if keyword.Rejected? then Rejected else
    var n := Number(keyword.rest);
    if n.Rejected? then Rejected else StrictVertices(n.rest, n.value)
  }

  function StrictLoops(s: string, n: int): Outcome<seq<Loop>>
    decreases n
  {
    if n <= 0 then Accepted([], s) else
    var before := StrictLoops(s, n - 1);
    if before.Rejected? then Rejected else
    var loop := StrictLoop(before.rest);
    if loop.Rejected? then Rejected else Accepted(before.value + [loop.value], loop.rest)
  }

  function StrictPoly(s: string, tag: string): Outcome<seq<Loop>> {
    var keyword := Expect(s, tag, ' ');
    if keyword.Rejected? then Rejected else
    var n := Number(keyword.rest);
    if n.Rejected? then Rejected else StrictLoops(n.rest, n.value)
  }

  function StrictCase(s: string): Outcome<Case> {
    var keyword := Expect(s, "CASE", ' ');
    if keyword.Rejected? then Rejected else
    var name := Field(keyword.rest, ' ');
    if name.Rejected? then Rejected else
    var op := Field(name.rest, ' ');
    if op.Rejected? then Rejected else
    var normalize := Number(op.rest);
    if normalize.Rejected? then Rejected else
    var a := StrictPoly(normalize.rest, "A");
    if a.Rejected? then Rejected else
    var b := StrictPoly(a.rest, "B");
    if b.Rejected? then Rejected else
    var end := Expect(b.rest, "END", '\n');
    if end.Rejected? then Rejected else Accepted(Case(name.value, op.value, normalize.value, a.value, b.value), end.rest)
  }

  /** The given number of cases and then the end of the text. */
  function StrictCases(s: string, n: nat): Outcome<seq<Case>>
    decreases n
  {
    if n == 0 then (if s == [] then Accepted([], []) else Rejected) else
    var c := StrictCase(s);
    if c.Rejected? then Rejected else
    var more := StrictCases(c.rest, n - 1);
    if more.Rejected? then Rejected else Accepted([c.value] + more.value, more.rest)
  }

  /** The given number of lines, without their ends. */
  function StrictLines(s: string, n: nat): Outcome<seq<string>>
    decreases n
  {
    if n == 0 then Accepted([], s) else
    var line := Field(s, '\n');
    if line.Rejected? then Rejected else
    var more := StrictLines(line.rest, n - 1);
    if more.Rejected? then Rejected else Accepted([line.value] + more.value, more.rest)
  }

  // ----- what the writer writes is accepted -----

  lemma {:induction false} FieldEnds(t: string, sep: char, rest: string)
    requires sep !in t
    ensures Field(t + [sep] + rest, sep) == Accepted(t, rest)
  {
    var s := t + [sep] + rest;
    if t == [] {
      assert s[1..] == rest;
    } else {
      assert t[0] in t;
      assert s[1..] == t[1..] + [sep] + rest;
      FieldEnds(t[1..], sep, rest);
      assert t == [t[0]] + t[1..];
    }
  }

  lemma Plain(t: string)
    requires IsToken(t)
    ensures ' ' !in t && '\n' !in t
  {
  }

  /** A word stands at the front of the text. */
  lemma {:induction false} FieldAt(t: string, sep: char, more: seq<Word>)
    requires sep !in t
    ensures Field(Render([(t, sep)] + more), sep) == Accepted(t, Render(more))
    ensures Expect(Render([(t, sep)] + more), t, sep) == Accepted((), Render(more))
  {
    var words: seq<Word> := [(t, sep)] + more;
    assert words[0] == (t, sep) && words[1..] == more;
    FieldEnds(t, sep, Render(more));
  }

  lemma {:induction false} NumberAt(n: int, more: seq<Word>)
    ensures Number(Render([(Printed(n), '\n')] + more)) == Accepted(n, Render(more))
  {
    hide *;
    PrintedIsNumber(n);
    FieldAt(Printed(n), '\n', more);
    NumberIs(Render([(Printed(n), '\n')] + more), Printed(n), Render(more));
  }

  lemma {:induction false} NumberIs(s: string, t: string, rest: string)
    requires Field(s, '\n') == Accepted(t, rest) && IsNumber(t)
    ensures Number(s) == Accepted(NumberOf(t), rest)
  {
  }

  lemma {:induction false} VertexAt(v: Vertex, more: seq<Word>)
    requires IsToken(v.x) && IsToken(v.y) && IsToken(v.z)
    ensures StrictVertex(Render(VertexWords(v) + more)) == Accepted(v, Render(more))
  {
    hide Render, Field, IsToken;
    Plain(v.x);
    Plain(v.y);
    Plain(v.z);
    FieldAt(v.z, '\n', more);
    FieldAt(v.y, ' ', [(v.z, '\n')] + more);
    FieldAt(v.x, ' ', [(v.y, ' ')] + ([(v.z, '\n')] + more));
    assert VertexWords(v) + more == [(v.x, ' ')] + ([(v.y, ' ')] + ([(v.z, '\n')] + more));
  }

  lemma {:induction false} VerticesAt(loop: Loop, more: seq<Word>)
    requires GoodLoop(loop)
    ensures StrictVertices(Render(VerticesWords(loop) + more), |loop|) == Accepted(loop, Render(more))
  {
    hide Render, StrictVertex;
    if loop == [] {
      assert VerticesWords(loop) + more == more;
    } else {
      var init, v := loop[..|loop| - 1], loop[|loop| - 1];
      assert VerticesWords(loop) + more == VerticesWords(init) + (VertexWords(v) + more);
      VerticesAt(init, VertexWords(v) + more);
      VertexAt(v, more);
      assert loop == init + [v];
    }
  }

  lemma {:induction false} LoopAt(loop: Loop, more: seq<Word>)
    requires GoodLoop(loop)
    ensures StrictLoop(Render(LoopWords("LOOP", loop) + more)) == Accepted(loop, Render(more))
  {
    hide Render, Expect, Number, StrictVertices, GoodLoop, VerticesWords;
    var rest := VerticesWords(loop) + more;
    assert LoopWords("LOOP", loop) + more == [("LOOP", ' ')] + ([(Printed(|loop|), '\n')] + rest);
    FieldAt("LOOP", ' ', [(Printed(|loop|), '\n')] + rest);
    NumberAt(|loop|, rest);
    VerticesAt(loop, more);
  }

  lemma {:induction false} LoopsAt(loops: seq<Loop>, more: seq<Word>)
    requires GoodPoly(loops)
    ensures StrictLoops(Render(LoopsWords("LOOP", loops) + more), |loops|) == Accepted(loops, Render(more))
  {
    hide Render, StrictLoop, LoopWords, GoodLoop;
    if loops == [] {
      assert LoopsWords("LOOP", loops) + more == more;
    } else {
      var init, l := loops[..|loops| - 1], loops[|loops| - 1];
      assert LoopsWords("LOOP", loops) + more == LoopsWords("LOOP", init) + (LoopWords("LOOP", l) + more);
      LoopsAt(init, LoopWords("LOOP", l) + more);
      LoopAt(l, more);
      assert loops == init + [l];
    }
  }

  lemma {:induction false} PolyAt(tag: string, loops: seq<Loop>, more: seq<Word>)
    requires IsToken(tag) && GoodPoly(loops)
    ensures StrictPoly(Render(PolyWords(tag, "LOOP", loops) + more), tag) == Accepted(loops, Render(more))
  {
    hide Render, Expect, Number, StrictLoops, GoodPoly, LoopsWords, IsToken;
    var rest := LoopsWords("LOOP", loops) + more;
    assert PolyWords(tag, "LOOP", loops) + more == [(tag, ' ')] + ([(Printed(|loops|), '\n')] + rest);
    Plain(tag);
    FieldAt(tag, ' ', [(Printed(|loops|), '\n')] + rest);
    NumberAt(|loops|, rest);
    LoopsAt(loops, more);
  }

  lemma {:induction false} CaseAt(c: Case, more: seq<Word>)
    requires GoodCase(c)
    ensures StrictCase(Render(CaseWords(WRITTEN, c) + more)) == Accepted(c, Render(more))
  {
    hide Render, Field, Expect, Number, StrictPoly, GoodPoly, PolyWords;
    var w4 := [("END", '\n')] + more;
    var w3 := PolyWords("B", "LOOP", c.b) + w4;
    var w2 := PolyWords("A", "LOOP", c.a) + w3;
    var w1 := [(Printed(c.normalize), '\n')] + w2;
    assert CaseWords(WRITTEN, c) + more == [("CASE", ' ')] + ([(c.name, ' ')] + ([(c.op, ' ')] + w1));
    Plain(c.name);
    Plain(c.op);
    FieldAt("CASE", ' ', [(c.name, ' ')] + ([(c.op, ' ')] + w1));
    FieldAt(c.name, ' ', [(c.op, ' ')] + w1);
    FieldAt(c.op, ' ', w1);
    NumberAt(c.normalize, w2);
    PolyAt("A", c.a, w3);
    PolyAt("B", c.b, w4);
    FieldAt("END", '\n', more);
  }

  lemma {:induction false} CasesAt(cases: seq<Case>)
    requires forall i :: 0 <= i < |cases| ==> GoodCase(cases[i])
    ensures StrictCases(Render(CasesWords(WRITTEN, cases)), |cases|) == Accepted(cases, [])
  {
    hide CaseWords, StrictCase, GoodCase;
    if cases != [] {
      hide Render;
      CaseAt(cases[0], CasesWords(WRITTEN, cases[1..]));
      CasesAt(cases[1..]);
      assert cases == [cases[0]] + cases[1..];
    }
  }

  lemma {:induction false} LinesAt(lines: seq<string>, rest: string)
    requires forall i :: 0 <= i < |lines| ==> '\n' !in lines[i]
    ensures StrictLines(Text(lines) + rest, |lines|) == Accepted(lines, rest)
    decreases |lines|
  {
    if lines == [] {
      assert Text(lines) + rest == rest;
    } else {
      var first, tail := lines[0], lines[1..];
      FirstLine(lines);
      assert Text(lines) + rest == first + ['\n'] + (Text(tail) + rest);
      FieldEnds(first, '\n', Text(tail) + rest);
      LinesAt(tail, rest);
      assert lines == [first] + tail;
    }
  }

  lemma {:induction false} FirstLine(lines: seq<string>)
    requires lines != []
    ensures Text(lines) == lines[0] + ['\n'] + Text(lines[1..])
    decreases |lines|
  {
    var init, tail := lines[..|lines| - 1], lines[1..];
    if init == [] {
      assert tail == [];
    } else {
      FirstLine(init);
      assert init[1..] == tail[..|tail| - 1];
      LastLine(lines);
      LastLine(tail);
      hide Text;
    }
  }

  lemma {:induction false} LastLine(lines: seq<string>)
    requires lines != []
    ensures Text(lines) == Text(lines[..|lines| - 1]) + (lines[|lines| - 1] + ['\n'])
  {
  }

  /** The written file is the header, line by line, and then the cases in the format. */
  lemma {:induction false} WrittenInFormat(header: seq<string>, cases: seq<Case>)
    requires forall i :: 0 <= i < |header| ==> '\n' !in header[i]
    requires forall i :: 0 <= i < |cases| ==> GoodCase(cases[i])
    ensures var lines := StrictLines(Text(header) + Render(CasesWords(WRITTEN, cases)), |header|);
      && lines.Accepted? && lines.value == header
      && StrictCases(lines.rest, |cases|) == Accepted(cases, [])
  {
    LinesAt(header, Render(CasesWords(WRITTEN, cases)));
    CasesAt(cases);
  }
}
