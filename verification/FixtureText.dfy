/**
 The boolean-operation fixture file: the writer that prints cases line by line, the parser that
 reads them back from a character stream, and the proof that the parser undoes the writer.
 */
module FixtureText {
  import opened Decimals

  datatype Vertex = Vertex(x: string, y: string, z: string)

  type Loop = seq<Vertex>

  datatype Case = Case(name: string, op: string, normalize: int, a: seq<Loop>, b: seq<Loop>)

  const INT_MAX: int := 2147483647
  const INT_MIN: int := -2147483648

  // ----- the character stream -----

  /** What is left to read, and whether an extraction has failed. */
  datatype Stream = Stream(rest: string, failed: bool)

  predicate IsSpace(c: char) {
    c == ' ' || '\t' <= c <= '\r'
  }

  function SkipSpace(s: string): (r: string)
    ensures |r| <= |s| && (r != [] ==> !IsSpace(r[0]))
  {
    if s != [] && IsSpace(s[0]) then SkipSpace(s[1..]) else s
  }

  /** The length of the token at the front of `s`. */
  function TokenLength(s: string): (n: nat)
    ensures n <= |s| && (s != [] && !IsSpace(s[0]) ==> n > 0)
  {
    if s == [] || IsSpace(s[0]) then 0 else 1 + TokenLength(s[1..])
  }

  /** Extraction of a word; an empty word and a failed stream at the end of the input. */
  function ReadWord(st: Stream): (string, Stream) {
    if st.failed then ("", st)
    else
      var s := SkipSpace(st.rest);
      if s == [] then ("", Stream([], true))
      else (s[..TokenLength(s)], Stream(s[TokenLength(s)..], false))
  }

  function DigitCount(s: string): (n: nat)
    ensures n <= |s| && forall i :: 0 <= i < n ==> IsDigit(s[i])
  {
    if s == [] || !IsDigit(s[0]) then 0 else 1 + DigitCount(s[1..])
  }

  /** Extraction of a 32-bit integer: zero on failure, the nearest bound and failure on overflow. */
  function ReadInt(st: Stream): (int, Stream) {
    if st.failed then (0, st)
    else
      var s := SkipSpace(st.rest);
      var negative := s != [] && s[0] == '-';
      var digits := if negative || (s != [] && s[0] == '+') then s[1..] else s;
      var n := DigitCount(digits);
      var value: int := if negative then 0 - DigitsValue(digits[..n]) else DigitsValue(digits[..n]);
      if n == 0 then (0, Stream(digits, true))
      else if value > INT_MAX then (INT_MAX, Stream(digits[n..], true))
      else if value < INT_MIN then (INT_MIN, Stream(digits[n..], true))
      else (value, Stream(digits[n..], false))
  }

  /** The rest of the line is dropped, with its end. */
  function SkipLine(st: Stream): Stream {
    if st.failed then st
    else if st.rest == [] then Stream([], true)
    else DropLine(st)
  }

  function DropLine(st: Stream): (r: Stream)
    ensures |r.rest| <= |st.rest|
    decreases |st.rest|
  {
    if st.rest == [] then st
    else if st.rest[0] == '\n' then Stream(st.rest[1..], st.failed)
    else DropLine(Stream(st.rest[1..], st.failed))
  }

  lemma ReadShrinks(st: Stream)
    ensures |ReadWord(st).1.rest| <= |st.rest| && |ReadInt(st).1.rest| <= |st.rest| && |SkipLine(st).rest| <= |st.rest|
    ensures !ReadWord(st).1.failed ==> |ReadWord(st).1.rest| < |st.rest|
    ensures st.failed ==> ReadWord(st).1.failed && ReadInt(st).1.failed && SkipLine(st).failed
  {
  }

  // ----- the parser -----

  function ReadVertices(st: Stream, n: int): (Loop, Stream)
    decreases n
  {
    if n <= 0 then ([], st)
    else
      var (before, s0) := ReadVertices(st, n - 1);
      var (x, s1) := ReadWord(s0);
      var (y, s2) := ReadWord(s1);
      var (z, s3) := ReadWord(s2);
      (before + [Vertex(x, y, z)], s3)
  }

  function ReadLoops(st: Stream, n: int): (seq<Loop>, Stream)
    decreases n
  {
    if n <= 0 then ([], st)
    else
      var (before, s0) := ReadLoops(st, n - 1);
      var (keyword, s1) := ReadWord(s0);
      var (nv, s2) := ReadInt(s1);
      var (loop, s3) := ReadVertices(s2, nv);
      (before + [loop], s3)
  }

  function ReadPoly(st: Stream): (seq<Loop>, Stream) {
    var (tag, s1) := ReadWord(st);
    var (n, s2) := ReadInt(s1);
    ReadLoops(s2, n)
  }

  function ReadCase(st: Stream): (Case, Stream) {
    var (name, s1) := ReadWord(st);
    var (op, s2) := ReadWord(s1);
    var (normalize, s3) := ReadInt(s2);
    var (a, s4) := ReadPoly(s3);
    var (b, s5) := ReadPoly(s4);
    var (end, s6) := ReadWord(s5);
    (Case(name, op, normalize, a, b), s6)
  }

  lemma {:induction false} VerticesShrink(st: Stream, n: int)
    ensures |ReadVertices(st, n).1.rest| <= |st.rest|
    decreases n
  {
    hide ReadWord, ReadInt;
    if n > 0 {
      VerticesShrink(st, n - 1);
      var s0 := ReadVertices(st, n - 1).1;
      ReadShrinks(s0);
      ReadShrinks(ReadWord(s0).1);
      ReadShrinks(ReadWord(ReadWord(s0).1).1);
    }
  }

  lemma {:induction false} LoopsShrink(st: Stream, n: int)
    ensures |ReadLoops(st, n).1.rest| <= |st.rest|
    decreases n
  {
    hide ReadWord, ReadInt, ReadVertices;
    if n > 0 {
      LoopsShrink(st, n - 1);
      var s0 := ReadLoops(st, n - 1).1;
      ReadShrinks(s0);
      var s1 := ReadWord(s0).1;
      ReadShrinks(s1);
      VerticesShrink(ReadInt(s1).1, ReadInt(s1).0);
    }
  }

  lemma PolyShrinks(st: Stream)
    ensures |ReadPoly(st).1.rest| <= |st.rest|
  {
    hide ReadWord, ReadInt, ReadLoops;
    ReadShrinks(st);
    var s1 := ReadWord(st).1;
    ReadShrinks(s1);
    LoopsShrink(ReadInt(s1).1, ReadInt(s1).0);
  }

  lemma CaseShrinks(st: Stream)
    ensures |ReadCase(st).1.rest| <= |st.rest|
  {
    hide ReadWord, ReadInt, ReadPoly;
    var s1 := ReadWord(st).1;
    var s2 := ReadWord(s1).1;
    var s3 := ReadInt(s2).1;
    var s4 := ReadPoly(s3).1;
    var s5 := ReadPoly(s4).1;
    ReadShrinks(st);
    ReadShrinks(s1);
    ReadShrinks(s2);
    PolyShrinks(s3);
    PolyShrinks(s4);
    ReadShrinks(s5);
  }

  function ParseCases(st: Stream): seq<Case>
    decreases |st.rest|
  {
    ReadShrinks(st);
    var (tok, s1) := ReadWord(st);
    if s1.failed then []
    else if tok != "CASE" then ReadShrinks(s1); ParseCases(SkipLine(s1))
    else CaseShrinks(s1); [ReadCase(s1).0] + ParseCases(ReadCase(s1).1)
  }

  method ParseVertices(st: Stream, nv: int) returns (loop: Loop, out: Stream)
    ensures (loop, out) == ReadVertices(st, nv)
  {
    loop, out := [], st;
    var v := 0;
    while v < nv
      invariant 0 <= v && (v <= nv || v == 0)
      invariant (loop, out) == ReadVertices(st, v)
    {
      var (x, s1) := ReadWord(out);
      var (y, s2) := ReadWord(s1);
      var (z, s3) := ReadWord(s2);
      loop, out, v := loop + [Vertex(x, y, z)], s3, v + 1;
    }
  }

  method ParsePoly(st: Stream) returns (loops: seq<Loop>, out: Stream)
    ensures (loops, out) == ReadPoly(st)
  {
    hide ReadWord, ReadInt, ReadVertices;
    var (tag, s1) := ReadWord(st);
    var (numLoops, s2) := ReadInt(s1);
    loops, out := [], s2;
    var i := 0;
    while i < numLoops
      invariant 0 <= i && (i <= numLoops || i == 0)
      invariant (loops, out) == ReadLoops(s2, i)
    {
      var (keyword, s3) := ReadWord(out);
      var (nv, s4) := ReadInt(s3);
      var loop, s5 := ParseVertices(s4, nv);
      loops, out, i := loops + [loop], s5, i + 1;
    }
  }

  method ParseInputs(text: string) returns (cases: seq<Case>)
    ensures cases == ParseCases(Stream(text, false))
  {
    hide ReadWord, ReadInt, SkipLine, ReadPoly;
    cases := [];
    var st := Stream(text, false);
    ReadShrinks(st);
    var (tok, next) := ReadWord(st);
    while !next.failed
      invariant (tok, next) == ReadWord(st)
      invariant cases + ParseCases(st) == ParseCases(Stream(text, false))
      decreases |st.rest|
    {
      ReadShrinks(st);
      if tok != "CASE" {
        ReadShrinks(next);
        st := SkipLine(next);
      } else {
        CaseShrinks(next);
        var (name, s1) := ReadWord(next);
        var (op, s2) := ReadWord(s1);
        var (normalize, s3) := ReadInt(s2);
        var a, s4 := ParsePoly(s3);
        var b, s5 := ParsePoly(s4);
        var (end, s6) := ReadWord(s5);
        cases := cases + [Case(name, op, normalize, a, b)];
        st := s6;
      }
      var pair := ReadWord(st);
      tok, next := pair.0, pair.1;
    }
  }

  // ----- the writer -----

  function Printed(n: int): (s: string)
    ensures s != [] && forall i :: 0 <= i < |s| ==> IsDigit(s[i]) || s[i] == '-'
  {
    if n < 0 then "-" + Decimal(-n) else Decimal(n)
  }

  /** Lines as text, each with its end. */
  function Text(lines: seq<string>): string {
    if lines == [] then "" else Text(lines[..|lines| - 1]) + lines[|lines| - 1] + "\n"
  }

  /** `"\n".join(lines)`. */
  function JoinLines(lines: seq<string>): string
    requires lines != []
  {
    if |lines| == 1 then lines[0] else JoinLines(lines[..|lines| - 1]) + "\n" + lines[|lines| - 1]
  }

  lemma {:induction false} JoinedText(lines: seq<string>)
    requires lines != []
    ensures JoinLines(lines) + "\n" == Text(lines)
  {
    var init := lines[..|lines| - 1];
    if |lines| == 1 {
      assert init == [];
    } else {
      JoinedText(init);
    }
  }

  /** A word and the character that ends it. */
  type Word = (string, char)

  function Render(words: seq<Word>): string {
    if words == [] then "" else words[0].0 + [words[0].1] + Render(words[1..])
  }

  lemma {:induction false} RenderConcat(a: seq<Word>, b: seq<Word>)
    ensures Render(a + b) == Render(a) + Render(b)
  {
    if a == [] {
      assert a + b == b;
    } else {
      assert (a + b)[1..] == a[1..] + b;
      RenderConcat(a[1..], b);
    }
  }

  function VertexWords(v: Vertex): seq<Word> {
    [(v.x, ' '), (v.y, ' '), (v.z, '\n')]
  }

  function VerticesWords(loop: Loop): seq<Word> {
    if loop == [] then [] else VerticesWords(loop[..|loop| - 1]) + VertexWords(loop[|loop| - 1])
  }

  /** The words that name the parts of a case. */
  datatype Labels = Labels(a: string, b: string, loop: string, end: string)

  const WRITTEN := Labels("A", "B", "LOOP", "END")

  function LoopWords(keyword: string, loop: Loop): seq<Word> {
    [(keyword, ' '), (Printed(|loop|), '\n')] + VerticesWords(loop)
  }

  function LoopsWords(keyword: string, loops: seq<Loop>): seq<Word> {
    if loops == [] then [] else LoopsWords(keyword, loops[..|loops| - 1]) + LoopWords(keyword, loops[|loops| - 1])
  }

  function PolyWords(tag: string, keyword: string, loops: seq<Loop>): seq<Word> {
    [(tag, ' '), (Printed(|loops|), '\n')] + LoopsWords(keyword, loops)
  }

  function CaseWords(l: Labels, c: Case): seq<Word> {
    [("CASE", ' '), (c.name, ' '), (c.op, ' '), (Printed(c.normalize), '\n')]
    + PolyWords(l.a, l.loop, c.a) + PolyWords(l.b, l.loop, c.b) + [(l.end, '\n')]
  }

  function CasesWords(l: Labels, cases: seq<Case>): seq<Word> {
    if cases == [] then [] else CaseWords(l, cases[0]) + CasesWords(l, cases[1..])
  }

  /** One more line of words separated by blanks. */
  lemma {:induction false} TextLine(lines: seq<string>, line: string, words: seq<Word>)
    requires line + "\n" == Render(words)
    ensures Text(lines + [line]) == Text(lines) + Render(words)
  {
    assert (lines + [line])[..|lines|] == lines;
    assert Text(lines) + line + "\n" == Text(lines) + (line + "\n");
  }

  lemma OneWord(a: string)
    ensures a + "\n" == Render([(a, '\n')])
  {
    var w: seq<Word> := [(a, '\n')];
    assert w[1..] == [];
  }

  lemma TwoWords(a: string, b: string)
    ensures a + " " + b + "\n" == Render([(a, ' '), (b, '\n')])
  {
    var w: seq<Word> := [(a, ' '), (b, '\n')];
    OneWord(b);
    assert w[1..] == [(b, '\n')];
    assert a + " " + b + "\n" == a + [' '] + (b + "\n");
  }

  lemma ThreeWords(a: string, b: string, c: string)
    ensures a + " " + b + " " + c + "\n" == Render([(a, ' '), (b, ' '), (c, '\n')])
  {
    var w: seq<Word> := [(a, ' '), (b, ' '), (c, '\n')];
    TwoWords(b, c);
    assert w[1..] == [(b, ' '), (c, '\n')];
    assert a + " " + b + " " + c + "\n" == a + [' '] + (b + " " + c + "\n");
  }

  lemma FourWords(a: string, b: string, c: string, d: string)
    ensures a + " " + b + " " + c + " " + d + "\n" == Render([(a, ' '), (b, ' '), (c, ' '), (d, '\n')])
  {
    var w: seq<Word> := [(a, ' '), (b, ' '), (c, ' '), (d, '\n')];
    ThreeWords(b, c, d);
    assert w[1..] == [(b, ' '), (c, ' '), (d, '\n')];
    assert a + " " + b + " " + c + " " + d + "\n" == a + [' '] + (b + " " + c + " " + d + "\n");
  }

  method WriteVertices(lines: seq<string>, loop: Loop) returns (out: seq<string>)
    ensures Text(out) == Text(lines) + Render(VerticesWords(loop)) && |out| >= |lines|
  {
    hide Text, Render;
    out := lines;
    RenderNothing(lines);
    for v := 0 to |loop|
      invariant Text(out) == Text(lines) + Render(VerticesWords(loop[..v])) && |out| >= |lines|
    {
      assert loop[..v + 1][..v] == loop[..v];
      ThreeWords(loop[v].x, loop[v].y, loop[v].z);
      TextLine(out, loop[v].x + " " + loop[v].y + " " + loop[v].z, VertexWords(loop[v]));
      RenderConcat(VerticesWords(loop[..v]), VertexWords(loop[v]));
      out := out + [loop[v].x + " " + loop[v].y + " " + loop[v].z];
    }
    assert loop[..|loop|] == loop;
  }

  lemma {:induction false} RenderNothing(lines: seq<string>)
    ensures Text(lines) == Text(lines) + Render([])
  {
  }

  method WritePoly(lines: seq<string>, tag: string, loops: seq<Loop>) returns (out: seq<string>)
    ensures Text(out) == Text(lines) + Render(PolyWords(tag, "LOOP", loops)) && |out| > |lines|
  {
    hide Text, Render, VerticesWords;
    var head: seq<Word> := [(tag, ' '), (Printed(|loops|), '\n')];
    TwoWords(tag, Printed(|loops|));
    TextLine(lines, tag + " " + Printed(|loops|), head);
    out := lines + [tag + " " + Printed(|loops|)];
    ghost var start := out;
    RenderNothing(start);
    for i := 0 to |loops|
      invariant Text(out) == Text(start) + Render(LoopsWords("LOOP", loops[..i])) && |out| > |lines|
    {
      assert loops[..i + 1][..i] == loops[..i];
      var loop := loops[i];
      var title: seq<Word> := [("LOOP", ' '), (Printed(|loop|), '\n')];
      TwoWords("LOOP", Printed(|loop|));
      TextLine(out, "LOOP" + " " + Printed(|loop|), title);
      out := out + ["LOOP" + " " + Printed(|loop|)];
      out := WriteVertices(out, loop);
      RenderConcat(title, VerticesWords(loop));
      RenderConcat(LoopsWords("LOOP", loops[..i]), LoopWords("LOOP", loop));
    }
    assert loops[..|loops|] == loops;
    RenderConcat(head, LoopsWords("LOOP", loops));
  }

  method WriteCase(lines: seq<string>, c: Case) returns (out: seq<string>)
    ensures Text(out) == Text(lines) + Render(CaseWords(WRITTEN, c)) && |out| > |lines|
  {
    hide Text, Render, PolyWords;
    var head: seq<Word> := [("CASE", ' '), (c.name, ' '), (c.op, ' '), (Printed(c.normalize), '\n')];
    var tail: seq<Word> := [("END", '\n')];
    FourWords("CASE", c.name, c.op, Printed(c.normalize));
    TextLine(lines, "CASE" + " " + c.name + " " + c.op + " " + Printed(c.normalize), head);
    out := lines + ["CASE" + " " + c.name + " " + c.op + " " + Printed(c.normalize)];
    out := WritePoly(out, "A", c.a);
    out := WritePoly(out, "B", c.b);
    OneWord("END");
    TextLine(out, "END", tail);
    out := out + ["END"];
    RenderConcat(head, PolyWords("A", "LOOP", c.a));
    RenderConcat(head + PolyWords("A", "LOOP", c.a), PolyWords("B", "LOOP", c.b));
    RenderConcat(head + PolyWords("A", "LOOP", c.a) + PolyWords("B", "LOOP", c.b), tail);
  }

  /** The whole file: the header lines, then the cases. */
  method WriteFile(header: seq<string>, cases: seq<Case>) returns (text: string)
    requires header != []
    ensures text == Text(header) + Render(CasesWords(WRITTEN, cases))
  {
    hide Text, Render, CaseWords;
    var lines := header;
    RenderNothing(header);
    for n := 0 to |cases|
      invariant |lines| > 0
      invariant Text(lines) + Render(CasesWords(WRITTEN, cases[n..])) == Text(header) + Render(CasesWords(WRITTEN, cases))
    {
      assert cases[n..][1..] == cases[n + 1..];
      RenderConcat(CaseWords(WRITTEN, cases[n]), CasesWords(WRITTEN, cases[n + 1..]));
      lines := WriteCase(lines, cases[n]);
    }
    RenderNothing(lines);
    JoinedText(lines);
    text := JoinLines(lines) + "\n";
  }

  // ----- reading back -----

  predicate IsToken(t: string) {
    t != [] && forall i :: 0 <= i < |t| ==> !IsSpace(t[i])
  }

  ghost predicate GoodWords(words: seq<Word>) {
    forall i :: 0 <= i < |words| ==> IsToken(words[i].0) && IsSpace(words[i].1)
  }

  /** The stream stands, after any white space, at the start of the given words. */
  ghost predicate At(st: Stream, words: seq<Word>) {
    !st.failed && SkipSpace(st.rest) == Render(words) && GoodWords(words)
  }

  lemma {:induction false} SkipRender(words: seq<Word>)
    requires GoodWords(words)
    ensures SkipSpace(Render(words)) == Render(words)
  {
    if words != [] {
      assert Render(words)[0] == words[0].0[0];
    }
  }

  lemma {:induction false} TokenEnds(t: string, sep: char, rest: string)
    requires (forall i :: 0 <= i < |t| ==> !IsSpace(t[i])) && IsSpace(sep)
    ensures TokenLength(t + [sep] + rest) == |t|
  {
    if t != [] {
      TokenEnds(t[1..], sep, rest);
      assert (t + [sep] + rest)[1..] == t[1..] + [sep] + rest;
    }
  }

  lemma {:induction false} Separated(sep: char, words: seq<Word>)
    requires IsSpace(sep) && GoodWords(words)
    ensures At(Stream([sep] + Render(words), false), words)
  {
    SkipRender(words);
    assert ([sep] + Render(words))[1..] == Render(words);
  }

  lemma ReadWordAt(st: Stream, words: seq<Word>)
    requires At(st, words) && words != []
    ensures ReadWord(st).0 == words[0].0 && At(ReadWord(st).1, words[1..])
  {
    var (t, sep) := words[0];
    var rest := Render(words[1..]);
    var s := SkipSpace(st.rest);
    assert s == t + [sep] + rest;
    TokenEnds(t, sep, rest);
    assert s[..|t|] == t && s[|t|..] == [sep] + rest;
    Separated(sep, words[1..]);
  }

  lemma {:induction false} DigitsEnd(t: string, sep: char, rest: string)
    requires (forall i :: 0 <= i < |t| ==> IsDigit(t[i])) && IsSpace(sep)
    ensures DigitCount(t + [sep] + rest) == |t|
  {
    if t != [] {
      DigitsEnd(t[1..], sep, rest);
      assert (t + [sep] + rest)[1..] == t[1..] + [sep] + rest;
    }
  }

  lemma ReadIntAt(st: Stream, words: seq<Word>, n: int)
    requires At(st, words) && words != [] && words[0].0 == Printed(n) && FitsInt(n)
    ensures ReadInt(st).0 == n && At(ReadInt(st).1, words[1..])
  {
    hide Decimal, Render, SkipSpace, ReadInt, DigitCount, DigitsValue;
    var sep, rest := words[0].1, Render(words[1..]);
    var size: nat := if n < 0 then -n else n;
    var d := Decimal(size);
    SkipToWord(st, words);
    DigitsEnd(d, sep, rest);
    DecimalValue(size);
    Separated(sep, words[1..]);
    var tail := [sep] + rest;
    assert d + [sep] + rest == d + tail;
    assert n < 0 ==> Printed(n) + [sep] + rest == ['-'] + (d + tail);
    ReadDigits(st, d, tail, n);
  }

  lemma SkipToWord(st: Stream, words: seq<Word>)
    requires At(st, words) && words != []
    ensures !st.failed && SkipSpace(st.rest) == words[0].0 + [words[0].1] + Render(words[1..])
    ensures IsSpace(words[0].1) && GoodWords(words[1..])
  {
  }

  /** Extraction of a printed number whose digits end where `tail` begins. */
  lemma {:induction false} ReadDigits(st: Stream, d: string, tail: string, n: int)
    requires !st.failed && d != [] && FitsInt(n)
    requires SkipSpace(st.rest) == (if n < 0 then ['-'] + (d + tail) else d + tail)
    requires (forall i :: 0 <= i < |d| ==> IsDigit(d[i])) && DigitCount(d + tail) == |d|
    requires DigitsValue(d) == if n < 0 then -n else n
    ensures ReadInt(st) == (n, Stream(tail, false))
  {
    hide DigitsValue, DigitCount, SkipSpace;
    var s := SkipSpace(st.rest);
    assert (d + tail)[..|d|] == d && (d + tail)[|d|..] == tail;
    if n < 0 {
      assert s[1..] == d + tail;
    } else {
      assert s[0] == d[0] && IsDigit(s[0]);
    }
  }

  /** A 32-bit integer. */
  predicate FitsInt(n: int) {
    -2147483648 <= n <= 2147483647
  }

  lemma SpaceIsSix(c: char)
    ensures IsSpace(c) <==> c in {' ', '\t', '\n', '\r', 11 as char, 12 as char}
  {
  }

  lemma {:induction false} DigitsStop(s: string)
    ensures DigitCount(s) < |s| ==> !IsDigit(s[DigitCount(s)])
  {
    if s != [] && IsDigit(s[0]) {
      DigitsStop(s[1..]);
    }
  }

  predicate IsSign(c: char) {
    c == '+' || c == '-'
  }

  /** The three parts of a text that a number is extracted from: a sign or none, digits, the rest. */
  ghost predicate NumberParts(s: string, sign: string, digits: string, tail: string) {
    && s == sign + (digits + tail)
    && (sign == "" || (|sign| == 1 && IsSign(sign[0])))
    && (forall i :: 0 <= i < |digits| ==> IsDigit(digits[i]))
    && (tail != [] ==> !IsDigit(tail[0]) && (sign == "" && digits == "" ==> !IsSign(tail[0])))
  }

  /** Without digits the result is zero, beyond 32 bits it is the nearer bound; both are failures. */
  ghost function NumberRead(sign: string, digits: string, tail: string): (int, Stream)
    requires forall i :: 0 <= i < |digits| ==> IsDigit(digits[i])
  {
    var value: int := if sign == "-" then 0 - DigitsValue(digits) else DigitsValue(digits);
    if digits == "" then (0, Stream(tail, true))
    else if FitsInt(value) then (value, Stream(tail, false))
    else (if value < 0 then -2147483648 else 2147483647, Stream(tail, true))
  }

  lemma {:induction false} ReadIntMeans(st: Stream) returns (sign: string, digits: string, tail: string)
    requires !st.failed
    ensures NumberParts(SkipSpace(st.rest), sign, digits, tail) && ReadInt(st) == NumberRead(sign, digits, tail)
  {
    hide *;
    sign, digits, tail := Parts(SkipSpace(st.rest));
    ReadParts(st, sign, digits, tail);
  }

  lemma {:induction false} Parts(s: string) returns (sign: string, digits: string, tail: string)
    ensures NumberParts(s, sign, digits, tail) && |digits| == DigitCount(digits + tail)
  {
    hide DigitCount;
    sign := if s != [] && IsSign(s[0]) then [s[0]] else "";
    var r := s[|sign|..];
    assert s == sign + r;
    DigitsStop(r);
    digits, tail := r[..DigitCount(r)], r[DigitCount(r)..];
    assert r == digits + tail;
  }

  lemma {:induction false} ReadParts(st: Stream, sign: string, digits: string, tail: string)
    requires !st.failed && NumberParts(SkipSpace(st.rest), sign, digits, tail) && |digits| == DigitCount(digits + tail)
    ensures ReadInt(st) == NumberRead(sign, digits, tail)
  {
    hide DigitsValue, SkipSpace, DigitCount;
    var s, r := SkipSpace(st.rest), digits + tail;
    assert r[..|digits|] == digits && r[|digits|..] == tail;
    if sign == "" {
      assert s == r && (s != [] ==> !IsSign(s[0]));
    } else {
      assert s[0] == sign[0] && s[1..] == r;
      assert sign == [sign[0]];
    }
  }

  ghost predicate GoodLabels(l: Labels) {
    IsToken(l.a) && IsToken(l.b) && IsToken(l.loop) && IsToken(l.end)
  }

  ghost predicate GoodLoop(loop: Loop) {
    FitsInt(|loop|) && forall i :: 0 <= i < |loop| ==> IsToken(loop[i].x) && IsToken(loop[i].y) && IsToken(loop[i].z)
  }

  ghost predicate GoodPoly(loops: seq<Loop>) {
    FitsInt(|loops|) && forall i :: 0 <= i < |loops| ==> GoodLoop(loops[i])
  }

  /** What the writer is given: names and coordinates without white space, counts that fit an int. */
  ghost predicate GoodCase(c: Case) {
    IsToken(c.name) && IsToken(c.op) && FitsInt(c.normalize) && GoodPoly(c.a) && GoodPoly(c.b)
  }

  lemma {:induction false} ReadVerticesAt(st: Stream, loop: Loop, more: seq<Word>)
    requires At(st, VerticesWords(loop) + more) && FitsInt(|loop|)
    ensures ReadVertices(st, |loop|).0 == loop && At(ReadVertices(st, |loop|).1, more)
  {
    hide At, ReadWord;
    if loop == [] {
      assert VerticesWords(loop) + more == more;
    } else {
      var init, v := loop[..|loop| - 1], loop[|loop| - 1];
      var words := VertexWords(v) + more;
      assert VerticesWords(loop) + more == VerticesWords(init) + words;
      ReadVerticesAt(st, init, words);
      var s0 := ReadVertices(st, |init|).1;
      ReadWordAt(s0, words);
      ReadWordAt(ReadWord(s0).1, words[1..]);
      ReadWordAt(ReadWord(ReadWord(s0).1).1, words[1..][1..]);
      assert words[1..][1..][1..] == more;
      assert init + [v] == loop;
    }
  }

  lemma LoopSize(loops: seq<Loop>, i: nat)
    requires GoodPoly(loops) && i < |loops|
    ensures GoodLoop(loops[i]) && FitsInt(|loops[i]|)
  {
  }

  lemma {:induction false} ReadLoopsAt(st: Stream, kw: string, loops: seq<Loop>, more: seq<Word>)
    requires At(st, LoopsWords(kw, loops) + more) && GoodPoly(loops)
    ensures ReadLoops(st, |loops|).0 == loops && At(ReadLoops(st, |loops|).1, more)
  {
    hide At, ReadWord, ReadInt, ReadVertices, VerticesWords, Printed, GoodLoop;
    if loops == [] {
      assert LoopsWords(kw, loops) + more == more;
    } else {
      var init, l := loops[..|loops| - 1], loops[|loops| - 1];
      var words := LoopWords(kw, l) + more;
      assert LoopsWords(kw, loops) + more == LoopsWords(kw, init) + words;
      ReadLoopsAt(st, kw, init, words);
      var s0 := ReadLoops(st, |init|).1;
      ReadWordAt(s0, words);
      LoopSize(loops, |loops| - 1);
      ReadIntAt(ReadWord(s0).1, words[1..], |l|);
      assert words[1..][1..] == VerticesWords(l) + more;
      ReadVerticesAt(ReadInt(ReadWord(s0).1).1, l, more);
      assert init + [l] == loops;
    }
  }

  lemma ReadPolyAt(st: Stream, tag: string, kw: string, loops: seq<Loop>, more: seq<Word>)
    requires At(st, PolyWords(tag, kw, loops) + more) && GoodPoly(loops)
    ensures ReadPoly(st).0 == loops && At(ReadPoly(st).1, more)
  {
    hide At, ReadWord, ReadInt, ReadLoops, LoopsWords, Printed;
    var words := PolyWords(tag, kw, loops) + more;
    ReadWordAt(st, words);
    ReadIntAt(ReadWord(st).1, words[1..], |loops|);
    assert words[1..][1..] == LoopsWords(kw, loops) + more;
    ReadLoopsAt(ReadInt(ReadWord(st).1).1, kw, loops, more);
  }

  /** After the word CASE the rest of the case is read back. */
  lemma ReadCaseAt(st: Stream, l: Labels, c: Case, more: seq<Word>)
    requires GoodCase(c) && At(st, CaseWords(l, c)[1..] + more)
    ensures ReadCase(st).0 == c && At(ReadCase(st).1, more)
  {
    hide At, ReadWord, ReadInt, ReadPoly, PolyWords, Printed;
    var w1 := CaseWords(l, c)[1..] + more;
    ReadWordAt(st, w1);
    var s1 := ReadWord(st).1;
    ReadWordAt(s1, w1[1..]);
    var s2 := ReadWord(s1).1;
    assert w1[1..][1..][0] == (Printed(c.normalize), '\n');
    ReadIntAt(s2, w1[1..][1..], c.normalize);
    var s3 := ReadInt(s2).1;
    var tail: seq<Word> := [(l.end, '\n')] + more;
    assert w1[1..][1..][1..] == PolyWords(l.a, l.loop, c.a) + (PolyWords(l.b, l.loop, c.b) + tail);
    ReadPolyAt(s3, l.a, l.loop, c.a, PolyWords(l.b, l.loop, c.b) + tail);
    var s4 := ReadPoly(s3).1;
    ReadPolyAt(s4, l.b, l.loop, c.b, tail);
    ReadWordAt(ReadPoly(s4).1, tail);
    assert tail[1..] == more;
  }

  lemma {:induction false} ParseCasesAt(st: Stream, l: Labels, cases: seq<Case>)
    requires (forall i :: 0 <= i < |cases| ==> GoodCase(cases[i])) && At(st, CasesWords(l, cases))
    ensures ParseCases(st) == cases
    decreases |cases|
  {
    hide GoodCase, ReadWord, ReadCase, At, CaseWords, SkipLine;
    if cases == [] {
      NothingLeft(st);
    } else {
      var c, more := cases[0], CasesWords(l, cases[1..]);
      var words := CaseWords(l, c) + more;
      FirstWord(l, c, more);
      ReadShrinks(st);
      ReadWordAt(st, words);
      var s1 := ReadWord(st).1;
      NotFailed(s1, words[1..]);
      CaseShrinks(s1);
      ReadCaseAt(s1, l, c, more);
      ParseCasesAt(ReadCase(s1).1, l, cases[1..]);
      assert cases == [c] + cases[1..];
    }
  }

  lemma {:induction false} NothingLeft(st: Stream)
    requires At(st, [])
    ensures ParseCases(st) == []
  {
  }

  lemma FirstWord(l: Labels, c: Case, more: seq<Word>)
    ensures var words := CaseWords(l, c) + more;
      words != [] && words[0].0 == "CASE" && words[1..] == CaseWords(l, c)[1..] + more
  {
  }

  lemma NotFailed(st: Stream, words: seq<Word>)
    requires At(st, words)
    ensures !st.failed
  {
  }

  /** A count below one stands for nothing, and what follows is read as if it followed directly. */
  lemma {:induction false} NegativeCountIsNone(st: Stream, tag: string, n: int, more: seq<Word>)
    requires n <= 0 && FitsInt(n) && At(st, [(tag, ' '), (Printed(n), '\n')] + more)
    ensures ReadPoly(st).0 == [] && At(ReadPoly(st).1, more)
    ensures ReadVertices(st, n) == ([], st)
  {
    hide At, ReadWord, ReadInt, Printed;
    var words := [(tag, ' '), (Printed(n), '\n')] + more;
    ReadWordAt(st, words);
    ReadIntAt(ReadWord(st).1, words[1..], n);
    assert words[1..][1..] == more;
  }

  /** A text that ends too early still yields the case it has begun, with what is missing left empty. */
  lemma {:induction false} CutShort(name: string, op: string)
    requires IsToken(name) && IsToken(op)
    ensures ParseCases(Stream("CASE " + name + " " + op + "\n", false)) == [Case(name, op, 0, [], [])]
  {
    var words: seq<Word> := [("CASE", ' '), (name, ' '), (op, '\n')];
    ThreeWords("CASE", name, op);
    assert "CASE" + " " == "CASE ";
    assert GoodWords(words);
    SkipRender(words);
    var st := Stream(Render(words), false);
    ReadWordAt(st, words);
    ReadWordAt(ReadWord(st).1, words[1..]);
    ReadWordAt(ReadWord(ReadWord(st).1).1, words[1..][1..]);
    var s3 := ReadWord(ReadWord(ReadWord(st).1).1).1;
    NothingToRead(s3);
    hide ReadWord, ReadInt, Render, SkipSpace, GoodWords;
    ReadShrinks(st);
    CaseShrinks(ReadWord(st).1);
  }

  lemma {:induction false} NothingToRead(st: Stream)
    requires At(st, [])
    ensures ReadInt(st) == (0, Stream([], true)) && ReadPoly(ReadInt(st).1) == ([], Stream([], true))
    ensures ReadWord(Stream([], true)) == ("", Stream([], true)) && ParseCases(Stream([], true)) == []
  {
  }

  // ----- comment lines -----

  /** A line that the parser skips: it starts with a word other than CASE. */
  predicate SkippedLine(line: string) {
    && line != [] && !IsSpace(line[0]) && '\n' !in line
    && line[..TokenLength(line)] != "CASE"
  }

  lemma {:induction false} TokenInLine(line: string, rest: string)
    ensures TokenLength(line + ['\n'] + rest) == TokenLength(line)
  {
    if line != [] {
      assert (line + ['\n'] + rest)[1..] == line[1..] + ['\n'] + rest;
      TokenInLine(line[1..], rest);
    }
  }

  lemma {:induction false} DropToEnd(line: string, rest: string)
    requires '\n' !in line
    ensures DropLine(Stream(line + ['\n'] + rest, false)) == Stream(rest, false)
  {
    var s := line + ['\n'] + rest;
    if line == [] {
      assert s[1..] == rest;
    } else {
      assert s[0] == line[0] && line[0] in line;
      assert s[1..] == line[1..] + ['\n'] + rest;
      DropToEnd(line[1..], rest);
    }
  }

  lemma SkippedLineIsSkipped(line: string, rest: string)
    requires SkippedLine(line)
    ensures ParseCases(Stream(line + ['\n'] + rest, false)) == ParseCases(Stream(rest, false))
  {
    var st := Stream(line + ['\n'] + rest, false);
    var n := TokenLength(line);
    TokenInLine(line, rest);
    assert st.rest[0] == line[0];
    assert st.rest[..n] == line[..n] && st.rest[n..] == line[n..] + ['\n'] + rest;
    ReadShrinks(st);
    DropToEnd(line[n..], rest);
  }

  lemma {:induction false} HeaderIsSkipped(header: seq<string>, rest: string)
    requires forall i :: 0 <= i < |header| ==> SkippedLine(header[i])
    ensures ParseCases(Stream(Text(header) + rest, false)) == ParseCases(Stream(rest, false))
  {
    hide ParseCases, SkippedLine;
    if header == [] {
      assert Text(header) + rest == rest;
    } else {
      var init, line := header[..|header| - 1], header[|header| - 1];
      assert Text(header) + rest == Text(init) + (line + ['\n'] + rest);
      HeaderIsSkipped(init, line + ['\n'] + rest);
      SkippedLineIsSkipped(line, rest);
    }
  }

  /** White space in front, blank lines included, makes no difference. */
  lemma {:induction false} BlankIsSkipped(blank: string, rest: string)
    requires forall i :: 0 <= i < |blank| ==> IsSpace(blank[i])
    ensures ParseCases(Stream(blank + rest, false)) == ParseCases(Stream(rest, false))
  {
    if blank == [] {
      assert blank + rest == rest;
    } else {
      assert (blank + rest)[1..] == blank[1..] + rest;
      BlankIsSkipped(blank[1..], rest);
      SpaceInFront(blank[0], blank[1..] + rest);
    }
  }

  lemma {:induction false} SpaceInFront(c: char, rest: string)
    requires IsSpace(c)
    ensures ParseCases(Stream([c] + rest, false)) == ParseCases(Stream(rest, false))
  {
    assert ([c] + rest)[1..] == rest;
  }

  /**
   The parser undoes the writer: header lines are skipped and every case comes back, with any
   number of loops and vertices, none included, and whatever words the parts are labelled with.
   */
  lemma {:induction false} ParserUndoesWriter(header: seq<string>, l: Labels, cases: seq<Case>)
    requires forall i :: 0 <= i < |header| ==> SkippedLine(header[i])
    requires GoodLabels(l) && forall i :: 0 <= i < |cases| ==> GoodCase(cases[i])
    ensures ParseCases(Stream(Text(header) + Render(CasesWords(l, cases)), false)) == cases
  {
    var words := CasesWords(l, cases);
    HeaderIsSkipped(header, Render(words));
    WordsAreGood(l, cases);
    SkipRender(words);
    ParseCasesAt(Stream(Render(words), false), l, cases);
  }

  lemma {:induction false} VerticesAreGood(loop: Loop)
    requires GoodLoop(loop)
    ensures GoodWords(VerticesWords(loop))
  {
    if loop != [] {
      VerticesAreGood(loop[..|loop| - 1]);
    }
  }

  lemma GoodConcat(a: seq<Word>, b: seq<Word>)
    requires GoodWords(a) && GoodWords(b)
    ensures GoodWords(a + b)
  {
  }

  lemma CountIsGood(tag: string, n: int)
    requires IsToken(tag)
    ensures GoodWords([(tag, ' '), (Printed(n), '\n')])
  {
    assert IsToken(Printed(n));
  }

  lemma {:induction false} LoopsAreGood(kw: string, loops: seq<Loop>)
    requires IsToken(kw) && GoodPoly(loops)
    ensures GoodWords(LoopsWords(kw, loops))
  {
    if loops != [] {
      hide GoodWords, VerticesWords, Printed, GoodLoop;
      var init, l := loops[..|loops| - 1], loops[|loops| - 1];
      LoopsAreGood(kw, init);
      VerticesAreGood(l);
      CountIsGood(kw, |l|);
      GoodConcat([(kw, ' '), (Printed(|l|), '\n')], VerticesWords(l));
      GoodConcat(LoopsWords(kw, init), LoopWords(kw, l));
    } else {
      assert GoodWords([]);
    }
  }

  lemma PolyIsGood(tag: string, kw: string, loops: seq<Loop>)
    requires IsToken(tag) && IsToken(kw) && GoodPoly(loops)
    ensures GoodWords(PolyWords(tag, kw, loops))
  {
    hide GoodWords, LoopsWords, Printed, IsToken, GoodPoly;
    CountIsGood(tag, |loops|);
    LoopsAreGood(kw, loops);
    GoodConcat([(tag, ' '), (Printed(|loops|), '\n')], LoopsWords(kw, loops));
  }

  lemma CaseIsGood(l: Labels, c: Case)
    requires GoodLabels(l) && GoodCase(c)
    ensures GoodWords(CaseWords(l, c))
  {
    assert IsToken("CASE") && IsToken(Printed(c.normalize));
    var head: seq<Word> := [("CASE", ' '), (c.name, ' '), (c.op, ' '), (Printed(c.normalize), '\n')];
    var tail: seq<Word> := [(l.end, '\n')];
    assert GoodWords(head) && GoodWords(tail);
    hide GoodWords, PolyWords, Printed, IsToken, GoodPoly;
    PolyIsGood(l.a, l.loop, c.a);
    PolyIsGood(l.b, l.loop, c.b);
    GoodConcat(head, PolyWords(l.a, l.loop, c.a));
    GoodConcat(head + PolyWords(l.a, l.loop, c.a), PolyWords(l.b, l.loop, c.b));
    GoodConcat(head + PolyWords(l.a, l.loop, c.a) + PolyWords(l.b, l.loop, c.b), tail);
  }

  lemma {:induction false} WordsAreGood(l: Labels, cases: seq<Case>)
    requires GoodLabels(l) && forall i :: 0 <= i < |cases| ==> GoodCase(cases[i])
    ensures GoodWords(CasesWords(l, cases))
  {
    if cases != [] {
      hide GoodWords, GoodCase, CaseWords;
      CaseIsGood(l, cases[0]);
      WordsAreGood(l, cases[1..]);
      GoodConcat(CaseWords(l, cases[0]), CasesWords(l, cases[1..]));
    } else {
      assert GoodWords([]);
    }
  }

  /** Writing a file and parsing it, as the two tools do. */
  method WriteThenParse(header: seq<string>, cases: seq<Case>) returns (back: seq<Case>)
    requires header != [] && forall i :: 0 <= i < |header| ==> SkippedLine(header[i])
    requires forall i :: 0 <= i < |cases| ==> GoodCase(cases[i])
    ensures back == cases
  {
    var text := WriteFile(header, cases);
    ParserUndoesWriter(header, WRITTEN, cases);
    back := ParseInputs(text);
  }
}
