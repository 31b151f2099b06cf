/**
 Reference-vector rows: byte strings as hexadecimal digits, lists joined by semicolons, the count
 that makes a string-vector row unambiguous, and hand-built encodings of 64-bit words.
 */
module Rows {
  import opened Decimals
  import opened Division

  type Byte = b: int | 0 <= b < 256

  type Bytes = seq<Byte>

  // ----- hexadecimal -----

  const DIGITS: string := "0123456789abcdef"

  function HexPair(b: Byte): (out: string)
    ensures |out| == 2
  {
    [DIGITS[b / 16], DIGITS[b % 16]]
  }

  function Hex(s: Bytes): (out: string)
    ensures |out| == 2 * |s|
  {
    if s == [] then [] else Hex(s[..|s| - 1]) + HexPair(s[|s| - 1])
  }

  method HexBytes(s: Bytes) returns (out: string)
    ensures out == Hex(s)
  {
    out := "";
    for n := 0 to |s|
      invariant out == Hex(s[..n])
    {
      assert s[..n + 1][..n] == s[..n];
      out := out + [DIGITS[s[n] / 16]];
      out := out + [DIGITS[s[n] % 16]];
    }
    assert s[..|s|] == s;
  }

  function HexValue(c: char): (v: int)
    ensures 0 <= v < 16
  {
    if '0' <= c <= '9' then c as int - '0' as int
    else if 'a' <= c <= 'f' then c as int - 'a' as int + 10
    else 0
  }

  function Unhex(s: string): Bytes {
    if |s| < 2 then [] else Unhex(s[..|s| - 2]) + [16 * HexValue(s[|s| - 2]) + HexValue(s[|s| - 1])]
  }

  lemma DigitRead(d: int)
    requires 0 <= d < 16
    ensures HexValue(DIGITS[d]) == d && DIGITS[d] != ';' && DIGITS[d] != '|'
    ensures DIGITS[d] as int == if d < 10 then 48 + d else 97 + (d - 10)
  {
  }

  /** A digit from '0' to '9' or a small letter from 'a' to 'f', for the upper half of a byte first. */
  lemma {:induction false} HexAt(s: Bytes, i: nat)
    requires i < |s|
    ensures var high, low := s[i] / 16, s[i] % 16;
      && Hex(s)[2 * i] as int == (if high < 10 then 48 + high else 97 + (high - 10))
      && Hex(s)[2 * i + 1] as int == (if low < 10 then 48 + low else 97 + (low - 10))
  {
    if i < |s| - 1 {
      HexAt(s[..|s| - 1], i);
    } else {
      DigitRead(s[i] / 16);
      DigitRead(s[i] % 16);
    }
  }

  lemma {:induction false} HexReads(s: Bytes)
    ensures Unhex(Hex(s)) == s
    ensures ';' !in Hex(s) && '|' !in Hex(s)
  {
    HexReadsBack(s);
    HexIsPlain(s);
  }

  lemma {:induction false} HexReadsBack(s: Bytes)
    ensures Unhex(Hex(s)) == s
  {
    hide *;
    HexOfNothing();
    if s != [] {
      var init, b := s[..|s| - 1], s[|s| - 1];
      HexReadsBack(init);
      HexNextPair(s);
      PairReads(Hex(init), b);
      assert s == init + [b];
    }
  }

  lemma {:induction false} HexOfNothing()
    ensures Hex([]) == [] && Unhex([]) == []
  {
  }

  lemma {:induction false} HexNextPair(s: Bytes)
    requires s != []
    ensures Hex(s) == Hex(s[..|s| - 1]) + HexPair(s[|s| - 1])
  {
    hide HexPair;
  }

  lemma {:induction false} HexIsPlain(s: Bytes)
    ensures ';' !in Hex(s) && '|' !in Hex(s)
  {
    hide HexPair;
    if s != [] {
      HexIsPlain(s[..|s| - 1]);
      PairReads([], s[|s| - 1]);
    }
  }

  lemma {:induction false} PairReads(h: string, b: Byte)
    ensures Unhex(h + HexPair(b)) == Unhex(h) + [b]
    ensures ';' !in HexPair(b) && '|' !in HexPair(b)
  {
    DigitRead(b / 16);
    DigitRead(b % 16);
    hide HexValue;
    var t := h + HexPair(b);
    assert t[..|t| - 2] == h;
  }

  // ----- lists -----

  /** `Join(v, HexBytes)`. */
  function JoinHex(v: seq<Bytes>): string {
    if v == [] then ""
    else if |v| == 1 then Hex(v[0])
    else JoinHex(v[..|v| - 1]) + ";" + Hex(v[|v| - 1])
  }

  method Join(v: seq<Bytes>) returns (out: string)
    ensures out == JoinHex(v)
  {
    out := "";
    for i := 0 to |v|
      invariant out == JoinHex(v[..i])
    {
      assert v[..i + 1][..i] == v[..i];
      if i > 0 {
        out := out + ";";
      }
      var h := HexBytes(v[i]);
      out := out + h;
    }
    assert v[..|v|] == v;
  }

  /** The parts of a text between separators, read from the end. */
  function Split(s: string): (parts: seq<string>)
    ensures parts != []
  {
    if s == [] then [""]
    else
      var parts := Split(s[..|s| - 1]);
      if s[|s| - 1] == ';' then parts + [""] else parts[|parts| - 1 := parts[|parts| - 1] + [s[|s| - 1]]]
  }

  lemma {:induction false} SplitAppend(s: string, t: string)
    requires ';' !in t
    ensures Split(s + t) == Split(s)[|Split(s)| - 1 := Split(s)[|Split(s)| - 1] + t]
  {
    var parts := Split(s);
    if t == [] {
      assert s + t == s && parts[|parts| - 1] + t == parts[|parts| - 1];
    } else {
      var init := t[..|t| - 1];
      SplitAppend(s, init);
      assert (s + t)[..|s + t| - 1] == s + init;
      assert t[|t| - 1] in t;
      assert parts[|parts| - 1] + t == parts[|parts| - 1] + init + [t[|t| - 1]];
    }
  }

  function HexAll(v: seq<Bytes>): seq<string> {
    if v == [] then [] else HexAll(v[..|v| - 1]) + [Hex(v[|v| - 1])]
  }

  lemma {:induction false} SplitJoined(v: seq<Bytes>)
    requires v != []
    ensures Split(JoinHex(v)) == HexAll(v)
  {
    hide Hex, Unhex, Split;
    var init, h := v[..|v| - 1], Hex(v[|v| - 1]);
    HexReads(v[|v| - 1]);
    if init == [] {
      assert v == [v[0]];
      SplitPlain(h);
      assert HexAll(init) == [] && [] + [h] == [h];
    } else {
      SplitJoined(init);
      SplitSemicolon(JoinHex(init), h);
    }
  }

  lemma {:induction false} SplitPlain(t: string)
    requires ';' !in t
    ensures Split(t) == [t]
  {
    SplitAppend("", t);
    assert "" + t == t;
  }

  lemma {:induction false} SplitSemicolon(s: string, t: string)
    requires ';' !in t
    ensures Split(s + ";" + t) == Split(s) + [t]
  {
    var u := s + ";";
    assert u[..|u| - 1] == s;
    SplitAppend(u, t);
    assert "" + t == t;
  }

  function UnhexAll(parts: seq<string>): seq<Bytes> {
    if parts == [] then [] else UnhexAll(parts[..|parts| - 1]) + [Unhex(parts[|parts| - 1])]
  }

  lemma {:induction false} HexAllReads(v: seq<Bytes>)
    ensures UnhexAll(HexAll(v)) == v
  {
    hide *;
    NoneRead();
    if v != [] {
      var init, b := v[..|v| - 1], v[|v| - 1];
      HexAllReads(init);
      HexReads(b);
      UnhexNext(HexAll(init), Hex(b));
      HexNext(v);
      assert v == init + [b];
    }
  }

  lemma NoneRead()
    ensures HexAll([]) == [] && UnhexAll([]) == []
  {
  }

  lemma {:induction false} HexNext(v: seq<Bytes>)
    requires v != []
    ensures HexAll(v) == HexAll(v[..|v| - 1]) + [Hex(v[|v| - 1])]
  {
    hide Hex;
  }

  lemma {:induction false} UnhexNext(parts: seq<string>, last: string)
    ensures UnhexAll(parts + [last]) == UnhexAll(parts) + [Unhex(last)]
  {
    hide Unhex;
    assert (parts + [last])[..|parts|] == parts;
  }

  /** The join alone confuses exactly one pair of lists: no strings, and one empty string. */
  lemma {:induction false} JoinConfusesOnlyEmpty(v: seq<Bytes>, w: seq<Bytes>)
    ensures JoinHex(v) == JoinHex(w) <==> v == w || (v == [] && w == [[]]) || (v == [[]] && w == [])
  {
    if v != [] && w != [] {
      SplitJoined(v);
      SplitJoined(w);
      HexAllReads(v);
      HexAllReads(w);
    } else if v != [] {
      EmptyJoin(v);
    } else if w != [] {
      EmptyJoin(w);
    }
  }

  lemma {:induction false} EmptyJoin(v: seq<Bytes>)
    requires v != []
    ensures JoinHex(v) == "" <==> v == [[]]
  {
    if |v| == 1 {
      assert v == [v[0]];
    }
  }

  /** The input field of a string-vector row. */
  function VectorField(v: seq<Bytes>): string {
    Decimal(|v|) + "|" + JoinHex(v)
  }

  method StringVectorField(v: seq<Bytes>) returns (field: string)
    ensures field == VectorField(v)
  {
    var items := Join(v);
    field := Decimal(|v|) + "|" + items;
  }

  function BeforeBar(s: string): (n: nat)
    ensures n <= |s|
  {
    if s == [] || s[0] == '|' then 0 else 1 + BeforeBar(s[1..])
  }

  datatype Reading = Strings(v: seq<Bytes>) | BadField

  predicate AllDigits(s: string) {
    forall i :: 0 <= i < |s| ==> IsDigit(s[i])
  }

  /** Reading a field back: a decimal count, a bar, and as many strings as the count says. */
  function ReadField(field: string): Reading {
    var n := BeforeBar(field);
    if n == |field| || n == 0 || !AllDigits(field[..n]) then BadField else
    var count, text := DigitsValue(field[..n]), field[n + 1..];
    if count == 0 then (if text == "" then Strings([]) else BadField)
    else if |Split(text)| == count then Strings(UnhexAll(Split(text)))
    else BadField
  }

  lemma {:induction false} BarAfterDigits(d: string, rest: string)
    requires forall i :: 0 <= i < |d| ==> IsDigit(d[i])
    ensures BeforeBar(d + "|" + rest) == |d|
  {
    if d != [] {
      BarAfterDigits(d[1..], rest);
      assert (d + "|" + rest)[1..] == d[1..] + "|" + rest;
    }
  }

  /** What stands before the bar is the number of strings, in decimal digits. */
  lemma {:induction false} CountBeforeBar(v: seq<Bytes>)
    ensures var field, n := VectorField(v), BeforeBar(VectorField(v));
      && n < |field| && field[n] == '|' && field[n + 1..] == JoinHex(v)
      && n > 0 && AllDigits(field[..n]) && DigitsValue(field[..n]) == |v|
  {
    var d := Decimal(|v|);
    BarAfterDigits(d, JoinHex(v));
    assert VectorField(v)[..|d|] == d && VectorField(v)[|d| + 1..] == JoinHex(v);
    DecimalValue(|v|);
  }

  /** A string-vector field is accepted by the reader and determines its value. */
  lemma {:induction false} FieldReads(v: seq<Bytes>)
    ensures ReadField(VectorField(v)) == Strings(v)
  {
    hide BeforeBar, VectorField, DigitsValue, JoinHex, Split, UnhexAll, Hex;
    CountBeforeBar(v);
    if v == [] {
      NothingJoined();
    } else {
      SplitJoined(v);
      HexAllSize(v);
      HexAllReads(v);
    }
  }

  lemma NothingJoined()
    ensures JoinHex([]) == ""
  {
  }

  lemma {:induction false} HexAllSize(v: seq<Bytes>)
    ensures |HexAll(v)| == |v|
  {
    hide Hex;
    if v != [] {
      HexAllSize(v[..|v| - 1]);
    }
  }

  // ----- 64-bit words, least significant byte first -----

  function Pow256(k: nat): (p: nat)
    ensures p >= 1
  {
    if k == 0 then 1 else 256 * Pow256(k - 1)
  }

  function LeByte(x: nat, k: nat): Byte {
    (x / Pow256(k)) % 256
  }

  function LeBytes(x: nat, n: nat): (s: Bytes)
    ensures |s| == n
  {
    seq(n, k requires 0 <= k => LeByte(x, k))
  }

  method PutLe64(s: Bytes, x: nat) returns (out: Bytes)
    ensures out == s + LeBytes(x, 8)
  {
    out := s;
    for k := 0 to 8
      invariant out == s + LeBytes(x, 8)[..k]
    {
      out := out + [LeByte(x, k)];
    }
    assert LeBytes(x, 8)[..8] == LeBytes(x, 8);
  }

  function LeValue(s: Bytes): nat {
    if s == [] then 0 else s[0] + 256 * LeValue(s[1..])
  }

  lemma {:induction false} LeReads(x: nat, n: nat)
    requires x < Pow256(n)
    ensures LeValue(LeBytes(x, n)) == x
    decreases n
  {
    if n > 0 {
      var s := LeBytes(x, n);
      assert Pow256(n) == 256 * Pow256(n - 1);
      LeReads(x / 256, n - 1);
      forall k | 0 <= k < n - 1 ensures s[1..][k] == LeBytes(x / 256, n - 1)[k] {
        NestedQuotient(x, 256, Pow256(k));
      }
      assert s[1..] == LeBytes(x / 256, n - 1);
      assert s[0] == x % 256;
    }
  }

  /** The eight bytes of a 64-bit number, the least significant one first, determine it. */
  lemma {:induction false} LeReads64(x: nat)
    requires x < 0x1_0000_0000_0000_0000
    ensures LeValue(LeBytes(x, 8)) == x
  {
    hide LeBytes, LeValue;
    assert Pow256(2) == 0x1_0000;
    assert Pow256(4) == 0x1_0000_0000;
    assert Pow256(6) == 0x1_0000_0000_0000;
    LeReads(x, 8);
  }

  /** A version byte, a count, then the ids; the count need not match. */
  function RawEncoding(version: Byte, count: nat, ids: seq<nat>): Bytes {
    if ids == [] then [version] + LeBytes(count, 8)
    else RawEncoding(version, count, ids[..|ids| - 1]) + LeBytes(ids[|ids| - 1], 8)
  }

  method BuildRawEncoding(version: Byte, count: nat, ids: seq<nat>) returns (s: Bytes)
    ensures s == RawEncoding(version, count, ids)
  {
    s := [version];
    s := PutLe64(s, count);
    for n := 0 to |ids|
      invariant s == RawEncoding(version, count, ids[..n])
    {
      assert ids[..n + 1][..n] == ids[..n];
      s := PutLe64(s, ids[n]);
    }
    assert ids[..|ids|] == ids;
  }

  /** The words after the version byte. */
  function Words(s: Bytes): seq<nat> {
    if |s| < 8 then [] else Words(s[..|s| - 8]) + [LeValue(s[|s| - 8..])]
  }

  lemma {:induction false} WordsOfEncoding(version: Byte, count: nat, ids: seq<nat>)
    requires count < 0x1_0000_0000_0000_0000 && forall i :: 0 <= i < |ids| ==> ids[i] < 0x1_0000_0000_0000_0000
    ensures var s := RawEncoding(version, count, ids);
      |s| > 0 && s[0] == version && Words(s[1..]) == [count] + ids
  {
    hide Pow256, LeBytes, LeValue;
    var s := RawEncoding(version, count, ids);
    if ids == [] {
      LeReads64(count);
      assert s[1..] == LeBytes(count, 8) && s[1..][..0] == [] && s[1..][0..] == s[1..];
      assert Words([]) == [];
    } else {
      var init, last := ids[..|ids| - 1], ids[|ids| - 1];
      var before := RawEncoding(version, count, init);
      WordsOfEncoding(version, count, init);
      LeReads64(last);
      assert s[1..][..|s| - 9] == before[1..] && s[1..][|s| - 9..] == LeBytes(last, 8);
      assert ids == init + [last];
    }
  }
}
