/**
  The output record of the splitter (src/chunk.rs): a provenance trace, the range of the
  code it covers, and its measured size; with the lossy text accessor and the header line
  of its printed form.
*/
module Chunks {
  import opened Results
  import opened Utf8
  import opened Syntax

  /** One line of a chunk's trace: the node a chunk was first built from, the node's depth in
      the tree, its first and last rows, and the size measured for it. The source renders
      this as one text line; the rendering itself is outside the model. */
  datatype TraceLine = TraceLine(kind: string, depth: nat, startRow: nat, endRow: nat, size: nat)

  /** A chunk. `subtree` is the trace as a sequence of lines: the source keeps the same lines
      joined by "\n" in one string (see `JoinLinesAppend`). */
  datatype Chunk = Chunk(subtree: seq<TraceLine>, range: Range, size: nat)

  /** `Chunk::utf8_lossy`: the text of the chunk's bytes, with ill-formed parts replaced. */
  function Utf8Lossy(c: Chunk, code: seq<byte>): (text: string)
    requires c.range.startByte <= c.range.endByte <= |code|
    ensures Decode(code[c.range.startByte..c.range.endByte]).Some? ==>
              text == Decode(code[c.range.startByte..c.range.endByte]).value
    ensures Decode(code[c.range.startByte..c.range.endByte]).None? ==> Replacement in text
  {
    DecodeLossy(code[c.range.startByte..c.range.endByte])
  }

  // ---------------------------------------------------------------------------------------
  // Decimal numerals, as `{}` formats a `usize`

  predicate IsDigit(c: char) {
    '0' <= c <= '9'
  }

  predicate AllDigits(s: string) {
    forall i :: 0 <= i < |s| ==> IsDigit(s[i])
  }

  function DigitChar(d: nat): (c: char)
    requires d < 10
    ensures IsDigit(c)
  {
    ('0' as int + d) as char
  }

  /** The decimal numeral of `n`, without leading zeros. */
  function Decimal(n: nat): (s: string)
    ensures |s| > 0 && AllDigits(s)
  {
    if n < 10 then [DigitChar(n)] else Decimal(n / 10) + [DigitChar(n % 10)]
  }

  /** The value of a decimal numeral. */
  function ParseDecimal(s: string): nat
    requires AllDigits(s)
  {
    if |s| == 0 then 0
    else ParseDecimal(s[..|s| - 1]) * 10 + (s[|s| - 1] as int - '0' as int)
  }

  lemma {:induction false} ParseDecimalOf(n: nat)
    ensures ParseDecimal(Decimal(n)) == n
  {
    if n >= 10 {
      var s := Decimal(n);
      assert s[..|s| - 1] == Decimal(n / 10);
      ParseDecimalOf(n / 10);
    }
  }

  /** The number of digits at the front of `s`. */
  function DigitRun(s: string): (k: nat)
    ensures k <= |s| && AllDigits(s[..k])
    ensures k < |s| ==> !IsDigit(s[k])
  {
    if |s| == 0 || !IsDigit(s[0]) then 0
    else
      var k := 1 + DigitRun(s[1..]);
      assert s[..k] == [s[0]] + s[1..][..k - 1];
      k
  }

  lemma DigitRunOf(n: nat, rest: string)
    requires |rest| == 0 || !IsDigit(rest[0])
    ensures DigitRun(Decimal(n) + rest) == |Decimal(n)|
    ensures (Decimal(n) + rest)[..|Decimal(n)|] == Decimal(n)
    ensures (Decimal(n) + rest)[|Decimal(n)|..] == rest
  {
    var d := Decimal(n);
    var s := d + rest;
    var k := DigitRun(s);
    assert forall i :: 0 <= i < |d| ==> s[i] == d[i];
    assert k >= |d|;
    assert k <= |d| by {
      if |rest| > 0 {
        assert s[|d|] == rest[0];
      }
    }
  }

  // ---------------------------------------------------------------------------------------
  // The printed form of a chunk

  /** Reads the numeral at the front of `s`, returning its value and the text after it. */
  function ReadNumber(s: string): Option<(nat, string)> {
    var k := DigitRun(s);
    if k == 0 then None else Some((ParseDecimal(s[..k]), s[k..]))
  }

  lemma ReadNumberOf(n: nat, rest: string)
    requires |rest| == 0 || !IsDigit(rest[0])
    ensures ReadNumber(Decimal(n) + rest) == Some((n, rest))
  {
    DigitRunOf(n, rest);
    ParseDecimalOf(n);
  }

  /** Reads a header line back into its start row, end row and size. */
  function ParseHeader(line: string): Option<(nat, nat, nat)> {
    if |line| == 0 || line[0] != '[' then None
    else match ReadNumber(line[1..])
      case None => None
      case Some((x, s2)) =>
        if |s2| < 2 || s2[..2] != ".." then None
        else match ReadNumber(s2[2..])
          case None => None
          case Some((y, s4)) =>
            if |s4| < 3 || s4[..3] != "]: " then None
            else match ReadNumber(s4[3..])
              case None => None
              case Some((z, s6)) => if |s6| == 0 then Some((x, y, z)) else None
  }

  /** The first line of `Display for Chunk`: "[start row..end row]: size". */
  function Header(c: Chunk): string {
    "[" + Decimal(c.range.startPoint.row) + ".." + Decimal(c.range.endPoint.row) + "]: " + Decimal(c.size)
  }

  /** The header line is unambiguous: it reads back as the rows and size it was made from. */
  lemma HeaderRoundTrip(c: Chunk)
    ensures ParseHeader(Header(c)) == Some((c.range.startPoint.row, c.range.endPoint.row, c.size))
  {
    var x, y, z := c.range.startPoint.row, c.range.endPoint.row, c.size;
    var tail3 := "]: " + Decimal(z);
    var tail2 := ".." + (Decimal(y) + tail3);
    assert Header(c)[1..] == Decimal(x) + tail2;
    ReadNumberOf(x, tail2);
    assert tail2[2..] == Decimal(y) + tail3;
    ReadNumberOf(y, tail3);
    assert tail3[3..] == Decimal(z) + "";
    ReadNumberOf(z, "");
  }

  /** Lines joined by "\n". */
  function JoinLines(lines: seq<string>): string {
    if |lines| == 0 then ""
    else if |lines| == 1 then lines[0]
    else lines[0] + "\n" + JoinLines(lines[1..])
  }

  /** Joining two non-empty traces line-wise is `format!("{}\n{}", a, b)` of their joined forms,
      which is how the source concatenates the traces of merged chunks. */
  lemma {:induction false} JoinLinesAppend(a: seq<string>, b: seq<string>)
    requires |a| > 0 && |b| > 0
    ensures JoinLines(a + b) == JoinLines(a) + "\n" + JoinLines(b)
    decreases |a|
  {
    if |a| > 1 {
      assert (a + b)[1..] == a[1..] + b;
      JoinLinesAppend(a[1..], b);
    } else {
      assert (a + b)[1..] == b;
    }
  }

  /** The trace of a chunk as text: its lines, each rendered by `render`, joined by "\n". */
  function Trace(c: Chunk, render: TraceLine -> string): string {
    JoinLines(seq(|c.subtree|, i requires 0 <= i < |c.subtree| => render(c.subtree[i])))
  }

  /** `Display for Chunk`: the header line, a newline, then the trace, whose lines are
      rendered by `render`. The first line reads back as the rows and size it shows. */
  function Display(c: Chunk, render: TraceLine -> string): (text: string)
    ensures '\n' !in Header(c)
    ensures |text| > |Header(c)|
    ensures text[..|Header(c)| + 1] == Header(c) + "\n"
    ensures ParseHeader(text[..|Header(c)|]) == Some((c.range.startPoint.row, c.range.endPoint.row, c.size))
    ensures text[|Header(c)| + 1..] == Trace(c, render)
  {
    var h := Header(c);
    assert forall i :: 0 <= i < |h| ==> h[i] != '\n';
    var text := h + "\n" + Trace(c, render);
    assert text[..|h|] == h && text[|h| + 1..] == Trace(c, render);
    HeaderRoundTrip(c);
    text
  }
}
