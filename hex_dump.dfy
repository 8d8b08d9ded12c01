/**
 * The text layout of a hex dump, as written by `FileLog.LogBytes`: bytes are
 * cut into lines of eight; a line is `"#  "` followed, for each byte, by two
 * upper-case hexadecimal digits and a space, with one extra space between the
 * fourth and the fifth byte.
 */
module HexDump {

  type Byte = x: int | 0 <= x < 256

  /** An upper-case hexadecimal digit. */
  predicate IsHexDigit(c: char) {
    '0' <= c <= '9' || 'A' <= c <= 'F'
  }

  /** The upper-case hexadecimal digit for a value below 16. */
  function HexDigit(d: nat): (c: char)
    requires d < 16
    ensures IsHexDigit(c)
  {
    if d < 10 then ('0' as int + d) as char else ('A' as int + d - 10) as char
  }

  /** The value of a hexadecimal digit, and -1 for any other character. */
  function DigitValue(c: char): int {
    if '0' <= c <= '9' then c as int - '0' as int
    else if 'A' <= c <= 'F' then c as int - 'A' as int + 10
    else -1
  }

  /** `b.ToString("X2")`: exactly two upper-case digits, most significant first. */
  function Hex2(b: Byte): (r: string)
    ensures |r| == 2 && IsHexDigit(r[0]) && IsHexDigit(r[1])
    ensures DigitValue(r[0]) * 16 + DigitValue(r[1]) == b
  {
    [HexDigit(b / 16), HexDigit(b % 16)]
  }

  /** The bytes cut into consecutive lines of eight, the last line holding the rest. */
  function Chunks(b: seq<Byte>): seq<seq<Byte>>
    decreases |b|
  {
    if b == [] then [] else if |b| <= 8 then [b] else [b[..8]] + Chunks(b[8..])
  }

  /** The cells of a line whose first byte sits at position `k` of the line. */
  function CellsFrom(c: seq<Byte>, k: nat): string
    decreases |c|
  {
    if c == [] then "" else (if k == 4 then " " else "") + Hex2(c[0]) + " " + CellsFrom(c[1..], k + 1)
  }

  /** One line of the dump. */
  function HexLine(c: seq<Byte>): string {
    "#  " + CellsFrom(c, 0)
  }

  /** The whole dump, one string per line. */
  function HexLines(b: seq<Byte>): seq<string> {
    var chunks := Chunks(b);
    seq(|chunks|, k requires 0 <= k < |chunks| => HexLine(chunks[k]))
  }

  /** The digest text of the `HASH:` line: each byte as two upper-case digits, with no separator. */
  function HexString(b: seq<Byte>): (r: string)
    ensures |r| == 2 * |b|
    ensures forall j :: 0 <= j < |b| ==> r[2 * j..2 * j + 2] == Hex2(b[j])
    decreases |b|
  {
    if b == [] then "" else
      var r := HexString(b[..|b| - 1]) + Hex2(b[|b| - 1]);
      assert forall j :: 0 <= j < |b| - 1 ==> r[2 * j..2 * j + 2] == HexString(b[..|b| - 1])[2 * j..2 * j + 2];
      r
  }

  /** Concatenation of the lines' bytes. */
  function Flatten(chunks: seq<seq<Byte>>): seq<Byte> {
    if chunks == [] then [] else chunks[0] + Flatten(chunks[1..])
  }

  // Reading a line back.

  /** The bytes written in a sequence of cells, skipping the extra space. */
  function ReadCells(s: string): seq<Byte>
    decreases |s|
  {
    if |s| < 3 then []
    else if s[0] == ' ' then ReadCells(s[1..])
    else
      var v := DigitValue(s[0]) * 16 + DigitValue(s[1]);
      (if 0 <= v < 256 then [v as Byte] else []) + ReadCells(s[3..])
  }

  /** The bytes written on one line of the dump. */
  function ReadHexLine(line: string): seq<Byte> {
    if |line| < 3 then [] else ReadCells(line[3..])
  }

  // Properties.

  /** Every line holds one to eight bytes; every line but the last holds eight; there are ceil(n / 8) lines. */
  lemma {:induction false} ChunkSizes(b: seq<Byte>)
    ensures |Chunks(b)| == (|b| + 7) / 8
    ensures forall k :: 0 <= k < |Chunks(b)| ==> 1 <= |Chunks(b)[k]| <= 8
    ensures forall k :: 0 <= k < |Chunks(b)| - 1 ==> |Chunks(b)[k]| == 8
    decreases |b|
  {
    if |b| > 8 {
      ChunkSizes(b[8..]);
      assert forall k :: 1 <= k < |Chunks(b)| ==> Chunks(b)[k] == Chunks(b[8..])[k - 1];
    }
  }

  /** Reading the lines in order gives back the bytes in order. */
  lemma {:induction false} ChunksFlatten(b: seq<Byte>)
    ensures Flatten(Chunks(b)) == b
    decreases |b|
  {
    if |b| > 8 {
      ChunksFlatten(b[8..]);
      assert ([b[..8]] + Chunks(b[8..]))[1..] == Chunks(b[8..]);
      assert b == b[..8] + b[8..];
    } else if b != [] {
      assert [b][1..] == [];
    }
  }

  /** Cutting a prefix whose length is a multiple of eight cuts the lines at the same place. */
  lemma {:induction false} ChunksAppend(a: seq<Byte>, b: seq<Byte>)
    requires |a| % 8 == 0
    ensures Chunks(a + b) == Chunks(a) + Chunks(b)
    decreases |a|
  {
    if a == [] {
      assert a + b == b;
    } else if |a| == 8 {
      if b == [] {
        assert a + b == a;
      } else {
        assert (a + b)[..8] == a && (a + b)[8..] == b;
      }
    } else {
      assert (a + b)[..8] == a[..8];
      assert (a + b)[8..] == a[8..] + b;
      ChunksAppend(a[8..], b);
    }
  }

  /** The dump of `a + b`, when `|a|` is a multiple of eight, is the dump of `a` followed by that of `b`. */
  lemma HexLinesAppend(a: seq<Byte>, b: seq<Byte>)
    requires |a| % 8 == 0
    ensures HexLines(a + b) == HexLines(a) + HexLines(b)
  {
    ChunksAppend(a, b);
  }

  /** Up to eight bytes make exactly one line. */
  lemma HexLinesShort(c: seq<Byte>)
    requires 1 <= |c| <= 8
    ensures HexLines(c) == [HexLine(c)]
  {
  }

  /** Adding a byte at the end of a line adds its cell; the extra space goes before the fifth byte. */
  lemma {:induction false} CellsSnoc(c: seq<Byte>, x: Byte, k: nat)
    ensures CellsFrom(c + [x], k) == CellsFrom(c, k) + (if k + |c| == 4 then " " else "") + Hex2(x) + " "
    decreases |c|
  {
    if c == [] {
    } else {
      assert (c + [x])[1..] == c[1..] + [x];
      CellsSnoc(c[1..], x, k + 1);
    }
  }

  /** Where each cell of a line sits: the offset of the `j`-th byte's first digit. */
  function CellOffset(j: nat): nat {
    3 + CellStart(0, j)
  }

  /** Cells starting at line position `k` take three characters each, plus one if they pass position 4. */
  lemma {:induction false} CellsLength(c: seq<Byte>, k: nat)
    ensures |CellsFrom(c, k)| == 3 * |c| + (if k <= 4 < k + |c| then 1 else 0)
    decreases |c|
  {
    if c != [] {
      CellsLength(c[1..], k + 1);
    }
  }

  /** The offset, within cells starting at line position `k`, of the `j`-th cell's first digit. */
  function CellStart(k: nat, j: nat): nat {
    3 * j + (if k <= 4 <= k + j then 1 else 0)
  }

  /** Cells start with the pad, if any, and the first byte's cell. */
  lemma CellsFront(c: seq<Byte>, k: nat)
    requires c != []
    ensures CellsFrom(c, k) == (if k == 4 then " " else "") + (Hex2(c[0]) + " ") + CellsFrom(c[1..], k + 1)
  {
  }

  /** The first cell is the first byte's two digits followed by a space. */
  lemma CellAtFirst(c: seq<Byte>, k: nat)
    requires c != []
    ensures CellStart(k, 0) + 3 <= |CellsFrom(c, k)|
    ensures CellsFrom(c, k)[CellStart(k, 0)..CellStart(k, 0) + 3] == Hex2(c[0]) + " "
  {
    var pad: string := if k == 4 then " " else "";
    CellsFront(c, k);
    CellShift(pad, Hex2(c[0]) + " ", CellsFrom(c[1..], k + 1), 0, 0, Hex2(c[0]) + " ");
    assert CellStart(k, 0) == |pad|;
  }

  /** The `j`-th cell is the byte's two digits followed by a space. */
  lemma {:induction false} CellAt(c: seq<Byte>, k: nat, j: nat)
    requires j < |c|
    ensures CellStart(k, j) + 3 <= |CellsFrom(c, k)|
    ensures CellsFrom(c, k)[CellStart(k, j)..CellStart(k, j) + 3] == Hex2(c[j]) + " "
    decreases j
  {
    if j == 0 {
      CellAtFirst(c, k);
    } else {
      var pad: string := if k == 4 then " " else "";
      CellsFront(c, k);
      CellAt(c[1..], k + 1, j - 1);
      assert c[j] == c[1..][j - 1];
      var o := CellStart(k + 1, j - 1);
      assert CellStart(k, j) == |pad| + 3 + o;
      CellShift(pad, Hex2(c[0]) + " ", CellsFrom(c[1..], k + 1), o, 3, Hex2(c[j]) + " ");
    }
  }

  /** The slice of `pad + cell + tail` at offset `|pad| + shift + o` is the slice of `cell + tail` at `shift + o`. */
  lemma CellShift<T>(pad: seq<T>, cell: seq<T>, tail: seq<T>, o: nat, shift: nat, x: seq<T>)
    requires |cell| == 3 && |x| == 3
    requires shift == 0 ==> o == 0 && x == cell
    requires shift == 3 ==> o + 3 <= |tail| && tail[o..o + 3] == x
    requires shift == 0 || shift == 3
    ensures |pad| + shift + o + 3 <= |pad + cell + tail|
    ensures (pad + cell + tail)[|pad| + shift + o..|pad| + shift + o + 3] == x
  {
    var s := pad + cell + tail;
    if shift == 0 {
      assert s[|pad|..|pad| + 3] == cell;
    } else {
      assert s[|pad| + 3 + o..|pad| + 3 + o + 3] == tail[o..o + 3];
    }
  }

  /** A slice that lies wholly in the second part of a concatenation. */
  lemma SliceAfter<T>(a: seq<T>, b: seq<T>, i: nat, n: nat)
    requires i + n <= |b|
    ensures (a + b)[|a| + i..|a| + i + n] == b[i..i + n]
    ensures (a + b)[|a|..|a| + |b|] == b && (a + b)[..|a|] == a
  {
  }

  /** Cells that pass position 4 have the extra space just before the cell at position 4. */
  lemma {:induction false} ExtraSpace(c: seq<Byte>, k: nat)
    requires k <= 4 < k + |c|
    ensures 3 * (4 - k) < |CellsFrom(c, k)| && CellsFrom(c, k)[3 * (4 - k)] == ' '
    decreases |c|
  {
    CellsLength(c, k);
    if k < 4 {
      ExtraSpace(c[1..], k + 1);
      CellsLength(c[1..], k + 1);
      assert CellsFrom(c, k)[3 * (4 - k)] == CellsFrom(c[1..], k + 1)[3 * (3 - k)];
    }
  }

  /**
   * The layout of one line: it starts with `"#  "`; byte `j` is two digits at
   * `CellOffset(j)` followed by a space; a line of more than four bytes has
   * the extra space at offset 15, after the fourth cell.
   */
  lemma HexLineLayout(c: seq<Byte>)
    requires |c| <= 8
    ensures var line := HexLine(c);
      |line| == 3 + 3 * |c| + (if |c| > 4 then 1 else 0) &&
      line[..3] == "#  " &&
      (forall j :: 0 <= j < |c| ==> line[CellOffset(j)..CellOffset(j) + 3] == Hex2(c[j]) + " ") &&
      (|c| > 4 ==> line[15] == ' ')
  {
    CellsLength(c, 0);
    var line := HexLine(c);
    forall j | 0 <= j < |c|
      ensures line[CellOffset(j)..CellOffset(j) + 3] == Hex2(c[j]) + " "
    {
      CellAt(c, 0, j);
      SliceAfter("#  ", CellsFrom(c, 0), CellStart(0, j), 3);
    }
    if |c| > 4 {
      ExtraSpace(c, 0);
    }
  }

  /** Cells can be read back. */
  lemma {:induction false} ReadCellsFrom(c: seq<Byte>, k: nat)
    ensures ReadCells(CellsFrom(c, k)) == c
    decreases |c|
  {
    if c != [] {
      var cell := Hex2(c[0]) + " " + CellsFrom(c[1..], k + 1);
      assert cell[3..] == CellsFrom(c[1..], k + 1);
      ReadCellsFrom(c[1..], k + 1);
      if k == 4 {
        assert (" " + cell)[1..] == cell;
      }
    }
  }

  /** Round trip: every line of the dump can be read back to the bytes it shows. */
  lemma ReadHexLineRoundTrip(c: seq<Byte>)
    ensures ReadHexLine(HexLine(c)) == c
  {
    assert HexLine(c)[3..] == CellsFrom(c, 0);
    ReadCellsFrom(c, 0);
  }

  /** The bytes written on a sequence of dump lines, in order. */
  function ReadAll(lines: seq<string>): seq<Byte>
    decreases |lines|
  {
    if lines == [] then [] else ReadHexLine(lines[0]) + ReadAll(lines[1..])
  }

  /** Reading back the lines made from a list of chunks gives the chunks' bytes, in order. */
  lemma {:induction false} ReadAllChunks(chunks: seq<seq<Byte>>)
    ensures ReadAll(seq(|chunks|, k requires 0 <= k < |chunks| => HexLine(chunks[k]))) == Flatten(chunks)
    decreases |chunks|
  {
    if chunks != [] {
      var lines := seq(|chunks|, k requires 0 <= k < |chunks| => HexLine(chunks[k]));
      var rest := chunks[1..];
      assert lines[1..] == seq(|rest|, k requires 0 <= k < |rest| => HexLine(rest[k]));
      ReadAllChunks(rest);
      ReadHexLineRoundTrip(chunks[0]);
    }
  }

  /** Round trip for the whole dump: reading its lines back in order gives the bytes. */
  lemma HexLinesRoundTrip(b: seq<Byte>)
    ensures ReadAll(HexLines(b)) == b
  {
    ReadAllChunks(Chunks(b));
    ChunksFlatten(b);
  }

  /** The dump of a prefix grows by one line when the prefix reaches the next multiple of eight, or the end. */
  lemma HexLinesExtend(b: seq<Byte>, e: nat, i: nat)
    requires e % 8 == 0 && e < i <= e + 8 && i <= |b|
    ensures HexLines(b[..i]) == HexLines(b[..e]) + [HexLine(b[e..i])]
  {
    assert b[..i] == b[..e] + b[e..i];
    HexLinesAppend(b[..e], b[e..i]);
    HexLinesShort(b[e..i]);
  }

  /** `HexString` grows by one byte's digits at a time. */
  lemma HexStringPrefix(b: seq<Byte>, k: nat)
    requires k < |b|
    ensures HexString(b[..k + 1]) == HexString(b[..k]) + Hex2(b[k])
  {
    assert b[..k + 1][..k] == b[..k];
  }
}
