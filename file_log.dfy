/**
 * The debugging log: an indentation level, a buffer of pending lines and the
 * log file, seen as the sequence of lines it holds. Every line written gets
 * the current indentation in front of it.
 */
module FileLogging {
  import opened Int32
  import opened HexDump

  /** `new string(c, n)`: `n` copies of `c`. */
  function Repeat(c: char, n: nat): (r: string)
    ensures |r| == n
    ensures forall i :: 0 <= i < |r| ==> r[i] == c
  {
    if n == 0 then "" else Repeat(c, n - 1) + [c]
  }

  /** `Math.Max(0, level + delta)` with C#'s unchecked `int` addition. */
  function ClampIndent(level: Int, delta: Int): (r: Int)
    ensures r >= 0
    ensures MinValue <= level + delta <= MaxValue ==> r == if level + delta < 0 then 0 else level + delta
    ensures level + delta > MaxValue ==> r == 0
  {
    var sum := Wrap(level + delta);
    if sum < 0 then 0 else sum
  }

  /** Every line of `lines` with `prefix` in front of it. */
  function Indented(prefix: string, lines: seq<string>): (r: seq<string>)
    ensures |r| == |lines|
    ensures forall k :: 0 <= k < |r| ==> r[k] == prefix + lines[k]
    decreases |lines|
  {
    if lines == [] then [] else [prefix + lines[0]] + Indented(prefix, lines[1..])
  }

  lemma IndentedAppend(prefix: string, a: seq<string>, b: seq<string>)
    ensures Indented(prefix, a + b) == Indented(prefix, a) + Indented(prefix, b)
  {
  }

  /**
   * What `LogBytes` holds back after writing the lines for the first `e`
   * bytes and reading `j` bytes: nothing, or the line so far, with the extra
   * space once it holds four bytes.
   */
  function PendingLine(b: seq<Byte>, e: nat, j: nat): string
    requires e <= j <= |b|
  {
    if e == j then "" else HexLine(b[e..j]) + (if j - e == 4 then " " else "")
  }

  class FileLog {
    var indentChar: char
    var indentLevel: Int
    var buffer: seq<string>
    /** The lines of the log file. */
    ghost var log: seq<string>

    ghost predicate Valid()
      reads this`indentLevel
    {
      indentLevel >= 0
    }

    /** The log's initial state; `existing` is what the log file already holds. */
    constructor (ghost existing: seq<string>)
      ensures Valid()
      ensures indentChar == '\t' && indentLevel == 0 && buffer == [] && log == existing
    {
      indentChar := '\t';
      indentLevel := 0;
      buffer := [];
      log := existing;
    }

    /** `IndentString`: the indentation put in front of every line. */
    function IndentString(): (r: string)
      requires Valid()
      reads this`indentChar, this`indentLevel
      ensures |r| == indentLevel
      ensures forall i :: 0 <= i < |r| ==> r[i] == indentChar
    {
      Repeat(indentChar, indentLevel)
    }

    /** `ChangeIndent`: the level moves by `delta` and never drops below zero. */
    method ChangeIndent(delta: Int)
      requires Valid()
      modifies this`indentLevel
      ensures Valid()
      ensures indentLevel == ClampIndent(old(indentLevel), delta)
    {
      indentLevel := ClampIndent(indentLevel, delta);
    }

    /** `LogBuffered`: one indented line is queued; the log file is untouched. */
    method LogBuffered(str: string)
      requires Valid()
      modifies this`buffer
      ensures buffer == old(buffer) + [IndentString() + str]
    {
      buffer := buffer + [IndentString() + str];
    }

    /** `FlushBuffer`: the queued lines are written in order and the queue is emptied; an empty queue changes nothing. */
    method FlushBuffer()
      requires Valid()
      modifies this`buffer, this`log
      ensures old(buffer) == [] ==> buffer == [] && log == old(log)
      ensures old(buffer) != [] ==> buffer == [] && log == old(log) + old(buffer)
    {
      if |buffer| > 0 {
        var i := 0;
        while i < |buffer|
          invariant 0 <= i <= |buffer|
          invariant buffer == old(buffer)
          invariant log == old(log) + buffer[..i]
        {
          log := log + [buffer[i]];
          assert buffer[..i + 1] == buffer[..i] + [buffer[i]];
          i := i + 1;
        }
        assert buffer[..i] == buffer;
        buffer := [];
      }
    }

    /** `Log`: one indented line is written to the log file; the queue is untouched. */
    method Log(str: string)
      requires Valid()
      modifies this`log
      ensures log == old(log) + [IndentString() + str]
    {
      log := log + [IndentString() + str];
    }

    /**
     * `LogBytes`: the bytes as a hex dump, one indented line per eight bytes
     * and one for the rest, followed by the line `HASH: ` and the digest of the
     * bytes in hexadecimal. `digest` stands for MD5. The count must be below
     * `int.MaxValue`: at that count the loop counter wraps before `i <= len`
     * fails, and the loop never finishes normally.
     */
    method LogBytes(bytes: seq<Byte>, digest: seq<Byte> -> seq<Byte>)
      requires Valid()
      requires |bytes| < MaxValue
      modifies this`log
      ensures log == old(log) + Indented(IndentString(), HexLines(bytes)) +
        [IndentString() + "HASH: " + HexString(digest(bytes))]
    {
      var len := |bytes|;
      ghost var indent := IndentString();
      ghost var e := 0;
      var s := "";
      var i := 1;
      while i <= len
        invariant 1 <= i <= len + 1
        invariant e <= i - 1 < e + 8
        invariant e % 8 == 0 || e == len
        invariant i - 1 == len ==> e == len
        invariant indent == IndentString()
        invariant log == old(log) + Indented(indent, HexLines(bytes[..e]))
        invariant s == PendingLine(bytes, e, i - 1)
      {
        LogBytesStep(bytes, indent, e, i, s);
        if s == "" {
          s := "#  ";
        }
        s := s + Hex2(bytes[i - 1]) + " ";
        if i > 1 || len == 1 {
          if i % 8 == 0 || i == len {
            Log(s);
            s := "";
            e := i;
            assert s == PendingLine(bytes, e, i);
          } else {
            if i % 4 == 0 {
              s := s + " ";
            }
            assert s == PendingLine(bytes, e, i);
          }
        } else {
          assert s == PendingLine(bytes, e, i);
        }
        i := i + 1;
      }
      assert bytes[..e] == bytes;
      var sBuilder := HexText(digest(bytes));
      Log("HASH: " + sBuilder);
      assert indent + ("HASH: " + sBuilder) == indent + "HASH: " + sBuilder;
    }
  }

  /** The `StringBuilder` loop of `LogBytes`: each byte of `hash` as two upper-case digits, in order. */
  method HexText(hash: seq<Byte>) returns (text: string)
    ensures text == HexString(hash)
  {
    text := "";
    var k := 0;
    while k < |hash|
      invariant 0 <= k <= |hash|
      invariant text == HexString(hash[..k])
    {
      HexStringPrefix(hash, k);
      text := text + Hex2(hash[k]);
      k := k + 1;
    }
    assert hash[..k] == hash;
  }

  /** Within a line, the pending text followed by the next byte's cell is the line so far. */
  lemma PendingThenCell(b: seq<Byte>, e: nat, i: nat)
    requires e < i <= |b|
    ensures (if PendingLine(b, e, i - 1) == "" then "#  " else PendingLine(b, e, i - 1)) + Hex2(b[i - 1]) + " " == HexLine(b[e..i])
  {
    assert b[e..i] == b[e..i - 1] + [b[i - 1]];
    CellsSnoc(b[e..i - 1], b[i - 1], 0);
    if e < i - 1 {
      assert PendingLine(b, e, i - 1)[0] == '#';
    } else {
      assert b[e..i - 1] == [];
    }
  }

  /** Within a line that starts at a multiple of eight, the fourth byte is the one at a multiple of four. */
  lemma FourthByte(e: int, i: int)
    requires e % 8 == 0 && e < i < e + 8
    ensures i % 4 == 0 <==> i - e == 4
  {
  }

  /** Writing the completed line for bytes `e` to `i` extends the indented dump of the first `e` bytes to the first `i`. */
  lemma EmitLine(b: seq<Byte>, indent: string, e: nat, i: nat)
    requires e % 8 == 0 && e < i <= e + 8 && i <= |b|
    ensures Indented(indent, HexLines(b[..e])) + [indent + HexLine(b[e..i])] == Indented(indent, HexLines(b[..i]))
  {
    HexLinesExtend(b, e, i);
    IndentedAppend(indent, HexLines(b[..e]), [HexLine(b[e..i])]);
  }

  /**
   * One turn of the `LogBytes` loop for the `i`-th byte: when the line is
   * complete, writing it extends the indented dump from the first `e` bytes to
   * the first `i`; otherwise the text held back is the line so far.
   */
  lemma LogBytesStep(b: seq<Byte>, indent: string, e: nat, i: nat, s: string)
    requires 1 <= i <= |b| && e <= i - 1 < e + 8 && (e % 8 == 0 || e == |b|)
    requires s == PendingLine(b, e, i - 1)
    ensures var s' := (if s == "" then "#  " else s) + Hex2(b[i - 1]) + " ";
      var emit := (i > 1 || |b| == 1) && (i % 8 == 0 || i == |b|);
      (emit ==> e % 8 == 0 && Indented(indent, HexLines(b[..e])) + [indent + s'] == Indented(indent, HexLines(b[..i]))) &&
      (!emit ==> i < |b| && i < e + 8 && PendingLine(b, e, i) == if i % 4 == 0 then s' + " " else s')
  {
    PendingThenCell(b, e, i);
    if (i > 1 || |b| == 1) && (i % 8 == 0 || i == |b|) {
      EmitLine(b, indent, e, i);
    } else {
      FourthByte(e, i);
    }
  }
}
