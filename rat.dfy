/**
 * The formatting path of rat/src/lib.rs: the state carried from read to read
 * and from file to file (`OutState`), the three line encoders, `write_end`,
 * the streaming loop of `real_write`, the verbatim loop of `easy_write`, and
 * the per-file loop of `rat_process` with its final carriage return.
 *
 * Standard output is the ghost byte sequence `sink` of the buffered writer
 * (and the ghost `stdout` threaded between writers); each loop is proved to
 * write exactly what the reference fold `Format.Run` prescribes.
 */
module Rat {
  import opened Bytes
  import opened Format
  import LineNumber
  import opened IoUtil

  // ---------------------------------------------------------------------
  // OutState (lib.rs:320-327).
  // ---------------------------------------------------------------------

  class OutState {
    var newLine: bool
    var hasBlankLine: bool
    var preCarriageReturn: bool
    const lineNumber: LineNumber.LineNumber

    ghost predicate Valid()
      reads this, lineNumber, lineNumber.buf
    {
      lineNumber.Valid() && lineNumber.buf.Length == LineNumber.LINE_COUNTER_BUF_LEN
    }

    /** The state as the reference transducer sees it. */
    ghost function Abstract(): FState
      reads this, lineNumber
    {
      FState(newLine, hasBlankLine, preCarriageReturn, lineNumber.count)
    }

    /** The state `rat_process` starts with (lib.rs:415-420). */
    constructor ()
      ensures Valid() && Abstract() == Initial
      ensures fresh(lineNumber) && fresh(lineNumber.buf)
    {
      newLine := true;
      hasBlankLine := false;
      preCarriageReturn := false;
      lineNumber := new LineNumber.LineNumber(LineNumber.LINE_COUNTER_BUF_LEN);
    }
  }

  // ---------------------------------------------------------------------
  // Small writers.
  // ---------------------------------------------------------------------

  /** Advances the counter and writes its slice and a tab (lib.rs:493-495, 513-515). */
  method WriteNumber(w: BufferedWriterSingleThread, st: OutState)
    requires w.Valid() && st.Valid()
    modifies w, st.lineNumber, st.lineNumber.buf
    ensures w.Valid() && st.Valid()
    ensures st.Abstract() == old(st.Abstract()).(lines := old(st.Abstract()).lines + 1)
    ensures w.Contents() == old(w.Contents()) + NumberText(st.Abstract().lines)
  {
    ghost var c := w.Contents();
    st.lineNumber.NextLineNum();
    var digits := st.lineNumber.GetLineNum();
    w.Write(digits);
    w.WriteByte(TAB);
    ConcatAssoc(c, digits, [TAB]);
  }

  /**
   * `write_end` (lib.rs:567-587): a pending carriage return becomes `^M`
   * under `show_ends` and `\r` otherwise, then the end string; an
   * interactive input flushes after every line.
   */
  method WriteEnd(w: BufferedWriterSingleThread, cfg: Config, st: OutState, isInteractive: bool)
    requires w.Valid()
    modifies w, st
    ensures w.Valid()
    ensures st.Abstract() == old(st.Abstract()).(preCarriageReturn := false)
    ensures w.Contents() == old(w.Contents()) + EndText(cfg, old(st.preCarriageReturn))
    ensures isInteractive ==> w.buffer == []
  {
    ghost var c := w.Contents();
    if st.preCarriageReturn {
      WriteCrMark(w, cfg);
      st.preCarriageReturn := false;
    }
    w.Write(EndStr(cfg));
    if old(st.preCarriageReturn) {
      ConcatAssoc(c, CrMark(cfg), EndStr(cfg));
    }
    if isInteractive {
      w.Flush();
    }
  }

  /** The marker of a pending carriage return (lib.rs:573-578). */
  method WriteCrMark(w: BufferedWriterSingleThread, cfg: Config)
    requires w.Valid()
    modifies w
    ensures w.Valid() && w.Contents() == old(w.Contents()) + CrMark(cfg)
  {
    if cfg.showEnds {
      w.Write([CARET, UPPER_M]);
    } else {
      w.Write([CR]);
    }
  }

  /**
   * A newline read at the start of the loop body (lib.rs:490-504): unless
   * it would be a second blank line under `squeeze_blank`, it is numbered
   * under `AllLine` at a line start and ends the line; the stream is then
   * at a line start.
   */
  method NewlineStep(w: BufferedWriterSingleThread, cfg: Config, st: OutState, isInteractive: bool)
    requires w.Valid() && st.Valid()
    modifies w, st, st.lineNumber, st.lineNumber.buf
    ensures w.Valid() && st.Valid()
    ensures var o := NewlineOut(cfg, old(st.Abstract()));
      st.Abstract() == o.state && w.Contents() == old(w.Contents()) + o.text
  {
    ghost var s, c := st.Abstract(), w.Contents();
    NewlineCases(cfg, s);
    if !(st.newLine && cfg.squeezeBlank && st.hasBlankLine) {
      if st.newLine && cfg.numberMode == NumberMode.AllLine {
        WriteNumber(w, st);
        WriteEnd(w, cfg, st, isInteractive);
        ConcatAssoc(c, NumberText(s.lines + 1), EndText(cfg, s.preCarriageReturn));
      } else {
        WriteEnd(w, cfg, st, isInteractive);
      }
      st.hasBlankLine := st.newLine;
    } else {
      assert c + [] == c;
    }
    st.newLine := true;
  }

  /**
   * What precedes a byte other than a newline (lib.rs:505-516): the blank
   * line flag drops, a pending carriage return is written as it came, and a
   * line start gets its number when numbering is on.
   */
  method BeginLine(w: BufferedWriterSingleThread, cfg: Config, st: OutState)
    requires w.Valid() && st.Valid()
    modifies w, st, st.lineNumber, st.lineNumber.buf
    ensures w.Valid() && st.Valid()
    ensures st.Abstract() == LineStart(cfg, old(st.Abstract())).state
    ensures w.Contents() == old(w.Contents()) + LineStart(cfg, old(st.Abstract())).text
  {
    st.hasBlankLine := false;
    if st.preCarriageReturn {
      w.WriteByte(CR);
      st.preCarriageReturn := false;
      st.newLine := false;
    }
    if st.newLine && cfg.numberMode != NumberMode.None {
      WriteNumber(w, st);
    }
  }

  // ---------------------------------------------------------------------
  // Line encoders.
  // ---------------------------------------------------------------------

  /** The three byte tests the encoders search for with `Iterator::position`. */
  datatype ByteClass =
    | Unprintable   // `*c < 32 || *c > 126` (lib.rs:597)
    | TabOrEnd      // `*c == b'\t' || *c == b'\n' || *c == b'\r'` (lib.rs:632)
    | LineEnd       // `*c == b'\n' || *c == b'\r'` (lib.rs:524)

  predicate InClass(k: ByteClass, c: byte)
  {
    match k
    case Unprintable => c < 32 || c > 126
    case TabOrEnd => c == TAB || c == LF || c == CR
    case LineEnd => c == LF || c == CR
  }

  /** The index of the first byte of class `k`, as `Iterator::position` returns it. */
  function Position(s: seq<byte>, k: ByteClass): (r: Option<nat>)
    ensures r.Some? ==> r.value < |s| && InClass(k, s[r.value])
    ensures r.Some? ==> forall i :: 0 <= i < r.value ==> !InClass(k, s[i])
    ensures r.None? ==> forall i :: 0 <= i < |s| ==> !InClass(k, s[i])
  {
    if s == [] then Option.None
    else if InClass(k, s[0]) then Some(0)
    else match Position(s[1..], k)
      case None => Option.None
      case Some(j) => Some(j + 1)
  }

  /** The `-v` output for a stretch of printable bytes is that stretch. */
  lemma NonprintingPrintable(cfg: Config, inBuf: seq<byte>, pos: nat, p: nat)
    requires pos + p <= |inBuf|
    requires forall i :: pos <= i < pos + p ==> 32 <= inBuf[i] <= 126
    ensures NonprintingAll(cfg, inBuf[..pos + p]) == NonprintingAll(cfg, inBuf[..pos]) + inBuf[pos..pos + p]
  {
    var plain := inBuf[pos..pos + p];
    assert inBuf[..pos + p] == inBuf[..pos] + plain;
    NonprintingAllAppend(cfg, inBuf[..pos], plain);
    NonprintingAllPrintable(cfg, plain);
  }

  /**
   * What one search of `write_line_nonprinting` establishes: the `p` bytes
   * skipped are printable and copied as they are, and the byte found after
   * them, unless it is a newline, is written in its `-v` notation.
   */
  lemma NonprintingScan(cfg: Config, inBuf: seq<byte>, pos: nat, p: nat)
    requires pos + p <= |inBuf|
    requires forall i :: 0 <= i < p ==> !InClass(Unprintable, inBuf[pos..][i])
    ensures inBuf[pos..][..p] == inBuf[pos..pos + p]
    ensures forall i :: pos <= i < pos + p ==> inBuf[i] != LF
    ensures NonprintingAll(cfg, inBuf[..pos + p]) == NonprintingAll(cfg, inBuf[..pos]) + inBuf[pos..pos + p]
    ensures pos + p < |inBuf| ==>
      NonprintingAll(cfg, inBuf[..pos + p + 1]) ==
        NonprintingAll(cfg, inBuf[..pos]) + inBuf[pos..pos + p] + NonprintingText(cfg, inBuf[pos + p]) &&
      inBuf[pos..][p + 1..] == inBuf[pos + p + 1..]
  {
    assert forall i :: pos <= i < pos + p ==> inBuf[i] == inBuf[pos..][i - pos];
    NonprintingPrintable(cfg, inBuf, pos, p);
    if pos + p < |inBuf| {
      assert inBuf[..pos + p + 1][..pos + p] == inBuf[..pos + p];
    }
  }

  /** The plain output for a stretch of bytes without tabs is that stretch. */
  lemma PlainTabFree(cfg: Config, inBuf: seq<byte>, pos: nat, p: nat)
    requires pos + p <= |inBuf|
    requires forall i :: pos <= i < pos + p ==> inBuf[i] != TAB
    ensures PlainAll(cfg, inBuf[..pos + p]) == PlainAll(cfg, inBuf[..pos]) + inBuf[pos..pos + p]
  {
    var plain := inBuf[pos..pos + p];
    assert inBuf[..pos + p] == inBuf[..pos] + plain;
    PlainAllAppend(cfg, inBuf[..pos], plain);
    PlainAllTabFree(cfg, plain);
  }

  /**
   * What one search of `write_line_show_tab` establishes: the `p` bytes
   * skipped hold no tab, newline or carriage return, are copied as they
   * are, and a tab found after them is written as `TabStr`.
   */
  lemma ShowTabScan(cfg: Config, inBuf: seq<byte>, pos: nat, p: nat)
    requires pos + p <= |inBuf|
    requires forall i :: 0 <= i < p ==> !InClass(TabOrEnd, inBuf[pos..][i])
    ensures inBuf[pos..][..p] == inBuf[pos..pos + p]
    ensures forall i :: pos <= i < pos + p ==> inBuf[i] != LF && inBuf[i] != CR
    ensures PlainAll(cfg, inBuf[..pos + p]) == PlainAll(cfg, inBuf[..pos]) + inBuf[pos..pos + p]
    ensures pos + p < |inBuf| && inBuf[pos + p] == TAB ==>
      PlainAll(cfg, inBuf[..pos + p + 1]) == PlainAll(cfg, inBuf[..pos]) + inBuf[pos..pos + p] + TabStr(cfg) &&
      inBuf[pos..][p + 1..] == inBuf[pos + p + 1..]
  {
    assert forall i :: pos <= i < pos + p ==> inBuf[i] == inBuf[pos..][i - pos];
    PlainTabFree(cfg, inBuf, pos, p);
    if pos + p < |inBuf| && inBuf[pos + p] == TAB {
      assert inBuf[..pos + p + 1] == inBuf[..pos + p] + [TAB];
      assert inBuf[..pos + p + 1][..pos + p] == inBuf[..pos + p];
    }
  }

  /**
   * The arms of the match in `write_line_nonprinting` (lib.rs:601-610) for
   * a byte the search stopped at other than a newline: a tab as `TabStr`,
   * DEL as `^?`, bytes from 128 as `M-` and the notation of their low seven
   * bits, other controls as `^` and the byte plus 64. The arm for 32..=126
   * is never taken: the search only stops outside that range.
   */
  method WriteNotation(w: BufferedWriterSingleThread, cfg: Config, b: byte)
    requires w.Valid() && (b < 32 || b > 126) && b != LF
    modifies w
    ensures w.Valid()
    ensures w.Contents() == old(w.Contents()) + NonprintingText(cfg, b)
  {
    if b == TAB {
      w.Write(TabStr(cfg));
    } else if b == 127 {
      w.Write([CARET, QUESTION]);
    } else if 128 <= b <= 159 {
      w.Write([UPPER_M, DASH, CARET, b - 64]);
    } else if 160 <= b <= 254 {
      w.Write([UPPER_M, DASH, b - 128]);
    } else if b == 255 {
      w.Write([UPPER_M, DASH, CARET, QUESTION]);
    } else {
      w.Write([CARET, b + 64]);
    }
  }

  /**
   * The search of `write_line_nonprinting` from offset `pos` for the next
   * byte outside 32..=126, and the copy of the printable bytes before it
   * (lib.rs:597-599, 614-615). Returns the number of bytes copied; the
   * writer then holds the `-v` output of the first `pos + p` bytes.
   */
  method CopyPrintable(w: BufferedWriterSingleThread, cfg: Config, inBuf: seq<byte>, pos: nat,
                       ghost c0: seq<byte>)
    returns (p: nat)
    requires pos <= |inBuf| && forall i :: 0 <= i < pos ==> inBuf[i] != LF
    requires w.Valid() && w.Contents() == c0 + NonprintingAll(cfg, inBuf[..pos])
    modifies w
    ensures pos + p <= |inBuf| && (pos + p == |inBuf| || InClass(Unprintable, inBuf[pos + p]))
    ensures forall i :: 0 <= i < pos + p ==> inBuf[i] != LF
    ensures w.Valid() && w.Contents() == c0 + NonprintingAll(cfg, inBuf[..pos + p])
  {
    var rest := inBuf[pos..];
    var found := Position(rest, Unprintable);
    p := if found.Some? then found.value else |rest|;
    ghost var a := NonprintingAll(cfg, inBuf[..pos]);
    NonprintingScan(cfg, inBuf, pos, p);
    w.Write(rest[..p]);
    ConcatAssoc(c0, a, inBuf[pos..pos + p]);
  }

  /**
   * Writes the `-v` notation of the byte at `pos`, which the search stopped
   * at and which is not a newline (lib.rs:601-610).
   */
  method EscapeAt(w: BufferedWriterSingleThread, cfg: Config, inBuf: seq<byte>, pos: nat,
                  ghost c0: seq<byte>)
    requires pos < |inBuf| && InClass(Unprintable, inBuf[pos]) && inBuf[pos] != LF
    requires forall i :: 0 <= i < pos ==> inBuf[i] != LF
    requires w.Valid() && w.Contents() == c0 + NonprintingAll(cfg, inBuf[..pos])
    modifies w
    ensures forall i :: 0 <= i < pos + 1 ==> inBuf[i] != LF
    ensures w.Valid() && w.Contents() == c0 + NonprintingAll(cfg, inBuf[..pos + 1])
  {
    ghost var a := NonprintingAll(cfg, inBuf[..pos]);
    NonprintingAllAppend(cfg, inBuf[..pos], [inBuf[pos]]);
    assert inBuf[..pos + 1] == inBuf[..pos] + [inBuf[pos]];
    WriteNotation(w, cfg, inBuf[pos]);
    ConcatAssoc(c0, a, NonprintingText(cfg, inBuf[pos]));
  }

  /**
   * `write_line_nonprinting` (lib.rs:590-620): writes the `-v` notation of
   * every byte up to the first newline and returns that newline's index,
   * or the whole length when there is none.
   */
  method WriteLineNonprinting(w: BufferedWriterSingleThread, inBuf: seq<byte>, cfg: Config)
    returns (len: nat)
    requires w.Valid()
    modifies w
    ensures w.Valid()
    ensures len <= |inBuf| && (len == |inBuf| || inBuf[len] == LF)
    ensures forall i :: 0 <= i < len ==> inBuf[i] != LF
    ensures w.Contents() == old(w.Contents()) + NonprintingAll(cfg, inBuf[..len])
  {
    ghost var c0 := w.Contents();
    var pos: nat := 0;
    while true
      invariant pos <= |inBuf|
      invariant forall i :: 0 <= i < pos ==> inBuf[i] != LF
      invariant w.Valid() && w.Contents() == c0 + NonprintingAll(cfg, inBuf[..pos])
      decreases |inBuf| - pos
    {
      var p := CopyPrintable(w, cfg, inBuf, pos, c0);
      var stop := pos + p;
      if stop == |inBuf| || inBuf[stop] == LF {
        return stop;
      }
      EscapeAt(w, cfg, inBuf, stop, c0);
      pos := stop + 1;
    }
  }

  /**
   * The search of `write_line_show_tab` from offset `pos` for the next tab,
   * newline or carriage return, and the copy of the bytes before it
   * (lib.rs:631-645). Returns the number of bytes copied; the writer then
   * holds the `-T` output of the first `pos + p` bytes.
   */
  method CopyTabFree(w: BufferedWriterSingleThread, cfg: Config, inBuf: seq<byte>, pos: nat,
                     ghost c0: seq<byte>)
    returns (p: nat)
    requires pos <= |inBuf| && forall i :: 0 <= i < pos ==> inBuf[i] != LF && inBuf[i] != CR
    requires w.Valid() && w.Contents() == c0 + PlainAll(cfg, inBuf[..pos])
    modifies w
    ensures pos + p <= |inBuf| && (pos + p == |inBuf| || InClass(TabOrEnd, inBuf[pos + p]))
    ensures forall i :: 0 <= i < pos + p ==> inBuf[i] != LF && inBuf[i] != CR
    ensures w.Valid() && w.Contents() == c0 + PlainAll(cfg, inBuf[..pos + p])
  {
    var rest := inBuf[pos..];
    var found := Position(rest, TabOrEnd);
    p := if found.Some? then found.value else |rest|;
    ghost var a := PlainAll(cfg, inBuf[..pos]);
    ShowTabScan(cfg, inBuf, pos, p);
    w.Write(rest[..p]);
    ConcatAssoc(c0, a, inBuf[pos..pos + p]);
  }

  /** Writes `TabStr` for the tab at `pos` (lib.rs:637). */
  method TabAt(w: BufferedWriterSingleThread, cfg: Config, inBuf: seq<byte>, pos: nat,
               ghost c0: seq<byte>)
    requires pos < |inBuf| && inBuf[pos] == TAB
    requires forall i :: 0 <= i < pos ==> inBuf[i] != LF && inBuf[i] != CR
    requires w.Valid() && w.Contents() == c0 + PlainAll(cfg, inBuf[..pos])
    modifies w
    ensures forall i :: 0 <= i < pos + 1 ==> inBuf[i] != LF && inBuf[i] != CR
    ensures w.Valid() && w.Contents() == c0 + PlainAll(cfg, inBuf[..pos + 1])
  {
    ghost var a := PlainAll(cfg, inBuf[..pos]);
    PlainAllAppend(cfg, inBuf[..pos], [TAB]);
    assert inBuf[..pos + 1] == inBuf[..pos] + [TAB];
    assert PlainAll(cfg, [TAB]) == PlainAll(cfg, []) + TabStr(cfg);
    w.Write(TabStr(cfg));
    ConcatAssoc(c0, a, TabStr(cfg));
  }

  /**
   * `write_line_show_tab` (lib.rs:623-651): copies bytes up to the first
   * newline or carriage return, writing each tab as `TabStr`, and returns
   * the terminator's index, or the whole length when there is none.
   */
  method WriteLineShowTab(w: BufferedWriterSingleThread, inBuf: seq<byte>, cfg: Config)
    returns (len: nat)
    requires w.Valid()
    modifies w
    ensures w.Valid()
    ensures len <= |inBuf| && (len == |inBuf| || inBuf[len] == LF || inBuf[len] == CR)
    ensures forall i :: 0 <= i < len ==> inBuf[i] != LF && inBuf[i] != CR
    ensures w.Contents() == old(w.Contents()) + PlainAll(cfg, inBuf[..len])
  {
    ghost var c0 := w.Contents();
    var pos: nat := 0;
    while true
      invariant pos <= |inBuf|
      invariant forall i :: 0 <= i < pos ==> inBuf[i] != LF && inBuf[i] != CR
      invariant w.Valid() && w.Contents() == c0 + PlainAll(cfg, inBuf[..pos])
      decreases |inBuf| - pos
    {
      var p := CopyTabFree(w, cfg, inBuf, pos, c0);
      var stop := pos + p;
      if stop == |inBuf| || inBuf[stop] != TAB {
        return stop;
      }
      TabAt(w, cfg, inBuf, stop, c0);
      pos := stop + 1;
    }
  }

  /**
   * The encoder used when neither `-v` nor `-T` is set (lib.rs:524-533):
   * bytes are copied as they are up to the first newline or carriage return.
   */
  method WriteLinePlain(w: BufferedWriterSingleThread, inBuf: seq<byte>)
    returns (len: nat)
    requires w.Valid()
    modifies w
    ensures w.Valid()
    ensures len <= |inBuf| && (len == |inBuf| || inBuf[len] == LF || inBuf[len] == CR)
    ensures forall i :: 0 <= i < len ==> inBuf[i] != LF && inBuf[i] != CR
    ensures w.Contents() == old(w.Contents()) + inBuf[..len]
  {
    match Position(inBuf, LineEnd)
    case Some(p) =>
      w.Write(inBuf[..p]);
      len := p;
    case None =>
      w.Write(inBuf);
      len := |inBuf|;
  }

  // ---------------------------------------------------------------------
  // The streaming loop of real_write (lib.rs:487-559).
  // ---------------------------------------------------------------------

  /**
   * The encoder dispatch of lib.rs:518-535: `-v` selects the nonprinting
   * encoder, `-T` alone the tab encoder, and otherwise the bytes up to the
   * first newline or carriage return are copied as they are. Either way the
   * writer receives the encoding of a run with no terminator, and the run
   * stops at a terminator or at the end of the buffer.
   */
  method WriteLine(w: BufferedWriterSingleThread, cfg: Config, inBuf: seq<byte>) returns (len: nat)
    requires w.Valid()
    modifies w
    ensures w.Valid()
    ensures len <= |inBuf| && (len == |inBuf| || IsTerminator(cfg, inBuf[len]))
    ensures NoTerminator(cfg, inBuf[..len])
    ensures w.Contents() == old(w.Contents()) + EncodeAll(cfg, inBuf[..len])
  {
    if cfg.showNonprinting {
      len := WriteLineNonprinting(w, inBuf, cfg);
    } else if cfg.showTabs {
      len := WriteLineShowTab(w, inBuf, cfg);
    } else {
      len := WriteLinePlain(w, inBuf);
      PlainAllIdentity(cfg, inBuf[..len]);
    }
  }

  /**
   * The rest of the loop body (lib.rs:505-558) for a chunk suffix `inBuf`
   * that does not start with a newline: the line start, one encoder call,
   * and the terminator it stopped at. The writer receives the output of the
   * reference fold over the bytes consumed.
   */
  method FormatSegment(w: BufferedWriterSingleThread, cfg: Config, st: OutState,
                       inBuf: seq<byte>, isInteractive: bool)
    returns (consumed: nat)
    requires w.Valid() && st.Valid()
    requires inBuf != [] && inBuf[0] != LF
    modifies w, st, st.lineNumber, st.lineNumber.buf
    ensures w.Valid() && st.Valid()
    ensures 0 < consumed <= |inBuf|
    ensures var r := Run(cfg, old(st.Abstract()), inBuf[..consumed]);
      st.Abstract() == r.state && w.Contents() == old(w.Contents()) + r.text
  {
    ghost var s, c := st.Abstract(), w.Contents();
    ghost var ls := LineStart(cfg, s);
    BeginLine(w, cfg, st);
    var len := WriteLine(w, cfg, inBuf);
    ghost var seg := inBuf[..len];
    ConcatAssoc(c, ls.text, EncodeAll(cfg, seg));
    if len > 0 {
      st.newLine := false;
    }
    if len == |inBuf| {
      SegmentRun(cfg, s, seg);
      return len;
    }

    TakeSnoc(inBuf, len);
    // `WriteLine` stops only at a terminator, so the source's empty arm
    // for any other byte (lib.rs:555) cannot be reached.
    match inBuf[len] {
      case 10 =>
        WriteEnd(w, cfg, st, isInteractive);
        st.hasBlankLine := st.newLine;
        st.newLine := true;
        SegmentLf(cfg, s, seg);
        ConcatAssoc(c, ls.text + EncodeAll(cfg, seg), EndStr(cfg));
      case 13 =>
        st.preCarriageReturn := true;
        st.newLine := false;
        SegmentCr(cfg, s, seg);
    }
    return len + 1;
  }

  /**
   * A newline at `offset` of the chunk (lib.rs:490-504): the writer and the
   * state move on from the fold over `buffer[..offset]` to the fold over
   * `buffer[..offset + 1]`.
   */
  method ChunkNewline(w: BufferedWriterSingleThread, cfg: Config, st: OutState,
                      buffer: seq<byte>, offset: nat, isInteractive: bool,
                      ghost s0: FState, ghost c0: seq<byte>)
    requires offset < |buffer| && buffer[offset] == LF
    requires w.Valid() && st.Valid()
    requires var r := Run(cfg, s0, buffer[..offset]);
      st.Abstract() == r.state && w.Contents() == c0 + r.text
    modifies w, st, st.lineNumber, st.lineNumber.buf
    ensures w.Valid() && st.Valid()
    ensures var r := Run(cfg, s0, buffer[..offset + 1]);
      st.Abstract() == r.state && w.Contents() == c0 + r.text
  {
    ghost var done := Run(cfg, s0, buffer[..offset]);
    NewlineStep(w, cfg, st, isInteractive);
    RunPrefixSnoc(cfg, s0, buffer, offset);
    ConcatAssoc(c0, done.text, NewlineOut(cfg, done.state).text);
  }

  /**
   * Output and state after the fold over `buffer[..offset]` followed by
   * the fold over the next `consumed` bytes are those of the fold over
   * `buffer[..offset + consumed]`.
   */
  lemma SegmentCompose(cfg: Config, s0: FState, buffer: seq<byte>, offset: nat, next: nat,
                       c0: seq<byte>, before: seq<byte>, after: seq<byte>, st: FState)
    requires offset <= next <= |buffer|
    requires before == c0 + Run(cfg, s0, buffer[..offset]).text
    requires var q := Run(cfg, Run(cfg, s0, buffer[..offset]).state, buffer[offset..][..next - offset]);
      st == q.state && after == before + q.text
    ensures var r := Run(cfg, s0, buffer[..next]);
      st == r.state && after == c0 + r.text
  {
    var done, k := Run(cfg, s0, buffer[..offset]), next - offset;
    var q := Run(cfg, done.state, buffer[offset..][..k]);
    RunPrefixAppend(cfg, s0, buffer, offset, k);
    assert buffer[..offset + k] == buffer[..next];
    assert Run(cfg, s0, buffer[..next]) == Out(q.state, done.text + q.text);
    ConcatAssoc(c0, done.text, q.text);
  }

  /**
   * The bytes from `offset` up to and including the terminator the encoder
   * stops at (lib.rs:505-558): the writer and the state move on to the fold
   * over `buffer[..next]`.
   */
  method ChunkSegment(w: BufferedWriterSingleThread, cfg: Config, st: OutState,
                      buffer: seq<byte>, offset: nat, isInteractive: bool,
                      ghost s0: FState, ghost c0: seq<byte>)
    returns (next: nat)
    requires offset < |buffer| && buffer[offset] != LF
    requires w.Valid() && st.Valid()
    requires var r := Run(cfg, s0, buffer[..offset]);
      st.Abstract() == r.state && w.Contents() == c0 + r.text
    modifies w, st, st.lineNumber, st.lineNumber.buf
    ensures offset < next <= |buffer|
    ensures w.Valid() && st.Valid()
    ensures var r := Run(cfg, s0, buffer[..next]);
      st.Abstract() == r.state && w.Contents() == c0 + r.text
  {
    ghost var before := w.Contents();
    var consumed := FormatSegment(w, cfg, st, buffer[offset..], isInteractive);
    next := offset + consumed;
    SegmentCompose(cfg, s0, buffer, offset, next, c0, before, w.Contents(), st.Abstract());
  }

  /**
   * The loop over one chunk returned by `read` (lib.rs:487-559): the writer
   * receives exactly the output of the reference fold over the chunk, and
   * the state ends where the fold ends. Chunks therefore compose (see
   * `Format.RunAppend`).
   */
  method FormatChunk(w: BufferedWriterSingleThread, cfg: Config, st: OutState,
                     buffer: seq<byte>, isInteractive: bool)
    requires w.Valid() && st.Valid()
    modifies w, st, st.lineNumber, st.lineNumber.buf
    ensures w.Valid() && st.Valid()
    ensures var r := Run(cfg, old(st.Abstract()), buffer);
      st.Abstract() == r.state && w.Contents() == old(w.Contents()) + r.text
  {
    ghost var s0 := st.Abstract();
    ghost var c0 := w.Contents();
    var offset := 0;
    while offset < |buffer|
      invariant offset <= |buffer|
      invariant w.Valid() && st.Valid()
      invariant var r := Run(cfg, s0, buffer[..offset]);
        st.Abstract() == r.state && w.Contents() == c0 + r.text
    {
      if buffer[offset] == LF {
        ChunkNewline(w, cfg, st, buffer, offset, isInteractive, s0, c0);
        offset := offset + 1;
      } else {
        offset := ChunkSegment(w, cfg, st, buffer, offset, isInteractive, s0, c0);
      }
    }
    assert buffer[..offset] == buffer;
    assert c0 + [] == c0;
  }

  // ---------------------------------------------------------------------
  // Inputs.
  // ---------------------------------------------------------------------

  /**
   * An opened input as its reader behaves: `chunks` are the successive
   * results of `read`, an empty one meaning end of input; once they run out,
   * the next `read` fails when `fails` holds and reports end of input
   * otherwise. `isInteractive` is the terminal test done when opening.
   */
  datatype Source = Source(chunks: seq<seq<byte>>, fails: bool, isInteractive: bool)

  /** An input after `open_file`: rejected with a diagnostic, or opened. */
  datatype Input = Rejected | Opened(src: Source)

  /** The index of the read that reports end of input, or the number of chunks. */
  function EofAt(chunks: seq<seq<byte>>): (k: nat)
    ensures k <= |chunks|
    ensures k < |chunks| ==> chunks[k] == []
    ensures forall j :: 0 <= j < k ==> chunks[j] != []
  {
    if chunks == [] || chunks[0] == [] then 0 else 1 + EofAt(chunks[1..])
  }

  /** The input ends with a failed read rather than at end of input. */
  predicate ReadFails(src: Source)
  {
    EofAt(src.chunks) == |src.chunks| && src.fails
  }

  /** Every byte the reader delivers, in order. */
  function Received(src: Source): seq<byte>
  {
    Flatten(src.chunks[..EofAt(src.chunks)])
  }

  lemma FlattenStep(chunks: seq<seq<byte>>, i: nat)
    requires i < |chunks|
    ensures Flatten(chunks[..i + 1]) == Flatten(chunks[..i]) + chunks[i]
  {
    assert chunks[..i + 1][..i] == chunks[..i];
  }

  lemma FlattenSnoc(ss: seq<seq<byte>>, s: seq<byte>)
    ensures Flatten(ss + [s]) == Flatten(ss) + s
  {
    assert (ss + [s])[..|ss|] == ss;
  }

  /** The result of the `i`-th `read` of an input: `None` for an error. */
  function ReadAt(src: Source, i: nat): Option<seq<byte>>
  {
    if i < |src.chunks| then Some(src.chunks[i])
    else if src.fails then Option.None
    else Some([])
  }

  /**
   * While no earlier read reported end of input, the `i`-th read fails
   * exactly when the input ends with a failed read, reports end of input
   * exactly at `EofAt`, and otherwise delivers the next chunk.
   */
  lemma ReadEnds(src: Source, i: nat)
    requires i <= EofAt(src.chunks)
    ensures ReadAt(src, i).None? ==> ReadFails(src) && i == EofAt(src.chunks)
    ensures ReadAt(src, i) == Some([]) ==> !ReadFails(src) && i == EofAt(src.chunks)
    ensures ReadAt(src, i).Some? && ReadAt(src, i).value != [] ==>
      i < EofAt(src.chunks) && ReadAt(src, i).value == src.chunks[i]
  {
  }

  /** The fold over the first `i + 1` chunks carries on from the fold over the first `i`. */
  lemma RunChunks(cfg: Config, st: FState, chunks: seq<seq<byte>>, i: nat)
    requires i < |chunks|
    ensures var r := Run(cfg, st, Flatten(chunks[..i])); var q := Run(cfg, r.state, chunks[i]);
      Run(cfg, st, Flatten(chunks[..i + 1])) == Out(q.state, r.text + q.text)
  {
    FlattenStep(chunks, i);
    RunAppend(cfg, st, Flatten(chunks[..i]), chunks[i]);
  }

  // ---------------------------------------------------------------------
  // real_write and easy_write.
  // ---------------------------------------------------------------------

  /**
   * The body of the outer loop of `real_write` for the `i`-th chunk
   * (lib.rs:483-558): the writer and the state move on from the fold over
   * the first `i` chunks to the fold over the first `i + 1`.
   */
  method FormatNextChunk(w: BufferedWriterSingleThread, cfg: Config, st: OutState,
                         chunks: seq<seq<byte>>, i: nat, isInteractive: bool,
                         ghost s0: FState, ghost c0: seq<byte>)
    requires i < |chunks|
    requires w.Valid() && st.Valid()
    requires var r := Run(cfg, s0, Flatten(chunks[..i]));
      st.Abstract() == r.state && w.Contents() == c0 + r.text
    modifies w, st, st.lineNumber, st.lineNumber.buf
    ensures w.Valid() && st.Valid()
    ensures var r := Run(cfg, s0, Flatten(chunks[..i + 1]));
      st.Abstract() == r.state && w.Contents() == c0 + r.text
  {
    ghost var done := Run(cfg, s0, Flatten(chunks[..i]));
    FormatChunk(w, cfg, st, chunks[i], isInteractive);
    RunChunks(cfg, s0, chunks, i);
    ConcatAssoc(c0, done.text, Run(cfg, done.state, chunks[i]).text);
  }

  /**
   * `real_write` (lib.rs:469-564). Standard output ends up holding the
   * reference output of every byte received; the state carries on from
   * where the fold ends. A failed read returns at once: the writer is
   * dropped without a flush, so standard output holds only a prefix.
   */
  method RealWrite(src: Source, cfg: Config, st: OutState, ghost stdout: seq<byte>)
    returns (ok: bool, ghost stdout': seq<byte>)
    requires st.Valid()
    modifies st, st.lineNumber, st.lineNumber.buf
    ensures st.Valid()
    ensures ok <==> !ReadFails(src)
    ensures var r := Run(cfg, old(st.Abstract()), Received(src));
      st.Abstract() == r.state && stdout <= stdout' <= stdout + r.text &&
      (ok ==> stdout' == stdout + r.text)
  {
    ghost var s0 := st.Abstract();
    var w := new BufferedWriterSingleThread(stdout);
    var i := 0;
    while true
      invariant i <= EofAt(src.chunks)
      invariant w.Valid() && st.Valid()
      invariant var r := Run(cfg, s0, Flatten(src.chunks[..i]));
        st.Abstract() == r.state && w.Contents() == stdout + r.text
      decreases |src.chunks| - i
    {
      var got := ReadAt(src, i);
      ReadEnds(src, i);
      if got.None? {
        assert w.sink <= w.sink + w.buffer;
        return false, w.sink;
      }
      if got.value == [] {
        break;
      }
      FormatNextChunk(w, cfg, st, src.chunks, i, src.isInteractive, s0, stdout);
      i := i + 1;
    }
    w.Flush();
    w.Wait();
    return true, w.sink;
  }

  /**
   * The body of the loop of `easy_write` for the `i`-th chunk
   * (lib.rs:457-460): the chunk is passed on as it is, and flushed at once
   * when the input is interactive.
   */
  method CopyNextChunk(w: BufferedWriterSingleThread, chunks: seq<seq<byte>>, i: nat,
                       isInteractive: bool, ghost c0: seq<byte>)
    requires i < |chunks|
    requires w.Valid() && w.Contents() == c0 + Flatten(chunks[..i])
    modifies w
    ensures w.Valid() && w.Contents() == c0 + Flatten(chunks[..i + 1])
    ensures isInteractive ==> w.buffer == []
  {
    w.Write(chunks[i]);
    if isInteractive {
      w.Flush();
    }
    FlattenStep(chunks, i);
    ConcatAssoc(c0, Flatten(chunks[..i]), chunks[i]);
  }

  /**
   * `easy_write` (lib.rs:438-466) without the splice fast path: every byte
   * read is passed to the writer as it is, flushing after each read from
   * an interactive input.
   */
  method EasyWrite(src: Source, ghost stdout: seq<byte>)
    returns (ok: bool, ghost stdout': seq<byte>)
    ensures ok <==> !ReadFails(src)
    ensures stdout <= stdout' <= stdout + Received(src)
    ensures ok ==> stdout' == stdout + Received(src)
  {
    var w := new BufferedWriterSingleThread(stdout);
    var i := 0;
    while true
      invariant i <= EofAt(src.chunks)
      invariant w.Valid() && w.Contents() == stdout + Flatten(src.chunks[..i])
      decreases |src.chunks| - i
    {
      var got := ReadAt(src, i);
      ReadEnds(src, i);
      if got.None? {
        assert w.sink <= w.sink + w.buffer;
        return false, w.sink;
      }
      if got.value == [] {
        break;
      }
      CopyNextChunk(w, src.chunks, i, src.isInteractive, stdout);
      i := i + 1;
    }
    w.Flush();
    w.Wait();
    return true, w.sink;
  }

  /**
   * What handling one input's bytes does: the verbatim copy when no flag
   * is set (leaving the state alone), the reference fold otherwise.
   */
  function Handled(cfg: Config, st: FState, s: seq<byte>): Out
  {
    if CanEasyWrite(cfg) then Out(st, s) else Run(cfg, st, s)
  }

  lemma HandledAppend(cfg: Config, st: FState, a: seq<byte>, b: seq<byte>)
    ensures var ra := Handled(cfg, st, a); var rb := Handled(cfg, ra.state, b);
      Handled(cfg, st, a + b) == Out(rb.state, ra.text + rb.text)
  {
    if !CanEasyWrite(cfg) {
      RunAppend(cfg, st, a, b);
    }
  }

  /** `rat_handle` (lib.rs:330-341). */
  method RatHandle(src: Source, st: OutState, cfg: Config, ghost stdout: seq<byte>)
    returns (ok: bool, ghost stdout': seq<byte>)
    requires st.Valid()
    modifies st, st.lineNumber, st.lineNumber.buf
    ensures st.Valid()
    ensures ok <==> !ReadFails(src)
    ensures var r := Handled(cfg, old(st.Abstract()), Received(src));
      st.Abstract() == r.state && stdout <= stdout' <= stdout + r.text &&
      (ok ==> stdout' == stdout + r.text)
  {
    if CanEasyWrite(cfg) {
      ok, stdout' := EasyWrite(src, stdout);
    } else {
      ok, stdout' := RealWrite(src, cfg, st, stdout);
    }
  }

  // ---------------------------------------------------------------------
  // rat_process (lib.rs:413-435).
  // ---------------------------------------------------------------------

  /** The bytes an input delivers: none when it could not be opened. */
  function Delivered(input: Input): seq<byte>
  {
    match input
    case Rejected => []
    case Opened(src) => Received(src)
  }

  /** The input was opened and read to its end. */
  predicate Succeeds(input: Input)
  {
    input.Opened? && !ReadFails(input.src)
  }

  /** Every byte delivered by the opened inputs, in order. */
  function AllReceived(inputs: seq<Input>): seq<byte>
  {
    if inputs == [] then []
    else AllReceived(inputs[..|inputs| - 1]) + Delivered(inputs[|inputs| - 1])
  }

  /** Every input was opened and read to its end. */
  predicate AllSucceed(inputs: seq<Input>)
  {
    forall k :: 0 <= k < |inputs| ==> Succeeds(inputs[k])
  }

  /** No opened input ended with a failed read. */
  predicate NoReadFails(inputs: seq<Input>)
  {
    forall k :: 0 <= k < |inputs| ==> inputs[k].Opened? ==> !ReadFails(inputs[k].src)
  }

  /** The bytes delivered by one more input. */
  lemma ReceivedSnoc(inputs: seq<Input>, i: nat)
    requires i < |inputs|
    ensures AllReceived(inputs[..i + 1]) == AllReceived(inputs[..i]) + Delivered(inputs[i])
  {
    assert inputs[..i + 1][..i] == inputs[..i];
  }

  /** The verdicts over one more input. */
  lemma VerdictsSnoc(inputs: seq<Input>, i: nat)
    requires i < |inputs|
    ensures AllSucceed(inputs[..i + 1]) <==> AllSucceed(inputs[..i]) && Succeeds(inputs[i])
    ensures NoReadFails(inputs[..i + 1]) <==>
      NoReadFails(inputs[..i]) && (inputs[i].Opened? ==> !ReadFails(inputs[i].src))
  {
    var p := inputs[..i + 1];
    assert forall k :: 0 <= k < i ==> p[k] == inputs[..i][k];
    assert p[i] == inputs[i];
  }

  /**
   * The body of the loop of `rat_process` for one input (lib.rs:423-430):
   * an input that could not be opened fails with nothing written and the
   * state unchanged; an opened one is handled by `rat_handle`. Standard
   * output gains a prefix of what handling the input writes, all of it
   * unless a read fails.
   */
  method ProcessInput(input: Input, st: OutState, cfg: Config, ghost stdout: seq<byte>)
    returns (ok: bool, ghost stdout': seq<byte>)
    requires st.Valid()
    modifies st, st.lineNumber, st.lineNumber.buf
    ensures st.Valid()
    ensures ok <==> Succeeds(input)
    ensures var r := Handled(cfg, old(st.Abstract()), Delivered(input));
      st.Abstract() == r.state && stdout <= stdout' <= stdout + r.text &&
      ((input.Opened? ==> !ReadFails(input.src)) ==> stdout' == stdout + r.text)
  {
    match input {
      case Opened(src) =>
        ok, stdout' := RatHandle(src, st, cfg, stdout);
      case Rejected =>
        assert Run(cfg, st.Abstract(), []) == Out(st.Abstract(), []);
        assert stdout + [] == stdout;
        ok, stdout' := false, stdout;
    }
  }

  /**
   * What a run over inputs delivering `s` writes: the reference output,
   * then a carriage return if one is still pending at the end.
   */
  function Cat(cfg: Config, s: seq<byte>): seq<byte>
  {
    var r := Run(cfg, Initial, s);
    r.text + Pending(r.state)
  }

  /** The state the `k`-th input starts from: where the inputs before it left off. */
  function StateBefore(cfg: Config, inputs: seq<Input>, k: nat): FState
    requires k <= |inputs|
  {
    Handled(cfg, Initial, AllReceived(inputs[..k])).state
  }

  /** What handling the `k`-th input writes when it is read to its end. */
  function Expected(cfg: Config, inputs: seq<Input>, k: nat): seq<byte>
    requires k < |inputs|
  {
    Handled(cfg, StateBefore(cfg, inputs, k), Delivered(inputs[k])).text
  }

  /** Handling one more input carries on from the state the earlier inputs left. */
  lemma HandledSnoc(cfg: Config, inputs: seq<Input>, i: nat)
    requires i < |inputs|
    ensures StateBefore(cfg, inputs, i + 1) == Handled(cfg, StateBefore(cfg, inputs, i), Delivered(inputs[i])).state
    ensures Handled(cfg, Initial, AllReceived(inputs[..i + 1])).text ==
      Handled(cfg, Initial, AllReceived(inputs[..i])).text + Expected(cfg, inputs, i)
  {
    ReceivedSnoc(inputs, i);
    HandledAppend(cfg, Initial, AllReceived(inputs[..i]), Delivered(inputs[i]));
  }

  /**
   * When each of the first `n` parts is the whole of what its input writes,
   * together they are what handling those inputs writes.
   */
  lemma {:induction false} WholeParts(cfg: Config, inputs: seq<Input>, parts: seq<seq<byte>>, n: nat)
    requires n <= |inputs| && |parts| == |inputs|
    requires forall k :: 0 <= k < n ==> parts[k] == Expected(cfg, inputs, k)
    ensures Flatten(parts[..n]) == Handled(cfg, Initial, AllReceived(inputs[..n])).text
  {
    if n == 0 {
      assert parts[..0] == [] && inputs[..0] == [];
    } else {
      WholeParts(cfg, inputs, parts, n - 1);
      HandledSnoc(cfg, inputs, n - 1);
      FlattenStep(parts, n - 1);
    }
  }

  /** What each input writes when read to its end, input by input. */
  ghost function Texts(cfg: Config, inputs: seq<Input>): (r: seq<seq<byte>>)
    ensures |r| == |inputs| && forall k :: 0 <= k < |inputs| ==> r[k] == Expected(cfg, inputs, k)
  {
    seq(|inputs|, k requires 0 <= k < |inputs| => Expected(cfg, inputs, k))
  }

  /** Which inputs are read to their end: those not opened and those whose reads never fail. */
  function Whole(inputs: seq<Input>): (r: seq<bool>)
    ensures |r| == |inputs| && forall k :: 0 <= k < |inputs| ==> (r[k] <==> (inputs[k].Opened? ==> !ReadFails(inputs[k].src)))
  {
    seq(|inputs|, k requires 0 <= k < |inputs| => inputs[k].Opened? ==> !ReadFails(inputs[k].src))
  }

  /**
   * Parts that are prefixes of what each input writes, and the whole of it
   * where no read fails, make up the output of `cat` when no read fails at all.
   */
  lemma Conclude(cfg: Config, inputs: seq<Input>, parts: seq<seq<byte>>)
    requires |parts| == |inputs| && PrefixesOf(parts, Texts(cfg, inputs), Whole(inputs))
    ensures forall k :: 0 <= k < |inputs| ==> parts[k] <= Expected(cfg, inputs, k)
    ensures forall k :: 0 <= k < |inputs| && (inputs[k].Opened? ==> !ReadFails(inputs[k].src)) ==>
      parts[k] == Expected(cfg, inputs, k)
    ensures NoReadFails(inputs) ==>
      Flatten(parts) + Pending(StateBefore(cfg, inputs, |inputs|)) == Cat(cfg, AllReceived(inputs))
  {
    var texts, whole := Texts(cfg, inputs), Whole(inputs);
    forall k | 0 <= k < |inputs|
      ensures parts[k] <= Expected(cfg, inputs, k)
      ensures (inputs[k].Opened? ==> !ReadFails(inputs[k].src)) ==> parts[k] == Expected(cfg, inputs, k)
    {
      assert texts[k] == Expected(cfg, inputs, k);
      assert whole[k] <==> (inputs[k].Opened? ==> !ReadFails(inputs[k].src));
    }
    if NoReadFails(inputs) {
      CatOfWholeParts(cfg, inputs, parts);
    }
  }

  /** Parts that are each the whole output of their input, then the pending CR, make up `Cat`. */
  lemma CatOfWholeParts(cfg: Config, inputs: seq<Input>, parts: seq<seq<byte>>)
    requires |parts| == |inputs| && forall k :: 0 <= k < |inputs| ==> parts[k] == Expected(cfg, inputs, k)
    ensures Flatten(parts) + Pending(StateBefore(cfg, inputs, |inputs|)) == Cat(cfg, AllReceived(inputs))
  {
    WholeParts(cfg, inputs, parts, |inputs|);
    assert inputs[..|inputs|] == inputs && parts[..|inputs|] == parts;
    if CanEasyWrite(cfg) {
      EasyConfigIsVerbatim(cfg, Initial, AllReceived(inputs));
    }
  }

  /**
   * Each of `parts` is a prefix of the text at the same index, and the
   * whole of it where `whole` holds.
   */
  predicate PrefixesOf(parts: seq<seq<byte>>, texts: seq<seq<byte>>, whole: seq<bool>)
    requires |parts| <= |texts| == |whole|
  {
    forall k :: 0 <= k < |parts| ==> parts[k] <= texts[k] && (whole[k] ==> parts[k] == texts[k])
  }

  /** What was added after `before`, when the result stays within `before + text`. */
  lemma PrefixSplit(before: seq<byte>, after: seq<byte>, text: seq<byte>)
    requires before <= after <= before + text
    ensures after == before + after[|before|..] && after[|before|..] <= text
    ensures after == before + text ==> after[|before|..] == text
  {
    var part := after[|before|..];
    assert after == before + part;
    forall j | 0 <= j < |part|
      ensures part[j] == text[j]
    {
      assert part[j] == after[|before| + j] == (before + text)[|before| + j];
    }
  }

  lemma PartsSnoc(parts: seq<seq<byte>>, texts: seq<seq<byte>>, whole: seq<bool>, part: seq<byte>)
    requires |parts| < |texts| == |whole| && PrefixesOf(parts, texts, whole)
    requires part <= texts[|parts|] && (whole[|parts|] ==> part == texts[|parts|])
    ensures PrefixesOf(parts + [part], texts, whole)
    ensures Flatten(parts + [part]) == Flatten(parts) + part
  {
    var more := parts + [part];
    FlattenSnoc(parts, part);
    forall k | 0 <= k < |more|
      ensures more[k] <= texts[k] && (whole[k] ==> more[k] == texts[k])
    {
      if k < |parts| {
        assert more[k] == parts[k];
      } else {
        assert more[k] == part;
      }
    }
  }

  /**
   * One pass of the loop of `rat_process` (lib.rs:423-430): the `i`-th
   * input writes `part`, a prefix of what it writes from the state the
   * earlier inputs left (all of it unless a read fails), and the state
   * moves on past it.
   */
  method NextInput(cfg: Config, inputs: seq<Input>, i: nat, st: OutState, ghost stdout: seq<byte>)
    returns (ok: bool, ghost stdout': seq<byte>, ghost part: seq<byte>)
    requires i < |inputs| && st.Valid() && st.Abstract() == StateBefore(cfg, inputs, i)
    modifies st, st.lineNumber, st.lineNumber.buf
    ensures st.Valid() && st.Abstract() == StateBefore(cfg, inputs, i + 1)
    ensures ok <==> Succeeds(inputs[i])
    ensures stdout' == stdout + part && part <= Expected(cfg, inputs, i)
    ensures (inputs[i].Opened? ==> !ReadFails(inputs[i].src)) ==> part == Expected(cfg, inputs, i)
    ensures Handled(cfg, Initial, AllReceived(inputs[..i + 1])).text ==
      Handled(cfg, Initial, AllReceived(inputs[..i])).text + Expected(cfg, inputs, i)
  {
    ok, stdout' := ProcessInput(inputs[i], st, cfg, stdout);
    PrefixSplit(stdout, stdout', Expected(cfg, inputs, i));
    part := stdout'[|stdout|..];
    HandledSnoc(cfg, inputs, i);
  }

  /**
   * `rat_process`: every input is handled in turn with one state carried
   * across them; a rejected input or a failed read makes the exit status 1
   * without stopping the run. Standard output is one part per input, then
   * the carriage return still pending at the end. Each part is a prefix of
   * what its input writes from the state the earlier inputs left, and all
   * of it unless a read of that input fails. When no read fails, standard
   * output is `Cat` of everything received, the same as if all inputs had
   * been one read.
   */
  method RatProcess(cfg: Config, inputs: seq<Input>)
    returns (exitStatus: int, ghost stdout: seq<byte>, ghost parts: seq<seq<byte>>)
    ensures exitStatus == if AllSucceed(inputs) then 0 else 1
    ensures |parts| == |inputs|
    ensures stdout == Flatten(parts) + Pending(StateBefore(cfg, inputs, |inputs|))
    ensures forall k :: 0 <= k < |inputs| ==> parts[k] <= Expected(cfg, inputs, k)
    ensures forall k :: 0 <= k < |inputs| && (inputs[k].Opened? ==> !ReadFails(inputs[k].src)) ==>
      parts[k] == Expected(cfg, inputs, k)
    ensures NoReadFails(inputs) ==> stdout == Cat(cfg, AllReceived(inputs))
  {
    exitStatus := 0;
    stdout := [];
    parts := [];
    ghost var texts := Texts(cfg, inputs);
    ghost var whole := Whole(inputs);
    var st := new OutState();
    var i := 0;
    assert inputs[..0] == [];
    while i < |inputs|
      invariant i <= |inputs| && |parts| == i
      invariant st.Valid()
      invariant st.Abstract() == StateBefore(cfg, inputs, i)
      invariant stdout == Flatten(parts) && PrefixesOf(parts, texts, whole)
      invariant exitStatus == if AllSucceed(inputs[..i]) then 0 else 1
    {
      assert texts[i] == Expected(cfg, inputs, i) && (whole[i] <==> (inputs[i].Opened? ==> !ReadFails(inputs[i].src)));
      var ok;
      ghost var part;
      ok, stdout, part := NextInput(cfg, inputs, i, st, stdout);
      if !ok {
        exitStatus := 1;
      }
      PartsSnoc(parts, texts, whole, part);
      parts := parts + [part];
      VerdictsSnoc(inputs, i);
      i := i + 1;
    }
    assert inputs[..i] == inputs;
    Conclude(cfg, inputs, parts);
    if st.preCarriageReturn {
      stdout := stdout + [CR];
    }
  }
}
