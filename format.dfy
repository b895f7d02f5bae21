/**
 * The output formatting of rat/src/lib.rs, stated byte by byte: the
 * configuration and its derived strings, the visible notations for bytes,
 * and a reference step function whose left fold over the input is what the
 * streaming loop of `real_write` writes and the state it leaves behind.
 */
module Format {
  import opened Bytes
  import LineNumber

  datatype NumberMode = None | NonBlank | AllLine

  /** The five formatting flags of `Config` (the file list is kept apart). */
  datatype Config = Config(
    numberMode: NumberMode,
    showEnds: bool,
    squeezeBlank: bool,
    showTabs: bool,
    showNonprinting: bool)

  /** No flag asks for any byte to be changed, added or dropped. */
  predicate CanEasyWrite(cfg: Config)
  {
    !(cfg.showTabs || cfg.showNonprinting || cfg.showEnds || cfg.squeezeBlank ||
      cfg.numberMode != NumberMode.None)
  }

  /** What ends an output line: a newline, after a '$' under `show_ends`. */
  function EndStr(cfg: Config): (r: seq<byte>)
    ensures |r| >= 1 && r[|r| - 1] == LF
    ensures cfg.showEnds <==> r[..|r| - 1] == [DOLLAR]
    ensures !cfg.showEnds <==> r == [LF]
  {
    if cfg.showEnds then [DOLLAR, LF] else [LF]
  }

  /** What a tab becomes: `^I` under `show_tabs`, otherwise itself. */
  function TabStr(cfg: Config): (r: seq<byte>)
    ensures !cfg.showTabs <==> r == [TAB]
    ensures cfg.showTabs ==> forall i :: 0 <= i < |r| ==> 32 <= r[i] <= 126
  {
    if cfg.showTabs then [CARET, UPPER_I] else [TAB]
  }

  // ---------------------------------------------------------------------
  // Byte notations.
  // ---------------------------------------------------------------------

  /**
   * The `-v` notation of one byte other than a newline: printable bytes as
   * themselves, a tab as `TabStr`, DEL as `^?`, the high half as `M-`
   * followed by the notation of the low seven bits, other controls as `^`
   * and the byte plus 64.
   */
  function NonprintingText(cfg: Config, b: byte): (r: seq<byte>)
    ensures 1 <= |r| <= 4
  {
    if 32 <= b <= 126 then [b]
    else if b == TAB then TabStr(cfg)
    else if b == 127 then [CARET, QUESTION]
    else if 128 <= b <= 159 then [UPPER_M, DASH, CARET, b - 64]
    else if 160 <= b <= 254 then [UPPER_M, DASH, b - 128]
    else if b == 255 then [UPPER_M, DASH, CARET, QUESTION]
    else [CARET, b + 64]
  }

  /** Without `-v`: a tab as `TabStr`, every other byte as itself. */
  function PlainText(cfg: Config, b: byte): seq<byte>
  {
    if b == TAB then TabStr(cfg) else [b]
  }

  function Encode(cfg: Config, b: byte): seq<byte>
  {
    if cfg.showNonprinting then NonprintingText(cfg, b) else PlainText(cfg, b)
  }

  function NonprintingAll(cfg: Config, s: seq<byte>): seq<byte>
  {
    if s == [] then [] else NonprintingAll(cfg, s[..|s| - 1]) + NonprintingText(cfg, s[|s| - 1])
  }

  function PlainAll(cfg: Config, s: seq<byte>): seq<byte>
  {
    if s == [] then [] else PlainAll(cfg, s[..|s| - 1]) + PlainText(cfg, s[|s| - 1])
  }

  function EncodeAll(cfg: Config, s: seq<byte>): seq<byte>
  {
    if cfg.showNonprinting then NonprintingAll(cfg, s) else PlainAll(cfg, s)
  }

  /**
   * The bytes that end the run of bytes a line encoder copies: a newline,
   * and without `-v` also a carriage return (under `-v` it is shown as `^M`).
   */
  predicate IsTerminator(cfg: Config, b: byte)
  {
    b == LF || (b == CR && !cfg.showNonprinting)
  }

  predicate NoTerminator(cfg: Config, s: seq<byte>)
  {
    forall i :: 0 <= i < |s| ==> !IsTerminator(cfg, s[i])
  }

  // ---------------------------------------------------------------------
  // The reference transducer.
  // ---------------------------------------------------------------------

  /** `OutState` without the buffer of the counter: `lines` is its count. */
  datatype FState = FState(newLine: bool, hasBlankLine: bool, preCarriageReturn: bool, lines: nat)

  /** The state `rat_process` starts with. */
  const Initial: FState := FState(true, false, false, 0)

  datatype Out = Out(state: FState, text: seq<byte>)

  /** A line number as printed: the counter's slice and a tab. */
  function NumberText(n: nat): seq<byte>
  {
    LineNumber.LineNumText(n, LineNumber.LINE_COUNTER_BUF_LEN) + [TAB]
  }

  /** The marker of a carriage return that a newline follows. */
  function CrMark(cfg: Config): seq<byte>
  {
    if cfg.showEnds then [CARET, UPPER_M] else [CR]
  }

  /** What `write_end` writes: a pending carriage return's marker, then `EndStr`. */
  function EndText(cfg: Config, pending: bool): seq<byte>
  {
    if pending then CrMark(cfg) + EndStr(cfg) else EndStr(cfg)
  }

  /**
   * What happens before a byte other than a newline is handled: the blank
   * line flag drops, a pending carriage return is written literally (and
   * the line is no longer at its start), and a line still at its start
   * gets the next number when numbering is on.
   */
  function LineStart(cfg: Config, st: FState): Out
  {
    var nl := st.newLine && !st.preCarriageReturn;
    var numbered := nl && cfg.numberMode != NumberMode.None;
    var lines := if numbered then st.lines + 1 else st.lines;
    Out(FState(nl, false, false, lines),
        if st.preCarriageReturn then [CR] else if numbered then NumberText(lines) else [])
  }

  /**
   * A newline: a second blank line in a row is dropped under
   * `squeeze_blank`; otherwise a line start is numbered under `AllLine`,
   * and the line ends with its pending carriage return's marker and
   * `EndStr`. The stream is then at a line start.
   */
  function NewlineOut(cfg: Config, st: FState): Out
  {
    if st.newLine && cfg.squeezeBlank && st.hasBlankLine then Out(st, [])
    else
      var numbered := st.newLine && cfg.numberMode == NumberMode.AllLine;
      var lines := if numbered then st.lines + 1 else st.lines;
      Out(FState(true, st.newLine, false, lines),
          if numbered then NumberText(lines) + EndText(cfg, st.preCarriageReturn)
          else EndText(cfg, st.preCarriageReturn))
  }

  /** `NewlineOut` case by case. */
  lemma NewlineCases(cfg: Config, st: FState)
    ensures st.newLine && cfg.squeezeBlank && st.hasBlankLine ==> NewlineOut(cfg, st) == Out(st, [])
    ensures !(st.newLine && cfg.squeezeBlank && st.hasBlankLine) &&
            st.newLine && cfg.numberMode == NumberMode.AllLine ==>
      NewlineOut(cfg, st) == Out(FState(true, st.newLine, false, st.lines + 1),
                                 NumberText(st.lines + 1) + EndText(cfg, st.preCarriageReturn))
    ensures !(st.newLine && cfg.squeezeBlank && st.hasBlankLine) &&
            !(st.newLine && cfg.numberMode == NumberMode.AllLine) ==>
      NewlineOut(cfg, st) == Out(FState(true, st.newLine, false, st.lines), EndText(cfg, st.preCarriageReturn))
  {
  }

  /**
   * Any other byte: the line start is resolved; a terminator (a carriage
   * return outside `-v`) is held back as pending, anything else is encoded.
   */
  function ByteOut(cfg: Config, st: FState, b: byte): Out
  {
    var ls := LineStart(cfg, st);
    if IsTerminator(cfg, b) then Out(FState(false, false, true, ls.state.lines), ls.text)
    else Out(FState(false, false, false, ls.state.lines), ls.text + Encode(cfg, b))
  }

  /** One input byte: the output it causes and the state after it. */
  function Step(cfg: Config, st: FState, b: byte): Out
  {
    if b == LF then NewlineOut(cfg, st) else ByteOut(cfg, st, b)
  }

  /** The left fold of `Step` over `s`, concatenating the outputs. */
  function Run(cfg: Config, st: FState, s: seq<byte>): Out
  {
    if s == [] then Out(st, [])
    else
      var r := Run(cfg, st, s[..|s| - 1]);
      var o := Step(cfg, r.state, s[|s| - 1]);
      Out(o.state, r.text + o.text)
  }

  /** The carriage return still owed once the input is over. */
  function Pending(st: FState): seq<byte>
  {
    if st.preCarriageReturn then [CR] else []
  }

  /** The states the streaming loop can be in between bytes. */
  predicate Consistent(st: FState)
  {
    (st.preCarriageReturn ==> !st.newLine) && (st.hasBlankLine ==> st.newLine)
  }

  // ---------------------------------------------------------------------
  // Folding.
  // ---------------------------------------------------------------------

  lemma RunSnoc(cfg: Config, st: FState, s: seq<byte>, b: byte)
    ensures var r := Run(cfg, st, s); var o := Step(cfg, r.state, b);
      Run(cfg, st, s + [b]) == Out(o.state, r.text + o.text)
  {
    assert (s + [b])[..|s|] == s;
  }

  /**
   * Reading `a + b` at once, or `a` and then `b` with the state carried
   * over, gives the same output and the same final state.
   */
  lemma {:induction false} RunAppend(cfg: Config, st: FState, a: seq<byte>, b: seq<byte>)
    ensures var ra := Run(cfg, st, a); var rb := Run(cfg, ra.state, b);
      Run(cfg, st, a + b) == Out(rb.state, ra.text + rb.text)
  {
    if b == [] {
      assert a + b == a;
    } else {
      var b', x := b[..|b| - 1], b[|b| - 1];
      RunAppend(cfg, st, a, b');
      AppendSnoc(a, b);
      RunSnoc(cfg, st, a + b', x);
      RunSnoc(cfg, Run(cfg, st, a).state, b', x);
    }
  }

  /** One more byte of `s`: the fold over `s[..i + 1]` takes one step past the fold over `s[..i]`. */
  lemma RunPrefixSnoc(cfg: Config, st: FState, s: seq<byte>, i: nat)
    requires i < |s|
    ensures var r := Run(cfg, st, s[..i]); var o := Step(cfg, r.state, s[i]);
      Run(cfg, st, s[..i + 1]) == Out(o.state, r.text + o.text)
  {
    assert s[..i + 1] == s[..i] + [s[i]];
    RunSnoc(cfg, st, s[..i], s[i]);
  }

  /**
   * `k` more bytes of `s`, taken from the suffix `s[i..]`: the fold over
   * `s[..i + k]` carries on from the fold over `s[..i]`.
   */
  lemma RunPrefixAppend(cfg: Config, st: FState, s: seq<byte>, i: nat, k: nat)
    requires i + k <= |s|
    ensures var r := Run(cfg, st, s[..i]); var q := Run(cfg, r.state, s[i..][..k]);
      Run(cfg, st, s[..i + k]) == Out(q.state, r.text + q.text)
  {
    assert s[..i + k] == s[..i] + s[i..][..k];
    RunAppend(cfg, st, s[..i], s[i..][..k]);
  }

  lemma {:induction false} NonprintingAllAppend(cfg: Config, a: seq<byte>, b: seq<byte>)
    ensures NonprintingAll(cfg, a + b) == NonprintingAll(cfg, a) + NonprintingAll(cfg, b)
  {
    if b == [] {
      assert a + b == a;
    } else {
      var b', x := b[..|b| - 1], b[|b| - 1];
      NonprintingAllAppend(cfg, a, b');
      assert (a + b)[..|a + b| - 1] == a + b' && (a + b)[|a + b| - 1] == x;
      assert NonprintingAll(cfg, a + b) == NonprintingAll(cfg, a + b') + NonprintingText(cfg, x);
      ConcatAssoc(NonprintingAll(cfg, a), NonprintingAll(cfg, b'), NonprintingText(cfg, x));
    }
  }

  lemma {:induction false} PlainAllAppend(cfg: Config, a: seq<byte>, b: seq<byte>)
    ensures PlainAll(cfg, a + b) == PlainAll(cfg, a) + PlainAll(cfg, b)
  {
    if b == [] {
      assert a + b == a;
    } else {
      var b', x := b[..|b| - 1], b[|b| - 1];
      PlainAllAppend(cfg, a, b');
      assert (a + b)[..|a + b| - 1] == a + b' && (a + b)[|a + b| - 1] == x;
      assert PlainAll(cfg, a + b) == PlainAll(cfg, a + b') + PlainText(cfg, x);
      ConcatAssoc(PlainAll(cfg, a), PlainAll(cfg, b'), PlainText(cfg, x));
    }
  }

  lemma EncodeAllAppend(cfg: Config, a: seq<byte>, b: seq<byte>)
    ensures EncodeAll(cfg, a + b) == EncodeAll(cfg, a) + EncodeAll(cfg, b)
  {
    if cfg.showNonprinting {
      NonprintingAllAppend(cfg, a, b);
    } else {
      PlainAllAppend(cfg, a, b);
    }
  }

  lemma EncodeAllSingle(cfg: Config, b: byte)
    ensures EncodeAll(cfg, [b]) == Encode(cfg, b)
  {
    assert [b][..0] == [];
    if cfg.showNonprinting {
      assert NonprintingAll(cfg, [b]) == NonprintingAll(cfg, []) + NonprintingText(cfg, b);
    } else {
      assert PlainAll(cfg, [b]) == PlainAll(cfg, []) + PlainText(cfg, b);
    }
  }

  /** Printable bytes pass through the `-v` encoder unchanged. */
  lemma {:induction false} NonprintingAllPrintable(cfg: Config, s: seq<byte>)
    requires forall i :: 0 <= i < |s| ==> 32 <= s[i] <= 126
    ensures NonprintingAll(cfg, s) == s
  {
    if s != [] {
      var init, last := s[..|s| - 1], s[|s| - 1];
      NonprintingAllPrintable(cfg, init);
      assert NonprintingText(cfg, last) == [last];
      assert s == init + [last];
    }
  }

  /** Without `show_tabs` and `-v` every byte is copied as it is. */
  lemma {:induction false} PlainAllIdentity(cfg: Config, s: seq<byte>)
    requires !cfg.showTabs
    ensures PlainAll(cfg, s) == s
  {
    if s != [] {
      PlainAllIdentity(cfg, s[..|s| - 1]);
      assert s == s[..|s| - 1] + [s[|s| - 1]];
    }
  }

  /** Tab-free text passes through the plain encoder unchanged. */
  lemma {:induction false} PlainAllTabFree(cfg: Config, s: seq<byte>)
    requires forall i :: 0 <= i < |s| ==> s[i] != TAB
    ensures PlainAll(cfg, s) == s
  {
    if s != [] {
      PlainAllTabFree(cfg, s[..|s| - 1]);
      assert s == s[..|s| - 1] + [s[|s| - 1]];
    }
  }

  /**
   * A run of bytes with no terminator: the line start happens once, before
   * the first byte, and then every byte is encoded in order.
   */
  lemma {:induction false} SegmentRun(cfg: Config, st: FState, seg: seq<byte>)
    requires seg != [] && NoTerminator(cfg, seg)
    ensures var ls := LineStart(cfg, st);
      Run(cfg, st, seg) == Out(FState(false, false, false, ls.state.lines), ls.text + EncodeAll(cfg, seg))
  {
    var ls := LineStart(cfg, st);
    var init, b := seg[..|seg| - 1], seg[|seg| - 1];
    assert seg == init + [b];
    assert !IsTerminator(cfg, b);
    if init == [] {
      RunSnoc(cfg, st, [], b);
      EncodeAllSingle(cfg, b);
    } else {
      assert NoTerminator(cfg, init) by {
        forall i | 0 <= i < |init| ensures !IsTerminator(cfg, init[i]) {
          assert init[i] == seg[i];
        }
      }
      SegmentRun(cfg, st, init);
      SettledSnoc(cfg, st, init, b, ls.state.lines, ls.text + EncodeAll(cfg, init));
      ConcatAssoc(ls.text, EncodeAll(cfg, init), Encode(cfg, b));
      EncodeAllSnoc(cfg, init, b);
    }
  }

  /** Once a line has content, a byte that is no terminator is just encoded. */
  lemma SettledSnoc(cfg: Config, st: FState, s: seq<byte>, b: byte, n: nat, t: seq<byte>)
    requires Run(cfg, st, s) == Out(FState(false, false, false, n), t)
    requires !IsTerminator(cfg, b)
    ensures Run(cfg, st, s + [b]) == Out(FState(false, false, false, n), t + Encode(cfg, b))
  {
    RunSnoc(cfg, st, s, b);
    assert [] + Encode(cfg, b) == Encode(cfg, b);
  }

  lemma EncodeAllSnoc(cfg: Config, s: seq<byte>, b: byte)
    ensures EncodeAll(cfg, s + [b]) == EncodeAll(cfg, s) + Encode(cfg, b)
  {
    assert (s + [b])[..|s|] == s;
  }

  /** A run of bytes with no terminator ends by a newline. */
  lemma SegmentLf(cfg: Config, st: FState, seg: seq<byte>)
    requires seg != [] && NoTerminator(cfg, seg)
    ensures var ls := LineStart(cfg, st);
      Run(cfg, st, seg + [LF]) ==
      Out(FState(true, false, false, ls.state.lines), ls.text + EncodeAll(cfg, seg) + EndStr(cfg))
  {
    SegmentRun(cfg, st, seg);
    RunSnoc(cfg, st, seg, LF);
  }

  /** A run of bytes with no terminator (maybe none) ends by a carriage return. */
  lemma SegmentCr(cfg: Config, st: FState, seg: seq<byte>)
    requires !cfg.showNonprinting && NoTerminator(cfg, seg)
    ensures var ls := LineStart(cfg, st);
      Run(cfg, st, seg + [CR]) ==
      Out(FState(false, false, true, ls.state.lines), ls.text + EncodeAll(cfg, seg))
  {
    if seg == [] {
      assert seg + [CR] == [CR];
      RunSnoc(cfg, st, [], CR);
      assert EncodeAll(cfg, seg) == [];
    } else {
      SegmentRun(cfg, st, seg);
      RunSnoc(cfg, st, seg, CR);
    }
  }

  // ---------------------------------------------------------------------
  // Properties of the transducer.
  // ---------------------------------------------------------------------

  /** The streaming state never leaves the consistent states. */
  lemma {:induction false} RunKeepsConsistent(cfg: Config, st: FState, s: seq<byte>)
    requires Consistent(st)
    ensures Consistent(Run(cfg, st, s).state)
  {
    if s != [] {
      RunKeepsConsistent(cfg, st, s[..|s| - 1]);
    }
  }

  /** The counter only moves forward. */
  lemma {:induction false} RunCountsUp(cfg: Config, st: FState, s: seq<byte>)
    ensures Run(cfg, st, s).state.lines >= st.lines
  {
    if s != [] {
      RunCountsUp(cfg, st, s[..|s| - 1]);
    }
  }

  /** Without numbering the counter never advances and no number is printed. */
  lemma {:induction false} NoneNeverCounts(cfg: Config, st: FState, s: seq<byte>)
    requires cfg.numberMode == NumberMode.None
    ensures Run(cfg, st, s).state.lines == st.lines
  {
    if s != [] {
      NoneNeverCounts(cfg, st, s[..|s| - 1]);
    }
  }

  /** Whether a line gets a number: every line, or only lines that are not empty. */
  predicate Numbered(mode: NumberMode, blank: bool)
  {
    mode == NumberMode.AllLine || (mode == NumberMode.NonBlank && !blank)
  }

  /**
   * A whole line read from its start: the number (if the mode numbers it),
   * the encoded bytes, the end marker; the counter advances exactly when a
   * number is printed. Only the squeezed repeat of a blank line is excluded.
   */
  lemma LineOutput(cfg: Config, st: FState, line: seq<byte>)
    requires st.newLine && !st.preCarriageReturn && NoTerminator(cfg, line)
    requires !(line == [] && cfg.squeezeBlank && st.hasBlankLine)
    ensures var numbered := Numbered(cfg.numberMode, line == []);
      var lines := if numbered then st.lines + 1 else st.lines;
      Run(cfg, st, line + [LF]) ==
      Out(FState(true, line == [], false, lines),
          (if numbered then NumberText(lines) else []) + EncodeAll(cfg, line) + EndStr(cfg))
  {
    if line == [] {
      EmptyLineOutput(cfg, st);
      assert line + [LF] == [LF];
      assert EncodeAll(cfg, line) == [];
      var t := if Numbered(cfg.numberMode, true) then NumberText(st.lines + 1) else [];
      assert t + [] == t;
    } else {
      NonEmptyLineOutput(cfg, st, line);
    }
  }

  /** The non-empty case of `LineOutput`. */
  lemma NonEmptyLineOutput(cfg: Config, st: FState, line: seq<byte>)
    requires st.newLine && !st.preCarriageReturn && NoTerminator(cfg, line) && line != []
    ensures var numbered := Numbered(cfg.numberMode, false);
      var lines := if numbered then st.lines + 1 else st.lines;
      Run(cfg, st, line + [LF]) ==
      Out(FState(true, false, false, lines),
          (if numbered then NumberText(lines) else []) + EncodeAll(cfg, line) + EndStr(cfg))
  {
    SegmentLf(cfg, st, line);
  }

  /** The empty-line case of `LineOutput`. */
  lemma EmptyLineOutput(cfg: Config, st: FState)
    requires st.newLine && !st.preCarriageReturn
    requires !(cfg.squeezeBlank && st.hasBlankLine)
    ensures var numbered := Numbered(cfg.numberMode, true);
      var lines := if numbered then st.lines + 1 else st.lines;
      Run(cfg, st, [LF]) ==
      Out(FState(true, true, false, lines), (if numbered then NumberText(lines) else []) + EndStr(cfg))
  {
    RunSnoc(cfg, st, [], LF);
    assert [] + [LF] == [LF];
    NewlineCases(cfg, st);
  }

  function Newlines(n: nat): (r: seq<byte>)
    ensures |r| == n && forall i :: 0 <= i < n ==> r[i] == LF
  {
    seq(n, _ => LF)
  }

  /**
   * With `squeeze_blank`, any run of one or more newlines met at a line
   * start that follows a blank line prints nothing; met after a non-blank
   * line it prints exactly what the first newline prints.
   */
  lemma {:induction false} SqueezeRun(cfg: Config, st: FState, n: nat)
    requires cfg.squeezeBlank && st.newLine && n >= 1
    ensures Run(cfg, st, Newlines(n)) == Step(cfg, st, LF)
  {
    if n == 1 {
      assert Newlines(1) == [] + [LF];
      RunSnoc(cfg, st, [], LF);
    } else {
      SqueezeRun(cfg, st, n - 1);
      assert Newlines(n) == Newlines(n - 1) + [LF];
      RunSnoc(cfg, st, Newlines(n - 1), LF);
    }
  }

  /** The byte after a run and its carriage return is one step from the waiting state. */
  lemma CarriageReturnThen(cfg: Config, st: FState, line: seq<byte>, b: byte)
    requires !cfg.showNonprinting && NoTerminator(cfg, line)
    requires st.newLine && !st.preCarriageReturn
    ensures var ls := LineStart(cfg, st);
      var o := Step(cfg, FState(false, false, true, ls.state.lines), b);
      Run(cfg, st, line + [CR, b]) == Out(o.state, ls.text + EncodeAll(cfg, line) + o.text)
  {
    SegmentCr(cfg, st, line);
    assert line + [CR, b] == (line + [CR]) + [b];
    RunSnoc(cfg, st, line + [CR], b);
  }

  /**
   * A carriage return ends the copied run and is only remembered. When a
   * newline follows, its marker is `^M` under `show_ends` and `\r`
   * otherwise, before the end string; when anything else follows, it is
   * written as a literal `\r` even under `show_ends`, and a second carriage
   * return is then pending in its place.
   */
  lemma CarriageReturnResolution(cfg: Config, st: FState, line: seq<byte>, b: byte)
    requires !cfg.showNonprinting && NoTerminator(cfg, line)
    requires st.newLine && !st.preCarriageReturn
    ensures var ls := LineStart(cfg, st);
      var r := Run(cfg, st, line + [CR, b]);
      if b == LF then
        r.text == ls.text + EncodeAll(cfg, line) + CrMark(cfg) + EndStr(cfg) && !r.state.preCarriageReturn
      else
        r.text == ls.text + EncodeAll(cfg, line) + [CR] + (if b == CR then [] else Encode(cfg, b)) &&
        (r.state.preCarriageReturn <==> b == CR)
  {
    var ls := LineStart(cfg, st);
    var x := ls.text + EncodeAll(cfg, line);
    var o := Step(cfg, FState(false, false, true, ls.state.lines), b);
    CarriageReturnThen(cfg, st, line, b);
    if b == LF {
      assert o.text == CrMark(cfg) + EndStr(cfg);
      ConcatAssoc(x, CrMark(cfg), EndStr(cfg));
    } else {
      var tail := if b == CR then [] else Encode(cfg, b);
      assert o.text == [CR] + tail;
      ConcatAssoc(x, [CR], tail);
    }
  }

  /** Under `-v` a carriage return is shown inline and never left pending. */
  lemma {:induction false} NonprintingNeverPending(cfg: Config, st: FState, s: seq<byte>)
    requires cfg.showNonprinting && !st.preCarriageReturn
    ensures !Run(cfg, st, s).state.preCarriageReturn
  {
    if s != [] {
      NonprintingNeverPending(cfg, st, s[..|s| - 1]);
    }
  }

  /**
   * With every flag off, the formatter copies its input: the output and the
   * carriage return still pending at the end are the pending one at the
   * start and the input, byte for byte.
   */
  lemma {:induction false} EasyConfigIsVerbatim(cfg: Config, st: FState, s: seq<byte>)
    requires CanEasyWrite(cfg)
    ensures Run(cfg, st, s).text + Pending(Run(cfg, st, s).state) == Pending(st) + s
  {
    if s != [] {
      var init, b := s[..|s| - 1], s[|s| - 1];
      EasyConfigIsVerbatim(cfg, st, init);
      var r := Run(cfg, st, init);
      var o := Step(cfg, r.state, b);
      assert s == init + [b];
      RunSnoc(cfg, st, init, b);
      EasyStep(cfg, r.state, b);
      calc {
        Run(cfg, st, s).text + Pending(Run(cfg, st, s).state);
        (r.text + o.text) + Pending(o.state);
        { ConcatAssoc(r.text, o.text, Pending(o.state)); }
        r.text + (Pending(r.state) + [b]);
        { ConcatAssoc(r.text, Pending(r.state), [b]); }
        (Pending(st) + init) + [b];
        { ConcatAssoc(Pending(st), init, [b]); }
        Pending(st) + s;
      }
    }
  }

  /** One byte under the easy configuration: the pending carriage return, then the byte. */
  lemma EasyStep(cfg: Config, st: FState, b: byte)
    requires CanEasyWrite(cfg)
    ensures Step(cfg, st, b).text + Pending(Step(cfg, st, b).state) == Pending(st) + [b]
  {
  }

  // ---------------------------------------------------------------------
  // The -v notation.
  // ---------------------------------------------------------------------

  /**
   * Under `-v` everything written for a byte other than a newline is
   * printable ASCII, except a tab left as it is without `show_tabs`.
   */
  lemma NonprintingIsVisible(cfg: Config, b: byte)
    requires b != LF && (b != TAB || cfg.showTabs)
    ensures forall i :: 0 <= i < |NonprintingText(cfg, b)| ==> 32 <= NonprintingText(cfg, b)[i] <= 126
  {
  }

  /** Reads one `-v` notation back into its byte. */
  function DecodeOne(t: seq<byte>): Option<byte>
  {
    if |t| == 1 then Some(t[0])
    else if |t| == 2 && t[0] == CARET then
      if t[1] == QUESTION then Some(127)
      else if 64 <= t[1] < 96 then Some(t[1] - 64)
      else Option.None
    else if |t| == 3 && t[0] == UPPER_M && t[1] == DASH && 32 <= t[2] <= 126 then Some(t[2] + 128)
    else if |t| == 4 && t[0] == UPPER_M && t[1] == DASH && t[2] == CARET then
      if t[3] == QUESTION then Some(255)
      else if 64 <= t[3] < 96 then Some(t[3] + 64)
      else Option.None
    else Option.None
  }

  /** Each byte's `-v` notation identifies it: distinct bytes look different. */
  lemma NonprintingRoundTrip(cfg: Config, b: byte)
    requires b != LF
    ensures DecodeOne(NonprintingText(cfg, b)) == Some(b)
  {
  }

  /**
   * The notations are not a code for whole strings: byte 225 is written
   * exactly as the three printable bytes `M-a`.
   */
  lemma NonprintingIsAmbiguous(cfg: Config)
    ensures NonprintingAll(cfg, [225]) == NonprintingAll(cfg, [UPPER_M, DASH, 'a' as int])
  {
    assert NonprintingAll(cfg, [225]) == NonprintingText(cfg, 225);
    NonprintingAllPrintable(cfg, [UPPER_M, DASH, 'a' as int]);
  }
}
