/**
 * The `-E` examples of tests/tests.rs, worked through the reference fold.
 * The letters of each example stand for any byte other than '\n' and
 * '\r', so every lemma covers its test and all the inputs shaped like it.
 * Each input is taken in pieces of two to four bytes: the fold over a
 * piece follows from its steps (`Pair`, `Extend`), and the pieces are
 * put together with `Join`.
 */
module Scenarios {
  import opened Bytes
  import opened Format
  import opened Rat

  /** `rat -E`: `show_ends` alone. */
  const ShowEnds: Config := Config(NumberMode.None, true, false, false, false)

  /** Inside a line; a carriage return waiting. A line start is `Initial`. */
  const InLine: FState := FState(false, false, false, 0)
  const Waiting: FState := FState(false, false, true, 0)

  /** What `-E` writes for a carriage return resolved by a newline: "^M$\n". */
  const Marked: seq<byte> := [CARET, UPPER_M, DOLLAR, LF]

  /** A byte that is neither a newline nor a carriage return. */
  predicate Ordinary(x: byte)
  {
    x != LF && x != CR
  }

  /** An ordinary byte under `-E`: written as it is, after the carriage return it releases. */
  lemma ByteSteps(x: byte)
    requires Ordinary(x)
    ensures Step(ShowEnds, Initial, x) == Out(InLine, [x])
    ensures Step(ShowEnds, InLine, x) == Out(InLine, [x])
    ensures Step(ShowEnds, Waiting, x) == Out(InLine, [CR, x])
  {
  }

  /** A carriage return under `-E` waits; one already waiting is then written as it came. */
  lemma CrSteps()
    ensures Step(ShowEnds, Initial, CR) == Out(Waiting, [])
    ensures Step(ShowEnds, InLine, CR) == Out(Waiting, [])
    ensures Step(ShowEnds, Waiting, CR) == Out(Waiting, [CR])
  {
  }

  /** A newline under `-E` ends the line with "$\n", or with "^M$\n" when a carriage return waits. */
  lemma NewlineSteps()
    ensures Step(ShowEnds, InLine, LF) == Out(Initial, [DOLLAR, LF])
    ensures Step(ShowEnds, Waiting, LF) == Out(Initial, Marked)
  {
  }

  /**
   * One byte more: a known fold over `s` and a known step give the fold
   * over `s + [b]`, written `next`, with output `text`.
   */
  lemma Extend(cfg: Config, st: FState, s: seq<byte>, b: byte, o: Out, p: Out, next: seq<byte>, text: seq<byte>)
    requires Run(cfg, st, s) == o && Step(cfg, o.state, b) == p
    requires next == s + [b] && text == o.text + p.text
    ensures Run(cfg, st, next) == Out(p.state, text)
  {
    RunSnoc(cfg, st, s, b);
  }

  /** Two known folds, one after the other, give the fold over `s + t`, written `both`. */
  lemma Join(cfg: Config, st: FState, s: seq<byte>, t: seq<byte>, o: Out, p: Out, both: seq<byte>, text: seq<byte>)
    requires Run(cfg, st, s) == o && Run(cfg, o.state, t) == p
    requires both == s + t && text == o.text + p.text
    ensures Run(cfg, st, both) == Out(p.state, text)
  {
    RunAppend(cfg, st, s, t);
  }

  /** A known fold from the start gives the whole output, the owed carriage return included. */
  lemma Finish(cfg: Config, s: seq<byte>, o: Out, out: seq<byte>)
    requires Run(cfg, Initial, s) == o && out == o.text + Pending(o.state)
    ensures Cat(cfg, s) == out
  {
  }

  /** Two known steps give the fold over the two bytes. */
  lemma Pair(cfg: Config, st: FState, b0: byte, b1: byte, o: Out, p: Out, text: seq<byte>)
    requires Step(cfg, st, b0) == o && Step(cfg, o.state, b1) == p && text == o.text + p.text
    ensures Run(cfg, st, [b0, b1]) == Out(p.state, text)
  {
    Extend(cfg, st, [], b0, Out(st, []), o, [b0], o.text);
    Extend(cfg, st, [b0], b1, o, p, [b0, b1], text);
  }

  /** "1\r" at a line start: the '\r' is held back, waiting for what follows. */
  lemma Held(x: byte)
    requires Ordinary(x)
    ensures Run(ShowEnds, Initial, [x, CR]) == Out(Waiting, [x])
  {
    ByteSteps(x);
    CrSteps();
    Pair(ShowEnds, Initial, x, CR, Out(InLine, [x]), Out(Waiting, []), [x]);
  }

  /** "c\n\r" at a line start: "c$\n", with the '\r' waiting. */
  lemma LineThenCr(x: byte)
    requires Ordinary(x)
    ensures Run(ShowEnds, Initial, [x, LF, CR]) == Out(Waiting, [x, DOLLAR, LF])
  {
    ByteSteps(x);
    CrSteps();
    NewlineSteps();
    Pair(ShowEnds, Initial, x, LF, Out(InLine, [x]), Out(Initial, [DOLLAR, LF]), [x, DOLLAR, LF]);
    Extend(ShowEnds, Initial, [x, LF], CR, Out(Initial, [x, DOLLAR, LF]), Out(Waiting, []), [x, LF, CR], [x, DOLLAR, LF]);
  }

  /** "2\r" after a pending '\r': the pending one is written as it came, the new one waits. */
  lemma ByteThenCr(y: byte)
    requires Ordinary(y)
    ensures Run(ShowEnds, Waiting, [y, CR]) == Out(Waiting, [CR, y])
  {
    ByteSteps(y);
    CrSteps();
    Pair(ShowEnds, Waiting, y, CR, Out(InLine, [CR, y]), Out(Waiting, []), [CR, y]);
  }

  /** "\n2" after a pending '\r': "^M$\n2". */
  lemma NewlineThenByte(y: byte)
    requires Ordinary(y)
    ensures Run(ShowEnds, Waiting, [LF, y]) == Out(InLine, [CARET, UPPER_M, DOLLAR, LF, y])
  {
    ByteSteps(y);
    NewlineSteps();
    Pair(ShowEnds, Waiting, LF, y, Out(Initial, Marked), Out(InLine, [y]), [CARET, UPPER_M, DOLLAR, LF, y]);
  }

  /** "\nd\r" after a pending '\r': "^M$\nd", with the new '\r' waiting. */
  lemma NewlineThenHeld(y: byte)
    requires Ordinary(y)
    ensures Run(ShowEnds, Waiting, [LF, y, CR]) == Out(Waiting, [CARET, UPPER_M, DOLLAR, LF, y])
  {
    CrSteps();
    NewlineThenByte(y);
    Extend(ShowEnds, Waiting, [LF, y], CR, Out(InLine, [CARET, UPPER_M, DOLLAR, LF, y]), Out(Waiting, []),
      [LF, y, CR], [CARET, UPPER_M, DOLLAR, LF, y]);
  }

  /** "2\r\n" after a pending '\r': "\r2^M$\n". */
  lemma ByteAfterCr(y: byte)
    requires Ordinary(y)
    ensures Run(ShowEnds, Waiting, [y, CR, LF]) == Out(Initial, [CR, y, CARET, UPPER_M, DOLLAR, LF])
  {
    NewlineSteps();
    ByteThenCr(y);
    Extend(ShowEnds, Waiting, [y, CR], LF, Out(Waiting, [CR, y]), Out(Initial, Marked),
      [y, CR, LF], [CR, y, CARET, UPPER_M, DOLLAR, LF]);
  }

  /** "b\r\r" after a pending '\r': "\rb\r", with the last '\r' waiting. */
  lemma ByteThenTwoCr(b: byte)
    requires Ordinary(b)
    ensures Run(ShowEnds, Waiting, [b, CR, CR]) == Out(Waiting, [CR, b, CR])
  {
    CrSteps();
    ByteThenCr(b);
    Extend(ShowEnds, Waiting, [b, CR], CR, Out(Waiting, [CR, b]), Out(Waiting, [CR]), [b, CR, CR], [CR, b, CR]);
  }

  /** "b\r\r\n" after a pending '\r': "\rb\r^M$\n". */
  lemma DoubleCrAfterCr(b: byte)
    requires Ordinary(b)
    ensures Run(ShowEnds, Waiting, [b, CR, CR, LF]) == Out(Initial, [CR, b, CR, CARET, UPPER_M, DOLLAR, LF])
  {
    NewlineSteps();
    ByteThenTwoCr(b);
    Extend(ShowEnds, Waiting, [b, CR, CR], LF, Out(Waiting, [CR, b, CR]), Out(Initial, Marked),
      [b, CR, CR, LF], [CR, b, CR, CARET, UPPER_M, DOLLAR, LF]);
  }

  /** "\n2\r\n" after a pending '\r': "^M$\n2^M$\n". */
  lemma NewlineAfterCr(y: byte)
    requires Ordinary(y)
    ensures Run(ShowEnds, Waiting, [LF, y, CR, LF]) == Out(Initial, [CARET, UPPER_M, DOLLAR, LF, y, CARET, UPPER_M, DOLLAR, LF])
  {
    NewlineSteps();
    NewlineThenHeld(y);
    Extend(ShowEnds, Waiting, [LF, y, CR], LF, Out(Waiting, [CARET, UPPER_M, DOLLAR, LF, y]), Out(Initial, Marked),
      [LF, y, CR, LF], [CARET, UPPER_M, DOLLAR, LF, y, CARET, UPPER_M, DOLLAR, LF]);
  }

  /**
   * tests.rs:122-123: "a\rb\r\nc\n\r\nd\r" under `-E` is written as
   * "a\rb^M$\nc$\n^M$\nd\r". Taken in the pieces "a\r", "b\r\n", "c\n\r"
   * and "\nd\r": a carriage return followed by a byte is written as it
   * came, one followed by a newline is marked, and the final one comes out
   * when the run ends.
   */
  lemma ShowEndsExample(a: byte, b: byte, c: byte, d: byte)
    requires Ordinary(a) && Ordinary(b) && Ordinary(c) && Ordinary(d)
    ensures Cat(ShowEnds, [a, CR] + [b, CR, LF] + [c, LF, CR] + [LF, d, CR])
         == [a] + [CR, b, CARET, UPPER_M, DOLLAR, LF] + [c, DOLLAR, LF] + [CARET, UPPER_M, DOLLAR, LF, d] + [CR]
  {
    var i1, t1 := [a, CR], [a];
    var i2, t2 := i1 + [b, CR, LF], t1 + [CR, b, CARET, UPPER_M, DOLLAR, LF];
    var i3, t3 := i2 + [c, LF, CR], t2 + [c, DOLLAR, LF];
    var i4, t4 := i3 + [LF, d, CR], t3 + [CARET, UPPER_M, DOLLAR, LF, d];
    Held(a);
    ByteAfterCr(b);
    Join(ShowEnds, Initial, i1, [b, CR, LF], Out(Waiting, t1), Out(Initial, [CR, b, CARET, UPPER_M, DOLLAR, LF]), i2, t2);
    LineThenCr(c);
    Join(ShowEnds, Initial, i2, [c, LF, CR], Out(Initial, t2), Out(Waiting, [c, DOLLAR, LF]), i3, t3);
    NewlineThenHeld(d);
    Join(ShowEnds, Initial, i3, [LF, d, CR], Out(Waiting, t3), Out(Waiting, [CARET, UPPER_M, DOLLAR, LF, d]), i4, t4);
    Finish(ShowEnds, i4, Out(Waiting, t4), t4 + [CR]);
  }

  /**
   * The same input with two carriage returns before the first newline,
   * "a\rb\r\r\nc\n\r\nd\r", is written as "a\rb\r^M$\nc$\n^M$\nd\r": of
   * two carriage returns in a row only the last is marked, the first is
   * written as it came.
   */
  lemma ShowEndsDoubleCr(a: byte, b: byte, c: byte, d: byte)
    requires Ordinary(a) && Ordinary(b) && Ordinary(c) && Ordinary(d)
    ensures Cat(ShowEnds, [a, CR] + [b, CR, CR, LF] + [c, LF, CR] + [LF, d, CR])
         == [a] + [CR, b, CR, CARET, UPPER_M, DOLLAR, LF] + [c, DOLLAR, LF] + [CARET, UPPER_M, DOLLAR, LF, d] + [CR]
  {
    var i1, t1 := [a, CR], [a];
    var i2, t2 := i1 + [b, CR, CR, LF], t1 + [CR, b, CR, CARET, UPPER_M, DOLLAR, LF];
    var i3, t3 := i2 + [c, LF, CR], t2 + [c, DOLLAR, LF];
    var i4, t4 := i3 + [LF, d, CR], t3 + [CARET, UPPER_M, DOLLAR, LF, d];
    Held(a);
    DoubleCrAfterCr(b);
    Join(ShowEnds, Initial, i1, [b, CR, CR, LF], Out(Waiting, t1), Out(Initial, [CR, b, CR, CARET, UPPER_M, DOLLAR, LF]), i2, t2);
    LineThenCr(c);
    Join(ShowEnds, Initial, i2, [c, LF, CR], Out(Initial, t2), Out(Waiting, [c, DOLLAR, LF]), i3, t3);
    NewlineThenHeld(d);
    Join(ShowEnds, Initial, i3, [LF, d, CR], Out(Waiting, t3), Out(Waiting, [CARET, UPPER_M, DOLLAR, LF, d]), i4, t4);
    Finish(ShowEnds, i4, Out(Waiting, t4), t4 + [CR]);
  }

  /**
   * tests.rs:125-127: inputs "1\r" and "\n2\r\n" give "1^M$\n2^M$\n": the
   * carriage return left pending by the first input is resolved by the
   * newline that starts the second (`RatProcess` writes `Cat` of the
   * inputs joined).
   */
  lemma TwoInputsCrThenNewline(x: byte, y: byte)
    requires Ordinary(x) && Ordinary(y)
    ensures Cat(ShowEnds, [x, CR] + [LF, y, CR, LF]) == [x] + [CARET, UPPER_M, DOLLAR, LF, y, CARET, UPPER_M, DOLLAR, LF]
  {
    var t := [x] + [CARET, UPPER_M, DOLLAR, LF, y, CARET, UPPER_M, DOLLAR, LF];
    Held(x);
    NewlineAfterCr(y);
    Join(ShowEnds, Initial, [x, CR], [LF, y, CR, LF],
      Out(Waiting, [x]), Out(Initial, [CARET, UPPER_M, DOLLAR, LF, y, CARET, UPPER_M, DOLLAR, LF]), [x, CR] + [LF, y, CR, LF], t);
    Finish(ShowEnds, [x, CR] + [LF, y, CR, LF], Out(Initial, t), t);
  }

  /**
   * tests.rs:129-131: inputs "1\r" and "2\r\n" give "1\r2^M$\n": the
   * pending carriage return is followed by a byte, so it is written as it came.
   */
  lemma TwoInputsCrThenByte(x: byte, y: byte)
    requires Ordinary(x) && Ordinary(y)
    ensures Cat(ShowEnds, [x, CR] + [y, CR, LF]) == [x] + [CR, y, CARET, UPPER_M, DOLLAR, LF]
  {
    var t := [x] + [CR, y, CARET, UPPER_M, DOLLAR, LF];
    Held(x);
    ByteAfterCr(y);
    Join(ShowEnds, Initial, [x, CR], [y, CR, LF], Out(Waiting, [x]), Out(Initial, [CR, y, CARET, UPPER_M, DOLLAR, LF]),
      [x, CR] + [y, CR, LF], t);
    Finish(ShowEnds, [x, CR] + [y, CR, LF], Out(Initial, t), t);
  }
}
