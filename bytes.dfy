/** Raw bytes and the ASCII values the formatter emits or recognises. */
module Bytes {

  /** A `u8`. */
  type byte = x: int | 0 <= x < 256

  const TAB: byte := 9
  const LF: byte := 10
  const CR: byte := 13
  const SPACE: byte := 32
  const DOLLAR: byte := '$' as int
  const DASH: byte := '-' as int
  const ZERO: byte := '0' as int
  const ONE: byte := '1' as int
  const NINE: byte := '9' as int
  const GT: byte := '>' as int
  const QUESTION: byte := '?' as int
  const UPPER_I: byte := 'I' as int
  const UPPER_M: byte := 'M' as int
  const CARET: byte := '^' as int

  predicate IsDigit(b: byte) {
    ZERO <= b <= NINE
  }

  predicate AllDigits(s: seq<byte>) {
    forall i :: 0 <= i < |s| ==> IsDigit(s[i])
  }

  /** `n` copies of the space character. */
  function Spaces(n: nat): (r: seq<byte>)
    ensures |r| == n
  {
    seq(n, _ => SPACE)
  }

  datatype Option<T> = None | Some(value: T)

  /** Splitting off the last element of the right operand of `+`. */
  lemma AppendSnoc(a: seq<byte>, b: seq<byte>)
    requires b != []
    ensures a + b == (a + b[..|b| - 1]) + [b[|b| - 1]]
    ensures b == b[..|b| - 1] + [b[|b| - 1]]
  {
  }

  /** A prefix one longer is the prefix and the next element. */
  lemma TakeSnoc(s: seq<byte>, i: nat)
    requires i < |s|
    ensures s[..i + 1] == s[..i] + [s[i]]
  {
  }

  lemma SliceSplit(s: seq<byte>, i: nat, j: nat)
    requires i <= j <= |s|
    ensures s[i..] == s[i..j] + s[j..]
  {
  }

  lemma ConcatAssoc(a: seq<byte>, b: seq<byte>, c: seq<byte>)
    ensures (a + b) + c == a + (b + c)
  {
  }

  /** Concatenation of a sequence of byte strings, in order. */
  function Flatten(ss: seq<seq<byte>>): seq<byte>
  {
    if ss == [] then [] else Flatten(ss[..|ss| - 1]) + ss[|ss| - 1]
  }

  lemma {:induction false} FlattenAppend(ss: seq<seq<byte>>, ts: seq<seq<byte>>)
    ensures Flatten(ss + ts) == Flatten(ss) + Flatten(ts)
  {
    if ts == [] {
      assert ss + ts == ss;
    } else {
      assert (ss + ts)[..|ss + ts| - 1] == ss + ts[..|ts| - 1];
      FlattenAppend(ss, ts[..|ts| - 1]);
    }
  }
}
