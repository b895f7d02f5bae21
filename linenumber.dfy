/**
 * The line counter of rat/src/lib.rs:266-317: a right-aligned ASCII decimal
 * number kept in a fixed byte buffer, incremented in place digit by digit.
 * The printed slice starts `line_num_print` and is at least six bytes wide;
 * it widens leftwards as the number gains digits, and once the buffer is full
 * of digits the leftmost byte turns into '>' instead of wrapping silently.
 */
module LineNumber {
  import opened Bytes

  /** `LINE_COUNTER_BUF_LEN`: the buffer length rat always uses. */
  const LINE_COUNTER_BUF_LEN: nat := 20

  function Min(a: int, b: int): int { if a <= b then a else b }
  function Max(a: int, b: int): int { if a <= b then b else a }

  function Pow10(k: nat): (r: nat)
    ensures r >= 1
  {
    if k == 0 then 1 else 10 * Pow10(k - 1)
  }

  // ---------------------------------------------------------------------
  // Decimal strings.
  // ---------------------------------------------------------------------

  /** The value of an ASCII digit string, most significant digit first. */
  function Val(s: seq<byte>): nat
    requires AllDigits(s)
  {
    if s == [] then 0 else 10 * Val(s[..|s| - 1]) + (s[|s| - 1] - ZERO)
  }

  /** The last `k` decimal digits of `v`, with leading zeros. */
  function Pad(v: nat, k: nat): (r: seq<byte>)
    ensures |r| == k
  {
    if k == 0 then [] else Pad(v / 10, k - 1) + [ZERO + v % 10]
  }

  lemma {:induction false} PadIsDigits(v: nat, k: nat)
    ensures AllDigits(Pad(v, k))
  {
    if k > 0 {
      PadIsDigits(v / 10, k - 1);
    }
  }

  /** How many decimal digits `n` has (one for zero). */
  function NumDigits(n: nat): (k: nat)
    ensures k >= 1
  {
    if n < 10 then 1 else 1 + NumDigits(n / 10)
  }

  /** The usual decimal spelling of `n`. */
  function Digits(n: nat): seq<byte>
  {
    Pad(n, NumDigits(n))
  }

  /** A decimal string with no leading zero (a lone "0" aside). */
  predicate Canonical(s: seq<byte>)
  {
    |s| >= 1 && AllDigits(s) && (|s| == 1 || s[0] != ZERO)
  }

  /**
   * The slice `get_line_num` returns after `n` increments of a counter over
   * a buffer of `size` bytes: the decimal spelling of `n` right-aligned in a
   * field of at least six bytes; past the buffer's reach, '>' followed by
   * the low `size - 1` digits.
   */
  function LineNumText(n: nat, size: nat): seq<byte>
    requires size >= 6
  {
    if NumDigits(n) <= size then Spaces(Max(6, NumDigits(n)) - NumDigits(n)) + Digits(n)
    else [GT] + Pad(n, size - 1)
  }

  /**
   * The counter's buffer `s` with its cursors holds `count`: spaces left of
   * `start`, then the canonical digits of `count`; or, once `count` no
   * longer fits, '>' followed by `count` modulo `10^(|s|-1)`. The printed
   * slice begins at `printAt`, six bytes from the right or at `start`.
   */
  ghost predicate CounterOk(s: seq<byte>, start: nat, printAt: nat, count: nat)
  {
    |s| >= 6 && start < |s| && printAt == Min(|s| - 6, start) &&
    (forall i :: 0 <= i < start ==> s[i] == SPACE) &&
    if count < Pow10(|s|) then
      Canonical(s[start..]) && Val(s[start..]) == count
    else
      start == 0 && s[0] == GT && AllDigits(s[1..]) && Val(s[1..]) == count % Pow10(|s| - 1)
  }

  // ---------------------------------------------------------------------
  // The counter object.
  // ---------------------------------------------------------------------

  class LineNumber {
    const buf: array<byte>
    const end: nat
    var start: nat
    var printAt: nat
    /** How many times `NextLineNum` has run. */
    ghost var count: nat

    ghost predicate Valid()
      reads this, buf
    {
      end == buf.Length - 1 && CounterOk(buf[..], start, printAt, count)
    }

    constructor (size: nat)
      requires size >= 6
      ensures Valid() && fresh(buf) && buf.Length == size && count == 0
    {
      var b := new byte[size](_ => SPACE);
      b[size - 1] := ZERO;
      buf := b;
      end := size - 1;
      start := size - 1;
      printAt := size - 1 - 5;
      count := 0;
      new;
      assert buf[..][start..] == [ZERO];
    }

    /** Adds one to the number held, carrying from the right. */
    method NextLineNum()
      requires Valid()
      modifies this, buf
      ensures Valid() && count == old(count) + 1
    {
      ghost var s0 := buf[..];
      var endp := end;
      while true
        invariant start <= endp <= end
        invariant forall i :: 0 <= i <= endp ==> buf[i] == s0[i]
        invariant forall i :: endp < i <= end ==> buf[i] == ZERO && s0[i] >= NINE
        invariant |s0| == buf.Length && CounterOk(s0, start, printAt, count)
        invariant start == old(start) && printAt == old(printAt) && count == old(count)
        decreases endp
      {
        if buf[endp] < NINE {
          BumpDigit(s0, endp);
          return;
        }
        buf[endp] := ZERO;
        if endp == start {
          break;
        }
        endp := endp - 1;
      }
      CarryOut(s0);
    }

    /**
     * The early return of the digit loop: the digit at `k`, below '9', goes
     * up by one; the nines to its right have already become zeros.
     */
    method BumpDigit(ghost s0: seq<byte>, k: nat)
      requires end == buf.Length - 1 && |s0| == buf.Length && CounterOk(s0, start, printAt, count)
      requires start <= k <= end && s0[k] < NINE
      requires forall i :: 0 <= i <= k ==> buf[i] == s0[i]
      requires forall i :: k < i <= end ==> buf[i] == ZERO && s0[i] >= NINE
      modifies this, buf
      ensures Valid() && count == old(count) + 1
    {
      buf[k] := buf[k] + 1;
      count := count + 1;
      BumpedFrom(s0, buf[..], k);
      InPlaceIncrement(s0, start, printAt, count - 1, k, count);
      ValidFrom(Bumped(s0, k));
    }

    /**
     * The carry out of the leftmost digit once every digit was a nine and
     * is now a zero: a new leading '1', or '>' when the buffer is full, and
     * the printed slice widens when the digits reach it.
     */
    method CarryOut(ghost s0: seq<byte>)
      requires end == buf.Length - 1 && |s0| == buf.Length && CounterOk(s0, start, printAt, count)
      requires forall i :: 0 <= i < start ==> buf[i] == s0[i]
      requires forall i :: start <= i <= end ==> buf[i] == ZERO && s0[i] >= NINE
      modifies this, buf
      ensures Valid() && count == old(count) + 1
    {
      ghost var start0, printAt0, count0 := start, printAt, count;
      if start > 0 {
        start := start - 1;
        buf[start] := ONE;
      } else {
        buf[0] := GT;
      }
      if start < printAt {
        printAt := printAt - 1;
      }
      count := count + 1;
      CarriedFrom(s0, buf[..], start0);
      CarryIncrement(s0, start0, printAt0, count0, start, printAt, count);
      ValidFrom(Carried(s0, start0));
    }

    /** `Valid()` of the current fields, given the buffer's contents. */
    lemma ValidFrom(s: seq<byte>)
      requires end == buf.Length - 1 && buf[..] == s && CounterOk(s, start, printAt, count)
      ensures Valid()
    {
    }

    /** `get_line_num`: the printed slice, from `line_num_print` to the end. */
    function GetLineNum(): (r: seq<byte>)
      reads this, buf
      requires Valid()
      ensures r == LineNumText(count, buf.Length)
    {
      PrintedSlice();
      buf[printAt..end + 1]
    }

    /** The slice `get_line_num` returns is the printed text of the count. */
    lemma PrintedSlice()
      requires Valid()
      ensures printAt <= end + 1 == buf.Length
      ensures buf[printAt..end + 1] == LineNumText(count, buf.Length)
    {
      var s := buf[..];
      CounterText(s, start, printAt, count);
      assert buf[printAt..end + 1] == s[printAt..];
    }
  }

  // ---------------------------------------------------------------------
  // Arithmetic helpers.
  // ---------------------------------------------------------------------

  lemma {:induction false} MulMono(a: nat, b: nat, p: nat)
    requires a <= b
    ensures a * p <= b * p
  {
    if a < b {
      MulMono(a, b - 1, p);
      assert b * p == (b - 1) * p + p;
    }
  }

  lemma ModUnique(x: nat, p: nat, q: nat, r: nat)
    requires p > 0 && r < p && x == q * p + r
    ensures x % p == r
  {
    var q', r' := x / p, x % p;
    assert x == q' * p + r';
    MulSucc(q, p);
    MulSucc(q', p);
    if q' < q {
      MulMono(q' + 1, q, p);
    } else if q' > q {
      MulMono(q + 1, q', p);
    }
  }

  lemma MulSucc(a: nat, p: nat)
    ensures (a + 1) * p == a * p + p
  {
  }

  lemma ModSucc(a: nat, p: nat)
    requires p > 0 && a % p + 1 < p
    ensures (a + 1) % p == a % p + 1
  {
    var q := a / p;
    assert a == q * p + a % p;
    ModUnique(a + 1, p, q, a % p + 1);
  }

  lemma ModWrap(a: nat, p: nat)
    requires p > 0 && a % p + 1 == p
    ensures (a + 1) % p == 0
  {
    var q := a / p;
    assert a == q * p + a % p;
    assert a + 1 == (q + 1) * p;
    ModUnique(a + 1, p, q + 1, 0);
  }

  lemma {:induction false} Pow10Monotone(j: nat, k: nat)
    requires j <= k
    ensures Pow10(j) <= Pow10(k)
  {
    if j < k {
      Pow10Monotone(j, k - 1);
    }
  }

  // ---------------------------------------------------------------------
  // Lemmas on decimal strings.
  // ---------------------------------------------------------------------

  /** `k` digits hold less than `10^k`. */
  lemma {:induction false} ValBound(s: seq<byte>)
    requires AllDigits(s)
    ensures Val(s) < Pow10(|s|)
  {
    if s != [] {
      ValBound(s[..|s| - 1]);
    }
  }

  lemma {:induction false} ValNines(s: seq<byte>)
    requires forall i :: 0 <= i < |s| ==> s[i] == NINE
    ensures AllDigits(s) && Val(s) == Pow10(|s|) - 1
  {
    if s != [] {
      ValNines(s[..|s| - 1]);
    }
  }

  lemma {:induction false} ValZeros(s: seq<byte>)
    requires forall i :: 0 <= i < |s| ==> s[i] == ZERO
    ensures AllDigits(s) && Val(s) == 0
  {
    if s != [] {
      ValZeros(s[..|s| - 1]);
    }
  }

  /** "1" followed by zeros is a power of ten. */
  lemma {:induction false} ValOneZeros(s: seq<byte>)
    requires |s| >= 1 && s[0] == ONE
    requires forall i :: 1 <= i < |s| ==> s[i] == ZERO
    ensures AllDigits(s) && Val(s) == Pow10(|s| - 1)
  {
    if |s| > 1 {
      ValOneZeros(s[..|s| - 1]);
    } else {
      assert s[..0] == [];
    }
  }

  /**
   * Raising digit `k` by one and turning the nines after it into zeros adds
   * one to the value: the rule `next_line_num` applies.
   */
  lemma {:induction false} ValIncrement(s: seq<byte>, t: seq<byte>, k: nat)
    requires |s| == |t| && k < |s| && AllDigits(s)
    requires forall i :: 0 <= i < k ==> t[i] == s[i]
    requires s[k] < NINE && t[k] == s[k] + 1
    requires forall i :: k < i < |s| ==> s[i] == NINE && t[i] == ZERO
    ensures AllDigits(t) && Val(t) == Val(s) + 1
  {
    if k == |s| - 1 {
      assert t[..k] == s[..k];
    } else {
      ValIncrement(s[..|s| - 1], t[..|t| - 1], k);
    }
  }

  /** A digit string is the padded spelling of its own value. */
  lemma {:induction false} PadOfVal(s: seq<byte>)
    requires AllDigits(s)
    ensures Pad(Val(s), |s|) == s
  {
    if s != [] {
      var init := s[..|s| - 1];
      PadOfVal(init);
      assert Val(s) / 10 == Val(init);
      assert Val(s) % 10 == s[|s| - 1] - ZERO;
      assert s == init + [s[|s| - 1]];
    }
  }

  /** A canonical digit string has as many digits as its value needs. */
  lemma {:induction false} NumDigitsOfCanonical(s: seq<byte>)
    requires Canonical(s)
    ensures NumDigits(Val(s)) == |s|
    ensures s[0] != ZERO ==> Val(s) >= 1
  {
    if |s| > 1 {
      var init := s[..|s| - 1];
      assert init[0] == s[0];
      NumDigitsOfCanonical(init);
      assert Val(init) >= 1;
      assert Val(s) / 10 == Val(init);
    } else {
      assert s[..0] == [];
    }
  }

  /** `Digits(n)` is canonical and spells `n`. */
  lemma {:induction false} DigitsSpellValue(n: nat)
    ensures Canonical(Digits(n)) && Val(Digits(n)) == n
    ensures n >= 1 ==> Digits(n)[0] != ZERO
  {
    if n >= 10 {
      DigitsSpellValue(n / 10);
      assert Digits(n) == Digits(n / 10) + [ZERO + n % 10];
      assert Digits(n)[..|Digits(n)| - 1] == Digits(n / 10);
    } else {
      assert Digits(n) == [ZERO + n];
      assert Digits(n)[..0] == [];
    }
  }

  /** A number gains a digit exactly when it reaches the next power of ten. */
  lemma {:induction false} NumDigitsSucc(n: nat)
    ensures NumDigits(n + 1) == NumDigits(n) ||
            (NumDigits(n + 1) == NumDigits(n) + 1 && n + 1 == Pow10(NumDigits(n)))
    ensures NumDigits(n + 1) == NumDigits(n) + 1 <== n + 1 == Pow10(NumDigits(n))
  {
    if n >= 10 {
      var m := n / 10;
      NumDigitsSucc(m);
      if (n + 1) % 10 == 0 {
        assert (n + 1) / 10 == m + 1;
      } else {
        assert (n + 1) / 10 == m;
        NumDigitsBelow(n);
      }
    }
  }

  lemma {:induction false} NumDigitsBelow(n: nat)
    ensures n < Pow10(NumDigits(n))
    ensures NumDigits(n) >= 2 ==> n >= Pow10(NumDigits(n) - 1)
  {
    if n >= 10 {
      NumDigitsBelow(n / 10);
    }
  }

  /** `n` fits in `size` digits exactly when it is below `10^size`. */
  lemma FitsIffBelow(n: nat, size: nat)
    requires size >= 1
    ensures NumDigits(n) <= size <==> n < Pow10(size)
  {
    NumDigitsBelow(n);
    if NumDigits(n) <= size {
      Pow10Monotone(NumDigits(n), size);
    } else {
      Pow10Monotone(size, NumDigits(n) - 1);
    }
  }

  /** Reducing modulo `10 p` keeps the last digit and the rest modulo `p`. */
  lemma ModTen(v: nat, p: nat)
    requires p > 0
    ensures v % (10 * p) == 10 * ((v / 10) % p) + v % 10
  {
    var a, b := (v / 10) / p, (v / 10) % p;
    assert v / 10 == a * p + b;
    assert v == 10 * (v / 10) + v % 10;
    assert v == a * (10 * p) + (10 * b + v % 10);
    ModUnique(v, 10 * p, a, 10 * b + v % 10);
  }

  /** Padding to `k` digits keeps the value modulo `10^k`. */
  lemma {:induction false} PadValMod(v: nat, k: nat)
    ensures AllDigits(Pad(v, k)) && Val(Pad(v, k)) == v % Pow10(k)
  {
    PadIsDigits(v, k);
    if k > 0 {
      PadValMod(v / 10, k - 1);
      assert Pad(v, k)[..k - 1] == Pad(v / 10, k - 1);
      ModTen(v, Pow10(k - 1));
    }
  }

  /** Only the low `k` digits of `v` reach `Pad(v, k)`. */
  lemma PadMod(v: nat, k: nat)
    ensures Pad(v % Pow10(k), k) == Pad(v, k)
  {
    PadValMod(v, k);
    PadOfVal(Pad(v, k));
  }

  // ---------------------------------------------------------------------
  // The two steps of next_line_num preserve CounterOk.
  // ---------------------------------------------------------------------

  /** The buffer after the digit loop returns early at digit `k`. */
  function Bumped(s: seq<byte>, k: nat): seq<byte>
    requires k < |s| && s[k] < NINE
  {
    seq(|s|, i requires 0 <= i < |s| => if i < k then s[i] else if i == k then s[k] + 1 else ZERO)
  }

  /** The buffer after the carry leaves the leftmost digit at `start`. */
  function Carried(s: seq<byte>, start: nat): seq<byte>
    requires start < |s|
  {
    seq(|s|, i requires 0 <= i < |s| =>
      if i < start - 1 then s[i] else if i == start - 1 then ONE
      else if i == 0 then GT else ZERO)
  }

  /** A buffer that agrees with `Bumped(s0, k)` byte for byte is `Bumped(s0, k)`. */
  lemma BumpedFrom(s0: seq<byte>, s: seq<byte>, k: nat)
    requires k < |s0| == |s| && s0[k] < NINE
    requires forall i :: 0 <= i < k ==> s[i] == s0[i]
    requires s[k] == s0[k] + 1 && forall i :: k < i < |s| ==> s[i] == ZERO
    ensures s == Bumped(s0, k)
  {
  }

  /** A buffer that agrees with `Carried(s0, start)` byte for byte is `Carried(s0, start)`. */
  lemma CarriedFrom(s0: seq<byte>, s: seq<byte>, start: nat)
    requires start < |s0| == |s|
    requires forall i :: 0 <= i < start - 1 ==> s[i] == s0[i]
    requires start > 0 ==> s[start - 1] == ONE
    requires start == 0 ==> s[0] == GT
    requires forall i :: start <= i < |s| && i != 0 ==> s[i] == ZERO
    ensures s == Carried(s0, start)
  {
  }

  /** The early return of the digit loop: one digit below '9' went up. */
  lemma InPlaceIncrement(s0: seq<byte>, start: nat, printAt: nat, count: nat, k: nat, count': nat)
    requires CounterOk(s0, start, printAt, count)
    requires start <= k < |s0| && s0[k] < NINE
    requires forall i :: k < i < |s0| ==> s0[i] >= NINE
    requires count' == count + 1
    ensures CounterOk(Bumped(s0, k), start, printAt, count')
  {
    var s1 := Bumped(s0, k);
    assert |s1| == |s0| && s1[k] == s0[k] + 1;
    assert forall i :: 0 <= i < k ==> s1[i] == s0[i];
    assert forall i :: k < i < |s0| ==> s1[i] == ZERO;
    if count < Pow10(|s0|) {
      BumpFits(s0, s1, start, k, count);
    } else {
      BumpWraps(s0, s1, k, count);
    }
  }

  /** Below the overflow the digits from `start` spell `count + 1`. */
  lemma BumpFits(s0: seq<byte>, s1: seq<byte>, start: nat, k: nat, count: nat)
    requires start <= k < |s0| == |s1| && s0[k] < NINE && s1[k] == s0[k] + 1
    requires forall i :: 0 <= i < k ==> s1[i] == s0[i]
    requires forall i :: k < i < |s0| ==> s0[i] >= NINE && s1[i] == ZERO
    requires Canonical(s0[start..]) && Val(s0[start..]) == count
    ensures Canonical(s1[start..]) && Val(s1[start..]) == count + 1 && count + 1 < Pow10(|s1|)
  {
    var f0, f1 := s0[start..], s1[start..];
    ValIncrement(f0, f1, k - start);
    ValBound(f1);
    Pow10Monotone(|f1|, |s1|);
    assert Canonical(f1);
  }

  /** Past the overflow the digits after '>' hold `count + 1` modulo `10^(|s|-1)`. */
  lemma BumpWraps(s0: seq<byte>, s1: seq<byte>, k: nat, count: nat)
    requires 1 <= k < |s0| == |s1| && s0[k] < NINE && s1[k] == s0[k] + 1
    requires forall i :: 0 <= i < k ==> s1[i] == s0[i]
    requires forall i :: k < i < |s0| ==> s0[i] >= NINE && s1[i] == ZERO
    requires AllDigits(s0[1..]) && Val(s0[1..]) == count % Pow10(|s0| - 1)
    ensures AllDigits(s1[1..]) && Val(s1[1..]) == (count + 1) % Pow10(|s1| - 1)
  {
    var p := Pow10(|s0| - 1);
    var f0, f1 := s0[1..], s1[1..];
    ValIncrement(f0, f1, k - 1);
    ValBound(f1);
    ModSucc(count, p);
  }

  /** The carry out of the leftmost digit: a new leading '1', or '>'. */
  lemma CarryIncrement(s0: seq<byte>, start: nat, printAt: nat, count: nat,
                       start': nat, printAt': nat, count': nat)
    requires CounterOk(s0, start, printAt, count)
    requires forall i :: start <= i < |s0| ==> s0[i] >= NINE
    requires start' == if start > 0 then start - 1 else 0
    requires printAt' == if start' < printAt then printAt - 1 else printAt
    requires count' == count + 1
    ensures CounterOk(Carried(s0, start), start', printAt', count')
  {
    var s1 := Carried(s0, start);
    assert |s1| == |s0|;
    assert forall i :: 0 <= i < start' ==> s1[i] == SPACE;
    assert forall i :: start <= i < |s1| && i != 0 ==> s1[i] == ZERO;
    assert printAt' == Min(|s1| - 6, start');
    if count < Pow10(|s0|) {
      ValNines(s0[start..]);
      assert count + 1 == Pow10(|s0| - start);
      if start > 0 {
        CarryWidens(s1, start);
        FittingOk(s1, start', printAt', count');
      } else {
        CarryOverflows(s1);
        OverflowedOk(s1, printAt', count');
      }
    } else {
      CarryWraps(s0, s1, count);
      OverflowedOk(s1, printAt', count');
    }
  }

  /** The two shapes of a valid counter: digits that still fit ... */
  lemma FittingOk(s: seq<byte>, start: nat, printAt: nat, count: nat)
    requires |s| >= 6 && start < |s| && printAt == Min(|s| - 6, start)
    requires forall i :: 0 <= i < start ==> s[i] == SPACE
    requires count < Pow10(|s|) && Canonical(s[start..]) && Val(s[start..]) == count
    ensures CounterOk(s, start, printAt, count)
  {
  }

  /** ... and '>' before the count modulo `10^(|s|-1)`. */
  lemma OverflowedOk(s: seq<byte>, printAt: nat, count: nat)
    requires |s| >= 6 && printAt == Min(|s| - 6, 0)
    requires count >= Pow10(|s|) && s[0] == GT
    requires AllDigits(s[1..]) && Val(s[1..]) == count % Pow10(|s| - 1)
    ensures CounterOk(s, 0, printAt, count)
  {
  }

  /** Past the overflow, nines after '>' wrap round to zeros. */
  lemma CarryWraps(s0: seq<byte>, s1: seq<byte>, count: nat)
    requires |s0| == |s1| >= 1 && s1[0] == GT
    requires forall i :: 1 <= i < |s0| ==> s0[i] >= NINE && s1[i] == ZERO
    requires AllDigits(s0[1..]) && Val(s0[1..]) == count % Pow10(|s0| - 1)
    ensures AllDigits(s1[1..]) && Val(s1[1..]) == (count + 1) % Pow10(|s1| - 1)
  {
    ValNines(s0[1..]);
    ValZeros(s1[1..]);
    ModWrap(count, Pow10(|s0| - 1));
  }

  /** A new leading '1' before `|s| - start` zeros spells `10^(|s|-start)`, which still fits. */
  lemma CarryWidens(s1: seq<byte>, start: nat)
    requires 0 < start < |s1| && s1[start - 1] == ONE
    requires forall i :: start <= i < |s1| ==> s1[i] == ZERO
    ensures Canonical(s1[start - 1..]) && Val(s1[start - 1..]) == Pow10(|s1| - start)
    ensures Pow10(|s1| - start) < Pow10(|s1|)
  {
    var f1 := s1[start - 1..];
    ValOneZeros(f1);
    Pow10Monotone(|s1| - start + 1, |s1|);
    assert Canonical(f1);
  }

  /** A buffer of nines overflows into '>' and zeros, which hold `10^|s|` modulo `10^(|s|-1)`. */
  lemma CarryOverflows(s1: seq<byte>)
    requires |s1| >= 1 && s1[0] == GT
    requires forall i :: 1 <= i < |s1| ==> s1[i] == ZERO
    ensures AllDigits(s1[1..]) && Val(s1[1..]) == Pow10(|s1|) % Pow10(|s1| - 1)
  {
    ValZeros(s1[1..]);
    ModUnique(Pow10(|s1|), Pow10(|s1| - 1), 10, 0);
  }

  lemma SpacesSlice(s: seq<byte>, i: nat, j: nat)
    requires i <= j <= |s| && forall k :: i <= k < j ==> s[k] == SPACE
    ensures s[i..j] == Spaces(j - i)
  {
  }

  /** The printed slice of a valid counter is `LineNumText` of its count. */
  lemma CounterText(s: seq<byte>, start: nat, printAt: nat, count: nat)
    requires CounterOk(s, start, printAt, count)
    ensures s[printAt..] == LineNumText(count, |s|)
  {
    FitsIffBelow(count, |s|);
    if count < Pow10(|s|) {
      FittingText(s, start, printAt, count);
    } else {
      OverflowingText(s, count);
    }
  }

  lemma FittingText(s: seq<byte>, start: nat, printAt: nat, count: nat)
    requires CounterOk(s, start, printAt, count) && count < Pow10(|s|)
    requires NumDigits(count) <= |s|
    ensures s[printAt..] == LineNumText(count, |s|)
  {
    var f := s[start..];
    assert f == Digits(count) by {
      NumDigitsOfCanonical(f);
      PadOfVal(f);
    }
    SpacesSlice(s, printAt, start);
    SliceSplit(s, printAt, start);
    assert Max(6, NumDigits(count)) - NumDigits(count) == start - printAt by {
      NumDigitsOfCanonical(f);
    }
  }

  lemma OverflowingText(s: seq<byte>, count: nat)
    requires |s| >= 6 && NumDigits(count) > |s|
    requires s[0] == GT && AllDigits(s[1..]) && Val(s[1..]) == count % Pow10(|s| - 1)
    ensures s == LineNumText(count, |s|)
  {
    PadOfVal(s[1..]);
    PadMod(count, |s| - 1);
    assert s == [GT] + s[1..];
  }

  // ---------------------------------------------------------------------
  // What the printed number looks like.
  // ---------------------------------------------------------------------

  /** A fresh counter prints five spaces and a '0'. */
  lemma InitialText(size: nat)
    requires size >= 6
    ensures LineNumText(0, size) == Spaces(5) + [ZERO]
  {
    assert Digits(0) == [ZERO];
  }

  /**
   * Below the overflow the printed slice is a right-aligned canonical
   * decimal spelling of the count, padded with spaces to at least six bytes.
   */
  lemma LineNumTextShape(n: nat, size: nat)
    requires size >= 6 && NumDigits(n) <= size
    ensures var t := LineNumText(n, size);
      var d := t[|t| - NumDigits(n)..];
      |t| == Max(6, NumDigits(n)) &&
      (forall i :: 0 <= i < |t| - NumDigits(n) ==> t[i] == SPACE) &&
      Canonical(d) && Val(d) == n
  {
    DigitsSpellValue(n);
    var t := LineNumText(n, size);
    assert t[|t| - NumDigits(n)..] == Digits(n);
  }

  /**
   * Each increment leaves the printed width alone or widens it by one byte,
   * and it widens exactly when the number needs a seventh (or later) digit.
   */
  lemma WidthGrowth(n: nat, size: nat)
    requires size >= 6 && n + 1 < Pow10(size)
    ensures |LineNumText(n + 1, size)| == |LineNumText(n, size)| ||
            |LineNumText(n + 1, size)| == |LineNumText(n, size)| + 1
    ensures |LineNumText(n + 1, size)| == |LineNumText(n, size)| + 1 <==>
            NumDigits(n) >= 6 && n + 1 == Pow10(NumDigits(n))
  {
    NumDigitsSucc(n);
    FitsIffBelow(n, size);
    FitsIffBelow(n + 1, size);
  }

  /** Past the all-nines value of the whole buffer the slice becomes '>' and digits. */
  lemma OverflowText(n: nat, size: nat)
    requires size >= 6 && n >= Pow10(size)
    ensures var t := LineNumText(n, size);
      |t| == size && t[0] == GT && AllDigits(t[1..]) && Val(t[1..]) == n % Pow10(size - 1)
  {
    FitsIffBelow(n, size);
    var t := LineNumText(n, size);
    assert t[1..] == Pad(n, size - 1);
    PadValMod(n, size - 1);
  }

}
