/** Decimal text: the digit counter and the integer printers of hiredis.c and
    sds.c, the number reader of read.c, and their agreement. */
module Decimal {
  import opened Text

  const ULLONG_MAX := 0xffff_ffff_ffff_ffff
  const LLONG_MAX := 0x7fff_ffff_ffff_ffff
  const LLSTR_SIZE := 21

  function Digit(d: nat): (c: char)
    requires d < 10
    ensures IsDigit(c) && DigitValue(c) == d
  {
    ('0' as int + d) as char
  }

  function DigitValue(c: char): int {
    c as int - '0' as int
  }

  /** The decimal text of a natural number, as "%d", "%zu" and "%u" print it. */
  function Dec(n: nat): (s: string)
    ensures |s| >= 1
    ensures forall i :: 0 <= i < |s| ==> IsDigit(s[i])
  {
    if n < 10 then [Digit(n)] else Dec(n / 10) + [Digit(n % 10)]
  }

  function DecInt(v: int): string {
    if v < 0 then "-" + Dec(-v) else Dec(v)
  }

  function Pow10(k: nat): nat {
    if k == 0 then 1 else 10 * Pow10(k - 1)
  }

  /** A number has at most k digits exactly when it is below 10^k. */
  lemma {:induction false} DecLength(n: nat, k: nat)
    requires k >= 1
    ensures |Dec(n)| <= k <==> n < Pow10(k)
  {
    if k == 1 {
      assert Pow10(1) == 10 * Pow10(0);
    } else if n >= 10 {
      DecLength(n / 10, k - 1);
    } else {
      PowPositive(k - 1);
    }
  }

  lemma PowPositive(k: nat)
    ensures Pow10(k) >= 1
  {}

  lemma LongWidth(n: nat)
    ensures n <= ULLONG_MAX ==> |Dec(n)| <= 20
    ensures n <= LLONG_MAX ==> |Dec(n)| <= 19
  {
    assert Pow10(5) == 100000;
    assert Pow10(10) == 10000000000;
    assert Pow10(15) == 1000000000000000;
    assert Pow10(20) == 100000000000000000000;
    assert Pow10(19) == 10000000000000000000;
    DecLength(n, 19);
    DecLength(n, 20);
  }

  // ------------------------------------------------------------------------
  // readLongLong

  /** The digit loop: reads up to the first '\r'; None on any other byte. */
  function Accumulate(v: int, s: string): Option<int>
    requires '\r' in s
    decreases |s|
  {
    if s[0] == '\r' then Some(v)
    else if IsDigit(s[0]) then Accumulate(v * 10 + DigitValue(s[0]), s[1..])
    else None
  }

  /** What readLongLong returns for a text that holds a '\r' somewhere. */
  function LongLong(s: string): int
    requires '\r' in s
  {
    if s[0] == '-' then Negated(Accumulate(0, s[1..]))
    else if s[0] == '+' then OrMinusOne(Accumulate(0, s[1..]))
    else OrMinusOne(Accumulate(0, s))
  }

  function Negated(v: Option<int>): int {
    if v.Some? then -v.value else -1
  }

  function OrMinusOne(v: Option<int>): int {
    if v.Some? then v.value else -1
  }

  /** Only the bytes up to the first '\r' matter. */
  lemma {:induction false} AccumulateExtend(v: int, s: string, t: string)
    requires '\r' in s
    ensures '\r' in s + t
    ensures Accumulate(v, s + t) == Accumulate(v, s)
    decreases |s|
  {
    assert (s + t)[0] == s[0];
    if s[0] != '\r' && IsDigit(s[0]) {
      assert (s + t)[1..] == s[1..] + t;
      AccumulateExtend(v * 10 + DigitValue(s[0]), s[1..], t);
    }
    var i :| 0 <= i < |s| && s[i] == '\r';
    assert (s + t)[i] == '\r';
  }

  lemma LongLongExtend(s: string, t: string)
    requires '\r' in s
    ensures '\r' in s + t
    ensures LongLong(s + t) == LongLong(s)
  {
    AccumulateExtend(0, s, t);
    if s[0] == '-' || s[0] == '+' {
      assert (s + t)[1..] == s[1..] + t;
      AccumulateExtend(0, s[1..], t);
    }
  }

  lemma {:induction false} AccumulateDec(n: nat, rest: string)
    requires '\r' in rest
    ensures '\r' in Dec(n) + rest
    ensures Accumulate(0, Dec(n) + rest) == Accumulate(n, rest)
  {
    DecStep(n);
    hide *;
    if n < 10 {
      AccumulateStep(0, n, rest);
    } else {
      var q, d := n / 10, n % 10;
      AccumulateStep(q, d, rest);
      AccumulateDec(q, [Digit(d)] + rest);
      Assoc3(Dec(q), [Digit(d)], rest);
    }
  }

  lemma DecStep(n: nat)
    ensures n < 10 ==> Dec(n) == [Digit(n)]
    ensures n >= 10 ==> n / 10 < n && n / 10 * 10 + n % 10 == n && Dec(n) == Dec(n / 10) + [Digit(n % 10)]
  {}

  lemma AccumulateStep(v: nat, d: nat, rest: string)
    requires '\r' in rest && d < 10
    ensures '\r' in [Digit(d)] + rest
    ensures Accumulate(v, [Digit(d)] + rest) == Accumulate(v * 10 + d, rest)
  {
    var s := [Digit(d)] + rest;
    assert s[1..] == rest && s[0] == Digit(d);
  }

  lemma ReadDigits(n: nat, rest: string)
    ensures '\r' in Dec(n) + ("\r" + rest)
    ensures Accumulate(0, Dec(n) + ("\r" + rest)) == Some(n)
  {
    var tail := "\r" + rest;
    assert tail[0] == '\r';
    AccumulateDec(n, tail);
  }

  /** Reading back a printed number gives the number, whatever follows the CR. */
  lemma ReadBack(v: int, rest: string)
    ensures '\r' in DecInt(v) + ("\r" + rest)
    ensures LongLong(DecInt(v) + ("\r" + rest)) == v
  {
    hide Accumulate, Dec;
    var tail := "\r" + rest;
    ReadDigits(if v < 0 then -v else v, rest);
    if v < 0 {
      Assoc3("-", Dec(-v), tail);
      assert ("-" + (Dec(-v) + tail))[1..] == Dec(-v) + tail;
    } else {
      assert (DecInt(v) + tail)[0] == Dec(v)[0];
    }
  }

  /** A plus sign is skipped; anything else that is not a digit before the CR makes it -1. */
  lemma {:induction false} SignsAndForeign(n: nat, c: char, rest: string)
    requires '\r' in rest && !IsDigit(c) && c != '\r'
    ensures '\r' in "+" + (Dec(n) + ("\r" + rest))
    ensures LongLong("+" + (Dec(n) + ("\r" + rest))) == n
    ensures '\r' in Dec(n) + ([c] + rest) && LongLong(Dec(n) + ([c] + rest)) == -1
    ensures '\r' in "-" + (Dec(n) + ([c] + rest)) && LongLong("-" + (Dec(n) + ([c] + rest))) == -1
  {
    ReadDigits(n, rest);
    var good, bad := Dec(n) + ("\r" + rest), Dec(n) + ([c] + rest);
    assert ([c] + rest)[0] == c && ([c] + rest)[1..] == rest;
    var i :| 0 <= i < |rest| && rest[i] == '\r';
    assert ([c] + rest)[i + 1] == '\r';
    AccumulateDec(n, [c] + rest);
    assert Accumulate(n, [c] + rest) == None;
    assert bad[0] == Dec(n)[0];
    assert ("+" + good)[1..] == good && ("-" + bad)[1..] == bad;
    hide Accumulate, Dec;
  }

  /** No digit up to the first '\r' or foreign byte takes the accumulator beyond a long long. */
  predicate Fits(v: int, s: string)
    requires '\r' in s
    decreases |s|
  {
    s[0] != '\r' && IsDigit(s[0]) ==>
      v * 10 + DigitValue(s[0]) <= LLONG_MAX && Fits(v * 10 + DigitValue(s[0]), s[1..])
  }

  /** readLongLong does not overflow on this text. */
  predicate LongFits(s: string)
    requires '\r' in s
  {
    if s[0] == '-' || s[0] == '+' then Fits(0, s[1..]) else Fits(0, s)
  }

  lemma {:induction false} FitsExtend(v: int, s: string, t: string)
    requires '\r' in s
    ensures '\r' in s + t
    ensures Fits(v, s + t) == Fits(v, s)
    decreases |s|
  {
    assert (s + t)[0] == s[0];
    if s[0] != '\r' && IsDigit(s[0]) {
      assert (s + t)[1..] == s[1..] + t;
      FitsExtend(v * 10 + DigitValue(s[0]), s[1..], t);
    }
    var i :| 0 <= i < |s| && s[i] == '\r';
    assert (s + t)[i] == '\r';
  }

  lemma LongFitsExtend(s: string, t: string)
    requires '\r' in s
    ensures '\r' in s + t
    ensures LongFits(s + t) == LongFits(s)
  {
    FitsExtend(0, s, t);
    if s[0] == '-' || s[0] == '+' {
      assert (s + t)[1..] == s[1..] + t;
      FitsExtend(0, s[1..], t);
    }
  }

  lemma {:induction false} FitsDec(n: nat, rest: string)
    requires '\r' in rest
    ensures '\r' in Dec(n) + rest
    ensures Fits(0, Dec(n) + rest) <==> n <= LLONG_MAX && Fits(n, rest)
  {
    DecStep(n);
    hide *;
    if n < 10 {
      FitsStep(0, n, rest);
    } else {
      var q, d := n / 10, n % 10;
      FitsStep(q, d, rest);
      FitsDec(q, [Digit(d)] + rest);
      Assoc3(Dec(q), [Digit(d)], rest);
    }
  }

  lemma FitsStep(v: nat, d: nat, rest: string)
    requires '\r' in rest && d < 10
    ensures '\r' in [Digit(d)] + rest
    ensures Fits(v, [Digit(d)] + rest) <==> v * 10 + d <= LLONG_MAX && Fits(v * 10 + d, rest)
  {
    var s := [Digit(d)] + rest;
    assert s[1..] == rest && s[0] == Digit(d);
  }

  /** One turn of the digit loop. */
  lemma DigitTurn(v: int, s: string)
    requires '\r' in s && s[0] != '\r'
    ensures '\r' in s[1..]
    ensures var dec := DigitValue(s[0]);
            if 0 <= dec < 10
            then Accumulate(v, s) == Accumulate(v * 10 + dec, s[1..]) && (Fits(v, s) ==> v * 10 + dec <= LLONG_MAX && Fits(v * 10 + dec, s[1..]))
            else Accumulate(v, s) == None
  {}

  /** A printed number can be read back without overflow exactly when it is above the
      smallest long long and not above the largest. */
  lemma ReadBackFits(v: int, rest: string)
    ensures '\r' in DecInt(v) + ("\r" + rest)
    ensures LongFits(DecInt(v) + ("\r" + rest)) <==> -LLONG_MAX <= v <= LLONG_MAX
  {
    hide Dec;
    var tail := "\r" + rest;
    assert tail[0] == '\r';
    hide Fits;
    FitsAtEnd(if v < 0 then -v else v, tail);
    FitsDec(if v < 0 then -v else v, tail);
    if v < 0 {
      Assoc3("-", Dec(-v), tail);
      assert ("-" + (Dec(-v) + tail))[1..] == Dec(-v) + tail;
    } else {
      assert (DecInt(v) + tail)[0] == Dec(v)[0];
    }
  }

  lemma FitsAtEnd(v: int, s: string)
    requires '\r' in s && s[0] == '\r'
    ensures Fits(v, s)
  {}

  lemma AccumulateEnd(v: int, s: string)
    requires '\r' in s && s[0] == '\r'
    ensures Accumulate(v, s) == Some(v)
  {}

  newtype int64 = v: int | -0x8000_0000_0000_0000 <= v <= 0x7fff_ffff_ffff_ffff

  /** readLongLong: reads the text at `from`, which the caller knows holds a CR. The
      accumulator is a long long, and the text is one on which it does not overflow. */
  method ReadLongLong(buf: array<char>, from: nat) returns (value: int)
    requires from <= buf.Length && '\r' in buf[from..] && LongFits(buf[from..])
    ensures value == LongLong(buf[from..])
    ensures -LLONG_MAX <= value <= LLONG_MAX
  {
    var p, mult: int := from, 1;
    var v: int64 := 0;
    if buf[p] == '-' {
      mult := -1;
      p := p + 1;
    } else if buf[p] == '+' {
      p := p + 1;
    }
    ghost var start := p;
    assert '\r' in buf[p..];
    assert buf[p..] == if p > from then buf[from..][1..] else buf[from..];
    hide Fits, Accumulate;
    while buf[p] != '\r'
      invariant start <= p < buf.Length && '\r' in buf[p..]
      invariant v >= 0 && Fits(v as int, buf[p..])
      invariant Accumulate(v as int, buf[p..]) == Accumulate(0, buf[start..])
      decreases buf.Length - p
    {
      assert buf[p..][1..] == buf[p + 1..];
      DigitTurn(v as int, buf[p..]);
      var dec := DigitValue(buf[p]);
      if 0 <= dec < 10 {
        v := v * 10;
        v := v + dec as int64;
      } else {
        return -1;
      }
      p := p + 1;
    }
    AccumulateEnd(v as int, buf[p..]);
    value := mult * v as int;
  }

  // ------------------------------------------------------------------------
  // countDigits, sdsull2str, sdsll2str

  lemma DecFour(v: nat)
    requires v >= 10000
    ensures |Dec(v)| == |Dec(v / 10000)| + 4
  {
    var a, b, c := v / 10, v / 100, v / 1000;
    assert a / 10 == b && b / 10 == c && c / 10 == v / 10000;
    assert |Dec(v)| == |Dec(a)| + 1;
    assert |Dec(a)| == |Dec(b)| + 1;
    assert |Dec(b)| == |Dec(c)| + 1;
  }

  method CountDigits(n: nat) returns (result: nat)
    ensures result == |Dec(n)|
  {
    var v := n;
    result := 1;
    while true
      invariant result + |Dec(v)| == |Dec(n)| + 1
      decreases v
    {
      if v < 10 { return result; }
      assert v < 100 ==> |Dec(v / 10)| == 1;
      if v < 100 { return result + 1; }
      assert v / 10 / 10 == v / 100;
      assert v < 1000 ==> |Dec(v / 10)| == 2;
      if v < 1000 { return result + 2; }
      assert v / 100 / 10 == v / 1000;
      assert v < 10000 ==> |Dec(v / 100)| == 2 && |Dec(v / 10)| == 3;
      if v < 10000 { return result + 3; }
      DecFour(v);
      v := v / 10000;
      result := result + 4;
    }
  }

  /** The do-while digit loop shared by both printers: digits of v, last first. */
  method PutDigits(s: array<char>, n: nat) returns (p: nat)
    requires |Dec(n)| < s.Length
    modifies s
    ensures p == |Dec(n)|
    ensures Reversed(s[..p]) == Dec(n)
  {
    var v := n;
    s[0] := Digit(v % 10);
    v := v / 10;
    p := 1;
    assert Reversed(s[..p]) == [Digit(n % 10)];
    while v != 0
      invariant 1 <= p < s.Length
      invariant Dec(n) == (if v == 0 then "" else Dec(v)) + Reversed(s[..p])
    {
      ghost var before := s[..p];
      s[p] := Digit(v % 10);
      v := v / 10;
      p := p + 1;
      assert s[..p] == before + [s[p - 1]];
      assert Reversed(s[..p]) == [s[p - 1]] + Reversed(before);
    }
  }

  method ReverseInPlace(s: array<char>, l: nat)
    requires l <= s.Length
    modifies s
    ensures s[..l] == Reversed(old(s[..l]))
    ensures s[l..] == old(s[l..])
  {
    var i, j: int := 0, l - 1;
    while i < j
      invariant 0 <= i <= j + 1 <= l && i + j == l - 1
      invariant forall k :: 0 <= k < i || j < k < l ==> s[k] == old(s[l - 1 - k])
      invariant forall k :: i <= k <= j || l <= k < s.Length ==> s[k] == old(s[k])
    {
      s[i], s[j] := s[j], s[i];
      i, j := i + 1, j - 1;
    }
  }

  /** sdsull2str into a buffer of SDS_LLSTR_SIZE bytes. */
  method Ull2Str(s: array<char>, v: nat) returns (l: nat)
    requires v <= ULLONG_MAX && s.Length == LLSTR_SIZE
    modifies s
    ensures l == |Dec(v)| < LLSTR_SIZE
    ensures s[..l] == Dec(v) && s[l] == NUL
  {
    LongWidth(v);
    l := PutDigits(s, v);
    ghost var digits := s[..l];
    s[l] := NUL;
    assert s[..l] == digits;
    ReverseInPlace(s, l);
    assert s[l..][0] == NUL;
    assert s[..l] == Dec(v);
  }

  /** sdsll2str; the minimum long long is out because the C negation overflows there. */
  method Ll2Str(s: array<char>, value: int) returns (l: nat)
    requires -LLONG_MAX <= value <= LLONG_MAX && s.Length == LLSTR_SIZE
    modifies s
    ensures l == |DecInt(value)| < LLSTR_SIZE
    ensures s[..l] == DecInt(value) && s[l] == NUL
  {
    var v := if value < 0 then -value else value;
    LongWidth(v);
    l := PutDigits(s, v);
    ghost var digits := s[..l];
    if value < 0 {
      s[l] := '-';
      l := l + 1;
      assert s[..l] == digits + ['-'];
      assert Reversed(s[..l]) == ['-'] + Reversed(digits);
    }
    ghost var text := s[..l];
    s[l] := NUL;
    assert s[..l] == text;
    ReverseInPlace(s, l);
    assert s[l..][0] == NUL;
    assert s[..l] == DecInt(value);
  }
}
