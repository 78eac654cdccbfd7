/** The digit loops of buf.c: a number is written backwards into a scratch array of
    fixed length, then padded with zeros on the left up to a width. */
module Digits {

  /** sizeof("-2147483648") - 1 and sizeof("-9223372036854775808") - 1 */
  const INT32_LEN := 11
  const INT64_LEN := 20
  const MAX_UINT32 := 0xffff_ffff

  const HEX := "0123456789abcdef"

  datatype Base = Dec | Hex {
    function Div(n: nat): nat { if Dec? then n / 10 else n / 16 }
    function Mod(n: nat): (d: nat)
      ensures d < 16 && (Dec? ==> d < 10)
    {
      if Dec? then n % 10 else n % 16
    }
    function Shift(n: nat): nat { if Dec? then n * 10 else n * 16 }
  }

  function DigitChar(d: nat): char
    requires d < 16
  {
    if d < 10 then '0' + d as char else 'a' + (d - 10) as char
  }

  function DigitValue(c: char): nat {
    if '0' <= c <= '9' then c as nat - '0' as nat
    else if 'a' <= c <= 'f' then c as nat - 'a' as nat + 10
    else 0
  }

  predicate IsDigit(c: char) { '0' <= c <= '9' }

  predicate IsDigitOf(c: char, b: Base) { IsDigit(c) || (b.Hex? && 'a' <= c <= 'f') }

  /** The table the hexadecimal loop indexes. */
  lemma HexTable(d: nat)
    requires d < 16
    ensures HEX[d] == DigitChar(d)
  {
    assert HEX == ['0', '1', '2', '3', '4', '5', '6', '7', '8', '9', 'a', 'b', 'c', 'd', 'e', 'f'];
  }

  /** The number a digit string denotes, most significant digit first. */
  function Value(ds: string, b: Base): nat {
    if ds == [] then 0 else b.Shift(Value(ds[..|ds| - 1], b)) + DigitValue(ds[|ds| - 1])
  }

  /** The shortest digit string for `n`. */
  function Text(n: nat, b: Base): string
    decreases n
  {
    (if b.Div(n) == 0 then "" else Text(b.Div(n), b)) + [DigitChar(b.Mod(n))]
  }

  function Zeros(n: nat): string { seq(n, _ => '0') }

  /** `n` in at least `width` characters. */
  function Padded(n: nat, b: Base, width: nat): string {
    var t := Text(n, b);
    if width > |t| then Zeros(width - |t|) + t else t
  }

  lemma {:induction false} ValueSnoc(ds: string, c: char, b: Base)
    ensures Value(ds + [c], b) == b.Shift(Value(ds, b)) + DigitValue(c)
  {
    assert (ds + [c])[..|ds|] == ds;
  }

  /** Positional notation to the base ten or sixteen. */
  lemma {:induction false} ValueMeaning(ds: string, d: nat)
    requires d < 16
    ensures Value("", Dec) == 0 == Value("", Hex)
    ensures d < 10 ==> Value(ds + ['0' + d as char], Dec) == 10 * Value(ds, Dec) + d
    ensures d < 10 ==> Value(ds + ['0' + d as char], Hex) == 16 * Value(ds, Hex) + d
    ensures d >= 10 ==> Value(ds + ['a' + (d - 10) as char], Hex) == 16 * Value(ds, Hex) + d
  {
    var c := if d < 10 then '0' + d as char else 'a' + (d - 10) as char;
    ValueSnoc(ds, c, Dec);
    ValueSnoc(ds, c, Hex);
  }

  lemma DivMod(n: nat, b: Base)
    ensures b.Shift(b.Div(n)) + b.Mod(n) == n
    ensures b.Div(n) == 0 ==> b.Mod(n) == n
    ensures DigitValue(DigitChar(b.Mod(n))) == b.Mod(n)
    ensures DigitChar(b.Mod(n)) == '0' ==> b.Mod(n) == 0
    ensures IsDigitOf(DigitChar(b.Mod(n)), b)
  {
  }

  /** The digits denote the number. */
  lemma {:induction false} TextDenotes(n: nat, b: Base)
    ensures |Text(n, b)| > 0 && Value(Text(n, b), b) == n
    decreases n
  {
    DivMod(n, b);
    var q, c := b.Div(n), DigitChar(b.Mod(n));
    if q == 0 {
      assert Text(n, b) == [] + [c];
      ValueSnoc([], c, b);
    } else {
      TextDenotes(q, b);
      assert Text(n, b) == Text(q, b) + [c];
      ValueSnoc(Text(q, b), c, b);
    }
  }

  /** Digits are those of the base, and only the number zero starts with a zero. */
  lemma {:induction false} TextShape(n: nat, b: Base)
    ensures |Text(n, b)| > 0 && (n > 0 ==> Text(n, b)[0] != '0')
    ensures forall i :: 0 <= i < |Text(n, b)| ==> IsDigitOf(Text(n, b)[i], b)
    decreases n
  {
    DivMod(n, b);
    var q, c := b.Div(n), DigitChar(b.Mod(n));
    if q == 0 {
      assert Text(n, b) == [c];
    } else {
      TextShape(q, b);
      assert Text(n, b) == Text(q, b) + [c];
    }
  }

  /** The largest number with `k` digits, plus one. */
  ghost function Pow(b: Base, k: nat): nat { if k == 0 then 1 else b.Shift(Pow(b, k - 1)) }

  lemma {:induction false} TextLength(n: nat, b: Base, k: nat)
    requires k > 0 && n < Pow(b, k)
    ensures |Text(n, b)| <= k
  {
    if b.Div(n) != 0 {
      assert Pow(b, k) == b.Shift(Pow(b, k - 1));
      TextLength(b.Div(n), b, k - 1);
    }
  }

  /** Twenty decimal digits hold every 64-bit number, ten every 32-bit one; eight
      hexadecimal digits hold every 32-bit one. */
  lemma ScratchSuffices(n: nat)
    ensures n < 0x1_0000_0000_0000_0000 ==> |Text(n, Dec)| <= INT64_LEN
    ensures n < 0x1_0000_0000 ==> |Text(n, Dec)| <= 10 && |Text(n, Hex)| <= 8
  {
    assert Pow(Dec, 5) == 100000;
    assert Pow(Dec, 10) == 10_000_000_000 by { assert Pow(Dec, 7) == 10_000_000; }
    assert Pow(Dec, 15) == 1_000_000_000_000_000 by { assert Pow(Dec, 12) == 1_000_000_000_000; }
    assert Pow(Dec, 20) == 100_000_000_000_000_000_000 by { assert Pow(Dec, 17) == 100_000_000_000_000_000; }
    assert Pow(Hex, 8) == 0x1_0000_0000 by { assert Pow(Hex, 4) == 0x1_0000; }
    if n < 0x1_0000_0000_0000_0000 { TextLength(n, Dec, 20); }
    if n < 0x1_0000_0000 { TextLength(n, Dec, 10); TextLength(n, Hex, 8); }
  }

  lemma {:induction false} ValueOfZeros(k: nat, t: string, b: Base)
    ensures Value(Zeros(k) + t, b) == Value(t, b)
    decreases |t| + k
  {
    if t != [] {
      assert (Zeros(k) + t)[..k + |t| - 1] == Zeros(k) + t[..|t| - 1];
      ValueOfZeros(k, t[..|t| - 1], b);
    } else if k > 0 {
      assert Zeros(k) + t == Zeros(k);
      assert Zeros(k)[..k - 1] == Zeros(k - 1) + [];
      ValueOfZeros(k - 1, [], b);
    }
  }

  /** Zero padding changes neither the number nor, once wide enough, the length. */
  lemma {:induction false} PaddedDenotes(n: nat, b: Base, width: nat)
    ensures Value(Padded(n, b, width), b) == n
    ensures |Padded(n, b, width)| == if width > |Text(n, b)| then width else |Text(n, b)|
    ensures forall i :: 0 <= i < |Padded(n, b, width)| ==> IsDigitOf(Padded(n, b, width)[i], b)
    ensures |Padded(n, b, width)| >= width && (|Padded(n, b, width)| > width && n > 0 ==> Padded(n, b, width)[0] != '0')
  {
    TextDenotes(n, b);
    TextShape(n, b);
    if width > |Text(n, b)| {
      ValueOfZeros(width - |Text(n, b)|, Text(n, b), b);
    }
  }

  /** Distinct numbers are written differently, whatever the width. */
  lemma PaddedInjective(m: nat, n: nat, b: Base, width: nat)
    requires Padded(m, b, width) == Padded(n, b, width)
    ensures m == n
  {
    PaddedDenotes(m, b, width);
    PaddedDenotes(n, b, width);
  }

  /** How many digits a string starts with. */
  function DigitRun(s: string): (n: nat)
    ensures n <= |s|
    decreases |s|
  {
    if s == "" || !IsDigit(s[0]) then 0 else 1 + DigitRun(s[1..])
  }

  lemma {:induction false} DigitRunOf(ds: string, rest: string)
    requires forall i :: 0 <= i < |ds| ==> IsDigit(ds[i])
    requires rest != "" && !IsDigit(rest[0])
    ensures DigitRun(ds + rest) == |ds|
  {
    if ds == "" {
      assert ds + rest == rest;
    } else {
      assert (ds + rest)[1..] == ds[1..] + rest;
      DigitRunOf(ds[1..], rest);
    }
  }

  lemma {:induction false} DigitRunAll(ds: string)
    requires forall i :: 0 <= i < |ds| ==> IsDigit(ds[i])
    ensures DigitRun(ds) == |ds|
  {
    if ds != "" { DigitRunAll(ds[1..]); }
  }

  /** One turn of a backward digit loop: `done` has been written, `m` is what is left. */
  lemma {:induction false} TextStep(m: nat, b: Base, done: string, n: nat)
    requires Text(m, b) + done == Text(n, b)
    ensures b.Div(m) != 0 ==> Text(b.Div(m), b) + ([DigitChar(b.Mod(m))] + done) == Text(n, b)
    ensures b.Div(m) == 0 ==> [DigitChar(b.Mod(m))] + done == Text(n, b)
    ensures |Text(m, b)| == 1 + if b.Div(m) == 0 then 0 else |Text(b.Div(m), b)|
  {
    var q, c := b.Div(m), DigitChar(b.Mod(m));
    if q == 0 {
      assert Text(m, b) == [c];
    } else {
      assert Text(m, b) == Text(q, b) + [c];
      assert (Text(q, b) + [c]) + done == Text(q, b) + ([c] + done);
    }
  }

  method Decimal32(ui32: nat) returns (digits: string)
    requires ui32 <= MAX_UINT32
    ensures digits == Text(ui32, Dec)
  {
    hide Text, Value;
    ScratchSuffices(ui32);
    var tmp := new char[INT32_LEN + 1];
    var p, n := INT32_LEN, ui32;
    while true
      invariant |Text(n, Dec)| <= p <= INT32_LEN
      invariant Text(n, Dec) + tmp[p..INT32_LEN] == Text(ui32, Dec)
      decreases n
    {
      ghost var done := tmp[p..INT32_LEN];
      TextStep(n, Dec, done, ui32);
      p := p - 1;
      tmp[p] := (n % 10) as char + '0';
      assert tmp[p..INT32_LEN] == [DigitChar(n % 10)] + done;
      n := n / 10;
      if n == 0 { break; }
    }
    digits := tmp[p..INT32_LEN];
  }

  /** Numbers that fit 32 bits take a loop of their own; its digits are the same. */
  method Decimal64(ui64: nat) returns (digits: string)
    requires ui64 < 0x1_0000_0000_0000_0000
    ensures digits == Text(ui64, Dec)
  {
    hide Text, Value;
    ScratchSuffices(ui64);
    var tmp := new char[INT64_LEN + 1];
    var p, n := INT64_LEN, ui64;
    if ui64 <= MAX_UINT32 {
      while true
        invariant |Text(n, Dec)| <= p <= INT64_LEN
        invariant Text(n, Dec) + tmp[p..INT64_LEN] == Text(ui64, Dec)
        decreases n
      {
        ghost var done := tmp[p..INT64_LEN];
        TextStep(n, Dec, done, ui64);
        p := p - 1;
        tmp[p] := (n % 10) as char + '0';
        assert tmp[p..INT64_LEN] == [DigitChar(n % 10)] + done;
        n := n / 10;
        if n == 0 { break; }
      }
    } else {
      while true
        invariant |Text(n, Dec)| <= p <= INT64_LEN
        invariant Text(n, Dec) + tmp[p..INT64_LEN] == Text(ui64, Dec)
        decreases n
      {
        ghost var done := tmp[p..INT64_LEN];
        TextStep(n, Dec, done, ui64);
        p := p - 1;
        tmp[p] := (n % 10) as char + '0';
        assert tmp[p..INT64_LEN] == [DigitChar(n % 10)] + done;
        n := n / 10;
        if n == 0 { break; }
      }
    }
    digits := tmp[p..INT64_LEN];
  }

  /** The mask and the shift of the source are a remainder and a quotient by 16. */
  method Hexadecimal(ui32: nat) returns (digits: string)
    requires ui32 <= MAX_UINT32
    ensures digits == Text(ui32, Hex)
  {
    hide Text, Value;
    ScratchSuffices(ui32);
    var tmp := new char[INT32_LEN + 1];
    var p, n := INT32_LEN, ui32;
    while true
      invariant |Text(n, Hex)| <= p <= INT32_LEN
      invariant Text(n, Hex) + tmp[p..INT32_LEN] == Text(ui32, Hex)
      decreases n
    {
      ghost var done := tmp[p..INT32_LEN];
      TextStep(n, Hex, done, ui32);
      HexTable(n % 16);
      p := p - 1;
      tmp[p] := HEX[n % 16];
      assert tmp[p..INT32_LEN] == [DigitChar(n % 16)] + done;
      n := n / 16;
      if n == 0 { break; }
    }
    digits := tmp[p..INT32_LEN];
  }
}
