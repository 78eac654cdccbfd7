/** Quote doubling (_fix_string of sorm.c).  The string is copied backwards, so that source
    and destination may be the same buffer. */
module Quoting {

  const QUOTE := '\''
  const NUL := '\0'

  /** Underrun: the backward loop has come to write before the buffer. */
  datatype Outcome = SormOk | SormTooLong | Underrun

  /** Every quote symbol becomes two. */
  function Doubled(s: string): (d: string)
    ensures |d| >= |s|
  {
    if s == "" then ""
    else Doubled(s[..|s| - 1]) + if s[|s| - 1] == QUOTE then [QUOTE, QUOTE] else [s[|s| - 1]]
  }

  /** Reads a doubled string: two quote symbols stand for one. */
  function Undoubled(s: string): string
    decreases |s|
  {
    if s == "" then ""
    else if s[0] == QUOTE && |s| > 1 && s[1] == QUOTE then [QUOTE] + Undoubled(s[2..])
    else [s[0]] + Undoubled(s[1..])
  }

  lemma {:induction false} UndoubledPrefix(s: string, rest: string)
    ensures Undoubled(Doubled(s) + rest) == s + Undoubled(rest)
  {
    if s == "" {
      assert Doubled(s) + rest == rest && s + Undoubled(rest) == Undoubled(rest);
    } else {
      var front, c := s[..|s| - 1], s[|s| - 1];
      var last: string := if c == QUOTE then [QUOTE, QUOTE] else [c];
      assert Doubled(s) + rest == Doubled(front) + (last + rest);
      UndoubledPrefix(front, last + rest);
      assert (last + rest)[|last|..] == rest;
      assert Undoubled(last + rest) == [c] + Undoubled(rest);
      assert s == front + [c];
    }
  }

  /** Nothing is lost: the doubled string reads back as the source. */
  lemma RoundTrip(s: string)
    ensures Undoubled(Doubled(s)) == s
  {
    UndoubledPrefix(s, "");
    assert Doubled(s) + "" == Doubled(s) && s + Undoubled("") == s;
  }

  function Quotes(s: string): nat {
    if s == "" then 0 else Quotes(s[..|s| - 1]) + if s[|s| - 1] == QUOTE then 1 else 0
  }

  lemma {:induction false} DoubledLength(s: string)
    ensures |Doubled(s)| == |s| + Quotes(s)
  {
    if s != "" { DoubledLength(s[..|s| - 1]); }
  }

  /** What the counting loop arrives at: it looks at a character only after stepping past the one
      before, so the first is never counted. */
  function CountedLength(s: string): nat {
    |s| + if s == "" then 0 else Quotes(s[1..])
  }

  lemma {:induction false} QuotesTail(s: string)
    requires s != ""
    ensures Quotes(s) == Quotes(s[1..]) + if s[0] == QUOTE then 1 else 0
  {
    if |s| == 1 {
      assert s[1..] == "" && s[..0] == "";
    } else {
      assert s[1..][..|s| - 2] == s[..|s| - 1][1..];
      QuotesTail(s[..|s| - 1]);
    }
  }

  /** The count is right exactly for strings that do not start with a quote symbol, and one short for
      the others: the backward loop would then reach index -1. */
  lemma CountedExactly(s: string)
    ensures CountedLength(s) == |Doubled(s)| <==> s == "" || s[0] != QUOTE
    ensures s != "" && s[0] == QUOTE ==> CountedLength(s) == |Doubled(s)| - 1
    ensures CountedLength("'a") == 2 && |Doubled("'a")| == 3
  {
    DoubledLength(s);
    if s != "" { QuotesTail(s); }
    assert Quotes("a") == 0 && "'a"[1..] == "a";
    DoubledLength("'a");
    QuotesTail("'a");
  }

  /** The characters before the terminator. */
  ghost predicate IsCString(a: array<char>, n: nat)
    reads a
  {
    n < a.Length && a[n] == NUL && forall i :: 0 <= i < n ==> a[i] != NUL
  }

  /** The quotes counted when the loop stands at character `k`: those from the second up to it. */
  ghost function CountedAt(s: string, k: nat): nat
    requires k <= |s|
  {
    if k == 0 then 0 else Quotes(s[1..if k < |s| then k + 1 else k])
  }

  lemma CountedNext(s: string, k: nat)
    requires k < |s|
    ensures CountedAt(s, k + 1) == CountedAt(s, k) + if k + 1 < |s| && s[k + 1] == QUOTE then 1 else 0
  {
    if k + 1 < |s| {
      var w := s[1..k + 2];
      assert |w| == k + 1 && w[..|w| - 1] == s[1..k + 1] && w[|w| - 1] == s[k + 1];
    } else {
      assert k == 0 ==> s[1..1] == "";
    }
  }

  method CountFixed(str: array<char>, ghost n: nat) returns (stringLen: nat, fixedLen: nat)
    requires IsCString(str, n)
    ensures stringLen == n && fixedLen == CountedLength(str[..n])
  {
    hide CountedAt;
    ghost var s := str[..n];
    stringLen, fixedLen := 0, 0;
    CountedEnds(s);
    while str[stringLen] != NUL
      invariant stringLen <= n && fixedLen == CountedAt(s, stringLen)
      decreases n - stringLen
    {
      CountedNext(s, stringLen);
      stringLen := stringLen + 1;
      if str[stringLen] == QUOTE {
        fixedLen := fixedLen + 1;
      }
    }
    fixedLen := fixedLen + stringLen;
  }

  lemma CountedEnds(s: string)
    ensures CountedAt(s, 0) == 0 && CountedLength(s) == |s| + CountedAt(s, |s|)
  {
    if s != "" { assert s[1..|s|] == s[1..]; }
  }

  /** The part of the doubled string that the character at `k` accounts for. */
  lemma DoubledAt(t: string, k: nat)
    requires k < |t|
    ensures Doubled(t[..k + 1]) == Doubled(t[..k]) + if t[k] == QUOTE then [QUOTE, QUOTE] else [t[k]]
    ensures Doubled(t[..k + 1]) <= Doubled(t)
  {
    assert t[..k + 1][..k] == t[..k];
    DoubledPrefix(t, k + 1);
  }

  lemma {:induction false} DoubledPrefix(t: string, k: nat)
    requires k <= |t|
    ensures Doubled(t[..k]) <= Doubled(t)
  {
    if k < |t| {
      DoubledPrefix(t[..|t| - 1], k);
      assert t[..|t| - 1][..k] == t[..k];
    } else {
      assert t[..k] == t;
    }
  }

  lemma DoubledNul(s: string)
    ensures Doubled(s + [NUL]) == Doubled(s) + [NUL]
  {
    assert (s + [NUL])[..|s|] == s;
  }

  /** In place or not: the destination gets the doubled string and a terminator, or, when they do
      not fit, nothing.  A string that starts with a quote symbol is measured one short: unless even that is
      refused, the buffer gets all but the first of the doubled quotes, which is written before it. */
  method FixString(str: array<char>, fixed: array<char>, len: int, ghost n: nat) returns (rc: Outcome)
    requires IsCString(str, n) && len <= fixed.Length
    modifies fixed
    ensures rc == SormTooLong <==> CountedLength(old(str[..n])) >= len
    ensures rc == Underrun <==> n > 0 && old(str[0]) == QUOTE && CountedLength(old(str[..n])) < len
    ensures n == 0 || old(str[0]) != QUOTE ==> rc == if |Doubled(old(str[..n]))| >= len then SormTooLong else SormOk
    ensures rc == SormTooLong ==> fixed[..] == old(fixed[..])
    ensures rc == SormOk ==> fixed[..|Doubled(old(str[..n]))| + 1] == Doubled(old(str[..n])) + [NUL]
    ensures rc == Underrun ==>
              && |Doubled(old(str[..n]))| <= fixed.Length
              && fixed[..|Doubled(old(str[..n]))|] == Doubled(old(str[..n]))[1..] + [NUL]
  {
    hide Doubled;
    hide CountedLength;
    ghost var s := str[..n];
    var iter, fixedLen := CountFixed(str, n);
    CountedExactly(s);
    DoubledNul(s);
    assert n > 0 ==> s[0] == str[0];
    if fixedLen >= len {
      return SormTooLong;
    }
    ghost var t := s + [NUL];
    var underrun := CopyBack(str, fixed, t, iter, fixedLen);
    rc := if underrun then Underrun else SormOk;
  }

  /** The backward loop over the terminated string `t`, from the right place or, when `t` starts with a quote
      symbol, from one before it. */
  method CopyBack(str: array<char>, fixed: array<char>, ghost t: string, last: nat, fixedLen: nat)
    returns (underrun: bool)
    requires last + 1 == |t| <= str.Length && (forall j :: 0 <= j < |t| ==> str[j] == t[j])
    requires fixedLen + 1 + (if t[0] == QUOTE then 1 else 0) == |Doubled(t)|
    requires fixedLen + 1 <= fixed.Length
    modifies fixed
    ensures underrun <==> t[0] == QUOTE
    ensures fixed[..fixedLen + 1] == Doubled(t)[if t[0] == QUOTE then 1 else 0..]
  {
    hide Doubled;
    ghost var d, short := Doubled(t), if t[0] == QUOTE then 1 else 0;
    assert t[..last + 1] == t;
    DoubledLead(t, last + 1);
    var i, iter := fixedLen, last;
    underrun := false;
    while i >= 0
      invariant -1 <= iter <= last && i + 1 + short == |Doubled(t[..iter + 1])| && iter <= i && i + short < |d|
      invariant iter < 0 ==> short == 0
      invariant forall j :: 0 <= j <= iter ==> str[j] == t[j]
      invariant forall j :: i < j <= fixedLen ==> fixed[j] == d[j + short]
      decreases iter
    {
      Empty(t, iter + 1);
      DoubledAt(t, iter);
      DoubledLead(t, iter);
      var c := str[iter];
      fixed[i] := c;
      if c == QUOTE {
        i := i - 1;
        if i < 0 {
          underrun := true;
          break;
        }
        fixed[i] := c;
      }
      iter := iter - 1;
      i := i - 1;
    }
  }

  /** A first quote symbol makes room for every later character, and is itself the shortest prefix. */
  lemma DoubledLead(t: string, k: nat)
    requires k <= |t| && t != ""
    ensures t[0] == QUOTE ==> |Doubled(t[..k])| >= if k == 0 then 0 else k + 1
    ensures |Doubled(t[..k])| >= k && (k == 0 ==> Doubled(t[..k]) == "")
  {
    DoubledLength(t[..k]);
    if k > 0 { QuotesTail(t[..k]); }
  }

  lemma Empty(t: string, k: nat)
    requires k <= |t|
    ensures |Doubled(t[..k])| == 0 <==> k == 0
  {
  }
}
