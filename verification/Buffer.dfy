/** The growing log buffer of buf.c.  A buffer with a limit keeps what fits and lays a
    marker over the end of it.

    The ghost field `text` is everything ever written since the buffer was emptied;
    `Render` says what the buffer then holds.  Nothing else about the writes matters:
    not how they were cut, nor which of the write functions made them. */
module Buffers {
  import opened Common
  import opened Digits

  /** `s` with `marker` laid over its end; a marker longer than `s` is itself cut. */
  function Overlay(s: string, marker: string): string {
    if |marker| <= |s| then s[..|s| - |marker|] + marker else marker[..|s|]
  }

  /** What a buffer of limit `max` (0: none) holds after `text` was written to it. */
  function Render(text: string, max: nat, marker: string): string {
    if max == 0 || |text| <= max - 1 then text else Overlay(text[..max - 1], marker)
  }

  /** What a full buffer looks like, character by character: the text, but for its last characters, which are those of
      the marker. */
  ghost predicate IsCut(held: string, text: string, max: nat, marker: string) {
    && |held| == max - 1 <= |text|
    && var n := if |marker| < |held| then |marker| else |held|;
       && (forall i :: 0 <= i < |held| - n ==> held[i] == text[i])
       && (forall i :: 0 <= i < n ==> held[|held| - n + i] == marker[i])
  }

  lemma RenderMeaning(text: string, max: nat, marker: string)
    ensures max == 0 || |text| <= max - 1 ==> Render(text, max, marker) == text
    ensures max != 0 && |text| > max - 1 ==> IsCut(Render(text, max, marker), text, max, marker)
  {
  }

  ghost predicate Overflows(text: string, max: nat) { max != 0 && |text| > max - 1 }

  /** Once over the limit, nothing written later shows. */
  lemma RenderSaturates(text: string, more: string, max: nat, marker: string)
    requires Overflows(text, max)
    ensures Overflows(text + more, max)
    ensures Render(text + more, max, marker) == Render(text, max, marker)
  {
    assert (text + more)[..max - 1] == text[..max - 1];
  }

  lemma OverlayTwice(s: string, marker: string)
    ensures |Overlay(s, marker)| == |s|
    ensures Overlay(Overlay(s, marker), marker) == Overlay(s, marker)
  {
  }

  /** A write that hits the limit keeps the part for which there is room, then lays the
      marker over: that is the rendering of everything written. */
  lemma RenderCut(text: string, piece: string, max: nat, marker: string)
    requires max != 0 && |Render(text, max, marker)| + |piece| > max - 1
    requires |Render(text, max, marker)| <= max - 1
    ensures var held := Render(text, max, marker);
            Overlay(held + piece[..max - 1 - |held|], marker) == Render(text + piece, max, marker)
    ensures Overflows(text + piece, max)
  {
    if Overflows(text, max) {
      RenderSaturates(text, piece, max, marker);
      OverlayTwice(text[..max - 1], marker);
      var held := Render(text, max, marker);
      assert held + piece[..0] == held;
    } else {
      assert text + piece[..max - 1 - |text|] == (text + piece)[..max - 1];
    }
  }

  /** A write for which there is room is kept whole. */
  lemma RenderFits(text: string, piece: string, max: nat, marker: string)
    requires max == 0 || |Render(text, max, marker)| + |piece| <= max - 1
    ensures Render(text + piece, max, marker) == Render(text, max, marker) + piece
    ensures piece == "" || !Overflows(text + piece, max)
  {
    if Overflows(text, max) {
      OverlayTwice(text[..max - 1], marker);
      assert text + piece == text && Render(text, max, marker) + piece == Render(text, max, marker);
    }
  }

  function Spaces(n: nat): string { seq(n, _ => ' ') }

  /** `str` cut to `outWidth` (0: uncut), then filled with spaces to `inWidth` on the right or the left. */
  function Adjusted(str: string, left: bool, inWidth: nat, outWidth: nat): string {
    var source := if outWidth == 0 || |str| < outWidth then str else str[..outWidth];
    var space := Spaces(if |source| >= inWidth then 0 else inWidth - |source|);
    if left then source + space else space + source
  }

  /** What an adjusted text looks like: the beginning of `str`, as much of it as may be shown, at one end, and blanks up
      to the width on the other. */
  ghost predicate IsAdjusted(p: string, str: string, left: bool, inWidth: nat, outWidth: nat) {
    var n := if outWidth == 0 || |str| < outWidth then |str| else outWidth;
    && |p| == (if inWidth > n then inWidth else n)
    && (left ==> (forall i :: 0 <= i < n ==> p[i] == str[i]) && (forall i :: n <= i < |p| ==> p[i] == ' '))
    && (!left ==> (forall i :: 0 <= i < n ==> p[|p| - n + i] == str[i]))
    && (!left ==> (forall i :: 0 <= i < |p| - n ==> p[i] == ' '))
  }

  lemma AdjustedMeaning(str: string, left: bool, inWidth: nat, outWidth: nat)
    ensures IsAdjusted(Adjusted(str, left, inWidth, outWidth), str, left, inWidth, outWidth)
  {
  }

  /** The characters of all chunks in order. */
  function Concat(chunks: seq<string>): string {
    if chunks == [] then "" else Concat(chunks[..|chunks| - 1]) + chunks[|chunks| - 1]
  }

  lemma {:induction false} ConcatJoin(a: seq<string>, b: seq<string>, x: string)
    ensures Concat([]) == "" && Concat([x]) == x && Concat(a + b) == Concat(a) + Concat(b)
  {
    assert [x][..0] == [] && Concat([x]) == "" + x;
    if b == [] {
      assert a + b == a;
    } else {
      ConcatJoin(a, b[..|b| - 1], x);
      assert (a + b)[..|a + b| - 1] == a + b[..|b| - 1];
    }
  }

  lemma TakeOfConcat(a: string, b: string, n: nat)
    requires n <= |a| + |b|
    ensures (a + b)[..n] == if n <= |a| then a[..n] + "" else a + b[..n - |a|]
  {
  }

  class Buffer {
    var data: array<char>
    var tail: nat
    const sizeMax: nat
    const marker: string

    ghost var text: string

    /** start <= tail <= end, the last cell being kept for the seal. */
    ghost predicate Valid()
      reads this, data
    {
      && tail < data.Length
      && (sizeMax != 0 ==> data.Length <= sizeMax)
      && data[..tail] == Render(text, sizeMax, marker)
    }

    function Contents(): string
      requires tail <= data.Length
      reads this, data
    {
      data[..tail]
    }

    constructor (sizeMin: nat, sizeMax: nat, marker: string)
      requires sizeMin > 0 && (sizeMax == 0 || sizeMin <= sizeMax)
      ensures Valid() && fresh(data) && text == "" && this.sizeMax == sizeMax && this.marker == marker
    {
      data := new char[sizeMin];
      tail := 0;
      this.sizeMax, this.marker := sizeMax, marker;
      text := "";
    }

    static method New(sizeMin: nat, sizeMax: nat, marker: string) returns (b: Buffer?)
      ensures b == null <==> sizeMin == 0 || (sizeMax != 0 && sizeMax < sizeMin) || |marker| > MAXLEN_PATH
      ensures b != null ==>
                b.Valid() && fresh(b) && fresh(b.data) && b.text == "" && b.sizeMax == sizeMax && b.marker == marker
    {
      if sizeMin == 0 {
        return null;
      }
      if sizeMax != 0 && sizeMax < sizeMin {
        return null;
      }
      if |marker| > MAXLEN_PATH {
        return null;
      }
      b := new Buffer(sizeMin, sizeMax, marker);
    }

    /** memcpy; a memset of n characters is a copy of n equal ones. */
    method Copy(at: nat, s: string)
      requires at + |s| <= data.Length
      modifies data
      ensures data[..at] == old(data[..at]) && data[at..at + |s|] == s
      ensures data[at + |s|..] == old(data[at + |s|..])
    {
      forall i | 0 <= i < |s| {
        data[at + i] := s[i];
      }
      assert data[at..at + |s|] == s;
    }

    method Truncate()
      requires tail <= data.Length
      modifies data
      ensures data[..tail] == Overlay(old(data[..tail]), marker)
      ensures var n := if |marker| < tail then |marker| else tail;
              && (forall i :: 0 <= i < tail - n ==> data[i] == old(data[i]))
              && (forall i :: 0 <= i < n ==> data[tail - n + i] == marker[i])
    {
      if marker == "" {
        return;
      }
      var p := tail - |marker|;
      if p < 0 {
        p := 0;
      }
      var len := tail - p;
      Copy(p, marker[..len]);
      assert data[..tail] == data[..p] + data[p..p + len];
    }

    /** Makes room; 1 when the limit is in the way, the buffer then being as long as it may. */
    method Resize(increment: nat) returns (rc: int)
      requires Valid() && increment > 0
      modifies this`data
      ensures Valid() && (data == old(data) || fresh(data)) && data[..tail] == old(data[..tail])
      ensures rc == if sizeMax == 0 || old(data.Length) + increment <= sizeMax then 0 else 1
      ensures rc == 0 ==> data.Length >= old(data.Length) + increment
      ensures rc == 1 ==> data.Length == sizeMax
    {
      rc := 0;
      if sizeMax != 0 && data.Length >= sizeMax {
        return 1;
      }
      var newSize;
      if sizeMax == 0 {
        newSize := data.Length + 3 * increment / 2;
      } else if data.Length + increment <= sizeMax {
        newSize := data.Length + increment;
      } else {
        newSize := sizeMax;
        rc := 1;
      }
      var start := data;
      var p := new char[newSize];
      forall i | 0 <= i < start.Length {
        p[i] := start[i];
      }
      data := p;
      assert data[..tail] == start[..tail];
    }

    /** Ends a write of `piece` whose first characters, as many as there is room for, are in place. */
    method CutShort(ghost piece: string)
      requires tail < data.Length == sizeMax && |Render(text, sizeMax, marker)| == tail
      requires tail + |piece| > sizeMax - 1
      requires data[..sizeMax - 1] == Render(text, sizeMax, marker) + piece[..sizeMax - 1 - tail]
      modifies this`tail, this`text, data
      ensures Valid() && text == old(text) + piece && Overflows(text, sizeMax)
    {
      RenderCut(text, piece, sizeMax, marker);
      tail := data.Length - 1;
      Truncate();
      text := text + piece;
    }

    /** Ends a write of `piece` that is in place as a whole. */
    method Advance(len: nat, ghost piece: string)
      requires tail + len < data.Length && len == |piece| && |Render(text, sizeMax, marker)| == tail
      requires sizeMax != 0 ==> data.Length <= sizeMax
      requires data[..tail + len] == Render(text, sizeMax, marker) + piece
      modifies this`tail, this`text
      ensures Valid() && text == old(text) + piece && (piece == "" || !Overflows(text, sizeMax))
    {
      RenderFits(text, piece, sizeMax, marker);
      tail := tail + len;
      text := text + piece;
    }

    method Append(str: string) returns (rc: int)
      requires Valid()
      modifies this, data
      ensures Valid() && (data == old(data) || fresh(data))
      ensures text == old(text) + str
      ensures rc == if str != "" && Overflows(text, sizeMax) then 1 else 0
    {
      var end := data.Length - 1;
      if tail + |str| > end {
        rc := Resize(|str| - (end - tail));
        if rc > 0 {
          FillUp(str);
          return 1;
        }
      }
      Copy(tail, str);
      assert data[..tail + |str|] == data[..tail] + data[tail..tail + |str|];
      Advance(|str|, str);
      return 0;
    }

    /** The append at the limit: what there is room for, then the marker. */
    method FillUp(str: string)
      requires Valid() && data.Length == sizeMax && tail + |str| > sizeMax - 1
      modifies this`tail, this`text, data
      ensures Valid() && text == old(text) + str && Overflows(text, sizeMax)
    {
      var lenLeft := data.Length - 1 - tail;
      Copy(tail, str[..lenLeft]);
      assert data[..tail + lenLeft] == data[..tail] + data[tail..tail + lenLeft];
      CutShort(str);
    }

    method WriteTwo(first: string, second: string)
      requires tail + |first| + |second| <= data.Length
      modifies data
      ensures data[..tail + |first| + |second|] == old(data[..tail]) + (first + second)
    {
      var t, m := tail, tail + |first|;
      Copy(t, first);
      assert data[..m] == data[..t] + data[t..m];
      Copy(m, second);
      assert data[..m + |second|] == data[..m] + data[m..m + |second|];
    }

    /** What the number writers and the adjusting append have in common: two adjacent parts
        (padding and text, in either order), which a limit cuts from the end. */
    method AppendTwo(first: string, second: string) returns (rc: int)
      requires Valid()
      modifies this, data
      ensures Valid() && (data == old(data) || fresh(data))
      ensures text == old(text) + (first + second)
      ensures rc == if first + second != "" && Overflows(text, sizeMax) then 1 else 0
    {
      var outLen := |first| + |second|;
      if tail + outLen > data.Length - 1 {
        rc := Resize(outLen - (data.Length - 1 - tail));
        if rc > 0 {
          var lenLeft := data.Length - 1 - tail;
          TakeOfConcat(first, second, lenLeft);
          if lenLeft <= |first| {
            WriteTwo(first[..lenLeft], "");
          } else {
            WriteTwo(first, second[..lenLeft - |first|]);
          }
          CutShort(first + second);
          return 1;
        }
      }
      WriteTwo(first, second);
      Advance(outLen, first + second);
      return 0;
    }

    method EmitNumber(digits: string, width: nat) returns (rc: int)
      requires Valid()
      modifies this, data
      ensures Valid() && (data == old(data) || fresh(data))
      ensures text == old(text) + if width > |digits| then Zeros(width - |digits|) + digits else digits
      ensures rc == if (width > 0 || digits != "") && Overflows(text, sizeMax) then 1 else 0
    {
      var numLen := |digits|;
      var zeroLen := if width > numLen then width - numLen else 0;
      assert Zeros(0) + digits == digits;
      rc := AppendTwo(Zeros(zeroLen), digits);
    }

    method AdjustAppend(str: string, left: bool, inWidth: nat, outWidth: nat) returns (rc: int)
      requires Valid()
      modifies this, data
      ensures Valid() && (data == old(data) || fresh(data))
      ensures text == old(text) + Adjusted(str, left, inWidth, outWidth)
      ensures IsAdjusted(text[|old(text)|..], str, left, inWidth, outWidth)
      ensures rc == if Adjusted(str, left, inWidth, outWidth) != "" && Overflows(text, sizeMax) then 1 else 0
    {
      hide IsAdjusted, Render;
      var sourceLen := if outWidth == 0 || |str| < outWidth then |str| else outWidth;
      var spaceLen := 0;
      if !(inWidth == 0 || sourceLen >= inWidth) {
        spaceLen := inWidth - sourceLen;
      }
      assert str[..|str|] == str;
      AdjustedMeaning(str, left, inWidth, outWidth);
      if left {
        rc := AppendTwo(str[..sourceLen], Spaces(spaceLen));
      } else {
        rc := AppendTwo(Spaces(spaceLen), str[..sourceLen]);
      }
      assert text[|old(text)|..] == Adjusted(str, left, inWidth, outWidth);
    }

    method PrintfDec32(ui32: nat, width: nat) returns (rc: int)
      requires Valid() && ui32 <= MAX_UINT32
      modifies this, data
      ensures Valid() && (data == old(data) || fresh(data))
      ensures text == old(text) + Padded(ui32, Dec, width)
      ensures rc == if Overflows(text, sizeMax) then 1 else 0
    {
      TextDenotes(ui32, Dec);
      var digits := Decimal32(ui32);
      rc := EmitNumber(digits, width);
    }

    method PrintfDec64(ui64: nat, width: nat) returns (rc: int)
      requires Valid() && ui64 < 0x1_0000_0000_0000_0000
      modifies this, data
      ensures Valid() && (data == old(data) || fresh(data))
      ensures text == old(text) + Padded(ui64, Dec, width)
      ensures rc == if Overflows(text, sizeMax) then 1 else 0
    {
      TextDenotes(ui64, Dec);
      var digits := Decimal64(ui64);
      rc := EmitNumber(digits, width);
    }

    method PrintfHex(ui32: nat, width: nat) returns (rc: int)
      requires Valid() && ui32 <= MAX_UINT32
      modifies this, data
      ensures Valid() && (data == old(data) || fresh(data))
      ensures text == old(text) + Padded(ui32, Hex, width)
      ensures rc == if Overflows(text, sizeMax) then 1 else 0
    {
      TextDenotes(ui32, Hex);
      var digits := Hexadecimal(ui32);
      rc := EmitNumber(digits, width);
    }

    /** A writer that stops because the buffer is full loses nothing that could still show:
        the buffer already holds what it would hold had the writer reached its goal. */
    ghost method Abandon(goal: string)
      requires Valid() && Overflows(text, sizeMax) && text <= goal
      modifies this`text
      ensures Valid() && text == goal && Overflows(text, sizeMax)
    {
      RenderSaturates(text, goal[|text|..], sizeMax, marker);
      assert text + goal[|text|..] == goal;
      text := goal;
    }

    /** Any sequence of appends. */
    method AppendAll(chunks: seq<string>)
      requires Valid()
      modifies this, data
      ensures Valid() && text == old(text) + Concat(chunks)
      ensures Contents() == Render(old(text) + Concat(chunks), sizeMax, marker)
      ensures !Overflows(text, sizeMax) ==> Contents() == text
      ensures Overflows(text, sizeMax) ==> IsCut(Contents(), text, sizeMax, marker)
    {
      for i := 0 to |chunks|
        invariant Valid() && (data == old(data) || fresh(data))
        invariant text == old(text) + Concat(chunks[..i])
      {
        var _ := Append(chunks[i]);
        assert chunks[..i + 1][..i] == chunks[..i];
      }
      assert chunks[..|chunks|] == chunks;
      RenderMeaning(text, sizeMax, marker);
    }
  }

  /** However a text is cut, a buffer ends up the same: the whole of it, or its first
      characters under the marker. */
  method CutsDoNotMatter(sizeMin: nat, sizeMax: nat, marker: string, sizeMin': nat, chunks: seq<string>,
                         chunks': seq<string>)
    returns (held: string, held': string)
    requires 0 < sizeMin && 0 < sizeMin' && (sizeMax == 0 || (sizeMin <= sizeMax && sizeMin' <= sizeMax))
    requires |marker| <= MAXLEN_PATH
    requires Concat(chunks) == Concat(chunks')
    ensures held == held'
    ensures sizeMax == 0 || |Concat(chunks)| <= sizeMax - 1 ==> held == Concat(chunks)
    ensures sizeMax != 0 && |Concat(chunks)| > sizeMax - 1 ==> IsCut(held, Concat(chunks), sizeMax, marker)
  {
    var b := new Buffer(sizeMin, sizeMax, marker);
    b.AppendAll(chunks);
    held := b.Contents();
    var b' := new Buffer(sizeMin', sizeMax, marker);
    b'.AppendAll(chunks');
    held' := b'.Contents();
  }
}
