/** The level filter of rule.c and category.h: every rule carries a 256-bit map of the
    levels it outputs, and a category keeps the union of the maps of its rules. */
module Rules {
  import opened Common

  /** '=', '!', '*' and '.' */
  datatype Compare = Equal | NotEqual | Any | AtLeast

  /** A rule as far as filtering goes. */
  datatype Rule = Rule(category: string, compare: Compare, level: int, bitmap: seq<bv8>)

  const MAP_BYTES := 32

  type LevelNumber = n: nat | n < 256

  /** The decision zlog_rule_output takes for an event of level `lv`. */
  predicate Outputs(compare: Compare, level: int, lv: LevelNumber) {
    match compare
    case Any => true
    case AtLeast => lv >= level
    case Equal => lv == level
    case NotEqual => lv != level
  }

  predicate Fires(r: Rule, lv: LevelNumber) { Outputs(r.compare, r.level, lv) }

  ghost predicate SomeFires(rs: seq<Rule>, lv: LevelNumber) {
    exists i :: 0 <= i < |rs| && Fires(rs[i], lv)
  }

  lemma SomeFiresSnoc(rs: seq<Rule>, r: Rule, lv: LevelNumber)
    ensures SomeFires(rs + [r], lv) <==> SomeFires(rs, lv) || Fires(r, lv)
  {
    var all := rs + [r];
    assert all[|rs|] == r && forall i :: 0 <= i < |rs| ==> all[i] == rs[i];
    if SomeFires(all, lv) {
      var i :| 0 <= i < |all| && Fires(all[i], lv);
      assert i < |rs| ==> Fires(rs[i], lv);
    }
    if SomeFires(rs, lv) {
      var i :| 0 <= i < |rs| && Fires(rs[i], lv);
      assert Fires(all[i], lv);
    }
  }

  // ---------------------------------------------------------------- bits

  /** C division and remainder truncate towards zero. */
  function CDiv8(n: int): int { if n >= 0 then n / 8 else -(-n / 8) }
  function CMod8(n: int): int { n - 8 * CDiv8(n) }

  /** The bit a level is tested at: bytes from the left, bits from the top. */
  predicate BitSet(b: bv8, q: nat)
    requires q < 8
  {
    (b >> (7 - q)) & 1 == 1
  }

  predicate LevelSet(bitmap: seq<bv8>, lv: LevelNumber)
    requires |bitmap| == MAP_BYTES
  {
    BitSet(bitmap[lv / 8], lv % 8)
  }

  /** zlog_category_needless_level */
  predicate Needless(bitmap: seq<bv8>, lv: LevelNumber)
    requires |bitmap| == MAP_BYTES
  {
    !((bitmap[lv / 8] >> (7 - lv % 8)) & 1 == 1)
  }

  /** 1 << (7 - r), as stored in a byte. */
  function OneBit(r: int): bv8
    requires -1 <= r < 8
  {
    ((1 as bv32 << (7 - r)) & 0xff) as bv8
  }

  /** ~(0xFF << (8 - r)), as stored in a byte. */
  function LowBits(r: int): bv8
    requires -1 <= r < 8
  {
    (!(0xff as bv32 << (8 - r)) & 0xff) as bv8
  }

  lemma OneBitSet(r: int, q: nat)
    requires -1 <= r < 8 && q < 8
    ensures BitSet(OneBit(r), q) <==> q == r
    ensures BitSet(0xff & !OneBit(r), q) <==> q != r
    ensures BitSet(LowBits(r), q) <==> q >= r
    ensures !BitSet(0, q) && BitSet(0xff, q)
  {
    assert OneBit(-1) == 0 && OneBit(0) == 0x80 && OneBit(1) == 0x40 && OneBit(2) == 0x20 && OneBit(3) == 0x10;
    assert OneBit(4) == 8 && OneBit(5) == 4 && OneBit(6) == 2 && OneBit(7) == 1;
    assert LowBits(-1) == 0xff && LowBits(0) == 0xff && LowBits(1) == 0x7f && LowBits(2) == 0x3f && LowBits(3) == 0x1f;
    assert LowBits(4) == 0x0f && LowBits(5) == 7 && LowBits(6) == 3 && LowBits(7) == 1;
    if q == 0 {} else if q == 1 {} else if q == 2 {} else if q == 3 {}
    else if q == 4 {} else if q == 5 {} else if q == 6 {} else {}
  }

  lemma OrSet(a: bv8, b: bv8, q: nat)
    requires q < 8
    ensures BitSet(a | b, q) <==> BitSet(a, q) || BitSet(b, q)
  {
    if q == 0 {} else if q == 1 {} else if q == 2 {} else if q == 3 {}
    else if q == 4 {} else if q == 5 {} else if q == 6 {} else {}
  }

  // ---------------------------------------------------------------- the map of one rule

  /** The byte at index `i` of the map of a rule. */
  ghost function MapByte(compare: Compare, level: int, i: int): bv8
    requires -1 <= level <= 255
  {
    match compare
    case Any => 0xff
    case Equal => if i == CDiv8(level) then OneBit(CMod8(level)) else 0
    case NotEqual => if i == CDiv8(level) then 0xff & !OneBit(CMod8(level)) else 0xff
    case AtLeast => if i < CDiv8(level) then 0 else if i == CDiv8(level) then LowBits(CMod8(level)) else 0xff
  }

  lemma MapByteSet(compare: Compare, level: int, lv: LevelNumber)
    requires -1 <= level <= 255
    ensures BitSet(MapByte(compare, level, lv / 8), lv % 8) <==> Outputs(compare, level, lv)
  {
    hide BitSet;
    hide OneBit;
    hide LowBits;
    OneBitSet(CMod8(level), lv % 8);
  }

  /** memset on bytes from..to of a map under construction. */
  method Fill(bitmap: array<bv8>, from: nat, to: nat, b: bv8)
    requires from <= to <= bitmap.Length
    modifies bitmap
    ensures forall i :: 0 <= i < bitmap.Length ==> bitmap[i] == if from <= i < to then b else old(bitmap[i])
  {
    for k := from to to
      invariant forall i :: 0 <= i < bitmap.Length ==> bitmap[i] == if from <= i < k then b else old(bitmap[i])
    {
      bitmap[k] := b;
    }
  }

  method BuildMap(compare: Compare, level: int, bitmap: array<bv8>)
    requires -1 <= level <= 255 && bitmap.Length == MAP_BYTES
    modifies bitmap
    ensures forall i :: 0 <= i < MAP_BYTES ==> bitmap[i] == MapByte(compare, level, i)
  {
    hide OneBit;
    hide LowBits;
    var k := CDiv8(level);
    match compare {
      case Equal =>
        Fill(bitmap, 0, MAP_BYTES, 0);
        bitmap[k] := bitmap[k] | OneBit(CMod8(level));
      case NotEqual =>
        Fill(bitmap, 0, MAP_BYTES, 0xff);
        bitmap[k] := bitmap[k] & !OneBit(CMod8(level));
      case Any =>
        Fill(bitmap, 0, MAP_BYTES, 0xff);
      case AtLeast =>
        Fill(bitmap, 0, MAP_BYTES, 0);
        bitmap[k] := bitmap[k] | LowBits(CMod8(level));
        Fill(bitmap, k + 1, MAP_BYTES, 0xff);
    }
  }

  /** The map built by zlog_rule_new: bit `lv` is set exactly when the rule outputs level `lv`.
      A level of -1 stands for a name that is not in the level list. */
  method NewBitmap(compare: Compare, level: int) returns (bitmap: seq<bv8>)
    requires -1 <= level <= 255
    ensures |bitmap| == MAP_BYTES
    ensures forall lv: LevelNumber :: LevelSet(bitmap, lv) <==> Outputs(compare, level, lv)
  {
    hide BitSet;
    hide MapByte;
    hide Outputs;
    var bytes := new bv8[MAP_BYTES];
    BuildMap(compare, level, bytes);
    bitmap := bytes[..];
    forall lv: LevelNumber
      ensures LevelSet(bitmap, lv) <==> Outputs(compare, level, lv)
    {
      MapByteSet(compare, level, lv);
    }
  }

  /** What zlog_rule_new establishes of a rule. */
  ghost predicate RuleOk(r: Rule) {
    && r.category != ""
    && |r.bitmap| == MAP_BYTES
    && forall lv: LevelNumber :: LevelSet(r.bitmap, lv) <==> Fires(r, lv)
  }

  /** The part of zlog_rule_new that filtering depends on. */
  method NewRule(category: string, compare: Compare, level: int) returns (r: Rule)
    requires category != "" && -1 <= level <= 255
    ensures RuleOk(r) && r.category == category && r.compare == compare && r.level == level
  {
    hide LevelSet;
    var bitmap := NewBitmap(compare, level);
    r := Rule(category, compare, level, bitmap);
  }

  ghost predicate RulesOk(rs: seq<Rule>) {
    forall i :: 0 <= i < |rs| ==> RuleOk(rs[i])
  }

  // ---------------------------------------------------------------- which rules apply

  predicate IsWastebin(r: Rule) { r.category == "!" }

  /** strncmp(a, b, n) == 0 on strings without an embedded terminator */
  predicate SamePrefix(a: string, b: string, n: nat) {
    if n <= |a| && n <= |b| then a[..n] == b[..n] else a == b
  }

  /** zlog_rule_match_category */
  predicate Matches(r: Rule, name: string)
    requires r.category != ""
  {
    if r.category == "*" then true
    else if r.category == name then true
    else
      var len := |r.category|;
      if r.category[len - 1] == '_' then
        var len' := if |name| == len - 1 then len - 1 else len;
        SamePrefix(r.category, name, len')
      else false
  }

  /** "aa_" stands for aa and for every aa_xx, "*" for everything, any other name for itself. */
  lemma MatchesMeaning(r: Rule, name: string)
    requires r.category != ""
    ensures Matches(r, name) <==>
            || r.category == "*"
            || r.category == name
            || (r.category[|r.category| - 1] == '_' && (r.category <= name || r.category == name + "_"))
  {
    var len := |r.category|;
    if r.category[len - 1] == '_' && |name| == len - 1 {
      assert r.category == r.category[..len - 1] + "_";
      assert name[..len - 1] == name;
    }
  }

  ghost function Matching(rs: seq<Rule>, name: string): seq<Rule>
    requires RulesOk(rs)
  {
    if rs == [] then []
    else
      var rest := Matching(rs[..|rs| - 1], name);
      if Matches(rs[|rs| - 1], name) then rest + [rs[|rs| - 1]] else rest
  }

  /** The last wastebin rule, if any. */
  ghost function Wastebin(rs: seq<Rule>): seq<Rule> {
    if rs == [] then []
    else if IsWastebin(rs[|rs| - 1]) then [rs[|rs| - 1]]
    else Wastebin(rs[..|rs| - 1])
  }

  /** The rules a category is fitted with: those that match, or else the wastebin. */
  ghost function Fitted(rs: seq<Rule>, name: string): seq<Rule>
    requires RulesOk(rs)
  {
    if Matching(rs, name) != [] then Matching(rs, name) else Wastebin(rs)
  }

  /** `idx` are the places of the rules that match. */
  ghost predicate MatchPlaces(rs: seq<Rule>, name: string, idx: seq<nat>)
    requires RulesOk(rs)
  {
    Increasing(idx) && forall i: nat :: i in idx <==> i < |rs| && Matches(rs[i], name)
  }

  /** The list is the rule at the last place whose category is "!", or empty if there is none. */
  ghost predicate LastWastebin(rs: seq<Rule>, fit: seq<Rule>) {
    || (fit == [] && forall i :: 0 <= i < |rs| ==> rs[i].category != "!")
    || (exists w | 0 <= w < |rs| :: LastPlace(rs, w) && fit == [rs[w]])
  }

  ghost predicate LastPlace(rs: seq<Rule>, w: nat)
    requires w < |rs|
  {
    rs[w].category == "!" && forall i :: w < i < |rs| ==> rs[i].category != "!"
  }

  /** What a category is to be fitted with: every rule that matches its name, in order, or else the last wastebin. */
  ghost predicate IsFitting(rs: seq<Rule>, name: string, idx: seq<nat>, fit: seq<Rule>)
    requires RulesOk(rs)
  {
    && MatchPlaces(rs, name, idx)
    && (idx != [] ==> |fit| == |idx| && forall k :: 0 <= k < |idx| ==> idx[k] < |rs| && fit[k] == rs[idx[k]])
    && (idx == [] ==> LastWastebin(rs, fit))
  }

  lemma {:induction false} MatchingPlaces(rs: seq<Rule>, name: string) returns (idx: seq<nat>)
    requires RulesOk(rs)
    ensures MatchPlaces(rs, name, idx) && |Matching(rs, name)| == |idx|
    ensures forall k :: 0 <= k < |idx| ==> idx[k] < |rs| && Matching(rs, name)[k] == rs[idx[k]]
  {
    hide LevelSet, Matches;
    if rs == [] {
      return [];
    }
    var front := rs[..|rs| - 1];
    idx := MatchingPlaces(front, name);
    forall k | 0 <= k < |idx|
      ensures idx[k] < |front| && front[idx[k]] == rs[idx[k]]
    {
      assert idx[k] in idx;
    }
    var n := |front|;
    if Matches(rs[n], name) {
      idx := idx + [n];
    }
    forall i: nat
      ensures i in idx <==> i < |rs| && Matches(rs[i], name)
    {
      assert i < n ==> front[i] == rs[i];
    }
  }

  lemma {:induction false} WastebinLast(rs: seq<Rule>)
    ensures LastWastebin(rs, Wastebin(rs))
  {
    if rs == [] {
    } else if IsWastebin(rs[|rs| - 1]) {
      assert LastPlace(rs, |rs| - 1);
    } else {
      WastebinLast(rs[..|rs| - 1]);
      WastebinBefore(rs, Wastebin(rs[..|rs| - 1]));
    }
  }

  lemma WastebinBefore(rs: seq<Rule>, fit: seq<Rule>)
    requires rs != [] && rs[|rs| - 1].category != "!" && LastWastebin(rs[..|rs| - 1], fit)
    ensures LastWastebin(rs, fit)
  {
    var front := rs[..|rs| - 1];
    assert forall i :: 0 <= i < |front| ==> front[i] == rs[i];
    if w :| 0 <= w < |front| && LastPlace(front, w) && fit == [front[w]] {
      assert LastPlace(rs, w);
    }
  }

  /** The fitted rules are those that are meant. */
  lemma FittedIsFitting(rs: seq<Rule>, name: string) returns (idx: seq<nat>)
    requires RulesOk(rs)
    ensures IsFitting(rs, name, idx, Fitted(rs, name))
  {
    hide RulesOk, Matches, Matching, Wastebin, LastWastebin;
    idx := MatchingPlaces(rs, name);
    WastebinLast(rs);
  }

  /** An event of level `lv` is to be output: by a rule that matches, or, without any, by the last wastebin. */
  ghost predicate IsOutput(rs: seq<Rule>, name: string, lv: LevelNumber)
    requires RulesOk(rs)
  {
    || (exists i | 0 <= i < |rs| :: Matches(rs[i], name) && Fires(rs[i], lv))
    || ((forall i :: 0 <= i < |rs| ==> !Matches(rs[i], name)) && (exists w | 0 <= w < |rs| ::
          LastPlace(rs, w) && Fires(rs[w], lv)))
  }

  /** Some fitted rule fires if and only if the event is to be output. */
  lemma FittingFires(rs: seq<Rule>, name: string, idx: seq<nat>, fit: seq<Rule>, lv: LevelNumber)
    requires RulesOk(rs) && IsFitting(rs, name, idx, fit)
    ensures SomeFires(fit, lv) <==> IsOutput(rs, name, lv)
  {
    hide LevelSet, Matches, Fires;
    if idx != [] {
      HeadPlace(rs, name, idx);
      if SomeFires(fit, lv) {
        var k :| 0 <= k < |fit| && Fires(fit[k], lv);
        assert idx[k] in idx;
      }
      if i :| 0 <= i < |rs| && Matches(rs[i], name) && Fires(rs[i], lv) {
        assert i in idx;
        var k :| 0 <= k < |idx| && idx[k] == i;
        assert fit[k] == rs[i];
      }
    } else {
      assert forall i: nat :: i < |rs| ==> i !in idx;
      LastPlaceUnique(rs);
      if w :| 0 <= w < |rs| && LastPlace(rs, w) {
        assert fit == [rs[w]] && fit[0] == rs[w];
      }
    }
  }

  lemma LastPlaceUnique(rs: seq<Rule>)
    ensures forall v, w :: 0 <= v < |rs| && 0 <= w < |rs| && LastPlace(rs, v) && LastPlace(rs, w) ==> v == w
  {
  }

  lemma HeadPlace(rs: seq<Rule>, name: string, idx: seq<nat>)
    requires RulesOk(rs) && MatchPlaces(rs, name, idx) && idx != []
    ensures exists i | 0 <= i < |rs| :: Matches(rs[i], name)
  {
    hide LevelSet, Matches;
    assert idx[0] in idx;
  }

  // ---------------------------------------------------------------- which of them can be obtained

  /** The first rule from `from` on that matches and for which there is no memory, or the number of rules.
      Allocation 0 makes the list, number i + 1 is for rule i, the last one for the wastebin. */
  ghost function Reached(rs: seq<Rule>, name: string, ok: nat -> bool, from: nat): (i: nat)
    requires RulesOk(rs) && from <= |rs|
    ensures from <= i <= |rs| && (i < |rs| ==> Matches(rs[i], name) && !ok(i + 1))
    ensures forall j :: from <= j < i && Matches(rs[j], name) ==> ok(j + 1)
    decreases |rs| - from
  {
    if from == |rs| || (Matches(rs[from], name) && !ok(from + 1)) then from else Reached(rs, name, ok, from + 1)
  }

  /** There is memory for the list and for every rule that goes into it. */
  ghost predicate Allocates(rs: seq<Rule>, name: string, ok: nat -> bool)
    requires RulesOk(rs)
  {
    && ok(0)
    && (forall j :: 0 <= j < |rs| && Matches(rs[j], name) ==> ok(j + 1))
    && (Matching(rs, name) == [] && Wastebin(rs) != [] ==> ok(|rs| + 1))
  }

  /** The rules whose maps are laid over each other before there is no more memory. */
  ghost function Partial(rs: seq<Rule>, name: string, ok: nat -> bool): seq<Rule>
    requires RulesOk(rs)
  {
    if ok(0) then Matching(rs[..Reached(rs, name, ok, 0)], name) else []
  }

  // ---------------------------------------------------------------- the union of maps

  /** `bitmap` has exactly the levels some rule of `rs` outputs. */
  ghost predicate Covers(bitmap: seq<bv8>, rs: seq<Rule>) {
    && |bitmap| == MAP_BYTES
    && forall lv: LevelNumber :: LevelSet(bitmap, lv) <==> SomeFires(rs, lv)
  }

  lemma EmptyCovers(bitmap: seq<bv8>)
    requires |bitmap| == MAP_BYTES && forall i :: 0 <= i < MAP_BYTES ==> bitmap[i] == 0
    ensures Covers(bitmap, [])
  {
    forall lv: LevelNumber
      ensures !LevelSet(bitmap, lv)
    {
      OneBitSet(0, lv % 8);
    }
  }

  lemma OverlapCovers(before: seq<bv8>, rs: seq<Rule>, r: Rule, after: seq<bv8>)
    requires Covers(before, rs) && RuleOk(r)
    requires |after| == MAP_BYTES && forall i :: 0 <= i < MAP_BYTES ==> after[i] == before[i] | r.bitmap[i]
    ensures Covers(after, rs + [r])
  {
    hide BitSet;
    forall lv: LevelNumber
      ensures LevelSet(after, lv) <==> SomeFires(rs + [r], lv)
    {
      OrSet(before[lv / 8], r.bitmap[lv / 8], lv % 8);
      SomeFiresSnoc(rs, r, lv);
    }
  }

  lemma ByteEqual(a: bv8, b: bv8)
    requires forall q :: 0 <= q < 8 ==> (BitSet(a, q) <==> BitSet(b, q))
    ensures a == b
  {
    assert BitSet(a, 0) <==> BitSet(b, 0);
    assert BitSet(a, 1) <==> BitSet(b, 1);
    assert BitSet(a, 2) <==> BitSet(b, 2);
    assert BitSet(a, 3) <==> BitSet(b, 3);
    assert BitSet(a, 4) <==> BitSet(b, 4);
    assert BitSet(a, 5) <==> BitSet(b, 5);
    assert BitSet(a, 6) <==> BitSet(b, 6);
    assert BitSet(a, 7) <==> BitSet(b, 7);
  }

  /** Rules determine their map. */
  lemma CoversUnique(a: seq<bv8>, b: seq<bv8>, rs: seq<Rule>)
    requires Covers(a, rs) && Covers(b, rs)
    ensures a == b
  {
    hide BitSet, SomeFires;
    forall i | 0 <= i < MAP_BYTES
      ensures a[i] == b[i]
    {
      forall q | 0 <= q < 8
        ensures BitSet(a[i], q) <==> BitSet(b[i], q)
      {
        var lv: LevelNumber := i * 8 + q;
        assert LevelSet(a, lv) <==> LevelSet(b, lv);
      }
      ByteEqual(a[i], b[i]);
    }
  }

  /** The fast test agrees with the rules: a level is needless exactly when no rule would output it. */
  lemma NeedlessExactly(bitmap: seq<bv8>, rs: seq<Rule>, lv: LevelNumber)
    requires Covers(bitmap, rs)
    ensures Needless(bitmap, lv) <==> forall i :: 0 <= i < |rs| ==> !Fires(rs[i], lv)
  {
    assert Needless(bitmap, lv) <==> !LevelSet(bitmap, lv);
  }
}
