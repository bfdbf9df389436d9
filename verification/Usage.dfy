/**
 The usage patterns of argp/argp-help.c: every argp of the tree may offer alternative argument
 strings, and the loop that prints them counts through all combinations like an odometer whose
 wheels are the argps with alternatives.
 */
module Usages {
  import opened Options
  import opened Argps
  import opened Wrapping

  /** One byte of the vector of levels: a char that is not negative. */
  newtype Level = x: int | 0 <= x < 128

  // ---------- Alternatives ----------

  /** The alternatives of an argument string. */
  function Split(doc: string): (alts: seq<string>)
    ensures |alts| >= 1
  {
    var n := LineEnd(doc);
    if n == |doc| then [doc] else [doc[..n]] + Split(doc[n + 1..])
  }

  predicate Multiple(a: Argp) {
    a.argsDoc.Some? && LineEnd(a.argsDoc.value) < |a.argsDoc.value|
  }

  /** The number of alternatives an argp offers. */
  function Alts(a: Argp): (n: nat)
    ensures n >= 1
  {
    if a.argsDoc.None? then 1 else |Split(a.argsDoc.value)|
  }

  lemma MultipleAlts(a: Argp)
    ensures Multiple(a) <==> Alts(a) > 1
  {
  }

  lemma SplitFrom(doc: string, cp: nat, nl: nat)
    requires cp <= |doc| && nl == cp + LineEnd(doc[cp..])
    ensures nl <= |doc|
    ensures Split(doc[cp..]) == [doc[cp..nl]] + if nl == |doc| then [] else Split(doc[nl + 1..])
  {
    hide LineEnd;
    assert doc[cp..][..nl - cp] == doc[cp..nl];
    if nl < |doc| {
      assert doc[cp..][nl - cp + 1..] == doc[nl + 1..];
    } else {
      assert doc[cp..] == doc[cp..nl];
    }
  }

  /** Find alternative number `level`, and whether there is one after it. */
  method Pick(doc: string, level: nat) returns (alt: string, more: bool)
    requires level < |Split(doc)|
    ensures alt == Split(doc)[level] && more == (level + 1 < |Split(doc)|)
  {
    hide LineEnd;
    hide Split;
    var cp, nl := 0, LineEnd(doc);
    assert doc[0..] == doc;
    for i := 0 to level
      invariant 0 <= cp <= nl <= |doc| && nl == cp + LineEnd(doc[cp..])
      invariant Split(doc[cp..]) == Split(doc)[i..]
    {
      SplitFrom(doc, cp, nl);
      cp := nl + 1;
      nl := cp + LineEnd(doc[cp..]);
    }
    SplitFrom(doc, cp, nl);
    alt := doc[cp..nl];
    more := nl < |doc|;
  }

  // ---------- The odometer ----------

  /** The number of wheels: of argps with more than one alternative. */
  function Levels(a: Argp): nat
    decreases a, 1
  {
    (if Multiple(a) then 1 else 0) + LevelsOf(a.children)
  }

  function LevelsOf(cs: seq<Child>): nat
    decreases cs, 0
  {
    if cs == [] then 0 else
    var n := |cs| - 1;
    assert cs[n].argp < cs[n];
    LevelsOf(cs[..n]) + Levels(cs[n].argp)
  }

  /** The number of combinations. */
  function Total(a: Argp): nat
    decreases a, 1
  {
    TotalOf(a.children) * Alts(a)
  }

  function TotalOf(cs: seq<Child>): nat
    decreases cs, 0
  {
    if cs == [] then 1 else
    var n := |cs| - 1;
    assert cs[n].argp < cs[n];
    TotalOf(cs[..n]) * Total(cs[n].argp)
  }

  /** The position of an argp's own wheel is before those of its children. */
  function Own(a: Argp, d: seq<Level>): nat
    requires |d| == Levels(a)
  {
    if Multiple(a) then d[0] as nat else 0
  }

  function Below(a: Argp, d: seq<Level>): (e: seq<Level>)
    requires |d| == Levels(a)
    ensures |e| == LevelsOf(a.children)
  {
    if Multiple(a) then d[1..] else d
  }

  predicate InRange(a: Argp, d: seq<Level>)
    decreases a, 1
  {
    |d| == Levels(a) && Own(a, d) < Alts(a) && InRangeOf(a.children, Below(a, d))
  }

  predicate InRangeOf(cs: seq<Child>, d: seq<Level>)
    decreases cs, 0
  {
    |d| == LevelsOf(cs) &&
    (cs != [] ==>
       var n := |cs| - 1;
       assert cs[n].argp < cs[n];
       var k := LevelsOf(cs[..n]);
       InRangeOf(cs[..n], d[..k]) && InRange(cs[n].argp, d[k..]))
  }

  /** The number the odometer shows: the wheels of the first child count least, an argp's own most. */
  function Value(a: Argp, d: seq<Level>): nat
    requires |d| == Levels(a)
    decreases a, 1
  {
    ValueOf(a.children, Below(a, d)) + TotalOf(a.children) * Own(a, d)
  }

  function ValueOf(cs: seq<Child>, d: seq<Level>): nat
    requires |d| == LevelsOf(cs)
    decreases cs, 0
  {
    if cs == [] then 0 else
    var n := |cs| - 1;
    assert cs[n].argp < cs[n];
    var k := LevelsOf(cs[..n]);
    ValueOf(cs[..n], d[..k]) + TotalOf(cs[..n]) * Value(cs[n].argp, d[k..])
  }

  /** The strings that are printed for a setting of the wheels. */
  function Pattern(a: Argp, d: seq<Level>): seq<string>
    requires InRange(a, d)
    decreases a, 1
  {
    (if a.argsDoc.Some? then [Split(a.argsDoc.value)[Own(a, d)]] else []) + PatternOf(a.children, Below(a, d))
  }

  function PatternOf(cs: seq<Child>, d: seq<Level>): seq<string>
    requires InRangeOf(cs, d)
    decreases cs, 0
  {
    if cs == [] then [] else
    var n := |cs| - 1;
    assert cs[n].argp < cs[n];
    var k := LevelsOf(cs[..n]);
    PatternOf(cs[..n], d[..k]) + Pattern(cs[n].argp, d[k..])
  }

  // ---------- Arithmetic of a carry ----------

  lemma Bounded(lo: nat, n: nat, hi: nat, m: nat)
    requires lo < n && hi < m
    ensures lo + n * hi < n * m
  {
    assert n * (hi + 1) <= n * m;
    assert n * (hi + 1) == n * hi + n;
  }

  lemma Carry(lo: nat, n: nat, hi: nat, m: nat)
    requires lo < n && hi < m
    ensures lo + n * hi + 1 < n * m <==> lo + 1 < n || hi + 1 < m
    ensures lo + 1 == n ==> lo + n * hi + 1 == n * (hi + 1)
  {
    Bounded(lo, n, hi, m);
    assert n * (hi + 1) == n * hi + n;
    if lo + 1 < n {
      Bounded(lo + 1, n, hi, m);
    } else if hi + 1 < m {
      Bounded(0, n, hi + 1, m);
    }
  }

  lemma Unique(lo: nat, n: nat, hi: nat, lo': nat, hi': nat)
    requires lo < n && lo' < n && lo + n * hi == lo' + n * hi'
    ensures lo == lo' && hi == hi'
  {
    if hi < hi' {
      Bounded(lo, n, hi, hi');
    } else if hi' < hi {
      Bounded(lo', n, hi', hi);
    }
  }

  lemma {:induction false} ValueBound(a: Argp, d: seq<Level>)
    requires InRange(a, d)
    ensures Value(a, d) < Total(a)
    decreases a, 1
  {
    ValueBoundOf(a.children, Below(a, d));
    Bounded(ValueOf(a.children, Below(a, d)), TotalOf(a.children), Own(a, d), Alts(a));
  }

  lemma {:induction false} ValueBoundOf(cs: seq<Child>, d: seq<Level>)
    requires InRangeOf(cs, d)
    ensures ValueOf(cs, d) < TotalOf(cs)
    decreases cs, 0
  {
    if cs != [] {
      var n := |cs| - 1;
      assert cs[n].argp < cs[n];
      var k := LevelsOf(cs[..n]);
      ValueBoundOf(cs[..n], d[..k]);
      ValueBound(cs[n].argp, d[k..]);
      Bounded(ValueOf(cs[..n], d[..k]), TotalOf(cs[..n]), Value(cs[n].argp, d[k..]), Total(cs[n].argp));
    }
  }

  /** Different settings of the wheels show different numbers. */
  lemma {:induction false} ValueInjective(a: Argp, d: seq<Level>, e: seq<Level>)
    requires InRange(a, d) && InRange(a, e) && Value(a, d) == Value(a, e)
    ensures d == e
    decreases a, 1
  {
    ValueBoundOf(a.children, Below(a, d));
    ValueBoundOf(a.children, Below(a, e));
    Unique(ValueOf(a.children, Below(a, d)), TotalOf(a.children), Own(a, d),
           ValueOf(a.children, Below(a, e)), Own(a, e));
    ValueInjectiveOf(a.children, Below(a, d), Below(a, e));
  }

  lemma {:induction false} ValueInjectiveOf(cs: seq<Child>, d: seq<Level>, e: seq<Level>)
    requires InRangeOf(cs, d) && InRangeOf(cs, e) && ValueOf(cs, d) == ValueOf(cs, e)
    ensures d == e
    decreases cs, 0
  {
    hide Total;
    hide TotalOf;
    hide Value;
    hide InRange;
    hide Levels;
    if cs != [] {
      var n := |cs| - 1;
      assert cs[n].argp < cs[n];
      var k := LevelsOf(cs[..n]);
      ValueBoundOf(cs[..n], d[..k]);
      ValueBoundOf(cs[..n], e[..k]);
      Unique(ValueOf(cs[..n], d[..k]), TotalOf(cs[..n]), Value(cs[n].argp, d[k..]),
             ValueOf(cs[..n], e[..k]), Value(cs[n].argp, e[k..]));
      ValueInjectiveOf(cs[..n], d[..k], e[..k]);
      ValueInjective(cs[n].argp, d[k..], e[k..]);
      assert d == d[..k] + d[k..] && e == e[..k] + e[k..];
    }
  }

  // ---------- Turning the wheels ----------

  /** Every level fits in a char: no argp offers more than 128 alternatives. */
  predicate Small(a: Argp) {
    forall n :: n in Nodes(a) ==> Alts(n) <= 128
  }

  /**
   The wheels of `a` go from `d` to `d'`: one step on when `advance`, and `more` unless they were
   all at their last.
   */
  ghost predicate Turned(a: Argp, d: seq<Level>, d': seq<Level>, advance: bool, more: bool) {
    && InRange(a, d) && InRange(a, d')
    && if advance then
         more == (Value(a, d) + 1 < Total(a)) && Value(a, d') == (if more then Value(a, d) + 1 else 0)
       else
         more && d' == d
  }

  /** The same for a list of children, with `carry` when the argp above must turn its own wheel. */
  ghost predicate TurnedOf(cs: seq<Child>, d: seq<Level>, d': seq<Level>, advance: bool, carry: bool) {
    && InRangeOf(cs, d) && InRangeOf(cs, d')
    && if advance then
         carry == (ValueOf(cs, d) + 1 == TotalOf(cs)) && ValueOf(cs, d') == (if carry then 0 else ValueOf(cs, d) + 1)
       else
         !carry && d' == d
  }

  /** The unfolding of the definitions at the last child. */
  lemma LastChild(cs: seq<Child>, i: nat, d: seq<Level>, e: seq<Level>)
    requires i < |cs| && |d| == LevelsOf(cs[..i]) && |e| == Levels(cs[i].argp)
    ensures |d + e| == LevelsOf(cs[..i + 1])
    ensures TotalOf(cs[..i + 1]) == TotalOf(cs[..i]) * Total(cs[i].argp)
    ensures ValueOf(cs[..i + 1], d + e) == ValueOf(cs[..i], d) + TotalOf(cs[..i]) * Value(cs[i].argp, e)
    ensures InRangeOf(cs[..i + 1], d + e) <==> InRangeOf(cs[..i], d) && InRange(cs[i].argp, e)
    ensures InRangeOf(cs[..i + 1], d + e) ==>
      PatternOf(cs[..i + 1], d + e) == PatternOf(cs[..i], d) + Pattern(cs[i].argp, e)
  {
    hide Levels;
    hide Total;
    hide Value;
    hide InRange;
    hide Pattern;
    assert cs[..i + 1][..i] == cs[..i] && cs[..i + 1][i] == cs[i];
    assert (d + e)[..|d|] == d && (d + e)[|d|..] == e;
  }

  lemma TurnedLast(cs: seq<Child>, i: nat, d: seq<Level>, d': seq<Level>, e: seq<Level>, e': seq<Level>,
                   advance: bool, carry: bool, more: bool)
    requires i < |cs| && TurnedOf(cs[..i], d, d', advance, carry) && Turned(cs[i].argp, e, e', carry, more)
    ensures TurnedOf(cs[..i + 1], d + e, d' + e', advance, !more)
  {
    hide Levels;
    hide LevelsOf;
    hide Total;
    hide TotalOf;
    hide Value;
    hide ValueOf;
    hide InRange;
    hide InRangeOf;
    LengthsOf(cs[..i], d, d');
    Lengths(cs[i].argp, e, e');
    LastChild(cs, i, d, e);
    LastChild(cs, i, d', e');
    ValueBoundOf(cs[..i], d);
    ValueBound(cs[i].argp, e);
    Carry(ValueOf(cs[..i], d), TotalOf(cs[..i]), Value(cs[i].argp, e), Total(cs[i].argp));
  }

  lemma Lengths(a: Argp, d: seq<Level>, d': seq<Level>)
    requires InRange(a, d) && InRange(a, d')
    ensures |d| == |d'| == Levels(a)
  {
  }

  lemma LengthsOf(cs: seq<Child>, d: seq<Level>, d': seq<Level>)
    requires InRangeOf(cs, d) && InRangeOf(cs, d')
    ensures |d| == |d'| == LevelsOf(cs)
  {
  }

  /** The wheels of the first `n` children. */
  lemma {:induction false} FirstWheels(cs: seq<Child>, d: seq<Level>, n: nat)
    requires InRangeOf(cs, d) && n <= |cs|
    ensures LevelsOf(cs[..n]) <= |d| && InRangeOf(cs[..n], d[..LevelsOf(cs[..n])])
    decreases |cs| - n
  {
    hide Levels;
    hide InRange;
    if n == |cs| {
      assert cs[..n] == cs && d[..|d|] == d;
    } else {
      FirstWheels(cs, d, n + 1);
      var k, m := LevelsOf(cs[..n]), LevelsOf(cs[..n + 1]);
      assert cs[..n + 1][..n] == cs[..n];
      assert d[..m][..k] == d[..k];
    }
  }

  /** The wheels of child `i`. */
  lemma ChildWheels(cs: seq<Child>, d: seq<Level>, i: nat)
    requires InRangeOf(cs, d) && i < |cs|
    ensures var k := LevelsOf(cs[..i]); var m := k + Levels(cs[i].argp);
      m == LevelsOf(cs[..i + 1]) <= |d| && InRangeOf(cs[..i], d[..k]) && InRange(cs[i].argp, d[k..m])
  {
    hide Levels;
    hide InRange;
    FirstWheels(cs, d, i);
    FirstWheels(cs, d, i + 1);
    var k := LevelsOf(cs[..i]);
    var m := LevelsOf(cs[..i + 1]);
    assert cs[..i + 1][..i] == cs[..i] && cs[..i + 1][i] == cs[i];
    assert d[..m][k..] == d[k..m];
  }

  /** The children before `i` have been printed and their wheels turned. */
  ghost predicate Printed(cs: seq<Child>, i: nat, d: seq<Level>, now: seq<Level>, advance: bool, carry: bool,
                          text: seq<string>)
  {
    && i <= |cs| && |now| == LevelsOf(cs[..i]) <= |d|
    && InRangeOf(cs[..i], d[..|now|]) && TurnedOf(cs[..i], d[..|now|], now, advance, carry)
    && text == PatternOf(cs[..i], d[..|now|])
  }

  lemma PrintedNext(cs: seq<Child>, i: nat, d: seq<Level>, now: seq<Level>, e': seq<Level>,
                    advance: bool, carry: bool, more: bool, text: seq<string>, part: seq<string>)
    requires i < |cs| && InRangeOf(cs, d) && Printed(cs, i, d, now, advance, carry, text)
    requires |e'| == Levels(cs[i].argp) && |now| + |e'| <= |d|
    requires InRange(cs[i].argp, d[|now|..|now| + |e'|]) && part == Pattern(cs[i].argp, d[|now|..|now| + |e'|])
    requires Turned(cs[i].argp, d[|now|..|now| + |e'|], e', carry, more)
    ensures Printed(cs, i + 1, d, now + e', advance, !more, text + part)
  {
    hide Levels;
    hide InRange;
    hide InRangeOf;
    hide Turned;
    hide TurnedOf;
    hide Pattern;
    hide PatternOf;
    hide LevelsOf;
    ChildWheels(cs, d, i);
    var k, m := |now|, |now| + Levels(cs[i].argp);
    TurnedLast(cs, i, d[..k], now, d[k..m], e', advance, carry, more);
    LastChildPattern(cs, i, d[..k], d[k..m]);
    assert d[..m] == d[..k] + d[k..m];
  }

  lemma PrintedSize(cs: seq<Child>, i: nat, d: seq<Level>, now: seq<Level>, advance: bool, carry: bool,
                    text: seq<string>)
    requires InRangeOf(cs, d) && Printed(cs, i, d, now, advance, carry, text)
    ensures |now| == LevelsOf(cs[..i])
    ensures i == |cs| ==>
      |d| == |now| == LevelsOf(cs) && TurnedOf(cs, d, now, advance, carry) && text == PatternOf(cs, d)
  {
    hide TurnedOf;
    hide PatternOf;
    hide LevelsOf;
    if i == |cs| {
      LengthsOf(cs, d, d);
      assert cs[..i] == cs && d[..|d|] == d;
    }
  }

  /**
   One child of a list: the levels were `before`, the wheels of the list start at `pos` and
   showed `d`, and those of the earlier children have become `now`.
   */
  method ChildUsage(c: Argp, levels: array<Level>, at: nat, advance: bool,
                    ghost before: seq<Level>, ghost pos: nat, ghost d: seq<Level>, ghost now: seq<Level>)
      returns (end: nat, more: bool, text: seq<string>, ghost e: seq<Level>)
    requires Small(c) && |before| == levels.Length
    requires at == pos + |now| && |now| + Levels(c) <= |d| && pos + |d| <= |before| && d == before[pos..pos + |d|]
    requires levels[..] == before[..pos] + now + before[at..]
    requires InRange(c, d[|now|..|now| + Levels(c)])
    modifies levels
    ensures end == at + Levels(c) && |e| == Levels(c)
    ensures levels[..] == before[..pos] + (now + e) + before[end..]
    ensures Turned(c, d[|now|..|now| + Levels(c)], e, advance, more)
    ensures text == Pattern(c, d[|now|..|now| + Levels(c)])
    decreases c, 2
  {
    hide Levels;
    hide InRange;
    hide Pattern;
    hide Turned;
    hide Small;
    ghost var mid := levels[..];
    SpliceRead(before, mid, pos, now, d, at, at + Levels(c));
    assert levels[at..at + Levels(c)] == mid[at..at + Levels(c)];
    end, more, text := ArgsUsage(c, levels, at, advance);
    e := levels[at..end];
    Splice(before, mid, pos, now, at, e, end);
  }

  /** Print the children's part of a pattern and turn their wheels; the first child turns first. */
  method ChildrenUsage(cs: seq<Child>, levels: array<Level>, pos: nat, advance: bool)
      returns (end: nat, carry: bool, text: seq<string>)
    requires forall i :: 0 <= i < |cs| ==> Small(cs[i].argp)
    requires pos + LevelsOf(cs) <= levels.Length && InRangeOf(cs, levels[pos..pos + LevelsOf(cs)])
    modifies levels
    ensures end == pos + LevelsOf(cs)
    ensures levels[..] == old(levels[..])[..pos] + levels[pos..end] + old(levels[..])[end..]
    ensures TurnedOf(cs, old(levels[pos..pos + LevelsOf(cs)]), levels[pos..end], advance, carry)
    ensures text == PatternOf(cs, old(levels[pos..pos + LevelsOf(cs)]))
    decreases cs, 0
  {
    hide Levels;
    hide LevelsOf;
    hide InRange;
    hide InRangeOf;
    hide Pattern;
    hide PatternOf;
    hide Turned;
    hide TurnedOf;
    hide Small;
    hide Printed;
    ghost var before := levels[..];
    ghost var d, now := before[pos..pos + LevelsOf(cs)], [];
    end, carry, text := pos, advance, [];
    var i := 0;
    NoChildren(cs, d, advance);
    assert levels[..] == before[..pos] + now + before[end..];
    while i < |cs|
      invariant 0 <= i <= |cs| && Printed(cs, i, d, now, advance, carry, text) && end == pos + |now| <= levels.Length
      invariant levels[..] == before[..pos] + now + before[end..]
    {
      assert cs[i].argp < cs[i];
      ChildWheels(cs, d, i);
      PrintedSize(cs, i, d, now, advance, carry, text);
      var more, part;
      ghost var e';
      end, more, part, e' := ChildUsage(cs[i].argp, levels, end, carry, before, pos, d, now);
      PrintedNext(cs, i, d, now, e', advance, carry, more, text, part);
      now, text, carry := now + e', text + part, !more;
      i := i + 1;
    }
    PrintedSize(cs, i, d, now, advance, carry, text);
    assert levels[pos..end] == now;
  }

  lemma Splice(before: seq<Level>, mid: seq<Level>, pos: nat, now: seq<Level>, i: nat, e: seq<Level>, j: nat)
    requires pos + |now| == i && i + |e| == j <= |before|
    requires mid == before[..pos] + now + before[i..]
    ensures mid[..i] + e + mid[j..] == before[..pos] + (now + e) + before[j..]
  {
    assert mid[..i] == before[..pos] + now;
    assert mid[j..] == before[j..];
  }

  lemma SpliceRead(before: seq<Level>, mid: seq<Level>, pos: nat, now: seq<Level>, d: seq<Level>, i: nat, j: nat)
    requires pos + |now| == i <= j <= pos + |d| <= |before| && d == before[pos..pos + |d|]
    requires mid == before[..pos] + now + before[i..]
    ensures mid[i..j] == d[i - pos..j - pos]
  {
    forall x | i <= x < j ensures mid[x] == d[x - pos] {
      assert mid[x] == before[i..][x - i] == before[x];
    }
  }

  lemma NoChildren(cs: seq<Child>, d: seq<Level>, advance: bool)
    ensures LevelsOf(cs[..0]) == 0 && InRangeOf(cs[..0], d[..0]) && PatternOf(cs[..0], d[..0]) == []
    ensures Printed(cs, 0, d, [], advance, advance, [])
  {
  }

  lemma LastChildPattern(cs: seq<Child>, i: nat, d: seq<Level>, e: seq<Level>)
    requires i < |cs| && InRangeOf(cs[..i], d) && InRange(cs[i].argp, e)
    ensures InRangeOf(cs[..i + 1], d + e)
    ensures PatternOf(cs[..i + 1], d + e) == PatternOf(cs[..i], d) + Pattern(cs[i].argp, e)
  {
    hide Levels;
    hide Pattern;
    LengthsOf(cs[..i], d, d);
    Lengths(cs[i].argp, e, e);
    LastChild(cs, i, d, e);
  }

  /** An argp turns its own wheel when its children carry. */
  lemma TurnedOwn(a: Argp, d: seq<Level>, d': seq<Level>, advance: bool, carry: bool, more: bool)
    requires InRange(a, d) && |d'| == Levels(a)
    requires TurnedOf(a.children, Below(a, d), Below(a, d'), advance, carry)
    requires Own(a, d') == if !carry then Own(a, d) else if Own(a, d) + 1 < Alts(a) then Own(a, d) + 1 else 0
    requires more == (!carry || Own(a, d) + 1 < Alts(a))
    ensures Turned(a, d, d', advance, more)
  {
    hide LevelsOf;
    hide TotalOf;
    hide ValueOf;
    hide InRangeOf;
    hide Alts;
    hide Multiple;
    ValueBoundOf(a.children, Below(a, d));
    Carry(ValueOf(a.children, Below(a, d)), TotalOf(a.children), Own(a, d), Alts(a));
    if d' != d && !advance {
      SameWheels(a, d, d');
    }
  }

  lemma SameWheels(a: Argp, d: seq<Level>, d': seq<Level>)
    requires |d| == |d'| == Levels(a) && Own(a, d) == Own(a, d') && Below(a, d) == Below(a, d')
    ensures d == d'
  {
    hide LevelsOf;
    if Multiple(a) {
      assert d == [d[0]] + d[1..] && d' == [d'[0]] + d'[1..];
    }
  }

  lemma SmallChildren(a: Argp)
    requires Small(a)
    ensures Alts(a) <= 128
    ensures forall i :: 0 <= i < |a.children| ==> Small(a.children[i].argp)
  {
    hide Alts;
    assert a in Nodes(a);
    forall i | 0 <= i < |a.children| ensures Small(a.children[i].argp) {
      ChildNodes(a.children, i);
    }
  }

  /** Print the own part of a pattern: the text, and whether there is a further alternative. */
  method OwnUsage(a: Argp, level: nat) returns (text: seq<string>, multiple: bool, another: bool)
    requires level < Alts(a)
    ensures multiple == Multiple(a) && another == (level + 1 < Alts(a))
    ensures text == if a.argsDoc.Some? then [Split(a.argsDoc.value)[level]] else []
  {
    hide LineEnd;
    text, multiple, another := [], false, false;
    if a.argsDoc.Some? {
      var doc := a.argsDoc.value;
      var alt;
      if LineEnd(doc) < |doc| {
        multiple := true;
        alt, another := Pick(doc, level);
      } else {
        alt := doc;
      }
      text := [alt];
    }
  }

  /** Print the pattern the wheels show, and turn them when `advance`. */
  method ArgsUsage(a: Argp, levels: array<Level>, pos: nat, advance: bool)
      returns (end: nat, more: bool, text: seq<string>)
    requires Small(a)
    requires pos + Levels(a) <= levels.Length && InRange(a, levels[pos..pos + Levels(a)])
    modifies levels
    ensures end == pos + Levels(a)
    ensures levels[..] == old(levels[..])[..pos] + levels[pos..end] + old(levels[..])[end..]
    ensures Turned(a, old(levels[pos..pos + Levels(a)]), levels[pos..end], advance, more)
    ensures text == Pattern(a, old(levels[pos..pos + Levels(a)]))
    decreases a, 1
  {
    hide LevelsOf;
    hide TotalOf;
    hide ValueOf;
    hide InRangeOf;
    hide PatternOf;
    hide Alts;
    hide Multiple;
    hide Small;
    hide Split;
    hide Turned;
    hide TurnedOf;
    ghost var before := levels[..];
    ghost var d := before[pos..pos + Levels(a)];
    MultipleAlts(a);
    SmallChildren(a);
    var own, multiple, another := OwnUsage(a, if Multiple(a) then levels[pos] as nat else 0);
    var next := if multiple then pos + 1 else pos;
    assert Below(a, d) == levels[next..next + LevelsOf(a.children)];
    var carry, part;
    end, carry, part := ChildrenUsage(a.children, levels, next, advance);
    text := own + part;
    more := !carry;
    ghost var mid, e := levels[..], levels[next..end];
    assert mid == before[..next] + e + before[end..];
    if carry && multiple {
      if another {
        levels[pos] := levels[pos] + 1;
        more := true;
      } else if levels[pos] > 0 {
        levels[pos] := 0;
      }
    }
    OwnWheel(a, before, mid, levels[..], pos, end, d, e);
    TurnedOwn(a, d, levels[pos..end], advance, carry, more);
  }

  /** The vector of levels after an argp may have set its own. */
  lemma OwnWheel(a: Argp, before: seq<Level>, mid: seq<Level>, after: seq<Level>, pos: nat, end: nat,
                 d: seq<Level>, e: seq<Level>)
    requires end == pos + Levels(a) <= |before| && d == before[pos..end] && |e| == LevelsOf(a.children)
    requires var next := if Multiple(a) then pos + 1 else pos; mid == before[..next] + e + before[end..]
    requires after == mid || (Multiple(a) && pos < |after| && after == mid[pos := after[pos]])
    ensures after == before[..pos] + after[pos..end] + before[end..]
    ensures Below(a, after[pos..end]) == e
    ensures Multiple(a) ==> mid[pos] == d[0] && Own(a, after[pos..end]) == after[pos] as nat
  {
    hide LevelsOf;
    hide Multiple;
  }

  // ---------- The loop ----------

  /** How many levels with alternative strings a tree has. */
  method ArgsLevels(a: Argp) returns (n: nat)
    ensures n == Levels(a)
    decreases a
  {
    n := 0;
    if a.argsDoc.Some? && '\n' in a.argsDoc.value {
      n := 1;
    }
    NewlineIn(a);
    ghost var own := n;
    var i := 0;
    while i < |a.children|
      invariant 0 <= i <= |a.children| && n == own + LevelsOf(a.children[..i])
    {
      assert a.children[i].argp < a.children[i];
      assert a.children[..i + 1][..i] == a.children[..i];
      var m := ArgsLevels(a.children[i].argp);
      n := n + m;
      i := i + 1;
    }
    assert a.children[..i] == a.children;
  }

  lemma NewlineIn(a: Argp)
    ensures Multiple(a) <==> a.argsDoc.Some? && '\n' in a.argsDoc.value
  {
    if a.argsDoc.Some? {
      LineEndFirst(a.argsDoc.value);
    }
  }

  predicate Zero(d: seq<Level>) {
    forall i :: 0 <= i < |d| ==> d[i] == 0
  }

  lemma {:induction false} ZeroValue(a: Argp, d: seq<Level>)
    requires |d| == Levels(a) && Zero(d)
    ensures InRange(a, d) && Value(a, d) == 0
    decreases a, 1
  {
    ZeroValueOf(a.children, Below(a, d));
  }

  lemma {:induction false} ZeroValueOf(cs: seq<Child>, d: seq<Level>)
    requires |d| == LevelsOf(cs) && Zero(d)
    ensures InRangeOf(cs, d) && ValueOf(cs, d) == 0
    decreases cs, 0
  {
    if cs != [] {
      var n := |cs| - 1;
      assert cs[n].argp < cs[n];
      var k := LevelsOf(cs[..n]);
      ZeroValueOf(cs[..n], d[..k]);
      ZeroValue(cs[n].argp, d[k..]);
    }
  }

  // ---------- What the patterns say ----------

  function Join(lines: seq<string>): string
    requires lines != []
  {
    if |lines| == 1 then lines[0] else lines[0] + "\n" + Join(lines[1..])
  }

  /** The alternatives are the lines of the string. */
  lemma {:induction false} SplitIntoLines(doc: string)
    ensures Join(Split(doc)) == doc
    ensures forall i :: 0 <= i < |Split(doc)| ==> '\n' !in Split(doc)[i]
    decreases |doc|
  {
    var n := LineEnd(doc);
    LineEndFirst(doc);
    if n < |doc| {
      var rest := Split(doc[n + 1..]);
      SplitIntoLines(doc[n + 1..]);
      assert Split(doc)[1..] == rest;
      assert doc == doc[..n] + "\n" + doc[n + 1..];
    }
  }

  /** The argument strings of a list of argps. */
  function Docs(nodes: seq<Argp>): seq<string> {
    if nodes == [] then [] else
    (if nodes[0].argsDoc.Some? then [nodes[0].argsDoc.value] else []) + Docs(nodes[1..])
  }

  lemma {:induction false} DocsAppend(a: seq<Argp>, b: seq<Argp>)
    ensures Docs(a + b) == Docs(a) + Docs(b)
    decreases |a|
  {
    if a == [] {
      assert a + b == b;
    } else {
      DocsAppend(a[1..], b);
      assert (a + b)[1..] == a[1..] + b;
    }
  }

  /** One line number for each string. */
  predicate Choice(docs: seq<string>, ch: seq<nat>) {
    |ch| == |docs| && forall i :: 0 <= i < |docs| ==> ch[i] < |Split(docs[i])|
  }

  function Chosen(docs: seq<string>, ch: seq<nat>): seq<string>
    requires Choice(docs, ch)
  {
    seq(|docs|, i requires 0 <= i < |docs| => Split(docs[i])[ch[i]])
  }

  predicate AllSmall(docs: seq<string>) {
    forall i :: 0 <= i < |docs| ==> |Split(docs[i])| <= 128
  }

  /** The setting of the levels for a choice: a level for each string with more than one line. */
  function Setting(docs: seq<string>, ch: seq<nat>): seq<Level>
    requires Choice(docs, ch) && AllSmall(docs)
  {
    if docs == [] then [] else
    (if |Split(docs[0])| > 1 then [ch[0] as Level] else []) + Setting(docs[1..], ch[1..])
  }

  lemma ChoiceParts(p: seq<string>, q: seq<string>, ch: seq<nat>)
    requires Choice(p + q, ch) && AllSmall(p + q)
    ensures |p| <= |ch| && Choice(p, ch[..|p|]) && Choice(q, ch[|p|..]) && AllSmall(p) && AllSmall(q)
    ensures Chosen(p + q, ch) == Chosen(p, ch[..|p|]) + Chosen(q, ch[|p|..])
  {
    var docs := p + q;
    forall i | 0 <= i < |p| ensures ch[..|p|][i] < |Split(p[i])| <= 128 {
      assert docs[i] == p[i];
    }
    forall i | 0 <= i < |q| ensures ch[|p|..][i] < |Split(q[i])| <= 128 {
      assert docs[|p| + i] == q[i];
    }
  }

  lemma {:induction false} SettingParts(p: seq<string>, q: seq<string>, ch: seq<nat>)
    requires Choice(p + q, ch) && AllSmall(p + q)
    ensures |p| <= |ch| && Choice(p, ch[..|p|]) && Choice(q, ch[|p|..]) && AllSmall(p) && AllSmall(q)
    ensures Setting(p + q, ch) == Setting(p, ch[..|p|]) + Setting(q, ch[|p|..])
    decreases |p|
  {
    hide Split;
    ChoiceParts(p, q, ch);
    if p == [] {
      assert p + q == q && ch[0..] == ch;
    } else {
      assert (p + q)[1..] == p[1..] + q && (p + q)[0] == p[0];
      SettingParts(p[1..], q, ch[1..]);
      assert ch[..|p|][1..] == ch[1..][..|p| - 1] && ch[|p|..] == ch[1..][|p| - 1..];
    }
  }

  lemma SettingFirst(docs: seq<string>, ch: seq<nat>)
    requires Choice(docs, ch) && AllSmall(docs) && docs != []
    ensures Choice(docs[1..], ch[1..]) && AllSmall(docs[1..]) && ch[0] < |Split(docs[0])| <= 128
    ensures var rest := Setting(docs[1..], ch[1..]);
      Setting(docs, ch) == if |Split(docs[0])| > 1 then [ch[0] as Level] + rest else rest
  {
    hide Split;
    var rest := Setting(docs[1..], ch[1..]);
    assert [] + rest == rest;
  }

  lemma SameFirst(x: Level, a: seq<Level>, y: Level, b: seq<Level>)
    requires [x] + a == [y] + b
    ensures x == y && a == b
  {
    assert ([x] + a)[0] == x && ([y] + b)[0] == y;
    assert ([x] + a)[1..] == a && ([y] + b)[1..] == b;
  }

  /** Different choices have different settings. */
  lemma {:induction false} SettingInjective(docs: seq<string>, ch: seq<nat>, ch': seq<nat>)
    requires Choice(docs, ch) && Choice(docs, ch') && AllSmall(docs) && Setting(docs, ch) == Setting(docs, ch')
    ensures ch == ch'
    decreases |docs|
  {
    hide Split;
    hide Setting;
    if docs != [] {
      SettingFirst(docs, ch);
      SettingFirst(docs, ch');
      if |Split(docs[0])| > 1 {
        SameFirst(ch[0] as Level, Setting(docs[1..], ch[1..]), ch'[0] as Level, Setting(docs[1..], ch'[1..]));
      }
      SettingInjective(docs[1..], ch[1..], ch'[1..]);
      assert ch == [ch[0]] + ch[1..] && ch' == [ch'[0]] + ch'[1..];
    }
  }

  lemma DocsFirst(a: Argp)
    ensures Docs(Nodes(a)) == Docs([a]) + Docs(NodesOf(a.children))
    ensures Docs([a]) == if a.argsDoc.Some? then [a.argsDoc.value] else []
  {
    DocsAppend([a], NodesOf(a.children));
    assert [a][1..] == [];
  }

  lemma DocsSnoc(cs: seq<Child>, i: nat)
    requires i < |cs|
    ensures Docs(NodesOf(cs[..i + 1])) == Docs(NodesOf(cs[..i])) + Docs(Nodes(cs[i].argp))
  {
    NodesOfSnoc(cs, i);
    DocsAppend(NodesOf(cs[..i]), Nodes(cs[i].argp));
  }

  /** The setting for a choice is in range, and shows the chosen lines, in the order of the tree. */
  lemma {:induction false} SettingShows(a: Argp, ch: seq<nat>)
    requires Choice(Docs(Nodes(a)), ch) && AllSmall(Docs(Nodes(a)))
    ensures var docs := Docs(Nodes(a));
      InRange(a, Setting(docs, ch)) && Pattern(a, Setting(docs, ch)) == Chosen(docs, ch)
    decreases a, 1
  {
    hide Levels;
    hide LevelsOf;
    var own, below := Docs([a]), Docs(NodesOf(a.children));
    DocsFirst(a);
    ChoiceParts(own, below, ch);
    SettingParts(own, below, ch);
    assert a.children[..|a.children|] == a.children;
    SettingShowsOf(a.children, |a.children|, ch[|own|..]);
    OwnSetting(a, ch[..|own|], Setting(below, ch[|own|..]));
  }

  lemma OneSetting(doc: string, c: seq<nat>)
    requires Choice([doc], c) && AllSmall([doc])
    ensures |c| == 1 && c[0] < |Split(doc)| <= 128
    ensures Setting([doc], c) == (if |Split(doc)| > 1 then [c[0] as Level] else [])
    ensures Chosen([doc], c) == [Split(doc)[c[0]]]
  {
    hide Split;
    assert [doc][0] == doc && [doc][1..] == [] && c[1..] == [];
    assert Setting([doc][1..], c[1..]) == [];
  }

  lemma {:induction false} OwnSetting(a: Argp, c: seq<nat>, e: seq<Level>)
    requires Choice(Docs([a]), c) && AllSmall(Docs([a])) && InRangeOf(a.children, e)
    ensures var d := Setting(Docs([a]), c) + e;
      InRange(a, d) && Pattern(a, d) == Chosen(Docs([a]), c) + PatternOf(a.children, e)
  {
    hide Split;
    hide Docs;
    hide Setting;
    hide InRangeOf;
    hide PatternOf;
    hide Multiple;
    DocsFirst(a);
    MultipleAlts(a);
    LengthsOf(a.children, e, e);
    if a.argsDoc.Some? {
      OneSetting(a.argsDoc.value, c);
      var s := Setting(Docs([a]), c);
      assert (s + e)[|s|..] == e && (Multiple(a) ==> (s + e)[0] == s[0]);
      assert Below(a, s + e) == e;
    } else {
      NoSetting(c);
      assert [] + e == e;
    }
  }

  lemma NoSetting(c: seq<nat>)
    requires Choice([], c)
    ensures Setting([], c) == [] && Chosen([], c) == []
  {
  }

  lemma {:induction false} SettingShowsOf(cs: seq<Child>, i: nat, ch: seq<nat>)
    requires i <= |cs| && Choice(Docs(NodesOf(cs[..i])), ch) && AllSmall(Docs(NodesOf(cs[..i])))
    ensures var docs := Docs(NodesOf(cs[..i]));
      InRangeOf(cs[..i], Setting(docs, ch)) && PatternOf(cs[..i], Setting(docs, ch)) == Chosen(docs, ch)
    decreases cs, 0, i
  {
    hide Levels;
    hide InRange;
    hide Pattern;
    if i > 0 {
      assert cs[i - 1].argp < cs[i - 1];
      var p, q := Docs(NodesOf(cs[..i - 1])), Docs(Nodes(cs[i - 1].argp));
      DocsSnoc(cs, i - 1);
      ChoiceParts(p, q, ch);
      SettingParts(p, q, ch);
      SettingShowsOf(cs, i - 1, ch[..|p|]);
      SettingShows(cs[i - 1].argp, ch[|p|..]);
      Lengths(cs[i - 1].argp, Setting(q, ch[|p|..]), Setting(q, ch[|p|..]));
      LengthsOf(cs[..i - 1], Setting(p, ch[..|p|]), Setting(p, ch[..|p|]));
      LastChild(cs, i - 1, Setting(p, ch[..|p|]), Setting(q, ch[|p|..]));
    }
  }

  lemma JoinChoices(p: seq<string>, q: seq<string>, c: seq<nat>, e: seq<nat>)
    requires Choice(p, c) && Choice(q, e) && AllSmall(p) && AllSmall(q)
    ensures Choice(p + q, c + e) && AllSmall(p + q)
    ensures Setting(p + q, c + e) == Setting(p, c) + Setting(q, e)
  {
    hide Split;
    hide Setting;
    var docs, ch := p + q, c + e;
    forall i | 0 <= i < |docs| ensures ch[i] < |Split(docs[i])| <= 128 {
      assert docs[i] == if i < |p| then p[i] else q[i - |p|];
      assert ch[i] == if i < |p| then c[i] else e[i - |p|];
    }
    assert ch[..|p|] == c && ch[|p|..] == e;
    SettingParts(p, q, ch);
  }

  /** Every setting in range is that of a choice. */
  lemma {:induction false} SettingChosen(a: Argp, d: seq<Level>) returns (ch: seq<nat>)
    requires InRange(a, d) && AllSmall(Docs(Nodes(a)))
    ensures Choice(Docs(Nodes(a)), ch) && Setting(Docs(Nodes(a)), ch) == d
    decreases a, 1
  {
    hide LevelsOf;
    hide Docs;
    hide Setting;
    var own, below := Docs([a]), Docs(NodesOf(a.children));
    DocsFirst(a);
    SmallParts(own, below);
    assert a.children[..|a.children|] == a.children;
    var e := SettingChosenOf(a.children, |a.children|, Below(a, d));
    var c := OwnChosen(a, d);
    ch := c + e;
    JoinChoices(own, below, c, e);
    assert Multiple(a) ==> d == [d[0]] + d[1..];
    assert [] + d == d;
  }

  lemma SmallParts(p: seq<string>, q: seq<string>)
    requires AllSmall(p + q)
    ensures AllSmall(p) && AllSmall(q)
  {
    hide Split;
    assert forall i :: 0 <= i < |p| ==> (p + q)[i] == p[i];
    assert forall i :: 0 <= i < |q| ==> (p + q)[|p| + i] == q[i];
  }

  lemma {:induction false} OwnChosen(a: Argp, d: seq<Level>) returns (c: seq<nat>)
    requires InRange(a, d) && AllSmall(Docs([a]))
    ensures Choice(Docs([a]), c) && Setting(Docs([a]), c) == if Multiple(a) then [d[0]] else []
  {
    hide Split;
    hide Docs;
    hide Setting;
    hide Multiple;
    DocsFirst(a);
    MultipleAlts(a);
    if a.argsDoc.Some? {
      c := [Own(a, d)];
      OneSetting(a.argsDoc.value, c);
    } else {
      c := [];
      NoSetting(c);
    }
  }

  lemma {:induction false} SettingChosenOf(cs: seq<Child>, i: nat, d: seq<Level>) returns (ch: seq<nat>)
    requires i <= |cs| && InRangeOf(cs[..i], d) && AllSmall(Docs(NodesOf(cs[..i])))
    ensures Choice(Docs(NodesOf(cs[..i])), ch) && Setting(Docs(NodesOf(cs[..i])), ch) == d
    decreases cs, 0, i
  {
    hide Levels;
    hide InRange;
    hide Setting;
    if i == 0 {
      ch := [];
      assert NodesOf(cs[..0]) == [];
      NoSetting(ch);
    } else {
      assert cs[i - 1].argp < cs[i - 1];
      var p, q := Docs(NodesOf(cs[..i - 1])), Docs(Nodes(cs[i - 1].argp));
      DocsSnoc(cs, i - 1);
      SmallParts(p, q);
      assert cs[..i][..i - 1] == cs[..i - 1] && cs[..i][i - 1] == cs[i - 1];
      var k := LevelsOf(cs[..i - 1]);
      var c := SettingChosenOf(cs, i - 1, d[..k]);
      var e := SettingChosen(cs[i - 1].argp, d[k..]);
      ch := c + e;
      JoinChoices(p, q, c, e);
      assert d == d[..k] + d[k..];
    }
  }

  lemma {:induction false} SmallDocs(nodes: seq<Argp>)
    requires forall n :: n in nodes ==> Alts(n) <= 128
    ensures AllSmall(Docs(nodes))
    decreases |nodes|
  {
    hide Split;
    if nodes != [] {
      SmallDocs(nodes[1..]);
      assert nodes[0] in nodes;
    }
  }

  /** The number under which a choice is printed. */
  ghost function NumberOf(a: Argp, ch: seq<nat>): nat
    requires Small(a) && Choice(Docs(Nodes(a)), ch)
  {
    SmallDocs(Nodes(a));
    SettingShows(a, ch);
    Value(a, Setting(Docs(Nodes(a)), ch))
  }

  ghost predicate IsChoice(a: Argp, k: nat)
    requires Small(a)
  {
    exists ch :: Choice(Docs(Nodes(a)), ch) && NumberOf(a, ch) == k
  }

  /**
   The patterns are all ways to choose one line of each argument string of the tree: every choice is
   printed under its number, different choices have different numbers, and every number is that of a
   choice.
   */
  ghost predicate AllChoices(a: Argp, patterns: seq<seq<string>>)
    requires Small(a)
  {
    var docs := Docs(Nodes(a));
    && (forall ch :: Choice(docs, ch) ==> NumberOf(a, ch) < |patterns| && patterns[NumberOf(a, ch)] == Chosen(docs, ch))
    && (forall ch, ch' :: Choice(docs, ch) && Choice(docs, ch') && NumberOf(a, ch) == NumberOf(a, ch') ==> ch == ch')
    && (forall k :: 0 <= k < |patterns| ==> IsChoice(a, k))
  }

  lemma PatternsAreChoices(a: Argp, patterns: seq<seq<string>>)
    requires Small(a)
    requires forall d :: InRange(a, d) ==> Value(a, d) < |patterns| && patterns[Value(a, d)] == Pattern(a, d)
    requires forall k :: 0 <= k < |patterns| ==> IsSetting(a, k, patterns[k])
    ensures AllChoices(a, patterns)
  {
    hide Choice;
    hide Setting;
    hide Docs;
    hide Nodes;
    hide InRange;
    hide Value;
    hide Pattern;
    hide Levels;
    hide Chosen;
    var docs := Docs(Nodes(a));
    SmallDocs(Nodes(a));
    forall ch | Choice(docs, ch)
      ensures NumberOf(a, ch) < |patterns| && patterns[NumberOf(a, ch)] == Chosen(docs, ch)
    {
      SettingShows(a, ch);
    }
    forall ch, ch' | Choice(docs, ch) && Choice(docs, ch') && NumberOf(a, ch) == NumberOf(a, ch') ensures ch == ch' {
      SettingShows(a, ch);
      SettingShows(a, ch');
      ValueInjective(a, Setting(docs, ch), Setting(docs, ch'));
      SettingInjective(docs, ch, ch');
    }
    forall k | 0 <= k < |patterns| ensures IsChoice(a, k) {
      assert IsSetting(a, k, patterns[k]);
      var d :| InRange(a, d) && |d| == Levels(a) && Value(a, d) == k && patterns[k] == Pattern(a, d);
      var ch := SettingChosen(a, d);
      assert NumberOf(a, ch) == k;
    }
  }

  /** Some setting of the levels has the number `k` and shows `pattern`. */
  ghost predicate IsSetting(a: Argp, k: nat, pattern: seq<string>) {
    exists d :: InRange(a, d) && |d| == Levels(a) && Value(a, d) == k && pattern == Pattern(a, d)
  }

  /**
   Print all usage patterns.  There are exactly as many as combinations of alternatives, and they are
   all choices of one line for each argument string (`AllChoices`).  At the end all levels are zero
   again.
   */
  method UsagePatterns(a: Argp) returns (patterns: seq<seq<string>>, levels: array<Level>)
    requires Small(a)
    ensures levels.Length == Levels(a) && Zero(levels[..])
    ensures |patterns| == Total(a)
    ensures forall d :: InRange(a, d) ==> Value(a, d) < |patterns| && patterns[Value(a, d)] == Pattern(a, d)
    ensures forall k :: 0 <= k < |patterns| ==> IsSetting(a, k, patterns[k])
    ensures AllChoices(a, patterns)
  {
    hide Levels;
    hide Total;
    hide Value;
    hide InRange;
    hide Pattern;
    hide AllChoices;
    hide Small;
    hide IsSetting;
    var n := ArgsLevels(a);
    levels := new Level[n](_ => 0);
    patterns := [];
    ghost var shown: seq<seq<Level>> := [];
    ZeroValue(a, levels[..]);
    ValueBound(a, levels[..]);
    var more := true;
    while more
      invariant levels.Length == Levels(a) && InRange(a, levels[..])
      invariant |shown| == |patterns| <= Total(a)
      invariant forall k :: 0 <= k < |shown| ==>
        && InRange(a, shown[k]) && |shown[k]| == Levels(a)
        && Value(a, shown[k]) == k && patterns[k] == Pattern(a, shown[k])
      invariant if more then Value(a, levels[..]) == |patterns| < Total(a)
                else Value(a, levels[..]) == 0 && |patterns| == Total(a)
      decreases Total(a) - |patterns|, more
    {
      ghost var d := levels[..];
      assert levels[0..0 + Levels(a)] == d;
      var end, text;
      end, more, text := ArgsUsage(a, levels, 0, true);
      assert levels[0..end] == levels[..];
      patterns := patterns + [text];
      shown := shown + [d];
    }
    EachOnce(a, patterns, shown);
    PatternsAreChoices(a, patterns);
    AllZero(a, levels[..]);
  }

  /** A setting that shows 0 is all zero. */
  lemma AllZero(a: Argp, d: seq<Level>)
    requires InRange(a, d) && Value(a, d) == 0
    ensures Zero(d)
  {
    Lengths(a, d, d);
    var z := seq(|d|, _ => 0 as Level);
    ZeroValue(a, z);
    ValueInjective(a, d, z);
  }

  lemma EachOnce(a: Argp, patterns: seq<seq<string>>, shown: seq<seq<Level>>)
    requires |shown| == |patterns| == Total(a)
    requires forall k :: 0 <= k < |shown| ==>
      InRange(a, shown[k]) && |shown[k]| == Levels(a) && Value(a, shown[k]) == k && patterns[k] == Pattern(a, shown[k])
    ensures forall d :: InRange(a, d) ==>
      |d| == Levels(a) && Value(a, d) < |patterns| && patterns[Value(a, d)] == Pattern(a, d)
    ensures forall k :: 0 <= k < |patterns| ==> IsSetting(a, k, patterns[k])
  {
    hide Levels;
    hide Total;
    hide Value;
    hide InRange;
    hide Pattern;
    forall k | 0 <= k < |patterns| ensures IsSetting(a, k, patterns[k]) {
      assert InRange(a, shown[k]);
    }
    forall d | InRange(a, d)
      ensures |d| == Levels(a) && Value(a, d) < |patterns| && patterns[Value(a, d)] == Pattern(a, d)
    {
      Lengths(a, d, d);
      ValueBound(a, d);
      ValueInjective(a, d, shown[Value(a, d)]);
    }
  }
}
