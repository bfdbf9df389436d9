/**
 The order of the help list (argp/argp-help.c).  `Key` spells out, as one sequence of
 numbers, everything the comparison looks at; the methods are the comparison functions, and
 they agree with the lexicographic order of the keys.
 */
module HolOrder {
  import opened Options
  import opened Argps
  import opened Hols

  function Sign(x: int): int {
    if x < 0 then -1 else if x > 0 then 1 else 0
  }

  // ---------- Lexicographic order ----------

  /** Dictionary order: -1, 0 or 1; a proper prefix comes first. */
  function Lex(a: seq<int>, b: seq<int>): int {
    if a == [] then (if b == [] then 0 else -1)
    else if b == [] then 1
    else if a[0] != b[0] then Sign(a[0] - b[0])
    else Lex(a[1..], b[1..])
  }

  lemma {:induction false} LexSwap(a: seq<int>, b: seq<int>)
    ensures Lex(a, b) == -Lex(b, a)
    ensures Lex(a, b) == 0 <==> a == b
    decreases |a|
  {
    if a != [] && b != [] && a[0] == b[0] {
      LexSwap(a[1..], b[1..]);
      assert a == [a[0]] + a[1..] && b == [b[0]] + b[1..];
    }
  }

  lemma {:induction false} LexTransitive(a: seq<int>, b: seq<int>, c: seq<int>)
    requires Lex(a, b) <= 0 && Lex(b, c) <= 0
    ensures Lex(a, c) <= 0
    ensures Lex(a, b) < 0 || Lex(b, c) < 0 ==> Lex(a, c) < 0
    decreases |a|
  {
    if a != [] && b != [] && c != [] && a[0] == b[0] == c[0] {
      LexTransitive(a[1..], b[1..], c[1..]);
    }
  }

  lemma LexNothing(a: seq<int>)
    ensures a != [] ==> Lex(a, []) == 1 && Lex([], a) == -1
    ensures Lex([], []) == 0
  {
  }

  /** A common beginning does not matter. */
  lemma {:induction false} LexCommon(p: seq<int>, a: seq<int>, b: seq<int>)
    ensures Lex(p + a, p + b) == Lex(a, b)
    decreases |p|
  {
    if p == [] {
      assert p + a == a && p + b == b;
    } else {
      LexCommon(p[1..], a, b);
      assert (p + a)[1..] == p[1..] + a && (p + b)[1..] == p[1..] + b;
    }
  }

  /** Comparing the first elements. */
  lemma LexCons(x: int, y: int, a: seq<int>, b: seq<int>)
    ensures Lex([x] + a, [y] + b) == if x != y then Sign(x - y) else Lex(a, b)
  {
    assert ([x] + a)[1..] == a && ([y] + b)[1..] == b;
  }

  /** What lies between two sequences with a common prefix has that prefix too. */
  lemma {:induction false} LexBetween(p: seq<int>, a: seq<int>, b: seq<int>, c: seq<int>)
    requires p <= a && p <= c && Lex(a, b) <= 0 && Lex(b, c) <= 0
    ensures p <= b
    decreases |p|
  {
    if p != [] {
      LexBetween(p[1..], a[1..], b[1..], c[1..]);
    }
  }

  /** Sequences of equal length decide first. */
  lemma {:induction false} LexSplit(p: seq<int>, q: seq<int>, a: seq<int>, b: seq<int>)
    requires |p| == |q|
    ensures Lex(p + a, q + b) == if Lex(p, q) != 0 then Lex(p, q) else Lex(a, b)
    decreases |p|
  {
    if p == [] {
      assert p + a == a && q + b == b;
    } else {
      LexSplit(p[1..], q[1..], a, b);
      assert (p + a)[1..] == p[1..] + a && (q + b)[1..] == q[1..] + b;
    }
  }

  /** Sequences that differ decide, whatever follows them. */
  lemma {:induction false} LexFork(p: seq<int>, q: seq<int>, a: seq<int>, b: seq<int>)
    requires !(p <= q) && !(q <= p)
    ensures Lex(p + a, q + b) == Lex(p, q) != 0
    decreases |p|
  {
    assert p != [] && q != [];
    assert (p + a)[1..] == p[1..] + a && (q + b)[1..] == q[1..] + b;
    if p[0] == q[0] {
      assert p == [p[0]] + p[1..] && q == [q[0]] + q[1..];
      LexFork(p[1..], q[1..], a, b);
    }
  }

  // ---------- Groups ----------

  /** Groups that are not negative come first; among the others -1 is the last. */
  function GroupCmp(group1: int, group2: int): int {
    if (group1 < 0 && group2 < 0) || (group1 >= 0 && group2 >= 0) then group1 - group2
    else group2 - group1
  }

  function GroupCode(g: int): seq<int> {
    [if g < 0 then 1 else 0, g]
  }

  lemma GroupLex(g1: int, g2: int, a: seq<int>, b: seq<int>)
    ensures Lex(GroupCode(g1) + a, GroupCode(g2) + b)
      == if GroupCmp(g1, g2) != 0 then Sign(GroupCmp(g1, g2)) else Lex(a, b)
    ensures GroupCmp(g1, g2) == 0 <==> g1 == g2
  {
    var n1, n2 := if g1 < 0 then 1 else 0, if g2 < 0 then 1 else 0;
    assert GroupCode(g1) + a == [n1] + ([g1] + a) && GroupCode(g2) + b == [n2] + ([g2] + b);
    LexCons(n1, n2, [g1] + a, [g2] + b);
    LexCons(g1, g2, a, b);
  }

  // ---------- Clusters ----------

  /** The distance of a cluster from the root. */
  function Depth(c: Cluster): nat {
    if c.parent.None? then 0 else 1 + Depth(c.parent.value)
  }

  /** The ancestor of a cluster that has no parent. */
  function Base(c: Cluster): Cluster {
    if c.parent.None? then c else Base(c.parent.value)
  }

  /** `c` is `d` or an ancestor of `d`. */
  predicate Under(d: Cluster, c: Cluster) {
    d == c || (d.parent.Some? && Under(d.parent.value, c))
  }

  /** One step of the way from the root: a group, and an index of which the larger comes first. */
  function StepCode(c: Cluster): seq<int> {
    [1] + GroupCode(c.group) + [0 - c.index]
  }

  /** The way from the root to a cluster. */
  function Code(c: Cluster): (p: seq<int>)
    ensures |p| == 4 * (Depth(c) + 1)
  {
    (if c.parent.None? then [] else Code(c.parent.value)) + StepCode(c)
  }

  /** Compare clusters that have the same parent. */
  function SiblingCmp(c: Cluster, d: Cluster): int {
    if GroupCmp(c.group, d.group) != 0 then GroupCmp(c.group, d.group) else d.index - c.index
  }

  /** Compare clusters at the same depth. */
  function CousinCmp(c: Cluster, d: Cluster): int
    requires Depth(c) == Depth(d)
  {
    if c.parent == d.parent then SiblingCmp(c, d) else
    var cmp := CousinCmp(c.parent.value, d.parent.value);
    if cmp != 0 then cmp
    else if GroupCmp(c.group, d.group) != 0 then GroupCmp(c.group, d.group)
    else d.index - c.index
  }

  lemma StepLex(c: Cluster, d: Cluster)
    ensures Lex(StepCode(c), StepCode(d)) == Sign(SiblingCmp(c, d))
  {
    LexCommon([1], GroupCode(c.group) + [0 - c.index], GroupCode(d.group) + [0 - d.index]);
    assert StepCode(c) == [1] + (GroupCode(c.group) + [0 - c.index]);
    assert StepCode(d) == [1] + (GroupCode(d.group) + [0 - d.index]);
    GroupLex(c.group, d.group, [0 - c.index], [0 - d.index]);
    assert [0 - c.index] == [0 - c.index] + [] && [0 - d.index] == [0 - d.index] + [];
    LexCons(0 - c.index, 0 - d.index, [], []);
  }

  lemma {:induction false} CousinLex(c: Cluster, d: Cluster)
    requires Depth(c) == Depth(d)
    ensures Sign(CousinCmp(c, d)) == Lex(Code(c), Code(d))
    decreases c
  {
    StepLex(c, d);
    if c.parent == d.parent {
      LexCommon(if c.parent.None? then [] else Code(c.parent.value), StepCode(c), StepCode(d));
    } else {
      CousinLex(c.parent.value, d.parent.value);
      LexSplit(Code(c.parent.value), Code(d.parent.value), StepCode(c), StepCode(d));
    }
  }

  /** A deeper cluster compares as its ancestor does, or comes later. */
  lemma LiftLex(c: Cluster, up: Cluster, d: Cluster)
    requires Code(up) <= Code(c) && Depth(up) == Depth(d) < Depth(c)
    ensures var cmp := Lex(Code(up), Code(d));
      && Lex(Code(c), Code(d)) == (if cmp != 0 then cmp else 1)
      && Lex(Code(d), Code(c)) == (if cmp != 0 then -cmp else -1)
  {
    hide Code;
    hide Depth;
    hide Lex;
    var rest := Code(c)[|Code(up)|..];
    assert Code(c) == Code(up) + rest && Code(d) == Code(d) + [];
    LexNothing(rest);
    LexSplit(Code(up), Code(d), rest, []);
    LexSwap(Code(c), Code(d));
  }

  /** The ancestor of `c` at depth `depth`. */
  function Lifted(c: Cluster, depth: nat): Cluster
    requires Depth(c) > depth
  {
    var up := c.parent.value;
    if Depth(up) > depth then Lifted(up, depth) else up
  }

  lemma {:induction false} LiftedWay(c: Cluster, depth: nat)
    requires Depth(c) > depth
    ensures Depth(Lifted(c, depth)) == depth && Code(Lifted(c, depth)) <= Code(c) && Under(c, Lifted(c, depth))
    decreases c
  {
    var up := c.parent.value;
    if Depth(up) > depth {
      LiftedWay(up, depth);
    } else {
      assert Under(up, up);
    }
  }

  /** The loop that follows the parents up to the depth of the other cluster. */
  method Lift(c: Cluster, depth: nat) returns (up: Cluster)
    requires Depth(c) > depth
    ensures up == Lifted(c, depth)
    ensures Depth(up) == depth && Code(up) <= Code(c) && Under(c, up)
  {
    up := c.parent.value;
    while Depth(up) > depth
      invariant Depth(up) >= depth
      invariant Lifted(c, depth) == if Depth(up) > depth then Lifted(up, depth) else up
      decreases Depth(up)
    {
      up := up.parent.value;
    }
    LiftedWay(c, depth);
  }

  lemma {:induction false} UnderParent(d: Cluster, c: Cluster)
    requires Under(d, c) && c.parent.Some?
    ensures Under(d, c.parent.value)
    decreases d
  {
    if d != c {
      UnderParent(d.parent.value, c);
    } else {
      assert Under(c.parent.value, c.parent.value);
    }
  }

  /** Compare any two clusters, the deeper one by its ancestor at the depth of the other. */
  function ClusterCmp(c: Cluster, d: Cluster): int {
    if Depth(c) > Depth(d) then
      LiftedWay(c, Depth(d));
      var cmp := CousinCmp(Lifted(c, Depth(d)), d);
      if cmp == 0 then 1 else cmp
    else if Depth(c) < Depth(d) then
      LiftedWay(d, Depth(c));
      var cmp := CousinCmp(c, Lifted(d, Depth(c)));
      if cmp == 0 then -1 else cmp
    else
      CousinCmp(c, d)
  }

  /**
   Despite the lifting this is the lexicographic order of the ways from the root, in which a
   cluster comes before the clusters inside it.
   */
  lemma ClusterCmpLex(c: Cluster, d: Cluster)
    ensures Sign(ClusterCmp(c, d)) == Lex(Code(c), Code(d))
  {
    hide Lex;
    hide Code;
    hide CousinCmp;
    hide Depth;
    if Depth(c) > Depth(d) {
      LiftedWay(c, Depth(d));
      var up := Lifted(c, Depth(d));
      CousinLex(up, d);
      LiftLex(c, up, d);
    } else if Depth(c) < Depth(d) {
      LiftedWay(d, Depth(c));
      var up := Lifted(d, Depth(c));
      CousinLex(c, up);
      LiftLex(d, up, c);
      LexSwap(Code(c), Code(up));
    } else {
      CousinLex(c, d);
    }
  }

  /** The ancestor just below the root. */
  method ClusterBase(c: Cluster) returns (b: Cluster)
    ensures b == Base(c)
  {
    b := c;
    while b.parent.Some?
      invariant Base(b) == Base(c)
      decreases b
    {
      b := b.parent.value;
    }
  }

  // ---------- Names ----------

  predicate IsSpace(ch: char) {
    ch == ' ' || '\t' <= ch <= '\r'
  }

  predicate IsAlnum(ch: char) {
    'a' <= ch <= 'z' || 'A' <= ch <= 'Z' || '0' <= ch <= '9'
  }

  predicate NotAlnum(ch: char) {
    !IsAlnum(ch)
  }

  /** tolower in the C locale. */
  function Lower(k: int): int {
    if 'A' as int <= k <= 'Z' as int then k + 32 else k
  }

  function Lowered(s: string): seq<int> {
    if s == [] then [] else [Lower(s[0] as int)] + Lowered(s[1..])
  }

  /** Skip characters for which `p` holds. */
  function Skip(s: string, p: char -> bool): string {
    if s != [] && p(s[0]) then Skip(s[1..], p) else s
  }

  /** The part of the name of a documentation option that sorting looks at. */
  function Canon(name: string): string {
    Skip(Skip(name, IsSpace), NotAlnum)
  }

  /** A documentation option that does not look like an option. */
  predicate NonOption(name: string) {
    var s := Skip(name, IsSpace);
    s == [] || s[0] != '-'
  }

  method CanonDocOption(name: string) returns (tail: string, nonOpt: bool)
    ensures tail == Canon(name) && nonOpt == NonOption(name)
  {
    tail := name;
    while tail != [] && IsSpace(tail[0])
      invariant Skip(tail, IsSpace) == Skip(name, IsSpace)
      decreases |tail|
    {
      tail := tail[1..];
    }
    nonOpt := tail == [] || tail[0] != '-';
    ghost var start := tail;
    while tail != [] && NotAlnum(tail[0])
      invariant Skip(tail, NotAlnum) == Skip(start, NotAlnum)
      decreases |tail|
    {
      tail := tail[1..];
    }
  }

  /** The name of the first visible option that has one. */
  function FirstLong(opts: seq<Opt>): Option<string> {
    if opts == [] then None
    else if opts[0].name.Some? && opts[0].IsVisible() then opts[0].name
    else FirstLong(opts[1..])
  }

  /** The letter of the first valid and visible short option, or 0. */
  function FirstShort(opts: seq<Opt>, valid: seq<bool>): int
    requires |opts| == |valid|
  {
    if opts == [] then 0
    else if valid[0] && opts[0].IsVisible() then opts[0].key
    else FirstShort(opts[1..], valid[1..])
  }

  method EntryFirstLong(e: Entry) returns (name: Option<string>)
    ensures name == FirstLong(e.item.opts)
  {
    var opts := e.item.opts;
    while opts != []
      invariant FirstLong(opts) == FirstLong(e.item.opts)
      decreases |opts|
    {
      if opts[0].name.Some? && opts[0].IsVisible() {
        return opts[0].name;
      }
      opts := opts[1..];
    }
    return None;
  }

  method EntryFirstShort(e: Entry, short: string) returns (letter: int)
    ensures letter == FirstShort(e.item.opts, Decode(e.item.opts, short, e.so))
  {
    var opts, so: nat := e.item.opts, e.so;
    while opts != []
      invariant FirstShort(opts, Decode(opts, short, so)) == FirstShort(e.item.opts, Decode(e.item.opts, short, e.so))
      decreases |opts|
    {
      if opts[0].IsShort() && so < |short| && short[so] == opts[0].Letter() {
        if opts[0].IsVisible() {
          return opts[0].key;
        }
        so := so + 1;
      }
      opts := opts[1..];
    }
    return 0;
  }

  /** strcasecmp: compare names without regard to case. */
  function CaseCmp(a: string, b: string): int {
    if a == [] || b == [] then |a| - |b|
    else if Lower(a[0] as int) != Lower(b[0] as int) then Lower(a[0] as int) - Lower(b[0] as int)
    else CaseCmp(a[1..], b[1..])
  }

  lemma {:induction false} CaseCmpLex(a: string, b: string)
    ensures Sign(CaseCmp(a, b)) == Lex(Lowered(a), Lowered(b))
    decreases |a|
  {
    if a != [] && b != [] {
      LexCons(Lower(a[0] as int), Lower(b[0] as int), Lowered(a[1..]), Lowered(b[1..]));
      CaseCmpLex(a[1..], b[1..]);
    }
  }

  // ---------- Entries ----------

  /** Everything the comparison reads from an entry besides its groups and clusters. */
  datatype Face = Face(doc: bool, short: int, long: Option<string>)
  {
    function First(): int {
      if short != 0 then short
      else if long.Some? && long.value != [] then long.value[0] as int
      else 0
    }

    function NameCode(): seq<int> {
      if short != 0 then [] else if long.None? then [0] else [1] + Lowered(long.value)
    }

    function Code(): seq<int> {
      [if doc then 1 else 0, Lower(First()), 0 - First(), if short != 0 then 1 else 0] + NameCode()
    }
  }

  function FaceOf(e: Entry, short: string): Face
    requires e.item.opts != []
  {
    var opts := e.item.opts;
    var long := FirstLong(opts);
    var doc := opts[0].flags.doc && long.Some?;
    Face(doc && NonOption(long.value),
         FirstShort(opts, Decode(opts, short, e.so)),
         if doc then Some(Canon(long.value)) else long)
  }

  /** The group an entry sorts by first: that of its outermost cluster, if it has one. */
  function OuterGroup(item: Item): int {
    if item.cluster.Some? then Base(item.cluster.value).group else item.group
  }

  function PlaceCode(cluster: Option<Cluster>): seq<int> {
    if cluster.None? then [0] else [1] + Code(cluster.value) + [0]
  }

  /** The sort key of an entry. */
  function Key(e: Entry, short: string): seq<int>
    requires e.item.opts != []
  {
    GroupCode(OuterGroup(e.item)) + (PlaceCode(e.item.cluster) + (GroupCode(e.item.group) + FaceOf(e, short).Code()))
  }

  lemma FaceLex(f: Face, g: Face)
    ensures var d := (if f.doc then 1 else 0) - (if g.doc then 1 else 0);
      var s := (if f.short != 0 then 1 else 0) - (if g.short != 0 then 1 else 0);
      Lex(f.Code(), g.Code()) ==
        if d != 0 then Sign(d)
        else if Lower(f.First()) != Lower(g.First()) then Sign(Lower(f.First()) - Lower(g.First()))
        else if f.First() != g.First() then Sign(g.First() - f.First())
        else if s != 0 then Sign(s)
        else Lex(f.NameCode(), g.NameCode())
  {
    hide Lex;
    hide Lower;
    hide Face.NameCode;
    hide Face.First;
    var n, m := f.NameCode(), g.NameCode();
    var d1, d2 := if f.doc then 1 else 0, if g.doc then 1 else 0;
    var l1, l2 := Lower(f.First()), Lower(g.First());
    var c1, c2 := 0 - f.First(), 0 - g.First();
    var s1, s2 := if f.short != 0 then 1 else 0, if g.short != 0 then 1 else 0;
    assert f.Code() == [d1] + ([l1] + ([c1] + ([s1] + n)));
    assert g.Code() == [d2] + ([l2] + ([c2] + ([s2] + m)));
    LexCons(d1, d2, [l1] + ([c1] + ([s1] + n)), [l2] + ([c2] + ([s2] + m)));
    LexCons(l1, l2, [c1] + ([s1] + n), [c2] + ([s2] + m));
    LexCons(c1, c2, [s1] + n, [s2] + m);
    LexCons(s1, s2, n, m);
  }

  /** The names matter only for entries without a short option. */
  lemma NameLex(f: Face, g: Face)
    requires (f.short == 0) == (g.short == 0)
    ensures Lex(f.NameCode(), g.NameCode()) ==
      if f.short != 0 then 0
      else if f.long.Some? != g.long.Some? then (if f.long.Some? then 1 else -1)
      else if f.long.Some? then Lex(Lowered(f.long.value), Lowered(g.long.value))
      else 0
  {
    if f.short == 0 {
      if f.long.Some? && g.long.Some? {
        LexCommon([1], Lowered(f.long.value), Lowered(g.long.value));
      }
    }
  }

  /** Compare the faces of two entries that agree in group and cluster. */
  function FaceCmp(f: Face, g: Face): int {
    // documentation options that do not look like options come last
    var doc := (if f.doc then 1 else 0) - (if g.doc then 1 else 0);
    // then by the first character, ignoring case, lower case first
    var first := Lower(f.First()) - Lower(g.First());
    var cased := g.First() - f.First();
    var short := (if f.short != 0 then 1 else 0) - (if g.short != 0 then 1 else 0);
    var long := (if f.long.Some? then 1 else 0) - (if g.long.Some? then 1 else 0);
    if doc != 0 then doc
    else if first != 0 then first
    else if cased != 0 then cased
    else if short != 0 then short
    else if f.short != 0 then 0
    else if long != 0 then long
    else if f.long.None? then 0
    else CaseCmp(f.long.value, g.long.value)
  }

  lemma FaceCmpLex(f: Face, g: Face)
    ensures Sign(FaceCmp(f, g)) == Lex(f.Code(), g.Code())
  {
    hide Lex;
    hide Lower;
    hide Lowered;
    hide Face.First;
    hide Face.NameCode;
    hide Face.Code;
    hide CaseCmp;
    FaceLex(f, g);
    if (f.short == 0) == (g.short == 0) {
      NameLex(f, g);
    }
    if f.long.Some? && g.long.Some? {
      CaseCmpLex(f.long.value, g.long.value);
    }
  }

  // The steps of a way are marked, so that the end of a way can be told from one more step.
  lemma {:induction false} CodeMarks(c: Cluster, k: nat)
    requires k < Depth(c) + 1
    ensures Code(c)[4 * k] == 1
    decreases c
  {
    if k < Depth(c) {
      CodeMarks(c.parent.value, k);
    }
  }

  lemma WayEnds(c: Cluster, d: Cluster, a: seq<int>, b: seq<int>)
    ensures Lex(Code(c) + ([0] + a), Code(d) + ([0] + b))
      == if Code(c) != Code(d) then Lex(Code(c), Code(d)) else Lex(a, b)
    ensures Lex(Code(c), Code(d)) == 0 <==> Code(c) == Code(d)
  {
    LexSwap(Code(c), Code(d));
    if Code(c) == Code(d) {
      LexCommon(Code(c), [0] + a, [0] + b);
      LexCons(0, 0, a, b);
    } else if Code(c) <= Code(d) {
      WayGoesOn(c, d, a, b);
    } else if Code(d) <= Code(c) {
      WayGoesOn(d, c, b, a);
      LexSwap(Code(c) + ([0] + a), Code(d) + ([0] + b));
    } else {
      LexFork(Code(c), Code(d), [0] + a, [0] + b);
    }
  }

  lemma WayGoesOn(c: Cluster, d: Cluster, a: seq<int>, b: seq<int>)
    requires Code(c) < Code(d)
    ensures Lex(Code(c) + ([0] + a), Code(d) + ([0] + b)) == -1 == Lex(Code(c), Code(d))
    ensures Depth(c) < Depth(d)
  {
    hide Code;
    hide Depth;
    var p, q := Code(c), Code(d);
    var rest := q[|p|..];
    CodeMarks(d, Depth(c) + 1);
    assert q == p + rest && p == p + [] && rest[0] == 1;
    LexCommon(p, [], rest);
    LexCommon(p, [0] + a, rest + ([0] + b));
    assert q + ([0] + b) == p + (rest + ([0] + b));
    assert rest + ([0] + b) == [1] + (rest[1..] + ([0] + b));
    LexCons(0, 1, a, rest[1..] + ([0] + b));
  }

  lemma PlaceLex(c: Option<Cluster>, d: Option<Cluster>, a: seq<int>, b: seq<int>)
    ensures Lex(PlaceCode(c) + a, PlaceCode(d) + b) ==
      if c.Some? != d.Some? then (if c.Some? then 1 else -1)
      else if c.Some? && Code(c.value) != Code(d.value) then Lex(Code(c.value), Code(d.value))
      else Lex(a, b)
  {
    var x, y := if c.Some? then 1 else 0, if d.Some? then 1 else 0;
    var p := if c.Some? then Code(c.value) + ([0] + a) else a;
    var q := if d.Some? then Code(d.value) + ([0] + b) else b;
    assert PlaceCode(c) + a == [x] + p && PlaceCode(d) + b == [y] + q;
    LexCons(x, y, p, q);
    if c.Some? && d.Some? {
      WayEnds(c.value, d.value, a, b);
    }
  }

  /** The order of two entries in the help. */
  function EntryCmp(e1: Entry, e2: Entry, short: string): int
    requires e1.item.opts != [] && e2.item.opts != []
  {
    var c1, c2 := e1.item.cluster, e2.item.cluster;
    // the group of the outermost cluster, if there is one
    var outer := GroupCmp(OuterGroup(e1.item), OuterGroup(e2.item));
    // entries in no cluster come first
    var clustered := (if c1.Some? then 1 else 0) - (if c2.Some? then 1 else 0);
    var cluster := if c1.Some? && c2.Some? then ClusterCmp(c1.value, c2.value) else 0;
    var group := GroupCmp(e1.item.group, e2.item.group);
    if outer != 0 then outer
    else if clustered != 0 then clustered
    else if cluster != 0 then cluster
    else if group != 0 then group
    else FaceCmp(FaceOf(e1, short), FaceOf(e2, short))
  }

  /** The comparison has the sign of the lexicographic order of the keys. */
  lemma EntryCmpLex(e1: Entry, e2: Entry, short: string)
    requires e1.item.opts != [] && e2.item.opts != []
    ensures Sign(EntryCmp(e1, e2, short)) == Lex(Key(e1, short), Key(e2, short))
  {
    hide Lex;
    hide Code;
    hide PlaceCode;
    hide FaceOf;
    hide Face.Code;
    hide ClusterCmp;
    hide FaceCmp;
    var f1, f2 := FaceOf(e1, short).Code(), FaceOf(e2, short).Code();
    var g1, g2 := GroupCode(e1.item.group) + f1, GroupCode(e2.item.group) + f2;
    GroupLex(OuterGroup(e1.item), OuterGroup(e2.item),
             PlaceCode(e1.item.cluster) + g1, PlaceCode(e2.item.cluster) + g2);
    PlaceLex(e1.item.cluster, e2.item.cluster, g1, g2);
    GroupLex(e1.item.group, e2.item.group, f1, f2);
    if e1.item.cluster.Some? && e2.item.cluster.Some? {
      WayEnds(e1.item.cluster.value, e2.item.cluster.value, g1, g2);
      ClusterCmpLex(e1.item.cluster.value, e2.item.cluster.value);
    }
    FaceCmpLex(FaceOf(e1, short), FaceOf(e2, short));
  }

  /** Everything `FaceCmp` needs of an entry, found by the loops over its options. */
  method LookAt(e: Entry, short: string) returns (face: Face)
    requires e.item.opts != []
    ensures face == FaceOf(e, short)
  {
    var long := EntryFirstLong(e);
    var doc := false;
    if e.item.opts[0].flags.doc && long.Some? {
      var tail, nonOpt := CanonDocOption(long.value);
      long, doc := Some(tail), nonOpt;
    }
    var letter := EntryFirstShort(e, short);
    face := Face(doc, letter, long);
  }

  /**
   The comparison is a total preorder: swapping the entries swaps the sign, and the four laws
   that the comment on hol_entry_cmp promises hold.
   */
  lemma TotalPreorder(e1: Entry, e2: Entry, e3: Entry, short: string)
    requires e1.item.opts != [] && e2.item.opts != [] && e3.item.opts != []
    ensures var c12, c21 := EntryCmp(e1, e2, short), EntryCmp(e2, e1, short);
      var c23, c13 := EntryCmp(e2, e3, short), EntryCmp(e1, e3, short);
      && Sign(c12) == -Sign(c21)
      && (c12 < 0 && c23 < 0 ==> c13 < 0)
      && (c12 < 0 && c23 == 0 ==> c13 < 0)
      && (c12 == 0 && c23 < 0 ==> c13 < 0)
      && (c12 == 0 && c23 == 0 ==> c13 == 0)
  {
    hide EntryCmp;
    hide Key;
    hide Lex;
    var k1, k2, k3 := Key(e1, short), Key(e2, short), Key(e3, short);
    EntryCmpLex(e1, e2, short);
    EntryCmpLex(e2, e1, short);
    EntryCmpLex(e2, e3, short);
    EntryCmpLex(e1, e3, short);
    LexSwap(k1, k2);
    LexSwap(k2, k3);
    LexSwap(k1, k3);
    if EntryCmp(e1, e2, short) <= 0 && EntryCmp(e2, e3, short) <= 0 {
      LexTransitive(k1, k2, k3);
    }
  }

  // ---------- What the order means ----------

  /** The order of groups: those that are not negative first, each kind in increasing order. */
  predicate Earlier(g: int, h: int) {
    (g >= 0 && h < 0) || ((g < 0) == (h < 0) && g < h)
  }

  /** `r` is the outermost cluster that `c` is in. */
  predicate RootOf(r: Cluster, c: Cluster) {
    r.parent == None && Under(c, r)
  }

  lemma {:induction false} RootIsBase(r: Cluster, c: Cluster)
    requires RootOf(r, c)
    ensures Base(c) == r
    decreases c
  {
    if c != r {
      RootIsBase(r, c.parent.value);
    }
  }

  /**
   Entries in no cluster are ordered by their own groups, entries in clusters by the groups of their
   outermost clusters; at equal groups an entry in no cluster comes first.
   */
  lemma OrderByGroup(e1: Entry, e2: Entry, short: string)
    requires e1.item.opts != [] && e2.item.opts != []
    ensures e1.item.cluster == None == e2.item.cluster && Earlier(e1.item.group, e2.item.group) ==>
      EntryCmp(e1, e2, short) < 0
    ensures forall r :: e1.item.cluster == None && e2.item.cluster.Some? && RootOf(r, e2.item.cluster.value) ==>
      (EntryCmp(e1, e2, short) < 0 <==> e1.item.group == r.group || Earlier(e1.item.group, r.group))
    ensures e1.item.cluster.Some? && e2.item.cluster.Some? ==>
      forall q, r :: RootOf(q, e1.item.cluster.value) && RootOf(r, e2.item.cluster.value) && Earlier(q.group, r.group)
        ==> EntryCmp(e1, e2, short) < 0
  {
    hide ClusterCmp;
    hide FaceCmp;
    hide FaceOf;
    hide Base;
    if e2.item.cluster.Some? {
      forall r | RootOf(r, e2.item.cluster.value) ensures Base(e2.item.cluster.value) == r {
        RootIsBase(r, e2.item.cluster.value);
      }
    }
    if e1.item.cluster.Some? {
      forall r | RootOf(r, e1.item.cluster.value) ensures Base(e1.item.cluster.value) == r {
        RootIsBase(r, e1.item.cluster.value);
      }
    }
  }

  /** Within one cluster, or in none, entries of different groups are ordered by these. */
  lemma OrderWithinCluster(e1: Entry, e2: Entry, short: string)
    requires e1.item.opts != [] && e2.item.opts != [] && e1.item.cluster == e2.item.cluster
    requires Earlier(e1.item.group, e2.item.group)
    ensures EntryCmp(e1, e2, short) < 0
  {
    hide ClusterCmp;
    hide FaceCmp;
    hide FaceOf;
    if e1.item.cluster.Some? {
      ClusterCmpLex(e1.item.cluster.value, e2.item.cluster.value);
      LexSwap(Code(e1.item.cluster.value), Code(e2.item.cluster.value));
    }
  }

  lemma {:induction false} UnderWay(d: Cluster, c: Cluster)
    requires Under(d, c)
    ensures Code(c) <= Code(d) && Base(c) == Base(d)
    decreases d
  {
    if d != c {
      UnderWay(d.parent.value, c);
    }
  }

  /** The ways to two siblings decide about the ways to everything inside them. */
  lemma {:induction false} SiblingWays(x: Cluster, y: Cluster, c: Cluster, d: Cluster)
    requires Under(x, c) && Under(y, d) && c.parent == d.parent && SiblingCmp(c, d) < 0
    ensures Lex(Code(x), Code(y)) < 0
  {
    hide Lex;
    hide StepCode;
    hide SiblingCmp;
    UnderWay(x, c);
    UnderWay(y, d);
    var up := if c.parent.None? then [] else Code(c.parent.value);
    var p, q := Code(x)[|Code(c)|..], Code(y)[|Code(d)|..];
    assert Code(x) == up + (StepCode(c) + p) && Code(y) == up + (StepCode(d) + q);
    LexCommon(up, StepCode(c) + p, StepCode(d) + q);
    StepLex(c, d);
    StepSize(c);
    StepSize(d);
    LexSplit(StepCode(c), StepCode(d), p, q);
  }

  /**
   Of two clusters inside the same one, all entries of the first come before all of the second, inner
   clusters included, when its group is earlier or, for equal groups, its index is larger.
   */
  lemma OrderOfSiblings(e1: Entry, e2: Entry, c: Cluster, d: Cluster, short: string)
    requires e1.item.opts != [] && e2.item.opts != [] && e1.item.cluster.Some? && e2.item.cluster.Some?
    requires Under(e1.item.cluster.value, c) && Under(e2.item.cluster.value, d) && c.parent == d.parent
    requires Earlier(c.group, d.group) || (c.group == d.group && c.index > d.index)
    ensures EntryCmp(e1, e2, short) < 0
  {
    hide Lex;
    hide Code;
    hide Under;
    hide FaceCmp;
    hide FaceOf;
    hide ClusterCmp;
    var x, y := e1.item.cluster.value, e2.item.cluster.value;
    UnderWay(x, c);
    UnderWay(y, d);
    SiblingWays(x, y, c, d);
    ClusterCmpLex(x, y);
  }

  lemma StepSize(c: Cluster)
    ensures |StepCode(c)| == 4
  {
  }

  /** The same letter, up to case. */
  predicate SameLetter(x: char, y: char) {
    x == y || ('A' <= x <= 'Z' && y as int == x as int + 32) || ('A' <= y <= 'Z' && x as int == y as int + 32)
  }

  /** Names that differ only in the case of letters compare equal, and no others do. */
  lemma {:induction false} CaseCmpSame(a: string, b: string)
    ensures CaseCmp(a, b) == 0 <==> |a| == |b| && forall i :: 0 <= i < |a| ==> SameLetter(a[i], b[i])
    decreases |a|
  {
    if a != [] && b != [] {
      CaseCmpSame(a[1..], b[1..]);
      assert forall i :: 0 <= i < |a| - 1 ==> a[1..][i] == a[i + 1];
      assert forall i :: 0 <= i < |b| - 1 ==> b[1..][i] == b[i + 1];
      if CaseCmp(a, b) == 0 {
        forall i | 0 <= i < |a| ensures SameLetter(a[i], b[i]) {
          if i > 0 {
            assert SameLetter(a[1..][i - 1], b[1..][i - 1]);
          }
        }
      }
      if |a| == |b| && forall i :: 0 <= i < |a| ==> SameLetter(a[i], b[i]) {
        assert SameLetter(a[0], b[0]);
        forall i | 0 <= i < |a| - 1 ensures SameLetter(a[1..][i], b[1..][i]) {
          assert SameLetter(a[i + 1], b[i + 1]);
        }
      }
    }
  }

  /** Letters are in alphabetical order whatever their case, and a lower-case letter before its capital. */
  lemma LettersOrdered(f: Face, g: Face)
    requires f.doc == g.doc && 'a' as int <= f.short <= 'z' as int
    ensures f.short < g.short <= 'z' as int ==> FaceCmp(f, g) < 0
    ensures 'A' as int <= g.short <= 'Z' as int ==>
      (FaceCmp(f, g) < 0 <==> f.short - 'a' as int <= g.short - 'A' as int)
  {
  }

  /**
   Documentation that does not look like an option comes last.  Of two entries with the same first
   character, one without a short option comes first, and two without are ordered by their names.
   */
  lemma FacesOrdered(f: Face, g: Face)
    ensures !f.doc && g.doc ==> FaceCmp(f, g) < 0
    ensures f.doc == g.doc && f.First() == g.First() && f.short == 0 != g.short ==> FaceCmp(f, g) < 0
    ensures f.doc == g.doc && f.First() == g.First() && f.short == 0 == g.short && f.long.Some? && g.long.Some? ==>
      FaceCmp(f, g) == CaseCmp(f.long.value, g.long.value)
  {
  }

  /** The name taken is that of the first visible option with a name. */
  lemma {:induction false} FirstLongFirst(opts: seq<Opt>)
    ensures var n := FirstLong(opts);
      if n == None then forall i :: 0 <= i < |opts| ==> opts[i].name == None || opts[i].flags.hidden
      else exists i :: 0 <= i < |opts| && opts[i].name == n && !opts[i].flags.hidden &&
             forall j :: 0 <= j < i ==> opts[j].name == None || opts[j].flags.hidden
    decreases |opts|
  {
    if opts != [] && !(opts[0].name.Some? && opts[0].IsVisible()) {
      FirstLongFirst(opts[1..]);
      var n := FirstLong(opts);
      var rest := opts[1..];
      if n != None {
        var i :| 0 <= i < |rest| && rest[i].name == n && !rest[i].flags.hidden &&
                 forall j :: 0 <= j < i ==> rest[j].name == None || rest[j].flags.hidden;
        assert opts[i + 1] == rest[i];
        forall j | 0 <= j < i + 1 ensures opts[j].name == None || opts[j].flags.hidden {
          assert j > 0 ==> opts[j] == rest[j - 1];
        }
      } else {
        forall i | 0 <= i < |opts| ensures opts[i].name == None || opts[i].flags.hidden {
          assert i > 0 ==> opts[i] == rest[i - 1];
        }
      }
    }
  }

  /** The letter taken is that of the first visible option that is valid; 0 means that there is none. */
  lemma {:induction false} FirstShortFirst(opts: seq<Opt>, valid: seq<bool>)
    requires |opts| == |valid| && forall i :: 0 <= i < |opts| && valid[i] ==> opts[i].key != 0
    ensures var k := FirstShort(opts, valid);
      if k == 0 then forall i :: 0 <= i < |opts| ==> !valid[i] || opts[i].flags.hidden
      else exists i :: 0 <= i < |opts| && valid[i] && !opts[i].flags.hidden && opts[i].key == k &&
             forall j :: 0 <= j < i ==> !valid[j] || opts[j].flags.hidden
    decreases |opts|
  {
    if opts != [] && !(valid[0] && opts[0].IsVisible()) {
      var rest, more := opts[1..], valid[1..];
      FirstShortFirst(rest, more);
      var k := FirstShort(opts, valid);
      if k != 0 {
        var i :| 0 <= i < |rest| && more[i] && !rest[i].flags.hidden && rest[i].key == k &&
                 forall j :: 0 <= j < i ==> !more[j] || rest[j].flags.hidden;
        assert opts[i + 1] == rest[i] && valid[i + 1] == more[i];
        forall j | 0 <= j < i + 1 ensures !valid[j] || opts[j].flags.hidden {
          assert j > 0 ==> opts[j] == rest[j - 1] && valid[j] == more[j - 1];
        }
      } else {
        forall i | 0 <= i < |opts| ensures !valid[i] || opts[i].flags.hidden {
          assert i > 0 ==> opts[i] == rest[i - 1] && valid[i] == more[i - 1];
        }
      }
    }
  }

  /** Skipping stops at the first character that is not to be skipped. */
  lemma {:induction false} SkipStops(s: string, p: char -> bool) returns (k: nat)
    ensures k <= |s| && Skip(s, p) == s[k..] && (k < |s| ==> !p(s[k]))
    ensures forall j :: 0 <= j < k ==> p(s[j])
    decreases |s|
  {
    k := 0;
    assert s[0..] == s;
    if s != [] && p(s[0]) {
      var n := SkipStops(s[1..], p);
      k := n + 1;
      assert s[1..][n..] == s[k..];
      forall j | 0 <= j < k ensures p(s[j]) {
        assert j > 0 ==> s[1..][j - 1] == s[j];
      }
    }
  }

  /** `name` has white space up to `i` and then neither letters nor digits up to `k`. */
  predicate Leads(name: string, i: nat, k: nat) {
    && i <= k <= |name|
    && (forall j :: 0 <= j < i ==> IsSpace(name[j])) && (i < |name| ==> !IsSpace(name[i]))
    && (forall j :: i <= j < k ==> !IsAlnum(name[j])) && (k < |name| ==> IsAlnum(name[k]))
  }

  /**
   A documentation name is taken for an option exactly when a dash is its first character after white
   space, and is sorted by what follows from its first letter or digit on.
   */
  lemma DocNames(name: string) returns (i: nat, k: nat)
    ensures Leads(name, i, k)
    ensures Canon(name) == name[k..] && (NonOption(name) <==> i == |name| || name[i] != '-')
  {
    i := SkipStops(name, IsSpace);
    var rest := name[i..];
    var m := SkipStops(rest, NotAlnum);
    k := i + m;
    assert rest[m..] == name[k..];
    forall j | i <= j < k ensures !IsAlnum(name[j]) {
      assert name[j] == rest[j - i];
    }
  }
}
