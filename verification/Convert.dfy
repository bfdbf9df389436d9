/**
 The tables argp/argp-parse.c builds for getopt: a short option string, a table of long
 options and a list of groups, one for each argp that has options or a parser.  `Build` is the
 contents the tables should have; the class `Parser` fills storage whose size was computed
 beforehand, without a look at what will be put there.
 */
module Converts {
  import opened Options
  import opened Argps

  // ---------- Groups ----------

  predicate HasGroup(a: Argp) {
    a.options.Some? || a.hasParser
  }

  /** An argp that gets a group, its parent's group and its number among the parent's children. */
  datatype Placed = Placed(argp: Argp, parent: Option<nat>, index: nat)

  /** The groups of a tree in preorder, when `n` groups come before them. */
  function GroupsOf(a: Argp, parent: Option<nat>, index: nat, n: nat): seq<Placed>
    decreases a, 1
  {
    if HasGroup(a) then
      [Placed(a, parent, index)] + GroupsOfChildren(a.children, 0, Some(n), n + 1)
    else
      GroupsOfChildren(a.children, 0, None, n)
  }

  /** The groups of the children from number `i` on, which are `cs`. */
  function GroupsOfChildren(cs: seq<Child>, i: nat, parent: Option<nat>, n: nat): seq<Placed>
    decreases cs, 0
  {
    if cs == [] then [] else
    assert cs[0].argp < cs[0];
    var first := GroupsOf(cs[0].argp, parent, i, n);
    first + GroupsOfChildren(cs[1..], i + 1, parent, n + |first|)
  }

  // ---------- What a group adds ----------

  /** The most recent line that is not an alias. */
  function Real(os: seq<Opt>, i: nat): Opt
    requires i < |os|
  {
    if i == 0 || !os[i].flags.alias then os[i] else Real(os, i - 1)
  }

  /** The line is an option for the parser, not just documentation. */
  predicate Parsed(os: seq<Opt>, i: nat)
    requires i < |os|
  {
    !Real(os, i).flags.doc
  }

  /** What a line adds to the short option string. */
  function Piece(os: seq<Opt>, i: nat): (s: string)
    requires i < |os|
    ensures |s| <= 3
  {
    if !Parsed(os, i) || !os[i].IsShort() then ""
    else [os[i].Letter()] + if !Real(os, i).hasArg then "" else if Real(os, i).flags.argOptional then "::" else ":"
  }

  function ShortText(os: seq<Opt>, n: nat): string
    requires n <= |os|
  {
    if n == 0 then "" else ShortText(os, n - 1) + Piece(os, n - 1)
  }

  datatype HasArg = NoArgument | RequiredArgument | OptionalArgument

  datatype LongOpt = LongOpt(name: string, hasArg: HasArg, val: int)

  const USER_RANGE := 0x100_0000
  const INT_RANGE := 0x1_0000_0000

  /** What is left of a number when it is stored in an int. */
  function Truncated(x: int): int {
    (x + INT_RANGE / 2) % INT_RANGE - INT_RANGE / 2
  }

  /** The value of a long option: the user's key in the low bits, the group above them. */
  function EncodeVal(key: int, group: nat): int {
    Truncated(key % USER_RANGE + (group + 1) * USER_RANGE)
  }

  function LineVal(os: seq<Opt>, i: nat, group: nat): int
    requires i < |os|
  {
    EncodeVal(if os[i].key != 0 then os[i].key else Real(os, i).key, group)
  }

  predicate Names(long: seq<LongOpt>, name: string) {
    exists j :: 0 <= j < |long| && long[j].name == name
  }

  /** The long table after one more line of group `group`. */
  function LongAdd(long: seq<LongOpt>, os: seq<Opt>, i: nat, group: nat): seq<LongOpt>
    requires i < |os|
  {
    if Parsed(os, i) && os[i].name.Some? && !Names(long, os[i].name.value) then
      var arg := if !Real(os, i).hasArg then NoArgument
                 else if Real(os, i).flags.argOptional then OptionalArgument
                 else RequiredArgument;
      long + [LongOpt(os[i].name.value, arg, LineVal(os, i, group))]
    else
      long
  }

  function LongTable(long: seq<LongOpt>, os: seq<Opt>, n: nat, group: nat): seq<LongOpt>
    requires n <= |os|
  {
    if n == 0 then long else LongAdd(LongTable(long, os, n - 1, group), os, n - 1, group)
  }

  /** A group: where its short options end, its place in the tree, and its slots for child inputs. */
  datatype Group = Group(argp: Argp, shortEnd: nat, parent: Option<nat>, parentIndex: nat, inputs: nat)

  datatype Tables = Tables(short: string, long: seq<LongOpt>, groups: seq<Group>, inputs: nat)

  function AddGroup(t: Tables, p: Placed): Tables {
    var os := p.argp.Table();
    var short := t.short + ShortText(os, |os|);
    Tables(short,
           LongTable(t.long, os, |os|, |t.groups|),
           t.groups + [Group(p.argp, |short|, p.parent, p.index, t.inputs)],
           t.inputs + |p.argp.children|)
  }

  /** The tables for a list of groups, with `prefix` in front of the short options. */
  function Build(prefix: string, ps: seq<Placed>): (t: Tables)
    ensures |t.groups| == |ps|
  {
    if ps == [] then Tables(prefix, [], [], 0)
    else AddGroup(Build(prefix, ps[..|ps| - 1]), ps[|ps| - 1])
  }

  lemma BuildNext(prefix: string, ps: seq<Placed>, p: Placed)
    ensures Build(prefix, ps + [p]) == AddGroup(Build(prefix, ps), p)
  {
    assert (ps + [p])[..|ps|] == ps;
  }

  // ---------- Sizes ----------

  /** What calc_sizes adds up. */
  datatype Sizes = Sizes(short: nat, long: nat, groups: nat, inputs: nat)

  function Grow(z: Sizes, a: Argp): Sizes {
    Sizes(z.short + 3 * |a.Table()|, z.long + |a.Table()|,
          z.groups + (if HasGroup(a) then 1 else 0), z.inputs + |a.children|)
  }

  function GrowAll(z: Sizes, nodes: seq<Argp>): Sizes
    decreases |nodes|
  {
    if nodes == [] then z else GrowAll(Grow(z, nodes[0]), nodes[1..])
  }

  lemma {:induction false} GrowAllAppend(z: Sizes, a: seq<Argp>, b: seq<Argp>)
    ensures GrowAll(z, a + b) == GrowAll(GrowAll(z, a), b)
    decreases |a|
  {
    if a == [] {
      assert a + b == b;
    } else {
      GrowAllAppend(Grow(z, a[0]), a[1..], b);
      assert (a + b)[1..] == a[1..] + b;
    }
  }

  /** The first pass over the tree. */
  method CalcSizes(a: Argp, z: Sizes) returns (z': Sizes)
    ensures z' == GrowAll(z, Nodes(a))
    decreases a
  {
    z' := z;
    if a.options.Some? || a.hasParser {
      z' := z'.(groups := z'.groups + 1);
      if a.options.Some? {
        var n := |a.options.value|;
        z' := z'.(short := z'.short + n * 3, long := z'.long + n);
      }
    }
    ghost var z1 := z'.(inputs := z.inputs + |a.children|);
    assert z1 == Grow(z, a);
    var i, extra := 0, 0;
    // the slots of a child are counted after its subtree; the sums are the same
    assert a.children[..0] == [];
    while i < |a.children|
      invariant 0 <= i <= |a.children| && extra == i
      invariant z'.(inputs := z'.inputs + |a.children| - extra) == GrowAll(z1, NodesOf(a.children[..i]))
    {
      assert a.children[i].argp < a.children[i];
      ghost var before := z';
      z' := CalcSizes(a.children[i].argp, z');
      NodesOfSnoc(a.children, i);
      GrowAllAppend(z1, NodesOf(a.children[..i]), Nodes(a.children[i].argp));
      GrowShift(before, |a.children| - extra, Nodes(a.children[i].argp));
      z' := z'.(inputs := z'.inputs + 1);
      extra := extra + 1;
      i := i + 1;
    }
    assert a.children[..i] == a.children;
    assert Nodes(a)[1..] == NodesOf(a.children);
  }

  /** More slots to begin with are more slots in the end. */
  lemma {:induction false} GrowShift(z: Sizes, k: nat, nodes: seq<Argp>)
    ensures var y := GrowAll(z, nodes); GrowAll(z.(inputs := z.inputs + k), nodes) == y.(inputs := y.inputs + k)
    decreases |nodes|
  {
    if nodes != [] {
      GrowShift(Grow(z, nodes[0]), k, nodes[1..]);
    }
  }

  /** The argps of a list that get a group. */
  function Grouped(nodes: seq<Argp>): seq<Argp> {
    if nodes == [] then [] else
    (if HasGroup(nodes[0]) then [nodes[0]] else []) + Grouped(nodes[1..])
  }

  /** The number of children of a list of argps. */
  function Slots(nodes: seq<Argp>): nat {
    if nodes == [] then 0 else |nodes[0].children| + Slots(nodes[1..])
  }

  function Args(ps: seq<Placed>): seq<Argp> {
    seq(|ps|, i requires 0 <= i < |ps| => ps[i].argp)
  }

  lemma GroupedFirst(nodes: seq<Argp>)
    ensures Grouped([]) == []
    ensures nodes != [] ==> Grouped(nodes) == (if HasGroup(nodes[0]) then [nodes[0]] else []) + Grouped(nodes[1..])
  {
  }

  lemma {:induction false} GroupedAppend(a: seq<Argp>, b: seq<Argp>)
    ensures Grouped(a + b) == Grouped(a) + Grouped(b)
    decreases |a|
  {
    hide Grouped;
    hide HasGroup;
    GroupedFirst(a);
    if a == [] {
      assert a + b == b;
    } else {
      GroupedAppend(a[1..], b);
      GroupedFirst(a + b);
      assert (a + b)[1..] == a[1..] + b && (a + b)[0] == a[0];
    }
  }

  lemma {:induction false} SlotsAppend(a: seq<Argp>, b: seq<Argp>)
    ensures Slots(a + b) == Slots(a) + Slots(b)
    decreases |a|
  {
    if a == [] {
      assert a + b == b;
    } else {
      SlotsAppend(a[1..], b);
      assert (a + b)[1..] == a[1..] + b;
    }
  }

  lemma OneArgp(a: Argp)
    ensures OptionsOf([a]) == a.Table() && Slots([a]) == |a.children|
    ensures Grouped([a]) == if HasGroup(a) then [a] else []
  {
    assert [a][1..] == [];
    assert OptionsOf([a]) == a.Table() + OptionsOf([]);
  }

  lemma ArgsAppend(a: seq<Placed>, b: seq<Placed>)
    ensures Args(a + b) == Args(a) + Args(b)
  {
  }

  /** The groups are the argps of the tree that need one, in preorder. */
  lemma {:induction false} GroupsAreNodes(a: Argp, parent: Option<nat>, index: nat, n: nat)
    ensures Args(GroupsOf(a, parent, index, n)) == Grouped(Nodes(a))
    decreases a, 1
  {
    GroupedAppend([a], NodesOf(a.children));
    OneArgp(a);
    if HasGroup(a) {
      GroupsOfChildrenAreNodes(a.children, 0, Some(n), n + 1);
      var p := [Placed(a, parent, index)];
      ArgsAppend(p, GroupsOfChildren(a.children, 0, Some(n), n + 1));
      assert Args(p) == [a];
    } else {
      GroupsOfChildrenAreNodes(a.children, 0, None, n);
    }
  }

  lemma {:induction false} GroupsOfChildrenAreNodes(cs: seq<Child>, i: nat, parent: Option<nat>, n: nat)
    ensures Args(GroupsOfChildren(cs, i, parent, n)) == Grouped(NodesOf(cs))
    decreases cs, 0
  {
    if cs != [] {
      assert cs[0].argp < cs[0];
      var first := GroupsOf(cs[0].argp, parent, i, n);
      GroupsAreNodes(cs[0].argp, parent, i, n);
      GroupsOfChildrenAreNodes(cs[1..], i + 1, parent, n + |first|);
      ArgsAppend(first, GroupsOfChildren(cs[1..], i + 1, parent, n + |first|));
      GroupedAppend(Nodes(cs[0].argp), NodesOf(cs[1..]));
    }
  }

  /** Argps without a group have no options. */
  lemma {:induction false} GroupedOptions(nodes: seq<Argp>)
    ensures OptionsOf(Grouped(nodes)) == OptionsOf(nodes) && Slots(Grouped(nodes)) <= Slots(nodes)
    decreases |nodes|
  {
    if nodes != [] {
      GroupedOptions(nodes[1..]);
      if HasGroup(nodes[0]) {
        assert Grouped(nodes)[1..] == Grouped(nodes[1..]);
      } else {
        assert Grouped(nodes) == Grouped(nodes[1..]) && nodes[0].Table() == [];
      }
    }
  }

  lemma {:induction false} GrowAllIs(z: Sizes, nodes: seq<Argp>)
    ensures GrowAll(z, nodes) == Sizes(z.short + 3 * |OptionsOf(nodes)|, z.long + |OptionsOf(nodes)|,
                                       z.groups + |Grouped(nodes)|, z.inputs + Slots(nodes))
    decreases |nodes|
  {
    if nodes != [] {
      GrowAllIs(Grow(z, nodes[0]), nodes[1..]);
    }
  }

  lemma {:induction false} ShortTextSize(os: seq<Opt>, n: nat)
    requires n <= |os|
    ensures |ShortText(os, n)| <= 3 * n
    decreases n
  {
    if n > 0 {
      ShortTextSize(os, n - 1);
    }
  }

  lemma {:induction false} LongTableSize(long: seq<LongOpt>, os: seq<Opt>, n: nat, group: nat)
    requires n <= |os|
    ensures |long| <= |LongTable(long, os, n, group)| <= |long| + n
    decreases n
  {
    if n > 0 {
      LongTableSize(long, os, n - 1, group);
    }
  }

  lemma OnePlaced(p: Placed)
    ensures Args([p]) == [p.argp]
  {
  }

  lemma ArgsLast(ps: seq<Placed>)
    requires ps != []
    ensures var n := |ps| - 1; Args(ps) == Args(ps[..n]) + [ps[n].argp]
    ensures OptionsOf(Args(ps)) == OptionsOf(Args(ps[..|ps| - 1])) + ps[|ps| - 1].argp.Table()
    ensures Slots(Args(ps)) == Slots(Args(ps[..|ps| - 1])) + |ps[|ps| - 1].argp.children|
  {
    hide OptionsOf;
    hide Slots;
    hide Args;
    var n := |ps| - 1;
    ArgsAppend(ps[..n], [ps[n]]);
    assert ps == ps[..n] + [ps[n]];
    OnePlaced(ps[n]);
    OneArgp(ps[n].argp);
    OptionsOfAppend(Args(ps[..n]), [ps[n].argp]);
    SlotsAppend(Args(ps[..n]), [ps[n].argp]);
  }

  /** How much storage the tables take. */
  lemma {:induction false} BuildSize(prefix: string, ps: seq<Placed>)
    ensures var t := Build(prefix, ps); var n := |OptionsOf(Args(ps))|;
      |t.short| <= |prefix| + 3 * n && |t.long| <= n && t.inputs == Slots(Args(ps))
    decreases |ps|
  {
    if ps != [] {
      var n := |ps| - 1;
      BuildSize(prefix, ps[..n]);
      ArgsLast(ps);
      var os := ps[n].argp.Table();
      ShortTextSize(os, |os|);
      LongTableSize(Build(prefix, ps[..n]).long, os, |os|, n);
    }
  }

  /**
   The first pass computes enough for the second: exactly the number of groups, and no less
   than the tables of options and child inputs need.
   */
  lemma SizesSuffice(a: Argp, prefix: string)
    requires |prefix| <= 1
    ensures var z := GrowAll(Sizes(1, 0, 0, 0), Nodes(a));
      var ps := GroupsOf(a, None, 0, 0); var t := Build(prefix, ps);
      && |ps| == |t.groups| == z.groups
      && |t.short| <= z.short && |t.long| <= z.long && t.inputs <= z.inputs
  {
    hide Build;
    hide GroupsOf;
    hide Nodes;
    hide Grouped;
    hide GrowAll;
    GrowAllIs(Sizes(1, 0, 0, 0), Nodes(a));
    GroupsAreNodes(a, None, 0, 0);
    GroupedOptions(Nodes(a));
    BuildSize(prefix, GroupsOf(a, None, 0, 0));
  }

  // ---------- Filling the storage ----------

  class Parser {
    const short: array<char>
    const long: array<Option<LongOpt>>
    const groups: array<Group>
    const inputSlots: nat
    var shortEnd: nat
    var longEnd: nat
    var inputsEnd: nat

    /** Separate storage, and the cursors within it. */
    ghost predicate Shape()
      reads this
    {
      && short as object != long && short as object != groups && long as object != groups
      && shortEnd < short.Length && longEnd < long.Length && inputsEnd <= inputSlots
    }

    /** The storage holds the tables `t`, with their terminators; `group` is the next free group. */
    ghost predicate Holds(t: Tables, group: nat)
      reads this, short, long, groups
    {
      && Shape() && group <= groups.Length
      && short[..shortEnd] == t.short && short[shortEnd] == '\0'
      && longEnd == |t.long| && (forall i :: 0 <= i < longEnd ==> long[i] == Some(t.long[i])) && long[longEnd] == None
      && groups[..group] == t.groups && inputsEnd == t.inputs
    }

    /** There is room for the options and groups of `nodes`. */
    ghost predicate Room(nodes: seq<Argp>, group: nat)
      reads this
    {
      && shortEnd + 3 * |OptionsOf(nodes)| < short.Length
      && longEnd + |OptionsOf(nodes)| < long.Length
      && group + |Grouped(nodes)| <= groups.Length
      && inputsEnd + Slots(Grouped(nodes)) <= inputSlots
    }

    /** Storage of the sizes that were computed, and the tables before any argp. */
    constructor (z: Sizes, prefix: string)
      requires |prefix| <= 1 <= z.short
      ensures Holds(Build(prefix, []), 0) && fresh(short) && fresh(long) && fresh(groups)
      ensures shortEnd == |prefix| && longEnd == 0 && inputsEnd == 0
      ensures short.Length == z.short + 1 && long.Length == z.long + 1
      ensures groups.Length == z.groups + 1 && inputSlots == z.inputs
    {
      short := new char[z.short + 1](i => if 0 <= i < |prefix| then prefix[i] else '\0');
      long := new Option<LongOpt>[z.long + 1](_ => None);
      groups := new Group[z.groups + 1];
      inputSlots := z.inputs;
      shortEnd, longEnd, inputsEnd := |prefix|, 0, 0;
    }

    /** The offset of a long option with this name, or -1. */
    method FindLongOption(name: string, ghost t: Tables, ghost group: nat) returns (at: int)
      requires Holds(t, group)
      ensures at < 0 <==> !Names(t.long, name)
      ensures at >= 0 ==> at < |t.long| && t.long[at].name == name
    {
      var l := 0;
      while long[l].Some?
        invariant 0 <= l <= longEnd
        invariant forall j :: 0 <= j < l ==> t.long[j].name != name
        decreases longEnd - l
      {
        if long[l].value.name == name {
          return l;
        }
        l := l + 1;
      }
      return -1;
    }

    /** Append to the short option string and keep it terminated. */
    method AddShort(s: string, ghost t: Tables, ghost group: nat)
      requires Holds(t, group) && shortEnd + |s| < short.Length
      modifies this`shortEnd, short
      ensures Holds(t.(short := t.short + s), group) && shortEnd == old(shortEnd) + |s|
    {
      forall i | 0 <= i < |s| {
        short[shortEnd + i] := s[i];
      }
      shortEnd := shortEnd + |s|;
      short[shortEnd] := '\0';
      assert short[..shortEnd] == old(short[..shortEnd]) + s;
    }

    /** Append to the long option table and keep it terminated. */
    method AddLong(o: LongOpt, ghost t: Tables, ghost group: nat)
      requires Holds(t, group) && longEnd + 1 < long.Length
      modifies this`longEnd, long
      ensures Holds(t.(long := t.long + [o]), group) && longEnd == old(longEnd) + 1
    {
      long[longEnd] := Some(o);
      longEnd := longEnd + 1;
      long[longEnd] := None;
      assert short[..shortEnd] == old(short[..shortEnd]) && groups[..group] == old(groups[..group]);
    }

    /** One line of an options table, whose most recent line that is no alias is `lead`. */
    method ConvertLine(os: seq<Opt>, i: nat, lead: Opt, group: nat, ghost t: Tables)
      requires i < |os| && lead == Real(os, i)
      requires Holds(t, group) && shortEnd + 3 < short.Length && longEnd + 1 < long.Length
      modifies this`shortEnd, this`longEnd, short, long
      ensures Holds(t.(short := t.short + Piece(os, i), long := LongAdd(t.long, os, i, group)), group)
      ensures shortEnd <= old(shortEnd) + 3 && longEnd <= old(longEnd) + 1
    {
      hide Holds;
      hide Real;
      hide Names;
      var opt := os[i];
      assert t.short + "" == t.short;
      ghost var t' := t;
      HoldsShape(t, group);
      if !lead.flags.doc {
        if opt.IsShort() {
          var piece := [opt.Letter()];
          if lead.hasArg {
            piece := piece + ":";
            if lead.flags.argOptional {
              piece := piece + ":";
            }
          }
          assert piece == Piece(os, i);
          AddShort(piece, t, group);
          t' := t.(short := t.short + piece);
        }
        assert t' == t.(short := t.short + Piece(os, i));
        if opt.name.Some? {
          var at := FindLongOption(opt.name.value, t', group);
          if at < 0 {
            var arg := if !lead.hasArg then NoArgument
                       else if lead.flags.argOptional then OptionalArgument
                       else RequiredArgument;
            var val := EncodeVal(if opt.key != 0 then opt.key else lead.key, group);
            AddLong(LongOpt(opt.name.value, arg, val), t', group);
          }
        }
      }
    }

    lemma HoldsShape(t: Tables, group: nat)
      requires Holds(t, group)
      ensures Shape() && group == |t.groups| <= groups.Length
      ensures |t.short| == shortEnd && |t.long| == longEnd && t.inputs == inputsEnd
    {
    }

    /** All lines of the options table of an argp. */
    method ConvertTable(os: seq<Opt>, group: nat, ghost t: Tables)
      requires Holds(t, group) && shortEnd + 3 * |os| < short.Length && longEnd + |os| < long.Length
      modifies this`shortEnd, this`longEnd, short, long
      ensures Holds(t.(short := t.short + ShortText(os, |os|), long := LongTable(t.long, os, |os|, group)), group)
      ensures shortEnd <= old(shortEnd) + 3 * |os| && longEnd <= old(longEnd) + |os|
    {
      hide Holds;
      if |os| > 0 {
        var lead, i := os[0], 0;
        assert t.short + "" == t.short;
        ghost var text := "";
        while i < |os|
          invariant 0 <= i <= |os| && (i > 0 ==> lead == Real(os, i - 1)) && (i == 0 ==> lead == os[0])
          invariant text == ShortText(os, i)
          invariant Holds(t.(short := t.short + text, long := LongTable(t.long, os, i, group)), group)
          invariant shortEnd <= old(shortEnd) + 3 * i && longEnd <= old(longEnd) + i
        {
          if !os[i].flags.alias {
            lead := os[i];
          }
          ConvertLine(os, i, lead, group, t.(short := t.short + text, long := LongTable(t.long, os, i, group)));
          assert t.short + text + Piece(os, i) == t.short + (text + Piece(os, i));
          text := text + Piece(os, i);
          i := i + 1;
        }
      } else {
        assert t.short + "" == t.short;
      }
    }

    /** An argp that has options or a parser: its options, and then its group. */
    method ConvertGroup(p: Placed, group: nat, prefix: string, ghost ps: seq<Placed>)
      requires Holds(Build(prefix, ps), group)
      requires shortEnd + 3 * |p.argp.Table()| < short.Length && longEnd + |p.argp.Table()| < long.Length
      requires group < groups.Length && inputsEnd + |p.argp.children| <= inputSlots
      modifies this, short, long, groups
      ensures Holds(Build(prefix, ps + [p]), group + 1)
      ensures shortEnd <= old(shortEnd) + 3 * |p.argp.Table()| && longEnd <= old(longEnd) + |p.argp.Table()|
      ensures inputsEnd == old(inputsEnd) + |p.argp.children|
    {
      hide Build;
      hide ShortText;
      hide LongTable;
      ghost var t := Build(prefix, ps);
      var os := p.argp.Table();
      ConvertTable(os, group, t);
      groups[group] := Group(p.argp, shortEnd, p.parent, p.index, inputsEnd);
      inputsEnd := inputsEnd + |p.argp.children|;
      BuildNext(prefix, ps, p);
      assert groups[..group + 1] == old(groups[..group]) + [groups[group]];
    }

    /** An argp and the tree below it; `rest` is what comes after it. */
    method ConvertOptions(a: Argp, parent: Option<nat>, index: nat, group: nat, prefix: string,
                          ghost ps: seq<Placed>, ghost rest: seq<Argp>) returns (next: nat)
      requires Holds(Build(prefix, ps), group) && Room(Nodes(a) + rest, group)
      modifies this, short, long, groups
      ensures Holds(Build(prefix, ps + GroupsOf(a, parent, index, group)), next) && Room(rest, next)
      ensures next == group + |GroupsOf(a, parent, index, group)|
      decreases a, 1
    {
      hide Build;
      hide Holds;
      hide OptionsOf;
      hide Grouped;
      hide Slots;
      hide GroupsOfChildren;
      hide NodesOf;
      ghost var after := NodesOf(a.children) + rest;
      NodeNeeds(a, after);
      assert Nodes(a) + rest == [a] + after;
      if a.options.Some? || a.hasParser {
        ghost var p := Placed(a, parent, index);
        ConvertGroup(Placed(a, parent, index), group, prefix, ps);
        next := ConvertChildren(a.children, Some(group), group + 1, prefix, ps + [p], rest);
        assert ps + [p] + GroupsOfChildren(a.children, 0, Some(group), group + 1)
            == ps + ([p] + GroupsOfChildren(a.children, 0, Some(group), group + 1));
      } else {
        next := ConvertChildren(a.children, None, group, prefix, ps, rest);
      }
    }

    /** The children of an argp, in order. */
    method ConvertChildren(cs: seq<Child>, parent: Option<nat>, group: nat, prefix: string,
                           ghost ps: seq<Placed>, ghost rest: seq<Argp>) returns (next: nat)
      requires Holds(Build(prefix, ps), group) && Room(NodesOf(cs) + rest, group)
      modifies this, short, long, groups
      ensures Holds(Build(prefix, ps + GroupsOfChildren(cs, 0, parent, group)), next) && Room(rest, next)
      ensures next == group + |GroupsOfChildren(cs, 0, parent, group)|
      decreases cs, 0
    {
      hide Build;
      hide Holds;
      hide Room;
      hide Nodes;
      hide GroupsOf;
      next := group;
      var i := 0;
      ghost var done: seq<Placed> := [];
      assert cs[0..] == cs && ps + done == ps;
      while i < |cs|
        invariant 0 <= i <= |cs| && next == group + |done|
        invariant done + GroupsOfChildren(cs[i..], i, parent, next) == GroupsOfChildren(cs, 0, parent, group)
        invariant Holds(Build(prefix, ps + done), next) && Room(NodesOf(cs[i..]) + rest, next)
      {
        var c := cs[i];
        assert c.argp < c;
        assert cs[i..][1..] == cs[i + 1..];
        ghost var first := GroupsOf(c.argp, parent, i, next);
        ghost var later := NodesOf(cs[i + 1..]) + rest;
        assert NodesOf(cs[i..]) + rest == Nodes(c.argp) + later;
        next := ConvertOptions(c.argp, parent, i, next, prefix, ps + done, later);
        assert ps + done + first == ps + (done + first);
        done := done + first;
        i := i + 1;
      }
      assert cs[i..] == [] && [] + rest == rest && done + [] == done;
    }
  }

  /** What an argp takes of the room for it and what follows it. */
  lemma NodeNeeds(a: Argp, rest: seq<Argp>)
    ensures |OptionsOf([a] + rest)| == |a.Table()| + |OptionsOf(rest)|
    ensures |Grouped([a] + rest)| == (if HasGroup(a) then 1 else 0) + |Grouped(rest)|
    ensures Slots(Grouped([a] + rest)) == (if HasGroup(a) then |a.children| else 0) + Slots(Grouped(rest))
  {
    hide OptionsOf;
    hide Grouped;
    OneArgp(a);
    OptionsOfAppend([a], rest);
    GroupedAppend([a], rest);
    if HasGroup(a) {
      SlotsAppend([a], Grouped(rest));
    } else {
      assert [] + Grouped(rest) == Grouped(rest);
    }
  }

  /** The groups of all parsers; without an argp there are none. */
  function AllGroups(argp: Option<Argp>): seq<Placed> {
    if argp.None? then [] else GroupsOf(argp.value, None, 0, 0)
  }

  /**
   The two passes together: storage of the computed sizes is filled with exactly the tables
   for the tree, terminators included, and exactly all groups are used.
   */
  method ParserConvert(argp: Option<Argp>, inOrder: bool) returns (parser: Parser, egroup: nat)
    ensures fresh(parser)
    ensures var ps := AllGroups(argp);
      parser.Holds(Build(if inOrder then "-" else "", ps), egroup) && egroup == |ps| == parser.groups.Length - 1
  {
    hide Build;
    hide Nodes;
    hide GroupsOf;
    hide GrowAll;
    hide OptionsOf;
    hide Grouped;
    hide Slots;
    var z, prefix := Sizes(1, 0, 0, 0), if inOrder then "-" else "";
    if argp.None? {
      parser := new Parser(z, prefix);
      return parser, 0;
    }
    var a := argp.value;
    z := CalcSizes(a, z);
    GrowAllIs(Sizes(1, 0, 0, 0), Nodes(a));
    GroupedOptions(Nodes(a));
    GroupsAreNodes(a, None, 0, 0);
    parser := new Parser(z, prefix);
    assert Nodes(a) + [] == Nodes(a) && [] + GroupsOf(a, None, 0, 0) == GroupsOf(a, None, 0, 0);
    egroup := parser.ConvertOptions(a, None, 0, 0, prefix, [], []);
  }
}
