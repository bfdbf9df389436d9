/**
 What the tables of `Converts` mean: where a group finds the input its parent left for it,
 which long option a name or a value stands for, and which group a short option goes to.
 */
module Dispatches {
  import opened Options
  import opened Argps
  import opened Converts

  // ---------- Inputs for children ----------

  /** Every group with a parent comes after it and is the child the parent index says. */
  ghost predicate Linked(ps: seq<Placed>) {
    forall k :: 0 <= k < |ps| && ps[k].parent.Some? ==>
      var q := ps[k].parent.value;
      q < k && ps[k].index < |ps[q].argp.children| && ps[q].argp.children[ps[k].index].argp == ps[k].argp
  }

  lemma {:induction false} LinkedGroups(pre: seq<Placed>, a: Argp, parent: Option<nat>, index: nat)
    requires Linked(pre)
    requires parent.Some? ==> parent.value < |pre| && index < |pre[parent.value].argp.children| &&
                              pre[parent.value].argp.children[index].argp == a
    ensures Linked(pre + GroupsOf(a, parent, index, |pre|))
    decreases a, 1
  {
    hide GroupsOfChildren;
    if HasGroup(a) {
      var p := Placed(a, parent, index);
      var pre' := pre + [p];
      assert Linked(pre');
      assert a.children[0..] == a.children;
      LinkedChildren(pre', a.children, 0, Some(|pre|));
      assert pre' + GroupsOfChildren(a.children, 0, Some(|pre|), |pre'|)
          == pre + ([p] + GroupsOfChildren(a.children, 0, Some(|pre|), |pre'|));
    } else {
      LinkedChildren(pre, a.children, 0, None);
    }
  }

  lemma {:induction false} LinkedChildren(pre: seq<Placed>, cs: seq<Child>, i: nat, parent: Option<nat>)
    requires Linked(pre)
    requires parent.Some? ==> parent.value < |pre| && i <= |pre[parent.value].argp.children| &&
                              cs == pre[parent.value].argp.children[i..]
    ensures Linked(pre + GroupsOfChildren(cs, i, parent, |pre|))
    decreases cs, 0
  {
    hide GroupsOf;
    if cs == [] {
      assert pre + [] == pre;
    } else {
      assert cs[0].argp < cs[0];
      var first := GroupsOf(cs[0].argp, parent, i, |pre|);
      LinkedGroups(pre, cs[0].argp, parent, i);
      var pre' := pre + first;
      LinkedChildren(pre', cs[1..], i + 1, parent);
      var later := GroupsOfChildren(cs[1..], i + 1, parent, |pre'|);
      assert pre' + later == pre + (first + later);
    }
  }

  /** The group at `k` in the tables is as it was made. */
  lemma {:induction false} GroupAt(prefix: string, ps: seq<Placed>, k: nat)
    requires k < |ps|
    ensures var g := Build(prefix, ps).groups[k];
      && g.argp == ps[k].argp && g.parent == ps[k].parent && g.parentIndex == ps[k].index
      && g.inputs == Slots(Args(ps[..k]))
      && g.shortEnd == |Build(prefix, ps[..k + 1]).short|
    decreases |ps|
  {
    hide ShortText;
    hide LongTable;
    var n := |ps| - 1;
    if k == n {
      BuildSize(prefix, ps[..n]);
      assert ps[..k + 1] == ps;
    } else {
      GroupAt(prefix, ps[..n], k);
      assert ps[..n][..k] == ps[..k] && ps[..n][..k + 1] == ps[..k + 1];
    }
  }

  lemma {:induction false} SlotsPrefix(ps: seq<Placed>, j: nat, k: nat)
    requires j < k <= |ps|
    ensures Slots(Args(ps[..j])) + |ps[j].argp.children| <= Slots(Args(ps[..k]))
    decreases k
  {
    hide Args;
    hide Slots;
    ArgsLast(ps[..k]);
    assert ps[..k][..k - 1] == ps[..k - 1];
    if j < k - 1 {
      SlotsPrefix(ps, j, k - 1);
    }
  }

  /** The slots of every group lie within the storage, and those of different groups do not overlap. */
  lemma ChildSlots(prefix: string, a: Argp, k: nat)
    requires k < |GroupsOf(a, None, 0, 0)|
    ensures var t := Build(prefix, GroupsOf(a, None, 0, 0)); var gs := t.groups;
      && gs[k].inputs + |gs[k].argp.children| <= t.inputs
      && forall j :: 0 <= j < k ==> gs[j].inputs + |gs[j].argp.children| <= gs[k].inputs
  {
    hide Build;
    hide GroupsOf;
    hide Args;
    hide Slots;
    var ps := GroupsOf(a, None, 0, 0);
    assert ps[..|ps|] == ps;
    GroupAt(prefix, ps, k);
    SlotsPrefix(ps, k, |ps|);
    BuildSize(prefix, ps);
    forall j | 0 <= j < k
      ensures var gs := Build(prefix, ps).groups; gs[j].inputs + |gs[j].argp.children| <= gs[k].inputs
    {
      GroupAt(prefix, ps, j);
      SlotsPrefix(ps, j, k);
    }
  }

  /** The slot in which a group looks for its input belongs to its parent and lies within the storage. */
  lemma ChildInputs(prefix: string, a: Argp, k: nat)
    requires k < |GroupsOf(a, None, 0, 0)|
    ensures var t := Build(prefix, GroupsOf(a, None, 0, 0)); var gs := t.groups;
      gs[k].parent.Some? ==>
        var q := gs[k].parent.value;
        && q < k && gs[k].parentIndex < |gs[q].argp.children|
        && gs[q].inputs + gs[k].parentIndex < t.inputs
        && gs[q].argp.children[gs[k].parentIndex].argp == gs[k].argp
  {
    hide Build;
    hide GroupsOf;
    hide Args;
    hide Slots;
    var ps := GroupsOf(a, None, 0, 0);
    LinkedGroups([], a, None, 0);
    assert [] + ps == ps;
    GroupAt(prefix, ps, k);
    if ps[k].parent.Some? {
      var q := ps[k].parent.value;
      GroupAt(prefix, ps, q);
      ChildSlots(prefix, a, q);
    }
  }

  // ---------- Long options ----------

  /** Line `i` of group `k` is an option for the parser with this name. */
  predicate NamedLine(ps: seq<Placed>, k: int, i: int, name: string) {
    0 <= k < |ps| && 0 <= i < |ps[k].argp.Table()| &&
    Parsed(ps[k].argp.Table(), i) && ps[k].argp.Table()[i].name == Some(name)
  }

  predicate Before(k: int, i: int, m: int, n: int) {
    k < m || (k == m && i < n)
  }

  /** The line is the first in preorder with its name. */
  ghost predicate FirstNamed(ps: seq<Placed>, k: int, i: int, name: string) {
    NamedLine(ps, k, i, name) && forall k', i' :: NamedLine(ps, k', i', name) ==> !Before(k', i', k, i)
  }

  function EntryFor(ps: seq<Placed>, k: int, i: int): LongOpt
    requires 0 <= k < |ps| && 0 <= i < |ps[k].argp.Table()| && ps[k].argp.Table()[i].name.Some?
  {
    var os := ps[k].argp.Table();
    var lead := Real(os, i);
    LongOpt(os[i].name.value,
            if !lead.hasArg then NoArgument else if lead.flags.argOptional then OptionalArgument else RequiredArgument,
            LineVal(os, i, k))
  }

  ghost predicate HasEntry(long: seq<LongOpt>, ps: seq<Placed>, j: int, k: int, i: int) {
    0 <= j < |long| && NamedLine(ps, k, i, long[j].name) && long[j] == EntryFor(ps, k, i)
  }

  /** Entry `j` was made from the first line with its name, and that line is before line `n` of group `m`. */
  ghost predicate MadeBefore(long: seq<LongOpt>, ps: seq<Placed>, j: int, m: int, n: int)
    requires 0 <= j < |long|
  {
    exists k, i :: Before(k, i, m, n) && FirstNamed(ps, k, i, long[j].name) && HasEntry(long, ps, j, k, i)
  }

  /** The table holds the first lines of all names that occur before line `n` of group `m`. */
  ghost predicate Covers(long: seq<LongOpt>, ps: seq<Placed>, m: int, n: int) {
    && (forall j, l :: 0 <= j < l < |long| ==> long[j].name != long[l].name)
    && (forall j :: 0 <= j < |long| ==> MadeBefore(long, ps, j, m, n))
    && (forall k, i, name :: NamedLine(ps, k, i, name) && Before(k, i, m, n) ==> Names(long, name))
  }

  lemma CoversLine(long: seq<LongOpt>, ps: seq<Placed>, m: nat, n: nat)
    requires m < |ps| && n < |ps[m].argp.Table()| && Covers(long, ps, m, n)
    ensures Covers(LongAdd(long, ps[m].argp.Table(), n, m), ps, m, n + 1)
  {
    var os := ps[m].argp.Table();
    var long' := LongAdd(long, os, n, m);
    if long' != long {
      var name := os[n].name.value;
      assert NamedLine(ps, m, n, name) && FirstNamed(ps, m, n, name);
      assert long'[|long|] == EntryFor(ps, m, n) && HasEntry(long', ps, |long|, m, n);
    }
    var next := n + 1;
    forall j | 0 <= j < |long'| ensures MadeBefore(long', ps, j, m, next) {
      if j < |long| {
        assert MadeBefore(long, ps, j, m, n);
        var k, i :| Before(k, i, m, n) && FirstNamed(ps, k, i, long[j].name) && HasEntry(long, ps, j, k, i);
        assert Before(k, i, m, n + 1) && HasEntry(long', ps, j, k, i);
      } else {
        assert Before(m, n, m, n + 1);
      }
    }
    forall k, i, name | NamedLine(ps, k, i, name) && Before(k, i, m, n + 1) ensures Names(long', name) {
      if Before(k, i, m, n) {
        var j :| 0 <= j < |long| && long[j].name == name;
        assert long'[j].name == name;
      } else {
        assert k == m && i == n;
        if long' == long {
          assert Names(long, name);
        } else {
          assert long'[|long|].name == name;
        }
      }
    }
  }

  lemma {:induction false} CoversTable(long: seq<LongOpt>, ps: seq<Placed>, m: nat, n: nat)
    requires m < |ps| && n <= |ps[m].argp.Table()| && Covers(long, ps, m, 0)
    ensures Covers(LongTable(long, ps[m].argp.Table(), n, m), ps, m, n)
    decreases n
  {
    hide Covers;
    if n > 0 {
      CoversTable(long, ps, m, n - 1);
      CoversLine(LongTable(long, ps[m].argp.Table(), n - 1, m), ps, m, n - 1);
    }
  }

  /** The end of a table is the beginning of the next. */
  lemma CoversGroup(long: seq<LongOpt>, ps: seq<Placed>, m: nat)
    requires m < |ps| && Covers(long, ps, m, |ps[m].argp.Table()|)
    ensures Covers(long, ps, m + 1, 0)
  {
    var next := m + 1;
    forall j | 0 <= j < |long| ensures MadeBefore(long, ps, j, next, 0) {
      assert MadeBefore(long, ps, j, m, |ps[m].argp.Table()|);
      var k, i :| Before(k, i, m, |ps[m].argp.Table()|) && FirstNamed(ps, k, i, long[j].name) &&
                  HasEntry(long, ps, j, k, i);
      assert Before(k, i, m + 1, 0);
    }
    forall k, i, name | NamedLine(ps, k, i, name) && Before(k, i, m + 1, 0) ensures Names(long, name) {
      assert Before(k, i, m, |ps[m].argp.Table()|);
    }
  }

  lemma {:induction false} CoversBuild(prefix: string, ps: seq<Placed>, m: nat)
    requires m <= |ps|
    ensures Covers(Build(prefix, ps[..m]).long, ps, m, 0)
    decreases m
  {
    if m == 0 {
      assert ps[..0] == [];
    } else {
      hide Covers;
      CoversBuild(prefix, ps, m - 1);
      assert ps[..m][..m - 1] == ps[..m - 1];
      var os := ps[m - 1].argp.Table();
      var long := Build(prefix, ps[..m - 1]).long;
      CoversTable(long, ps, m - 1, |os|);
      CoversGroup(LongTable(long, os, |os|, m - 1), ps, m - 1);
    }
  }

  /**
   The long table of a tree: no name twice, every entry made from the first line in preorder
   with its name, and an entry for every name that a line offers.
   */
  lemma LongTableExact(prefix: string, ps: seq<Placed>)
    ensures var long := Build(prefix, ps).long;
      && (forall j, l :: 0 <= j < l < |long| ==> long[j].name != long[l].name)
      && (forall j :: 0 <= j < |long| ==> MadeBefore(long, ps, j, |ps|, 0))
      && (forall k, i, name :: NamedLine(ps, k, i, name) ==> Names(long, name))
  {
    hide Build;
    CoversBuild(prefix, ps, |ps|);
    assert ps[..|ps|] == ps;
    var long := Build(prefix, ps).long;
    forall k, i, name | NamedLine(ps, k, i, name) ensures Names(long, name) {
      assert Before(k, i, |ps|, 0);
    }
  }

  // ---------- Values of long options ----------

  const KEY_END := -1
  const KEY_ARG := 1

  /** The group number a value carries, one more than the group's index; 0 for a short option. */
  function GroupKey(val: int): int {
    val / USER_RANGE
  }

  /** The user's key, with the sign of its low bits. */
  function UserKey(val: int): int {
    var u := val % USER_RANGE;
    if u >= USER_RANGE / 2 then u - USER_RANGE else u
  }

  /**
   Decoding a value gives back its group exactly for the first 127 groups, and gives back its key
   exactly for the keys that fit in 24 bits with their sign.  No value of these groups is a letter
   or one of the two special results of getopt.
   */
  lemma ValRoundTrip(key: int, group: nat)
    ensures var val := EncodeVal(key, group);
      && -0x8000_0000 <= val < 0x8000_0000
      && (GroupKey(val) == group + 1 <==> group < 127)
      && (UserKey(val) == key <==> -0x80_0000 <= key < 0x80_0000)
      && (group < 127 ==> val > 255 && val != KEY_ARG && val != KEY_END)
  {
    var m := key % USER_RANGE;
    var x := m + (group + 1) * USER_RANGE;
    var y := x + INT_RANGE / 2;
    var val := EncodeVal(key, group);
    assert val == x - INT_RANGE * (y / INT_RANGE);
    assert val == m + (group + 1 - 0x100 * (y / INT_RANGE)) * USER_RANGE;
    Parts(m, group + 1 - 0x100 * (y / INT_RANGE));
    Parts(m, group + 1);
  }

  lemma Parts(m: int, q: int)
    requires 0 <= m < USER_RANGE
    ensures (m + q * USER_RANGE) / USER_RANGE == q && (m + q * USER_RANGE) % USER_RANGE == m
  {
  }

  // ---------- Short options ----------

  /** The first position of a letter, or the length of the string. */
  function StrChr(s: string, ch: char): (i: nat)
    ensures i <= |s|
  {
    if s == [] || s[0] == ch then 0 else 1 + StrChr(s[1..], ch)
  }

  lemma {:induction false} StrChrAppend(s: string, t: string, ch: char)
    ensures StrChr(s, ch) < |s| <==> ch in s
    ensures StrChr(s + t, ch) == if ch in s then StrChr(s, ch) else |s| + StrChr(t, ch)
    decreases |s|
  {
    if s == [] {
      assert s + t == t;
    } else {
      StrChrAppend(s[1..], t, ch);
      assert (s + t)[1..] == s[1..] + t;
      assert s == [s[0]] + s[1..];
    }
  }

  /** The first group whose short options end after position `i`. */
  function GroupAfter(gs: seq<Group>, i: nat): (k: nat)
    ensures k <= |gs|
  {
    if gs == [] || gs[0].shortEnd > i then 0 else 1 + GroupAfter(gs[1..], i)
  }

  lemma {:induction false} GroupAfterAppend(gs: seq<Group>, g: Group, i: nat)
    ensures GroupAfter(gs + [g], i) ==
      if GroupAfter(gs, i) < |gs| then GroupAfter(gs, i) else if g.shortEnd > i then |gs| else |gs| + 1
    ensures (exists k :: 0 <= k < |gs| && gs[k].shortEnd > i) ==> GroupAfter(gs, i) < |gs|
    ensures (forall k :: 0 <= k < |gs| ==> gs[k].shortEnd <= i) ==> GroupAfter(gs, i) == |gs|
    decreases |gs|
  {
    if gs == [] {
      assert (gs + [g])[1..] == [];
    } else {
      GroupAfterAppend(gs[1..], g, i);
      assert (gs + [g])[1..] == gs[1..] + [g];
      if k :| 0 <= k < |gs| && gs[k].shortEnd > i {
        assert k > 0 ==> gs[1..][k - 1] == gs[k];
      }
    }
  }

  /** The group that a short option is dispatched to. */
  function ShortGroup(t: Tables, ch: char): Option<nat> {
    var i := StrChr(t.short, ch);
    if i == |t.short| || GroupAfter(t.groups, i) == |t.groups| then None else Some(GroupAfter(t.groups, i))
  }

  /** Find the group of a short option by its position in the string of all short options. */
  method DispatchShort(t: Tables, ch: char) returns (group: Option<nat>)
    ensures group == ShortGroup(t, ch)
  {
    var i := 0;
    assert t.short[0..] == t.short;
    while i < |t.short| && t.short[i] != ch
      invariant 0 <= i <= |t.short| && StrChr(t.short, ch) == i + StrChr(t.short[i..], ch)
    {
      assert t.short[i..][1..] == t.short[i + 1..];
      i := i + 1;
    }
    if i == |t.short| {
      return None;
    }
    var k := 0;
    assert t.groups[0..] == t.groups;
    while k < |t.groups| && t.groups[k].shortEnd <= i
      invariant 0 <= k <= |t.groups| && GroupAfter(t.groups, i) == k + GroupAfter(t.groups[k..], i)
    {
      assert t.groups[k..][1..] == t.groups[k + 1..];
      k := k + 1;
    }
    return if k < |t.groups| then Some(k) else None;
  }

  /** The line makes the letter a short option for the parser. */
  predicate Takes(os: seq<Opt>, i: nat, ch: char)
    requires i < |os|
  {
    Parsed(os, i) && os[i].IsShort() && os[i].Letter() == ch
  }

  predicate Accepts(os: seq<Opt>, ch: char) {
    exists i :: 0 <= i < |os| && Takes(os, i, ch)
  }

  lemma PieceLetter(os: seq<Opt>, i: nat, ch: char)
    requires i < |os| && ch != ':'
    ensures ch in Piece(os, i) <==> Takes(os, i, ch)
  {
    hide Real;
  }

  lemma {:induction false} ShortTextLetters(os: seq<Opt>, n: nat, ch: char)
    requires n <= |os| && ch != ':'
    ensures ch in ShortText(os, n) <==> exists i :: 0 <= i < n && Takes(os, i, ch)
    decreases n
  {
    hide Takes;
    hide Piece;
    if n > 0 {
      ShortTextLetters(os, n - 1, ch);
      PieceLetter(os, n - 1, ch);
      if i :| 0 <= i < n && Takes(os, i, ch) {
        assert i == n - 1 || i < n - 1;
      }
    }
  }

  /** The first group of a list that accepts a letter. */
  function FirstAccepting(ps: seq<Placed>, ch: char): (k: Option<nat>)
    ensures k.Some? ==> k.value < |ps|
  {
    if ps == [] then None else
    var n := |ps| - 1;
    var k := FirstAccepting(ps[..n], ch);
    if k.Some? then k else if Accepts(ps[n].argp.Table(), ch) then Some(n) else None
  }

  /** The ends recorded in the groups never pass the end of the string. */
  lemma {:induction false} ShortEnds(prefix: string, ps: seq<Placed>)
    ensures var t := Build(prefix, ps); forall k :: 0 <= k < |ps| ==> t.groups[k].shortEnd <= |t.short|
    ensures ps != [] ==> Build(prefix, ps).groups[|ps| - 1].shortEnd == |Build(prefix, ps).short|
    decreases |ps|
  {
    hide ShortText;
    hide LongTable;
    if ps != [] {
      ShortEnds(prefix, ps[..|ps| - 1]);
    }
  }

  /**
   A letter that is neither in the prefix nor the mark of an argument goes to the first group
   that accepts it, and to none when no group does.
   */
  lemma {:induction false} ShortGroupIsFirst(prefix: string, ps: seq<Placed>, ch: char)
    requires ch !in prefix && ch != ':'
    ensures ShortGroup(Build(prefix, ps), ch) == FirstAccepting(ps, ch)
    ensures ch in Build(prefix, ps).short <==> FirstAccepting(ps, ch).Some?
    decreases |ps|
  {
    hide ShortText;
    hide LongTable;
    if ps == [] {
      StrChrAppend(prefix, "", ch);
    } else {
      var n := |ps| - 1;
      var t, t' := Build(prefix, ps[..n]), Build(prefix, ps);
      var os := ps[n].argp.Table();
      ShortGroupIsFirst(prefix, ps[..n], ch);
      ShortTextLetters(os, |os|, ch);
      StrChrAppend(t.short, "", ch);
      StrChrAppend(t.short, ShortText(os, |os|), ch);
      StrChrAppend(ShortText(os, |os|), "", ch);
      ShortEnds(prefix, ps[..n]);
      GroupAfterAppend(t.groups, t'.groups[n], StrChr(t'.short, ch));
    }
  }
}
