/**
 What the tables of `Converts` tell getopt about an option, in terms of the lines of the options
 tables alone: whether it takes an argument, and which key goes to which group.  And which group
 is whose child, in terms of the tree.
 */
module OptionMeanings {
  import opened Options
  import opened Argps
  import opened Converts
  import opened Dispatches

  // ---------- Aliases ----------

  /** Line `l` is the line that line `i` is, or is an alias of. */
  predicate StandsFor(os: seq<Opt>, i: nat, l: nat) {
    && l <= i < |os|
    && (l > 0 ==> !os[l].flags.alias)
    && forall j :: l < j <= i ==> os[j].flags.alias
  }

  lemma {:induction false} RealStandsFor(os: seq<Opt>, i: nat, l: nat)
    requires StandsFor(os, i, l)
    ensures Real(os, i) == os[l]
    decreases i
  {
    if l < i {
      RealStandsFor(os, i - 1, l);
    }
  }

  lemma {:induction false} SomeLineStands(os: seq<Opt>, i: nat) returns (l: nat)
    requires i < |os|
    ensures StandsFor(os, i, l)
    decreases i
  {
    if i == 0 || !os[i].flags.alias {
      l := i;
    } else {
      l := SomeLineStands(os, i - 1);
    }
  }

  /** Whether an option takes an argument. */
  predicate ArgumentIs(o: Opt, mode: HasArg) {
    match mode
    case NoArgument => !o.hasArg
    case RequiredArgument => o.hasArg && !o.flags.argOptional
    case OptionalArgument => o.hasArg && o.flags.argOptional
  }

  // ---------- Short options ----------

  /** How getopt reads the short option string: one colon after a letter, two, or none. */
  function ModeAt(s: string, i: nat): HasArg {
    if i + 1 >= |s| || s[i + 1] != ':' then NoArgument
    else if i + 2 >= |s| || s[i + 2] != ':' then RequiredArgument
    else OptionalArgument
  }

  predicate NoColon(os: seq<Opt>) {
    forall i :: 0 <= i < |os| ==> os[i].key != ':' as int
  }

  predicate NoColons(ps: seq<Placed>) {
    forall k :: 0 <= k < |ps| ==> NoColon(ps[k].argp.Table())
  }

  /** The text goes on with a letter, or ends. */
  predicate Begins(s: string) {
    s == [] || s[0] != ':'
  }

  lemma {:induction false} TextBegins(os: seq<Opt>, n: nat)
    requires n <= |os| && NoColon(os)
    ensures Begins(ShortText(os, n))
    decreases n
  {
    if n > 0 {
      TextBegins(os, n - 1);
    }
  }

  /** `s` has the part of line `i` at its place, and the letter is not found before it. */
  ghost predicate Holds(s: string, pre: string, os: seq<Opt>, i: nat, post: string, ch: char) {
    i < |os| && Parsed(os, i) && os[i].IsShort() && os[i].Letter() == ch &&
    s == pre + Piece(os, i) + post && ch !in pre && Begins(post)
  }

  lemma ModeShift(pre: string, x: string)
    requires x != []
    ensures ModeAt(pre + x, |pre|) == ModeAt(x, 0)
  {
    assert forall j :: 0 <= j < |x| ==> (pre + x)[|pre| + j] == x[j];
  }

  lemma PieceMode(os: seq<Opt>, i: nat, post: string, l: nat)
    requires StandsFor(os, i, l) && Parsed(os, i) && os[i].IsShort() && Begins(post)
    ensures Piece(os, i) != [] && Piece(os, i)[0] == os[i].Letter()
    ensures ArgumentIs(os[l], ModeAt(Piece(os, i) + post, 0))
  {
    hide Real;
    RealStandsFor(os, i, l);
    var piece := Piece(os, i);
    assert piece == [os[i].Letter()] + (if !os[l].hasArg then "" else if os[l].flags.argOptional then "::" else ":");
    assert forall j :: 0 <= j < |piece| ==> (piece + post)[j] == piece[j];
    assert forall j :: 0 <= j < |post| ==> (piece + post)[|piece| + j] == post[j];
  }

  lemma ModeRead(s: string, pre: string, os: seq<Opt>, i: nat, post: string, ch: char, l: nat)
    requires Holds(s, pre, os, i, post, ch) && StandsFor(os, i, l)
    ensures StrChr(s, ch) == |pre| && ArgumentIs(os[l], ModeAt(s, |pre|))
  {
    hide Piece;
    hide ModeAt;
    hide ArgumentIs;
    hide Parsed;
    PieceMode(os, i, post, l);
    var piece := Piece(os, i);
    assert s == pre + (piece + post);
    ModeShift(pre, piece + post);
    StrChrAppend(pre, piece + post, ch);
    assert (piece + post)[0] == ch;
  }

  lemma HoldsMore(s: string, pre: string, os: seq<Opt>, i: nat, post: string, ch: char, more: string)
    requires Holds(s, pre, os, i, post, ch) && Begins(more)
    ensures Holds(s + more, pre, os, i, post + more, ch)
  {
    hide Piece;
    hide Parsed;
    assert (pre + Piece(os, i) + post) + more == pre + Piece(os, i) + (post + more);
  }

  lemma HoldsLater(s: string, pre: string, os: seq<Opt>, i: nat, post: string, ch: char, before: string)
    requires Holds(s, pre, os, i, post, ch) && ch !in before
    ensures Holds(before + s, before + pre, os, i, post, ch)
  {
    hide Piece;
    hide Parsed;
    assert before + (pre + Piece(os, i) + post) == (before + pre) + Piece(os, i) + post;
  }

  lemma {:induction false} TextSplit(os: seq<Opt>, n: nat, ch: char) returns (i: nat, pre: string, post: string)
    requires n <= |os| && NoColon(os) && ch != ':' && ch in ShortText(os, n)
    ensures i < n && Holds(ShortText(os, n), pre, os, i, post, ch)
    decreases n
  {
    hide Piece;
    var s, piece := ShortText(os, n - 1), Piece(os, n - 1);
    if ch in s {
      i, pre, post := TextSplit(os, n - 1, ch);
      PieceBegins(os, n - 1);
      HoldsMore(s, pre, os, i, post, ch, piece);
      post := post + piece;
    } else {
      PieceLetter(os, n - 1, ch);
      i, pre, post := n - 1, s, [];
      assert ShortText(os, n) == pre + piece + post;
    }
  }

  lemma PieceBegins(os: seq<Opt>, i: nat)
    requires i < |os| && NoColon(os)
    ensures Begins(Piece(os, i))
  {
  }

  lemma {:induction false} ShortSplit(prefix: string, ps: seq<Placed>, ch: char)
    returns (k: nat, i: nat, pre: string, post: string)
    requires NoColons(ps) && ch !in prefix && ch != ':' && ch in Build(prefix, ps).short
    ensures k < |ps| && FirstAccepting(ps, ch) == Some(k)
    ensures Holds(Build(prefix, ps).short, pre, ps[k].argp.Table(), i, post, ch)
    decreases |ps|
  {
    hide ShortText;
    hide LongTable;
    hide Piece;
    hide Holds;
    hide ShortGroup;
    hide Accepts;
    var n := |ps| - 1;
    var os, s := ps[n].argp.Table(), Build(prefix, ps[..n]).short;
    var text := ShortText(os, |os|);
    TextBegins(os, |os|);
    ShortGroupIsFirst(prefix, ps[..n], ch);
    ShortGroupIsFirst(prefix, ps, ch);
    if ch in s {
      k, i, pre, post := ShortSplit(prefix, ps[..n], ch);
      HoldsMore(s, pre, ps[k].argp.Table(), i, post, ch, text);
      post := post + text;
    } else {
      var before;
      i, before, post := TextSplit(os, |os|, ch);
      HoldsLater(text, before, os, i, post, ch, s);
      k, pre := n, s + before;
    }
  }

  /**
   The short option string says of every letter that the parser accepts whether it takes an argument:
   what the line of the group it goes to says, or the line that one is an alias of.
   */
  lemma ShortModes(prefix: string, ps: seq<Placed>, ch: char) returns (k: nat, i: nat, l: nat)
    requires NoColons(ps) && ch !in prefix && ch != ':' && ch in Build(prefix, ps).short
    ensures ShortGroup(Build(prefix, ps), ch) == Some(k) && k < |ps|
    ensures var os := ps[k].argp.Table(); var s := Build(prefix, ps).short;
      && StandsFor(os, i, l) && !os[l].flags.doc && os[i].IsShort() && os[i].Letter() == ch
      && ArgumentIs(os[l], ModeAt(s, StrChr(s, ch)))
  {
    hide Build;
    var pre, post;
    ShortGroupIsFirst(prefix, ps, ch);
    k, i, pre, post := ShortSplit(prefix, ps, ch);
    var os := ps[k].argp.Table();
    l := SomeLineStands(os, i);
    ModeRead(Build(prefix, ps).short, pre, os, i, post, ch, l);
    RealStandsFor(os, i, l);
  }

  // ---------- Long options ----------

  /**
   The first line with a name is in the table of long options: with the way it, or the line it is an
   alias of, takes an argument, and with a value that is decoded to its group and to its own key, or
   to that of the line it is an alias of if it has none.
   */
  lemma LongDelivers(prefix: string, ps: seq<Placed>, k: nat, i: nat, name: string, l: nat) returns (j: nat)
    requires FirstNamed(ps, k, i, name) && StandsFor(ps[k].argp.Table(), i, l)
    ensures var long := Build(prefix, ps).long; var os := ps[k].argp.Table();
      var key := if os[i].key != 0 then os[i].key else os[l].key;
      && j < |long| && long[j].name == name && ArgumentIs(os[l], long[j].hasArg)
      && (k < 127 ==> GroupKey(long[j].val) == k + 1)
      && (-0x80_0000 <= key < 0x80_0000 ==> UserKey(long[j].val) == key)
  {
    hide Build;
    hide GroupKey;
    hide UserKey;
    hide EncodeVal;
    var long, os := Build(prefix, ps).long, ps[k].argp.Table();
    LongTableExact(prefix, ps);
    assert Names(long, name);
    j :| 0 <= j < |long| && long[j].name == name;
    assert MadeBefore(long, ps, j, |ps|, 0);
    var k', i' :| Before(k', i', |ps|, 0) && FirstNamed(ps, k', i', long[j].name) && HasEntry(long, ps, j, k', i');
    assert !Before(k', i', k, i) && !Before(k, i, k', i');
    RealStandsFor(os, i, l);
    ValRoundTrip(if os[i].key != 0 then os[i].key else os[l].key, k);
  }

  // ---------- Parents ----------

  /**
   The group was made for the argp at way `p`.  Its parent is the group of the argp before it on the
   way, if that has a group, and its index the last number of the way.
   */
  ghost predicate GroupAtWay(root: Argp, ps: seq<Placed>, k: nat, p: seq<nat>)
    requires k < |ps|
  {
    && Walks(root, p) && ArgpAt(root, p) == ps[k].argp
    && if p == [] then ps[k].parent == None else
       var n := |p| - 1;
       && Walks(root, p[..n]) && ps[k].index == p[n]
       && if HasGroup(ArgpAt(root, p[..n])) then
            ps[k].parent.Some? && ps[k].parent.value < k && ps[ps[k].parent.value].argp == ArgpAt(root, p[..n])
          else
            ps[k].parent == None
  }

  ghost predicate HasWay(root: Argp, ps: seq<Placed>, k: nat)
    requires k < |ps|
  {
    exists p :: GroupAtWay(root, ps, k, p)
  }

  ghost predicate AllHaveWays(root: Argp, ps: seq<Placed>) {
    forall k :: 0 <= k < |ps| ==> HasWay(root, ps, k)
  }

  lemma WayKept(root: Argp, pre: seq<Placed>, more: seq<Placed>, k: nat)
    requires k < |pre| && HasWay(root, pre, k)
    ensures HasWay(root, pre + more, k)
  {
    hide Walks;
    hide ArgpAt;
    var p :| GroupAtWay(root, pre, k, p);
    assert (pre + more)[k] == pre[k];
    assert pre[k].parent.Some? && pre[k].parent.value < k ==>
           (pre + more)[pre[k].parent.value] == pre[pre[k].parent.value];
    assert GroupAtWay(root, pre + more, k, p);
  }

  /** The group before on the way, as the conversion passes it on. */
  ghost predicate ParentFor(root: Argp, pre: seq<Placed>, at: seq<nat>, parent: Option<nat>)
    requires Walks(root, at)
  {
    var a := ArgpAt(root, at);
    if HasGroup(a) then parent.Some? && parent.value < |pre| && pre[parent.value].argp == a else parent == None
  }

  lemma WayAdded(root: Argp, pre: seq<Placed>, p: seq<nat>, parent: Option<nat>, index: nat)
    requires AllHaveWays(root, pre) && Walks(root, p)
    requires if p == [] then parent == None
             else Walks(root, p[..|p| - 1]) && index == p[|p| - 1] && ParentFor(root, pre, p[..|p| - 1], parent)
    ensures AllHaveWays(root, pre + [Placed(ArgpAt(root, p), parent, index)])
  {
    hide Walks;
    hide ArgpAt;
    hide HasWay;
    var ps := pre + [Placed(ArgpAt(root, p), parent, index)];
    forall k | 0 <= k < |ps| ensures HasWay(root, ps, k) {
      if k < |pre| {
        WayKept(root, pre, [Placed(ArgpAt(root, p), parent, index)], k);
      } else {
        OneWay(root, pre, p, parent, index);
      }
    }
  }

  lemma OneWay(root: Argp, pre: seq<Placed>, p: seq<nat>, parent: Option<nat>, index: nat)
    requires Walks(root, p)
    requires if p == [] then parent == None
             else Walks(root, p[..|p| - 1]) && index == p[|p| - 1] && ParentFor(root, pre, p[..|p| - 1], parent)
    ensures HasWay(root, pre + [Placed(ArgpAt(root, p), parent, index)], |pre|)
  {
    hide Walks;
    hide ArgpAt;
    assert GroupAtWay(root, pre + [Placed(ArgpAt(root, p), parent, index)], |pre|, p);
  }

  lemma {:induction false} WaysOfGroups(root: Argp, pre: seq<Placed>, p: seq<nat>, parent: Option<nat>, index: nat)
    requires AllHaveWays(root, pre) && Walks(root, p)
    requires if p == [] then parent == None
             else Walks(root, p[..|p| - 1]) && index == p[|p| - 1] && ParentFor(root, pre, p[..|p| - 1], parent)
    ensures AllHaveWays(root, pre + GroupsOf(ArgpAt(root, p), parent, index, |pre|))
    decreases ArgpAt(root, p), 1
  {
    hide Walks;
    hide ArgpAt;
    hide AllHaveWays;
    hide GroupsOfChildren;
    var a := ArgpAt(root, p);
    assert a.children[0..] == a.children;
    if HasGroup(a) {
      var here := [Placed(a, parent, index)];
      WayAdded(root, pre, p, parent, index);
      WaysOfChildren(root, pre + here, p, 0, Some(|pre|));
      var rest := GroupsOfChildren(a.children, 0, Some(|pre|), |pre| + 1);
      assert (pre + here) + rest == pre + (here + rest);
    } else {
      WaysOfChildren(root, pre, p, 0, None);
    }
  }

  lemma {:induction false} WaysOfChildren(root: Argp, pre: seq<Placed>, p: seq<nat>, i: nat, parent: Option<nat>)
    requires AllHaveWays(root, pre) && Walks(root, p) && i <= |ArgpAt(root, p).children|
    requires ParentFor(root, pre, p, parent)
    ensures AllHaveWays(root, pre + GroupsOfChildren(ArgpAt(root, p).children[i..], i, parent, |pre|))
    decreases ArgpAt(root, p), 0, |ArgpAt(root, p).children| - i
  {
    hide Walks;
    hide ArgpAt;
    hide AllHaveWays;
    hide GroupsOf;
    var cs := ArgpAt(root, p).children;
    if i == |cs| {
      assert pre + [] == pre;
    } else {
      assert cs[i..][0] == cs[i] && cs[i..][1..] == cs[i + 1..];
      assert cs[i].argp < cs[i];
      WalkOn(root, p, i);
      var q := p + [i];
      assert q[..|q| - 1] == p;
      var first := GroupsOf(cs[i].argp, parent, i, |pre|);
      WaysOfGroups(root, pre, q, parent, i);
      WaysOfChildren(root, pre + first, p, i + 1, parent);
      var rest := GroupsOfChildren(cs[i + 1..], i + 1, parent, |pre + first|);
      assert (pre + first) + rest == pre + (first + rest);
    }
  }

  lemma {:induction false} GroupedExact(nodes: seq<Argp>, a: Argp)
    ensures a in Grouped(nodes) <==> a in nodes && (a.options.Some? || a.hasParser)
    decreases |nodes|
  {
    if nodes != [] {
      GroupedExact(nodes[1..], a);
    }
  }

  /** Exactly the argps of a tree that have options or a parser have a group. */
  lemma GroupsExact(root: Argp, a: Argp)
    ensures a in Args(GroupsOf(root, None, 0, 0)) <==> a in Nodes(root) && (a.options.Some? || a.hasParser)
  {
    hide Nodes;
    hide GroupsOf;
    hide Grouped;
    GroupsAreNodes(root, None, 0, 0);
    GroupedExact(Nodes(root), a);
  }

  /** Every group of a tree has the parent and the index that the way to its argp asks for. */
  lemma ParentsFollowTree(a: Argp)
    ensures AllHaveWays(a, GroupsOf(a, None, 0, 0))
  {
    hide GroupsOf;
    WaysOfGroups(a, [], [], None, 0);
    assert [] + GroupsOf(a, None, 0, 0) == GroupsOf(a, None, 0, 0);
  }
}
