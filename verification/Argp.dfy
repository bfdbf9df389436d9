/**
 The tables a program hands to argp: options, argps and their children
 (argp/argp.h, argp/argp-xinl.c).
 */
module Argps {
  import opened Options

  datatype Flags = Flags(argOptional: bool, hidden: bool, alias: bool, doc: bool, noUsage: bool)

  /** One line of an options table. */
  datatype Opt = Opt(name: Option<string>, key: int, hasArg: bool, flags: Flags, doc: Option<string>, group: int)
  {
    /** The line that ends an options table. */
    predicate IsEnd() {
      key == 0 && name == None && doc == None && group == 0
    }

    /** Printable in the C locale. */
    static predicate IsPrint(k: int) {
      32 <= k <= 126
    }

    /** Usable as a short option. */
    predicate IsShort() {
      !flags.doc && 0 < key <= 255 && IsPrint(key)
    }

    function Letter(): char
      requires IsShort()
    {
      key as char
    }

    predicate IsVisible() {
      !flags.hidden
    }
  }

  /**
   An argp and the tree below it.  `options` is the table up to its end line, or `None` for a
   null pointer; `children` is the table of children up to its end line.
   */
  datatype Argp = Argp(options: Option<seq<Opt>>, hasParser: bool, argsDoc: Option<string>, children: seq<Child>)
  {
    function Table(): seq<Opt> {
      if options.Some? then options.value else []
    }
  }

  datatype Child = Child(argp: Argp, header: Option<string>, group: int)

  /** The argps of a tree, each before its children. */
  function Nodes(a: Argp): seq<Argp>
    decreases a, 1
  {
    [a] + NodesOf(a.children)
  }

  function NodesOf(cs: seq<Child>): seq<Argp>
    decreases cs, 0
  {
    if cs == [] then [] else
    assert cs[0].argp < cs[0];
    Nodes(cs[0].argp) + NodesOf(cs[1..])
  }

  lemma {:induction false} ChildNodes(cs: seq<Child>, i: nat)
    requires i < |cs|
    ensures forall n :: n in Nodes(cs[i].argp) ==> n in NodesOf(cs)
    decreases |cs|
  {
    if i > 0 {
      ChildNodes(cs[1..], i - 1);
    }
  }

  lemma {:induction false} NodesOfAppend(a: seq<Child>, b: seq<Child>)
    ensures NodesOf(a + b) == NodesOf(a) + NodesOf(b)
    decreases |a|
  {
    hide Nodes;
    if a == [] {
      assert a + b == b;
    } else {
      NodesOfAppend(a[1..], b);
      assert (a + b)[1..] == a[1..] + b;
    }
  }

  lemma NodesOfSnoc(cs: seq<Child>, i: nat)
    requires i < |cs|
    ensures NodesOf(cs[..i + 1]) == NodesOf(cs[..i]) + Nodes(cs[i].argp)
  {
    hide Nodes;
    NodesOfAppend(cs[..i], [cs[i]]);
    assert cs[..i] + [cs[i]] == cs[..i + 1];
    assert [cs[i]][1..] == [];
    assert NodesOf([cs[i]]) == Nodes(cs[i].argp) + NodesOf([]);
  }

  /** The option lines of a list of argps. */
  function OptionsOf(nodes: seq<Argp>): seq<Opt> {
    if nodes == [] then [] else nodes[0].Table() + OptionsOf(nodes[1..])
  }

  lemma OptionsOfFirst(nodes: seq<Argp>)
    ensures OptionsOf([]) == []
    ensures nodes != [] ==> OptionsOf(nodes) == nodes[0].Table() + OptionsOf(nodes[1..])
  {
  }

  lemma {:induction false} OptionsOfAppend(a: seq<Argp>, b: seq<Argp>)
    ensures OptionsOf(a + b) == OptionsOf(a) + OptionsOf(b)
    decreases |a|
  {
    hide OptionsOf;
    hide Argp.Table;
    OptionsOfFirst(a);
    if a == [] {
      assert a + b == b;
    } else {
      OptionsOfAppend(a[1..], b);
      OptionsOfFirst(a + b);
      assert (a + b)[0] == a[0] && (a + b)[1..] == a[1..] + b;
    }
  }

  /** An options table has no end line inside it and does not start with an alias. */
  predicate TableOk(os: seq<Opt>) {
    && (forall i :: 0 <= i < |os| ==> !os[i].IsEnd())
    && (os != [] ==> !os[0].flags.alias)
  }

  predicate TreeOk(a: Argp) {
    forall n :: n in Nodes(a) ==> TableOk(n.Table())
  }

  // ---------- Ways in a tree ----------

  /** The child numbers `p` lead from `a` to an argp of its tree. */
  predicate Walks(a: Argp, p: seq<nat>)
    decreases |p|
  {
    p == [] || (p[0] < |a.children| && Walks(a.children[p[0]].argp, p[1..]))
  }

  function ArgpAt(a: Argp, p: seq<nat>): Argp
    requires Walks(a, p)
    decreases |p|
  {
    if p == [] then a else ArgpAt(a.children[p[0]].argp, p[1..])
  }

  lemma {:induction false} WalkOn(a: Argp, p: seq<nat>, i: nat)
    requires Walks(a, p)
    ensures Walks(a, p + [i]) <==> i < |ArgpAt(a, p).children|
    ensures Walks(a, p + [i]) ==> ArgpAt(a, p + [i]) == ArgpAt(a, p).children[i].argp
    decreases |p|
  {
    if p == [] {
      assert [i][1..] == [];
      assert p + [i] == [i];
    } else {
      assert (p + [i])[0] == p[0] && (p + [i])[1..] == p[1..] + [i];
      WalkOn(a.children[p[0]].argp, p[1..], i);
    }
  }
}
