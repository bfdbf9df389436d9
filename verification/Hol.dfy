/**
 The help option list of argp/argp-help.c: its entries share one string of short option
 letters, and each entry finds its own letters in it by position.
 */
module Hols {
  import opened Options
  import opened Argps

  /**
   A cluster of entries, made for the child at position `at` in the argp tree (the child
   numbers on the way from the root); `at` stands for the identity of the cluster.
   */
  datatype Cluster = Cluster(at: seq<nat>, group: int, header: Option<string>, index: nat, parent: Option<Cluster>)

  /** An option with its aliases, and where in the help it belongs. */
  datatype Item = Item(opts: seq<Opt>, group: int, cluster: Option<Cluster>, argp: Argp)

  /** An item of the list with its position `so` in the shared string of letters. */
  datatype Entry = Entry(item: Item, so: nat)

  // ---------- Short option letters ----------

  /** The letters of the short options in `os`, each where it occurs first. */
  function Firsts(os: seq<Opt>): string {
    if os == [] then [] else
    var f := Firsts(os[..|os| - 1]);
    var o := os[|os| - 1];
    if o.IsShort() && o.Letter() !in f then f + [o.Letter()] else f
  }

  /** The option at `g` is short and no earlier short option has its letter. */
  predicate IsFirst(os: seq<Opt>, g: nat)
    requires g < |os|
  {
    os[g].IsShort() && forall j :: 0 <= j < g && os[j].IsShort() ==> os[j].key != os[g].key
  }

  predicate Offers(os: seq<Opt>, ch: char) {
    exists j :: 0 <= j < |os| && os[j].IsShort() && os[j].Letter() == ch
  }

  predicate Distinct(s: string) {
    forall i, j :: 0 <= i < j < |s| ==> s[i] != s[j]
  }

  lemma FirstsOfNothing()
    ensures Firsts([]) == []
  {
  }

  lemma {:induction false} FirstsLetters(os: seq<Opt>, ch: char)
    ensures ch in Firsts(os) <==> Offers(os, ch)
    decreases |os|
  {
    if os != [] {
      var n := |os| - 1;
      FirstsLetters(os[..n], ch);
      assert Offers(os, ch) <==> Offers(os[..n], ch) || (os[n].IsShort() && os[n].Letter() == ch) by {
        if Offers(os, ch) {
          var j :| 0 <= j < |os| && os[j].IsShort() && os[j].Letter() == ch;
          assert j < n ==> os[..n][j] == os[j];
        }
        if Offers(os[..n], ch) {
          var j :| 0 <= j < n && os[..n][j].IsShort() && os[..n][j].Letter() == ch;
          assert os[j] == os[..n][j];
        }
      }
    }
  }

  lemma {:induction false} FirstsDistinct(os: seq<Opt>)
    ensures Distinct(Firsts(os))
    decreases |os|
  {
    if os != [] {
      FirstsDistinct(os[..|os| - 1]);
    }
  }

  lemma FirstsNext(os: seq<Opt>, g: nat)
    requires g < |os|
    ensures Firsts(os[..g + 1]) == Firsts(os[..g]) + if IsFirst(os, g) then [os[g].Letter()] else []
  {
    var o := os[g];
    assert os[..g + 1][..g] == os[..g] && os[..g + 1][g] == o;
    if o.IsShort() {
      FirstsLetters(os[..g], o.Letter());
      assert Offers(os[..g], o.Letter()) <==> !IsFirst(os, g) by {
        if Offers(os[..g], o.Letter()) {
          var j :| 0 <= j < g && os[..g][j].IsShort() && os[..g][j].Letter() == o.Letter();
          assert os[j] == os[..g][j];
        }
        if !IsFirst(os, g) {
          var j :| 0 <= j < g && os[j].IsShort() && os[j].key == o.key;
          assert os[j] == os[..g][j];
        }
      }
    }
  }

  lemma {:induction false} FirstsPrefix(os: seq<Opt>, g: nat)
    requires g <= |os|
    ensures Firsts(os[..g]) <= Firsts(os)
    decreases |os| - g
  {
    if g == |os| {
      assert os[..g] == os;
    } else {
      FirstsNext(os, g);
      FirstsPrefix(os, g + 1);
    }
  }

  // ---------- Decoding ----------

  /**
   Which of the options `opts` an entry at position `so` takes for valid: an option takes the
   letter at the current position when it is its own, and then moves on.
   */
  function Decode(opts: seq<Opt>, short: string, so: nat): (d: seq<bool>)
    ensures |d| == |opts|
  {
    if opts == [] then [] else
    var take := opts[0].IsShort() && so < |short| && short[so] == opts[0].Letter();
    [take] + Decode(opts[1..], short, if take then so + 1 else so)
  }

  lemma TakesFirst(os: seq<Opt>, g: nat)
    requires g < |os|
    ensures var so := |Firsts(os[..g])|;
      IsFirst(os, g) <==> os[g].IsShort() && so < |Firsts(os)| && Firsts(os)[so] == os[g].Letter()
  {
    var f, so := Firsts(os), |Firsts(os[..g])|;
    FirstsPrefix(os, g);
    if IsFirst(os, g) {
      FirstsNext(os, g);
      FirstsPrefix(os, g + 1);
    } else if os[g].IsShort() && so < |f| && f[so] == os[g].Letter() {
      var j :| 0 <= j < g && os[j].IsShort() && os[j].key == os[g].key;
      assert os[..g][j] == os[j];
      FirstsLetters(os[..g], os[g].Letter());
      var i :| 0 <= i < so && Firsts(os[..g])[i] == os[g].Letter();
      assert f[i] == f[so];
      FirstsDistinct(os);
    }
  }

  /** Decoding the options from `g` to `h` at the right position finds exactly the first occurrences. */
  lemma {:induction false} DecodeExact(os: seq<Opt>, g: nat, h: nat, i: nat)
    requires g <= i < h <= |os|
    ensures Decode(os[g..h], Firsts(os), |Firsts(os[..g])|)[i - g] <==> IsFirst(os, i)
    decreases h - g
  {
    hide Firsts;
    TakesFirst(os, g);
    FirstsNext(os, g);
    assert os[g..h][0] == os[g] && os[g..h][1..] == os[g + 1..h];
    if i > g {
      DecodeExact(os, g + 1, h, i);
    }
  }

  // ---------- The list that should be built ----------

  /** The group of an option, given the group of the option before it. */
  function NextGroup(cur: int, o: Opt): int {
    if o.group != 0 then o.group
    else if o.name == None && o.key == 0 then cur + 1
    else cur
  }

  /** The first position from `k` on that is not an alias. */
  function AliasEnd(os: seq<Opt>, k: nat): (e: nat)
    requires k <= |os|
    ensures k <= e <= |os|
    decreases |os| - k
  {
    if k < |os| && os[k].flags.alias then AliasEnd(os, k + 1) else k
  }

  /** The items of one options table. */
  function Items(os: seq<Opt>, cur: int, cluster: Option<Cluster>, argp: Argp): seq<Item> {
    if os == [] then [] else
    var n := AliasEnd(os, 1);
    var g := NextGroup(cur, os[0]);
    [Item(os[..n], g, cluster, argp)] + Items(os[n..], g, cluster, argp)
  }

  /** A child with a group or a header has its own cluster; others share their parent's. */
  function ChildCluster(c: Child, i: nat, cluster: Option<Cluster>, at: seq<nat>): Option<Cluster> {
    if c.group != 0 || c.header.Some? then Some(Cluster(at + [i], c.group, c.header, i, cluster)) else cluster
  }

  /** The items of a tree, each argp's before its children's. */
  function Listing(a: Argp, cluster: Option<Cluster>, at: seq<nat>): seq<Item>
    decreases a, 1
  {
    Items(a.Table(), 0, cluster, a) + ListingOf(a.children, 0, cluster, at)
  }

  /** The items of the children from number `i` on, which are `cs`. */
  function ListingOf(cs: seq<Child>, i: nat, cluster: Option<Cluster>, at: seq<nat>): seq<Item>
    decreases cs, 0
  {
    if cs == [] then [] else
    assert cs[0].argp < cs[0];
    Listing(cs[0].argp, ChildCluster(cs[0], i, cluster, at), at + [i]) + ListingOf(cs[1..], i + 1, cluster, at)
  }

  /** The options of a list of items. */
  function Flat(items: seq<Item>): seq<Opt> {
    if items == [] then [] else Flat(items[..|items| - 1]) + items[|items| - 1].opts
  }

  lemma FlatNothing()
    ensures Flat([]) == []
  {
  }

  lemma FlatLast(items: seq<Item>)
    requires items != []
    ensures Flat(items) == Flat(items[..|items| - 1]) + items[|items| - 1].opts
  {
  }

  lemma {:induction false} FlatAppend(a: seq<Item>, b: seq<Item>)
    ensures Flat(a + b) == Flat(a) + Flat(b)
    decreases |b|
  {
    hide Flat;
    if b == [] {
      FlatNothing();
      assert a + b == a;
    } else {
      var n := |b| - 1;
      FlatAppend(a, b[..n]);
      FlatLast(a + b);
      FlatLast(b);
      assert (a + b)[..|a + b| - 1] == a + b[..n];
    }
  }

  lemma {:induction false} FlatItems(os: seq<Opt>, cur: int, cluster: Option<Cluster>, argp: Argp)
    ensures Flat(Items(os, cur, cluster, argp)) == os
    decreases |os|
  {
    hide Flat;
    FlatNothing();
    if os != [] {
      var n := AliasEnd(os, 1);
      var g := NextGroup(cur, os[0]);
      var item := Item(os[..n], g, cluster, argp);
      FlatItems(os[n..], g, cluster, argp);
      FlatAppend([item], Items(os[n..], g, cluster, argp));
      FlatLast([item]);
      assert [item][..0] == [];
    }
  }

  /** The listing holds the options of the tree in preorder. */
  lemma {:induction false} FlatListing(a: Argp, cluster: Option<Cluster>, at: seq<nat>)
    ensures Flat(Listing(a, cluster, at)) == OptionsOf(Nodes(a))
    decreases a, 1
  {
    FlatItems(a.Table(), 0, cluster, a);
    FlatListingOf(a.children, 0, cluster, at);
    FlatAppend(Items(a.Table(), 0, cluster, a), ListingOf(a.children, 0, cluster, at));
    OptionsOfAppend([a], NodesOf(a.children));
    assert [a][1..] == [];
    assert OptionsOf([a]) == a.Table() + OptionsOf([]);
  }

  lemma {:induction false} FlatListingOf(cs: seq<Child>, i: nat, cluster: Option<Cluster>, at: seq<nat>)
    ensures Flat(ListingOf(cs, i, cluster, at)) == OptionsOf(NodesOf(cs))
    decreases cs, 0
  {
    if cs != [] {
      assert cs[0].argp < cs[0];
      var c := ChildCluster(cs[0], i, cluster, at);
      FlatListing(cs[0].argp, c, at + [i]);
      FlatListingOf(cs[1..], i + 1, cluster, at);
      FlatAppend(Listing(cs[0].argp, c, at + [i]), ListingOf(cs[1..], i + 1, cluster, at));
      OptionsOfAppend(Nodes(cs[0].argp), NodesOf(cs[1..]));
    }
  }

  /**
   A list is well built for `items` when its string holds the first occurrences of their short
   options and every entry points just past the letters of the entries before it.
   */
  ghost predicate WellBuilt(entries: seq<Entry>, short: string, items: seq<Item>) {
    && |entries| == |items|
    && short == Firsts(Flat(items))
    && forall i :: 0 <= i < |entries| ==> entries[i] == Entry(items[i], |Firsts(Flat(items[..i]))|)
  }

  lemma WellBuiltNothing()
    ensures WellBuilt([], [], []) && Flat([]) == [] && Firsts([]) == []
  {
  }

  lemma ItemsNothing(cur: int, cluster: Option<Cluster>, argp: Argp)
    ensures Items([], cur, cluster, argp) == []
  {
  }

  lemma WellBuiltSnoc(entries: seq<Entry>, short: string, items: seq<Item>, item: Item)
    requires WellBuilt(entries, short, items)
    ensures WellBuilt(entries + [Entry(item, |short|)], Firsts(Flat(items) + item.opts), items + [item])
    ensures Flat(items + [item]) == Flat(items) + item.opts
  {
    hide Firsts;
    var all := items + [item];
    assert all[..|items|] == items;
    forall i | 0 <= i < |items| ensures all[..i] == items[..i] {
    }
  }

  /** The options of an item within the options of the whole list. */
  lemma FlatSlice(items: seq<Item>, i: nat)
    requires i < |items|
    ensures var g := |Flat(items[..i])|; var h := g + |items[i].opts|;
      && h <= |Flat(items)|
      && Flat(items[..i]) == Flat(items)[..g] && items[i].opts == Flat(items)[g..h]
      && Flat(items[..i + 1]) == Flat(items)[..h]
  {
    hide Flat;
    FlatAppend(items[..i + 1], items[i + 1..]);
    assert items == items[..i + 1] + items[i + 1..];
    assert items[..i + 1][..i] == items[..i];
    FlatLast(items[..i + 1]);
  }

  /** Appending one more item of a second list. */
  lemma AppendStep(es: seq<Entry>, so: string, mine: seq<Item>, theirs: seq<Item>, i: nat)
    requires i < |theirs| && WellBuilt(es, so, mine + theirs[..i])
    ensures var h := |Flat(theirs[..i])| + |theirs[i].opts|;
      && h <= |Flat(theirs)| && h == |Flat(theirs[..i + 1])|
      && WellBuilt(es + [Entry(theirs[i], |so|)], Firsts(Flat(mine) + Flat(theirs)[..h]), mine + theirs[..i + 1])
    ensures i == 0 ==> |Flat(theirs[..i])| == 0
  {
    hide Firsts;
    hide Flat;
    if i == 0 {
      FlatNothing();
      assert theirs[..i] == [];
    }
    FlatSlice(theirs, i);
    FlatAppend(mine, theirs[..i]);
    WellBuiltSnoc(es, so, mine + theirs[..i], theirs[i]);
    assert mine + theirs[..i] + [theirs[i]] == mine + theirs[..i + 1];
    var g := |Flat(theirs[..i])|;
    var h := g + |theirs[i].opts|;
    assert Flat(mine) + Flat(theirs)[..g] + Flat(theirs)[g..h] == Flat(mine) + Flat(theirs)[..h];
  }

  /** Splitting the first item off a table. */
  lemma ItemsFrom(os: seq<Opt>, first: nat, end: nat, cur: int, cluster: Option<Cluster>, argp: Argp)
    requires first < |os| && end == first + AliasEnd(os[first..], 1)
    ensures first < end <= |os|
    ensures var g := NextGroup(cur, os[first]);
      Items(os[first..], cur, cluster, argp)
      == [Item(os[first..end], g, cluster, argp)] + Items(os[end..], g, cluster, argp)
    ensures os[..first] + os[first..end] == os[..end]
  {
    var rest := os[first..];
    assert rest[..end - first] == os[first..end] && rest[end - first..] == os[end..];
  }

  /** A letter of a second list is new exactly when it is first there and absent from the first list. */
  lemma FirstsMerge(a: seq<Opt>, b: seq<Opt>, g: nat)
    requires g < |b|
    ensures Firsts(a + b[..g + 1]) == Firsts(a + b[..g]) +
      if IsFirst(b, g) && b[g].Letter() !in Firsts(a) then [b[g].Letter()] else []
  {
    var os, k := a + b, |a| + g;
    assert os[..k] == a + b[..g] && os[..k + 1] == a + b[..g + 1] && os[k] == b[g];
    FirstsNext(os, k);
    if b[g].IsShort() {
      FirstsLetters(a, b[g].Letter());
      assert IsFirst(os, k) <==> IsFirst(b, g) && !Offers(a, b[g].Letter()) by {
        if IsFirst(os, k) {
          assert forall j :: 0 <= j < g ==> os[|a| + j] == b[j];
          assert forall j :: 0 <= j < |a| ==> os[j] == a[j];
        } else {
          var j :| 0 <= j < k && os[j].IsShort() && os[j].key == os[k].key;
          assert os[j] == if j < |a| then a[j] else b[j - |a|];
        }
      }
    }
  }

  // ---------- Building it ----------

  class Hol {
    var entries: seq<Entry>
    var short: string

    /** The letters of one option and its aliases, added where they are new. */
    static method AddLetters(os: seq<Opt>, first: nat, letters: string) returns (o: nat, so: string)
      requires first < |os| && letters == Firsts(os[..first])
      ensures o == first + AliasEnd(os[first..], 1) && so == Firsts(os[..o])
    {
      ghost var rest := os[first..];
      o, so := first, letters;
      while true
        invariant first <= o < |os|
        invariant so == Firsts(os[..o])
        invariant o > first ==> AliasEnd(rest, 1) == AliasEnd(rest, o - first) && os[o].flags.alias
        decreases |os| - o
      {
        assert os[..o + 1][..o] == os[..o];
        assert rest[o - first] == os[o];
        if os[o].IsShort() && os[o].Letter() !in so {
          so := so + [os[o].Letter()];
        }
        o := o + 1;
        if o == |os| || !os[o].flags.alias {
          assert o < |os| ==> rest[o - first] == os[o];
          return;
        }
      }
    }

    /** The list of a single argp. */
    constructor Make(argp: Argp, cluster: Option<Cluster>)
      requires TableOk(argp.Table())
      ensures WellBuilt(entries, short, Items(argp.Table(), 0, cluster, argp))
    {
      hide Firsts;
      hide AliasEnd;
      hide Items;
      hide Flat;
      hide WellBuilt;
      var os := argp.Table();
      var es: seq<Entry>, so: string := [], [];
      var o, cur := 0, 0;
      ghost var items: seq<Item> := [];
      WellBuiltNothing();
      assert os[0..] == os && os[..0] == [];
      while o < |os|
        invariant 0 <= o <= |os|
        invariant items + Items(os[o..], cur, cluster, argp) == Items(os, 0, cluster, argp)
        invariant WellBuilt(es, so, items) && Flat(items) == os[..o] && so == Firsts(os[..o])
      {
        var first, at := o, |so|;
        ghost var before := so;
        o, so := AddLetters(os, first, so);
        ItemsFrom(os, first, o, cur, cluster, argp);
        cur := NextGroup(cur, os[first]);
        var item := Item(os[first..o], cur, cluster, argp);
        WellBuiltSnoc(es, before, items, item);
        es := es + [Entry(item, at)];
        assert items + ([item] + Items(os[o..], cur, cluster, argp)) ==
               items + [item] + Items(os[o..], cur, cluster, argp);
        items := items + [item];
      }
      assert os[o..] == [];
      ItemsNothing(cur, cluster, argp);
      assert items == Items(os, 0, cluster, argp);
      entries := es;
      short := so;
    }

    /**
     The letters of one entry of a list `more` that is merged into a list with the letters
     `prior`: `more` offers the options `b`, the entry those from `g` to `h`, and the letters
     so far come from the options `a` of the first list and `b[..g]`.
     */
    static method MergeLetters(opts: seq<Opt>, prior: string, more: string, letters: string, from: nat,
                               ghost a: seq<Opt>, ghost b: seq<Opt>, ghost g: nat)
        returns (so: string, moreSo: nat)
      requires g + |opts| <= |b| && opts == b[g..g + |opts|]
      requires prior == Firsts(a) && more == Firsts(b)
      requires letters == Firsts(a + b[..g]) && from == |Firsts(b[..g])|
      ensures so == Firsts(a + b[..g + |opts|]) && moreSo == |Firsts(b[..g + |opts|])|
    {
      hide Firsts;
      so, moreSo := letters, from;
      var i := 0;
      while i < |opts|
        invariant 0 <= i <= |opts|
        invariant so == Firsts(a + b[..g + i]) && moreSo == |Firsts(b[..g + i])|
      {
        var opt := opts[i];
        TakesFirst(b, g + i);
        FirstsNext(b, g + i);
        FirstsMerge(a, b, g + i);
        if opt.IsShort() && moreSo < |more| && more[moreSo] == opt.Letter() {
          if opt.Letter() !in prior {
            so := so + [opt.Letter()];
          }
          moreSo := moreSo + 1;
        }
        i := i + 1;
      }
    }

    /** Add the entries of `more`, whose letters this list shadows. */
    method Append(more: Hol, ghost mine: seq<Item>, ghost theirs: seq<Item>)
      requires more != this
      requires WellBuilt(entries, short, mine) && WellBuilt(more.entries, more.short, theirs)
      modifies this
      ensures WellBuilt(entries, short, mine + theirs)
    {
      hide Firsts;
      hide Flat;
      if |more.entries| > 0 {
        if |entries| == 0 {
          entries, short := more.entries, more.short;
          assert mine + theirs == theirs;
        } else {
          ghost var a, b, g := Flat(mine), Flat(theirs), 0;
          var prior, more' := short, more.short;
          var es, so, moreSo, i := entries, prior, 0, 0;
          FirstsOfNothing();
          assert a + b[..0] == a && b[..0] == [] && mine + theirs[..0] == mine;
          while i < |more.entries|
            invariant 0 <= i <= |more.entries| && 0 <= g <= |b|
            invariant g == |Flat(theirs[..i])| || i == g == 0
            invariant WellBuilt(es, so, mine + theirs[..i])
            invariant so == Firsts(a + b[..g]) && moreSo == |Firsts(b[..g])|
          {
            var e := more.entries[i];
            AppendStep(es, so, mine, theirs, i);
            FlatSlice(theirs, i);
            g := |Flat(theirs[..i])|;
            var at := |so|;
            so, moreSo := MergeLetters(e.item.opts, prior, more', so, moreSo, a, b, g);
            es := es + [e.(so := at)];
            g := g + |e.item.opts|;
            i := i + 1;
          }
          assert theirs[..i] == theirs;
          entries, short := es, so;
        }
      } else {
        assert mine + theirs == mine;
      }
    }
  }

  /** The list of a whole tree. */
  method ArgpHol(argp: Argp, cluster: Option<Cluster>, at: seq<nat>) returns (hol: Hol)
    requires TreeOk(argp)
    ensures fresh(hol)
    ensures WellBuilt(hol.entries, hol.short, Listing(argp, cluster, at))
    decreases argp
  {
    hide TreeOk;
    hide TableOk;
    hide WellBuilt;
    hide Items;
    TreeOkTable(argp);
    hol := new Hol.Make(argp, cluster);
    ghost var items := Items(argp.Table(), 0, cluster, argp);
    var i := 0;
    assert argp.children[0..] == argp.children;
    while i < |argp.children|
      invariant 0 <= i <= |argp.children| && fresh(hol)
      invariant items + ListingOf(argp.children[i..], i, cluster, at) == Listing(argp, cluster, at)
      invariant WellBuilt(hol.entries, hol.short, items)
    {
      var child := argp.children[i];
      assert child.argp < child;
      assert argp.children[i..][1..] == argp.children[i + 1..];
      TreeOkChild(argp, i);
      var own := ChildCluster(child, i, cluster, at);
      var more := ArgpHol(child.argp, own, at + [i]);
      ghost var theirs := Listing(child.argp, own, at + [i]);
      hol.Append(more, items, theirs);
      items := items + theirs;
      i := i + 1;
    }
    assert argp.children[i..] == [] && items + [] == items;
  }

  lemma TreeOkTable(argp: Argp)
    requires TreeOk(argp)
    ensures TableOk(argp.Table())
  {
    assert argp in Nodes(argp);
  }

  lemma TreeOkChild(argp: Argp, i: nat)
    requires TreeOk(argp) && i < |argp.children|
    ensures TreeOk(argp.children[i].argp)
  {
    ChildNodes(argp.children, i);
  }

  // ---------- Shadowing ----------

  /** What an entry of a list shows: which of its options are valid short options. */
  method ShortIterate(e: Entry, short: string) returns (valid: seq<bool>)
    ensures valid == Decode(e.item.opts, short, e.so)
  {
    hide Decode;
    var opts, i, so: nat := e.item.opts, 0, e.so;
    valid := [];
    assert opts[0..] == opts;
    while i < |opts|
      invariant 0 <= i <= |opts|
      invariant Decode(opts, short, e.so) == valid + Decode(opts[i..], short, so)
    {
      assert opts[i..][0] == opts[i] && opts[i..][1..] == opts[i + 1..];
      DecodeFirst(opts[i..], short, so, valid);
      if opts[i].IsShort() && so < |short| && short[so] == opts[i].Letter() {
        valid := valid + [true];
        so := so + 1;
      } else {
        valid := valid + [false];
      }
      i := i + 1;
    }
    assert opts[i..] == [] && |Decode(opts[i..], short, so)| == 0;
  }

  lemma DecodeFirst(opts: seq<Opt>, short: string, so: nat, valid: seq<bool>)
    requires opts != []
    ensures var take := opts[0].IsShort() && so < |short| && short[so] == opts[0].Letter();
      valid + Decode(opts, short, so) == valid + [take] + Decode(opts[1..], short, if take then so + 1 else so)
  {
  }

  /** The preorder position of option `j` of entry `i`. */
  ghost function PositionOf(items: seq<Item>, i: nat, j: nat): nat
    requires i < |items|
  {
    |Flat(items[..i])| + j
  }

  /**
   Shadowing is exact.  In the list built for a tree the letters are distinct and are the
   first occurrences of the short options in preorder; and an entry takes one of its options
   for valid exactly when that option is such a first occurrence, also in entries whose own
   letters are all shadowed.
   */
  lemma ShadowingExact(argp: Argp, cluster: Option<Cluster>, at: seq<nat>, entries: seq<Entry>, short: string,
                       i: nat, j: nat)
    requires var items := Listing(argp, cluster, at);
      WellBuilt(entries, short, items) && i < |items| && j < |items[i].opts|
    ensures var items := Listing(argp, cluster, at); var os := OptionsOf(Nodes(argp)); var g := PositionOf(items, i, j);
      && short == Firsts(os) && Distinct(short)
      && g < |os| && os[g] == items[i].opts[j]
      && (Decode(entries[i].item.opts, short, entries[i].so)[j] <==> IsFirst(os, g))
  {
    hide Firsts;
    hide Decode;
    hide Flat;
    hide Listing;
    hide Nodes;
    hide OptionsOf;
    var items := Listing(argp, cluster, at);
    var os := Flat(items);
    FlatListing(argp, cluster, at);
    FlatSlice(items, i);
    FirstsDistinct(os);
    var g := |Flat(items[..i])|;
    DecodeExact(os, g, g + |items[i].opts|, g + j);
  }
}
