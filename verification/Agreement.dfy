/**
 The help list of argp/argp-help.c and the parser of argp/argp-parse.c walk the same tree with
 different code.  They agree about a short option exactly when the argp that the help shows it
 under has a line that makes it an option for the parser.
 */
module Agreements {
  import opened Options
  import opened Argps
  import opened Hols
  import opened Converts
  import opened Dispatches

  // ---------- Who owns an option ----------

  /** The argp of a list whose table holds position `g` of all their options. */
  function OwnerOf(nodes: seq<Argp>, g: nat): Argp
    requires g < |OptionsOf(nodes)|
  {
    if g < |nodes[0].Table()| then nodes[0] else OwnerOf(nodes[1..], g - |nodes[0].Table()|)
  }

  lemma {:induction false} OwnerAppend(a: seq<Argp>, b: seq<Argp>, g: nat)
    requires g < |OptionsOf(a + b)|
    ensures |OptionsOf(a + b)| == |OptionsOf(a)| + |OptionsOf(b)|
    ensures OwnerOf(a + b, g) == if g < |OptionsOf(a)| then OwnerOf(a, g) else OwnerOf(b, g - |OptionsOf(a)|)
    decreases |a|
  {
    OptionsOfAppend(a, b);
    if a == [] {
      assert a + b == b;
    } else {
      assert (a + b)[1..] == a[1..] + b;
      if g >= |a[0].Table()| {
        OwnerAppend(a[1..], b, g - |a[0].Table()|);
      }
    }
  }

  lemma {:induction false} OwnerGrouped(nodes: seq<Argp>, g: nat)
    requires g < |OptionsOf(nodes)|
    ensures OptionsOf(Grouped(nodes)) == OptionsOf(nodes)
    ensures OwnerOf(Grouped(nodes), g) == OwnerOf(nodes, g)
    decreases |nodes|
  {
    GroupedOptions(nodes);
    GroupedOptions(nodes[1..]);
    if HasGroup(nodes[0]) {
      assert Grouped(nodes)[1..] == Grouped(nodes[1..]);
    } else {
      assert Grouped(nodes) == Grouped(nodes[1..]);
    }
    if g >= |nodes[0].Table()| {
      OwnerGrouped(nodes[1..], g - |nodes[0].Table()|);
    }
  }

  lemma {:induction false} OwnerTable(nodes: seq<Argp>, g: nat)
    requires g < |OptionsOf(nodes)|
    ensures OwnerOf(nodes, g) in nodes && OptionsOf(nodes)[g] in OwnerOf(nodes, g).Table()
    decreases |nodes|
  {
    if g >= |nodes[0].Table()| {
      OwnerTable(nodes[1..], g - |nodes[0].Table()|);
    }
  }

  /** Each item of a list carries the argp that owns its options. */
  ghost predicate Owned(items: seq<Item>, nodes: seq<Argp>) {
    && |Flat(items)| == |OptionsOf(nodes)|
    && forall i, j :: 0 <= i < |items| && 0 <= j < |items[i].opts| ==> OwnedAt(items, nodes, i, j)
  }

  ghost predicate OwnedAt(items: seq<Item>, nodes: seq<Argp>, i: nat, j: nat)
    requires i < |items|
  {
    PositionOf(items, i, j) < |OptionsOf(nodes)| && OwnerOf(nodes, PositionOf(items, i, j)) == items[i].argp
  }

  lemma OwnedAppend(a: seq<Item>, b: seq<Item>, m: seq<Argp>, n: seq<Argp>)
    requires Owned(a, m) && Owned(b, n)
    ensures Owned(a + b, m + n)
  {
    hide Flat;
    hide OptionsOf;
    hide OwnerOf;
    FlatAppend(a, b);
    OptionsOfAppend(m, n);
    forall i, j | 0 <= i < |a + b| && 0 <= j < |(a + b)[i].opts| ensures OwnedAt(a + b, m + n, i, j) {
      if i < |a| {
        assert (a + b)[..i] == a[..i];
        assert OwnedAt(a, m, i, j);
        OwnerAppend(m, n, PositionOf(a, i, j));
      } else {
        assert (a + b)[..i] == a + b[..i - |a|];
        FlatAppend(a, b[..i - |a|]);
        assert OwnedAt(b, n, i - |a|, j);
        OwnerAppend(m, n, PositionOf(a + b, i, j));
      }
    }
  }

  /** The items of one table. */
  lemma OwnedItems(a: Argp, cluster: Option<Cluster>)
    ensures Owned(Items(a.Table(), 0, cluster, a), [a])
  {
    var items := Items(a.Table(), 0, cluster, a);
    FlatItems(a.Table(), 0, cluster, a);
    OneArgp(a);
    ItemsArgp(a.Table(), 0, cluster, a);
    forall i, j | 0 <= i < |items| && 0 <= j < |items[i].opts| ensures OwnedAt(items, [a], i, j) {
      FlatSlice(items, i);
    }
  }

  lemma {:induction false} ItemsArgp(os: seq<Opt>, cur: int, cluster: Option<Cluster>, a: Argp)
    ensures forall i :: 0 <= i < |Items(os, cur, cluster, a)| ==> Items(os, cur, cluster, a)[i].argp == a
    decreases |os|
  {
    if os != [] {
      ItemsArgp(os[AliasEnd(os, 1)..], NextGroup(cur, os[0]), cluster, a);
    }
  }

  lemma {:induction false} OwnedListing(a: Argp, cluster: Option<Cluster>, at: seq<nat>)
    ensures Owned(Listing(a, cluster, at), Nodes(a))
    decreases a, 1
  {
    hide Owned;
    OwnedItems(a, cluster);
    OwnedListingOf(a.children, 0, cluster, at);
    OwnedAppend(Items(a.Table(), 0, cluster, a), ListingOf(a.children, 0, cluster, at), [a], NodesOf(a.children));
  }

  lemma {:induction false} OwnedListingOf(cs: seq<Child>, i: nat, cluster: Option<Cluster>, at: seq<nat>)
    ensures Owned(ListingOf(cs, i, cluster, at), NodesOf(cs))
    decreases cs, 0
  {
    if cs != [] {
      assert cs[0].argp < cs[0];
      var c := ChildCluster(cs[0], i, cluster, at);
      OwnedListing(cs[0].argp, c, at + [i]);
      OwnedListingOf(cs[1..], i + 1, cluster, at);
      OwnedAppend(Listing(cs[0].argp, c, at + [i]), ListingOf(cs[1..], i + 1, cluster, at),
                  Nodes(cs[0].argp), NodesOf(cs[1..]));
    }
  }

  // ---------- The group of an option ----------

  /** The group whose table holds position `g` of the options of all groups. */
  function OwnerGroup(ps: seq<Placed>, g: nat): (k: nat)
    requires g < |OptionsOf(Args(ps))|
    ensures k < |ps|
  {
    var n := |ps| - 1;
    ArgsLast(ps);
    if g < |OptionsOf(Args(ps[..n]))| then OwnerGroup(ps[..n], g) else n
  }

  lemma {:induction false} OwnerGroupArgp(ps: seq<Placed>, g: nat)
    requires g < |OptionsOf(Args(ps))|
    ensures ps[OwnerGroup(ps, g)].argp == OwnerOf(Args(ps), g)
    decreases |ps|
  {
    hide OptionsOf;
    hide Args;
    assert OwnerGroup(ps, g) < |ps|;
    var n := |ps| - 1;
    ArgsLast(ps);
    OwnerAppend(Args(ps[..n]), [ps[n].argp], g);
    OneArgp(ps[n].argp);
    if g < |OptionsOf(Args(ps[..n]))| {
      OwnerGroupArgp(ps[..n], g);
    }
  }

  /** No short option is an alias of a documentation line. */
  predicate NoDocLetters(os: seq<Opt>) {
    forall i :: 0 <= i < |os| && os[i].IsShort() ==> Parsed(os, i)
  }

  /** No group accepts a letter that none of its options offers. */
  lemma {:induction false} AcceptingOffers(ps: seq<Placed>, ch: char)
    ensures FirstAccepting(ps, ch).Some? ==> Offers(OptionsOf(Args(ps)), ch)
    decreases |ps|
  {
    hide OptionsOf;
    hide Args;
    if ps != [] {
      var n := |ps| - 1;
      ArgsLast(ps);
      AcceptingOffers(ps[..n], ch);
      var a, b := OptionsOf(Args(ps[..n])), ps[n].argp.Table();
      OffersAppend(a, b, ch);
      if Accepts(b, ch) {
        var i :| 0 <= i < |b| && Takes(b, i, ch);
        assert Offers(b, ch);
      }
    }
  }

  lemma OffersAppend(a: seq<Opt>, b: seq<Opt>, ch: char)
    ensures Offers(a + b, ch) <==> Offers(a, ch) || Offers(b, ch)
  {
    if Offers(a, ch) {
      var j :| 0 <= j < |a| && a[j].IsShort() && a[j].Letter() == ch;
      assert (a + b)[j] == a[j];
    }
    if Offers(b, ch) {
      var j :| 0 <= j < |b| && b[j].IsShort() && b[j].Letter() == ch;
      assert (a + b)[|a| + j] == b[j];
    }
    if Offers(a + b, ch) {
      var j :| 0 <= j < |a + b| && (a + b)[j].IsShort() && (a + b)[j].Letter() == ch;
      assert (a + b)[j] == if j < |a| then a[j] else b[j - |a|];
    }
  }

  lemma {:induction false} FirstAcceptingAccepts(ps: seq<Placed>, ch: char)
    ensures var k := FirstAccepting(ps, ch); k.Some? ==> Accepts(ps[k.value].argp.Table(), ch)
    decreases |ps|
  {
    hide Accepts;
    if ps != [] {
      FirstAcceptingAccepts(ps[..|ps| - 1], ch);
    }
  }

  /**
   No group before the owner of the first option that offers a letter accepts the letter; the owner
   does so when one of its lines is for the parser.
   */
  lemma {:induction false} FirstAcceptingOwns(ps: seq<Placed>, g: nat)
    requires g < |OptionsOf(Args(ps))| && IsFirst(OptionsOf(Args(ps)), g)
    ensures var ch := OptionsOf(Args(ps))[g].Letter(); var k := OwnerGroup(ps, g);
      && (FirstAccepting(ps, ch) == Some(k) <==> Accepts(ps[k].argp.Table(), ch))
      && (FirstAccepting(ps, ch).Some? ==> FirstAccepting(ps, ch).value >= k)
    decreases |ps|
  {
    hide OptionsOf;
    hide Args;
    hide Accepts;
    assert OwnerGroup(ps, g) < |ps|;
    var n := |ps| - 1;
    ArgsLast(ps);
    var a, os := OptionsOf(Args(ps[..n])), OptionsOf(Args(ps));
    var ch := os[g].Letter();
    if g < |a| {
      assert IsFirst(a, g) by {
        assert forall j :: 0 <= j <= g ==> os[j] == a[j];
      }
      FirstAcceptingOwns(ps[..n], g);
    } else {
      AcceptingOffers(ps[..n], ch);
      assert forall j :: 0 <= j < |a| ==> os[j] == a[j];
      assert !Offers(a, ch);
    }
  }

  lemma AcceptsIfShort(os: seq<Opt>, o: Opt)
    requires NoDocLetters(os) && o in os && o.IsShort()
    ensures Accepts(os, o.Letter())
  {
    var i :| 0 <= i < |os| && os[i] == o;
    assert Takes(os, i, o.Letter());
  }

  /** No argp of the tree has a short alias of a documentation line. */
  predicate Plain(a: Argp) {
    forall n :: n in Nodes(a) ==> NoDocLetters(n.Table())
  }

  /**
   When help and parser agree.  Take any tree, its help list and its parser tables, and an option
   `j` of entry `i` that is shown as valid.  Its letter is dispatched to the group that was made
   from the entry's argp, and whose table holds that very option, if and only if some line of that
   table makes the letter an option for the parser.  Otherwise it goes to a later group or to none.
   (The letters ':', '-' and '+' have a meaning of their own in the short option string.)
   */
  lemma HelpAndParserAgree(a: Argp, inOrder: bool, entries: seq<Entry>, short: string, i: nat, j: nat)
    requires var items := Listing(a, None, []);
      WellBuilt(entries, short, items) && i < |items| && j < |items[i].opts| &&
      Decode(items[i].opts, short, entries[i].so)[j]
    requires var o := Listing(a, None, [])[i].opts[j]; o.key !in {':' as int, '-' as int, '+' as int}
    ensures var items := Listing(a, None, []); var ps := GroupsOf(a, None, 0, 0);
      var t := Build(if inOrder then "-" else "", ps); var o := items[i].opts[j];
      && o.IsShort()
      && PositionOf(items, i, j) < |OptionsOf(Args(ps))|
      && var k := OwnerGroup(ps, PositionOf(items, i, j)); var to := ShortGroup(t, o.Letter());
         && t.groups[k].argp == items[i].argp
         && (to == Some(k) <==> Accepts(items[i].argp.Table(), o.Letter()))
         && (to.Some? ==> k <= to.value < |t.groups| && (to.value > k ==> t.groups[to.value].argp != items[i].argp))
  {
    hide Listing;
    hide GroupsOf;
    hide Build;
    hide Nodes;
    hide OptionsOf;
    hide Args;
    hide Grouped;
    hide Decode;
    hide Owned;
    hide ShortGroup;
    hide FirstAccepting;
    hide Accepts;
    var items, ps := Listing(a, None, []), GroupsOf(a, None, 0, 0);
    var prefix := if inOrder then "-" else "";
    ShadowingExact(a, None, [], entries, short, i, j);
    var g := PositionOf(items, i, j);
    GroupsAreNodes(a, None, 0, 0);
    OwnerGrouped(Nodes(a), g);
    FirstAcceptingOwns(ps, g);
    var ch := items[i].opts[j].Letter();
    ShortGroupIsFirst(prefix, ps, ch);
    FirstAcceptingAccepts(ps, ch);
    OwnerGroupArgp(ps, g);
    OwnedListing(a, None, []);
    OwnedHere(items, Nodes(a), i, j);
    GroupAt(prefix, ps, OwnerGroup(ps, g));
    if FirstAccepting(ps, ch).Some? {
      GroupAt(prefix, ps, FirstAccepting(ps, ch).value);
    }
  }

  /** Without short aliases of documentation lines, every letter goes where the help shows it. */
  lemma PlainTreesAgree(a: Argp, inOrder: bool, entries: seq<Entry>, short: string, i: nat, j: nat)
    requires Plain(a)
    requires var items := Listing(a, None, []);
      WellBuilt(entries, short, items) && i < |items| && j < |items[i].opts| &&
      Decode(items[i].opts, short, entries[i].so)[j]
    requires var o := Listing(a, None, [])[i].opts[j]; o.key !in {':' as int, '-' as int, '+' as int}
    ensures var items := Listing(a, None, []);
      var t := Build(if inOrder then "-" else "", GroupsOf(a, None, 0, 0)); var o := items[i].opts[j];
      o.IsShort() && var to := ShortGroup(t, o.Letter());
      to.Some? && to.value < |t.groups| && t.groups[to.value].argp == items[i].argp
  {
    hide Listing;
    hide GroupsOf;
    hide Build;
    hide Nodes;
    hide Decode;
    hide ShortGroup;
    hide NoDocLetters;
    hide Accepts;
    hide OptionsOf;
    var items := Listing(a, None, []);
    HelpAndParserAgree(a, inOrder, entries, short, i, j);
    ShadowingExact(a, None, [], entries, short, i, j);
    OwnedListing(a, None, []);
    OwnedHere(items, Nodes(a), i, j);
    OwnerTable(Nodes(a), PositionOf(items, i, j));
    AcceptsIfShort(items[i].argp.Table(), items[i].opts[j]);
  }

  lemma OwnedHere(items: seq<Item>, nodes: seq<Argp>, i: nat, j: nat)
    requires Owned(items, nodes) && i < |items| && j < |items[i].opts|
    ensures OwnedAt(items, nodes, i, j)
  {
  }

  // ---------- One entry for every letter ----------

  lemma {:induction false} FirstOffer(os: seq<Opt>, ch: char) returns (g: nat)
    requires Offers(os, ch)
    ensures g < |os| && IsFirst(os, g) && os[g].Letter() == ch
    decreases |os|
  {
    var n := |os| - 1;
    if Offers(os[..n], ch) {
      g := FirstOffer(os[..n], ch);
    } else {
      g :| 0 <= g < |os| && os[g].IsShort() && os[g].Letter() == ch;
      forall j | 0 <= j < g && os[j].IsShort() ensures os[j].key != os[g].key {
        assert os[..n][j] == os[j];
      }
    }
  }

  /** Every option of a list is an option of one of its items. */
  lemma {:induction false} Locate(items: seq<Item>, g: nat) returns (i: nat, j: nat)
    requires g < |Flat(items)|
    ensures i < |items| && j < |items[i].opts| && PositionOf(items, i, j) == g
    decreases |items|
  {
    var n := |items| - 1;
    if g < |Flat(items[..n])| {
      i, j := Locate(items[..n], g);
      assert items[..n][..i] == items[..i];
    } else {
      i, j := n, g - |Flat(items[..n])|;
    }
  }

  /** Different options of a list have different positions. */
  lemma SamePosition(items: seq<Item>, i: nat, j: nat, i': nat, j': nat)
    requires i < |items| && j < |items[i].opts| && i' < |items| && j' < |items[i'].opts|
    requires PositionOf(items, i, j) == PositionOf(items, i', j')
    ensures i' == i && j' == j
  {
    if i < i' {
      EarlierPosition(items, i, i');
    } else if i' < i {
      EarlierPosition(items, i', i);
    }
  }

  lemma EarlierPosition(items: seq<Item>, i: nat, k: nat)
    requires i < k < |items|
    ensures |Flat(items[..i])| + |items[i].opts| <= |Flat(items[..k])|
  {
    hide Flat;
    FlatSlice(items[..k], i);
    assert items[..k][..i] == items[..i];
  }

  /**
   Every letter that the parser accepts is shown as valid by an entry of the help, and by one
   entry and option only.
   */
  lemma ShownExactlyOnce(a: Argp, inOrder: bool, entries: seq<Entry>, short: string, ch: char) returns (i: nat, j: nat)
    requires WellBuilt(entries, short, Listing(a, None, []))
    requires ch !in {':', '-', '+'}
    requires ShortGroup(Build(if inOrder then "-" else "", GroupsOf(a, None, 0, 0)), ch).Some?
    ensures var items := Listing(a, None, []);
      && i < |items| && j < |items[i].opts|
      && Decode(items[i].opts, short, entries[i].so)[j] && items[i].opts[j].IsShort() && items[i].opts[j].Letter() == ch
      && forall i': nat, j': nat :: i' < |items| && j' < |items[i'].opts| && Shows(items, entries, short, i', j', ch)
           ==> i' == i && j' == j
  {
    hide Listing;
    hide GroupsOf;
    hide Build;
    hide Nodes;
    hide OptionsOf;
    hide Args;
    hide Grouped;
    hide Decode;
    hide Flat;
    hide ShortGroup;
    hide FirstAccepting;
    hide WellBuilt;
    var items, ps := Listing(a, None, []), GroupsOf(a, None, 0, 0);
    ShortGroupIsFirst(if inOrder then "-" else "", ps, ch);
    AcceptingOffers(ps, ch);
    GroupsAreNodes(a, None, 0, 0);
    GroupedOptions(Nodes(a));
    FlatListing(a, None, []);
    var os := OptionsOf(Nodes(a));
    var g := FirstOffer(os, ch);
    i, j := Locate(items, g);
    SameEntry(entries, short, items);
    ShadowingExact(a, None, [], entries, short, i, j);
    forall i': nat, j': nat | i' < |items| && j' < |items[i'].opts| && Shows(items, entries, short, i', j', ch)
      ensures i' == i && j' == j
    {
      ShadowingExact(a, None, [], entries, short, i', j');
      var g' := PositionOf(items, i', j');
      assert os[g'].Letter() == os[g].Letter();
      SamePosition(items, i, j, i', j');
    }
  }

  ghost predicate Shows(items: seq<Item>, entries: seq<Entry>, short: string, i: nat, j: nat, ch: char)
    requires i < |items| && j < |items[i].opts|
  {
    && i < |entries| && entries[i].item == items[i]
    && Decode(items[i].opts, short, entries[i].so)[j] && items[i].opts[j].IsShort() && items[i].opts[j].Letter() == ch
  }

  lemma SameEntry(entries: seq<Entry>, short: string, items: seq<Item>)
    requires WellBuilt(entries, short, items)
    ensures |entries| == |items| && forall i :: 0 <= i < |entries| ==> entries[i].item == items[i]
  {
  }

  // ---------- Documentation lines with short aliases ----------

  /** A table of a documentation line and a short alias of it. */
  predicate DocAlias(doc: Opt, alias: Opt) {
    && doc.flags.doc && !doc.flags.alias && alias.flags.alias && alias.IsShort()
    && alias.key !in {':' as int, '-' as int, '+' as int}
  }

  lemma DocAliasListing(a: Argp, doc: Opt, alias: Opt)
    requires a.options == Some([doc, alias]) && DocAlias(doc, alias)
    ensures var items := Listing(a, None, []); var os := OptionsOf(Nodes(a));
      && items != [] && items[0].opts == [doc, alias] && items[0].argp == a && PositionOf(items, 0, 1) == 1
      && |os| >= 2 && os[0] == doc && os[1] == alias && IsFirst(os, 1)
  {
    var t := [doc, alias];
    assert AliasEnd(t, 1) == AliasEnd(t, 2) == 2 && t[..2] == t;
    var items := Listing(a, None, []);
    assert items[..0] == [];
    OptionsOfAppend([a], NodesOf(a.children));
    OneArgp(a);
  }

  lemma DocAliasRefused(doc: Opt, alias: Opt)
    requires DocAlias(doc, alias)
    ensures !Accepts([doc, alias], alias.Letter())
  {
    assert Real([doc, alias], 1) == Real([doc, alias], 0) == doc;
  }

  /**
   The letter of such an alias is shown as valid under its argp, whatever else the tree holds, and is
   never dispatched there.
   */
  lemma DocAliasShownNotParsed(a: Argp, inOrder: bool, doc: Opt, alias: Opt, entries: seq<Entry>, short: string)
    requires a.options == Some([doc, alias]) && DocAlias(doc, alias)
    requires WellBuilt(entries, short, Listing(a, None, []))
    ensures var items := Listing(a, None, []);
      && items != [] && items[0].argp == a && items[0].opts == [doc, alias]
      && Decode(items[0].opts, short, entries[0].so)[1]
    ensures var t := Build(if inOrder then "-" else "", GroupsOf(a, None, 0, 0));
      var to := ShortGroup(t, alias.Letter());
      to.Some? ==> 0 < to.value < |t.groups| && t.groups[to.value].argp != a
  {
    hide Listing;
    hide Nodes;
    hide OptionsOf;
    hide GroupsOf;
    hide Build;
    hide Decode;
    hide ShortGroup;
    hide Accepts;
    hide OwnerGroup;
    DocAliasListing(a, doc, alias);
    DocAliasRefused(doc, alias);
    ShadowingExact(a, None, [], entries, short, 0, 1);
    HelpAndParserAgree(a, inOrder, entries, short, 0, 1);
  }

  /** With no other argp, the letter is dispatched to nobody. */
  lemma DocAliasToNobody(a: Argp, doc: Opt, alias: Opt)
    requires a.options == Some([doc, alias]) && DocAlias(doc, alias) && a.children == []
    ensures ShortGroup(Build("", GroupsOf(a, None, 0, 0)), alias.Letter()) == None
  {
    hide Accepts;
    hide Build;
    hide GroupsOf;
    var ps := GroupsOf(a, None, 0, 0);
    LeafGroup(a, None, 0, 0);
    assert ps[..0] == [];
    DocAliasRefused(doc, alias);
    assert FirstAccepting(ps, alias.Letter()) == None;
    ShortGroupIsFirst("", ps, alias.Letter());
  }

  /**
   With a child that has an ordinary option of the same letter, the help shows the letter under the
   parent and not under the child, and the parser dispatches it to the child.
   */
  lemma DocAliasToAnother(a: Argp, b: Argp, doc: Opt, alias: Opt, o: Opt, entries: seq<Entry>, short: string)
    requires a.options == Some([doc, alias]) && DocAlias(doc, alias) && a.children == [Child(b, None, 0)]
    requires b.options == Some([o]) && b.children == [] && o.key == alias.key && !o.flags.doc && !o.flags.alias
    requires WellBuilt(entries, short, Listing(a, None, []))
    ensures var items := Listing(a, None, []);
      && |items| == 2 && items[0].argp == a && items[1].argp == b && items[1].opts == [o]
      && Decode(items[0].opts, short, entries[0].so)[1] && !Decode(items[1].opts, short, entries[1].so)[0]
    ensures var t := Build("", GroupsOf(a, None, 0, 0));
      ShortGroup(t, alias.Letter()) == Some(1) && t.groups[1].argp == b
  {
    DocAliasShown(a, b, doc, alias, o, entries, short);
    DocAliasSent(a, b, doc, alias, o);
  }

  lemma {:induction false} DocAliasShown(a: Argp, b: Argp, doc: Opt, alias: Opt, o: Opt,
                                         entries: seq<Entry>, short: string)
    requires a.options == Some([doc, alias]) && DocAlias(doc, alias) && a.children == [Child(b, None, 0)]
    requires b.options == Some([o]) && b.children == [] && o.key == alias.key && !o.flags.doc && !o.flags.alias
    requires WellBuilt(entries, short, Listing(a, None, []))
    ensures var items := Listing(a, None, []);
      && |items| == 2 && items[0].argp == a && items[1].argp == b && items[1].opts == [o]
      && Decode(items[0].opts, short, entries[0].so)[1] && !Decode(items[1].opts, short, entries[1].so)[0]
  {
    hide WellBuilt;
    hide Decode;
    DocAliasShownNotParsed(a, false, doc, alias, entries, short);
    TwoItems(a, b, doc, alias, o);
    ShadowingExact(a, None, [], entries, short, 1, 0);
    DocAliasListing(a, doc, alias);
    SameEntry(entries, short, Listing(a, None, []));
  }

  lemma {:induction false} TwoItems(a: Argp, b: Argp, doc: Opt, alias: Opt, o: Opt)
    requires a.options == Some([doc, alias]) && DocAlias(doc, alias) && a.children == [Child(b, None, 0)]
    requires b.options == Some([o]) && b.children == []
    ensures var items := Listing(a, None, []);
      |items| == 2 && items[1].argp == b && items[1].opts == [o] && PositionOf(items, 1, 0) == 2
  {
    var t := [doc, alias];
    assert AliasEnd(t, 1) == AliasEnd(t, 2) == 2 && t[..2] == t && t[2..] == [];
    assert [o][..1] == [o] && [o][1..] == [];
    assert a.children[1..] == [];
    assert Listing(b, None, [] + [0]) == Items([o], 0, None, b);
    assert ListingOf(a.children, 0, None, []) == Items([o], 0, None, b) + ListingOf([], 1, None, []);
    var items := Listing(a, None, []);
    assert items[..1] == Items(t, 0, None, a);
    FlatItems(t, 0, None, a);
  }

  lemma {:induction false} DocAliasSent(a: Argp, b: Argp, doc: Opt, alias: Opt, o: Opt)
    requires a.options == Some([doc, alias]) && DocAlias(doc, alias) && a.children == [Child(b, None, 0)]
    requires b.options == Some([o]) && b.children == [] && o.key == alias.key && !o.flags.doc && !o.flags.alias
    ensures var t := Build("", GroupsOf(a, None, 0, 0));
      ShortGroup(t, alias.Letter()) == Some(1) && t.groups[1].argp == b
  {
    hide Accepts;
    hide Build;
    hide ShortGroup;
    var ps := GroupsOf(a, None, 0, 0);
    LeafGroup(b, Some(0), 0, 1);
    assert a.children[1..] == [];
    assert GroupsOfChildren(a.children, 0, Some(0), 1) == [Placed(b, Some(0), 0)] + GroupsOfChildren([], 1, Some(0), 2);
    assert ps == [Placed(a, None, 0), Placed(b, Some(0), 0)];
    DocAliasRefused(doc, alias);
    OneLetter(o);
    assert ps[..1] == [Placed(a, None, 0)] && ps[..1][..0] == [];
    assert FirstAccepting(ps[..1], alias.Letter()) == None;
    assert FirstAccepting(ps, alias.Letter()) == Some(1);
    ShortGroupIsFirst("", ps, alias.Letter());
    GroupAt("", ps, 1);
  }

  lemma LeafGroup(a: Argp, parent: Option<nat>, index: nat, n: nat)
    requires HasGroup(a) && a.children == []
    ensures GroupsOf(a, parent, index, n) == [Placed(a, parent, index)]
  {
    assert GroupsOfChildren(a.children, 0, Some(n), n + 1) == [];
  }

  lemma OneLetter(o: Opt)
    requires o.IsShort()
    ensures Accepts([o], o.Letter())
  {
    assert Takes([o], 0, o.Letter());
  }
}
