/**
 Where the entries of the help list belong (argp/argp-help.c), read off the tree of argps: the
 cluster of an entry from the children on the way to its argp, and its group from the lines of its
 table.
 */
module HolPlaces {
  import opened Options
  import opened Argps
  import opened Hols

  // ---------- Clusters ----------

  /** The last child on the way. */
  function ChildAt(a: Argp, p: seq<nat>): Option<Child>
    requires p != []
  {
    var n := |p| - 1;
    if Walks(a, p[..n]) && p[n] < |ArgpAt(a, p[..n]).children| then Some(ArgpAt(a, p[..n]).children[p[n]]) else None
  }

  /** The last child on the way has a group or a header. */
  predicate Marked(a: Argp, p: seq<nat>) {
    p != [] && var c := ChildAt(a, p); c.Some? && (c.value.group != 0 || c.value.header.Some?)
  }

  /**
   The cluster for entries of the argp at `p`: that of the last child on the way with a group or a
   header, inside the cluster of the one before it; none without such a child.
   */
  predicate ClusterFor(a: Argp, p: seq<nat>, cluster: Option<Cluster>)
    decreases |p|
  {
    if p == [] then cluster == None else
    var up := p[..|p| - 1];
    if !Marked(a, p) then ClusterFor(a, up, cluster)
    else
      && cluster.Some? && var c := cluster.value; var child := ChildAt(a, p).value;
      && c.at == p && c.index == p[|p| - 1] && c.group == child.group && c.header == child.header
      && ClusterFor(a, up, c.parent)
  }

  lemma ClusterOn(root: Argp, at: seq<nat>, i: nat, cluster: Option<Cluster>)
    requires Walks(root, at) && i < |ArgpAt(root, at).children| && ClusterFor(root, at, cluster)
    ensures ClusterFor(root, at + [i], ChildCluster(ArgpAt(root, at).children[i], i, cluster, at))
  {
    var p := at + [i];
    assert p[..|p| - 1] == at && p[|p| - 1] == i;
  }

  /** The item is one of the table of an argp, and in the cluster for the way to that argp. */
  ghost predicate InPlace(root: Argp, item: Item) {
    && item in Items(item.argp.Table(), 0, item.cluster, item.argp)
    && exists p :: Walks(root, p) && ArgpAt(root, p) == item.argp && ClusterFor(root, p, item.cluster)
  }

  ghost predicate AllInPlace(root: Argp, items: seq<Item>) {
    forall i :: 0 <= i < |items| ==> InPlace(root, items[i])
  }

  lemma {:induction false} ItemsOwn(os: seq<Opt>, cur: int, cluster: Option<Cluster>, argp: Argp, i: nat)
    requires i < |Items(os, cur, cluster, argp)|
    ensures Items(os, cur, cluster, argp)[i].argp == argp && Items(os, cur, cluster, argp)[i].cluster == cluster
    decreases |os|
  {
    if i > 0 {
      ItemsOwn(os[AliasEnd(os, 1)..], NextGroup(cur, os[0]), cluster, argp, i - 1);
    }
  }

  lemma ItemsInPlace(root: Argp, cluster: Option<Cluster>, at: seq<nat>)
    requires Walks(root, at) && ClusterFor(root, at, cluster)
    ensures var a := ArgpAt(root, at); AllInPlace(root, Items(a.Table(), 0, cluster, a))
  {
    hide Walks;
    hide ArgpAt;
    hide ClusterFor;
    hide Items;
    var a := ArgpAt(root, at);
    var items := Items(a.Table(), 0, cluster, a);
    forall i | 0 <= i < |items| ensures InPlace(root, items[i]) {
      ItemsOwn(a.Table(), 0, cluster, a, i);
      assert items[i] in items;
      assert Walks(root, at) && ArgpAt(root, at) == items[i].argp && ClusterFor(root, at, items[i].cluster);
    }
  }

  lemma {:induction false} ListingInPlace(root: Argp, at: seq<nat>, cluster: Option<Cluster>)
    requires Walks(root, at) && ClusterFor(root, at, cluster)
    ensures AllInPlace(root, Listing(ArgpAt(root, at), cluster, at))
    decreases ArgpAt(root, at), 1
  {
    hide Walks;
    hide ArgpAt;
    hide ClusterFor;
    hide InPlace;
    var a := ArgpAt(root, at);
    ItemsInPlace(root, cluster, at);
    assert a.children[0..] == a.children;
    ListingOfInPlace(root, at, 0, cluster);
  }

  lemma {:induction false} ListingOfInPlace(root: Argp, at: seq<nat>, i: nat, cluster: Option<Cluster>)
    requires Walks(root, at) && i <= |ArgpAt(root, at).children| && ClusterFor(root, at, cluster)
    ensures AllInPlace(root, ListingOf(ArgpAt(root, at).children[i..], i, cluster, at))
    decreases ArgpAt(root, at), 0, |ArgpAt(root, at).children| - i
  {
    hide Walks;
    hide ArgpAt;
    hide ClusterFor;
    hide InPlace;
    var cs := ArgpAt(root, at).children;
    if i < |cs| {
      assert cs[i..][0] == cs[i] && cs[i..][1..] == cs[i + 1..];
      assert cs[i].argp < cs[i];
      WalkOn(root, at, i);
      ClusterOn(root, at, i, cluster);
      ListingInPlace(root, at + [i], ChildCluster(cs[i], i, cluster, at));
      ListingOfInPlace(root, at, i + 1, cluster);
    }
  }

  /** Every entry of the help list of a tree has the cluster that the way to its argp asks for. */
  lemma ClustersFollowTree(a: Argp)
    ensures AllInPlace(a, Listing(a, None, []))
  {
    ListingInPlace(a, [], None);
  }

  /** An entry has a cluster exactly when a child on its way has a group or a header. */
  lemma {:induction false} ClusterMarked(a: Argp, p: seq<nat>, cluster: Option<Cluster>)
    requires ClusterFor(a, p, cluster)
    ensures cluster.Some? <==> exists k :: 0 <= k <= |p| && Marked(a, p[..k])
    ensures cluster.Some? ==> cluster.value.at <= p && Marked(a, cluster.value.at)
    ensures cluster.Some? ==> forall k :: |cluster.value.at| < k <= |p| ==> !Marked(a, p[..k])
    decreases |p|
  {
    assert p[..|p|] == p;
    if p != [] {
      var up := p[..|p| - 1];
      assert forall k :: 0 <= k <= |up| ==> up[..k] == p[..k];
      if Marked(a, p) {
        assert cluster.value.at == p;
      } else {
        ClusterMarked(a, up, cluster);
        if k :| 0 <= k <= |p| && Marked(a, p[..k]) {
          assert k <= |up|;
        }
      }
    }
  }

  // ---------- Groups ----------

  /** The item starts a heading: a line with neither name nor key. */
  predicate IsHeading(item: Item)
    requires item.opts != []
  {
    item.opts[0].name == None && item.opts[0].key == 0
  }

  predicate Opened(items: seq<Item>) {
    forall i :: 0 <= i < |items| ==> items[i].opts != []
  }

  /** How many of the items from `i` up to `k` are headings that give no group themselves. */
  function Headings(items: seq<Item>, i: nat, k: nat): nat
    requires Opened(items) && i <= k <= |items|
  {
    if i == k then 0
    else Headings(items, i, k - 1) + if IsHeading(items[k - 1]) then 1 else 0
  }

  /** An item is a line of the table and all aliases after it. */
  lemma {:induction false} ItemsShape(os: seq<Opt>, cur: int, cluster: Option<Cluster>, argp: Argp)
    ensures var items := Items(os, cur, cluster, argp);
      && Opened(items)
      && (forall i, j :: 0 <= i < |items| && 1 <= j < |items[i].opts| ==> items[i].opts[j].flags.alias)
      && (forall i :: 1 <= i < |items| ==> !items[i].opts[0].flags.alias)
      && (items != [] ==> items[0].opts[0] == os[0])
    decreases |os|
  {
    if os != [] {
      var n := AliasEnd(os, 1);
      AliasRun(os, 1);
      ItemsShape(os[n..], NextGroup(cur, os[0]), cluster, argp);
    }
  }

  lemma {:induction false} AliasRun(os: seq<Opt>, k: nat)
    requires k <= |os|
    ensures forall j :: k <= j < AliasEnd(os, k) ==> os[j].flags.alias
    ensures AliasEnd(os, k) < |os| ==> !os[AliasEnd(os, k)].flags.alias
    decreases |os| - k
  {
    if k < |os| && os[k].flags.alias {
      AliasRun(os, k + 1);
    }
  }

  /** The group of an item from the one before it, or from `cur` for the first. */
  lemma {:induction false} GroupStep(os: seq<Opt>, cur: int, cluster: Option<Cluster>, argp: Argp, i: nat)
    requires i < |Items(os, cur, cluster, argp)|
    ensures var items := Items(os, cur, cluster, argp);
      items[i].opts != [] &&
      items[i].group == NextGroup(if i == 0 then cur else items[i - 1].group, items[i].opts[0])
    decreases |os|
  {
    var n := AliasEnd(os, 1);
    var g := NextGroup(cur, os[0]);
    var rest := Items(os[n..], g, cluster, argp);
    if i > 0 {
      GroupStep(os[n..], g, cluster, argp, i - 1);
    }
  }

  /**
   The group of an item: the group given last, by the item itself or one before it in the table, or
   0, and one more for each heading since.
   */
  lemma {:induction false} GroupsCounted(os: seq<Opt>, cluster: Option<Cluster>, argp: Argp, m: nat, i: nat)
    requires m <= i < |Items(os, 0, cluster, argp)| && Opened(Items(os, 0, cluster, argp))
    requires var items := Items(os, 0, cluster, argp); forall k :: m < k <= i ==> items[k].opts[0].group == 0
    ensures var items := Items(os, 0, cluster, argp);
      && (items[m].opts[0].group != 0 ==> items[i].group == items[m].opts[0].group + Headings(items, m + 1, i + 1))
      && (m == 0 && items[0].opts[0].group == 0 ==> items[i].group == Headings(items, 0, i + 1))
    decreases i
  {
    hide Items;
    var items := Items(os, 0, cluster, argp);
    GroupStep(os, 0, cluster, argp, i);
    if m < i {
      GroupsCounted(os, cluster, argp, m, i - 1);
    } else {
      assert Headings(items, m + 1, m + 1) == 0 && Headings(items, m, m) == 0;
    }
  }
}
