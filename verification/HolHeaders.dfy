/**
 Cluster headers in the printed help (argp/argp-help.c).  In a list sorted by the comparison
 of `HolOrder` the entries of a cluster and of the clusters inside it are together, and so the
 rule that looks only at the entry printed before prints every header once.
 */
module HolHeaders {
  import opened Options
  import opened Argps
  import opened Hols
  import opened HolOrder

  // ---------- Sorted lists ----------

  predicate Proper(es: seq<Entry>) {
    forall i :: 0 <= i < |es| ==> es[i].item.opts != []
  }

  /** Sorted by the comparison, as qsort leaves the list. */
  ghost predicate Sorted(es: seq<Entry>, short: string)
    requires Proper(es)
  {
    forall i, j :: 0 <= i < j < |es| ==> EntryCmp(es[i], es[j], short) <= 0
  }

  lemma SortedKeys(es: seq<Entry>, short: string, i: nat, j: nat)
    requires Proper(es) && Sorted(es, short) && i < j < |es|
    ensures Lex(Key(es[i], short), Key(es[j], short)) <= 0
  {
    hide EntryCmp;
    hide Key;
    hide Lex;
    EntryCmpLex(es[i], es[j], short);
  }

  /** The entry is in cluster `c` or in a cluster inside it. */
  predicate Within(e: Entry, c: Cluster) {
    e.item.cluster.Some? && Under(e.item.cluster.value, c)
  }

  ghost predicate Occurs(c: Cluster, es: seq<Entry>) {
    exists i :: 0 <= i < |es| && Within(es[i], c)
  }

  /** No other cluster of the list has the same way from the root as `c`. */
  ghost predicate Alone(c: Cluster, es: seq<Entry>) {
    forall d :: Occurs(d, es) && Code(d) == Code(c) ==> d == c
  }

  /** No cluster with a header ties with another one. */
  ghost predicate Untied(es: seq<Entry>) {
    forall c :: Occurs(c, es) && HasHeader(c) ==> Alone(c, es)
  }

  /** No two clusters with the same parent have the same group and index. */
  ghost predicate SiblingsDistinct(es: seq<Entry>) {
    forall c, d :: Occurs(c, es) && Occurs(d, es) && c.parent == d.parent && c.group == d.group && c.index == d.index
      ==> c == d
  }

  // ---------- Clusters are contiguous ----------

  lemma {:induction false} UnderCode(d: Cluster, c: Cluster)
    requires Under(d, c)
    ensures Code(c) <= Code(d) && Base(c) == Base(d) && (d != c ==> Depth(c) < Depth(d))
    decreases d
  {
    if d != c {
      UnderCode(d.parent.value, c);
    }
  }

  /** The ancestor at a given depth lies on the way from the root. */
  lemma {:induction false} Ancestor(d: Cluster, depth: nat) returns (a: Cluster)
    requires depth <= Depth(d)
    ensures Under(d, a) && Depth(a) == depth && Code(a) == Code(d)[..4 * (depth + 1)]
    decreases d
  {
    if depth == Depth(d) {
      a := d;
    } else {
      a := Ancestor(d.parent.value, depth);
    }
  }

  lemma OccursParent(c: Cluster, es: seq<Entry>)
    requires Occurs(c, es) && c.parent.Some?
    ensures Occurs(c.parent.value, es)
  {
    var i :| 0 <= i < |es| && Within(es[i], c);
    UnderParent(es[i].item.cluster.value, c);
    assert Within(es[i], c.parent.value);
  }

  /** Where siblings are distinct, a cluster is determined by its way from the root. */
  lemma {:induction false} SameWay(c: Cluster, d: Cluster, es: seq<Entry>)
    requires SiblingsDistinct(es) && Occurs(c, es) && Occurs(d, es) && Code(c) == Code(d)
    ensures c == d
    decreases c
  {
    var n := |Code(c)| - 4;
    assert Code(c)[n..] == StepCode(c) && Code(d)[n..] == StepCode(d);
    assert StepCode(c)[2] == c.group && StepCode(d)[2] == d.group;
    assert StepCode(c)[3] == 0 - c.index && StepCode(d)[3] == 0 - d.index;
    if c.parent.Some? {
      OccursParent(c, es);
      OccursParent(d, es);
      assert Code(c)[..n] == Code(c.parent.value) && Code(d)[..n] == Code(d.parent.value);
      SameWay(c.parent.value, d.parent.value, es);
    }
  }

  /** Distinct siblings are enough for all that follows. */
  lemma DistinctSiblingsUntied(es: seq<Entry>)
    requires SiblingsDistinct(es)
    ensures forall c :: Occurs(c, es) ==> Alone(c, es)
    ensures Untied(es)
  {
    hide SiblingsDistinct;
    hide Occurs;
    hide Code;
    forall c, d | Occurs(c, es) && Occurs(d, es) && Code(d) == Code(c) ensures d == c {
      SameWay(d, c, es);
    }
  }

  /** The part of the key that all entries within `c` share. */
  function Prefix(c: Cluster): seq<int> {
    GroupCode(Base(c).group) + ([1] + Code(c))
  }

  lemma WithinPrefix(e: Entry, c: Cluster, short: string)
    requires e.item.opts != [] && Within(e, c)
    ensures Prefix(c) <= Key(e, short)
  {
    hide Code;
    hide Face.Code;
    var d := e.item.cluster.value;
    UnderCode(d, c);
    var rest := GroupCode(e.item.group) + FaceOf(e, short).Code();
    assert Key(e, short) == Prefix(d) + ([0] + rest);
  }

  /** A key that starts like that of a cluster belongs to an entry further on the same way. */
  lemma PrefixOnWay(c: Cluster, cluster: Option<Cluster>, og: int, rest: seq<int>)
    requires Prefix(c) <= GroupCode(og) + (PlaceCode(cluster) + rest)
    ensures cluster.Some? && Depth(c) <= Depth(cluster.value) && Code(c) <= Code(cluster.value)
  {
    hide Code;
    hide Depth;
    hide Base;
    hide Prefix;
    hide PlaceCode;
    hide GroupCode;
    var key := GroupCode(og) + (PlaceCode(cluster) + rest);
    PrefixParts(c);
    KeyParts(cluster, og, rest);
    assert key[2] == Prefix(c)[2];
    PrefixTail(Prefix(c), key, 3);
    OnWay(c, cluster.value, rest);
  }

  lemma PrefixParts(c: Cluster)
    ensures |Prefix(c)| == 3 + |Code(c)| && Prefix(c)[2] == 1 && Prefix(c)[3..] == Code(c)
  {
    hide Code;
  }

  lemma KeyParts(cluster: Option<Cluster>, og: int, rest: seq<int>)
    ensures var key := GroupCode(og) + (PlaceCode(cluster) + rest);
      && |key| >= 3 && key[2] == (if cluster.Some? then 1 else 0)
      && (cluster.Some? ==> key[3..] == Code(cluster.value) + ([0] + rest))
  {
    hide Code;
    var place := if cluster.Some? then Code(cluster.value) + ([0] + rest) else rest;
    var x := if cluster.Some? then 1 else 0;
    assert PlaceCode(cluster) + rest == [x] + place;
    assert GroupCode(og) + ([x] + place) == [GroupCode(og)[0], og, x] + place;
  }

  lemma PrefixTail(p: seq<int>, q: seq<int>, n: nat)
    requires p <= q && n <= |p|
    ensures p[n..] <= q[n..]
  {
  }

  lemma OnWay(c: Cluster, d: Cluster, rest: seq<int>)
    requires Code(c) <= Code(d) + ([0] + rest)
    ensures Depth(c) <= Depth(d) && Code(c) <= Code(d)
  {
    hide Code;
    hide Depth;
    assert (Code(d) + ([0] + rest))[|Code(d)|] == 0;
    if Depth(c) > Depth(d) {
      CodeMarks(c, Depth(d) + 1);
    }
  }

  lemma PrefixWithin(e: Entry, c: Cluster, es: seq<Entry>, short: string)
    requires e.item.opts != [] && Prefix(c) <= Key(e, short)
    requires e in es && Alone(c, es)
    ensures Within(e, c)
  {
    hide Code;
    hide Depth;
    hide Prefix;
    hide Face.Code;
    hide PlaceCode;
    hide Occurs;
    PrefixOnWay(c, e.item.cluster, OuterGroup(e.item), GroupCode(e.item.group) + FaceOf(e, short).Code());
    var a := Ancestor(e.item.cluster.value, Depth(c));
    var i :| 0 <= i < |es| && es[i] == e;
    OccursAt(es, i, a);
    UnderCode(e.item.cluster.value, a);
    assert Code(a) == Code(c);
  }

  lemma OccursAt(es: seq<Entry>, i: nat, c: Cluster)
    requires i < |es| && Within(es[i], c)
    ensures Occurs(c, es)
  {
  }

  /** Between two entries of a cluster there are only entries of that cluster. */
  lemma Contiguous(es: seq<Entry>, short: string, c: Cluster, i: nat, k: nat, j: nat)
    requires Proper(es) && Sorted(es, short) && Alone(c, es)
    requires i <= k <= j < |es| && Within(es[i], c) && Within(es[j], c)
    ensures Within(es[k], c)
  {
    hide EntryCmp;
    if i < k < j {
      WithinPrefix(es[i], c, short);
      WithinPrefix(es[j], c, short);
      SortedKeys(es, short, i, k);
      SortedKeys(es, short, k, j);
      LexBetween(Prefix(c), Key(es[i], short), Key(es[k], short), Key(es[j], short));
      PrefixWithin(es[k], c, es, short);
    }
  }

  /** The entries of a cluster itself come before those of the clusters inside it. */
  lemma OwnEntriesFirst(es: seq<Entry>, short: string, c: Cluster, i: nat, j: nat)
    requires Proper(es) && Sorted(es, short)
    requires i < |es| && j < |es|
    requires es[i].item.cluster == Some(c) && Within(es[j], c) && es[j].item.cluster != Some(c)
    ensures i < j
  {
    hide Code;
    hide Face.Code;
    var d := es[j].item.cluster.value;
    UnderCode(d, c);
    var a := GroupCode(es[i].item.group) + FaceOf(es[i], short).Code();
    var b := GroupCode(es[j].item.group) + FaceOf(es[j], short).Code();
    WayGoesOn(c, d, a, b);
    PlaceLex(Some(c), Some(d), a, b);
    LexCommon(GroupCode(Base(c).group), PlaceCode(Some(c)) + a, PlaceCode(Some(d)) + b);
    LexSwap(Key(es[i], short), Key(es[j], short));
    if j < i {
      SortedKeys(es, short, j, i);
    }
  }

  // ---------- Printing ----------

  /** Some option of the entry is printed. */
  predicate Switches(e: Entry, short: string) {
    FirstShort(e.item.opts, Decode(e.item.opts, short, e.so)) != 0 || FirstLong(e.item.opts).Some?
  }

  lemma {:induction false} DecodedShort(opts: seq<Opt>, short: string, so: nat)
    ensures forall i :: 0 <= i < |opts| && Decode(opts, short, so)[i] ==> opts[i].IsShort()
    decreases |opts|
  {
    if opts != [] {
      var take := opts[0].IsShort() && so < |short| && short[so] == opts[0].Letter();
      DecodedShort(opts[1..], short, if take then so + 1 else so);
    }
  }

  /** That is: some option that is not hidden has a name or a letter that is valid. */
  lemma SwitchesExact(e: Entry, short: string)
    ensures var opts := e.item.opts; var valid := Decode(opts, short, e.so);
      Switches(e, short) <==> exists i :: 0 <= i < |opts| && !opts[i].flags.hidden && (opts[i].name.Some? || valid[i])
  {
    hide Decode;
    hide FirstLong;
    hide FirstShort;
    var opts, valid := e.item.opts, Decode(e.item.opts, short, e.so);
    DecodedShort(opts, short, e.so);
    FirstLongFirst(opts);
    FirstShortFirst(opts, valid);
  }

  /** The entry is a heading: no letter, no name, only text. */
  predicate IsHeading(e: Entry)
    requires e.item.opts != []
  {
    !e.item.opts[0].IsShort() && e.item.opts[0].name.None?
  }

  predicate Shown(e: Entry, short: string)
    requires e.item.opts != []
  {
    Switches(e, short) || IsHeading(e)
  }

  predicate HasHeader(c: Cluster) {
    c.header.Some? && c.header.value != []
  }

  /** The rule of `comma`: announce the cluster of `e` unless the entry before was within it. */
  predicate Announces(e: Entry, short: string, prev: Option<Entry>) {
    && Switches(e, short) && e.item.cluster.Some? && HasHeader(e.item.cluster.value)
    && !(prev.Some? && Within(prev.value, e.item.cluster.value))
  }

  /** The clusters whose headers are printed for a list, after the entry `prev`. */
  function Headers(es: seq<Entry>, short: string, prev: Option<Entry>): seq<Cluster>
    requires Proper(es)
  {
    if es == [] then [] else
    (if Announces(es[0], short, prev) then [es[0].item.cluster.value] else []) +
    Headers(es[1..], short, if Shown(es[0], short) then Some(es[0]) else prev)
  }

  /** hol_cluster_is_child */
  method IsChild(cl1: Option<Cluster>, cl2: Cluster) returns (b: bool)
    ensures b <==> cl1.Some? && Under(cl1.value, cl2)
  {
    var c := cl1;
    while c.Some? && c.value != cl2
      invariant (cl1.Some? && Under(cl1.value, cl2)) <==> c.Some? && Under(c.value, cl2)
      decreases c
    {
      c := c.value.parent;
    }
    b := c == Some(cl2);
  }

  /** Print one entry: whether its cluster is announced, and the entry printed last. */
  method EntryHelp(e: Entry, short: string, prev: Option<Entry>) returns (header: bool, last: Option<Entry>)
    requires e.item.opts != []
    ensures header == Announces(e, short, prev)
    ensures last == if Shown(e, short) then Some(e) else prev
    // a line with neither letter nor name is printed as a heading
    ensures !e.item.opts[0].IsShort() && e.item.opts[0].name.None? ==> last == Some(e)
  {
    hide Decode;
    header, last := false, prev;
    var letter := EntryFirstShort(e, short);
    var name := EntryFirstLong(e);
    if letter != 0 || name.Some? {
      if e.item.cluster.Some? && e.item.cluster.value.header.Some? && e.item.cluster.value.header.value != [] {
        var cl := e.item.cluster.value;
        var inside := false;
        if prev.Some? {
          inside := IsChild(prev.value.item.cluster, cl);
        }
        header := prev.None? || (prev.value.item.cluster != Some(cl) && !inside);
      }
      last := Some(e);
    } else if !e.item.opts[0].IsShort() && e.item.opts[0].name.None? {
      last := Some(e);
    }
  }

  /** Print a whole list. */
  method HolHelp(es: seq<Entry>, short: string) returns (printed: seq<Cluster>)
    requires Proper(es)
    ensures printed == Headers(es, short, None)
  {
    hide Headers;
    hide Switches;
    var prev: Option<Entry> := None;
    printed := [];
    var i := 0;
    assert es[0..] == es;
    while i < |es|
      invariant 0 <= i <= |es|
      invariant prev == PrevShown(es, short, i)
      invariant Headers(es, short, None) == printed + Headers(es[i..], short, prev)
    {
      HeadersUnroll(es, short, i);
      var header;
      header, prev := EntryHelp(es[i], short, prev);
      if header {
        printed := printed + [es[i].item.cluster.value];
      }
      i := i + 1;
    }
    HeadersOfNothing(es, short, prev);
  }

  /** The last entry before position `n` that is shown. */
  function PrevShown(es: seq<Entry>, short: string, n: nat): Option<Entry>
    requires Proper(es) && n <= |es|
  {
    if n == 0 then None
    else if Shown(es[n - 1], short) then Some(es[n - 1])
    else PrevShown(es, short, n - 1)
  }

  lemma {:induction false} PrevShownIndex(es: seq<Entry>, short: string, i: nat, n: nat) returns (k: nat)
    requires Proper(es) && i < n <= |es| && Shown(es[i], short)
    ensures i <= k < n && PrevShown(es, short, n) == Some(es[k]) && Shown(es[k], short)
    decreases n
  {
    if Shown(es[n - 1], short) {
      k := n - 1;
    } else {
      k := PrevShownIndex(es, short, i, n - 1);
    }
  }

  lemma {:induction false} PrevShownIsShown(es: seq<Entry>, short: string, n: nat) returns (k: nat)
    requires Proper(es) && n <= |es| && PrevShown(es, short, n).Some?
    ensures k < n && PrevShown(es, short, n) == Some(es[k]) && Shown(es[k], short)
    decreases n
  {
    if Shown(es[n - 1], short) {
      k := n - 1;
    } else {
      k := PrevShownIsShown(es, short, n - 1);
    }
  }

  /** The cluster of the entry at `j` has a header and no entry shown before is within it. */
  ghost predicate Opens(es: seq<Entry>, short: string, j: nat)
    requires Proper(es) && j < |es|
  {
    && Switches(es[j], short) && es[j].item.cluster.Some? && HasHeader(es[j].item.cluster.value)
    && forall i :: 0 <= i < j && Shown(es[i], short) ==> !Within(es[i], es[j].item.cluster.value)
  }

  /** In a sorted list, looking at the entry before is as good as looking at all of them. */
  lemma AnnouncesOpens(es: seq<Entry>, short: string, j: nat)
    requires Proper(es) && Sorted(es, short) && Untied(es) && j < |es|
    ensures Announces(es[j], short, PrevShown(es, short, j)) <==> Opens(es, short, j)
  {
    hide Lex;
    hide EntryCmp;
    hide Alone;
    hide Occurs;
    if es[j].item.cluster.Some? {
      var c := es[j].item.cluster.value;
      assert Within(es[j], c);
      if HasHeader(c) {
        OccursAt(es, j, c);
      }
      if i :| HasHeader(c) && 0 <= i < j && Shown(es[i], short) && Within(es[i], c) {
        var k := PrevShownIndex(es, short, i, j);
        Contiguous(es, short, c, i, k, j);
      }
      if PrevShown(es, short, j).Some? {
        var k := PrevShownIsShown(es, short, j);
      }
    }
  }

  lemma HeadersUnroll(es: seq<Entry>, short: string, n: nat)
    requires Proper(es) && n < |es|
    ensures var prev := PrevShown(es, short, n);
      Headers(es[n..], short, prev) ==
        (if Announces(es[n], short, prev) then [es[n].item.cluster.value] else []) +
        Headers(es[n + 1..], short, PrevShown(es, short, n + 1))
  {
    hide Switches;
    hide Shown;
    assert es[n..][0] == es[n] && es[n..][1..] == es[n + 1..];
  }

  lemma {:induction false} HeadersFrom(es: seq<Entry>, short: string, n: nat, c: Cluster)
    requires Proper(es) && Sorted(es, short) && Untied(es) && n <= |es|
    ensures c in Headers(es[n..], short, PrevShown(es, short, n))
      <==> exists j :: n <= j < |es| && Opens(es, short, j) && es[j].item.cluster == Some(c)
    decreases |es| - n
  {
    hide Lex;
    hide EntryCmp;
    hide Alone;
    hide Occurs;
    hide Opens;
    hide Switches;
    hide Headers;
    hide PrevShown;
    if n < |es| {
      HeadersUnroll(es, short, n);
      AnnouncesOpens(es, short, n);
      HeadersFrom(es, short, n + 1, c);
      if j :| n <= j < |es| && Opens(es, short, j) && es[j].item.cluster == Some(c) {
        assert j == n || n + 1 <= j;
      }
    } else {
      HeadersOfNothing(es, short, PrevShown(es, short, n));
    }
  }

  /** Two entries never open the same cluster. */
  lemma OpensOnce(es: seq<Entry>, short: string, i: nat, j: nat)
    requires Proper(es) && i < j < |es| && Opens(es, short, i) && Opens(es, short, j)
    ensures es[i].item.cluster != es[j].item.cluster
  {
  }

  lemma {:induction false} HeadersDistinct(es: seq<Entry>, short: string, n: nat)
    requires Proper(es) && Sorted(es, short) && Untied(es) && n <= |es|
    ensures var hs := Headers(es[n..], short, PrevShown(es, short, n));
      forall i, j :: 0 <= i < j < |hs| ==> hs[i] != hs[j]
    decreases |es| - n
  {
    hide Lex;
    hide EntryCmp;
    hide Alone;
    hide Occurs;
    hide Opens;
    hide Switches;
    hide Headers;
    hide PrevShown;
    if n == |es| {
      HeadersOfNothing(es, short, PrevShown(es, short, n));
    } else {
      HeadersUnroll(es, short, n);
      HeadersDistinct(es, short, n + 1);
      AnnouncesOpens(es, short, n);
      if Opens(es, short, n) {
        var c := es[n].item.cluster.value;
        HeadersFrom(es, short, n + 1, c);
        forall j | n < j < |es| && Opens(es, short, j) ensures es[j].item.cluster != Some(c) {
          OpensOnce(es, short, n, j);
        }
      }
    }
  }

  lemma HeadersOfNothing(es: seq<Entry>, short: string, prev: Option<Entry>)
    requires Proper(es)
    ensures Headers(es[|es|..], short, prev) == [] && PrevShown(es, short, 0) == None
  {
  }

  /**
   In every sorted list in which no cluster with a header ties, no header is printed twice, and a
   header is printed exactly when an entry of its cluster shows options before anything else
   in the cluster has been shown.
   */
  lemma HeadersOnce(es: seq<Entry>, short: string)
    requires Proper(es) && Sorted(es, short) && Untied(es)
    ensures var hs := Headers(es, short, None);
      && (forall i, j :: 0 <= i < j < |hs| ==> hs[i] != hs[j])
      && (forall c :: c in hs <==> exists j :: 0 <= j < |es| && Opens(es, short, j) && es[j].item.cluster == Some(c))
  {
    hide Headers;
    hide Lex;
    hide EntryCmp;
    hide Alone;
    hide Occurs;
    hide Opens;
    hide PrevShown;
    assert es[0..] == es;
    HeadersOfNothing(es, short, None);
    HeadersDistinct(es, short, 0);
    forall c ensures c in Headers(es, short, None)
      <==> exists j :: 0 <= j < |es| && Opens(es, short, j) && es[j].item.cluster == Some(c)
    {
      HeadersFrom(es, short, 0, c);
    }
  }

  // ---------- Clusters that tie ----------

  /** An option that is just a letter. */
  function Switch(key: int): Opt {
    Opt(None, key, false, Flags(false, false, false, false, false), None, 0)
  }

  /** An entry of cluster `c` with a single letter. */
  function Lone(c: Cluster, key: int, argp: Argp, so: nat): Entry {
    Entry(Item([Switch(key)], 0, Some(c), argp), so)
  }

  /** The letter is the one at position `so`. */
  predicate Lettered(key: int, so: nat, short: string) {
    97 <= key <= 122 && so < |short| && short[so] == key as char
  }

  lemma LoneFace(c: Cluster, key: int, argp: Argp, so: nat, short: string)
    requires Lettered(key, so, short)
    ensures FaceOf(Lone(c, key, argp, so), short) == Face(false, key, None)
    ensures Switches(Lone(c, key, argp, so), short)
  {
    var o := Switch(key);
    assert o.IsShort() && o.Letter() == short[so];
    assert Decode([o], short, so) == [true] + Decode([o][1..], short, so + 1);
    assert FirstLong([o]) == FirstLong([o][1..]) == None;
  }

  lemma {:induction false} BaseGroup(c: Cluster)
    ensures Code(c)[2] == Base(c).group
    decreases c
  {
    if c.parent.Some? {
      BaseGroup(c.parent.value);
    }
  }

  /** Within clusters that tie, letters are in alphabetical order. */
  lemma LoneLess(c: Cluster, j: int, d: Cluster, k: int, a: Argp, b: Argp, so: nat, to: nat, short: string)
    requires Code(c) == Code(d) && j < k && Lettered(j, so, short) && Lettered(k, to, short)
    ensures EntryCmp(Lone(c, j, a, so), Lone(d, k, b, to), short) < 0
  {
    hide Decode;
    hide FaceOf;
    hide Lex;
    LoneFace(c, j, a, so, short);
    LoneFace(d, k, b, to, short);
    BaseGroup(c);
    BaseGroup(d);
    ClusterCmpLex(c, d);
    LexSwap(Code(c), Code(d));
  }

  /** If `c` and `d` tie, entries with letters in turn from one and the other announce `c` twice. */
  lemma {:induction false} LonesRepeat(c: Cluster, d: Cluster, a: Argp, b: Argp, s: seq<nat>, short: string)
    requires c != d && Code(c) == Code(d) && HasHeader(c)
    requires |s| == 3 && Lettered(97, s[0], short) && Lettered(98, s[1], short) && Lettered(99, s[2], short)
    ensures var es := [Lone(c, 97, a, s[0]), Lone(d, 98, b, s[1]), Lone(c, 99, a, s[2])];
      && Proper(es) && Sorted(es, short)
      && Headers(es, short, None) == [c] + (if HasHeader(d) then [d] else []) + [c]
  {
    hide Decode;
    hide EntryCmp;
    hide Switches;
    hide HasHeader;
    var x, y, z := Lone(c, 97, a, s[0]), Lone(d, 98, b, s[1]), Lone(c, 99, a, s[2]);
    LoneLess(c, 97, d, 98, a, b, s[0], s[1], short);
    LoneLess(c, 97, c, 99, a, a, s[0], s[2], short);
    LoneLess(d, 98, c, 99, b, a, s[1], s[2], short);
    LoneFace(c, 97, a, s[0], short);
    LoneFace(d, 98, b, s[1], short);
    LoneFace(c, 99, a, s[2], short);
    if Under(d, c) {
      UnderCode(d, c);
    }
    if Under(c, d) {
      UnderCode(c, d);
    }
    assert [x, y, z][1..] == [y, z] && [y, z][1..] == [z] && [z][1..] == [];
    assert Headers([z], short, Some(y)) == [c] + Headers([], short, Some(z)) == [c];
    assert Headers([y, z], short, Some(x)) == (if HasHeader(d) then [d] else []) + [c];
    assert Headers([x, y, z], short, None) == [c] + Headers([y, z], short, Some(x));
  }

  // ---------- Exactly when headers repeat ----------

  ghost predicate Among(es: seq<Entry>, cs: set<Cluster>) {
    forall c :: Occurs(c, es) ==> c in cs
  }

  /** Whatever entries these clusters hold, and however a sort orders ties, no header is repeated. */
  ghost predicate NeverRepeats(cs: set<Cluster>) {
    forall es, short :: Proper(es) && Sorted(es, short) && Among(es, cs) ==> AllDistinct(Headers(es, short, None))
  }

  predicate AllDistinct(hs: seq<Cluster>) {
    forall i, j :: 0 <= i < j < |hs| ==> hs[i] != hs[j]
  }

  ghost predicate NoneTied(cs: set<Cluster>) {
    forall c, d :: c in cs && d in cs && HasHeader(c) && Code(c) == Code(d) ==> c == d
  }

  /**
   For every set of clusters that has the parents of its members: no sorted list of entries in them
   ever repeats a header if and only if no cluster with a header ties with another one.
   */
  lemma RepeatsExactly(cs: set<Cluster>)
    requires forall c, d :: c in cs && Under(c, d) ==> d in cs
    ensures NeverRepeats(cs) <==> NoneTied(cs)
  {
    hide Headers;
    hide Sorted;
    hide Code;
    if NoneTied(cs) {
      forall es, short | Proper(es) && Sorted(es, short) && Among(es, cs)
        ensures AllDistinct(Headers(es, short, None))
      {
        assert Untied(es);
        HeadersOnce(es, short);
      }
    } else {
      var c, d :| c in cs && d in cs && HasHeader(c) && Code(c) == Code(d) && c != d;
      var a := Argp(None, false, None, []);
      LonesRepeat(c, d, a, a, [0, 1, 2], "abc");
      var es := [Lone(c, 97, a, 0), Lone(d, 98, a, 1), Lone(c, 99, a, 2)];
      assert Among(es, cs);
      var hs := Headers(es, "abc", None);
      assert hs[0] == hs[|hs| - 1];
      assert !AllDistinct(hs);
    }
  }

  // ---------- A tree whose help repeats a header ----------

  function LeafArgp(os: seq<Opt>): Argp {
    Argp(Some(os), true, None, [])
  }

  /** A child with a header, and a child in no cluster that has a child with a header itself. */
  function TiedTree(): Argp {
    var x, y := LeafArgp([Switch(97), Switch(99)]), LeafArgp([Switch(98)]);
    Argp(None, true, None, [Child(x, Some("x"), 0), Child(Argp(None, true, None, [Child(y, Some("y"), 0)]), None, 0)])
  }

  lemma OneSwitch(key: int, cluster: Option<Cluster>, argp: Argp)
    requires key != 0
    ensures Items([Switch(key)], 0, cluster, argp) == [Item([Switch(key)], 0, cluster, argp)]
  {
    assert [Switch(key)][..1] == [Switch(key)] && [Switch(key)][1..] == [];
  }

  lemma TwoSwitches(key: int, key': int, cluster: Option<Cluster>, argp: Argp)
    requires key != 0 && key' != 0
    ensures Items([Switch(key), Switch(key')], 0, cluster, argp)
      == [Item([Switch(key)], 0, cluster, argp), Item([Switch(key')], 0, cluster, argp)]
  {
    var os := [Switch(key), Switch(key')];
    assert os[..1] == [Switch(key)] && os[1..] == [Switch(key')];
    OneSwitch(key', cluster, argp);
  }

  lemma LeafListing(os: seq<Opt>, cluster: Option<Cluster>, at: seq<nat>)
    ensures Listing(LeafArgp(os), cluster, at) == Items(os, 0, cluster, LeafArgp(os))
  {
  }

  lemma OneChild(c: Child, cs: seq<Child>, i: nat, cluster: Option<Cluster>, at: seq<nat>)
    ensures ListingOf([c] + cs, i, cluster, at)
      == Listing(c.argp, ChildCluster(c, i, cluster, at), at + [i]) + ListingOf(cs, i + 1, cluster, at)
    ensures ListingOf([], i, cluster, at) == []
  {
    assert ([c] + cs)[1..] == cs;
  }

  lemma BareListing(cs: seq<Child>, cluster: Option<Cluster>, at: seq<nat>)
    ensures Listing(Argp(None, true, None, cs), cluster, at) == ListingOf(cs, 0, cluster, at)
  {
  }

  /** The cluster of the first child and the one further down the second child tie. */
  lemma TiedListing()
    ensures var x, y := LeafArgp([Switch(97), Switch(99)]), LeafArgp([Switch(98)]);
      var c, d := Cluster([0], 0, Some("x"), 0, None), Cluster([1, 0], 0, Some("y"), 0, None);
      Listing(TiedTree(), None, []) ==
        [Item([Switch(97)], 0, Some(c), x), Item([Switch(99)], 0, Some(c), x), Item([Switch(98)], 0, Some(d), y)]
  {
    var x, y := LeafArgp([Switch(97), Switch(99)]), LeafArgp([Switch(98)]);
    var c, d := Cluster([0], 0, Some("x"), 0, None), Cluster([1, 0], 0, Some("y"), 0, None);
    var z := Argp(None, true, None, [Child(y, Some("y"), 0)]);
    var first, second, third := Child(x, Some("x"), 0), Child(z, None, 0), Child(y, Some("y"), 0);
    assert [] + [0] == [0] && [] + [1] == [1] && [1] + [0] == [1, 0];
    assert [first, second] == [first] + ([second] + []) && [third] == [third] + [];
    OneChild(first, [second] + [], 0, None, []);
    OneChild(second, [], 1, None, []);
    OneChild(third, [], 0, None, [1]);
    OneChild(third, [], 1, None, [1]);
    OneChild(third, [], 2, None, []);
    BareListing([first, second], None, []);
    BareListing([third], None, [1]);
    LeafListing([Switch(97), Switch(99)], Some(c), [0]);
    TwoSwitches(97, 99, Some(c), x);
    LeafListing([Switch(98)], Some(d), [1, 0]);
    OneSwitch(98, Some(d), y);
  }

  /** One more letter that is new. */
  lemma {:induction false} NextSwitch(items: seq<Item>, key: int)
    requires items != [] && items[|items| - 1].opts == [Switch(key)] && 97 <= key <= 122
    requires key as char !in Firsts(Flat(items[..|items| - 1]))
    ensures Firsts(Flat(items)) == Firsts(Flat(items[..|items| - 1])) + [key as char]
  {
    hide Firsts;
    hide Flat;
    var os := Flat(items[..|items| - 1]);
    FlatLast(items);
    FirstsLetters(os, key as char);
    var all := os + [Switch(key)];
    assert all[..|os|] == os && all[..|os| + 1] == all && all[|os|] == Switch(key);
    NewLetter(os, key);
    FirstsNext(all, |os|);
  }

  lemma {:induction false} NewLetter(os: seq<Opt>, key: int)
    requires 97 <= key <= 122 && !Offers(os, key as char)
    ensures IsFirst(os + [Switch(key)], |os|)
  {
    var all := os + [Switch(key)];
    forall j | 0 <= j < |os| && all[j].IsShort() ensures all[j].key != key {
      assert all[j] == os[j];
    }
  }

  lemma {:induction false} ThreeSwitches(items: seq<Item>)
    requires |items| == 3
    requires items[0].opts == [Switch(97)] && items[1].opts == [Switch(99)] && items[2].opts == [Switch(98)]
    ensures Firsts(Flat(items)) == "acb"
    ensures |Firsts(Flat(items[..0]))| == 0 && |Firsts(Flat(items[..1]))| == 1 && |Firsts(Flat(items[..2]))| == 2
  {
    hide Firsts;
    hide Flat;
    FlatNothing();
    FirstsOfNothing();
    assert items[..0] == [] && items[..1][..0] == [] && items[..2][..1] == items[..1] && items[..3] == items;
    NextSwitch(items[..1], 97);
    NextSwitch(items[..2], 99);
    NextSwitch(items, 98);
  }

  /**
   The failure is real.  In the help list of this tree the entries are sorted in one way only, and
   printing it announces the first child twice, before and after an entry of the other cluster.
   */
  lemma TiedTreeRepeats(entries: seq<Entry>, short: string)
    requires WellBuilt(entries, short, Listing(TiedTree(), None, []))
    ensures |entries| == 3
    ensures var es := [entries[0], entries[2], entries[1]];
      var c, d := Cluster([0], 0, Some("x"), 0, None), Cluster([1, 0], 0, Some("y"), 0, None);
      && Proper(es) && Sorted(es, short) && Headers(es, short, None) == [c, d, c]
  {
    hide Listing;
    hide Headers;
    hide Flat;
    hide Firsts;
    hide EntryCmp;
    var c, d := Cluster([0], 0, Some("x"), 0, None), Cluster([1, 0], 0, Some("y"), 0, None);
    var x, y := LeafArgp([Switch(97), Switch(99)]), LeafArgp([Switch(98)]);
    TiedListing();
    var items := Listing(TiedTree(), None, []);
    ThreeSwitches(items);
    assert entries[0] == Lone(c, 97, x, 0) && entries[1] == Lone(c, 99, x, 1) && entries[2] == Lone(d, 98, y, 2);
    assert short[0] == 'a' && short[1] == 'c' && short[2] == 'b';
    LonesRepeat(c, d, x, y, [0, 2, 1], short);
  }
}
