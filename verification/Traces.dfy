/**
 Traces of runs of argp_parse: the calls of the groups' parsers and of getopt, in order, with what
 they answered.  `Legal` says which traces are possible: who may be called when, with which argument
 pointer, given what the parsers and getopt answer.
 */
module Traces {
  import opened Options

  const EBADKEY := 7
  const EINVAL := 22

  /** What a parser is called for. */
  datatype Key = Init | User(key: int) | Arg | Args | NoArgs | End | Success | Error | Fini

  /** What getopt finds: the end of the options, an error, an argument, or an option of some group. */
  datatype Found = Ended | Invalid | Plain | Flag(group: Option<nat>, key: int)

  datatype Event =
    | Call(group: nat, key: Key, at: int, argc: int, err: int)
    | Getopt(at: int, argc: int, found: Found, to: int, mark: int)

  /** The answer of a parser: an error code and the new argument pointer and count. */
  datatype Reaction = Reaction(err: int, next: int, argc: int)

  /** The answer of getopt: what it found, the new argument pointer, and whether "--" is just before it. */
  datatype Scan = Scan(found: Found, next: int, dashes: bool)

  predicate ScanOk(r: Scan, argc: int, groups: nat) {
    && (r.found.Flag? && r.found.group.Some? ==> r.found.group.value < groups)
    && (r.found.Plain? ==> 1 <= r.next <= argc)
  }

  predicate Soft(err: int) {
    err == 0 || err == EBADKEY
  }

  function ErrOf(e: Event): int {
    if e.Call? then e.err else 0
  }

  /** No call in the sequence failed for good. */
  predicate Quiet(seg: seq<Event>) {
    forall i :: 0 <= i < |seg| ==> Soft(ErrOf(seg[i]))
  }

  /** If a call failed for good, it was the last one, and `err` is its code. */
  predicate Stopped(seg: seq<Event>, err: int) {
    if Soft(err) then Quiet(seg)
    else seg != [] && Quiet(seg[..|seg| - 1]) && ErrOf(seg[|seg| - 1]) == err
  }

  /** All events are calls with this key. */
  predicate Only(seg: seq<Event>, key: Key) {
    forall i :: 0 <= i < |seg| ==> seg[i].Call? && seg[i].key == key
  }

  function GroupsIn(seg: seq<Event>): seq<nat>
    requires forall i :: 0 <= i < |seg| ==> seg[i].Call?
  {
    seq(|seg|, i requires 0 <= i < |seg| => seg[i].group)
  }

  /** The groups below `n` that have a parser, last one first. */
  function LastFirst(parsers: seq<bool>, n: nat): seq<nat>
    requires n <= |parsers|
  {
    if n == 0 then [] else (if parsers[n - 1] then [n - 1] else []) + LastFirst(parsers, n - 1)
  }

  /** The groups below `n` that have a parser and satisfy `idle`, first one first. */
  function FirstFirst(parsers: seq<bool>, idle: seq<bool>, n: nat): seq<nat>
    requires n <= |parsers| == |idle|
  {
    if n == 0 then [] else FirstFirst(parsers, idle, n - 1) + if parsers[n - 1] && idle[n - 1] then [n - 1] else []
  }

  /** Exactly the groups with a parser, in decreasing order. */
  lemma {:induction false} LastFirstExact(parsers: seq<bool>, n: nat)
    requires n <= |parsers|
    ensures var gs := LastFirst(parsers, n);
      && (forall g: nat :: g in gs <==> g < n && parsers[g])
      && (forall i, j :: 0 <= i < j < |gs| ==> gs[i] > gs[j])
    decreases n
  {
    if n > 0 {
      LastFirstExact(parsers, n - 1);
      var rest := LastFirst(parsers, n - 1);
      assert forall i :: 0 <= i < |rest| ==> rest[i] in rest;
    }
  }

  /** Exactly the groups with a parser that satisfy `idle`, in increasing order. */
  lemma {:induction false} FirstFirstExact(parsers: seq<bool>, idle: seq<bool>, n: nat)
    requires n <= |parsers| == |idle|
    ensures var gs := FirstFirst(parsers, idle, n);
      && (forall g: nat :: g in gs <==> g < n && parsers[g] && idle[g])
      && (forall i, j :: 0 <= i < j < |gs| ==> gs[i] < gs[j])
    decreases n
  {
    if n > 0 {
      FirstFirstExact(parsers, idle, n - 1);
      var rest := FirstFirst(parsers, idle, n - 1);
      assert forall i :: 0 <= i < |rest| ==> rest[i] in rest;
    }
  }

  function Sum(s: seq<int>): int {
    if s == [] then 0 else s[0] + Sum(s[1..])
  }

  lemma {:induction false} SumUpdate(s: seq<int>, i: nat, d: int)
    requires i < |s|
    ensures Sum(s[i := s[i] + d]) == Sum(s) + d
    decreases i
  {
    var t := s[i := s[i] + d];
    if i == 0 {
      assert t[1..] == s[1..];
    } else {
      SumUpdate(s[1..], i - 1, d);
      assert t[1..] == s[1..][i - 1 := s[1..][i - 1] + d];
    }
  }

  // ---------- What a trace tells about arguments and getopt ----------

  /** How many arguments a call consumes when the parsers leave the argument pointer alone. */
  function Eaten(e: Event): int {
    if e.Call? && e.err == 0 && e.key == Arg then 1
    else if e.Call? && e.err == 0 && e.key == Args then e.argc - e.at
    else 0
  }

  function Consumed(trace: seq<Event>): int {
    if trace == [] then 0 else Consumed(trace[..|trace| - 1]) + Eaten(trace[|trace| - 1])
  }

  /** The mark that the last call of getopt has left: the position after a "--" that ended the options, or 0. */
  function LastMark(trace: seq<Event>): int {
    if trace == [] then 0
    else if trace[|trace| - 1].Getopt? then trace[|trace| - 1].mark
    else LastMark(trace[..|trace| - 1])
  }

  /** Getopt is never offered an argument at or past the mark it left. */
  predicate MarksRespected(trace: seq<Event>) {
    forall j :: 0 <= j < |trace| && trace[j].Getopt? ==> LastMark(trace[..j]) == 0 || trace[j].at < LastMark(trace[..j])
  }

  predicate IsEnd(e: Event) {
    e.Getopt? && e.found == Ended
  }

  /** After getopt has reported the end of the options, it is not called again. */
  predicate OnceEnded(trace: seq<Event>) {
    forall i, j :: 0 <= i < j < |trace| && IsEnd(trace[i]) ==> trace[j].Call?
  }

  predicate SeenEnd(trace: seq<Event>) {
    exists i :: 0 <= i < |trace| && IsEnd(trace[i])
  }

  predicate NoGetopt(seg: seq<Event>) {
    forall i :: 0 <= i < |seg| ==> seg[i].Call?
  }

  lemma {:induction false} ConsumedAppend(a: seq<Event>, b: seq<Event>)
    ensures Consumed(a + b) == Consumed(a) + Consumed(b)
    decreases |b|
  {
    if b == [] {
      assert a + b == a;
    } else {
      var n := |b| - 1;
      ConsumedAppend(a, b[..n]);
      assert (a + b)[..|a| + n] == a + b[..n];
    }
  }

  /** Calls of parsers say nothing about getopt. */
  lemma {:induction false} CallsKeepMarks(a: seq<Event>, b: seq<Event>)
    requires NoGetopt(b)
    ensures LastMark(a + b) == LastMark(a)
    ensures MarksRespected(a) ==> MarksRespected(a + b)
    ensures OnceEnded(a) ==> OnceEnded(a + b)
    ensures SeenEnd(a + b) <==> SeenEnd(a)
    decreases |b|
  {
    if b == [] {
      assert a + b == a;
    } else {
      var n := |b| - 1;
      CallsKeepMarks(a, b[..n]);
      assert (a + b)[..|a| + n] == a + b[..n];
      CallKeepsMarks(a + b[..n], b[n]);
      assert a + b[..n] + [b[n]] == a + b;
    }
  }

  lemma CallKeepsMarks(a: seq<Event>, e: Event)
    requires e.Call?
    ensures LastMark(a + [e]) == LastMark(a)
    ensures MarksRespected(a) ==> MarksRespected(a + [e])
    ensures OnceEnded(a) ==> OnceEnded(a + [e])
    ensures SeenEnd(a + [e]) <==> SeenEnd(a)
  {
    LastEvent(a, e);
    EndsNext(a, e);
    if MarksRespected(a) {
      MarksNext(a, e);
    }
  }

  lemma LastEvent(a: seq<Event>, e: Event)
    ensures LastMark(a + [e]) == if e.Getopt? then e.mark else LastMark(a)
    ensures Consumed(a + [e]) == Consumed(a) + Eaten(e)
  {
    assert (a + [e])[..|a|] == a;
  }

  lemma MarksNext(a: seq<Event>, e: Event)
    requires MarksRespected(a) && (e.Getopt? ==> LastMark(a) == 0 || e.at < LastMark(a))
    ensures MarksRespected(a + [e])
  {
    hide LastMark;
    var t := a + [e];
    forall j | 0 <= j < |t| && t[j].Getopt? ensures LastMark(t[..j]) == 0 || t[j].at < LastMark(t[..j]) {
      if j < |a| {
        assert t[j] == a[j] && t[..j] == a[..j];
      } else {
        assert t[..j] == a;
      }
    }
  }

  lemma EndsNext(a: seq<Event>, e: Event)
    ensures SeenEnd(a + [e]) <==> SeenEnd(a) || IsEnd(e)
    ensures OnceEnded(a) && (SeenEnd(a) ==> e.Call?) ==> OnceEnded(a + [e])
    ensures !SeenEnd(a) ==> OnceEnded(a + [e])
  {
    var t := a + [e];
    assert forall j :: 0 <= j < |a| ==> t[j] == a[j];
    assert t[|a|] == e;
    if SeenEnd(a) {
      var i :| 0 <= i < |a| && IsEnd(a[i]);
      assert IsEnd(t[i]);
    }
    if IsEnd(e) {
      assert IsEnd(t[|a|]);
    }
  }

  lemma GetoptMarks(a: seq<Event>, e: Event)
    requires e.Getopt? && (LastMark(a) == 0 || e.at < LastMark(a))
    ensures LastMark(a + [e]) == e.mark
    ensures MarksRespected(a) ==> MarksRespected(a + [e])
    ensures !SeenEnd(a) ==> OnceEnded(a + [e])
    ensures SeenEnd(a + [e]) <==> SeenEnd(a) || IsEnd(e)
    ensures Consumed(a + [e]) == Consumed(a)
  {
    hide MarksRespected;
    hide OnceEnded;
    hide SeenEnd;
    LastEvent(a, e);
    EndsNext(a, e);
    if MarksRespected(a) {
      MarksNext(a, e);
    }
  }

  // ---------- Which traces are possible ----------

  /** Everything a run depends on. */
  datatype World = World(parsers: seq<bool>, react: (seq<Event>, nat, Key, int, int) -> Reaction,
                         getopt: (seq<Event>, int, int) -> Scan, argc: int)

  /** The first group from `g` on that has a parser. */
  function FirstParser(parsers: seq<bool>, g: nat): (r: Option<nat>)
    ensures r.Some? ==> g <= r.value < |parsers| && parsers[r.value]
    decreases |parsers| - g
  {
    if g >= |parsers| then None else if parsers[g] then Some(g) else FirstParser(parsers, g + 1)
  }

  lemma FirstParserStep(parsers: seq<bool>, g: nat)
    ensures g < |parsers| && !parsers[g] ==> FirstParser(parsers, g) == FirstParser(parsers, g + 1)
    ensures g >= |parsers| ==> FirstParser(parsers, g) == None
  {
  }

  lemma {:induction false} FirstParserFirst(parsers: seq<bool>, g: nat)
    ensures var r := FirstParser(parsers, g);
      forall k :: g <= k < |parsers| && (r.None? || k < r.value) ==> !parsers[k]
    decreases |parsers| - g
  {
    if g < |parsers| && !parsers[g] {
      FirstParserFirst(parsers, g + 1);
    }
  }

  /**
   What comes next in the parse phase: a new turn, an argument for the first group, nothing
   more, or exactly one call.
   */
  datatype Due = Turn | FirstArg | Nothing | Must(group: nat, key: Key)

  function DueFor(group: Option<nat>, key: Key): Due {
    if group.Some? then Must(group.value, key) else Nothing
  }

  /** An option goes to its group, an argument to the groups in turn, and an error ends the phase. */
  function DueAfter(parsers: seq<bool>, e: Event): Due {
    match e
    case Getopt(_, _, found, _, _) =>
      (match found
       case Ended => FirstArg
       case Invalid => Nothing
       case Plain => DueFor(FirstParser(parsers, 0), Arg)
       case Flag(group, key) =>
         if group.Some? && group.value < |parsers| && parsers[group.value] then Must(group.value, User(key))
         else Nothing)
    case Call(group, key, _, _, err) =>
      (match key
       case Init => if Soft(err) then Turn else Nothing
       case User(_) => if err == 0 then Turn else Nothing
       case Arg => if err == 0 then Turn else if err == EBADKEY then Must(group, Args) else Nothing
       case Args =>
         if err == 0 then Turn else if err == EBADKEY then DueFor(FirstParser(parsers, group + 1), Arg) else Nothing
       case _ => Nothing)
  }

  function DueNow(parsers: seq<bool>, trace: seq<Event>): Due {
    if trace == [] then Turn else DueAfter(parsers, trace[|trace| - 1])
  }

  predicate ParseKey(key: Key) {
    key.User? || key == Arg || key == Args
  }

  /** A parser may be called now; an argument without a look from getopt only after the end of the options. */
  predicate MayCall(parsers: seq<bool>, trace: seq<Event>, group: nat, key: Key) {
    match DueNow(parsers, trace)
    case Must(g, k) => group == g && key == k
    case Nothing => !ParseKey(key)
    case FirstArg => ParseKey(key) ==> key == Arg && FirstParser(parsers, 0) == Some(group)
    case Turn => ParseKey(key) ==> key == Arg && FirstParser(parsers, 0) == Some(group) && SeenEnd(trace)
  }

  /** The argument pointer and count that a call with this answer leads to. */
  function Moved(key: Key, r: Reaction): (int, int) {
    if key == Args && r.err == 0 then (r.argc, r.argc)
    else if key == Arg && r.err == EBADKEY then (r.next - 1, r.argc)
    else (r.next, r.argc)
  }

  /** The argument pointer and count after a trace; an argument getopt has found is put back first. */
  function Pointer(w: World, trace: seq<Event>): (int, int) {
    if trace == [] then (0, w.argc) else
    var n := |trace| - 1;
    match trace[n]
    case Call(group, key, at, argc, _) => Moved(key, w.react(trace[..n], group, key, at, argc))
    case Getopt(_, argc, found, to, _) => (if found == Plain then to - 1 else to, argc)
  }

  /** The event is possible after `trace`, and is what the parser or getopt answers there. */
  ghost predicate EventOk(w: World, trace: seq<Event>, e: Event) {
    var (next, argc) := Pointer(w, trace);
    match e
    case Call(group, key, at, c, err) =>
      && group < |w.parsers| && w.parsers[group] && MayCall(w.parsers, trace, group, key)
      && at == next + (if key == Arg then 1 else 0) && c == argc
      && err == w.react(trace, group, key, at, c).err
    case Getopt(at, c, found, to, mark) =>
      && DueNow(w.parsers, trace) == Turn && at == next && c == argc
      && var r := w.getopt(trace, at, c);
         found == r.found && to == r.next && mark == MarkOf(r)
  }

  /** A "--" that ends the options. */
  function MarkOf(r: Scan): int {
    if r.found == Ended && r.next > 1 && r.dashes then r.next else 0
  }

  ghost predicate Legal(w: World, trace: seq<Event>) {
    trace == [] || (Legal(w, trace[..|trace| - 1]) && EventOk(w, trace[..|trace| - 1], trace[|trace| - 1]))
  }

  lemma LegalStart(w: World)
    ensures Legal(w, []) && Pointer(w, []) == (0, w.argc) && DueNow(w.parsers, []) == Turn
  {
  }

  lemma {:induction false} LegalNext(w: World, trace: seq<Event>, e: Event)
    requires Legal(w, trace) && EventOk(w, trace, e)
    ensures Legal(w, trace + [e]) && DueNow(w.parsers, trace + [e]) == DueAfter(w.parsers, e)
    ensures e.Call? ==> Pointer(w, trace + [e]) == Moved(e.key, w.react(trace, e.group, e.key, e.at, e.argc))
    ensures e.Getopt? ==> Pointer(w, trace + [e]) == (if e.found == Plain then e.to - 1 else e.to, e.argc)
  {
    assert (trace + [e])[..|trace|] == trace;
  }

  lemma {:induction false} LegalPrefix(w: World, a: seq<Event>, b: seq<Event>)
    requires Legal(w, a + b)
    ensures Legal(w, a)
    decreases |b|
  {
    if b == [] {
      assert a + b == a;
    } else {
      assert (a + b)[..|a + b| - 1] == a + b[..|b| - 1];
      LegalPrefix(w, a, b[..|b| - 1]);
    }
  }

  /** Every event of a possible trace is possible where it stands. */
  lemma LegalAt(w: World, trace: seq<Event>, i: nat)
    requires Legal(w, trace) && i < |trace|
    ensures EventOk(w, trace[..i], trace[i])
  {
    assert trace == trace[..i + 1] + trace[i + 1..];
    LegalPrefix(w, trace[..i + 1], trace[i + 1..]);
    assert trace[..i + 1][..i] == trace[..i];
  }

  /**
   In a possible trace, the option that getopt finds is the next call, to its own group, and a parser is
   called for an option only then.
   */
  lemma OptionsAnswered(w: World, trace: seq<Event>, i: nat)
    requires Legal(w, trace) && i + 1 < |trace|
    ensures var e, f := trace[i], trace[i + 1];
      && (e.Getopt? && e.found.Flag? && e.found.group.Some? && e.found.group.value < |w.parsers| &&
          w.parsers[e.found.group.value] ==>
            f.Call? && f.group == e.found.group.value && f.key == User(e.found.key) && f.at == e.to)
      && (f.Call? && f.key.User? ==> e.Getopt? && e.found == Flag(Some(f.group), f.key.key))
      && (e.Getopt? && e.found == Invalid ==> f.Call? && !ParseKey(f.key))
  {
    LegalAt(w, trace, i + 1);
    assert trace[..i + 1][..i] == trace[..i];
  }

  /** In a possible trace, a declined argument goes on to the next group, and a group is offered it only then. */
  lemma ArgumentsOffered(w: World, trace: seq<Event>, i: nat)
    requires Legal(w, trace) && i + 1 < |trace|
    requires trace[i + 1].Call? && (trace[i + 1].key == Arg || trace[i + 1].key == Args)
    ensures trace[i + 1].group < |w.parsers|
    ensures var e, f := trace[i], trace[i + 1];
      if f.key == Args then e.Call? && e.key == Arg && e.group == f.group && e.err == EBADKEY
      else if e.Call? && e.key == Args && e.err == EBADKEY then
        e.group < f.group && forall g :: e.group < g < f.group ==> !w.parsers[g]
      else
        forall g :: 0 <= g < f.group ==> !w.parsers[g]
  {
    hide Legal;
    hide Pointer;
    hide FirstParser;
    hide SeenEnd;
    LegalAt(w, trace, i + 1);
    assert trace[..i + 1][..i] == trace[..i];
    FirstParserFirst(w.parsers, 0);
    if trace[i].Call? {
      FirstParserFirst(w.parsers, trace[i].group + 1);
    }
  }
}
