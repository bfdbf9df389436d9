/**
 A whole run of argp_parse (argp/argp-parse.c): initialisation, the parse loop over getopt and
 the groups' parsers, and finalisation.

 The parsers are arbitrary: what a parser answers, and what it does to the argument pointer and
 count, is a function of everything that happened before.  The same holds for getopt.  `trace`
 records all calls of parsers and of getopt, in order.  Runs in which a parser or a help
 message exits the program are not considered.
 */
module Protocols {
  import opened Options
  import opened Traces

  class Run {
    const parsers: seq<bool>
    const react: (seq<Event>, nat, Key, int, int) -> Reaction
    const getopt: (seq<Event>, int, int) -> Scan
    const noArgs: bool
    const count: int
    var argsProcessed: seq<int>
    var next: int
    var argc: int
    var quoted: int
    var tryGetopt: bool
    var trace: seq<Event>

    /** The parsers leave the argument pointer and count alone. */
    ghost predicate Still() {
      forall t, g, k, n, c :: react(t, g, k, n, c).next == n && react(t, g, k, n, c).argc == c
    }

    /** No parser moves the argument pointer back or changes the count. */
    ghost predicate Forward() {
      forall t, g, k, n, c :: react(t, g, k, n, c).next >= n && react(t, g, k, n, c).argc == c
    }

    /** Getopt names existing groups, and steps past the argument it returns. */
    ghost predicate GetoptOk() {
      forall t, n, c :: ScanOk(getopt(t, n, c), c, |parsers|)
    }

    ghost function Around(): World {
      World(parsers, react, getopt, count)
    }

    /** The trace is possible, and leads to this argument pointer and count. */
    ghost predicate Synced()
      reads this
    {
      Legal(Around(), trace) && Pointer(Around(), trace) == (next, argc)
    }

    /** No call that must come is missing. */
    ghost predicate Settled()
      reads this
    {
      Synced() && !DueNow(parsers, trace).Must?
    }

    /** A group may be called now; for a single argument the pointer is past it. */
    ghost predicate Ready(g: nat, key: Key)
      requires g < |parsers|
      reads this
    {
      && Legal(Around(), trace) && (parsers[g] ==> MayCall(parsers, trace, g, key))
      && Pointer(Around(), trace) == (next - (if key == Arg then 1 else 0), argc)
    }

    /** The call for an option is due, or nothing when nobody has the option. */
    ghost predicate OptionDue(group: Option<nat>, key: int)
      reads this
    {
      DueNow(parsers, trace) ==
        if group.Some? && group.value < |parsers| && parsers[group.value] then Must(group.value, User(key)) else Nothing
    }

    /** The pointer is just past an argument that all groups are to be offered. */
    ghost predicate Offered()
      reads this
    {
      && Legal(Around(), trace) && Pointer(Around(), trace) == (next - 1, argc)
      && match FirstParser(parsers, 0)
         case Some(k) => MayCall(parsers, trace, k, Arg)
         case None => !DueNow(parsers, trace).Must?
    }

    /** The argument at the pointer is for the groups from `g` on. */
    ghost predicate Offering(g: nat)
      reads this
    {
      && Synced()
      && match FirstParser(parsers, g)
         case Some(k) => MayCall(parsers, trace, k, Arg)
         case None => !DueNow(parsers, trace).Must?
    }

    /** What holds between two turns of the parse loop. */
    ghost predicate Valid()
      reads this
    {
      && |argsProcessed| == |parsers| && GetoptOk()
      && Synced() && DueNow(parsers, trace) == Turn && (!tryGetopt || quoted > 0 ==> SeenEnd(trace))
      && quoted == LastMark(trace) && 0 <= quoted && (0 < quoted && next < quoted ==> tryGetopt)
      && History()
    }

    /** What the trace shows at any time. */
    ghost predicate History()
      reads this
    {
      && MarksRespected(trace)
      && (Forward() ==> OnceEnded(trace) && (SeenEnd(trace) ==> !tryGetopt))
      && (Still() ==> Sum(argsProcessed) == Consumed(trace))
    }

    /** Call a group's parser; a group without one does not understand anything. */
    method GroupParse(g: nat, key: Key) returns (err: int)
      requires g < |parsers|
      modifies this`trace, this`next, this`argc
      ensures if parsers[g] then
          var r := react(old(trace), g, key, old(next), old(argc));
          err == r.err && next == r.next && argc == r.argc &&
          trace == old(trace) + [Call(g, key, old(next), old(argc), err)]
        else
          err == EBADKEY && trace == old(trace) && next == old(next) && argc == old(argc)
      ensures Still() ==> next == old(next) && argc == old(argc)
      ensures Forward() ==> next >= old(next) && argc == old(argc)
      ensures old(Ready(g, key)) ==> Legal(Around(), trace)
      ensures old(Ready(g, key)) && parsers[g] ==>
        && DueNow(parsers, trace) == DueAfter(parsers, trace[|trace| - 1])
        && Pointer(Around(), trace) == Moved(key, Reaction(err, next, argc))
    {
      hide Legal;
      hide MayCall;
      hide DueAfter;
      if parsers[g] {
        var r := react(trace, g, key, next, argc);
        if Ready(g, key) {
          LegalNext(Around(), trace, Call(g, key, next, argc, r.err));
        }
        trace := trace + [Call(g, key, next, argc, r.err)];
        next, argc, err := r.next, r.argc, r.err;
      } else {
        err := EBADKEY;
      }
    }

    /** Call the parsers of all groups in order, or only of those in `idle`; with `stop`, up to the first failure. */
    method CallUp(key: Key, idle: seq<bool>, stop: bool, err0: int) returns (err: int, ghost seg: seq<Event>)
      requires |idle| == |parsers|
      modifies this`trace, this`next, this`argc
      ensures trace == old(trace) + seg && Only(seg, key)
      ensures forall i :: 0 <= i < |seg| ==> seg[i].group < |parsers| && idle[seg[i].group]
      ensures stop && !Soft(err0) ==> seg == [] && err == err0
      ensures stop && Soft(err0) ==> Stopped(seg, err)
      ensures !stop || Soft(err) ==> GroupsIn(seg) == FirstFirst(parsers, idle, |parsers|)
      ensures Still() ==> next == old(next) && argc == old(argc)
      ensures !ParseKey(key) && old(Settled()) ==> Settled()
      ensures key == Init && old(Settled() && DueNow(parsers, trace) == Turn) && Soft(err) && stop && Soft(err0) ==>
        DueNow(parsers, trace) == Turn
    {
      hide Legal;
      hide Pointer;
      hide Still;
      hide Forward;
      hide FirstFirst;
      hide GroupsIn;
      hide Quiet;
      NoCalls(key, key);
      FirstFirstStarts(parsers, idle);
      err, seg := err0, [];
      var g := 0;
      while g < |parsers| && (!stop || Soft(err))
        invariant 0 <= g <= |parsers|
        invariant !ParseKey(key) && old(Settled()) ==> Settled()
        invariant key == Init && old(Settled() && DueNow(parsers, trace) == Turn) && Soft(err) && stop && Soft(err0) ==>
          DueNow(parsers, trace) == Turn
        invariant Still() ==> next == old(next) && argc == old(argc)
        invariant trace == old(trace) + seg && Only(seg, key)
        invariant forall i :: 0 <= i < |seg| ==> seg[i].group < |parsers| && idle[seg[i].group]
        invariant stop && !Soft(err0) ==> seg == [] && err == err0
        invariant stop && Soft(err0) ==> Stopped(seg, err)
        invariant !stop || Soft(err) ==> GroupsIn(seg) == FirstFirst(parsers, idle, g)
      {
        FirstFirstStep(parsers, idle, g);
        if idle[g] {
          ghost var before := trace;
          err := GroupParse(g, key);
          if parsers[g] {
            ghost var e := trace[|before|];
            CallAdded(seg, e, key);
            seg := seg + [e];
          }
        }
        g := g + 1;
      }
    }

    /** Call the parsers of all groups in reverse order; with `stop`, up to the first failure. */
    method CallDown(key: Key, stop: bool, err0: int) returns (err: int, ghost seg: seq<Event>)
      modifies this`trace, this`next, this`argc
      ensures trace == old(trace) + seg && Only(seg, key)
      ensures stop && !Soft(err0) ==> seg == [] && err == err0
      ensures stop && Soft(err0) ==> Stopped(seg, err)
      ensures !stop || Soft(err) ==> GroupsIn(seg) == LastFirst(parsers, |parsers|)
      ensures Still() ==> next == old(next) && argc == old(argc)
      ensures !ParseKey(key) && old(Settled()) ==> Settled()
    {
      hide Legal;
      hide Pointer;
      hide Still;
      hide Forward;
      hide LastFirst;
      hide GroupsIn;
      hide Quiet;
      NoCalls(key, key);
      LastFirstEnds(parsers);
      err, seg := err0, [];
      var g := |parsers|;
      while g > 0 && (!stop || Soft(err))
        invariant 0 <= g <= |parsers|
        invariant !ParseKey(key) && old(Settled()) ==> Settled()
        invariant Still() ==> next == old(next) && argc == old(argc)
        invariant trace == old(trace) + seg && Only(seg, key)
        invariant stop && !Soft(err0) ==> seg == [] && err == err0
        invariant stop && Soft(err0) ==> Stopped(seg, err)
        invariant !stop || Soft(err) ==> GroupsIn(seg) + LastFirst(parsers, g) == LastFirst(parsers, |parsers|)
      {
        g := g - 1;
        ghost var before := trace;
        err := GroupParse(g, key);
        LastFirstSkip(parsers, g);
        if parsers[g] {
          ghost var e := trace[|before|];
          CallAdded(seg, e, key);
          LastFirstStep(seg, e, parsers, g);
          seg := seg + [e];
        }
      }
    }

    /** Offer the argument at the pointer to one group, first as a single argument and then as all the rest. */
    method OfferArg(g: nat) returns (err: int, key: Key, ghost seg: seq<Event>)
      requires g < |parsers|
      modifies this`trace, this`next, this`argc
      ensures trace == old(trace) + seg && ArgCalls(seg, err, key)
      ensures err != EBADKEY ==> seg[|seg| - 1].group == g
      ensures Still() ==> argc == old(argc) && next == old(next) + (if err != EBADKEY && key == Arg then 1 else 0)
      ensures Still() && err != EBADKEY && key == Args ==> seg[|seg| - 1].at == old(next) && seg[|seg| - 1].argc == argc
      ensures err == EBADKEY && seg != [] ==> seg[|seg| - 1].key == Args
      ensures Still() && err == EBADKEY && seg != [] ==> seg[|seg| - 1].at == old(next)
      ensures Forward() ==> argc == old(argc) && next >= old(next) + (if err != EBADKEY && key == Arg then 1 else 0)
      ensures parsers[g] ==> seg != []
      ensures old(Offering(g)) && err == EBADKEY ==> Offering(g + 1)
      ensures old(Offering(g)) && err != EBADKEY ==>
        && Legal(Around(), trace) && DueNow(parsers, trace) == (if err == 0 then Turn else Nothing)
        && Pointer(Around(), trace) == Moved(key, Reaction(err, next, argc))
    {
      hide Still;
      hide Forward;
      hide Legal;
      hide Pointer;
      next := next + 1;
      key := Arg;
      err := GroupParse(g, key);
      seg := trace[|old(trace)|..];
      if err == EBADKEY {
        next := next - 1;
        key := Args;
        err := GroupParse(g, key);
        seg := trace[|old(trace)|..];
      }
    }

    /**
     Offer an argument to the groups in turn.  The pointer is just past the argument; in the end it
     is where the accepting parser has left it, past everything if a parser took all the rest.
     */
    method ParseArg() returns (err: int, ghost seg: seq<Event>)
      requires |argsProcessed| == |parsers| && next <= argc
      modifies this`trace, this`next, this`argc, this`argsProcessed, this`tryGetopt
      ensures trace == old(trace) + seg && |argsProcessed| == |parsers|
      ensures ArgCalls(seg, err, Arg) || ArgCalls(seg, err, Args)
      // an argument that every group declines is left where it is
      ensures err != 0 ==> argsProcessed == old(argsProcessed) && tryGetopt == old(tryGetopt)
      ensures err == EBADKEY && Still() ==> next == old(next) - 1 && argc == old(argc)
      ensures err == EBADKEY && seg != [] ==> seg[|seg| - 1].key == Args && (Still() ==> seg[|seg| - 1].at == next)
      // an accepted one is counted for the group that took it, unless the pointer was moved back
      ensures err == 0 ==> seg != [] && seg[|seg| - 1].Call? && seg[|seg| - 1].group < |parsers|
      ensures err == 0 ==> var g := seg[|seg| - 1].group;
        if next > old(next) - 1 then
          && argsProcessed == old(argsProcessed)[g := old(argsProcessed)[g] + (next - (old(next) - 1))]
          && tryGetopt == old(tryGetopt)
        else
          argsProcessed == old(argsProcessed) && tryGetopt
      ensures err == 0 && seg[|seg| - 1].key == Args ==> next == argc
      ensures err == 0 && Forward() ==> argc == old(argc) && next >= old(next)
      ensures Still() ==> Sum(argsProcessed) == old(Sum(argsProcessed)) + Consumed(seg) && argc == old(argc)
      // every group with a parser is offered the argument, in order, until one accepts it
      ensures FirstParser(parsers, 0).Some? ==> seg != []
      ensures old(Offered()) ==> Settled() && (err == 0 ==> DueNow(parsers, trace) == Turn)
    {
      hide Legal;
      hide Pointer;
      hide MayCall;
      hide DueAfter;
      hide DueNow;
      hide FirstParser;
      hide Still;
      hide Forward;
      hide Sum;
      hide Consumed;
      next := next - 1;
      var index := next;
      err, seg := EBADKEY, [];
      var g, key := 0, Arg;
      while g < |parsers| && err == EBADKEY
        invariant 0 <= g <= |parsers|
        invariant argsProcessed == old(argsProcessed) && tryGetopt == old(tryGetopt)
        invariant trace == old(trace) + seg && ArgCalls(seg, err, key)
        invariant err != EBADKEY ==> g > 0 && seg[|seg| - 1].group == g - 1
        invariant Still() ==> argc == old(argc) && next == index + (if err != EBADKEY && key == Arg then 1 else 0)
        invariant Still() && err != EBADKEY && key == Args ==> seg[|seg| - 1].at == index && seg[|seg| - 1].argc == argc
        invariant err == EBADKEY && seg != [] ==> seg[|seg| - 1].key == Args && (Still() ==> seg[|seg| - 1].at == index)
        invariant Forward() ==> argc == old(argc) && next >= index + (if err != EBADKEY && key == Arg then 1 else 0)
        invariant seg == [] ==> err == EBADKEY && FirstParser(parsers, 0) == FirstParser(parsers, g)
        invariant old(Offered()) && err == EBADKEY ==> Offering(g)
        invariant old(Offered()) && err != EBADKEY ==>
          && Legal(Around(), trace) && DueNow(parsers, trace) == (if err == 0 then Turn else Nothing)
          && Pointer(Around(), trace) == Moved(key, Reaction(err, next, argc))
      {
        ghost var more;
        FirstParserStep(parsers, g);
        err, key, more := OfferArg(g);
        ArgCallsAppend(seg, more, err, key);
        assert old(trace) + seg + more == old(trace) + (seg + more);
        seg := seg + more;
        g := g + 1;
      }
      ArgCallsConsume(seg, err, key);
      FirstParserStep(parsers, g);
      if err == 0 {
        if key == Args {
          next := argc;
        }
        if next > index {
          SumUpdate(argsProcessed, g - 1, next - index);
          argsProcessed := argsProcessed[g - 1 := argsProcessed[g - 1] + (next - index)];
        } else {
          tryGetopt := true;
        }
      }
    }

    /** Hand an option to the group it belongs to. */
    method ParseOpt(group: Option<nat>, key: int) returns (err: int, ghost seg: seq<Event>)
      requires group.Some? ==> group.value < |parsers|
      modifies this`trace, this`next, this`argc
      ensures trace == old(trace) + seg && Stopped(seg, err)
      ensures if group.Some? && parsers[group.value] then
          seg == [Call(group.value, User(key), old(next), old(argc), err)]
        else
          seg == [] && err == EBADKEY
      ensures Forward() ==> argc == old(argc)
      ensures Still() ==> argc == old(argc)
      ensures old(Synced() && OptionDue(group, key)) ==> Settled() && (err == 0 ==> DueNow(parsers, trace) == Turn)
    {
      hide Legal;
      hide Pointer;
      err, seg := EBADKEY, [];
      if group.Some? {
        ghost var before := trace;
        err := GroupParse(group.value, User(key));
        if parsers[group.value] {
          seg := [trace[|before|]];
        }
      }
    }

    lemma ScanIsOk(t: seq<Event>, n: int, c: int)
      requires GetoptOk()
      ensures ScanOk(getopt(t, n, c), c, |parsers|)
    {
    }

    /** Give getopt a chance, unless it has come to the end or a "--" before. */
    method TryGetopt() returns (found: Found, ghost seg: seq<Event>)
      requires Valid()
      modifies this`trace, this`next, this`tryGetopt, this`quoted
      ensures trace == old(trace) + seg && Quiet(seg)
      ensures seg == if old(tryGetopt && (quoted == 0 || next < quoted)) then
          var r := getopt(old(trace), old(next), argc);
          [Getopt(old(next), argc, found, next, MarkOf(r))]
        else []
      ensures if seg == [] then found == Ended && next == old(next)
        else var r := getopt(old(trace), old(next), argc); found == r.found && next == r.next
      // what is due now
      ensures found == Invalid || found == Ended ==> Settled()
      ensures found == Ended ==> Offering(0)
      ensures found == Plain ==> Offered()
      ensures found.Flag? ==> Synced() && OptionDue(found.group, found.key)
      ensures !tryGetopt || quoted > 0 ==> SeenEnd(trace)
      ensures History() && 0 <= quoted == LastMark(trace) && (quoted > 0 ==> quoted <= next && found == Ended)
      ensures found.Flag? && found.group.Some? ==> found.group.value < |parsers|
      ensures found == Plain ==> 1 <= next <= argc
      ensures old(!tryGetopt) ==> seg == [] && !tryGetopt && found == Ended && next == old(next)
    {
      hide Sum;
      hide Still;
      hide Forward;
      hide Legal;
      hide Pointer;
      hide FirstParser;
      hide LastMark;
      hide MarksRespected;
      hide OnceEnded;
      hide SeenEnd;
      hide Consumed;
      found, seg := Ended, [];
      // moving the pointer back before the "--" makes it count as unseen
      var seen := if quoted > 0 && next < quoted then 0 else quoted;
      if tryGetopt && seen == 0 {
        var r := getopt(trace, next, argc);
        ScanIsOk(trace, next, argc);
        found := r.found;
        var mark := MarkOf(r);
        ghost var e := Getopt(next, argc, found, r.next, mark);
        GetoptMarks(trace, e);
        LegalNext(Around(), trace, e);
        seg := [e];
        trace := trace + [Getopt(next, argc, found, r.next, mark)];
        next := r.next;
        seen := mark;
        tryGetopt := found != Ended;
      }
      quoted := seen;
    }

    /** Hand what getopt has found to the parsers; an argument is just before the pointer. */
    method HandOver(found: Found) returns (err: int, ghost seg: seq<Event>)
      requires |argsProcessed| == |parsers| && (found.Plain? || found.Flag?) && (found == Plain ==> next <= argc)
      requires found.Flag? && found.group.Some? ==> found.group.value < |parsers|
      modifies this`trace, this`next, this`argc, this`argsProcessed, this`tryGetopt
      ensures trace == old(trace) + seg && Stopped(seg, err) && ParseKeys(seg) && NoGetopt(seg)
      ensures |argsProcessed| == |parsers|
      ensures Still() ==> Sum(argsProcessed) == old(Sum(argsProcessed)) + Consumed(seg) && argc == old(argc)
      ensures old(if found == Plain then Offered() else Synced() && OptionDue(found.group, found.key)) ==>
        Settled() && (err == 0 ==> DueNow(parsers, trace) == Turn)
      ensures err == 0 ==> seg != []
      ensures err == 0 && found == Plain ==> next >= old(next) || tryGetopt
      ensures err == 0 && found == Plain && Forward() ==> argc == old(argc) && next >= old(next)
      ensures Forward() && old(!tryGetopt) ==> !tryGetopt
      ensures old(tryGetopt) ==> tryGetopt
      ensures err == EBADKEY && found == Plain ==> (FirstParser(parsers, 0).Some? ==> seg != [])
      ensures err == EBADKEY && found == Plain && seg != [] ==>
        LastDeclined(seg) && (Still() ==> seg[|seg| - 1].at == next)
      ensures err == EBADKEY && found == Plain && Still() ==> next == old(next) - 1
      ensures err == EBADKEY && found.Flag? ==> seg == [] || BadOption(seg)
    {
      hide Sum;
      hide Still;
      hide Forward;
      hide Consumed;
      hide Legal;
      hide Pointer;
      hide FirstParser;
      hide MayCall;
      hide DueAfter;
      if found == Plain {
        err, seg := ParseArg();
        ArgCallsStopped(seg, err, if ArgCalls(seg, err, Arg) then Arg else Args);
      } else {
        err, seg := ParseOpt(found.group, found.key);
        OneUserCall(seg);
      }
    }

    /**
     One turn of the parse loop.  A turn that returns EBADKEY with `argBad` has come to the end
     of the arguments, or to an argument that no group wants.
     */
    method ParseNext(argBad0: bool) returns (err: int, argBad: bool, ghost seg: seq<Event>)
      requires Valid()
      modifies this`trace, this`next, this`argc, this`argsProcessed, this`tryGetopt, this`quoted
      ensures trace == old(trace) + seg && Stopped(seg, err) && ParseKeys(seg)
      ensures |argsProcessed| == |parsers| && History() && Settled()
      ensures err == 0 ==> Valid() && seg != []
      ensures err == EBADKEY ==> (argBad <==> !BadOption(seg))
      ensures err == EBADKEY && argBad && FirstParser(parsers, 0).Some? && !LastDeclined(seg) ==> noArgs || next >= argc
      ensures Still() ==> argc == old(argc)
      ensures err == EBADKEY && argBad && Still() ==> LeftAt(seg, next, argc, noArgs)
      ensures err == EBADKEY && Still() && LastDeclined(seg) ==> argBad && seg[|seg| - 1].at == next < argc
      // without getopt, every turn that goes on consumes an argument
      ensures Forward() && old(!tryGetopt) ==> NoGetopt(seg) && !tryGetopt
      ensures Forward() && old(!tryGetopt) && err == 0 ==> old(next) < next && argc == old(argc) && old(next) < argc
    {
      hide Sum;
      hide Still;
      hide Forward;
      hide Consumed;
      hide LastMark;
      hide MarksRespected;
      hide OnceEnded;
      hide SeenEnd;
      hide Legal;
      hide Pointer;
      hide FirstParser;
      hide MayCall;
      hide DueAfter;
      hide DueNow;
      hide OptionDue;
      var found;
      argBad := argBad0;
      found, seg := TryGetopt();
      if found == Invalid {
        return EBADKEY, false, seg;
      }
      if found == Ended {
        if next >= argc || noArgs {
          return EBADKEY, true, seg;
        }
        found := Plain;
        next := next + 1;
      }
      ghost var begin, more := trace, [];
      err, more := HandOver(found);
      CallsKeepMarks(begin, more);
      ConsumedAppend(begin, more);
      assert old(trace) + seg + more == old(trace) + (seg + more);
      StoppedAppend(seg, more, err);
      seg := seg + more;
      if err == EBADKEY {
        argBad := found == Plain;
      }
    }

    constructor (parsers: seq<bool>, react: (seq<Event>, nat, Key, int, int) -> Reaction,
                 getopt: (seq<Event>, int, int) -> Scan, argc: int, noArgs: bool)
      ensures this.parsers == parsers && this.react == react && this.getopt == getopt && this.noArgs == noArgs
      ensures this.argc == count == argc && next == 0 && quoted == 0 && tryGetopt && trace == []
      ensures argsProcessed == seq(|parsers|, _ => 0)
    {
      this.parsers, this.react, this.getopt, this.noArgs := parsers, react, getopt, noArgs;
      this.count, this.argc, next, quoted, tryGetopt, trace := argc, argc, 0, 0, true, [];
      argsProcessed := seq(|parsers|, _ => 0);
    }

    /** The first call of every parser. */
    method Begin() returns (err: int, ghost seg: seq<Event>)
      requires trace == [] && next == quoted == 0 && argc == count && tryGetopt && GetoptOk()
      requires argsProcessed == seq(|parsers|, _ => 0)
      modifies this`trace, this`next, this`argc
      ensures trace == seg && Only(seg, Init) && Stopped(seg, err) && err != EBADKEY
      ensures err == 0 ==> GroupsIn(seg) == FirstFirst(parsers, All(|parsers|), |parsers|)
      ensures |argsProcessed| == |parsers| && History() && Settled() && (err == 0 ==> Valid())
      ensures Still() ==> argc == old(argc)
    {
      hide Legal;
      hide Pointer;
      hide Still;
      hide Forward;
      hide FirstFirst;
      hide Sum;
      hide Consumed;
      hide SeenEnd;
      hide DueAfter;
      LegalStart(Around());
      NothingMarked();
      err, seg := CallUp(Init, All(|parsers|), true, 0);
      if err == EBADKEY {
        err := 0;
      }
      OtherCalls(seg, Init);
      assert [] + seg == seg;
      CallsKeepMarks([], seg);
      SumZero(|parsers|);
    }

    lemma ValidSettled()
      requires Valid()
      ensures Settled()
    {
    }

    /** The parse loop, for at most `limit` turns. */
    method ParseLoop(limit: nat)
        returns (finished: bool, err: int, argBad: bool, ghost seg: seq<Event>, ghost turn: seq<Event>)
      requires Valid()
      modifies this`trace, this`next, this`argc, this`argsProcessed, this`tryGetopt, this`quoted
      ensures trace == old(trace) + seg && Stopped(seg, err) && ParseKeys(seg)
      ensures |argsProcessed| == |parsers| && History() && Settled() && finished == (err != 0)
      ensures err == EBADKEY ==> (argBad <==> !BadOption(seg))
      ensures err == EBADKEY && argBad && FirstParser(parsers, 0).Some? && !LastDeclined(turn) ==>
        noArgs || next >= argc
      // `turn` are the calls of the last turn
      ensures |turn| <= |seg| && seg[|seg| - |turn|..] == turn
      ensures Still() ==> argc == old(argc)
      ensures err == EBADKEY && argBad && Still() ==> LeftAt(turn, next, argc, noArgs)
      ensures err == EBADKEY && Still() && LastDeclined(turn) ==> argBad && turn[|turn| - 1].at == next < argc
      // once getopt is done it stays away, and every turn takes an argument
      ensures Forward() && old(!tryGetopt) ==> NoGetopt(seg)
      ensures Forward() && old(!tryGetopt) && limit > 0 && limit > old(argc - next) ==> finished
    {
      hide Forward;
      hide Still;
      hide History;
      hide LeftAt;
      hide Settled;
      hide Legal;
      hide FirstParser;
      ValidSettled();
      err, argBad, seg, turn := 0, false, [], [];
      var turns := 0;
      while err == 0 && turns < limit
        invariant 0 <= turns <= limit
        invariant trace == old(trace) + seg && Stopped(seg, err) && ParseKeys(seg)
        invariant |argsProcessed| == |parsers| && History() && Settled()
        invariant err == 0 ==> Valid() && !BadOption(seg)
        invariant err == EBADKEY ==> (argBad <==> !BadOption(seg))
        invariant err == EBADKEY && argBad && FirstParser(parsers, 0).Some? && !LastDeclined(turn) ==>
          noArgs || next >= argc
        invariant |turn| <= |seg| && seg[|seg| - |turn|..] == turn
        invariant Still() ==> argc == old(argc)
        invariant err == EBADKEY && argBad && Still() ==> LeftAt(turn, next, argc, noArgs)
        invariant err == EBADKEY && Still() && LastDeclined(turn) ==> argBad && turn[|turn| - 1].at == next < argc
        invariant Forward() && old(!tryGetopt) ==> NoGetopt(seg) && !tryGetopt
        invariant Forward() && old(!tryGetopt) && err == 0 ==> next >= old(next) + turns && argc == old(argc)
        invariant Forward() && old(!tryGetopt) && err == 0 && turns > 0 ==> turns <= old(argc - next)
        decreases limit - turns
      {
        err, argBad, turn := ParseNext(argBad);
        assert old(trace) + seg + turn == old(trace) + (seg + turn);
        StoppedAppend(seg, turn, err);
        seg := seg + turn;
        turns := turns + 1;
      }
      finished := err != 0;
    }

    /** The calls after all arguments have been parsed. */
    method AllParsed() returns (err: int, ghost noArgs: seq<Event>, ghost end: seq<Event>)
      requires |argsProcessed| == |parsers|
      modifies this`trace, this`next, this`argc
      ensures trace == old(trace) + noArgs + end && AllTold(noArgs, end, parsers, argsProcessed)
      ensures Stopped(noArgs + end, err) && err != EBADKEY
      ensures old(Settled()) ==> Settled()
      ensures Still() ==> next == old(next) && argc == old(argc)
    {
      hide FirstFirst;
      hide LastFirst;
      hide Still;
      hide Forward;
      err, noArgs := CallUp(NoArgs, Idle(argsProcessed), true, 0);
      ghost var asked := err;
      err, end := CallDown(End, true, err);
      StoppedQuiet(noArgs, asked);
      if !Soft(asked) {
        assert noArgs + end == noArgs;
      } else {
        StoppedAppend(noArgs, end, err);
        StoppedQuiet(end, err);
      }
      if err == EBADKEY {
        err := 0;
      }
    }

    /** Tell all parsers how the run went, and then that it is over. */
    method Conclude(err0: int)
        returns (err: int, ghost success: seq<Event>, ghost error: seq<Event>, ghost fini: seq<Event>)
      modifies this`trace, this`next, this`argc
      ensures trace == old(trace) + success + error + fini
      ensures Only(success, Success) && Only(error, Error) && Only(fini, Fini)
      ensures err0 != 0 ==> success == [] && err == (if err0 == EBADKEY then EINVAL else err0)
      ensures err0 != 0 ==> GroupsIn(error) == FirstFirst(parsers, All(|parsers|), |parsers|)
      ensures err0 == 0 ==> error == [] && Stopped(success, err) && err != EBADKEY
      ensures err == 0 ==> GroupsIn(success) == LastFirst(parsers, |parsers|)
      ensures GroupsIn(fini) == LastFirst(parsers, |parsers|)
      ensures old(Settled()) ==> Settled()
    {
      hide Settled;
      err, success, error := err0, [], [];
      var ignored;
      if err != 0 {
        ignored, error := CallUp(Error, All(|parsers|), false, 0);
      } else {
        err, success := CallDown(Success, true, 0);
        if err == EBADKEY {
          err := 0;
        }
      }
      ignored, fini := CallDown(Fini, false, 0);
      if err == EBADKEY {
        err := EINVAL;
      }
    }

    /**
     Decide what the end of the parse loop means, and tell the parsers if everything is parsed;
     `told` says whether it is.
     */
    method Settle(err0: int, argBad: bool, wantsIndex: bool)
        returns (err: int, endIndex: Option<int>, ghost noArgs: seq<Event>, ghost end: seq<Event>, ghost told: bool)
      requires |argsProcessed| == |parsers| && err0 != 0
      modifies this`trace, this`next, this`argc
      ensures trace == old(trace) + noArgs + end && Only(noArgs, NoArgs) && Only(end, End)
      ensures told == (err0 == EBADKEY && argBad && old(next) == old(argc))
      ensures if told then AllTold(noArgs, end, parsers, argsProcessed) else noArgs == end == []
      ensures !Soft(err0) ==> err == err0
      ensures err0 == EBADKEY ==> Stopped(noArgs + end, err)
      ensures old(Settled()) ==> Settled()
      ensures endIndex.Some? ==> wantsIndex
      ensures told ==> err != EBADKEY
      ensures told && wantsIndex ==> endIndex == Some(next) && (Still() ==> next == old(argc))
      ensures !told && err == 0 ==> endIndex == Some(old(next)) && old(next) != old(argc)
      ensures err0 == EBADKEY && argBad && wantsIndex && old(next) != old(argc) ==> err == 0
      ensures err0 == EBADKEY && !(argBad && (wantsIndex || old(next) == old(argc))) ==> err == EBADKEY
    {
      hide LastFirst;
      hide FirstFirst;
      hide Still;
      err, endIndex, noArgs, end, told := err0, None, [], [], false;
      NoCalls(NoArgs, End);
      assert noArgs + end == [];
      if err == EBADKEY && argBad {
        err := 0;
      }
      if err == 0 {
        if next == argc {
          told := true;
          err, noArgs, end := AllParsed();
          if wantsIndex {
            endIndex := Some(next);
          }
        } else if wantsIndex {
          endIndex := Some(next);
        } else {
          err := EBADKEY;
        }
      }
    }

    /**
     The end of a run.  `err0` is what the parse loop returned; `wantsIndex` tells whether the caller
     can be given the arguments that are left.
     */
    method Finish(err0: int, argBad: bool, wantsIndex: bool)
        returns (err: int, endIndex: Option<int>, ghost ph: Phases, ghost told: bool)
      requires |argsProcessed| == |parsers| && err0 != 0
      modifies this`trace, this`next, this`argc
      ensures trace == old(trace) + Tail(ph) && ph.init == [] && ph.parse == [] && TailOk(ph, parsers, err)
      ensures told == (err0 == EBADKEY && argBad && old(next) == old(argc))
      ensures if told then AllTold(ph.noArgs, ph.end, parsers, argsProcessed) else ph.noArgs == ph.end == []
      ensures !Soft(err0) ==> err == err0 && ph.success == []
      ensures err0 == EBADKEY ==> err != EBADKEY && OutcomeOf(ph.noArgs + ph.end + ph.success, err)
      ensures old(Settled()) ==> Settled()
      ensures endIndex.Some? ==> wantsIndex
      ensures told && wantsIndex ==> endIndex.Some? && (Still() ==> endIndex == Some(old(argc)))
      ensures old(Settled()) && told && wantsIndex ==>
        endIndex == Some(Pointer(Around(), old(trace) + ph.noArgs + ph.end).0)
      ensures !told && err == 0 ==> endIndex == Some(old(next)) && old(next) != old(argc)
      ensures err0 == EBADKEY && Quiet(ph.noArgs + ph.end + ph.success) ==>
        (err == 0 <==> argBad && (wantsIndex || old(next) == old(argc)))
      ensures err0 == EBADKEY && argBad && wantsIndex && old(next) != old(argc) ==>
        endIndex == Some(old(next)) && ph.error == []
      ensures err0 == EBADKEY && !(argBad && (wantsIndex || old(next) == old(argc))) ==>
        err == EINVAL && ph.success == []
    {
      hide All;
      hide FirstFirst;
      hide LastFirst;
      hide Only;
      hide Stopped;
      hide Quiet;
      hide OutcomeOf;
      hide TailOk;
      hide Tail;
      hide GroupsIn;
      hide AllTold;
      hide Still;
      var parsed;
      ghost var noArgs, end, success, error, fini;
      parsed, endIndex, noArgs, end, told := Settle(err0, argBad, wantsIndex);
      err, success, error, fini := Conclude(parsed);
      ph := Phases([], [], noArgs, end, success, error, fini);
      TailIsOk(ph, parsers, parsed, err);
      if err0 == EBADKEY {
        OutcomeIs(noArgs + end, success, parsed, err);
        QuietEnds(noArgs + end, success, parsed, err);
      }
      TailAppend(old(trace), ph);
    }
  }

  lemma NothingMarked()
    ensures MarksRespected([]) && OnceEnded([]) && !SeenEnd([]) && LastMark([]) == 0 && Consumed([]) == 0
  {
  }

  lemma CallAdded(seg: seq<Event>, e: Event, key: Key)
    requires Only(seg, key) && e.Call? && e.key == key
    ensures Only(seg + [e], key) && GroupsIn(seg + [e]) == GroupsIn(seg) + [e.group]
    ensures Quiet(seg) ==> Stopped(seg + [e], e.err)
  {
    assert (seg + [e])[..|seg|] == seg;
  }

  lemma FirstFirstStarts(parsers: seq<bool>, idle: seq<bool>)
    requires |parsers| == |idle|
    ensures FirstFirst(parsers, idle, 0) == [] == GroupsIn([])
  {
  }

  lemma FirstFirstStep(parsers: seq<bool>, idle: seq<bool>, g: nat)
    requires g < |parsers| == |idle|
    ensures FirstFirst(parsers, idle, g + 1) == FirstFirst(parsers, idle, g) + if parsers[g] && idle[g] then [g] else []
  {
  }

  lemma LastFirstEnds(parsers: seq<bool>)
    ensures LastFirst(parsers, 0) == [] && GroupsIn([]) + LastFirst(parsers, |parsers|) == LastFirst(parsers, |parsers|)
  {
  }

  lemma LastFirstSkip(parsers: seq<bool>, g: nat)
    requires g < |parsers|
    ensures !parsers[g] ==> LastFirst(parsers, g + 1) == LastFirst(parsers, g)
  {
  }

  lemma {:induction false} LastFirstStep(seg: seq<Event>, e: Event, parsers: seq<bool>, g: nat)
    requires g < |parsers| && parsers[g] && e.Call? && e.group == g
    requires forall i :: 0 <= i < |seg| ==> seg[i].Call?
    ensures GroupsIn(seg + [e]) + LastFirst(parsers, g) == GroupsIn(seg) + LastFirst(parsers, g + 1)
  {
    assert LastFirst(parsers, g + 1) == [g] + LastFirst(parsers, g);
    assert GroupsIn(seg + [e]) == GroupsIn(seg) + [g];
    JoinGroups(GroupsIn(seg), [g], LastFirst(parsers, g));
  }

  lemma JoinGroups(a: seq<nat>, b: seq<nat>, c: seq<nat>)
    ensures (a + b) + c == a + (b + c)
  {
  }

  lemma TailAppend(t: seq<Event>, ph: Phases)
    ensures t + ph.noArgs + ph.end + ph.success + ph.error + ph.fini == t + Tail(ph)
  {
  }

  lemma NoCalls(k1: Key, k2: Key)
    ensures Only([], k1) && Only([], k2) && Stopped([], 0) && Stopped([], EBADKEY)
  {
  }

  lemma TailIsOk(ph: Phases, parsers: seq<bool>, parsed: int, err: int)
    requires Only(ph.noArgs, NoArgs) && Only(ph.end, End)
    requires Only(ph.success, Success) && Only(ph.error, Error) && Only(ph.fini, Fini)
    requires if parsed == 0 then ph.error == [] && Stopped(ph.success, err) && err != EBADKEY
             else ph.success == [] && err != 0
    requires err == 0 ==> GroupsIn(ph.success) == LastFirst(parsers, |parsers|)
    requires parsed != 0 ==> GroupsIn(ph.error) == FirstFirst(parsers, All(|parsers|), |parsers|)
    requires GroupsIn(ph.fini) == LastFirst(parsers, |parsers|)
    ensures TailOk(ph, parsers, err)
  {
    if parsed == 0 {
      StoppedQuiet(ph.success, err);
    }
  }

  lemma OutcomeIs(calls: seq<Event>, success: seq<Event>, parsed: int, err: int)
    requires Stopped(calls, parsed)
    requires if parsed == 0 then Stopped(success, err) && err != EBADKEY
             else success == [] && err == (if parsed == EBADKEY then EINVAL else parsed)
    ensures OutcomeOf(calls + success, err)
  {
    if parsed == 0 {
      StoppedAppend(calls, success, err);
      StoppedQuiet(calls + success, err);
    } else {
      assert calls + success == calls;
      StoppedQuiet(calls, parsed);
    }
  }

  lemma QuietEnds(calls: seq<Event>, success: seq<Event>, parsed: int, err: int)
    requires Stopped(calls, parsed)
    requires if parsed == 0 then Stopped(success, err) && err != EBADKEY else success == [] && err != 0
    ensures Quiet(calls + success) ==> Soft(parsed) && (err == 0 <==> parsed == 0)
  {
    assert (calls + success)[..|calls|] == calls && (calls + success)[|calls|..] == success;
    StoppedQuiet(calls, parsed);
    if parsed == 0 {
      StoppedQuiet(success, err);
    }
    if Quiet(calls + success) {
      assert Quiet(calls) by {
        assert forall i :: 0 <= i < |calls| ==> calls[i] == (calls + success)[i];
      }
      assert Quiet(success) by {
        assert forall i :: 0 <= i < |success| ==> success[i] == (calls + success)[|calls| + i];
      }
    }
  }

  /** The calls of a run, in the order in which the phases come. */
  datatype Phases = Phases(init: seq<Event>, parse: seq<Event>, noArgs: seq<Event>, end: seq<Event>,
                           success: seq<Event>, error: seq<Event>, fini: seq<Event>)

  function Tail(ph: Phases): seq<Event> {
    ph.noArgs + ph.end + ph.success + ph.error + ph.fini
  }

  function Idle(processed: seq<int>): (idle: seq<bool>)
    ensures |idle| == |processed|
  {
    seq(|processed|, i requires 0 <= i < |processed| => processed[i] == 0)
  }

  /**
   Every parser whose group processed no argument is told so, the first group first, and then every
   parser of the end, the last group first; but a parser that fails ends this.
   */
  ghost predicate AllTold(noArgs: seq<Event>, end: seq<Event>, parsers: seq<bool>, processed: seq<int>)
    requires |processed| == |parsers|
  {
    && Only(noArgs, NoArgs) && Only(end, End)
    && (forall i :: 0 <= i < |noArgs| ==> noArgs[i].group < |parsers| && processed[noArgs[i].group] == 0)
    && (if Quiet(noArgs) then GroupsIn(noArgs) == FirstFirst(parsers, Idle(processed), |parsers|) else end == [])
    && (Quiet(noArgs) && Quiet(end) ==> GroupsIn(end) == LastFirst(parsers, |parsers|))
  }

  /** The shape of the phases after the parse loop. */
  ghost predicate TailOk(ph: Phases, parsers: seq<bool>, err: int) {
    && Only(ph.noArgs, NoArgs) && Only(ph.end, End)
    && Only(ph.success, Success) && Only(ph.error, Error) && Only(ph.fini, Fini)
    // success and error exclude each other, and one of them is told to everybody unless a parser fails
    && (ph.success == [] || ph.error == [])
    && (err == 0 ==> ph.error == [] && GroupsIn(ph.success) == LastFirst(parsers, |parsers|))
    && (err != 0 && Quiet(ph.success) ==> GroupsIn(ph.error) == FirstFirst(parsers, All(|parsers|), |parsers|))
    // everybody is told last that it is over, the last group first
    && GroupsIn(ph.fini) == LastFirst(parsers, |parsers|)
  }

  /** The first failure decides; without one the result is 0 or EINVAL. */
  ghost predicate OutcomeOf(calls: seq<Event>, err: int) {
    if Quiet(calls) then err == 0 || err == EINVAL else !Soft(err) && Stopped(calls, err)
  }

  function All(n: nat): seq<bool> {
    seq(n, _ => true)
  }

  lemma {:induction false} SumZero(n: nat)
    ensures Sum(seq(n, _ => 0)) == 0
    decreases n
  {
    if n > 0 {
      SumZero(n - 1);
      assert seq(n, _ => 0)[1..] == seq(n - 1, _ => 0);
    }
  }

  /** Calls for anything but arguments consume nothing and do not involve getopt. */
  lemma {:induction false} OtherCalls(seg: seq<Event>, key: Key)
    requires Only(seg, key) && key != Arg && key != Args
    ensures NoGetopt(seg) && Consumed(seg) == 0
    decreases |seg|
  {
    if seg != [] {
      OtherCalls(seg[..|seg| - 1], key);
    }
  }

  /** The parse loop calls parsers only for options and arguments. */
  ghost predicate ParseKeys(seg: seq<Event>) {
    forall i :: 0 <= i < |seg| ==> seg[i].Getopt? || seg[i].key.User? || seg[i].key == Arg || seg[i].key == Args
  }

  lemma StoppedAppend(a: seq<Event>, b: seq<Event>, err: int)
    requires Quiet(a) && Stopped(b, err)
    ensures Stopped(a + b, err)
  {
    if !Soft(err) {
      assert (a + b)[..|a + b| - 1] == a + b[..|b| - 1];
    }
  }

  lemma StoppedQuiet(seg: seq<Event>, err: int)
    requires Stopped(seg, err)
    ensures Quiet(seg) <==> Soft(err)
  {
  }

  lemma OneUserCall(seg: seq<Event>)
    requires seg == [] || (|seg| == 1 && seg[0].Call? && seg[0].key.User?)
    ensures Consumed(seg) == 0
  {
    if seg != [] {
      assert seg[..0] == [];
    }
  }

  /** The last call offered all the rest of the arguments, and was declined. */
  predicate LastDeclined(seg: seq<Event>) {
    seg != [] && var e := seg[|seg| - 1]; e.Call? && e.key == Args && e.err == EBADKEY
  }

  /** The last event was an option that is wrong, or that nobody wants. */
  predicate BadOption(seg: seq<Event>) {
    seg != [] &&
    match seg[|seg| - 1]
    case Getopt(_, _, found, _, _) => found == Invalid || found.Flag?
    case Call(_, key, _, _, err) => key.User? && err == EBADKEY
  }

  /**
   Parsing stopped at `next`: at the end of the arguments, or where arguments are not looked at,
   or at an argument that every group declined, the last one when it was offered with all the rest.
   */
  ghost predicate LeftAt(seg: seq<Event>, next: int, argc: int, noArgs: bool) {
    || noArgs || next >= argc
    || (seg != [] && seg[|seg| - 1].Call? ==>
          var e := seg[|seg| - 1]; e.key == Args && e.err == EBADKEY && e.at == next)
  }

  /** Calls about one argument: all declined, or all but the last, which answered `err` to `key`. */
  ghost predicate ArgCalls(seg: seq<Event>, err: int, key: Key) {
    && (forall i :: 0 <= i < |seg| ==> seg[i].Call? && (seg[i].key == Arg || seg[i].key == Args))
    && (forall i :: 0 <= i < |seg| - 1 ==> seg[i].err == EBADKEY)
    && (key == Arg || key == Args)
    && (if err == EBADKEY then seg != [] ==> seg[|seg| - 1].err == EBADKEY
        else seg != [] && seg[|seg| - 1].err == err && seg[|seg| - 1].key == key)
  }

  lemma ArgCallsAppend(a: seq<Event>, b: seq<Event>, err: int, key: Key)
    requires (exists k :: ArgCalls(a, EBADKEY, k)) && ArgCalls(b, err, key)
    ensures ArgCalls(a + b, err, key)
  {
  }

  lemma ArgCallsStopped(seg: seq<Event>, err: int, key: Key)
    requires ArgCalls(seg, err, key)
    ensures Stopped(seg, err) && NoGetopt(seg)
    ensures err == EBADKEY && seg != [] ==> seg[|seg| - 1].err == EBADKEY
  {
  }

  lemma ArgCallsConsume(seg: seq<Event>, err: int, key: Key)
    requires ArgCalls(seg, err, key)
    ensures Consumed(seg) == if err == 0 then Eaten(seg[|seg| - 1]) else 0
  {
    ConsumedDeclined(seg);
  }

  /** Declined arguments are not consumed. */
  lemma {:induction false} ConsumedNone(seg: seq<Event>)
    requires forall i :: 0 <= i < |seg| ==> seg[i].Call? && seg[i].err != 0
    ensures Consumed(seg) == 0
    decreases |seg|
  {
    if seg != [] {
      ConsumedNone(seg[..|seg| - 1]);
    }
  }

  lemma ConsumedDeclined(seg: seq<Event>)
    requires forall i :: 0 <= i < |seg| ==> seg[i].Call?
    requires forall i :: 0 <= i < |seg| - 1 ==> seg[i].err == EBADKEY
    ensures Consumed(seg) == if seg == [] then 0 else Eaten(seg[|seg| - 1])
  {
    if seg != [] {
      ConsumedNone(seg[..|seg| - 1]);
    }
  }

  // ---------- Whole runs ----------

  /** All calls of a run except those that report an error or the end. */
  function Work(ph: Phases): seq<Event> {
    ph.init + ph.parse + (ph.noArgs + ph.end + ph.success)
  }

  /** The protocol of a run that has come to its end with the result `err`. */
  ghost predicate RunOk(trace: seq<Event>, ph: Phases, parsers: seq<bool>, err: int) {
    && trace == ph.init + ph.parse + Tail(ph)
    && Only(ph.init, Init) && ParseKeys(ph.parse)
    && err != EBADKEY && OutcomeOf(Work(ph), err)
    && (if Quiet(ph.init) then
          GroupsIn(ph.init) == FirstFirst(parsers, All(|parsers|), |parsers|) && TailOk(ph, parsers, err)
        else
          ph.parse == [] && Tail(ph) == [])
  }

  lemma WorkOutcome(init: seq<Event>, parse: seq<Event>, ph: Phases, perr: int, err: int)
    requires Quiet(init) && Stopped(parse, perr)
    requires if Soft(perr) then OutcomeOf(ph.noArgs + ph.end + ph.success, err)
             else err == perr && ph.noArgs == ph.end == ph.success == []
    ensures OutcomeOf(Work(ph.(init := init, parse := parse)), err)
  {
    var late := ph.noArgs + ph.end + ph.success;
    if Soft(perr) {
      var pre := init + parse;
      assert Quiet(pre);
      if Quiet(late) {
        assert Quiet(pre + late);
      } else {
        StoppedAppend(pre, late, err);
        StoppedQuiet(pre + late, err);
      }
    } else {
      StoppedAppend(init, parse, perr);
      StoppedQuiet(init + parse, perr);
      assert init + parse + late == init + parse;
    }
  }

  lemma QuietJoin(a: seq<Event>, b: seq<Event>)
    ensures Quiet(a + b) <==> Quiet(a) && Quiet(b)
  {
    var t := a + b;
    assert forall i :: 0 <= i < |a| ==> t[i] == a[i];
    assert forall i :: 0 <= i < |b| ==> b[i] == t[|a| + i];
  }

  lemma QuietParts(init: seq<Event>, parse: seq<Event>, ph: Phases, perr: int)
    requires Quiet(init) && Stopped(parse, perr)
    ensures Quiet(init + parse) <==> Soft(perr)
    ensures Quiet(Work(ph.(init := init, parse := parse))) <==> Soft(perr) && Quiet(ph.noArgs + ph.end + ph.success)
  {
    hide Quiet;
    hide Stopped;
    StoppedQuiet(parse, perr);
    QuietJoin(init, parse);
    QuietJoin(init + parse, ph.noArgs + ph.end + ph.success);
  }

  lemma TailCalls(ph: Phases, parsers: seq<bool>, err: int)
    requires TailOk(ph, parsers, err)
    ensures NoGetopt(Tail(ph)) && Consumed(Tail(ph)) == 0
  {
    hide Consumed;
    OtherCalls(ph.noArgs, NoArgs);
    OtherCalls(ph.end, End);
    OtherCalls(ph.success, Success);
    OtherCalls(ph.error, Error);
    OtherCalls(ph.fini, Fini);
    ConsumedAppend(ph.noArgs, ph.end);
    ConsumedAppend(ph.noArgs + ph.end, ph.success);
    ConsumedAppend(ph.noArgs + ph.end + ph.success, ph.error);
    ConsumedAppend(ph.noArgs + ph.end + ph.success + ph.error, ph.fini);
  }

  /**
   A run of argp_parse, given at most `limit` turns of its parse loop.  If it comes to its end,
   the calls of the parsers follow the protocol and decide the result, getopt has respected its
   marks, and the arguments are accounted for.
   */
  method ArgpParse(parsers: seq<bool>, react: (seq<Event>, nat, Key, int, int) -> Reaction,
                   getopt: (seq<Event>, int, int) -> Scan, argc: int, noArgs: bool, wantsIndex: bool, limit: nat)
      returns (run: Run, finished: bool, err: int, endIndex: Option<int>,
               ghost ph: Phases, ghost turn: seq<Event>, ghost told: bool)
    requires forall t, n, c :: ScanOk(getopt(t, n, c), c, |parsers|)
    ensures fresh(run) && run.parsers == parsers && run.react == react
    ensures |run.argsProcessed| == |parsers|
    ensures finished ==> RunOk(run.trace, ph, parsers, err)
    // every event is possible where it stands, and is what the parser or getopt answers there
    ensures Legal(World(parsers, react, getopt, argc), run.trace)
    // a run without a hard error fails exactly for a bad option or for arguments nobody can be given
    ensures finished && Quiet(Work(ph)) ==> (err == 0 <==> !BadOption(ph.parse) && (told || wantsIndex))
    // if all arguments are parsed, everybody is told, and otherwise the caller is given the rest
    ensures finished ==> told == (Quiet(ph.init + ph.parse) && !BadOption(ph.parse) &&
                                  var p := Pointer(World(parsers, react, getopt, argc), ph.init + ph.parse); p.0 == p.1)
    ensures finished ==>
      if told then AllTold(ph.noArgs, ph.end, parsers, run.argsProcessed) else ph.noArgs == ph.end == []
    ensures finished && err == 0 && !told ==>
      endIndex == Some(Pointer(World(parsers, react, getopt, argc), ph.init + ph.parse).0)
    ensures finished && told && wantsIndex ==>
      endIndex == Some(Pointer(World(parsers, react, getopt, argc), ph.init + ph.parse + ph.noArgs + ph.end).0)
    // parsing stops at the end of the arguments, or at one that every group declines
    ensures finished && Quiet(ph.init + ph.parse) && !BadOption(ph.parse) && !LastDeclined(turn) && !noArgs ==>
      FirstParser(parsers, 0).Some? ==>
        var p := Pointer(World(parsers, react, getopt, argc), ph.init + ph.parse); p.0 >= p.1
    ensures MarksRespected(run.trace)
    ensures run.Forward() ==> OnceEnded(run.trace)
    ensures run.Still() ==> Sum(run.argsProcessed) == Consumed(run.trace)
    // an argument that every group declines is where the caller will find the rest
    ensures finished ==> |turn| <= |ph.parse| && ph.parse[|ph.parse| - |turn|..] == turn
    ensures finished && run.Still() && wantsIndex && LastDeclined(turn) && Quiet(ph.parse) ==>
      endIndex == Some(turn[|turn| - 1].at) && ph.error == []
  {
    hide MarksRespected;
    hide OnceEnded;
    hide Consumed;
    hide Sum;
    hide TailOk;
    hide OutcomeOf;
    hide Quiet;
    hide Stopped;
    hide GroupsIn;
    hide FirstFirst;
    hide Tail;
    hide Only;
    hide AllTold;
    hide LastFirst;
    hide All;
    hide Work;
    hide LeftAt;
    hide ParseKeys;
    hide NoGetopt;
    hide LastMark;
    hide SeenEnd;
    hide Run.Still;
    hide Run.Forward;
    hide Legal;
    hide Pointer;
    hide FirstParser;
    hide DueNow;
    hide BadOption;
    run := new Run(parsers, react, getopt, argc, noArgs);
    ghost var init;
    err, init := run.Begin();
    ph := Phases(init, [], [], [], [], [], []);
    finished, endIndex, turn, told := err != 0, None, [], false;
    BeginFailed(init, parsers, err);
    if err == 0 {
      var argBad;
      ghost var parse;
      finished, err, argBad, parse, turn := run.ParseLoop(limit);
      if finished {
        ghost var perr, before := err, run.trace;
        StoppedQuiet(parse, err);
        err, endIndex, ph, told := run.Finish(err, argBad, wantsIndex);
        TailCalls(ph, parsers, err);
        CallsKeepMarks(before, Tail(ph));
        ConsumedAppend(before, Tail(ph));
        WorkOutcome(init, parse, ph, perr, err);
        QuietParts(init, parse, ph, perr);
        TailSame(ph, init, parse, parsers, err);
        ph := ph.(init := init, parse := parse);
      }
    }
  }

  lemma BeginFailed(init: seq<Event>, parsers: seq<bool>, err: int)
    requires Only(init, Init) && Stopped(init, err) && err != EBADKEY
    ensures Quiet(init) <==> err == 0
    ensures var ph := Phases(init, [], [], [], [], [], []);
      err != 0 ==> RunOk(init, ph, parsers, err) && Tail(ph) == [] && !Quiet(Work(ph)) && !Quiet(init + [])
  {
    StoppedQuiet(init, err);
    var ph := Phases(init, [], [], [], [], [], []);
    assert Tail(ph) == [] && Work(ph) == init && init + [] + [] == init;
    assert init + [] == init;
  }

  lemma TailSame(ph: Phases, init: seq<Event>, parse: seq<Event>, parsers: seq<bool>, err: int)
    ensures Tail(ph.(init := init, parse := parse)) == Tail(ph)
    ensures TailOk(ph.(init := init, parse := parse), parsers, err) == TailOk(ph, parsers, err)
  {
  }
}
