/**
 The wrapping discipline of the argp output stream, as functions on text.

 `Plan` says what one turn of the scanning loop of argp/argp-fmtstream.c does with the
 text still to be scanned; `Wrap` runs the loop to the end.  The theorems compare `Wrap`
 with two notions that know nothing of the loop: `Refolds` (the output is the input with
 some white space replaced by a line break and an indent) and `Narrow` (no line is too wide).
 */
module Wrapping {

  // ---------- Characters and scanning ----------

  predicate Blank(ch: char) {
    ch == ' ' || ch == '\t'
  }

  predicate Separator(ch: char) {
    Blank(ch) || ch == '\n'
  }

  /** A line break followed by the indent of a continuation line. */
  function Break(w: nat): string {
    ['\n'] + seq(w, _ => ' ')
  }

  /** Where the first line of `t` ends: at its newline, or at the end of the text. */
  function LineEnd(t: string): (n: nat)
    ensures n <= |t|
    ensures n < |t| ==> t[n] == '\n'
  {
    if t == [] || t[0] == '\n' then 0 else 1 + LineEnd(t[1..])
  }

  lemma {:induction false} LineEndFirst(t: string)
    ensures forall i :: 0 <= i < LineEnd(t) ==> t[i] != '\n'
    decreases |t|
  {
    if t != [] && t[0] != '\n' {
      LineEndFirst(t[1..]);
      assert forall i :: 1 <= i < LineEnd(t) ==> t[i] == t[1..][i - 1];
    }
  }

  /** The last blank at or before `k`, or -1. */
  function LastBlank(t: string, k: int): (i: int)
    requires -1 <= k < |t|
    ensures -1 <= i <= k
    ensures i >= 0 ==> Blank(t[i])
  {
    if k < 0 || Blank(t[k]) then k else LastBlank(t, k - 1)
  }

  lemma {:induction false} LastBlankLast(t: string, k: int)
    requires -1 <= k < |t|
    ensures forall j :: LastBlank(t, k) < j <= k ==> !Blank(t[j])
    decreases k + 1
  {
    if k >= 0 && !Blank(t[k]) {
      LastBlankLast(t, k - 1);
    }
  }

  /** The first blank of the run of blanks that ends at `k`. */
  function RunStart(t: string, k: nat): (i: nat)
    requires k < |t| && Blank(t[k])
    ensures i <= k && Blank(t[i])
  {
    if k == 0 || !Blank(t[k - 1]) then k else RunStart(t, k - 1)
  }

  lemma {:induction false} RunStartBlank(t: string, k: nat)
    requires k < |t| && Blank(t[k])
    ensures forall j :: RunStart(t, k) <= j <= k ==> Blank(t[j])
    ensures RunStart(t, k) > 0 ==> !Blank(t[RunStart(t, k) - 1])
    decreases k
  {
    if k > 0 && Blank(t[k - 1]) {
      RunStartBlank(t, k - 1);
    }
  }

  /** The first position from `k` on that is a blank or not below `n`. */
  function WordEnd(t: string, k: nat, n: nat): (e: nat)
    requires n <= |t|
    ensures k <= e
    ensures k <= n ==> e <= n
    ensures k >= n ==> e == k
    ensures e < n ==> Blank(t[e])
    decreases n - k
  {
    if k < n && !Blank(t[k]) then WordEnd(t, k + 1, n) else k
  }

  /** The first position from `k` on that is not a blank, or the end of the text. */
  function RunEnd(t: string, k: nat): (e: nat)
    requires k <= |t|
    ensures k <= e <= |t|
    ensures e < |t| ==> !Blank(t[e])
    decreases |t| - k
  {
    if k < |t| && Blank(t[k]) then RunEnd(t, k + 1) else k
  }

  lemma {:induction false} RunEndBlank(t: string, k: nat)
    requires k <= |t|
    ensures forall j :: k <= j < RunEnd(t, k) ==> Blank(t[j])
    decreases |t| - k
  {
    if k < |t| && Blank(t[k]) {
      RunEndBlank(t, k + 1);
    }
  }

  // ---------- One turn of the loop ----------

  /**
   What a turn does: `Rest` accepts all of the text as a partial line, `Line(n)` accepts
   everything up to and including position `n`, and `Fold(nl, next)` puts a line break
   at `nl` and goes on with the text at `next`.
   */
  datatype Step = Rest | Line(n: nat) | Fold(nl: nat, next: nat)

  /** There is no blank to break at up to and including column `r`. */
  predicate Unbroken(t: string, c: nat, r: nat)
    requires c < r
  {
    c + LineEnd(t) >= r && r - c < |t| && LastBlank(t, r - c) < 0
  }

  /**
   The scan of one turn looks only at the text, never at or past its end, and a fold
   leaves some text for the next line.
   */
  predicate Readable(t: string, c: nat, r: nat)
    requires c < r
  {
    c + LineEnd(t) < r ||
    (r - c < |t| &&
     if Unbroken(t, c, r) then
       var e := WordEnd(t, r - c + 1, LineEnd(t));
       e == LineEnd(t) || (e + 1 <= |t| && RunEnd(t, e + 1) < |t|)
     else
       LastBlank(t, r - c) + 1 < |t|)
  }

  function Plan(t: string, c: nat, r: nat): (s: Step)
    requires t != [] && c < r && Readable(t, c, r)
    ensures s.Line? ==> s.n == LineEnd(t)
    ensures s.Fold? ==> s.nl < s.next < |t| && c + LineEnd(t) >= r
  {
    var n := LineEnd(t);
    if c + n < r then
      if n == |t| then Rest else Line(n)
    else
      var k := LastBlank(t, r - c);
      if k >= 0 then
        Fold(RunStart(t, k), k + 1)
      else
        var e := WordEnd(t, r - c + 1, n);
        if e == n then Line(n) else Fold(e, RunEnd(t, e + 1))
  }

  lemma {:induction false} WordEndFirst(t: string, k: nat, n: nat)
    requires n <= |t|
    ensures forall j :: k <= j < WordEnd(t, k, n) && j < n ==> !Blank(t[j])
    decreases n - k
  {
    if k < n && !Blank(t[k]) {
      WordEndFirst(t, k + 1, n);
    }
  }

  /** There is no blank from `i` up to `j`. */
  predicate NoBlanks(t: string, i: nat, j: nat)
    requires j <= |t|
  {
    forall k :: i <= k < j ==> !Blank(t[k])
  }

  /**
   A break at `nl` with the next line at `next`, in terms of the text alone.  It takes the place of
   the last run of blanks that starts at or before column `r`, up to that column.  If there is no
   such run, the line is one word up to the margin, and the break takes the place of the first run of
   blanks after it; or, if nothing but the newline is after it, of the character after the newline.
   */
  predicate BreaksAt(t: string, c: nat, r: nat, nl: nat, next: nat)
    requires c < r && r - c < |t| && nl < next < |t|
  {
    && (nl > 0 ==> !Blank(t[nl - 1]))
    && (forall j :: nl < j < next ==> Blank(t[j]))
    && (if NoBlanks(t, 0, r - c + 1) then
          && r - c < nl && !Blank(t[next])
          && NoBlanks(t, 0, if nl < LineEnd(t) then nl else LineEnd(t))
          && (if c + LineEnd(t) == r then nl == r - c + 1 else nl < LineEnd(t) && Blank(t[nl]))
        else
          Blank(t[nl]) && next <= r - c + 1 && NoBlanks(t, next, r - c + 1))
  }

  /**
   What a turn does, in terms of the text alone.  A line that fits is accepted.  A line that does not
   fit is broken as `BreaksAt` says, unless it is a single word.
   */
  lemma FoldIsLate(t: string, c: nat, r: nat)
    requires t != [] && c < r && Readable(t, c, r)
    ensures var s := Plan(t, c, r); var n := LineEnd(t);
      && (c + n < r ==> s == if n == |t| then Rest else Line(n))
      && (c + n >= r ==> r - c < |t| && (s.Line? <==> NoBlanks(t, 0, n) && c + n > r))
      && (c + n >= r && !s.Line? ==> s.Fold? && BreaksAt(t, c, r, s.nl, s.next))
  {
    hide LineEnd;
    hide LastBlank;
    hide RunStart;
    hide WordEnd;
    hide RunEnd;
    hide BreaksAt;
    hide NoBlanks;
    if c + LineEnd(t) >= r {
      if LastBlank(t, r - c) >= 0 {
        BreaksBefore(t, c, r);
      } else {
        BreaksAfter(t, c, r);
      }
    }
  }

  /** The break is at the last run of blanks up to the margin. */
  lemma {:induction false} BreaksBefore(t: string, c: nat, r: nat)
    requires c < r && r - c < |t| && c + LineEnd(t) >= r
    requires var k := LastBlank(t, r - c); 0 <= k && k + 1 < |t|
    ensures var k := LastBlank(t, r - c); BreaksAt(t, c, r, RunStart(t, k), k + 1)
    ensures c + LineEnd(t) > r ==> !NoBlanks(t, 0, LineEnd(t))
  {
    hide LineEnd;
    hide LastBlank;
    hide RunStart;
    var k := LastBlank(t, r - c);
    LastBlankLast(t, r - c);
    RunStartBlank(t, k);
    assert !NoBlanks(t, 0, r - c + 1);
  }

  /** The line is one word up to the margin, and the break is after it. */
  lemma {:induction false} BreaksAfter(t: string, c: nat, r: nat)
    requires c < r && r - c < |t| && c + LineEnd(t) >= r && LastBlank(t, r - c) < 0
    requires var e := WordEnd(t, r - c + 1, LineEnd(t)); e != LineEnd(t) ==> e + 1 <= |t| && RunEnd(t, e + 1) < |t|
    ensures var e := WordEnd(t, r - c + 1, LineEnd(t));
      && (e == LineEnd(t) <==> NoBlanks(t, 0, LineEnd(t)) && c + LineEnd(t) > r)
      && (e != LineEnd(t) ==> BreaksAt(t, c, r, e, RunEnd(t, e + 1)))
  {
    hide LineEnd;
    hide LastBlank;
    hide WordEnd;
    hide RunEnd;
    var n := LineEnd(t);
    LastBlankLast(t, r - c);
    WordEndFirst(t, r - c + 1, n);
    var e := WordEnd(t, r - c + 1, n);
    assert NoBlanks(t, 0, r - c + 1);
    if e != n {
      RunEndBlank(t, e + 1);
    }
  }

  // ---------- The whole loop ----------

  /** Every turn on the way to the end of the text is `Readable`. */
  predicate Stays(t: string, c: nat, r: nat, w: nat)
    requires c < r && w < r
    decreases |t|
  {
    t == [] ||
    (Readable(t, c, r) &&
     match Plan(t, c, r)
     case Rest => true
     case Line(n) => n == |t| || Stays(t[n + 1..], 0, r, w)
     case Fold(nl, next) => Stays(t[next..], w, r, w))
  }

  /** The text that leaves the loop. */
  function Wrap(t: string, c: nat, r: nat, w: nat): string
    requires c < r && w < r && Stays(t, c, r, w)
    decreases |t|
  {
    if t == [] then [] else
    match Plan(t, c, r)
    case Rest => t
    case Line(n) => if n == |t| then t else t[..n + 1] + Wrap(t[n + 1..], 0, r, w)
    case Fold(nl, next) => t[..nl] + Break(w) + Wrap(t[next..], w, r, w)
  }

  /** The column the loop remembers for the next call. */
  function EndCol(t: string, c: nat, r: nat, w: nat): (d: nat)
    requires c < r && w < r && Stays(t, c, r, w)
    ensures d < r
    decreases |t|
  {
    if t == [] then c else
    match Plan(t, c, r)
    case Rest => c + |t|
    case Line(n) => if n == |t| then 0 else EndCol(t[n + 1..], 0, r, w)
    case Fold(nl, next) => EndCol(t[next..], w, r, w)
  }

  /** Scanning `t` from column `c` after the output `head` leads to the output `goal`. */
  ghost predicate Leads(head: string, t: string, c: nat, r: nat, w: nat, goal: string, goalCol: nat) {
    && c < r && w < r && Stays(t, c, r, w)
    && head + Wrap(t, c, r, w) == goal && EndCol(t, c, r, w) == goalCol
  }

  /** What the first turn does depends on where the first line ends. */
  lemma LeadsOn(head: string, t: string, c: nat, r: nat, w: nat, goal: string, goalCol: nat)
    requires Leads(head, t, c, r, w, goal, goalCol) && t != []
    ensures Readable(t, c, r)
    ensures c + LineEnd(t) < r ==> Plan(t, c, r) == if LineEnd(t) == |t| then Rest else Line(LineEnd(t))
  {
    hide LineEnd;
  }

  lemma LeadsRest(head: string, t: string, c: nat, r: nat, w: nat, goal: string, goalCol: nat)
    requires Leads(head, t, c, r, w, goal, goalCol) && (t == [] || Plan(t, c, r) == Rest)
    ensures head + t == goal && goalCol == c + |t|
  {
    hide LineEnd;
  }

  lemma LeadsLine(head: string, t: string, c: nat, r: nat, w: nat, goal: string, goalCol: nat)
    requires Leads(head, t, c, r, w, goal, goalCol) && t != [] && Plan(t, c, r).Line?
    ensures var n := Plan(t, c, r).n;
      if n == |t| then head + t == goal && goalCol == 0
      else Leads(head + t[..n + 1], t[n + 1..], 0, r, w, goal, goalCol)
  {
    hide Plan;
    hide Readable;
    hide LineEnd;
    var n := Plan(t, c, r).n;
    if n < |t| {
      assert head + (t[..n + 1] + Wrap(t[n + 1..], 0, r, w)) == head + t[..n + 1] + Wrap(t[n + 1..], 0, r, w);
    }
  }

  lemma LeadsFold(head: string, t: string, c: nat, r: nat, w: nat, goal: string, goalCol: nat)
    requires Leads(head, t, c, r, w, goal, goalCol) && t != [] && Plan(t, c, r).Fold?
    ensures var s := Plan(t, c, r);
      Leads(head + t[..s.nl] + Break(w), t[s.next..], w, r, w, goal, goalCol)
  {
    hide Plan;
    hide Readable;
    hide LineEnd;
    var s := Plan(t, c, r);
    assert head + (t[..s.nl] + Break(w) + Wrap(t[s.next..], w, r, w))
        == head + t[..s.nl] + Break(w) + Wrap(t[s.next..], w, r, w);
  }

  // ---------- What the output should be ----------

  /** White space that a fold may replace: one separator, then blanks. */
  predicate Foldable(s: string) {
    s != [] && Separator(s[0]) && forall j :: 1 <= j < |s| ==> Blank(s[j])
  }

  /** `b` is `a` with some white space replaced by a line break and a `w`-column indent. */
  ghost predicate Refolds(a: string, b: string, w: nat)
    decreases |a|
  {
    || (a == [] && b == [])
    || (a != [] && b != [] && a[0] == b[0] && Refolds(a[1..], b[1..], w))
    || (exists k: nat :: RefoldsAt(a, b, w, k) && Refolds(a[k..], b[1 + w..], w))
  }

  ghost predicate RefoldsAt(a: string, b: string, w: nat, k: nat) {
    0 < k <= |a| && Foldable(a[..k]) && 1 + w <= |b| && b[..1 + w] == Break(w)
  }

  /** The column after printing `s` from column `c`. */
  function Column(s: string, c: nat): nat
    decreases |s|
  {
    if s == [] then c else Column(s[1..], if s[0] == '\n' then 0 else c + 1)
  }

  /** Printing `s` from column `c` never passes column `r`. */
  predicate Narrow(s: string, c: nat, r: nat)
    decreases |s|
  {
    c <= r && (s != [] ==> Narrow(s[1..], if s[0] == '\n' then 0 else c + 1, r))
  }

  /** The words of `s`, the first of them continuing `word`. */
  function WordsFrom(s: string, word: string): seq<string>
    decreases |s|
  {
    var done := if word == [] then [] else [word];
    if s == [] then done
    else if Separator(s[0]) then done + WordsFrom(s[1..], [])
    else WordsFrom(s[1..], word + [s[0]])
  }

  function Words(s: string): seq<string> {
    WordsFrom(s, [])
  }

  /** The number of characters of `s` that are not white space. */
  function Ink(s: string): nat {
    if s == [] then 0 else (if Separator(s[0]) then 0 else 1) + Ink(s[1..])
  }

  // ---------- Refolding ----------

  lemma {:induction false} RefoldsSelf(a: string, w: nat)
    ensures Refolds(a, a, w)
    decreases |a|
  {
    if a != [] {
      RefoldsSelf(a[1..], w);
    }
  }

  lemma RefoldsBreak(a: string, w: nat)
    requires Foldable(a)
    ensures Refolds(a, Break(w), w)
  {
    assert a[..|a|] == a;
    assert RefoldsAt(a, Break(w), w, |a|);
    assert a[|a|..] == [] && Break(w)[1 + w..] == [];
  }

  /** Refolding two texts and joining them is refolding the joined text. */
  lemma {:induction false} RefoldsAppend(a: string, a': string, b: string, b': string, w: nat)
    requires Refolds(a, a', w) && Refolds(b, b', w)
    ensures Refolds(a + b, a' + b', w)
    decreases |a|
  {
    hide Foldable;
    hide Break;
    if a == [] && a' == [] {
      assert a + b == b && a' + b' == b';
    } else if a != [] && a' != [] && a[0] == a'[0] && Refolds(a[1..], a'[1..], w) {
      RefoldsAppend(a[1..], a'[1..], b, b', w);
      assert (a + b)[1..] == a[1..] + b && (a' + b')[1..] == a'[1..] + b';
    } else {
      var k: nat :| RefoldsAt(a, a', w, k) && Refolds(a[k..], a'[1 + w..], w);
      RefoldsAppend(a[k..], a'[1 + w..], b, b', w);
      RefoldsAtMore(a, a', b, b', w, k);
    }
  }

  lemma RefoldsAtMore(a: string, a': string, b: string, b': string, w: nat, k: nat)
    requires RefoldsAt(a, a', w, k)
    ensures RefoldsAt(a + b, a' + b', w, k)
    ensures k <= |a| && 1 + w <= |a'| && (a + b)[k..] == a[k..] + b && (a' + b')[1 + w..] == a'[1 + w..] + b'
  {
    hide Break;
    hide Foldable;
    assert (a + b)[..k] == a[..k] && (a' + b')[..1 + w] == a'[..1 + w];
  }

  /** White space ends the word before it and separates it from the words after it. */
  lemma {:induction false} WordsAfterFoldable(s: string, t: string, word: string)
    requires Foldable(s)
    ensures WordsFrom(s + t, word) == (if word == [] then [] else [word]) + WordsFrom(t, [])
    decreases |s|
  {
    assert (s + t)[1..] == s[1..] + t;
    if |s| > 1 {
      WordsAfterFoldable(s[1..], t, []);
    } else {
      assert s[1..] + t == t;
    }
  }

  lemma {:induction false} RefoldsWordsFrom(a: string, b: string, w: nat, word: string)
    requires Refolds(a, b, w)
    ensures WordsFrom(a, word) == WordsFrom(b, word)
    decreases |a|
  {
    if a == [] && b == [] {
    } else if a != [] && b != [] && a[0] == b[0] && Refolds(a[1..], b[1..], w) {
      RefoldsWordsFrom(a[1..], b[1..], w, if Separator(a[0]) then [] else word + [a[0]]);
    } else {
      var k: nat :| RefoldsAt(a, b, w, k) && Refolds(a[k..], b[1 + w..], w);
      RefoldsWordsFrom(a[k..], b[1 + w..], w, []);
      assert a == a[..k] + a[k..] && b == Break(w) + b[1 + w..];
      WordsAfterFoldable(a[..k], a[k..], word);
      WordsAfterFoldable(Break(w), b[1 + w..], word);
    }
  }

  /** Refolding keeps the sequence of words. */
  lemma RefoldsWords(a: string, b: string, w: nat)
    requires Refolds(a, b, w)
    ensures Words(a) == Words(b)
  {
    RefoldsWordsFrom(a, b, w, []);
  }

  lemma {:induction false} InkAppend(a: string, b: string)
    ensures Ink(a + b) == Ink(a) + Ink(b)
    decreases |a|
  {
    if a == [] {
      assert a + b == b;
    } else {
      InkAppend(a[1..], b);
      assert (a + b)[1..] == a[1..] + b;
    }
  }

  lemma {:induction false} InkSeparators(s: string)
    requires forall j :: 0 <= j < |s| ==> Separator(s[j])
    ensures Ink(s) == 0
    decreases |s|
  {
    if s != [] {
      InkSeparators(s[1..]);
    }
  }

  lemma {:induction false} RefoldsInk(a: string, b: string, w: nat)
    requires Refolds(a, b, w)
    ensures Ink(a) == Ink(b)
    decreases |a|
  {
    if a == [] && b == [] {
    } else if a != [] && b != [] && a[0] == b[0] && Refolds(a[1..], b[1..], w) {
      RefoldsInk(a[1..], b[1..], w);
    } else {
      var k: nat :| RefoldsAt(a, b, w, k) && Refolds(a[k..], b[1 + w..], w);
      RefoldsInk(a[k..], b[1 + w..], w);
      assert a == a[..k] + a[k..] && b == Break(w) + b[1 + w..];
      InkAppend(a[..k], a[k..]);
      InkAppend(Break(w), b[1 + w..]);
      InkSeparators(a[..k]);
      InkSeparators(Break(w));
    }
  }

  // ---------- Conservation of words ----------

  /**
   The guard of the turn that loses text: a first word that ends in a newline exactly at
   the right margin, with a word character as the first character of the line after it.
   */
  predicate ExactFit(t: string, c: nat, r: nat)
    requires c < r
  {
    Unbroken(t, c, r) && c + LineEnd(t) == r && r - c + 1 < |t| && !Separator(t[r - c + 1])
  }

  /** Some turn meets an `ExactFit`. */
  predicate Swallows(t: string, c: nat, r: nat, w: nat)
    requires c < r && w < r && Stays(t, c, r, w)
    decreases |t|
  {
    t != [] &&
    (ExactFit(t, c, r) ||
     match Plan(t, c, r)
     case Rest => false
     case Line(n) => n < |t| && Swallows(t[n + 1..], 0, r, w)
     case Fold(nl, next) => Swallows(t[next..], w, r, w))
  }

  /** A fold replaces white space, except at an exact fit. */
  lemma FoldedIsFoldable(t: string, c: nat, r: nat)
    requires t != [] && c < r && Readable(t, c, r)
    requires Plan(t, c, r).Fold?
    ensures var s := Plan(t, c, r); Foldable(t[s.nl..s.next]) <==> !ExactFit(t, c, r)
    ensures var s := Plan(t, c, r); !Separator(t[s.nl]) <==> ExactFit(t, c, r)
  {
    var s := Plan(t, c, r);
    FoldIsLate(t, c, r);
    assert t[s.nl..s.next][0] == t[s.nl];
  }

  /** Refolding the white space in the middle of a text and the text after it. */
  lemma RefoldsAround(t: string, nl: nat, next: nat, rest: string, w: nat)
    requires nl < next <= |t| && Foldable(t[nl..next]) && Refolds(t[next..], rest, w)
    ensures Refolds(t, t[..nl] + Break(w) + rest, w)
  {
    RefoldsSelf(t[..nl], w);
    RefoldsBreak(t[nl..next], w);
    RefoldsAppend(t[..nl], t[..nl], t[nl..next], Break(w), w);
    RefoldsAppend(t[..nl] + t[nl..next], t[..nl] + Break(w), t[next..], rest, w);
    assert t == t[..nl] + t[nl..next] + t[next..];
  }

  lemma RefoldsAfter(t: string, n: nat, rest: string, w: nat)
    requires n <= |t| && Refolds(t[n..], rest, w)
    ensures Refolds(t, t[..n] + rest, w)
  {
    RefoldsSelf(t[..n], w);
    RefoldsAppend(t[..n], t[..n], t[n..], rest, w);
    assert t == t[..n] + t[n..];
  }

  lemma {:induction false} WrapRefolds(t: string, c: nat, r: nat, w: nat)
    requires c < r && w < r && Stays(t, c, r, w)
    requires !Swallows(t, c, r, w)
    ensures Refolds(t, Wrap(t, c, r, w), w)
    decreases |t|
  {
    if t != [] {
      match Plan(t, c, r) {
        case Rest =>
          RefoldsSelf(t, w);
        case Line(n) =>
          if n == |t| {
            RefoldsSelf(t, w);
          } else {
            WrapRefolds(t[n + 1..], 0, r, w);
            RefoldsAfter(t, n + 1, Wrap(t[n + 1..], 0, r, w), w);
          }
        case Fold(nl, next) =>
          FoldedIsFoldable(t, c, r);
          WrapRefolds(t[next..], w, r, w);
          RefoldsAround(t, nl, next, Wrap(t[next..], w, r, w), w);
      }
    }
  }

  lemma InkAfter(t: string, n: nat, rest: string)
    requires n <= |t|
    ensures Ink(t) == Ink(t[..n]) + Ink(t[n..])
    ensures Ink(t[..n] + rest) == Ink(t[..n]) + Ink(rest)
  {
    InkAppend(t[..n], rest);
    InkAppend(t[..n], t[n..]);
    assert t == t[..n] + t[n..];
  }

  lemma InkFolded(s: string)
    requires s != [] && forall j :: 1 <= j < |s| ==> Blank(s[j])
    ensures Ink(s) == if Separator(s[0]) then 0 else 1
  {
    InkSeparators(s[1..]);
  }

  lemma InkAround(t: string, nl: nat, next: nat, rest: string, w: nat)
    requires nl < next <= |t| && forall j :: nl < j < next ==> Blank(t[j])
    ensures Ink(t) == Ink(t[..nl]) + (if Separator(t[nl]) then 0 else 1) + Ink(t[next..])
    ensures Ink(t[..nl] + Break(w) + rest) == Ink(t[..nl]) + Ink(rest)
  {
    hide Ink;
    assert t == t[..nl] + t[nl..next] + t[next..];
    InkAppend(t[..nl] + t[nl..next], t[next..]);
    InkAppend(t[..nl], t[nl..next]);
    InkFolded(t[nl..next]);
    InkAppend(t[..nl] + Break(w), rest);
    InkAppend(t[..nl], Break(w));
    InkFolded(Break(w));
  }

  lemma {:induction false} WrapInk(t: string, c: nat, r: nat, w: nat)
    requires c < r && w < r && Stays(t, c, r, w)
    ensures Ink(Wrap(t, c, r, w)) <= Ink(t)
    ensures Swallows(t, c, r, w) ==> Ink(Wrap(t, c, r, w)) < Ink(t)
    decreases |t|
  {
    hide Ink;
    if t != [] {
      match Plan(t, c, r) {
        case Rest =>
          assert !ExactFit(t, c, r);
        case Line(n) =>
          assert !ExactFit(t, c, r);
          if n < |t| {
            WrapInk(t[n + 1..], 0, r, w);
            InkAfter(t, n + 1, Wrap(t[n + 1..], 0, r, w));
          }
        case Fold(nl, next) =>
          FoldedIsFoldable(t, c, r);
          FoldIsLate(t, c, r);
          WrapInk(t[next..], w, r, w);
          InkAround(t, nl, next, Wrap(t[next..], w, r, w), w);
      }
    }
  }

  /**
   The wrapped text is the text refolded exactly when no turn meets an exact fit; in
   particular the words are kept then and only then.
   */
  lemma WrapConserves(t: string, c: nat, r: nat, w: nat)
    requires c < r && w < r && Stays(t, c, r, w)
    ensures Refolds(t, Wrap(t, c, r, w), w) <==> !Swallows(t, c, r, w)
    ensures Words(Wrap(t, c, r, w)) == Words(t) <==> !Swallows(t, c, r, w)
  {
    WrapInk(t, c, r, w);
    if Swallows(t, c, r, w) {
      if Refolds(t, Wrap(t, c, r, w), w) {
        RefoldsInk(t, Wrap(t, c, r, w), w);
      }
      WordsInk(t, []);
      WordsInk(Wrap(t, c, r, w), []);
    } else {
      WrapRefolds(t, c, r, w);
      RefoldsWords(t, Wrap(t, c, r, w), w);
    }
  }

  /** The number of characters in a list of words. */
  function Letters(ws: seq<string>): nat {
    if ws == [] then 0 else |ws[0]| + Letters(ws[1..])
  }

  lemma {:induction false} WordsInk(s: string, word: string)
    ensures Letters(WordsFrom(s, word)) == |word| + Ink(s)
    decreases |s|
  {
    if s == [] {
      assert Letters([word]) == |word| + Letters([word][1..]);
    } else if Separator(s[0]) {
      WordsInk(s[1..], []);
      var rest := WordsFrom(s[1..], []);
      if word == [] {
        assert [] + rest == rest;
      } else {
        assert ([word] + rest)[1..] == rest;
      }
    } else {
      WordsInk(s[1..], word + [s[0]]);
    }
  }

  /** The loss is real: here the first letter of the second line disappears. */
  lemma ExactFitLosesALetter()
    ensures var t := "aa\nbc\n";
      Stays(t, 0, 2, 0) && Wrap(t, 0, 2, 0) == "aa\n\nc\n" && Swallows(t, 0, 2, 0)
  {
    var t, u := "aa\nbc\n", "c\n";
    assert LineEnd(t) == 2 by {
      assert t[1..] == "a\nbc\n" && t[1..][1..] == "\nbc\n";
    }
    assert LineEnd(u) == 1 by {
      assert u[1..] == "\n";
    }
    assert LastBlank(t, 2) == -1 by {
      assert LastBlank(t, 0) == -1;
    }
    assert WordEnd(t, 3, 2) == 3 && RunEnd(t, 4) == 4;
    assert Plan(t, 0, 2) == Fold(3, 4);
    assert t[4..] == u && t[..3] == "aa\n" && u[2..] == [];
    assert Plan(u, 0, 2) == Line(1);
    assert Wrap(u, 0, 2, 0) == u[..2] + [] == u;
    assert Break(0) == "\n";
  }

  // ---------- Width and column ----------

  lemma {:induction false} PrintedAppend(a: string, b: string, c: nat, r: nat)
    ensures Column(a + b, c) == Column(b, Column(a, c))
    ensures Narrow(a + b, c, r) <==> Narrow(a, c, r) && Narrow(b, Column(a, c), r)
    decreases |a|
  {
    if a == [] {
      assert a + b == b;
    } else {
      PrintedAppend(a[1..], b, if a[0] == '\n' then 0 else c + 1, r);
      assert (a + b)[1..] == a[1..] + b;
    }
  }

  lemma {:induction false} PrintedPlain(s: string, c: nat, r: nat)
    requires forall j :: 0 <= j < |s| ==> s[j] != '\n'
    ensures Column(s, c) == c + |s|
    ensures Narrow(s, c, r) <==> c + |s| <= r
    decreases |s|
  {
    if s != [] {
      PrintedPlain(s[1..], c + 1, r);
    }
  }

  /** A text cut at a position of its first line, or just after its newline. */
  lemma PrintedHead(t: string, n: nat, c: nat, r: nat)
    requires n <= |t| && n <= LineEnd(t) + 1
    ensures n <= LineEnd(t) ==> Column(t[..n], c) == c + n
    ensures n == LineEnd(t) + 1 ==> Column(t[..n], c) == 0
    ensures Narrow(t[..n], c, r) <==> c + (if n <= LineEnd(t) then n else LineEnd(t)) <= r
  {
    LineEndFirst(t);
    if n <= LineEnd(t) {
      PrintedPlain(t[..n], c, r);
    } else {
      var m := LineEnd(t);
      PrintedPlain(t[..m], c, r);
      PrintedAppend(t[..m], ['\n'], c, r);
      assert t[..n] == t[..m] + ['\n'];
    }
  }

  lemma PrintedBreak(w: nat, c: nat, r: nat)
    requires w <= r
    ensures Column(Break(w), c) == w
    ensures Narrow(Break(w), c, r) <==> c <= r
  {
    var s := seq(w, _ => ' ');
    PrintedPlain(s, 0, r);
    PrintedAppend(['\n'], s, c, r);
    assert ['\n'][1..] == [];
  }

  lemma PrintedNothing(c: nat, r: nat)
    ensures Column([], c) == c
    ensures Narrow([], c, r) <==> c <= r
  {
  }

  /** A text without a newline. */
  lemma PrintedWhole(t: string, c: nat, r: nat)
    requires LineEnd(t) == |t|
    ensures Column(t, c) == c + |t|
    ensures Narrow(t, c, r) <==> c + |t| <= r
  {
    LineEndFirst(t);
    PrintedPlain(t, c, r);
  }

  lemma PrintedLine(t: string, rest: string, c: nat, r: nat)
    requires LineEnd(t) < |t|
    ensures var s := t[..LineEnd(t) + 1] + rest;
      && Column(s, c) == Column(rest, 0)
      && (Narrow(s, c, r) <==> c + LineEnd(t) <= r && Narrow(rest, 0, r))
  {
    var n := LineEnd(t) + 1;
    PrintedHead(t, n, c, r);
    PrintedAppend(t[..n], rest, c, r);
  }

  lemma PrintedFold(t: string, nl: nat, rest: string, c: nat, r: nat, w: nat)
    requires nl <= |t| && nl <= LineEnd(t) + 1 && w <= r
    ensures var s := t[..nl] + Break(w) + rest;
      && Column(s, c) == Column(rest, w)
      && (Narrow(s, c, r) <==> c + (if nl <= LineEnd(t) then nl else LineEnd(t)) <= r && Narrow(rest, w, r))
  {
    PrintedHead(t, nl, c, r);
    PrintedBreak(w, Column(t[..nl], c), r);
    PrintedAppend(t[..nl], Break(w), c, r);
    PrintedAppend(t[..nl] + Break(w), rest, c, r);
  }

  /** Some turn meets a word that runs past the right margin. */
  predicate Overflows(t: string, c: nat, r: nat, w: nat)
    requires c < r && w < r && Stays(t, c, r, w)
    decreases |t|
  {
    t != [] &&
    ((Unbroken(t, c, r) && c + LineEnd(t) > r) ||
     match Plan(t, c, r)
     case Rest => false
     case Line(n) => n < |t| && Overflows(t[n + 1..], 0, r, w)
     case Fold(nl, next) => Overflows(t[next..], w, r, w))
  }

  /** The last turn meets such a word with no newline after it. */
  predicate LosesColumn(t: string, c: nat, r: nat, w: nat)
    requires c < r && w < r && Stays(t, c, r, w)
    decreases |t|
  {
    t != [] &&
    match Plan(t, c, r)
    case Rest => false
    case Line(n) => n == |t| || LosesColumn(t[n + 1..], 0, r, w)
    case Fold(nl, next) => LosesColumn(t[next..], w, r, w)
  }

  /** Where a turn cuts the text, in columns. */
  lemma PlanWidth(t: string, c: nat, r: nat)
    requires t != [] && c < r && Readable(t, c, r)
    ensures var s := Plan(t, c, r); var n := LineEnd(t);
      var overflow := Unbroken(t, c, r) && c + n > r;
      match s
      case Rest => n == |t| && c + n < r && !overflow
      case Line(m) => m == n && (c + n > r <==> overflow) && (n == |t| ==> overflow)
      case Fold(nl, next) => nl <= n + 1 && (c + (if nl <= n then nl else n) > r <==> overflow)
  {
  }

  /** How a turn that accepts a line carries the two laws below over to the text after it. */
  lemma {:induction false} WidthAfterLine(t: string, c: nat, r: nat, w: nat)
    requires t != [] && c < r && w < r && Stays(t, c, r, w)
    requires Plan(t, c, r).Line? && LineEnd(t) < |t|
    ensures var rest := t[LineEnd(t) + 1..]; var out := Wrap(rest, 0, r, w);
      && (Narrow(Wrap(t, c, r, w), c, r) <==> c + LineEnd(t) <= r && Narrow(out, 0, r))
      && (Overflows(t, c, r, w) <==> c + LineEnd(t) > r || Overflows(rest, 0, r, w))
      && Column(Wrap(t, c, r, w), c) == Column(out, 0)
      && EndCol(t, c, r, w) == EndCol(rest, 0, r, w)
      && LosesColumn(t, c, r, w) == LosesColumn(rest, 0, r, w)
  {
    hide Narrow;
    hide Column;
    hide Plan;
    hide Readable;
    hide LineEnd;
    PlanWidth(t, c, r);
    PrintedLine(t, Wrap(t[LineEnd(t) + 1..], 0, r, w), c, r);
  }

  /** The same for a turn that folds. */
  lemma {:induction false} WidthAfterFold(t: string, c: nat, r: nat, w: nat)
    requires t != [] && c < r && w < r && Stays(t, c, r, w)
    requires Plan(t, c, r).Fold?
    ensures var rest := t[Plan(t, c, r).next..]; var out := Wrap(rest, w, r, w);
      var overflow := Unbroken(t, c, r) && c + LineEnd(t) > r;
      && (Narrow(Wrap(t, c, r, w), c, r) <==> !overflow && Narrow(out, w, r))
      && (Overflows(t, c, r, w) <==> overflow || Overflows(rest, w, r, w))
      && Column(Wrap(t, c, r, w), c) == Column(out, w)
      && EndCol(t, c, r, w) == EndCol(rest, w, r, w)
      && LosesColumn(t, c, r, w) == LosesColumn(rest, w, r, w)
  {
    hide Narrow;
    hide Column;
    hide Plan;
    hide Readable;
    hide LineEnd;
    PlanWidth(t, c, r);
    var s := Plan(t, c, r);
    PrintedFold(t, s.nl, Wrap(t[s.next..], w, r, w), c, r, w);
  }

  /** The two laws for a text that ends with this turn. */
  lemma WidthAtEnd(t: string, c: nat, r: nat, w: nat)
    requires c < r && w < r && Stays(t, c, r, w)
    requires t == [] || Plan(t, c, r).Rest? || (Plan(t, c, r).Line? && LineEnd(t) == |t|)
    ensures Narrow(Wrap(t, c, r, w), c, r) <==> !Overflows(t, c, r, w)
    ensures EndCol(t, c, r, w) == Column(Wrap(t, c, r, w), c) <==> !LosesColumn(t, c, r, w)
  {
    if t != [] {
      PlanWidth(t, c, r);
      PrintedWhole(t, c, r);
    }
  }

  /**
   No line of the wrapped text is wider than the right margin exactly when no turn meets a
   word running past it, and the remembered column is the true one exactly when the last
   turn does not stop inside such a word.
   */
  lemma {:induction false} WrapWidth(t: string, c: nat, r: nat, w: nat)
    requires c < r && w < r && Stays(t, c, r, w)
    ensures Narrow(Wrap(t, c, r, w), c, r) <==> !Overflows(t, c, r, w)
    ensures EndCol(t, c, r, w) == Column(Wrap(t, c, r, w), c) <==> !LosesColumn(t, c, r, w)
    decreases |t|
  {
    hide Narrow;
    hide Column;
    hide Wrap;
    hide EndCol;
    hide Overflows;
    hide LosesColumn;
    if t == [] || Plan(t, c, r).Rest? || (Plan(t, c, r).Line? && LineEnd(t) == |t|) {
      WidthAtEnd(t, c, r, w);
    } else {
      match Plan(t, c, r) {
        case Line(n) =>
          WrapWidth(t[n + 1..], 0, r, w);
          PlanWidth(t, c, r);
          WidthAfterLine(t, c, r, w);
        case Fold(nl, next) =>
          WrapWidth(t[next..], w, r, w);
          WidthAfterFold(t, c, r, w);
      }
    }
  }

  // ---------- Text whose words fit ----------

  predicate Terminated(t: string) {
    t == [] || t[|t| - 1] == '\n'
  }

  lemma {:induction false} WordsSplit(a: string, sep: char, b: string, word: string)
    requires Separator(sep)
    ensures WordsFrom(a + [sep] + b, word) == WordsFrom(a, word) + WordsFrom(b, [])
    decreases |a|
  {
    var s := a + [sep] + b;
    if a == [] {
      assert s[1..] == b;
    } else {
      assert s[1..] == a[1..] + [sep] + b;
      WordsSplit(a[1..], sep, b, if Separator(a[0]) then [] else word + [a[0]]);
    }
  }

  /** The words after a separator are words of the whole text. */
  lemma WordsOfSuffix(t: string, k: nat, m: nat)
    requires k < |t| && Separator(t[k])
    requires forall x :: x in Words(t) ==> |x| < m
    ensures forall x :: x in Words(t[k + 1..]) ==> |x| < m
  {
    WordsSplit(t[..k], t[k], t[k + 1..], []);
    assert t == t[..k] + [t[k]] + t[k + 1..];
  }

  /** A text that starts with `q` word characters has a word of at least that length. */
  lemma {:induction false} LeadingWord(t: string, q: nat, word: string)
    requires q <= |t| && forall j :: 0 <= j < q ==> !Separator(t[j])
    requires word != [] || q > 0
    ensures exists x :: x in WordsFrom(t, word) && |x| >= |word| + q
    decreases |t|
  {
    if q > 0 {
      LeadingWord(t[1..], q - 1, word + [t[0]]);
    } else if t == [] {
      assert WordsFrom(t, word)[0] == word;
    } else if Separator(t[0]) {
      assert WordsFrom(t, word)[0] == word;
    } else {
      LeadingWord(t[1..], 0, word + [t[0]]);
    }
  }

  lemma NotUnbroken(t: string, c: nat, r: nat, w: nat)
    requires c < r && w < r && c <= w
    requires forall x :: x in Words(t) ==> |x| < r - w
    ensures !Unbroken(t, c, r)
  {
    if Unbroken(t, c, r) {
      LineEndFirst(t);
      LastBlankLast(t, r - c);
      LeadingWord(t, r - c, []);
    }
  }

  /**
   For complete lines the scan of a turn stays inside the text, unless a word fits exactly and at
   most one character follows its newline.
   */
  lemma ReadableExact(t: string, c: nat, r: nat)
    requires t != [] && c < r && Terminated(t)
    ensures Readable(t, c, r) <==> !(Unbroken(t, c, r) && c + LineEnd(t) == r && |t| <= r - c + 2)
  {
    hide LineEnd;
    hide LastBlank;
    hide RunEnd;
    hide WordEnd;
    hide Terminated;
    NewlineInside(t);
    if c + LineEnd(t) >= r {
      if !Unbroken(t, c, r) {
        BreakInside(t, r - c);
      } else if c + LineEnd(t) > r {
        BlankEndsWord(t, r - c + 1);
      } else {
        ExactFitInside(t, c, r);
      }
    }
  }

  lemma {:induction false} ExactFitInside(t: string, c: nat, r: nat)
    requires t != [] && c < r && Terminated(t) && LineEnd(t) < |t|
    requires Unbroken(t, c, r) && c + LineEnd(t) == r
    ensures var e := WordEnd(t, r - c + 1, LineEnd(t));
      && e == LineEnd(t) + 1
      && (e + 1 <= |t| && RunEnd(t, e + 1) < |t| <==> |t| > r - c + 2)
  {
    hide LastBlank;
    hide LineEnd;
    hide WordEnd;
    var n := LineEnd(t);
    if n + 2 < |t| {
      LastNotBlank(t, n + 2);
    } else {
      RunEndsLast(t);
    }
  }

  lemma {:induction false} NewlineInside(t: string)
    requires t != [] && Terminated(t)
    ensures LineEnd(t) < |t|
  {
    LineEndFirst(t);
  }

  /** Complete lines do not end in a blank. */
  lemma {:induction false} LastNotBlank(t: string, k: nat)
    requires t != [] && Terminated(t) && k < |t|
    ensures RunEnd(t, k) < |t|
  {
    RunEndBlank(t, k);
  }

  lemma {:induction false} RunEndsLast(t: string)
    ensures RunEnd(t, |t|) == |t|
  {
  }

  lemma {:induction false} BreakInside(t: string, k: nat)
    requires t != [] && Terminated(t) && k < |t|
    ensures LastBlank(t, k) + 1 < |t|
  {
  }

  /** A blank that ends a word of a line is followed by more of the text. */
  lemma {:induction false} BlankEndsWord(t: string, k: nat)
    requires t != [] && Terminated(t) && k <= LineEnd(t) < |t|
    ensures var e := WordEnd(t, k, LineEnd(t));
      e == LineEnd(t) || (e + 1 < |t| && RunEnd(t, e + 1) < |t|)
  {
    var e := WordEnd(t, k, LineEnd(t));
    if e < LineEnd(t) {
      LastNotBlank(t, e + 1);
    }
  }

  /** Some turn meets such a word: it fits exactly in the last line, or an empty line alone follows it. */
  predicate FitsLast(t: string, c: nat, r: nat, w: nat)
    requires c < r && w < r && Terminated(t)
    decreases |t|
  {
    t != [] &&
    ((Unbroken(t, c, r) && c + LineEnd(t) == r && |t| <= r - c + 2) ||
     (ReadableExact(t, c, r);
      match Plan(t, c, r)
      case Rest => false
      case Line(n) => n < |t| && FitsLast(t[n + 1..], 0, r, w)
      case Fold(nl, next) => FitsLast(t[next..], w, r, w)))
  }

  /** The texts of complete lines that the functions of this module speak about, exactly. */
  lemma {:induction false} StaysExact(t: string, c: nat, r: nat, w: nat)
    requires c < r && w < r && Terminated(t)
    ensures Stays(t, c, r, w) <==> !FitsLast(t, c, r, w)
    decreases |t|
  {
    hide Readable;
    hide Unbroken;
    hide LineEnd;
    hide Plan;
    if t != [] {
      ReadableExact(t, c, r);
      if Readable(t, c, r) {
        match Plan(t, c, r) {
          case Rest =>
          case Line(n) =>
            if n < |t| {
              StaysExact(t[n + 1..], 0, r, w);
            }
          case Fold(nl, next) =>
            StaysExact(t[next..], w, r, w);
        }
      }
    }
  }

  /** Such a text, for which the scan would look at what lies behind it. */
  lemma LastWordFitsExactly()
    ensures var t := "aa\n"; Terminated(t) && !Readable(t, 0, 2) && !Stays(t, 0, 2, 0)
  {
    var t := "aa\n";
    assert LineEnd(t) == 2 by {
      assert t[1..] == "a\n" && t[1..][1..] == "\n";
    }
    assert LastBlank(t, 2) == -1 by {
      assert LastBlank(t, 0) == -1;
    }
    assert WordEnd(t, 3, 2) == 3;
  }

  /** What a turn does with complete lines of short words. */
  lemma ShortWordsPlan(t: string, c: nat, r: nat, w: nat)
    requires c < r && w < r && c <= w && t != []
    requires Terminated(t) && forall x :: x in Words(t) ==> |x| < r - w
    ensures !Unbroken(t, c, r) && !ExactFit(t, c, r) && Readable(t, c, r) && !Plan(t, c, r).Rest?
    ensures var s := Plan(t, c, r);
      var k := if s.Line? then s.n + 1 else s.next;
      && k <= |t| && (s.Fold? ==> k < |t|) && Terminated(t[k..])
      && forall x :: x in Words(t[k..]) ==> |x| < r - w
  {
    NotUnbroken(t, c, r, w);
    var n := LineEnd(t);
    LineEndFirst(t);
    assert t[|t| - 1] == '\n';
    if c + n < r {
      WordsOfSuffix(t, n, r - w);
    } else {
      WordsOfSuffix(t, LastBlank(t, r - c), r - w);
    }
  }

  lemma {:induction false} ShortWordsStay(t: string, c: nat, r: nat, w: nat)
    requires c < r && w < r && c <= w
    requires Terminated(t) && forall x :: x in Words(t) ==> |x| < r - w
    ensures Stays(t, c, r, w) && !Swallows(t, c, r, w)
    decreases |t|
  {
    if t != [] {
      ShortWordsPlan(t, c, r, w);
      match Plan(t, c, r) {
        case Line(n) => ShortWordsStay(t[n + 1..], 0, r, w);
        case Fold(nl, next) => ShortWordsStay(t[next..], w, r, w);
      }
    }
  }

  lemma {:induction false} ShortWordsFit(t: string, c: nat, r: nat, w: nat)
    requires c < r && w < r && c <= w
    requires Terminated(t) && forall x :: x in Words(t) ==> |x| < r - w
    requires Stays(t, c, r, w)
    ensures !Overflows(t, c, r, w) && EndCol(t, c, r, w) == if t == [] then c else 0
    decreases |t|
  {
    if t != [] {
      ShortWordsPlan(t, c, r, w);
      match Plan(t, c, r) {
        case Line(n) => ShortWordsFit(t[n + 1..], 0, r, w);
        case Fold(nl, next) => ShortWordsFit(t[next..], w, r, w);
      }
    }
  }

  /**
   The promise of the stream: complete lines that start at a line start and whose words are
   shorter than the space between the wrap margin and the right margin come out refolded,
   with the same words, and with no line wider than the right margin.
   */
  lemma WordWrap(t: string, r: nat, w: nat)
    requires w < r
    requires Terminated(t) && forall x :: x in Words(t) ==> |x| < r - w
    ensures Stays(t, 0, r, w) && EndCol(t, 0, r, w) == 0
    ensures Refolds(t, Wrap(t, 0, r, w), w)
    ensures Words(Wrap(t, 0, r, w)) == Words(t)
    ensures Narrow(Wrap(t, 0, r, w), 0, r)
  {
    ShortWordsStay(t, 0, r, w);
    ShortWordsFit(t, 0, r, w);
    WrapConserves(t, 0, r, w);
    WrapWidth(t, 0, r, w);
  }

  // ---------- Text whose lines fit ----------

  lemma {:induction false} NarrowLine(t: string, c: nat, m: nat)
    requires Narrow(t, c, m)
    ensures c + LineEnd(t) <= m
    ensures LineEnd(t) < |t| ==> Narrow(t[LineEnd(t) + 1..], 0, m)
    decreases |t|
  {
    if t != [] && t[0] != '\n' {
      NarrowLine(t[1..], c + 1, m);
      if LineEnd(t) < |t| {
        assert t[LineEnd(t) + 1..] == t[1..][LineEnd(t[1..]) + 1..];
      }
    }
  }

  /** Text all of whose lines are shorter than the right margin is left alone. */
  lemma {:induction false} ShortLinesUntouched(t: string, c: nat, r: nat, w: nat)
    requires c < r && w < r && Narrow(t, c, r - 1)
    ensures Stays(t, c, r, w) && Wrap(t, c, r, w) == t
    ensures EndCol(t, c, r, w) == Column(t, c) && !Swallows(t, c, r, w)
    decreases |t|
  {
    hide Column;
    hide Narrow;
    if t == [] {
      PrintedNothing(c, r);
    } else {
      var n := LineEnd(t);
      NarrowLine(t, c, r - 1);
      if n == |t| {
        PrintedWhole(t, c, r);
      } else {
        ShortLinesUntouched(t[n + 1..], 0, r, w);
        PrintedLine(t, t[n + 1..], c, r);
        assert t == t[..n + 1] + t[n + 1..];
      }
    }
  }
}
