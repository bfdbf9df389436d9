/**
 The word-wrapping output stream of argp/argp-fmtstream.c and argp/argp-fmtstream.h, with
 its buffer, its cursors and the text that has already left for the underlying file.  The
 left margin is 0 and the wrap margin is not negative.

 `Settled()` is the output that will not change any more, `Pending()` the text that has been
 buffered since the last scan.  `input` records, for specification only, the text that was
 handed in and has been scanned; `intact` that no scan has met an exact fit (see `Wrapping`).
 */
module FmtStreams {
  import opened Wrapping

  const INIT_BUF_SIZE := 200

  /** The effect of memmove within one buffer. */
  method Move(a: array<char>, dst: nat, src: nat, n: nat)
    requires src + n <= a.Length && dst + n <= a.Length
    modifies a
    ensures a[..] == old(a[..dst]) + old(a[src..src + n]) + old(a[dst + n..])
  {
    forall i | 0 <= i < n {
      a[dst + i] := a[src + i];
    }
  }

  /** The effect of the loop that writes `n` spaces at `at`. */
  method Fill(a: array<char>, at: nat, n: nat)
    requires at + n <= a.Length
    modifies a
    ensures a[..] == old(a[..at]) + seq(n, _ => ' ') + old(a[at + n..])
  {
    forall i | 0 <= i < n {
      a[at + i] := ' ';
    }
  }

  /** The effect of memcpy from a text. */
  method Copy(a: array<char>, at: nat, s: string)
    requires at + |s| <= a.Length
    modifies a
    ensures a[..] == old(a[..at]) + s + old(a[at + |s|..])
  {
    forall i | 0 <= i < |s| {
      a[at + i] := s[i];
    }
  }

  class FmtStream {
    const rmargin: nat
    const wmargin: nat
    var stream: string
    var buf: array<char>
    var p: nat
    var pointOffs: nat
    var pointCol: int
    ghost var input: string
    ghost var intact: bool

    ghost predicate Shape()
      reads this
    {
      wmargin < rmargin && pointOffs <= p <= buf.Length && 0 <= pointCol < rmargin
    }

    ghost function View(): string
      reads this, buf
      requires Shape()
    {
      stream + buf[..p]
    }

    ghost function Settled(): string
      reads this, buf
      requires Shape()
    {
      stream + buf[..pointOffs]
    }

    ghost function Pending(): string
      reads this, buf
      requires Shape()
    {
      buf[pointOffs..p]
    }

    /** All the text handed to the stream so far. */
    ghost function Written(): string
      reads this, buf
      requires Shape()
    {
      input + Pending()
    }

    /** A scan of the pending text would stay within it. */
    ghost predicate CanScan()
      reads this, buf
      requires Shape()
    {
      Stays(Pending(), pointCol, rmargin, wmargin)
    }

    /**
     What holds between any two calls, whatever was written and wherever the buffer was
     flushed: the settled output is the scanned input refolded, unless an exact fit was met,
     and it is that input itself, with the column to match, as long as its lines are short.
     */
    ghost predicate Valid()
      reads this, buf
    {
      && Shape()
      && (intact ==> Refolds(input, Settled(), wmargin))
      && (Narrow(input, 0, rmargin - 1) ==> Settled() == input && pointCol == Column(input, 0))
    }

    constructor (rmargin: nat, wmargin: nat)
      requires wmargin < rmargin
      ensures Valid() && intact && Written() == "" && View() == ""
      ensures this.rmargin == rmargin && this.wmargin == wmargin
      ensures fresh(buf)
    {
      this.rmargin := rmargin;
      this.wmargin := wmargin;
      stream := "";
      pointCol := 0;
      pointOffs := 0;
      buf := new char[INIT_BUF_SIZE];
      p := 0;
      input := "";
      intact := true;
    }

    /** The position of the first newline from `b` on, or the end of the text. */
    method FindNewline(b: nat) returns (nl: nat)
      requires b <= p <= buf.Length
      ensures b <= nl <= p && nl == b + LineEnd(buf[b..p])
    {
      nl := b;
      while nl < p && buf[nl] != '\n'
        invariant b <= nl <= p
        invariant LineEnd(buf[b..p]) == nl - b + LineEnd(buf[nl..p])
      {
        assert buf[nl..p][1..] == buf[nl + 1..p];
        nl := nl + 1;
      }
    }

    /** Scan back from `q` for a blank; the result is below `b` when there is none. */
    method ScanBack(b: nat, q: nat) returns (i: int)
      requires b <= q < p <= buf.Length
      ensures b - 1 <= i <= q && i - b == LastBlank(buf[b..p], q - b)
    {
      ghost var t := buf[b..p];
      i := q;
      while i >= b && !Blank(buf[i])
        invariant b - 1 <= i <= q
        invariant LastBlank(t, q - b) == LastBlank(t, i - b)
      {
        assert buf[i] == t[i - b];
        i := i - 1;
      }
      assert i >= b ==> buf[i] == t[i - b];
    }

    /** The first blank of the run of blanks that ends at `k`. */
    method SwallowBack(b: nat, k: nat) returns (nl: nat)
      requires b <= k < p <= buf.Length && Blank(buf[b..p][k - b])
      ensures b <= nl <= k && nl - b == RunStart(buf[b..p], k - b)
    {
      ghost var t := buf[b..p];
      var i: int := k - 1;
      while i >= b && Blank(buf[i])
        invariant b - 1 <= i < k
        invariant Blank(t[i + 1 - b]) && RunStart(t, k - b) == RunStart(t, i + 1 - b)
      {
        assert buf[i] == t[i - b];
        i := i - 1;
      }
      assert i >= b ==> buf[i] == t[i - b];
      nl := i + 1;
    }

    /** The end of the word that runs past `q`, found without looking at `q` itself. */
    method ScanWord(b: nat, q: nat, end: nat) returns (i: nat)
      requires b <= q <= end <= p <= buf.Length
      ensures b <= i && i - b == WordEnd(buf[b..p], q + 1 - b, end - b)
    {
      ghost var t := buf[b..p];
      i := q + 1;
      while i < end && !Blank(buf[i])
        invariant q + 1 <= i
        invariant WordEnd(t, q + 1 - b, end - b) == WordEnd(t, i - b, end - b)
      {
        assert buf[i] == t[i - b];
        i := i + 1;
      }
      assert i < end ==> buf[i] == t[i - b];
    }

    /** The first character after the blank at `nl` that is not a blank. */
    method SkipBlanks(b: nat, nl: nat) returns (i: nat)
      requires b <= nl < p <= buf.Length && RunEnd(buf[b..p], nl + 1 - b) < p - b
      ensures nl < i < p && i - b == RunEnd(buf[b..p], nl + 1 - b)
    {
      ghost var t := buf[b..p];
      i := nl + 1;
      while Blank(buf[i])
        invariant nl < i < p
        invariant RunEnd(t, nl + 1 - b) == RunEnd(t, i - b)
        decreases p - i
      {
        assert buf[i] == t[i - b];
        i := i + 1;
      }
      assert buf[i] == t[i - b];
    }

    /**
     Where to break a line that is too long: at the white space before the right margin, or
     after the word there when the line has no white space before it.
     */
    method FindBreak(b: nat, end: nat) returns (fold: bool, nl: nat, nextline: nat)
      requires b < p <= buf.Length && 0 <= pointCol < rmargin
      requires end == b + LineEnd(buf[b..p]) && pointCol + (end - b) >= rmargin
      requires Readable(buf[b..p], pointCol, rmargin)
      ensures var s := Plan(buf[b..p], pointCol, rmargin);
        if fold then s.Fold? && nl == b + s.nl && nextline == b + s.next else s == Line(end - b)
    {
      hide LineEnd;
      hide LastBlank;
      hide RunStart;
      hide WordEnd;
      hide RunEnd;
      var q := b + (rmargin - pointCol);
      var k := ScanBack(b, q);
      nextline := k + 1;
      if nextline > b {
        nl := SwallowBack(b, k);
        fold := true;
      } else {
        var i := ScanWord(b, q, end);
        if i == end {
          fold, nl := false, end;
        } else {
          nl := i;
          nextline := SkipBlanks(b, nl);
          fold := true;
        }
      }
    }

    /**
     Put the line break at `nl`.  When the white space it replaces is too short for the
     margin, move the text after it up to make room, or write out the finished lines so that
     their room can be used.  The text of the next line then lies between `next` and `end`.
     */
    method BreakLine(nl: nat, nextline: nat) returns (at: nat, next: nat, end: nat)
      requires nl < nextline < p <= buf.Length
      modifies this`stream, buf
      ensures at <= next <= end <= buf.Length && (at == 0 || next - at >= wmargin)
      ensures stream + buf[..at] == old(stream) + old(buf[..nl]) + ['\n']
      ensures buf[next..end] == old(buf[nextline..p])
    {
      at, next, end := nl, nextline, p;
      if nextline - (nl + 1) < wmargin && p > nextline {
        if buf.Length - p > wmargin + 1 {
          var mv := p - nextline;
          Move(buf, nl + 1 + wmargin, nextline, mv);
          next := nl + 1 + wmargin;
          end := next + mv;
          assert buf[next..end] == old(buf[nextline..p]);
          buf[at] := '\n';
          at := at + 1;
        } else {
          stream := stream + buf[..nl] + ['\n'];
          at := 0;
        }
      } else {
        buf[at] := '\n';
        at := at + 1;
      }
    }

    /** Add blanks up to the wrap margin at `at`, or to the stream when `at` has no room for them. */
    method IndentLine(at: nat, next: nat) returns (b: nat)
      requires at <= next <= buf.Length && (at == 0 || next - at >= wmargin)
      modifies this`stream, buf
      ensures b <= next && buf[next..] == old(buf[next..])
      ensures stream + buf[..b] == old(stream) + old(buf[..at]) + seq(wmargin, _ => ' ')
    {
      if next - at >= wmargin {
        Fill(buf, at, wmargin);
        b := at + wmargin;
        assert buf[..b] == old(buf[..at]) + seq(wmargin, _ => ' ');
      } else {
        stream := stream + seq(wmargin, _ => ' ');
        b := 0;
      }
    }

    /** Copy the text between `next` and `end` down to `b`. */
    method CloseUp(b: nat, next: nat, end: nat)
      requires b <= next <= end <= buf.Length
      modifies this`p, buf
      ensures b <= p <= buf.Length && buf[..b] == old(buf[..b]) && buf[b..p] == old(buf[next..end])
    {
      if b < next {
        Move(buf, b, next, end - next);
      }
      p := b + (end - next);
    }

    /** Put a line break and an indent in place of the white space between `nl` and `nextline`. */
    method FoldAt(nl: nat, nextline: nat) returns (b: nat)
      requires nl < nextline < p <= buf.Length
      modifies this`stream, this`p, buf
      ensures b <= p <= buf.Length
      ensures stream + buf[..b] == old(stream) + old(buf[..nl]) + Break(wmargin)
      ensures buf[b..p] == old(buf[nextline..p])
    {
      var at, next, end := BreakLine(nl, nextline);
      ghost var text := buf[next..];
      assert buf[next..end] == text[..end - next];
      b := IndentLine(at, next);
      assert buf[next..] == text && buf[next..end] == text[..end - next];
      CloseUp(b, next, end);
    }

    /** The text from `b` on is still to be scanned, and scanning it leads to `goal` and `goalCol`. */
    ghost predicate Scanning(b: nat, goal: string, goalCol: nat)
      reads this, buf
    {
      && b <= p <= buf.Length && (pointCol == -1 ==> b < p)
      && (pointCol == -1 || pointCol >= 0)
      && Leads(stream + buf[..b], buf[b..p], if pointCol < 0 then 0 else pointCol, rmargin, wmargin, goal, goalCol)
    }

    ghost predicate Scanned(goal: string, goalCol: nat)
      reads this, buf
    {
      p <= buf.Length && stream + buf[..p] == goal && pointCol == goalCol
    }

    /** Fold the line that starts at `b` (see `Wrapping.Step`). */
    method FoldLine(b: nat, nl: nat, nextline: nat, ghost goal: string, ghost goalCol: nat) returns (b': nat)
      requires Scanning(b, goal, goalCol) && b < p && pointCol >= 0
      requires b <= nl && b <= nextline && Plan(buf[b..p], pointCol, rmargin) == Fold(nl - b, nextline - b)
      modifies this`stream, this`p, this`pointCol, buf
      ensures Scanning(b', goal, goalCol) && p - b' < old(p - b)
    {
      hide Plan;
      hide Readable;
      hide LineEnd;
      hide Stays;
      hide Wrap;
      hide EndCol;
      ghost var head, t := stream + buf[..b], buf[b..p];
      LeadsFold(head, t, pointCol, rmargin, wmargin, goal, goalCol);
      assert t[nextline - b..] == buf[nextline..p];
      assert head + t[..nl - b] == stream + buf[..nl];
      b' := FoldAt(nl, nextline);
      pointCol := if wmargin > 0 then wmargin else -1;
    }

    /** Accepting a line leads to the same goal. */
    lemma TakeLine(b: nat, nl: nat, goal: string, goalCol: nat)
      requires Scanning(b, goal, goalCol) && b <= nl && b < p && pointCol >= 0
      requires Plan(buf[b..p], pointCol, rmargin) == Line(nl - b)
      ensures nl <= p
      ensures nl == p ==> stream + buf[..p] == goal && goalCol == 0
      ensures nl < p ==> Leads(stream + buf[..nl + 1], buf[nl + 1..p], 0, rmargin, wmargin, goal, goalCol)
    {
      hide Plan;
      hide Readable;
      hide LineEnd;
      hide Stays;
      hide Wrap;
      hide EndCol;
      var head, t := stream + buf[..b], buf[b..p];
      LeadsLine(head, t, pointCol, rmargin, wmargin, goal, goalCol);
      if nl == p {
        assert head + t == stream + buf[..p];
      } else {
        assert t[nl - b + 1..] == buf[nl + 1..p];
        assert head + t[..nl - b + 1] == stream + buf[..nl + 1];
      }
    }

    /** One turn of the loop; the unscanned text gets shorter. */
    method Turn(b: nat, ghost goal: string, ghost goalCol: nat) returns (b': nat, more: bool)
      requires Scanning(b, goal, goalCol) && b < p
      modifies this`stream, this`p, this`pointCol, buf
      ensures more ==> Scanning(b', goal, goalCol) && p - b' < old(p - b)
      ensures !more ==> Scanned(goal, goalCol)
    {
      hide Plan;
      hide Readable;
      hide LineEnd;
      hide Stays;
      hide Wrap;
      hide EndCol;
      var len := p - b;
      var nl := FindNewline(b);
      if pointCol < 0 {
        pointCol := 0;
      }
      LeadsOn(stream + buf[..b], buf[b..p], pointCol, rmargin, wmargin, goal, goalCol);
      b', more := nl + 1, nl < p;
      if nl == p && pointCol + len < rmargin {
        // a partial line that fits
        LeadsRest(stream + buf[..b], buf[b..p], pointCol, rmargin, wmargin, goal, goalCol);
        assert stream + buf[..b] + buf[b..p] == stream + buf[..p];
        pointCol := pointCol + len;
      } else if nl < p && pointCol + (nl - b) < rmargin {
        // a full line that fits
        TakeLine(b, nl, goal, goalCol);
        pointCol := 0;
      } else {
        var fold, at, nextline := FindBreak(b, nl);
        if fold {
          b' := FoldLine(b, at, nextline, goal, goalCol);
          more := true;
        } else {
          // an overlong word already ends its line
          TakeLine(b, nl, goal, goalCol);
          pointCol := 0;
        }
      }
    }

    /** Wrap the pending text. */
    method Update()
      requires Valid() && CanScan()
      modifies this, buf
      ensures Valid() && buf == old(buf) && pointOffs == p
      ensures View() == old(Settled()) + old(Wrap(Pending(), pointCol, rmargin, wmargin))
      ensures pointCol == old(EndCol(Pending(), pointCol, rmargin, wmargin))
      ensures Written() == old(Written())
      ensures intact == (old(intact) && !old(Swallows(Pending(), pointCol, rmargin, wmargin)))
    {
      hide Plan;
      hide Readable;
      hide LineEnd;
      hide Stays;
      hide Wrap;
      hide EndCol;
      hide Refolds;
      hide Narrow;
      hide Column;
      hide Swallows;
      ghost var t, c, settled := Pending(), pointCol, Settled();
      ghost var goal, goalCol := settled + Wrap(t, c, rmargin, wmargin), EndCol(t, c, rmargin, wmargin);
      var b: nat, more := pointOffs, true;
      while more && b < p
        invariant buf == old(buf) && input == old(input) && intact == old(intact)
        invariant more ==> Scanning(b, goal, goalCol)
        invariant !more ==> Scanned(goal, goalCol)
        decreases more, p - b
      {
        b, more := Turn(b, goal, goalCol);
      }
      if more {
        LeadsRest(stream + buf[..b], buf[b..p], pointCol, rmargin, wmargin, goal, goalCol);
      }
      HistoryAfterScan(input, settled, t, c);
      pointOffs := p;
      assert Settled() == goal;
      assert pointCol == goalCol < rmargin;
      intact := intact && !Swallows(t, c, rmargin, wmargin);
      input := input + t;
      assert input + buf[pointOffs..p] == input;
    }

    /** What a scan does to the two promises of `Valid`. */
    lemma HistoryAfterScan(input: string, settled: string, t: string, c: nat)
      requires wmargin < rmargin && c < rmargin && Stays(t, c, rmargin, wmargin)
      ensures var out := Wrap(t, c, rmargin, wmargin);
        && (Refolds(input, settled, wmargin) && !Swallows(t, c, rmargin, wmargin)
            ==> Refolds(input + t, settled + out, wmargin))
        && (settled == input && c == Column(input, 0) && Narrow(input + t, 0, rmargin - 1)
            ==> out == t && EndCol(t, c, rmargin, wmargin) == Column(input + t, 0))
        && (Narrow(input + t, 0, rmargin - 1) ==> Narrow(input, 0, rmargin - 1))
    {
      hide *;
      var out := Wrap(t, c, rmargin, wmargin);
      if Refolds(input, settled, wmargin) && !Swallows(t, c, rmargin, wmargin) {
        WrapConserves(t, c, rmargin, wmargin);
        RefoldsAppend(input, settled, t, out, wmargin);
      }
      if Narrow(input + t, 0, rmargin - 1) {
        PrintedAppend(input, t, 0, rmargin - 1);
        if settled == input && c == Column(input, 0) {
          ShortLinesUntouched(t, c, rmargin, wmargin);
        }
      }
    }

    /** Make room for `amount` more characters, by flushing the buffer and growing it if need be. */
    method Ensure(amount: nat)
      requires Valid()
      requires buf.Length - p < amount ==> CanScan()
      modifies this, buf
      ensures Valid() && (buf == old(buf) || fresh(buf)) && buf.Length - p >= amount
      ensures Written() == old(Written())
      ensures if old(buf.Length - p) >= amount then
          stream == old(stream) && buf[..p] == old(buf[..p]) && p == old(p) && pointOffs == old(pointOffs) &&
          pointCol == old(pointCol) && intact == old(intact)
        else
          p == 0 && stream == old(Settled() + Wrap(Pending(), pointCol, rmargin, wmargin)) &&
          pointCol == old(EndCol(Pending(), pointCol, rmargin, wmargin)) &&
          intact == (old(intact) && !old(Swallows(Pending(), pointCol, rmargin, wmargin)))
    {
      hide Plan;
      hide Readable;
      hide LineEnd;
      hide Stays;
      hide Wrap;
      hide EndCol;
      hide Refolds;
      hide Narrow;
      hide Column;
      hide Swallows;
      if buf.Length - p < amount {
        Update();
        stream := stream + buf[..p];
        p := 0;
        pointOffs := 0;
        assert stream + buf[..0] == stream;
        if buf.Length < amount {
          buf := new char[buf.Length + amount];
          assert stream + buf[..0] == stream;
        }
      }
    }

    /** Copy a text to the end of the buffer. */
    method Append(s: string)
      requires Valid() && buf.Length - p >= |s|
      modifies this`p, buf
      ensures Valid() && Settled() == old(Settled())
      ensures Pending() == old(Pending()) + s && View() == old(View()) + s
      ensures Written() == old(Written()) + s
    {
      hide Refolds;
      hide Narrow;
      hide Column;
      Copy(buf, p, s);
      p := p + |s|;
      assert buf[..pointOffs] == old(buf[..pointOffs]);
      assert Settled() == old(Settled());
      assert buf[pointOffs..p] == old(buf[pointOffs..p]) + s;
      assert buf[..p] == old(buf[..p]) + s;
    }

    /** Hand over a text. */
    method Write(s: string)
      requires Valid()
      requires buf.Length - p < |s| ==> CanScan()
      modifies this, buf
      ensures Valid() && (buf == old(buf) || fresh(buf))
      ensures Written() == old(Written()) + s
      ensures if old(buf.Length - p) >= |s| then
          Settled() == old(Settled()) && Pending() == old(Pending()) + s &&
          pointCol == old(pointCol) && intact == old(intact)
        else
          Settled() == old(Settled() + Wrap(Pending(), pointCol, rmargin, wmargin)) && Pending() == s &&
          pointCol == old(EndCol(Pending(), pointCol, rmargin, wmargin)) &&
          intact == (old(intact) && !old(Swallows(Pending(), pointCol, rmargin, wmargin)))
    {
      hide Plan;
      hide Readable;
      hide LineEnd;
      hide Stays;
      hide Wrap;
      hide EndCol;
      hide Refolds;
      hide Narrow;
      hide Column;
      hide Swallows;
      if p + |s| > buf.Length {
        Ensure(|s|);
      }
      Append(s);
    }

    method Puts(s: string)
      requires Valid()
      requires buf.Length - p < |s| ==> CanScan()
      modifies this, buf
      ensures Valid() && (buf == old(buf) || fresh(buf)) && Written() == old(Written()) + s
    {
      hide *;
      if |s| > 0 {
        Write(s);
      }
    }

    method Putc(ch: char)
      requires Valid()
      requires p == buf.Length ==> CanScan()
      modifies this, buf
      ensures Valid() && (buf == old(buf) || fresh(buf)) && Written() == old(Written()) + [ch]
    {
      if p == buf.Length {
        Ensure(1);
      }
      Append([ch]);
    }

    /** The column of the current output point. */
    method Point() returns (col: nat)
      requires Valid()
      requires p > pointOffs ==> CanScan()
      modifies this, buf
      ensures Valid() && buf == old(buf) && Written() == old(Written())
      ensures Pending() == "" && col == pointCol
      ensures Narrow(Written(), 0, rmargin - 1) ==> col == Column(Written(), 0)
    {
      hide Stays;
      hide Wrap;
      hide EndCol;
      hide Refolds;
      hide Narrow;
      hide Column;
      hide Swallows;
      if p > pointOffs {
        Update();
      }
      col := pointCol;
      assert input + Pending() == input;
    }

    /** Everything that is left goes to the stream. */
    method Free()
      requires Valid() && CanScan()
      modifies this, buf
      ensures stream == old(Settled()) + old(Wrap(Pending(), pointCol, rmargin, wmargin))
      ensures old(intact) && !old(Swallows(Pending(), pointCol, rmargin, wmargin)) ==>
        Refolds(old(Written()), stream, wmargin)
    {
      hide Stays;
      hide Wrap;
      hide EndCol;
      hide Refolds;
      hide Narrow;
      hide Column;
      hide Swallows;
      Update();
      assert input + Pending() == input;
      if p > 0 {
        stream := stream + buf[..p];
      } else {
        assert stream + buf[..p] == stream;
      }
    }

    /**
     For every sequence of calls: while all lines written are shorter than the right margin,
     the stream followed by the buffer is exactly the text written, wherever flushes and
     growth fell, and the next scan is safe.
     */
    lemma Transparent()
      requires Valid() && Narrow(Written(), 0, rmargin - 1)
      ensures View() == Written() && CanScan()
    {
      hide Stays;
      hide Wrap;
      hide EndCol;
      hide Refolds;
      hide Narrow;
      hide Column;
      PrintedAppend(input, Pending(), 0, rmargin - 1);
      ShortLinesUntouched(Pending(), pointCol, rmargin, wmargin);
      assert buf[..p] == buf[..pointOffs] + buf[pointOffs..p];
    }

    /** For every sequence of calls without an exact fit: the output is the text refolded. */
    lemma Conserved()
      requires Valid() && intact
      ensures Refolds(Written(), View(), wmargin) && Words(View()) == Words(Written())
    {
      hide Refolds;
      RefoldsSelf(Pending(), wmargin);
      RefoldsAppend(input, Settled(), Pending(), Pending(), wmargin);
      assert View() == Settled() + Pending();
      RefoldsWords(Written(), View(), wmargin);
    }
  }
}
