/**
 The writer of benchtests/json-lib.c: an indent level, one bit for "the next element is the first
 of its container", and the text written so far.  Two references are given for it: a writer that
 keeps a count for every open container instead of the bit, and the parser of module Json.
 */
module JsonEmit {
  import opened Json

  /** One call of the library.  An integer or a double arrives as its text. */
  datatype Call =
    | DocBegin | DocEnd
    | ObjBegin(name: string) | ObjEnd
    | ArrBegin(name: string) | ArrEnd
    | AttrStr(name: string, s: string) | AttrNum(name: string, text: string)
    | ElemStr(s: string) | ElemNum(text: string)
    | ElemObjBegin | ElemObjEnd

  datatype Ctx = Ctx(level: int, first: bool, out: string)

  function Spaces(n: int): string {
    if n <= 0 then [] else seq(n, _ => ' ')
  }

  /** As many blanks as the level, and nothing else. */
  lemma SpacesAreBlanks(n: nat)
    ensures |Spaces(n)| == n && forall i :: 0 <= i < n ==> Spaces(n)[i] == ' '
  {
  }

  function Quoted(s: string): string {
    ['"'] + (s + ['"'])
  }

  function Key(name: string): string {
    ['"'] + (name + "\": ")
  }

  predicate Opens(call: Call) {
    call.DocBegin? || call.ObjBegin? || call.ArrBegin? || call.ElemObjBegin?
  }

  predicate Closes(call: Call) {
    call.DocEnd? || call.ObjEnd? || call.ArrEnd? || call.ElemObjEnd?
  }

  /** What is written between an element and the one before it. */
  function Separator(call: Call): string {
    match call
    case ObjBegin(_) => ",\n"
    case ArrBegin(_) => ",\n"
    case AttrStr(_, _) => ",\n"
    case AttrNum(_, _) => ",\n"
    case ElemStr(_) => ", "
    case ElemNum(_) => ", "
    case ElemObjBegin => ","
    case _ => ""
  }

  /** The text of a call apart from its separator; `level` is the level it is written at. */
  function Body(level: int, call: Call): string {
    match call
    case DocBegin => Spaces(level) + "{\n"
    case DocEnd => Spaces(level) + "\n}"
    case ObjBegin(name) => Spaces(level) + (Key(name) + "{\n")
    case ObjEnd => "\n" + (Spaces(level) + "}")
    case ArrBegin(name) => Spaces(level) + (Key(name) + "[")
    case ArrEnd => "]"
    case AttrStr(name, s) => Spaces(level) + (Key(name) + Quoted(s))
    case AttrNum(name, text) => Spaces(level) + (Key(name) + text)
    case ElemStr(s) => Quoted(s)
    case ElemNum(text) => text
    case ElemObjBegin => "\n" + (Spaces(level) + "{\n")
    case ElemObjEnd => "\n" + (Spaces(level) + "}")
  }

  /** The whole effect of one call. */
  function Emit(c: Ctx, call: Call): Ctx {
    var sep := if c.first then [] else Separator(call);
    if Opens(call) then Ctx(c.level + 1, true, c.out + (sep + Body(c.level, call)))
    else if Closes(call) then
      Ctx(c.level - 1, if call.DocEnd? then c.first else false, c.out + Body(c.level - 1, call))
    else Ctx(c.level, false, c.out + (sep + Body(c.level, call)))
  }

  function EmitAll(c: Ctx, calls: seq<Call>): Ctx
    decreases |calls|
  {
    if calls == [] then c else EmitAll(Emit(c, calls[0]), calls[1..])
  }

  /** The context object; `fp` is the text written to the stream. */
  class JsonCtx {
    var indentLevel: nat
    var firstElement: bool
    var fp: string

    ghost function State(): Ctx
      reads this
    {
      Ctx(indentLevel, firstElement, fp)
    }

    constructor (indentLevel: nat, written: string)
      ensures State() == Ctx(indentLevel, true, written)
    {
      this.indentLevel := indentLevel;
      this.fp := written;
      this.firstElement := true;
    }

    method Puts(s: string)
      modifies `fp
      ensures fp == old(fp) + s
    {
      fp := fp + s;
    }

    method DoIndent()
      modifies `fp
      ensures fp == old(fp) + Spaces(indentLevel)
      ensures |fp| == |old(fp)| + indentLevel && forall i :: |old(fp)| <= i < |fp| ==> fp[i] == ' '
    {
      var buf := seq(indentLevel, _ => ' ');
      assert buf == Spaces(indentLevel);
      Puts(buf);
    }

    method DocumentBegin()
      modifies this
      ensures State() == Emit(old(State()), DocBegin)
    {
      DoIndent();
      Puts("{\n");
      indentLevel := indentLevel + 1;
      firstElement := true;
      Glue(old(fp), [], Spaces(old(indentLevel)), "{\n");
    }

    method DocumentEnd()
      requires indentLevel > 0
      modifies this
      ensures State() == Emit(old(State()), DocEnd) && firstElement == old(firstElement)
    {
      indentLevel := indentLevel - 1;
      DoIndent();
      Puts("\n}");
      Glue(old(fp), [], Spaces(indentLevel), "\n}");
    }

    /** The start shared by every named member: separator, indentation, then the member's text. */
    method Named(text: string)
      modifies `fp
      ensures fp == old(fp) + ((if firstElement then [] else ",\n") + (Spaces(indentLevel) + text))
    {
      if !firstElement {
        Puts(",\n");
      }
      DoIndent();
      Puts(text);
      Glue(old(fp), if firstElement then [] else ",\n", Spaces(indentLevel), text);
    }

    method AttrObjectBegin(name: string)
      modifies this
      ensures State() == Emit(old(State()), ObjBegin(name))
    {
      Named(Key(name) + "{\n");
      indentLevel := indentLevel + 1;
      firstElement := true;
    }

    method AttrObjectEnd()
      requires indentLevel > 0
      modifies this
      ensures State() == Emit(old(State()), ObjEnd)
    {
      indentLevel := indentLevel - 1;
      firstElement := false;
      Puts("\n");
      DoIndent();
      Puts("}");
      Glue(old(fp), "\n", Spaces(indentLevel), "}");
    }

    method AttrString(name: string, s: string)
      modifies this
      ensures State() == Emit(old(State()), AttrStr(name, s))
    {
      Named(Key(name) + Quoted(s));
      if firstElement {
        firstElement := false;
      }
    }

    /** Of `json_attr_uint`, `json_attr_int` and `json_attr_double` only the text differs. */
    method AttrNumber(name: string, text: string)
      modifies this
      ensures State() == Emit(old(State()), AttrNum(name, text))
    {
      Named(Key(name) + text);
      if firstElement {
        firstElement := false;
      }
    }

    method AttrInteger(name: string, d: int)
      modifies this
      ensures State() == Emit(old(State()), AttrNum(name, Decimal(d)))
    {
      AttrNumber(name, Decimal(d));
    }

    method ArrayBegin(name: string)
      modifies this
      ensures State() == Emit(old(State()), ArrBegin(name))
    {
      Named(Key(name) + "[");
      indentLevel := indentLevel + 1;
      firstElement := true;
    }

    method ArrayEnd()
      requires indentLevel > 0
      modifies this
      ensures State() == Emit(old(State()), ArrEnd)
    {
      indentLevel := indentLevel - 1;
      firstElement := false;
      Puts("]");
    }

    method ElementString(s: string)
      modifies this
      ensures State() == Emit(old(State()), ElemStr(s))
    {
      if !firstElement {
        Puts(", " + Quoted(s));
      } else {
        Puts(Quoted(s));
        firstElement := false;
        assert [] + Quoted(s) == Quoted(s);
      }
    }

    method ElementNumber(text: string)
      modifies this
      ensures State() == Emit(old(State()), ElemNum(text))
    {
      if !firstElement {
        Puts(", " + text);
      } else {
        Puts(text);
        firstElement := false;
        assert [] + text == text;
      }
    }

    method ElementInteger(d: int)
      modifies this
      ensures State() == Emit(old(State()), ElemNum(Decimal(d)))
    {
      ElementNumber(Decimal(d));
    }

    method ElementObjectBegin()
      modifies this
      ensures State() == Emit(old(State()), ElemObjBegin)
    {
      if !firstElement {
        Puts(",");
      }
      Puts("\n");
      DoIndent();
      Puts("{\n");
      indentLevel := indentLevel + 1;
      GlueFive(old(fp), if firstElement then [] else ",", "\n", Spaces(old(indentLevel)), "{\n");
      firstElement := true;
    }

    method ElementObjectEnd()
      requires indentLevel > 0
      modifies this
      ensures State() == Emit(old(State()), ElemObjEnd)
    {
      AttrObjectEnd();
    }
  }

  lemma Glue(a: string, b: string, c: string, d: string)
    ensures ((a + b) + c) + d == a + (b + (c + d))
    ensures (a + c) + d == a + (c + d) == a + ([] + (c + d))
  {
  }

  lemma GlueFive(a: string, b: string, c: string, d: string, e: string)
    ensures (((a + b) + c) + d) + e == a + (b + (c + (d + e)))
    ensures ((a + c) + d) + e == a + ([] + (c + (d + e)))
  {
    Glue(a + b, c, d, e);
    Glue(a, c, d, e);
    assert (a + b) + (c + (d + e)) == a + (b + (c + (d + e)));
    assert [] + (c + (d + e)) == c + (d + e);
  }

  // ---------- The bit against a stack of counts ----------

  /** How many elements each open container has so far, the innermost last. */
  predicate Allowed(counts: seq<nat>, call: Call) {
    if call.DocBegin? then counts == []
    else if call.DocEnd? then |counts| == 1
    else counts != []
  }

  function Tick(counts: seq<nat>): (r: seq<nat>)
    ensures |r| == |counts|
  {
    if counts == [] then [] else counts[..|counts| - 1] + [counts[|counts| - 1] + 1]
  }

  function Track(counts: seq<nat>, call: Call): seq<nat>
    requires Allowed(counts, call)
  {
    if Opens(call) then Tick(counts) + [0]
    else if Closes(call) then counts[..|counts| - 1]
    else Tick(counts)
  }

  predicate AllAllowed(counts: seq<nat>, calls: seq<Call>)
    decreases |calls|
  {
    calls == [] || (Allowed(counts, calls[0]) && AllAllowed(Track(counts, calls[0]), calls[1..]))
  }

  /** What a call writes: a separator exactly before an element that is not its container's first. */
  function Piece(counts: seq<nat>, base: int, call: Call): string
    requires Allowed(counts, call)
  {
    if Closes(call) then Body(base + |counts| - 1, call)
    else
      var later := counts != [] && counts[|counts| - 1] > 0;
      (if later then Separator(call) else []) + Body(base + |counts|, call)
  }

  /** The counting writer. */
  function Counted(counts: seq<nat>, base: int, calls: seq<Call>): string
    requires AllAllowed(counts, calls)
    decreases |calls|
  {
    if calls == [] then []
    else Piece(counts, base, calls[0]) + Counted(Track(counts, calls[0]), base, calls[1..])
  }

  /** What ties the bit and the level to the counts. */
  predicate Tied(c: Ctx, counts: seq<nat>, base: int) {
    && c.level == base + |counts|
    && (counts != [] ==> c.first == (counts[|counts| - 1] == 0))
    && forall i :: 0 <= i < |counts| - 1 ==> counts[i] > 0
  }

  lemma TiedStep(c: Ctx, counts: seq<nat>, base: int, call: Call)
    requires Tied(c, counts, base) && Allowed(counts, call)
    ensures Tied(Emit(c, call), Track(counts, call), base)
  {
    hide Body;
    hide Separator;
    var after := Track(counts, call);
    if Opens(call) {
      assert forall i :: 0 <= i < |counts| ==> after[i] > 0;
    }
  }

  lemma PieceStep(c: Ctx, counts: seq<nat>, base: int, call: Call)
    requires Tied(c, counts, base) && Allowed(counts, call)
    ensures Emit(c, call).out == c.out + Piece(counts, base, call)
  {
    hide Body;
    assert counts == [] ==> Separator(call) == [];
  }

  /** On every sequence of calls one bit does the work of a whole stack of counts. */
  lemma {:induction false} BitRefinesStack(c: Ctx, counts: seq<nat>, base: int, calls: seq<Call>)
    requires Tied(c, counts, base) && AllAllowed(counts, calls)
    ensures EmitAll(c, calls).out == c.out + Counted(counts, base, calls)
    decreases |calls|
  {
    hide Emit;
    hide Piece;
    hide Track;
    hide Tied;
    hide Allowed;
    if calls != [] {
      var call := calls[0];
      TiedStep(c, counts, base, call);
      PieceStep(c, counts, base, call);
      BitRefinesStack(Emit(c, call), Track(counts, call), base, calls[1..]);
      var rest := Counted(Track(counts, call), base, calls[1..]);
      assert (c.out + Piece(counts, base, call)) + rest == c.out + (Piece(counts, base, call) + rest);
    }
  }
}
