/**
 Writing a document with the calls of benchtests/json-lib.c and reading it back with the parser of
 RFC 8259 gives the document again, exactly when its strings need no escapes and its numbers are
 JSON numbers.
 */
module JsonRoundTrip {
  import opened Options
  import opened Json
  import opened JsonEmit

  // ---------- Which calls write a value ----------

  /** The library has no calls for literals, or for an array directly inside an array. */
  predicate Writable(v: Value)
    decreases v, 1
  {
    match v
    case Obj(ms) => MembersWritable(ms)
    case Arr(vs) => ItemsWritable(vs)
    case Word(_) => false
    case _ => true
  }

  predicate MembersWritable(ms: seq<Member>)
    decreases ms, 0
  {
    ms == [] || (assert ms[0].value < ms[0]; Writable(ms[0].value) && MembersWritable(ms[1..]))
  }

  predicate ItemsWritable(vs: seq<Value>)
    decreases vs, 0
  {
    vs == [] || (!vs[0].Arr? && Writable(vs[0]) && ItemsWritable(vs[1..]))
  }

  function MemberCalls(m: Member): seq<Call>
    decreases m, 1
  {
    match m.value
    case Str(s) => [AttrStr(m.name, s)]
    case Num(text) => [AttrNum(m.name, text)]
    case Word(_) => []
    case Obj(ms) => assert m.value < m; [ObjBegin(m.name)] + MembersCalls(ms) + [ObjEnd]
    case Arr(vs) => assert m.value < m; [ArrBegin(m.name)] + ItemsCalls(vs) + [ArrEnd]
  }

  function MembersCalls(ms: seq<Member>): seq<Call>
    decreases ms, 0
  {
    if ms == [] then [] else MemberCalls(ms[0]) + MembersCalls(ms[1..])
  }

  function ItemCalls(v: Value): seq<Call>
    decreases v, 1
  {
    match v
    case Str(s) => [ElemStr(s)]
    case Num(text) => [ElemNum(text)]
    case Obj(ms) => [ElemObjBegin] + MembersCalls(ms) + [ElemObjEnd]
    case _ => []
  }

  function ItemsCalls(vs: seq<Value>): seq<Call>
    decreases vs, 0
  {
    if vs == [] then [] else ItemCalls(vs[0]) + ItemsCalls(vs[1..])
  }

  function DocumentCalls(ms: seq<Member>): seq<Call> {
    [DocBegin] + MembersCalls(ms) + [DocEnd]
  }

  // ---------- The text of a value, followed by `k` ----------

  function ValueText(v: Value, level: int, k: string): string
    decreases v, 1
  {
    match v
    case Str(s) => Quoted(s) + k
    case Num(text) => text + k
    case Word(w) => Spelling(w) + k
    case Obj(ms) => "{\n" + MembersText(ms, level + 1, ("\n" + Spaces(level)) + ("}" + k))
    case Arr(vs) => "[" + ItemsText(vs, level + 1, "]" + k)
  }

  function MembersText(ms: seq<Member>, level: int, k: string): string
    decreases ms, 0
  {
    if ms == [] then k else
    assert ms[0].value < ms[0];
    var rest := MembersText(ms[1..], level, k);
    Spaces(level) + (Key(ms[0].name) + ValueText(ms[0].value, level, if |ms| == 1 then k else ",\n" + rest))
  }

  function Lead(v: Value, level: int): string {
    if v.Obj? then "\n" + Spaces(level) else []
  }

  function Gap(v: Value): string {
    if v.Obj? then "," else ", "
  }

  function ItemsText(vs: seq<Value>, level: int, k: string): string
    decreases vs, 0
  {
    if vs == [] then k else
    var rest := ItemsText(vs[1..], level, k);
    Lead(vs[0], level) + ValueText(vs[0], level, if |vs| == 1 then k else Gap(vs[1]) + rest)
  }

  // ---------- The calls write that text ----------

  lemma {:induction false} EmitAppend(c: Ctx, a: seq<Call>, b: seq<Call>)
    ensures EmitAll(c, a + b) == EmitAll(EmitAll(c, a), b)
    decreases |a|
  {
    if a == [] {
      assert a + b == b;
    } else {
      assert (a + b)[1..] == a[1..] + b;
      EmitAppend(Emit(c, a[0]), a[1..], b);
    }
  }

  lemma EmitOne(c: Ctx, call: Call)
    ensures EmitAll(c, [call]) == Emit(c, call)
  {
    assert EmitAll(Emit(c, call), []) == Emit(c, call);
  }

  lemma EmitAround(c: Ctx, open: Call, inner: seq<Call>, close: Call)
    ensures EmitAll(c, [open] + inner + [close]) == Emit(EmitAll(Emit(c, open), inner), close)
  {
    hide Emit;
    EmitAppend(c, [open] + inner, [close]);
    EmitAppend(c, [open], inner);
    EmitOne(c, open);
    EmitOne(EmitAll(Emit(c, open), inner), close);
  }

  /** The context after elements that write `text` when `k` follows. */
  predicate Wrote(c: Ctx, d: Ctx, empty: bool, k: string, text: string) {
    d.level == c.level && d.first == (c.first && empty) && d.out + k == c.out + text
  }

  function Sep(c: Ctx, sep: string): string {
    if c.first then [] else sep
  }

  lemma Assoc(a: string, b: string, c: string)
    ensures (a + b) + c == a + (b + c)
  {
  }

  /** A container: what its opening call writes, its contents `x`, what its closing call writes. */
  lemma Surrounded(c: Ctx, open: Call, inner: seq<Call>, close: Call, empty: bool, k: string, x: string)
    requires Opens(open) && Closes(close) && !close.DocEnd?
    requires Wrote(Emit(c, open), EmitAll(Emit(c, open), inner), empty, Body(c.level, close) + k, x)
    ensures Wrote(c, EmitAll(c, [open] + inner + [close]), false, k,
                  (Sep(c, Separator(open)) + Body(c.level, open)) + x)
  {
    hide Body;
    hide Separator;
    hide EmitAll;
    EmitAround(c, open, inner, close);
    var mid := EmitAll(Emit(c, open), inner).out;
    Assoc(mid, Body(c.level, close), k);
    Assoc(c.out, Sep(c, Separator(open)) + Body(c.level, open), x);
  }

  lemma Nest(a: string, b: string, c: string, d: string, x: string)
    ensures (a + (b + (c + d))) + x == a + (b + (c + (d + x)))
  {
  }

  lemma ObjectMember(c: Ctx, name: string, inner: seq<Call>, empty: bool, k: string, x: string)
    requires Wrote(Emit(c, ObjBegin(name)), EmitAll(Emit(c, ObjBegin(name)), inner), empty,
                   ("\n" + Spaces(c.level)) + ("}" + k), x)
    ensures Wrote(c, EmitAll(c, [ObjBegin(name)] + inner + [ObjEnd]), false, k,
                  Sep(c, ",\n") + (Spaces(c.level) + (Key(name) + ("{\n" + x))))
  {
    hide EmitAll;
    hide Spaces;
    hide Key;
    hide Emit;
    hide Wrote;
    assert ("\n" + Spaces(c.level)) + ("}" + k) == Body(c.level, ObjEnd) + k;
    Surrounded(c, ObjBegin(name), inner, ObjEnd, empty, k, x);
    Nest(Sep(c, ",\n"), Spaces(c.level), Key(name), "{\n", x);
  }

  lemma ArrayMember(c: Ctx, name: string, inner: seq<Call>, empty: bool, k: string, x: string)
    requires Wrote(Emit(c, ArrBegin(name)), EmitAll(Emit(c, ArrBegin(name)), inner), empty, "]" + k, x)
    ensures Wrote(c, EmitAll(c, [ArrBegin(name)] + inner + [ArrEnd]), false, k,
                  Sep(c, ",\n") + (Spaces(c.level) + (Key(name) + ("[" + x))))
  {
    hide EmitAll;
    hide Spaces;
    hide Key;
    hide Emit;
    hide Wrote;
    Surrounded(c, ArrBegin(name), inner, ArrEnd, empty, k, x);
    Nest(Sep(c, ",\n"), Spaces(c.level), Key(name), "[", x);
  }

  lemma ObjectItem(c: Ctx, inner: seq<Call>, empty: bool, k: string, x: string)
    requires Wrote(Emit(c, ElemObjBegin), EmitAll(Emit(c, ElemObjBegin), inner), empty,
                   ("\n" + Spaces(c.level)) + ("}" + k), x)
    ensures Wrote(c, EmitAll(c, [ElemObjBegin] + inner + [ElemObjEnd]), false, k,
                  Sep(c, ",") + (("\n" + Spaces(c.level)) + ("{\n" + x)))
  {
    hide EmitAll;
    hide Spaces;
    hide Emit;
    hide Wrote;
    assert ("\n" + Spaces(c.level)) + ("}" + k) == Body(c.level, ElemObjEnd) + k;
    Surrounded(c, ElemObjBegin, inner, ElemObjEnd, empty, k, x);
    Nest(Sep(c, ","), "\n", Spaces(c.level), "{\n", x);
    Assoc("\n", Spaces(c.level), "{\n" + x);
  }

  lemma {:induction false} MemberWritten(c: Ctx, m: Member, k: string)
    requires Writable(m.value)
    ensures Wrote(c, EmitAll(c, MemberCalls(m)), false, k,
                  Sep(c, ",\n") + (Spaces(c.level) + (Key(m.name) + ValueText(m.value, c.level, k))))
    decreases m, 1
  {
    hide Spaces;
    hide Key;
    match m.value
    case Str(s) =>
      EmitOne(c, AttrStr(m.name, s));
      PlainMember(c.out, Sep(c, ",\n"), Spaces(c.level), Key(m.name), Quoted(s), k);
    case Num(text) =>
      EmitOne(c, AttrNum(m.name, text));
      PlainMember(c.out, Sep(c, ",\n"), Spaces(c.level), Key(m.name), text, k);
    case Obj(ms) =>
      assert m.value < m;
      var d := Emit(c, ObjBegin(m.name));
      var tail := ("\n" + Spaces(c.level)) + ("}" + k);
      MembersWritten(d, ms, tail);
      Unlead(MembersText(ms, d.level, tail));
      ObjectMember(c, m.name, MembersCalls(ms), ms == [], k, MembersText(ms, d.level, tail));
    case Arr(vs) =>
      assert m.value < m;
      var d := Emit(c, ArrBegin(m.name));
      ItemsWritten(d, vs, "]" + k);
      Unlead(ItemsText(vs, d.level, "]" + k));
      ArrayMember(c, m.name, ItemsCalls(vs), vs == [], k, ItemsText(vs, d.level, "]" + k));
  }

  lemma Unlead(x: string)
    ensures [] + x == x
  {
  }

  lemma PlainMember(out: string, sep: string, sp: string, key: string, text: string, k: string)
    ensures (out + (sep + (sp + (key + text)))) + k == out + (sep + (sp + (key + (text + k))))
  {
    Nest(sep, sp, key, text, k);
    Assoc(out, sep + (sp + (key + text)), k);
  }

  lemma {:induction false} MembersWritten(c: Ctx, ms: seq<Member>, k: string)
    requires MembersWritable(ms)
    ensures Wrote(c, EmitAll(c, MembersCalls(ms)), ms == [], k,
                  (if ms == [] then [] else Sep(c, ",\n")) + MembersText(ms, c.level, k))
    decreases ms, 0
  {
    if ms == [] {
      assert [] + k == k;
    } else {
      assert ms[0].value < ms[0];
      EmitAppend(c, MemberCalls(ms[0]), MembersCalls(ms[1..]));
      var d := EmitAll(c, MemberCalls(ms[0]));
      MembersWritten(d, ms[1..], k);
      var rest := MembersText(ms[1..], c.level, k);
      MemberWritten(c, ms[0], if |ms| == 1 then k else ",\n" + rest);
    }
  }

  lemma {:induction false} ItemWritten(c: Ctx, v: Value, k: string)
    requires Writable(v) && !v.Arr?
    ensures Wrote(c, EmitAll(c, ItemCalls(v)), false, k,
                  Sep(c, Gap(v)) + (Lead(v, c.level) + ValueText(v, c.level, k)))
    decreases v, 1
  {
    hide Spaces;
    match v
    case Str(s) =>
      EmitOne(c, ElemStr(s));
      PlainItem(c.out, Sep(c, ", "), Quoted(s), k);
    case Num(text) =>
      EmitOne(c, ElemNum(text));
      PlainItem(c.out, Sep(c, ", "), text, k);
    case Obj(ms) =>
      var d := Emit(c, ElemObjBegin);
      var tail := ("\n" + Spaces(c.level)) + ("}" + k);
      MembersWritten(d, ms, tail);
      Unlead(MembersText(ms, d.level, tail));
      ObjectItem(c, MembersCalls(ms), ms == [], k, MembersText(ms, d.level, tail));
  }

  lemma PlainItem(out: string, sep: string, text: string, k: string)
    ensures (out + (sep + text)) + k == out + (sep + ([] + (text + k)))
  {
    assert [] + (text + k) == text + k;
    assert (out + (sep + text)) + k == out + (sep + (text + k));
  }

  lemma {:induction false} ItemsWritten(c: Ctx, vs: seq<Value>, k: string)
    requires ItemsWritable(vs)
    ensures Wrote(c, EmitAll(c, ItemsCalls(vs)), vs == [], k,
                  (if vs == [] then [] else Sep(c, Gap(vs[0]))) + ItemsText(vs, c.level, k))
    decreases vs, 0
  {
    if vs == [] {
      assert [] + k == k;
    } else {
      EmitAppend(c, ItemCalls(vs[0]), ItemsCalls(vs[1..]));
      var d := EmitAll(c, ItemCalls(vs[0]));
      ItemsWritten(d, vs[1..], k);
      var rest := ItemsText(vs[1..], c.level, k);
      ItemWritten(c, vs[0], if |vs| == 1 then k else Gap(vs[1]) + rest);
    }
  }

  // ---------- The parser reads that text ----------

  predicate Legal(v: Value)
    decreases v, 1
  {
    match v
    case Str(s) => Clean(s)
    case Num(text) => IsNumber(text)
    case Word(_) => true
    case Obj(ms) => MembersLegal(ms)
    case Arr(vs) => ItemsLegal(vs)
  }

  predicate MembersLegal(ms: seq<Member>)
    decreases ms, 0
  {
    ms == [] || (assert ms[0].value < ms[0];
                 Clean(ms[0].name) && Legal(ms[0].value) && MembersLegal(ms[1..]))
  }

  predicate ItemsLegal(vs: seq<Value>)
    decreases vs, 0
  {
    vs == [] || (Legal(vs[0]) && ItemsLegal(vs[1..]))
  }

  predicate AllWhite(w: string) {
    forall i :: 0 <= i < |w| ==> White(w[i])
  }

  lemma {:induction false} SkipWhite(w: string, s: string)
    requires AllWhite(w)
    ensures Skip(w + s) == Skip(s)
    decreases |w|
  {
    if w == [] {
      assert w + s == s;
    } else {
      assert (w + s)[0] == w[0] && (w + s)[1..] == w[1..] + s;
      SkipWhite(w[1..], s);
    }
  }

  lemma {:induction false} SkipSkip(s: string)
    ensures Skip(Skip(s)) == Skip(s)
    decreases |s|
  {
    if s != [] && White(s[0]) {
      SkipSkip(s[1..]);
    }
  }

  lemma {:induction false} StrRead(name: string, r: string)
    requires Clean(name)
    ensures ParseStr(name + (['"'] + r)) == Some((name, r))
    decreases |name|
  {
    var s := name + (['"'] + r);
    if name == [] {
      assert s == ['"'] + r && s[1..] == r;
    } else {
      assert s[0] == name[0] && s[1..] == name[1..] + (['"'] + r);
      StrRead(name[1..], r);
      assert [name[0]] + name[1..] == name;
    }
  }

  lemma {:induction false} NumRead(text: string, k: string)
    requires AllNum(text) && Stops(k)
    ensures NumEnd(text + k) == |text|
    decreases |text|
  {
    if text == [] {
      assert text + k == k;
    } else {
      assert (text + k)[0] == text[0] && (text + k)[1..] == text[1..] + k;
      NumRead(text[1..], k);
    }
  }

  /** What follows a number does not go on with it. */
  predicate Stops(k: string) {
    k == [] || !NumChar(k[0])
  }

  lemma StrValueRead(s: string, k: string)
    requires Clean(s)
    ensures ParseValue(Quoted(s) + k) == Some((Str(s), k))
  {
    var t := Quoted(s) + k;
    assert t[0] == '"' && t[1..] == s + (['"'] + k);
    StrRead(s, k);
  }

  lemma NumValueRead(text: string, k: string)
    requires IsNumber(text) && Stops(k)
    ensures ParseValue(text + k) == Some((Num(text), k))
  {
    hide IsNumber;
    NumberChars(text);
    NumRead(text, k);
    var t := text + k;
    assert t[0] == text[0] && NumChar(text[0]);
    assert ParseWord(t).None? by {
      assert "true"[0] == 't' && "false"[0] == 'f' && "null"[0] == 'n';
    }
    assert t[..|text|] == text && t[|text|..] == k;
  }

  lemma WordValueRead(w: Literal, k: string)
    ensures ParseValue(Spelling(w) + k) == Some((Word(w), k))
  {
    var t := Spelling(w) + k;
    assert t[0] == Spelling(w)[0] && Skip(t) == t;
    assert Spelling(w) <= t && t[|Spelling(w)|..] == k;
  }

  lemma SpacesWhite(n: int)
    ensures AllWhite(Spaces(n)) && AllWhite("\n" + Spaces(n)) && AllWhite(Spaces(n) + "\n")
  {
  }

  lemma SameValue(s: string, t: string)
    requires Skip(s) == Skip(t)
    ensures ParseValue(s) == ParseValue(t)
  {
    hide ParseStr;
    hide IsNumber;
    hide Skip;
    hide ParseMembers;
    hide ParseItems;
    hide NumEnd;
    hide ParseWord;
  }

  /** White space before members or before items makes no difference. */
  lemma SameAfterSkip(s: string, t: string)
    requires Skip(s) == Skip(t)
    ensures ParseMembers(s) == ParseMembers(t) && ParseItems(s) == ParseItems(t)
  {
    hide ParseStr;
    hide Skip;
    hide ParseValue;
    SameValue(s, t);
  }

  lemma SkipsFirst(w: string, s: string)
    requires AllWhite(w)
    ensures ParseValue(w + s) == ParseValue(s) && ParseMembers(w + s) == ParseMembers(s)
    ensures ParseItems(w + s) == ParseItems(s)
  {
    SkipWhite(w, s);
    SameValue(w + s, s);
    SameAfterSkip(w + s, s);
  }

  lemma SkippedFirst(s: string)
    ensures ParseMembers(Skip(s)) == ParseMembers(s) && ParseItems(Skip(s)) == ParseItems(s)
  {
    SkipSkip(s);
    SameAfterSkip(Skip(s), s);
  }

  lemma BraceSkip(x: string)
    ensures var s := "{\n" + x; s[0] == '{' && Skip(s) == s && Skip(s[1..]) == Skip(x)
  {
    assert "{\n" == ['{'] + "\n";
    assert ("{\n" + x)[1..] == "\n" + x;
    SkipWhite("\n", x);
  }

  lemma ObjectRead(x: string, ms: seq<Member>, k: string)
    requires Skip(x) != []
    requires if ms == [] then Skip(x) == ['}'] + k else Skip(x)[0] != '}' && ParseMembers(x) == Some((ms, k))
    ensures ParseValue("{\n" + x) == Some((Obj(ms), k))
  {
    hide ParseMembers;
    hide ParseItems;
    hide ParseStr;
    hide IsNumber;
    hide NumEnd;
    hide Skip;
    BraceSkip(x);
    SkippedFirst(x);
  }

  lemma BracketSkip(x: string)
    ensures var s := "[" + x; s[0] == '[' && Skip(s) == s && s[1..] == x
  {
  }

  lemma ArrayRead(x: string, vs: seq<Value>, k: string)
    requires Skip(x) != []
    requires if vs == [] then Skip(x) == [']'] + k else Skip(x)[0] != ']' && ParseItems(x) == Some((vs, k))
    ensures ParseValue("[" + x) == Some((Arr(vs), k))
  {
    hide ParseMembers;
    hide ParseItems;
    hide ParseStr;
    hide IsNumber;
    hide NumEnd;
    hide Skip;
    BracketSkip(x);
    SkippedFirst(x);
  }

  lemma ColonRead(text: string, v: Value, k: string)
    requires ParseValue(text) == Some((v, k))
    ensures var u := ": " + text; Skip(u) == u && u[0] == ':' && ParseValue(u[1..]) == Some((v, k))
  {
    hide ParseValue;
    var u := ": " + text;
    assert ": " == [':'] + " ";
    assert u[1..] == " " + text;
    SkipsFirst(" ", text);
  }

  lemma KeySplit(name: string, text: string)
    ensures var s := Key(name) + text;
      s[0] == '"' && Skip(s) == s && s[1..] == name + (['"'] + (": " + text))
  {
    assert "\": " == ['"'] + ": ";
  }

  /** One member, followed by the end of the object or by a comma and more members. */
  lemma MemberRead(w: string, name: string, text: string, v: Value, k: string, ms: seq<Member>, rest: string)
    requires AllWhite(w) && Clean(name) && ParseValue(text) == Some((v, k)) && Skip(k) != []
    requires if ms == [] then Skip(k) == ['}'] + rest
             else Skip(k)[0] == ',' && ParseMembers(Skip(k)[1..]) == Some((ms, rest))
    ensures ParseMembers(w + (Key(name) + text)) == Some(([Member(name, v)] + ms, rest))
  {
    hide ParseValue;
    hide ParseStr;
    hide Skip;
    hide Key;
    hide AllWhite;
    hide Clean;
    SkipsFirst(w, Key(name) + text);
    KeySplit(name, text);
    StrRead(name, ": " + text);
    ColonRead(text, v, k);
    assert ms == [] ==> [Member(name, v)] + ms == [Member(name, v)];
  }

  lemma ItemRead(w: string, text: string, v: Value, k: string, vs: seq<Value>, rest: string)
    requires AllWhite(w) && ParseValue(text) == Some((v, k)) && Skip(k) != []
    requires if vs == [] then Skip(k) == [']'] + rest
             else Skip(k)[0] == ',' && ParseItems(Skip(k)[1..]) == Some((vs, rest))
    ensures ParseItems(w + text) == Some(([v] + vs, rest))
  {
    hide ParseValue;
    hide Skip;
    SkipsFirst(w, text);
    assert vs == [] ==> [v] + vs == [v];
  }

  /** The text of a value starts with a character that opens it. */
  lemma ValueStart(v: Value, level: int, k: string)
    requires Legal(v)
    ensures var t := ValueText(v, level, k); t != [] && !White(t[0]) && t[0] != ']' && Skip(t) == t
  {
    if v.Num? {
      NumberChars(v.text);
      assert NumChar(v.text[0]);
    } else if v.Word? {
      assert ValueText(v, level, k)[0] == Spelling(v.word)[0];
    }
  }

  lemma CloseStops(w: string, close: char, k: string)
    requires AllWhite(w) && !NumChar(close) && !White(close)
    ensures Stops(w + ([close] + k)) && Skip(w + ([close] + k)) == [close] + k
  {
    SkipWhite(w, [close] + k);
    if w != [] {
      assert (w + ([close] + k))[0] == w[0];
    }
  }

  lemma CommaStops(w: string, rest: string)
    requires AllWhite(w)
    ensures var k := ([','] + w) + rest;
      Stops(k) && Skip(k) == k && k[0] == ',' &&
      ParseMembers(k[1..]) == ParseMembers(rest) && ParseItems(k[1..]) == ParseItems(rest)
  {
    hide ParseMembers;
    hide ParseItems;
    var k := ([','] + w) + rest;
    assert k[1..] == w + rest;
    SkipsFirst(w, rest);
  }

  lemma {:induction false} ValueRead(v: Value, level: int, k: string)
    requires Legal(v) && Stops(k)
    ensures ParseValue(ValueText(v, level, k)) == Some((v, k))
    decreases v, 1
  {
    hide ParseValue;
    hide ParseMembers;
    hide ParseItems;
    hide Spaces;
    hide Quoted;
    hide Clean;
    hide IsNumber;
    hide Skip;
    match v
    case Str(s) => StrValueRead(s, k);
    case Num(text) => NumValueRead(text, k);
    case Word(w) => WordValueRead(w, k);
    case Obj(ms) =>
      SpacesWhite(level);
      ObjectTextRead(ms, level + 1, "\n" + Spaces(level), k);
    case Arr(vs) =>
      ItemsRead(vs, level + 1, k);
      ArrayRead(ItemsText(vs, level + 1, "]" + k), vs, k);
  }

  /** An object whose members are followed by white space and its closing brace. */
  lemma {:induction false} ObjectTextRead(ms: seq<Member>, level: int, w: string, k: string)
    requires MembersLegal(ms) && AllWhite(w)
    ensures ParseValue("{\n" + MembersText(ms, level, w + ("}" + k))) == Some((Obj(ms), k))
    decreases ms, 2
  {
    hide ParseValue;
    hide ParseMembers;
    hide Skip;
    var x := MembersText(ms, level, w + ("}" + k));
    assert "}" == ['}'];
    CloseStops(w, '}', k);
    if ms != [] {
      MembersRead(ms, level, w, k);
    }
    ObjectRead(x, ms, k);
  }

  lemma {:induction false} MembersRead(ms: seq<Member>, level: int, w: string, k: string)
    requires ms != [] && MembersLegal(ms) && AllWhite(w)
    ensures var x := MembersText(ms, level, w + ("}" + k));
      ParseMembers(x) == Some((ms, k)) && Skip(x) != [] && Skip(x)[0] != '}'
    decreases ms, 0
  {
    hide *;
    var m := ms[0];
    assert m.value < m;
    FirstLegal(ms);
    var tail := w + ("}" + k);
    CloseStops(w, '}', k);
    var rest := MembersText(ms[1..], level, tail);
    var after := if |ms| == 1 then tail else ",\n" + rest;
    if |ms| > 1 {
      MembersRead(ms[1..], level, w, k);
      NewlineWhite();
      CommaStops("\n", rest);
    }
    ValueRead(m.value, level, after);
    SpacesWhite(level);
    MemberRead(Spaces(level), m.name, ValueText(m.value, level, after), m.value, after, ms[1..], k);
    assert [m] + ms[1..] == ms;
    MembersStart(Spaces(level), m.name, ValueText(m.value, level, after));
    MembersOpen(ms, level, tail);
  }

  lemma FirstLegal(ms: seq<Member>)
    requires ms != [] && MembersLegal(ms)
    ensures Clean(ms[0].name) && Legal(ms[0].value) && MembersLegal(ms[1..])
    ensures "}" == ['}'] && !NumChar('}') && !White('}')
  {
  }

  lemma MembersOpen(ms: seq<Member>, level: int, k: string)
    requires ms != []
    ensures MembersText(ms, level, k) ==
      Spaces(level) + (Key(ms[0].name) +
        ValueText(ms[0].value, level, if |ms| == 1 then k else ",\n" + MembersText(ms[1..], level, k)))
  {
  }

  lemma NewlineWhite()
    ensures AllWhite("\n") && ",\n" == [','] + "\n"
    ensures AllWhite(" ") && ", " == [','] + " "
    ensures AllWhite([]) && "," == [','] + []
  {
  }

  lemma MembersStart(w: string, name: string, text: string)
    requires AllWhite(w)
    ensures var x := w + (Key(name) + text); Skip(x) != [] && Skip(x)[0] == '"'
  {
    SkipWhite(w, Key(name) + text);
    KeySplit(name, text);
  }

  lemma {:induction false} ItemsRead(vs: seq<Value>, level: int, k: string)
    requires ItemsLegal(vs)
    ensures var x := ItemsText(vs, level, "]" + k);
      Skip(x) != [] && if vs == [] then Skip(x) == [']'] + k else Skip(x)[0] != ']' && ParseItems(x) == Some((vs, k))
    decreases vs, 0
  {
    hide *;
    var tail := "]" + k;
    BracketStops(k);
    ItemsOpen(vs, level, tail);
    if vs != [] {
      var v := vs[0];
      FirstItemLegal(vs);
      var rest := ItemsText(vs[1..], level, tail);
      var after := if |vs| == 1 then tail else Gap(vs[1]) + rest;
      ItemsRead(vs[1..], level, k);
      if |vs| > 1 {
        GapStops(vs[1], rest);
      }
      ValueRead(v, level, after);
      var text := ValueText(v, level, after);
      LeadWhite(v, level);
      ItemRead(Lead(v, level), text, v, after, vs[1..], k);
      assert [v] + vs[1..] == vs;
      ValueStart(v, level, after);
      SkipWhite(Lead(v, level), text);
    }
  }

  lemma BracketStops(k: string)
    ensures "]" == [']'] && Stops("]" + k) && Skip("]" + k) == [']'] + k
  {
  }

  lemma GapStops(v: Value, rest: string)
    ensures var k := Gap(v) + rest; Stops(k) && Skip(k) == k && k[0] == ',' && ParseItems(k[1..]) == ParseItems(rest)
  {
    hide ParseItems;
    NewlineWhite();
    CommaStops(if v.Obj? then [] else " ", rest);
  }

  lemma LeadWhite(v: Value, level: int)
    ensures AllWhite(Lead(v, level))
  {
    SpacesWhite(level);
  }

  lemma FirstItemLegal(vs: seq<Value>)
    requires vs != [] && ItemsLegal(vs)
    ensures Legal(vs[0]) && ItemsLegal(vs[1..])
  {
  }

  lemma ItemsOpen(vs: seq<Value>, level: int, k: string)
    ensures ItemsText(vs, level, k) == if vs == [] then k else
      Lead(vs[0], level) + ValueText(vs[0], level, if |vs| == 1 then k else Gap(vs[1]) + ItemsText(vs[1..], level, k))
  {
  }

  // ---------- An escape costs more than it yields ----------

  /** The number of characters that are not white space. */
  function Solid(s: string): nat {
    if s == [] then 0 else (if White(s[0]) then 0 else 1) + Solid(s[1..])
  }

  lemma {:induction false} SolidAppend(a: string, b: string)
    ensures Solid(a + b) == Solid(a) + Solid(b)
    decreases |a|
  {
    if a == [] {
      assert a + b == b;
    } else {
      assert (a + b)[1..] == a[1..] + b;
      SolidAppend(a[1..], b);
    }
  }

  lemma {:induction false} SolidSkip(s: string)
    ensures Solid(Skip(s)) == Solid(s)
    decreases |s|
  {
    if s != [] && White(s[0]) {
      SolidSkip(s[1..]);
    }
  }

  lemma {:induction false} SolidWhite(w: string)
    requires AllWhite(w)
    ensures Solid(w) == 0
    decreases |w|
  {
    if w != [] {
      SolidWhite(w[1..]);
    }
  }

  /** What the text of a value must hold besides white space, when no escapes are used. */
  function Ink(v: Value): nat
    decreases v, 1
  {
    match v
    case Str(s) => 2 + Solid(s)
    case Num(text) => Solid(text)
    case Word(w) => Solid(Spelling(w))
    case Obj(ms) => 1 + if ms == [] then 1 else MembersInk(ms)
    case Arr(vs) => 1 + if vs == [] then 1 else ItemsInk(vs)
  }

  /** Each member with its quotes, its colon and the comma or brace after it. */
  function MembersInk(ms: seq<Member>): nat
    decreases ms, 0
  {
    if ms == [] then 0 else
    assert ms[0].value < ms[0];
    4 + Solid(ms[0].name) + Ink(ms[0].value) + MembersInk(ms[1..])
  }

  function ItemsInk(vs: seq<Value>): nat
    decreases vs, 0
  {
    if vs == [] then 0 else 1 + Ink(vs[0]) + ItemsInk(vs[1..])
  }

  lemma {:induction false} StrCost(s: string)
    ensures var r := ParseStr(s); r.Some? ==>
      && Solid(s) >= Solid(r.value.0) + 1 + Solid(r.value.1)
      && (Solid(s) == Solid(r.value.0) + 1 + Solid(r.value.1) ==> Clean(r.value.0))
    decreases |s|
  {
    hide Escape;
    var r := ParseStr(s);
    if r.Some? && s[0] != '"' {
      if s[0] != '\\' {
        StrCost(s[1..]);
        ConsCost(s[0], ParseStr(s[1..]).value.0);
      } else {
        var e := Escape(s).value;
        StrCost(s[e.1..]);
        ConsCost(e.0, ParseStr(s[e.1..]).value.0);
        EscapeCost(s, e.1);
      }
    }
  }

  lemma ConsCost(ch: char, s: string)
    ensures Solid([ch] + s) == (if White(ch) then 0 else 1) + Solid(s)
  {
    assert ([ch] + s)[1..] == s;
  }

  lemma EscapeCost(s: string, n: nat)
    requires 2 <= n <= |s| && s[0] == '\\' && s[1] > ' '
    ensures Solid(s) >= 2 + Solid(s[n..])
  {
    assert s == s[..n] + s[n..];
    SolidAppend(s[..n], s[n..]);
    assert s[..n][1..][0] == s[1];
  }

  lemma SolidHead(s: string)
    requires s != []
    ensures Solid(s) == (if White(s[0]) then 0 else 1) + Solid(s[1..])
  {
  }

  /** No text of a value is shorter than `Ink` says, and one that is not longer uses no escapes. */
  lemma {:induction false} ValueCost(s: string)
    ensures var r := ParseValue(s); r.Some? ==>
      && Solid(s) >= Ink(r.value.0) + Solid(r.value.1)
      && (Solid(s) == Ink(r.value.0) + Solid(r.value.1) ==> Legal(r.value.0))
    decreases |s|, 0
  {
    hide IsNumber;
    hide ParseMembers;
    hide ParseItems;
    hide MembersLegal;
    hide ItemsLegal;
    hide MembersInk;
    hide ItemsInk;
    hide Clean;
    hide ParseStr;
    hide Solid;
    hide Skip;
    hide NumEnd;
    EmptyLegal();
    var t := Skip(s);
    SolidSkip(s);
    if t != [] {
      SolidHead(t);
      var u := Skip(t[1..]);
      SolidSkip(t[1..]);
      if t[0] == '"' {
        StrCost(t[1..]);
      } else if t[0] == '{' || t[0] == '[' {
        if u != [] {
          SolidHead(u);
        }
        MembersCost(u);
        ItemsCost(u);
      } else if ParseWord(t).Some? {
        var n := |Spelling(ParseWord(t).value)|;
        assert t == t[..n] + t[n..] && t[..n] == Spelling(ParseWord(t).value);
        SolidAppend(t[..n], t[n..]);
      } else {
        var n := NumEnd(t);
        assert t == t[..n] + t[n..];
        SolidAppend(t[..n], t[n..]);
      }
    }
  }

  lemma EmptyLegal()
    ensures MembersLegal([]) && ItemsLegal([]) && MembersInk([]) == 0 && ItemsInk([]) == 0
  {
  }

  lemma {:induction false} MoreMembers(m: Member, ms: seq<Member>)
    ensures MembersInk([m] + ms) == 4 + Solid(m.name) + Ink(m.value) + MembersInk(ms)
    ensures MembersLegal([m] + ms) <==> Clean(m.name) && Legal(m.value) && MembersLegal(ms)
  {
    assert ([m] + ms)[1..] == ms;
  }

  lemma {:induction false} MembersCost(s: string)
    ensures var r := ParseMembers(s); r.Some? ==>
      && r.value.0 != []
      && Solid(s) >= MembersInk(r.value.0) + Solid(r.value.1)
      && (Solid(s) == MembersInk(r.value.0) + Solid(r.value.1) ==> MembersLegal(r.value.0))
    decreases |s|, 1
  {
    hide ParseValue;
    hide ParseStr;
    hide Clean;
    hide Legal;
    hide MembersLegal;
    hide MembersInk;
    hide Ink;
    hide Skip;
    hide Solid;
    if ParseMembers(s).Some? {
      var t := Skip(s);
      SolidSkip(s);
      SolidHead(t);
      var name := ParseStr(t[1..]).value;
      StrCost(t[1..]);
      var u := Skip(name.1);
      SolidSkip(name.1);
      SolidHead(u);
      ValueCost(u[1..]);
      var v := ParseValue(u[1..]).value;
      var w := Skip(v.1);
      SolidSkip(v.1);
      SolidHead(w);
      EmptyLegal();
      var m := Member(name.0, v.0);
      assert [m] + [] == [m];
      MoreMembers(m, []);
      if w[0] == ',' {
        MembersCost(w[1..]);
        MoreMembers(m, ParseMembers(w[1..]).value.0);
      }
    }
  }

  lemma {:induction false} MoreItems(v: Value, vs: seq<Value>)
    ensures ItemsInk([v] + vs) == 1 + Ink(v) + ItemsInk(vs)
    ensures ItemsLegal([v] + vs) <==> Legal(v) && ItemsLegal(vs)
  {
    assert ([v] + vs)[1..] == vs;
  }

  lemma {:induction false} ItemsCost(s: string)
    ensures var r := ParseItems(s); r.Some? ==>
      && r.value.0 != []
      && Solid(s) >= ItemsInk(r.value.0) + Solid(r.value.1)
      && (Solid(s) == ItemsInk(r.value.0) + Solid(r.value.1) ==> ItemsLegal(r.value.0))
    decreases |s|, 1
  {
    hide ParseValue;
    hide Legal;
    hide ItemsLegal;
    hide ItemsInk;
    hide Ink;
    hide Skip;
    hide Solid;
    if ParseItems(s).Some? {
      ValueCost(s);
      var v := ParseValue(s).value;
      var w := Skip(v.1);
      SolidSkip(v.1);
      SolidHead(w);
      EmptyLegal();
      assert [v.0] + [] == [v.0];
      MoreItems(v.0, []);
      if w[0] == ',' {
        ItemsCost(w[1..]);
        MoreItems(v.0, ParseItems(w[1..]).value.0);
      }
    }
  }

  // ---------- The text that is written holds no more ----------

  lemma PieceInk(level: int, name: string)
    ensures Solid(Spaces(level)) == 0 && Solid("\n") == 0 && Solid("\n" + Spaces(level)) == 0
    ensures Solid(Spaces(level) + "\n") == 0
    ensures Solid(Key(name)) == 3 + Solid(name) && Solid(Quoted(name)) == 2 + Solid(name)
    ensures Solid("{\n") == Solid("}") == Solid("[") == Solid("]") == Solid(",") == Solid(", ") == Solid(",\n") == 1
  {
    SpacesWhite(level);
    SolidWhite(Spaces(level));
    SolidWhite("\n" + Spaces(level));
    SolidWhite(Spaces(level) + "\n");
    NewlineWhite();
    SolidWhite("\n");
    SolidWhite(" ");
    KeyInk(name);
    ConsCost('{', "\n");
    assert "{\n" == ['{'] + "\n";
    ConsCost(',', " ");
    ConsCost(',', "\n");
    OneSolid("}");
    OneSolid("[");
    OneSolid("]");
    OneSolid(",");
  }

  lemma OneSolid(s: string)
    requires |s| == 1 && !White(s[0])
    ensures Solid(s) == 1
  {
    assert s[1..] == [];
  }

  lemma KeyInk(name: string)
    ensures Solid(Key(name)) == 3 + Solid(name) && Solid(Quoted(name)) == 2 + Solid(name)
  {
    OneSolid(['"']);
    assert "\": " == ['"'] + ([':'] + " ");
    SolidWhite(" ");
    ConsCost(':', " ");
    ConsCost('"', [':'] + " ");
    SolidAppend(name, "\": ");
    SolidAppend(name, ['"']);
    ConsCost('"', name + "\": ");
    ConsCost('"', name + ['"']);
  }

  lemma {:induction false} ValueTextInk(v: Value, level: int, k: string)
    ensures Solid(ValueText(v, level, k)) == Ink(v) + Solid(k)
    decreases v, 1
  {
    hide Solid;
    hide Spaces;
    hide Quoted;
    hide MembersText;
    hide ItemsText;
    hide MembersInk;
    hide ItemsInk;
    EmptyLegal();
    match v
    case Str(s) =>
      PieceInk(level, s);
      SolidAppend(Quoted(s), k);
    case Num(text) => SolidAppend(text, k);
    case Word(w) => SolidAppend(Spelling(w), k);
    case Obj(ms) =>
      PieceInk(level, []);
      var close := ("\n" + Spaces(level)) + ("}" + k);
      SolidAppend("}", k);
      SolidAppend("\n" + Spaces(level), "}" + k);
      MembersTextInk(ms, level + 1, close);
      SolidAppend("{\n", MembersText(ms, level + 1, close));
    case Arr(vs) =>
      PieceInk(level, []);
      SolidAppend("]", k);
      ItemsTextInk(vs, level + 1, "]" + k);
      SolidAppend("[", ItemsText(vs, level + 1, "]" + k));
  }

  lemma {:induction false} MembersTextInk(ms: seq<Member>, level: int, k: string)
    ensures Solid(MembersText(ms, level, k)) + (if ms == [] then 0 else 1) == MembersInk(ms) + Solid(k)
    decreases ms, 0
  {
    hide Solid;
    hide Spaces;
    hide Key;
    hide ValueText;
    hide Ink;
    if ms != [] {
      var m := ms[0];
      assert m.value < m;
      var rest := MembersText(ms[1..], level, k);
      var after := if |ms| == 1 then k else ",\n" + rest;
      MembersTextInk(ms[1..], level, k);
      PieceInk(level, m.name);
      SolidAppend(",\n", rest);
      ValueTextInk(m.value, level, after);
      SolidAppend(Key(m.name), ValueText(m.value, level, after));
      SolidAppend(Spaces(level), Key(m.name) + ValueText(m.value, level, after));
    }
  }

  lemma {:induction false} ItemsTextInk(vs: seq<Value>, level: int, k: string)
    ensures Solid(ItemsText(vs, level, k)) + (if vs == [] then 0 else 1) == ItemsInk(vs) + Solid(k)
    decreases vs, 0
  {
    hide Solid;
    hide Spaces;
    hide ValueText;
    hide Ink;
    if vs != [] {
      var rest := ItemsText(vs[1..], level, k);
      var after := if |vs| == 1 then k else Gap(vs[1]) + rest;
      ItemsTextInk(vs[1..], level, k);
      PieceInk(level, []);
      if |vs| > 1 {
        SolidAppend(Gap(vs[1]), rest);
      }
      ValueTextInk(vs[0], level, after);
      SolidEmpty();
      SolidAppend(Lead(vs[0], level), ValueText(vs[0], level, after));
    }
  }

  lemma SolidEmpty()
    ensures Solid([]) == 0
  {
  }

  // ---------- The round trip ----------

  /** The text of a whole document. */
  function DocumentText(ms: seq<Member>, level: int): string {
    Spaces(level) + ("{\n" + MembersText(ms, level + 1, (Spaces(level) + "\n") + ("}" + [])))
  }

  lemma DocumentPieces(out: string, sp: string, x: string)
    ensures sp + "\n}" == (sp + "\n") + ("}" + [])
    ensures (out + ([] + (sp + "{\n"))) + ([] + x) == out + (sp + ("{\n" + x))
  {
    assert "\n}" == "\n" + "}";
    Unlead(x);
    Unlead(sp + "{\n");
    Assoc(out, sp + "{\n", x);
    Assoc(sp, "{\n", x);
  }

  lemma DocumentWritten(c: Ctx, ms: seq<Member>)
    requires MembersWritable(ms)
    ensures var d := EmitAll(c, DocumentCalls(ms));
      d.level == c.level && d.out == c.out + DocumentText(ms, c.level)
  {
    hide EmitAll;
    hide Spaces;
    hide MembersText;
    hide MembersCalls;
    var b := Emit(c, DocBegin);
    EmitAround(c, DocBegin, MembersCalls(ms), DocEnd);
    var tail := (Spaces(c.level) + "\n") + ("}" + []);
    MembersWritten(b, ms, tail);
    DocumentPieces(c.out, Spaces(c.level), MembersText(ms, c.level + 1, tail));
  }

  lemma DocumentRead(ms: seq<Member>, level: int)
    requires MembersLegal(ms)
    ensures ParseDocument(DocumentText(ms, level)) == Some(Obj(ms))
  {
    hide ParseValue;
    hide MembersText;
    hide Spaces;
    SpacesWhite(level);
    ObjectTextRead(ms, level + 1, Spaces(level) + "\n", []);
    SkipsFirst(Spaces(level), "{\n" + MembersText(ms, level + 1, (Spaces(level) + "\n") + ("}" + [])));
  }

  lemma ReadIsLegal(text: string, v: Value)
    requires ParseDocument(text) == Some(v) && Solid(text) == Ink(v)
    ensures Legal(v)
  {
    hide ParseValue;
    hide Ink;
    hide Legal;
    ValueCost(text);
    SolidSkip(ParseValue(text).value.1);
  }

  lemma DocumentInk(ms: seq<Member>, level: int)
    ensures Solid(DocumentText(ms, level)) == Ink(Obj(ms))
  {
    hide Solid;
    hide Spaces;
    hide MembersText;
    hide MembersInk;
    PieceInk(level, []);
    EmptyLegal();
    SolidEmpty();
    var close := (Spaces(level) + "\n") + ("}" + []);
    SolidAppend("}", []);
    SolidAppend(Spaces(level) + "\n", "}" + []);
    var x := MembersText(ms, level + 1, close);
    MembersTextInk(ms, level + 1, close);
    SolidAppend("{\n", x);
    SolidAppend(Spaces(level), "{\n" + x);
  }

  /**
   The document written at any point of any stream parses back to itself, if and only if every
   string in it needs no escape and every number text is a JSON number.  A string that does need
   escapes may well parse, but never to itself: what an escape yields is shorter than the escape.
   */
  lemma RoundTrip(c: Ctx, ms: seq<Member>)
    requires MembersWritable(ms)
    ensures var d := EmitAll(c, DocumentCalls(ms));
      && d.level == c.level && |c.out| <= |d.out| && d.out[..|c.out|] == c.out
      && (ParseDocument(d.out[|c.out|..]) == Some(Obj(ms)) <==> MembersLegal(ms))
  {
    hide EmitAll;
    hide ParseValue;
    hide DocumentText;
    hide MembersLegal;
    DocumentWritten(c, ms);
    var d := EmitAll(c, DocumentCalls(ms));
    var text := DocumentText(ms, c.level);
    assert d.out[|c.out|..] == text;
    if MembersLegal(ms) {
      DocumentRead(ms, c.level);
    }
    if ParseDocument(text) == Some(Obj(ms)) {
      DocumentInk(ms, c.level);
      ReadIsLegal(text, Obj(ms));
    }
  }

  // ---------- Well-nested calls ----------

  datatype Kind = InDoc | InObj | InArr | InElem

  /** Which calls make sense inside which container. */
  predicate Fits(kind: Kind, call: Call) {
    match call
    case DocBegin => false
    case DocEnd => kind.InDoc?
    case ObjEnd => kind.InObj?
    case ElemObjEnd => kind.InElem?
    case ElemStr(_) => kind.InArr?
    case ElemNum(_) => kind.InArr?
    case ElemObjBegin => kind.InArr?
    case ArrEnd => kind.InArr?
    case _ => !kind.InArr?
  }

  /** The open containers after a call, the innermost first. */
  function Next(open: seq<Kind>, call: Call): seq<Kind>
    requires open != []
  {
    match call
    case ObjBegin(_) => [InObj] + open
    case ArrBegin(_) => [InArr] + open
    case ElemObjBegin => [InElem] + open
    case _ => if Closes(call) then open[1..] else open
  }

  predicate Nested(open: seq<Kind>, calls: seq<Call>)
    decreases |calls|
  {
    if open == [] then calls == []
    else calls != [] && Fits(open[0], calls[0]) && Nested(Next(open, calls[0]), calls[1..])
  }

  predicate WellNested(calls: seq<Call>) {
    calls != [] && calls[0].DocBegin? && Nested([InDoc], calls[1..])
  }

  function Closer(kind: Kind): Call {
    match kind
    case InDoc => DocEnd
    case InObj => ObjEnd
    case InArr => ArrEnd
    case InElem => ElemObjEnd
  }

  lemma {:induction false} MembersMore(m: Member, ms: seq<Member>)
    requires Writable(m.value) && MembersWritable(ms)
    ensures MembersWritable([m] + ms) && MembersCalls([m] + ms) == MemberCalls(m) + MembersCalls(ms)
  {
    assert ([m] + ms)[1..] == ms;
  }

  lemma {:induction false} ItemsMore(v: Value, vs: seq<Value>)
    requires !v.Arr? && Writable(v) && ItemsWritable(vs)
    ensures ItemsWritable([v] + vs) && ItemsCalls([v] + vs) == ItemCalls(v) + ItemsCalls(vs)
  {
    assert ([v] + vs)[1..] == vs;
  }

  lemma NothingWritten()
    ensures MembersWritable([]) && MembersCalls([]) == [] && ItemsWritable([]) && ItemsCalls([]) == []
  {
  }

  lemma Resume(open: Call, inner: seq<Call>, close: Call, later: seq<Call>, tail: seq<Call>)
    ensures [open] + (inner + ([close] + (later + tail))) == (([open] + inner + [close]) + later) + tail
  {
  }

  /** What is called up to the end of the innermost object or document is a list of members. */
  lemma {:induction false} GatherMembers(open: seq<Kind>, calls: seq<Call>)
    returns (ms: seq<Member>, rest: seq<Call>)
    requires open != [] && !open[0].InArr? && Nested(open, calls)
    ensures MembersWritable(ms) && calls == MembersCalls(ms) + ([Closer(open[0])] + rest)
    ensures Nested(open[1..], rest)
    decreases |calls|
  {
    hide MembersWritable;
    hide MembersCalls;
    hide ItemsWritable;
    hide ItemsCalls;
    NothingWritten();
    var call := calls[0];
    assert calls == [call] + calls[1..];
    match call
    case AttrStr(name, s) =>
      var ms', rest' := GatherMembers(open, calls[1..]);
      MembersMore(Member(name, Str(s)), ms');
      ms, rest := [Member(name, Str(s))] + ms', rest';
    case AttrNum(name, text) =>
      var ms', rest' := GatherMembers(open, calls[1..]);
      MembersMore(Member(name, Num(text)), ms');
      ms, rest := [Member(name, Num(text))] + ms', rest';
    case ObjBegin(name) =>
      var inner, after := GatherMembers([InObj] + open, calls[1..]);
      assert ([InObj] + open)[1..] == open;
      var ms', rest' := GatherMembers(open, after);
      MembersMore(Member(name, Obj(inner)), ms');
      Resume(call, MembersCalls(inner), ObjEnd, MembersCalls(ms'), [Closer(open[0])] + rest');
      ms, rest := [Member(name, Obj(inner))] + ms', rest';
    case ArrBegin(name) =>
      var inner, after := GatherItems([InArr] + open, calls[1..]);
      assert ([InArr] + open)[1..] == open;
      var ms', rest' := GatherMembers(open, after);
      MembersMore(Member(name, Arr(inner)), ms');
      Resume(call, ItemsCalls(inner), ArrEnd, MembersCalls(ms'), [Closer(open[0])] + rest');
      ms, rest := [Member(name, Arr(inner))] + ms', rest';
    case DocEnd =>
      ms, rest := [], calls[1..];
    case ObjEnd =>
      ms, rest := [], calls[1..];
    case ElemObjEnd =>
      ms, rest := [], calls[1..];
  }

  lemma {:induction false} GatherItems(open: seq<Kind>, calls: seq<Call>)
    returns (vs: seq<Value>, rest: seq<Call>)
    requires open != [] && open[0].InArr? && Nested(open, calls)
    ensures ItemsWritable(vs) && calls == ItemsCalls(vs) + ([ArrEnd] + rest)
    ensures Nested(open[1..], rest)
    decreases |calls|
  {
    hide MembersWritable;
    hide MembersCalls;
    hide ItemsWritable;
    hide ItemsCalls;
    NothingWritten();
    var call := calls[0];
    assert calls == [call] + calls[1..];
    match call
    case ElemStr(s) =>
      var vs', rest' := GatherItems(open, calls[1..]);
      ItemsMore(Str(s), vs');
      vs, rest := [Str(s)] + vs', rest';
    case ElemNum(text) =>
      var vs', rest' := GatherItems(open, calls[1..]);
      ItemsMore(Num(text), vs');
      vs, rest := [Num(text)] + vs', rest';
    case ElemObjBegin =>
      var inner, after := GatherMembers([InElem] + open, calls[1..]);
      assert ([InElem] + open)[1..] == open;
      var vs', rest' := GatherItems(open, after);
      ItemsMore(Obj(inner), vs');
      Resume(call, MembersCalls(inner), ElemObjEnd, ItemsCalls(vs'), [ArrEnd] + rest');
      vs, rest := [Obj(inner)] + vs', rest';
    case ArrEnd =>
      vs, rest := [], calls[1..];
  }

  predicate DocLast(open: seq<Kind>) {
    forall i :: 0 <= i < |open| - 1 ==> !open[i].InDoc?
  }

  lemma {:induction false} NestedAllowed(open: seq<Kind>, counts: seq<nat>, calls: seq<Call>)
    requires Nested(open, calls) && DocLast(open) && |counts| == |open|
    ensures AllAllowed(counts, calls)
    decreases |calls|
  {
    if calls != [] {
      NestedAllowed(Next(open, calls[0]), Track(counts, calls[0]), calls[1..]);
    }
  }

  /** Well-nested calls keep to the discipline under which the bit replaces the counts. */
  lemma WellNestedRefines(c: Ctx, calls: seq<Call>)
    requires WellNested(calls)
    ensures AllAllowed([], calls)
    ensures EmitAll(c, calls).out == c.out + Counted([], c.level, calls)
  {
    NestedAllowed([InDoc], Track([], calls[0]), calls[1..]);
    BitRefinesStack(c, [], c.level, calls);
  }

  /** The calls for members tell the members, and where they end. */
  lemma {:induction false} SameMembers(ms: seq<Member>, ms': seq<Member>, close: Call,
                                       rest: seq<Call>, rest': seq<Call>)
    requires MembersWritable(ms) && MembersWritable(ms') && Closes(close)
    requires MembersCalls(ms) + ([close] + rest) == MembersCalls(ms') + ([close] + rest')
    ensures ms == ms' && rest == rest'
    decreases ms, 2
  {
    hide MembersCalls;
    hide MembersWritable;
    var all := MembersCalls(ms) + ([close] + rest);
    MembersHead(ms, close, rest);
    MembersHead(ms', close, rest');
    if ms == [] {
      assert all[1..] == rest && all[1..] == rest';
    } else {
      var more, more' := MembersCalls(ms[1..]) + ([close] + rest), MembersCalls(ms'[1..]) + ([close] + rest');
      SameMember(ms[0], ms'[0], more, more');
      SameMembers(ms[1..], ms'[1..], close, rest, rest');
      assert ms == [ms[0]] + ms[1..] && ms' == [ms'[0]] + ms'[1..];
    }
  }

  lemma {:induction false} MembersHead(ms: seq<Member>, close: Call, rest: seq<Call>)
    requires MembersWritable(ms) && Closes(close)
    ensures var all := MembersCalls(ms) + ([close] + rest);
      if ms == [] then all == [close] + rest
      else
        && Writable(ms[0].value) && MembersWritable(ms[1..])
        && all == MemberCalls(ms[0]) + (MembersCalls(ms[1..]) + ([close] + rest))
        && !Closes(all[0])
  {
    hide MemberCalls;
    if ms == [] {
      assert [] + ([close] + rest) == [close] + rest;
    } else {
      JoinCalls(MemberCalls(ms[0]), MembersCalls(ms[1..]), [close] + rest);
      MemberSplit(ms[0], []);
      assert MemberCalls(ms[0]) + [] == MemberCalls(ms[0]);
    }
  }

  lemma JoinCalls(a: seq<Call>, b: seq<Call>, c: seq<Call>)
    ensures (a + b) + c == a + (b + c)
  {
  }

  lemma Reopen(open: Call, inner: seq<Call>, close: Call, more: seq<Call>)
    ensures ([open] + inner + [close]) + more == [open] + (inner + ([close] + more))
  {
  }

  lemma SameTails(c: Call, a: seq<Call>, c': Call, b: seq<Call>)
    requires [c] + a == [c'] + b
    ensures c == c' && a == b
  {
    assert ([c] + a)[0] == c && ([c'] + b)[0] == c';
    assert ([c] + a)[1..] == a && ([c'] + b)[1..] == b;
  }

  /** The first call for a member, and the calls after it. */
  function FirstCall(m: Member): Call
    requires Writable(m.value)
  {
    match m.value
    case Str(s) => AttrStr(m.name, s)
    case Num(text) => AttrNum(m.name, text)
    case Obj(_) => ObjBegin(m.name)
    case Arr(_) => ArrBegin(m.name)
  }

  function LaterCalls(m: Member, more: seq<Call>): seq<Call> {
    match m.value
    case Obj(ms) => MembersCalls(ms) + ([ObjEnd] + more)
    case Arr(vs) => ItemsCalls(vs) + ([ArrEnd] + more)
    case _ => more
  }

  lemma {:induction false} MemberSplit(m: Member, more: seq<Call>)
    requires Writable(m.value)
    ensures MemberCalls(m) + more == [FirstCall(m)] + LaterCalls(m, more)
  {
    hide MembersCalls;
    hide ItemsCalls;
    match m.value
    case Obj(ms) => Reopen(ObjBegin(m.name), MembersCalls(ms), ObjEnd, more);
    case Arr(vs) => Reopen(ArrBegin(m.name), ItemsCalls(vs), ArrEnd, more);
    case _ =>
  }

  lemma {:induction false} SameMember(m: Member, m': Member, more: seq<Call>, more': seq<Call>)
    requires Writable(m.value) && Writable(m'.value) && MemberCalls(m) + more == MemberCalls(m') + more'
    ensures m == m' && more == more'
    decreases m, 1
  {
    hide MemberCalls;
    hide MembersCalls;
    hide ItemsCalls;
    MemberSplit(m, more);
    MemberSplit(m', more');
    SameTails(FirstCall(m), LaterCalls(m, more), FirstCall(m'), LaterCalls(m', more'));
    assert m.value < m;
    match m.value
    case Obj(ms) => SameMembers(ms, m'.value.members, ObjEnd, more, more');
    case Arr(vs) => SameItems(vs, m'.value.items, more, more');
    case _ =>
  }

  lemma {:induction false} SameItems(vs: seq<Value>, vs': seq<Value>, rest: seq<Call>, rest': seq<Call>)
    requires ItemsWritable(vs) && ItemsWritable(vs')
    requires ItemsCalls(vs) + ([ArrEnd] + rest) == ItemsCalls(vs') + ([ArrEnd] + rest')
    ensures vs == vs' && rest == rest'
    decreases vs, 2
  {
    hide ItemsCalls;
    hide ItemsWritable;
    var all := ItemsCalls(vs) + ([ArrEnd] + rest);
    ItemsHead(vs, rest);
    ItemsHead(vs', rest');
    if vs == [] {
      assert all[1..] == rest && all[1..] == rest';
    } else {
      var more, more' := ItemsCalls(vs[1..]) + ([ArrEnd] + rest), ItemsCalls(vs'[1..]) + ([ArrEnd] + rest');
      SameItem(vs[0], vs'[0], more, more');
      SameItems(vs[1..], vs'[1..], rest, rest');
      assert vs == [vs[0]] + vs[1..] && vs' == [vs'[0]] + vs'[1..];
    }
  }

  lemma {:induction false} ItemsHead(vs: seq<Value>, rest: seq<Call>)
    requires ItemsWritable(vs)
    ensures var all := ItemsCalls(vs) + ([ArrEnd] + rest);
      if vs == [] then all == [ArrEnd] + rest
      else
        && Writable(vs[0]) && !vs[0].Arr? && ItemsWritable(vs[1..])
        && all == ItemCalls(vs[0]) + (ItemsCalls(vs[1..]) + ([ArrEnd] + rest))
        && !all[0].ArrEnd?
  {
    if vs == [] {
      assert [] + ([ArrEnd] + rest) == [ArrEnd] + rest;
    } else {
      JoinCalls(ItemCalls(vs[0]), ItemsCalls(vs[1..]), [ArrEnd] + rest);
      assert ItemCalls(vs[0]) != [] && !ItemCalls(vs[0])[0].ArrEnd?;
    }
  }

  lemma {:induction false} SameItem(v: Value, v': Value, more: seq<Call>, more': seq<Call>)
    requires Writable(v) && !v.Arr? && Writable(v') && !v'.Arr?
    requires ItemCalls(v) + more == ItemCalls(v') + more'
    ensures v == v' && more == more'
    decreases v, 1
  {
    hide MembersCalls;
    assert (ItemCalls(v) + more)[0] == ItemCalls(v)[0] && (ItemCalls(v') + more')[0] == ItemCalls(v')[0];
    match v
    case Obj(ms) =>
      var ms' := v'.members;
      Reopen(ElemObjBegin, MembersCalls(ms), ElemObjEnd, more);
      Reopen(ElemObjBegin, MembersCalls(ms'), ElemObjEnd, more');
      SameTails(ElemObjBegin, MembersCalls(ms) + ([ElemObjEnd] + more),
                ElemObjBegin, MembersCalls(ms') + ([ElemObjEnd] + more'));
      SameMembers(ms, ms', ElemObjEnd, more, more');
    case _ =>
      SameTails(ItemCalls(v)[0], more, ItemCalls(v')[0], more');
  }

  /** Different documents are written with different calls. */
  lemma {:induction false} SameDocument(ms: seq<Member>, ms': seq<Member>)
    requires MembersWritable(ms) && MembersWritable(ms') && DocumentCalls(ms) == DocumentCalls(ms')
    ensures ms == ms'
  {
    hide MembersCalls;
    assert DocumentCalls(ms)[1..] == MembersCalls(ms) + ([DocEnd] + []);
    assert DocumentCalls(ms')[1..] == MembersCalls(ms') + ([DocEnd] + []);
    SameMembers(ms, ms', DocEnd, [], []);
  }

  /** Every well-nested sequence of calls describes one document, and the document comes back. */
  lemma CallsRoundTrip(c: Ctx, calls: seq<Call>) returns (ms: seq<Member>)
    requires WellNested(calls)
    ensures MembersWritable(ms) && calls == DocumentCalls(ms)
    ensures forall ms' :: MembersWritable(ms') && calls == DocumentCalls(ms') ==> ms' == ms
    ensures var d := EmitAll(c, calls);
      && d.level == c.level && |c.out| <= |d.out| && d.out[..|c.out|] == c.out
      && (ParseDocument(d.out[|c.out|..]) == Some(Obj(ms)) <==> MembersLegal(ms))
  {
    hide EmitAll;
    hide ParseDocument;
    hide MembersLegal;
    var ms', rest := GatherMembers([InDoc], calls[1..]);
    ms := ms';
    assert rest == [];
    assert calls == [DocBegin] + calls[1..];
    assert calls == DocumentCalls(ms);
    forall ms' | MembersWritable(ms') && calls == DocumentCalls(ms') ensures ms' == ms {
      SameDocument(ms', ms);
    }
    RoundTrip(c, ms);
  }
}
