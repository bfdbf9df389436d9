/**
 JSON values and their texts: the decimal form of integers, and a parser for the grammar of
 RFC 8259 (sections 2 to 7).  The parser is the reference for the writer in `JsonEmit`.
 */
module Json {
  import opened Options

  // ---------- Values ----------

  datatype Literal = True | False | Null

  /** A JSON value; a number is its text. */
  datatype Value =
    | Str(s: string) | Num(text: string) | Word(word: Literal)
    | Obj(members: seq<Member>) | Arr(items: seq<Value>)

  datatype Member = Member(name: string, value: Value)

  predicate White(ch: char) {
    ch == ' ' || ch == '\n' || ch == '\t' || ch == '\r'
  }

  predicate Digit(ch: char) {
    '0' <= ch <= '9'
  }

  predicate NumChar(ch: char) {
    Digit(ch) || ch == '-' || ch == '+' || ch == '.' || ch == 'e' || ch == 'E'
  }

  /** A string that needs no escapes. */
  predicate Clean(s: string) {
    forall i :: 0 <= i < |s| ==> s[i] != '"' && s[i] != '\\' && s[i] >= ' '
  }

  // ---------- Numbers (RFC 8259, section 6) ----------

  predicate AllDigits(s: string) {
    s != [] && forall i :: 0 <= i < |s| ==> Digit(s[i])
  }

  predicate IsInt(s: string) {
    AllDigits(s) && (|s| == 1 || s[0] != '0')
  }

  predicate IsExp(s: string) {
    s == [] ||
    ((s[0] == 'e' || s[0] == 'E') &&
     (AllDigits(s[1..]) || (|s| > 1 && (s[1] == '+' || s[1] == '-') && AllDigits(s[2..]))))
  }

  predicate IsFraction(s: string) {
    IsExp(s) || (s != [] && s[0] == '.' && exists k :: 1 <= k <= |s| && AllDigits(s[1..k]) && IsExp(s[k..]))
  }

  predicate IsNumber(s: string) {
    var t := if s != [] && s[0] == '-' then s[1..] else s;
    exists k :: 0 <= k <= |t| && IsInt(t[..k]) && IsFraction(t[k..])
  }

  predicate AllNum(s: string) {
    forall i :: 0 <= i < |s| ==> NumChar(s[i])
  }

  lemma AllNumJoin(s: string, k: nat)
    requires k <= |s| && AllNum(s[..k]) && AllNum(s[k..])
    ensures AllNum(s)
  {
    forall i | 0 <= i < |s| ensures NumChar(s[i]) {
      assert s[i] == if i < k then s[..k][i] else s[k..][i - k];
    }
  }

  lemma ExpChars(s: string)
    requires IsExp(s)
    ensures AllNum(s)
  {
    if s != [] {
      assert AllNum(s[..1]);
      if AllDigits(s[1..]) {
        AllNumJoin(s, 1);
      } else {
        assert AllNum(s[..2]);
        AllNumJoin(s, 2);
      }
    }
  }

  lemma FractionChars(s: string)
    requires IsFraction(s)
    ensures AllNum(s)
  {
    if IsExp(s) {
      ExpChars(s);
    } else {
      var m :| 1 <= m <= |s| && AllDigits(s[1..m]) && IsExp(s[m..]);
      ExpChars(s[m..]);
      forall i | 0 <= i < m ensures NumChar(s[..m][i]) {
        assert i > 0 ==> s[i] == s[1..m][i - 1];
      }
      AllNumJoin(s, m);
    }
  }

  lemma NumberChars(s: string)
    requires IsNumber(s)
    ensures s != [] && AllNum(s)
  {
    var t := if s != [] && s[0] == '-' then s[1..] else s;
    var k :| 0 <= k <= |t| && IsInt(t[..k]) && IsFraction(t[k..]);
    FractionChars(t[k..]);
    assert IsInt(t[..k]);
    AllNumJoin(t, k);
    if s[0] == '-' {
      assert AllNum(s[..1]);
      AllNumJoin(s, 1);
    }
  }

  /** The decimal text of an integer. */
  function Decimal(n: int): string {
    if n < 0 then ['-'] + Decimal'(-n) else Decimal'(n)
  }

  function Decimal'(n: nat): string {
    (if n < 10 then [] else Decimal'(n / 10)) + [('0' as int + n % 10) as char]
  }

  function IntOf(s: string): int {
    if s != [] && s[0] == '-' then -IntOf'(s[1..]) else IntOf'(s)
  }

  function IntOf'(s: string): int {
    if s == [] then 0 else 10 * IntOf'(s[..|s| - 1]) + (s[|s| - 1] as int - '0' as int)
  }

  lemma {:induction false} Decimal'Digits(n: nat)
    ensures AllDigits(Decimal'(n)) && IntOf'(Decimal'(n)) == n
    ensures Decimal'(n)[0] == '0' <==> n == 0
    decreases n
  {
    var d := Decimal'(n);
    if n >= 10 {
      Decimal'Digits(n / 10);
      assert d[..|d| - 1] == Decimal'(n / 10);
    } else {
      assert d[..0] == [];
    }
  }

  /** The text of an integer is a JSON number, and the integer can be read back from it. */
  lemma DecimalIsNumber(n: int)
    ensures IsNumber(Decimal(n)) && IntOf(Decimal(n)) == n
  {
    var m := if n < 0 then -n else n;
    var d := Decimal'(m);
    Decimal'Digits(m);
    assert |d| == 1 || d[0] != '0' by {
      if m < 10 {
        assert |d| == 1;
      }
    }
    assert d[..|d|] == d && d[|d|..] == [];
    assert IsInt(d[..|d|]) && IsFraction(d[|d|..]);
    assert Digit(d[0]);
    if n < 0 {
      assert Decimal(n)[1..] == d;
    }
  }

  // ---------- The reference parser ----------

  function Skip(s: string): (t: string)
    ensures |t| <= |s|
  {
    if s != [] && White(s[0]) then Skip(s[1..]) else s
  }

  function Hex(ch: char): (r: Option<nat>)
    ensures r.Some? ==> r.value < 16
  {
    if '0' <= ch <= '9' then Some(ch as nat - '0' as nat)
    else if 'a' <= ch <= 'f' then Some(ch as nat - 'a' as nat + 10)
    else if 'A' <= ch <= 'F' then Some(ch as nat - 'A' as nat + 10)
    else None
  }

  /** The number written with four hexadecimal digits at position `i`. */
  function Hex4(s: string, i: nat): (r: Option<nat>)
    ensures r.Some? ==> i + 4 <= |s| && r.value < 0x1_0000
  {
    if i + 4 > |s| then None else
    var a, b, c, d := Hex(s[i]), Hex(s[i + 1]), Hex(s[i + 2]), Hex(s[i + 3]);
    if a.None? || b.None? || c.None? || d.None? then None
    else Some(0x1000 * a.value + 0x100 * b.value + 0x10 * c.value + d.value)
  }

  /** The character that the escape sequence at the start of `s` stands for, and its length. */
  function Escape(s: string): (r: Option<(char, nat)>)
    ensures r.Some? ==> 2 <= r.value.1 <= |s| && s[1] > ' '
  {
    if |s| < 2 then None
    else if s[1] == '"' || s[1] == '\\' || s[1] == '/' then Some((s[1], 2))
    else if s[1] == 'b' then Some((8 as char, 2))
    else if s[1] == 'f' then Some((12 as char, 2))
    else if s[1] == 'n' then Some(('\n', 2))
    else if s[1] == 'r' then Some(('\r', 2))
    else if s[1] == 't' then Some(('\t', 2))
    else if s[1] == 'u' then UnicodeEscape(s)
    else None
  }

  /** A code point with four digits, or a surrogate pair for one that needs more. */
  function UnicodeEscape(s: string): (r: Option<(char, nat)>)
    ensures r.Some? ==> 6 <= r.value.1 <= |s|
  {
    var high, low := Hex4(s, 2), Hex4(s, 8);
    if high.None? then None
    else if high.value < 0xD800 || 0xE000 <= high.value then Some((high.value as char, 6))
    else if high.value < 0xDC00 && low.Some? && s[6] == '\\' && s[7] == 'u' && 0xDC00 <= low.value < 0xE000 then
      Some(((0x1_0000 + (high.value - 0xD800) * 0x400 + (low.value - 0xDC00)) as char, 12))
    else None
  }

  /** The characters of a string up to its closing quote, and the text after the quote. */
  function ParseStr(s: string): (r: Option<(string, string)>)
    ensures r.Some? ==> |r.value.1| < |s|
  {
    if s == [] || s[0] < ' ' then None
    else if s[0] == '"' then Some(([], s[1..]))
    else if s[0] != '\\' then
      var r := ParseStr(s[1..]);
      if r.None? then None else Some(([s[0]] + r.value.0, r.value.1))
    else
      var e := Escape(s);
      if e.None? then None else
      var r := ParseStr(s[e.value.1..]);
      if r.None? then None else Some(([e.value.0] + r.value.0, r.value.1))
  }

  function Spelling(w: Literal): string {
    match w
    case True => "true"
    case False => "false"
    case Null => "null"
  }

  /** The literal at the start of a text. */
  function ParseWord(t: string): (w: Option<Literal>)
    ensures w.Some? ==> Spelling(w.value) <= t
  {
    if "true" <= t then Some(True)
    else if "false" <= t then Some(False)
    else if "null" <= t then Some(Null)
    else None
  }

  function NumEnd(s: string): (n: nat)
    ensures n <= |s|
  {
    if s != [] && NumChar(s[0]) then 1 + NumEnd(s[1..]) else 0
  }

  function ParseValue(s: string): (r: Option<(Value, string)>)
    ensures r.Some? ==> |r.value.1| < |s|
    decreases |s|, 0
  {
    var t := Skip(s);
    if t == [] then None
    else if t[0] == '"' then
      var r := ParseStr(t[1..]);
      if r.None? then None else Some((Str(r.value.0), r.value.1))
    else if t[0] == '{' then
      var u := Skip(t[1..]);
      if u != [] && u[0] == '}' then Some((Obj([]), u[1..]))
      else
        var r := ParseMembers(u);
        if r.None? then None else Some((Obj(r.value.0), r.value.1))
    else if t[0] == '[' then
      var u := Skip(t[1..]);
      if u != [] && u[0] == ']' then Some((Arr([]), u[1..]))
      else
        var r := ParseItems(u);
        if r.None? then None else Some((Arr(r.value.0), r.value.1))
    else if ParseWord(t).Some? then
      var w := ParseWord(t).value;
      Some((Word(w), t[|Spelling(w)|..]))
    else
      var n := NumEnd(t);
      if n > 0 && IsNumber(t[..n]) then Some((Num(t[..n]), t[n..])) else None
  }

  function ParseMembers(s: string): (r: Option<(seq<Member>, string)>)
    ensures r.Some? ==> |r.value.1| < |s|
    decreases |s|, 1
  {
    var t := Skip(s);
    if t == [] || t[0] != '"' then None else
    var name := ParseStr(t[1..]);
    if name.None? then None else
    var u := Skip(name.value.1);
    if u == [] || u[0] != ':' then None else
    var v := ParseValue(u[1..]);
    if v.None? then None else
    var m := Member(name.value.0, v.value.0);
    var w := Skip(v.value.1);
    if w == [] then None
    else if w[0] == '}' then Some(([m], w[1..]))
    else if w[0] != ',' then None
    else
      var ms := ParseMembers(w[1..]);
      if ms.None? then None else Some(([m] + ms.value.0, ms.value.1))
  }

  function ParseItems(s: string): (r: Option<(seq<Value>, string)>)
    ensures r.Some? ==> |r.value.1| < |s|
    decreases |s|, 1
  {
    var v := ParseValue(s);
    if v.None? then None else
    var w := Skip(v.value.1);
    if w == [] then None
    else if w[0] == ']' then Some(([v.value.0], w[1..]))
    else if w[0] != ',' then None
    else
      var vs := ParseItems(w[1..]);
      if vs.None? then None else Some(([v.value.0] + vs.value.0, vs.value.1))
  }

  /** A whole document: a value with nothing but white space after it. */
  function ParseDocument(s: string): Option<Value> {
    var r := ParseValue(s);
    if r.Some? && Skip(r.value.1) == [] then Some(r.value.0) else None
  }
}
