/**
  JSON texts as RFC 8259 defines them, without numbers: a parser that accepts what the host's
  `json.loads` accepts, the receiver's escaping, and a compact writer.
*/
module Json {
  import opened Wrappers

  datatype Value =
    | Null
    | Bool(b: bool)
    | Str(s: string)
    | Arr(items: seq<Value>)
    | Obj(members: seq<Member>)

  datatype Member = Member(key: string, value: Value)

  datatype Parsed<+T> = Parsed(value: T, rest: string) | Bad

  // ---------- escaping (`json_escape`) ----------

  function HexDigit(n: nat): char
    requires n < 16
  {
    if n < 10 then '0' + n as char else 'a' + (n - 10) as char
  }

  function EscapeChar(c: char): (t: string)
    ensures |t| > 0
  {
    if c == '"' then "\\\""
    else if c == '\\' then "\\\\"
    else if c == '\n' then "\\n"
    else if c == '\r' then "\\r"
    else if c == '\t' then "\\t"
    else if c as int < 0x20 then ['\\', 'u', '0', '0', HexDigit(c as int / 16), HexDigit(c as int % 16)]
    else [c]
  }

  function Escape(s: string): string {
    if s == [] then [] else EscapeChar(s[0]) + Escape(s[1..])
  }

  /** The loop of `json_escape`. */
  method JsonEscape(s: string) returns (out: string)
    ensures out == Escape(s)
  {
    out := [];
    for i := 0 to |s|
      invariant out + Escape(s[i..]) == Escape(s)
    {
      out := out + EscapeChar(s[i]);
      assert s[i..][1..] == s[i + 1..];
    }
  }

  // ---------- parsing ----------

  function HexValue(c: char): Option<nat> {
    if '0' <= c <= '9' then Some(c as int - '0' as int)
    else if 'a' <= c <= 'f' then Some(c as int - 'a' as int + 10)
    else if 'A' <= c <= 'F' then Some(c as int - 'A' as int + 10)
    else None
  }

  function Hex4(s: string): Option<nat>
    requires |s| >= 4
  {
    var a, b, c, d := HexValue(s[0]), HexValue(s[1]), HexValue(s[2]), HexValue(s[3]);
    if a.Some? && b.Some? && c.Some? && d.Some?
    then Some(4096 * a.value + 256 * b.value + 16 * c.value + d.value) else None
  }

  /** A two-character escape. */
  function SimpleEscape(c: char): Option<char> {
    match c
    case '"' => Some('"')
    case '\\' => Some('\\')
    case '/' => Some('/')
    case 'b' => Some('\U{8}')
    case 'f' => Some('\U{c}')
    case 'n' => Some('\n')
    case 'r' => Some('\r')
    case 't' => Some('\t')
    case _ => None
  }

  /** One character of a string and how many characters of the text denote it. */
  function ReadChar(s: string): (r: Option<(char, nat)>)
    requires |s| > 0
    ensures r.Some? ==> 0 < r.value.1 <= |s|
  {
    if s[0] == '"' || (s[0] as int) < 0x20 then None
    else if s[0] != '\\' then Some((s[0], 1))
    else if |s| < 2 then None
    else if s[1] == 'u' then
      if |s| < 6 || Hex4(s[2..6]).None? then None
      else
        var hi := Hex4(s[2..6]).value;
        if hi < 0xD800 || 0xE000 <= hi < 0x11_0000 then Some((hi as char, 6))
        else if hi < 0xDC00 && |s| >= 12 && s[6] == '\\' && s[7] == 'u' && Hex4(s[8..12]).Some?
                && 0xDC00 <= Hex4(s[8..12]).value < 0xE000 then
          var code := 0x1_0000 + 0x400 * (hi - 0xD800) + (Hex4(s[8..12]).value - 0xDC00);
          Some((code as char, 12))
        else None
    else
      match SimpleEscape(s[1])
      case Some(c) => Some((c, 2))
      case None => None
  }

  /** The rest of a string after its opening quote. */
  function ParseString(s: string): (r: Parsed<string>)
    ensures r.Parsed? ==> |r.rest| < |s|
    decreases |s|
  {
    if s == [] then Bad
    else if s[0] == '"' then Parsed([], s[1..])
    else
      match ReadChar(s)
      case None => Bad
      case Some((c, n)) =>
        match ParseString(s[n..])
        case Bad => Bad
        case Parsed(cs, rest) => Parsed([c] + cs, rest)
  }

  function SkipSpace(s: string): (t: string)
    ensures |t| <= |s|
  {
    if s != [] && s[0] in {' ', '\t', '\n', '\r'} then SkipSpace(s[1..]) else s
  }

  function ParseValue(text: string): (r: Parsed<Value>)
    ensures r.Parsed? ==> |r.rest| < |text|
    decreases |text|, 1
  {
    var s := SkipSpace(text);
    if s == [] then Bad
    else if s[0] == '"' then
      match ParseString(s[1..])
      case Bad => Bad
      case Parsed(t, rest) => Parsed(Str(t), rest)
    else if s[0] == '[' then
      var t := SkipSpace(s[1..]);
      if t != [] && t[0] == ']' then Parsed(Arr([]), t[1..])
      else
        match ParseItems(s[1..])
        case Bad => Bad
        case Parsed(items, rest) => Parsed(Arr(items), rest)
    else if s[0] == '{' then
      var t := SkipSpace(s[1..]);
      if t != [] && t[0] == '}' then Parsed(Obj([]), t[1..])
      else
        match ParseMembers(s[1..])
        case Bad => Bad
        case Parsed(members, rest) => Parsed(Obj(members), rest)
    else if "true" <= s then Parsed(Bool(true), s[4..])
    else if "false" <= s then Parsed(Bool(false), s[5..])
    else if "null" <= s then Parsed(Null, s[4..])
    else Bad
  }

  function ParseItems(text: string): (r: Parsed<seq<Value>>)
    ensures r.Parsed? ==> |r.rest| < |text|
    decreases |text|, 2
  {
    match ParseValue(text)
    case Bad => Bad
    case Parsed(v, after) =>
      var s := SkipSpace(after);
      if s == [] then Bad
      else if s[0] == ']' then Parsed([v], s[1..])
      else if s[0] != ',' then Bad
      else
        match ParseItems(s[1..])
        case Bad => Bad
        case Parsed(vs, rest) => Parsed([v] + vs, rest)
  }

  function ParseMembers(text: string): (r: Parsed<seq<Member>>)
    ensures r.Parsed? ==> |r.rest| < |text|
    decreases |text|, 2
  {
    match ParseMember(text)
    case Bad => Bad
    case Parsed(m, after) =>
      var s := SkipSpace(after);
      if s == [] then Bad
      else if s[0] == '}' then Parsed([m], s[1..])
      else if s[0] != ',' then Bad
      else
        match ParseMembers(s[1..])
        case Bad => Bad
        case Parsed(ms, rest) => Parsed([m] + ms, rest)
  }

  function ParseMember(text: string): (r: Parsed<Member>)
    ensures r.Parsed? ==> |r.rest| < |text|
    decreases |text|, 1
  {
    var s := SkipSpace(text);
    if s == [] || s[0] != '"' then Bad
    else
      match ParseString(s[1..])
      case Bad => Bad
      case Parsed(key, after) =>
        var t := SkipSpace(after);
        if t == [] || t[0] != ':' then Bad
        else
          match ParseValue(t[1..])
          case Bad => Bad
          case Parsed(v, rest) => Parsed(Member(key, v), rest)
  }

  /** `json.loads`: one value and nothing but space around it. */
  function Loads(text: string): Option<Value> {
    match ParseValue(text)
    case Bad => None
    case Parsed(v, rest) => if SkipSpace(rest) == [] then Some(v) else None
  }

  /** `dict.get`: of equal keys the last one counts. */
  function Get(members: seq<Member>, key: string, default: Value): Value {
    if members == [] then default
    else
      var last := members[|members| - 1];
      if last.key == key then last.value else Get(members[..|members| - 1], key, default)
  }

  // ---------- writing ----------

  function Quote(s: string): (t: string)
    ensures |t| > 0 && t[0] == '"'
  {
    "\"" + (Escape(s) + "\"")
  }

  function Write(v: Value): (t: string)
    ensures |t| > 0 && t[0] !in {' ', '\t', '\n', '\r', ']', '}', ','}
    decreases v, 0
  {
    match v
    case Null => "null"
    case Bool(b) => if b then "true" else "false"
    case Str(s) => Quote(s)
    case Arr(items) => "[" + (WriteItems(items) + "]")
    case Obj(members) => "{" + (WriteMembers(members) + "}")
  }

  function WriteItems(items: seq<Value>): (t: string)
    ensures items == [] <==> t == []
    ensures t != [] ==> t[0] !in {' ', '\t', '\n', '\r', ']', '}', ','}
    decreases items, 1
  {
    if items == [] then []
    else if |items| == 1 then Write(items[0])
    else Write(items[0]) + ("," + WriteItems(items[1..]))
  }

  function WriteMembers(members: seq<Member>): (t: string)
    ensures members == [] <==> t == []
    ensures t != [] ==> t[0] == '"'
    decreases members, 1
  {
    if members == [] then []
    else
      var head := Quote(members[0].key) + (":" + Write(members[0].value));
      if |members| == 1 then head else head + ("," + WriteMembers(members[1..]))
  }

  // ---------- round trips ----------

  lemma ReadEscapedChar(c: char, rest: string)
    ensures ReadChar(EscapeChar(c) + rest) == Some((c, |EscapeChar(c)|))
    ensures (EscapeChar(c) + rest)[0] != '"'
  {
  }

  /** Parsing undoes escaping, for every string and whatever follows the closing quote. */
  lemma {:induction false} ParseEscaped(s: string, rest: string)
    ensures ParseString(Escape(s) + ("\"" + rest)) == Parsed(s, rest)
  {
    var tail := "\"" + rest;
    if s == [] {
      assert Escape(s) + tail == tail && tail[1..] == rest;
    } else {
      hide ReadChar, EscapeChar, ParseString;
      var e, more := EscapeChar(s[0]), Escape(s[1..]) + tail;
      Assoc(e, Escape(s[1..]), tail);
      ReadEscapedChar(s[0], more);
      ParseStringStep(s[0], e, more);
      ParseEscaped(s[1..], rest);
      assert [s[0]] + s[1..] == s;
    }
  }

  lemma ParseStringStep(c: char, e: string, more: string)
    requires e != [] && (e + more)[0] != '"' && ReadChar(e + more) == Some((c, |e|))
    ensures ParseString(more).Parsed? ==>
      ParseString(e + more) == Parsed([c] + ParseString(more).value, ParseString(more).rest)
  {
    hide ReadChar;
    assert (e + more)[|e|..] == more;
  }

  lemma ParseQuoted(s: string, rest: string)
    ensures SkipSpace(Quote(s) + rest) == Quote(s) + rest
    ensures ParseString((Quote(s) + rest)[1..]) == Parsed(s, rest)
  {
    hide Escape, ParseString;
    assert (Quote(s) + rest)[1..] == Escape(s) + ("\"" + rest);
    ParseEscaped(s, rest);
  }

  lemma ParseWord(v: Value, rest: string)
    requires v.Null? || v.Bool?
    ensures ParseValue(Write(v) + rest) == Parsed(v, rest)
  {
  }

  /** Reading back what was written gives the value itself, for every value. */
  lemma {:induction false} ParseWritten(v: Value, rest: string)
    ensures ParseValue(Write(v) + rest) == Parsed(v, rest)
    decreases v, 0
  {
    hide ParseString, Quote, WriteItems, WriteMembers, ParseItems, ParseMembers;
    var s := Write(v) + rest;
    match v
    case Null => ParseWord(v, rest);
    case Bool(b) => ParseWord(v, rest);
    case Str(t) => ParseQuoted(t, rest);
    case Arr(items) =>
      var inner := WriteItems(items) + ("]" + rest);
      assert s[1..] == inner;
      if items == [] {
        assert inner == "]" + rest;
        assert inner[1..] == rest;
      } else {
        ParseWrittenItems(items, rest);
      }
    case Obj(members) =>
      var inner := WriteMembers(members) + ("}" + rest);
      assert s[1..] == inner;
      if members == [] {
        assert inner == "}" + rest;
        assert inner[1..] == rest;
      } else {
        ParseWrittenMembers(members, rest);
      }
  }

  lemma ParseItemsStep(v: Value, text: string, after: string)
    requires ParseValue(text) == Parsed(v, after) && after != []
    ensures after[0] == ']' ==> ParseItems(text) == Parsed([v], after[1..])
    ensures after[0] == ',' && ParseItems(after[1..]).Parsed? ==>
      ParseItems(text) == Parsed([v] + ParseItems(after[1..]).value, ParseItems(after[1..]).rest)
  {
    hide ParseValue;
  }

  lemma {:induction false} ParseWrittenItems(items: seq<Value>, rest: string)
    requires items != []
    ensures ParseItems(WriteItems(items) + ("]" + rest)) == Parsed(items, rest)
    decreases items, 1
  {
    hide ParseValue, Write, ParseItems;
    var v := items[0];
    if |items| == 1 {
      var after := "]" + rest;
      ParseWritten(v, after);
      ParseItemsStep(v, Write(v) + after, after);
      assert after[1..] == rest && [v] == items;
    } else {
      var more := WriteItems(items[1..]) + ("]" + rest);
      var after := "," + more;
      Assoc(Write(v), "," + WriteItems(items[1..]), "]" + rest);
      Assoc(",", WriteItems(items[1..]), "]" + rest);
      ParseWritten(v, after);
      assert after[1..] == more;
      ParseWrittenItems(items[1..], rest);
      ParseItemsStep(v, Write(v) + after, after);
      assert [v] + items[1..] == items;
    }
  }

  lemma {:induction false} ParseWrittenMember(m: Member, rest: string)
    ensures ParseMember(Quote(m.key) + (":" + Write(m.value)) + rest) == Parsed(m, rest)
    decreases m, 0
  {
    hide ParseValue, Write, Quote, ParseString;
    var after := ":" + (Write(m.value) + rest);
    Assoc(Quote(m.key), ":" + Write(m.value), rest);
    Assoc(":", Write(m.value), rest);
    ParseQuoted(m.key, after);
    assert after[1..] == Write(m.value) + rest;
    ParseWritten(m.value, rest);
  }

  lemma ParseMembersStep(m: Member, text: string, after: string)
    requires ParseMember(text) == Parsed(m, after) && after != []
    ensures after[0] == '}' ==> ParseMembers(text) == Parsed([m], after[1..])
    ensures after[0] == ',' && ParseMembers(after[1..]).Parsed? ==>
      ParseMembers(text) == Parsed([m] + ParseMembers(after[1..]).value, ParseMembers(after[1..]).rest)
  {
    hide ParseMember;
  }

  lemma {:induction false} ParseWrittenMembers(members: seq<Member>, rest: string)
    requires members != []
    ensures ParseMembers(WriteMembers(members) + ("}" + rest)) == Parsed(members, rest)
    decreases members, 1
  {
    hide ParseMember, Write, Quote, ParseMembers;
    var m := members[0];
    var head := Quote(m.key) + (":" + Write(m.value));
    if |members| == 1 {
      var after := "}" + rest;
      ParseWrittenMember(m, after);
      ParseMembersStep(m, head + after, after);
      assert after[1..] == rest && [m] == members;
    } else {
      var more := WriteMembers(members[1..]) + ("}" + rest);
      var after := "," + more;
      Assoc(head, "," + WriteMembers(members[1..]), "}" + rest);
      Assoc(",", WriteMembers(members[1..]), "}" + rest);
      ParseWrittenMember(m, after);
      assert after[1..] == more;
      ParseWrittenMembers(members[1..], rest);
      ParseMembersStep(m, head + after, after);
      assert [m] + members[1..] == members;
    }
  }

  lemma LoadsWritten(v: Value)
    ensures Loads(Write(v)) == Some(v)
  {
    assert Write(v) + [] == Write(v);
    ParseWritten(v, []);
  }

  // ---------- no raw quote or control character ----------

  /** A string body by the grammar of section 7 of RFC 8259: unescaped characters and escapes only. */
  ghost predicate IsStringBody(s: string)
    decreases |s|
  {
    s == [] || (ReadChar(s).Some? && IsStringBody(s[ReadChar(s).value.1..]))
  }

  lemma {:induction false} EscapeIsStringBody(s: string)
    ensures IsStringBody(Escape(s))
    ensures forall i :: 0 <= i < |Escape(s)| ==> Escape(s)[i] as int >= 0x20
    ensures forall i :: 0 <= i < |Escape(s)| && Escape(s)[i] == '"' ==> i > 0 && Escape(s)[i - 1] == '\\'
  {
    if s != [] {
      hide ReadChar, EscapeChar;
      var e, more := EscapeChar(s[0]), Escape(s[1..]);
      ReadEscapedChar(s[0], more);
      EscapedCharShape(s[0]);
      assert (e + more)[|e|..] == more;
      EscapeIsStringBody(s[1..]);
    }
  }

  lemma EscapedCharShape(c: char)
    ensures var e := EscapeChar(c);
      && e[0] != '"'
      && (forall i :: 0 <= i < |e| ==> e[i] as int >= 0x20 && (e[i] == '"' ==> i > 0 && e[i - 1] == '\\'))
  {
  }

  predicate Plain(s: string) {
    forall i :: 0 <= i < |s| ==> s[i] as int >= 0x20 && s[i] != '"' && s[i] != '\\'
  }

  /** Printable text without quotes and backslashes is not changed by escaping. */
  lemma {:induction false} EscapePlain(s: string)
    requires Plain(s)
    ensures Escape(s) == s
  {
    if s != [] { EscapePlain(s[1..]); }
  }
}
