/**
 Strings and documents of the canonical form: the writer of the Go SDK, the value each
 document stands for, and the reader that recovers it.
 */
module JcsText {
  import opened Hex
  import opened Wrappers
  import opened JcsNumber
  import opened Jcs

  // ---------------------------------------------------------------- strings

  function HexChar(d: nat): char
    requires d < 16
  {
    if d < 10 then (d + 48) as char else (d + 87) as char
  }

  function ReadHex(c: char): Option<nat> {
    if IsHex(LowerChar(c)) then Some(HexValue(LowerChar(c))) else None
  }

  // One character as ECMAScript's JSON.stringify escapes it.
  function EscapeChar(c: char): (s: string)
    ensures s != ""
  {
    if c == '"' then "\\\""
    else if c == '\\' then "\\\\"
    else if c == '\U{8}' then "\\b"
    else if c == '\t' then "\\t"
    else if c == '\n' then "\\n"
    else if c == '\U{C}' then "\\f"
    else if c == '\r' then "\\r"
    else if c < ' ' then "\\u00" + [HexChar(c as nat / 16), HexChar(c as nat % 16)]
    else [c]
  }

  function Escaped(s: string): string {
    if s == "" then "" else EscapeChar(s[0]) + Escaped(s[1..])
  }

  function Quote(s: string): string { "\"" + (Escaped(s) + "\"") }

  // An escape sequence after its backslash, and what follows it.
  function ReadEscape(s: string): (r: Option<(char, string)>)
    ensures r.Some? ==> |r.value.1| < |s|
  {
    if s == "" then None
    else match s[0]
      case '"' => Some(('"', s[1..]))
      case '\\' => Some(('\\', s[1..]))
      case 'b' => Some(('\U{8}', s[1..]))
      case 't' => Some(('\t', s[1..]))
      case 'n' => Some(('\n', s[1..]))
      case 'f' => Some(('\U{C}', s[1..]))
      case 'r' => Some(('\r', s[1..]))
      case 'u' =>
        if |s| < 5 || s[1] != '0' || s[2] != '0' || ReadHex(s[3]).None? || ReadHex(s[4]).None? then None
        else Some(((16 * ReadHex(s[3]).value + ReadHex(s[4]).value) as char, s[5..]))
      case _ => None
  }

  // The rest of a string after its opening quote; control characters must be escaped.
  function ReadString(s: string): (r: Option<(string, string)>)
    ensures r.Some? ==> |r.value.1| < |s|
    decreases |s|
  {
    if s == "" || s[0] < ' ' then None
    else if s[0] == '"' then Some(("", s[1..]))
    else
      match if s[0] == '\\' then ReadEscape(s[1..]) else Some((s[0], s[1..]))
      case None => None
      case Some((c, rest)) =>
        match ReadString(rest)
        case None => None
        case Some((t, rest')) => Some(([c] + t, rest'))
  }

  lemma EscapeReads(c: char, rest: string)
    requires |EscapeChar(c)| > 1
    ensures var s := EscapeChar(c) + rest;
            s[0] == '\\' && ReadEscape(s[1..]) == Some((c, rest))
  {
    var e := EscapeChar(c);
    assert (e + rest)[1..] == e[1..] + rest;
    if |e| == 2 {
      assert (e[1..] + rest)[1..] == rest;
    } else {
      assert (e[1..] + rest)[5..] == rest;
      var n := c as nat;
      assert ReadHex(HexChar(n / 16)) == Some(n / 16) && ReadHex(HexChar(n % 16)) == Some(n % 16);
    }
  }

  lemma QuotedStep(c: char, text: string)
    requires ReadString(text).Some?
    ensures var (t, rest) := ReadString(text).value;
            ReadString(EscapeChar(c) + text) == Some(([c] + t, rest))
  {
    if |EscapeChar(c)| > 1 {
      EscapeReads(c, text);
    } else {
      assert (EscapeChar(c) + text)[1..] == text;
    }
  }

  lemma {:induction false} QuotedReads(s: string, rest: string)
    ensures ReadString(Escaped(s) + ("\"" + rest)) == Some((s, rest))
    decreases |s|
  {
    var tail := "\"" + rest;
    if s == "" {
      assert Escaped(s) + tail == tail;
    } else {
      QuotedReads(s[1..], rest);
      QuotedStep(s[0], Escaped(s[1..]) + tail);
      Assoc(EscapeChar(s[0]), Escaped(s[1..]), tail);
      assert s == [s[0]] + s[1..];
    }
  }

  // ---------------------------------------------------------------- values and documents

  datatype RawNumber = Literal(text: string, parsed: Option<Double>) | Float(f: Double) | Integer(i: int) {
    predicate Valid() {
      match this
      case Literal(_, parsed) => parsed.Some? ==> parsed.value.Valid()
      case Float(f) => f.Valid()
      case Integer(i) => Is64Bit(i)
    }
  }

  type Number = n: RawNumber | n.Valid() witness Integer(0)

  // What writeCanonical accepts; the members of an object in iteration order.
  datatype Json =
    | Null
    | Bool(b: bool)
    | Str(s: string)
    | Num(n: Number)
    | Arr(items: seq<Json>)
    | Obj(members: seq<Member<Json>>)

  function NumberText(n: Number): Option<string> {
    match n
    case Literal(text, parsed) =>
      var r := CanonicalNumber(text, parsed); if r.Ok? then Some(r.value) else None
    case Float(f) =>
      var r := Es6Number(f); if r.Ok? then Some(r.value) else None
    case Integer(i) => Some(IntText(i))
  }

  // Comma-separated texts, then an end.
  function List(ts: seq<string>, end: string): string {
    if ts == [] then end else ts[0] + Tail(ts[1..], end)
  }

  function Tail(ts: seq<string>, end: string): string {
    if ts == [] then end else "," + (ts[0] + Tail(ts[1..], end))
  }

  function MemberTexts(ms: seq<Member<string>>): (ts: seq<string>)
    ensures |ts| == |ms|
  {
    if ms == [] then [] else [Quote(ms[0].key) + (":" + ms[0].value)] + MemberTexts(ms[1..])
  }

  // writeCanonical: the document, or nothing when a number cannot be written.
  function Canon(v: Json): Option<string> {
    match v
    case Null => Some("null")
    case Bool(b) => Some(if b then "true" else "false")
    case Str(s) => Some(Quote(s))
    case Num(n) => NumberText(n)
    case Arr(items) =>
      (match CanonItems(items)
       case None => None
       case Some(ts) => Some("[" + List(ts, "]")))
    case Obj(members) =>
      match CanonMembers(members)
      case None => None
      case Some(ms) => Some("{" + List(MemberTexts(Sort(ms)), "}"))
  }

  function CanonItems(items: seq<Json>): Option<seq<string>> {
    if items == [] then Some([])
    else match (Canon(items[0]), CanonItems(items[1..]))
      case (Some(t), Some(ts)) => Some([t] + ts)
      case _ => None
  }

  function CanonMembers(ms: seq<Member<Json>>): Option<seq<Member<string>>> {
    if ms == [] then Some([])
    else match (Canon(ms[0].value), CanonMembers(ms[1..]))
      case (Some(t), Some(ts)) => Some([Member(ms[0].key, t)] + ts)
      case _ => None
  }

  // ---------------------------------------------------------------- what a document stands for

  type Number10 = d: Decimal | d.Valid() witness Zero

  // JSON values with exact decimals and members in key order.
  datatype Value =
    | VNull
    | VBool(b: bool)
    | VStr(s: string)
    | VNum(d: Number10)
    | VArr(items: seq<Value>)
    | VObj(members: seq<Member<Value>>)

  function NumberMeaning(n: Number): (d: Option<Number10>) {
    match n
    case Literal(text, parsed) => LiteralMeaning(text, parsed)
    case Float(f) => DoubleMeaning(f)
    case Integer(i) => Some(DecimalOfInt(i))
  }

  function Meaning(v: Json): Option<Value> {
    match v
    case Null => Some(VNull)
    case Bool(b) => Some(VBool(b))
    case Str(s) => Some(VStr(s))
    case Num(n) => (match NumberMeaning(n) case None => None case Some(d) => Some(VNum(d)))
    case Arr(items) => (match MeaningItems(items) case None => None case Some(ms) => Some(VArr(ms)))
    case Obj(members) => (match MeaningMembers(members) case None => None case Some(ms) => Some(VObj(Sort(ms))))
  }

  function MeaningItems(items: seq<Json>): Option<seq<Value>> {
    if items == [] then Some([])
    else match (Meaning(items[0]), MeaningItems(items[1..]))
      case (Some(m), Some(ms)) => Some([m] + ms)
      case _ => None
  }

  function MeaningMembers(ms: seq<Member<Json>>): Option<seq<Member<Value>>> {
    if ms == [] then Some([])
    else match (Meaning(ms[0].value), MeaningMembers(ms[1..]))
      case (Some(m), Some(rest)) => Some([Member(ms[0].key, m)] + rest)
      case _ => None
  }

  // The canonical document of a value.
  function Write(m: Value): string {
    match m
    case VNull => "null"
    case VBool(b) => if b then "true" else "false"
    case VStr(s) => Quote(s)
    case VNum(d) => DecimalText(d)
    case VArr(items) => "[" + List(WriteItems(items), "]")
    case VObj(members) => "{" + List(MemberTexts(WriteMembers(members)), "}")
  }

  function WriteItems(items: seq<Value>): (ts: seq<string>)
    ensures |ts| == |items|
  {
    if items == [] then [] else [Write(items[0])] + WriteItems(items[1..])
  }

  function WriteMembers(ms: seq<Member<Value>>): (ts: seq<Member<string>>)
    ensures |ts| == |ms|
  {
    if ms == [] then [] else [Member(ms[0].key, Write(ms[0].value))] + WriteMembers(ms[1..])
  }

  lemma {:induction false} InsertWrites(m: Member<Value>, ms: seq<Member<Value>>)
    ensures WriteMembers(InsertMember(m, ms)) == InsertMember(Member(m.key, Write(m.value)), WriteMembers(ms))
  {
    if ms == [] || Utf16Less(m.key, ms[0].key) {
      assert ([m] + ms)[1..] == ms;
    } else {
      InsertWrites(m, ms[1..]);
      assert WriteMembers(ms)[1..] == WriteMembers(ms[1..]);
    }
  }

  lemma {:induction false} SortWrites(ms: seq<Member<Value>>)
    ensures WriteMembers(Sort(ms)) == Sort(WriteMembers(ms))
  {
    if ms != [] {
      SortWrites(ms[1..]);
      InsertWrites(ms[0], Sort(ms[1..]));
      assert WriteMembers(ms)[1..] == WriteMembers(ms[1..]);
    }
  }

  lemma NumberTextMeaning(n: Number)
    ensures NumberText(n) == match NumberMeaning(n) case None => None case Some(d) => Some(DecimalText(d))
  {
    match n
    case Literal(text, parsed) => CanonicalNumberMeaning(text, parsed);
    case Float(f) =>
    case Integer(i) => IntTextIsLayout(i);
  }

  /** The writer produces the canonical document of the value's meaning, and fails exactly
      when there is none. */
  lemma {:induction false} CanonWritesMeaning(v: Json)
    ensures Canon(v) == match Meaning(v) case None => None case Some(m) => Some(Write(m))
    decreases v
  {
    match v
    case Num(n) => NumberTextMeaning(n);
    case Arr(items) => ItemsWriteMeaning(items);
    case Obj(members) =>
      MembersWriteMeaning(members);
      if MeaningMembers(members).Some? { SortWrites(MeaningMembers(members).value); }
    case _ =>
  }

  lemma {:induction false} ItemsWriteMeaning(items: seq<Json>)
    ensures CanonItems(items) == match MeaningItems(items) case None => None case Some(ms) => Some(WriteItems(ms))
    decreases items
  {
    if items != [] {
      CanonWritesMeaning(items[0]);
      ItemsWriteMeaning(items[1..]);
    }
  }

  lemma {:induction false} MembersWriteMeaning(ms: seq<Member<Json>>)
    ensures CanonMembers(ms) == match MeaningMembers(ms) case None => None case Some(vs) => Some(WriteMembers(vs))
    decreases ms
  {
    if ms != [] {
      CanonWritesMeaning(ms[0].value);
      MembersWriteMeaning(ms[1..]);
    }
  }
}
