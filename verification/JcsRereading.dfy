/**
 Canonicalizing a canonical document again, as the Go SDK does when it reads raw JSON: every
 number becomes a literal with the double that parsing makes of it. The text stays the same
 exactly when every number is an int64 integer or the shortest decimal of its own double.
 */
module JcsRereading {
  import opened Decimals
  import opened Wrappers
  import opened JcsNumber
  import opened Jcs
  import opened JcsText
  import opened JcsReader

  type ValidDouble = f: Double | f.Valid() witness NonFinite

  // strconv.ParseFloat, whatever it rounds to.
  type ParseFloat = string -> Option<ValidDouble>

  // The double of a literal, if it has one.
  function DoubleOf(text: string, parse: ParseFloat): (f: Option<Double>)
    ensures f.Some? ==> f.value.Valid()
  {
    match parse(text)
    case None => None
    case Some(f) => var g: ValidDouble := f; Some(g)
  }

  // ---------------------------------------------------------------- reading a document again

  function Reparsed(m: Value, parse: ParseFloat): Json {
    match m
    case VNull => Null
    case VBool(b) => Bool(b)
    case VStr(s) => Str(s)
    case VNum(d) => Num(Literal(DecimalText(d), DoubleOf(DecimalText(d), parse)))
    case VArr(items) => Arr(ReparsedItems(items, parse))
    case VObj(members) => Obj(ReparsedMembers(members, parse))
  }

  function ReparsedItems(items: seq<Value>, parse: ParseFloat): seq<Json> {
    if items == [] then [] else [Reparsed(items[0], parse)] + ReparsedItems(items[1..], parse)
  }

  function ReparsedMembers(ms: seq<Member<Value>>, parse: ParseFloat): seq<Member<Json>> {
    if ms == [] then []
    else [Member(ms[0].key, Reparsed(ms[0].value, parse))] + ReparsedMembers(ms[1..], parse)
  }

  function Reread(text: string, parse: ParseFloat): Option<Json> {
    match ReadValue(text)
    case None => None
    case Some((m, rest)) => if rest == "" then Some(Reparsed(m, parse)) else None
  }

  // ---------------------------------------------------------------- numbers that stay

  ghost predicate IsInt64(d: Number10) { exists i :: MIN_INT64 <= i <= MAX_INT64 && d == DecimalOfInt(i) }

  // The decimal is the shortest one of the double its text is parsed as.
  predicate OwnDouble(d: Number10, parse: ParseFloat) {
    var f := DoubleOf(DecimalText(d), parse);
    f.Some? && DoubleMeaning(f.value) == Some(d)
  }

  ghost predicate Stays(d: Number10, parse: ParseFloat) { IsInt64(d) || OwnDouble(d, parse) }

  ghost predicate AllStay(m: Value, parse: ParseFloat) {
    match m
    case VNum(d) => Stays(d, parse)
    case VArr(items) => forall i | 0 <= i < |items| :: AllStay(items[i], parse)
    case VObj(members) => forall i | 0 <= i < |members| :: AllStay(members[i].value, parse)
    case _ => true
  }

  lemma IntTextParses(i: int)
    requires MIN_INT64 <= i <= MAX_INT64
    ensures IsIntegerLiteral(IntText(i)) && ParseInt64(IntText(i)) == Some(i)
  {
    var n := Abs(i);
    var ds := NatText(n);
    NatTextValue(n);
    hide NatText, NatValue;
    assert IsDigit(ds[0]);
    assert ("-" + ds)[1..] == ds;
    assert forall c <- ds :: IsDigit(c);
  }

  // Only the layout without a point and without an exponent is an integer literal.
  lemma OtherLayouts(digits: string, n: int)
    requires Normal(digits) && !(|digits| <= n <= 21)
    ensures !IsIntegerLiteral(Layout(digits, n))
  {
    var k, text := |digits|, Layout(digits, n);
    if 0 < n <= 21 {
      assert text[n] == '.' && text[n] in text;
    } else if -6 < n <= 0 {
      assert text[1] == '.' && text[1] in text;
    } else {
      var at := if k > 1 then k + 1 else k;
      assert text[at] == 'e' && text[at] in text;
    }
  }

  lemma IntegerBody(digits: string, n: int)
    requires Normal(digits) && IsIntegerLiteral(Layout(digits, n))
    ensures var body := Layout(digits, n);
            && AllDigits(body) && body != "" && body[0] != '0' && NatText(NatValue(body)) == body && NatValue(body) > 0
  {
    if !(|digits| <= n <= 21) { OtherLayouts(digits, n); }
    var body := Layout(digits, n);
    AllDigitsConcat(digits, Zeros(n - |digits|));
    NatValueText(body);
  }

  // What is parsed as an integer is the text of that integer.
  lemma ParsedText(neg: bool, body: string, i: int)
    requires AllDigits(body) && body != "" && NatText(NatValue(body)) == body && NatValue(body) > 0
    requires ParseInt64(SignText(neg) + body) == Some(i)
    ensures IntText(i) == SignText(neg) + body
  {
    hide NatText, NatValue;
    assert IsDigit(body[0]);
    var text := SignText(neg) + body;
    if neg {
      assert text[0] == '-' && text[1..] == body;
    } else {
      assert text == body;
    }
  }

  lemma IntegerText(d: Number10, i: int)
    requires IsIntegerLiteral(DecimalText(d)) && ParseInt64(DecimalText(d)) == Some(i)
    ensures DecimalText(d) == IntText(i)
  {
    if d == Zero {
      assert NatValue("0") == 0;
    } else {
      var body := Layout(d.digits, d.point);
      assert forall c :: c in body ==> c in SignText(d.neg) + body;
      hide ParseInt64, Layout, IntText;
      IntegerBody(d.digits, d.point);
      ParsedText(d.neg, body, i);
    }
  }

  /** The text of a decimal is an integer literal that fits 64 bits if and only if the decimal is
      such an integer, and then it is parsed as that integer. */
  lemma Int64Text(d: Number10)
    ensures var text := DecimalText(d);
            && (IsIntegerLiteral(text) && ParseInt64(text).Some? <==> IsInt64(d))
            && (IsInt64(d) ==> DecimalOfInt(ParseInt64(text).value) == d)
  {
    var text := DecimalText(d);
    hide DecimalText, DecimalOfInt, ParseInt64, IsIntegerLiteral, IntText;
    if IsInt64(d) {
      var i :| MIN_INT64 <= i <= MAX_INT64 && d == DecimalOfInt(i);
      IntTextIsLayout(i);
      IntTextParses(i);
    }
    if IsIntegerLiteral(text) && ParseInt64(text).Some? {
      var i := ParseInt64(text).value;
      IntegerText(d, i);
      IntTextIsLayout(i);
      DecimalTextInjective(d, DecimalOfInt(i));
    }
  }

  lemma NumberStays(d: Number10, parse: ParseFloat)
    ensures LiteralMeaning(DecimalText(d), DoubleOf(DecimalText(d), parse)) == Some(d) <==> Stays(d, parse)
  {
    Int64Text(d);
    hide IsInt64, DecimalText, DecimalOfInt, ParseInt64, IsIntegerLiteral, DoubleMeaning, DoubleOf;
  }

  // ---------------------------------------------------------------- documents that stay

  // The members of every object ascend.
  ghost predicate Ordered(m: Value) {
    match m
    case VArr(items) => forall i | 0 <= i < |items| :: Ordered(items[i])
    case VObj(members) => Ascending(members) && forall i | 0 <= i < |members| :: Ordered(members[i].value)
    case _ => true
  }

  lemma {:induction false} SortOfAscending<T>(ms: seq<Member<T>>)
    requires Ascending(ms)
    ensures Sort(ms) == ms
  {
    if ms != [] {
      SortOfAscending(ms[1..]);
      hide Utf16Less;
      assert ms == [ms[0]] + ms[1..];
      assert |ms| > 1 ==> ms[1..][0] == ms[1];
    }
  }

  lemma {:induction false} MeaningOrdered(v: Json)
    requires Keyed(v) && Meaning(v).Some?
    ensures Ordered(Meaning(v).value)
    decreases v
  {
    match v
    case Arr(items) =>
      MeaningItemsAt(items);
      forall i | 0 <= i < |items| ensures Ordered(MeaningItems(items).value[i]) { MeaningOrdered(items[i]); }
    case Obj(members) =>
      MeaningMembersAt(members);
      var ms := MeaningMembers(members).value;
      MeaningMembersDistinct(members);
      SortAscends(ms);
      forall i | 0 <= i < |ms| ensures Ordered(ms[i].value) { MeaningOrdered(members[i].value); }
      SortedFrom(ms);
    case _ =>
  }

  lemma SortedFrom(ms: seq<Member<Value>>)
    requires forall i | 0 <= i < |ms| :: Ordered(ms[i].value)
    ensures forall i | 0 <= i < |Sort(ms)| :: Ordered(Sort(ms)[i].value)
  {
    hide Ordered, Sort;
    SortPermutes(ms);
    forall i | 0 <= i < |Sort(ms)| ensures Ordered(Sort(ms)[i].value) {
      assert Sort(ms)[i] in multiset(Sort(ms)) && Sort(ms)[i] in ms;
    }
  }

  lemma {:induction false} ValueStays(m: Value, parse: ParseFloat)
    requires Ordered(m)
    ensures Meaning(Reparsed(m, parse)) == Some(m) <==> AllStay(m, parse)
    decreases m, 1
  {
    match m
    case VNum(d) => NumberStays(d, parse);
    case VArr(items) => ItemsStay(items, parse);
    case VObj(members) =>
      MembersStay(members, parse);
      KeysStay(members, parse);
      var again := MeaningMembers(ReparsedMembers(members, parse));
      if again.Some? { SortOfAscending(again.value); }
    case _ =>
  }

  lemma {:induction false} ItemsStay(items: seq<Value>, parse: ParseFloat)
    requires forall i | 0 <= i < |items| :: Ordered(items[i])
    ensures MeaningItems(ReparsedItems(items, parse)) == Some(items)
       <==> forall i | 0 <= i < |items| :: AllStay(items[i], parse)
    decreases items, 0
  {
    if items != [] {
      hide Ordered, AllStay, Reparsed, Meaning;
      var rest := items[1..];
      assert items == [items[0]] + rest;
      ValueStays(items[0], parse);
      ItemsStay(rest, parse);
      assert ReparsedItems(items, parse)[1..] == ReparsedItems(rest, parse);
      assert (forall i | 0 <= i < |items| :: AllStay(items[i], parse))
        <==> AllStay(items[0], parse) && forall i | 0 <= i < |rest| :: AllStay(rest[i], parse);
    }
  }

  lemma {:induction false} MembersStay(ms: seq<Member<Value>>, parse: ParseFloat)
    requires forall i | 0 <= i < |ms| :: Ordered(ms[i].value)
    ensures MeaningMembers(ReparsedMembers(ms, parse)) == Some(ms)
       <==> forall i | 0 <= i < |ms| :: AllStay(ms[i].value, parse)
    decreases ms, 0
  {
    if ms != [] {
      hide Ordered, AllStay, Reparsed, Meaning;
      var rest := ms[1..];
      assert ms == [ms[0]] + rest;
      ValueStays(ms[0].value, parse);
      MembersStay(rest, parse);
      assert ReparsedMembers(ms, parse)[1..] == ReparsedMembers(rest, parse);
      assert (forall i | 0 <= i < |ms| :: AllStay(ms[i].value, parse))
        <==> AllStay(ms[0].value, parse) && forall i | 0 <= i < |rest| :: AllStay(rest[i].value, parse);
    }
  }

  lemma {:induction false} KeysStay(ms: seq<Member<Value>>, parse: ParseFloat)
    requires Ascending(ms)
    ensures var again := MeaningMembers(ReparsedMembers(ms, parse)); again.Some? ==> Ascending(again.value)
  {
    var rs := ReparsedMembers(ms, parse);
    MeaningMembersAt(rs);
    ReparsedKeys(ms, parse);
  }

  lemma {:induction false} ReparsedKeys(ms: seq<Member<Value>>, parse: ParseFloat)
    ensures var rs := ReparsedMembers(ms, parse); |rs| == |ms| && forall i | 0 <= i < |ms| :: rs[i].key == ms[i].key
  {
    if ms != [] { ReparsedKeys(ms[1..], parse); }
  }

  lemma {:induction false} WriteInjective(m: Value, w: Value)
    requires Write(m) == Write(w)
    ensures m == w
  {
    ValueReads(m, "");
    ValueReads(w, "");
  }

  /** A canonical document, read and canonicalized again, is the same text if and only if each of
      its numbers is an int64 integer or the shortest decimal of its own double. */
  lemma RereadStaysIff(v: Json, parse: ParseFloat)
    requires Keyed(v) && Canon(v).Some?
    ensures var text := Canon(v).value;
            && Meaning(v).Some? && Reread(text, parse).Some?
            && (Canon(Reread(text, parse).value) == Some(text) <==> AllStay(Meaning(v).value, parse))
  {
    CanonicalReads(v);
    MeaningOrdered(v);
    var m := Meaning(v).value;
    ValueStays(m, parse);
    CanonWritesMeaning(v);
    CanonWritesMeaning(Reparsed(m, parse));
    hide Canon, Meaning, Reparsed, Write, ReadValue, AllStay, Keyed, Ordered;
    var again := Meaning(Reparsed(m, parse));
    if again.Some? && Write(again.value) == Write(m) { WriteInjective(again.value, m); }
  }

  // ---------------------------------------------------------------- which numbers can move

  // A number that came from a double is parsed back as one with the same shortest decimal.
  predicate ReadsBack(n: Number, parse: ParseFloat) {
    var fromDouble := n.Float? || (n.Literal? && !(IsIntegerLiteral(n.text) && ParseInt64(n.text).Some?));
    fromDouble && NumberMeaning(n).Some? ==> OwnDouble(NumberMeaning(n).value, parse)
  }

  /** If parsing undoes shortest formatting, only unsigned integers beyond int64 can move, and of
      those the ones that are not the shortest decimal of their double. */
  lemma OnlyUnsignedMove(n: Number, parse: ParseFloat)
    requires NumberMeaning(n).Some? && ReadsBack(n, parse)
    ensures !Stays(NumberMeaning(n).value, parse)
       <==> n.Integer? && n.i > MAX_INT64 && !OwnDouble(DecimalOfInt(n.i), parse)
  {
    hide OwnDouble, DecimalOfInt, DecimalText, DoubleMeaning;
    if n.Integer? && n.i > MAX_INT64 && IsInt64(DecimalOfInt(n.i)) {
      var i :| MIN_INT64 <= i <= MAX_INT64 && DecimalOfInt(n.i) == DecimalOfInt(i);
      IntTextIsLayout(i);
      IntTextIsLayout(n.i);
      IntTextInjective(i, n.i);
    }
  }

  lemma IntTextInjective(i: int, j: int)
    requires IntText(i) == IntText(j)
    ensures i == j
  {
    NatTextValue(Abs(i));
    NatTextValue(Abs(j));
    assert IsDigit(NatText(Abs(i))[0]) && IsDigit(NatText(Abs(j))[0]);
    assert i < 0 ==> IntText(i)[1..] == NatText(Abs(i));
    assert j < 0 ==> IntText(j)[1..] == NatText(Abs(j));
  }

  lemma TwoTo64Less1()
    ensures NatText(18446744073709551615) == "18446744073709551615"
  {
    assert NatText(18) == "18";
    hide NatText;
    ThreeMoreDigits(18, 4, 4, 6);
    ThreeMoreDigits(18446, 7, 4, 4);
    ThreeMoreDigits(18446744, 0, 7, 3);
    ThreeMoreDigits(18446744073, 7, 0, 9);
    ThreeMoreDigits(18446744073709, 5, 5, 1);
    ThreeMoreDigits(18446744073709551, 6, 1, 5);
  }

  lemma BeyondInt64(lit: string, n: nat, parsed: Option<Double>)
    requires lit == NatText(n) && MAX_INT64 < n <= 2 * MAX_INT64 + 1 && (parsed.Some? ==> parsed.value.Valid())
    ensures CanonicalNumber(lit, parsed) == match parsed case None => Err(InvalidNumber) case Some(f) => Es6Number(f)
  {
    NatTextValue(n);
    hide NatText, NatValue, Es6Number;
    assert IsDigit(lit[0]);
  }

  lemma UnsignedTexts(lit: string, n: nat, f: ValidDouble, out: string, parse: ParseFloat)
    requires lit == NatText(n) && MAX_INT64 < n <= 2 * MAX_INT64 + 1 && parse(lit) == Some(f) && Es6Number(f) == Ok(out)
    ensures Canon(Num(Integer(n))) == Some(lit) && Canon(Num(Literal(lit, DoubleOf(lit, parse)))) == Some(out)
  {
    BeyondInt64(lit, n, DoubleOf(lit, parse));
    hide NatText, Es6Number, CanonicalNumber;
  }

  lemma DoubleOf2To64() returns (f: ValidDouble)
    ensures f == Finite(false, "18446744073709552", 19) && Es6Number(f) == Ok("18446744073709552000")
  {
    var digits := "18446744073709552";
    assert Normal(digits);
    WholeDouble(digits, 3, 19);
    assert digits + Zeros(3) == "18446744073709552000";
    f := Finite(false, digits, 19);
  }

  /** The largest unsigned integer does move: written as it stands, it is read as a double. */
  lemma LargestUnsignedMoves(parse: ParseFloat)
    requires parse("18446744073709551615") == Some(Finite(false, "18446744073709552", 19))
    ensures Canon(Num(Integer(18446744073709551615))) == Some("18446744073709551615")
    ensures var lit := "18446744073709551615";
            Canon(Num(Literal(lit, DoubleOf(lit, parse)))) == Some("18446744073709552000")
  {
    hide NatText, Es6Number, Canon, DoubleOf;
    TwoTo64Less1();
    var f := DoubleOf2To64();
    UnsignedTexts("18446744073709551615", 18446744073709551615, f, "18446744073709552000", parse);
  }
}
