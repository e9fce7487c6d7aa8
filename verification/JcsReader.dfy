/**
 A reader for the canonical grammar of RFC 8785 and the theorems that make the canonical
 form an identity: the reader inverts the writer, so two values have one canonical form
 exactly when they are the same JSON value.
 */
module JcsReader {
  import opened Decimals
  import opened Wrappers
  import opened JcsNumber
  import opened Jcs
  import opened JcsText

  // ---------------------------------------------------------------- the reader

  function ReadValue(s: string): (r: Option<(Value, string)>)
    ensures r.Some? ==> |r.value.1| < |s|
    decreases |s|, 1
  {
    if s == "" then None
    else match s[0]
      case 'n' => if "null" <= s then Some((VNull, s[4..])) else None
      case 't' => if "true" <= s then Some((VBool(true), s[4..])) else None
      case 'f' => if "false" <= s then Some((VBool(false), s[5..])) else None
      case '"' => (match ReadString(s[1..]) case None => None case Some((t, rest)) => Some((VStr(t), rest)))
      case '[' => (match ReadItems(s[1..]) case None => None case Some((vs, rest)) => Some((VArr(vs), rest)))
      case '{' => (match ReadMembers(s[1..]) case None => None case Some((ms, rest)) => Some((VObj(ms), rest)))
      case _ => (match ReadNumber(s) case None => None case Some((d, rest)) => Some((VNum(d), rest)))
  }

  // The items of an array after its bracket.
  function ReadItems(s: string): (r: Option<(seq<Value>, string)>)
    ensures r.Some? ==> |r.value.1| < |s|
    decreases |s|, 2
  {
    if s != "" && s[0] == ']' then Some(([], s[1..]))
    else match ReadValue(s)
      case None => None
      case Some((v, rest)) =>
        match ReadMoreItems(rest)
        case None => None
        case Some((vs, rest')) => Some(([v] + vs, rest'))
  }

  function ReadMoreItems(s: string): (r: Option<(seq<Value>, string)>)
    ensures r.Some? ==> |r.value.1| < |s|
    decreases |s|, 2
  {
    if s == "" then None
    else if s[0] == ']' then Some(([], s[1..]))
    else if s[0] != ',' then None
    else match ReadValue(s[1..])
      case None => None
      case Some((v, rest)) =>
        match ReadMoreItems(rest)
        case None => None
        case Some((vs, rest')) => Some(([v] + vs, rest'))
  }

  function ReadMember(s: string): (r: Option<(Member<Value>, string)>)
    ensures r.Some? ==> |r.value.1| < |s|
    decreases |s|, 2
  {
    if s == "" || s[0] != '"' then None
    else match ReadString(s[1..])
      case None => None
      case Some((key, rest)) =>
        if rest == "" || rest[0] != ':' then None
        else match ReadValue(rest[1..])
          case None => None
          case Some((v, rest')) => Some((Member(key, v), rest'))
  }

  function ReadMembers(s: string): (r: Option<(seq<Member<Value>>, string)>)
    ensures r.Some? ==> |r.value.1| < |s|
    decreases |s|, 3
  {
    if s != "" && s[0] == '}' then Some(([], s[1..]))
    else match ReadMember(s)
      case None => None
      case Some((m, rest)) =>
        match ReadMoreMembers(rest)
        case None => None
        case Some((ms, rest')) => Some(([m] + ms, rest'))
  }

  function ReadMoreMembers(s: string): (r: Option<(seq<Member<Value>>, string)>)
    ensures r.Some? ==> |r.value.1| < |s|
    decreases |s|, 3
  {
    if s == "" then None
    else if s[0] == '}' then Some(([], s[1..]))
    else if s[0] != ',' then None
    else match ReadMember(s[1..])
      case None => None
      case Some((m, rest)) =>
        match ReadMoreMembers(rest)
        case None => None
        case Some((ms, rest')) => Some(([m] + ms, rest'))
  }

  // ---------------------------------------------------------------- the reader inverts the writer

  lemma {:induction false} TailThen(ts: seq<string>, end: string, rest: string)
    ensures Tail(ts, end) + rest == Tail(ts, end + rest)
  {
    if ts != [] {
      TailThen(ts[1..], end, rest);
      Assoc(ts[0], Tail(ts[1..], end), rest);
      Assoc(",", ts[0] + Tail(ts[1..], end), rest);
    }
  }

  lemma ListThen(ts: seq<string>, end: string, rest: string)
    ensures List(ts, end) + rest == List(ts, end + rest)
  {
    if ts != [] {
      TailThen(ts[1..], end, rest);
      Assoc(ts[0], Tail(ts[1..], end), rest);
    }
  }

  lemma TailStops(ts: seq<string>, end: string)
    requires end != "" && Stops(end)
    ensures Tail(ts, end) != "" && Stops(Tail(ts, end))
  {
    if ts != [] { assert Tail(ts, end)[0] == ','; }
  }

  lemma NumberStarts(d: Number10)
    ensures DecimalText(d) != "" && (DecimalText(d)[0] == '-' || IsDigit(DecimalText(d)[0]))
  {
    DecimalReads(d, "");
    assert DecimalText(d) + "" == DecimalText(d);
    var s := DecimalText(d);
    assert ReadRaw(s).Some?;
    if s[0] != '-' { assert TakeDigits(s).0 != ""; }
  }

  // No canonical document starts like the end of an array or an object.
  lemma WriteStarts(m: Value)
    ensures Write(m) != "" && Write(m)[0] != ']' && Write(m)[0] != '}'
  {
    match m
    case VNum(d) => NumberStarts(d);
    case _ =>
  }

  // The cases of the reader, by first character.
  lemma ReadByFirst(s: string)
    requires s != ""
    ensures s[0] == '-' || IsDigit(s[0]) ==>
      ReadValue(s) == match ReadNumber(s) case None => None case Some((d, rest)) => Some((VNum(d), rest))
    ensures s[0] == '[' ==>
      ReadValue(s) == match ReadItems(s[1..]) case None => None case Some((vs, rest)) => Some((VArr(vs), rest))
    ensures s[0] == '{' ==>
      ReadValue(s) == match ReadMembers(s[1..]) case None => None case Some((ms, rest)) => Some((VObj(ms), rest))
  {
  }

  lemma WordReads(m: Value, rest: string)
    requires m.VNull? || m.VBool?
    ensures ReadValue(Write(m) + rest) == Some((m, rest))
  {
    var s := Write(m) + rest;
    assert s[|Write(m)|..] == rest;
    if m.VNull? { assert s[0] == 'n'; } else if m.b { assert s[0] == 't'; } else { assert s[0] == 'f'; }
  }

  lemma StringReads(t: string, rest: string)
    ensures ReadValue(Write(VStr(t)) + rest) == Some((VStr(t), rest))
  {
    Assoc("\"", Escaped(t) + "\"", rest);
    Assoc(Escaped(t), "\"", rest);
    var tail := Escaped(t) + ("\"" + rest);
    assert ("\"" + tail)[1..] == tail;
    QuotedReads(t, rest);
  }

  lemma NumberReads(d: Number10, rest: string)
    requires Stops(rest)
    ensures ReadValue(Write(VNum(d)) + rest) == Some((VNum(d), rest))
  {
    hide ReadValue, ReadNumber, DecimalText;
    DecimalReads(d, rest);
    NumberStarts(d);
    ReadByFirst(DecimalText(d) + rest);
  }

  lemma ArrayReads(ts: seq<string>, items: seq<Value>, rest: string)
    requires ReadItems(List(ts, "]" + rest)) == Some((items, rest))
    ensures ReadValue(("[" + List(ts, "]")) + rest) == Some((VArr(items), rest))
  {
    ListThen(ts, "]", rest);
    Assoc("[", List(ts, "]"), rest);
    var s := "[" + List(ts, "]" + rest);
    assert s[1..] == List(ts, "]" + rest);
    ReadByFirst(s);
  }

  lemma ObjectReads(ts: seq<string>, ms: seq<Member<Value>>, rest: string)
    requires ReadMembers(List(ts, "}" + rest)) == Some((ms, rest))
    ensures ReadValue(("{" + List(ts, "}")) + rest) == Some((VObj(ms), rest))
  {
    ListThen(ts, "}", rest);
    Assoc("{", List(ts, "}"), rest);
    var s := "{" + List(ts, "}" + rest);
    assert s[1..] == List(ts, "}" + rest);
    ReadByFirst(s);
  }

  lemma {:induction false} ValueReads(m: Value, rest: string)
    requires Stops(rest)
    ensures ReadValue(Write(m) + rest) == Some((m, rest))
    decreases m, 1
  {
    match m
    case VStr(t) => StringReads(t, rest);
    case VNum(d) => NumberReads(d, rest);
    case VArr(items) =>
      ItemsRead(items, rest);
      ArrayReads(WriteItems(items), items, rest);
    case VObj(members) =>
      MembersRead(members, rest);
      ObjectReads(MemberTexts(WriteMembers(members)), members, rest);
    case _ => WordReads(m, rest);
  }

  lemma {:induction false} ItemsRead(items: seq<Value>, rest: string)
    ensures ReadItems(List(WriteItems(items), "]" + rest)) == Some((items, rest))
    decreases items, 0
  {
    if items == [] {
      assert ("]" + rest)[1..] == rest;
    } else {
      var tail := Tail(WriteItems(items[1..]), "]" + rest);
      TailStops(WriteItems(items[1..]), "]" + rest);
      WriteStarts(items[0]);
      assert WriteItems(items)[1..] == WriteItems(items[1..]);
      assert items == [items[0]] + items[1..];
      ValueReads(items[0], tail);
      MoreItemsRead(items[1..], rest);
    }
  }

  lemma {:induction false} MoreItemsRead(items: seq<Value>, rest: string)
    ensures ReadMoreItems(Tail(WriteItems(items), "]" + rest)) == Some((items, rest))
    decreases items, 0
  {
    if items == [] {
      assert ("]" + rest)[1..] == rest;
    } else {
      var tail := Tail(WriteItems(items[1..]), "]" + rest);
      TailStops(WriteItems(items[1..]), "]" + rest);
      assert WriteItems(items)[1..] == WriteItems(items[1..]);
      assert items == [items[0]] + items[1..];
      assert ("," + (Write(items[0]) + tail))[1..] == Write(items[0]) + tail;
      ValueReads(items[0], tail);
      MoreItemsRead(items[1..], rest);
    }
  }

  // The text of one member, as MemberTexts builds it.
  function MemberText(m: Member<Value>): string { Quote(m.key) + (":" + Write(m.value)) }

  lemma MemberReads(m: Member<Value>, tail: string)
    requires ReadValue(Write(m.value) + tail) == Some((m.value, tail))
    ensures ReadMember(MemberText(m) + tail) == Some((m, tail))
    ensures MemberText(m)[0] == '"'
  {
    var t := Write(m.value);
    Assoc(":", t, tail);
    Assoc(Quote(m.key), ":" + t, tail);
    var after := ":" + (t + tail);
    Assoc("\"", Escaped(m.key) + "\"", after);
    Assoc(Escaped(m.key), "\"", after);
    var s := "\"" + (Escaped(m.key) + ("\"" + after));
    assert s == MemberText(m) + tail;
    assert s[1..] == Escaped(m.key) + ("\"" + after);
    QuotedReads(m.key, after);
    assert after[1..] == t + tail;
  }

  lemma {:induction false} MembersRead(ms: seq<Member<Value>>, rest: string)
    ensures ReadMembers(List(MemberTexts(WriteMembers(ms)), "}" + rest)) == Some((ms, rest))
    decreases ms, 0
  {
    if ms == [] {
      assert ("}" + rest)[1..] == rest;
    } else {
      var texts := MemberTexts(WriteMembers(ms[1..]));
      var tail := Tail(texts, "}" + rest);
      TailStops(texts, "}" + rest);
      assert WriteMembers(ms)[1..] == WriteMembers(ms[1..]);
      assert ms == [ms[0]] + ms[1..];
      assert MemberTexts(WriteMembers(ms)) == [MemberText(ms[0])] + texts;
      ValueReads(ms[0].value, tail);
      MemberReads(ms[0], tail);
      MoreMembersRead(ms[1..], rest);
    }
  }

  lemma {:induction false} MoreMembersRead(ms: seq<Member<Value>>, rest: string)
    ensures ReadMoreMembers(Tail(MemberTexts(WriteMembers(ms)), "}" + rest)) == Some((ms, rest))
    decreases ms, 0
  {
    if ms == [] {
      assert ("}" + rest)[1..] == rest;
    } else {
      var texts := MemberTexts(WriteMembers(ms[1..]));
      var tail := Tail(texts, "}" + rest);
      TailStops(texts, "}" + rest);
      assert WriteMembers(ms)[1..] == WriteMembers(ms[1..]);
      assert ms == [ms[0]] + ms[1..];
      assert MemberTexts(WriteMembers(ms)) == [MemberText(ms[0])] + texts;
      assert ("," + (MemberText(ms[0]) + tail))[1..] == MemberText(ms[0]) + tail;
      ValueReads(ms[0].value, tail);
      MemberReads(ms[0], tail);
      MoreMembersRead(ms[1..], rest);
    }
  }

  /** The reader inverts the writer: a canonical document reads as the value it was written
      from, with nothing left over. */
  lemma CanonicalReads(v: Json)
    ensures Canon(v).Some? <==> Meaning(v).Some?
    ensures Canon(v).Some? ==> ReadValue(Canon(v).value) == Some((Meaning(v).value, ""))
  {
    CanonWritesMeaning(v);
    if Meaning(v).Some? {
      ValueReads(Meaning(v).value, "");
      assert Write(Meaning(v).value) + "" == Write(Meaning(v).value);
    }
  }

  // ---------------------------------------------------------------- one form per value

  ghost predicate HasKey<T>(a: seq<Member<T>>, key: string) { exists i | 0 <= i < |a| :: a[i].key == key }

  // Every key of a is a key of b.
  ghost predicate KeysIn<T>(a: seq<Member<T>>, b: seq<Member<T>>) {
    forall i | 0 <= i < |a| :: HasKey(b, a[i].key)
  }

  // The same JSON value: equal numbers, and objects with the same keys and, key by key, the
  // same values, in whatever order.
  ghost predicate Same(v: Json, w: Json)
    decreases v
  {
    match (v, w)
    case (Null, Null) => true
    case (Bool(b), Bool(c)) => b == c
    case (Str(s), Str(t)) => s == t
    case (Num(n), Num(m)) => NumberMeaning(n) == NumberMeaning(m)
    case (Arr(a), Arr(b)) => |a| == |b| && forall i | 0 <= i < |a| :: Same(a[i], b[i])
    case (Obj(a), Obj(b)) =>
      && KeysIn(a, b) && KeysIn(b, a)
      && forall i, j | 0 <= i < |a| && 0 <= j < |b| && a[i].key == b[j].key :: Same(a[i].value, b[j].value)
    case _ => false
  }

  // The keys of every object are distinct, as those of a Go map are.
  ghost predicate Keyed(v: Json) {
    match v
    case Arr(items) => forall i | 0 <= i < |items| :: Keyed(items[i])
    case Obj(members) => Distinct(members) && forall i | 0 <= i < |members| :: Keyed(members[i].value)
    case _ => true
  }

  lemma {:induction false} MeaningItemsAt(items: seq<Json>)
    ensures match MeaningItems(items)
            case None => exists i | 0 <= i < |items| :: Meaning(items[i]).None?
            case Some(ms) => |ms| == |items| && forall i | 0 <= i < |items| :: Meaning(items[i]) == Some(ms[i])
  {
    if items != [] {
      MeaningItemsAt(items[1..]);
      if Meaning(items[0]).Some? && MeaningItems(items[1..]).None? {
        var i :| 0 <= i < |items[1..]| && Meaning(items[1..][i]).None?;
        assert Meaning(items[i + 1]).None?;
      }
    }
  }

  lemma {:induction false} MeaningMembersAt(ms: seq<Member<Json>>)
    ensures match MeaningMembers(ms)
            case None => exists i | 0 <= i < |ms| :: Meaning(ms[i].value).None?
            case Some(vs) =>
              |vs| == |ms|
              && forall i | 0 <= i < |ms| :: vs[i].key == ms[i].key && Meaning(ms[i].value) == Some(vs[i].value)
  {
    if ms != [] {
      MeaningMembersAt(ms[1..]);
      if Meaning(ms[0].value).Some? && MeaningMembers(ms[1..]).None? {
        var i :| 0 <= i < |ms[1..]| && Meaning(ms[1..][i].value).None?;
        assert Meaning(ms[i + 1].value).None?;
      }
    }
  }

  // Some member has this key and this meaning.
  ghost predicate HasMeaning(a: seq<Member<Json>>, key: string, m: Option<Value>) {
    exists i | 0 <= i < |a| :: a[i].key == key && Meaning(a[i].value) == m
  }

  // a's members all have a counterpart of equal meaning in b.
  ghost predicate Covers(a: seq<Member<Json>>, b: seq<Member<Json>>) {
    forall i | 0 <= i < |a| :: HasMeaning(b, a[i].key, Meaning(a[i].value))
  }

  lemma CoversNone(a: seq<Member<Json>>, b: seq<Member<Json>>)
    requires Covers(a, b) && MeaningMembers(a).None?
    ensures MeaningMembers(b).None?
  {
    MeaningMembersAt(a);
    MeaningMembersAt(b);
    var i :| 0 <= i < |a| && Meaning(a[i].value).None?;
    assert HasMeaning(b, a[i].key, Meaning(a[i].value));
  }

  lemma CoversMembers(a: seq<Member<Json>>, b: seq<Member<Json>>)
    requires MeaningMembers(a).Some? && MeaningMembers(b).Some?
    ensures Covers(a, b) <==> forall m :: m in MeaningMembers(a).value ==> m in MeaningMembers(b).value
  {
    MeaningMembersAt(a);
    MeaningMembersAt(b);
    var vs, ws := MeaningMembers(a).value, MeaningMembers(b).value;
    if Covers(a, b) {
      forall m | m in vs ensures m in ws {
        var i :| 0 <= i < |vs| && vs[i] == m;
        assert HasMeaning(b, a[i].key, Meaning(a[i].value));
        var j :| 0 <= j < |b| && b[j].key == a[i].key && Meaning(b[j].value) == Meaning(a[i].value);
        assert ws[j] == m;
      }
    }
    if forall m :: m in vs ==> m in ws {
      forall i | 0 <= i < |a| ensures HasMeaning(b, a[i].key, Meaning(a[i].value)) {
        assert vs[i] in ws;
        var j :| 0 <= j < |ws| && ws[j] == vs[i];
        assert b[j].key == a[i].key && Meaning(b[j].value) == Meaning(a[i].value);
      }
    }
  }

  lemma MeaningMembersDistinct(ms: seq<Member<Json>>)
    requires Distinct(ms) && MeaningMembers(ms).Some?
    ensures Distinct(MeaningMembers(ms).value)
  {
    MeaningMembersAt(ms);
  }

  lemma CoversIffMeaning(a: seq<Member<Json>>, b: seq<Member<Json>>)
    requires Distinct(a) && Distinct(b)
    ensures Covers(a, b) && Covers(b, a) ==> Meaning(Obj(a)) == Meaning(Obj(b))
    ensures Meaning(Obj(a)).Some? && Meaning(Obj(a)) == Meaning(Obj(b)) ==> Covers(a, b) && Covers(b, a)
  {
    if MeaningMembers(a).Some? && MeaningMembers(b).Some? {
      MeaningMembersDistinct(a);
      MeaningMembersDistinct(b);
      CoversMembers(a, b);
      CoversMembers(b, a);
      SortIsCanonical(MeaningMembers(a).value, MeaningMembers(b).value);
    } else if Covers(a, b) && Covers(b, a) {
      if MeaningMembers(a).None? { CoversNone(a, b); } else { CoversNone(b, a); }
    }
  }

  // Members of a and b under one key have one meaning.
  ghost predicate EqualMeanings(a: seq<Member<Json>>, b: seq<Member<Json>>) {
    forall i, j | 0 <= i < |a| && 0 <= j < |b| && a[i].key == b[j].key :: Meaning(a[i].value) == Meaning(b[j].value)
  }

  lemma EqualMeaningsCover(a: seq<Member<Json>>, b: seq<Member<Json>>)
    requires KeysIn(a, b) && EqualMeanings(a, b)
    ensures Covers(a, b)
  {
    forall i | 0 <= i < |a| ensures HasMeaning(b, a[i].key, Meaning(a[i].value)) {
      assert HasKey(b, a[i].key);
      var j :| 0 <= j < |b| && b[j].key == a[i].key;
      assert Meaning(b[j].value) == Meaning(a[i].value);
    }
  }

  lemma CoverEqualMeanings(a: seq<Member<Json>>, b: seq<Member<Json>>)
    requires Distinct(b) && Covers(a, b)
    ensures KeysIn(a, b) && EqualMeanings(a, b)
  {
    forall i | 0 <= i < |a|
      ensures HasKey(b, a[i].key)
      ensures forall j | 0 <= j < |b| && a[i].key == b[j].key :: Meaning(a[i].value) == Meaning(b[j].value)
    {
      assert HasMeaning(b, a[i].key, Meaning(a[i].value));
    }
  }

  lemma {:induction false} SameMeans(v: Json, w: Json)
    requires Keyed(v) && Keyed(w) && Same(v, w)
    ensures Meaning(v) == Meaning(w)
    decreases v
  {
    match (v, w)
    case (Arr(a), Arr(b)) =>
      forall i | 0 <= i < |a| ensures Meaning(a[i]) == Meaning(b[i]) { SameMeans(a[i], b[i]); }
      MeaningItemsAt(a);
      MeaningItemsAt(b);
      if MeaningItems(a).Some? && MeaningItems(b).Some? {
        assert MeaningItems(a).value == MeaningItems(b).value;
      }
    case (Obj(a), Obj(b)) =>
      forall i, j | 0 <= i < |a| && 0 <= j < |b| && a[i].key == b[j].key
        ensures Meaning(a[i].value) == Meaning(b[j].value)
      {
        SameMeans(a[i].value, b[j].value);
      }
      EqualMeaningsCover(a, b);
      EqualMeaningsCover(b, a);
      CoversIffMeaning(a, b);
    case _ =>
  }

  lemma {:induction false} MeansSame(v: Json, w: Json)
    requires Keyed(v) && Keyed(w) && Meaning(v).Some? && Meaning(v) == Meaning(w)
    ensures Same(v, w)
    decreases v
  {
    match (v, w)
    case (Arr(a), Arr(b)) =>
      MeaningItemsAt(a);
      MeaningItemsAt(b);
      forall i | 0 <= i < |a| ensures Same(a[i], b[i]) { MeansSame(a[i], b[i]); }
    case (Obj(a), Obj(b)) =>
      CoversIffMeaning(a, b);
      CoverEqualMeanings(a, b);
      CoverEqualMeanings(b, a);
      MeaningMembersAt(a);
      forall i, j | 0 <= i < |a| && 0 <= j < |b| && a[i].key == b[j].key
        ensures Same(a[i].value, b[j].value)
      {
        MeansSame(a[i].value, b[j].value);
      }
    case _ =>
  }

  /** Two values have one canonical form if and only if they are the same JSON value: the form
      is injective, and blind to member order and to how a number was spelled. */
  lemma OneFormPerValue(v: Json, w: Json)
    requires Keyed(v) && Keyed(w) && Canon(v).Some? && Canon(w).Some?
    ensures Canon(v) == Canon(w) <==> Same(v, w)
  {
    CanonicalReads(v);
    CanonicalReads(w);
    CanonWritesMeaning(v);
    CanonWritesMeaning(w);
    if Same(v, w) { SameMeans(v, w); }
    if Meaning(v) == Meaning(w) { MeansSame(v, w); }
  }
}
