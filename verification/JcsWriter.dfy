/** The writer of the Go SDK as it runs: appending to a buffer, member by member. */
module JcsWriter {
  import opened Wrappers
  import opened JcsNumber
  import opened Jcs
  import opened JcsText

  // bytes.Buffer, holding text.
  class Buffer {
    var data: string

    constructor ()
      ensures data == ""
    {
      data := "";
    }

    method Append(s: string)
      modifies this
      ensures data == old(data) + s
    {
      data := data + s;
    }
  }

  method WriteJcsString(b: Buffer, s: string)
    modifies b
    ensures b.data == old(b.data) + Quote(s)
  {
    ghost var start := b.data;
    b.Append("\"");
    for i := 0 to |s|
      invariant b.data == start + ("\"" + Escaped(s[..i]))
    {
      assert s[..i + 1] == s[..i] + [s[i]];
      EscapedSnoc(s[..i], s[i]);
      b.Append(EscapeChar(s[i]));
      Assoc("\"", Escaped(s[..i]), EscapeChar(s[i]));
      Assoc(start, "\"" + Escaped(s[..i]), EscapeChar(s[i]));
    }
    assert s[..|s|] == s;
    b.Append("\"");
    Assoc("\"", Escaped(s), "\"");
    Assoc(start, "\"" + Escaped(s), "\"");
  }

  lemma {:induction false} EscapedSnoc(s: string, c: char)
    ensures Escaped(s + [c]) == Escaped(s) + EscapeChar(c)
  {
    if s == "" {
      assert s + [c] == [c] && Escaped([c]) == EscapeChar(c) + Escaped("");
    } else {
      assert (s + [c])[1..] == s[1..] + [c];
      EscapedSnoc(s[1..], c);
      Assoc(EscapeChar(s[0]), Escaped(s[1..]), EscapeChar(c));
    }
  }

  lemma {:induction false} TailSnoc(ts: seq<string>, t: string, end: string)
    ensures Tail(ts + [t], end) == Tail(ts, "," + (t + end))
  {
    if ts == [] {
      assert ts + [t] == [t] && Tail([t], end) == "," + (t + Tail([], end));
    } else {
      assert (ts + [t])[1..] == ts[1..] + [t];
      TailSnoc(ts[1..], t, end);
    }
  }

  lemma {:induction false} TailSplit(ts: seq<string>, end: string)
    ensures Tail(ts, end) == Tail(ts, "") + end
  {
    if ts != [] {
      TailSplit(ts[1..], end);
      Assoc(ts[0], Tail(ts[1..], ""), end);
      Assoc(",", ts[0] + Tail(ts[1..], ""), end);
    }
  }

  lemma ListSplit(ts: seq<string>, end: string)
    ensures List(ts, end) == List(ts, "") + end
  {
    if ts != [] {
      TailSplit(ts[1..], end);
      Assoc(ts[0], Tail(ts[1..], ""), end);
    }
  }

  // One more text after a comma, unless it is the first.
  lemma ListSnoc(ts: seq<string>, t: string)
    ensures List(ts + [t], "") == List(ts, "") + ((if ts == [] then "" else ",") + t)
  {
    if ts == [] {
      assert ts + [t] == [t] && List([t], "") == t + Tail([], "");
    } else {
      assert (ts + [t])[1..] == ts[1..] + [t] && t + "" == t;
      TailSnoc(ts[1..], t, "");
      TailSplit(ts[1..], "," + t);
      Assoc(ts[0], Tail(ts[1..], ""), "," + t);
    }
  }

  lemma {:induction false} CanonItemsAt(items: seq<Json>)
    ensures match CanonItems(items)
            case None => exists i | 0 <= i < |items| :: Canon(items[i]).None?
            case Some(ts) => |ts| == |items| && forall i | 0 <= i < |items| :: Canon(items[i]) == Some(ts[i])
  {
    if items != [] {
      CanonItemsAt(items[1..]);
      if Canon(items[0]).Some? && CanonItems(items[1..]).None? {
        var i :| 0 <= i < |items[1..]| && Canon(items[1..][i]).None?;
        assert Canon(items[i + 1]).None?;
      }
    }
  }

  lemma {:induction false} CanonMembersAt(ms: seq<Member<Json>>)
    ensures match CanonMembers(ms)
            case None => exists i | 0 <= i < |ms| :: Canon(ms[i].value).None?
            case Some(ts) =>
              |ts| == |ms|
              && forall i | 0 <= i < |ms| :: ts[i].key == ms[i].key && Canon(ms[i].value) == Some(ts[i].value)
  {
    if ms != [] {
      CanonMembersAt(ms[1..]);
      if Canon(ms[0].value).Some? && CanonMembers(ms[1..]).None? {
        var i :| 0 <= i < |ms[1..]| && Canon(ms[1..][i].value).None?;
        assert Canon(ms[i + 1].value).None?;
      }
    }
  }

  lemma {:induction false} InsertCanon(m: Member<Json>, ms: seq<Member<Json>>)
    ensures CanonMembers(InsertMember(m, ms)) == match (Canon(m.value), CanonMembers(ms))
      case (Some(t), Some(ts)) => Some(InsertMember(Member(m.key, t), ts))
      case _ => None
  {
    if ms == [] || Utf16Less(m.key, ms[0].key) {
      assert ([m] + ms)[1..] == ms;
    } else {
      InsertCanon(m, ms[1..]);
      var r := InsertMember(m, ms);
      assert r[0] == ms[0] && r[1..] == InsertMember(m, ms[1..]);
    }
  }

  // Sorting the members and sorting their texts come to the same.
  lemma {:induction false} SortCanon(ms: seq<Member<Json>>)
    ensures CanonMembers(Sort(ms)) == match CanonMembers(ms) case None => None case Some(ts) => Some(Sort(ts))
  {
    if ms != [] {
      SortCanon(ms[1..]);
      InsertCanon(ms[0], Sort(ms[1..]));
    }
  }

  method WriteCanonical(b: Buffer, v: Json) returns (ok: bool)
    modifies b
    ensures ok <==> Canon(v).Some?
    ensures ok ==> b.data == old(b.data) + Canon(v).value
    decreases v, 2
  {
    match v
    case Null => b.Append("null"); return true;
    case Bool(x) => b.Append(if x then "true" else "false"); return true;
    case Str(s) => WriteJcsString(b, s); return true;
    case Num(n) =>
      var t := NumberText(n);
      if t.None? { return false; }
      b.Append(t.value);
      return true;
    case Arr(items) => ok := WriteArray(b, v);
    case Obj(members) => ok := WriteObject(b, v);
  }

  // A comma unless this is the first element, as both loops of the source write it.
  method AppendSeparator(b: Buffer, i: nat)
    modifies b
    ensures b.data == old(b.data) + if i > 0 then "," else ""
  {
    if i > 0 { b.Append(","); } else { assert b.data + "" == b.data; }
  }

  // The buffer holds what it held, an opening bracket and these texts between commas.
  ghost predicate Written(data: string, start: string, open: string, ts: seq<string>) {
    data == start + (open + List(ts, ""))
  }

  function Separator(ts: seq<string>): string { if ts == [] then "" else "," }

  lemma WrittenSnoc(data: string, start: string, open: string, ts: seq<string>, t: string)
    requires Written(data, start, open, ts)
    ensures Written(data + Separator(ts) + t, start, open, ts + [t])
  {
    var more := Separator(ts) + t;
    ListSnoc(ts, t);
    Assoc(data, Separator(ts), t);
    Assoc(start, open + List(ts, ""), more);
    Assoc(open, List(ts, ""), more);
  }

  lemma WrittenDone(data: string, start: string, open: string, ts: seq<string>, close: string)
    requires Written(data, start, open, ts)
    ensures data + close == start + (open + List(ts, close))
  {
    ListSplit(ts, close);
    Assoc(start, open + List(ts, ""), close);
    Assoc(open, List(ts, ""), close);
  }

  // The texts of the first items.
  ghost predicate ItemTexts(items: seq<Json>, ts: seq<string>) {
    |ts| <= |items| && forall k | 0 <= k < |ts| :: Canon(items[k]) == Some(ts[k])
  }

  lemma ItemTextsAll(items: seq<Json>, ts: seq<string>)
    requires ItemTexts(items, ts) && |ts| == |items|
    ensures CanonItems(items) == Some(ts)
  {
    CanonItemsAt(items);
    if CanonItems(items).Some? { assert CanonItems(items).value == ts; }
  }

  lemma ItemFails(items: seq<Json>, i: nat)
    requires i < |items| && Canon(items[i]).None?
    ensures CanonItems(items).None?
  {
    CanonItemsAt(items);
  }

  lemma ItemTextsSnoc(items: seq<Json>, ts: seq<string>, t: string)
    requires ItemTexts(items, ts) && |ts| < |items| && Canon(items[|ts|]) == Some(t)
    ensures ItemTexts(items, ts + [t])
  {
  }

  method WriteItem(b: Buffer, v: Json, i: nat, ghost start: string, ghost ts: seq<string>)
    returns (ok: bool, ghost t: string)
    requires v.Arr? && i < |v.items| && |ts| == i && Written(b.data, start, "[", ts)
    modifies b
    ensures if ok then Canon(v.items[i]) == Some(t) && Written(b.data, start, "[", ts + [t])
            else Canon(v.items[i]).None?
    decreases v, 0
  {
    ghost var data := b.data;
    t := "";
    AppendSeparator(b, i);
    ok := WriteCanonical(b, v.items[i]);
    if ok {
      t := Canon(v.items[i]).value;
      WrittenSnoc(data, start, "[", ts, t);
    }
  }

  method WriteArray(b: Buffer, v: Json) returns (ok: bool)
    requires v.Arr?
    modifies b
    ensures ok <==> Canon(v).Some?
    ensures ok ==> b.data == old(b.data) + Canon(v).value
    decreases v, 1
  {
    ghost var start := b.data;
    ghost var ts: seq<string> := [];
    b.Append("[");
    assert Written(b.data, start, "[", ts);
    for i := 0 to |v.items|
      invariant |ts| == i && ItemTexts(v.items, ts)
      invariant Written(b.data, start, "[", ts)
    {
      ghost var t;
      ok, t := WriteItem(b, v, i, start, ts);
      if !ok {
        ItemFails(v.items, i);
        return false;
      }
      ItemTextsSnoc(v.items, ts, t);
      ts := ts + [t];
    }
    ItemTextsAll(v.items, ts);
    WrittenDone(b.data, start, "[", ts, "]");
    b.Append("]");
    return true;
  }

  // One member: its key, a colon and its value.
  method WriteMember(b: Buffer, m: Member<Json>) returns (ok: bool)
    modifies b
    ensures ok <==> Canon(m.value).Some?
    ensures ok ==> b.data == old(b.data) + (Quote(m.key) + (":" + Canon(m.value).value))
    decreases m.value, 3
  {
    ghost var start := b.data;
    WriteJcsString(b, m.key);
    b.Append(":");
    ok := WriteCanonical(b, m.value);
    if ok {
      ghost var t := Canon(m.value).value;
      Assoc(start + Quote(m.key), ":", t);
      Assoc(start, Quote(m.key), ":" + t);
    }
  }

  // The texts of the first members.
  ghost predicate SortedTexts(ms: seq<Member<Json>>, ts: seq<Member<string>>) {
    |ts| <= |ms| && forall k | 0 <= k < |ts| :: ts[k].key == ms[k].key && Canon(ms[k].value) == Some(ts[k].value)
  }

  lemma SortedTextsAll(ms: seq<Member<Json>>, ts: seq<Member<string>>)
    requires SortedTexts(Sort(ms), ts) && |ts| == |Sort(ms)|
    ensures CanonMembers(ms).Some? && Sort(CanonMembers(ms).value) == ts
  {
    SortCanon(ms);
    CanonMembersAt(Sort(ms));
    if CanonMembers(Sort(ms)).Some? { assert CanonMembers(Sort(ms)).value == ts; }
  }

  lemma ObjectStarts(start: string, sorted: seq<Member<Json>>)
    ensures Written(start + "{", start, "{", MemberTexts([])) && SortedTexts(sorted, [])
  {
    assert "{" + List([], "") == "{";
  }

  lemma SortedTextsSnoc(ms: seq<Member<Json>>, ts: seq<Member<string>>, t: Member<string>)
    requires SortedTexts(ms, ts) && |ts| < |ms| && t.key == ms[|ts|].key && Canon(ms[|ts|].value) == Some(t.value)
    ensures SortedTexts(ms, ts + [t])
  {
    hide Canon;
  }

  lemma SortedFails(ms: seq<Member<Json>>, i: nat)
    requires i < |Sort(ms)| && Canon(Sort(ms)[i].value).None?
    ensures CanonMembers(ms).None?
  {
    SortCanon(ms);
    CanonMembersAt(Sort(ms));
  }

  method WriteNextMember(b: Buffer, v: Json, m: Member<Json>, i: nat, ghost start: string,
                         ghost ts: seq<Member<string>>)
    returns (ok: bool, ghost t: Member<string>)
    requires v.Obj? && m in v.members && |ts| == i && Written(b.data, start, "{", MemberTexts(ts))
    modifies b
    ensures if ok then
              t.key == m.key && Canon(m.value) == Some(t.value) && Written(b.data, start, "{", MemberTexts(ts + [t]))
            else Canon(m.value).None?
    decreases v, 0
  {
    ghost var data := b.data;
    t := Member("", "");
    AppendSeparator(b, i);
    ghost var j :| 0 <= j < |v.members| && v.members[j] == m;
    ok := WriteMember(b, m);
    if ok {
      t := Member(m.key, Canon(m.value).value);
      WrittenSnoc(data, start, "{", MemberTexts(ts), Quote(t.key) + (":" + t.value));
      MemberTextsSnoc(ts, t);
    }
  }

  method WriteObject(b: Buffer, v: Json) returns (ok: bool)
    requires v.Obj?
    modifies b
    ensures ok <==> Canon(v).Some?
    ensures ok ==> b.data == old(b.data) + Canon(v).value
    decreases v, 1
  {
    hide Written, MemberTexts, Sort, CanonMembers, SortedTexts;
    ghost var start := b.data;
    ghost var ts: seq<Member<string>> := [];
    var sorted := Sort(v.members);
    SortPermutes(v.members);
    b.Append("{");
    ObjectStarts(start, sorted);
    for i := 0 to |sorted|
      invariant |ts| == i && SortedTexts(sorted, ts)
      invariant Written(b.data, start, "{", MemberTexts(ts))
    {
      ghost var t;
      assert sorted[i] in multiset(v.members);
      ok, t := WriteNextMember(b, v, sorted[i], i, start, ts);
      if !ok {
        SortedFails(v.members, i);
        return false;
      }
      SortedTextsSnoc(sorted, ts, t);
      ts := ts + [t];
    }
    SortedTextsAll(v.members, ts);
    WrittenDone(b.data, start, "{", MemberTexts(ts), "}");
    b.Append("}");
    return true;
  }

  lemma {:induction false} MemberTextsSnoc(ts: seq<Member<string>>, m: Member<string>)
    ensures MemberTexts(ts + [m]) == MemberTexts(ts) + [Quote(m.key) + (":" + m.value)]
  {
    if ts == [] {
      assert ts + [m] == [m];
    } else {
      assert (ts + [m])[1..] == ts[1..] + [m];
      MemberTextsSnoc(ts[1..], m);
    }
  }
}
