/** Every text the parser takes is the text of a tree, and what it returns is the tree's meaning. */
module JsonSound {
  import opened Strings
  import opened Unicode
  import opened Json
  import opened JsonParser
  import opened JsonGrammar
  import opened JsonComplete

  lemma {:induction false} SpaceSound(s: Bytes, i: nat)
    requires i <= |s|
    ensures var e := SkipSpace(s, i); AllSpace(s[i..e]) && At(s, i, s[i..e])
    ensures var e := SkipSpace(s, i); e < |s| ==> !IsSpace(s[e])
    decreases |s| - i
  {
    if i < |s| && IsSpace(s[i]) {
      SpaceSound(s, i + 1);
      var e := SkipSpace(s, i);
      assert s[i..e] == [s[i]] + s[i + 1..e];
    }
  }

  // --- numbers ----------------------------------------------------------------

  lemma {:induction false} SkipDigitsCut(s: Bytes, i: nat, e: nat, k: nat)
    requires i <= k <= e <= |s| && SkipDigits(s, k) <= e
    ensures SkipDigits(s[i..e], k - i) == SkipDigits(s, k) - i
    decreases e - k
  {
    if k < e && IsDigit(s[k]) { SkipDigitsCut(s, i, e, k + 1); }
  }

  lemma FractionCut(s: Bytes, i: nat, e: nat, k: nat)
    requires i <= k <= e <= |s| && FractionEnd(s, k) <= e
    ensures FractionEnd(s[i..e], k - i) == FractionEnd(s, k) - i
  {
    if k < e && s[k] == '.' { SkipDigitsCut(s, i, e, k + 1); }
  }

  lemma ExponentCut(s: Bytes, i: nat, e: nat, k: nat)
    requires i <= k <= e <= |s| && ExponentEnd(s, k) <= e
    ensures ExponentEnd(s[i..e], k - i) == ExponentEnd(s, k) - i
  {
    if k < e && IsExp(s[k]) { SkipDigitsCut(s, i, e, SkipSign(s, k + 1)); }
  }

  lemma NumberSound(s: Bytes, i: nat)
    requires i <= |s| && ScanNumber(s, i).1
    ensures IsNumberToken(s[i..ScanNumber(s, i).0])
  {
    var e := ScanNumber(s, i).0;
    var whole := SkipDigits(s, SkipSign(s, i));
    SkipDigitsCut(s, i, e, SkipSign(s, i));
    FractionCut(s, i, e, whole);
    ExponentCut(s, i, e, FractionEnd(s, whole));
    assert SkipSign(s[i..e], 0) == SkipSign(s, i) - i;
  }

  // --- strings ------------------------------------------------------------------

  lemma HexCut(s: Bytes, i: nat)
    requires i + 4 <= |s|
    ensures HexValue(s[i..i + 4], 0, 4) == HexValue(s, i, 4)
  {
    HexShift(s, i, s[i..i + 4], 4);
  }

  /** The `\u` item written at `i`. */
  lemma UniSound(s: Bytes, i: nat) returns (it: Item)
    requires i + 6 <= |s| && s[i] == '\\' && s[i + 1] == 'u' && HexValue(s, i + 2, 4).Some?
    ensures it.Uni? && ValidItem(it) && At(s, i, ItemText(it))
    ensures UnitOf(it) == HexValue(s, i + 2, 4).value
  {
    it := Uni(s[i + 2..i + 6]);
    HexCut(s, i + 2);
    assert s[i..i + 2] == "\\u";
    AtSplit(s, i, "\\u", it.hex);
  }

  lemma ItemsJoin(s: Bytes, i: nat, it: Item, rest: seq<Item>)
    requires At(s, i, ItemText(it)) && At(s, i + |ItemText(it)|, ItemsText(rest) + "\"")
    requires ValidItem(it) && ValidItems(rest)
    ensures At(s, i, ItemsText([it] + rest) + "\"") && ValidItems([it] + rest)
    ensures |ItemsText([it] + rest)| == |ItemText(it)| + |ItemsText(rest)|
  {
    assert ([it] + rest)[1..] == rest;
    assert ItemsText([it] + rest) + "\"" == ItemText(it) + (ItemsText(rest) + "\"");
    AtSplit(s, i, ItemText(it), ItemsText(rest) + "\"");
  }

  lemma {:induction false} StringSound(s: Bytes, i: nat) returns (items: seq<Item>)
    requires i <= |s| && StringBody(s, i).Ok?
    ensures ValidItems(items) && At(s, i, ItemsText(items) + "\"")
    ensures StringBody(s, i) == Ok(StringBytes(items), i + |ItemsText(items)| + 1)
    decreases |s| - i
  {
    if s[i] == '"' {
      items := [];
      AtOne(s, i, '"');
      assert ItemsText([]) + "\"" == ['"'];
    } else if s[i] != '\\' {
      var rest := StringSound(s, i + 1);
      AtOne(s, i, s[i]);
      ItemsJoin(s, i, Plain(s[i]), rest);
      items := [Plain(s[i])] + rest;
    } else if s[i + 1] != 'u' {
      var rest := StringSound(s, i + 2);
      var it := Short(s[i + 1]);
      assert s[i..i + 2] == ItemText(it);
      ItemsJoin(s, i, it, rest);
      items := [it] + rest;
    } else {
      items := EscapeSound(s, i);
    }
    StringComplete(s, i, items);
  }

  lemma {:induction false} EscapeSound(s: Bytes, i: nat) returns (items: seq<Item>)
    requires i + 1 < |s| && s[i] == '\\' && s[i + 1] == 'u' && StringBody(s, i).Ok?
    ensures ValidItems(items) && At(s, i, ItemsText(items) + "\"")
    decreases |s| - i, 0
  {
    hide HexValue;
    hide At;
    hide ItemsText;
    hide Utf8;
    hide UnitOf;
    var it := UniSound(s, i);
    if IsHigh(UnitOf(it)) && PairFollows(s, i + 6) {
      var low := UniSound(s, i + 6);
      var rest := StringSound(s, i + 12);
      ItemsJoin(s, i + 6, low, rest);
      items := [low] + rest;
    } else {
      items := StringSound(s, i + 6);
    }
    ItemsJoin(s, i, it, items);
    items := [it] + items;
  }

  lemma LiteralSound(s: Bytes, i: nat) returns (items: seq<Item>)
    requires i <= |s| && StringAt(s, i).Ok?
    ensures ValidItems(items) && At(s, i, Literal(items))
    ensures StringAt(s, i) == Ok(StringBytes(items), i + |Literal(items)|)
  {
    items := StringSound(s, i + 1);
    AtOne(s, i, '"');
    AtSplit(s, i, "\"", ItemsText(items) + "\"");
  }

  // --- values ----------------------------------------------------------------------

  /** An accepted value has room and a first byte, and the space before it does not matter. */
  lemma ValueStarts(F: Floats, s: Bytes, i: nat, room: nat)
    requires i <= |s| && ValueAt(F, s, i, room).Ok?
    ensures var j := SkipSpace(s, i);
      room > 0 && j < |s| && !IsSpace(s[j]) && ValueAt(F, s, j, room) == ValueAt(F, s, i, room)
  {
    hide ObjectAt;
    hide ArrayAt;
    hide StringAt;
    hide NumberAt;
    hide At;
    SpaceSound(s, i);
  }

  /** A literal name or a number. */
  lemma PlainSound(F: Floats, s: Bytes, j: nat, room: nat) returns (t: Tree)
    requires j < |s| && !IsSpace(s[j]) && s[j] !in "{[\"" && ValueAt(F, s, j, room).Ok?
    ensures ValidTree(t) && TreeAt(s, j, t) && TreeHeight(t) == 1
    ensures ValueAt(F, s, j, room) == Ok(Meaning(F, t), j + Len(t))
  {
    hide ObjectAt;
    hide ArrayAt;
    hide StringAt;
    assert SkipSpace(s, j) == j;
    if At(s, j, "true") {
      t := TTrue;
    } else if At(s, j, "false") {
      t := TFalse;
    } else if At(s, j, "null") {
      t := TNull;
    } else {
      hide SkipSpace;
      hide ScanNumber;
      NumberSound(s, j);
      t := TNum(s[j..ScanNumber(s, j).0]);
    }
  }

  lemma {:induction false} ValueSound(F: Floats, s: Bytes, i: nat, room: nat) returns (pre: Bytes, t: Tree)
    requires i <= |s| && ValueAt(F, s, i, room).Ok?
    ensures AllSpace(pre) && At(s, i, pre) && ValidTree(t) && TreeAt(s, i + |pre|, t)
    ensures TreeHeight(t) <= room
    ensures ValueAt(F, s, i, room) == Ok(Meaning(F, t), i + |pre| + Len(t))
    decreases room, |s| - i, 0
  {
    hide ValueAt;
    hide ObjectAt;
    hide ArrayAt;
    hide SkipSpace;
    hide TreeAt;
    hide ValidTree;
    hide Meaning;
    hide Len;
    hide TreeHeight;
    hide At;
    hide AllSpace;
    var j := SkipSpace(s, i);
    SpaceSound(s, i);
    ValueStarts(F, s, i, room);
    ValueDispatch(F, s, j, room);
    pre := s[i..j];
    if s[j] == '{' {
      t := ObjectSound(F, s, j, room - 1);
    } else if s[j] == '[' {
      t := ArraySound(F, s, j, room - 1);
    } else if s[j] == '"' {
      t := QuotedSound(F, s, j, room);
    } else {
      t := PlainSound(F, s, j, room);
    }
  }

  lemma QuotedSound(F: Floats, s: Bytes, j: nat, room: nat) returns (t: Tree)
    requires j < |s| && s[j] == '"' && ValueAt(F, s, j, room).Ok?
    ensures ValidTree(t) && TreeAt(s, j, t) && TreeHeight(t) == 1
    ensures ValueAt(F, s, j, room) == Ok(Meaning(F, t), j + Len(t))
  {
    hide StringAt;
    hide ObjectAt;
    hide ArrayAt;
    hide NumberAt;
    hide ValidItems;
    hide StringBytes;
    hide Literal;
    hide At;
    assert SkipSpace(s, j) == j;
    var items := LiteralSound(s, j);
    t := TStr(items);
  }

  /** The space before the first element may be said to be any other. */
  lemma Repad(F: Floats, s: Bytes, i: nat, es: seq<Elem>, pad: Bytes) returns (r: seq<Elem>)
    requires es != [] && ValidElems(es) && ElemsSpan(s, i, es) && AllSpace(pad)
    ensures r != [] && r[0].pre == pad && ValidElems(r) && ElemsSpan(s, i, r)
    ensures ElemsHeight(r) == ElemsHeight(es) && ElemsLen(r) == ElemsLen(es)
    ensures Meanings(F, r) == Meanings(F, es)
  {
    r := [es[0].(pre := pad)] + es[1..];
    assert r[1..] == es[1..];
  }

  lemma NoSpaceHere(s: Bytes, k: nat, pre: Bytes)
    requires At(s, k, pre) && AllSpace(pre) && k < |s| && !IsSpace(s[k])
    ensures pre == ""
  {
    if pre != "" { AtByte(s, k, pre, 0); }
  }

  lemma {:induction false} ArraySound(F: Floats, s: Bytes, i: nat, room: nat) returns (t: Tree)
    requires ByteAt(s, i, '[') && ArrayAt(F, s, i + 1, room).Ok?
    ensures ValidTree(t) && TreeAt(s, i, t) && TreeHeight(t) <= room + 1
    ensures ArrayAt(F, s, i + 1, room) == Ok(Meaning(F, t), i + Len(t))
    decreases room, |s| - i, 0
  {
    hide SkipSpace;
    hide ElementsAt;
    hide ElemsSpan;
    var k := SkipSpace(s, i + 1);
    SpaceSound(s, i + 1);
    var pad := s[i + 1..k];
    if ByteAt(s, k, ']') {
      t := TArr(pad, []);
    } else {
      var es := ElemsSound(F, s, k, room, []);
      if k < |s| { NoSpaceHere(s, k, es[0].pre); }
      es := Repad(F, s, k, es, pad);
      assert [] + Meanings(F, es) == Meanings(F, es);
      t := TArr("", es);
    }
  }

  lemma {:induction false} ElemsSound(F: Floats, s: Bytes, i: nat, room: nat, acc: seq<Value>)
    returns (es: seq<Elem>)
    requires i <= |s| && ElementsAt(F, s, i, room, acc).Ok?
    ensures es != [] && ValidElems(es) && At(s, i, es[0].pre) && ElemsSpan(s, i + |es[0].pre|, es)
    ensures ElemsHeight(es) <= room
    ensures ElementsAt(F, s, i, room, acc) == Ok(acc + Meanings(F, es), i + |es[0].pre| + ElemsLen(es))
    decreases room, |s| - i, 1
  {
    hide TreeAt;
    hide Len;
    hide TreeHeight;
    hide Meaning;
    hide ValidTree;
    hide ValueAt;
    hide ElementsAt;
    hide SkipSpace;
    hide At;
    hide AllSpace;
    ElementOk(F, s, i, room, acc);
    var pre, t := ValueSound(F, s, i, room);
    var v := ValueAt(F, s, i, room);
    var j := SkipSpace(s, v.end);
    SpaceSound(s, v.end);
    var e := Elem(pre, t, s[v.end..j]);
    ElementStep(F, s, i, room, acc, v.value, v.end);
    if s[j] == ',' {
      var rest := ElemsSound(F, s, j + 1, room, acc + [v.value]);
      es := [e] + rest;
      assert es[1..] == rest;
      assert acc + [v.value] + Meanings(F, rest) == acc + Meanings(F, es);
    } else {
      es := [e];
      assert Meanings(F, es) == [v.value];
    }
  }

  lemma ElementOk(F: Floats, s: Bytes, i: nat, room: nat, acc: seq<Value>)
    requires i <= |s| && ElementsAt(F, s, i, room, acc).Ok?
    ensures ValueAt(F, s, i, room).Ok?
    ensures var j := SkipSpace(s, ValueAt(F, s, i, room).end); ByteAt(s, j, ',') || ByteAt(s, j, ']')
  {
    hide ValueAt;
    hide SkipSpace;
  }

  lemma RepadMembers(F: Floats, s: Bytes, i: nat, ms: seq<Member>, pad: Bytes) returns (r: seq<Member>)
    requires ms != [] && ValidMembers(ms) && MembersSpan(s, i, ms) && AllSpace(pad)
    ensures r != [] && r[0].pre == pad && ValidMembers(r) && MembersSpan(s, i, r)
    ensures MembersHeight(r) == MembersHeight(ms) && MembersLen(r) == MembersLen(ms)
    ensures Fields(F, r, []) == Fields(F, ms, [])
  {
    hide TreeAt;
    hide Len;
    hide TreeHeight;
    hide Meaning;
    hide ValidTree;
    hide At;
    hide AllSpace;
    hide StringBytes;
    hide ValidItems;
    hide SetKey;
    hide Literal;
    r := [ms[0].(pre := pad)] + ms[1..];
    assert r[1..] == ms[1..];
  }

  /** A tree from the members after the opening brace. */
  lemma FullObject(F: Floats, s: Bytes, i: nat, room: nat, ms: seq<Member>)
    requires ByteAt(s, i, '{') && ms != [] && ValidMembers(ms) && MembersHeight(ms) <= room
    requires ms[0].pre == s[i + 1..SkipSpace(s, i + 1)] && MembersSpan(s, SkipSpace(s, i + 1), ms)
    requires !ByteAt(s, SkipSpace(s, i + 1), '}')
    requires MembersAt(F, s, SkipSpace(s, i + 1), room, []) ==
             Ok(Fields(F, ms, []), SkipSpace(s, i + 1) + MembersLen(ms))
    ensures var t := TObj("", ms);
      && ValidTree(t) && TreeAt(s, i, t) && TreeHeight(t) <= room + 1
      && ObjectAt(F, s, i + 1, room) == Ok(Meaning(F, t), i + Len(t))
  {
    hide SkipSpace;
    hide MembersAt;
    hide ValidMembers;
    hide MembersHeight;
    hide MembersSpan;
    hide MembersLen;
    hide Fields;
  }

  lemma EmptyObject(F: Floats, s: Bytes, i: nat, room: nat)
    requires ByteAt(s, i, '{') && ByteAt(s, SkipSpace(s, i + 1), '}')
    ensures var t := TObj(s[i + 1..SkipSpace(s, i + 1)], []);
      && ValidTree(t) && TreeAt(s, i, t) && TreeHeight(t) <= room + 1
      && ObjectAt(F, s, i + 1, room) == Ok(Meaning(F, t), i + Len(t))
  {
    hide SkipSpace;
    hide MembersAt;
    hide AllSpace;
    hide At;
    SpaceSound(s, i + 1);
  }

  lemma {:induction false} ObjectSound(F: Floats, s: Bytes, i: nat, room: nat) returns (t: Tree)
    requires ByteAt(s, i, '{') && ObjectAt(F, s, i + 1, room).Ok?
    ensures ValidTree(t) && TreeAt(s, i, t) && TreeHeight(t) <= room + 1
    ensures ObjectAt(F, s, i + 1, room) == Ok(Meaning(F, t), i + Len(t))
    decreases room, |s| - i, 0
  {
    hide SkipSpace;
    hide MembersAt;
    hide MembersSpan;
    hide Fields;
    hide AllSpace;
    hide ValidItems;
    hide TreeAt;
    hide ValidTree;
    hide Meaning;
    hide Len;
    hide TreeHeight;
    hide MembersHeight;
    hide MembersLen;
    var k := SkipSpace(s, i + 1);
    SpaceSound(s, i + 1);
    if ByteAt(s, k, '}') {
      EmptyObject(F, s, i, room);
      t := TObj(s[i + 1..k], []);
    } else {
      var ms := MembersSound(F, s, k, room, []);
      if k < |s| { NoSpaceHere(s, k, ms[0].pre); }
      ms := RepadMembers(F, s, k, ms, s[i + 1..k]);
      FullObject(F, s, i, room, ms);
      t := TObj("", ms);
    }
  }

  /** The member at `i` is the key of `m` and the value after its colon. */
  ghost predicate KeyRead(F: Floats, s: Bytes, i: nat, room: nat, m: Member)
    requires i <= |s| && ValidItems(m.key)
  {
    var c := i + |m.pre| + KeyLen(m);
    && c <= |s|
    && match ValueAt(F, s, c, room)
       case Ok(v, e) => MemberAt(F, s, i, room) == Ok(Field(StringBytes(m.key), v), e)
       case Bad(_, _) => false
  }

  /** The key of the member at `i`, and the space around it. */
  lemma KeySound(F: Floats, s: Bytes, i: nat, room: nat) returns (m: Member)
    requires i <= |s| && MemberAt(F, s, i, room).Ok?
    ensures AllSpace(m.pre) && ValidItems(m.key) && AllSpace(m.mid)
    ensures At(s, i, m.pre) && KeySpan(s, i + |m.pre|, m)
    ensures KeyRead(F, s, i, room, m)
  {
    hide ValueAt;
    hide SkipSpace;
    hide StringAt;
    hide AllSpace;
    hide At;
    hide StringBytes;
    hide ValidItems;
    hide Literal;
    var a := SkipSpace(s, i);
    SpaceSound(s, i);
    var key := LiteralSound(s, a);
    var b := a + |Literal(key)|;
    SpaceSound(s, b);
    m := Member(s[i..a], key, s[b..SkipSpace(s, b)], Elem("", TNull, ""));
  }

  lemma MemberOk(F: Floats, s: Bytes, i: nat, room: nat, acc: seq<Field>)
    requires i <= |s| && MembersAt(F, s, i, room, acc).Ok?
    ensures MemberAt(F, s, i, room).Ok?
    ensures var j := SkipSpace(s, MemberAt(F, s, i, room).end); ByteAt(s, j, ',') || ByteAt(s, j, '}')
  {
    hide MemberAt;
    hide SkipSpace;
    hide SetKey;
  }

  lemma {:induction false} MembersSound(F: Floats, s: Bytes, i: nat, room: nat, acc: seq<Field>)
    returns (ms: seq<Member>)
    requires i <= |s| && MembersAt(F, s, i, room, acc).Ok?
    ensures ms != [] && ValidMembers(ms) && At(s, i, ms[0].pre) && MembersSpan(s, i + |ms[0].pre|, ms)
    ensures MembersHeight(ms) <= room
    ensures MembersAt(F, s, i, room, acc) == Ok(Fields(F, ms, acc), i + |ms[0].pre| + MembersLen(ms))
    decreases room, |s| - i, 1
  {
    hide TreeAt;
    hide Len;
    hide TreeHeight;
    hide Meaning;
    hide ValidTree;
    hide ValueAt;
    hide MemberAt;
    hide MembersAt;
    hide SkipSpace;
    hide At;
    hide AllSpace;
    hide SetKey;
    hide StringBytes;
    hide ValidItems;
    hide Literal;
    MemberOk(F, s, i, room, acc);
    var m := KeySound(F, s, i, room);
    var c := i + |m.pre| + KeyLen(m);
    var pre, t := ValueSound(F, s, c, room);
    var f := MemberAt(F, s, i, room);
    var j := SkipSpace(s, f.end);
    SpaceSound(s, f.end);
    m := m.(elem := Elem(pre, t, s[f.end..j]));
    MemberStep(F, s, i, room, acc, f.value, f.end);
    if s[j] == ',' {
      var rest := MembersSound(F, s, j + 1, room, SetKey(acc, f.value.key, f.value.value));
      ms := [m] + rest;
      assert ms[1..] == rest;
    } else {
      ms := [m];
      assert ms[1..] == [];
    }
  }

  // --- whole texts --------------------------------------------------------------------

  lemma TextSound(F: Floats, s: Bytes, room: nat) returns (doc: Elem)
    requires Parse(F, s, room).Ok?
    ensures ValidDoc(doc) && DocText(doc) == s && TreeHeight(doc.tree) <= room
    ensures Parse(F, s, room) == Ok(Meaning(F, doc.tree), |s|)
  {
    hide TreeAt;
    hide Len;
    hide TreeHeight;
    hide Meaning;
    hide ValidTree;
    hide ValueAt;
    hide Text;
    hide AllSpace;
    hide SkipSpace;
    var pre, t := ValueSound(F, s, 0, room);
    var e := |pre| + Len(t);
    SpaceSound(s, e);
    doc := Elem(pre, t, s[e..]);
    TreeAtText(s, |pre|, t);
    AtThree(s, 0, pre, Text(t), s[e..]);
    assert s[0..|s|] == s;
  }

  /** The parser takes exactly the texts of trees of height at most `room`. */
  lemma AcceptsExactly(F: Floats, s: Bytes, room: nat)
    ensures Parse(F, s, room).Ok? <==>
      exists doc :: ValidDoc(doc) && DocText(doc) == s && TreeHeight(doc.tree) <= room
  {
    hide Parse;
    hide TreeHeight;
    hide ValidDoc;
    hide DocText;
    if Parse(F, s, room).Ok? {
      var doc := TextSound(F, s, room);
    }
    forall doc | ValidDoc(doc) && DocText(doc) == s && TreeHeight(doc.tree) <= room
      ensures Parse(F, s, room).Ok?
    {
      TextComplete(F, doc, room);
    }
  }

  // --- what meanings are like ------------------------------------------------------------

  /** Every finite number below `v` is one of the doubles. */
  predicate Doubles(F: Floats, v: Value) {
    match v
    case Num(n) => n.Fin? ==> F.isDouble(n.r)
    case Arr(items) => forall k | 0 <= k < |items| :: Doubles(F, items[k])
    case Obj(fields) => forall k | 0 <= k < |fields| :: Doubles(F, fields[k].value)
    case _ => true
  }

  /** What every parsed value is: sorted maps, doubles, and no higher than its text. */
  predicate Good(F: Floats, v: Value, room: nat) {
    WellFormed(v) && Doubles(F, v) && Height(v) <= room
  }

  predicate GoodFields(F: Floats, fields: seq<Field>, room: nat) {
    SortedKeys(fields) && forall f | f in fields :: Good(F, f.value, room)
  }

  lemma {:induction false} ItemsHeightBound(items: seq<Value>, room: nat)
    requires forall k | 0 <= k < |items| :: Height(items[k]) <= room
    ensures ItemsHeight(items) <= room
  {
    if items != [] { ItemsHeightBound(items[1..], room); }
  }

  lemma {:induction false} FieldsHeightBound(fields: seq<Field>, room: nat)
    requires forall f | f in fields :: Height(f.value) <= room
    ensures FieldsHeight(fields) <= room
  {
    if fields != [] { FieldsHeightBound(fields[1..], room); }
  }

  lemma {:induction false} MeaningGood(F: Floats, t: Tree)
    requires Faithful(F) && ValidTree(t)
    ensures Good(F, Meaning(F, t), TreeHeight(t))
    decreases t, 0
  {
    match t
    case TArr(_, es) =>
      MeaningsGood(F, es);
      ItemsHeightBound(Meanings(F, es), ElemsHeight(es));
    case TObj(_, ms) =>
      FieldsAreGood(F, ms, [], MembersHeight(ms));
      FieldsHeightBound(Fields(F, ms, []), MembersHeight(ms));
    case _ =>
  }

  lemma {:induction false} MeaningsGood(F: Floats, es: seq<Elem>)
    requires Faithful(F) && ValidElems(es)
    ensures forall k | 0 <= k < |Meanings(F, es)| :: Good(F, Meanings(F, es)[k], ElemsHeight(es))
    decreases es, 0
  {
    if es != [] {
      MeaningGood(F, es[0].tree);
      MeaningsGood(F, es[1..]);
    }
  }

  lemma {:induction false} FieldsAreGood(F: Floats, ms: seq<Member>, acc: seq<Field>, room: nat)
    requires Faithful(F) && ValidMembers(ms) && GoodFields(F, acc, room) && MembersHeight(ms) <= room
    ensures GoodFields(F, Fields(F, ms, acc), room)
    decreases ms, 0
  {
    if ms != [] {
      var key, v := StringBytes(ms[0].key), Meaning(F, ms[0].elem.tree);
      MeaningGood(F, ms[0].elem.tree);
      SetKeySorted(acc, key, v);
      SetKeyMembers(acc, key, v);
      FieldsAreGood(F, ms[1..], SetKey(acc, key, v), room);
    }
  }

  /** A parsed value keeps its keys sorted, holds doubles, and is at most `room` high. */
  lemma ParseGood(F: Floats, s: Bytes, room: nat)
    requires Faithful(F) && Parse(F, s, room).Ok?
    ensures Good(F, Parse(F, s, room).value, room)
  {
    hide Parse;
    hide TreeHeight;
    hide DocText;
    hide Meaning;
    hide ValidTree;
    hide Faithful;
    var doc := TextSound(F, s, room);
    MeaningGood(F, doc.tree);
  }
}
