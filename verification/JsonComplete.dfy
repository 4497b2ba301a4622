/** The parser reads every tree's text as what the tree denotes, and refuses it when it is too deep. */
module JsonComplete {
  import opened Strings
  import opened Unicode
  import opened Json
  import opened JsonParser
  import opened JsonGrammar

  // --- tokens -------------------------------------------------------------------

  lemma {:induction false} SkipSpaceOver(s: Bytes, i: nat, ws: Bytes)
    requires AllSpace(ws) && At(s, i, ws)
    requires i + |ws| < |s| ==> !IsSpace(s[i + |ws|])
    ensures SkipSpace(s, i) == i + |ws|
    decreases |ws|
  {
    if ws != [] {
      assert s[i] == s[i..i + |ws|][0];
      AtSplit(s, i, ws[..1], ws[1..]);
      assert ws == ws[..1] + ws[1..];
      SkipSpaceOver(s, i + 1, ws[1..]);
    }
  }

  lemma {:induction false} HexShift(s: Bytes, i: nat, hex: Bytes, n: nat)
    requires At(s, i, hex) && n <= |hex|
    ensures HexValue(s, i, n) == HexValue(hex, 0, n)
  {
    if n > 0 {
      HexShift(s, i, hex, n - 1);
      assert s[i + n - 1] == s[i..i + |hex|][n - 1];
    }
  }

  /** No number goes on at `j`. */
  predicate Follow(s: Bytes, j: nat) {
    j <= |s| && (j < |s| ==> !IsNumberChar(s[j]))
  }

  lemma {:induction false} SkipDigitsShift(s: Bytes, i: nat, t: Bytes, k: nat)
    requires At(s, i, t) && Follow(s, i + |t|) && k <= |t|
    ensures SkipDigits(s, i + k) == i + SkipDigits(t, k)
    decreases |t| - k
  {
    if k < |t| {
      assert s[i + k] == s[i..i + |t|][k];
      SkipDigitsShift(s, i, t, k + 1);
    }
  }

  lemma SkipSignShift(s: Bytes, i: nat, t: Bytes, k: nat)
    requires At(s, i, t) && Follow(s, i + |t|) && k <= |t|
    ensures SkipSign(s, i + k) == i + SkipSign(t, k)
  {
    if k < |t| { assert s[i + k] == s[i..i + |t|][k]; }
  }

  lemma FractionShift(s: Bytes, i: nat, t: Bytes, k: nat)
    requires At(s, i, t) && Follow(s, i + |t|) && k <= |t|
    ensures FractionEnd(s, i + k) == i + FractionEnd(t, k)
  {
    if k < |t| {
      assert s[i + k] == s[i..i + |t|][k];
      SkipDigitsShift(s, i, t, k + 1);
    }
  }

  lemma ExponentShift(s: Bytes, i: nat, t: Bytes, k: nat)
    requires At(s, i, t) && Follow(s, i + |t|) && k <= |t|
    ensures ExponentEnd(s, i + k) == i + ExponentEnd(t, k)
  {
    if k < |t| {
      assert s[i + k] == s[i..i + |t|][k];
      SkipSignShift(s, i, t, k + 1);
      SkipDigitsShift(s, i, t, SkipSign(t, k + 1));
    }
  }

  lemma ScanShift(s: Bytes, i: nat, t: Bytes)
    requires At(s, i, t) && Follow(s, i + |t|)
    ensures ScanNumber(s, i) == (i + ScanNumber(t, 0).0, ScanNumber(t, 0).1)
  {
    hide SkipSign;
    hide SkipDigits;
    hide FractionEnd;
    hide ExponentEnd;
    hide At;
    hide Follow;
    var sign := SkipSign(t, 0);
    var whole := SkipDigits(t, sign);
    SkipSignShift(s, i, t, 0);
    SkipDigitsShift(s, i, t, sign);
    FractionShift(s, i, t, whole);
    ExponentShift(s, i, t, FractionEnd(t, whole));
  }

  lemma {:induction false} SkipDigitsAreDigits(s: Bytes, i: nat)
    requires i <= |s|
    ensures forall k | i <= k < SkipDigits(s, i) :: IsDigit(s[k])
    decreases |s| - i
  {
    if i < |s| && IsDigit(s[i]) { SkipDigitsAreDigits(s, i + 1); }
  }

  /** A number token is made of number bytes and starts with a sign, a digit or a point. */
  lemma TokenBytes(t: Bytes)
    requires IsNumberToken(t)
    ensures t != [] && (IsSign(t[0]) || IsDigit(t[0]) || t[0] == '.')
    ensures forall k | 0 <= k < |t| :: IsNumberChar(t[k])
  {
    var sign := SkipSign(t, 0);
    var whole := SkipDigits(t, sign);
    var frac := FractionEnd(t, whole);
    SkipDigitsAreDigits(t, sign);
    if frac > whole { SkipDigitsAreDigits(t, whole + 1); }
    if frac < |t| {
      var sign2 := SkipSign(t, frac + 1);
      SkipDigitsAreDigits(t, sign2);
    }
  }

  lemma NumberComplete(F: Floats, s: Bytes, i: nat, t: Bytes)
    requires IsNumberToken(t) && At(s, i, t) && Follow(s, i + |t|)
    ensures NumberAt(F, s, i) == Ok(Num(F.read(t)), i + |t|)
  {
    ScanShift(s, i, t);
  }

  // --- strings --------------------------------------------------------------------

  lemma BodyEnds(s: Bytes, i: nat)
    requires i < |s| && s[i] == '"'
    ensures StringBody(s, i) == Ok([], i + 1)
  {
  }

  lemma BodyPlain(s: Bytes, i: nat)
    requires i < |s| && s[i] != '"' && s[i] != '\\'
    ensures StringBody(s, i) == Prepend([s[i]], StringBody(s, i + 1))
  {
  }

  lemma BodyShort(s: Bytes, i: nat)
    requires i + 1 < |s| && s[i] == '\\' && Unescape(s[i + 1]).Some?
    ensures StringBody(s, i) == Prepend([Unescape(s[i + 1]).value], StringBody(s, i + 2))
  {
  }

  lemma BodyUnicode(s: Bytes, i: nat, cp: CodePoint, e: nat)
    requires i + 1 < |s| && s[i] == '\\' && s[i + 1] == 'u'
    requires UnicodeEscape(s, i + 2) == Ok(cp, e)
    ensures StringBody(s, i) == Prepend(Utf8(cp), StringBody(s, e))
  {
  }

  /** The text from the first item on, cut after that item. */
  lemma ItemsCut(s: Bytes, i: nat, items: seq<Item>)
    requires items != [] && At(s, i, ItemsText(items) + "\"")
    ensures At(s, i, ItemText(items[0]))
    ensures At(s, i + |ItemText(items[0])|, ItemsText(items[1..]) + "\"")
  {
    hide At;
    hide ItemText;
    assert ItemsText(items) + "\"" == ItemText(items[0]) + (ItemsText(items[1..]) + "\"");
    hide ItemsText;
    AtSplit(s, i, ItemText(items[0]), ItemsText(items[1..]) + "\"");
  }

  lemma {:induction false} StringComplete(s: Bytes, i: nat, items: seq<Item>)
    requires ValidItems(items) && At(s, i, ItemsText(items) + "\"")
    ensures StringBody(s, i) == Ok(StringBytes(items), i + |ItemsText(items)| + 1)
    decreases |items|
  {
    hide StringBody;
    hide UnicodeEscape;
    hide HexValue;
    hide At;
    hide Utf8;
    hide Combine;
    hide Unescape;
    if items == [] {
      assert ItemsText(items) + "\"" == "\"";
      AtByte(s, i, "\"", 0);
      BodyEnds(s, i);
    } else {
      var it, rest := items[0], items[1..];
      ItemsCut(s, i, items);
      match it
      case Plain(c) =>
        AtByte(s, i, [c], 0);
        BodyPlain(s, i);
        StringComplete(s, i + 1, rest);
      case Short(e) =>
        AtByte(s, i, ['\\', e], 0);
        AtByte(s, i, ['\\', e], 1);
        BodyShort(s, i);
        StringComplete(s, i + 2, rest);
      case Uni(hex) =>
        if IsPair(items) { PairComplete(s, i, items); } else { LoneComplete(s, i, items); }
    }
  }

  /** Whether two escapes make one code point. */
  predicate IsPair(items: seq<Item>) {
    |items| >= 2 && IsHigh(UnitOf(items[0])) && IsLow(UnitOf(items[1]))
  }

  lemma PairBytes(items: seq<Item>)
    requires ValidItems(items) && IsPair(items)
    ensures StringBytes(items) == Utf8(Combine(UnitOf(items[0]), UnitOf(items[1]))) + StringBytes(items[2..])
    ensures |ItemsText(items)| == 12 + |ItemsText(items[2..])|
  {
    hide Utf8;
    assert items[1..][1..] == items[2..];
    assert ItemsText(items[1..]) == ItemText(items[1]) + ItemsText(items[2..]);
  }

  lemma LoneBytes(items: seq<Item>)
    requires ValidItems(items) && items != [] && items[0].Uni? && !IsPair(items)
    ensures StringBytes(items) == Utf8(UnitOf(items[0])) + StringBytes(items[1..])
    ensures |ItemsText(items)| == 6 + |ItemsText(items[1..])|
  {
    hide Utf8;
  }

  lemma PairComplete(s: Bytes, i: nat, items: seq<Item>)
    requires ValidItems(items) && items != [] && items[0].Uni? && IsPair(items)
    requires At(s, i, ItemsText(items) + "\"")
    ensures StringBody(s, i) == Ok(StringBytes(items), i + |ItemsText(items)| + 1)
    decreases |items|, 0
  {
    hide StringBody;
    hide HexValue;
    hide Utf8;
    hide Combine;
    hide StringBytes;
    hide ItemsText;
    hide At;
    EscapeComplete(s, i, items);
    ItemsCut(s, i, items);
    ItemsCut(s, i + 6, items[1..]);
    assert items[1..][1..] == items[2..];
    BodyUnicode(s, i, Combine(UnitOf(items[0]), UnitOf(items[1])), i + 12);
    StringComplete(s, i + 12, items[2..]);
    PairBytes(items);
  }

  lemma LoneComplete(s: Bytes, i: nat, items: seq<Item>)
    requires ValidItems(items) && items != [] && items[0].Uni? && !IsPair(items)
    requires At(s, i, ItemsText(items) + "\"")
    ensures StringBody(s, i) == Ok(StringBytes(items), i + |ItemsText(items)| + 1)
    decreases |items|, 0
  {
    hide StringBody;
    hide HexValue;
    hide Utf8;
    hide StringBytes;
    hide ItemsText;
    hide At;
    EscapeComplete(s, i, items);
    ItemsCut(s, i, items);
    BodyUnicode(s, i, UnitOf(items[0]), i + 6);
    StringComplete(s, i + 6, items[1..]);
    LoneBytes(items);
  }

  lemma EscapeIs(s: Bytes, i: nat, hi: nat)
    requires i + 4 <= |s| && HexValue(s, i, 4) == Some(hi)
    ensures UnicodeEscape(s, i) ==
      if IsHigh(hi) && PairFollows(s, i + 4)
      then Ok(Combine(hi, HexValue(s, i + 6, 4).value), i + 10) else Ok(hi, i + 4)
  {
  }

  /** A `\u` escape reads as its unit, or as a pair exactly when an escaped low half follows. */
  lemma EscapeComplete(s: Bytes, i: nat, items: seq<Item>)
    requires ValidItems(items) && items != [] && items[0].Uni?
    requires At(s, i, ItemsText(items) + "\"")
    ensures s[i] == '\\' && s[i + 1] == 'u'
    ensures UnicodeEscape(s, i + 2) ==
      if |items| >= 2 && IsHigh(UnitOf(items[0])) && IsLow(UnitOf(items[1]))
      then Ok(Combine(UnitOf(items[0]), UnitOf(items[1])), i + 12)
      else Ok(UnitOf(items[0]), i + 6)
  {
    hide UnicodeEscape;
    hide HexValue;
    hide PairFollows;
    hide ItemsText;
    hide At;
    ItemsCut(s, i, items);
    UniHex(s, i, items[0]);
    EscapeIs(s, i + 2, UnitOf(items[0]));
    PairFollowsExactly(s, i + 6, items[1..]);
  }

  lemma UniHex(s: Bytes, i: nat, it: Item)
    requires it.Uni? && ValidItem(it) && At(s, i, ItemText(it))
    ensures i + 6 <= |s| && s[i] == '\\' && s[i + 1] == 'u'
    ensures HexValue(s, i + 2, 4) == Some(UnitOf(it))
  {
    AtByte(s, i, ItemText(it), 0);
    AtByte(s, i, ItemText(it), 1);
    AtSplit(s, i, "\\u", it.hex);
    HexShift(s, i + 2, it.hex, 4);
  }

  lemma PairFollowsExactly(s: Bytes, j: nat, items: seq<Item>)
    requires ValidItems(items) && At(s, j, ItemsText(items) + "\"")
    ensures PairFollows(s, j) <==> items != [] && IsLow(UnitOf(items[0]))
    ensures PairFollows(s, j) ==> HexValue(s, j + 2, 4).value == UnitOf(items[0])
  {
    if items == [] {
      AtByte(s, j, "\"", 0);
    } else {
      ItemsCut(s, j, items);
      match items[0]
      case Plain(c) => AtByte(s, j, [c], 0);
      case Short(e) => AtByte(s, j, ['\\', e], 1);
      case Uni(_) => UniHex(s, j, items[0]);
    }
  }

  lemma LiteralComplete(s: Bytes, i: nat, items: seq<Item>)
    requires ValidItems(items) && At(s, i, Literal(items))
    ensures StringAt(s, i) == Ok(StringBytes(items), i + |Literal(items)|)
  {
    AtSplit(s, i, "\"", ItemsText(items) + "\"");
    AtByte(s, i, "\"", 0);
    StringComplete(s, i + 1, items);
  }

  // --- values -----------------------------------------------------------------------

  /** Which byte each kind of tree starts with. */
  lemma TreeStart(s: Bytes, i: nat, t: Tree)
    requires ValidTree(t) && TreeAt(s, i, t)
    ensures i < |s| && !IsSpace(s[i]) && s[i] != ']' && s[i] != '}'
    ensures t.TNull? <==> s[i] == 'n'
    ensures t.TTrue? <==> s[i] == 't'
    ensures t.TFalse? <==> s[i] == 'f'
    ensures t.TStr? <==> s[i] == '"'
    ensures t.TArr? <==> s[i] == '['
    ensures t.TObj? <==> s[i] == '{'
  {
    match t
    case TNull => AtByte(s, i, "null", 0);
    case TTrue => AtByte(s, i, "true", 0);
    case TFalse => AtByte(s, i, "false", 0);
    case TNum(token) => TokenBytes(token); AtByte(s, i, token, 0);
    case TStr(items) => AtByte(s, i, Literal(items), 0);
    case _ =>
  }

  /** The space after a value ends at the byte that follows it, and no number runs into it. */
  lemma AfterValue(s: Bytes, e: nat, post: Bytes)
    requires AllSpace(post) && At(s, e, post)
    requires e + |post| < |s| && s[e + |post|] in ",]}"
    ensures Follow(s, e) && SkipSpace(s, e) == e + |post|
  {
    if post != "" { AtByte(s, e, post, 0); }
    SkipSpaceOver(s, e, post);
  }

  /** Which reader a value's first byte calls. */
  lemma ValueDispatch(F: Floats, s: Bytes, i: nat, room: nat)
    requires i < |s| && !IsSpace(s[i]) && room > 0
    ensures SkipSpace(s, i) == i
    ensures s[i] == '{' ==> ValueAt(F, s, i, room) == ObjectAt(F, s, i + 1, room - 1)
    ensures s[i] == '[' ==> ValueAt(F, s, i, room) == ArrayAt(F, s, i + 1, room - 1)
    ensures s[i] == '"' && StringAt(s, i).Ok? ==>
      ValueAt(F, s, i, room) == Ok(Str(StringAt(s, i).value), StringAt(s, i).end)
    ensures At(s, i, "true") ==> ValueAt(F, s, i, room) == Ok(Bool(true), i + 4)
    ensures At(s, i, "false") ==> ValueAt(F, s, i, room) == Ok(Bool(false), i + 5)
    ensures At(s, i, "null") ==> ValueAt(F, s, i, room) == Ok(Null, i + 4)
    ensures s[i] !in "{[\"tfn" ==> ValueAt(F, s, i, room) == NumberAt(F, s, i)
  {
    hide ObjectAt;
    hide ArrayAt;
    hide StringAt;
    hide NumberAt;
    if At(s, i, "true") { AtByte(s, i, "true", 0); }
    if At(s, i, "false") { AtByte(s, i, "false", 0); }
    if At(s, i, "null") { AtByte(s, i, "null", 0); }
  }

  /** No room, no value, not even a scalar; but something is there to be refused. */
  lemma NoRoom(F: Floats, s: Bytes, i: nat)
    requires i < |s| && !IsSpace(s[i])
    ensures SkipSpace(s, i) == i && ValueAt(F, s, i, 0).Bad?
  {
  }

  lemma {:induction false} ValueComplete(F: Floats, s: Bytes, i: nat, t: Tree, room: nat)
    requires ValidTree(t) && TreeAt(s, i, t) && Follow(s, i + Len(t))
    ensures i < |s| && SkipSpace(s, i) == i
    ensures TreeHeight(t) <= room ==> ValueAt(F, s, i, room) == Ok(Meaning(F, t), i + Len(t))
    ensures TreeHeight(t) > room ==> ValueAt(F, s, i, room).Bad?
    decreases t, 0
  {
    hide ElementsAt;
    hide MembersAt;
    hide ArrayAt;
    hide ObjectAt;
    hide StringAt;
    hide NumberAt;
    hide ElemsSpan;
    hide MembersSpan;
    hide Meanings;
    hide Fields;
    hide StringBytes;
    hide ValidItems;
    hide IsNumberToken;
    hide ElemsLen;
    hide MembersLen;
    hide ElemsHeight;
    hide MembersHeight;
    TreeStart(s, i, t);
    hide ValueAt;
    hide SkipSpace;
    hide At;
    if room == 0 {
      NoRoom(F, s, i);
    } else {
      ValueDispatch(F, s, i, room);
      match t
      case TNull =>
      case TTrue =>
      case TFalse =>
      case TNum(token) => NumberComplete(F, s, i, token);
      case TStr(items) => LiteralComplete(s, i, items);
      case TArr(pad, es) => ArrayComplete(F, s, i, pad, es, room - 1);
      case TObj(pad, ms) => ObjectComplete(F, s, i, pad, ms, room - 1);
    }
  }

  lemma ValueSkips(F: Floats, s: Bytes, i: nat, pre: Bytes, room: nat)
    requires AllSpace(pre) && At(s, i, pre) && i + |pre| < |s| && !IsSpace(s[i + |pre|]) && room > 0
    ensures SkipSpace(s, i) == i + |pre|
    ensures ValueAt(F, s, i, room) == ValueAt(F, s, i + |pre|, room)
  {
    SkipSpaceOver(s, i, pre);
  }

  /** `ValueComplete` after space. */
  lemma {:induction false} SpacedComplete(F: Floats, s: Bytes, i: nat, pre: Bytes, t: Tree, room: nat)
    requires AllSpace(pre) && At(s, i, pre)
    requires ValidTree(t) && TreeAt(s, i + |pre|, t) && Follow(s, i + |pre| + Len(t))
    ensures i <= |s|
    ensures TreeHeight(t) <= room ==> ValueAt(F, s, i, room) == Ok(Meaning(F, t), i + |pre| + Len(t))
    ensures TreeHeight(t) > room ==> ValueAt(F, s, i, room).Bad?
    decreases t, 1
  {
    hide TreeAt;
    hide Len;
    hide TreeHeight;
    hide Meaning;
    hide ValidTree;
    hide SkipSpace;
    hide AllSpace;
    hide At;
    hide ArrayAt;
    hide ObjectAt;
    TreeStart(s, i + |pre|, t);
    ValueComplete(F, s, i + |pre|, t, room);
    if room > 0 { ValueSkips(F, s, i, pre, room); }
  }

  lemma {:induction false} ArrayComplete(F: Floats, s: Bytes, i: nat, pad: Bytes, es: seq<Elem>, room: nat)
    requires ValidTree(TArr(pad, es)) && TreeAt(s, i, TArr(pad, es))
    ensures ElemsHeight(es) <= room ==>
      ArrayAt(F, s, i + 1, room) == Ok(Arr(Meanings(F, es)), i + Len(TArr(pad, es)))
    ensures ElemsHeight(es) > room ==> ArrayAt(F, s, i + 1, room).Bad?
    decreases es, 1
  {
    hide ArrayAt;
    hide ElementsAt;
    hide SkipSpace;
    hide ElemsSpan;
    hide AllSpace;
    if es == [] {
      EmptyArray(F, s, i, pad, room);
    } else {
      hide Meanings;
      hide ElemsLen;
      hide ElemsHeight;
      ElemsStart(s, i + 1, es);
      var k := i + 1 + |es[0].pre|;
      ArrayOf(F, s, i + 1, k, room);
      ElemsComplete(F, s, k, "", es, room, []);
      assert [] + Meanings(F, es) == Meanings(F, es);
    }
  }

  lemma EmptyArray(F: Floats, s: Bytes, i: nat, pad: Bytes, room: nat)
    requires AllSpace(pad) && At(s, i + 1, pad) && ByteAt(s, i + 1 + |pad|, ']')
    ensures ArrayAt(F, s, i + 1, room) == Ok(Arr([]), i + 1 + |pad| + 1)
  {
    hide ElementsAt;
    AfterValue(s, i + 1, pad);
  }

  lemma ElemsStart(s: Bytes, i: nat, es: seq<Elem>)
    requires es != [] && ValidElems(es) && At(s, i, es[0].pre) && ElemsSpan(s, i + |es[0].pre|, es)
    ensures var k := i + |es[0].pre|; i <= k < |s| && SkipSpace(s, i) == k && s[k] != ']' && At(s, k, "")
    ensures AllSpace("")
  {
    hide AllSpace;
    hide SkipSpace;
    TreeStart(s, i + |es[0].pre|, es[0].tree);
    SkipSpaceOver(s, i, es[0].pre);
    NoSpace();
  }

  lemma NoSpace()
    ensures AllSpace("")
  {
  }

  lemma ArrayOf(F: Floats, s: Bytes, i: nat, k: nat, room: nat)
    requires i <= k < |s| && SkipSpace(s, i) == k && s[k] != ']'
    ensures ArrayAt(F, s, i, room) ==
      match ElementsAt(F, s, k, room, []) case Ok(items, e) => Ok(Arr(items), e) case Bad(why, at) => Bad(why, at)
  {
    hide ElementsAt;
    hide SkipSpace;
  }

  lemma ElementStep(F: Floats, s: Bytes, i: nat, room: nat, acc: seq<Value>, v: Value, e: nat)
    requires i <= |s| && ValueAt(F, s, i, room) == Ok(v, e)
    requires SkipSpace(s, e) < |s|
    ensures var j := SkipSpace(s, e);
      ElementsAt(F, s, i, room, acc) ==
        if s[j] == ',' then ElementsAt(F, s, j + 1, room, acc + [v])
        else if s[j] == ']' then Ok(acc + [v], j + 1)
        else Bad("expected ',' or ']'", j)
  {
    hide ValueAt;
    hide SkipSpace;
  }

  lemma ElementFails(F: Floats, s: Bytes, i: nat, room: nat, acc: seq<Value>)
    requires i <= |s| && ValueAt(F, s, i, room).Bad?
    ensures ElementsAt(F, s, i, room, acc).Bad?
  {
    hide ValueAt;
    hide SkipSpace;
  }

  lemma OneElem(F: Floats, es: seq<Elem>)
    requires |es| == 1 && ValidElems(es)
    ensures Meanings(F, es) == [Meaning(F, es[0].tree)] && ElemsHeight(es) == TreeHeight(es[0].tree)
  {
    hide TreeHeight;
    hide Meaning;
    hide ValidTree;
    assert es[1..] == [];
    assert ElemsHeight(es[1..]) == 0 && Meanings(F, es[1..]) == [];
  }

  lemma {:induction false} ElemsComplete(F: Floats, s: Bytes, i: nat, pre: Bytes, es: seq<Elem>, room: nat,
                                         acc: seq<Value>)
    requires es != [] && ValidElems(es) && AllSpace(pre)
    requires At(s, i, pre) && ElemsSpan(s, i + |pre|, es)
    ensures i <= |s|
    ensures ElemsHeight(es) <= room ==>
      ElementsAt(F, s, i, room, acc) == Ok(acc + Meanings(F, es), i + |pre| + ElemsLen(es))
    ensures ElemsHeight(es) > room ==> ElementsAt(F, s, i, room, acc).Bad?
    decreases es, 0
  {
    hide TreeAt;
    hide Len;
    hide TreeHeight;
    hide Meaning;
    hide ValidTree;
    hide ValueAt;
    hide ElementsAt;
    hide At;
    hide AllSpace;
    hide SkipSpace;
    var t := es[0].tree;
    var e := i + |pre| + Len(t);
    AfterValue(s, e, es[0].post);
    SpacedComplete(F, s, i, pre, t, room);
    if TreeHeight(t) <= room {
      var v := Meaning(F, t);
      ElementStep(F, s, i, room, acc, v, e);
      if |es| == 1 {
        OneElem(F, es);
      } else {
        var rest := es[1..];
        ElemsComplete(F, s, e + |es[0].post| + 1, rest[0].pre, rest, room, acc + [v]);
        assert acc + [v] + Meanings(F, rest) == acc + Meanings(F, es);
      }
    } else {
      ElementFails(F, s, i, room, acc);
    }
  }

  lemma LiteralStart(s: Bytes, i: nat, items: seq<Item>)
    requires At(s, i, Literal(items))
    ensures ByteAt(s, i, '"')
  {
    AtByte(s, i, Literal(items), 0);
  }

  lemma {:induction false} ObjectComplete(F: Floats, s: Bytes, i: nat, pad: Bytes, ms: seq<Member>, room: nat)
    requires ValidTree(TObj(pad, ms)) && TreeAt(s, i, TObj(pad, ms))
    ensures MembersHeight(ms) <= room ==>
      ObjectAt(F, s, i + 1, room) == Ok(Obj(Fields(F, ms, [])), i + Len(TObj(pad, ms)))
    ensures MembersHeight(ms) > room ==> ObjectAt(F, s, i + 1, room).Bad?
    decreases ms, 1
  {
    hide ObjectAt;
    hide MembersAt;
    hide SkipSpace;
    hide MembersSpan;
    hide AllSpace;
    if ms == [] {
      EmptyObject(F, s, i, pad, room);
    } else {
      hide Fields;
      hide MembersLen;
      hide MembersHeight;
      MembersStart(s, i + 1, ms);
      var k := i + 1 + |ms[0].pre|;
      ObjectOf(F, s, i + 1, k, room);
      MembersComplete(F, s, k, "", ms, room, []);
    }
  }

  lemma EmptyObject(F: Floats, s: Bytes, i: nat, pad: Bytes, room: nat)
    requires AllSpace(pad) && At(s, i + 1, pad) && ByteAt(s, i + 1 + |pad|, '}')
    ensures ObjectAt(F, s, i + 1, room) == Ok(Obj([]), i + 1 + |pad| + 1)
  {
    hide MembersAt;
    AfterValue(s, i + 1, pad);
  }

  lemma MembersStart(s: Bytes, i: nat, ms: seq<Member>)
    requires ms != [] && ValidMembers(ms) && At(s, i, ms[0].pre) && MembersSpan(s, i + |ms[0].pre|, ms)
    ensures var k := i + |ms[0].pre|; i <= k < |s| && SkipSpace(s, i) == k && s[k] != '}' && At(s, k, "")
    ensures AllSpace("")
  {
    hide AllSpace;
    hide SkipSpace;
    hide Literal;
    hide ValidItems;
    LiteralStart(s, i + |ms[0].pre|, ms[0].key);
    SkipSpaceOver(s, i, ms[0].pre);
    NoSpace();
  }

  lemma ObjectOf(F: Floats, s: Bytes, i: nat, k: nat, room: nat)
    requires i <= k < |s| && SkipSpace(s, i) == k && s[k] != '}'
    ensures ObjectAt(F, s, i, room) ==
      match MembersAt(F, s, k, room, []) case Ok(fields, e) => Ok(Obj(fields), e) case Bad(why, at) => Bad(why, at)
  {
    hide MembersAt;
    hide SkipSpace;
  }

  lemma KeyComplete(s: Bytes, i: nat, pre: Bytes, m: Member)
    requires AllSpace(pre) && At(s, i, pre) && ValidItems(m.key) && AllSpace(m.mid)
    requires KeySpan(s, i + |pre|, m)
    ensures StringAt(s, SkipSpace(s, i)) == Ok(StringBytes(m.key), i + |pre| + |Literal(m.key)|)
    ensures SkipSpace(s, i + |pre| + |Literal(m.key)|) == i + |pre| + KeyLen(m) - 1
    ensures ByteAt(s, i + |pre| + KeyLen(m) - 1, ':')
  {
    hide StringAt;
    hide SkipSpace;
    hide StringBytes;
    hide ValidItems;
    hide AllSpace;
    AtByte(s, i + |pre|, Literal(m.key), 0);
    SkipSpaceOver(s, i, pre);
    LiteralComplete(s, i + |pre|, m.key);
    SkipSpaceOver(s, i + |pre| + |Literal(m.key)|, m.mid);
  }

  lemma {:induction false} MemberComplete(F: Floats, s: Bytes, i: nat, pre: Bytes, m: Member, room: nat)
    requires AllSpace(pre) && At(s, i, pre) && ValidItems(m.key) && AllSpace(m.mid)
    requires AllSpace(m.elem.pre) && ValidTree(m.elem.tree)
    requires var c := i + |pre| + KeyLen(m);
      && KeySpan(s, i + |pre|, m) && At(s, c, m.elem.pre)
      && TreeAt(s, c + |m.elem.pre|, m.elem.tree) && Follow(s, c + |m.elem.pre| + Len(m.elem.tree))
    ensures TreeHeight(m.elem.tree) <= room ==>
      MemberAt(F, s, i, room) == Ok(Field(StringBytes(m.key), Meaning(F, m.elem.tree)),
        i + |pre| + KeyLen(m) + |m.elem.pre| + Len(m.elem.tree))
    ensures TreeHeight(m.elem.tree) > room ==> MemberAt(F, s, i, room).Bad?
    decreases m, 0
  {
    hide TreeAt;
    hide Len;
    hide TreeHeight;
    hide Meaning;
    hide ValidTree;
    hide ValueAt;
    hide At;
    hide AllSpace;
    hide SkipSpace;
    hide Literal;
    hide StringBytes;
    KeyComplete(s, i, pre, m);
    SpacedComplete(F, s, i + |pre| + KeyLen(m), m.elem.pre, m.elem.tree, room);
  }

  lemma MemberStep(F: Floats, s: Bytes, i: nat, room: nat, acc: seq<Field>, f: Field, e: nat)
    requires i <= |s| && MemberAt(F, s, i, room) == Ok(f, e)
    requires SkipSpace(s, e) < |s|
    ensures var j := SkipSpace(s, e);
      MembersAt(F, s, i, room, acc) ==
        if s[j] == ',' then MembersAt(F, s, j + 1, room, SetKey(acc, f.key, f.value))
        else if s[j] == '}' then Ok(SetKey(acc, f.key, f.value), j + 1)
        else Bad("expected ',' or '}'", j)
  {
    hide MemberAt;
    hide SkipSpace;
    hide SetKey;
  }

  lemma MemberFails(F: Floats, s: Bytes, i: nat, room: nat, acc: seq<Field>)
    requires i <= |s| && MemberAt(F, s, i, room).Bad?
    ensures MembersAt(F, s, i, room, acc).Bad?
  {
    hide MemberAt;
    hide SkipSpace;
    hide SetKey;
  }

  lemma OneMember(F: Floats, ms: seq<Member>, acc: seq<Field>)
    requires |ms| == 1 && ValidMembers(ms)
    ensures MembersHeight(ms) == TreeHeight(ms[0].elem.tree)
    ensures Fields(F, ms, acc) == SetKey(acc, StringBytes(ms[0].key), Meaning(F, ms[0].elem.tree))
  {
    hide TreeHeight;
    hide Meaning;
    hide ValidTree;
    hide SetKey;
    hide StringBytes;
    assert ms[1..] == [];
    assert MembersHeight(ms[1..]) == 0;
  }

  lemma {:induction false} MembersComplete(F: Floats, s: Bytes, i: nat, pre: Bytes, ms: seq<Member>, room: nat,
                                           acc: seq<Field>)
    requires ms != [] && ValidMembers(ms) && AllSpace(pre)
    requires At(s, i, pre) && MembersSpan(s, i + |pre|, ms)
    ensures i <= |s|
    ensures MembersHeight(ms) <= room ==>
      MembersAt(F, s, i, room, acc) == Ok(Fields(F, ms, acc), i + |pre| + MembersLen(ms))
    ensures MembersHeight(ms) > room ==> MembersAt(F, s, i, room, acc).Bad?
    decreases ms, 0
  {
    hide TreeAt;
    hide Len;
    hide TreeHeight;
    hide Meaning;
    hide ValidTree;
    hide ValueAt;
    hide MemberAt;
    hide MembersAt;
    hide SetKey;
    hide At;
    hide AllSpace;
    hide SkipSpace;
    hide KeyLen;
    hide KeySpan;
    hide StringBytes;
    var m := ms[0];
    var e := i + |pre| + KeyLen(m) + |m.elem.pre| + Len(m.elem.tree);
    AfterValue(s, e, m.elem.post);
    MemberComplete(F, s, i, pre, m, room);
    if TreeHeight(m.elem.tree) <= room {
      var f := Field(StringBytes(m.key), Meaning(F, m.elem.tree));
      MemberStep(F, s, i, room, acc, f, e);
      if |ms| == 1 {
        OneMember(F, ms, acc);
      } else {
        var rest := ms[1..];
        MembersComplete(F, s, e + |m.elem.post| + 1, rest[0].pre, rest, room, SetKey(acc, f.key, f.value));
      }
    } else {
      MemberFails(F, s, i, room, acc);
    }
  }

  // --- whole texts ---------------------------------------------------------------------

  /** A value with the space around it, as a text. */
  function DocText(doc: Elem): Bytes { doc.pre + (Text(doc.tree) + doc.post) }

  predicate ValidDoc(doc: Elem) {
    AllSpace(doc.pre) && AllSpace(doc.post) && ValidTree(doc.tree)
  }

  lemma DocParts(doc: Elem)
    ensures var s, e := DocText(doc), |doc.pre| + |Text(doc.tree)|;
      At(s, 0, doc.pre) && At(s, |doc.pre|, Text(doc.tree)) && At(s, e, doc.post) && e + |doc.post| == |s|
  {
    hide Text;
    var s := DocText(doc);
    assert At(s, 0, s);
    hide At;
    AtThree(s, 0, doc.pre, Text(doc.tree), doc.post);
  }

  /** Where the parts of a document stand in its text. */
  lemma DocAt(doc: Elem)
    requires ValidDoc(doc)
    ensures var s := DocText(doc);
      var e := |doc.pre| + Len(doc.tree);
      && At(s, 0, doc.pre) && SkipSpace(s, 0) == |doc.pre| && TreeAt(s, |doc.pre|, doc.tree)
      && Follow(s, e) && At(s, e, doc.post) && e + |doc.post| == |s| && SkipSpace(s, e) == |s|
  {
    hide TreeAt;
    hide ValidTree;
    hide Text;
    hide Len;
    hide SkipSpace;
    hide At;
    hide DocText;
    var s := DocText(doc);
    DocParts(doc);
    TreeAtText(s, |doc.pre|, doc.tree);
    TreeStart(s, |doc.pre|, doc.tree);
    SkipSpaceOver(s, 0, doc.pre);
    SkipSpaceOver(s, |doc.pre| + |Text(doc.tree)|, doc.post);
    if doc.post != "" { AtByte(s, |doc.pre| + |Text(doc.tree)|, doc.post, 0); }
  }

  /** Every text of the grammar is read as its meaning when it is nested at most `room` deep,
      and refused otherwise. */
  lemma TextComplete(F: Floats, doc: Elem, room: nat)
    requires ValidDoc(doc)
    ensures TreeHeight(doc.tree) <= room ==>
      Parse(F, DocText(doc), room) == Ok(Meaning(F, doc.tree), |DocText(doc)|)
    ensures TreeHeight(doc.tree) > room ==> Parse(F, DocText(doc), room).Bad?
  {
    hide ValueAt;
    hide TreeAt;
    hide Meaning;
    hide TreeHeight;
    hide ValidTree;
    hide Text;
    hide Len;
    hide At;
    hide SkipSpace;
    hide DocText;
    DocAt(doc);
    SpacedComplete(F, DocText(doc), 0, doc.pre, doc.tree, room);
  }
}
