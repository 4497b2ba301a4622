/** Which texts of the parser's grammar are sequences of Unicode characters: a matter of the strings alone. */
module JsonCharacters {
  import opened Strings
  import opened Unicode
  import opened Utf8Text
  import opened Json
  import opened JsonGrammar
  import opened JsonComplete

  /** The length of the run of plain bytes at the start. */
  function RunLength(items: seq<Item>): (n: nat)
    ensures n <= |items| && forall k | 0 <= k < n :: items[k].Plain?
    ensures n < |items| ==> !items[n].Plain?
  {
    if items == [] || !items[0].Plain? then 0 else 1 + RunLength(items[1..])
  }

  /** Each longest run of plain bytes is well-formed UTF-8. */
  predicate RunsWellFormed(items: seq<Item>)
    decreases |items|
  {
    items == [] ||
    if items[0].Plain? then
      var n := RunLength(items);
      WellFormedUtf8(ItemsText(items[..n])) && RunsWellFormed(items[n..])
    else RunsWellFormed(items[1..])
  }

  /** In every string and every key. */
  predicate UnicodeLeaves(t: Tree)
    decreases t, 0
  {
    match t
    case TStr(items) => RunsWellFormed(items)
    case TArr(_, es) => forall k | 0 <= k < |es| :: UnicodeLeaves(es[k].tree)
    case TObj(_, ms) => forall k | 0 <= k < |ms| :: RunsWellFormed(ms[k].key) && UnicodeLeaves(ms[k].elem.tree)
    case _ => true
  }

  // --- strings ------------------------------------------------------------------------------

  lemma EscapeAscii(it: Item)
    requires ValidItem(it) && !it.Plain?
    ensures forall k | 0 <= k < |ItemText(it)| :: IsAscii(ItemText(it)[k])
  {
    if it.Uni? { HexAscii(it.hex, 4); }
  }

  lemma {:induction false} HexAscii(s: Bytes, n: nat)
    requires n <= |s| && HexValue(s, 0, n).Some?
    ensures forall k | 0 <= k < n :: IsAscii(s[k])
  {
    if n > 0 { HexAscii(s, n - 1); }
  }

  /** What follows a run of plain bytes in a literal starts with a quote or a backslash. */
  lemma AfterRun(items: seq<Item>, rest: Bytes)
    requires items == [] || !items[0].Plain?
    ensures var y := ItemsText(items) + ("\"" + rest); y != [] && IsAscii(y[0])
  {
  }

  lemma {:induction false} ItemsTextJoin(a: seq<Item>, b: seq<Item>)
    ensures ItemsText(a + b) == ItemsText(a) + ItemsText(b)
  {
    hide ItemText;
    if a == [] {
      assert a + b == b;
    } else {
      assert (a + b)[1..] == a[1..] + b;
      ItemsTextJoin(a[1..], b);
    }
  }

  lemma {:induction false} ItemsLocal(items: seq<Item>, rest: Bytes)
    requires ValidItems(items)
    ensures WellFormedUtf8(ItemsText(items) + ("\"" + rest)) <==> RunsWellFormed(items) && WellFormedUtf8(rest)
    decreases |items|
  {
    hide WellFormedUtf8;
    hide IsAscii;
    hide ValidItem;
    hide ItemText;
    if items == [] {
      assert [] + ("\"" + rest) == "\"" + rest;
      QuoteAscii(rest);
    } else if items[0].Plain? {
      var n := RunLength(items);
      var y := ItemsText(items[n..]) + ("\"" + rest);
      assert items == items[..n] + items[n..];
      ItemsTextJoin(items[..n], items[n..]);
      assert ItemsText(items) + ("\"" + rest) == ItemsText(items[..n]) + y;
      AfterRun(items[n..], rest);
      CutsBetween(ItemsText(items[..n]), y);
      ItemsLocal(items[n..], rest);
    } else {
      EscapeAscii(items[0]);
      ItemsLocal(items[1..], rest);
      AsciiPrefix(ItemText(items[0]), ItemsText(items[1..]) + ("\"" + rest));
      assert ItemsText(items) + ("\"" + rest) == ItemText(items[0]) + (ItemsText(items[1..]) + ("\"" + rest));
    }
  }

  lemma QuoteAscii(rest: Bytes)
    ensures WellFormedUtf8("\"" + rest) <==> WellFormedUtf8(rest)
  {
    hide WellFormedUtf8;
    AsciiStart('"', rest);
  }

  lemma LiteralLocal(items: seq<Item>, rest: Bytes)
    requires ValidItems(items)
    ensures WellFormedUtf8(Literal(items) + rest) <==> RunsWellFormed(items) && WellFormedUtf8(rest)
  {
    hide WellFormedUtf8;
    hide ItemsText;
    hide RunsWellFormed;
    var body := ItemsText(items);
    assert "\"" + (body + "\"") + rest == "\"" + (body + ("\"" + rest));
    QuoteAscii(body + ("\"" + rest));
    ItemsLocal(items, rest);
  }

  // --- trees ----------------------------------------------------------------------------------

  lemma SpaceLocal(pad: Bytes, rest: Bytes)
    requires AllSpace(pad)
    ensures WellFormedUtf8(pad + rest) <==> WellFormedUtf8(rest)
  {
    hide WellFormedUtf8;
    AsciiPrefix(pad, rest);
  }

  lemma TokenLocal(token: Bytes, rest: Bytes)
    requires IsNumberToken(token)
    ensures WellFormedUtf8(token + rest) <==> WellFormedUtf8(rest)
  {
    hide WellFormedUtf8;
    hide IsNumberToken;
    TokenBytes(token);
    AsciiPrefix(token, rest);
  }

  lemma {:induction false} TreeLocal(t: Tree, rest: Bytes)
    requires ValidTree(t)
    ensures WellFormedUtf8(Text(t) + rest) <==> UnicodeLeaves(t) && WellFormedUtf8(rest)
    decreases t, 1
  {
    hide WellFormedUtf8;
    hide IsNumberToken;
    hide ValidItems;
    hide RunsWellFormed;
    hide Literal;
    hide ElemsText;
    hide MembersText;
    match t
    case TNull => AsciiPrefix("null", rest);
    case TTrue => AsciiPrefix("true", rest);
    case TFalse => AsciiPrefix("false", rest);
    case TNum(token) => TokenLocal(token, rest);
    case TStr(items) => LiteralLocal(items, rest);
    case TArr(pad, es) =>
      if es == [] {
        BracketsLocal("[", pad, "]", rest);
      } else {
        ElemsLocal(es, rest);
        assert "[" + ElemsText(es) + rest == "[" + (ElemsText(es) + rest);
        AsciiPrefix("[", ElemsText(es) + rest);
      }
    case TObj(pad, ms) =>
      if ms == [] {
        BracketsLocal("{", pad, "}", rest);
      } else {
        MembersLocal(ms, rest);
        assert "{" + MembersText(ms) + rest == "{" + (MembersText(ms) + rest);
        AsciiPrefix("{", MembersText(ms) + rest);
      }
  }

  lemma BracketsLocal(left: Bytes, pad: Bytes, right: Bytes, rest: Bytes)
    requires |left| == |right| == 1 && IsAscii(left[0]) && IsAscii(right[0]) && AllSpace(pad)
    ensures WellFormedUtf8(left + (pad + right) + rest) <==> WellFormedUtf8(rest)
  {
    hide WellFormedUtf8;
    hide AllSpace;
    assert left + (pad + right) + rest == left + (pad + (right + rest));
    AsciiPrefix(right, rest);
    SpaceLocal(pad, right + rest);
    AsciiPrefix(left, pad + (right + rest));
  }

  lemma Regroup4(a: Bytes, b: Bytes, c: Bytes, d: Bytes, rest: Bytes)
    ensures a + (b + (c + d)) + rest == a + (b + (c + (d + rest)))
  {
  }

  /** A tree between spaces. */
  lemma {:induction false} PaddedLocal(e: Elem, tail: Bytes)
    requires AllSpace(e.pre) && AllSpace(e.post) && ValidTree(e.tree)
    ensures WellFormedUtf8(e.pre + (Text(e.tree) + (e.post + tail))) <==>
      UnicodeLeaves(e.tree) && WellFormedUtf8(tail)
    decreases e, 2
  {
    hide WellFormedUtf8;
    hide AllSpace;
    hide ValidTree;
    hide UnicodeLeaves;
    hide Text;
    SpaceLocal(e.pre, Text(e.tree) + (e.post + tail));
    TreeLocal(e.tree, e.post + tail);
    SpaceLocal(e.post, tail);
  }

  lemma {:induction false} ElemsLocal(es: seq<Elem>, rest: Bytes)
    requires es != [] && ValidElems(es)
    ensures WellFormedUtf8(ElemsText(es) + rest) <==>
      (forall k | 0 <= k < |es| :: UnicodeLeaves(es[k].tree)) && WellFormedUtf8(rest)
    decreases es, 0
  {
    hide WellFormedUtf8;
    hide AllSpace;
    hide ValidTree;
    hide UnicodeLeaves;
    hide Text;
    var e := es[0];
    if |es| == 1 {
      Regroup4(e.pre, Text(e.tree), e.post, "]", rest);
      PaddedLocal(e, "]" + rest);
      AsciiPrefix("]", rest);
    } else {
      var more := ElemsText(es[1..]);
      Regroup4(e.pre, Text(e.tree), e.post, "," + more, rest);
      PaddedLocal(e, "," + more + rest);
      assert "," + more + rest == "," + (more + rest);
      AsciiPrefix(",", more + rest);
      ElemsLocal(es[1..], rest);
      assert forall k | 0 < k < |es| :: es[k] == es[1..][k - 1];
    }
  }

  lemma KeyLocal(m: Member, tail: Bytes)
    requires AllSpace(m.pre) && ValidItems(m.key) && AllSpace(m.mid)
    ensures WellFormedUtf8(KeyText(m) + tail) <==> RunsWellFormed(m.key) && WellFormedUtf8(tail)
  {
    hide WellFormedUtf8;
    hide AllSpace;
    hide ValidItems;
    hide RunsWellFormed;
    hide Literal;
    Regroup4(m.pre, Literal(m.key), m.mid, ":", tail);
    SpaceLocal(m.pre, Literal(m.key) + (m.mid + (":" + tail)));
    LiteralLocal(m.key, m.mid + (":" + tail));
    SpaceLocal(m.mid, ":" + tail);
    AsciiPrefix(":", tail);
  }

  lemma {:induction false} MembersLocal(ms: seq<Member>, rest: Bytes)
    requires ms != [] && ValidMembers(ms)
    ensures WellFormedUtf8(MembersText(ms) + rest) <==>
      (forall k | 0 <= k < |ms| :: RunsWellFormed(ms[k].key) && UnicodeLeaves(ms[k].elem.tree))
      && WellFormedUtf8(rest)
    decreases ms, 0
  {
    hide WellFormedUtf8;
    hide AllSpace;
    hide ValidItems;
    hide ValidTree;
    hide UnicodeLeaves;
    hide RunsWellFormed;
    hide Text;
    hide KeyText;
    var m, e := ms[0], ms[0].elem;
    if |ms| == 1 {
      Regroup5(KeyText(m), e.pre, Text(e.tree), e.post, "}", rest);
      KeyLocal(m, e.pre + (Text(e.tree) + (e.post + ("}" + rest))));
      PaddedLocal(e, "}" + rest);
      AsciiPrefix("}", rest);
    } else {
      var more := MembersText(ms[1..]);
      Regroup5(KeyText(m), e.pre, Text(e.tree), e.post, "," + more, rest);
      KeyLocal(m, e.pre + (Text(e.tree) + (e.post + ("," + more + rest))));
      PaddedLocal(e, "," + more + rest);
      assert "," + more + rest == "," + (more + rest);
      AsciiPrefix(",", more + rest);
      MembersLocal(ms[1..], rest);
      assert forall k | 0 < k < |ms| :: ms[k] == ms[1..][k - 1];
    }
  }

  lemma Regroup5(k: Bytes, a: Bytes, b: Bytes, c: Bytes, d: Bytes, rest: Bytes)
    ensures k + (a + (b + (c + d))) + rest == k + (a + (b + (c + (d + rest))))
  {
  }

  /** A text of the parser's grammar is a sequence of Unicode characters exactly when the plain bytes of its
      strings are, run by run. */
  lemma DocCharacters(doc: Elem)
    requires ValidDoc(doc)
    ensures IsText(DocText(doc)) <==> UnicodeLeaves(doc.tree)
  {
    hide WellFormedUtf8;
    hide AllSpace;
    hide ValidTree;
    hide UnicodeLeaves;
    hide Text;
    hide IsText;
    WellFormedIs(DocText(doc));
    PaddedLocal(doc, "");
    assert doc.post + "" == doc.post;
    NothingWellFormed();
  }

  lemma NothingWellFormed()
    ensures WellFormedUtf8("")
  {
  }
}
