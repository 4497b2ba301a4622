/** The grammar is unambiguous: a text has one syntax tree. */
module JsonUnique {
  import opened Strings
  import opened Unicode
  import opened Json
  import opened JsonParser
  import opened JsonGrammar
  import opened JsonComplete

  lemma AtSame(s: Bytes, i: nat, a: Bytes, b: Bytes)
    requires At(s, i, a) && At(s, i, b) && |a| == |b|
    ensures a == b
  {
  }

  lemma TokensSame(s: Bytes, i: nat, t: Bytes, u: Bytes)
    requires IsNumberToken(t) && At(s, i, t) && Follow(s, i + |t|)
    requires IsNumberToken(u) && At(s, i, u) && Follow(s, i + |u|)
    ensures t == u
  {
    hide ScanNumber;
    ScanShift(s, i, t);
    ScanShift(s, i, u);
    AtSame(s, i, t, u);
  }

  // --- literals -------------------------------------------------------------------------

  lemma ItemStart(s: Bytes, i: nat, it: Item)
    requires ValidItem(it) && At(s, i, ItemText(it))
    ensures i < |s| && s[i] != '"' && (it.Plain? <==> s[i] != '\\')
    ensures it.Plain? ==> it.c == s[i]
    ensures !it.Plain? ==> i + 1 < |s| && (it.Uni? <==> s[i + 1] == 'u') && (it.Short? ==> it.e == s[i + 1])
  {
    hide At;
    hide HexValue;
    AtByte(s, i, ItemText(it), 0);
    if !it.Plain? { AtByte(s, i, ItemText(it), 1); }
  }

  lemma ItemSame(s: Bytes, i: nat, a: Item, b: Item)
    requires ValidItem(a) && ValidItem(b) && At(s, i, ItemText(a)) && At(s, i, ItemText(b))
    ensures a == b
  {
    hide HexValue;
    ItemStart(s, i, a);
    ItemStart(s, i, b);
    if a.Uni? {
      AtSame(s, i, ItemText(a), ItemText(b));
      assert ItemText(a)[2..] == a.hex && ItemText(b)[2..] == b.hex;
    }
  }

  lemma {:induction false} ItemsSame(s: Bytes, i: nat, a: seq<Item>, b: seq<Item>)
    requires ValidItems(a) && ValidItems(b)
    requires At(s, i, ItemsText(a) + "\"") && At(s, i, ItemsText(b) + "\"")
    ensures a == b
    decreases |a|
  {
    hide At;
    hide ItemText;
    ItemsEnd(s, i, a);
    ItemsEnd(s, i, b);
    if a != [] {
      ItemsCut(s, i, a);
      ItemsCut(s, i, b);
      ItemSame(s, i, a[0], b[0]);
      ItemsSame(s, i + |ItemText(a[0])|, a[1..], b[1..]);
      assert a == [a[0]] + a[1..] && b == [b[0]] + b[1..];
    }
  }

  lemma ItemsEnd(s: Bytes, i: nat, items: seq<Item>)
    requires ValidItems(items) && At(s, i, ItemsText(items) + "\"")
    ensures items == [] <==> ByteAt(s, i, '"')
  {
    hide At;
    hide ValidItem;
    if items == [] {
      AtByte(s, i, ItemsText(items) + "\"", 0);
    } else {
      ItemsCut(s, i, items);
      ItemStart(s, i, items[0]);
    }
  }

  lemma LiteralsSame(s: Bytes, i: nat, a: seq<Item>, b: seq<Item>)
    requires ValidItems(a) && ValidItems(b) && At(s, i, Literal(a)) && At(s, i, Literal(b))
    ensures a == b
  {
    hide At;
    hide ItemsText;
    AtSplit(s, i, "\"", ItemsText(a) + "\"");
    AtSplit(s, i, "\"", ItemsText(b) + "\"");
    ItemsSame(s, i + 1, a, b);
  }

  // --- trees ------------------------------------------------------------------------------

  /** Two legal trees written at one place, neither running into what follows, are one tree. */
  lemma {:induction false} TreesSame(s: Bytes, i: nat, t: Tree, u: Tree)
    requires ValidTree(t) && TreeAt(s, i, t) && Follow(s, i + Len(t))
    requires ValidTree(u) && TreeAt(s, i, u) && Follow(s, i + Len(u))
    ensures t == u
    decreases t, 2
  {
    hide IsNumberToken;
    hide ValidItems;
    hide Literal;
    hide At;
    hide AllSpace;
    hide ElemsSpan;
    hide MembersSpan;
    TreeStart(s, i, t);
    TreeStart(s, i, u);
    match t
    case TNum(token) => TokensSame(s, i, token, u.token);
    case TStr(items) => LiteralsSame(s, i, items, u.str);
    case TArr(_, es) => ArraysSame(s, i, t, u);
    case TObj(_, ms) => ObjectsSame(s, i, t, u);
    case _ =>
  }

  /** An array is empty exactly when its bracket closes after space. */
  lemma ArrayEmpty(s: Bytes, i: nat, t: Tree)
    requires t.TArr? && ValidTree(t) && TreeAt(s, i, t)
    ensures t.elems == [] <==> ByteAt(s, SkipSpace(s, i + 1), ']')
    ensures t.elems == [] ==> SkipSpace(s, i + 1) == i + 1 + |t.arrPad|
    ensures t.elems != [] ==> SkipSpace(s, i + 1) == i + 1 + |t.elems[0].pre|
  {
    hide SkipSpace;
    hide AllSpace;
    hide ElemsSpan;
    hide ValidElems;
    if t.elems == [] { AfterValue(s, i + 1, t.arrPad); } else { ElemsStart(s, i + 1, t.elems); }
  }

  lemma {:induction false} ArraysSame(s: Bytes, i: nat, t: Tree, u: Tree)
    requires t.TArr? && ValidTree(t) && TreeAt(s, i, t)
    requires u.TArr? && ValidTree(u) && TreeAt(s, i, u)
    ensures t == u
    decreases t, 1
  {
    hide SkipSpace;
    hide AllSpace;
    hide ElemsSpan;
    hide ValidElems;
    ArrayEmpty(s, i, t);
    ArrayEmpty(s, i, u);
    if t.elems == [] {
      AtSame(s, i + 1, t.arrPad, u.arrPad);
    } else {
      AtSame(s, i + 1, t.elems[0].pre, u.elems[0].pre);
      ElemsSame(s, i + 1 + |t.elems[0].pre|, t.elems, u.elems);
    }
  }

  /** What the first of the elements written at `i` has after it. */
  lemma ElemEnd(s: Bytes, i: nat, es: seq<Elem>)
    requires es != [] && ValidElems(es) && ElemsSpan(s, i, es)
    ensures ValidTree(es[0].tree) && TreeAt(s, i, es[0].tree) && AllSpace(es[0].post)
    ensures var e := i + Len(es[0].tree);
      && Follow(s, e) && SkipSpace(s, e) == e + |es[0].post| && At(s, e, es[0].post)
      && e + |es[0].post| < |s| && (|es| == 1 <==> s[e + |es[0].post|] == ']')
  {
    hide SkipSpace;
    hide AllSpace;
    hide At;
    hide TreeAt;
    hide ValidTree;
    hide Len;
    AfterValue(s, i + Len(es[0].tree), es[0].post);
  }

  /** And where the next one starts. */
  lemma NextElem(s: Bytes, i: nat, es: seq<Elem>)
    requires |es| > 1 && ValidElems(es) && ElemsSpan(s, i, es)
    ensures var j := i + Len(es[0].tree) + |es[0].post| + 1;
      && ValidElems(es[1..]) && At(s, j, es[1].pre) && ElemsSpan(s, j + |es[1].pre|, es[1..])
      && SkipSpace(s, j) == j + |es[1].pre|
  {
    hide SkipSpace;
    hide AllSpace;
    hide At;
    hide TreeAt;
    hide ValidTree;
    hide Len;
    ElemsStart(s, i + Len(es[0].tree) + |es[0].post| + 1, es[1..]);
  }

  lemma {:induction false} ElemsSame(s: Bytes, i: nat, es: seq<Elem>, fs: seq<Elem>)
    requires es != [] && ValidElems(es) && ElemsSpan(s, i, es)
    requires fs != [] && ValidElems(fs) && ElemsSpan(s, i, fs)
    requires es[0].pre == fs[0].pre
    ensures es == fs
    decreases es, 0
  {
    hide SkipSpace;
    hide At;
    hide AllSpace;
    hide TreeAt;
    hide ValidTree;
    hide ValidElems;
    hide ElemsSpan;
    hide Len;
    ElemEnd(s, i, es);
    ElemEnd(s, i, fs);
    TreesSame(s, i, es[0].tree, fs[0].tree);
    var e := i + Len(es[0].tree);
    AtSame(s, e, es[0].post, fs[0].post);
    assert es[0] == fs[0];
    if |es| == 1 {
      assert es == [es[0]] && fs == [fs[0]];
    } else {
      var j := e + |es[0].post| + 1;
      NextElem(s, i, es);
      NextElem(s, i, fs);
      AtSame(s, j, es[1].pre, fs[1].pre);
      ElemsSame(s, j + |es[1].pre|, es[1..], fs[1..]);
      assert es == [es[0]] + es[1..] && fs == [fs[0]] + fs[1..];
    }
  }

  lemma ObjectEmpty(s: Bytes, i: nat, t: Tree)
    requires t.TObj? && ValidTree(t) && TreeAt(s, i, t)
    ensures t.members == [] <==> ByteAt(s, SkipSpace(s, i + 1), '}')
    ensures t.members == [] ==> SkipSpace(s, i + 1) == i + 1 + |t.objPad|
    ensures t.members != [] ==> SkipSpace(s, i + 1) == i + 1 + |t.members[0].pre|
  {
    hide SkipSpace;
    hide AllSpace;
    hide MembersSpan;
    hide ValidMembers;
    if t.members == [] { AfterValue(s, i + 1, t.objPad); } else { MembersStart(s, i + 1, t.members); }
  }

  lemma {:induction false} ObjectsSame(s: Bytes, i: nat, t: Tree, u: Tree)
    requires t.TObj? && ValidTree(t) && TreeAt(s, i, t)
    requires u.TObj? && ValidTree(u) && TreeAt(s, i, u)
    ensures t == u
    decreases t, 1
  {
    hide SkipSpace;
    hide AllSpace;
    hide MembersSpan;
    hide ValidMembers;
    ObjectEmpty(s, i, t);
    ObjectEmpty(s, i, u);
    if t.members == [] {
      AtSame(s, i + 1, t.objPad, u.objPad);
    } else {
      AtSame(s, i + 1, t.members[0].pre, u.members[0].pre);
      MembersSame(s, i + 1 + |t.members[0].pre|, t.members, u.members);
    }
  }

  /** The key of the first of the members written at `i`, up to its value. */
  lemma MemberKey(s: Bytes, i: nat, ms: seq<Member>)
    requires ms != [] && ValidMembers(ms) && MembersSpan(s, i, ms)
    ensures var m, a := ms[0], i + |Literal(ms[0].key)|;
      var c := a + |m.mid| + 1;
      && ValidItems(m.key) && At(s, i, Literal(m.key))
      && At(s, a, m.mid) && SkipSpace(s, a) == a + |m.mid|
      && At(s, c, m.elem.pre) && SkipSpace(s, c) == c + |m.elem.pre|
      && ValidTree(m.elem.tree) && TreeAt(s, c + |m.elem.pre|, m.elem.tree)
  {
    hide SkipSpace;
    hide AllSpace;
    hide At;
    hide TreeAt;
    hide ValidTree;
    hide ValidItems;
    hide Literal;
    hide Len;
    var m, a := ms[0], i + |Literal(ms[0].key)|;
    SkipSpaceOver(s, a, m.mid) by { assert !IsSpace(':'); }
    var c := a + |m.mid| + 1;
    TreeStart(s, c + |m.elem.pre|, m.elem.tree);
    SkipSpaceOver(s, c, m.elem.pre);
  }

  /** What it has after its value. */
  lemma MemberEnd(s: Bytes, i: nat, ms: seq<Member>)
    requires ms != [] && ValidMembers(ms) && MembersSpan(s, i, ms)
    ensures var m := ms[0];
      var e := i + |Literal(m.key)| + |m.mid| + 1 + |m.elem.pre| + Len(m.elem.tree);
      && Follow(s, e) && SkipSpace(s, e) == e + |m.elem.post| && At(s, e, m.elem.post)
      && e + |m.elem.post| < |s| && (|ms| == 1 <==> s[e + |m.elem.post|] == '}')
  {
    hide SkipSpace;
    hide AllSpace;
    hide At;
    hide TreeAt;
    hide ValidTree;
    hide ValidItems;
    hide Literal;
    hide KeySpan;
    hide Len;
    var m := ms[0];
    AfterValue(s, i + |Literal(m.key)| + |m.mid| + 1 + |m.elem.pre| + Len(m.elem.tree), m.elem.post);
  }

  lemma NextMember(s: Bytes, i: nat, ms: seq<Member>)
    requires |ms| > 1 && ValidMembers(ms) && MembersSpan(s, i, ms)
    ensures var m := ms[0];
      var j := i + |Literal(m.key)| + |m.mid| + 1 + |m.elem.pre| + Len(m.elem.tree) + |m.elem.post| + 1;
      && ValidMembers(ms[1..]) && At(s, j, ms[1].pre) && MembersSpan(s, j + |ms[1].pre|, ms[1..])
      && SkipSpace(s, j) == j + |ms[1].pre|
  {
    hide SkipSpace;
    hide AllSpace;
    hide At;
    hide TreeAt;
    hide ValidTree;
    hide ValidItems;
    hide Literal;
    hide KeySpan;
    hide Len;
    var m := ms[0];
    MembersStart(s, i + |Literal(m.key)| + |m.mid| + 1 + |m.elem.pre| + Len(m.elem.tree) + |m.elem.post| + 1, ms[1..]);
  }

  lemma {:induction false} MembersSame(s: Bytes, i: nat, ms: seq<Member>, ns: seq<Member>)
    requires ms != [] && ValidMembers(ms) && MembersSpan(s, i, ms)
    requires ns != [] && ValidMembers(ns) && MembersSpan(s, i, ns)
    requires ms[0].pre == ns[0].pre
    ensures ms == ns
    decreases ms, 0
  {
    hide SkipSpace;
    hide At;
    hide AllSpace;
    hide TreeAt;
    hide ValidTree;
    hide ValidItems;
    hide ValidMembers;
    hide MembersSpan;
    hide Literal;
    hide Len;
    MemberKey(s, i, ms);
    MemberKey(s, i, ns);
    LiteralsSame(s, i, ms[0].key, ns[0].key);
    var a := i + |Literal(ms[0].key)|;
    AtSame(s, a, ms[0].mid, ns[0].mid);
    var c := a + |ms[0].mid| + 1;
    AtSame(s, c, ms[0].elem.pre, ns[0].elem.pre);
    var v := c + |ms[0].elem.pre|;
    MemberEnd(s, i, ms);
    MemberEnd(s, i, ns);
    TreesSame(s, v, ms[0].elem.tree, ns[0].elem.tree);
    var e := v + Len(ms[0].elem.tree);
    AtSame(s, e, ms[0].elem.post, ns[0].elem.post);
    assert ms[0] == ns[0];
    if |ms| == 1 {
      assert ms == [ms[0]] && ns == [ns[0]];
    } else {
      var j := e + |ms[0].elem.post| + 1;
      NextMember(s, i, ms);
      NextMember(s, i, ns);
      AtSame(s, j, ms[1].pre, ns[1].pre);
      MembersSame(s, j + |ms[1].pre|, ms[1..], ns[1..]);
      assert ms == [ms[0]] + ms[1..] && ns == [ns[0]] + ns[1..];
    }
  }

  // --- whole texts ------------------------------------------------------------------------

  /** One text, one document. */
  lemma DocsSame(c: Elem, d: Elem)
    requires ValidDoc(c) && ValidDoc(d) && DocText(c) == DocText(d)
    ensures c == d
  {
    hide TreeAt;
    hide ValidTree;
    hide DocText;
    hide Len;
    hide At;
    hide AllSpace;
    hide SkipSpace;
    var s := DocText(c);
    DocAt(c);
    DocAt(d);
    AtSame(s, 0, c.pre, d.pre);
    TreesSame(s, |c.pre|, c.tree, d.tree);
    AtSame(s, |c.pre| + Len(c.tree), c.post, d.post);
  }
}
