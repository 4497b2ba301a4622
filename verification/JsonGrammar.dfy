/** The texts the parser takes, as syntax trees with every byte of space kept, and what each denotes.
    RFC 8259 texts (sections 2 to 7) are among them. */
module JsonGrammar {
  import opened Strings
  import opened Unicode
  import opened Json
  import opened JsonParser

  /** One unit of a string literal: a byte, a two-character escape, or a `\u` escape. */
  datatype Item = Plain(c: char) | Short(e: char) | Uni(hex: Bytes)

  datatype Tree =
    | TNull
    | TTrue
    | TFalse
    | TNum(token: Bytes)
    | TStr(str: seq<Item>)
    | TArr(arrPad: Bytes, elems: seq<Elem>)
    | TObj(objPad: Bytes, members: seq<Member>)

  /** A value with the space around it. */
  datatype Elem = Elem(pre: Bytes, tree: Tree, post: Bytes)

  /** Space, key, space, then (after the colon) the value. */
  datatype Member = Member(pre: Bytes, key: seq<Item>, mid: Bytes, elem: Elem)

  // --- which trees are legal ----------------------------------------------------

  predicate AllSpace(s: Bytes) {
    forall k | 0 <= k < |s| :: IsSpace(s[k])
  }

  predicate ValidItem(it: Item) {
    match it
    case Plain(c) => c != '"' && c != '\\'
    case Short(e) => Unescape(e).Some?
    case Uni(hex) => |hex| == 4 && HexValue(hex, 0, 4).Some?
  }

  predicate ValidItems(items: seq<Item>) {
    forall k | 0 <= k < |items| :: ValidItem(items[k])
  }

  /** The space inside brackets belongs to the first element when there is one, and is the pad when there
      is none. */
  predicate ValidTree(t: Tree)
    decreases t, 0
  {
    match t
    case TNum(token) => IsNumberToken(token)
    case TStr(items) => ValidItems(items)
    case TArr(pad, es) => AllSpace(pad) && (es != [] ==> pad == "") && ValidElems(es)
    case TObj(pad, ms) => AllSpace(pad) && (ms != [] ==> pad == "") && ValidMembers(ms)
    case _ => true
  }

  predicate ValidElems(es: seq<Elem>)
    decreases es, 0
  {
    es != [] ==>
      AllSpace(es[0].pre) && AllSpace(es[0].post) && ValidTree(es[0].tree) && ValidElems(es[1..])
  }

  predicate ValidMembers(ms: seq<Member>)
    decreases ms, 0
  {
    ms != [] ==>
      && AllSpace(ms[0].pre) && ValidItems(ms[0].key) && AllSpace(ms[0].mid)
      && AllSpace(ms[0].elem.pre) && AllSpace(ms[0].elem.post) && ValidTree(ms[0].elem.tree)
      && ValidMembers(ms[1..])
  }

  // --- the text of a tree ---------------------------------------------------------

  function ItemText(it: Item): Bytes {
    match it
    case Plain(c) => [c]
    case Short(e) => ['\\', e]
    case Uni(hex) => "\\u" + hex
  }

  function ItemsText(items: seq<Item>): Bytes {
    if items == [] then "" else ItemText(items[0]) + ItemsText(items[1..])
  }

  function Literal(items: seq<Item>): Bytes { "\"" + (ItemsText(items) + "\"") }

  function Text(t: Tree): Bytes
    decreases t, 0
  {
    match t
    case TNull => "null"
    case TTrue => "true"
    case TFalse => "false"
    case TNum(token) => token
    case TStr(items) => Literal(items)
    case TArr(pad, es) => "[" + (if es == [] then pad + "]" else ElemsText(es))
    case TObj(pad, ms) => "{" + (if ms == [] then pad + "}" else MembersText(ms))
  }

  function ElemsText(es: seq<Elem>): Bytes
    requires es != []
    decreases es, 0
  {
    es[0].pre + (Text(es[0].tree) + (es[0].post + if |es| == 1 then "]" else "," + ElemsText(es[1..])))
  }

  /** A member up to and including its colon. */
  function KeyText(m: Member): Bytes {
    m.pre + (Literal(m.key) + (m.mid + ":"))
  }

  function MembersText(ms: seq<Member>): Bytes
    requires ms != []
    decreases ms, 0
  {
    KeyText(ms[0]) + (ms[0].elem.pre + (Text(ms[0].elem.tree) + (ms[0].elem.post
      + if |ms| == 1 then "}" else "," + MembersText(ms[1..]))))
  }

  // --- what a tree denotes -----------------------------------------------------------

  /** The code unit of a `\u` escape. */
  function UnitOf(it: Item): int {
    if it.Uni? && ValidItem(it) then HexValue(it.hex, 0, 4).value else -1
  }

  function ItemBytes(it: Item): Bytes
    requires ValidItem(it)
  {
    match it
    case Plain(c) => [c]
    case Short(e) => [Unescape(e).value]
    case Uni(_) => Utf8(UnitOf(it))
  }

  /** The bytes of a string: an escaped high half directly before an escaped low half is one
      code point (RFC 8259, section 7). */
  function StringBytes(items: seq<Item>): Bytes
    requires ValidItems(items)
  {
    if items == [] then []
    else if |items| >= 2 && IsHigh(UnitOf(items[0])) && IsLow(UnitOf(items[1])) then
      Utf8(Combine(UnitOf(items[0]), UnitOf(items[1]))) + StringBytes(items[2..])
    else ItemBytes(items[0]) + StringBytes(items[1..])
  }

  function Meaning(F: Floats, t: Tree): Value
    requires ValidTree(t)
    decreases t, 0
  {
    match t
    case TNull => Null
    case TTrue => Bool(true)
    case TFalse => Bool(false)
    case TNum(token) => Num(F.read(token))
    case TStr(items) => Str(StringBytes(items))
    case TArr(_, es) => Arr(Meanings(F, es))
    case TObj(_, ms) => Obj(Fields(F, ms, []))
  }

  function Meanings(F: Floats, es: seq<Elem>): seq<Value>
    requires ValidElems(es)
    decreases es, 0
  {
    if es == [] then [] else [Meaning(F, es[0].tree)] + Meanings(F, es[1..])
  }

  /** Members set in order, so that the last of a repeated key wins. */
  function Fields(F: Floats, ms: seq<Member>, acc: seq<Field>): seq<Field>
    requires ValidMembers(ms)
    decreases ms, 0
  {
    if ms == [] then acc
    else Fields(F, ms[1..], SetKey(acc, StringBytes(ms[0].key), Meaning(F, ms[0].elem.tree)))
  }

  function TreeHeight(t: Tree): (h: nat)
    ensures h >= 1
    decreases t, 0
  {
    match t
    case TArr(_, es) => 1 + ElemsHeight(es)
    case TObj(_, ms) => 1 + MembersHeight(ms)
    case _ => 1
  }

  function ElemsHeight(es: seq<Elem>): nat
    decreases es, 0
  {
    if es == [] then 0 else Max(TreeHeight(es[0].tree), ElemsHeight(es[1..]))
  }

  function MembersHeight(ms: seq<Member>): nat
    decreases ms, 0
  {
    if ms == [] then 0 else Max(TreeHeight(ms[0].elem.tree), MembersHeight(ms[1..]))
  }

  // --- where a tree stands in a text ---------------------------------------------------

  function Len(t: Tree): nat
    decreases t, 0
  {
    match t
    case TNull => 4
    case TTrue => 4
    case TFalse => 5
    case TNum(token) => |token|
    case TStr(items) => |Literal(items)|
    case TArr(pad, es) => if es == [] then |pad| + 2 else 1 + |es[0].pre| + ElemsLen(es)
    case TObj(pad, ms) => if ms == [] then |pad| + 2 else 1 + |ms[0].pre| + MembersLen(ms)
  }

  /** From the first value to the closing bracket. */
  function ElemsLen(es: seq<Elem>): nat
    requires es != []
    decreases es, 0
  {
    Len(es[0].tree) + |es[0].post| + 1 + if |es| == 1 then 0 else |es[1].pre| + ElemsLen(es[1..])
  }

  function KeyLen(m: Member): nat { |Literal(m.key)| + |m.mid| + 1 }

  /** From the first key to the closing brace. */
  function MembersLen(ms: seq<Member>): nat
    requires ms != []
    decreases ms, 0
  {
    KeyLen(ms[0]) + |ms[0].elem.pre| + Len(ms[0].elem.tree) + |ms[0].elem.post| + 1
    + if |ms| == 1 then 0 else |ms[1].pre| + MembersLen(ms[1..])
  }

  predicate ByteAt(s: Bytes, i: nat, c: char) { i < |s| && s[i] == c }

  /** `t` is written in `s` at `i`. */
  predicate TreeAt(s: Bytes, i: nat, t: Tree)
    decreases t, 0
  {
    match t
    case TNull => At(s, i, "null")
    case TTrue => At(s, i, "true")
    case TFalse => At(s, i, "false")
    case TNum(token) => At(s, i, token)
    case TStr(items) => At(s, i, Literal(items))
    case TArr(pad, es) =>
      && ByteAt(s, i, '[')
      && if es == [] then At(s, i + 1, pad) && ByteAt(s, i + 1 + |pad|, ']')
         else At(s, i + 1, es[0].pre) && ElemsSpan(s, i + 1 + |es[0].pre|, es)
    case TObj(pad, ms) =>
      && ByteAt(s, i, '{')
      && if ms == [] then At(s, i + 1, pad) && ByteAt(s, i + 1 + |pad|, '}')
         else At(s, i + 1, ms[0].pre) && MembersSpan(s, i + 1 + |ms[0].pre|, ms)
  }

  predicate ElemsSpan(s: Bytes, i: nat, es: seq<Elem>)
    requires es != []
    decreases es, 0
  {
    var e := i + Len(es[0].tree);
    var j := e + |es[0].post|;
    && TreeAt(s, i, es[0].tree) && At(s, e, es[0].post)
    && if |es| == 1 then ByteAt(s, j, ']')
       else ByteAt(s, j, ',') && At(s, j + 1, es[1].pre) && ElemsSpan(s, j + 1 + |es[1].pre|, es[1..])
  }

  /** The key literal, its space and its colon. */
  predicate KeySpan(s: Bytes, i: nat, m: Member) {
    && At(s, i, Literal(m.key)) && At(s, i + |Literal(m.key)|, m.mid)
    && ByteAt(s, i + |Literal(m.key)| + |m.mid|, ':')
  }

  predicate MembersSpan(s: Bytes, i: nat, ms: seq<Member>)
    requires ms != []
    decreases ms, 0
  {
    var c := i + KeyLen(ms[0]);
    var v := c + |ms[0].elem.pre|;
    var e := v + Len(ms[0].elem.tree);
    var j := e + |ms[0].elem.post|;
    && KeySpan(s, i, ms[0]) && At(s, c, ms[0].elem.pre)
    && TreeAt(s, v, ms[0].elem.tree) && At(s, e, ms[0].elem.post)
    && if |ms| == 1 then ByteAt(s, j, '}')
       else ByteAt(s, j, ',') && At(s, j + 1, ms[1].pre) && MembersSpan(s, j + 1 + |ms[1].pre|, ms[1..])
  }

  lemma AtOne(s: Bytes, i: nat, c: char)
    ensures At(s, i, [c]) <==> ByteAt(s, i, c)
  {
    if At(s, i, [c]) { AtByte(s, i, [c], 0); }
    if ByteAt(s, i, c) { assert s[i..i + 1] == [c]; }
  }

  lemma AtThree(s: Bytes, i: nat, a: Bytes, b: Bytes, c: Bytes)
    ensures At(s, i, a + (b + c)) <==> At(s, i, a) && At(s, i + |a|, b) && At(s, i + |a| + |b|, c)
  {
    AtSplit(s, i, a, b + c);
    AtSplit(s, i + |a|, b, c);
  }

  /** A tree stands where its text does. */
  lemma {:induction false} TreeAtText(s: Bytes, i: nat, t: Tree)
    ensures |Text(t)| == Len(t)
    ensures At(s, i, Text(t)) <==> TreeAt(s, i, t)
    decreases t, 0
  {
    hide ElemsSpan;
    hide MembersSpan;
    hide At;
    hide ElemsText;
    hide MembersText;
    hide ByteAt;
    hide Literal;
    hide ElemsLen;
    hide MembersLen;
    match t
    case TArr(pad, es) =>
      AtOne(s, i, '[');
      if es == [] {
        AtThree(s, i, "[", pad, "]");
        AtOne(s, i + 1 + |pad|, ']');
      } else {
        AtSplit(s, i, "[", ElemsText(es));
        ElemsSpanText(s, i + 1, es);
      }
    case TObj(pad, ms) =>
      AtOne(s, i, '{');
      if ms == [] {
        AtThree(s, i, "{", pad, "}");
        AtOne(s, i + 1 + |pad|, '}');
      } else {
        AtSplit(s, i, "{", MembersText(ms));
        MembersSpanText(s, i + 1, ms);
      }
    case _ =>
  }

  lemma {:induction false} ElemsSpanText(s: Bytes, i: nat, es: seq<Elem>)
    requires es != []
    ensures |ElemsText(es)| == |es[0].pre| + ElemsLen(es)
    ensures At(s, i, ElemsText(es)) <==> At(s, i, es[0].pre) && ElemsSpan(s, i + |es[0].pre|, es)
    decreases es, 0
  {
    hide TreeAt;
    hide Text;
    hide Len;
    hide At;
    hide ByteAt;
    var t, post := es[0].tree, es[0].post;
    var v := i + |es[0].pre|;
    TreeAtText(s, v, t);
    var e := v + Len(t);
    var j := e + |post|;
    if |es| == 1 {
      AtOne(s, j, ']');
      AtSplit(s, e, post, "]");
      AtThree(s, i, es[0].pre, Text(t), post + "]");
    } else {
      var rest := es[1..];
      ElemsSpanText(s, j + 1, rest);
      AtOne(s, j, ',');
      AtThree(s, e, post, ",", ElemsText(rest));
      AtThree(s, i, es[0].pre, Text(t), post + ("," + ElemsText(rest)));
    }
  }

  lemma KeySpanText(s: Bytes, i: nat, m: Member, rest: Bytes)
    ensures |KeyText(m)| == |m.pre| + KeyLen(m)
    ensures At(s, i, KeyText(m) + rest) <==>
      At(s, i, m.pre) && KeySpan(s, i + |m.pre|, m) && At(s, i + |m.pre| + KeyLen(m), rest)
  {
    hide At;
    hide Literal;
    hide ByteAt;
    var k := i + |m.pre|;
    AtSplit(s, i, KeyText(m), rest);
    AtThree(s, i, m.pre, Literal(m.key), m.mid + ":");
    AtSplit(s, k + |Literal(m.key)|, m.mid, ":");
    AtOne(s, k + |Literal(m.key)| + |m.mid|, ':');
  }

  lemma {:induction false} MembersSpanText(s: Bytes, i: nat, ms: seq<Member>)
    requires ms != []
    ensures |MembersText(ms)| == |ms[0].pre| + MembersLen(ms)
    ensures At(s, i, MembersText(ms)) <==> At(s, i, ms[0].pre) && MembersSpan(s, i + |ms[0].pre|, ms)
    decreases ms, 0
  {
    hide TreeAt;
    hide Text;
    hide Len;
    hide At;
    hide Literal;
    hide KeySpan;
    hide KeyText;
    hide KeyLen;
    hide ByteAt;
    var pre, t, post := ms[0].elem.pre, ms[0].elem.tree, ms[0].elem.post;
    var c := i + |ms[0].pre| + KeyLen(ms[0]);
    var v := c + |pre|;
    var e := v + Len(t);
    var j := e + |post|;
    TreeAtText(s, v, t);
    if |ms| == 1 {
      AtOne(s, j, '}');
      AtSplit(s, e, post, "}");
      AtThree(s, c, pre, Text(t), post + "}");
      KeySpanText(s, i, ms[0], pre + (Text(t) + (post + "}")));
    } else {
      var rest := ms[1..];
      MembersSpanText(s, j + 1, rest);
      AtOne(s, j, ',');
      AtThree(s, e, post, ",", MembersText(rest));
      AtThree(s, c, pre, Text(t), post + ("," + MembersText(rest)));
      KeySpanText(s, i, ms[0], pre + (Text(t) + (post + ("," + MembersText(rest)))));
    }
  }

  // --- repeated keys ---------------------------------------------------------------------

  /** The value of the last member with the given key. */
  function LastMember(F: Floats, ms: seq<Member>, key: Bytes): Option<Value>
    requires ValidMembers(ms)
  {
    if ms == [] then None
    else match LastMember(F, ms[1..], key)
      case Some(v) => Some(v)
      case None =>
        if StringBytes(ms[0].key) == key then Some(Meaning(F, ms[0].elem.tree)) else None
  }

  lemma {:induction false} FieldsLookup(F: Floats, ms: seq<Member>, acc: seq<Field>, key: Bytes)
    requires ValidMembers(ms) && SortedKeys(acc)
    ensures Lookup(Fields(F, ms, acc), key)
         == (match LastMember(F, ms, key) case Some(v) => Some(v) case None => Lookup(acc, key))
  {
    if ms != [] {
      var k, v := StringBytes(ms[0].key), Meaning(F, ms[0].elem.tree);
      SetKeySorted(acc, k, v);
      LookupSetKey(acc, k, v, key);
      FieldsLookup(F, ms[1..], SetKey(acc, k, v), key);
    }
  }

  /** A key of a read object maps to its last occurrence in the text. */
  lemma LastDuplicateWins(F: Floats, t: Tree, key: Bytes)
    requires ValidTree(t) && t.TObj?
    ensures Get(Meaning(F, t), key)
         == (match LastMember(F, t.members, key) case Some(v) => v case None => Null)
  {
    FieldsLookup(F, t.members, [], key);
  }
}
