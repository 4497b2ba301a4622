/** The printed form, told without the printer: which syntax tree the text of a value has. */
module JsonCanonical {
  import opened Strings
  import opened Json
  import opened JsonParser
  import opened JsonGrammar
  import opened JsonComplete
  import opened JsonSound
  import opened JsonUnique
  import opened JsonRoundTrip
  import opened RfcStrings

  /** One byte of a string: the seven escapes with a letter or sign of their own, lower-case hexadecimal for the
      other control bytes, and every other byte, the slash too, for itself. */
  predicate PrintsByte(it: Item, c: char) {
    if c as int in [0x22, 0x5C, 0x08, 0x0C, 0x0A, 0x0D, 0x09] then it.Short? && StandsFor(it.e, c)
    else if c as int < 0x20 then
      it == Uni(['0', '0', "0123456789abcdef"[c as int / 16], "0123456789abcdef"[c as int % 16]])
    else it == Plain(c)
  }

  predicate PrintsBytes(items: seq<Item>, s: Bytes) {
    |items| == |s| && forall k | 0 <= k < |s| :: PrintsByte(items[k], s[k])
  }

  /** A whole number below nine million billion in its digits, and any other double in the fewest digits that
      read back. */
  ghost predicate PrintsNumber(F: Floats, token: Bytes, r: real) {
    if exists n: int :: IsWhole(r, n) then exists n: int :: IsWhole(r, n) && token == Decimal(n)
    else exists p: int :: Fewest(F, r, 1, p) && token == F.format(p, r)
  }

  predicate IsWhole(r: real, n: int) { r == n as real && -9_000_000_000_000_000 < n < 9_000_000_000_000_000 }

  predicate ReadsBack(F: Floats, r: real, p: int) { F.read(F.format(p, r)) == Fin(r) }

  /** Of the precisions from `least` to 17, `p` is the first to read back. */
  predicate Fewest(F: Floats, r: real, least: int, p: int) {
    least <= p <= 17 && ReadsBack(F, r, p) && forall q | least <= q < p :: !ReadsBack(F, r, q)
  }

  /** The tree of the text of `v`: no space anywhere, members in the order of their keys, null for an infinity. */
  ghost predicate Prints(F: Floats, t: Tree, v: Value)
    decreases v
  {
    match v
    case Null => t == TNull
    case Bool(b) => t == if b then TTrue else TFalse
    case Num(n) => if n.Fin? then t.TNum? && PrintsNumber(F, t.token, n.r) else t == TNull
    case Str(s) => t.TStr? && PrintsBytes(t.str, s)
    case Arr(items) =>
      && t.TArr? && t.arrPad == "" && |t.elems| == |items|
      && forall k | 0 <= k < |items| ::
           t.elems[k].pre == "" == t.elems[k].post && Prints(F, t.elems[k].tree, items[k])
    case Obj(fields) =>
      && t.TObj? && t.objPad == "" && |t.members| == |fields|
      && forall k | 0 <= k < |fields| ::
           && t.members[k].pre == "" == t.members[k].mid && PrintsBytes(t.members[k].key, fields[k].key)
           && t.members[k].elem.pre == "" == t.members[k].elem.post
           && Prints(F, t.members[k].elem.tree, fields[k].value)
  }

  lemma PrintsByteIs(it: Item, c: char)
    ensures PrintsByte(it, c) <==> it == CanonItem(c)
  {
    if it.Short? { EscapeStands(it.e, c); }
    if c as int < 0x20 {
      HexCharIs(c as int / 16);
      HexCharIs(c as int % 16);
    }
  }

  lemma HexCharIs(d: nat)
    requires d < 16
    ensures HexChar(d) == "0123456789abcdef"[d]
  {
  }

  lemma {:induction false} CanonItemsAt(s: Bytes)
    ensures |CanonItems(s)| == |s| && forall k | 0 <= k < |s| :: CanonItems(s)[k] == CanonItem(s[k])
  {
    hide CanonItem;
    if s != [] { CanonItemsAt(s[1..]); }
  }

  lemma PrintsBytesIs(items: seq<Item>, s: Bytes)
    ensures PrintsBytes(items, s) <==> items == CanonItems(s)
  {
    hide PrintsByte;
    hide CanonItem;
    hide CanonItems;
    CanonItemsAt(s);
    if |items| == |s| {
      forall k | 0 <= k < |s| ensures PrintsByte(items[k], s[k]) <==> items[k] == CanonItem(s[k]) {
        PrintsByteIs(items[k], s[k]);
      }
    }
  }

  lemma WholeIs(r: real)
    ensures FastPath(r) <==> exists n: int :: IsWhole(r, n)
    ensures forall n: int | IsWhole(r, n) :: n == r.Floor
  {
    if FastPath(r) { assert IsWhole(r, r.Floor); }
  }

  lemma {:induction false} ShortestIs(F: Floats, r: real, least: int) returns (p: int)
    requires 1 <= least <= 17 && ReadsBack(F, r, 17)
    ensures Fewest(F, r, least, p) && Shortest(F, r, least) == F.format(p, r)
    decreases 17 - least
  {
    if ReadsBack(F, r, least) { p := least; } else { p := ShortestIs(F, r, least + 1); }
  }

  lemma PrintsNumberIs(F: Floats, token: Bytes, r: real)
    requires Faithful(F) && F.isDouble(r)
    ensures PrintsNumber(F, token, r) <==> token == DumpNumber(F, Fin(r))
  {
    hide Decimal;
    hide Shortest;
    hide FastPath;
    WholeIs(r);
    if FastPath(r) {
      var n: int :| IsWhole(r, n);
    } else {
      assert ReadsBack(F, r, 17);
      hide Faithful;
      var p := ShortestIs(F, r, 1);
      assert forall q | Fewest(F, r, 1, q) :: q == p;
    }
  }

  lemma {:induction false} PrintsIs(F: Floats, t: Tree, v: Value)
    requires Faithful(F) && Doubles(F, v)
    ensures Prints(F, t, v) <==> t == Canon(F, v)
    decreases v
  {
    hide Faithful;
    hide PrintsNumber;
    hide DumpNumber;
    hide PrintsBytes;
    hide CanonItems;
    hide CanonElems;
    hide CanonMembers;
    match v
    case Num(n) =>
      if n.Fin? && t.TNum? { PrintsNumberIs(F, t.token, n.r); }
    case Str(s) =>
      if t.TStr? { PrintsBytesIs(t.str, s); }
    case Arr(items) =>
      CanonElemsAt(F, items);
      if t.TArr? && |t.elems| == |items| {
        forall k | 0 <= k < |items|
          ensures Prints(F, t.elems[k].tree, items[k]) <==> t.elems[k].tree == Canon(F, items[k])
        {
          PrintsIs(F, t.elems[k].tree, items[k]);
        }
      }
    case Obj(fields) =>
      CanonMembersAt(F, fields);
      if t.TObj? && |t.members| == |fields| {
        forall k | 0 <= k < |fields|
          ensures Prints(F, t.members[k].elem.tree, fields[k].value) <==>
            t.members[k].elem.tree == Canon(F, fields[k].value)
          ensures PrintsBytes(t.members[k].key, fields[k].key) <==> t.members[k].key == CanonItems(fields[k].key)
        {
          PrintsIs(F, t.members[k].elem.tree, fields[k].value);
          PrintsBytesIs(t.members[k].key, fields[k].key);
        }
      }
    case _ =>
  }

  lemma {:induction false} CanonElemsAt(F: Floats, items: seq<Value>)
    ensures forall k | 0 <= k < |items| :: CanonElems(F, items)[k] == Elem("", Canon(F, items[k]), "")
  {
    hide Canon;
    if items != [] { CanonElemsAt(F, items[1..]); }
  }

  lemma {:induction false} CanonMembersAt(F: Floats, fields: seq<Field>)
    ensures forall k | 0 <= k < |fields| ::
      CanonMembers(F, fields)[k] == Member("", CanonItems(fields[k].key), "", Elem("", Canon(F, fields[k].value), ""))
  {
    hide Canon;
    hide CanonItems;
    if fields != [] { CanonMembersAt(F, fields[1..]); }
  }

  /** The text of a value is the text of one tree, the one that says how every part of it is written. */
  lemma PrintedForm(F: Floats, v: Value, doc: Elem)
    requires Faithful(F) && WellFormed(v) && Doubles(F, v)
    ensures ValidDoc(doc) && DocText(doc) == Dump(F, v) <==> doc.pre == "" == doc.post && Prints(F, doc.tree, v)
  {
    hide Faithful;
    hide Doubles;
    hide WellFormed;
    hide Prints;
    hide Canon;
    hide Dump;
    hide ValidTree;
    hide Meaning;
    hide Text;
    var canon := Elem("", Canon(F, v), "");
    CanonIs(F, v);
    PrintsIs(F, doc.tree, v);
    assert DocText(canon) == Dump(F, v);
    if ValidDoc(doc) && DocText(doc) == Dump(F, v) { DocsSame(doc, canon); }
  }
}
