/** RFC 8259 texts (sections 2 to 7) against what the parser takes. */
module JsonRfc {
  import opened Strings
  import opened Json
  import opened JsonParser
  import opened JsonGrammar
  import opened JsonComplete
  import opened JsonSound
  import opened JsonUnique
  import opened JsonCharacters
  import opened RfcStrings
  import opened RfcValues
  import opened Utf8Text

  // --- numbers -----------------------------------------------------------------------

  datatype Exponent = Exponent(mark: char, sign: Bytes, digits: Bytes)

  /** The pieces of a number text. */
  datatype Pieces = Pieces(sign: Bytes, whole: Bytes, frac: Option<Bytes>, exp: Option<Exponent>)

  predicate SignOrNone(s: Bytes) { s == "" || (|s| == 1 && IsSign(s[0])) }

  function FractionText(frac: Option<Bytes>): Bytes {
    match frac case Some(d) => "." + d case None => ""
  }

  function ExponentText(exp: Option<Exponent>): Bytes {
    match exp case Some(e) => [e.mark] + (e.sign + e.digits) case None => ""
  }

  function NumberText(n: Pieces): Bytes {
    n.sign + (n.whole + (FractionText(n.frac) + ExponentText(n.exp)))
  }

  predicate RfcDigits(s: Bytes) {
    forall k | 0 <= k < |s| :: 0x30 <= s[k] as int <= 0x39
  }

  /** `number = [ minus ] int [ frac ] [ exp ]` of section 6. */
  predicate Strict(n: Pieces) {
    && n.sign in ["", "-"]
    && n.whole != "" && RfcDigits(n.whole) && (|n.whole| > 1 ==> n.whole[0] as int != 0x30)
    && (n.frac.Some? ==> n.frac.value != "" && RfcDigits(n.frac.value))
    && (n.exp.Some? ==>
          && n.exp.value.mark as int in [0x65, 0x45] && n.exp.value.sign in ["", "-", "+"]
          && n.exp.value.digits != "" && RfcDigits(n.exp.value.digits))
  }

  /** The parser's number: either sign or none, digits before or after the point, an exponent with
      or without digits. */
  predicate Loose(n: Pieces) {
    && n.sign in ["", "-", "+"] && RfcDigits(n.whole)
    && (n.frac.Some? ==> RfcDigits(n.frac.value))
    && (n.whole != "" || (n.frac.Some? && n.frac.value != ""))
    && (n.exp.Some? ==>
          && n.exp.value.mark as int in [0x65, 0x45] && n.exp.value.sign in ["", "-", "+"]
          && RfcDigits(n.exp.value.digits))
  }

  /** The same in the scanner's terms. */
  predicate Scannable(n: Pieces) {
    && SignOrNone(n.sign) && AllDigits(n.whole)
    && (n.frac.Some? ==> AllDigits(n.frac.value))
    && (n.whole != "" || (n.frac.Some? && n.frac.value != ""))
    && (n.exp.Some? ==>
          IsExp(n.exp.value.mark) && SignOrNone(n.exp.value.sign) && AllDigits(n.exp.value.digits))
  }

  lemma SignIs(s: Bytes)
    ensures SignOrNone(s) <==> s in ["", "-", "+"]
  {
    if |s| == 1 { assert s == [s[0]]; }
  }

  lemma RfcDigitsAre(s: Bytes)
    ensures RfcDigits(s) <==> AllDigits(s)
  {
  }

  lemma LooseIs(n: Pieces)
    ensures Loose(n) <==> Scannable(n)
  {
    SignIs(n.sign);
    RfcDigitsAre(n.whole);
    if n.frac.Some? { RfcDigitsAre(n.frac.value); }
    if n.exp.Some? {
      SignIs(n.exp.value.sign);
      RfcDigitsAre(n.exp.value.digits);
    }
    hide RfcDigits;
    hide AllDigits;
    hide SignOrNone;
  }

  lemma {:induction false} DigitsRun(s: Bytes, i: nat, d: Bytes)
    requires At(s, i, d) && AllDigits(d)
    requires i + |d| < |s| ==> !IsDigit(s[i + |d|])
    ensures SkipDigits(s, i) == i + |d|
    decreases |d|
  {
    if d != "" {
      AtByte(s, i, d, 0);
      assert d == [d[0]] + d[1..];
      AtSplit(s, i, [d[0]], d[1..]);
      DigitsRun(s, i + 1, d[1..]);
    }
  }

  lemma ExponentRun(s: Bytes, i: nat, exp: Option<Exponent>)
    requires At(s, i, ExponentText(exp)) && i + |ExponentText(exp)| == |s|
    requires exp.Some? ==>
      IsExp(exp.value.mark) && SignOrNone(exp.value.sign) && AllDigits(exp.value.digits)
    ensures ExponentEnd(s, i) == |s| && (i < |s| ==> IsExp(s[i]))
  {
    if exp.Some? {
      var e := exp.value;
      AtSplit(s, i, [e.mark], e.sign + e.digits);
      AtByte(s, i, [e.mark], 0);
      SignRun(s, i + 1, e.sign, e.digits);
      AtSplit(s, i + 1, e.sign, e.digits);
      DigitsRun(s, i + 1 + |e.sign|, e.digits);
    }
  }

  /** The sign is taken whether it is there or not. */
  lemma SignRun(s: Bytes, i: nat, sign: Bytes, rest: Bytes)
    requires At(s, i, sign + rest) && i + |sign + rest| == |s| && SignOrNone(sign)
    requires rest != "" ==> !IsSign(rest[0])
    ensures SkipSign(s, i) == i + |sign|
  {
    AtSplit(s, i, sign, rest);
    if sign != "" { AtByte(s, i, sign, 0); }
    else if rest != "" { AtByte(s, i, rest, 0); }
  }

  lemma FractionRun(s: Bytes, i: nat, frac: Option<Bytes>)
    requires At(s, i, FractionText(frac)) && (frac.Some? ==> AllDigits(frac.value))
    requires var j := i + |FractionText(frac)|; j < |s| ==> IsExp(s[j])
    ensures FractionEnd(s, i) == i + |FractionText(frac)|
    ensures i < |s| ==> !IsDigit(s[i])
  {
    if frac.Some? {
      AtSplit(s, i, ".", frac.value);
      AtByte(s, i, ".", 0);
      DigitsRun(s, i + 1, frac.value);
    }
  }

  lemma JoinAt(a: Bytes, b: Bytes, c: Bytes, d: Bytes)
    ensures var s := a + (b + (c + d));
      && At(s, 0, s) && At(s, |a|, b) && At(s, |a| + |b|, c) && At(s, |a| + |b| + |c|, d)
      && |a| + |b| + |c| + |d| == |s|
  {
    var s := a + (b + (c + d));
    assert At(s, 0, s);
    hide At;
    AtSplit(s, 0, a, b + (c + d));
    AtSplit(s, |a|, b, c + d);
    AtSplit(s, |a| + |b|, c, d);
  }

  lemma PiecesAt(n: Pieces)
    ensures var s, a := NumberText(n), |n.sign|;
      var b := a + |n.whole|;
      var c := b + |FractionText(n.frac)|;
      && At(s, 0, n.sign + (n.whole + (FractionText(n.frac) + ExponentText(n.exp))))
      && At(s, a, n.whole) && At(s, b, FractionText(n.frac)) && At(s, c, ExponentText(n.exp))
      && c + |ExponentText(n.exp)| == |s|
  {
    hide FractionText;
    hide ExponentText;
    hide At;
    JoinAt(n.sign, n.whole, FractionText(n.frac), ExponentText(n.exp));
  }

  /** The scanner takes every loose number whole, piece by piece. */
  lemma LooseScans(n: Pieces)
    requires Loose(n)
    ensures IsNumberToken(NumberText(n))
    ensures var s, a := NumberText(n), |n.sign|;
      var b := a + |n.whole|;
      SkipSign(s, 0) == a && SkipDigits(s, a) == b && FractionEnd(s, b) == b + |FractionText(n.frac)|
  {
    hide Loose;
    hide SkipDigits;
    hide SkipSign;
    hide FractionEnd;
    hide ExponentEnd;
    hide FractionText;
    hide ExponentText;
    hide AllDigits;
    hide SignOrNone;
    hide At;
    var s, a := NumberText(n), |n.sign|;
    var b := a + |n.whole|;
    var c := b + |FractionText(n.frac)|;
    PiecesAt(n);
    hide NumberText;
    LooseIs(n);
    RestUnsigned(n);
    SignRun(s, 0, n.sign, n.whole + (FractionText(n.frac) + ExponentText(n.exp)));
    ExponentRun(s, c, n.exp);
    FractionRun(s, b, n.frac);
    DigitsRun(s, a, n.whole);
    FractionSome(n.frac);
  }

  lemma FractionSome(frac: Option<Bytes>)
    ensures frac.Some? ==> |FractionText(frac)| == 1 + |frac.value|
  {
  }

  lemma RestUnsigned(n: Pieces)
    requires Loose(n)
    ensures var rest := n.whole + (FractionText(n.frac) + ExponentText(n.exp));
      rest != "" && !IsSign(rest[0])
  {
    hide Loose;
    hide RfcDigits;
    LooseIs(n);
  }

  lemma {:induction false} DigitsTaken(s: Bytes, i: nat)
    requires i <= |s|
    ensures AllDigits(s[i..SkipDigits(s, i)])
    decreases |s| - i
  {
    if i < |s| && IsDigit(s[i]) {
      DigitsTaken(s, i + 1);
      assert s[i..SkipDigits(s, i)] == [s[i]] + s[i + 1..SkipDigits(s, i + 1)];
    }
  }

  /** The fraction a scan finds at `b`. */
  function FractionOf(t: Bytes, b: nat): Option<Bytes>
    requires b <= |t|
  {
    if b < |t| && t[b] == '.' then Some(t[b + 1..SkipDigits(t, b + 1)]) else None
  }

  function ExponentOf(t: Bytes, c: nat): Option<Exponent>
    requires c <= |t|
  {
    if c < |t| then
      var m := SkipSign(t, c + 1);
      Some(Exponent(t[c], t[c + 1..m], t[m..]))
    else None
  }

  /** The pieces a scan finds in a text. */
  function PiecesOf(t: Bytes): Pieces {
    var a := SkipSign(t, 0);
    var b := SkipDigits(t, a);
    var c := FractionEnd(t, b);
    Pieces(t[..a], t[a..b], FractionOf(t, b), ExponentOf(t, c))
  }

  lemma FractionTaken(t: Bytes, b: nat)
    requires b <= |t|
    ensures var frac := FractionOf(t, b);
      && FractionText(frac) == t[b..FractionEnd(t, b)] && (frac.Some? ==> AllDigits(frac.value))
      && (frac.Some? && frac.value != "" <==> FractionEnd(t, b) > b + 1)
  {
    hide SkipDigits;
    hide AllDigits;
    if b < |t| && t[b] == '.' {
      var c := SkipDigits(t, b + 1);
      DigitsTaken(t, b + 1);
      assert t[b..c] == "." + t[b + 1..c];
    }
  }

  lemma ExponentTaken(t: Bytes, c: nat)
    requires c <= |t| && ExponentEnd(t, c) == |t|
    ensures var exp := ExponentOf(t, c);
      && ExponentText(exp) == t[c..]
      && (exp.Some? ==> IsExp(exp.value.mark) && SignOrNone(exp.value.sign) && AllDigits(exp.value.digits))
  {
    hide SkipDigits;
    hide AllDigits;
    if c < |t| {
      var m := SkipSign(t, c + 1);
      DigitsTaken(t, m);
      assert t[m..|t|] == t[m..];
      assert t[c..] == [t[c]] + (t[c + 1..m] + t[m..]);
    }
  }

  /** The pieces of a token the scanner takes whole make it up. */
  lemma TokenPieces(t: Bytes)
    requires IsNumberToken(t)
    ensures Loose(PiecesOf(t)) && NumberText(PiecesOf(t)) == t
  {
    hide Loose;
    hide RfcDigits;
    LooseIs(PiecesOf(t));
    hide SkipDigits;
    hide FractionEnd;
    hide ExponentEnd;
    hide FractionText;
    hide ExponentText;
    hide FractionOf;
    hide ExponentOf;
    hide AllDigits;
    var a := SkipSign(t, 0);
    var b := SkipDigits(t, a);
    var c := FractionEnd(t, b);
    DigitsTaken(t, a);
    FractionTaken(t, b);
    ExponentTaken(t, c);
    JoinFour(t, a, b, c);
  }

  lemma FractionIs(s: Bytes, b: nat, frac: Option<Bytes>)
    requires At(s, b, FractionText(frac)) && (frac.Some? ==> AllDigits(frac.value))
    requires var j := b + |FractionText(frac)|; j < |s| ==> IsExp(s[j])
    ensures b <= |s| && FractionOf(s, b) == frac
  {
    hide AllDigits;
    if frac.Some? {
      AtSplit(s, b, ".", frac.value);
      AtByte(s, b, ".", 0);
      DigitsRun(s, b + 1, frac.value);
    }
  }

  lemma ExponentIs(s: Bytes, c: nat, exp: Option<Exponent>)
    requires At(s, c, ExponentText(exp)) && c + |ExponentText(exp)| == |s|
    requires exp.Some? ==>
      IsExp(exp.value.mark) && SignOrNone(exp.value.sign) && AllDigits(exp.value.digits)
    ensures c <= |s| && ExponentOf(s, c) == exp
  {
    if exp.Some? {
      var e := exp.value;
      AtSplit(s, c, [e.mark], e.sign + e.digits);
      AtByte(s, c, [e.mark], 0);
      SignRun(s, c + 1, e.sign, e.digits);
      AtSplit(s, c + 1, e.sign, e.digits);
      assert s[c + 1 + |e.sign|..] == e.digits;
    }
  }

  lemma SliceIs(s: Bytes, i: nat, t: Bytes)
    requires At(s, i, t)
    ensures i + |t| <= |s| && s[i..i + |t|] == t
  {
  }

  /** The scan of a number text finds its pieces. */
  lemma PiecesFound(n: Pieces)
    requires Loose(n)
    ensures var s, a := NumberText(n), |n.sign|;
      var b := a + |n.whole|;
      && b <= |s| && s[..a] == n.sign && s[a..b] == n.whole && FractionOf(s, b) == n.frac
      && b + |FractionText(n.frac)| <= |s| && ExponentOf(s, b + |FractionText(n.frac)|) == n.exp
  {
    hide Loose;
    hide RfcDigits;
    LooseIs(n);
    hide SkipDigits;
    hide SkipSign;
    hide FractionEnd;
    hide ExponentEnd;
    hide FractionText;
    hide ExponentText;
    hide FractionOf;
    hide ExponentOf;
    hide AllDigits;
    hide SignOrNone;
    hide At;
    var s, a := NumberText(n), |n.sign|;
    var b := a + |n.whole|;
    var c := b + |FractionText(n.frac)|;
    PiecesAt(n);
    hide NumberText;
    AtSplit(s, 0, n.sign, n.whole + (FractionText(n.frac) + ExponentText(n.exp)));
    SliceIs(s, 0, n.sign);
    SliceIs(s, a, n.whole);
    assert s[..a] == s[0..a];
    ExponentRun(s, c, n.exp);
    FractionIs(s, b, n.frac);
    ExponentIs(s, c, n.exp);
  }

  /** A number text has one set of pieces. */
  lemma PiecesUnique(n: Pieces)
    requires Loose(n)
    ensures PiecesOf(NumberText(n)) == n
  {
    hide NumberText;
    hide SkipDigits;
    hide SkipSign;
    hide FractionEnd;
    hide FractionText;
    hide FractionOf;
    hide ExponentOf;
    hide Loose;
    LooseScans(n);
    PiecesFound(n);
  }

  lemma JoinFour(t: Bytes, a: nat, b: nat, c: nat)
    requires a <= b <= c <= |t|
    ensures t[..a] + (t[a..b] + (t[b..c] + t[c..])) == t
  {
  }

  /** The parser's number tokens, exactly. */
  lemma NumberTokensAre(t: Bytes)
    ensures IsNumberToken(t) <==> exists n :: Loose(n) && NumberText(n) == t
  {
    hide IsNumberToken;
    hide Loose;
    hide NumberText;
    if IsNumberToken(t) { TokenPieces(t); }
    forall n | Loose(n) && NumberText(n) == t ensures IsNumberToken(t) { LooseScans(n); }
  }

  // --- texts ---------------------------------------------------------------------------

  ghost predicate RfcNumber(t: Bytes) {
    exists n :: Strict(n) && NumberText(n) == t
  }

  /** Which number tokens are RFC 8259 numbers, by their pieces. */
  lemma RfcNumbersAre(t: Bytes)
    ensures RfcNumber(t) <==> IsNumberToken(t) && Strict(PiecesOf(t))
  {
    hide NumberText;
    hide PiecesOf;
    hide IsNumberToken;
    if n :| Strict(n) && NumberText(n) == t {
      assert Loose(n);
      LooseScans(n);
      PiecesUnique(n);
    }
    if IsNumberToken(t) { TokenPieces(t); }
  }

  /** The syntax trees of RFC 8259. */
  ghost predicate RfcTree(t: Tree)
    decreases t, 0
  {
    match t
    case TNum(token) => RfcNumber(token)
    case TStr(items) => RfcItems(items)
    case TArr(pad, es) => RfcSpace(pad) && (es != [] ==> pad == "") && RfcElems(es)
    case TObj(pad, ms) => RfcSpace(pad) && (ms != [] ==> pad == "") && RfcMembers(ms)
    case _ => true
  }

  ghost predicate RfcElems(es: seq<Elem>)
    decreases es, 0
  {
    es != [] ==> RfcSpace(es[0].pre) && RfcSpace(es[0].post) && RfcTree(es[0].tree) && RfcElems(es[1..])
  }

  ghost predicate RfcMembers(ms: seq<Member>)
    decreases ms, 0
  {
    ms != [] ==>
      && RfcSpace(ms[0].pre) && RfcItems(ms[0].key) && RfcSpace(ms[0].mid)
      && RfcSpace(ms[0].elem.pre) && RfcSpace(ms[0].elem.post) && RfcTree(ms[0].elem.tree)
      && RfcMembers(ms[1..])
  }

  /** Every number token is strict, and no string or key holds a raw byte below 0x20. */
  predicate StrictLeaves(t: Tree)
    decreases t, 0
  {
    match t
    case TNum(token) => Strict(PiecesOf(token))
    case TStr(items) => NoControl(items)
    case TArr(_, es) => forall k | 0 <= k < |es| :: StrictLeaves(es[k].tree)
    case TObj(_, ms) => forall k | 0 <= k < |ms| :: NoControl(ms[k].key) && StrictLeaves(ms[k].elem.tree)
    case _ => true
  }

  /** Of what the parser takes, the trees of RFC 8259 are those with strict leaves. */
  lemma {:induction false} RfcTreesAre(t: Tree)
    ensures RfcTree(t) <==> ValidTree(t) && StrictLeaves(t)
    decreases t, 1
  {
    hide RfcNumber;
    hide IsNumberToken;
    hide PiecesOf;
    hide RfcItems;
    hide RfcSpace;
    hide AllSpace;
    hide ValidItems;
    hide NoControl;
    match t
    case TNum(token) => RfcNumbersAre(token);
    case TStr(items) => RfcItemsAre(items);
    case TArr(pad, es) =>
      SpaceIs(pad);
      RfcElemsAre(es);
    case TObj(pad, ms) =>
      SpaceIs(pad);
      RfcMembersAre(ms);
    case _ =>
  }

  lemma {:induction false} RfcElemsAre(es: seq<Elem>)
    ensures RfcElems(es) <==> ValidElems(es) && forall k | 0 <= k < |es| :: StrictLeaves(es[k].tree)
    decreases es, 0
  {
    hide RfcTree;
    hide ValidTree;
    hide AllSpace;
    hide StrictLeaves;
    hide RfcSpace;
    if es != [] {
      SpaceIs(es[0].pre);
      SpaceIs(es[0].post);
      RfcTreesAre(es[0].tree);
      RfcElemsAre(es[1..]);
      assert forall k | 0 < k < |es| :: es[k] == es[1..][k - 1];
    }
  }

  lemma {:induction false} RfcMembersAre(ms: seq<Member>)
    ensures RfcMembers(ms) <==>
      && ValidMembers(ms)
      && forall k | 0 <= k < |ms| :: NoControl(ms[k].key) && StrictLeaves(ms[k].elem.tree)
    decreases ms, 0
  {
    hide RfcTree;
    hide ValidTree;
    hide AllSpace;
    hide StrictLeaves;
    hide ValidItems;
    hide NoControl;
    hide RfcSpace;
    hide RfcItems;
    if ms != [] {
      SpaceIs(ms[0].pre);
      SpaceIs(ms[0].mid);
      SpaceIs(ms[0].elem.pre);
      SpaceIs(ms[0].elem.post);
      RfcItemsAre(ms[0].key);
      RfcTreesAre(ms[0].elem.tree);
      RfcMembersAre(ms[1..]);
      assert forall k | 0 < k < |ms| :: ms[k] == ms[1..][k - 1];
    }
  }

  /** `JSON-text = ws value ws` of section 2. */
  ghost predicate RfcDoc(doc: Elem) { RfcSpace(doc.pre) && RfcSpace(doc.post) && RfcTree(doc.tree) }

  /** An RFC 8259 text: a sequence of Unicode characters, in UTF-8, that the grammar gives. */
  ghost predicate IsRfcText(s: Bytes) {
    IsText(s) && exists doc :: RfcDoc(doc) && DocText(doc) == s
  }

  /** An RFC 8259 document is one of the parser's grammar, with strict leaves. */
  lemma RfcDocsAre(doc: Elem)
    ensures RfcDoc(doc) <==> ValidDoc(doc) && StrictLeaves(doc.tree)
  {
    hide RfcTree;
    hide ValidTree;
    hide StrictLeaves;
    hide AllSpace;
    hide RfcSpace;
    SpaceIs(doc.pre);
    SpaceIs(doc.post);
    RfcTreesAre(doc.tree);
  }

  /** Every RFC 8259 text nested at most 64 deep is taken whole, as a value that its tree means; one nested
      deeper is refused. */
  lemma RfcTextsAccepted(F: Floats, doc: Elem)
    requires RfcDoc(doc)
    ensures var r := Parse(F, DocText(doc), MAX_DEPTH);
      if TreeHeight(doc.tree) <= 64
      then r.Ok? && r.end == |DocText(doc)| && forall v :: Means(F, doc.tree, v) <==> v == r.value
      else r.Bad?
  {
    hide Parse;
    hide DocText;
    hide Means;
    hide Meaning;
    hide RfcDoc;
    hide StrictLeaves;
    RfcDocsAre(doc);
    TextComplete(F, doc, MAX_DEPTH);
    forall v ensures Means(F, doc.tree, v) <==> v == Meaning(F, doc.tree) { MeansIs(F, doc.tree, v); }
  }

  datatype Kind = Square | Curly

  /** Brackets in brackets, of the given kinds from the outermost in. */
  function Brackets(kinds: seq<Kind>): Bytes {
    if kinds == [] then ""
    else if kinds[0].Square? then "[" + Brackets(kinds[1..]) + "]"
    else if |kinds| == 1 then "{}" else "{\"\":" + Brackets(kinds[1..]) + "}"
  }

  function BracketTree(kinds: seq<Kind>): Tree
    requires kinds != []
  {
    var inner := if |kinds| == 1 then [] else [Elem("", BracketTree(kinds[1..]), "")];
    if kinds[0].Square? then TArr("", inner)
    else TObj("", if inner == [] then [] else [Member("", [], "", inner[0])])
  }

  lemma {:induction false} BracketTreeIs(kinds: seq<Kind>)
    requires kinds != []
    ensures var t := BracketTree(kinds);
      ValidTree(t) && Text(t) == Brackets(kinds) && TreeHeight(t) == |kinds|
  {
    if |kinds| == 1 {
      assert Brackets(kinds[1..]) == "";
    } else {
      var inner := Elem("", BracketTree(kinds[1..]), "");
      BracketTreeIs(kinds[1..]);
      if kinds[0].Square? {
        OneElemText(inner);
        assert [inner][1..] == [] && BracketTree(kinds) == TArr("", [inner]);
        assert ElemsHeight([inner]) == TreeHeight(inner.tree);
      } else {
        var m := Member("", [], "", inner);
        OneMemberText(m);
        assert [m][1..] == [] && BracketTree(kinds) == TObj("", [m]);
        assert MembersHeight([m]) == TreeHeight(inner.tree);
      }
    }
  }

  lemma OneElemText(e: Elem)
    requires e.pre == "" && e.post == ""
    ensures Text(TArr("", [e])) == "[" + Text(e.tree) + "]"
  {
    assert ElemsText([e]) == Text(e.tree) + "]";
  }

  lemma OneMemberText(m: Member)
    requires m == Member("", [], "", Elem("", m.elem.tree, ""))
    ensures Text(TObj("", [m])) == "{\"\":" + Text(m.elem.tree) + "}"
  {
    assert KeyText(m) == "\"\":";
    assert MembersText([m]) == KeyText(m) + (Text(m.elem.tree) + "}");
  }

  /** Sixty-four brackets of any kinds are not too many and sixty-five are. */
  lemma {:induction false} NestingBound(F: Floats, kinds: seq<Kind>)
    requires kinds != []
    ensures Parse(F, Brackets(kinds), MAX_DEPTH).Ok? <==> |kinds| <= 64
  {
    hide Parse;
    hide Brackets;
    hide Text;
    var doc := Elem("", BracketTree(kinds), "");
    BracketTreeIs(kinds);
    assert DocText(doc) == Brackets(kinds);
    TextComplete(F, doc, MAX_DEPTH);
  }

  /** A text of the parser's grammar is an RFC 8259 text exactly when its one tree has strict leaves and the
      plain bytes of its strings are characters. */
  lemma RfcTextExactly(doc: Elem)
    requires ValidDoc(doc)
    ensures IsRfcText(DocText(doc)) <==> StrictLeaves(doc.tree) && UnicodeLeaves(doc.tree)
  {
    hide DocText;
    hide RfcTree;
    hide StrictLeaves;
    hide UnicodeLeaves;
    hide IsText;
    hide ValidTree;
    hide AllSpace;
    hide RfcDoc;
    RfcDocsAre(doc);
    DocCharacters(doc);
    if c :| RfcDoc(c) && DocText(c) == DocText(doc) {
      RfcDocsAre(c);
      DocsSame(c, doc);
    }
  }

  /** So an accepted text has one tree, which means the value read, and is an RFC 8259 text exactly when every
      number in that tree is strict, no string in it holds a raw byte below 0x20, and each longest run of raw
      bytes in a string is well-formed UTF-8. */
  lemma AcceptedIsRfcWhen(F: Floats, s: Bytes, room: nat) returns (doc: Elem)
    requires Parse(F, s, room).Ok?
    ensures ValidDoc(doc) && DocText(doc) == s && forall d :: ValidDoc(d) && DocText(d) == s ==> d == doc
    ensures forall v :: Means(F, doc.tree, v) <==> v == Parse(F, s, room).value
    ensures IsRfcText(s) <==> StrictLeaves(doc.tree) && UnicodeLeaves(doc.tree)
  {
    hide Parse;
    hide DocText;
    hide ValidTree;
    hide AllSpace;
    hide Means;
    hide Meaning;
    hide StrictLeaves;
    hide UnicodeLeaves;
    hide IsRfcText;
    doc := TextSound(F, s, room);
    forall d | ValidDoc(d) && DocText(d) == s ensures d == doc { DocsSame(d, doc); }
    forall v ensures Means(F, doc.tree, v) <==> v == Meaning(F, doc.tree) { MeansIs(F, doc.tree, v); }
    RfcTextExactly(doc);
  }

  /** A number token alone, as a whole text. */
  lemma NumberOnly(F: Floats, n: Pieces)
    requires Loose(n) && !Strict(n)
    ensures Parse(F, NumberText(n), MAX_DEPTH).Ok? && !IsRfcText(NumberText(n))
  {
    hide Parse;
    hide NumberText;
    hide PiecesOf;
    hide IsNumberToken;
    hide IsRfcText;
    var doc := Elem("", TNum(NumberText(n)), "");
    LooseScans(n);
    PiecesUnique(n);
    assert DocText(doc) == NumberText(n);
    TextComplete(F, doc, MAX_DEPTH);
    RfcTextExactly(doc);
  }

  /** A string of one raw byte that no RFC 8259 string holds: a control byte, or one that is no character. */
  lemma ByteOnly(F: Floats, c: char)
    requires c != '"' && c != '\\' && (c as int < 0x20 || !WellFormedUtf8([c]))
    ensures Parse(F, ['"', c, '"'], MAX_DEPTH).Ok? && !IsRfcText(['"', c, '"'])
  {
    hide Parse;
    hide IsRfcText;
    hide WellFormedUtf8;
    var items := [Plain(c)];
    var doc := Elem("", TStr(items), "");
    assert items[1..] == [];
    assert ItemsText(items) == [c];
    assert DocText(doc) == ['"', c, '"'];
    assert c as int < 0x20 ==> !NoControl(items) by { assert items[0].Plain?; }
    assert RunLength(items) == 1 && items[..1] == items;
    TextComplete(F, doc, MAX_DEPTH);
    RfcTextExactly(doc);
  }

  lemma LooseNumbersOnly(F: Floats)
    ensures forall s | s in ["+1", "1.", "1e"] :: Parse(F, s, MAX_DEPTH).Ok? && !IsRfcText(s)
  {
    hide Parse;
    hide IsRfcText;
    var plus, point := Pieces("+", "1", None, None), Pieces("", "1", Some(""), None);
    var mark := Pieces("", "1", None, Some(Exponent('e', "", "")));
    assert NumberText(plus) == "+1" && NumberText(point) == "1." && NumberText(mark) == "1e";
    assert Loose(plus) && Loose(point) && Loose(mark);
    assert !Strict(plus) && !Strict(point) && !Strict(mark);
    hide Loose;
    hide Strict;
    hide NumberText;
    NumberOnly(F, plus);
    NumberOnly(F, point);
    NumberOnly(F, mark);
  }

  /** The parser takes more than RFC 8259: a plus sign, a bare point, an empty exponent, a raw newline, a
      byte that is no character. */
  lemma MoreThanRfc(F: Floats)
    ensures forall s | s in ["+1", "1.", "1e", "\"\n\"", ['"', 255 as char, '"']] ::
      Parse(F, s, MAX_DEPTH).Ok? && !IsRfcText(s)
  {
    hide Parse;
    hide IsRfcText;
    LooseNumbersOnly(F);
    ByteOnly(F, '\n');
    assert "\"\n\"" == ['"', '\n', '"'];
    assert !WellFormedUtf8([255 as char]);
    ByteOnly(F, 255 as char);
  }
}
