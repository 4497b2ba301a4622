/** Why a text is refused: every reason the parser gives says what stands at the offset it names. */
module JsonFaults {
  import opened Strings
  import opened Unicode
  import opened Json
  import opened JsonParser
  import opened RfcStrings

  predicate EndsAt(s: Bytes, at: nat) { at == |s| }

  /** Neither of the two bytes stands there. */
  predicate NoneOf(s: Bytes, at: nat, c: char, d: char) { at <= |s| && (at < |s| ==> s[at] != c && s[at] != d) }

  /** The two bytes before are a backslash and `c`. */
  predicate AfterEscape(s: Bytes, at: nat, c: char) { 2 <= at <= |s| && s[at - 2] == '\\' && s[at - 1] == c }

  /** A sign and a point at most, and no digit. */
  predicate NoDigits(s: Bytes, at: nat) {
    && at <= |s| && (at < |s| ==> !(0x30 <= s[at] as int <= 0x39))
    && exists i :: 0 <= i <= at && s[i..at] in ["", "-", "+", ".", "-.", "+."]
  }

  /** What must be the case where a text is refused. */
  ghost predicate Fault(s: Bytes, why: string, at: nat) {
    || (why in ["unterminated string", "unexpected end of input"] && EndsAt(s, at))
    || (why == "truncated escape" && EndsAt(s, at) && at > 0 && s[at - 1] == '\\')
    || (why == "truncated \\u escape" && AfterEscape(s, at, 'u') && |s| < at + 4)
    || (why == "bad \\u escape" && AfterEscape(s, at, 'u') && at + 4 <= |s| && !IsNumeral(s[at..at + 4]))
    || (why == "unknown escape" && 2 <= at <= |s| && AfterEscape(s, at, s[at - 1]) && s[at - 1] != 'u'
        && !IsEscape(s[at - 1]))
    || (why == "expected string" && NoneOf(s, at, '"', '"'))
    || (why == "expected ':'" && NoneOf(s, at, ':', ':'))
    || (why == "expected ',' or ']'" && NoneOf(s, at, ',', ']'))
    || (why == "expected ',' or '}'" && NoneOf(s, at, ',', '}'))
    || (why == "expected number" && NoDigits(s, at))
    || (why == "nesting too deep" && at <= |s|)
    || (why == "trailing content" && at < |s| && !IsWs(s[at]))
  }

  lemma EscapeFault(s: Bytes, i: nat)
    requires i + 1 < |s| && s[i] == '\\' && s[i + 1] == 'u'
    ensures var r := UnicodeEscape(s, i + 2); r.Bad? ==> Fault(s, r.why, r.at)
  {
    hide Numeral;
    hide HexValue;
    if i + 6 <= |s| && HexValue(s, i + 2, 4).None? {
      var hex := s[i + 2..i + 2 + 4];
      forall u: nat ensures !Numeral(hex, u) { NumeralReads(s, i + 2, u); }
    }
  }

  lemma LetterFault(s: Bytes, i: nat)
    requires i + 1 < |s| && s[i] == '\\' && s[i + 1] != 'u' && Unescape(s[i + 1]).None?
    ensures Fault(s, "unknown escape", i + 2)
  {
    var e := s[i + 1];
    forall b ensures !StandsFor(e, b) { EscapeStands(e, b); }
  }

  lemma EndFault(s: Bytes)
    ensures Fault(s, "unterminated string", |s|) && Fault(s, "unexpected end of input", |s|)
    ensures s != [] && s[|s| - 1] == '\\' ==> Fault(s, "truncated escape", |s|)
  {
  }

  lemma {:induction false} BodyFault(s: Bytes, i: nat)
    requires i <= |s|
    ensures var r := StringBody(s, i); r.Bad? ==> Fault(s, r.why, r.at)
    decreases |s| - i
  {
    hide Fault;
    hide UnicodeEscape;
    hide Unescape;
    EndFault(s);
    if i < |s| && s[i] != '"' {
      if s[i] != '\\' {
        BodyFault(s, i + 1);
      } else if i + 1 < |s| {
        if s[i + 1] == 'u' {
          EscapeFault(s, i);
          if UnicodeEscape(s, i + 2).Ok? { BodyFault(s, UnicodeEscape(s, i + 2).end); }
        } else if Unescape(s[i + 1]).Some? {
          BodyFault(s, i + 2);
        } else {
          LetterFault(s, i);
        }
      }
    }
  }

  /** A byte that is missing where it is expected. */
  lemma MissingFault(s: Bytes, at: nat)
    requires at <= |s|
    ensures (at < |s| ==> s[at] != '"') ==> Fault(s, "expected string", at)
    ensures (at < |s| ==> s[at] != ':') ==> Fault(s, "expected ':'", at)
    ensures (at < |s| ==> s[at] != ',' && s[at] != ']') ==> Fault(s, "expected ',' or ']'", at)
    ensures (at < |s| ==> s[at] != ',' && s[at] != '}') ==> Fault(s, "expected ',' or '}'", at)
    ensures Fault(s, "nesting too deep", at)
  {
  }

  lemma StringFault(s: Bytes, i: nat)
    requires i <= |s|
    ensures var r := StringAt(s, i); r.Bad? ==> Fault(s, r.why, r.at)
  {
    hide Fault;
    hide StringBody;
    MissingFault(s, i);
    if i < |s| { BodyFault(s, i + 1); }
  }

  lemma SignTaken(s: Bytes, i: nat)
    requires i <= |s|
    ensures s[i..SkipSign(s, i)] in ["", "-", "+"]
  {
    var t := s[i..SkipSign(s, i)];
    if SkipSign(s, i) == i {
      assert t == "";
    } else if s[i] == '-' {
      assert t == "-";
    } else {
      assert t == "+";
    }
  }

  lemma PointTaken(s: Bytes, i: nat, a: nat)
    requires i <= a < |s| && s[i..a] in ["", "-", "+"] && s[a] == '.'
    ensures s[i..a + 1] in [".", "-.", "+."]
  {
    var sign := s[i..a];
    assert s[i..a + 1] == sign + ".";
    if sign == "" {
      assert "" + "." == ".";
    } else if sign == "-" {
      assert "-" + "." == "-.";
    } else {
      assert "+" + "." == "+.";
    }
  }

  lemma DigitsStop(s: Bytes, i: nat)
    requires i <= |s|
    ensures SkipDigits(s, i) == i && i < |s| ==> !(0x30 <= s[i] as int <= 0x39)
  {
  }

  lemma NoDigitsFault(s: Bytes, i: nat, at: nat)
    requires i <= at <= |s| && s[i..at] in ["", "-", "+", ".", "-.", "+."]
    requires at < |s| ==> !(0x30 <= s[at] as int <= 0x39)
    ensures Fault(s, "expected number", at)
  {
  }

  lemma NumberFault(F: Floats, s: Bytes, i: nat)
    requires i <= |s|
    ensures var r := NumberAt(F, s, i); r.Bad? ==> Fault(s, r.why, r.at)
  {
    hide Fault;
    hide SkipDigits;
    hide SkipSign;
    hide ExponentEnd;
    var a := SkipSign(s, i);
    if !ScanNumber(s, i).1 {
      SignTaken(s, i);
      DigitsStop(s, a);
      if a < |s| && s[a] == '.' {
        PointTaken(s, i, a);
        DigitsStop(s, a + 1);
        NoDigitsFault(s, i, a + 1);
      } else {
        NoDigitsFault(s, i, a);
      }
    }
  }

  lemma {:induction false} ValueFault(F: Floats, s: Bytes, i: nat, room: nat)
    requires i <= |s|
    ensures var r := ValueAt(F, s, i, room); r.Bad? ==> Fault(s, r.why, r.at)
    decreases room, |s| - i, 0
  {
    hide Fault;
    hide StringAt;
    hide NumberAt;
    hide ObjectAt;
    hide ArrayAt;
    hide SkipSpace;
    MissingFault(s, i);
    EndFault(s);
    if room > 0 {
      var j := SkipSpace(s, i);
      if j < |s| {
        if s[j] == '{' { ObjectFault(F, s, j + 1, room - 1); }
        else if s[j] == '[' { ArrayFault(F, s, j + 1, room - 1); }
        StringFault(s, j);
        NumberFault(F, s, j);
      }
    }
  }

  lemma {:induction false} ObjectFault(F: Floats, s: Bytes, i: nat, room: nat)
    requires i <= |s|
    ensures var r := ObjectAt(F, s, i, room); r.Bad? ==> Fault(s, r.why, r.at)
    decreases room, |s| - i, 3
  {
    hide Fault;
    hide MembersAt;
    hide SkipSpace;
    MembersFault(F, s, SkipSpace(s, i), room, []);
  }

  lemma {:induction false} ArrayFault(F: Floats, s: Bytes, i: nat, room: nat)
    requires i <= |s|
    ensures var r := ArrayAt(F, s, i, room); r.Bad? ==> Fault(s, r.why, r.at)
    decreases room, |s| - i, 3
  {
    hide Fault;
    hide ElementsAt;
    hide SkipSpace;
    ElementsFault(F, s, SkipSpace(s, i), room, []);
  }

  lemma {:induction false} ElementsFault(F: Floats, s: Bytes, i: nat, room: nat, acc: seq<Value>)
    requires i <= |s|
    ensures var r := ElementsAt(F, s, i, room, acc); r.Bad? ==> Fault(s, r.why, r.at)
    decreases room, |s| - i, 1
  {
    hide Fault;
    hide ValueAt;
    hide SkipSpace;
    ValueFault(F, s, i, room);
    if ValueAt(F, s, i, room).Ok? {
      var j := SkipSpace(s, ValueAt(F, s, i, room).end);
      MissingFault(s, j);
      if j < |s| && s[j] == ',' { ElementsFault(F, s, j + 1, room, acc + [ValueAt(F, s, i, room).value]); }
    }
  }

  lemma {:induction false} MemberFault(F: Floats, s: Bytes, i: nat, room: nat)
    requires i <= |s|
    ensures var r := MemberAt(F, s, i, room); r.Bad? ==> Fault(s, r.why, r.at)
    decreases room, |s| - i, 1
  {
    hide Fault;
    hide ValueAt;
    hide StringAt;
    hide SkipSpace;
    var k := SkipSpace(s, i);
    StringFault(s, k);
    if StringAt(s, k).Ok? {
      var c := SkipSpace(s, StringAt(s, k).end);
      MissingFault(s, c);
      if c < |s| { ValueFault(F, s, c + 1, room); }
    }
  }

  lemma {:induction false} MembersFault(F: Floats, s: Bytes, i: nat, room: nat, acc: seq<Field>)
    requires i <= |s|
    ensures var r := MembersAt(F, s, i, room, acc); r.Bad? ==> Fault(s, r.why, r.at)
    decreases room, |s| - i, 2
  {
    hide Fault;
    hide MemberAt;
    hide SetKey;
    hide SkipSpace;
    MemberFault(F, s, i, room);
    if MemberAt(F, s, i, room).Ok? {
      var f := MemberAt(F, s, i, room).value;
      var j := SkipSpace(s, MemberAt(F, s, i, room).end);
      MissingFault(s, j);
      if j < |s| && s[j] == ',' { MembersFault(F, s, j + 1, room, SetKey(acc, f.key, f.value)); }
    }
  }

  lemma TrailingFault(s: Bytes, e: nat)
    requires e <= |s|
    ensures SkipSpace(s, e) < |s| ==> Fault(s, "trailing content", SkipSpace(s, e))
  {
    SpaceStops(s, e);
  }

  lemma {:induction false} SpaceStops(s: Bytes, e: nat)
    requires e <= |s|
    ensures SkipSpace(s, e) < |s| ==> !IsWs(s[SkipSpace(s, e)])
    decreases |s| - e
  {
    if e < |s| && IsSpace(s[e]) { SpaceStops(s, e + 1); }
  }

  /** A refusal tells the truth about the byte at its offset. */
  lemma ParseFault(F: Floats, s: Bytes, room: nat)
    ensures var r := Parse(F, s, room); r.Bad? ==> Fault(s, r.why, r.at)
  {
    hide Fault;
    hide ValueAt;
    hide SkipSpace;
    ValueFault(F, s, 0, room);
    if ValueAt(F, s, 0, room).Ok? { TrailingFault(s, ValueAt(F, s, 0, room).end); }
  }
}
