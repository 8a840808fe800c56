/** Which of the texts that say a value is the canonical one: the shortest in printable ASCII. */
module CanonicalText {
  import opened Ordering
  import opened Text
  import opened CanonicalJson

  predicate Printable(t: string) {
    forall i :: 0 <= i < |t| ==> 0x20 <= t[i] as int < 0x7F
  }

  /** `text` is at most as long as what was read in front of `rest`, and the same if as long. */
  predicate Fits(text: string, t: string, rest: string) {
    && |rest| <= |t| && t[|t| - |rest|..] == rest
    && |text| <= |t| - |rest|
    && (|text| == |t| - |rest| ==> text == t[..|t| - |rest|])
  }

  /** What fits in two consecutive parts fits in both together. */
  lemma FitsThen(a: string, t: string, middle: string, b: string, rest: string)
    requires Fits(a, t, middle) && Fits(b, middle, rest)
    ensures Fits(a + b, t, rest)
  {
    var n, m := |t| - |middle|, |t| - |rest|;
    assert t[n..][m - n..] == t[m..];
    if |a + b| == m {
      assert t[..m] == t[..n] + t[n..][..m - n];
    }
  }

  lemma FitsChar(t: string)
    requires t != ""
    ensures Fits([t[0]], t, t[1..])
  {
  }

  lemma PrintableRest(text: string, t: string, rest: string)
    requires Fits(text, t, rest) && Printable(t)
    ensures Printable(rest)
  {
    forall i | 0 <= i < |rest| ensures 0x20 <= rest[i] as int < 0x7F {
      assert rest[i] == t[|t| - |rest|..][i];
    }
  }

  // ------------------------------------------------------------------- strings

  lemma HexDigitUnique(c: char)
    requires HexDigit(c).Some?
    ensures 0 <= HexDigit(c).value < 16 && HEX[HexDigit(c).value] == c
  {
  }

  lemma Hex4Unique(t: string)
    requires |t| == 4 && ParseHex4(t).Some?
    ensures Hex4(ParseHex4(t).value) == t
  {
    hide HexDigit, HEX;
    HexDigitUnique(t[0]);
    HexDigitUnique(t[1]);
    HexDigitUnique(t[2]);
    HexDigitUnique(t[3]);
    var a, b, c, d := HexDigit(t[0]).value, HexDigit(t[1]).value, HexDigit(t[2]).value, HexDigit(t[3]).value;
    DigitsOf(a, b, c, d);
    assert t == [t[0], t[1], t[2], t[3]];
  }

  lemma DigitsOf(a: int, b: int, c: int, d: int)
    requires 0 <= a < 16 && 0 <= b < 16 && 0 <= c < 16 && 0 <= d < 16
    ensures var n := a * 0x1000 + b * 0x100 + c * 16 + d;
      n / 0x1000 == a && n / 0x100 % 16 == b && n / 16 % 16 == c && n % 16 == d
  {
    var n := a * 0x1000 + b * 0x100 + c * 16 + d;
    assert n / 16 / 16 == n / 0x100 && n / 0x100 / 16 == n / 0x1000;
    LastDigit(a * 0x100 + b * 16 + c, d);
    LastDigit(a * 16 + b, c);
    LastDigit(a, b);
  }

  lemma LastDigit(q: int, r: int)
    requires 0 <= r < 16
    ensures (q * 16 + r) / 16 == q && (q * 16 + r) % 16 == r
  {
  }

  /** The two-character escapes of the grammar, and what they spell. */
  lemma EscapesRead(rest: string)
    ensures ParseUnit("\\\"" + rest) == Done('"' as int, rest) && ParseUnit("\\\\" + rest) == Done('\\' as int, rest)
    ensures ParseUnit("\\/" + rest) == Done('/' as int, rest)
    ensures ParseUnit("\\n" + rest) == Done('\n' as int, rest) && ParseUnit("\\r" + rest) == Done('\r' as int, rest)
    ensures ParseUnit("\\t" + rest) == Done('\t' as int, rest)
    ensures ParseUnit("\\f" + rest) == Done(0x0C, rest) && ParseUnit("\\b" + rest) == Done(0x08, rest)
  {
    assert ("\\\"" + rest)[2..] == ("\\\\" + rest)[2..] == ("\\/" + rest)[2..] == ("\\n" + rest)[2..] == rest;
    assert ("\\r" + rest)[2..] == ("\\t" + rest)[2..] == ("\\f" + rest)[2..] == ("\\b" + rest)[2..] == rest;
  }

  /** Each unit has one text that is printable, reads back as the unit, and is shortest. */
  lemma ShortestUnit(t: string)
    requires t != "" && Printable(t) && ParseUnit(t).Done?
    ensures Fits(EscapeUnit(ParseUnit(t).value), t, ParseUnit(t).rest)
  {
    hide ParseHex4, Hex4;
    var n := ParseUnit(t).value;
    if t[0] == '\\' && t[1] == 'u' {
      Hex4Unique(t[2..6]);
      if |EscapeUnit(n)| == 6 {
        assert EscapeUnit(n) == "\\u" + Hex4(n) == t[..6];
      }
    } else if t[0] == '\\' {
      assert t[..2] == [t[0], t[1]];
    }
  }

  /** The text of a unit: printable, and read back whole. With ShortestUnit, the only shortest. */
  lemma UnitText(n: int)
    requires 0 <= n < 0x10000
    ensures Printable(EscapeUnit(n)) && ParseUnit(EscapeUnit(n)) == Done(n, "")
    ensures forall t :: t != "" && Printable(t) && ParseUnit(t) == Done(n, "") ==>
      |EscapeUnit(n)| <= |t| && (|t| == |EscapeUnit(n)| ==> t == EscapeUnit(n))
  {
    hide EscapeUnit, ParseUnit, Printable;
    UnitInverse(n, "");
    assert EscapeUnit(n) + "" == EscapeUnit(n);
    UnitPrintable(n);
    forall t | t != "" && Printable(t) && ParseUnit(t) == Done(n, "")
      ensures |EscapeUnit(n)| <= |t| && (|t| == |EscapeUnit(n)| ==> t == EscapeUnit(n)) {
      ShortestUnit(t);
      assert t[..|t|] == t;
    }
  }

  lemma UnitPrintable(n: int)
    requires 0 <= n < 0x10000
    ensures Printable(EscapeUnit(n))
  {
    hide Hex4;
    HexPrintable(n);
  }

  lemma HexPrintable(n: int)
    requires 0 <= n < 0x10000
    ensures Printable(Hex4(n))
  {
    hide HEX;
    HexCharPrintable(n / 0x1000);
    HexCharPrintable(n / 0x100 % 16);
    HexCharPrintable(n / 16 % 16);
    HexCharPrintable(n % 16);
  }

  lemma HexCharPrintable(d: int)
    requires 0 <= d < 16
    ensures 0x20 <= HEX[d] as int < 0x7F
  {
  }

  lemma {:induction false} ShortestUnits(t: string)
    requires Printable(t) && ParseUnits(t).Done?
    ensures Fits(EscapeAll(ParseUnits(t).value) + "\"", t, ParseUnits(t).rest)
    decreases |t|
  {
    hide ParseUnit, EscapeUnit, Fits, Printable;
    if t[0] == '"' {
      FitsChar(t);
      assert EscapeAll([]) + "\"" == [t[0]];
    } else {
      var first := ParseUnit(t);
      var more := ParseUnits(first.rest);
      ShortestUnit(t);
      PrintableRest(EscapeUnit(first.value), t, first.rest);
      ShortestUnits(first.rest);
      FitsThen(EscapeUnit(first.value), t, first.rest, EscapeAll(more.value) + "\"", more.rest);
      assert ([first.value] + more.value)[1..] == more.value;
      assert EscapeAll([first.value] + more.value) + "\""
          == EscapeUnit(first.value) + (EscapeAll(more.value) + "\"");
    }
  }

  lemma ShortestString(t: string)
    requires Printable(t) && ParseString(t).Done?
    ensures Fits(Quote(ParseString(t).value), t, ParseString(t).rest)
  {
    hide ParseUnits, Fuse, Units, Escape, EscapeAll, Fits, Printable;
    var units := ParseUnits(t[1..]).value;
    var s := Fuse(units);
    FitsChar(t);
    PrintableRest([t[0]], t, t[1..]);
    ShortestUnits(t[1..]);
    UnitsFuse(units);
    EscapeByUnits(s);
    FitsThen([t[0]], t, t[1..], EscapeAll(units) + "\"", ParseString(t).rest);
    assert Quote(s) == [t[0]] + (EscapeAll(units) + "\"");
  }

  // ------------------------------------------------------------------- numbers

  lemma {:induction false} NatTextUnique(t: string)
    requires IsNatText(t)
    ensures NatValue(t) >= 0 && NatText(NatValue(t)) == t
    ensures NatValue(t) == 0 ==> t == "0"
  {
    var n := |t| - 1;
    if n > 0 {
      FrontIsNat(t);
      hide *;
      NatTextUnique(t[..n]);
      AppendDigit(t[..n], t[n]);
      assert t == t[..n] + [t[n]];
      assert t[..n][0] == t[0];
      assert "0"[0] == '0';
    } else {
      assert t[..0] == "" && t == [t[0]];
    }
  }

  lemma FrontIsNat(t: string)
    requires IsNatText(t) && |t| > 1
    ensures IsNatText(t[..|t| - 1]) && IsDigit(t[|t| - 1]) && t[0] != '0'
  {
    assert forall i :: 0 <= i < |t| - 1 ==> t[..|t| - 1][i] == t[i];
  }

  /** One more digit behind a positive number. */
  lemma AppendDigit(front: string, c: char)
    requires IsDigit(c)
    ensures var w, v := NatValue(front), NatValue(front + [c]);
      w > 0 ==> v > 0 && NatText(v) == NatText(w) + [c]
  {
    assert (front + [c])[..|front|] == front;
    TenTimes(NatValue(front), c as int - '0' as int);
    hide NatValue;
  }

  lemma TenTimes(w: int, d: int)
    requires 0 <= d < 10
    ensures (w * 10 + d) / 10 == w && (w * 10 + d) % 10 == d
  {
  }

  lemma ShortestNumber(token: string)
    requires token != "" && NumberOf(token).Some?
    ensures |Emit(NumberOf(token).value)| <= |token|
    ensures |Emit(NumberOf(token).value)| == |token| ==> Emit(NumberOf(token).value) == token
  {
    hide NatText, NatValue;
    if !('.' in token || 'e' in token) {
      if IsNatText(token) {
        NatTextUnique(token);
      } else {
        NatTextUnique(token[1..]);
        assert token == ['-'] + token[1..];
      }
    }
  }

  lemma {:induction false} TokenSplits(t: string)
    ensures t == NumberToken(t).0 + NumberToken(t).1
  {
  }

  lemma ShortestToken(t: string)
    requires var (token, rest) := NumberToken(t); token != "" && NumberOf(token).Some?
    ensures var (token, rest) := NumberToken(t); Fits(Emit(NumberOf(token).value), t, rest)
  {
    hide Emit, NumberOf, NumberToken;
    var (token, rest) := NumberToken(t);
    ShortestNumber(token);
    TokenSplits(t);
  }

  // -------------------------------------------------------------------- values

  lemma ShortestLiteral(t: string, word: string, v: JValue)
    requires word != "" && Literal(t, word, v).Done? && Emit(v) == word
    ensures Fits(Emit(Literal(t, word, v).value), t, Literal(t, word, v).rest)
  {
  }

  /** Whatever printable text is read as a value, the emitted text of the value is not longer. */
  lemma {:induction false} Shortest(t: string)
    requires Printable(t) && Parse(t).Done?
    ensures Fits(Emit(Parse(t).value), t, Parse(t).rest)
    decreases |t|, 0
  {
    hide ParseItems, ParseMembers, ParseString, NumberOf, NumberToken, Quote, EmitItems, EmitMembers, Fits, Printable;
    hide Literal;
    if t[0] == 'n' {
      ShortestLiteral(t, "null", JNull);
    } else if t[0] == 't' {
      ShortestLiteral(t, "true", JBool(true));
    } else if t[0] == 'f' {
      ShortestLiteral(t, "false", JBool(false));
    } else if t[0] == '"' {
      ShortestString(t);
    } else if t[0] == '[' {
      FitsChar(t);
      PrintableRest([t[0]], t, t[1..]);
      if |t| > 1 && t[1] == ']' {
        EmptyBrackets(t);
      } else {
        ShortestItems(t[1..]);
        FitsThen([t[0]], t, t[1..], EmitItems(ParseItems(t[1..]).value) + "]", Parse(t).rest);
        assert Emit(Parse(t).value) == [t[0]] + (EmitItems(ParseItems(t[1..]).value) + "]");
      }
    } else if t[0] == '{' {
      FitsChar(t);
      PrintableRest([t[0]], t, t[1..]);
      if |t| > 1 && t[1] == '}' {
        EmptyBrackets(t);
      } else {
        ShortestMembers(t[1..]);
        FitsThen([t[0]], t, t[1..], EmitMembers(ParseMembers(t[1..]).value) + "}", Parse(t).rest);
        assert Emit(Parse(t).value) == [t[0]] + (EmitMembers(ParseMembers(t[1..]).value) + "}");
      }
    } else {
      ShortestToken(t);
    }
  }

  lemma EmptyBrackets(t: string)
    requires |t| > 1 && ((t[0] == '[' && t[1] == ']') || (t[0] == '{' && t[1] == '}'))
    ensures Fits(Emit(Parse(t).value), t, Parse(t).rest)
  {
    hide Fits, Emit, ParseItems, ParseMembers;
    FitsChar(t);
    FitsChar(t[1..]);
    assert t[1..][1..] == t[2..];
    FitsThen([t[0]], t, t[1..], [t[1]], t[2..]);
    EmptyTexts();
    assert [t[0]] + [t[1]] == if t[0] == '[' then "[]" else "{}";
  }

  lemma EmptyTexts()
    ensures Emit(JArray([])) == "[]" && Emit(JObject([])) == "{}"
  {
  }

  lemma {:induction false} ShortestItems(t: string)
    requires Printable(t) && ParseItems(t).Done?
    ensures Fits(EmitItems(ParseItems(t).value) + "]", t, ParseItems(t).rest)
    decreases |t|, 1
  {
    hide Parse, Emit, Fits, Printable;
    var first := Parse(t);
    var text := Emit(first.value);
    Shortest(t);
    PrintableRest(text, t, first.rest);
    FitsChar(first.rest);
    if first.rest[0] == ']' {
      FitsThen(text, t, first.rest, "]", first.rest[1..]);
      assert EmitItems([first.value]) + "]" == text + "]";
    } else {
      var after := first.rest[1..];
      var more := ParseItems(after);
      PrintableRest(",", first.rest, after);
      ShortestItems(after);
      FitsThen(",", first.rest, after, EmitItems(more.value) + "]", more.rest);
      FitsThen(text, t, first.rest, "," + (EmitItems(more.value) + "]"), more.rest);
      assert ([first.value] + more.value)[1..] == more.value;
      assert more.value != [];
      assert EmitItems([first.value] + more.value) + "]" == text + ("," + (EmitItems(more.value) + "]"));
    }
  }

  lemma {:induction false} ShortestMember(t: string)
    requires Printable(t) && ParseMember(t).Done?
    ensures Fits(EmitMember(ParseMember(t).value), t, ParseMember(t).rest)
    decreases |t|, 1
  {
    hide Parse, ParseString, Emit, Quote, Fits, Printable;
    var key := ParseString(t);
    var after := key.rest[1..];
    var value := Parse(after);
    ShortestString(t);
    PrintableRest(Quote(key.value), t, key.rest);
    FitsChar(key.rest);
    PrintableRest(":", key.rest, after);
    Shortest(after);
    FitsThen(":", key.rest, after, Emit(value.value), value.rest);
    FitsThen(Quote(key.value), t, key.rest, ":" + Emit(value.value), value.rest);
    assert EmitMember(ParseMember(t).value) == Quote(key.value) + (":" + Emit(value.value));
  }

  lemma {:induction false} ShortestMembers(t: string)
    requires Printable(t) && ParseMembers(t).Done?
    ensures Fits(EmitMembers(ParseMembers(t).value) + "}", t, ParseMembers(t).rest)
    decreases |t|, 2
  {
    hide ParseMember, EmitMember, Fits, Printable;
    var first := ParseMember(t);
    var text := EmitMember(first.value);
    ShortestMember(t);
    PrintableRest(text, t, first.rest);
    FitsChar(first.rest);
    if first.rest[0] == '}' {
      FitsThen(text, t, first.rest, "}", first.rest[1..]);
      assert EmitMembers([first.value]) + "}" == text + "}";
    } else {
      var after := first.rest[1..];
      var more := ParseMembers(after);
      PrintableRest(",", first.rest, after);
      ShortestMembers(after);
      FitsThen(",", first.rest, after, EmitMembers(more.value) + "}", more.rest);
      FitsThen(text, t, first.rest, "," + (EmitMembers(more.value) + "}"), more.rest);
      assert ([first.value] + more.value)[1..] == more.value;
      assert more.value != [];
      assert EmitMembers([first.value] + more.value) + "}" == text + ("," + (EmitMembers(more.value) + "}"));
    }
  }

  // ------------------------------------------------------------- canonical texts

  lemma {:induction false} EscapePrintable(units: seq<int>)
    requires forall i :: 0 <= i < |units| ==> 0 <= units[i] < 0x10000
    ensures Printable(EscapeAll(units))
  {
    hide EscapeUnit, ParseUnit;
    if units != [] {
      UnitText(units[0]);
      EscapePrintable(units[1..]);
    }
  }

  lemma QuotePrintable(s: seq<CodePoint>)
    ensures Printable(Quote(s))
  {
    hide Escape, EscapeAll, Units;
    EscapeByUnits(s);
    EscapePrintable(Units(s));
  }

  lemma {:induction false} EmitPrintable(v: JValue)
    requires Writable(v)
    ensures Printable(Emit(v))
    decreases v, 0
  {
    hide Quote, IntText, EmitItems, EmitMembers;
    match v
    case JString(s) => QuotePrintable(s);
    case JArray(items) =>
      ItemsPrintable(items);
      Between("[", EmitItems(items), "]");
    case JObject(members) =>
      MembersPrintable(members);
      Between("{", EmitMembers(members), "}");
    case JInt(i) => IntTextInverse(i);
    case _ =>
  }

  lemma Between(a: string, b: string, c: string)
    requires Printable(a) && Printable(b) && Printable(c)
    ensures Printable(a + b + c)
  {
  }

  lemma {:induction false} ItemsPrintable(items: seq<JValue>)
    requires forall i :: 0 <= i < |items| ==> Writable(items[i])
    ensures Printable(EmitItems(items))
    decreases items, 1
  {
    hide Emit, Writable;
    if items != [] {
      EmitPrintable(items[0]);
      ItemsPrintable(items[1..]);
      Between(Emit(items[0]), ",", EmitItems(items[1..]));
    }
  }

  lemma {:induction false} MembersPrintable(members: seq<Member>)
    requires forall i :: 0 <= i < |members| ==> Writable(members[i].value)
    ensures Printable(EmitMembers(members))
    decreases members, 1
  {
    hide Emit, Quote, Writable;
    if members != [] {
      QuotePrintable(members[0].key);
      EmitPrintable(members[0].value);
      Between(Quote(members[0].key), ":", Emit(members[0].value));
      MembersPrintable(members[1..]);
      Between(EmitMember(members[0]), ",", EmitMembers(members[1..]));
    }
  }

  /** The canonical text, exactly: printable ASCII that says the value, and of all printable texts
      that say it the one shortest. */
  lemma CanonicalIsShortest(v: JValue, t: string)
    requires Writable(v) && Printable(t) && Parse(t) == Done(Fused(SortKeys(v)), "")
    ensures StableJson(v).Ok? && Printable(StableJson(v).value)
    ensures |StableJson(v).value| <= |t| && (|t| == |StableJson(v).value| ==> t == StableJson(v).value)
  {
    hide Parse, Emit, SortKeys, Fused, Writable, Printable;
    DecodeEncode(v);
    SortKeysWritable(v);
    EmitPrintable(SortKeys(v));
    EmitFused(SortKeys(v));
    Shortest(t);
    assert t[..|t|] == t;
  }

  /** Members stand in ascending order of their keys, code point by code point. */
  lemma KeysAscend(members: seq<Member>, i: nat, j: nat)
    requires i < j < |members|
    ensures var sorted := SortKeys(JObject(members)).members;
      && |sorted| == |members|
      && var a, b := sorted[i].key, sorted[j].key;
      exists k | 0 <= k <= |a| && k <= |b| :: a[..k] == b[..k] && (k == |a| || (k < |b| && a[k] < b[k]))
  {
    hide LexLe;
    var sorted := SortKeys(JObject(members)).members;
    MembersInOrder(members);
    assert LexLe(sorted[i].key, sorted[j].key);
    LexExactly(sorted[i].key, sorted[j].key);
  }

  lemma MembersInOrder(members: seq<Member>)
    ensures Sorted(MemberLe, SortKeys(JObject(members)).members)
  {
    hide LexLe, SortValues;
    MemberOrder();
    SortBySorted(MemberLe, SortValues(members));
  }
}
