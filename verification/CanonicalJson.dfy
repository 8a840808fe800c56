/** Canonical JSON text, identity version `ovk.canonical_json.v1` (ovk/core/bundle.py), over
    the JSON grammar of sections 3 to 7 of RFC 8259. */
module CanonicalJson {
  import opened Ordering
  import opened Text

  // ------------------------------------------------------------------- values

  /** Python strings are sequences of code points, surrogates included. */
  type CodePoint = n: int | 0 <= n < 0x110000

  /** A finite float is known by its shortest `repr`. */
  datatype Float = NaN | Infinite(positive: bool) | Finite(repr: string)

  datatype Member = Member(key: seq<CodePoint>, value: JValue)

  /** A JSON-like value. Members of an object are in insertion order. */
  datatype JValue =
    | JNull
    | JBool(b: bool)
    | JInt(i: int)
    | JFloat(f: Float)
    | JString(s: seq<CodePoint>)
    | JArray(items: seq<JValue>)
    | JObject(members: seq<Member>)

  // -------------------------------------------------------- rejecting non-finites

  function RejectNonfinite(v: JValue): Result<()> {
    match v
    case JFloat(f) => if f.Finite? then Ok(()) else Raised
    case JArray(items) => RejectItems(items)
    case JObject(members) => RejectMembers(members)
    case _ => Ok(())
  }

  function RejectItems(items: seq<JValue>): Result<()> {
    if items == [] then Ok(()) else
      var _ :- RejectNonfinite(items[0]);
      RejectItems(items[1..])
  }

  function RejectMembers(members: seq<Member>): Result<()> {
    if members == [] then Ok(()) else
      var _ :- RejectNonfinite(members[0].value);
      RejectMembers(members[1..])
  }

  /** The value found by following positions into arrays and objects. */
  ghost function At(v: JValue, path: seq<nat>): Option<JValue>
    decreases |path|
  {
    if path == [] then Some(v) else
      match v
      case JArray(items) => if path[0] < |items| then At(items[path[0]], path[1..]) else None
      case JObject(members) => if path[0] < |members| then At(members[path[0]].value, path[1..]) else None
      case _ => None
  }

  ghost predicate NonfiniteAt(v: JValue, path: seq<nat>) {
    At(v, path).Some? && At(v, path).value.JFloat? && !At(v, path).value.f.Finite?
  }

  lemma {:induction false} RejectItemsIff(items: seq<JValue>)
    ensures RejectItems(items).Raised? <==> exists i :: 0 <= i < |items| && RejectNonfinite(items[i]).Raised?
    decreases items
  {
    if items != [] { RejectItemsIff(items[1..]); }
  }

  lemma {:induction false} RejectMembersIff(members: seq<Member>)
    ensures RejectMembers(members).Raised?
      <==> exists i :: 0 <= i < |members| && RejectNonfinite(members[i].value).Raised?
    decreases members
  {
    if members != [] { RejectMembersIff(members[1..]); }
  }

  /** Exactly the values with a non-finite number at some depth are rejected. */
  lemma {:induction false} RejectsExactly(v: JValue)
    ensures RejectNonfinite(v).Raised? <==> exists path :: NonfiniteAt(v, path)
  {
    match v
    case JArray(items) =>
      RejectItemsIff(items);
      forall i | 0 <= i < |items| ensures RejectNonfinite(items[i]).Raised? <==> exists p :: NonfiniteAt(items[i], p) {
        RejectsExactly(items[i]);
      }
      if i :| 0 <= i < |items| && RejectNonfinite(items[i]).Raised? {
        var p :| NonfiniteAt(items[i], p);
        assert ([i] + p)[1..] == p;
        assert NonfiniteAt(v, [i] + p);
      }
      if path :| NonfiniteAt(v, path) {
        assert NonfiniteAt(items[path[0]], path[1..]);
      }
    case JObject(members) =>
      RejectMembersIff(members);
      forall i | 0 <= i < |members|
        ensures RejectNonfinite(members[i].value).Raised? <==> exists p :: NonfiniteAt(members[i].value, p) {
        RejectsExactly(members[i].value);
      }
      if i :| 0 <= i < |members| && RejectNonfinite(members[i].value).Raised? {
        var p :| NonfiniteAt(members[i].value, p);
        assert ([i] + p)[1..] == p;
        assert NonfiniteAt(v, [i] + p);
      }
      if path :| NonfiniteAt(v, path) {
        assert NonfiniteAt(members[path[0]].value, path[1..]);
      }
    case JFloat(f) =>
      assert NonfiniteAt(v, []) <==> !f.Finite?;
    case _ =>
  }

  // ----------------------------------------------------------------- encoding

  const HEX := "0123456789abcdef"

  /** `'{0:04x}'.format(n)` */
  function Hex4(n: int): (r: string)
    requires 0 <= n < 0x10000
    ensures |r| == 4
  {
    [HEX[n / 0x1000], HEX[n / 0x100 % 16], HEX[n / 16 % 16], HEX[n % 16]]
  }

  /** The two surrogates of a code point beyond the basic plane. */
  function HighOf(c: CodePoint): int
    requires c >= 0x10000
  {
    0xD800 + (c - 0x10000) / 0x400
  }

  function LowOf(c: CodePoint): int
    requires c >= 0x10000
  {
    0xDC00 + (c - 0x10000) % 0x400
  }

  predicate IsHigh(n: int) { 0xD800 <= n < 0xDC00 }

  predicate IsLow(n: int) { 0xDC00 <= n < 0xE000 }

  /** Everything outside printable ASCII is escaped, as `ensure_ascii` asks. */
  function EscapeUnit(n: int): (r: string)
    requires 0 <= n < 0x10000
    ensures r != ""
  {
    if n == 0x22 then "\\\""
    else if n == 0x5C then "\\\\"
    else if n == 0x0A then "\\n"
    else if n == 0x0D then "\\r"
    else if n == 0x09 then "\\t"
    else if n == 0x0C then "\\f"
    else if n == 0x08 then "\\b"
    else if 0x20 <= n < 0x7F then [n as char]
    else "\\u" + Hex4(n)
  }

  function EscapePoint(c: CodePoint): string {
    if c < 0x10000 then EscapeUnit(c) else "\\u" + Hex4(HighOf(c)) + "\\u" + Hex4(LowOf(c))
  }

  function Escape(s: seq<CodePoint>): string {
    if s == [] then "" else EscapePoint(s[0]) + Escape(s[1..])
  }

  function Digit(d: int): char
    requires 0 <= d < 10
  {
    ('0' as int + d) as char
  }

  function NatText(n: nat): (r: string)
    ensures r != ""
  {
    if n < 10 then [Digit(n)] else NatText(n / 10) + [Digit(n % 10)]
  }

  function IntText(i: int): string {
    if i < 0 then "-" + NatText(-i) else NatText(i)
  }

  function Quote(s: seq<CodePoint>): string {
    "\"" + Escape(s) + "\""
  }

  function Emit(v: JValue): string {
    match v
    case JNull => "null"
    case JBool(b) => if b then "true" else "false"
    case JInt(i) => IntText(i)
    case JFloat(f) => if f.Finite? then f.repr else "NaN"
    case JString(s) => Quote(s)
    case JArray(items) => "[" + EmitItems(items) + "]"
    case JObject(members) => "{" + EmitMembers(members) + "}"
  }

  function EmitItems(items: seq<JValue>): string {
    if items == [] then "" else Emit(items[0]) + if |items| == 1 then "" else "," + EmitItems(items[1..])
  }

  function EmitMember(m: Member): string {
    Quote(m.key) + ":" + Emit(m.value)
  }

  function EmitMembers(members: seq<Member>): string {
    if members == [] then ""
    else EmitMember(members[0]) + if |members| == 1 then "" else "," + EmitMembers(members[1..])
  }

  predicate MemberLe(a: Member, b: Member) { LexLe(a.key, b.key) }

  /** `sort_keys=True`: members in ascending key order at every level. */
  function SortKeys(v: JValue): JValue {
    match v
    case JArray(items) => JArray(SortItems(items))
    case JObject(members) => JObject(SortBy(MemberLe, SortValues(members)))
    case _ => v
  }

  function SortItems(items: seq<JValue>): (r: seq<JValue>)
    ensures |r| == |items|
    ensures forall i :: 0 <= i < |items| ==> r[i] == SortKeys(items[i])
  {
    if items == [] then [] else [SortKeys(items[0])] + SortItems(items[1..])
  }

  function SortValues(members: seq<Member>): (r: seq<Member>)
    ensures |r| == |members|
    ensures forall i :: 0 <= i < |members| ==> r[i] == Member(members[i].key, SortKeys(members[i].value))
  {
    if members == [] then [] else [Member(members[0].key, SortKeys(members[0].value))] + SortValues(members[1..])
  }

  /** `_stable_json` */
  function StableJson(v: JValue): Result<string> {
    var _ :- RejectNonfinite(v);
    Ok(Emit(SortKeys(v)))
  }

  // ----------------------------------------------------------------- decoding

  datatype Parsed<+T> = Fail | Done(value: T, rest: string)

  function HexDigit(c: char): Option<int> {
    if '0' <= c <= '9' then Some(c as int - '0' as int)
    else if 'a' <= c <= 'f' then Some(c as int - 'a' as int + 10)
    else None
  }

  function ParseHex4(t: string): (r: Option<int>)
    requires |t| == 4
    ensures r.Some? ==> 0 <= r.value < 0x10000
  {
    var a, b, c, d := HexDigit(t[0]), HexDigit(t[1]), HexDigit(t[2]), HexDigit(t[3]);
    if a.Some? && b.Some? && c.Some? && d.Some?
      then Some(a.value * 0x1000 + b.value * 0x100 + c.value * 16 + d.value) else None
  }

  /** One character or escape, as a 16-bit unit. */
  function ParseUnit(t: string): (r: Parsed<int>)
    requires t != ""
    ensures r.Done? ==> |r.rest| < |t| && 0 <= r.value < 0x10000
  {
    if t[0] != '\\' then
      (if 0x20 <= t[0] as int < 0x10000 && t[0] != '"' then Done(t[0] as int, t[1..]) else Fail)
    else if |t| < 2 then Fail
    else if t[1] == '"' then Done(0x22, t[2..])
    else if t[1] == '\\' then Done(0x5C, t[2..])
    else if t[1] == '/' then Done(0x2F, t[2..])
    else if t[1] == 'n' then Done(0x0A, t[2..])
    else if t[1] == 'r' then Done(0x0D, t[2..])
    else if t[1] == 't' then Done(0x09, t[2..])
    else if t[1] == 'f' then Done(0x0C, t[2..])
    else if t[1] == 'b' then Done(0x08, t[2..])
    else if t[1] == 'u' && |t| >= 6 && ParseHex4(t[2..6]).Some? then Done(ParseHex4(t[2..6]).value, t[6..])
    else Fail
  }

  /** Units up to the closing quotation mark. */
  function ParseUnits(t: string): (r: Parsed<seq<int>>)
    ensures r.Done? ==> |r.rest| < |t|
    ensures r.Done? ==> forall i :: 0 <= i < |r.value| ==> 0 <= r.value[i] < 0x10000
    decreases |t|
  {
    if t == "" then Fail
    else if t[0] == '"' then Done([], t[1..])
    else
      var first := ParseUnit(t);
      if first.Fail? then Fail else
        var more := ParseUnits(first.rest);
        if more.Fail? then Fail else Done([first.value] + more.value, more.rest)
  }

  /** The code point that a surrogate pair spells. */
  function Joined(high: int, low: int): CodePoint
    requires IsHigh(high) && IsLow(low)
  {
    0x10000 + (high - 0xD800) * 0x400 + (low - 0xDC00)
  }

  /** Joins each high surrogate with a low one that follows it, as JSON decoders do. */
  function Fuse(units: seq<int>): (r: seq<CodePoint>)
    requires forall i :: 0 <= i < |units| ==> 0 <= units[i] < 0x10000
  {
    if units == [] then []
    else if |units| >= 2 && IsHigh(units[0]) && IsLow(units[1]) then
      [Joined(units[0], units[1])] + Fuse(units[2..])
    else [units[0]] + Fuse(units[1..])
  }

  function ParseString(t: string): (r: Parsed<seq<CodePoint>>)
    ensures r.Done? ==> |r.rest| < |t|
  {
    if t == "" || t[0] != '"' then Fail else
      var units := ParseUnits(t[1..]);
      if units.Fail? then Fail else Done(Fuse(units.value), units.rest)
  }

  predicate IsDigit(c: char) { '0' <= c <= '9' }

  predicate IsNumberChar(c: char) { IsDigit(c) || c == '-' || c == '+' || c == '.' || c == 'e' }

  /** The number token at the start of the text, and what follows it. */
  function NumberToken(t: string): (r: (string, string))
    ensures r.0 + r.1 == t
  {
    if t == "" || !IsNumberChar(t[0]) then ("", t) else
      var r := NumberToken(t[1..]);
      ([t[0]] + r.0, r.1)
  }

  function NatValue(t: string): int {
    if t == "" then 0 else NatValue(t[..|t| - 1]) * 10 + (t[|t| - 1] as int - '0' as int)
  }

  /** Digits without a leading zero. */
  predicate IsNatText(t: string) {
    t != "" && (forall i :: 0 <= i < |t| ==> IsDigit(t[i])) && (t[0] == '0' ==> |t| == 1)
  }

  function NumberOf(token: string): Option<JValue> {
    if '.' in token || 'e' in token then Some(JFloat(Finite(token)))
    else if IsNatText(token) then Some(JInt(NatValue(token)))
    else if token != "" && token[0] == '-' && IsNatText(token[1..]) then Some(JInt(-NatValue(token[1..])))
    else None
  }

  function Literal(t: string, word: string, v: JValue): (r: Parsed<JValue>)
    requires word != ""
    ensures r.Done? ==> |r.rest| < |t|
  {
    if word <= t then Done(v, t[|word|..]) else Fail
  }

  function Parse(t: string): (r: Parsed<JValue>)
    ensures r.Done? ==> |r.rest| < |t|
    decreases |t|, 0
  {
    if t == "" then Fail
    else if t[0] == 'n' then Literal(t, "null", JNull)
    else if t[0] == 't' then Literal(t, "true", JBool(true))
    else if t[0] == 'f' then Literal(t, "false", JBool(false))
    else if t[0] == '"' then
      var s := ParseString(t);
      if s.Fail? then Fail else Done(JString(s.value), s.rest)
    else if t[0] == '[' then
      if |t| > 1 && t[1] == ']' then Done(JArray([]), t[2..]) else
        var items := ParseItems(t[1..]);
        if items.Fail? then Fail else Done(JArray(items.value), items.rest)
    else if t[0] == '{' then
      if |t| > 1 && t[1] == '}' then Done(JObject([]), t[2..]) else
        var members := ParseMembers(t[1..]);
        if members.Fail? then Fail else Done(JObject(members.value), members.rest)
    else
      var (token, rest) := NumberToken(t);
      if token == "" || NumberOf(token).None? then Fail else Done(NumberOf(token).value, rest)
  }

  /** A non-empty list of values, up to and including the closing bracket. */
  function ParseItems(t: string): (r: Parsed<seq<JValue>>)
    ensures r.Done? ==> |r.rest| < |t|
    decreases |t|, 1
  {
    var first := Parse(t);
    if first.Fail? || first.rest == "" then Fail
    else if first.rest[0] == ']' then Done([first.value], first.rest[1..])
    else if first.rest[0] == ',' then
      var more := ParseItems(first.rest[1..]);
      if more.Fail? then Fail else Done([first.value] + more.value, more.rest)
    else Fail
  }

  function ParseMember(t: string): (r: Parsed<Member>)
    ensures r.Done? ==> |r.rest| < |t|
    decreases |t|, 1
  {
    var key := ParseString(t);
    if key.Fail? || key.rest == "" || key.rest[0] != ':' then Fail else
      var value := Parse(key.rest[1..]);
      if value.Fail? then Fail else Done(Member(key.value, value.value), value.rest)
  }

  function ParseMembers(t: string): (r: Parsed<seq<Member>>)
    ensures r.Done? ==> |r.rest| < |t|
    decreases |t|, 2
  {
    var first := ParseMember(t);
    if first.Fail? || first.rest == "" then Fail
    else if first.rest[0] == '}' then Done([first.value], first.rest[1..])
    else if first.rest[0] == ',' then
      var more := ParseMembers(first.rest[1..]);
      if more.Fail? then Fail else Done([first.value] + more.value, more.rest)
    else Fail
  }

  // --------------------------------------------------- strings: what is identified

  /** The 16-bit units a string is written with: two for a code point beyond the basic plane. */
  function Units(s: seq<CodePoint>): (r: seq<int>)
    ensures forall i :: 0 <= i < |r| ==> 0 <= r[i] < 0x10000
  {
    if s == [] then [] else (if s[0] < 0x10000 then [s[0]] else [HighOf(s[0]), LowOf(s[0])]) + Units(s[1..])
  }

  lemma HexDigitInverse(d: int)
    requires 0 <= d < 16
    ensures HexDigit(HEX[d]) == Some(d) && HEX[d] != '"' && HEX[d] != '\\'
  {
  }

  lemma HexDigitsSum(n: int)
    requires 0 <= n < 0x10000
    ensures n / 0x1000 * 0x1000 + n / 0x100 % 16 * 0x100 + n / 16 % 16 * 16 + n % 16 == n
  {
    assert n / 16 / 16 == n / 0x100 && n / 0x100 / 16 == n / 0x1000;
  }

  lemma Hex4Inverse(n: int)
    requires 0 <= n < 0x10000
    ensures ParseHex4(Hex4(n)) == Some(n)
  {
    hide HexDigit, HEX;
    HexDigitsSum(n);
    HexDigitInverse(n / 0x1000);
    HexDigitInverse(n / 0x100 % 16);
    HexDigitInverse(n / 16 % 16);
    HexDigitInverse(n % 16);
  }

  lemma HexEscapeInverse(n: int, rest: string)
    requires 0 <= n < 0x10000
    ensures var t := "\\u" + Hex4(n) + rest; t[0] == '\\' && ParseUnit(t) == Done(n, rest)
  {
    hide ParseHex4, Hex4;
    var t := "\\u" + Hex4(n) + rest;
    Hex4Inverse(n);
    assert t[2..6] == Hex4(n);
    assert t[6..] == rest;
  }

  lemma UnitInverse(n: int, rest: string)
    requires 0 <= n < 0x10000
    ensures var t := EscapeUnit(n) + rest; t[0] != '"' && ParseUnit(t) == Done(n, rest)
  {
    hide Hex4;
    var t := EscapeUnit(n) + rest;
    if EscapeUnit(n) == "\\u" + Hex4(n) {
      hide *;
      HexEscapeInverse(n, rest);
      assert t == "\\u" + Hex4(n) + rest;
    } else if |EscapeUnit(n)| == 2 {
      assert t[2..] == rest;
    } else {
      assert t[1..] == rest;
    }
  }

  /** One code point in front of text that is already read back. */
  lemma PointInverse(c: CodePoint, more: string, units: seq<int>, rest: string)
    requires ParseUnits(more) == Done(units, rest)
    ensures ParseUnits(EscapePoint(c) + more)
      == Done((if c < 0x10000 then [c] else [HighOf(c), LowOf(c)]) + units, rest)
  {
    hide ParseUnit, EscapeUnit, Hex4;
    if c < 0x10000 {
      UnitInverse(c, more);
    } else {
      var low := "\\u" + Hex4(LowOf(c)) + more;
      HexEscapeInverse(LowOf(c), more);
      assert ParseUnits(low) == Done([LowOf(c)] + units, rest);
      HexEscapeInverse(HighOf(c), low);
      assert EscapePoint(c) + more == "\\u" + Hex4(HighOf(c)) + low by { hide ParseUnits; }
      assert [HighOf(c)] + ([LowOf(c)] + units) == [HighOf(c), LowOf(c)] + units;
    }
  }

  /** Reading back an escaped string yields its units, whatever follows. */
  lemma {:induction false} EscapeInverse(s: seq<CodePoint>, rest: string)
    ensures ParseUnits(Escape(s) + "\"" + rest) == Done(Units(s), rest)
  {
    hide EscapePoint, ParseUnit;
    if s == [] {
      assert (Escape(s) + "\"" + rest)[1..] == rest;
    } else {
      EscapeInverse(s[1..], rest);
      PointInverse(s[0], Escape(s[1..]) + "\"" + rest, Units(s[1..]), rest);
      assert Escape(s) + "\"" + rest == EscapePoint(s[0]) + (Escape(s[1..]) + "\"" + rest);
    }
  }

  lemma {:induction false} SameUnitsSameEscape(s: seq<CodePoint>, t: seq<CodePoint>)
    requires Units(s) == Units(t)
    ensures Escape(s) == Escape(t)
  {
    EscapeByUnits(s);
    EscapeByUnits(t);
  }

  function EscapeAll(units: seq<int>): string
    requires forall i :: 0 <= i < |units| ==> 0 <= units[i] < 0x10000
  {
    if units == [] then "" else EscapeUnit(units[0]) + EscapeAll(units[1..])
  }

  lemma EscapeBasic(c: CodePoint)
    requires c < 0x10000
    ensures EscapePoint(c) == EscapeUnit(c)
  {
  }

  lemma EscapeAstral(c: CodePoint)
    requires c >= 0x10000
    ensures 0 <= HighOf(c) < 0x10000 && 0 <= LowOf(c) < 0x10000
    ensures EscapePoint(c) == EscapeUnit(HighOf(c)) + EscapeUnit(LowOf(c))
  {
    hide Hex4;
  }

  lemma {:induction false} EscapeByUnits(s: seq<CodePoint>)
    ensures Escape(s) == EscapeAll(Units(s))
  {
    hide EscapeUnit, EscapePoint, HighOf, LowOf;
    if s != [] {
      EscapeByUnits(s[1..]);
      if s[0] < 0x10000 {
        EscapeBasic(s[0]);
        assert Units(s)[1..] == Units(s[1..]);
      } else {
        EscapeAstral(s[0]);
        assert Units(s)[1..][1..] == Units(s[1..]);
      }
    }
  }

  /** Two strings have the same text exactly when they have the same units. */
  lemma QuoteExactly(s: seq<CodePoint>, t: seq<CodePoint>)
    ensures Quote(s) == Quote(t) <==> Units(s) == Units(t)
  {
    hide Units, Escape, ParseUnits;
    EscapeInverse(s, "");
    EscapeInverse(t, "");
    assert Escape(s) + "\"" + "" == Escape(s) + "\"" == Quote(s)[1..];
    assert Escape(t) + "\"" + "" == Escape(t) + "\"" == Quote(t)[1..];
    if Units(s) == Units(t) { SameUnitsSameEscape(s, t); }
  }

  /** No high surrogate stands directly before a low one, as in all well-formed Unicode. */
  predicate PairFree(s: seq<CodePoint>) {
    forall i :: 0 <= i < |s| - 1 ==> !(IsHigh(s[i]) && IsLow(s[i + 1]))
  }

  lemma {:induction false} FuseUnits(s: seq<CodePoint>)
    requires PairFree(s)
    ensures Fuse(Units(s)) == s
  {
    if s != [] {
      FuseUnits(s[1..]);
      assert s == [s[0]] + s[1..];
      if s[0] < 0x10000 {
        assert Units(s)[1..] == Units(s[1..]);
        assert |s| > 1 ==> Units(s)[1] == if s[1] < 0x10000 then s[1] else HighOf(s[1]);
      } else {
        assert Units(s)[2..] == Units(s[1..]);
      }
    }
  }

  /** A split surrogate pair and the code point it spells are different Python strings with
      one text: without the pair-free condition the encoding is ambiguous. */
  lemma SplitPairCollides()
    ensures [0xD83D as CodePoint, 0xDE00] != [0x1F600] && Quote([0xD83D, 0xDE00]) == Quote([0x1F600])
    ensures !PairFree([0xD83D, 0xDE00]) && PairFree([0x1F600])
  {
    var pair: seq<CodePoint> := [0xD83D, 0xDE00];
    var one: seq<CodePoint> := [0x1F600];
    assert |pair| != |one|;
    assert IsHigh(pair[0]) && IsLow(pair[1]);
    assert Units(one) == [0xD83D, 0xDE00] == Units(pair);
    QuoteExactly(pair, one);
  }

  lemma StringInverse(s: seq<CodePoint>, rest: string)
    ensures ParseString(Quote(s) + rest) == Done(Fuse(Units(s)), rest)
  {
    hide Units, Fuse, Escape, ParseUnits;
    EscapeInverse(s, rest);
    assert (Quote(s) + rest)[1..] == Escape(s) + "\"" + rest;
  }

  // -------------------------------------------------------------------- numbers

  predicate IsNumberText(t: string) {
    t != "" && (IsDigit(t[0]) || t[0] == '-') && forall i :: 0 <= i < |t| ==> IsNumberChar(t[i])
  }

  /** Every `repr` of a finite float has a point or an exponent; `inf` and `nan` are not finite. */
  predicate IsFloatRepr(t: string) {
    IsNumberText(t) && ('.' in t || 'e' in t)
  }

  /** What follows cannot be read as part of a number. */
  predicate Delimited(rest: string) {
    rest == "" || !IsNumberChar(rest[0])
  }

  lemma {:induction false} TokenInverse(t: string, rest: string)
    requires Delimited(rest) && forall i :: 0 <= i < |t| ==> IsNumberChar(t[i])
    ensures NumberToken(t + rest) == (t, rest)
  {
    if t == "" {
      assert t + rest == rest;
    } else {
      TokenInverse(t[1..], rest);
      assert (t + rest)[1..] == t[1..] + rest;
      assert [t[0]] + t[1..] == t;
    }
  }

  lemma {:induction false} NatTextInverse(n: nat)
    ensures NatValue(NatText(n)) == n && IsNatText(NatText(n)) && (n > 0 ==> NatText(n)[0] != '0')
  {
    var t := NatText(n);
    if n < 10 {
      assert t[..0] == "";
    } else {
      NatTextInverse(n / 10);
      assert t[..|t| - 1] == NatText(n / 10);
    }
  }

  lemma IntTextInverse(i: int)
    ensures IsNumberText(IntText(i)) && NumberOf(IntText(i)) == Some(JInt(i))
  {
    hide NatText, NatValue;
    var t := IntText(i);
    NatTextInverse(if i < 0 then -i else i);
    if i < 0 { assert t[1..] == NatText(-i); }
    assert forall k :: 0 <= k < |t| ==> t[k] != '.' && t[k] != 'e';
  }

  // --------------------------------------------------------------- round trips

  /** The encoder's domain: every float is finite. */
  predicate Writable(v: JValue) {
    match v
    case JFloat(f) => f.Finite? && IsFloatRepr(f.repr)
    case JArray(items) => forall i :: 0 <= i < |items| ==> Writable(items[i])
    case JObject(members) => forall i :: 0 <= i < |members| ==> Writable(members[i].value)
    case _ => true
  }

  /** What a text says: each string and key with its split surrogate pairs joined. */
  function Fused(v: JValue): JValue {
    match v
    case JString(s) => JString(Fuse(Units(s)))
    case JArray(items) => JArray(FusedItems(items))
    case JObject(members) => JObject(FusedMembers(members))
    case _ => v
  }

  function FusedItems(items: seq<JValue>): (r: seq<JValue>)
    ensures |r| == |items| && forall i :: 0 <= i < |items| ==> r[i] == Fused(items[i])
  {
    if items == [] then [] else [Fused(items[0])] + FusedItems(items[1..])
  }

  function FusedMembers(members: seq<Member>): (r: seq<Member>)
    ensures |r| == |members| && forall i :: 0 <= i < |members| ==> r[i] == FusedMember(members[i])
  {
    if members == [] then [] else [FusedMember(members[0])] + FusedMembers(members[1..])
  }

  function FusedMember(m: Member): Member { Member(Fuse(Units(m.key)), Fused(m.value)) }

  lemma EmitStart(v: JValue)
    requires Writable(v)
    ensures Emit(v) != "" && Emit(v)[0] != ']'
  {
    if v.JInt? { IntTextInverse(v.i); }
  }

  lemma ScalarInverse(v: JValue, rest: string)
    requires Writable(v) && Delimited(rest) && !v.JArray? && !v.JObject?
    ensures Parse(Emit(v) + rest) == Done(Fused(v), rest)
  {
    hide NumberToken, NumberOf, ParseString, Quote;
    var t := Emit(v) + rest;
    match v
    case JNull => assert t[4..] == rest;
    case JBool(b) => assert t[|Emit(v)|..] == rest;
    case JInt(i) =>
      IntTextInverse(i);
      TokenInverse(IntText(i), rest);
    case JFloat(f) =>
      TokenInverse(f.repr, rest);
      assert NumberOf(f.repr) == Some(v) by { FloatInverse(f.repr); }
    case JString(s) =>
      StringInverse(s, rest);
      assert t[0] == '"' by { QuoteStart(s); }
  }

  lemma FloatInverse(t: string)
    requires IsFloatRepr(t)
    ensures NumberOf(t) == Some(JFloat(Finite(t)))
  {
  }

  lemma QuoteStart(s: seq<CodePoint>)
    ensures Quote(s) != "" && Quote(s)[0] == '"'
  {
  }

  /** The decoder reads back what the text of any writable value says, whatever follows. */
  lemma {:induction false} ParseInverse(v: JValue, rest: string)
    requires Writable(v) && Delimited(rest)
    ensures Parse(Emit(v) + rest) == Done(Fused(v), rest)
    decreases v, 0
  {
    hide Parse, Emit;
    match v
    case JArray(items) =>
      if items != [] {
        ItemsInverse(items, rest);
        EmitStart(items[0]);
      }
      ArrayInverse(items, rest);
    case JObject(members) =>
      if members != [] { MembersInverse(members, rest); }
      ObjectInverse(members, rest);
    case _ =>
      ScalarInverse(v, rest);
  }

  lemma ArrayInverse(items: seq<JValue>, rest: string)
    requires items != [] ==> Emit(items[0]) != "" && Emit(items[0])[0] != ']'
    requires items != [] ==> ParseItems(EmitItems(items) + "]" + rest) == Done(FusedItems(items), rest)
    ensures Parse(Emit(JArray(items)) + rest) == Done(Fused(JArray(items)), rest)
  {
    hide ParseItems;
    var t := Emit(JArray(items)) + rest;
    if items == [] {
      assert t[2..] == rest;
    } else {
      assert t[1..] == EmitItems(items) + "]" + rest;
      assert t[1] == Emit(items[0])[0];
    }
  }

  lemma ObjectInverse(members: seq<Member>, rest: string)
    requires members != [] ==> ParseMembers(EmitMembers(members) + "}" + rest) == Done(FusedMembers(members), rest)
    ensures Parse(Emit(JObject(members)) + rest) == Done(Fused(JObject(members)), rest)
  {
    hide ParseMembers;
    var t := Emit(JObject(members)) + rest;
    if members == [] {
      assert t[2..] == rest;
    } else {
      assert t[1..] == EmitMembers(members) + "}" + rest;
      assert t[1] == '"';
    }
  }

  lemma {:induction false} ItemsInverse(items: seq<JValue>, rest: string)
    requires items != [] && forall i :: 0 <= i < |items| ==> Writable(items[i])
    ensures ParseItems(EmitItems(items) + "]" + rest) == Done(FusedItems(items), rest)
    decreases items, 1
  {
    hide Emit, Writable, Parse, Fused;
    var t := EmitItems(items) + "]" + rest;
    if |items| == 1 {
      assert t == Emit(items[0]) + ("]" + rest);
      hide *;
      ParseInverse(items[0], "]" + rest);
      LastItem(t, Fused(items[0]), rest);
      assert [Fused(items[0])] == FusedItems(items);
    } else {
      var more := EmitItems(items[1..]) + "]" + rest;
      assert t == Emit(items[0]) + ("," + more);
      hide *;
      ItemsInverse(items[1..], rest);
      ParseInverse(items[0], "," + more);
      FirstItem(t, Fused(items[0]), more, FusedItems(items[1..]), rest);
      assert [Fused(items[0])] + FusedItems(items[1..]) == FusedItems(items);
    }
  }

  lemma LastItem(t: string, item: JValue, rest: string)
    requires Parse(t) == Done(item, "]" + rest)
    ensures ParseItems(t) == Done([item], rest)
  {
  }

  lemma FirstItem(t: string, item: JValue, more: string, items: seq<JValue>, rest: string)
    requires Parse(t) == Done(item, "," + more) && ParseItems(more) == Done(items, rest)
    ensures ParseItems(t) == Done([item] + items, rest)
  {
  }

  lemma {:induction false} MemberInverse(m: Member, rest: string)
    requires Writable(m.value) && Delimited(rest)
    ensures ParseMember(EmitMember(m) + rest) == Done(FusedMember(m), rest)
    decreases m, 1
  {
    hide Emit, Writable, Quote, Parse, ParseString, Fused, Fuse, Units;
    var after := ":" + Emit(m.value) + rest;
    StringInverse(m.key, after);
    ParseInverse(m.value, rest);
    assert EmitMember(m) + rest == Quote(m.key) + after;
    assert after[1..] == Emit(m.value) + rest;
  }

  lemma {:induction false} MembersInverse(members: seq<Member>, rest: string)
    requires members != []
    requires forall i :: 0 <= i < |members| ==> Writable(members[i].value)
    ensures ParseMembers(EmitMembers(members) + "}" + rest) == Done(FusedMembers(members), rest)
    decreases members, 2
  {
    hide Emit, Writable, EmitMember, ParseMember, Parse;
    var t := EmitMembers(members) + "}" + rest;
    if |members| == 1 {
      assert t == EmitMember(members[0]) + ("}" + rest);
      hide *;
      MemberInverse(members[0], "}" + rest);
      LastMember(t, FusedMember(members[0]), rest);
      FusedMembersFirst(members);
      assert FusedMembers(members) == [FusedMember(members[0])];
    } else {
      var more := EmitMembers(members[1..]) + "}" + rest;
      assert t == EmitMember(members[0]) + ("," + more);
      hide *;
      MembersInverse(members[1..], rest);
      MemberInverse(members[0], "," + more);
      FirstMember(t, FusedMember(members[0]), more, FusedMembers(members[1..]), rest);
      FusedMembersFirst(members);
    }
  }

  lemma FusedMembersFirst(members: seq<Member>)
    requires members != []
    ensures FusedMembers(members) == [FusedMember(members[0])] + FusedMembers(members[1..])
  {
  }

  lemma LastMember(t: string, m: Member, rest: string)
    requires ParseMember(t) == Done(m, "}" + rest)
    ensures ParseMembers(t) == Done([m], rest)
  {
  }

  lemma FirstMember(t: string, m: Member, more: string, members: seq<Member>, rest: string)
    requires ParseMember(t) == Done(m, "," + more) && ParseMembers(more) == Done(members, rest)
    ensures ParseMembers(t) == Done([m] + members, rest)
  {
  }

  // ------------------------------------------------- the normal form, as equality

  ghost predicate UniqueKeys(members: seq<Member>) {
    forall i, j :: 0 <= i < j < |members| ==> members[i].key != members[j].key
  }

  /** Objects are dictionaries: no key twice, at any depth. */
  ghost predicate WellFormed(v: JValue) {
    match v
    case JArray(items) => forall i :: 0 <= i < |items| ==> WellFormed(items[i])
    case JObject(members) => UniqueKeys(members) && forall i :: 0 <= i < |members| ==> WellFormed(members[i].value)
    case _ => true
  }

  /** Equality up to the order of object members. */
  ghost predicate SameJson(a: JValue, b: JValue) {
    match a
    case JArray(x) => b.JArray? && |x| == |b.items| && forall i :: 0 <= i < |x| ==> SameJson(x[i], b.items[i])
    case JObject(x) => b.JObject? && SameMemberSets(x, b.members)
    case _ => a == b
  }

  ghost predicate SameMemberSets(x: seq<Member>, y: seq<Member>) {
    |x| == |y| && forall i :: 0 <= i < |x| ==> exists j :: 0 <= j < |y| && SameMember(x[i], y[j])
  }

  ghost predicate SameMember(m: Member, n: Member) {
    m.key == n.key && SameJson(m.value, n.value)
  }

  lemma MemberOrder()
    ensures TotalPreorder(MemberLe)
    ensures forall a, b :: MemberLe(a, b) && MemberLe(b, a) ==> a.key == b.key
  {
    forall a: seq<int>, b: seq<int> ensures LexLe(a, b) || LexLe(b, a) { LexTotal(a, b); }
    forall a: seq<int>, b: seq<int>, c: seq<int> | LexLe(a, b) && LexLe(b, c)
      ensures LexLe(a, c) { LexTransitive(a, b, c); }
    forall a: seq<int>, b: seq<int> | LexLe(a, b) && LexLe(b, a) ensures a == b { LexAntisymmetric(a, b); }
  }

  /** Members with unique keys never tie. */
  lemma SortedValuesStrict(members: seq<Member>)
    requires UniqueKeys(members)
    ensures Strict(MemberLe, SortValues(members)) && Distinct(SortValues(members))
  {
    hide MemberLe, SortKeys, SortValues;
    MemberOrder();
    var s := SortValues(members);
    assert forall i :: 0 <= i < |s| ==> s[i].key == members[i].key;
    forall a, b | a in s && b in s && MemberLe(a, b) && MemberLe(b, a) ensures a == b {
      var i :| 0 <= i < |s| && s[i] == a;
      var j :| 0 <= j < |s| && s[j] == b;
      assert members[i].key == members[j].key;
    }
    forall i, j | 0 <= i < j < |s| ensures s[i] != s[j] {
      assert members[i].key != members[j].key;
    }
  }

  /** Sorting keys at every level is a normal form for equality up to member order. */
  lemma {:induction false} SortKeysExactly(a: JValue, b: JValue)
    requires WellFormed(a) && WellFormed(b)
    ensures SortKeys(a) == SortKeys(b) <==> SameJson(a, b)
  {
    hide SortItems, SortValues, SortBy, MemberLe;
    match a
    case JArray(x) =>
      if b.JArray? {
        forall i | 0 <= i < |x| && i < |b.items|
          ensures SortKeys(x[i]) == SortKeys(b.items[i]) <==> SameJson(x[i], b.items[i]) {
          SortKeysExactly(x[i], b.items[i]);
        }
        ArraysExactly(x, b.items);
      }
    case JObject(x) =>
      if b.JObject? {
        forall i, j | 0 <= i < |x| && 0 <= j < |b.members|
          ensures SortKeys(x[i].value) == SortKeys(b.members[j].value) <==> SameJson(x[i].value, b.members[j].value)
        {
          SortKeysExactly(x[i].value, b.members[j].value);
        }
        ObjectsExactly(x, b.members);
        hide SameMemberSets, SameMember, WellFormed;
      }
    case _ =>
  }

  lemma ArraysExactly(x: seq<JValue>, y: seq<JValue>)
    requires forall i :: 0 <= i < |x| && i < |y| ==> (SortKeys(x[i]) == SortKeys(y[i]) <==> SameJson(x[i], y[i]))
    ensures SortItems(x) == SortItems(y) <==> |x| == |y| && forall i :: 0 <= i < |x| ==> SameJson(x[i], y[i])
  {
  }

  lemma ObjectsExactly(x: seq<Member>, y: seq<Member>)
    requires UniqueKeys(x) && UniqueKeys(y)
    requires forall i, j :: 0 <= i < |x| && 0 <= j < |y| ==>
      (SortKeys(x[i].value) == SortKeys(y[j].value) <==> SameJson(x[i].value, y[j].value))
    ensures SortBy(MemberLe, SortValues(x)) == SortBy(MemberLe, SortValues(y)) <==> SameMemberSets(x, y)
  {
    hide SortKeys, SameJson, MemberLe, SortBy, SortValues;
    var p, q := SortValues(x), SortValues(y);
    MemberOrder();
    SortedValuesStrict(x);
    SortedValuesStrict(y);
    SortCanonical(MemberLe, p, q);
    if multiset(p) == multiset(q) {
      SameMembers(p, q);
      forall i | 0 <= i < |x| ensures exists j :: 0 <= j < |y| && SameMember(x[i], y[j]) {
        assert p[i] in q;
        var j :| 0 <= j < |q| && q[j] == p[i];
        assert SameMember(x[i], y[j]);
      }
    }
    if SameMemberSets(x, y) {
      forall m | m in p ensures m in q {
        var i :| 0 <= i < |p| && p[i] == m;
        var j :| 0 <= j < |y| && SameMember(x[i], y[j]);
        assert q[j] == m;
      }
      DistinctSubset(p, q);
    }
  }

  lemma {:induction false} SortKeysWritable(v: JValue)
    requires Writable(v)
    ensures Writable(SortKeys(v))
  {
    match v
    case JArray(items) =>
      forall i | 0 <= i < |items| ensures Writable(SortKeys(items[i])) { SortKeysWritable(items[i]); }
    case JObject(members) =>
      forall i | 0 <= i < |members| ensures Writable(SortKeys(members[i].value)) { SortKeysWritable(members[i].value); }
      var s := SortBy(MemberLe, SortValues(members));
      forall i | 0 <= i < |s| ensures Writable(s[i].value) {
        assert s[i] in SortValues(members);
      }
    case _ =>
  }

  lemma WritableIsFinite(v: JValue)
    requires Writable(v)
    ensures RejectNonfinite(v).Ok?
  {
    RejectsExactly(v);
    forall path ensures !NonfiniteAt(v, path) { WritableAt(v, path); }
  }

  lemma {:induction false} WritableAt(v: JValue, path: seq<nat>)
    requires Writable(v)
    ensures At(v, path).Some? ==> Writable(At(v, path).value)
    decreases |path|
  {
    if path != [] {
      match v
      case JArray(items) => if path[0] < |items| { WritableAt(items[path[0]], path[1..]); }
      case JObject(members) => if path[0] < |members| { WritableAt(members[path[0]].value, path[1..]); }
      case _ =>
    }
  }

  // ------------------------------------------------ what a canonical text identifies

  /** Decoding canonical text gives back what it says, its keys sorted. */
  lemma DecodeEncode(v: JValue)
    requires Writable(v)
    ensures StableJson(v).Ok? && Parse(StableJson(v).value) == Done(Fused(SortKeys(v)), "")
  {
    hide Parse, Emit, SortKeys, Fused, Writable;
    WritableIsFinite(v);
    SortKeysWritable(v);
    ParseInverse(SortKeys(v), "");
    assert Emit(SortKeys(v)) + "" == Emit(SortKeys(v));
  }

  lemma {:induction false} UnitsFuse(units: seq<int>)
    requires forall i :: 0 <= i < |units| ==> 0 <= units[i] < 0x10000
    ensures Units(Fuse(units)) == units
  {
    if units != [] {
      hide *;
      if |units| >= 2 && IsHigh(units[0]) && IsLow(units[1]) {
        Surrogates(units[0], units[1]);
        FusePair(units);
        UnitsFuse(units[2..]);
        UnitsFirst(Joined(units[0], units[1]), Fuse(units[2..]));
        assert units == [units[0], units[1]] + units[2..];
      } else {
        FuseSingle(units);
        UnitsFuse(units[1..]);
        UnitsFirst(units[0], Fuse(units[1..]));
        assert units == [units[0]] + units[1..];
      }
    }
  }

  lemma FusePair(units: seq<int>)
    requires forall i :: 0 <= i < |units| ==> 0 <= units[i] < 0x10000
    requires |units| >= 2 && IsHigh(units[0]) && IsLow(units[1])
    ensures Fuse(units) == [Joined(units[0], units[1])] + Fuse(units[2..])
  {
  }

  lemma FuseSingle(units: seq<int>)
    requires forall i :: 0 <= i < |units| ==> 0 <= units[i] < 0x10000
    requires |units| == 1 || (|units| >= 2 && !(IsHigh(units[0]) && IsLow(units[1])))
    ensures Fuse(units) == [units[0]] + Fuse(units[1..])
  {
  }

  /** Splitting a joined pair gives the pair back. */
  lemma Surrogates(high: int, low: int)
    requires IsHigh(high) && IsLow(low)
    ensures var c := Joined(high, low); c >= 0x10000 && HighOf(c) == high && LowOf(c) == low
  {
  }

  lemma UnitsFirst(c: CodePoint, s: seq<CodePoint>)
    ensures Units([c] + s) == (if c < 0x10000 then [c] else [HighOf(c), LowOf(c)]) + Units(s)
  {
    assert ([c] + s)[1..] == s;
  }

  lemma QuoteFused(s: seq<CodePoint>)
    ensures Quote(Fuse(Units(s))) == Quote(s)
  {
    hide Quote, Fuse;
    UnitsFuse(Units(s));
    QuoteExactly(Fuse(Units(s)), s);
  }

  /** The text says all it depends on. */
  lemma {:induction false} EmitFused(v: JValue)
    ensures Emit(Fused(v)) == Emit(v)
    decreases v, 0
  {
    hide Quote, Fuse, Units;
    match v
    case JString(s) => QuoteFused(s);
    case JArray(items) => EmitItemsFused(items);
    case JObject(members) => EmitMembersFused(members);
    case _ =>
  }

  lemma {:induction false} EmitItemsFused(items: seq<JValue>)
    ensures EmitItems(FusedItems(items)) == EmitItems(items)
    decreases items, 1
  {
    hide Emit, Fused;
    if items != [] {
      EmitFused(items[0]);
      EmitItemsFused(items[1..]);
      assert FusedItems(items)[1..] == FusedItems(items[1..]);
    }
  }

  lemma {:induction false} EmitMembersFused(members: seq<Member>)
    ensures EmitMembers(FusedMembers(members)) == EmitMembers(members)
    decreases members, 1
  {
    hide Emit, Fused, Quote, Fuse, Units;
    if members != [] {
      QuoteFused(members[0].key);
      EmitFused(members[0].value);
      EmitMembersFused(members[1..]);
      assert FusedMembers(members)[1..] == FusedMembers(members[1..]);
    }
  }

  /** Canonical JSON, exactly: two values have the same text if and only if they are equal once
      keys are sorted and split surrogate pairs are joined. */
  lemma TextExactly(a: JValue, b: JValue)
    requires Writable(a) && Writable(b)
    ensures StableJson(a).Ok? && StableJson(b).Ok?
    ensures StableJson(a).value == StableJson(b).value <==> Fused(SortKeys(a)) == Fused(SortKeys(b))
  {
    hide Parse, Emit, SortKeys, Fused, Writable;
    DecodeEncode(a);
    DecodeEncode(b);
    EmitFused(SortKeys(a));
    EmitFused(SortKeys(b));
  }

  /** No string and no key in the value holds a split surrogate pair. */
  predicate PairFreeValue(v: JValue) {
    match v
    case JString(s) => PairFree(s)
    case JArray(items) => forall i :: 0 <= i < |items| ==> PairFreeValue(items[i])
    case JObject(members) => forall i :: 0 <= i < |members| ==>
      PairFree(members[i].key) && PairFreeValue(members[i].value)
    case _ => true
  }

  lemma {:induction false} FusedPairFree(v: JValue)
    requires PairFreeValue(v)
    ensures Fused(v) == v
  {
    hide PairFree, Fuse, Units;
    match v
    case JString(s) => FuseUnits(s);
    case JArray(items) =>
      forall i | 0 <= i < |items| ensures Fused(items[i]) == items[i] { FusedPairFree(items[i]); }
      assert FusedItems(items) == items;
    case JObject(members) =>
      forall i | 0 <= i < |members| ensures FusedMembers(members)[i] == members[i] {
        FuseUnits(members[i].key);
        FusedPairFree(members[i].value);
      }
      assert FusedMembers(members) == members;
    case _ =>
  }

  lemma {:induction false} SortKeysPairFree(v: JValue)
    requires PairFreeValue(v)
    ensures PairFreeValue(SortKeys(v))
  {
    hide PairFree, SortBy, SortValues, SortItems, MemberLe;
    match v
    case JArray(items) =>
      forall i | 0 <= i < |items| ensures PairFreeValue(SortItems(items)[i]) { SortKeysPairFree(items[i]); }
    case JObject(members) =>
      forall i | 0 <= i < |members|
        ensures PairFreeValue(SortKeys(members[i].value)) { SortKeysPairFree(members[i].value); }
      SortedPairFree(members);
      assert SortKeys(v) == JObject(SortBy(MemberLe, SortValues(members)));
    case _ =>
  }

  lemma SortedPairFree(members: seq<Member>)
    requires forall i :: 0 <= i < |members| ==> PairFree(members[i].key) && PairFreeValue(SortKeys(members[i].value))
    ensures var s := SortBy(MemberLe, SortValues(members));
      forall i :: 0 <= i < |s| ==> PairFree(s[i].key) && PairFreeValue(s[i].value)
  {
    hide PairFree, SortBy, SortValues, MemberLe, PairFreeValue, SortKeys;
    var t, s := SortValues(members), SortBy(MemberLe, SortValues(members));
    forall i | 0 <= i < |s| ensures PairFree(s[i].key) && PairFreeValue(s[i].value) {
      assert s[i] in s && s[i] in t;
      var j :| 0 <= j < |t| && t[j] == s[i];
    }
  }

  /** On well-formed Unicode canonical JSON is unambiguous: two values have the same text exactly
      when they are equal up to the order of object members. */
  lemma UnicodeTextExactly(a: JValue, b: JValue)
    requires WellFormed(a) && WellFormed(b) && Writable(a) && Writable(b) && PairFreeValue(a) && PairFreeValue(b)
    ensures StableJson(a).Ok? && StableJson(b).Ok?
    ensures StableJson(a).value == StableJson(b).value <==> SameJson(a, b)
  {
    hide StableJson, SortKeys, SameJson, WellFormed, Writable, PairFreeValue, Fused;
    TextExactly(a, b);
    SortKeysPairFree(a);
    SortKeysPairFree(b);
    FusedPairFree(SortKeys(a));
    FusedPairFree(SortKeys(b));
    SortKeysExactly(a, b);
  }
}
