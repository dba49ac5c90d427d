/** The JSON the product reads and writes (RFC 8259), as serde_json prints it with its pretty
    formatter and parses it back.

    Only the values the product's documents can hold are represented: `null`, non-negative
    integers, strings, arrays and objects. Any other token makes the parser fail; every document
    type of the product rejects such a value in every position.
 */
module Json {
  import opened Basics
  import Decimal
  import opened Hex

  datatype Json =
    | JNull
    | JNum(n: nat)
    | JStr(s: string)
    | JArr(items: seq<Json>)
    | JObj(members: seq<Member>)

  datatype Member = Member(key: string, value: Json)

  // ---- Printing ------------------------------------------------------------------------

  /** One character of a string literal, escaped where section 7 of RFC 8259 demands it. */
  function EscapeChar(c: char): string {
    if c == '"' then "\\\""
    else if c == '\\' then "\\\\"
    else if c as int == 8 then "\\b"
    else if c as int == 9 then "\\t"
    else if c as int == 10 then "\\n"
    else if c as int == 12 then "\\f"
    else if c as int == 13 then "\\r"
    else if c as int < 0x20 then "\\u00" + [HexDigit(c as int / 16), HexDigit(c as int % 16)]
    else [c]
  }

  function EscapeAll(s: string): string {
    if s == "" then "" else EscapeChar(s[0]) + EscapeAll(s[1..])
  }

  function Quote(s: string): string {
    "\"" + EscapeAll(s) + "\""
  }

  function Indent(depth: nat): (s: string)
    ensures AllSpace(s)
  {
    if depth == 0 then "" else "  " + Indent(depth - 1)
  }

  /** `serde_json::to_vec_pretty` of a value nested `depth` levels deep. */
  function Print(j: Json, depth: nat): string
    decreases j, 1
  {
    match j
    case JNull => "null"
    case JNum(n) => Decimal.Print(n)
    case JStr(s) => Quote(s)
    case JArr(items) =>
      if items == [] then "[]"
      else "[\n" + PrintItems(items, depth + 1) + ("\n" + Indent(depth) + "]")
    case JObj(members) =>
      if members == [] then "{}"
      else "{\n" + PrintMembers(members, depth + 1) + ("\n" + Indent(depth) + "}")
  }

  function PrintItems(items: seq<Json>, depth: nat): string
    requires items != []
    decreases items, 0
  {
    Indent(depth) + Print(items[0], depth)
    + if |items| == 1 then "" else ",\n" + PrintItems(items[1..], depth)
  }

  function PrintMembers(members: seq<Member>, depth: nat): string
    requires members != []
    decreases members, 0
  {
    Indent(depth) + (Quote(members[0].key) + ": " + Print(members[0].value, depth))
    + if |members| == 1 then "" else ",\n" + PrintMembers(members[1..], depth)
  }

  /** A whole document, as the product writes it: pretty-printed with a final newline. */
  function Document(j: Json): string {
    Print(j, 0) + "\n"
  }

  // ---- Parsing -------------------------------------------------------------------------

  predicate IsSpace(c: char) {
    c == ' ' || c == '\n' || c == '\t' || c == '\r'
  }

  predicate AllSpace(s: string) {
    forall i :: 0 <= i < |s| ==> IsSpace(s[i])
  }

  function SkipSpace(s: string): (r: string)
    ensures |r| <= |s|
    ensures r == "" || !IsSpace(r[0])
  {
    if s != "" && IsSpace(s[0]) then SkipSpace(s[1..]) else s
  }

  /** Four hexadecimal digits. */
  function Hex4(s: string): (r: Option<nat>)
    ensures r.Some? ==> |s| >= 4 && r.value < 0x1_0000
  {
    if |s| < 4 then None
    else
      var a :- HexValue(s[0]);
      var b :- HexValue(s[1]);
      var c :- HexValue(s[2]);
      var d :- HexValue(s[3]);
      Some(((a * 16 + b) * 16 + c) * 16 + d)
  }

  /** The UTF-8 bytes of a code point. */
  function Utf8(cp: nat): string
    requires cp < 0x11_0000
  {
    if cp < 0x80 then [cp as char]
    else if cp < 0x800 then [(0xC0 + cp / 0x40) as char, (0x80 + cp % 0x40) as char]
    else if cp < 0x1_0000 then
      [(0xE0 + cp / 0x1000) as char, (0x80 + cp / 0x40 % 0x40) as char, (0x80 + cp % 0x40) as char]
    else
      [(0xF0 + cp / 0x4_0000) as char, (0x80 + cp / 0x1000 % 0x40) as char,
       (0x80 + cp / 0x40 % 0x40) as char, (0x80 + cp % 0x40) as char]
  }

  /** The part of an escape sequence after its backslash: what it stands for, and the rest. */
  function Unescape(s: string): (r: Option<(string, string)>)
    ensures r.Some? ==> |r.value.1| < |s|
  {
    if s == "" then None
    else if s[0] == '"' || s[0] == '\\' || s[0] == '/' then Some(([s[0]], s[1..]))
    else if s[0] == 'b' then Some(([8 as char], s[1..]))
    else if s[0] == 't' then Some(([9 as char], s[1..]))
    else if s[0] == 'n' then Some(([10 as char], s[1..]))
    else if s[0] == 'f' then Some(([12 as char], s[1..]))
    else if s[0] == 'r' then Some(([13 as char], s[1..]))
    else if s[0] == 'u' then
      var unit :- Hex4(s[1..]);
      if 0xD800 <= unit < 0xDC00 then
        if |s| < 7 || s[5..7] != "\\u" then None
        else
          var low :- Hex4(s[7..]);
          if 0xDC00 <= low < 0xE000 then
            Some((Utf8(0x1_0000 + (unit - 0xD800) * 0x400 + (low - 0xDC00)), s[11..]))
          else None
      else if 0xDC00 <= unit < 0xE000 then None
      else Some((Utf8(unit), s[5..]))
    else None
  }

  /** A string literal after its opening quote. */
  function StringRest(s: string): (r: Option<(string, string)>)
    ensures r.Some? ==> |r.value.1| < |s|
    decreases |s|
  {
    if s == "" then None
    else if s[0] == '"' then Some(("", s[1..]))
    else if s[0] == '\\' then
      var (piece, rest) :- Unescape(s[1..]);
      var (tail, after) :- StringRest(rest);
      Some((piece + tail, after))
    else if s[0] as int < 0x20 then None
    else
      var (tail, after) :- StringRest(s[1..]);
      Some(([s[0]] + tail, after))
  }

  function DigitCount(s: string): (n: nat)
    ensures n <= |s| && Decimal.AllDigits(s[..n])
    ensures n < |s| ==> !Decimal.IsDigit(s[n])
  {
    if s != "" && Decimal.IsDigit(s[0]) then
      var n := 1 + DigitCount(s[1..]);
      assert s[..n] == [s[0]] + s[1..][..n - 1];
      n
    else 0
  }

  /** A non-negative integer: no leading zero, no fraction and no exponent. */
  function Number(s: string): (r: Option<(Json, string)>)
    requires s != "" && Decimal.IsDigit(s[0])
    ensures r.Some? ==> |r.value.1| < |s|
  {
    var n := DigitCount(s);
    if n > 1 && s[0] == '0' then None
    else if n < |s| && (s[n] == '.' || s[n] == 'e' || s[n] == 'E') then None
    else Some((JNum(Decimal.Value(s[..n])), s[n..]))
  }

  function Value(s: string): (r: Option<(Json, string)>)
    ensures r.Some? ==> |r.value.1| < |s|
    decreases |s|, 1
  {
    Token(SkipSpace(s))
  }

  function Token(s: string): (r: Option<(Json, string)>)
    ensures r.Some? ==> |r.value.1| < |s|
    decreases |s|, 0
  {
    if s == "" then None
    else if s[0] == '"' then
      var (text, rest) :- StringRest(s[1..]);
      Some((JStr(text), rest))
    else if Decimal.IsDigit(s[0]) then Number(s)
    else if |s| >= 4 && s[..4] == "null" then Some((JNull, s[4..]))
    else if s[0] == '[' then
      var t := SkipSpace(s[1..]);
      if t != "" && t[0] == ']' then Some((JArr([]), t[1..]))
      else
        var (items, rest) :- Items(s[1..]);
        Some((JArr(items), rest))
    else if s[0] == '{' then
      var t := SkipSpace(s[1..]);
      if t != "" && t[0] == '}' then Some((JObj([]), t[1..]))
      else
        var (members, rest) :- Members(s[1..]);
        Some((JObj(members), rest))
    else None
  }

  /** One or more array elements up to the closing bracket. */
  function Items(s: string): (r: Option<(seq<Json>, string)>)
    ensures r.Some? ==> |r.value.1| < |s|
    decreases |s|, 2
  {
    var (item, rest) :- Value(s);
    var t := SkipSpace(rest);
    if t == "" then None
    else if t[0] == ']' then Some(([item], t[1..]))
    else if t[0] == ',' then
      var (items, after) :- Items(t[1..]);
      Some(([item] + items, after))
    else None
  }

  /** One object member: a key, a colon and a value. */
  function Entry(s: string): (r: Option<(Member, string)>)
    ensures r.Some? ==> |r.value.1| < |s|
    decreases |s|, 2
  {
    var q := SkipSpace(s);
    if q == "" || q[0] != '"' then None
    else
      var (key, colon) :- StringRest(q[1..]);
      var c := SkipSpace(colon);
      if c == "" || c[0] != ':' then None
      else
        var (value, rest) :- Value(c[1..]);
        Some((Member(key, value), rest))
  }

  /** One or more object members up to the closing brace. */
  function Members(s: string): (r: Option<(seq<Member>, string)>)
    ensures r.Some? ==> |r.value.1| < |s|
    decreases |s|, 3
  {
    var (member, rest) :- Entry(s);
    var t := SkipSpace(rest);
    if t == "" then None
    else if t[0] == '}' then Some(([member], t[1..]))
    else if t[0] == ',' then
      var (members, after) :- Members(t[1..]);
      Some(([member] + members, after))
    else None
  }

  /** A whole document: one value with nothing but white space around it. */
  function ParseDocument(s: string): Option<Json> {
    var (j, rest) :- Value(s);
    if SkipSpace(rest) == "" then Some(j) else None
  }

  // ---- Parsing undoes printing -----------------------------------------------------------

  lemma {:induction false} SkipSpacePrefix(ws: string, s: string)
    requires AllSpace(ws)
    ensures SkipSpace(ws + s) == SkipSpace(s)
  {
    if ws == "" {
      assert ws + s == s;
    } else {
      assert (ws + s)[1..] == ws[1..] + s;
      SkipSpacePrefix(ws[1..], s);
    }
  }

  lemma UnescapeControl(c: char, rest: string)
    requires c as int < 0x20
    ensures Unescape("u00" + [HexDigit(c as int / 16), HexDigit(c as int % 16)] + rest) == Some(([c], rest))
  {
    var e := "u00" + [HexDigit(c as int / 16), HexDigit(c as int % 16)] + rest;
    var h := e[1..];
    assert h[0] == '0' && h[1] == '0';
    assert HexValue(h[2]) == Some(c as int / 16);
    assert HexValue(h[3]) == Some(c as int % 16);
    assert Hex4(h) == Some(c as int);
    assert e[5..] == rest;
  }

  lemma UnescapeShort(e: char, c: char, rest: string)
    requires e != 'u' && Unescape([e]) == Some(([c], ""))
    ensures Unescape([e] + rest) == Some(([c], rest))
  {
    assert ([e] + rest)[1..] == rest;
  }

  /** The escape sequence of a character stands for that character. */
  lemma UnescapeEscapeChar(c: char, rest: string)
    requires EscapeChar(c) != [c]
    ensures |EscapeChar(c)| > 1 && EscapeChar(c)[0] == '\\'
    ensures Unescape(EscapeChar(c)[1..] + rest) == Some(([c], rest))
  {
    var e := EscapeChar(c);
    if |e| == 2 {
      assert e[1..] == [e[1]];
      UnescapeShort(e[1], c, rest);
    } else {
      assert e[1..] == "u00" + [HexDigit(c as int / 16), HexDigit(c as int % 16)];
      UnescapeControl(c, rest);
    }
  }

  lemma Assoc(a: string, b: string, c: string)
    ensures (a + b) + c == a + (b + c)
  {
  }

  lemma StringStep(c: char, t: string, tail: string, after: string)
    requires StringRest(t) == Some((tail, after))
    ensures StringRest(EscapeChar(c) + t) == Some(([c] + tail, after))
  {
    var s := EscapeChar(c) + t;
    if EscapeChar(c) == [c] {
      assert s[0] == c && s[1..] == t;
    } else {
      UnescapeEscapeChar(c, t);
      assert s[0] == '\\' && s[1..] == EscapeChar(c)[1..] + t;
    }
  }

  lemma {:induction false} StringRoundTrip(s: string, q: string)
    requires q != "" && q[0] == '"'
    ensures StringRest(EscapeAll(s) + q) == Some((s, q[1..]))
  {
    if s == "" {
      assert EscapeAll(s) + q == q;
    } else {
      StringRoundTrip(s[1..], q);
      StringStep(s[0], EscapeAll(s[1..]) + q, s[1..], q[1..]);
      Assoc(EscapeChar(s[0]), EscapeAll(s[1..]), q);
      assert [s[0]] + s[1..] == s;
    }
  }

  lemma Regroup(a: string, b: string, c: string, d: string)
    ensures a + b + c + d == a + (b + (c + d))
  {
  }

  /** After its opening quote, a quoted string is read back up to its closing quote. */
  lemma QuoteRoundTrip(text: string, rest: string)
    ensures var s := Quote(text) + rest;
            s[0] == '"' && StringRest(s[1..]) == Some((text, rest))
  {
    var q := "\"" + rest;
    StringRoundTrip(text, q);
    assert q[1..] == rest;
    Regroup("\"", EscapeAll(text), "\"", rest);
    var e := EscapeAll(text) + q;
    assert Quote(text) + rest == "\"" + e;
    assert ("\"" + e)[1..] == e;
  }

  lemma {:induction false} DigitCountOf(digits: string, rest: string)
    requires Decimal.AllDigits(digits)
    requires rest == "" || !Decimal.IsDigit(rest[0])
    ensures DigitCount(digits + rest) == |digits|
  {
    if digits == "" {
      assert digits + rest == rest;
    } else {
      assert (digits + rest)[1..] == digits[1..] + rest;
      DigitCountOf(digits[1..], rest);
    }
  }

  /** What may follow a printed value: nothing, or a character no number continues with. */
  predicate Ends(rest: string) {
    rest == "" || (!Decimal.IsDigit(rest[0]) && rest[0] != '.' && rest[0] != 'e' && rest[0] != 'E')
  }

  lemma NumberRoundTrip(n: nat, rest: string)
    requires Ends(rest)
    ensures Token(Decimal.Print(n) + rest) == Some((JNum(n), rest))
  {
    var digits := Decimal.Print(n);
    var s := digits + rest;
    DigitCountOf(digits, rest);
    assert s[..|digits|] == digits && s[|digits|..] == rest;
    assert s[0] == digits[0] && Decimal.IsDigit(digits[0]);
    Decimal.ValueOfPrint(n);
  }

  /** A printed value starts with a character that is neither space nor a closing bracket. */
  lemma PrintStart(j: Json, depth: nat)
    ensures var p := Print(j, depth); p != "" && !IsSpace(p[0]) && p[0] != ']' && p[0] != '}'
  {
    if j.JNum? {
      assert Decimal.IsDigit(Decimal.Print(j.n)[0]);
    }
  }

  lemma TokenArray(t: string, items: seq<Json>, rest: string)
    requires Items(t) == Some((items, rest))
    requires SkipSpace(t) != "" && SkipSpace(t)[0] != ']'
    ensures Token("[" + t) == Some((JArr(items), rest))
  {
    var s := "[" + t;
    assert s[0] == '[' && s[1..] == t;
    assert |s| >= 4 ==> s[..4][0] == '[';
  }

  lemma TokenObject(t: string, members: seq<Member>, rest: string)
    requires Members(t) == Some((members, rest))
    requires SkipSpace(t) != "" && SkipSpace(t)[0] != '}'
    ensures Token("{" + t) == Some((JObj(members), rest))
  {
    var s := "{" + t;
    assert s[0] == '{' && s[1..] == t;
    assert |s| >= 4 ==> s[..4][0] == '{';
  }

  lemma TokenEmpty(rest: string)
    ensures Token("[]" + rest) == Some((JArr([]), rest))
    ensures Token("{}" + rest) == Some((JObj([]), rest))
  {
    assert ("[]" + rest)[1..] == "]" + rest;
    assert ("{}" + rest)[1..] == "}" + rest;
    assert ("]" + rest)[1..] == rest && ("}" + rest)[1..] == rest;
  }

  lemma TokenNull(rest: string)
    ensures Token("null" + rest) == Some((JNull, rest))
  {
    var s := "null" + rest;
    assert s[..4] == "null" && s[4..] == rest;
  }

  lemma ArrayText(items: seq<Json>, depth: nat, rest: string)
    requires items != []
    ensures Print(JArr(items), depth) + rest
         == "[" + ("\n" + (PrintItems(items, depth + 1) + (("\n" + Indent(depth)) + ("]" + rest))))
  {
    var body, indent := PrintItems(items, depth + 1), Indent(depth);
    assert Print(JArr(items), depth) == "[\n" + body + ("\n" + indent + "]");
    BracketText("[", body, indent, "]", rest);
    assert "[\n" == "[" + "\n";
  }

  lemma ObjectText(members: seq<Member>, depth: nat, rest: string)
    requires members != []
    ensures Print(JObj(members), depth) + rest
         == "{" + ("\n" + (PrintMembers(members, depth + 1) + (("\n" + Indent(depth)) + ("}" + rest))))
  {
    var body, indent := PrintMembers(members, depth + 1), Indent(depth);
    assert Print(JObj(members), depth) == "{\n" + body + ("\n" + indent + "}");
    BracketText("{", body, indent, "}", rest);
    assert "{\n" == "{" + "\n";
  }

  lemma {:induction false} ArrayRoundTrip(items: seq<Json>, depth: nat, rest: string)
    requires items != []
    ensures Token(Print(JArr(items), depth) + rest) == Some((JArr(items), rest))
    decreases items, 1
  {
    var q := ("\n" + Indent(depth)) + ("]" + rest);
    Close(depth, ']', rest);
    ItemsRoundTrip(items, depth + 1, "\n", q);
    ItemsStart(items, depth + 1, q);
    TokenArray("\n" + (PrintItems(items, depth + 1) + q), items, rest);
    ArrayText(items, depth, rest);
  }

  lemma {:induction false} ObjectRoundTrip(members: seq<Member>, depth: nat, rest: string)
    requires members != []
    ensures Token(Print(JObj(members), depth) + rest) == Some((JObj(members), rest))
    decreases members, 1
  {
    var q := ("\n" + Indent(depth)) + ("}" + rest);
    Close(depth, '}', rest);
    MembersRoundTrip(members, depth + 1, "\n", q);
    MembersStart(members, depth + 1, q);
    TokenObject("\n" + (PrintMembers(members, depth + 1) + q), members, rest);
    ObjectText(members, depth, rest);
  }

  lemma {:induction false} TokenRoundTrip(j: Json, depth: nat, rest: string)
    requires Ends(rest)
    ensures Token(Print(j, depth) + rest) == Some((j, rest))
    decreases j, 1
  {
    match j
    case JNull => TokenNull(rest);
    case JNum(n) => NumberRoundTrip(n, rest);
    case JStr(text) => QuoteRoundTrip(text, rest);
    case JArr(items) =>
      if items == [] {
        TokenEmpty(rest);
      } else {
        ArrayRoundTrip(items, depth, rest);
      }
    case JObj(members) =>
      if members == [] {
        TokenEmpty(rest);
      } else {
        ObjectRoundTrip(members, depth, rest);
      }
  }

  lemma BracketText(open: string, body: string, indent: string, close: string, rest: string)
    ensures open + "\n" + body + ("\n" + indent + close) + rest
         == open + ("\n" + (body + (("\n" + indent) + (close + rest))))
  {
    var tail := "\n" + indent + close;
    assert tail + rest == ("\n" + indent) + (close + rest);
    Regroup(open, "\n", body, tail + rest);
    assert open + "\n" + body + tail + rest == open + "\n" + body + (tail + rest);
  }

  lemma Close(depth: nat, bracket: char, rest: string)
    requires bracket == ']' || bracket == '}'
    ensures var q := ("\n" + Indent(depth)) + ([bracket] + rest);
            q[0] == '\n' && SkipSpace(q) == [bracket] + rest && ([bracket] + rest)[1..] == rest
  {
    SkipSpacePrefix("\n" + Indent(depth), [bracket] + rest);
  }

  lemma ValueRoundTrip(j: Json, depth: nat, ws: string, rest: string)
    requires AllSpace(ws) && Ends(rest)
    ensures Value(ws + (Print(j, depth) + rest)) == Some((j, rest))
    decreases j, 2
  {
    TokenRoundTrip(j, depth, rest);
    PrintStart(j, depth);
    SkipSpacePrefix(ws, Print(j, depth) + rest);
  }

  lemma ItemsStart(items: seq<Json>, depth: nat, q: string)
    requires items != []
    ensures var t := SkipSpace("\n" + (PrintItems(items, depth) + q)); t != "" && t[0] != ']'
  {
    var lead := "\n" + Indent(depth);
    var first := Print(items[0], depth) + ItemsNext(items, depth, q);
    PrintStart(items[0], depth);
    ItemsText(items, depth, "\n", q);
    SkipSpacePrefix(lead, first);
  }

  lemma MembersStart(members: seq<Member>, depth: nat, q: string)
    requires members != []
    ensures var t := SkipSpace("\n" + (PrintMembers(members, depth) + q)); t != "" && t[0] != '}'
  {
    var lead := "\n" + Indent(depth);
    var tail := " " + (Print(members[0].value, depth) + MembersNext(members, depth, q));
    MembersText(members, depth, "\n", q);
    SkipSpacePrefix(lead, Quote(members[0].key) + (":" + tail));
  }

  /** What follows the first element: the closing text, or a comma and the other elements. */
  function ItemsNext(items: seq<Json>, depth: nat, q: string): string
    requires items != []
  {
    if |items| == 1 then q else "," + ("\n" + (PrintItems(items[1..], depth) + q))
  }

  lemma ItemsText(items: seq<Json>, depth: nat, ws: string, q: string)
    requires items != []
    ensures ws + (PrintItems(items, depth) + q)
         == (ws + Indent(depth)) + (Print(items[0], depth) + ItemsNext(items, depth, q))
  {
    var i, p := Indent(depth), Print(items[0], depth);
    var more := if |items| == 1 then "" else ",\n" + PrintItems(items[1..], depth);
    NextText(if |items| == 1 then "" else PrintItems(items[1..], depth), q);
    if |items| == 1 {
      assert more + q == q;
    }
    assert PrintItems(items, depth) == i + p + more;
    ItemText(ws, i, p, more, q);
  }

  lemma ItemText(ws: string, i: string, p: string, more: string, q: string)
    ensures ws + (i + p + more + q) == (ws + i) + (p + (more + q))
  {
    Regroup(i, p, more, q);
    assert ws + (i + (p + (more + q))) == ws + i + (p + (more + q));
  }

  lemma NextText(body: string, q: string)
    ensures ",\n" + body + q == "," + ("\n" + (body + q))
  {
  }

  lemma {:induction false} ItemsRoundTrip(items: seq<Json>, depth: nat, ws: string, q: string)
    requires items != [] && AllSpace(ws)
    requires Ends(q) && SkipSpace(q) != "" && SkipSpace(q)[0] == ']'
    ensures Items(ws + (PrintItems(items, depth) + q)) == Some((items, SkipSpace(q)[1..]))
    decreases items, 0
  {
    var next := ItemsNext(items, depth, q);
    ItemsText(items, depth, ws, q);
    ValueRoundTrip(items[0], depth, ws + Indent(depth), next);
    if |items| == 1 {
      assert items == [items[0]];
    } else {
      assert SkipSpace(next) == next;
      assert next[1..] == "\n" + (PrintItems(items[1..], depth) + q);
      ItemsRoundTrip(items[1..], depth, "\n", q);
      assert items == [items[0]] + items[1..];
    }
  }

  /** What follows the first member's value. */
  function MembersNext(members: seq<Member>, depth: nat, q: string): string
    requires members != []
  {
    if |members| == 1 then q else "," + ("\n" + (PrintMembers(members[1..], depth) + q))
  }

  lemma MembersText(members: seq<Member>, depth: nat, ws: string, q: string)
    requires members != []
    ensures ws + (PrintMembers(members, depth) + q)
         == (ws + Indent(depth))
            + (Quote(members[0].key)
               + (":" + (" " + (Print(members[0].value, depth) + MembersNext(members, depth, q)))))
  {
    var i, k, p := Indent(depth), Quote(members[0].key), Print(members[0].value, depth);
    var more := if |members| == 1 then "" else ",\n" + PrintMembers(members[1..], depth);
    NextText(if |members| == 1 then "" else PrintMembers(members[1..], depth), q);
    if |members| == 1 {
      assert more + q == q;
    }
    assert PrintMembers(members, depth) == i + (k + ": " + p) + more;
    MemberText(ws, i, k, p, more, q);
  }

  lemma MemberText(ws: string, i: string, k: string, p: string, more: string, q: string)
    ensures ws + (i + (k + ": " + p) + more + q) == (ws + i) + (k + (":" + (" " + (p + (more + q)))))
  {
    var value := p + (more + q);
    assert ":" + (" " + value) == ": " + value;
    ItemText(ws, i, k + ": " + p, more, q);
    Regroup(k, ": ", p, more + q);
  }

  lemma EntryRoundTrip(lead: string, m: Member, depth: nat, next: string)
    requires AllSpace(lead) && Ends(next)
    requires Value(" " + (Print(m.value, depth) + next)) == Some((m.value, next))
    ensures Entry(lead + (Quote(m.key) + (":" + (" " + (Print(m.value, depth) + next))))) == Some((m, next))
  {
    var tail := " " + (Print(m.value, depth) + next);
    SkipSpacePrefix(lead, Quote(m.key) + (":" + tail));
    QuoteRoundTrip(m.key, ":" + tail);
    assert SkipSpace(":" + tail) == ":" + tail;
    assert (":" + tail)[1..] == tail;
  }

  lemma MembersNextComma(members: seq<Member>, depth: nat, q: string)
    requires members != []
    requires Ends(q) && SkipSpace(q) != ""
    ensures var next := MembersNext(members, depth, q);
            && Ends(next)
            && SkipSpace(next) != ""
            && (|members| > 1 ==>
                && SkipSpace(next)[0] == ','
                && SkipSpace(next)[1..] == "\n" + (PrintMembers(members[1..], depth) + q))
  {
  }

  lemma MembersLast(s: string, m: Member, rest: string)
    requires Entry(s) == Some((m, rest))
    requires SkipSpace(rest) != "" && SkipSpace(rest)[0] == '}'
    ensures Members(s) == Some(([m], SkipSpace(rest)[1..]))
  {
  }

  lemma MembersMore(s: string, m: Member, rest: string, more: seq<Member>, after: string)
    requires Entry(s) == Some((m, rest))
    requires SkipSpace(rest) != "" && SkipSpace(rest)[0] == ','
    requires Members(SkipSpace(rest)[1..]) == Some((more, after))
    ensures Members(s) == Some(([m] + more, after))
  {
  }

  lemma {:induction false} MembersRoundTrip(members: seq<Member>, depth: nat, ws: string, q: string)
    requires members != [] && AllSpace(ws)
    requires Ends(q) && SkipSpace(q) != "" && SkipSpace(q)[0] == '}'
    ensures Members(ws + (PrintMembers(members, depth) + q)) == Some((members, SkipSpace(q)[1..]))
    decreases members, 0
  {
    var m, next, after := members[0], MembersNext(members, depth, q), SkipSpace(q)[1..];
    var s := ws + (PrintMembers(members, depth) + q);
    MembersNextComma(members, depth, q);
    assert Entry(s) == Some((m, next)) by {
      MembersText(members, depth, ws, q);
      ValueRoundTrip(m.value, depth, " ", next);
      EntryRoundTrip(ws + Indent(depth), m, depth, next);
    }
    if |members| == 1 {
      assert members == [m];
      MembersLast(s, m, next);
    } else {
      var rest := members[1..];
      assert members == [m] + rest;
      MembersRoundTrip(rest, depth, "\n", q);
      MembersMore(s, m, next, rest, after);
    }
  }

  /** Reading a printed document gives back the value that was printed. */
  lemma DocumentRoundTrip(j: Json)
    ensures ParseDocument(Document(j)) == Some(j)
  {
    ValueRoundTrip(j, 0, "", "\n");
    assert "" + (Print(j, 0) + "\n") == Document(j);
    assert SkipSpace("\n") == "";
  }

  /** The layout of an object with one member that is a list of one number: two spaces a level,
      one item a line, a final newline. */
  lemma LayoutExample(key: string, n: nat)
    ensures Document(JObj([Member(key, JArr([JNum(n)]))]))
         == "{\n  " + Quote(key) + ": " + "[\n    " + Decimal.Print(n) + "\n  ]" + "\n}\n"
  {
    hide Quote;
    var list := JArr([JNum(n)]);
    OneItem(n);
    OneMember(Member(key, list));
    var front, number := "{\n  " + Quote(key) + ": ", Decimal.Print(n);
    assert (front + ("[\n    " + number + "\n  ]") + "\n}") + "\n"
        == front + "[\n    " + number + "\n  ]" + "\n}\n";
  }

  lemma OneItem(n: nat)
    ensures Print(JArr([JNum(n)]), 1) == "[\n    " + Decimal.Print(n) + "\n  ]"
  {
    assert Indent(1) == "  " && Indent(2) == "  " + Indent(1);
    var number := Decimal.Print(n);
    assert PrintItems([JNum(n)], 2) == "    " + number + "";
    assert "[\n" + ("    " + number + "") + ("\n" + "  " + "]") == "[\n    " + number + "\n  ]";
  }

  lemma OneMember(m: Member)
    ensures Print(JObj([m]), 0) == "{\n  " + Quote(m.key) + ": " + Print(m.value, 1) + "\n}"
  {
    hide Quote;
    assert Indent(1) == "  " && Indent(0) == "";
    var body := Quote(m.key) + ": " + Print(m.value, 1);
    assert PrintMembers([m], 1) == "  " + body + "";
    assert "{\n" + ("  " + body + "") + ("\n" + "" + "}") == "{\n  " + Quote(m.key) + ": " + Print(m.value, 1) + "\n}";
  }
}
