/** Padded Base64 with the standard alphabet (RFC 4648, section 4), decoded strictly. */
module Base64 {
  import opened Basics

  type sextet = n: int | 0 <= n < 64

  // ---- Characters ------------------------------------------------------------------------

  function Digit(v: sextet): char {
    if v < 26 then ('A' as int + v) as char
    else if v < 52 then ('a' as int + v - 26) as char
    else if v < 62 then ('0' as int + v - 52) as char
    else if v == 62 then '+'
    else '/'
  }

  function DigitValue(c: char): Option<sextet> {
    if 'A' <= c <= 'Z' then Some(c as int - 'A' as int)
    else if 'a' <= c <= 'z' then Some(c as int - 'a' as int + 26)
    else if '0' <= c <= '9' then Some(c as int - '0' as int + 52)
    else if c == '+' then Some(62)
    else if c == '/' then Some(63)
    else None
  }

  function Text(values: seq<sextet>): (s: string)
    ensures |s| == |values|
    ensures s != "" ==> s[|s| - 1] != '='
  {
    if values == [] then ""
    else Text(values[..|values| - 1]) + [Digit(values[|values| - 1])]
  }

  function Values(s: string): (r: Option<seq<sextet>>)
    ensures r.Some? ==> |r.value| == |s|
  {
    if s == "" then Some([])
    else
      var front :- Values(s[..|s| - 1]);
      var last :- DigitValue(s[|s| - 1]);
      Some(front + [last])
  }

  lemma DigitRoundTrip(v: sextet)
    ensures DigitValue(Digit(v)) == Some(v)
  {
  }

  lemma DigitOfValue(c: char)
    ensures DigitValue(c).Some? ==> Digit(DigitValue(c).value) == c
  {
  }

  lemma {:induction false} ValuesOfText(values: seq<sextet>)
    ensures Values(Text(values)) == Some(values)
  {
    if values != [] {
      var front, last := values[..|values| - 1], values[|values| - 1];
      var s := Text(values);
      ValuesOfText(front);
      DigitRoundTrip(last);
      assert s[..|s| - 1] == Text(front);
      assert values == front + [last];
    }
  }

  lemma {:induction false} TextOfValues(s: string)
    requires Values(s).Some?
    ensures Text(Values(s).value) == s
  {
    if s != "" {
      var values := Values(s).value;
      TextOfValues(s[..|s| - 1]);
      DigitOfValue(s[|s| - 1]);
      assert values[..|values| - 1] == Values(s[..|s| - 1]).value;
      assert s == s[..|s| - 1] + [s[|s| - 1]];
    }
  }

  // ---- Bits ------------------------------------------------------------------------------

  /** The bytes' bits, six at a time; zero bits fill up the last value, and no value is left over
      alone. `Split2` and `Split4` continue with two and four bits left over from the byte before. */
  function Split(bytes: Bytes): (v: seq<sextet>)
    ensures |v| % 4 != 1
    decreases |bytes|
  {
    if bytes == [] then []
    else [bytes[0] as int / 4] + Split2(bytes[0] as int % 4, bytes[1..])
  }

  function Split2(left: nat, bytes: Bytes): (v: seq<sextet>)
    requires left < 4
    ensures |v| % 4 != 0
    decreases |bytes|
  {
    if bytes == [] then [left * 16]
    else [left * 16 + bytes[0] as int / 16] + Split4(bytes[0] as int % 16, bytes[1..])
  }

  function Split4(left: nat, bytes: Bytes): (v: seq<sextet>)
    requires left < 16
    ensures |v| % 4 != 3
    decreases |bytes|
  {
    if bytes == [] then [left * 4]
    else [left * 4 + bytes[0] as int / 64, bytes[0] as int % 64] + Split(bytes[1..])
  }

  /** The bytes made of the bits; those left over at the end must be zero. `Merge6`, `Merge4` and
      `Merge2` continue with that many bits left over. */
  function Merge(v: seq<sextet>): Option<Bytes>
    decreases |v|
  {
    if v == [] then Some([]) else Merge6(v[0], v[1..])
  }

  function Merge6(left: sextet, v: seq<sextet>): Option<Bytes>
    decreases |v|
  {
    if v == [] then None
    else
      var rest :- Merge4(v[0] % 16, v[1..]);
      Some([(left * 4 + v[0] / 16) as char] + rest)
  }

  function Merge4(left: nat, v: seq<sextet>): Option<Bytes>
    requires left < 16
    decreases |v|
  {
    if v == [] then if left == 0 then Some([]) else None
    else
      var rest :- Merge2(v[0] % 4, v[1..]);
      Some([(left * 16 + v[0] / 4) as char] + rest)
  }

  function Merge2(left: nat, v: seq<sextet>): Option<Bytes>
    requires left < 4
    decreases |v|
  {
    if v == [] then if left == 0 then Some([]) else None
    else
      var rest :- Merge(v[1..]);
      Some([(left * 64 + v[0]) as char] + rest)
  }

  lemma {:induction false} MergeOfSplit(bytes: Bytes)
    ensures Merge(Split(bytes)) == Some(bytes)
    decreases |bytes|
  {
    if bytes != [] {
      hide Merge6, Split2;
      var x := bytes[0] as int;
      var v, tail := Split(bytes), Split2(x % 4, bytes[1..]);
      MergeOfSplit2(x / 4, x % 4, bytes[1..]);
      assert v[0] == x / 4 && v[1..] == tail;
      assert Merge(v) == Merge6(v[0], v[1..]);
      assert (x / 4 * 4 + x % 4) as char == bytes[0];
      assert bytes == [bytes[0]] + bytes[1..];
    }
  }

  lemma {:induction false} MergeOfSplit2(high: sextet, low: nat, bytes: Bytes)
    requires low < 4
    ensures Merge6(high, Split2(low, bytes)) == Some([(high * 4 + low) as char] + bytes)
    decreases |bytes|
  {
    if bytes != [] {
      var y, v := bytes[0] as int, Split2(low, bytes);
      MergeOfSplit4(y / 16, y % 16, bytes[1..]);
      assert v[1..] == Split4(y % 16, bytes[1..]) && v[0] / 16 == low && v[0] % 16 == y / 16;
      assert bytes == [bytes[0]] + bytes[1..];
    }
  }

  lemma {:induction false} MergeOfSplit4(high: nat, low: nat, bytes: Bytes)
    requires high < 16 && low < 16
    ensures Merge4(high, Split4(low, bytes)) == Some([(high * 16 + low) as char] + bytes)
    decreases |bytes|
  {
    if bytes != [] {
      var z, v := bytes[0] as int, Split4(low, bytes);
      MergeOfSplit(bytes[1..]);
      assert v[1..][1..] == Split(bytes[1..]) && v[0] / 4 == low && v[0] % 4 == z / 64;
      assert bytes == [bytes[0]] + bytes[1..];
    }
  }

  lemma {:induction false} SplitOfMerge(v: seq<sextet>)
    requires Merge(v).Some?
    ensures Split(Merge(v).value) == v
    decreases |v|
  {
    if v != [] {
      SplitOfMerge6(v[0], v[1..]);
      assert v == [v[0]] + v[1..];
    }
  }

  lemma {:induction false} SplitOfMerge6(left: sextet, v: seq<sextet>)
    requires Merge6(left, v).Some?
    ensures var b := Merge6(left, v).value;
            b != [] && b[0] as int / 4 == left && Split2(b[0] as int % 4, b[1..]) == v
    decreases |v|
  {
    var b := Merge6(left, v).value;
    SplitOfMerge4(v[0] % 16, v[1..]);
    assert b[1..] == Merge4(v[0] % 16, v[1..]).value && b[0] as int % 4 == v[0] / 16;
    assert v == [v[0]] + v[1..];
  }

  lemma {:induction false} SplitOfMerge4(left: nat, v: seq<sextet>)
    requires left < 16 && Merge4(left, v).Some?
    ensures var b := Merge4(left, v).value;
            if b == [] then left == 0 && v == []
            else b[0] as int / 16 == left && Split4(b[0] as int % 16, b[1..]) == v
    decreases |v|
  {
    if v != [] {
      var b := Merge4(left, v).value;
      SplitOfMerge2(v[0] % 4, v[1..]);
      assert b[1..] == Merge2(v[0] % 4, v[1..]).value && b[0] as int % 16 == v[0] / 4;
      assert v == [v[0]] + v[1..];
    }
  }

  lemma {:induction false} SplitOfMerge2(left: nat, v: seq<sextet>)
    requires left < 4 && Merge2(left, v).Some?
    ensures var b := Merge2(left, v).value;
            if b == [] then left == 0 && v == []
            else b[0] as int / 64 == left && [b[0] as int % 64] + Split(b[1..]) == v
    decreases |v|
  {
    if v != [] {
      var b := Merge2(left, v).value;
      SplitOfMerge(v[1..]);
      assert b[1..] == Merge(v[1..]).value && b[0] as int % 64 == v[0];
      assert v == [v[0]] + v[1..];
    }
  }

  // ---- Padding ---------------------------------------------------------------------------

  /** Fill up the last group of four. */
  function Pad(text: string): string {
    text + (if |text| % 4 == 2 then "==" else if |text| % 4 == 3 then "=" else "")
  }

  /** Remove at most two padding characters from whole groups of four. */
  function Unpad(s: string): Option<string> {
    if |s| % 4 != 0 then None
    else if s == "" || s[|s| - 1] != '=' then Some(s)
    else if s[|s| - 2] != '=' then Some(s[..|s| - 1])
    else Some(s[..|s| - 2])
  }

  lemma UnpadOfPad(text: string)
    requires |text| % 4 != 1 && (text != "" ==> text[|text| - 1] != '=')
    ensures Unpad(Pad(text)) == Some(text)
  {
    var s := Pad(text);
    if |text| % 4 == 3 {
      assert s[|s| - 1] == '=' && s[|s| - 2] == text[|text| - 1];
      assert s[..|text|] == text;
    } else if |text| % 4 == 2 {
      assert s[|s| - 1] == '=' && s[|s| - 2] == '=';
      assert s[..|text|] == text;
    } else {
      assert s == text;
    }
  }

  lemma PadOfUnpad(s: string)
    requires Unpad(s).Some?
    ensures Pad(Unpad(s).value) == s
  {
    var text := Unpad(s).value;
    assert s == text + s[|text|..];
    if |text| == |s| {
      assert s[|text|..] == "";
    } else if |text| == |s| - 1 {
      assert s[|text|..] == "=";
    } else {
      assert s[|text|..] == "==";
    }
  }

  // ---- Base64 ----------------------------------------------------------------------------

  /** `Base64::encode_string`. */
  function Encode(bytes: Bytes): string {
    Pad(Text(Split(bytes)))
  }

  /** `Base64::decode_vec`. */
  function Decode(s: string): Option<Bytes> {
    var text :- Unpad(s);
    var values :- Values(text);
    Merge(values)
  }

  /** Decoding what was encoded gives the bytes back. */
  lemma DecodeOfEncode(bytes: Bytes)
    ensures Decode(Encode(bytes)) == Some(bytes)
  {
    UnpadOfPad(Text(Split(bytes)));
    ValuesOfText(Split(bytes));
    MergeOfSplit(bytes);
  }

  /** Only the canonical text of some bytes is accepted. */
  lemma EncodeOfDecode(s: string)
    requires Decode(s).Some?
    ensures Encode(Decode(s).value) == s
  {
    var text := Unpad(s).value;
    SplitOfMerge(Values(text).value);
    TextOfValues(text);
    PadOfUnpad(s);
  }

  lemma SplitTwo(a: byte, b: byte)
    ensures Split([a, b]) == [a as int / 4, a as int % 4 * 16 + b as int / 16, b as int % 16 * 4]
  {
    assert [a, b][1..] == [b] && [b][1..] == [];
    assert Split4(b as int % 16, []) == [b as int % 16 * 4];
    assert Split2(a as int % 4, [b]) == [a as int % 4 * 16 + b as int / 16] + Split4(b as int % 16, []);
  }

  lemma SplitThree(a: byte, b: byte, c: byte)
    ensures Split([a, b, c]) == [a as int / 4, a as int % 4 * 16 + b as int / 16, b as int % 16 * 4 + c as int / 64, c as int % 64]
  {
    assert [a, b, c][1..] == [b, c] && [b, c][1..] == [c] && [c][1..] == [];
    assert Split4(b as int % 16, [c]) == [b as int % 16 * 4 + c as int / 64, c as int % 64] + Split([]);
    assert Split2(a as int % 4, [b, c]) == [a as int % 4 * 16 + b as int / 16] + Split4(b as int % 16, [c]);
  }

  lemma {:induction false} TextOf(values: seq<sextet>)
    ensures forall i :: 0 <= i < |values| ==> Text(values)[i] == Digit(values[i])
  {
    if values != [] {
      TextOf(values[..|values| - 1]);
    }
  }

  /** Examples from section 10 of RFC 4648. */
  lemma ExampleOne()
    ensures Encode("f") == "Zg=="
  {
    assert Split("f") == [25, 32];
    TextOf([25, 32]);
  }

  lemma ExampleThree()
    ensures Encode("foo") == "Zm9v"
  {
    SplitThree('f', 'o', 'o');
    TextOf([25, 38, 61, 47]);
  }

  /** The last two characters of the alphabet. */
  lemma ExampleHigh()
    ensures Encode([251 as char, 255 as char]) == "+/8="
  {
    SplitTwo(251 as char, 255 as char);
    TextOf([62, 63, 60]);
  }
}
