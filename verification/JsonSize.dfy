/** How long printed JSON is: bounds from below and from above. */
module JsonSize {
  import opened Basics
  import Decimal
  import opened Json
  import opened Records

  lemma {:induction false} IndentLength(depth: nat)
    ensures |Indent(depth)| == 2 * depth
  {
    if depth > 0 {
      IndentLength(depth - 1);
    }
  }

  /** Escaping makes a text no shorter and at most six times longer. */
  lemma {:induction false} EscapeLength(s: string)
    ensures |s| <= |EscapeAll(s)| <= 6 * |s|
  {
    if s != "" {
      EscapeLength(s[1..]);
    }
  }

  lemma QuoteLength(s: string)
    ensures |s| + 2 <= |Quote(s)| <= 6 * |s| + 2
  {
    EscapeLength(s);
  }

  lemma {:induction false} ByteLength(n: nat)
    requires n < 256
    ensures |Decimal.Print(n)| <= 3
  {
    if n >= 10 {
      assert |Decimal.Print(n)| == |Decimal.Print(n / 10)| + 1;
      if n >= 100 {
        assert |Decimal.Print(n / 10)| == |Decimal.Print(n / 10 / 10)| + 1;
      }
    }
  }

  function Power(k: nat): nat {
    if k == 0 then 1 else 10 * Power(k - 1)
  }

  lemma {:induction false} DigitsAtMost(n: nat, k: nat)
    requires k >= 1 && n < Power(k)
    ensures |Decimal.Print(n)| <= k
  {
    if n >= 10 {
      assert Power(1) == 10;
      DigitsAtMost(n / 10, k - 1);
    }
  }

  lemma NumberLength(n: u64)
    ensures |Decimal.Print(n)| <= 20
  {
    assert Power(10) == 10_000_000_000;
    assert Power(20) == 100_000_000_000_000_000_000;
    DigitsAtMost(n, 20);
  }

  /** Text that escaping leaves alone. */
  predicate Plain(s: string) {
    EscapeAll(s) == s
  }

  lemma {:induction false} PlainAll(s: string)
    requires forall i :: 0 <= i < |s| ==> EscapeChar(s[i]) == [s[i]]
    ensures Plain(s)
  {
    if s != "" {
      PlainAll(s[1..]);
      assert s == [s[0]] + s[1..];
    }
  }

  lemma OneMore(n: nat, each: nat)
    requires n > 0
    ensures n * each == each + (n - 1) * each
  {
  }

  // ---- From below --------------------------------------------------------------------------

  /** An array is at least as long as its items together. */
  lemma {:induction false} ItemsAtLeast(items: seq<Json>, depth: nat, each: nat)
    requires items != [] && forall i :: 0 <= i < |items| ==> |Print(items[i], depth)| >= each
    ensures |PrintItems(items, depth)| >= |items| * each
  {
    if |items| > 1 {
      var rest := items[1..];
      assert forall i :: 0 <= i < |rest| ==> rest[i] == items[i + 1];
      ItemsAtLeast(rest, depth, each);
      OneMore(|items|, each);
    }
  }

  /** An object is at least as long as any member's value. */
  lemma {:induction false} MembersAtLeast(members: seq<Member>, depth: nat, name: string)
    requires Lookup(members, name).Some?
    ensures |PrintMembers(members, depth)| >= |Print(Lookup(members, name).value, depth)|
  {
    if members[0].key != name {
      MembersAtLeast(members[1..], depth, name);
    }
  }

  lemma ObjectAtLeast(members: seq<Member>, depth: nat, name: string)
    requires Lookup(members, name).Some?
    ensures |Print(JObj(members), depth)| >= |Print(Lookup(members, name).value, depth + 1)|
  {
    MembersAtLeast(members, depth + 1, name);
  }

  lemma DocumentAtLeast(members: seq<Member>, name: string, value: Json)
    requires Lookup(members, name) == Some(value)
    ensures |Document(JObj(members))| > |Print(value, 1)|
  {
    ObjectAtLeast(members, 0, name);
  }

  // ---- From above --------------------------------------------------------------------------

  lemma {:induction false} ItemsAtMost(items: seq<Json>, depth: nat, each: nat)
    requires items != [] && forall i :: 0 <= i < |items| ==> |Print(items[i], depth)| + 2 * depth + 2 <= each
    ensures |PrintItems(items, depth)| <= |items| * each
  {
    IndentLength(depth);
    OneMore(|items|, each);
    if |items| > 1 {
      var rest := items[1..];
      assert forall i :: 0 <= i < |rest| ==> rest[i] == items[i + 1];
      ItemsAtMost(rest, depth, each);
    }
  }

  /** What one member takes, with its indentation and punctuation. */
  function MemberSize(m: Member, depth: nat): nat {
    |Quote(m.key)| + |Print(m.value, depth)| + 2 * depth + 4
  }

  lemma MemberLength(m: Member, depth: nat)
    ensures MemberSize(m, depth) <= 6 * |m.key| + |Print(m.value, depth)| + 2 * depth + 6
    ensures m.value.JStr? ==> |Print(m.value, depth)| <= 6 * |m.value.s| + 2
    ensures m.value.JNum? && m.value.n < 256 ==> |Print(m.value, depth)| <= 3
  {
    QuoteLength(m.key);
    if m.value.JStr? {
      QuoteLength(m.value.s);
    } else if m.value.JNum? && m.value.n < 256 {
      ByteLength(m.value.n);
    }
  }

  lemma {:induction false} MembersAtMost(members: seq<Member>, depth: nat, each: nat)
    requires members != [] && forall i :: 0 <= i < |members| ==> MemberSize(members[i], depth) <= each
    ensures |PrintMembers(members, depth)| <= |members| * each
  {
    IndentLength(depth);
    OneMore(|members|, each);
    assert MemberSize(members[0], depth) <= each;
    if |members| > 1 {
      var rest := members[1..];
      assert forall i :: 0 <= i < |rest| ==> rest[i] == members[i + 1];
      MembersAtMost(rest, depth, each);
    }
  }

  lemma DocumentAtMost(members: seq<Member>, each: nat)
    requires members != [] && forall i :: 0 <= i < |members| ==> MemberSize(members[i], 1) <= each
    ensures |Document(JObj(members))| <= |members| * each + 5
  {
    MembersAtMost(members, 1, each);
    IndentLength(0);
  }

  function SlotSize(slot: Slot, depth: nat): nat {
    if slot.value.None? then 0 else MemberSize(Member(slot.name, slot.value.value), depth)
  }

  function SlotsSize(slots: seq<Slot>, depth: nat): nat {
    if slots == [] then 0 else SlotSize(slots[0], depth) + SlotsSize(slots[1..], depth)
  }

  lemma {:induction false} SlotsLength(slots: seq<Slot>, depth: nat)
    ensures Present(slots) != [] ==> |PrintMembers(Present(slots), depth)| <= SlotsSize(slots, depth)
  {
    IndentLength(depth);
    if slots != [] {
      var rest := Present(slots[1..]);
      SlotsLength(slots[1..], depth);
      if slots[0].value.Some? {
        assert Present(slots)[1..] == rest;
      } else {
        assert Present(slots) == rest;
      }
    }
  }

  /** The first slots each take no more than this. */
  lemma {:induction false} SlotsAtMost(slots: seq<Slot>, depth: nat, n: nat, each: nat)
    requires n <= |slots| && forall i :: 0 <= i < n ==> SlotSize(slots[i], depth) <= each
    ensures SlotsSize(slots, depth) <= n * each + SlotsSize(slots[n..], depth)
  {
    if n > 0 {
      var rest := slots[1..];
      assert forall i :: 0 <= i < n - 1 ==> rest[i] == slots[i + 1];
      SlotsAtMost(rest, depth, n - 1, each);
      assert rest[n - 1..] == slots[n..];
      OneMore(n, each);
    } else {
      assert slots[0..] == slots;
    }
  }

  lemma ObjectAtMost(slots: seq<Slot>, depth: nat)
    ensures |Print(JObj(Present(slots)), depth)| <= SlotsSize(slots, depth + 1) + 2 * depth + 4
  {
    SlotsLength(slots, depth + 1);
    IndentLength(depth);
  }

  lemma ArrayAtMost(items: seq<Json>, depth: nat, each: nat)
    requires forall i :: 0 <= i < |items| ==> |Print(items[i], depth + 1)| + 2 * depth + 4 <= each
    ensures |Print(JArr(items), depth)| <= |items| * each + 2 * depth + 4
  {
    if items != [] {
      ItemsAtMost(items, depth + 1, each);
      IndentLength(depth);
    }
  }
}
