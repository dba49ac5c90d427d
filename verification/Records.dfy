/** JSON objects for Rust structs, as serde's derived code with `deny_unknown_fields` writes and
    reads them: fields in declaration order, absent optional fields skipped; on reading, any
    order, no unknown or repeated field. (The array form of a struct, which serde also accepts,
    is not part of this model.)
 */
module Records {
  import opened Basics
  import opened Json

  /** A declared field and what is written for it, if anything. */
  datatype Slot = Slot(name: string, value: Option<Json>)

  /** The members written for a struct. */
  function Present(slots: seq<Slot>): seq<Member> {
    if slots == [] then []
    else
      (if slots[0].value.Some? then [Member(slots[0].name, slots[0].value.value)] else [])
      + Present(slots[1..])
  }

  function Lookup(members: seq<Member>, name: string): Option<Json> {
    if members == [] then None
    else if members[0].key == name then Some(members[0].value)
    else Lookup(members[1..], name)
  }

  /** Only known fields, each at most once. */
  predicate KnownOnce(members: seq<Member>, names: set<string>) {
    members == [] || (members[0].key in names && KnownOnce(members[1..], names - {members[0].key}))
  }

  function Names(slots: seq<Slot>): set<string> {
    set i | 0 <= i < |slots| :: slots[i].name
  }

  ghost predicate DistinctNames(slots: seq<Slot>) {
    forall i, j :: 0 <= i < j < |slots| ==> slots[i].name != slots[j].name
  }

  lemma {:induction false} LookupAbsent(slots: seq<Slot>, name: string)
    requires name !in Names(slots)
    ensures Lookup(Present(slots), name) == None
  {
    if slots != [] {
      assert slots[0].name in Names(slots);
      assert forall n :: n in Names(slots[1..]) ==> n in Names(slots);
      LookupAbsent(slots[1..], name);
      assert slots[0].value.Some? ==> Present(slots)[1..] == Present(slots[1..]);
      assert slots[0].value.None? ==> Present(slots) == Present(slots[1..]);
    }
  }

  /** Every field reads back as it was written. */
  lemma {:induction false} LookupPresent(slots: seq<Slot>, k: nat)
    requires DistinctNames(slots) && k < |slots|
    ensures Lookup(Present(slots), slots[k].name) == slots[k].value
  {
    var tail := slots[1..];
    assert slots[0].value.Some? ==> Present(slots)[1..] == Present(tail);
    assert slots[0].value.None? ==> Present(slots) == Present(tail);
    if k == 0 {
      if slots[0].value.None? {
        forall i | 0 <= i < |tail|
          ensures tail[i].name != slots[0].name
        {
          assert tail[i] == slots[i + 1];
        }
        LookupAbsent(tail, slots[0].name);
      }
    } else {
      assert slots[0].name != slots[k].name;
      assert tail[k - 1] == slots[k];
      LookupPresent(tail, k - 1);
    }
  }

  lemma {:induction false} KnownOncePresent(slots: seq<Slot>, names: set<string>)
    requires DistinctNames(slots) && Names(slots) <= names
    ensures KnownOnce(Present(slots), names)
  {
    if slots != [] {
      var tail := slots[1..];
      assert slots[0].name in Names(slots);
      forall n | n in Names(tail)
        ensures n in names && n != slots[0].name
      {
        var i :| 0 <= i < |tail| && tail[i].name == n;
        assert tail[i] == slots[i + 1];
        assert slots[i + 1].name in Names(slots);
      }
      if slots[0].value.Some? {
        KnownOncePresent(tail, names - {slots[0].name});
        assert Present(slots)[1..] == Present(tail);
      } else {
        KnownOncePresent(tail, names);
        assert Present(slots) == Present(tail);
      }
    }
  }

  /** A member is found by its name when no other bears it. */
  lemma {:induction false} LookupAt(members: seq<Member>, k: nat)
    requires k < |members|
    requires forall i, j :: 0 <= i < j < |members| ==> members[i].key != members[j].key
    ensures Lookup(members, members[k].key) == Some(members[k].value)
  {
    if k > 0 {
      assert members[0].key != members[k].key;
      LookupAt(members[1..], k - 1);
    }
  }

  /** An object that holds only these names, none of them twice. */
  ghost predicate Strict(j: Json, names: set<string>) {
    && j.JObj?
    && (forall i :: 0 <= i < |j.members| ==> j.members[i].key in names)
    && (forall i, k :: 0 <= i < k < |j.members| ==> j.members[i].key != j.members[k].key)
  }

  lemma {:induction false} KnownOnceIff(members: seq<Member>, names: set<string>)
    ensures KnownOnce(members, names) <==> Strict(JObj(members), names)
  {
    if members != [] {
      var head, tail := members[0], members[1..];
      KnownOnceIff(tail, names - {head.key});
      assert forall i :: 0 <= i < |tail| ==> tail[i] == members[i + 1];
      if Strict(JObj(members), names) {
        assert forall i :: 0 <= i < |tail| ==> tail[i].key in names - {head.key};
      }
      if KnownOnce(members, names) {
        forall i, k | 0 <= i < k < |members|
          ensures members[i].key != members[k].key
        {
          assert members[k] == tail[k - 1];
          if i > 0 {
            assert members[i] == tail[i - 1];
          }
        }
        forall i | 0 <= i < |members|
          ensures members[i].key in names
        {
          if i > 0 {
            assert members[i] == tail[i - 1];
          }
        }
      }
    }
  }

  // ---- Field types -----------------------------------------------------------------------

  function AsNumber(j: Json, max: nat): (r: Option<nat>)
    ensures r.Some? ==> r.value <= max
  {
    if j.JNum? && j.n <= max then Some(j.n) else None
  }

  function ReadU64(j: Json): Option<u64> {
    AsNumber(j, U64_MAX)
  }

  function AsString(j: Json): Option<string> {
    if j.JStr? then Some(j.s) else None
  }

  /** `Option<T>` with `#[serde(default)]`: absent and `null` both read as `None`. */
  function Optional<T>(field: Option<Json>, read: Json -> Option<T>): Option<Option<T>> {
    if field.None? || field.value.JNull? then Some(None)
    else
      var v :- read(field.value);
      Some(Some(v))
  }

  function MapAll<T>(items: seq<Json>, read: Json -> Option<T>): Option<seq<T>> {
    if items == [] then Some([])
    else
      var head :- read(items[0]);
      var tail :- MapAll(items[1..], read);
      Some([head] + tail)
  }

  /** `Vec<T>`. */
  function AsList<T>(j: Json, read: Json -> Option<T>): Option<seq<T>> {
    if j.JArr? then MapAll(j.items, read) else None
  }

  lemma {:induction false} MapAllOf<T>(items: seq<Json>, read: Json -> Option<T>, values: seq<T>)
    requires |items| == |values|
    requires forall i :: 0 <= i < |items| ==> read(items[i]) == Some(values[i])
    ensures MapAll(items, read) == Some(values)
  {
    if items != [] {
      assert forall i :: 0 <= i < |items[1..]| ==> items[1..][i] == items[i + 1];
      MapAllOf(items[1..], read, values[1..]);
      assert values == [values[0]] + values[1..];
    }
  }

  function ReadByte(j: Json): Option<byte> {
    var n :- AsNumber(j, 255);
    Some(n as char)
  }

  /** `Vec<u8>`: an array of numbers. */
  function BytesJson(bytes: Bytes): Json {
    JArr(seq(|bytes|, i requires 0 <= i < |bytes| => JNum(bytes[i] as int)))
  }

  lemma BytesRoundTrip(bytes: Bytes)
    ensures AsList(BytesJson(bytes), ReadByte) == Some(bytes)
  {
    MapAllOf(BytesJson(bytes).items, ReadByte, bytes);
  }
}
