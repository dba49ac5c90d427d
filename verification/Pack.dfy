/** The byte budget of `pack` (src/lib.rs), which must agree with the budget of extraction. */
module Pack {
  import opened Basics
  import opened Extraction
  import opened Ordering
  import opened RC = RunCommand

  datatype PackError =
    | TooManyMappings
    | BadMapping
    | EmptySource
    | BadPath
    | Underflow
    | Overflow
    | ReadLimitTooLarge
    | Unreadable
    | SourceTooLarge

  /** A source file: the size its metadata reports and what reading it to the end yields. The two
      may differ when the file changes meanwhile. */
  datatype Source = Source(size: u64, content: string)

  /** The files and the capsule-path syntax of the container format; neither is part of this model. */
  datatype Environment = Environment(files: map<string, Source>, isPath: string -> bool)

  function CheckedAdd(a: u64, b: nat): Option<u64> {
    if a + b > U64_MAX then None else Some(a + b)
  }

  function CheckedSub(a: u64, b: u64): Option<u64> {
    if a < b then None else Some(a - b)
  }

  /** `read_regular_input_bounded`: at most one byte more than the limit is read. */
  function ReadInput(x: Environment, path: string, max: u64): (r: Result<string, PackError>)
    ensures r.Ok? ==> |r.value| <= max
  {
    var limit := CheckedAdd(max, 1);
    if limit.None? then Err(ReadLimitTooLarge)
    else if path !in x.files then Err(Unreadable)
    else if x.files[path].size > max then Err(SourceTooLarge)
    else
      var content := x.files[path].content;
      var bytes := if |content| > limit.value then content[..limit.value] else content;
      if |bytes| > max then Err(SourceTooLarge) else Ok(bytes)
  }

  /** One mapping, read within what is left of the budget. */
  function ReadMapping(x: Environment, spec: string, remaining: Option<u64>): Result<Payload, PackError> {
    var mapping := SplitOnce(spec);
    if mapping.None? then Err(BadMapping)
    else if mapping.value.value == "" then Err(EmptySource)
    else if !x.isPath(mapping.value.name) then Err(BadPath)
    else if remaining.None? then Err(Underflow)
    else
      var bytes :- ReadInput(x, mapping.value.value, remaining.value);
      Ok(Payload(mapping.value.name, bytes))
  }

  /** How one mapping is read within a remaining budget. */
  type Reader = (string, Option<u64>) -> Result<Payload, PackError>

  function ReaderOf(x: Environment): Reader {
    (spec, remaining) => ReadMapping(x, spec, remaining)
  }

  /** The loop of `pack_command` with `total` bytes and `payloads` already taken. */
  function PackFrom(read: Reader, specs: seq<string>, limit: u64, total: u64, payloads: seq<Payload>): Result<seq<Payload>, PackError>
    decreases |specs|
  {
    if specs == [] then Ok(payloads)
    else
      var payload :- read(specs[0], CheckedSub(limit, total));
      var next := CheckedAdd(total, |payload.bytes|);
      if next.None? then Err(Overflow) else PackFrom(read, specs[1..], limit, next.value, payloads + [payload])
  }

  /** `pack_command` up to the construction of the capsule. */
  function Pack(x: Environment, specs: seq<string>, limits: Limits): Result<seq<Payload>, PackError> {
    if |specs| > limits.maxFiles then Err(TooManyMappings) else PackFrom(ReaderOf(x), specs, limits.maxTotalBytes, 0, [])
  }

  method PackPayloads(x: Environment, specs: seq<string>, limits: Limits) returns (r: Result<seq<Payload>, PackError>)
    ensures r == Pack(x, specs, limits)
  {
    if |specs| > limits.maxFiles {
      return Err(TooManyMappings);
    }
    var payloads := [];
    var total: u64 := 0;
    for i := 0 to |specs|
      invariant Pack(x, specs, limits) == PackFrom(ReaderOf(x), specs[i..], limits.maxTotalBytes, total, payloads)
    {
      assert specs[i..][1..] == specs[i + 1..];
      var payload := ReadMapping(x, specs[i], CheckedSub(limits.maxTotalBytes, total));
      if payload.Err? {
        return Err(payload.error);
      }
      var next := CheckedAdd(total, |payload.value.bytes|);
      if next.None? {
        return Err(Overflow);
      }
      total := next.value;
      payloads := payloads + [payload.value];
    }
    return Ok(payloads);
  }

  // ---- Safety, whatever the files do -----------------------------------------------------

  lemma TotalBytesAppend(payloads: seq<Payload>, p: Payload)
    ensures TotalBytes(payloads + [p]) == TotalBytes(payloads) + |p.bytes|
  {
    assert (payloads + [p])[..|payloads|] == payloads;
  }

  /** A reader that stays within what it is given, and reports no accounting error then. */
  ghost predicate Bounded(read: Reader) {
    forall spec, max: u64 ::
      var r := read(spec, Some(max));
      (r.Err? ==> r.error != Underflow && r.error != Overflow && r.error != TooManyMappings) && (r.Ok? ==> |r.value.bytes| <= max)
  }

  /** The accounting errors are unreachable, and whatever is taken fits the budget. */
  lemma {:induction false} Budget(read: Reader, specs: seq<string>, limit: u64, total: u64, payloads: seq<Payload>)
    requires Bounded(read) && total == TotalBytes(payloads) <= limit
    ensures var r := PackFrom(read, specs, limit, total, payloads);
            && (r.Err? ==> r.error != Underflow && r.error != Overflow && r.error != TooManyMappings)
            && (r.Ok? ==> |r.value| == |payloads| + |specs| && TotalBytes(r.value) <= limit)
    decreases |specs|
  {
    if specs != [] {
      assert CheckedSub(limit, total) == Some(limit - total);
      var payload := read(specs[0], Some(limit - total));
      if payload.Ok? {
        TotalBytesAppend(payloads, payload.value);
        Budget(read, specs[1..], limit, total + |payload.value.bytes|, payloads + [payload.value]);
      }
    }
  }

  lemma ReaderBounded(x: Environment)
    ensures Bounded(ReaderOf(x))
  {
  }

  /** Whatever `pack` accepts passes the count and byte checks of the preflight under the same
      limits; the accounting errors are unreachable. */
  lemma PackedFits(x: Environment, specs: seq<string>, limits: Limits)
    ensures var r := Pack(x, specs, limits);
            && (r.Err? ==> r.error != Underflow && r.error != Overflow)
            && (r.Ok? ==> |r.value| <= limits.maxFiles && TotalBytes(r.value) <= limits.maxTotalBytes)
  {
    ReaderBounded(x);
    hide Bounded, PackFrom;
    Budget(ReaderOf(x), specs, limits.maxTotalBytes, 0, []);
  }

  // ---- Completion ------------------------------------------------------------------------

  /** The mapping is well formed and its source readable and of stable size. */
  predicate Readable(x: Environment, spec: string) {
    var mapping := SplitOnce(spec);
    && mapping.Some? && mapping.value.value != "" && x.isPath(mapping.value.name)
    && mapping.value.value in x.files
    && x.files[mapping.value.value].size == |x.files[mapping.value.value].content|
  }

  /** The payload of a mapping whose source can be read. */
  function PayloadOf(x: Environment, spec: string): Payload {
    var mapping := SplitOnce(spec);
    if mapping.Some? && mapping.value.value in x.files
    then Payload(mapping.value.name, x.files[mapping.value.value].content)
    else Payload("", "")
  }

  function ContentOf(x: Environment): string -> Payload {
    spec => PayloadOf(x, spec)
  }

  lemma ReadMappingIff(x: Environment, spec: string, max: u64)
    requires Readable(x, spec) && max < U64_MAX
    ensures ReadMapping(x, spec, Some(max)) == Within(PayloadOf(x, spec), max)
  {
  }

  function Within(p: Payload, max: u64): Result<Payload, PackError> {
    if |p.bytes| <= max then Ok(p) else Err(SourceTooLarge)
  }

  /** The reader yields `f` of each mapping, whenever it fits. */
  ghost predicate Yields(read: Reader, specs: seq<string>, f: string -> Payload) {
    forall s, max: u64 :: s in specs && max < U64_MAX ==> read(s, Some(max)) == Within(f(s), max)
  }

  function PayloadsOf(specs: seq<string>, f: string -> Payload): seq<Payload> {
    if specs == [] then [] else [f(specs[0])] + PayloadsOf(specs[1..], f)
  }

  function SizeOf(specs: seq<string>, f: string -> Payload): nat {
    if specs == [] then 0 else |f(specs[0]).bytes| + SizeOf(specs[1..], f)
  }

  lemma {:induction false} PackFromIff(read: Reader, specs: seq<string>, f: string -> Payload, limit: u64, total: u64, payloads: seq<Payload>)
    requires Yields(read, specs, f) && total <= limit < U64_MAX
    ensures PackFrom(read, specs, limit, total, payloads)
         == if total + SizeOf(specs, f) <= limit then Ok(payloads + PayloadsOf(specs, f)) else Err(SourceTooLarge)
    decreases |specs|
  {
    if specs == [] {
      assert payloads + PayloadsOf(specs, f) == payloads;
    } else {
      var p, rest := f(specs[0]), specs[1..];
      assert specs[0] in specs;
      assert read(specs[0], CheckedSub(limit, total)) == Within(p, limit - total);
      assert forall s :: s in rest ==> s in specs;
      assert (payloads + [p]) + PayloadsOf(rest, f) == payloads + ([p] + PayloadsOf(rest, f));
      if total + |p.bytes| <= limit {
        PackFromIff(read, rest, f, limit, total + |p.bytes|, payloads + [p]);
      }
    }
  }

  /** For readable, size-stable sources, `pack` completes exactly when the mappings and the total
      size are within the limits and the byte limit is not the largest `u64`; it then holds
      exactly the sources. */
  lemma PackIff(x: Environment, specs: seq<string>, limits: Limits)
    requires specs != [] && forall s :: s in specs ==> Readable(x, s)
    ensures var f := ContentOf(x);
            && (Pack(x, specs, limits).Ok? <==>
                  |specs| <= limits.maxFiles && SizeOf(specs, f) <= limits.maxTotalBytes && limits.maxTotalBytes < U64_MAX)
            && (Pack(x, specs, limits).Ok? ==> Pack(x, specs, limits).value == PayloadsOf(specs, f))
  {
    var read, f := ReaderOf(x), ContentOf(x);
    if limits.maxTotalBytes < U64_MAX {
      ReaderYields(x, specs);
      hide Readable, ReaderOf, ContentOf, PackFrom, PayloadsOf, SizeOf, Yields;
      PackFromIff(read, specs, f, limits.maxTotalBytes, 0, []);
      assert [] + PayloadsOf(specs, f) == PayloadsOf(specs, f);
    } else {
      hide PackFrom, ReaderOf, ContentOf, Readable, SizeOf;
      LargestBudget(x, specs, limits);
    }
  }

  /** With the largest `u64` as its byte limit, `pack` reads nothing. */
  lemma LargestBudget(x: Environment, specs: seq<string>, limits: Limits)
    requires specs != [] && limits.maxTotalBytes == U64_MAX
    ensures Pack(x, specs, limits).Err?
  {
    hide PackFrom, ReaderOf, ContentOf;
    PackExact(x, specs, limits);
    assert SizeOf(specs[..0], ContentOf(x)) == 0;
    assert !Takes(x, specs[0], limits.maxTotalBytes - SizeOf(specs[..0], ContentOf(x)));
  }

  lemma ReaderYields(x: Environment, specs: seq<string>)
    requires forall s :: s in specs ==> Readable(x, s)
    ensures Yields(ReaderOf(x), specs, ContentOf(x))
  {
    hide ReadMapping, PayloadOf, Readable;
    forall s, max: u64 | s in specs && max < U64_MAX
      ensures ReaderOf(x)(s, Some(max)) == Within(ContentOf(x)(s), max)
    {
      ReadMappingIff(x, s, max);
    }
  }

  /** The mapping is well formed, and both the size its metadata reports and what is read stay within
      the room left, which is not the largest `u64`. */
  predicate Takes(x: Environment, spec: string, room: int) {
    var mapping := SplitOnce(spec);
    && mapping.Some? && mapping.value.value != "" && x.isPath(mapping.value.name)
    && mapping.value.value in x.files
    && (var source := x.files[mapping.value.value];
        source.size <= room && |source.content| <= room)
    && room < U64_MAX
  }

  /** Every mapping fits the room that the ones before it leave. */
  ghost predicate TakesAll(x: Environment, specs: seq<string>, room: int) {
    var f := ContentOf(x);
    forall i :: 0 <= i < |specs| ==> Takes(x, specs[i], room - SizeOf(specs[..i], f))
  }

  lemma TakesAllStep(x: Environment, specs: seq<string>, room: int)
    requires specs != []
    ensures var rest := room - |PayloadOf(x, specs[0]).bytes|;
            TakesAll(x, specs, room) <==> Takes(x, specs[0], room) && TakesAll(x, specs[1..], rest)
  {
    hide Takes, PayloadOf;
    var f, tail := ContentOf(x), specs[1..];
    assert SizeOf(specs[..0], f) == 0;
    forall i | 0 <= i < |tail|
      ensures tail[i] == specs[i + 1] && SizeOf(specs[..i + 1], f) == |f(specs[0]).bytes| + SizeOf(tail[..i], f)
    {
      assert specs[..i + 1][1..] == tail[..i];
    }
    if TakesAll(x, specs, room) {
      assert Takes(x, specs[0], room - SizeOf(specs[..0], f));
      forall i | 0 <= i < |tail|
        ensures Takes(x, tail[i], room - |f(specs[0]).bytes| - SizeOf(tail[..i], f))
      {
        assert Takes(x, specs[i + 1], room - SizeOf(specs[..i + 1], f));
      }
    }
    if Takes(x, specs[0], room) && TakesAll(x, tail, room - |f(specs[0]).bytes|) {
      forall i | 0 <= i < |specs|
        ensures Takes(x, specs[i], room - SizeOf(specs[..i], f))
      {
        if i > 0 {
          assert Takes(x, tail[i - 1], room - |f(specs[0]).bytes| - SizeOf(tail[..i - 1], f));
        }
      }
    }
  }

  lemma NoneTaken(x: Environment, room: int)
    ensures TakesAll(x, [], room)
  {
  }

  lemma {:induction false} PackFromExact(x: Environment, specs: seq<string>, limit: u64, total: u64, payloads: seq<Payload>)
    requires total <= limit
    ensures var r := PackFrom(ReaderOf(x), specs, limit, total, payloads);
            && (r.Ok? <==> TakesAll(x, specs, limit - total))
            && (r.Ok? ==> r.value == payloads + PayloadsOf(specs, ContentOf(x)))
    decreases |specs|
  {
    hide Takes, ReadMapping, PayloadOf, TakesAll;
    if specs == [] {
      NoneTaken(x, limit - total);
      assert payloads + PayloadsOf(specs, ContentOf(x)) == payloads;
    } else {
      TakesAllStep(x, specs, limit - total);
      var read := ReaderOf(x)(specs[0], Some(limit - total));
      ReadMappingExact(x, specs[0], limit - total);
      if read.Ok? {
        var p := read.value;
        PackFromExact(x, specs[1..], limit, total + |p.bytes|, payloads + [p]);
        assert (payloads + [p]) + PayloadsOf(specs[1..], ContentOf(x))
            == payloads + ([p] + PayloadsOf(specs[1..], ContentOf(x)));
      }
    }
  }

  lemma ReadMappingExact(x: Environment, spec: string, room: u64)
    ensures var r := ReadMapping(x, spec, Some(room));
            && (r.Ok? <==> Takes(x, spec, room))
            && (r.Ok? ==> r.value == PayloadOf(x, spec) && |r.value.bytes| <= room)
  {
  }

  /** Whatever the files report and hold: `pack` completes exactly when the mappings are within the
      limit and each fits, by its metadata and by its bytes, what the ones before it leave of the
      budget; it then holds exactly what was read, in order. */
  lemma PackExact(x: Environment, specs: seq<string>, limits: Limits)
    ensures var r := Pack(x, specs, limits);
            && (r == Err(TooManyMappings) <==> |specs| > limits.maxFiles)
            && (r.Ok? <==> |specs| <= limits.maxFiles && TakesAll(x, specs, limits.maxTotalBytes))
            && (r.Ok? ==> r.value == PayloadsOf(specs, ContentOf(x)))
  {
    hide PackFrom, TakesAll, PayloadsOf, ReaderOf, ContentOf, Bounded;
    PackFromExact(x, specs, limits.maxTotalBytes, 0, []);
    ReaderBounded(x);
    Budget(ReaderOf(x), specs, limits.maxTotalBytes, 0, []);
    assert [] + PayloadsOf(specs, ContentOf(x)) == PayloadsOf(specs, ContentOf(x));
  }

  /** One mapping taken out from anywhere. */
  lemma {:induction false} SizeWithout(specs: seq<string>, f: string -> Payload, k: nat)
    requires k < |specs|
    ensures SizeOf(specs, f) == |f(specs[k]).bytes| + SizeOf(specs[..k] + specs[k + 1..], f)
  {
    var rest := specs[..k] + specs[k + 1..];
    if k == 0 {
      assert rest == specs[1..];
    } else {
      SizeWithout(specs[1..], f, k - 1);
      assert rest[1..] == specs[1..][..k - 1] + specs[1..][k..];
    }
  }

  lemma {:induction false} SizePermuted(a: seq<string>, b: seq<string>, f: string -> Payload)
    requires multiset(a) == multiset(b)
    ensures SizeOf(a, f) == SizeOf(b, f)
  {
    if a == [] {
      assert |multiset(b)| == 0;
    } else {
      assert a[0] in multiset(b);
      var k :| 0 <= k < |b| && b[k] == a[0];
      SizeWithout(b, f, k);
      WithoutFirst(a, b, k);
      SizePermuted(a[1..], b[..k] + b[k + 1..], f);
    }
  }

  lemma {:induction false} PayloadsWithout(specs: seq<string>, f: string -> Payload, k: nat)
    requires k < |specs|
    ensures multiset(PayloadsOf(specs, f)) == multiset{f(specs[k])} + multiset(PayloadsOf(specs[..k] + specs[k + 1..], f))
  {
    var rest := specs[..k] + specs[k + 1..];
    if k == 0 {
      assert rest == specs[1..];
    } else {
      PayloadsWithout(specs[1..], f, k - 1);
      assert rest[1..] == specs[1..][..k - 1] + specs[1..][k..];
    }
  }

  lemma {:induction false} PayloadsPermuted(a: seq<string>, b: seq<string>, f: string -> Payload)
    requires multiset(a) == multiset(b)
    ensures multiset(PayloadsOf(a, f)) == multiset(PayloadsOf(b, f))
  {
    if a == [] {
      assert |multiset(b)| == 0;
    } else {
      assert a[0] in multiset(b);
      var k :| 0 <= k < |b| && b[k] == a[0];
      PayloadsWithout(b, f, k);
      WithoutFirst(a, b, k);
      PayloadsPermuted(a[1..], b[..k] + b[k + 1..], f);
    }
  }

  /** The order of the mappings matters neither for completion nor for which payloads are packed. */
  lemma OrderIrrelevant(x: Environment, a: seq<string>, b: seq<string>, limits: Limits)
    requires multiset(a) == multiset(b) && forall s :: s in a ==> Readable(x, s)
    ensures var r, q := Pack(x, a, limits), Pack(x, b, limits);
            (r.Ok? <==> q.Ok?) && (r.Ok? ==> multiset(r.value) == multiset(q.value))
  {
    assert forall s :: s in b ==> s in multiset(b) && s in multiset(a) && s in a;
    assert |a| == |multiset(a)| == |multiset(b)| == |b|;
    if a != [] {
      SizePermuted(a, b, ContentOf(x));
      PayloadsPermuted(a, b, ContentOf(x));
      PackIff(x, a, limits);
      PackIff(x, b, limits);
    }
  }
}
