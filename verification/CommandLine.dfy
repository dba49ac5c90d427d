/** What a command line says, apart from how a parser goes through it. */
module CommandLine {
  import opened Basics
  import Decimal

  /** One option and its value as given on the command line; a missing value counts as empty. */
  datatype Opt = Opt(flag: string, value: string)

  /** The values given for a flag, in order. */
  function Given(opts: seq<Opt>, flag: string): seq<string> {
    if opts == [] then []
    else (if opts[0].flag == flag then [opts[0].value] else []) + Given(opts[1..], flag)
  }

  lemma GivenFirst(o: Opt, rest: seq<Opt>, flag: string)
    ensures Given([o] + rest, flag) == if o.flag == flag then [o.value] + Given(rest, flag) else Given(rest, flag)
  {
    assert ([o] + rest)[1..] == rest;
  }

  lemma {:induction false} GivenConcat(a: seq<Opt>, b: seq<Opt>, flag: string)
    ensures Given(a + b, flag) == Given(a, flag) + Given(b, flag)
  {
    if a == [] {
      assert a + b == b;
    } else {
      assert (a + b)[1..] == a[1..] + b;
      GivenConcat(a[1..], b, flag);
    }
  }

  /** The same flag with each of the values. */
  function EachAs(flag: string, values: seq<string>): (opts: seq<Opt>)
    ensures forall o :: o in opts ==> o.flag == flag && o.value in values
  {
    if values == [] then [] else [Opt(flag, values[0])] + EachAs(flag, values[1..])
  }

  lemma {:induction false} GivenEach(flag: string, values: seq<string>, wanted: string)
    ensures Given(EachAs(flag, values), wanted) == if wanted == flag then values else []
  {
    if values != [] {
      GivenEach(flag, values[1..], wanted);
      assert values == [values[0]] + values[1..];
    }
  }

  /** An option that may be given once: the value it had or the one given. */
  ghost predicate Once(before: Option<string>, given: seq<string>, after: Option<string>) {
    (given == [] && after == before) || (|given| == 1 && before.None? && after == Some(given[0]))
  }

  lemma OnceFirst(before: Option<string>, value: string, more: seq<string>, after: Option<string>)
    ensures Once(before, [value] + more, after) <==> before.None? && Once(Some(value), more, after)
  {
  }

  /** A number that may be given once, within a range. */
  ghost predicate OnceNumber(before: Option<u64>, given: seq<string>, min: u64, max: u64, after: Option<u64>) {
    || (given == [] && after == before)
    || (|given| == 1 && before.None? && after.Some? && Decimal.Parse(given[0], U64_MAX) == Some(after.value) && min <= after.value <= max)
  }

  lemma OnceNumberFirst(before: Option<u64>, value: string, more: seq<string>, min: u64, max: u64, after: Option<u64>)
    ensures OnceNumber(before, [value] + more, min, max, after) <==>
            && before.None? && Decimal.Parse(value, U64_MAX).Some? && min <= Decimal.Parse(value, U64_MAX).value <= max
            && OnceNumber(Some(Decimal.Parse(value, U64_MAX).value), more, min, max, after)
  {
    hide Decimal.Parse;
  }

  /** The number given for a flag, or its default. */
  ghost predicate NumberOr(given: seq<string>, default: u64, min: u64, max: u64, n: u64) {
    || (given == [] && n == default)
    || (|given| == 1 && Decimal.Parse(given[0], U64_MAX) == Some(n) && min <= n <= max)
  }
}
