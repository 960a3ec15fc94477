/** The outcome of reading a value off the front of a sequence. */
module Results {
  import opened Bytes

  datatype ParsedFrom<S, T> = Fail | Ok(value: T, rest: seq<S>)

  type Parsed<T> = ParsedFrom<Byte, T>

  /** A list read in a loop: what is in it already, then what is still to be read. */
  ghost function Prefixed<S, T>(xs: seq<T>, p: ParsedFrom<S, seq<T>>): ParsedFrom<S, seq<T>> {
    if p.Fail? then Fail else Ok(xs + p.value, p.rest)
  }

  lemma PrefixNothing<S, T>(p: ParsedFrom<S, seq<T>>)
    ensures Prefixed([], p) == p
  {
    if p.Ok? {
      assert [] + p.value == p.value;
    }
  }

  lemma PrefixOne<S, T>(xs: seq<T>, x: T, p: ParsedFrom<S, seq<T>>)
    ensures Prefixed(xs, Prefixed([x], p)) == Prefixed(xs + [x], p)
  {
    if p.Ok? {
      assert xs + ([x] + p.value) == (xs + [x]) + p.value;
    }
  }
}
