/** Vocabulary shared by the model: results, C integers and C strings, and a few
    facts about sequences.  A `char` of a `string` stands for one byte. */
module Base {

  datatype Option<+T> = None | Some(value: T)

  /** A failure-compatible result, used with `:-` for the source's early exits. */
  datatype Result<+T, +E> = Ok(value: T) | Err(error: E) {
    predicate IsFailure() {
      Err?
    }

    function PropagateFailure<U>(): Result<U, E>
      requires Err?
    {
      Err(error)
    }

    function Extract(): T
      requires Ok?
    {
      value
    }
  }

  const INT32_MAX := 0x7FFF_FFFF
  const INT32_MIN := -0x8000_0000

  function Min(a: int, b: int): int {
    if a < b then a else b
  }

  function Max(a: int, b: int): int {
    if a > b then a else b
  }

  /** Saturation to 32 bits, what json-c does when it hands out an `int`. */
  function Clamp32(n: int): int {
    Max(INT32_MIN, Min(n, INT32_MAX))
  }

  /** Two's complement wrap-around to 32 bits. */
  function Wrap32(n: int): int {
    (n - INT32_MIN) % 0x1_0000_0000 + INT32_MIN
  }

  /** What a C function sees of a buffer: the bytes before the first NUL. */
  function CStr(s: string): (r: string)
    ensures r <= s && '\0' !in r
    ensures r == s || s[|r|] == '\0'
  {
    if s == "" || s[0] == '\0' then "" else [s[0]] + CStr(s[1..])
  }

  /** A string without NUL is seen whole. */
  lemma CStrWhole(s: string)
    ensures CStr(s) == s <==> '\0' !in s
  {
  }

  function Reverse<T>(xs: seq<T>): (r: seq<T>)
    ensures |r| == |xs|
    ensures forall i :: 0 <= i < |xs| ==> r[i] == xs[|xs| - 1 - i]
  {
    if xs == [] then [] else [xs[|xs| - 1]] + Reverse(xs[..|xs| - 1])
  }

  /** The elements that satisfy `p`, in order. */
  function Filter<T(!new)>(xs: seq<T>, p: T -> bool): (r: seq<T>)
    ensures |r| <= |xs|
    ensures forall x {:trigger x in r} :: x in r ==> x in xs && p(x)
    ensures forall x {:trigger x in xs, x in r} :: x in xs && p(x) ==> x in r
  {
    if xs == [] then []
    else
      var n := |xs| - 1;
      assert xs == xs[..n] + [xs[n]];
      Filter(xs[..n], p) + if p(xs[n]) then [xs[n]] else []
  }

  lemma {:induction false} FilterConcat<T(!new)>(xs: seq<T>, ys: seq<T>, p: T -> bool)
    ensures Filter(xs + ys, p) == Filter(xs, p) + Filter(ys, p)
  {
    if ys == [] {
      assert xs + ys == xs;
    } else {
      var n := |ys| - 1;
      assert (xs + ys)[..|xs| + n] == xs + ys[..n];
      FilterConcat(xs, ys[..n], p);
    }
  }

  lemma {:induction false} FilterMultiset<T(!new)>(xs: seq<T>, p: T -> bool)
    ensures forall x :: multiset(Filter(xs, p))[x] == if p(x) then multiset(xs)[x] else 0
  {
    if xs != [] {
      var n := |xs| - 1;
      assert xs == xs[..n] + [xs[n]];
      FilterMultiset(xs[..n], p);
    }
  }

  lemma ReverseSnoc<T>(xs: seq<T>, x: T)
    ensures Reverse(xs + [x]) == [x] + Reverse(xs)
  {
    assert (xs + [x])[..|xs|] == xs;
  }

  lemma {:induction false} FilterReverse<T(!new)>(xs: seq<T>, p: T -> bool)
    ensures Filter(Reverse(xs), p) == Reverse(Filter(xs, p))
  {
    if xs != [] {
      var n := |xs| - 1;
      FilterReverse(xs[..n], p);
      FilterConcat([xs[n]], Reverse(xs[..n]), p);
      if p(xs[n]) {
        ReverseSnoc(Filter(xs[..n], p), xs[n]);
      }
    }
  }

  /** Filtering twice is filtering once by both tests. */
  lemma {:induction false} FilterFilter<T(!new)>(xs: seq<T>, p: T -> bool, q: T -> bool, both: T -> bool)
    requires forall x :: both(x) == (p(x) && q(x))
    ensures Filter(Filter(xs, p), q) == Filter(xs, both)
  {
    if xs != [] {
      var n := |xs| - 1;
      FilterFilter(xs[..n], p, q, both);
      var last := if p(xs[n]) then [xs[n]] else [];
      FilterConcat(Filter(xs[..n], p), last, q);
    }
  }
}
