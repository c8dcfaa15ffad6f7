/** `fslurp` of src/common/util.c: reading a whole stream into a growing buffer. */
module Slurp {

  /** A 64-bit size_t: arithmetic on it is checked not to wrap. */
  newtype SizeT = x: int | 0 <= x < 0x1_0000_0000_0000_0000

  const INT_MAX: SizeT := 0x7FFF_FFFF

  /** The buffer size after `k` growths. */
  function Capacity(k: nat): (size: nat)
    ensures size >= 1024
  {
    if k == 0 then 1024 else 11 * Capacity(k - 1)
  }

  /** The size guard lets the buffer grow seven times and no more. */
  const GROWTHS := 7

  lemma CapacityValues()
    ensures Capacity(1) == 11264 && Capacity(2) == 123904 && Capacity(3) == 1362944 && Capacity(4) == 14992384
    ensures Capacity(5) == 164916224 && Capacity(6) == 1814078464 && Capacity(7) == 19954863104
  {
  }

  predicate Granted(grants: SizeT -> bool, k: nat) {
    Capacity(k) < 0x1_0000_0000_0000_0000 && grants(Capacity(k) as SizeT)
  }

  /** The allocator grants the first buffer and each of `k` growths. */
  predicate Feasible(grants: SizeT -> bool, k: nat) {
    Granted(grants, k) && (k > 0 ==> Feasible(grants, k - 1))
  }

  /** A stream of `n` bytes makes the buffer reach its k-th size. */
  predicate Reaches(k: nat, n: nat) {
    k == 0 || n > Capacity(k - 1) - 2
  }

  /** What reading `n` bytes takes: the guard lets the buffer grow far enough, and the
      allocator grants every size on the way. */
  predicate Readable(n: nat, grants: SizeT -> bool) {
    && n <= Capacity(GROWTHS) - 2
    && forall k: nat :: k <= GROWTHS && Reaches(k, n) ==> Granted(grants, k)
  }

  /** The size guard, whose subtractions never wrap, stops the eighth growth and no
      earlier one; the growth, whose product never wraps either, multiplies by 11. */
  lemma GuardStopsAtSeven(k: nat, size: SizeT)
    requires k <= GROWTHS && size as int == Capacity(k)
    ensures size / 10 <= INT_MAX - 100
    ensures size > INT_MAX - 100 - size / 10 <==> k == GROWTHS
    ensures size <= 0xFFFF_FFFF_FFFF_FFFF / 100 && size + 100 * size / 10 == 11 * size
  {
    CapacityValues();
  }

  /** `realloc` to a granted size. */
  method Realloc(from: array<char>, size: SizeT) returns (buf: array<char>)
    ensures fresh(buf) && buf.Length == size as int
    ensures forall j :: 0 <= j < from.Length && j < buf.Length ==> buf[j] == from[j]
  {
    buf := new char[size];
    forall j | 0 <= j < from.Length && j < buf.Length {
      buf[j] := from[j];
    }
  }

  /** The growth step: guard, new size, reallocation. */
  method Enlarge(buf: array<char>, bufsize: SizeT, grants: SizeT -> bool, ghost k: nat)
    returns (temp: array?<char>, size: SizeT)
    requires k <= GROWTHS && bufsize as int == Capacity(k) == buf.Length
    ensures temp == null <==> k == GROWTHS || !Granted(grants, k + 1)
    ensures temp != null ==> fresh(temp) && size as int == Capacity(k + 1) == temp.Length
    ensures temp != null ==> forall j :: 0 <= j < buf.Length ==> temp[j] == buf[j]
  {
    size := bufsize;
    GuardStopsAtSeven(k, bufsize);
    if bufsize > INT_MAX - 100 - bufsize / 10 {
      return null, size;
    }
    size := bufsize + 100 * bufsize / 10;
    if !grants(size) {
      return null, size;
    }
    temp := Realloc(buf, size);
  }

  /** Room for one more byte beside the two kept free: the buffer itself or a larger
      one, unless the guard or the allocator says no. */
  method MakeRoom(buf: array<char>, bufsize: SizeT, i: SizeT, grants: SizeT -> bool, ghost k: nat)
    returns (next: array?<char>, size: SizeT, ghost k': nat)
    requires k <= GROWTHS && bufsize as int == Capacity(k) == buf.Length && i <= bufsize - 2
    ensures k' == if i < bufsize - 2 then k else k + 1
    ensures next == null <==> k' > GROWTHS || (k' > k && !Granted(grants, k'))
    ensures next != null ==> (next == buf || fresh(next)) && size as int == Capacity(k') == next.Length && i < size - 2
    ensures next != null ==> forall j :: 0 <= j < i as int ==> next[j] == buf[j]
  {
    k' := k;
    next, size := buf, bufsize;
    if i == bufsize - 2 {
      k' := k + 1;
      next, size := Enlarge(buf, bufsize, grants, k);
    }
  }

  /** The reading loop: a buffer that holds the stream with two bytes to spare, grown
      `k` times, or null when the guard or the allocator refused the k-th size. */
  method Fill(stream: string, grants: SizeT -> bool) returns (answer: array?<char>, ghost k: nat)
    ensures Reaches(k, |stream|)
    ensures answer == null ==> k > GROWTHS || !Granted(grants, k)
    ensures answer != null ==> k <= GROWTHS && Feasible(grants, k)
    ensures answer != null ==> fresh(answer) && |stream| <= answer.Length - 2 && answer.Length == Capacity(k)
    ensures answer != null ==> forall j :: 0 <= j < |stream| ==> answer[j] == stream[j]
  {
    var bufsize: SizeT := 1024;
    var i: SizeT := 0;
    k := 0;
    if !grants(1024) {
      return null, 0;
    }
    var buf := new char[1024];
    while i as int < |stream|
      invariant fresh(buf)
      invariant k <= GROWTHS && Feasible(grants, k) && Reaches(k, i as int)
      invariant bufsize as int == Capacity(k) == buf.Length
      invariant i as int <= |stream| && i <= bufsize - 2
      invariant forall j :: 0 <= j < i as int ==> buf[j] == stream[j]
      decreases |stream| - i as int
    {
      var next;
      ghost var before := k;
      next, bufsize, k := MakeRoom(buf, bufsize, i, grants, before);
      if next == null {
        return null, k;
      }
      buf := next;
      buf[i] := stream[i];
      i := i + 1;
    }
    answer := buf;
  }

  lemma {:induction false} CapacityGrows(j: nat, k: nat)
    requires j <= k
    ensures Capacity(j) <= Capacity(k)
  {
    if j < k {
      CapacityGrows(j, k - 1);
    }
  }

  lemma ReachedAndRefused(n: nat, grants: SizeT -> bool, k: nat)
    requires Reaches(k, n) && (k > GROWTHS || !Granted(grants, k))
    ensures !Readable(n, grants)
  {
    if k > GROWTHS {
      CapacityGrows(GROWTHS, k - 1);
    }
  }

  lemma FitsAndGranted(n: nat, grants: SizeT -> bool, k: nat)
    requires k <= GROWTHS && Feasible(grants, k) && n <= Capacity(k) - 2
    ensures Readable(n, grants)
  {
  }

  /** Returns the stream's bytes and a final NUL.  It fails exactly when the stream
      is too long for the guard or one of the allocations it needs is refused;
      `grants` tells which sizes the allocator grants. */
  method Slurp(stream: string, grants: SizeT -> bool) returns (answer: array?<char>)
    ensures answer != null <==> Readable(|stream|, grants)
    ensures answer != null ==> |stream| < answer.Length && answer[..|stream| + 1] == stream + ['\0']
    ensures answer != null && grants((|stream| + 1) as SizeT) ==> answer.Length == |stream| + 1
  {
    ghost var k;
    answer, k := Fill(stream, grants);
    if answer == null {
      ReachedAndRefused(|stream|, grants, k);
      return;
    }
    FitsAndGranted(|stream|, grants, k);
    CapacityValues();
    var i := (|stream| + 1) as SizeT;
    answer[i - 1] := '\0';
    if grants(i) {
      answer := Realloc(answer, i);
    }
    assert answer[..i] == stream + ['\0'];
  }
}
