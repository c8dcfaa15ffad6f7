/** The partial-write loop of `json_object_write` (src/server/tchatator413-server.c). */
module WriteLoop {

  /** What write(2) answers to the k-th call with `len` bytes left: -1, or how many
      bytes it took, at least one. */
  type Writer = (nat, nat) -> int

  ghost predicate Writes(w: Writer) {
    forall k: nat, len: nat :: len > 0 ==> w(k, len) == -1 || 1 <= w(k, len) <= len
  }

  function Flatten(chunks: seq<string>): string {
    if chunks == [] then "" else Flatten(chunks[..|chunks| - 1]) + chunks[|chunks| - 1]
  }

  lemma FlattenOne(chunks: seq<string>, c: string)
    ensures Flatten(chunks + [c]) == Flatten(chunks) + c
  {
  }

  /** Moving `n` bytes from what is left to what is written changes nothing overall. */
  lemma Moved(done: string, left: string, n: nat)
    requires n <= |left|
    ensures done + left[..n] + left[n..] == done + left
  {
  }

  /** The loop ends; when no write failed the chunks are exactly the payload and its
      NUL, otherwise they are what precedes the failing call. */
  method WriteAll(payload: string, w: Writer) returns (ok: bool, chunks: seq<string>)
    requires Writes(w)
    ensures ok ==> Flatten(chunks) == payload + ['\0']
    ensures !ok ==> Flatten(chunks) < payload + ['\0']
                    && w(|chunks|, |payload| + 1 - |Flatten(chunks)|) == -1
    ensures forall k :: 0 <= k < |chunks| ==> chunks[k] != ""
  {
    var output := payload + ['\0'];
    var len := |output|;
    chunks := [];
    while true
      invariant 0 < len == |output|
      invariant Flatten(chunks) + output == payload + ['\0']
      invariant forall k :: 0 <= k < |chunks| ==> chunks[k] != ""
      decreases len
    {
      var n := w(|chunks|, len);
      if n == -1 {
        return false, chunks;
      }
      assert 1 <= n <= len;
      FlattenOne(chunks, output[..n]);
      Moved(Flatten(chunks), output, n);
      chunks := chunks + [output[..n]];
      output := output[n..];
      len := len - n;
      if len == 0 {
        assert output == "";
        return true, chunks;
      }
    }
  }
}
