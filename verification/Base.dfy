/** Byte strings, options and the small sequence facts that several modules share. */
module Base {

  type byte = x: int | 0 <= x < 256

  type bytes = seq<byte>

  datatype Option<+T> = None | Some(value: T)

  datatype Result<+T, +E> = Success(value: T) | Failure(error: E)

  function Min(a: int, b: int): int { if a <= b then a else b }

  function Max(a: int, b: int): int { if a <= b then b else a }

  lemma Assoc<T>(a: seq<T>, b: seq<T>, c: seq<T>)
    ensures a + (b + c) == (a + b) + c
  {
  }

  lemma Around<T>(s: seq<T>, k: nat)
    requires k < |s|
    ensures s == s[..k] + [s[k]] + s[k + 1..]
  {
  }

  /** The byte strings of `parts` one after the other. */
  function Concat(parts: seq<bytes>): bytes {
    if parts == [] then [] else Concat(parts[..|parts| - 1]) + parts[|parts| - 1]
  }

  lemma {:induction false} ConcatAppend(a: seq<bytes>, b: seq<bytes>)
    ensures Concat(a + b) == Concat(a) + Concat(b)
  {
    if b == [] {
      assert a + b == a;
    } else {
      var init := b[..|b| - 1];
      ConcatAppend(a, init);
      assert (a + b)[..|a + b| - 1] == a + init && (a + b)[|a + b| - 1] == b[|b| - 1];
      Assoc(Concat(a), Concat(init), b[|b| - 1]);
    }
  }

  lemma ConcatSplit(parts: seq<bytes>, n: nat)
    requires n <= |parts|
    ensures Concat(parts) == Concat(parts[..n]) + Concat(parts[n..])
  {
    hide Concat;
    ConcatAppend(parts[..n], parts[n..]);
    assert parts == parts[..n] + parts[n..];
  }

  lemma ConcatOne(part: bytes)
    ensures Concat([part]) == part
  {
    assert Concat([part]) == Concat([]) + part;
  }

  /** Go's copy: as much of `src` as fits from place `at` on. */
  method CopyInto(dst: array<byte>, at: nat, src: bytes)
    requires at <= dst.Length
    modifies dst
    ensures var n := Min(dst.Length - at, |src|);
            dst[..] == old(dst[..at]) + src[..n] + old(dst[at + n..])
  {
    var n := Min(dst.Length - at, |src|);
    for i := 0 to n
      invariant forall k | 0 <= k < dst.Length :: dst[k] == if at <= k < at + i then src[k - at] else old(dst[k])
    {
      dst[at + i] := src[i];
    }
  }

  /** `payload` cut into pieces of `size` bytes and a last one of at most `size`; never no pieces at all. */
  function Chunks(payload: bytes, size: int): (parts: seq<bytes>)
    requires size >= 1 || |payload| <= size
    ensures |parts| >= 1
    decreases |payload|
  {
    if |payload| <= size then [payload] else [payload[..size]] + Chunks(payload[size..], size)
  }

  /** The first piece and the rest. */
  lemma ChunksUnfold(payload: bytes, size: int)
    requires size >= 1 || |payload| <= size
    ensures var first := Min(size, |payload|);
            Chunks(payload, size) == [payload[..first]] + if first < |payload| then Chunks(payload[first..], size) else []
  {
    assert payload[..|payload|] == payload;
  }

  lemma ChunksFrom(payload: bytes, size: int, offset: nat)
    requires size >= 1 && offset < |payload|
    ensures var end := Min(offset + size, |payload|);
            Chunks(payload[offset..], size)
            == [payload[offset..end]] + if end < |payload| then Chunks(payload[end..], size) else []
  {
    var end, rest := Min(offset + size, |payload|), payload[offset..];
    ChunksUnfold(rest, size);
    hide Chunks;
    assert rest[..end - offset] == payload[offset..end] && rest[end - offset..] == payload[end..];
  }

  /** What is left to cut from `offset` on: nothing at the end. */
  function ChunksLeft(payload: bytes, size: int, offset: nat): seq<bytes>
    requires size >= 1
  {
    if offset < |payload| then Chunks(payload[offset..], size) else []
  }

  lemma NothingCut(payload: bytes, size: int)
    requires size >= 1 && payload != []
    ensures Chunks(payload, size)[0..] == ChunksLeft(payload, size, 0)
  {
    hide Chunks;
    assert payload[0..] == payload;
  }

  lemma AllCut(payload: bytes, size: int, offset: nat)
    requires size >= 1
    ensures ChunksLeft(payload, size, offset) == [] <==> offset >= |payload|
  {
  }

  /** Cutting one piece: a loop that has cut `k` pieces and stands at `offset` can go on. */
  lemma CutOne(payload: bytes, size: int, offset: nat, k: nat)
    requires size >= 1 && offset < |payload| && k <= |Chunks(payload, size)|
    requires Chunks(payload, size)[k..] == ChunksLeft(payload, size, offset)
    ensures var parts, end := Chunks(payload, size), Min(offset + size, |payload|);
            k < |parts| && parts[k] == payload[offset..end] && parts[k + 1..] == ChunksLeft(payload, size, end)
            && parts[..k + 1] == parts[..k] + [parts[k]]
  {
    var parts, end := Chunks(payload, size), Min(offset + size, |payload|);
    ChunksFrom(payload, size, offset);
    hide Chunks;
    assert parts[k..][0] == parts[k] && parts[k..][1..] == parts[k + 1..];
  }

  /** The pieces joined are the payload, each is at most `size` long, and none is empty unless the
      payload is. */
  lemma {:induction false} ChunksJoin(payload: bytes, size: int)
    requires size >= 1 || |payload| <= size
    ensures Concat(Chunks(payload, size)) == payload
    ensures forall i | 0 <= i < |Chunks(payload, size)| ::
              |Chunks(payload, size)[i]| <= size && (payload != [] ==> Chunks(payload, size)[i] != [])
    decreases |payload|
  {
    var parts := Chunks(payload, size);
    if |payload| <= size {
      ConcatOne(payload);
    } else {
      ChunksJoin(payload[size..], size);
      ConcatAppend([payload[..size]], Chunks(payload[size..], size));
      ConcatOne(payload[..size]);
    }
  }
}
