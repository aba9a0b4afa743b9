/** Shared vocabulary: bytes and the failure-carrying wrappers used by the
    archive writer and the string helpers. */
module Common {

  /** One octet, the element type of a JavaScript `Uint8Array`. */
  type Byte = b: int | 0 <= b < 0x100

  datatype Option<+T> = None | Some(value: T) {
    predicate IsFailure() { None? }

    function PropagateFailure<U>(): Option<U>
      requires None?
    {
      None
    }

    function Extract(): T
      requires Some?
    {
      value
    }
  }

  /** The outcome of an operation that may throw in ffn2epub. */
  datatype Result<+T, +E> = Success(value: T) | Failure(error: E) {
    predicate IsFailure() { Failure? }

    function PropagateFailure<U>(): Result<U, E>
      requires Failure?
    {
      Failure(error)
    }

    function Extract(): T
      requires Success?
    {
      value
    }
  }

  /** Concatenation of a sequence of sequences, in order. */
  function Flatten<T>(parts: seq<seq<T>>): seq<T>
  {
    if |parts| == 0 then [] else parts[0] + Flatten(parts[1..])
  }

  /** The total length of a concatenation is the sum of the parts' lengths. */
  function SumLengths<T>(parts: seq<seq<T>>): nat
  {
    if |parts| == 0 then 0 else |parts[0]| + SumLengths(parts[1..])
  }

  lemma {:induction false} FlattenLength<T>(parts: seq<seq<T>>)
    ensures |Flatten(parts)| == SumLengths(parts)
  {
    if |parts| > 0 {
      FlattenLength(parts[1..]);
    }
  }

  lemma {:induction false} FlattenAppend<T>(parts: seq<seq<T>>, last: seq<T>)
    ensures Flatten(parts + [last]) == Flatten(parts) + last
  {
    if |parts| == 0 {
      assert parts + [last] == [last];
    } else {
      assert (parts + [last])[1..] == parts[1..] + [last];
      FlattenAppend(parts[1..], last);
    }
  }

  lemma {:induction false} FlattenConcat<T>(a: seq<seq<T>>, b: seq<seq<T>>)
    ensures Flatten(a + b) == Flatten(a) + Flatten(b)
  {
    if |a| == 0 {
      assert a + b == b;
    } else {
      assert (a + b)[1..] == a[1..] + b;
      FlattenConcat(a[1..], b);
    }
  }

  /** Where part j of a concatenation starts, the rest of the concatenation
      is part j followed by the parts after it. */
  lemma FlattenAt<T>(parts: seq<seq<T>>, j: nat)
    requires j < |parts|
    ensures SumLengths(parts[..j]) + |parts[j]| == SumLengths(parts[..j + 1])
    ensures SumLengths(parts[..j + 1]) <= SumLengths(parts) == |Flatten(parts)|
    ensures Flatten(parts)[SumLengths(parts[..j])..] == parts[j] + Flatten(parts[j + 1..])
  {
    assert parts == parts[..j] + parts[j..];
    FlattenConcat(parts[..j], parts[j..]);
    FlattenLength(parts[..j]);
    assert parts[j..][1..] == parts[j + 1..];
    assert parts[..j + 1] == parts[..j] + [parts[j]];
    FlattenAppend(parts[..j], parts[j]);
    FlattenLength(parts[..j + 1]);
    assert parts == parts[..j + 1] + parts[j + 1..];
    FlattenConcat(parts[..j + 1], parts[j + 1..]);
    FlattenLength(parts);
  }

  /** `lastIndexOf`: the index of the last occurrence of `c` in `s`, or -1. */
  function LastIndexOf<T(==)>(s: seq<T>, c: T): (k: int)
    ensures -1 <= k < |s|
    ensures k >= 0 ==> s[k] == c
    ensures forall j :: k < j < |s| ==> s[j] != c
  {
    if |s| == 0 then -1
    else if s[|s| - 1] == c then |s| - 1
    else LastIndexOf(s[..|s| - 1], c)
  }
}
