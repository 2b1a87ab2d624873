/** Types and sequence vocabulary shared by every component of the model. */
module Basics {

  /** An octet, as read from a file, a socket, a flash device or a USB endpoint. */
  type byte = x: int | 0 <= x < 256

  datatype Option<+T> = None | Some(value: T)

  datatype Result<+T, +E> = Ok(value: T) | Err(error: E)

  /** 2^32: the devices are 32-bit machines, so this bounds both u32 and usize. */
  const TWO_32 := 0x1_0000_0000

  function Min(a: int, b: int): (m: int)
    ensures m <= a && m <= b && (m == a || m == b)
  {
    if a <= b then a else b
  }

  predicate Distinct<T(==)>(s: seq<T>) {
    forall i, j :: 0 <= i < j < |s| ==> s[i] != s[j]
  }

  /** A line without the carriage return, or whatever `last` is, at its end. */
  function WithoutLast<T(==)>(s: seq<T>, last: T): seq<T> {
    if s != [] && s[|s| - 1] == last then s[..|s| - 1] else s
  }

  lemma WithoutLastOf<T>(s: seq<T>, last: T)
    ensures WithoutLast(s + [last], last) == s
    ensures s == [] || s[|s| - 1] != last ==> WithoutLast(s, last) == s
  {
  }

  function Zeros(n: nat): (z: seq<byte>)
    ensures |z| == n && forall i :: 0 <= i < n ==> z[i] == 0
  {
    seq(n, _ => 0)
  }

  /** `was` with the bytes from `at` on replaced by `data`. */
  function Splice<T>(was: seq<T>, at: nat, data: seq<T>): (s: seq<T>)
    requires at + |data| <= |was|
    ensures |s| == |was|
  {
    was[..at] + data + was[at + |data|..]
  }

  lemma SpliceMore<T>(was: seq<T>, at: nat, a: seq<T>, b: seq<T>)
    requires at + |a| + |b| <= |was|
    ensures Splice(Splice(was, at, a), at + |a|, b) == Splice(was, at, a + b)
  {
  }

  /** A slice assignment. */
  method CopyInto(out: array<byte>, at: nat, data: seq<byte>)
    requires at + |data| <= out.Length
    modifies out
    ensures out[..] == Splice(old(out[..]), at, data)
  {
    forall k | 0 <= k < |data| {
      out[at + k] := data[k];
    }
    assert out[..] == Splice(old(out[..]), at, data);
  }

  lemma Associative<T>(a: seq<T>, b: seq<T>, c: seq<T>)
    ensures (a + b) + c == a + (b + c)
  {
  }

  /** The concatenation of a list of sequences. */
  function Flatten<T>(parts: seq<seq<T>>): seq<T> {
    if parts == [] then [] else parts[0] + Flatten(parts[1..])
  }

  lemma {:induction false} FlattenAppend<T>(a: seq<seq<T>>, b: seq<seq<T>>)
    ensures Flatten(a + b) == Flatten(a) + Flatten(b)
  {
    if a == [] {
      assert a + b == b;
    } else {
      calc {
        Flatten(a + b);
        { assert (a + b)[1..] == a[1..] + b; }
        a[0] + Flatten(a[1..] + b);
        { FlattenAppend(a[1..], b); }
        a[0] + (Flatten(a[1..]) + Flatten(b));
        (a[0] + Flatten(a[1..])) + Flatten(b);
      }
    }
  }

  lemma FlattenSnoc<T>(a: seq<seq<T>>, x: seq<T>)
    ensures Flatten(a + [x]) == Flatten(a) + x
  {
    FlattenAppend(a, [x]);
    assert [x][1..] == [];
    assert Flatten([x]) == x + [];
  }
}
