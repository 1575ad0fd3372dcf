/** Octet strings, and lists of octet strings as scatter/gather writes see them. */
module ByteStrings {
  import opened Basics

  type Byte = b: int | 0 <= b < 256

  type Bytes = seq<Byte>

  const CR: Byte := 13
  const LF: Byte := 10

  predicate IsHex(b: Byte) {
    48 <= b <= 57 || 97 <= b <= 102 || 65 <= b <= 70
  }

  /** fromHex on the digits it accepts. */
  function FromHex(b: Byte): (v: nat)
    requires IsHex(b)
    ensures v < 16
  {
    if b <= 57 then b - 48 else if b >= 97 then 10 + b - 97 else 10 + b - 65
  }

  /** The concatenation of a buffer list. */
  function Flatten(buffers: seq<Bytes>): Bytes {
    if buffers == [] then [] else buffers[0] + Flatten(buffers[1..])
  }

  lemma {:induction false} FlattenAppend(a: seq<Bytes>, b: seq<Bytes>)
    ensures Flatten(a + b) == Flatten(a) + Flatten(b)
  {
    if a == [] {
      assert a + b == b;
    } else {
      FlattenAppend(a[1..], b);
      assert (a + b)[1..] == a[1..] + b;
      Associates(a[0], Flatten(a[1..]), Flatten(b));
    }
  }

  lemma FlattenSnoc(a: seq<Bytes>, b: Bytes)
    ensures Flatten(a + [b]) == Flatten(a) + b
  {
    FlattenAppend(a, [b]);
    assert [b][1..] == [];
    assert Flatten([b]) == b + Flatten([]) == b;
  }

  /** Splits a flattened list around its i-th buffer. */
  lemma FlattenSplit(buffers: seq<Bytes>, i: nat)
    requires i < |buffers|
    ensures Flatten(buffers) == Flatten(buffers[..i]) + buffers[i] + Flatten(buffers[i + 1..])
    ensures Flatten(buffers[..i + 1]) == Flatten(buffers[..i]) + buffers[i]
  {
    FlattenSnoc(buffers[..i], buffers[i]);
    TakeSnoc(buffers, i);
    FlattenAppend(buffers[..i + 1], buffers[i + 1..]);
    TakeDrop(buffers, i + 1);
  }
}
