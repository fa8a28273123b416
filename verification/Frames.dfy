/** Byte streams cut into chunks, and frames with a four-byte big-endian length in front. */
module Frames {
  import opened Prelude

  type Bytes = seq<Byte>

  /** `buffer.readUInt32BE()`. */
  function DeclaredLength(b: Bytes): nat
    requires |b| >= 4
  {
    0x1000000 * (b[0] as nat) + 0x10000 * (b[1] as nat) + 0x100 * (b[2] as nat) + (b[3] as nat)
  }

  /** The bytes are one whole frame and nothing more. */
  predicate IsWhole(b: Bytes) {
    |b| >= 4 && |b| == DeclaredLength(b) + 4
  }

  /** `Buffer.concat(chunks)`. */
  function Joined(chunks: seq<Bytes>): Bytes {
    if chunks == [] then [] else Joined(chunks[..|chunks| - 1]) + chunks[|chunks| - 1]
  }

  lemma {:induction false} JoinedPrefix(chunks: seq<Bytes>, k: nat)
    requires k <= |chunks|
    ensures Joined(chunks[..k]) <= Joined(chunks)
  {
    if k == |chunks| {
      assert chunks[..k] == chunks;
    } else {
      JoinedPrefix(chunks[..|chunks| - 1], k);
      assert chunks[..|chunks| - 1][..k] == chunks[..k];
    }
  }

  lemma {:induction false} JoinedGrows(chunks: seq<Bytes>, k: nat)
    requires k < |chunks| && forall i | 0 <= i < |chunks| :: chunks[i] != []
    ensures |Joined(chunks[..k])| < |Joined(chunks)|
  {
    JoinedPrefix(chunks[..|chunks| - 1], k);
    assert chunks[..|chunks| - 1][..k] == chunks[..k];
  }

  /** A stream begins with at most one whole frame. */
  lemma WholePrefixIsUnique(a: Bytes, b: Bytes, stream: Bytes)
    requires a <= stream && b <= stream && IsWhole(a) && IsWhole(b)
    ensures a == b
  {
    assert a[..4] == stream[..4] == b[..4];
    assert a[0] == b[0] && a[1] == b[1] && a[2] == b[2] && a[3] == b[3];
    assert a == stream[..|a|] && b == stream[..|b|];
  }
}
