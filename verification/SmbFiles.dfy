/** File contents on an SMB server, as reads and writes at an offset see them. */
module SmbFiles {
  import opened Bytes

  /** The bytes a read of `length` at `offset` can return in all. */
  function ReadRange(content: bytes, offset: nat, length: nat): bytes {
    content[Min(offset, |content|)..Min(offset + length, |content|)]
  }

  /** Byte by byte: those of the content from `offset` on, as many as are wanted and there. */
  lemma ReadRangeAt(content: bytes, offset: nat, length: nat)
    ensures |ReadRange(content, offset, length)| ==
            if offset >= |content| then 0 else if offset + length > |content| then |content| - offset else length
    ensures forall k :: 0 <= k < |ReadRange(content, offset, length)| ==>
            ReadRange(content, offset, length)[k] == content[offset + k]
  {
  }

  /** The content after `data` landed at `offset`; a gap before it reads as zeros, landing nothing changes nothing. */
  function Patch(content: bytes, offset: nat, data: bytes): bytes {
    if data == [] then content
    else
      content[..Min(offset, |content|)] + Zeros(offset - Min(offset, |content|)) + data
      + content[Min(offset + |data|, |content|)..]
  }

  lemma PatchLength(content: bytes, offset: nat, data: bytes)
    ensures |Patch(content, offset, data)| ==
            if data != [] && |content| < offset + |data| then offset + |data| else |content|
  {
  }

  /** Byte by byte: written bytes where the data landed, old bytes elsewhere, zeros in a gap. */
  lemma PatchAt(content: bytes, offset: nat, data: bytes, k: nat)
    requires k < |Patch(content, offset, data)|
    ensures Patch(content, offset, data)[k] ==
            if offset <= k < offset + |data| then data[k - offset]
            else if k < |content| then content[k] else 0
  {
  }

  lemma PatchTwiceAt(content: bytes, offset: nat, a: bytes, b: bytes, k: nat)
    requires a != []
    requires k < |Patch(Patch(content, offset, a), offset + |a|, b)| && k < |Patch(content, offset, a + b)|
    ensures Patch(Patch(content, offset, a), offset + |a|, b)[k] == Patch(content, offset, a + b)[k]
  {
    hide Patch;
    var p := Patch(content, offset, a);
    PatchLength(content, offset, a);
    PatchAt(p, offset + |a|, b, k);
    PatchAt(content, offset, a + b, k);
    if k < |p| {
      PatchAt(content, offset, a, k);
    }
  }

  lemma PatchTwiceLength(content: bytes, offset: nat, a: bytes, b: bytes)
    requires a != []
    ensures |Patch(Patch(content, offset, a), offset + |a|, b)| == |Patch(content, offset, a + b)|
  {
    hide Patch;
    PatchLength(content, offset, a);
    PatchLength(Patch(content, offset, a), offset + |a|, b);
    PatchLength(content, offset, a + b);
  }

  /** Landing in two consecutive pieces is landing at once. */
  lemma PatchTwice(content: bytes, offset: nat, a: bytes, b: bytes)
    ensures Patch(Patch(content, offset, a), offset + |a|, b) == Patch(content, offset, a + b)
  {
    if a == [] {
      assert a + b == b;
    } else {
      hide Patch;
      var q, r := Patch(Patch(content, offset, a), offset + |a|, b), Patch(content, offset, a + b);
      PatchTwiceLength(content, offset, a, b);
      forall k: nat | k < |q| ensures q[k] == r[k] {
        PatchTwiceAt(content, offset, a, b, k);
      }
      assert q == r;
    }
  }

  /** Reading what was just written. */
  lemma ReadBackPatch(content: bytes, offset: nat, data: bytes)
    requires data != []
    ensures ReadRange(Patch(content, offset, data), offset, |data|) == data
  {
    hide Patch;
    var p := Patch(content, offset, data);
    PatchLength(content, offset, data);
    forall k: nat | k < |data| ensures p[offset + k] == data[k] {
      PatchAt(content, offset, data, offset + k);
    }
    assert p[offset..offset + |data|] == data;
  }

  lemma ReadRangeExtends(content: bytes, offset: nat, got: nat, n: nat)
    ensures ReadRange(content, offset, got + n) == ReadRange(content, offset, got) + ReadRange(content, offset + got, n)
  {
  }
}
