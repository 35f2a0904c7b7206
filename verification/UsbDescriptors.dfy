/** Walking a block of USB descriptors (src/drivers/usb/core.rs, `DescriptorIter`; section 9.5 of USB 2.0: each begins
    with its own length). */
module UsbDescriptors {
  import opened Basics

  /** A descriptor states its length, and has at least a length and a type. */
  predicate WellFormed(d: seq<byte>)
  {
    |d| >= 2 && d[0] == |d|
  }

  /** Whether a descriptor starts here and is whole. */
  predicate Whole(bytes: seq<byte>, offset: nat)
  {
    offset + 2 <= |bytes| && bytes[offset] >= 2 && offset + bytes[offset] <= |bytes|
  }

  function Descriptors(bytes: seq<byte>, offset: nat): seq<seq<byte>>
    decreases |bytes| - offset
  {
    if !Whole(bytes, offset) then []
    else [bytes[offset..offset + bytes[offset]]] + Descriptors(bytes, offset + bytes[offset])
  }

  class DescriptorIter {
    const bytes: seq<byte>
    var offset: nat

    constructor (bytes: seq<byte>)
      ensures this.bytes == bytes && offset == 0
    {
      this.bytes := bytes;
      offset := 0;
    }

    method Next() returns (r: Option<seq<byte>>)
      modifies this
      ensures r.None? <==> Descriptors(bytes, old(offset)) == []
      ensures r.Some? ==> Descriptors(bytes, old(offset)) == [r.value] + Descriptors(bytes, offset)
      ensures r.None? ==> Descriptors(bytes, offset) == []
    {
      if offset + 2 > |bytes| { return None; }
      var length := bytes[offset];
      if length < 2 || offset + length > |bytes| {
        offset := |bytes|;
        return None;
      }
      var descriptor := bytes[offset..offset + length];
      offset := offset + length;
      r := Some(descriptor);
    }
  }

  function Concat(ds: seq<seq<byte>>): seq<byte>
  {
    if ds == [] then [] else ds[0] + Concat(ds[1..])
  }

  /** What is yielded are whole descriptors, one after the other without a gap, up to the first place where none is whole. */
  lemma {:induction false} DescriptorsTile(bytes: seq<byte>, offset: nat)
    requires offset <= |bytes|
    ensures var ds := Descriptors(bytes, offset);
      && (forall d | d in ds :: WellFormed(d))
      && offset + |Concat(ds)| <= |bytes| && Concat(ds) == bytes[offset..offset + |Concat(ds)|]
      && !Whole(bytes, offset + |Concat(ds)|)
    decreases |bytes| - offset
  {
    if Whole(bytes, offset) {
      var d, next := bytes[offset..offset + bytes[offset]], offset + bytes[offset];
      DescriptorsTile(bytes, next);
      var rest := Descriptors(bytes, next);
      assert ([d] + rest)[1..] == rest;
      Join(bytes, offset, d, Concat(rest));
    }
  }

  lemma Join(b: seq<byte>, offset: nat, x: seq<byte>, y: seq<byte>)
    requires offset + |x| + |y| <= |b| && x == b[offset..offset + |x|] && y == b[offset + |x|..offset + |x| + |y|]
    ensures x + y == b[offset..offset + |x + y|]
  {
  }

  /** Descriptors written one after the other come back as they were, and nothing else does. */
  lemma {:induction false} DescriptorsRoundTrip(bytes: seq<byte>, offset: nat, ds: seq<seq<byte>>)
    requires offset <= |bytes| && bytes[offset..] == Concat(ds) && forall d | d in ds :: WellFormed(d)
    ensures Descriptors(bytes, offset) == ds
    decreases |ds|
  {
    if ds != [] {
      var d, t := ds[0], bytes[offset..];
      assert d in ds;
      assert t == d + Concat(ds[1..]);
      assert bytes[offset] == t[0] == d[0] && |t| >= |d|;
      assert bytes[offset..offset + |d|] == t[..|d|] == d;
      assert bytes[offset + |d|..] == t[|d|..] == Concat(ds[1..]);
      DescriptorsRoundTrip(bytes, offset + |d|, ds[1..]);
      assert ds == [d] + ds[1..];
    }
  }
}
