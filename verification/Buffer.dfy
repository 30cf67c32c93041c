/** The growing output buffer the writers append to. */
module Buffer {
  import opened Wire

  class ByteBuffer {
    var bytes: Bytes

    constructor ()
      ensures bytes == []
    {
      bytes := [];
    }

    method Append(more: Bytes)
      modifies this
      ensures bytes == old(bytes) + more
    {
      bytes := bytes + more;
    }
  }

  /** A set of byte ranges filled during a traversal. */
  class RangeSet {
    var ranges: set<Range>

    constructor ()
      ensures ranges == {}
    {
      ranges := {};
    }

    method Insert(range: Range)
      modifies this
      ensures ranges == old(ranges) + {range}
    {
      ranges := ranges + {range};
    }
  }
}
