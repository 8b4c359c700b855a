/**
 The in-memory output sink: data written in any pieces comes out encoded as a whole. Base64 needs
 an encoder that keeps up to two octets back until the next write or Close.
 */
module Sink {
  import opened Octets
  import opened Encodings

  /** The octets fill whole groups. */
  predicate Whole(a: bytes) {
    |a| % 3 == 0
  }

  lemma WholeConcat(a: bytes, b: bytes)
    requires Whole(a)
    ensures Whole(b) ==> Whole(a + b)
    ensures |b| == 3 ==> Whole(b)
  {
  }

  lemma NextGroup(full: bytes, all: bytes)
    requires Whole(full) && |all| >= 3
    ensures Whole(full + all[..3]) && EncodeBase64(full + all[..3]) == EncodeBase64(full) + EncodeGroup(all[..3])
    ensures full + all[..3] + all[3..] == full + all
  {
    WholeGroups(full, all[..3]);
    EncodeSplit(all[..3], []);
    assert all[..3] + [] == all[..3];
  }

  /** The streaming base64 encoder: whole groups go out at once. */
  class Encoder {
    var pending: bytes

    constructor ()
      ensures pending == []
    {
      pending := [];
    }

    method Write(p: bytes) returns (out: bytes, ghost full: bytes)
      requires |pending| < 3
      modifies this
      ensures |pending| < 3 && Whole(full)
      ensures full + pending == old(pending) + p && out == EncodeBase64(full)
    {
      var all := pending + p;
      ghost var input := all;
      out, full := [], [];
      assert Whole(full);
      hide Whole, EncodeGroup, EncodeBase64;
      while |all| >= 3
        invariant Whole(full) && full + all == input && out == EncodeBase64(full)
      {
        NextGroup(full, all);
        out, full := out + EncodeGroup(all[..3]), full + all[..3];
        all := all[3..];
      }
      pending := all;
    }

    /** The last, padded group. */
    method Close() returns (out: bytes)
      requires |pending| < 3
      modifies this
      ensures pending == [] && out == EncodeBase64(old(pending))
    {
      out := [];
      if |pending| > 0 {
        assert pending[..|pending|] == pending;
        out := EncodeGroup(pending);
        pending := [];
      }
    }
  }

  class BytesSink {
    var buf: bytes
    var enc: Encoding
    var encoder: Encoder?
    var wrote: bool
    var closed: bool
    /** Everything written so far. */
    ghost var data: bytes

    ghost predicate Valid()
      reads this, encoder
    {
      (!wrote ==> data == [] && buf == [] && encoder == null)
      && (encoder != null ==> enc.Base64? && !closed && |encoder.pending| < 3)
      && (wrote && enc.Base64? && !closed ==> encoder != null)
      && (if encoder == null then buf == Encode(data, enc) else Streaming(data, buf, encoder.pending))
    }

    constructor ()
      ensures Valid() && enc == Raw && !wrote && !closed && data == [] && buf == []
    {
      buf, enc, encoder, wrote, closed := [], Raw, null, false, false;
      data := [];
    }

    /** The encoding can be chosen until something has been written. */
    method SetEncoding(e: Encoding) returns (ok: bool)
      requires Valid()
      modifies `enc
      ensures Valid() && ok == !wrote && enc == if wrote then old(enc) else e
    {
      if wrote {
        return false;
      }
      enc := e;
      return true;
    }

    /** All of `p` is taken, unless the sink is closed; what is in the buffer already stays. */
    method Write(p: bytes) returns (n: nat, ok: bool)
      requires Valid()
      modifies this, encoder
      ensures Valid() && enc == old(enc) && closed == old(closed) && ok == !closed
      ensures n == if ok then |p| else 0
      ensures data == if ok then old(data) + p else old(data)
      ensures old(buf) <= buf && (!ok ==> buf == old(buf) && wrote == old(wrote))
      ensures ok ==> wrote
      ensures encoder == old(encoder) || fresh(encoder)
    {
      if closed {
        return 0, false;
      }
      wrote := true;
      match enc {
        case Raw =>
          buf := buf + p;
        case Hex =>
          EncodeHexConcat(data, p);
          buf := buf + EncodeHex(p);
        case Base64 =>
          if encoder == null {
            encoder := new Encoder();
            StreamStarts();
          }
          WriteBase64(p);
      }
      data := data + p;
      return |p|, true;
    }

    method WriteBase64(p: bytes)
      requires encoder != null && |encoder.pending| < 3 && Streaming(data, buf, encoder.pending)
      modifies `buf, encoder
      ensures |encoder.pending| < 3 && Streaming(data + p, buf, encoder.pending) && old(buf) <= buf
    {
      ghost var before := encoder.pending;
      var out, full := encoder.Write(p);
      buf := buf + out;
      StreamOn(data, p, old(buf), before, full, encoder.pending);
    }

    /** Ends the encoding; after that the buffer is the encoding of all the data, and Close does nothing more. */
    method Close()
      requires Valid()
      modifies this, encoder
      ensures Valid() && closed && enc == old(enc) && data == old(data) && wrote == old(wrote)
      ensures buf == Encode(data, enc)
      ensures old(buf) <= buf && (old(closed) ==> buf == old(buf))
    {
      if closed {
        return;
      }
      closed := true;
      if encoder != null {
        ghost var pending := encoder.pending;
        var out := encoder.Close();
        StreamEnds(data, buf, pending);
        buf := buf + out;
        encoder := null;
      }
    }

    method Bytes() returns (copy: bytes)
      ensures copy == buf
    {
      copy := buf;
    }
  }

  /** Some whole groups of the data are out, the rest is pending. */
  ghost predicate Streaming(data: bytes, buf: bytes, pending: bytes) {
    exists full: bytes :: Whole(full) && data == full + pending && buf == EncodeBase64(full)
  }

  lemma StreamStarts()
    ensures Streaming([], [], [])
  {
    var none: bytes := [];
    assert Whole(none) && EncodeBase64(none) == [] && none == none + none;
  }

  lemma Regroup(full: bytes, pending: bytes, p: bytes, more: bytes, after: bytes)
    requires more + after == pending + p
    ensures full + pending + p == full + more + after
  {
    assert full + pending + p == full + (pending + p);
  }

  lemma WholeGroups(full: bytes, more: bytes)
    requires Whole(full) && Whole(more)
    ensures Whole(full + more) && EncodeBase64(full + more) == EncodeBase64(full) + EncodeBase64(more)
  {
    WholeConcat(full, more);
    EncodeBase64Concat(full, more);
  }

  lemma StreamOn(data: bytes, p: bytes, buf: bytes, pending: bytes, more: bytes, after: bytes)
    requires Streaming(data, buf, pending) && Whole(more) && more + after == pending + p
    ensures Streaming(data + p, buf + EncodeBase64(more), after)
  {
    hide Whole, EncodeBase64;
    var full: bytes :| Whole(full) && data == full + pending && buf == EncodeBase64(full);
    WholeGroups(full, more);
    Regroup(full, pending, p, more, after);
  }

  lemma StreamEnds(data: bytes, buf: bytes, pending: bytes)
    requires Streaming(data, buf, pending)
    ensures buf + EncodeBase64(pending) == EncodeBase64(data)
  {
    var full: bytes :| Whole(full) && data == full + pending && buf == EncodeBase64(full);
    EncodeBase64Concat(full, pending);
  }

  /** Before Close the buffer is a prefix of what it will be. */
  lemma PrefixBeforeClose(s: BytesSink)
    requires s.Valid()
    ensures s.buf <= Encode(s.data, s.enc)
  {
    if s.encoder != null {
      StreamEnds(s.data, s.buf, s.encoder.pending);
    }
  }

  /** However the data is cut into writes, the sink holds the encoding of all of it. */
  method EncodeInPieces(pieces: seq<bytes>, enc: Encoding) returns (text: bytes)
    ensures text == Encode(Concat(pieces), enc)
  {
    var sink := new BytesSink();
    var ok := sink.SetEncoding(enc);
    for i := 0 to |pieces|
      invariant sink.Valid() && fresh(sink) && (sink.encoder != null ==> fresh(sink.encoder))
      invariant !sink.closed && sink.enc == enc && sink.data == Concat(pieces[..i])
    {
      assert pieces[..i + 1][..i] == pieces[..i];
      var _, _ := sink.Write(pieces[i]);
    }
    assert pieces[..|pieces|] == pieces;
    sink.Close();
    text := sink.Bytes();
  }
}
