/** Response bodies: written in bounded chunks and read back whole. */
module Bodies {
  import opened Numbers

  // ----- The response -----

  const MAX_BYTES: nat := 65535

  /** An entity chunk of the response: bytes in memory, or something else such as a file range. */
  datatype Chunk = Memory(bytes: seq<bv8>) | Elsewhere

  /** One call of WriteEntityChunks. */
  datatype Sent = Sent(bytes: seq<bv8>, more: bool)

  /** Unsigned 32-bit subtraction. */
  function Sub32(a: nat, b: nat): nat { (a - b) % TWO32 }

  function Add32(a: nat, b: nat): nat { (a + b) % TWO32 }

  function Ushort(a: nat): nat { a % 0x1_0000 }

  lemma NoWrap(a: nat, b: nat)
    requires b <= a < TWO32
    ensures Sub32(a, b) == a - b && Add32(b, a - b) == a && (a <= MAX_BYTES ==> Ushort(a) == a)
  {
  }

  function Pieces(body: seq<bv8>): (ps: seq<seq<bv8>>)
    ensures |ps| >= 1
  {
    if |body| <= MAX_BYTES then [body] else [body[..MAX_BYTES]] + Pieces(body[MAX_BYTES..])
  }

  function Joined(ps: seq<seq<bv8>>): seq<bv8> { if ps == [] then [] else ps[0] + Joined(ps[1..]) }

  /** The pieces are consecutive, as few as possible, full but for the last, and fit the 16-bit length field. */
  lemma {:induction false} PiecesCover(body: seq<bv8>)
    ensures Joined(Pieces(body)) == body
    ensures |Pieces(body)| == if body == [] then 1 else (|body| + MAX_BYTES - 1) / MAX_BYTES
    ensures forall k :: 0 <= k < |Pieces(body)| - 1 ==> |Pieces(body)[k]| == MAX_BYTES
    ensures |Pieces(body)[|Pieces(body)| - 1]| <= MAX_BYTES && (body != [] ==> Pieces(body)[|Pieces(body)| - 1] != [])
  {
    if |body| > MAX_BYTES {
      PiecesCover(body[MAX_BYTES..]);
      var ps := Pieces(body);
      assert ps[1..] == Pieces(body[MAX_BYTES..]);
      assert body == body[..MAX_BYTES] + body[MAX_BYTES..];
    }
  }

  lemma {:induction false} PieceAt(body: seq<bv8>, k: nat)
    requires k < |Pieces(body)|
    ensures k * MAX_BYTES <= |body| && Pieces(body)[k] == body[k * MAX_BYTES..Min((k + 1) * MAX_BYTES, |body|)]
  {
    if k > 0 {
      PieceAt(body[MAX_BYTES..], k - 1);
    }
  }

  /** After piece k there is more exactly when there is a piece k + 1. */
  lemma MoreLeft(body: seq<bv8>, k: nat)
    requires k < |Pieces(body)|
    ensures var end := Min((k + 1) * MAX_BYTES, |body|);
            && (end < |body| <==> k + 1 < |Pieces(body)|)
            && (end < |body| ==> end == (k + 1) * MAX_BYTES && |body| > MAX_BYTES)
  {
    hide Pieces;
    PiecesCover(body);
  }

  function Sends(body: seq<bv8>): (ss: seq<Sent>)
    ensures |ss| == |Pieces(body)|
  {
    seq(|Pieces(body)|, k requires 0 <= k < |Pieces(body)| => Sent(Pieces(body)[k], |body| > MAX_BYTES))
  }

  /**
    Every chunk that another follows says so; that the flag is right on all chunks holds exactly for bodies of
    one chunk, because the last of several is sent with the flag still set.
   */
  lemma MoreDataFlags(body: seq<bv8>)
    ensures forall k :: 0 <= k < |Sends(body)| && k + 1 < |Sends(body)| ==> Sends(body)[k].more
    ensures (forall k :: 0 <= k < |Sends(body)| ==> (Sends(body)[k].more <==> k + 1 < |Sends(body)|))
        <==> |body| <= MAX_BYTES
  {
    if |body| > MAX_BYTES {
      assert Sends(body)[|Sends(body)| - 1].more;
    }
  }

  /** One byte more than a chunk holds: the second chunk is the last, and is flagged all the same. */
  lemma LastChunkIsFlagged()
    ensures var sends := Sends(seq(65536, _ => 0 as bv8));
            |sends| == 2 && |sends[1].bytes| == 1 && sends[1].more
  {
    var body := seq(65536, _ => 0 as bv8);
    assert Pieces(body) == [body[..MAX_BYTES]] + [body[MAX_BYTES..]];
  }

  function MemoryBytes(chunks: seq<Chunk>): seq<bv8> {
    if chunks == [] then [] else (if chunks[0].Memory? then chunks[0].bytes else []) + MemoryBytes(chunks[1..])
  }

  function AsChunks(sent: seq<Sent>): seq<Chunk> {
    seq(|sent|, k requires 0 <= k < |sent| => Memory(sent[k].bytes))
  }

  datatype Read = Null | Array(bytes: seq<bv8>) | Text(bytes: seq<bv8>)

  class Response {
    var chunks: seq<Chunk>
    var sent: seq<Sent>       // the calls that succeeded, in order

    /** The server takes the first `accepted` calls and fails the next one; true when the whole body was written. */
    method Write(buffer: array<bv8>, accepted: nat) returns (ok: bool)
      requires buffer.Length < TWO32
      modifies this
      ensures ok <==> |Pieces(buffer[..])| <= accepted
      ensures var n := Min(accepted, |Pieces(buffer[..])|);
              && sent == old(sent) + Sends(buffer[..])[..n]
              && chunks == AfterWrite(old(chunks), Written(buffer[..], accepted))
    {
      hide Pieces, Sends, AsChunks, Sub32, Add32, Ushort;
      var size := buffer.Length;
      var offset, calls := 0, 0;
      NoWrap(size, 0);
      var count := Min(Sub32(size, offset), MAX_BYTES);
      NoWrap(size, count);
      var more := Sub32(size, count) > 0;
      ghost var body := buffer[..];
      NothingSent(body);
      while true
        invariant 0 <= offset <= size && count == Min(size - offset, MAX_BYTES) && more == (size > MAX_BYTES)
        invariant calls < |Pieces(body)| && calls <= accepted && offset == calls * MAX_BYTES
        invariant sent == old(sent) + Sends(body)[..calls] && chunks == old(chunks) + AsChunks(Sends(body)[..calls])
        invariant buffer[..] == body
        decreases |Pieces(body)| - calls
      {
        if calls == accepted { return false; }   // FAILED(hr)
        NoWrap(count, 0);
        NoWrap(offset + count, offset);
        NoWrap(size, offset + count);
        MoreLeft(body, calls);
        var data := buffer[offset..offset + Ushort(count)];
        PieceAt(body, calls);
        SendsNext(body, calls);
        sent := sent + [Sent(data, more)];
        chunks := chunks + [Memory(data)];
        calls := calls + 1;
        offset := Add32(offset, count);
        count := Min(Sub32(size, offset), MAX_BYTES);
        more := Sub32(size, offset) > 0;
        if !more { break; }
      }
      return true;
    }

    /** What lies in memory, all of it, in either form; null when that is nothing. */
    method Read(asArray: bool) returns (r: Read)
      ensures r == ReadOf(chunks, asArray)
    {
      if |chunks| == 0 { return Null; }
      var total := 0;
      for i := 0 to |chunks|
        invariant total == |MemoryBytes(chunks[..i])|
      {
        MemoryNext(chunks, i);
        if chunks[i].Memory? { total := total + |chunks[i].bytes|; }
      }
      assert chunks[..|chunks|] == chunks;
      if total == 0 { return Null; }
      var data := Gather(chunks, total);
      return if asArray then Array(data[..]) else Text(data[..]);
    }
  }

  function ReadOf(chunks: seq<Chunk>, asArray: bool): Read {
    var bytes := MemoryBytes(chunks);
    if bytes == [] then Null else if asArray then Array(bytes) else Text(bytes)
  }

  /** The copying loop, the same for the array buffer and for the external string. */
  method Gather(chunks: seq<Chunk>, total: nat) returns (data: array<bv8>)
    requires total == |MemoryBytes(chunks)|
    ensures fresh(data) && data[..] == MemoryBytes(chunks)
  {
    hide MemoryBytes;
    data := new bv8[total];
    var offset := 0;
    assert MemoryBytes(chunks[..0]) == [] by { MemoryNone(); }
    for i := 0 to |chunks|
      invariant offset == |MemoryBytes(chunks[..i])| && offset <= total && data[..offset] == MemoryBytes(chunks[..i])
    {
      MemoryNext(chunks, i);
      MemorySplit(chunks, i + 1);
      if chunks[i].Memory? && |chunks[i].bytes| > 0 {
        Copy(data, offset, chunks[i].bytes);
        offset := offset + |chunks[i].bytes|;
      }
    }
    assert chunks[..|chunks|] == chunks;
  }

  /** memcpy */
  method Copy(data: array<bv8>, offset: nat, bytes: seq<bv8>)
    requires offset + |bytes| <= data.Length
    modifies data
    ensures data[..offset] == old(data[..offset]) && data[offset..offset + |bytes|] == bytes
    ensures data[..offset + |bytes|] == old(data[..offset]) + bytes
    ensures data[offset + |bytes|..] == old(data[offset + |bytes|..])
  {
    for i := 0 to |bytes|
      invariant data[..offset] == old(data[..offset]) && data[offset..offset + i] == bytes[..i]
      invariant data[offset + |bytes|..] == old(data[offset + |bytes|..])
    {
      data[offset + i] := bytes[i];
    }
    assert data[..offset + |bytes|] == data[..offset] + data[offset..offset + |bytes|];
  }

  lemma {:induction false} MemoryJoin(a: seq<Chunk>, b: seq<Chunk>)
    ensures MemoryBytes(a + b) == MemoryBytes(a) + MemoryBytes(b)
  {
    if a == [] {
      assert a + b == b;
    } else {
      assert (a + b)[1..] == a[1..] + b;
      MemoryJoin(a[1..], b);
    }
  }

  lemma MemoryNone()
    ensures MemoryBytes([]) == []
  {
  }

  lemma MemoryNext(chunks: seq<Chunk>, i: nat)
    requires i < |chunks|
    ensures MemoryBytes(chunks[..i + 1]) == MemoryBytes(chunks[..i]) + if chunks[i].Memory? then chunks[i].bytes else []
  {
    assert chunks[..i + 1] == chunks[..i] + [chunks[i]];
    MemoryJoin(chunks[..i], [chunks[i]]);
  }

  lemma MemorySplit(chunks: seq<Chunk>, i: nat)
    requires i <= |chunks|
    ensures |MemoryBytes(chunks[..i])| <= |MemoryBytes(chunks)|
  {
    assert chunks == chunks[..i] + chunks[i..];
    MemoryJoin(chunks[..i], chunks[i..]);
  }

  lemma NothingSent(body: seq<bv8>)
    ensures Sends(body)[..0] == [] && AsChunks(Sends(body)[..0]) == []
  {
  }

  lemma SendsNext(body: seq<bv8>, k: nat)
    requires k < |Pieces(body)|
    ensures Sends(body)[..k + 1] == Sends(body)[..k] + [Sent(Pieces(body)[k], |body| > MAX_BYTES)]
    ensures AsChunks(Sends(body)[..k + 1]) == AsChunks(Sends(body)[..k]) + [Memory(Pieces(body)[k])]
  {
  }

  // ----- Reading back what was written -----

  /** A call of write, and how many chunks the server takes. */
  datatype Written = Written(body: seq<bv8>, accepted: nat)

  function Kept(w: Written): seq<bv8> { w.body[..Min(w.accepted * MAX_BYTES, |w.body|)] }

  function AfterWrite(chunks: seq<Chunk>, w: Written): seq<Chunk> {
    chunks + AsChunks(Sends(w.body)[..Min(w.accepted, |Pieces(w.body)|)])
  }

  function AfterWrites(chunks: seq<Chunk>, ws: seq<Written>): seq<Chunk>
    decreases |ws|
  {
    if ws == [] then chunks else AfterWrites(AfterWrite(chunks, ws[0]), ws[1..])
  }

  function AllKept(ws: seq<Written>): seq<bv8> { if ws == [] then [] else Kept(ws[0]) + AllKept(ws[1..]) }

  lemma {:induction false} SentBytes(body: seq<bv8>, k: nat)
    requires k <= |Pieces(body)|
    ensures MemoryBytes(AsChunks(Sends(body)[..k])) == body[..Min(k * MAX_BYTES, |body|)]
  {
    hide Pieces, Sends, AsChunks;
    NothingSent(body);
    if k > 0 {
      SentBytes(body, k - 1);
      SendsNext(body, k - 1);
      PieceAt(body, k - 1);
      MemoryJoin(AsChunks(Sends(body)[..k - 1]), [Memory(Pieces(body)[k - 1])]);
      var end := Min(k * MAX_BYTES, |body|);
      assert body[..end] == body[..(k - 1) * MAX_BYTES] + body[(k - 1) * MAX_BYTES..end];
    }
  }

  /** A write appends the chunks' worth of its body that the server took: the whole body when it succeeds. */
  lemma WriteThenRead(chunks: seq<Chunk>, w: Written)
    ensures MemoryBytes(AfterWrite(chunks, w)) == MemoryBytes(chunks) + Kept(w)
    ensures |Pieces(w.body)| <= w.accepted ==> Kept(w) == w.body
  {
    hide Pieces, Sends, AsChunks;
    PiecesCover(w.body);
    var n := Min(w.accepted, |Pieces(w.body)|);
    MemoryJoin(chunks, AsChunks(Sends(w.body)[..n]));
    SentBytes(w.body, n);
  }

  lemma {:induction false} WritesThenRead(chunks: seq<Chunk>, ws: seq<Written>)
    ensures MemoryBytes(AfterWrites(chunks, ws)) == MemoryBytes(chunks) + AllKept(ws)
    decreases |ws|
  {
    hide MemoryBytes, AfterWrite, Kept;
    if ws != [] {
      WriteThenRead(chunks, ws[0]);
      WritesThenRead(AfterWrite(chunks, ws[0]), ws[1..]);
    }
  }

  /** After any run of writes, read returns everything that was there and was written, in order, in both forms. */
  lemma ReadBack(chunks: seq<Chunk>, ws: seq<Written>, asArray: bool)
    ensures var bytes := MemoryBytes(chunks) + AllKept(ws);
            ReadOf(AfterWrites(chunks, ws), asArray)
            == if bytes == [] then Null else if asArray then Array(bytes) else Text(bytes)
  {
    hide MemoryBytes, AfterWrites, AllKept;
    WritesThenRead(chunks, ws);
  }
}
