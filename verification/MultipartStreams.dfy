/** MultipartFormData's two encoders: encode(), which collects the bytes in memory, and
    writeEncodedData(to:), which copies them to a stream piece by piece. */
module MultipartStreams {
  import opened Basics
  import opened Multipart

  const STREAM_BUFFER_SIZE: nat := 1024

  /** A stream over content that is all there: each read delivers some of it, as much as the
      stream likes, until it fails.  Read to its end it delivers nothing more. */
  class InputStream {
    const content: Bytes
    var position: nat
    var streamError: bool

    ghost predicate Valid()
      reads this
    {
      position <= |content|
    }

    ghost function Remaining(): Bytes
      reads this
      requires Valid()
    {
      content[position..]
    }

    ghost predicate Ready()
      reads this
    {
      Valid() && !streamError
    }

    /** The stream is ready to deliver the given bytes. */
    ghost predicate Holds(body: Bytes)
      reads this
    {
      Ready() && Remaining() == body
    }

    constructor (content: Bytes)
      ensures Holds(content)
    {
      this.content, position, streamError := content, 0, false;
    }

    /** True also where only a read can tell. */
    method HasBytesAvailable() returns (available: bool)
      requires Valid()
      ensures Remaining() != [] ==> available
    {
      available := *;
      available := available || position < |content|;
    }

    /** Fills the front of a buffer of maxLength bytes. */
    method Read(maxLength: nat) returns (buffer: seq<byte>, bytesRead: nat)
      requires Valid() && !streamError && maxLength > 0
      modifies this
      ensures Valid() && |buffer| == maxLength && bytesRead <= maxLength
      ensures !streamError ==> old(Remaining()) == buffer[..bytesRead] + Remaining()
      ensures !streamError && old(Remaining()) != [] ==> bytesRead > 0
    {
      buffer := seq(maxLength, _ => 0);
      bytesRead := 0;
      var failing: bool := *;
      if failing {
        streamError := true;
        return;
      }
      var most := if |content| - position < maxLength then |content| - position else maxLength;
      if most == 0 { return; }
      var n: nat :| 1 <= n <= most;
      buffer := content[position..position + n] + buffer[n..];
      bytesRead := n;
      position := position + n;
    }
  }

  /** A stream that takes at least one byte of every write, as many as it likes, until it
      fails.  `refused` records that it once had no space available when it was asked. */
  class OutputStream {
    var written: Bytes
    var refused: bool
    var streamError: bool

    constructor ()
      ensures written == [] && !refused && !streamError
    {
      written, refused, streamError := [], false, false;
    }

    method HasSpaceAvailable() returns (available: bool)
      modifies `refused
      ensures refused == (old(refused) || !available)
    {
      available := *;
      refused := refused || !available;
    }

    method Write(buffer: seq<byte>, maxLength: nat) returns (bytesWritten: nat)
      requires 0 < maxLength <= |buffer| && !streamError
      modifies this
      ensures refused == old(refused)
      ensures !streamError ==> 1 <= bytesWritten <= maxLength && written == old(written) + buffer[..bytesWritten]
    {
      bytesWritten := 0;
      var failing: bool := *;
      if failing {
        streamError := true;
        return;
      }
      bytesWritten :| 1 <= bytesWritten <= maxLength;
      written := written + buffer[..bytesWritten];
    }
  }

  /** The output before and after bs was to be written: complete as long as the stream never
      lacked space, and short of at least one byte once it did. */
  predicate Wrote(before: Bytes, refusedBefore: bool, after: Bytes, refusedAfter: bool, bs: Bytes) {
    && (refusedBefore ==> refusedAfter)
    && (!refusedAfter ==> after == before + bs)
    && |after| <= |before| + |bs|
    && (refusedAfter && !refusedBefore ==> |after| < |before| + |bs|)
  }

  lemma {:induction false} WroteThen(a: Bytes, ra: bool, b: Bytes, rb: bool, c: Bytes, rc: bool, x: Bytes, y: Bytes)
    requires Wrote(a, ra, b, rb, x) && Wrote(b, rb, c, rc, y)
    ensures Wrote(a, ra, c, rc, x + y)
  {
    assert !rc ==> (a + x) + y == a + (x + y);
  }

  class BodyPart {
    const headers: seq<Header>
    const bodyStream: InputStream
    var hasInitialBoundary: bool
    var hasFinalBoundary: bool

    constructor (headers: seq<Header>, bodyStream: InputStream)
      ensures this.headers == headers && this.bodyStream == bodyStream
      ensures !hasInitialBoundary && !hasFinalBoundary
    {
      this.headers, this.bodyStream, hasInitialBoundary, hasFinalBoundary := headers, bodyStream, false, false;
    }

    ghost predicate Shows(p: Part)
      reads this
    {
      p.headers == headers && p.hasInitialBoundary == hasInitialBoundary && p.hasFinalBoundary == hasFinalBoundary
    }

    /** The part is ready to be encoded as p. */
    ghost predicate Holds(p: Part)
      reads this, bodyStream
    {
      Shows(p) && bodyStream.Holds(p.body)
    }
  }

  ghost predicate Distinct(parts: seq<BodyPart>) {
    forall i, j :: 0 <= i < j < |parts| ==> parts[i] != parts[j]
  }

  /** Every stream can be read. */
  ghost predicate AllReady(parts: seq<BodyPart>)
    reads parts, set p <- parts :: p.bodyStream
  {
    forall k :: 0 <= k < |parts| ==> parts[k].bodyStream.Ready()
  }

  /** The stream of part k also belongs to a part before it, from part i on. */
  ghost predicate Reused(parts: seq<BodyPart>, i: nat, k: nat)
    requires k < |parts|
  {
    exists j :: i <= j < k && parts[j].bodyStream == parts[k].bodyStream
  }

  /** What part k is going to be encoded as: with what is left on its stream, or with nothing
      when an earlier part will have read the stream to its end. */
  ghost function PartAt(parts: seq<BodyPart>, i: nat, k: nat): Part
    requires k < |parts| && parts[k].bodyStream.Ready()
    reads parts[k], parts[k].bodyStream
  {
    Part(parts[k].headers, if Reused(parts, i, k) then [] else parts[k].bodyStream.Remaining(),
         parts[k].hasInitialBoundary, parts[k].hasFinalBoundary)
  }

  /** The parts as they stand. */
  ghost function Snapshot(parts: seq<BodyPart>): (ps: seq<Part>)
    requires AllReady(parts)
    reads parts, set p <- parts :: p.bodyStream
    ensures |ps| == |parts|
  {
    seq(|parts|, k requires 0 <= k < |parts| && AllReady(parts) reads parts, set p <- parts :: p.bodyStream =>
                   PartAt(parts, 0, k))
  }

  // ----- Streams that several parts share -----

  /** What the parts made from stream s deliver, in order. */
  ghost function Delivers(parts: seq<BodyPart>, ps: seq<Part>, s: InputStream): Bytes
    requires |parts| == |ps|
  {
    if parts == [] then []
    else
      var n := |parts| - 1;
      Delivers(parts[..n], ps[..n], s) + (if parts[n].bodyStream == s then ps[n].body else [])
  }

  lemma {:induction false} SnapshotPrefix(parts: seq<BodyPart>, n: nat)
    requires AllReady(parts) && n <= |parts|
    ensures AllReady(parts[..n]) && Snapshot(parts[..n]) == Snapshot(parts)[..n]
  {
    forall k | 0 <= k < n ensures parts[..n][k].bodyStream.Ready() && Snapshot(parts[..n])[k] == Snapshot(parts)[k] {
      assert parts[..n][k] == parts[k];
      assert Reused(parts[..n], 0, k) <==> Reused(parts, 0, k);
    }
  }

  ghost predicate Uses(parts: seq<BodyPart>, s: InputStream) {
    exists k :: 0 <= k < |parts| && parts[k].bodyStream == s
  }

  lemma {:induction false} UsesSnoc(parts: seq<BodyPart>, s: InputStream)
    requires parts != []
    ensures var n := |parts| - 1;
            && (Uses(parts, s) <==> Uses(parts[..n], s) || parts[n].bodyStream == s)
            && (Reused(parts, 0, n) <==> Uses(parts[..n], parts[n].bodyStream))
  {
    var n := |parts| - 1;
    forall k | 0 <= k < n ensures parts[..n][k] == parts[k] {}
    if Reused(parts, 0, n) {
      var j :| 0 <= j < n && parts[j].bodyStream == parts[n].bodyStream;
      assert parts[..n][j].bodyStream == parts[n].bodyStream;
    }
  }

  lemma {:induction false} SnapshotAt(parts: seq<BodyPart>, k: nat)
    requires AllReady(parts) && k < |parts|
    ensures Snapshot(parts)[k].body == if Reused(parts, 0, k) then [] else parts[k].bodyStream.Remaining()
  {
    hide Reused;
  }

  /** However often a stream has been appended, the bodies of its parts together are what it
      holds, each byte once. */
  lemma {:induction false} StreamDeliversOnce(parts: seq<BodyPart>, s: InputStream)
    requires AllReady(parts) && Uses(parts, s)
    ensures Delivers(parts, Snapshot(parts), s) == s.Remaining()
  {
    DeliversUses(parts, s);
  }

  lemma {:induction false} DeliversUses(parts: seq<BodyPart>, s: InputStream)
    requires AllReady(parts) && s.Valid()
    ensures Delivers(parts, Snapshot(parts), s) == if Uses(parts, s) then s.Remaining() else []
  {
    if parts != [] {
      var n := |parts| - 1;
      SnapshotPrefix(parts, n);
      SnapshotAt(parts, n);
      UsesSnoc(parts, s);
      hide Uses, Reused, Snapshot;
      DeliversUses(parts[..n], s);
    }
  }

  /** A further part leaves the others as they are, and has an empty body if its stream is
      already in use. */
  lemma {:induction false} SnapshotAppend(parts: seq<BodyPart>, q: BodyPart)
    requires AllReady(parts) && q.bodyStream.Ready()
    ensures AllReady(parts + [q])
    ensures Snapshot(parts + [q]) == Snapshot(parts) +
            [Part(q.headers, if Uses(parts, q.bodyStream) then [] else q.bodyStream.Remaining(),
                  q.hasInitialBoundary, q.hasFinalBoundary)]
  {
    var all := parts + [q];
    assert all[..|parts|] == parts && all[|parts|] == q;
    SnapshotPrefix(all, |parts|);
    SnapshotAt(all, |parts|);
    UsesSnoc(all, q.bodyStream);
    hide Uses, Reused;
    assert Snapshot(all) == Snapshot(all)[..|parts|] + [Snapshot(all)[|parts|]];
  }

  // ----- While the parts are being encoded -----

  /** Part k is going to be encoded as p once the parts before part i have been. */
  ghost predicate Becomes(parts: seq<BodyPart>, i: nat, k: nat, p: Part)
    requires k < |parts|
    reads parts[k], parts[k].bodyStream
  {
    parts[k].bodyStream.Ready() && PartAt(parts, i, k) == p
  }

  /** The parts as they stand, i of them already used up. */
  ghost predicate From(parts: seq<BodyPart>, i: nat, ps: seq<Part>)
    reads parts, set p <- parts :: p.bodyStream
  {
    && |ps| == |parts| && i <= |ps|
    && forall k :: i <= k < |parts| ==> Becomes(parts, i, k, ps[k])
  }

  lemma {:induction false} SnapshotIs(parts: seq<BodyPart>, ps: seq<Part>)
    ensures From(parts, 0, ps) <==> AllReady(parts) && ps == Snapshot(parts)
  {
    if From(parts, 0, ps) {
      forall k | 0 <= k < |parts| ensures parts[k].bodyStream.Ready() && PartAt(parts, 0, k) == ps[k] {
        assert Becomes(parts, 0, k, ps[k]);
      }
      assert AllReady(parts);
    }
  }

  lemma {:induction false} FirstUse(parts: seq<BodyPart>, i: nat, ps: seq<Part>)
    requires From(parts, i, ps) && i < |parts|
    ensures parts[i].Holds(ps[i])
  {
    assert Becomes(parts, i, i, ps[i]) && !Reused(parts, i, i);
  }

  /** Part k after part i has been read to its end. */
  lemma {:induction false} NextPart(parts: seq<BodyPart>, i: nat, k: nat, p: Part)
    requires i < k < |parts| && parts[k].Shows(p)
    requires Reused(parts, i, k) ==> p.body == []
    requires parts[i].bodyStream.Holds([])
    requires parts[k].bodyStream == parts[i].bodyStream ||
             (if Reused(parts, i, k) then parts[k].bodyStream.Ready() else parts[k].bodyStream.Holds(p.body))
    ensures Becomes(parts, i + 1, k, p)
  {
    if parts[k].bodyStream == parts[i].bodyStream {
      assert Reused(parts, i, k);
    }
  }

  class MultipartFormData {
    const boundary: Bytes
    var bodyParts: seq<BodyPart>
    var bodyPartError: bool

    constructor (boundary: Bytes)
      ensures this.boundary == boundary && bodyParts == [] && !bodyPartError
    {
      this.boundary, bodyParts, bodyPartError := boundary, [], false;
    }

    /** append(_:withLength:headers:) */
    method Append(stream: InputStream, headers: seq<Header>)
      modifies `bodyParts
      ensures |bodyParts| == |old(bodyParts)| + 1 && bodyParts[..|old(bodyParts)|] == old(bodyParts)
      ensures var p := bodyParts[|old(bodyParts)|];
              fresh(p) && p.headers == headers && p.bodyStream == stream
              && !p.hasInitialBoundary && !p.hasFinalBoundary
      ensures old(Distinct(bodyParts)) ==> Distinct(bodyParts)
    {
      var bodyPart := new BodyPart(headers, stream);
      bodyParts := bodyParts + [bodyPart];
    }

    /** Both encoders mark the first and the last part. */
    method MarkFirstAndLast()
      requires Distinct(bodyParts) && AllReady(bodyParts)
      modifies bodyParts
      ensures AllReady(bodyParts) && Snapshot(bodyParts) == MarkEnds(old(Snapshot(bodyParts)))
    {
      ghost var ps := Snapshot(bodyParts);
      assert |bodyParts| == 0 ==> MarkEnds(ps) == Snapshot(bodyParts);
      if |bodyParts| == 0 { return; }
      hide MarkEnds;
      bodyParts[0].hasInitialBoundary := true;
      bodyParts[|bodyParts| - 1].hasFinalBoundary := true;
      forall k | 0 <= k < |bodyParts| ensures Snapshot(bodyParts)[k] == MarkEnds(ps)[k] {
        assert PartAt(bodyParts, 0, k).body == ps[k].body;
      }
    }

    /** encode() */
    method Encode() returns (r: Option<Bytes>)
      requires Distinct(bodyParts) && AllReady(bodyParts)
      modifies bodyParts, set p <- bodyParts :: p.bodyStream
      ensures r.Some? ==> r.value == EncodeParts(boundary, MarkEnds(old(Snapshot(bodyParts))))
      ensures r.Some? ==> forall p <- bodyParts :: p.bodyStream.Holds([])
      ensures r.None? <==> bodyPartError || exists p <- bodyParts :: p.bodyStream.streamError
    {
      hide MarkEnds, EncodeParts, EncodePart, BodyPart.Holds, Reused, Snapshot;
      if bodyPartError { return None; }
      var encoded: Bytes := [];
      MarkFirstAndLast();
      ghost var marked := Snapshot(bodyParts);
      SnapshotIs(bodyParts, marked);
      EncodeNone(boundary, marked);
      var i := 0;
      while i < |bodyParts|
        invariant i <= |bodyParts| && From(bodyParts, i, marked)
        invariant forall k :: 0 <= k < i ==> bodyParts[k].bodyStream.Holds([])
        invariant encoded == EncodeParts(boundary, marked[..i])
      {
        FirstUse(bodyParts, i, marked);
        var encodedData := EncodeBodyPart(bodyParts[i], marked[i]);
        if encodedData.None? {
          assert bodyParts[i] in bodyParts;
          return None;
        }
        forall k | i < k < |bodyParts| ensures Becomes(bodyParts, i + 1, k, marked[k]) {
          NextPart(bodyParts, i, k, marked[k]);
        }
        EncodePrefix(boundary, marked, i);
        encoded := encoded + encodedData.value;
        i := i + 1;
      }
      assert marked[..i] == marked;
      r := Some(encoded);
    }

    method EncodeBodyPart(bodyPart: BodyPart, ghost p: Part) returns (r: Option<Bytes>)
      requires bodyPart.Holds(p)
      modifies bodyPart.bodyStream
      ensures r.None? <==> bodyPart.bodyStream.streamError
      ensures r.Some? ==> r.value == EncodePart(boundary, p) && bodyPart.bodyStream.Holds([])
    {
      hide BoundaryData, EncodeHeaders;
      var encoded: Bytes := [];
      var kind := if bodyPart.hasInitialBoundary then BoundaryType.Initial else Encapsulated;
      encoded := encoded + BoundaryData(kind, boundary);
      encoded := encoded + EncodeHeaders(bodyPart.headers);
      var bodyStreamData := EncodeBodyStream(bodyPart.bodyStream);
      if bodyStreamData.None? { return None; }
      encoded := encoded + bodyStreamData.value;
      if bodyPart.hasFinalBoundary {
        encoded := encoded + BoundaryData(Final, boundary);
      }
      r := Some(encoded);
    }

    method EncodeBodyStream(inputStream: InputStream) returns (r: Option<Bytes>)
      requires inputStream.Valid() && !inputStream.streamError
      modifies inputStream
      ensures r.None? <==> inputStream.streamError
      ensures r.Some? ==> r.value == old(inputStream.Remaining()) && inputStream.Holds([])
    {
      var encoded: Bytes := [];
      ghost var all := inputStream.Remaining();
      var available := inputStream.HasBytesAvailable();
      while available
        invariant inputStream.Valid() && !inputStream.streamError
        invariant encoded + inputStream.Remaining() == all
        invariant inputStream.Remaining() != [] ==> available
        decreases |inputStream.Remaining()|, available
      {
        var buffer, bytesRead := inputStream.Read(STREAM_BUFFER_SIZE);
        if inputStream.streamError { return None; }
        if bytesRead > 0 {
          encoded := encoded + buffer[..bytesRead];
        } else {
          break;
        }
        available := inputStream.HasBytesAvailable();
      }
      r := Some(encoded);
    }

    /** writeEncodedData(to:), once the output stream has been opened.  Without an error the
        stream has received exactly the bytes of encode(), if and only if it always had
        space available when it was asked. */
    method WriteEncodedData(outputStream: OutputStream) returns (ok: bool)
      requires Distinct(bodyParts) && AllReady(bodyParts)
      requires !outputStream.streamError && !outputStream.refused
      modifies bodyParts, set p <- bodyParts :: p.bodyStream, outputStream
      ensures !ok <==> bodyPartError || outputStream.streamError || exists p <- bodyParts :: p.bodyStream.streamError
      ensures var bytes := EncodeParts(boundary, MarkEnds(old(Snapshot(bodyParts))));
              ok ==> (outputStream.written == old(outputStream.written) + bytes <==> !outputStream.refused)
      ensures ok ==> forall p <- bodyParts :: p.bodyStream.Holds([])
    {
      hide MarkEnds, EncodeParts, EncodePart, Wrote, BodyPart.Holds, Reused, Snapshot;
      if bodyPartError { return false; }
      MarkFirstAndLast();
      ghost var marked, before := Snapshot(bodyParts), outputStream.written;
      SnapshotIs(bodyParts, marked);
      WroteNothing(before, false);
      EncodeNone(boundary, marked);
      var i := 0;
      while i < |bodyParts|
        invariant i <= |bodyParts| && From(bodyParts, i, marked)
        invariant !outputStream.streamError
        invariant forall k :: 0 <= k < i ==> bodyParts[k].bodyStream.Holds([])
        invariant Wrote(before, false, outputStream.written, outputStream.refused, EncodeParts(boundary, marked[..i]))
      {
        ghost var now, refused := outputStream.written, outputStream.refused;
        FirstUse(bodyParts, i, marked);
        ok := WriteBodyPart(bodyParts[i], outputStream, marked[i]);
        if !ok {
          assert bodyParts[i] in bodyParts;
          return;
        }
        forall k | i < k < |bodyParts| ensures Becomes(bodyParts, i + 1, k, marked[k]) {
          NextPart(bodyParts, i, k, marked[k]);
        }
        EncodePrefix(boundary, marked, i);
        WroteThen(before, false, now, refused, outputStream.written, outputStream.refused,
                  EncodeParts(boundary, marked[..i]), EncodePart(boundary, marked[i]));
        i := i + 1;
      }
      assert marked[..i] == marked;
      WroteIff(before, outputStream.written, outputStream.refused, EncodeParts(boundary, marked));
      ok := true;
    }

    method WriteBodyPart(bodyPart: BodyPart, outputStream: OutputStream, ghost p: Part) returns (ok: bool)
      requires bodyPart.Holds(p) && !outputStream.streamError
      modifies bodyPart.bodyStream, outputStream
      ensures !ok <==> outputStream.streamError || bodyPart.bodyStream.streamError
      ensures ok ==> Wrote(old(outputStream.written), old(outputStream.refused),
                           outputStream.written, outputStream.refused, EncodePart(boundary, p))
      ensures ok ==> bodyPart.bodyStream.Holds([])
    {
      hide BoundaryData, EncodeHeaders, Wrote;
      ghost var w0, r0 := outputStream.written, outputStream.refused;
      var kind := if bodyPart.hasInitialBoundary then BoundaryType.Initial else Encapsulated;
      var initial := BoundaryData(kind, boundary);
      ok := WriteBuffer(initial, outputStream);
      if !ok { return; }
      ghost var w1, r1 := outputStream.written, outputStream.refused;
      var headerData := EncodeHeaders(bodyPart.headers);
      ok := WriteBuffer(headerData, outputStream);
      if !ok { return; }
      WroteThen(w0, r0, w1, r1, outputStream.written, outputStream.refused, initial, headerData);
      ghost var w2, r2 := outputStream.written, outputStream.refused;
      ok := WriteBodyStream(bodyPart.bodyStream, outputStream);
      if !ok { return; }
      WroteThen(w0, r0, w2, r2, outputStream.written, outputStream.refused, initial + headerData, p.body);
      ghost var w3, r3 := outputStream.written, outputStream.refused;
      var finalData := if bodyPart.hasFinalBoundary then BoundaryData(Final, boundary) else [];
      if bodyPart.hasFinalBoundary {
        ok := WriteBuffer(finalData, outputStream);
        if !ok { return; }
      } else {
        WroteNothing(w3, r3);
      }
      WroteThen(w0, r0, w3, r3, outputStream.written, outputStream.refused, initial + headerData + p.body, finalData);
    }

    method WriteBodyStream(inputStream: InputStream, outputStream: OutputStream) returns (ok: bool)
      requires inputStream.Valid() && !inputStream.streamError && !outputStream.streamError
      modifies inputStream, outputStream
      ensures !ok <==> inputStream.streamError || outputStream.streamError
      ensures ok ==> Wrote(old(outputStream.written), old(outputStream.refused),
                           outputStream.written, outputStream.refused, old(inputStream.Remaining()))
      ensures ok ==> inputStream.Holds([])
    {
      hide Wrote;
      ghost var all, sent: Bytes := inputStream.Remaining(), [];
      ghost var w0, r0 := outputStream.written, outputStream.refused;
      WroteNothing(w0, r0);
      var available := inputStream.HasBytesAvailable();
      while available
        invariant inputStream.Valid() && !inputStream.streamError && !outputStream.streamError
        invariant sent + inputStream.Remaining() == all
        invariant Wrote(w0, r0, outputStream.written, outputStream.refused, sent)
        invariant inputStream.Remaining() != [] ==> available
        decreases |inputStream.Remaining()|, available
      {
        var buffer, bytesRead := inputStream.Read(STREAM_BUFFER_SIZE);
        if inputStream.streamError { return false; }
        if bytesRead > 0 {
          ghost var chunk := buffer[..bytesRead];
          if |buffer| != bytesRead {
            buffer := buffer[..bytesRead];
          }
          assert buffer == chunk;
          Associate(sent, chunk, inputStream.Remaining());
          ghost var w1, r1 := outputStream.written, outputStream.refused;
          ok := WriteBuffer(buffer, outputStream);
          if !ok { return; }
          WroteThen(w0, r0, w1, r1, outputStream.written, outputStream.refused, sent, buffer);
          sent := sent + buffer;
        } else {
          break;
        }
        available := inputStream.HasBytesAvailable();
      }
      assert sent == all;
      ok := true;
    }

    /** write(_ buffer:, to:) */
    method WriteBuffer(data: Bytes, outputStream: OutputStream) returns (ok: bool)
      requires !outputStream.streamError
      modifies outputStream
      ensures !ok <==> outputStream.streamError
      ensures ok ==> Wrote(old(outputStream.written), old(outputStream.refused),
                           outputStream.written, outputStream.refused, data)
    {
      var buffer := data;
      var bytesToWrite := |buffer|;
      ghost var w0, r0, sent: Bytes := outputStream.written, outputStream.refused, [];
      while bytesToWrite > 0
        invariant !outputStream.streamError && outputStream.refused == r0
        invariant 0 <= bytesToWrite && |sent| + bytesToWrite == |data|
        invariant bytesToWrite > 0 ==> |buffer| == bytesToWrite && sent + buffer == data
        invariant bytesToWrite == 0 ==> sent == data
        invariant outputStream.written == w0 + sent
      {
        var available := outputStream.HasSpaceAvailable();
        if !available { return true; }
        var bytesWritten := outputStream.Write(buffer, bytesToWrite);
        if outputStream.streamError { return false; }
        sent := sent + buffer[..bytesWritten];
        bytesToWrite := bytesToWrite - bytesWritten;
        if bytesToWrite > 0 {
          buffer := buffer[bytesWritten..];
        }
      }
      ok := true;
    }
  }

  lemma {:induction false} WroteIff(before: Bytes, after: Bytes, refused: bool, bs: Bytes)
    requires Wrote(before, false, after, refused, bs)
    ensures after == before + bs <==> !refused
  {
  }

  lemma {:induction false} EncodeNone(boundary: Bytes, ps: seq<Part>)
    ensures EncodeParts(boundary, ps[..0]) == []
  {
  }

  lemma {:induction false} EncodePrefix(boundary: Bytes, ps: seq<Part>, i: nat)
    requires i < |ps|
    ensures EncodeParts(boundary, ps[..i + 1]) == EncodeParts(boundary, ps[..i]) + EncodePart(boundary, ps[i])
  {
    hide EncodeParts, EncodePart;
    EncodeSnoc(boundary, ps[..i], ps[i]);
    assert ps[..i + 1] == ps[..i] + [ps[i]];
  }

  lemma {:induction false} WroteNothing(w: Bytes, r: bool)
    ensures Wrote(w, r, w, r, [])
  {
  }
}
