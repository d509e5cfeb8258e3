/**
 * Capturing an input: a loop of reads into a temporary file, with a running
 * hash and a ceiling on the bytes it will take.
 */
module Artifact {
  import opened Wrappers
  import opened Numbers
  import opened Hex

  /** Hashing may be done a piece at a time: only all the bytes matter. */
  type ByteSha256 = seq<Byte> -> seq<Byte>

  datatype Read = Bytes(data: seq<Byte>) | Failed

  /** What the temporary file answers: write `k` follows read `k`. */
  datatype Disk = Disk(creates: bool, writes: nat -> bool, flushes: bool)

  datatype ArtifactError = ReadError | InputTooLarge(maxBytes: nat) | TemporaryFile

  datatype Descriptor = Descriptor(contentSha256: string, byteLength: nat)

  /** Where the input stops: at a read of nothing, a failure, or the last read. */
  function Stop(chunks: seq<Read>, i: nat): (n: nat)
    requires i <= |chunks|
    ensures i <= n <= |chunks|
    ensures forall k :: i <= k < n ==> chunks[k].Bytes? && chunks[k].data != []
    ensures n < |chunks| ==> chunks[n].Failed? || chunks[n].data == []
    decreases |chunks| - i
  {
    if i == |chunks| || chunks[i].Failed? || chunks[i].data == [] then i else Stop(chunks, i + 1)
  }

  function Delivered(chunks: seq<Read>, n: nat): seq<Byte>
    requires n <= |chunks| && forall k :: 0 <= k < n ==> chunks[k].Bytes?
  {
    if n == 0 then [] else Delivered(chunks, n - 1) + chunks[n - 1].data
  }

  function Content(chunks: seq<Read>): seq<Byte> { Delivered(chunks, Stop(chunks, 0)) }

  predicate Breaks(chunks: seq<Read>) { Stop(chunks, 0) < |chunks| && chunks[Stop(chunks, 0)].Failed? }

  /** A write is made and fails: that of a read still within the ceiling. */
  predicate WriteFails(disk: Disk, chunks: seq<Read>, maxBytes: nat) {
    exists k: nat :: k < Stop(chunks, 0) && !disk.writes(k) && |Delivered(chunks, k + 1)| <= maxBytes
  }

  /** Apart from the disk, a matter of the bytes and not of how reads split them. */
  function Captured(sha: ByteSha256, disk: Disk, chunks: seq<Read>, maxBytes: nat): Result<Descriptor, ArtifactError> {
    var content := Content(chunks);
    if !disk.creates || WriteFails(disk, chunks, maxBytes) then Err(TemporaryFile)
    else if |content| > maxBytes then Err(InputTooLarge(maxBytes))
    else if Breaks(chunks) then Err(ReadError)
    else if !disk.flushes then Err(TemporaryFile)
    else Ok(Descriptor(HexOf(sha(content)), |content|))
  }

  lemma StopIs(chunks: seq<Read>, n: nat)
    requires n <= |chunks| && forall k :: 0 <= k < n ==> chunks[k].Bytes? && chunks[k].data != []
    requires n < |chunks| ==> chunks[n].Failed? || chunks[n].data == []
    ensures Stop(chunks, 0) == n
  {}

  lemma EarlierThanTheStop(chunks: seq<Read>, i: nat)
    requires i < |chunks| && forall k :: 0 <= k <= i ==> chunks[k].Bytes? && chunks[k].data != []
    ensures i < Stop(chunks, 0)
  {}

  lemma {:induction false} DeliveredGrows(chunks: seq<Read>, i: nat, n: nat)
    requires i <= n <= |chunks| && forall k :: 0 <= k < n ==> chunks[k].Bytes?
    ensures Delivered(chunks, i) <= Delivered(chunks, n)
  {
    if i < n { DeliveredGrows(chunks, i, n - 1); }
  }

  /** Nothing is written from the first read beyond the ceiling on. */
  lemma NoWriteBeyond(disk: Disk, chunks: seq<Read>, maxBytes: nat, i: nat)
    requires i < Stop(chunks, 0) && |Delivered(chunks, i + 1)| > maxBytes
    requires forall k: nat :: k < i ==> disk.writes(k)
    ensures !WriteFails(disk, chunks, maxBytes) && |Content(chunks)| > maxBytes
  {
    hide Delivered, Stop;
    DeliveredGrows(chunks, i + 1, Stop(chunks, 0));
    if WriteFails(disk, chunks, maxBytes) {
      var k: nat :| k < Stop(chunks, 0) && !disk.writes(k) && |Delivered(chunks, k + 1)| <= maxBytes;
      DeliveredGrows(chunks, i + 1, k + 1);
    }
  }

  /** The temporary file never holds more than the ceiling, even when the input
      is refused, and holds all of it when it is taken. */
  method Capture(sha: ByteSha256, disk: Disk, chunks: seq<Read>, maxBytes: nat)
    returns (result: Result<Descriptor, ArtifactError>, file: seq<Byte>)
    requires maxBytes <= U64_MAX
    ensures result == Captured(sha, disk, chunks, maxBytes)
    ensures |file| <= maxBytes && file <= Content(chunks)
    ensures result.Ok? ==> file == Content(chunks)
  {
    hide WriteFails;
    file := [];
    if !disk.creates { return Err(TemporaryFile), file; }
    var byteLength := 0;
    var i := 0;
    while i < |chunks|
      invariant i <= |chunks|
      invariant forall k :: 0 <= k < i ==> chunks[k].Bytes? && chunks[k].data != []
      invariant forall k: nat :: k < i ==> disk.writes(k)
      invariant file == Delivered(chunks, i) && byteLength == |file| <= maxBytes
    {
      if chunks[i].Failed? {
        StopIs(chunks, i);
        AllWritesHeld(disk, chunks, maxBytes);
        return Err(ReadError), file;
      }
      if chunks[i].data == [] {
        break;
      }
      EarlierThanTheStop(chunks, i);
      DeliveredGrows(chunks, i, Stop(chunks, 0));
      byteLength := byteLength + |chunks[i].data|;
      if byteLength > U64_MAX || byteLength > maxBytes {
        NoWriteBeyond(disk, chunks, maxBytes, i);
        return Err(InputTooLarge(maxBytes)), file;
      }
      if !disk.writes(i) {
        FailedWrite(disk, chunks, maxBytes, i);
        return Err(TemporaryFile), file;
      }
      file := file + chunks[i].data;
      i := i + 1;
    }
    StopIs(chunks, i);
    AllWritesHeld(disk, chunks, maxBytes);
    if !disk.flushes { return Err(TemporaryFile), file; }
    var digest := HexByTable(sha(file));
    result := Ok(Descriptor(digest, byteLength));
  }

  lemma AllWritesHeld(disk: Disk, chunks: seq<Read>, maxBytes: nat)
    requires forall k: nat :: k < Stop(chunks, 0) ==> disk.writes(k)
    ensures !WriteFails(disk, chunks, maxBytes)
  {}

  lemma FailedWrite(disk: Disk, chunks: seq<Read>, maxBytes: nat, i: nat)
    requires i < Stop(chunks, 0) && !disk.writes(i) && |Delivered(chunks, i + 1)| <= maxBytes
    ensures WriteFails(disk, chunks, maxBytes)
  {}

  // --------------------------------------------------- said of the pieces

  /** How an input ends after its pieces. */
  datatype Ending = EndOfFile | EmptyRead | ReadFails

  function Reads(pieces: seq<seq<Byte>>, ending: Ending): seq<Read> {
    seq(|pieces|, i requires 0 <= i < |pieces| => Bytes(pieces[i]))
    + (match ending case EndOfFile => [] case EmptyRead => [Bytes([])] case ReadFails => [Failed])
  }

  function Concat(pieces: seq<seq<Byte>>): seq<Byte> {
    if pieces == [] then [] else Concat(pieces[..|pieces| - 1]) + pieces[|pieces| - 1]
  }

  lemma {:induction false} DeliveredIsConcat(pieces: seq<seq<Byte>>, ending: Ending, n: nat)
    requires n <= |pieces|
    ensures Delivered(Reads(pieces, ending), n) == Concat(pieces[..n])
  {
    if n > 0 {
      DeliveredIsConcat(pieces, ending, n - 1);
      assert pieces[..n][..n - 1] == pieces[..n - 1];
    }
  }

  /** Whatever non-empty pieces an input comes in, and however it ends: the first
      fault in the order of the loop decides, and without one the descriptor has
      the digest and the length of all the bytes. */
  lemma CaptureIsExact(sha: ByteSha256, disk: Disk, pieces: seq<seq<Byte>>, ending: Ending, maxBytes: nat)
    requires forall i :: 0 <= i < |pieces| ==> pieces[i] != []
    ensures var result := Captured(sha, disk, Reads(pieces, ending), maxBytes);
      var written := forall k: nat :: k < |pieces| && |Concat(pieces[..k + 1])| <= maxBytes ==> disk.writes(k);
      var content := Concat(pieces);
      && (result.Ok? <==> disk.creates && written && |content| <= maxBytes && ending != ReadFails && disk.flushes)
      && (result.Ok? ==> result.value == Descriptor(HexOf(sha(content)), |content|))
      && (result == Err(InputTooLarge(maxBytes)) <==> disk.creates && written && |content| > maxBytes)
      && (result == Err(ReadError) <==> disk.creates && written && |content| <= maxBytes && ending == ReadFails)
      && (result == Err(TemporaryFile) <==>
            !disk.creates || !written || (|content| <= maxBytes && ending != ReadFails && !disk.flushes))
  {
    var chunks := Reads(pieces, ending);
    StopIs(chunks, |pieces|);
    assert pieces[..|pieces|] == pieces;
    forall k: nat | k <= |pieces| ensures Delivered(chunks, k) == Concat(pieces[..k]) { DeliveredIsConcat(pieces, ending, k); }
    hide Delivered, Concat, Stop, HexOf;
    assert WriteFails(disk, chunks, maxBytes) <==> exists k: nat :: k < |pieces| && !disk.writes(k) && |Concat(pieces[..k + 1])| <= maxBytes;
  }
}
