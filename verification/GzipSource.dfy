/** Reading the metadata of a gzip-compressed source distribution: the decompression loop that feeds
    the tar scanner under an expansion limit. zlib is a parameter: the list of results of its calls. */
module GzipSource {
  import opened Prelude
  import opened TarScanner
  import opened SourceArchive

  /** The result of one call of `decompress`: at most a chunk of output, or a zlib error. */
  datatype Decompressed = Output(data: Bytes, unusedData: bool) | ZlibError

  /** The calls made while the object streams by, and whether the decoder then stands at the end marker. */
  datatype Decompression = Decompression(calls: seq<Decompressed>, eof: bool)

  datatype SourceError =
    | Unavailable
    | InvalidGzip
    | TrailingData
    | ExpandsTooFar
    | ScanFailed(error: ScanError)
    | Truncated
    | NoMetadata

  predicate IsClear(calls: seq<Decompressed>) {
    forall c | c in calls :: c.Output? && !c.unusedData
  }

  predicate IsComplete(z: Decompression) {
    z.eof && IsClear(z.calls)
  }

  /** The plain tar stream, whatever the sizes of the chunks. */
  function Plain(calls: seq<Decompressed>): Bytes {
    if calls == [] then []
    else Plain(calls[..|calls| - 1]) + (var last := calls[|calls| - 1]; if last.Output? then last.data else [])
  }

  lemma {:induction false} PlainExtends(calls: seq<Decompressed>, n: nat) returns (rest: Bytes)
    requires n <= |calls|
    ensures Plain(calls) == Plain(calls[..n]) + rest
    decreases |calls| - n
  {
    if n == |calls| {
      rest := [];
      assert calls[..n] == calls;
    } else {
      assert calls[..n + 1][..n] == calls[..n];
      var tail := PlainExtends(calls, n + 1);
      rest := (if calls[n].Output? then calls[n].data else []) + tail;
    }
  }

  lemma PlainNext(calls: seq<Decompressed>, n: nat)
    requires n < |calls| && calls[n].Output?
    ensures Plain(calls[..n + 1]) == Plain(calls[..n]) + calls[n].data
  {
    assert calls[..n + 1][..n] == calls[..n];
  }

  /** At most 1 GiB, and at most a hundred times the upload unless the upload is tiny. */
  function ExpansionLimit(size: nat): nat {
    Min(1024 * 1024 * 1024, Max(size * 100, METADATA_LIMIT))
  }

  lemma FeedNext(d: Decoder, calls: seq<Decompressed>, n: nat, s: Scan)
    requires n < |calls| && calls[n].Output? && Absorb(d, INITIAL, Plain(calls[..n])) == Success(s)
    ensures Plain(calls[..n + 1]) == Plain(calls[..n]) + calls[n].data
    ensures Absorb(d, INITIAL, Plain(calls[..n + 1])) == Absorb(d, s, calls[n].data)
  {
    PlainNext(calls, n);
    AbsorbSplit(d, INITIAL, Plain(calls[..n]), calls[n].data);
  }

  /** A fault in a prefix of the stream is a fault of the whole. */
  lemma FailureIsFinal(d: Decoder, calls: seq<Decompressed>, n: nat)
    requires n <= |calls| && Absorb(d, INITIAL, Plain(calls[..n])).Failure?
    ensures Absorb(d, INITIAL, Plain(calls)).Failure?
  {
    var rest := PlainExtends(calls, n);
    AbsorbSplit(d, INITIAL, Plain(calls[..n]), rest);
  }

  /** The object is a complete gzip stream of a source archive within the limit, with metadata `content`. */
  ghost predicate IsGenuine(d: Decoder, z: Decompression, size: nat, content: Bytes) {
    && IsComplete(z)
    && |Plain(z.calls)| <= ExpansionLimit(size)
    && exists l: Layout, i: nat :: IsSourceArchive(d, Plain(z.calls), l, i, content)
  }

  lemma GenuineByInspection(d: Decoder, z: Decompression, size: nat)
    ensures forall content :: IsGenuine(d, z, size, content) <==>
                              && IsComplete(z)
                              && |Plain(z.calls)| <= ExpansionLimit(size)
                              && Inspect(d, Plain(z.calls)) == Some(content)
  {
    forall content ensures IsGenuine(d, z, size, content) <==>
                           && IsComplete(z)
                           && |Plain(z.calls)| <= ExpansionLimit(size)
                           && Inspect(d, Plain(z.calls)) == Some(content) {
      AcceptsIffSourceArchive(d, Plain(z.calls), content);
    }
  }

  /** The error of the first fault of the stream: a failed call, data behind the end marker, too much output, or a
      fault of the archive, looked for in this order after every call. */
  function StreamFault(d: Decoder, calls: seq<Decompressed>, size: nat): (r: Option<SourceError>)
    ensures r != Some(Unavailable)
  {
    if calls == [] then None
    else
      var last := calls[|calls| - 1];
      var before := StreamFault(d, calls[..|calls| - 1], size);
      var scan := Absorb(d, INITIAL, Plain(calls));
      if before.Some? then before
      else if last.ZlibError? then Some(InvalidGzip)
      else if last.unusedData then Some(TrailingData)
      else if |Plain(calls)| > ExpansionLimit(size) then Some(ExpandsTooFar)
      else if scan.Failure? then Some(ScanFailed(scan.error))
      else None
  }

  lemma NextFault(d: Decoder, calls: seq<Decompressed>, n: nat, size: nat)
    requires n < |calls|
    ensures
      var scan := Absorb(d, INITIAL, Plain(calls[..n + 1]));
      var before := StreamFault(d, calls[..n], size);
      StreamFault(d, calls[..n + 1], size) ==
      if before.Some? then before
      else if calls[n].ZlibError? then Some(InvalidGzip)
      else if calls[n].unusedData then Some(TrailingData)
      else if |Plain(calls[..n + 1])| > ExpansionLimit(size) then Some(ExpandsTooFar)
      else if scan.Failure? then Some(ScanFailed(scan.error))
      else None
  {
    assert calls[..n + 1][..n] == calls[..n];
  }

  /** The first fault decides, whatever follows. */
  lemma {:induction false} FaultIsFinal(d: Decoder, calls: seq<Decompressed>, n: nat, size: nat)
    requires n <= |calls| && StreamFault(d, calls[..n], size).Some?
    ensures StreamFault(d, calls, size) == StreamFault(d, calls[..n], size)
    decreases |calls| - n
  {
    if n == |calls| {
      assert calls[..n] == calls;
    } else {
      NextFault(d, calls, n, size);
      FaultIsFinal(d, calls, n + 1, size);
    }
  }

  /** A stream has no fault exactly if every call succeeds, nothing trails, it keeps to the limit and scans. */
  lemma {:induction false} NoFaultIff(d: Decoder, calls: seq<Decompressed>, size: nat)
    ensures StreamFault(d, calls, size).None? <==>
            IsClear(calls) && |Plain(calls)| <= ExpansionLimit(size) && Absorb(d, INITIAL, Plain(calls)).Success?
  {
    if calls != [] {
      var n := |calls| - 1;
      var last := calls[n];
      assert calls == calls[..n] + [last] && calls[..n + 1] == calls;
      NoFaultIff(d, calls[..n], size);
      NextFault(d, calls, n, size);
      var rest := PlainExtends(calls, n);
      if Absorb(d, INITIAL, Plain(calls[..n])).Failure? {
        FailureIsFinal(d, calls, n);
      }
    }
  }

  /** The loop: scan every chunk the decoder produces, until something is wrong with the stream. */
  method ScanCalls(d: Decoder, calls: seq<Decompressed>, size: nat) returns (r: Result<TarMetadata, SourceError>)
    ensures r.Success? <==> StreamFault(d, calls, size).None?
    ensures r.Failure? ==> StreamFault(d, calls, size) == Some(r.error)
    ensures r.Success? ==>
      && fresh(r.value) && r.value.Valid() && r.value.decode == d
      && Absorb(d, INITIAL, Plain(calls)) == Success(r.value.State())
  {
    var scanner := new TarMetadata(d);
    var expanded := 0;
    var n := 0;
    assert calls[..0] == [];
    while n < |calls|
      invariant 0 <= n <= |calls|
      invariant scanner.Valid() && scanner.decode == d && fresh(scanner)
      invariant Absorb(d, INITIAL, Plain(calls[..n])) == Success(scanner.State())
      invariant expanded == |Plain(calls[..n])|
      invariant StreamFault(d, calls[..n], size).None?
    {
      NextFault(d, calls, n, size);
      if StreamFault(d, calls[..n + 1], size).Some? {
        FaultIsFinal(d, calls, n + 1, size);
      }
      if calls[n].ZlibError? {
        return Failure(InvalidGzip);
      }
      var data := calls[n].data;
      if calls[n].unusedData {
        return Failure(TrailingData);
      }
      FeedNext(d, calls, n, scanner.State());
      expanded := expanded + |data|;
      if expanded > ExpansionLimit(size) {
        return Failure(ExpandsTooFar);
      }
      var fed := scanner.Feed(data);
      n := n + 1;
      if fed.Fail? {
        return Failure(ScanFailed(fed.error));
      }
    }
    assert calls[..n] == calls;
    return Success(scanner);
  }

  /** The error of a source: the first fault of its stream, an early end, or no metadata. */
  function SourceFault(d: Decoder, z: Decompression, size: nat): Option<SourceError> {
    var fault := StreamFault(d, z.calls, size);
    var scan := Absorb(d, INITIAL, Plain(z.calls));
    if fault.Some? then fault
    else if scan.Failure? then Some(ScanFailed(scan.error))
    else if !z.eof || scan.value.remaining > 0 || !scan.value.ended then Some(Truncated)
    else if scan.value.metadata.None? then Some(NoMetadata)
    else None
  }

  /** A source has no fault exactly if it is genuine. */
  lemma GenuineIff(d: Decoder, z: Decompression, size: nat)
    ensures SourceFault(d, z, size).None? <==> exists content :: IsGenuine(d, z, size, content)
    ensures SourceFault(d, z, size).None? ==>
              forall content :: IsGenuine(d, z, size, content) <==> Inspect(d, Plain(z.calls)) == Some(content)
  {
    NoFaultIff(d, z.calls, size);
    GenuineByInspection(d, z, size);
    if SourceFault(d, z, size).None? {
      assert IsGenuine(d, z, size, Inspect(d, Plain(z.calls)).value);
    }
  }

  /** The metadata of the object, read in one pass over however many chunks the decoder produces. */
  method TarMetadataOf(d: Decoder, source: Option<Decompression>, size: nat)
    returns (r: Result<Bytes, SourceError>)
    ensures r == Failure(Unavailable) <==> source.None?
    ensures source.Some? ==> forall content :: r == Success(content) <==> IsGenuine(d, source.value, size, content)
    ensures source.Some? ==>
      (r.Failure? <==> SourceFault(d, source.value, size).Some?) &&
      (r.Failure? ==> SourceFault(d, source.value, size) == Some(r.error))
  {
    if source.None? {
      return Failure(Unavailable);
    }
    GenuineIff(d, source.value, size);
    var scanned := ScanCalls(d, source.value.calls, size);
    if scanned.Failure? {
      return Failure(scanned.error);
    }
    var scanner := scanned.value;
    if !source.value.eof || scanner.remaining > 0 || !scanner.ended {
      return Failure(Truncated);
    }
    if scanner.metadata.None? {
      return Failure(NoMetadata);
    }
    return Success(scanner.metadata.value);
  }
  /** The bound on the output, in figures: at least 1 MiB, at most 1 GiB, and a hundred times the upload in between. */
  lemma LimitInFigures(size: nat)
    ensures size <= 10_485 ==> ExpansionLimit(size) == 1_048_576
    ensures 10_486 <= size <= 10_737_418 ==> ExpansionLimit(size) == 100 * size
    ensures size >= 10_737_419 ==> ExpansionLimit(size) == 1_073_741_824
  {
  }
}
