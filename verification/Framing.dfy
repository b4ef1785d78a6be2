/** Incremental decoding in general: a decoder looks at its buffer, asks for
    more bytes, reports an error, or takes one frame off the front. What it
    produces never depends on how the transport split the bytes. */
module Framing {
  import opened Words

  datatype Step<+R, +E> = NeedMore | Bad(error: E) | Frame(value: R, length: nat)

  // A decision, once made on some bytes, is not changed by later bytes.
  ghost predicate Incremental<R(!new), E(!new)>(next: seq<byte> -> Step<R, E>) {
    && (forall b {:trigger next(b)} :: next(b).Frame? ==> 0 < next(b).length <= |b|)
    && (forall b, more {:trigger next(b + more)} :: !next(b).NeedMore? ==> next(b + more) == next(b))
  }

  // Everything that can be decoded from a buffer.
  datatype Scanned<+R, +E> = Scanned(frames: seq<R>, rest: seq<byte>, error: Option<E>)

  function Scan<R, E>(next: seq<byte> -> Step<R, E>, buffer: seq<byte>): Scanned<R, E>
    decreases |buffer|
  {
    match next(buffer)
    case NeedMore => Scanned([], buffer, None)
    case Bad(error) => Scanned([], buffer, Some(error))
    case Frame(value, length) =>
      if 0 < length <= |buffer| then
        var later := Scan(next, buffer[length..]);
        later.(frames := [value] + later.frames)
      else Scanned([], buffer, None)
  }

  // One call of a decoder: on an error the buffer keeps everything and nothing is returned.
  function Push<R, E>(next: seq<byte> -> Step<R, E>, buffer: seq<byte>, input: seq<byte>): (Result<seq<R>, E>, seq<byte>) {
    var s := Scan(next, buffer + input);
    match s.error
    case None => (Ok(s.frames), s.rest)
    case Some(error) => (Err(error), buffer + input)
  }

  // A run of calls: the frames of the successful ones, the buffer, and how the last call ended.
  datatype Fed<+R, +E> = Fed(frames: seq<R>, buffer: seq<byte>, error: Option<E>)

  function Feed<R, E>(next: seq<byte> -> Step<R, E>, parts: seq<seq<byte>>): Fed<R, E> {
    if parts == [] then Fed([], [], None)
    else
      var before := Feed(next, parts[..|parts| - 1]);
      match Push(next, before.buffer, parts[|parts| - 1])
      case (Ok(frames), buffer) => Fed(before.frames + frames, buffer, None)
      case (Err(error), buffer) => Fed(before.frames, buffer, Some(error))
  }

  function Join(parts: seq<seq<byte>>): seq<byte> {
    if parts == [] then [] else Join(parts[..|parts| - 1]) + parts[|parts| - 1]
  }

  // The three ways a scan starts.
  lemma ScanStep<R, E>(next: seq<byte> -> Step<R, E>, b: seq<byte>)
    ensures next(b).NeedMore? ==> Scan(next, b) == Scanned([], b, None)
    ensures next(b).Bad? ==> Scan(next, b) == Scanned([], b, Some(next(b).error))
    ensures next(b).Frame? && 0 < next(b).length <= |b| ==>
              var later := Scan(next, b[next(b).length..]);
              Scan(next, b) == Scanned([next(b).value] + later.frames, later.rest, later.error)
  {
  }

  // Scanning more bytes continues where scanning fewer stopped.
  lemma {:induction false} ScanExtends<R(!new), E(!new)>(next: seq<byte> -> Step<R, E>, b: seq<byte>, more: seq<byte>)
    requires Incremental(next)
    ensures Scan(next, b).error.Some? ==> Scan(next, b + more).error == Scan(next, b).error
                                          && Scan(next, b + more).frames == Scan(next, b).frames
    ensures Scan(next, b).error.None? ==>
              var later := Scan(next, Scan(next, b).rest + more);
              Scan(next, b + more) == Scanned(Scan(next, b).frames + later.frames, later.rest, later.error)
    decreases |b|
  {
    hide Scan;
    ScanStep(next, b);
    ScanStep(next, b + more);
    match next(b)
    case NeedMore =>
      var all := Scan(next, b + more);
      assert [] + all.frames == all.frames;
    case Bad(_) =>
    case Frame(value, n) =>
      assert (b + more)[n..] == b[n..] + more;
      ScanExtends(next, b[n..], more);
      var s := Scan(next, b[n..]);
      if s.error.None? {
        var later := Scan(next, s.rest + more);
        assert [value] + (s.frames + later.frames) == ([value] + s.frames) + later.frames;
      }
  }

  /** Independence from fragmentation: however a stream is cut into calls, a stream without errors
      yields the frames and the residue of the whole stream; a bad stream ends in the error of the
      whole stream, having delivered only frames that precede it. */
  lemma {:induction false} FeedIsScan<R(!new), E(!new)>(next: seq<byte> -> Step<R, E>, parts: seq<seq<byte>>)
    requires Incremental(next)
    ensures var s := Scan(next, Join(parts)); var f := Feed(next, parts);
            if s.error.None? then f == Fed(s.frames, s.rest, None)
            else (parts != [] ==> f.error == s.error) && f.frames <= s.frames
                 && Scan(next, f.buffer).error == s.error
                 && f.frames + Scan(next, f.buffer).frames == s.frames
    decreases |parts|
  {
    if parts != [] {
      var before, last := parts[..|parts| - 1], parts[|parts| - 1];
      FeedIsScan(next, before);
      var whole := Join(before);
      ScanExtends(next, whole, last);
      var f := Feed(next, before);
      if Scan(next, whole).error.Some? {
        ScanExtends(next, f.buffer, last);
      }
    } else {
      ScanOfEmpty(next);
    }
  }

  lemma ScanOfEmpty<R(!new), E(!new)>(next: seq<byte> -> Step<R, E>)
    requires Incremental(next)
    ensures Scan(next, []).frames == [] && Scan(next, []).rest == []
  {
    assert !next([]).Frame?;
  }

  /** Two ways of cutting one stream agree: the same frames and residue, or the same final error. */
  lemma SplitIndependent<R(!new), E(!new)>(next: seq<byte> -> Step<R, E>, parts: seq<seq<byte>>, others: seq<seq<byte>>)
    requires Incremental(next) && Join(parts) == Join(others) && parts != [] && others != []
    ensures Feed(next, parts).error == Feed(next, others).error
    ensures Feed(next, parts).error.None? ==> Feed(next, parts) == Feed(next, others)
  {
    FeedIsScan(next, parts);
    FeedIsScan(next, others);
  }

  /** A decoder that has failed fails in the same way for ever. */
  lemma ErrorIsFinal<R(!new), E(!new)>(next: seq<byte> -> Step<R, E>, parts: seq<seq<byte>>, input: seq<byte>)
    requires Incremental(next) && Feed(next, parts).error.Some?
    ensures Feed(next, parts + [input]).error == Feed(next, parts).error
    ensures Feed(next, parts + [input]).frames == Feed(next, parts).frames
  {
    var f := Feed(next, parts);
    FeedIsScan(next, parts);
    ScanExtends(next, f.buffer, input);
    assert (parts + [input])[..|parts|] == parts;
  }
}
