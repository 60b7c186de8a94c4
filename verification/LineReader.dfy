// The bounded line reader of src/proxy_capture.rs over a buffered stream that arrives in chunks.
module LineReader {
  import opened Bytes

  const NEWLINE: Byte := 10

  datatype LineError = ReadFailed | TooLong

  function Join(chunks: seq<Bytes>): Bytes {
    if chunks == [] then [] else chunks[0] + Join(chunks[1..])
  }

  /** How many bytes the first line takes: up to and with the first newline, or everything. */
  function LineLength(s: Bytes): (n: nat)
    ensures n <= |s|
    ensures n == 0 <==> s == []
  {
    if s == [] then 0
    else if s[0] == NEWLINE then 1
    else 1 + LineLength(s[1..])
  }

  /** The first line holds a newline at most at its end, and only the last line lacks one. */
  lemma {:induction false} FirstLine(s: Bytes)
    requires s != []
    ensures NEWLINE !in s[..LineLength(s) - 1]
    ensures LineLength(s) < |s| ==> s[LineLength(s) - 1] == NEWLINE
  {
    if s[0] != NEWLINE && |s| > 1 {
      FirstLine(s[1..]);
      var n := LineLength(s[1..]);
      assert s[..n] == [s[0]] + s[1..][..n - 1];
    }
  }

  predicate Ended(line: Bytes) { line != [] && line[|line| - 1] == NEWLINE }

  /** What reading a line from the stream s gives; a broken stream fails where s ends. */
  function LineOf(s: Bytes, broken: bool, max: nat): Result<Option<Bytes>, LineError> {
    var line := s[..LineLength(s)];
    if |line| > max then Err(TooLong)
    else if broken && !Ended(line) then Err(ReadFailed)
    else if line == [] then Ok(None)
    else Ok(Some(line))
  }

  /** A BufRead: the chunks fill_buf will show, none of them empty, and whether a read fails after them. */
  class BufferedStream {
    var chunks: seq<Bytes>
    var broken: bool

    ghost predicate Valid()
      reads this
    {
      forall i :: 0 <= i < |chunks| ==> chunks[i] != []
    }

    /** The bytes still to come. */
    ghost function Rest(): Bytes
      reads this
    {
      Join(chunks)
    }

    constructor (chunks: seq<Bytes>, broken: bool)
      requires forall i :: 0 <= i < |chunks| ==> chunks[i] != []
      ensures Valid() && Rest() == Join(chunks) && this.broken == broken
    {
      this.chunks, this.broken := chunks, broken;
    }

    /** fill_buf: some of the next bytes, none only at the end of the stream. */
    method FillBuf() returns (r: Result<Bytes, LineError>)
      requires Valid()
      ensures r.Err? ==> r.error == ReadFailed && broken && Rest() == []
      ensures r.Ok? ==> r.value <= Rest() && (r.value == [] ==> !broken && Rest() == [])
      ensures r.Ok? && r.value != [] ==> chunks != [] && r.value == chunks[0]
    {
      if chunks != [] {
        r := Ok(chunks[0]);
      } else if broken {
        r := Err(ReadFailed);
      } else {
        r := Ok([]);
      }
    }

    method Consume(n: nat)
      requires Valid() && chunks != [] && n <= |chunks[0]|
      modifies this
      ensures Valid() && broken == old(broken)
      ensures n <= |old(Rest())| && Rest() == old(Rest())[n..]
    {
      JoinDrop(chunks, n);
      chunks := if n < |chunks[0]| then [chunks[0][n..]] + chunks[1..] else chunks[1..];
    }
  }

  lemma JoinDrop(chunks: seq<Bytes>, n: nat)
    requires chunks != [] && n <= |chunks[0]|
    ensures n <= |Join(chunks)|
    ensures Join([chunks[0][n..]] + chunks[1..]) == Join(chunks)[n..]
    ensures n == |chunks[0]| ==> Join(chunks[1..]) == Join(chunks)[n..]
  {
    var cut := [chunks[0][n..]] + chunks[1..];
    assert cut[1..] == chunks[1..] && cut[0] == chunks[0][n..];
  }

  /** Where the first newline of a chunk ends the line, or the whole chunk. */
  method TakeLength(chunk: Bytes) returns (n: nat)
    ensures n == LineLength(chunk)
  {
    var i := 0;
    while i < |chunk| && chunk[i] != NEWLINE
      invariant i <= |chunk| && LineLength(chunk) == i + LineLength(chunk[i..])
    {
      i := i + 1;
    }
    n := if i < |chunk| then i + 1 else i;
  }

  lemma {:induction false} LineAcrossChunks(head: Bytes, rest: Bytes)
    ensures LineLength(head + rest)
            == if NEWLINE in head then LineLength(head) else |head| + LineLength(rest)
    ensures NEWLINE in head <==> Ended(head[..LineLength(head)])
  {
    if head == [] {
      assert head + rest == rest;
    } else {
      LineAcrossChunks(head[1..], rest);
      assert (head + rest)[1..] == head[1..] + rest;
    }
  }

  /** Taking a chunk's part of the line: it is part of the first line, and all of it once it ends one. */
  lemma TakeStep(line: Bytes, chunk: Bytes, rest: Bytes)
    requires NEWLINE !in line && chunk != [] && chunk <= rest
    ensures var taken, all := line + chunk[..LineLength(chunk)], line + rest;
            && |taken| <= LineLength(all) && taken == all[..|taken|]
            && (if Ended(taken) then |taken| == LineLength(all) else NEWLINE !in taken)
  {
    hide LineLength;
    LineAcrossChunks(line, rest);
    ChunkStep(chunk, rest);
    var part := chunk[..LineLength(chunk)];
    assert part == rest[..|part|];
    assert line + part == (line + rest)[..|line| + |part|];
    assert (line + part)[|line| + |part| - 1] == part[|part| - 1];
  }

  lemma ChunkStep(chunk: Bytes, rest: Bytes)
    requires chunk != [] && chunk <= rest
    ensures var n := LineLength(chunk);
            && n <= LineLength(rest)
            && (if Ended(chunk[..n]) then n == LineLength(rest) else NEWLINE !in chunk[..n])
  {
    hide LineLength, Ended;
    assert rest == chunk + rest[|chunk|..];
    LineAcrossChunks(chunk, rest[|chunk|..]);
    if NEWLINE !in chunk {
      WholeLine(chunk);
    }
  }

  lemma WholeLine(line: Bytes)
    requires NEWLINE !in line
    ensures LineLength(line) == |line| && !Ended(line)
  {
    LineAcrossChunks(line, []);
    assert line + [] == line;
  }

  /** read_bounded_line: the outcome depends on the bytes of the stream alone, not on how they are cut
      into chunks, and exactly the returned line is consumed. */
  method ReadBoundedLine(stream: BufferedStream, max: nat) returns (r: Result<Option<Bytes>, LineError>)
    requires stream.Valid()
    modifies stream
    ensures stream.Valid() && stream.broken == old(stream.broken)
    ensures r == LineOf(old(stream.Rest()), stream.broken, max)
    ensures r.Ok? ==> old(stream.Rest())
                      == (if r.value.Some? then r.value.value else []) + stream.Rest()
  {
    hide Join, LineLength, Ended;
    var line: Bytes := [];
    ghost var all := stream.Rest();
    while true
      invariant stream.Valid() && stream.broken == old(stream.broken)
      invariant all == line + stream.Rest() && NEWLINE !in line && |line| <= max
      decreases |stream.Rest()|
    {
      ghost var rest := stream.Rest();
      var filled := stream.FillBuf();
      if filled.Err? {
        WholeLine(line);
        assert all == line == all[..|line|];
        return Err(filled.error);
      }
      var available := filled.value;
      if available == [] {
        WholeLine(line);
        assert all == line == all[..|line|];
        return Ok(if line == [] then None else Some(line));
      }
      var take := TakeLength(available);
      TakeStep(line, available, rest);
      if |line| + take > max {
        return Err(TooLong);
      }
      line := line + available[..take];
      stream.Consume(take);
      assert all == line + stream.Rest();
      if Ended(line) {
        assert line == all[..LineLength(all)];
        return Ok(Some(line));
      }
    }
  }

  // ---------------------------------------------------------------- all lines

  /** The lines of a stream in order. */
  function Lines(s: Bytes): seq<Bytes> {
    if s == [] then [] else [s[..LineLength(s)]] + Lines(s[LineLength(s)..])
  }

  /** The lines put together are the stream; each is non-empty, holds a newline only at its end, and
      all but the last end with one. */
  lemma {:induction false} LinesPartitionTheStream(s: Bytes)
    ensures Join(Lines(s)) == s
    ensures forall i :: 0 <= i < |Lines(s)| ==> Lines(s)[i] != [] && NEWLINE !in Lines(s)[i][..|Lines(s)[i]| - 1]
    ensures forall i :: 0 <= i < |Lines(s)| - 1 ==> Ended(Lines(s)[i])
  {
    if s != [] {
      var n := LineLength(s);
      FirstLine(s);
      LinesPartitionTheStream(s[n..]);
      assert s == s[..n] + s[n..];
      if n == |s| {
        assert Lines(s[n..]) == [];
      }
    }
  }

  predicate AllShort(lines: seq<Bytes>, max: nat) { forall i :: 0 <= i < |lines| ==> |lines[i]| <= max }

  /** One reading of a line against the remaining lines. */
  lemma ReadStep(s: Bytes, broken: bool, max: nat)
    ensures LineOf(s, broken, max).Err? ==> broken || !AllShort(Lines(s), max)
    ensures LineOf(s, broken, max) == Ok(None) ==> s == [] && !broken
    ensures var r := LineOf(s, broken, max);
            r.Ok? && r.value.Some? ==>
              var line := r.value.value;
              s != [] && |line| <= max && line != [] && line <= s && Lines(s) == [line] + Lines(s[|line|..])
  {
    if s != [] {
      assert Lines(s)[0] == s[..LineLength(s)];
    }
  }

  /** The reading loop of read_records: every line until the end, or an error. */
  method ReadLines(stream: BufferedStream, max: nat) returns (lines: seq<Bytes>, failure: Option<LineError>)
    requires stream.Valid()
    modifies stream
    ensures failure.None? <==> !old(stream.broken) && AllShort(Lines(old(stream.Rest())), max)
    ensures failure.None? ==> lines == Lines(old(stream.Rest()))
    ensures failure.Some? ==> lines <= Lines(old(stream.Rest()))
  {
    hide Join, Lines, LineOf;
    ghost var all := Lines(stream.Rest());
    lines, failure := [], None;
    while true
      invariant stream.Valid() && stream.broken == old(stream.broken) && failure.None?
      invariant lines + Lines(stream.Rest()) == all && AllShort(lines, max)
      decreases |stream.Rest()|
    {
      ghost var s := stream.Rest();
      ReadStep(s, stream.broken, max);
      var r := ReadBoundedLine(stream, max);
      if r.Err? {
        failure := Some(r.error);
        RestTooLong(lines, Lines(s), max);
        return;
      }
      if r.value.None? {
        assert Lines(s) == [] by { NoLines(); }
        return;
      }
      var line := r.value.value;
      assert stream.Rest() == s[|line|..];
      assert lines + [line] + Lines(stream.Rest()) == lines + Lines(s);
      lines := lines + [line];
    }
  }

  lemma NoLines()
    ensures Lines([]) == []
  {
  }

  lemma RestTooLong(lines: seq<Bytes>, rest: seq<Bytes>, max: nat)
    ensures AllShort(lines + rest, max) ==> AllShort(rest, max)
  {
    assert forall i :: 0 <= i < |rest| ==> rest[i] == (lines + rest)[|lines| + i];
  }
}
