/** `read_a2m`: turning the lines of an A2M file into (header, sequence) records. */
module A2mReader {
  import opened A2mFormat

  /** The residues of a record whose header has just been read: the leading
      non-header lines, stripped and concatenated. */
  function BodyText(lines: seq<string>): string {
    if lines == [] || IsHeaderLine(lines[0]) then "" else Strip(lines[0]) + BodyText(lines[1..])
  }

  /** The lines left once the leading non-header lines are consumed: empty, or
      starting with the next header line. */
  function AfterBody(lines: seq<string>): (rest: seq<string>)
    ensures |rest| <= |lines|
    ensures rest == [] || IsHeaderLine(rest[0])
  {
    if lines == [] || IsHeaderLine(lines[0]) then lines else AfterBody(lines[1..])
  }

  /** The records of a file, defined by grouping: lines before the first header
      line are dropped, and each header line owns the non-header lines up to the
      next header line, stripped and concatenated. */
  function Parse(lines: seq<string>): seq<Record>
    decreases |lines|
  {
    if lines == [] then []
    else if IsHeaderLine(lines[0]) then
      [Record(Strip(lines[0]), BodyText(lines[1..]))] + Parse(AfterBody(lines[1..]))
    else Parse(lines[1..])
  }

  /** The stripped header lines of a file, in file order. */
  function HeaderLines(lines: seq<string>): seq<string> {
    if lines == [] then []
    else (if IsHeaderLine(lines[0]) then [Strip(lines[0])] else []) + HeaderLines(lines[1..])
  }

  function Headers(records: seq<Record>): (hs: seq<string>)
    ensures |hs| == |records|
  {
    seq(|records|, k requires 0 <= k < |records| => records[k].header)
  }

  /** The records still to be produced, given the parser's state after a prefix
      of the file: the header being collected (if any), the stripped lines
      gathered for it so far, and the lines not yet read. */
  function Pending(header: Option<string>, parts: seq<string>, rest: seq<string>): seq<Record> {
    match header
    case None => Parse(rest)
    case Some(h) => [Record(h, Concat(parts) + BodyText(rest))] + Parse(AfterBody(rest))
  }

  /** The parse loop of read_a2m: a header line closes the record being collected
      and opens a new one; any other line is stripped and added to the current
      record's parts (and is lost when no header has been seen yet). */
  method ReadA2m(lines: seq<string>) returns (records: seq<Record>)
    ensures records == Parse(lines)
  {
    records := [];
    var currentHeader: Option<string> := None;
    var currentSeq: seq<string> := [];
    var i := 0;
    while i < |lines|
      invariant 0 <= i <= |lines|
      invariant records + Pending(currentHeader, currentSeq, lines[i..]) == Parse(lines)
    {
      var line := Strip(lines[i]);
      assert lines[i..][1..] == lines[i + 1..];
      if |line| > 0 && line[0] == '>' {
        if currentHeader.Some? {
          HeaderCloses(records, currentHeader.value, currentSeq, lines[i..]);
          records := records + [Record(currentHeader.value, Concat(currentSeq))];
        } else {
          HeaderOpens(lines[i..]);
        }
        currentHeader := Some(line);
        currentSeq := [];
      } else {
        if currentHeader.Some? {
          BodyLineExtends(currentHeader.value, currentSeq, lines[i..]);
        } else {
          PreambleLineDropped(lines[i..]);
        }
        currentSeq := currentSeq + [line];
      }
      i := i + 1;
    }
    assert lines[i..] == [];
    if currentHeader.Some? {
      assert Concat(currentSeq) + "" == Concat(currentSeq);
      records := records + [Record(currentHeader.value, Concat(currentSeq))];
    } else {
      assert records + [] == records;
    }
  }

  /** A header line seen before any record: the first record opens, empty. */
  lemma HeaderOpens(rest: seq<string>)
    requires rest != [] && IsHeaderLine(rest[0])
    ensures Parse(rest) == Pending(Some(Strip(rest[0])), [], rest[1..])
  {
    assert Concat([]) + BodyText(rest[1..]) == BodyText(rest[1..]);
  }

  /** A header line seen inside a record: that record is complete and the next one opens. */
  lemma HeaderCloses(records: seq<Record>, h: string, parts: seq<string>, rest: seq<string>)
    requires rest != [] && IsHeaderLine(rest[0])
    ensures records + Pending(Some(h), parts, rest)
         == (records + [Record(h, Concat(parts))]) + Pending(Some(Strip(rest[0])), [], rest[1..])
  {
    var closed := Record(h, Concat(parts));
    var started := Pending(Some(Strip(rest[0])), [], rest[1..]);
    HeaderOpens(rest);
    assert Pending(Some(h), parts, rest) == [closed] + started by {
      assert Concat(parts) + "" == Concat(parts);
    }
    assert records + ([closed] + started) == (records + [closed]) + started;
  }

  /** Any other line seen inside a record: it is stripped and added to the record's parts. */
  lemma BodyLineExtends(h: string, parts: seq<string>, rest: seq<string>)
    requires rest != [] && !IsHeaderLine(rest[0])
    ensures Pending(Some(h), parts, rest) == Pending(Some(h), parts + [Strip(rest[0])], rest[1..])
  {
    var line := Strip(rest[0]);
    var later := BodyText(rest[1..]);
    assert Concat(parts) + (line + later) == Concat(parts + [line]) + later by {
      assert (parts + [line])[..|parts|] == parts;
    }
  }

  /** Any other line seen before the first header: it is dropped. */
  lemma PreambleLineDropped(rest: seq<string>)
    requires rest != [] && !IsHeaderLine(rest[0])
    ensures Parse(rest) == Parse(rest[1..])
  {
  }

  lemma {:induction false} HeaderLinesSkipBody(lines: seq<string>)
    ensures HeaderLines(lines) == HeaderLines(AfterBody(lines))
    decreases |lines|
  {
    if lines != [] && !IsHeaderLine(lines[0]) {
      HeaderLinesSkipBody(lines[1..]);
    }
  }

  lemma HeadersCons(r: Record, later: seq<Record>)
    ensures Headers([r] + later) == [r.header] + Headers(later)
  {
  }

  /** read_a2m yields exactly one record per header line, in file order, and each
      record's header is that line with its terminator stripped. */
  lemma {:induction false} ParseHeaders(lines: seq<string>)
    ensures Headers(Parse(lines)) == HeaderLines(lines)
    decreases |lines|
  {
    if lines == [] {
      assert Headers([]) == [];
    } else if IsHeaderLine(lines[0]) {
      var body := lines[1..];
      var later := Parse(AfterBody(body));
      ParseHeaders(AfterBody(body));
      HeaderLinesSkipBody(body);
      var r := Record(Strip(lines[0]), BodyText(body));
      assert HeaderLines(lines) == [Strip(lines[0])] + HeaderLines(body);
      HeadersCons(r, later);
    } else {
      ParseHeaders(lines[1..]);
      assert HeaderLines(lines) == HeaderLines(lines[1..]);
    }
  }

  lemma {:induction false} HeaderLinesEmptyIff(lines: seq<string>)
    ensures HeaderLines(lines) == [] <==> forall i :: 0 <= i < |lines| ==> !IsHeaderLine(lines[i])
    decreases |lines|
  {
    if lines != [] {
      HeaderLinesEmptyIff(lines[1..]);
      assert forall i :: 1 <= i < |lines| ==> lines[i] == lines[1..][i - 1];
    }
  }

  /** A file without any header line reads as no records at all, and a file with
      one reads as at least one record. */
  lemma {:induction false} ParseEmptyIff(lines: seq<string>)
    ensures Parse(lines) == [] <==> forall i :: 0 <= i < |lines| ==> !IsHeaderLine(lines[i])
  {
    ParseHeaders(lines);
    HeaderLinesEmptyIff(lines);
  }

  /** Lines before the first header line are dropped. */
  lemma {:induction false} ParseSkipsPreamble(preamble: seq<string>, rest: seq<string>)
    requires forall i :: 0 <= i < |preamble| ==> !IsHeaderLine(preamble[i])
    ensures Parse(preamble + rest) == Parse(rest)
    decreases |preamble|
  {
    if preamble != [] {
      var lines := preamble + rest;
      assert lines[0] == preamble[0];
      assert lines[1..] == preamble[1..] + rest;
      ParseSkipsPreamble(preamble[1..], rest);
    } else {
      assert preamble + rest == rest;
    }
  }

  /** Non-header lines followed by a header line (or nothing): the body text is
      their stripped concatenation, and what follows is the rest. */
  lemma {:induction false} BodyOf(body: seq<string>, rest: seq<string>)
    requires forall i :: 0 <= i < |body| ==> !IsHeaderLine(body[i])
    requires rest == [] || IsHeaderLine(rest[0])
    ensures BodyText(body + rest) == Concat(StripAll(body))
    ensures AfterBody(body + rest) == rest
    decreases |body|
  {
    if body == [] {
      assert body + rest == rest;
      assert StripAll(body) == [];
    } else {
      assert (body + rest)[0] == body[0];
      assert (body + rest)[1..] == body[1..] + rest;
      BodyOf(body[1..], rest);
      assert StripAll(body) == [Strip(body[0])] + StripAll(body[1..]);
      ConcatAppend([Strip(body[0])], StripAll(body[1..]));
      ConcatSingle(Strip(body[0]));
    }
  }

  /** A header line followed by non-header lines, up to the next header line or
      the end of the file, reads as one record: the stripped header line, and the
      stripped body lines concatenated in order. */
  lemma ParseGroup(header: string, body: seq<string>, rest: seq<string>)
    requires IsHeaderLine(header)
    requires forall i :: 0 <= i < |body| ==> !IsHeaderLine(body[i])
    requires rest == [] || IsHeaderLine(rest[0])
    ensures Parse([header] + body + rest)
         == [Record(Strip(header), Concat(StripAll(body)))] + Parse(rest)
  {
    var lines := [header] + body + rest;
    assert lines[1..] == body + rest;
    BodyOf(body, rest);
  }
}
