/** The two places that chain read, filter and write: the clean-up half of
    `convert_a3m_to_a2m` (after reformat.pl has produced the A2M file) and the
    `main` of the standalone script. File contents are the lines read and the
    strings written. */
module CleanPipeline {
  import opened A2mFormat
  import opened A2mReader
  import opened QueryGaps
  import opened A2mWriter

  /** The figures both entry points report about the query before and after. */
  datatype Report = Report(queryHeader: string, originalLength: nat, originalGaps: nat, newLength: nat)

  /** How one pass of query-gap cleaning over a file ends. */
  datatype Cleaning =
    | NoSequences
    | IndexError
    | Cleaned(output: seq<string>, report: Report)

  /** Read, remove query gaps, write: the file's records, or the reason there is nothing to write. */
  function CleanQueryGaps(input: seq<string>): (c: Cleaning)
    ensures c.NoSequences? <==> forall i :: 0 <= i < |input| ==> !IsHeaderLine(input[i])
    ensures c.Cleaned? ==>
      c.report.newLength == c.report.originalLength - c.report.originalGaps &&
      Parse(input) != [] && c.report.queryHeader == Parse(input)[0].header
  {
    ParseEmptyIff(input);
    var records := Parse(input);
    if records == [] then NoSequences
    else
      var query := records[0];
      match WithoutQueryGaps(records)
      case Failure(_) => IndexError
      case Success(cleaned) =>
        Cleaned(WriteLines(cleaned),
                Report(query.header, |query.sequence|, GapCount(query.sequence), |cleaned[0].sequence|))
  }

  /** The clean-up half of convert_a3m_to_a2m on the lines of the converted file:
      with no record it only warns and leaves the file alone; an IndexError
      propagates before anything is written; otherwise the file is overwritten
      with the cleaned records. Returns the outcome and the file's lines afterwards. */
  method ConvertCleanup(a2m: seq<string>) returns (c: Cleaning, after: seq<string>)
    ensures c == CleanQueryGaps(a2m)
    ensures after == (if c.Cleaned? then c.output else a2m)
    ensures (forall i :: 0 <= i < |a2m| ==> !IsHeaderLine(a2m[i])) ==> after == a2m
  {
    ParseEmptyIff(a2m);
    var sequences := ReadA2m(a2m);
    if sequences == [] {
      return NoSequences, a2m;
    }
    var query := sequences[0];
    var originalLength := |query.sequence|;
    var originalGaps := GapCount(query.sequence);
    var cleanedOrError := RemoveQueryGaps(sequences);
    if cleanedOrError.Failure? {
      return IndexError, a2m;
    }
    var cleaned := cleanedOrError.value;
    var newLength := |cleaned[0].sequence|;
    var written := WriteA2m(cleaned);
    c := Cleaned(written, Report(query.header, originalLength, originalGaps, newLength));
    after := written;
  }

  /** `main` of the standalone script on the lines of its input file: exit status
      1 and no output file when there is no record (or when the filter raises
      IndexError, which ends the script with a traceback); otherwise status 0
      and the cleaned records as the output file. */
  method ScriptMain(input: seq<string>) returns (status: nat, output: Option<seq<string>>)
    ensures status == 0 || status == 1
    ensures status == 0 <==> CleanQueryGaps(input).Cleaned?
    ensures status == 0 ==> output == Some(CleanQueryGaps(input).output)
    ensures status == 1 ==> output == None
    ensures (forall i :: 0 <= i < |input| ==> !IsHeaderLine(input[i])) ==> status == 1
  {
    ParseEmptyIff(input);
    var sequences := ReadA2m(input);
    if sequences == [] {
      return 1, None;
    }
    var cleanedOrError := RemoveQueryGaps(sequences);
    if cleanedOrError.Failure? {
      return 1, None;
    }
    var written := WriteA2m(cleanedOrError.value);
    return 0, Some(written);
  }

  /** Residue text as it may appear in a sequence line: no terminator and no '>'. */
  predicate ResidueText(s: string) {
    forall i :: 0 <= i < |s| ==> !IsLineBreak(s[i]) && s[i] != '>'
  }

  /** A line as Python's file iterator yields it, with at most its terminator at
      the end; a sequence line moreover holds no '>'. */
  predicate PlainLine(line: string) {
    if IsHeaderLine(line) then NoLineBreaks(Strip(line)) else ResidueText(Strip(line))
  }

  /** A rereadable record whose sequence is residue text throughout. */
  predicate PlainRecord(r: Record) {
    Rereadable(r) && ResidueText(r.sequence)
  }

  lemma {:induction false} BodyTextPlain(lines: seq<string>)
    requires forall i :: 0 <= i < |lines| ==> PlainLine(lines[i])
    ensures ResidueText(BodyText(lines))
    decreases |lines|
  {
    if lines != [] && !IsHeaderLine(lines[0]) {
      BodyTextPlain(lines[1..]);
      assert PlainLine(lines[0]);
    }
  }

  /** Records read from plain lines are plain. */
  lemma {:induction false} ParsePlain(lines: seq<string>)
    requires forall i :: 0 <= i < |lines| ==> PlainLine(lines[i])
    ensures forall k :: 0 <= k < |Parse(lines)| ==> PlainRecord(Parse(lines)[k])
    decreases |lines|
  {
    if lines != [] {
      if IsHeaderLine(lines[0]) {
        var body := lines[1..];
        var after := AfterBody(body);
        assert forall i :: 0 <= i < |after| ==> PlainLine(after[i]) by {
          AfterBodySuffix(body);
          var d := |body| - |after|;
          assert forall i :: 0 <= i < |after| ==> after[i] == body[d + i];
        }
        ParsePlain(after);
        BodyTextPlain(body);
        assert PlainLine(lines[0]);
      } else {
        ParsePlain(lines[1..]);
      }
    }
  }

  /** What is left after a record's body is a suffix of the lines. */
  lemma {:induction false} AfterBodySuffix(lines: seq<string>)
    ensures AfterBody(lines) == lines[|lines| - |AfterBody(lines)|..]
    decreases |lines|
  {
    if lines != [] && !IsHeaderLine(lines[0]) {
      AfterBodySuffix(lines[1..]);
      assert lines[1..][|lines| - 1 - |AfterBody(lines)|..] == lines[|lines| - |AfterBody(lines)|..];
    }
  }

  /** Removing query gaps from plain records leaves them plain, hence rereadable. */
  lemma CleanedPlain(records: seq<Record>)
    requires forall k :: 0 <= k < |records| ==> PlainRecord(records[k])
    requires WithoutQueryGaps(records).Success?
    ensures forall k :: 0 <= k < |records| ==>
      PlainRecord(WithoutQueryGaps(records).value[k]) && Rereadable(WithoutQueryGaps(records).value[k])
  {
    var out := WithoutQueryGaps(records).value;
    forall k | 0 <= k < |records| ensures PlainRecord(out[k]) && Rereadable(out[k]) {
      var cols := NonGapPositions(records[0].sequence);
      forall j | 0 <= j < |out[k].sequence|
        ensures !IsLineBreak(out[k].sequence[j]) && out[k].sequence[j] != '>'
      {
        assert out[k].sequence[j] == records[k].sequence[cols[j]];
      }
    }
  }

  /** On a file of plain lines, what the clean-up writes reads back as exactly
      the records remove_query_gaps produced. */
  lemma CleanOutputRereads(input: seq<string>)
    requires forall i :: 0 <= i < |input| ==> PlainLine(input[i])
    requires CleanQueryGaps(input).Cleaned?
    ensures WithoutQueryGaps(Parse(input)).Success?
    ensures Parse(CleanQueryGaps(input).output) == WithoutQueryGaps(Parse(input)).value
  {
    var records := Parse(input);
    ParsePlain(input);
    CleanedPlain(records);
    WriteThenRead(WithoutQueryGaps(records).value);
  }

  /** Cleaning an already cleaned file rewrites it identically: its query has no
      gap left and the alignment length stays the same. */
  lemma CleanTwice(input: seq<string>)
    requires forall i :: 0 <= i < |input| ==> PlainLine(input[i])
    requires CleanQueryGaps(input).Cleaned?
    ensures var once := CleanQueryGaps(input);
      CleanQueryGaps(once.output)
      == Cleaned(once.output, Report(once.report.queryHeader, once.report.newLength, 0, once.report.newLength))
  {
    var records := Parse(input);
    var cleaned := WithoutQueryGaps(records).value;
    CleanOutputRereads(input);
    Idempotent(records);
    var once := CleanQueryGaps(input);
    assert Parse(once.output) == cleaned;
    assert GapCount(cleaned[0].sequence) == 0;
  }
}
