/** `write_a2m`: each record as its header line followed by its sequence
    wrapped at 80 characters per line. */
module A2mWriter {
  import opened A2mFormat
  import opened A2mReader

  /** The fixed wrapping width of sequence lines. */
  const LineWidth: nat := 80

  function Min(a: int, b: int): int {
    if a <= b then a else b
  }

  /** The number of sequence lines written for a sequence of length n: n / 80 rounded up. */
  function ChunkCount(n: nat): nat {
    (n + LineWidth - 1) / LineWidth
  }

  /** `[s[i:i+80] for i in range(0, len(s), 80)]`: Python's slice stops at the end of `s`. */
  function Chunks(s: string): (cs: seq<string>)
    ensures |cs| == ChunkCount(|s|)
  {
    seq(ChunkCount(|s|), k requires 0 <= k < ChunkCount(|s|) =>
      s[LineWidth * k .. Min(LineWidth * k + LineWidth, |s|)])
  }

  /** Each string followed by the newline `f.write` appends to it. */
  function Terminated(lines: seq<string>): (r: seq<string>)
    ensures |r| == |lines|
  {
    seq(|lines|, i requires 0 <= i < |lines| => lines[i] + "\n")
  }

  /** What write_a2m writes for one record. */
  function RecordLines(r: Record): seq<string> {
    [r.header + "\n"] + Terminated(Chunks(r.sequence))
  }

  /** What write_a2m writes for a list of records, in order: the successive
      arguments of `f.write`. */
  function WriteLines(records: seq<Record>): seq<string> {
    if records == [] then [] else RecordLines(records[0]) + WriteLines(records[1..])
  }

  /** The chunking law: the first m chunks together are the first 80 * m
      characters of `s` (or all of it). */
  lemma {:induction false} ChunksPrefix(s: string, m: nat)
    requires m <= ChunkCount(|s|)
    ensures Concat(Chunks(s)[..m]) == s[..Min(LineWidth * m, |s|)]
    decreases m
  {
    var cs := Chunks(s);
    if m == 0 {
      assert cs[..0] == [];
    } else {
      ChunksPrefix(s, m - 1);
      assert cs[..m][..m - 1] == cs[..m - 1];
      assert Concat(cs[..m]) == Concat(cs[..m - 1]) + cs[m - 1];
      assert s[..LineWidth * (m - 1)] + s[LineWidth * (m - 1) .. Min(LineWidth * m, |s|)]
          == s[..Min(LineWidth * m, |s|)];
    }
  }

  /** write_a2m splits a sequence into ceil(len / 80) lines, each holding 1 to 80
      characters and all but the last exactly 80, whose concatenation is the
      sequence; an empty sequence gets no line at all. */
  lemma ChunksLaw(s: string)
    ensures |Chunks(s)| == ChunkCount(|s|)
    ensures s == [] <==> Chunks(s) == []
    ensures forall k :: 0 <= k < |Chunks(s)| ==> 0 < |Chunks(s)[k]| <= LineWidth
    ensures forall k :: 0 <= k < |Chunks(s)| - 1 ==> |Chunks(s)[k]| == LineWidth
    ensures Concat(Chunks(s)) == s
  {
    var cs := Chunks(s);
    ChunksPrefix(s, |cs|);
    assert cs[..|cs|] == cs;
  }

  /** A chunk starts at a multiple of 80. */
  lemma ChunkStart(s: string, k: nat)
    requires k < |Chunks(s)|
    ensures LineWidth * k < |s| && Chunks(s)[k][0] == s[LineWidth * k]
  {
  }

  lemma WriteLinesAppend(records: seq<Record>, r: Record)
    ensures WriteLines(records + [r]) == WriteLines(records) + RecordLines(r)
    decreases |records|
  {
    if records == [] {
      assert WriteLines([r]) == RecordLines(r) + WriteLines([]);
    } else {
      assert (records + [r])[1..] == records[1..] + [r];
      WriteLinesAppend(records[1..], r);
    }
  }

  /** One step of the inner write loop: the slice at i is the next chunk. */
  lemma NextChunk(s: string, i: nat)
    requires i % LineWidth == 0 && i < |s|
    ensures (i + LineWidth) % LineWidth == 0
    ensures (i + LineWidth) / LineWidth <= ChunkCount(|s|)
    ensures Terminated(Chunks(s)[..(i + LineWidth) / LineWidth])
         == Terminated(Chunks(s)[..i / LineWidth]) + [s[i .. Min(i + LineWidth, |s|)] + "\n"]
  {
    var m := i / LineWidth;
    assert i == LineWidth * m;
    assert (i + LineWidth) / LineWidth == m + 1;
    assert Chunks(s)[..m + 1] == Chunks(s)[..m] + [Chunks(s)[m]];
  }

  /** When the inner write loop stops, every chunk has been written. */
  lemma AllChunks(s: string, i: nat)
    requires i % LineWidth == 0 && i >= |s| && i / LineWidth <= ChunkCount(|s|)
    ensures Chunks(s)[..i / LineWidth] == Chunks(s)
  {
  }

  /** The write loop of write_a2m: for each record, its header line, then one
      line per slice `seq[i:i+80]` for i = 0, 80, 160, ... below the length. */
  method WriteA2m(records: seq<Record>) returns (written: seq<string>)
    ensures written == WriteLines(records)
  {
    written := [];
    var k := 0;
    while k < |records|
      invariant 0 <= k <= |records|
      invariant written == WriteLines(records[..k])
    {
      var header, s := records[k].header, records[k].sequence;
      ghost var before := written;
      written := written + [header + "\n"];
      var i := 0;
      while i < |s|
        invariant i % LineWidth == 0
        invariant i / LineWidth <= ChunkCount(|s|)
        invariant written == before + [header + "\n"] + Terminated(Chunks(s)[..i / LineWidth])
      {
        NextChunk(s, i);
        written := written + [s[i .. Min(i + LineWidth, |s|)] + "\n"];
        i := i + LineWidth;
      }
      AllChunks(s, i);
      WriteLinesAppend(records[..k], records[k]);
      assert records[..k + 1] == records[..k] + [records[k]];
      k := k + 1;
    }
    assert records[..k] == records;
  }

  /** What a record must look like for write_a2m's output to read back as that
      record: a header line starting with '>', no line terminator inside the
      header or the sequence, and no sequence line starting with '>'. */
  predicate Rereadable(r: Record) {
    |r.header| > 0 && r.header[0] == '>' &&
    NoLineBreaks(r.header) && NoLineBreaks(r.sequence) &&
    forall k :: 0 <= k < |r.sequence| && k % LineWidth == 0 ==> r.sequence[k] != '>'
  }

  lemma SequenceLinesReread(s: string)
    requires NoLineBreaks(s)
    requires forall k :: 0 <= k < |s| && k % LineWidth == 0 ==> s[k] != '>'
    ensures forall i :: 0 <= i < |Chunks(s)| ==> !IsHeaderLine(Terminated(Chunks(s))[i])
    ensures Concat(StripAll(Terminated(Chunks(s)))) == s
  {
    var cs := Chunks(s);
    forall i | 0 <= i < |cs| ensures Strip(Terminated(cs)[i]) == cs[i] {
      StripTerminated(cs[i]);
    }
    forall i | 0 <= i < |cs| ensures !IsHeaderLine(Terminated(cs)[i]) {
      ChunkStart(s, i);
      assert (LineWidth * i) % LineWidth == 0;
    }
    assert StripAll(Terminated(cs)) == cs;
    ChunksLaw(s);
  }

  /** The output for rereadable records is empty or starts with a header line. */
  lemma WrittenStartsWithHeader(records: seq<Record>)
    requires records != [] ==> Rereadable(records[0])
    ensures WriteLines(records) == [] || IsHeaderLine(WriteLines(records)[0])
  {
    if records != [] {
      StripTerminated(records[0].header);
      assert WriteLines(records)[0] == records[0].header + "\n";
    }
  }

  /** Reading back what write_a2m wrote recovers the records exactly, provided
      every record is rereadable. */
  lemma {:induction false} WriteThenRead(records: seq<Record>)
    requires forall k :: 0 <= k < |records| ==> Rereadable(records[k])
    ensures Parse(WriteLines(records)) == records
    decreases |records|
  {
    if records != [] {
      var r := records[0];
      var body := Terminated(Chunks(r.sequence));
      var rest := WriteLines(records[1..]);
      assert Parse(rest) == records[1..] by {
        WriteThenRead(records[1..]);
      }
      assert IsHeaderLine(r.header + "\n") && Strip(r.header + "\n") == r.header by {
        StripTerminated(r.header);
      }
      SequenceLinesReread(r.sequence);
      WrittenStartsWithHeader(records[1..]);
      assert WriteLines(records) == [r.header + "\n"] + body + rest;
      ParseGroup(r.header + "\n", body, rest);
    }
  }
}
