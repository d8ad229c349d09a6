/** `remove_query_gaps`: deleting from every record the columns at which the
    first record (the query) holds a gap symbol. */
module QueryGaps {
  import opened A2mFormat

  /** The only way the filter fails: some record is too short for a retained
      column, so indexing it raises IndexError. */
  datatype CleanError = IndexOutOfRange

  /** The ascending positions of `query` that are not '.' or '-'. */
  function NonGapPositions(query: string): (cols: seq<nat>)
    ensures |cols| == |query| - GapCount(query)
  {
    if query == [] then []
    else
      var last := |query| - 1;
      NonGapPositions(query[..last]) + (if IsGap(query[last]) then [] else [last])
  }

  /** The retained columns are exactly the non-gap positions of the query, each
      listed once, in ascending order. */
  lemma {:induction false} NonGapPositionsSpec(query: string)
    ensures var cols := NonGapPositions(query);
      (forall j :: 0 <= j < |cols| ==> cols[j] < |query| && !IsGap(query[cols[j]])) &&
      (forall j, j' :: 0 <= j < j' < |cols| ==> cols[j] < cols[j']) &&
      (forall i :: 0 <= i < |query| && !IsGap(query[i]) ==> i in cols)
    decreases |query|
  {
    if query != [] {
      var last := |query| - 1;
      var init := query[..last];
      NonGapPositionsSpec(init);
      var cols := NonGapPositions(query);
      assert forall i :: 0 <= i < last ==> query[i] == init[i];
      assert forall j :: 0 <= j < |NonGapPositions(init)| ==> cols[j] == NonGapPositions(init)[j];
    }
  }

  /** Every retained column is a valid index into `s`. */
  predicate Covers(s: string, cols: seq<nat>) {
    forall j :: 0 <= j < |cols| ==> cols[j] < |s|
  }

  /** `''.join(s[i] for i in cols)`. */
  function Project(s: string, cols: seq<nat>): (r: string)
    requires Covers(s, cols)
    ensures |r| == |cols|
  {
    seq(|cols|, j requires 0 <= j < |cols| => s[cols[j]])
  }

  /** The result of remove_query_gaps. An empty list comes back as it is;
      otherwise every record, the query included, keeps its header and is
      projected onto the query's non-gap positions, unless one is too short. */
  function WithoutQueryGaps(records: seq<Record>): (r: Result<seq<Record>, CleanError>)
    ensures records == [] ==> r == Success(records)
    ensures records != [] ==>
      var cols := NonGapPositions(records[0].sequence);
      (r.Failure? <==> exists k :: 0 <= k < |records| && !Covers(records[k].sequence, cols))
    ensures r.Success? ==>
      |r.value| == |records| &&
      forall k :: 0 <= k < |records| ==>
        var cols := NonGapPositions(records[0].sequence);
        r.value[k].header == records[k].header &&
        |r.value[k].sequence| == |records[0].sequence| - GapCount(records[0].sequence) &&
        forall j :: 0 <= j < |cols| ==> r.value[k].sequence[j] == records[k].sequence[cols[j]]
    ensures r.Success? && records != [] ==>
      forall j :: 0 <= j < |r.value[0].sequence| ==> !IsGap(r.value[0].sequence[j])
  {
    if records == [] then Success(records)
    else
      NonGapPositionsSpec(records[0].sequence);
      var cols := NonGapPositions(records[0].sequence);
      if forall k :: 0 <= k < |records| ==> Covers(records[k].sequence, cols) then
        Success(seq(|records|, k requires 0 <= k < |records| =>
          Record(records[k].header, Project(records[k].sequence, cols))))
      else Failure(IndexOutOfRange)
  }

  /** The loop of remove_query_gaps: the retained columns come from the query,
      then each record in turn is projected and appended; the first record too
      short for a retained column ends the call with IndexError. */
  method RemoveQueryGaps(records: seq<Record>) returns (r: Result<seq<Record>, CleanError>)
    ensures r == WithoutQueryGaps(records)
  {
    if records == [] {
      return Success(records);
    }
    var cols := NonGapPositions(records[0].sequence);
    var cleaned: seq<Record> := [];
    var k := 0;
    while k < |records|
      invariant 0 <= k <= |records|
      invariant forall k' :: 0 <= k' < k ==> Covers(records[k'].sequence, cols)
      invariant |cleaned| == k
      invariant forall k' :: 0 <= k' < k ==>
        cleaned[k'] == Record(records[k'].header, Project(records[k'].sequence, cols))
    {
      var header, sequence := records[k].header, records[k].sequence;
      if !Covers(sequence, cols) {
        return Failure(IndexOutOfRange);
      }
      cleaned := cleaned + [Record(header, Project(sequence, cols))];
      k := k + 1;
    }
    assert WithoutQueryGaps(records).Success?;
    assert cleaned == WithoutQueryGaps(records).value;
    return Success(cleaned);
  }

  /** A strictly ascending list of n positions below n lists every position in order. */
  lemma {:induction false} AscendingIsIdentity(cols: seq<nat>, n: nat)
    requires |cols| == n
    requires forall j :: 0 <= j < n ==> cols[j] < n
    requires forall j, j' :: 0 <= j < j' < n ==> cols[j] < cols[j']
    ensures forall j :: 0 <= j < n ==> cols[j] == j
    decreases n
  {
    if n > 0 {
      var init := cols[..n - 1];
      forall j | 0 <= j < n - 1 ensures init[j] < n - 1 {
        assert cols[j] < cols[n - 1] < n;
      }
      AscendingIsIdentity(init, n - 1);
      assert cols[n - 1] == n - 1 by {
        if n > 1 { assert cols[n - 2] == n - 2 && cols[n - 2] < cols[n - 1]; }
      }
    }
  }

  /** A query without gaps keeps every column. */
  lemma GapFreeColumns(query: string)
    requires GapCount(query) == 0
    ensures forall j :: 0 <= j < |query| ==> NonGapPositions(query)[j] == j
  {
    var cols := NonGapPositions(query);
    NonGapPositionsSpec(query);
    AscendingIsIdentity(cols, |query|);
  }

  /** When the query holds no gap and every record is as long as the query,
      removing query gaps changes nothing. */
  lemma GapFreeQueryUnchanged(records: seq<Record>)
    requires records != [] && GapCount(records[0].sequence) == 0
    requires forall k :: 0 <= k < |records| ==> |records[k].sequence| == |records[0].sequence|
    ensures WithoutQueryGaps(records) == Success(records)
  {
    var cols := NonGapPositions(records[0].sequence);
    GapFreeColumns(records[0].sequence);
    forall k | 0 <= k < |records| ensures Covers(records[k].sequence, cols) {
    }
    var out := WithoutQueryGaps(records).value;
    forall k | 0 <= k < |records| ensures out[k] == records[k] {
      assert out[k].sequence == records[k].sequence;
    }
    assert out == records;
  }

  /** Removing query gaps a second time changes nothing. */
  lemma Idempotent(records: seq<Record>)
    requires WithoutQueryGaps(records).Success?
    ensures WithoutQueryGaps(WithoutQueryGaps(records).value) == WithoutQueryGaps(records)
  {
    var out := WithoutQueryGaps(records).value;
    if records != [] {
      assert GapCount(out[0].sequence) == 0;
      GapFreeQueryUnchanged(out);
    }
  }
}
