/** Values shared by the A2M reader, the query-gap filter and the writer:
    alignment records, the two gap symbols, line terminators and string joining. */
module A2mFormat {

  datatype Option<T> = None | Some(value: T)

  datatype Result<T, E> = Success(value: T) | Failure(error: E)

  /** One alignment entry: the header line exactly as read (leading '>' included)
      and the residue string gathered from the lines that follow it. */
  datatype Record = Record(header: string, sequence: string)

  /** Both '.' (insert gap) and '-' (match gap) count as gaps in A2M. */
  predicate IsGap(c: char) {
    c == '.' || c == '-'
  }

  /** The number of gap symbols in `s`, counted left to right. */
  function GapCount(s: string): (n: nat)
    ensures n <= |s|
    ensures n == 0 <==> forall i :: 0 <= i < |s| ==> !IsGap(s[i])
  {
    if s == [] then 0
    else GapCount(s[..|s| - 1]) + (if IsGap(s[|s| - 1]) then 1 else 0)
  }

  predicate IsLineBreak(c: char) {
    c == '\n' || c == '\r'
  }

  predicate NoLineBreaks(s: string) {
    forall i :: 0 <= i < |s| ==> !IsLineBreak(s[i])
  }

  /** Removes every trailing '\n' and '\r', as `line.rstrip('\n\r')` does. */
  function Strip(line: string): (r: string)
    ensures |r| <= |line|
  {
    if line != [] && IsLineBreak(line[|line| - 1]) then Strip(line[..|line| - 1]) else line
  }

  /** Stripping keeps a prefix of the line, removes only terminators, and removes
      all of the trailing ones. */
  lemma {:induction false} StripSpec(line: string)
    ensures Strip(line) <= line
    ensures Strip(line) == [] || !IsLineBreak(Strip(line)[|Strip(line)| - 1])
    ensures forall i :: |Strip(line)| <= i < |line| ==> IsLineBreak(line[i])
    decreases |line|
  {
    if line != [] && IsLineBreak(line[|line| - 1]) {
      StripSpec(line[..|line| - 1]);
    }
  }

  /** A header line is one whose stripped text starts with '>'. */
  predicate IsHeaderLine(line: string) {
    var s := Strip(line);
    |s| > 0 && s[0] == '>'
  }

  /** `''.join(parts)`: the parts glued together with nothing between them. */
  function Concat(parts: seq<string>): string {
    if parts == [] then "" else Concat(parts[..|parts| - 1]) + parts[|parts| - 1]
  }

  /** Each line with its trailing terminators removed. */
  function StripAll(lines: seq<string>): (r: seq<string>)
    ensures |r| == |lines|
  {
    seq(|lines|, i requires 0 <= i < |lines| => Strip(lines[i]))
  }

  lemma {:induction false} ConcatAppend(a: seq<string>, b: seq<string>)
    ensures Concat(a + b) == Concat(a) + Concat(b)
    decreases |b|
  {
    if b == [] {
      assert a + b == a;
    } else {
      var b' := b[..|b| - 1];
      assert (a + b)[..|a + b| - 1] == a + b';
      ConcatAppend(a, b');
    }
  }

  lemma ConcatSingle(p: string)
    ensures Concat([p]) == p
  {
    assert [p][..0] == [];
  }

  /** A line written with a single "\n" after text free of terminators reads back as that text. */
  lemma StripTerminated(text: string)
    requires NoLineBreaks(text)
    ensures Strip(text + "\n") == text
  {
    assert (text + "\n")[..|text|] == text;
  }
}
