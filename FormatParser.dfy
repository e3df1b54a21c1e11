/** The format-table parser of the `/get-formats` handler: the text yt-dlp
    prints for `-F <url>` is split into lines, and every line matching
    `^(\d+)\s+(\w+)\s+([^\s]+)\s+([^\s]+)\s+([^\s]+)\s+([^\s]+)\s+([^\s]+)\s*(.+)?`
    becomes a Record. The pattern is written as a sequence of runs (LinePattern)
    matched greedily; `(.+)?` is the codec, read from what is left. */
module FormatParser {
  import opened Wrappers
  import opened Text
  import opened Runs
  import opened Errors

  /** One row of the format table. */
  datatype Record = Record(
    formatId: string,
    extension: string,
    resolution: string,
    fps: string,
    channels: string,
    filesize: string,
    tbr: string,
    codec: string,
    fullInfo: string)

  /** The pattern up to `\s*(.+)?`: id, extension and five columns, each but
      the last followed by white space. */
  const LinePattern: seq<Run> := [
    Run(IsDigit, true), Run(IsSpace, true),      // (\d+)\s+
    Run(IsWordChar, true), Run(IsSpace, true),   // (\w+)\s+
    Run(IsNonSpace, true), Run(IsSpace, true),   // resolution
    Run(IsNonSpace, true), Run(IsSpace, true),   // fps
    Run(IsNonSpace, true), Run(IsSpace, true),   // channels
    Run(IsNonSpace, true), Run(IsSpace, true),   // filesize
    Run(IsNonSpace, true)]                       // tbr

  lemma LinePatternSeparated()
    ensures Separated(LinePattern)
  {
    forall i | 1 <= i < |LinePattern| ensures Disjoint(LinePattern[i - 1], LinePattern[i]) {
      if i % 2 == 1 {
        assert LinePattern[i].chars == IsSpace;
        forall c | IsSpace(c) ensures !LinePattern[i - 1].chars(c) {
          assert !IsDigit(c) && !IsWordChar(c);
        }
      } else {
        assert LinePattern[i - 1].chars == IsSpace;
        forall c | LinePattern[i].chars(c) ensures !IsSpace(c) {
          assert IsWordChar(c) ==> !IsSpace(c);
        }
      }
    }
  }

  /** The codec column: `(.+)?` after the white space, which stops at the first
      line terminator and is empty when nothing follows. */
  function Codec(rest: string): string {
    Span(rest, IsAnyButTerminator).0
  }

  /** One iteration of the parsing loop: the record `line` yields, if any. */
  function MatchLine(line: string): (r: Option<Record>)
    ensures r.Some? ==> r.value.fullInfo == line
  {
    match MatchRuns(line, LinePattern)
    case None => None
    case Some(p) => Some(Record(p[0], p[2], p[4], p[6], p[8], p[10], p[12], Codec(TrimStart(p[13])), line))
  }

  /** White space stripped from the front. */
  function TrimStart(s: string): string {
    Span(s, IsSpace).1
  }

  /** A line yields a record exactly when it starts with digits, white space,
      word characters and five more white-space-separated columns. */
  lemma MatchLineIff(line: string)
    ensures MatchLine(line).Some? <==> exists pieces :: Fits(pieces, LinePattern) && Concat(pieces) == line
  {
    if exists pieces :: Fits(pieces, LinePattern) && Concat(pieces) == line {
      var pieces :| Fits(pieces, LinePattern) && Concat(pieces) == line;
      LinePatternSeparated();
      MatchRunsFinds(line, LinePattern, pieces);
    }
  }

  /** When the last column is followed by white space or by nothing, the
      greedy match splits the line into exactly the given pieces. */
  lemma LineMatchIs(line: string, pieces: seq<string>)
    requires Fits(pieces, LinePattern) && Concat(pieces) == line
    requires pieces[13] == [] || IsSpace(pieces[13][0])
    ensures MatchRuns(line, LinePattern) == Some(pieces)
  {
    LinePatternSeparated();
    MatchRunsFinds(line, LinePattern, pieces);
    assert pieces[12..] == [pieces[12], pieces[13]];
    assert Concat(pieces[12..]) == pieces[12] + pieces[13] by {
      assert Concat([pieces[13]]) == pieces[13] + Concat([]);
    }
    assert All(pieces[12], IsNonSpace);
    SpanUnique(pieces[12], pieces[13], IsNonSpace);
    var r := MatchRuns(line, LinePattern).value;
    assert r[12..] == [pieces[12], pieces[13]];
    assert r[12] == r[12..][0] && r[13] == r[12..][1];
    assert |r| == |pieces|;
    assert forall i :: 0 <= i < 12 ==> r[i] == pieces[i];
    assert r == pieces;
  }

  /** When the seven columns are followed by white space or by nothing, the
      record holds them; its codec is what follows without the leading white
      space, up to a line terminator; full_info is the line. */
  lemma MatchLineFields(line: string, pieces: seq<string>)
    requires Fits(pieces, LinePattern) && Concat(pieces) == line
    requires pieces[13] == [] || IsSpace(pieces[13][0])
    ensures MatchLine(line) == Some(Record(pieces[0], pieces[2], pieces[4], pieces[6], pieces[8],
      pieces[10], pieces[12], Codec(TrimStart(pieces[13])), line))
  {
    LineMatchIs(line, pieces);
  }

  /** What a loop pushing `m(line)` for every line that `m` matches leaves
      in its array, in order. */
  function CollectBy<A, B>(lines: seq<A>, m: A -> Option<B>): (r: seq<B>)
    ensures |r| <= |lines|
  {
    if lines == [] then []
    else
      var init := CollectBy(lines[..|lines| - 1], m);
      match m(lines[|lines| - 1])
      case None => init
      case Some(x) => init + [x]
  }

  /** When every match names the line it came from, each collected element
      names a line of the input that yields it. */
  lemma {:induction false} CollectByFrom<A, B>(lines: seq<A>, m: A -> Option<B>, source: B -> A)
    requires forall a :: m(a).Some? ==> source(m(a).value) == a
    ensures forall k :: 0 <= k < |CollectBy(lines, m)| ==>
      source(CollectBy(lines, m)[k]) in lines && m(source(CollectBy(lines, m)[k])) == Some(CollectBy(lines, m)[k])
  {
    if lines != [] {
      var init := lines[..|lines| - 1];
      CollectByFrom(init, m, source);
      assert forall a :: a in init ==> a in lines;
    }
  }

  /** Lines are matched independently of each other and in order. */
  lemma {:induction false} CollectByAppend<A, B>(a: seq<A>, b: seq<A>, m: A -> Option<B>)
    ensures CollectBy(a + b, m) == CollectBy(a, m) + CollectBy(b, m)
  {
    if b != [] {
      var init := b[..|b| - 1];
      assert (a + b)[..|a + b| - 1] == a + init;
      CollectByAppend(a, init, m);
    } else {
      assert a + b == a;
    }
  }

  /** Nothing is collected exactly when no line matches. */
  lemma {:induction false} CollectByEmpty<A, B>(lines: seq<A>, m: A -> Option<B>)
    ensures CollectBy(lines, m) == [] <==> forall i :: 0 <= i < |lines| ==> m(lines[i]).None?
  {
    if lines != [] {
      var init := lines[..|lines| - 1];
      CollectByEmpty(init, m);
      assert forall i :: 0 <= i < |init| ==> init[i] == lines[i];
    }
  }

  /** The records of `lines`, in order: the array the parsing loop pushes onto.
      Each is what its own line yields. */
  function Collect(lines: seq<string>): (r: seq<Record>)
    ensures |r| <= |lines|
    ensures forall k :: 0 <= k < |r| ==> r[k].fullInfo in lines && MatchLine(r[k].fullInfo) == Some(r[k])
  {
    CollectByFrom(lines, MatchLine, (x: Record) => x.fullInfo);
    CollectBy(lines, MatchLine)
  }

  /** What the `close` handler computes from yt-dlp's standard output once the
      exit code is 0: the records, or the failure "Nenhum formato encontrado". */
  function ParseOutput(output: string): (r: Result<seq<Record>, ServerError>)
    ensures r.Failure? ==> r.error == NoFormatsFound
    ensures r.Success? ==> r.value != [] && |r.value| <= |Split(output, '\n')|
    ensures r.Success? ==> forall k :: 0 <= k < |r.value| ==>
      r.value[k].fullInfo in Split(output, '\n') && MatchLine(r.value[k].fullInfo) == Some(r.value[k])
  {
    var records := Collect(Split(output, '\n'));
    if records == [] then Failure(NoFormatsFound) else Success(records)
  }

  /** The parsing loop over the lines of `output`, pushing each match. */
  method ParseFormats(output: string) returns (r: Result<seq<Record>, ServerError>)
    ensures r == ParseOutput(output)
  {
    var lines := Split(output, '\n');
    var formats: seq<Record> := [];
    for i := 0 to |lines|
      invariant formats == Collect(lines[..i])
    {
      assert lines[..i + 1][..i] == lines[..i];
      var m := MatchLine(lines[i]);
      if m.Some? {
        formats := formats + [m.value];
      }
    }
    assert lines[..|lines|] == lines;
    if |formats| == 0 {
      return Failure(NoFormatsFound);
    }
    return Success(formats);
  }

  /** True when no line of `lines` matches the format-table pattern. */
  predicate NoLineMatches(lines: seq<string>) {
    forall i :: 0 <= i < |lines| ==> MatchLine(lines[i]).None?
  }

  /** The parse fails, with "Nenhum formato encontrado", exactly when no line
      of the output has the shape. */
  lemma ParseFailsIff(output: string)
    ensures ParseOutput(output).Failure? <==> NoLineMatches(Split(output, '\n'))
    ensures ParseOutput(output).Failure? ==> ParseOutput(output).error == NoFormatsFound
  {
    CollectByEmpty(Split(output, '\n'), MatchLine);
  }
}
