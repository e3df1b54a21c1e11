/** The regular expressions of server.js are sequences of runs over a
    character class: `[c]+` or `[c]*`. A pattern of runs is matched here greedily, each
    run taking the longest stretch of its chars (MatchRuns); when no run can
    take a character that the next run needs, greedy matching finds every
    match a backtracking engine would, with the same captures
    (MatchRunsFinds). */
module Runs {
  import opened Wrappers
  import opened Text

  /** One element of a pattern: `[chars]+` when nonEmpty, `[chars]*` otherwise. */
  datatype Run = Run(chars: char -> bool, nonEmpty: bool)

  function Concat(pieces: seq<string>): string {
    if pieces == [] then [] else pieces[0] + Concat(pieces[1..])
  }

  /** `pieces` spells the runs `p` followed by arbitrary text (the last piece):
      what the pattern, unanchored at its end, accepts. */
  ghost predicate Fits(pieces: seq<string>, p: seq<Run>) {
    && |pieces| == |p| + 1
    && forall i :: 0 <= i < |p| ==> All(pieces[i], p[i].chars) && (p[i].nonEmpty ==> pieces[i] != [])
  }

  /** Each run is as long as it can be: the text after it does not continue it. */
  ghost predicate Greedy(pieces: seq<string>, p: seq<Run>)
    requires |pieces| == |p| + 1
  {
    forall i :: 0 <= i < |p| ==> Concat(pieces[i + 1..]) == [] || !p[i].chars(Concat(pieces[i + 1..])[0])
  }

  /** Every run but the first is nonempty, and no character belongs to two
      consecutive runs. */
  ghost predicate Separated(p: seq<Run>) {
    forall i :: 1 <= i < |p| ==> p[i].nonEmpty && Disjoint(p[i - 1], p[i])
  }

  ghost predicate Disjoint(a: Run, b: Run) {
    forall c :: b.chars(c) ==> !a.chars(c)
  }

  lemma SeparatedTail(p: seq<Run>)
    requires p != [] && Separated(p)
    ensures Separated(p[1..])
  {
    forall i | 1 <= i < |p| - 1 ensures p[1..][i].nonEmpty && Disjoint(p[1..][i - 1], p[1..][i]) {
      assert p[1..][i] == p[i + 1] && p[1..][i - 1] == p[i];
    }
  }

  lemma FitsTail(pieces: seq<string>, p: seq<Run>)
    requires p != [] && Fits(pieces, p)
    ensures Fits(pieces[1..], p[1..])
  {
    forall i | 0 <= i < |p| - 1
      ensures All(pieces[1..][i], p[1..][i].chars) && (p[1..][i].nonEmpty ==> pieces[1..][i] != [])
    {
      assert pieces[1..][i] == pieces[i + 1] && p[1..][i] == p[i + 1];
    }
  }

  /** Matches the runs `p` greedily at the start of `s`: the pieces, and the
      text left over as the last element; None when a `+` run finds nothing. */
  function MatchRuns(s: string, p: seq<Run>): (r: Option<seq<string>>)
    ensures r.Some? ==> Fits(r.value, p) && Concat(r.value) == s
    decreases |p|
  {
    if p == [] then Some([s])
    else
      var (run, rest) := Span(s, p[0].chars);
      if p[0].nonEmpty && run == [] then None
      else match MatchRuns(rest, p[1..])
        case None => None
        case Some(pieces) =>
          var r := [run] + pieces;
          assert r[1..] == pieces;
          assert forall i :: 1 <= i <= |p| ==> r[i] == pieces[i - 1];
          assert forall i :: 1 <= i < |p| ==> p[i] == p[1..][i - 1];
          Some(r)
  }

  /** The greedy match leaves no run shorter than it could be. */
  lemma {:induction false} MatchRunsGreedy(s: string, p: seq<Run>)
    requires MatchRuns(s, p).Some?
    ensures Greedy(MatchRuns(s, p).value, p)
    decreases |p|
  {
    if p != [] {
      var (run, rest) := Span(s, p[0].chars);
      MatchRunsGreedy(rest, p[1..]);
      var pieces := MatchRuns(rest, p[1..]).value;
      var r := MatchRuns(s, p).value;
      assert r == [run] + pieces;
      forall i | 0 <= i < |p|
        ensures Concat(r[i + 1..]) == [] || !p[i].chars(Concat(r[i + 1..])[0])
      {
        if i == 0 {
          assert r[1..] == pieces;
        } else {
          assert r[i + 1..] == pieces[i..] && p[i] == p[1..][i - 1];
        }
      }
    }
  }

  /** Whatever decomposition of `s` a backtracking matcher might find, the greedy
      one exists and captures the same runs; only the last run, which nothing
      constrains, may be longer, taking all of the following characters it accepts. */
  lemma {:induction false} MatchRunsFinds(s: string, p: seq<Run>, pieces: seq<string>)
    requires p != [] && Separated(p) && Fits(pieces, p) && Concat(pieces) == s
    ensures MatchRuns(s, p).Some?
    ensures forall i :: 0 <= i < |p| - 1 ==> MatchRuns(s, p).value[i] == pieces[i]
    ensures var tail := Concat(pieces[|p| - 1..]);
      MatchRuns(s, p).value[|p| - 1..] == [Span(tail, p[|p| - 1].chars).0, Span(tail, p[|p| - 1].chars).1]
    decreases |p|
  {
    var chars := p[0].chars;
    var after := Concat(pieces[1..]);
    assert All(pieces[0], chars);
    if |p| == 1 {
      assert pieces[1..] == [pieces[1]];
      assert Concat([pieces[1]]) == pieces[1] + Concat([]);
      assert pieces[0..] == pieces;
      if p[0].nonEmpty {
        assert s[0] == pieces[0][0];
      }
    } else {
      assert p[1].nonEmpty && Disjoint(p[0], p[1]);
      assert pieces[1] != [] && p[1].chars(pieces[1][0]) && after[0] == pieces[1][0];
      SpanUnique(pieces[0], after, chars);
      var p', pieces' := p[1..], pieces[1..];
      SeparatedTail(p);
      FitsTail(pieces, p);
      MatchRunsFinds(after, p', pieces');
      assert pieces'[|p'| - 1..] == pieces[|p| - 1..];
    }
  }
}
