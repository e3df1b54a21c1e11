/** Characters and strings: the character classes of the JavaScript regular
    expressions in server.js, a scanner for maximal runs of a class, substring
    search (`includes`, `match` on a literal) and `split('\n')`. */
module Text {

  /** `\d`: an ASCII decimal digit. */
  predicate IsDigit(c: char) {
    '0' <= c <= '9'
  }

  /** `\w`: an ASCII letter, digit or underscore. */
  predicate IsWordChar(c: char) {
    'a' <= c <= 'z' || 'A' <= c <= 'Z' || IsDigit(c) || c == '_'
  }

  /** `\s`: JavaScript white space and line terminators. */
  predicate IsSpace(c: char) {
    || c == '\t' || c == '\n' || c == '\U{000B}' || c == '\U{000C}' || c == '\r' || c == ' '
    || c == '\U{00A0}' || c == '\U{1680}' || '\U{2000}' <= c <= '\U{200A}'
    || c == '\U{2028}' || c == '\U{2029}' || c == '\U{202F}' || c == '\U{205F}'
    || c == '\U{3000}' || c == '\U{FEFF}'
  }

  /** `[^\s]` */
  predicate IsNonSpace(c: char) {
    !IsSpace(c)
  }

  /** The characters `.` does not match. */
  predicate IsLineTerminator(c: char) {
    c == '\n' || c == '\r' || c == '\U{2028}' || c == '\U{2029}'
  }

  /** `.` */
  predicate IsAnyButTerminator(c: char) {
    !IsLineTerminator(c)
  }

  ghost predicate All(s: string, p: char -> bool) {
    forall i :: 0 <= i < |s| ==> p(s[i])
  }

  /** Splits `s` into its longest prefix of characters of class `p` and the
      rest: what a greedy `p*` consumes. */
  function Span(s: string, p: char -> bool): (r: (string, string))
    ensures r.0 + r.1 == s
    ensures All(r.0, p)
    ensures r.1 == [] || !p(r.1[0])
  {
    if s == [] || !p(s[0]) then ([], s)
    else
      var (run, rest) := Span(s[1..], p);
      ([s[0]] + run, rest)
  }

  /** A run of class `p` followed by something that does not continue it is
      exactly what Span splits off. */
  lemma {:induction false} SpanUnique(run: string, rest: string, p: char -> bool)
    requires All(run, p)
    requires rest == [] || !p(rest[0])
    ensures Span(run + rest, p) == (run, rest)
  {
    if run != [] {
      assert (run + rest)[0] == run[0] && p(run[0]);
      assert (run + rest)[1..] == run[1..] + rest;
      assert All(run[1..], p) by {
        forall i | 0 <= i < |run| - 1 ensures p(run[1..][i]) {
          assert run[1..][i] == run[i + 1];
        }
      }
      SpanUnique(run[1..], rest, p);
      assert [run[0]] + run[1..] == run;
    } else {
      assert run + rest == rest;
    }
  }

  /** `t` occurs in `s` at position `i`. */
  ghost predicate OccursAt(s: string, t: string, i: int) {
    0 <= i <= |s| - |t| && s[i..i + |t|] == t
  }

  /** `s.includes(t)`, and `s.match(/t/)` for a literal pattern `t`. */
  function Includes(s: string, t: string): (b: bool)
    ensures b <==> exists i :: OccursAt(s, t, i)
    decreases |s|
  {
    if |s| < |t| then false
    else if s[..|t|] == t then assert OccursAt(s, t, 0); true
    else
      var b := Includes(s[1..], t);
      assert b ==> exists i :: OccursAt(s, t, i) by {
        if b {
          var i :| OccursAt(s[1..], t, i);
          assert s[1..][i..i + |t|] == s[i + 1..i + 1 + |t|];
          assert OccursAt(s, t, i + 1);
        }
      }
      assert (exists i :: OccursAt(s, t, i)) ==> b by {
        if exists i :: OccursAt(s, t, i) {
          var i :| OccursAt(s, t, i);
          assert i != 0;
          assert s[1..][i - 1..i - 1 + |t|] == s[i..i + |t|];
          assert OccursAt(s[1..], t, i - 1);
        }
      }
      b
  }

  /** `s.split(sep)` for a one-character separator: the pieces between the
      separators, including empty ones at either end. */
  function Split(s: string, sep: char): (parts: seq<string>)
    ensures |parts| >= 1
    ensures forall k :: 0 <= k < |parts| ==> sep !in parts[k]
    decreases |s|
  {
    var (head, tail) := Span(s, c => c != sep);
    assert forall i :: 0 <= i < |head| ==> head[i] != sep;
    if tail == [] then [head] else [head] + Split(tail[1..], sep)
  }

  /** `parts.join(sep)` */
  function Join(parts: seq<string>, sep: char): string {
    if |parts| <= 1 then (if parts == [] then [] else parts[0])
    else parts[0] + [sep] + Join(parts[1..], sep)
  }

  /** Joining the pieces again gives back the original text. */
  lemma {:induction false} JoinSplit(s: string, sep: char)
    ensures Join(Split(s, sep), sep) == s
    decreases |s|
  {
    var (head, tail) := Span(s, c => c != sep);
    if tail != [] {
      JoinSplit(tail[1..], sep);
      assert tail == [sep] + tail[1..];
    }
  }

  /** Splitting a join of separator-free pieces gives the pieces back. */
  lemma {:induction false} SplitJoin(parts: seq<string>, sep: char)
    requires |parts| >= 1
    requires forall k :: 0 <= k < |parts| ==> sep !in parts[k]
    ensures Split(Join(parts, sep), sep) == parts
  {
    var stop := (c: char) => c != sep;
    assert All(parts[0], stop);
    if |parts| == 1 {
      SpanUnique(parts[0], [], stop);
      assert parts[0] + [] == parts[0];
    } else {
      var rest := [sep] + Join(parts[1..], sep);
      SpanUnique(parts[0], rest, stop);
      assert parts[0] + [sep] + Join(parts[1..], sep) == parts[0] + rest;
      assert rest[1..] == Join(parts[1..], sep);
      SplitJoin(parts[1..], sep);
    }
  }
}
