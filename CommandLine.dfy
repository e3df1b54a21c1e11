/** A reference reader for the argument vectors the server builds. It is a
    simplified reader, not yt-dlp's option parser: it knows only the server's
    own options. An option that takes a value consumes the next argument, any
    other argument starting with `-` is a switch, and the rest are the URLs to
    fetch. When an option is given twice, the later value is the one that
    counts. What the server's argument lists ask for is stated against this
    reader. yt-dlp itself also reads attached values (`-fworst` is `-f worst`,
    `--output=x` is `-o x`), accepts abbreviations and stops on an unknown
    option, none of which this reader does. */
module CommandLine {

  /** What a command line asks for. */
  datatype Reading = Reading(values: map<string, string>, switches: set<string>, urls: seq<string>)

  /** The options among the server's arguments that take a value. */
  predicate TakesValue(a: string) {
    a == "-o" || a == "-f" || a == "--audio-format" || a == "--merge-output-format" || a == "--postprocessor-args"
  }

  /** An argument the reader takes for an option rather than for a URL. */
  predicate IsOption(a: string) {
    |a| >= 2 && a[0] == '-'
  }

  /** The reading of the arguments from position `k` on. */
  function ReadFrom(args: seq<string>, k: nat): Reading
    requires k <= |args|
    decreases |args| - k
  {
    if k == |args| then Reading(map[], {}, [])
    else if TakesValue(args[k]) && k + 1 < |args| then
      var rest := ReadFrom(args, k + 2);
      if args[k] in rest.values then rest else rest.(values := rest.values[args[k] := args[k + 1]])
    else if IsOption(args[k]) then
      var rest := ReadFrom(args, k + 1);
      rest.(switches := rest.switches + {args[k]})
    else
      var rest := ReadFrom(args, k + 1);
      rest.(urls := [args[k]] + rest.urls)
  }

  /** The reading of a whole command line. */
  function Read(args: seq<string>): Reading {
    ReadFrom(args, 0)
  }

  /** A switch adds itself to what follows it. */
  lemma ReadSwitchAt(args: seq<string>, k: nat)
    requires k < |args| && !TakesValue(args[k]) && IsOption(args[k])
    ensures ReadFrom(args, k) == Reading(ReadFrom(args, k + 1).values, ReadFrom(args, k + 1).switches + {args[k]}, ReadFrom(args, k + 1).urls)
  {
  }

  /** An option with its value sets that value unless a later one does. */
  lemma ReadValueAt(args: seq<string>, k: nat)
    requires k + 1 < |args| && TakesValue(args[k])
    ensures var rest := ReadFrom(args, k + 2);
      ReadFrom(args, k) == if args[k] in rest.values then rest else Reading(rest.values[args[k] := args[k + 1]], rest.switches, rest.urls)
  {
  }
}
