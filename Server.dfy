/** The two request handlers of server.js around the format table: the URL
    check and the composition of `/get-formats`, and the validation and
    argument list of `/download`. The yt-dlp run is a parameter: its exit code
    and its two output streams, or the error the spawn reported. */
module Server {
  import opened Wrappers
  import opened Text
  import opened JsNumbers
  import opened Errors
  import opened CommandLine
  import opened FormatParser
  import opened FormatSelector

  /** A field of the request body: None when absent, else its text. */
  predicate Truthy(field: Option<string>) {
    field.Some? && field.value != ""
  }

  /** `url.match(/youtube\.com|youtu\.be/)`: the pattern is an unanchored
      alternation of two literals, so it succeeds when either occurs. */
  predicate IsYoutubeUrl(url: string) {
    Includes(url, "youtube.com") || Includes(url, "youtu.be")
  }

  /** The two checks at the top of `/get-formats`. */
  function CheckUrl(url: Option<string>): (r: Result<string, ServerError>)
    ensures r.Success? ==> url == Some(r.value) && r.value != []
    ensures r.Failure? ==> r.error == UrlRequired || r.error == InvalidYoutubeUrl
  {
    if !Truthy(url) then Failure(UrlRequired)
    else if !IsYoutubeUrl(url.value) then Failure(InvalidYoutubeUrl)
    else Success(url.value)
  }

  /** A URL is accepted exactly when it is present, not empty, and has
      `youtube.com` or `youtu.be` somewhere in it; it is passed on unchanged. */
  lemma CheckUrlIff(url: Option<string>)
    ensures CheckUrl(url).Success? <==>
      url.Some? && url.value != [] &&
      exists i :: OccursAt(url.value, "youtube.com", i) || OccursAt(url.value, "youtu.be", i)
    ensures CheckUrl(url).Success? ==> CheckUrl(url).value == url.value
    ensures url.None? || url == Some("") <==> CheckUrl(url) == Failure(UrlRequired)
  {
    if url.Some? && url.value != [] {
      var u := url.value;
      if exists i :: OccursAt(u, "youtube.com", i) || OccursAt(u, "youtu.be", i) {
        var i :| OccursAt(u, "youtube.com", i) || OccursAt(u, "youtu.be", i);
        assert Includes(u, "youtube.com") || Includes(u, "youtu.be");
      }
    }
  }

  /** A text that does not hold the first character of `t` does not hold `t`. */
  lemma MissingFirst(s: string, t: string)
    requires t != [] && t[0] !in s
    ensures !Includes(s, t)
  {
  }

  /** The check looks for the text anywhere in the URL. */
  lemma CheckUrlAccepts()
    ensures CheckUrl(Some("https://youtu.be/abc")) == Success("https://youtu.be/abc")
    ensures CheckUrl(Some("https://example.org/?youtube.com")).Success?
  {
    assert OccursAt("https://youtu.be/abc", "youtu.be", 8);
    assert OccursAt("https://example.org/?youtube.com", "youtube.com", 21);
  }

  /** Other hosts are refused. */
  lemma CheckUrlRejectsOtherHost()
    ensures CheckUrl(Some("https://vimeo.com/1")) == Failure(InvalidYoutubeUrl)
    ensures CheckUrl(Some("")) == Failure(UrlRequired)
  {
    var u := "https://vimeo.com/1";
    assert forall i :: 0 <= i < |u| ==> u[i] != 'y';
    MissingFirst(u, "youtube.com");
    MissingFirst(u, "youtu.be");
  }

  /** The host written in capitals is refused: the pattern has no `i` flag. */
  lemma CheckUrlIsCaseSensitive()
    ensures CheckUrl(Some("YOUTUBE.COM/x")) == Failure(InvalidYoutubeUrl)
  {
    var u := "YOUTUBE.COM/x";
    assert forall i :: 0 <= i < |u| ==> u[i] != 'y';
    MissingFirst(u, "youtube.com");
    MissingFirst(u, "youtu.be");
  }

  /** The arguments `/get-formats` spawns yt-dlp with. */
  function FormatsCommand(url: string): seq<string> {
    ["-F", url, "--no-warnings"]
  }

  /** By the reference reader, yt-dlp is asked to list the formats of the URL
      and nothing else, unless the URL begins with `-`. */
  lemma FormatsCommandReading(url: string)
    requires !TakesValue(url)
    ensures Read(FormatsCommand(url)) == Reading(map[], {"-F", "--no-warnings"} + UrlReading(url).switches, UrlReading(url).urls)
  {
    var a := FormatsCommand(url);
    assert ReadFrom(a, 2) == Reading(map[], {"--no-warnings"}, []);
    assert ReadFrom(a, 1) == Reading(map[], {"--no-warnings"} + UrlReading(url).switches, UrlReading(url).urls);
  }

  /** The URL check of `/get-formats` only looks for the host text, so an
      option-like URL passes it, and on the command line it is taken for an
      option: no URL is left to fetch. */
  lemma CheckUrlAdmitsOption()
    ensures CheckUrl(Some("-fyoutube.com")).Success?
    ensures Read(FormatsCommand("-fyoutube.com")).urls == []
  {
    assert OccursAt("-fyoutube.com", "youtube.com", 2);
    FormatsCommandReading("-fyoutube.com");
  }

  /** How a yt-dlp run ended. */
  datatype ToolRun =
    | Exited(code: Option<int>, stdout: string, stderr: string)  // `close`; None is a kill by a signal
    | SpawnFailed(message: string)                                // `error`

  /** `${code}` */
  function CodeText(code: Option<int>): string {
    match code
    case None => "null"
    case Some(n) => IntString(n)
  }

  /** The message a run that closed with a code other than 0 is rejected with:
      what yt-dlp wrote to its error stream, or else a line naming the code. */
  function ExitFailure(stderr: string, code: Option<int>): (m: string)
    ensures stderr != [] ==> m == stderr
    ensures stderr == [] ==> |m| > |CodeText(code)| && m[|m| - |CodeText(code)|..] == CodeText(code)
  {
    if stderr != "" then stderr else "yt-dlp exited with code " + CodeText(code)
  }

  /** The `/get-formats` handler: the formats answered, or the `details` of the
      status-500 answer. */
  method GetFormats(url: Option<string>, run: ToolRun) returns (r: Result<seq<Selected>, string>)
    ensures CheckUrl(url).Failure? ==> r == Failure(CheckUrl(url).error.Message())
    ensures CheckUrl(url).Success? && run.SpawnFailed? ==> r == Failure(run.message)
    ensures CheckUrl(url).Success? && run.Exited? && run.code != Some(0) ==>
      r == Failure(ExitFailure(run.stderr, run.code))
    ensures CheckUrl(url).Success? && run.Exited? && run.code == Some(0) && ParseOutput(run.stdout).Failure? ==>
      r == Failure(NoFormatsFound.Message())
    ensures r.Success? <==>
      CheckUrl(url).Success? && run.Exited? && run.code == Some(0) && ParseOutput(run.stdout).Success?
    ensures r.Success? ==> r.value == SelectFormats(ParseOutput(run.stdout).value)
  {
    var checked := CheckUrl(url);
    if checked.Failure? {
      return Failure(checked.error.Message());
    }
    match run
    case SpawnFailed(message) =>
      return Failure(message);
    case Exited(code, stdout, stderr) =>
      if code != Some(0) {
        return Failure(ExitFailure(stderr, code));
      }
      var parsed := ParseFormats(stdout);
      if parsed.Failure? {
        return Failure(parsed.error.Message());
      }
      var processed := ProcessFormats(parsed.value);
      return Success(processed);
  }

  const OutputTemplate := "downloads/%(title)s.%(ext)s"
  const AacRecoding := "ffmpeg:-c:a aac -b:a 192k"

  /** The arguments every download starts with. */
  const BaseArgs: seq<string> := ["-o", OutputTemplate, "--no-warnings", "--embed-thumbnail", "--embed-metadata"]

  /** The arguments pushed for `tipo === 'audio_only'`. */
  const AudioArgs: seq<string> := ["-x", "-f", "bestaudio", "--audio-format", "aac", "--postprocessor-args", AacRecoding]

  /** The arguments pushed for any other `tipo`. */
  function VideoArgs(formatId: string): seq<string> {
    ["-f", formatId + "+bestaudio", "--merge-output-format", "mp4", "--audio-format", "aac",
     "--force-keyframes-at-cuts", "--postprocessor-args", AacRecoding]
  }

  /** The checks of `/download` and the `args` array it spawns yt-dlp with. */
  function DownloadArgs(url: Option<string>, formatId: Option<string>, tipo: Option<string>): (r: Result<seq<string>, ServerError>)
    ensures r.Success? ==> url.Some? && r.value != [] && r.value[|r.value| - 1] == url.value
    ensures r.Failure? ==> r.error == UrlRequired || r.error == FormatRequired
  {
    if !Truthy(url) then Failure(UrlRequired)
    else if !Truthy(formatId) && tipo != Some("audio_only") then Failure(FormatRequired)
    else if tipo == Some("audio_only") then Success(BaseArgs + AudioArgs + [url.value])
    else Success(BaseArgs + VideoArgs(formatId.value) + [url.value])
  }

  /** The start of `/download`, pushing onto `args` as the handler does. */
  method PrepareDownload(url: Option<string>, formatId: Option<string>, tipo: Option<string>)
    returns (r: Result<seq<string>, ServerError>)
    ensures r == DownloadArgs(url, formatId, tipo)
  {
    if !Truthy(url) {
      return Failure(UrlRequired);
    }
    if !Truthy(formatId) && tipo != Some("audio_only") {
      return Failure(FormatRequired);
    }
    var args := BaseArgs;
    if tipo == Some("audio_only") {
      args := args + AudioArgs;
    } else {
      args := args + VideoArgs(formatId.value);
    }
    args := args + [url.value];
    return Success(args);
  }

  /** A download is refused exactly without a URL, or without a format for
      anything but an audio-only download; the missing URL is reported first. */
  lemma DownloadFailsIff(url: Option<string>, formatId: Option<string>, tipo: Option<string>)
    ensures DownloadArgs(url, formatId, tipo).Failure? <==>
      url.None? || url.value == [] || ((formatId.None? || formatId.value == []) && tipo != Some("audio_only"))
    ensures DownloadArgs(url, formatId, tipo) == Failure(UrlRequired) <==> url.None? || url.value == []
    ensures DownloadArgs(url, formatId, tipo).Success? ==>
      |DownloadArgs(url, formatId, tipo).value| > 0 && DownloadArgs(url, formatId, tipo).value[|DownloadArgs(url, formatId, tipo).value| - 1] == url.value
  {
  }

  /** Every argument list starts with the output template and the three
      embedding and quiet switches and ends with the URL; before the URL,
      `-x` appears exactly for an audio-only download and
      `--force-keyframes-at-cuts` exactly for any other. */
  lemma DownloadArgsFrame(url: Option<string>, formatId: Option<string>, tipo: Option<string>)
    requires DownloadArgs(url, formatId, tipo).Success?
    ensures var a := DownloadArgs(url, formatId, tipo).value;
      && |a| > 5 && a[..5] == BaseArgs && a[|a| - 1] == url.value
      && ("-x" in a[..|a| - 1] <==> tipo == Some("audio_only"))
      && ("--force-keyframes-at-cuts" in a[..|a| - 1] <==> tipo != Some("audio_only"))
  {
    var a := DownloadArgs(url, formatId, tipo).value;
    if tipo == Some("audio_only") {
      assert a[..|a| - 1] == BaseArgs + AudioArgs;
      assert a[..|a| - 1][5] == "-x";
    } else {
      var f := formatId.value + "+bestaudio";
      assert a[..|a| - 1] == BaseArgs + VideoArgs(formatId.value);
      assert a[..|a| - 1][11] == "--force-keyframes-at-cuts";
      assert |f| > 2;
    }
  }

  /** How the reference reader takes the URL, last on the command line: as the
      one thing to fetch. Nothing separates the URL from the options, so a URL
      that begins with `-` is taken for an option and no URL is left. (yt-dlp
      itself would parse such a URL as one of its own options, with any value
      attached to it.) */
  function UrlReading(url: string): Reading {
    if IsOption(url) then Reading(map[], {url}, []) else Reading(map[], {}, [url])
  }

  /** The base arguments at the front of `args`, read before the `rest` that
      follows them. */
  lemma ReadBase(args: seq<string>, rest: Reading)
    requires |args| >= 5 && args[0] == "-o" && args[1] == OutputTemplate && args[2] == "--no-warnings"
    requires args[3] == "--embed-thumbnail" && args[4] == "--embed-metadata"
    requires ReadFrom(args, 5) == rest && "-o" !in rest.values
    ensures Read(args) == Reading(rest.values["-o" := OutputTemplate],
      rest.switches + {"--embed-metadata"} + {"--embed-thumbnail"} + {"--no-warnings"}, rest.urls)
  {
    ReadSwitchAt(args, 4);
    ReadSwitchAt(args, 3);
    ReadSwitchAt(args, 2);
    ReadValueAt(args, 0);
  }

  /** The URL as the last argument. */
  lemma ReadUrlLast(args: seq<string>, url: string)
    requires |args| > 0 && args[|args| - 1] == url
    ensures ReadFrom(args, |args| - 1) == UrlReading(url)
  {
  }

  /** The audio arguments after the base ones, and the URL. */
  lemma ReadAudioTail(url: string)
    ensures ReadFrom(BaseArgs + AudioArgs + [url], 5) == Reading(
      map["--postprocessor-args" := AacRecoding, "--audio-format" := "aac", "-f" := "bestaudio"],
      UrlReading(url).switches + {"-x"},
      UrlReading(url).urls)
  {
    var a := BaseArgs + AudioArgs + [url];
    var last := UrlReading(url);
    ReadUrlLast(a, url);
    assert a[10] == "--postprocessor-args" && a[8] == "--audio-format" && a[6] == "-f" && a[5] == "-x";
    assert ReadFrom(a, 10) == last.(values := map["--postprocessor-args" := AacRecoding]);
    assert ReadFrom(a, 8) == last.(values := map["--postprocessor-args" := AacRecoding, "--audio-format" := "aac"]);
    assert ReadFrom(a, 6) == last.(values := map["--postprocessor-args" := AacRecoding, "--audio-format" := "aac", "-f" := "bestaudio"]);
  }

  /** An audio-only download asks for the best audio stream, extracted and
      recoded to AAC at 192k, saved under downloads/ by title; the format id,
      if any, plays no part. */
  lemma AudioDownloadReading(url: string, formatId: Option<string>)
    requires url != []
    ensures DownloadArgs(Some(url), formatId, Some("audio_only")).Success?
    ensures Read(DownloadArgs(Some(url), formatId, Some("audio_only")).value) == Reading(
      map["--postprocessor-args" := AacRecoding, "--audio-format" := "aac", "-f" := "bestaudio", "-o" := OutputTemplate],
      UrlReading(url).switches + {"-x", "--embed-metadata", "--embed-thumbnail", "--no-warnings"},
      UrlReading(url).urls)
  {
    var a := BaseArgs + AudioArgs + [url];
    ReadAudioTail(url);
    assert a[0] == "-o" && a[1] == OutputTemplate && a[2] == "--no-warnings" && a[3] == "--embed-thumbnail" && a[4] == "--embed-metadata";
    ReadBase(a, ReadFrom(a, 5));
  }

  /** The video arguments after the base ones, and the URL. */
  lemma ReadVideoTail(url: string, formatId: string)
    ensures ReadFrom(BaseArgs + VideoArgs(formatId) + [url], 5) == Reading(
      map["--postprocessor-args" := AacRecoding, "--audio-format" := "aac", "--merge-output-format" := "mp4",
          "-f" := formatId + "+bestaudio"],
      UrlReading(url).switches + {"--force-keyframes-at-cuts"},
      UrlReading(url).urls)
  {
    var a := BaseArgs + VideoArgs(formatId) + [url];
    var last := UrlReading(url);
    var f := formatId + "+bestaudio";
    ReadUrlLast(a, url);
    assert a[12] == "--postprocessor-args" && a[11] == "--force-keyframes-at-cuts" && a[9] == "--audio-format";
    assert a[7] == "--merge-output-format" && a[5] == "-f" && a[6] == f;
    assert ReadFrom(a, 12) == last.(values := map["--postprocessor-args" := AacRecoding]);
    assert ReadFrom(a, 11) == Reading(map["--postprocessor-args" := AacRecoding], last.switches + {"--force-keyframes-at-cuts"}, last.urls);
    assert ReadFrom(a, 9) == Reading(map["--postprocessor-args" := AacRecoding, "--audio-format" := "aac"],
      last.switches + {"--force-keyframes-at-cuts"}, last.urls);
    assert ReadFrom(a, 7) == Reading(map["--postprocessor-args" := AacRecoding, "--audio-format" := "aac", "--merge-output-format" := "mp4"],
      last.switches + {"--force-keyframes-at-cuts"}, last.urls);
  }

  /** A video download asks for the chosen format merged with the best audio
      into MP4, audio recoded to AAC at 192k, keyframes forced at cuts, saved
      under downloads/ by title. */
  lemma VideoDownloadReading(url: string, formatId: string, tipo: Option<string>)
    requires url != [] && formatId != [] && tipo != Some("audio_only")
    ensures DownloadArgs(Some(url), Some(formatId), tipo).Success?
    ensures Read(DownloadArgs(Some(url), Some(formatId), tipo).value) == Reading(
      map["--postprocessor-args" := AacRecoding, "--audio-format" := "aac", "--merge-output-format" := "mp4",
          "-f" := formatId + "+bestaudio", "-o" := OutputTemplate],
      UrlReading(url).switches + {"--force-keyframes-at-cuts", "--embed-metadata", "--embed-thumbnail", "--no-warnings"},
      UrlReading(url).urls)
  {
    var a := BaseArgs + VideoArgs(formatId) + [url];
    ReadVideoTail(url, formatId);
    assert a[0] == "-o" && a[1] == OutputTemplate && a[2] == "--no-warnings" && a[3] == "--embed-thumbnail" && a[4] == "--embed-metadata";
    ReadBase(a, ReadFrom(a, 5));
  }
}
