/** `processFormats`: from the parsed format table, one video format per
    resolution (the one of median size among those whose size can be read)
    and then one audio format (the one of median bitrate). SelectFormats is
    the specification; ProcessFormats follows the source step by step, with
    the grouping object and in-place sorts, and is proved to compute it. */
module FormatSelector {
  import opened Wrappers
  import opened Text
  import opened JsNumbers
  import opened Seqs
  import opened StableSort
  import opened FormatParser
  import opened SizeNormalizer

  /** An entry of the answer: a record and, for video entries, the
      `sizeInBytes` the spread copy carries; the audio entry is the record
      itself and has none. */
  datatype Selected = Selected(format: Record, sizeInBytes: Option<real>)

  /** `f.channels.includes('audio')` */
  predicate IsAudio(f: Record) {
    Includes(f.channels, "audio")
  }

  /** The filter of video formats: a resolution and no audio channels. */
  predicate IsVideo(f: Record) {
    f.resolution != [] && !IsAudio(f)
  }

  /** `resolutionMap[res]` once every format has been pushed: the formats of
      resolution `res`, in order. */
  function Group(formats: seq<Record>, res: string): seq<Record> {
    if formats == [] then []
    else
      var init := Group(formats[..|formats| - 1], res);
      if formats[|formats| - 1].resolution == res then init + [formats[|formats| - 1]] else init
  }

  function OfResolution(res: string): Record -> bool {
    (f: Record) => f.resolution == res
  }

  /** A group is the filter of the table by its resolution, so its formats
      keep their order in the table. */
  lemma {:induction false} GroupIsFilter(formats: seq<Record>, res: string)
    ensures Group(formats, res) == Filter(formats, OfResolution(res))
  {
    if formats != [] {
      GroupIsFilter(formats[..|formats| - 1], res);
    }
  }

  // ----- Object.keys of the grouping object -----

  /** A property key that is an array index: the canonical decimal numeral of
      an integer below 2^32 - 1. */
  predicate IsArrayIndex(k: string) {
    && k != []
    && (forall i :: 0 <= i < |k| ==> IsDigit(k[i]))
    && (k[0] != '0' || |k| == 1)
    && DigitsValue(k, 10) < 4294967295
  }

  predicate IsNamedKey(k: string) {
    !IsArrayIndex(k)
  }

  function IndexValue(k: string): real {
    DigitsValue(k, 10) as real
  }

  /** An array-index key is the decimal numeral of its value. */
  lemma {:induction false} ArrayIndexNumeral(k: string)
    requires k != [] && (forall i :: 0 <= i < |k| ==> IsDigit(k[i])) && (k[0] != '0' || |k| == 1)
    ensures DecimalString(DigitsValue(k, 10)) == k
  {
    var init, c := k[..|k| - 1], k[|k| - 1];
    var d := DigitValue(c);
    assert IsDigit(c) && d < 10 && c == ('0' as int + d) as char;
    if |k| == 1 {
      assert init == [] && DigitsValue(k, 10) == d;
    } else {
      assert init[0] == k[0] && k[0] != '0';
      ArrayIndexNumeral(init);
      var v := DigitsValue(init, 10);
      assert v != 0 by {
        assert DecimalString(v) == init;
        assert DecimalString(0) == "0";
      }
      var n := v * 10 + d;
      assert DigitsValue(k, 10) == n && n >= 10 && n / 10 == v && n % 10 == d;
    }
  }

  /** Two array-index keys with the same value are the same key. */
  lemma ArrayIndexInjective(a: string, b: string)
    requires IsArrayIndex(a) && IsArrayIndex(b)
    ensures IndexValue(a) == IndexValue(b) ==> a == b
  {
    ArrayIndexNumeral(a);
    ArrayIndexNumeral(b);
  }

  /** `Object.keys` of an object whose keys were added in the order `order`:
      array indices first, ascending, then the other keys in insertion order. */
  function ObjectKeys(order: seq<string>): (keys: seq<string>)
    ensures |keys| == |order|
  {
    FilterPartition(order, IsArrayIndex, IsNamedKey);
    assert |multiset(order)| == |Filter(order, IsArrayIndex)| + |Filter(order, IsNamedKey)|;
    SortBy(Filter(order, IsArrayIndex), IndexValue) + Filter(order, IsNamedKey)
  }

  // ----- the specification -----

  /** The resolutions of `formats` in the order in which they first occur:
      the order in which the grouping loop adds keys. */
  function FirstOrder(formats: seq<Record>): (r: seq<string>)
    ensures Distinct(r)
    ensures forall i :: 0 <= i < |formats| ==> formats[i].resolution in r
  {
    if formats == [] then []
    else
      var init := formats[..|formats| - 1];
      var last := formats[|formats| - 1];
      var r := FirstOrder(init);
      assert forall i :: 0 <= i < |init| ==> formats[i] == init[i];
      if last.resolution in r then r else r + [last.resolution]
  }

  /** The index of the first format of resolution `res`, or the length of
      the table when no format has it. */
  function FirstIndex(formats: seq<Record>, res: string): (k: nat)
    ensures k <= |formats|
    ensures k < |formats| ==> formats[k].resolution == res
  {
    if formats == [] then 0
    else
      var init := formats[..|formats| - 1];
      var k := FirstIndex(init, res);
      assert forall j :: 0 <= j < |init| ==> formats[j] == init[j];
      if k < |init| then k
      else if formats[|formats| - 1].resolution == res then |init|
      else |formats|
  }

  /** `formatsForRes.map(...).filter(f => !isNaN(f.sizeInBytes))`: the formats
      whose size can be read, each with its size in bytes. */
  function WithSizes(group: seq<Record>): (r: seq<Selected>)
    ensures forall x :: x in r ==> x.format in group && x.sizeInBytes.Some? && x.sizeInBytes == ConvertToBytes(x.format.filesize)
    ensures forall f :: f in group && ConvertToBytes(f.filesize).Some? ==> Selected(f, ConvertToBytes(f.filesize)) in r
  {
    if group == [] then []
    else
      var init := group[..|group| - 1];
      var f := group[|group| - 1];
      var r := WithSizes(init);
      assert forall g :: g in group ==> g in init || g == f;
      assert forall g :: g in init ==> g in group;
      if ConvertToBytes(f.filesize).Some? then r + [Selected(f, ConvertToBytes(f.filesize))] else r
  }

  /** A format whose filesize convertToBytes can read. */
  predicate HasSize(f: Record) {
    ConvertToBytes(f.filesize).Some?
  }

  /** WithSizes keeps the formats with a readable size once each and in
      their order, each with its size: the order the sort's ties keep. */
  lemma {:induction false} WithSizesInOrder(group: seq<Record>)
    ensures var sized := Filter(group, HasSize);
      && |WithSizes(group)| == |sized|
      && forall k :: 0 <= k < |sized| ==> WithSizes(group)[k] == Selected(sized[k], ConvertToBytes(sized[k].filesize))
  {
    if group != [] {
      var init := group[..|group| - 1];
      WithSizesInOrder(init);
    }
  }

  /** The sort key `a.sizeInBytes - b.sizeInBytes` compares by. */
  function SizeKey(x: Selected): real {
    if x.sizeInBytes.Some? then x.sizeInBytes.value else 0.0
  }

  /** The sort key of the audio comparator: `parseInt(tbr) || 0`. */
  function RateKey(f: Record): real {
    ParseIntOrZero(f.tbr) as real
  }

  /** `s[Math.floor(s.length / 2)]` */
  function Middle<T>(s: seq<T>): T
    requires s != []
  {
    s[|s| / 2]
  }

  /** What the callback of `forEach` pushes for the resolution `res`: the
      median-size format of the group, or nothing when no size is readable. */
  function PickFor(videos: seq<Record>, res: string): seq<Selected> {
    var sized := WithSizes(Group(videos, res));
    if sized == [] then [] else [Middle(SortBy(sized, SizeKey))]
  }

  function PickerFor(videos: seq<Record>): string -> seq<Selected> {
    res => PickFor(videos, res)
  }

  /** The video part of the answer, key by key. */
  function VideoPicks(videos: seq<Record>, keys: seq<string>): seq<Selected> {
    FlatMap(keys, PickerFor(videos))
  }

  /** The resolution an entry stands for. */
  function Resolution(x: Selected): string {
    x.format.resolution
  }

  /** The audio part of the answer: the median-bitrate audio format, if any. */
  function AudioPick(formats: seq<Record>): seq<Selected> {
    var audios := Filter(formats, IsAudio);
    if audios == [] then [] else [Selected(Middle(SortBy(audios, RateKey)), None)]
  }

  /** `processFormats(formats)`: every entry is a format of the table. */
  function SelectFormats(formats: seq<Record>): (r: seq<Selected>)
    ensures forall x :: x in r ==> x.format in formats
  {
    var videos := Filter(formats, IsVideo);
    var picks := VideoPicks(videos, ObjectKeys(FirstOrder(videos)));
    VideoPicksFrom(videos, ObjectKeys(FirstOrder(videos)));
    AudioPickEntry(formats);
    picks + AudioPick(formats)
  }

  // ----- the implementation -----

  /** processFormats as written: group the video formats in an object, then
      for each key sort the readable sizes and push the middle one, then sort
      the audio formats and push the middle one. */
  method ProcessFormats(formats: seq<Record>) returns (result: seq<Selected>)
    ensures result == SelectFormats(formats)
  {
    var videoFormats := Filter(formats, IsVideo);
    var resolutionMap, order := GroupByResolution(videoFormats);
    var keys := ObjectKeys(order);
    ObjectKeysPermutes(order);
    forall k | k in keys ensures k in resolutionMap {
      assert k in multiset(order);
    }
    result := PickVideos(videoFormats, resolutionMap, keys);
    var audio := PickAudio(formats);
    result := result + audio;
  }

  /** `groups` and its key order are what grouping `seen` by resolution gives. */
  ghost predicate Grouped(groups: map<string, seq<Record>>, order: seq<string>, seen: seq<Record>) {
    && order == FirstOrder(seen)
    && (forall res :: res in groups <==> res in order)
    && (forall res :: res in groups ==> groups[res] == Group(seen, res))
  }

  /** The `forEach` that fills `resolutionMap`: each format is pushed onto the
      array of its resolution, created on first sight. `order` is the order in
      which the object gains its keys. */
  method GroupByResolution(videoFormats: seq<Record>) returns (resolutionMap: map<string, seq<Record>>, order: seq<string>)
    ensures order == FirstOrder(videoFormats)
    ensures forall res :: res in resolutionMap <==> res in order
    ensures forall res :: res in resolutionMap ==> resolutionMap[res] == Group(videoFormats, res)
  {
    resolutionMap := map[];
    order := [];
    for i := 0 to |videoFormats|
      invariant Grouped(resolutionMap, order, videoFormats[..i])
    {
      var format := videoFormats[i];
      var res := format.resolution;
      ghost var seen := videoFormats[..i];
      ghost var before, orderBefore := resolutionMap, order;
      if res !in resolutionMap {
        resolutionMap := resolutionMap[res := []];
        order := order + [res];
      }
      GroupedStep(before, orderBefore, seen, format, resolutionMap, order);
      resolutionMap := resolutionMap[res := resolutionMap[res] + [format]];
      assert videoFormats[..i + 1] == seen + [format];
    }
    assert videoFormats[..|videoFormats|] == videoFormats;
  }

  /** One iteration of the grouping loop keeps the groups right. */
  lemma GroupedStep(groups: map<string, seq<Record>>, order: seq<string>, seen: seq<Record>, format: Record,
                    groups': map<string, seq<Record>>, order': seq<string>)
    requires Grouped(groups, order, seen)
    requires format.resolution in groups ==> groups' == groups && order' == order
    requires format.resolution !in groups ==> groups' == groups[format.resolution := []] && order' == order + [format.resolution]
    ensures format.resolution in groups'
    ensures Grouped(groups'[format.resolution := groups'[format.resolution] + [format]], order', seen + [format])
  {
    var res := format.resolution;
    var seen' := seen + [format];
    var grouped := groups'[res := groups'[res] + [format]];
    KeysStep(seen, format);
    assert order' == FirstOrder(seen');
    assert forall r :: r in grouped <==> r in order';
    forall r | r in grouped ensures grouped[r] == Group(seen', r) {
      GroupStep(seen, format, r);
      if r == res {
        if res !in groups {
          GroupNew(seen, res);
        }
        assert groups'[res] == Group(seen, res);
      } else {
        assert grouped[r] == groups[r];
      }
    }
  }

  /** One more format adds its resolution to the keys unless already there. */
  lemma KeysStep(seen: seq<Record>, format: Record)
    ensures FirstOrder(seen + [format]) ==
      if format.resolution in FirstOrder(seen) then FirstOrder(seen) else FirstOrder(seen) + [format.resolution]
  {
    assert (seen + [format])[..|seen|] == seen;
  }

  /** A resolution not yet among the keys has an empty group. */
  lemma {:induction false} GroupNew(seen: seq<Record>, res: string)
    requires res !in FirstOrder(seen)
    ensures Group(seen, res) == []
  {
    if seen != [] {
      var init := seen[..|seen| - 1];
      assert forall i :: 0 <= i < |init| ==> init[i] == seen[i];
      GroupNew(init, res);
    }
  }

  /** One more format is appended to its own group and to no other. */
  lemma GroupStep(seen: seq<Record>, format: Record, res: string)
    ensures Group(seen + [format], res) == Group(seen, res) + (if format.resolution == res then [format] else [])
  {
    assert (seen + [format])[..|seen|] == seen;
  }

  /** The `forEach` over `Object.keys(resolutionMap)`: the sized formats of
      each key are sorted by size and the middle one is pushed. */
  method PickVideos(videoFormats: seq<Record>, resolutionMap: map<string, seq<Record>>, keys: seq<string>)
    returns (result: seq<Selected>)
    requires forall k :: k in keys ==> k in resolutionMap
    requires forall k :: k in resolutionMap ==> resolutionMap[k] == Group(videoFormats, k)
    ensures result == VideoPicks(videoFormats, keys)
  {
    result := [];
    for j := 0 to |keys|
      invariant result == VideoPicks(videoFormats, keys[..j])
    {
      var formatsWithSize := WithSizes(resolutionMap[keys[j]]);
      assert keys[..j + 1][..j] == keys[..j];
      if |formatsWithSize| > 0 {
        var sorted := new Selected[|formatsWithSize|](k requires 0 <= k < |formatsWithSize| => formatsWithSize[k]);
        assert sorted[..] == formatsWithSize;
        SortInPlace(sorted, SizeKey);
        result := result + [sorted[sorted.Length / 2]];
      }
    }
    assert keys[..|keys|] == keys;
  }

  /** The audio formats sorted by bitrate, and the middle one pushed. */
  method PickAudio(formats: seq<Record>) returns (result: seq<Selected>)
    ensures result == AudioPick(formats)
  {
    result := [];
    var audioFormats := Filter(formats, IsAudio);
    if |audioFormats| > 0 {
      var sorted := new Record[|audioFormats|](k requires 0 <= k < |audioFormats| => audioFormats[k]);
      assert sorted[..] == audioFormats;
      SortInPlace(sorted, RateKey);
      result := [Selected(sorted[sorted.Length / 2], None)];
    }
  }

  // ----- properties -----

  /** Object.keys lists every key once: it permutes the insertion order. */
  lemma ObjectKeysPermutes(order: seq<string>)
    ensures multiset(ObjectKeys(order)) == multiset(order)
    ensures Distinct(order) ==> Distinct(ObjectKeys(order))
  {
    var indices := Filter(order, IsArrayIndex);
    FilterPartition(order, IsArrayIndex, IsNamedKey);
    SortByPermutes(indices, IndexValue);
    if Distinct(order) {
      DistinctPermutation(order, ObjectKeys(order));
    }
  }

  /** Sorting the elements that pass `p` and appending those that do not
      puts every passing element first, in key order. */
  lemma SortedPartFirst<T>(s: seq<T>, p: T -> bool, q: T -> bool, key: T -> real)
    requires forall x :: q(x) == !p(x)
    ensures var all := SortBy(Filter(s, p), key) + Filter(s, q);
      forall i, j :: 0 <= i < j < |all| && p(all[j]) ==> p(all[i]) && key(all[i]) <= key(all[j])
  {
    var passing := Filter(s, p);
    var others := Filter(s, q);
    var sorted := SortBy(passing, key);
    var all := sorted + others;
    SortByPermutes(passing, key);
    SortBySorted(passing, key);
    forall i, j | 0 <= i < j < |all| && p(all[j]) ensures p(all[i]) && key(all[i]) <= key(all[j]) {
      assert j < |sorted|;
      assert all[i] == sorted[i] && all[j] == sorted[j];
      assert sorted[i] in multiset(passing);
    }
  }

  /** ... and keeps the order of the elements that do not pass. */
  lemma OthersKeepOrder<T>(s: seq<T>, p: T -> bool, q: T -> bool, key: T -> real)
    requires forall x :: q(x) == !p(x)
    ensures Filter(SortBy(Filter(s, p), key) + Filter(s, q), q) == Filter(s, q)
  {
    var passing := Filter(s, p);
    var others := Filter(s, q);
    var sorted := SortBy(passing, key);
    SortByPermutes(passing, key);
    forall i | 0 <= i < |sorted| ensures !q(sorted[i]) {
      assert sorted[i] in multiset(passing);
    }
    forall i | 0 <= i < |others| ensures q(others[i]) {
      assert others[i] in others;
    }
    FilterConcat(sorted, others, q);
    FilterAllOrNone(sorted, q);
    FilterAllOrNone(others, q);
  }

  /** Object.keys lists the array-index keys first, in ascending order, and
      then the other keys in the order they were added. */
  lemma ObjectKeysOrder(order: seq<string>)
    ensures var keys := ObjectKeys(order);
      forall i, j :: 0 <= i < j < |keys| && IsArrayIndex(keys[j]) ==>
        IsArrayIndex(keys[i]) && IndexValue(keys[i]) <= IndexValue(keys[j])
    ensures Filter(ObjectKeys(order), IsNamedKey) == Filter(order, IsNamedKey)
  {
    SortedPartFirst(order, IsArrayIndex, IsNamedKey, IndexValue);
    OthersKeepOrder(order, IsArrayIndex, IsNamedKey, IndexValue);
  }

  /** When no key is an array index (resolutions such as `1920x1080`),
      Object.keys lists the keys in the order they were added. */
  lemma ObjectKeysNamed(order: seq<string>)
    requires forall i :: 0 <= i < |order| ==> IsNamedKey(order[i])
    ensures ObjectKeys(order) == order
  {
    FilterAllOrNone(order, IsArrayIndex);
    FilterAllOrNone(order, IsNamedKey);
    assert SortBy(Filter(order, IsArrayIndex), IndexValue) == [];
  }

  /** The groups hold exactly the formats of their resolution. */
  lemma {:induction false} GroupMembers(formats: seq<Record>, res: string)
    ensures forall f :: f in Group(formats, res) ==> f in formats && f.resolution == res
    ensures forall f :: f in formats && f.resolution == res ==> f in Group(formats, res)
  {
    if formats != [] {
      var init := formats[..|formats| - 1];
      GroupMembers(init, res);
      assert formats == init + [formats[|formats| - 1]];
    }
  }

  /** Every key was the resolution of some format. */
  lemma {:induction false} FirstOrderMembers(formats: seq<Record>, res: string)
    requires res in FirstOrder(formats)
    ensures exists i :: 0 <= i < |formats| && formats[i].resolution == res
  {
    var init := formats[..|formats| - 1];
    if res in FirstOrder(init) {
      FirstOrderMembers(init, res);
      var i :| 0 <= i < |init| && init[i].resolution == res;
      assert formats[i] == init[i];
    } else {
      assert formats[|formats| - 1].resolution == res;
    }
  }

  /** No format before FirstIndex has the resolution. */
  lemma {:induction false} FirstIndexIsFirst(formats: seq<Record>, res: string)
    ensures forall j :: 0 <= j < FirstIndex(formats, res) ==> formats[j].resolution != res
  {
    if formats != [] {
      var init := formats[..|formats| - 1];
      FirstIndexIsFirst(init, res);
      assert forall j :: 0 <= j < |init| ==> formats[j] == init[j];
    }
  }

  /** The keys of the grouping object are added in the order in which their
      resolutions first occur: every key occurs, and an earlier key first
      occurs earlier. */
  lemma {:induction false} FirstOrderFirstAppearance(formats: seq<Record>)
    ensures var keys := FirstOrder(formats);
      forall i :: 0 <= i < |keys| ==> FirstIndex(formats, keys[i]) < |formats|
    ensures var keys := FirstOrder(formats);
      forall i, j :: 0 <= i < j < |keys| ==> FirstIndex(formats, keys[i]) < FirstIndex(formats, keys[j])
  {
    if formats != [] {
      var init, last := formats[..|formats| - 1], formats[|formats| - 1];
      FirstOrderFirstAppearance(init);
      var before := FirstOrder(init);
      forall i | 0 <= i < |before| ensures FirstIndex(formats, before[i]) == FirstIndex(init, before[i]) {
        assert var keys := FirstOrder(init); 0 <= i < |keys| ==> FirstIndex(init, keys[i]) < |init|;
        assert FirstIndex(init, before[i]) < |init|;
      }
      if last.resolution !in before {
        assert FirstIndex(formats, last.resolution) == |init|;
        var keys := FirstOrder(formats);
        assert keys == before + [last.resolution];
        forall i, j | 0 <= i < j < |keys| ensures FirstIndex(formats, keys[i]) < FirstIndex(formats, keys[j]) {
          if j < |before| {
            assert keys[i] == before[i] && keys[j] == before[j];
          } else {
            assert keys[i] == before[i] && keys[j] == last.resolution;
          }
        }
      }
    }
  }

  /** A resolution contributes one entry exactly when one of its formats has a
      readable size; the entry is such a format, of that resolution, carrying
      its size. */
  lemma PickForShape(videos: seq<Record>, res: string)
    ensures |PickFor(videos, res)| <= 1
    ensures PickFor(videos, res) != [] <==>
      exists f :: f in videos && f.resolution == res && ConvertToBytes(f.filesize).Some?
    ensures forall x :: x in PickFor(videos, res) ==>
      && x in WithSizes(Group(videos, res))
      && x.format in videos && x.format.resolution == res
      && x.sizeInBytes.Some? && x.sizeInBytes == ConvertToBytes(x.format.filesize)
  {
    var sized := WithSizes(Group(videos, res));
    GroupMembers(videos, res);
    if sized != [] {
      MiddleIsMember(sized, SizeKey);
    }
    if exists f :: f in videos && f.resolution == res && ConvertToBytes(f.filesize).Some? {
      var f :| f in videos && f.resolution == res && ConvertToBytes(f.filesize).Some?;
      assert Selected(f, ConvertToBytes(f.filesize)) in sized;
    }
  }

  /** The middle of the sort is an element of the input. */
  lemma MiddleIsMember<T>(s: seq<T>, key: T -> real)
    requires s != []
    ensures Middle(SortBy(s, key)) in s
  {
    SortByPermutes(s, key);
    assert Middle(SortBy(s, key)) in multiset(SortBy(s, key));
  }

  /** The video part: every entry is the pick of one of the keys, every key
      whose group has a readable size has its entry, and with distinct keys
      no resolution has two entries. */
  lemma VideoPicksShape(videos: seq<Record>, keys: seq<string>)
    ensures var picks := VideoPicks(videos, keys);
      forall i :: 0 <= i < |picks| ==> Resolution(picks[i]) in keys && PickFor(videos, Resolution(picks[i])) == [picks[i]]
    ensures forall res :: res in keys && PickFor(videos, res) != [] ==>
      exists i :: 0 <= i < |VideoPicks(videos, keys)| && Resolution(VideoPicks(videos, keys)[i]) == res
    ensures var picks := VideoPicks(videos, keys);
      Distinct(keys) ==> forall i, j :: 0 <= i < j < |picks| ==> Resolution(picks[i]) != Resolution(picks[j])
  {
    var f := PickerFor(videos);
    forall res ensures |f(res)| <= 1 && forall x :: x in f(res) ==> Resolution(x) == res {
      PickForShape(videos, res);
    }
    FlatMapFrom(keys, f, Resolution);
    var picks := VideoPicks(videos, keys);
    forall i | 0 <= i < |picks| ensures PickFor(videos, Resolution(picks[i])) == [picks[i]] {
      assert picks[i] in f(Resolution(picks[i]));
    }
    forall res | res in keys && PickFor(videos, res) != []
      ensures exists i :: 0 <= i < |picks| && Resolution(picks[i]) == res
    {
      FlatMapCover(keys, f, res);
    }
    if Distinct(keys) {
      FlatMapDistinct(keys, f, Resolution);
    }
  }

  /** Every video entry carries a size. */
  lemma VideoPicksSized(videos: seq<Record>, keys: seq<string>)
    ensures var picks := VideoPicks(videos, keys);
      forall i :: 0 <= i < |picks| ==> picks[i].sizeInBytes.Some?
  {
    var picks := VideoPicks(videos, keys);
    VideoPicksShape(videos, keys);
    forall i | 0 <= i < |picks| ensures picks[i].sizeInBytes.Some? {
      PickForShape(videos, Resolution(picks[i]));
      assert picks[i] in PickFor(videos, Resolution(picks[i]));
    }
  }

  /** Every video entry is one of the formats grouped. */
  lemma VideoPicksFrom(videos: seq<Record>, keys: seq<string>)
    ensures forall x :: x in VideoPicks(videos, keys) ==> x.format in videos
  {
    var picks := VideoPicks(videos, keys);
    VideoPicksShape(videos, keys);
    forall x | x in picks ensures x.format in videos {
      var i :| 0 <= i < |picks| && picks[i] == x;
      PickForShape(videos, Resolution(x));
      assert x in PickFor(videos, Resolution(x));
    }
  }

  /** Each video entry is a video format of the table, with its size in bytes. */
  lemma VideoPicksEntries(formats: seq<Record>)
    ensures var videos := Filter(formats, IsVideo);
      var picks := VideoPicks(videos, ObjectKeys(FirstOrder(videos)));
      forall i :: 0 <= i < |picks| ==>
        picks[i].sizeInBytes == ConvertToBytes(picks[i].format.filesize) && picks[i].format in formats && IsVideo(picks[i].format)
  {
    var videos := Filter(formats, IsVideo);
    var keys := ObjectKeys(FirstOrder(videos));
    var picks := VideoPicks(videos, keys);
    VideoPicksShape(videos, keys);
    forall i | 0 <= i < |picks|
      ensures picks[i].sizeInBytes == ConvertToBytes(picks[i].format.filesize)
      ensures picks[i].format in formats && IsVideo(picks[i].format)
    {
      PickForShape(videos, Resolution(picks[i]));
      assert picks[i] in PickFor(videos, Resolution(picks[i]));
    }
  }

  /** The audio part: nothing without audio formats, otherwise one entry,
      without a size. */
  lemma AudioPickSize(formats: seq<Record>)
    ensures AudioPick(formats) == [] <==> Filter(formats, IsAudio) == []
    ensures |AudioPick(formats)| <= 1
    ensures forall x :: x in AudioPick(formats) ==> x.sizeInBytes.None?
  {
  }

  /** The audio entry is an audio format of the table. */
  lemma AudioPickEntry(formats: seq<Record>)
    ensures forall x :: x in AudioPick(formats) ==> x.format in formats && IsAudio(x.format)
  {
    var audios := Filter(formats, IsAudio);
    if audios != [] {
      MiddleIsMember(audios, RateKey);
    }
  }

  /** The audio entry is the median by bitrate of the audio formats. */
  lemma AudioPickIsMedian(formats: seq<Record>)
    requires Filter(formats, IsAudio) != []
    ensures StableMedian(Filter(formats, IsAudio), RateKey, AudioPick(formats)[0].format)
  {
    MiddleIsStableMedian(Filter(formats, IsAudio), RateKey);
  }

  /** An entry with a size belongs to the video part. */
  lemma VideoPart(formats: seq<Record>, i: nat)
    requires i < |SelectFormats(formats)| && SelectFormats(formats)[i].sizeInBytes.Some?
    ensures var videos := Filter(formats, IsVideo);
      var picks := VideoPicks(videos, ObjectKeys(FirstOrder(videos)));
      i < |picks| && SelectFormats(formats)[i] == picks[i]
  {
    var videos := Filter(formats, IsVideo);
    var picks := VideoPicks(videos, ObjectKeys(FirstOrder(videos)));
    var audio := AudioPick(formats);
    var r := SelectFormats(formats);
    assert r == picks + audio;
    AudioPickSize(formats);
  }

  /** In the answer of processFormats only the last entry may lack a size,
      and it does exactly when there are audio formats: the video entries
      come first, then at most one audio entry. */
  lemma SelectFormatsSizes(formats: seq<Record>)
    ensures var r := SelectFormats(formats);
      forall i :: 0 <= i < |r| ==> (r[i].sizeInBytes.None? <==> Filter(formats, IsAudio) != [] && i == |r| - 1)
  {
    var videos := Filter(formats, IsVideo);
    var keys := ObjectKeys(FirstOrder(videos));
    var picks := VideoPicks(videos, keys);
    var audio := AudioPick(formats);
    var r := SelectFormats(formats);
    assert r == picks + audio;
    VideoPicksSized(videos, keys);
    AudioPickSize(formats);
    forall i | 0 <= i < |r|
      ensures r[i].sizeInBytes.None? <==> Filter(formats, IsAudio) != [] && i == |r| - 1
    {
      if i < |picks| {
        assert r[i] == picks[i];
      } else {
        assert r[i] == audio[0] && audio[0] in audio;
      }
    }
  }

  /** Every entry with a size is a video format of the table (a resolution,
      no audio channels) carrying convertToBytes of its filesize. */
  lemma SelectFormatsVideoEntries(formats: seq<Record>)
    ensures var r := SelectFormats(formats);
      forall i :: 0 <= i < |r| && r[i].sizeInBytes.Some? ==>
        r[i].format in formats && IsVideo(r[i].format) && r[i].sizeInBytes == ConvertToBytes(r[i].format.filesize)
  {
    var r := SelectFormats(formats);
    VideoPicksEntries(formats);
    forall i | 0 <= i < |r| && r[i].sizeInBytes.Some?
      ensures r[i].format in formats && IsVideo(r[i].format) && r[i].sizeInBytes == ConvertToBytes(r[i].format.filesize)
    {
      VideoPart(formats, i);
    }
  }

  /** With audio formats in the table, the last entry is one of them. */
  lemma SelectFormatsAudioLast(formats: seq<Record>)
    requires Filter(formats, IsAudio) != []
    ensures var r := SelectFormats(formats);
      r != [] && r[|r| - 1].format in formats && IsAudio(r[|r| - 1].format)
  {
    var videos := Filter(formats, IsVideo);
    var audio := AudioPick(formats);
    var r := SelectFormats(formats);
    assert r == VideoPicks(videos, ObjectKeys(FirstOrder(videos))) + audio;
    AudioPickSize(formats);
    AudioPickIsMedian(formats);
    assert r[|r| - 1] == audio[0];
  }

  /** No resolution has two video entries. */
  lemma SelectFormatsOnePerResolution(formats: seq<Record>)
    ensures var r := SelectFormats(formats);
      forall i, j :: 0 <= i < j < |r| && r[j].sizeInBytes.Some? ==> r[i].format.resolution != r[j].format.resolution
  {
    var videos := Filter(formats, IsVideo);
    var keys := ObjectKeys(FirstOrder(videos));
    var r := SelectFormats(formats);
    ObjectKeysPermutes(FirstOrder(videos));
    VideoPicksShape(videos, keys);
    forall i, j | 0 <= i < j < |r| && r[j].sizeInBytes.Some? ensures r[i].format.resolution != r[j].format.resolution {
      VideoPart(formats, j);
      SelectFormatsSizes(formats);
      VideoPart(formats, i);
    }
  }

  /** The resolution of every video format is a key of `resolutionMap`. */
  lemma ResolutionIsKey(videos: seq<Record>, f: Record)
    requires f in videos
    ensures f.resolution in ObjectKeys(FirstOrder(videos))
  {
    var order := FirstOrder(videos);
    ObjectKeysPermutes(order);
    var k :| 0 <= k < |videos| && videos[k] == f;
    assert f.resolution in order;
    assert f.resolution in multiset(ObjectKeys(order));
  }

  /** A resolution has an entry in the video part exactly when some video
      format of that resolution has a readable size. */
  lemma VideoPicksCover(formats: seq<Record>, res: string)
    ensures var videos := Filter(formats, IsVideo);
      var picks := VideoPicks(videos, ObjectKeys(FirstOrder(videos)));
      (exists i :: 0 <= i < |picks| && Resolution(picks[i]) == res) <==>
      (exists f :: f in videos && f.resolution == res && ConvertToBytes(f.filesize).Some?)
  {
    var videos := Filter(formats, IsVideo);
    var keys := ObjectKeys(FirstOrder(videos));
    VideoPicksShape(videos, keys);
    PickForShape(videos, res);
    if exists f :: f in videos && f.resolution == res && ConvertToBytes(f.filesize).Some? {
      var f :| f in videos && f.resolution == res && ConvertToBytes(f.filesize).Some?;
      ResolutionIsKey(videos, f);
    }
  }

  /** Every pick of the video part is an entry of the answer, with a size. */
  lemma PickInAnswer(formats: seq<Record>, i: nat)
    requires var videos := Filter(formats, IsVideo);
      i < |VideoPicks(videos, ObjectKeys(FirstOrder(videos)))|
    ensures var videos := Filter(formats, IsVideo);
      var picks := VideoPicks(videos, ObjectKeys(FirstOrder(videos)));
      i < |SelectFormats(formats)| && SelectFormats(formats)[i] == picks[i] && picks[i].sizeInBytes.Some?
  {
    var videos := Filter(formats, IsVideo);
    var picks := VideoPicks(videos, ObjectKeys(FirstOrder(videos)));
    VideoPicksSized(videos, ObjectKeys(FirstOrder(videos)));
    assert SelectFormats(formats) == picks + AudioPick(formats);
  }

  /** A resolution has a video entry exactly when some video format of that
      resolution has a readable size. */
  lemma SelectFormatsCovers(formats: seq<Record>, res: string)
    ensures var r := SelectFormats(formats);
      (exists i :: 0 <= i < |r| && r[i].sizeInBytes.Some? && r[i].format.resolution == res) <==>
      (exists f :: f in formats && IsVideo(f) && f.resolution == res && ConvertToBytes(f.filesize).Some?)
  {
    var videos := Filter(formats, IsVideo);
    var picks := VideoPicks(videos, ObjectKeys(FirstOrder(videos)));
    var r := SelectFormats(formats);
    VideoPicksCover(formats, res);
    if exists i :: 0 <= i < |r| && r[i].sizeInBytes.Some? && r[i].format.resolution == res {
      var i :| 0 <= i < |r| && r[i].sizeInBytes.Some? && r[i].format.resolution == res;
      VideoPart(formats, i);
    }
    if exists f :: f in formats && IsVideo(f) && f.resolution == res && ConvertToBytes(f.filesize).Some? {
      var f :| f in formats && IsVideo(f) && f.resolution == res && ConvertToBytes(f.filesize).Some?;
      assert f in videos;
      var i :| 0 <= i < |picks| && Resolution(picks[i]) == res;
      PickInAnswer(formats, i);
    }
  }

  /** A video entry is the median by size of the sized formats of its
      resolution (StableMedian: fewer than half of them are smaller, more
      than half are no larger, and among equal sizes table order decides). */
  lemma VideoEntryIsMedian(formats: seq<Record>, i: nat)
    requires i < |SelectFormats(formats)| && SelectFormats(formats)[i].sizeInBytes.Some?
    ensures StableMedian(
      WithSizes(Group(Filter(formats, IsVideo), SelectFormats(formats)[i].format.resolution)),
      SizeKey, SelectFormats(formats)[i])
  {
    var videos := Filter(formats, IsVideo);
    var keys := ObjectKeys(FirstOrder(videos));
    VideoPart(formats, i);
    VideoPicksShape(videos, keys);
    var x := SelectFormats(formats)[i];
    var sized := WithSizes(Group(videos, x.format.resolution));
    assert PickFor(videos, Resolution(x)) == [x];
    MiddleIsStableMedian(sized, SizeKey);
  }

  /** The audio entry is the median by bitrate (`parseInt(tbr) || 0`) of all
      audio formats, ties kept in table order. */
  lemma AudioEntryIsMedian(formats: seq<Record>)
    requires Filter(formats, IsAudio) != []
    ensures |SelectFormats(formats)| > 0
    ensures StableMedian(Filter(formats, IsAudio), RateKey, SelectFormats(formats)[|SelectFormats(formats)| - 1].format)
  {
    var videos := Filter(formats, IsVideo);
    var r := SelectFormats(formats);
    var audio := AudioPick(formats);
    assert r == VideoPicks(videos, ObjectKeys(FirstOrder(videos))) + audio;
    AudioPickSize(formats);
    AudioPickIsMedian(formats);
    assert r[|r| - 1] == audio[0];
  }

  /** Where Object.keys of the grouping object puts the key `k`: the array
      indices first, by value (all below 2^32 - 1, so this rank is negative),
      then the other keys by the position of their first video format. */
  function KeyRank(videos: seq<Record>, k: string): int {
    if IsArrayIndex(k) then DigitsValue(k, 10) - 4294967295 else FirstIndex(videos, k)
  }

  /** The order of Object.keys on two resolutions: an array index comes
      before every other key and after the smaller array indices; two other
      keys come in the order of their first video formats. */
  predicate KeyBefore(videos: seq<Record>, a: string, b: string) {
    && (IsArrayIndex(b) ==> IsArrayIndex(a) && IndexValue(a) < IndexValue(b))
    && (IsNamedKey(a) && IsNamedKey(b) ==> FirstIndex(videos, a) < FirstIndex(videos, b))
  }

  /** Of two keys that are not array indices, the one Object.keys lists
      first has the earlier first video format. */
  lemma NamedKeysRank(videos: seq<Record>, p: nat, q: nat)
    requires p < q < |ObjectKeys(FirstOrder(videos))|
    requires IsNamedKey(ObjectKeys(FirstOrder(videos))[p]) && IsNamedKey(ObjectKeys(FirstOrder(videos))[q])
    ensures FirstIndex(videos, ObjectKeys(FirstOrder(videos))[p]) < FirstIndex(videos, ObjectKeys(FirstOrder(videos))[q])
  {
    var order := FirstOrder(videos);
    var keys := ObjectKeys(order);
    ObjectKeysOrder(order);
    FirstOrderFirstAppearance(videos);
    var first := k => FirstIndex(videos, k);
    FilterIncreasing(order, IsNamedKey, first);
    var named := Filter(order, IsNamedKey);
    FilterKeepsOrder(keys, IsNamedKey, p, q);
    var p', q' :| 0 <= p' < q' < |named| && named[p'] == keys[p] && named[q'] == keys[q];
    assert first(named[p']) < first(named[q']);
  }

  /** An array-index key is listed after the smaller array indices only. */
  lemma IndexKeysRank(videos: seq<Record>, p: nat, q: nat)
    requires p < q < |ObjectKeys(FirstOrder(videos))| && IsArrayIndex(ObjectKeys(FirstOrder(videos))[q])
    ensures IsArrayIndex(ObjectKeys(FirstOrder(videos))[p])
    ensures IndexValue(ObjectKeys(FirstOrder(videos))[p]) < IndexValue(ObjectKeys(FirstOrder(videos))[q])
  {
    var order := FirstOrder(videos);
    var keys := ObjectKeys(order);
    ObjectKeysOrder(order);
    ObjectKeysPermutes(order);
    assert keys[p] != keys[q];
    ArrayIndexInjective(keys[p], keys[q]);
  }

  /** The keys processFormats visits are strictly increasing in KeyRank. */
  lemma ObjectKeysRank(videos: seq<Record>)
    ensures forall p, q :: 0 <= p < q < |ObjectKeys(FirstOrder(videos))| ==>
      KeyRank(videos, ObjectKeys(FirstOrder(videos))[p]) < KeyRank(videos, ObjectKeys(FirstOrder(videos))[q])
  {
    var keys := ObjectKeys(FirstOrder(videos));
    forall p, q | 0 <= p < q < |keys| ensures KeyRank(videos, keys[p]) < KeyRank(videos, keys[q]) {
      if IsArrayIndex(keys[q]) {
        IndexKeysRank(videos, p, q);
      } else if IsNamedKey(keys[p]) {
        NamedKeysRank(videos, p, q);
      }
    }
  }

  /** The video entries of the answer come in the order of Object.keys:
      resolutions that are array indices first, ascending, then the others
      in the order of their first video formats. */
  lemma SelectFormatsVideoOrder(formats: seq<Record>)
    ensures var r := SelectFormats(formats);
      forall i, j :: 0 <= i < j < |r| && r[j].sizeInBytes.Some? ==>
        KeyBefore(Filter(formats, IsVideo), r[i].format.resolution, r[j].format.resolution)
  {
    var videos := Filter(formats, IsVideo);
    var order := ObjectKeys(FirstOrder(videos));
    ObjectKeysRank(videos);
    var f := PickerFor(videos);
    forall res ensures |f(res)| <= 1 && forall x :: x in f(res) ==> Resolution(x) == res {
      PickForShape(videos, res);
    }
    var rank := res => KeyRank(videos, res);
    assert forall p, q :: 0 <= p < q < |order| ==> rank(order[p]) < rank(order[q]);
    FlatMapOrder(order, f, Resolution, rank);
    var r := SelectFormats(formats);
    forall i, j | 0 <= i < j < |r| && r[j].sizeInBytes.Some?
      ensures KeyBefore(videos, r[i].format.resolution, r[j].format.resolution)
    {
      VideoPart(formats, j);
      PickInAnswer(formats, i);
      assert rank(Resolution(r[i])) < rank(Resolution(r[j]));
    }
  }
}
