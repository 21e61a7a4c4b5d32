/** The stream-map scanner of the video page: find the lowest available
    quality inside `url_encoded_fmt_stream_map`, then cut out and
    percent-decode the "url" and the ciphered signature "s" of that stream.
    Positions are size_t values; a search that finds nothing is npos. */
module HtmlParser {
  import opened Text
  import Http

  datatype Quality = Small | Medium | HD

  /** `qualityStrings`, lowest quality first. */
  const QualityStrings: seq<string> := ["small", "medium", "hd"]

  /** `Quality(i)`: the enumerator with value i. */
  function QualityOf(i: nat): (q: Quality)
    requires i < 3
    ensures QualityIndex(q) == i
  {
    if i == 0 then Small else if i == 1 then Medium else HD
  }

  /** The value of an enumerator. */
  function QualityIndex(q: Quality): nat
  {
    match q
    case Small => 0
    case Medium => 1
    case HD => 2
  }

  const StreamMapTag: string := "url_encoded_fmt_stream_map"

  /** The characters that end a url or signature value: '\n', '\\', ','. */
  const ValueEnd: set<char> := {'\n', '\\', ','}

  /** `html.find("quality=" + qualityStrings[i], beginStreams)`. */
  function QualitySearch(html: string, beginStreams: nat, i: nat): Option<nat>
    requires i < 3
  {
    Find(html, "quality=" + QualityStrings[i], beginStreams)
  }

  /** The quality `findLowestQuality` returns and the last value it wrote to
      `qualityPos`: the first of small, medium, hd found from beginStreams,
      or HD with npos (None) when none is found. */
  function LowestQuality(html: string, beginStreams: nat): (Quality, Option<nat>)
  {
    if QualitySearch(html, beginStreams, 0).Some? then (Small, QualitySearch(html, beginStreams, 0))
    else if QualitySearch(html, beginStreams, 1).Some? then (Medium, QualitySearch(html, beginStreams, 1))
    else (HD, QualitySearch(html, beginStreams, 2))
  }

  /** `findLowestQuality`: tries small, medium and hd in turn from
      beginStreams; endStreams is never used to bound the search. */
  method FindLowestQuality(html: string, beginStreams: nat, endStreams: nat)
    returns (q: Quality, qualityPos: Option<nat>)
    ensures (q, qualityPos) == LowestQuality(html, beginStreams)
    ensures qualityPos.Some? ==>
      beginStreams <= qualityPos.value &&
      IsAt(html, "quality=" + QualityStrings[QualityIndex(q)], qualityPos.value)
    ensures forall i :: 0 <= i < QualityIndex(q) ==> QualitySearch(html, beginStreams, i).None?
    ensures qualityPos.None? ==>
      q == HD && forall i :: 0 <= i < 3 ==> QualitySearch(html, beginStreams, i).None?
  {
    qualityPos := None;
    var i := 0;
    while i < 3
      invariant 0 <= i <= 3
      invariant forall k :: 0 <= k < i ==> QualitySearch(html, beginStreams, k).None?
      invariant i > 0 ==> qualityPos == QualitySearch(html, beginStreams, i - 1)
    {
      qualityPos := Find(html, "quality=" + QualityStrings[i], beginStreams);
      if qualityPos.Some? {
        q := QualityOf(i);
        return;
      }
      i := i + 1;
    }
    q := HD;
  }

  // ---------------------------------------------------------------------
  // The positions `parse` computes
  // ---------------------------------------------------------------------

  /** `qualityPos` after the call in `parse`: None when the tag is absent or
      no quality is found. */
  function QualityPosOf(html: string): Option<nat>
  {
    var tag := Find(html, StreamMapTag, 0);
    if tag.None? then None else LowestQuality(html, tag.value).1
  }

  /** `beginStream = html.rfind(",", qualityPos)` (npos when there is none). */
  function BeginStream(html: string, qualityPos: nat): nat
  {
    SizeOf(RFind(html, ",", qualityPos))
  }

  /** `beginUrl = html.find("url=", beginStream) + 4`, in size_t arithmetic. */
  function BeginUrl(html: string, beginStream: nat): nat
  {
    (SizeOf(Find(html, "url=", beginStream)) + 4) % SIZE_MOD
  }

  /** `endUrl`: the first value terminator from beginUrl. */
  function EndUrl(html: string, beginUrl: nat): Option<nat>
  {
    FindFirstOf(html, ValueEnd, beginUrl)
  }

  /** `beginSig = html.find("0026s=", beginStream)`. */
  function BeginSig(html: string, beginStream: nat): Option<nat>
  {
    Find(html, "0026s=", beginStream)
  }

  /** The iterator ranges handed to `decode` lie inside the string; past
      the end they are undefined behaviour, so `parse` needs this. */
  predicate ParseDefined(html: string)
  {
    var qualityPos := QualityPosOf(html);
    qualityPos.Some? ==>
      var beginStream := BeginStream(html, qualityPos.value);
      && EndUrl(html, BeginUrl(html, beginStream)).Some?
      && (BeginSig(html, beginStream).Some? ==>
            FindFirstOf(html, ValueEnd, BeginSig(html, beginStream).value).Some?)
  }

  /** The encoded "url" value: from `beginUrl` up to `endUrl`. */
  function UrlText(html: string): string
    requires ParseDefined(html) && QualityPosOf(html).Some?
  {
    var beginUrl := BeginUrl(html, BeginStream(html, QualityPosOf(html).value));
    html[beginUrl..EndUrl(html, beginUrl).value]
  }

  lemma SigEndsAfterMarker(html: string, beginSig: nat, endSig: nat)
    requires IsAt(html, "0026s=", beginSig)
    requires FindFirstOf(html, ValueEnd, beginSig) == Some(endSig)
    ensures beginSig + 6 <= endSig
  {
    forall k | beginSig <= k < beginSig + 6
      ensures html[k] !in ValueEnd
    {
      assert html[k] == html[beginSig..beginSig + 6][k - beginSig];
    }
  }

  /** The encoded "s" value: from six characters past "0026s=" up to the
      next terminator. */
  function SigText(html: string): string
    requires ParseDefined(html) && QualityPosOf(html).Some?
    requires BeginSig(html, BeginStream(html, QualityPosOf(html).value)).Some?
  {
    var beginSig := BeginSig(html, BeginStream(html, QualityPosOf(html).value)).value;
    var endSig := FindFirstOf(html, ValueEnd, beginSig).value;
    SigEndsAfterMarker(html, beginSig, endSig);
    html[beginSig + 6..endSig]
  }

  /** `parse`: the url and, when present, the ciphered signature of the
      lowest-quality stream, percent-decoded. A std::string never reaches
      npos characters. */
  method Parse(html: string) returns (streamInfos: map<string, string>)
    requires |html| < NPOS
    requires ParseDefined(html)
    ensures Find(html, StreamMapTag, 0).None? ==> streamInfos == map[]
    ensures streamInfos.Keys <= {"url", "s"}
    ensures "s" in streamInfos ==> "url" in streamInfos
    ensures "url" in streamInfos <==> QualityPosOf(html).Some?
    ensures "url" in streamInfos ==> streamInfos["url"] == Http.Decoded(UrlText(html))
    ensures "s" in streamInfos <==>
      QualityPosOf(html).Some? && BeginSig(html, BeginStream(html, QualityPosOf(html).value)).Some?
    ensures "s" in streamInfos ==> streamInfos["s"] == Http.Decoded(SigText(html))
  {
    streamInfos := map[];
    var beginStreamMap := Find(html, StreamMapTag, 0);
    if beginStreamMap.None? {
      return;
    }
    var endStreamMap := Find(html, "\"", beginStreamMap.value + |StreamMapTag| + 3);
    var lowestQuality, qualityPos :=
      FindLowestQuality(html, beginStreamMap.value, SizeOf(endStreamMap));
    if qualityPos.Some? {
      assert qualityPos == QualityPosOf(html);
      var beginStream := BeginStream(html, qualityPos.value);
      var beginUrl := BeginUrl(html, beginStream);
      var endUrl := EndUrl(html, beginUrl);
      assert html[beginUrl..endUrl.value] == UrlText(html);
      var url := Http.Decode(html[beginUrl..endUrl.value]);
      streamInfos := streamInfos["url" := url];
      var beginSig := BeginSig(html, beginStream);
      if beginSig.Some? {
        var endSig := FindFirstOf(html, ValueEnd, beginSig.value);
        SigEndsAfterMarker(html, beginSig.value, endSig.value);
        assert html[beginSig.value + 6..endSig.value] == SigText(html);
        var sig := Http.Decode(html[beginSig.value + 6..endSig.value]);
        streamInfos := streamInfos["s" := sig];
      }
    }
  }
}
