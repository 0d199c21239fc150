/**
  `downloadRoot`: reading the "CA Issuers" access locations out of OpenSSL's
  text rendering of the authority information access extension (RFC 5280
  section 4.2.2.1) and fetching them one by one. The HTTP client is a
  parameter: `fetch(url)` is the body of a successful response, or `None`
  when the request throws.
 */
module IssuerDownload {
  import opened Wrappers
  import opened PhpStrings

  const IssuerLabel := "CA Issuers - URI:"

  /** `str_replace('CA Issuers - URI:', '', $line)`: every copy of the label goes, nothing is trimmed. */
  function IssuerUrl(line: string): (url: string)
    ensures |url| <= |line|
    ensures StartsWith(line, IssuerLabel) ==> |url| <= |line| - |IssuerLabel|
    ensures StartsWith(line, IssuerLabel) && !Occurs(line[|IssuerLabel|..], IssuerLabel) ==> url == line[|IssuerLabel|..]
    ensures !Occurs(line, IssuerLabel) ==> url == line
  {
    if StartsWith(line, IssuerLabel) then
      assert line == IssuerLabel + line[|IssuerLabel|..];
      assert line[..|IssuerLabel|] == IssuerLabel;
      assert OccursAt(line, IssuerLabel, 0);
      RemoveAll(line[|IssuerLabel|..], IssuerLabel)
    else RemoveAll(line, IssuerLabel)
  }

  /** Cutting the leading label off first gives what `str_replace` over the whole line gives. */
  lemma IssuerUrlIsReplace(line: string)
    ensures IssuerUrl(line) == RemoveAll(line, IssuerLabel)
  {
    if StartsWith(line, IssuerLabel) {
      assert line == IssuerLabel + line[|IssuerLabel|..];
      RemoveAllHead(IssuerLabel, line[|IssuerLabel|..]);
    }
  }

  /** What one line contributes: its URL when it begins with the label (`strpos(...) === 0`), else nothing. */
  function LineUrl(line: string): (urls: seq<string>)
    ensures |urls| <= 1
  {
    if StartsWith(line, IssuerLabel) then [IssuerUrl(line)] else []
  }

  /** The URLs of the labelled lines, in line order. */
  function IssuerLines(lines: seq<string>): (urls: seq<string>)
    ensures |urls| <= |lines|
  {
    if |lines| == 0 then [] else LineUrl(lines[0]) + IssuerLines(lines[1..])
  }

  /** Every address comes from a line carrying the issuer label. */
  lemma {:induction false} IssuerLinesFrom(lines: seq<string>)
    ensures forall j :: 0 <= j < |IssuerLines(lines)| ==>
      exists i :: 0 <= i < |lines| && StartsWith(lines[i], IssuerLabel) && IssuerLines(lines)[j] == IssuerUrl(lines[i])
  {
    if |lines| > 0 {
      var first := LineUrl(lines[0]);
      var rest := IssuerLines(lines[1..]);
      var urls := IssuerLines(lines);
      IssuerLinesFrom(lines[1..]);
      assert forall j :: 0 <= j < |rest| ==>
        exists i :: 0 <= i < |lines[1..]| && StartsWith(lines[1..][i], IssuerLabel) && rest[j] == IssuerUrl(lines[1..][i]);
      assert urls == first + rest;
      forall j | 0 <= j < |urls|
        ensures exists i :: 0 <= i < |lines| && StartsWith(lines[i], IssuerLabel) && urls[j] == IssuerUrl(lines[i])
      {
        if j >= |first| {
          var i :| 0 <= i < |lines[1..]| && StartsWith(lines[1..][i], IssuerLabel) && rest[j - |first|] == IssuerUrl(lines[1..][i]);
          assert lines[i + 1] == lines[1..][i];
        }
      }
      assert urls == IssuerLines(lines);
      assert forall j :: 0 <= j < |IssuerLines(lines)| ==>
        exists i :: 0 <= i < |lines| && StartsWith(lines[i], IssuerLabel) && IssuerLines(lines)[j] == IssuerUrl(lines[i]);
    } else {
      assert |IssuerLines(lines)| == 0;
    }
  }

  function IssuerUrls(aia: string): seq<string> {
    IssuerLines(Split(aia, '\n'))
  }

  /** A line made of the label followed by a URL yields exactly that URL. */
  lemma IssuerUrlOfLabelled(url: string)
    requires !Occurs(url, IssuerLabel)
    ensures StartsWith(IssuerLabel + url, IssuerLabel)
    ensures IssuerUrl(IssuerLabel + url) == url
  {
    var line := IssuerLabel + url;
    assert line[..|IssuerLabel|] == IssuerLabel;
    assert line[|IssuerLabel|..] == url;
  }

  lemma {:induction false} IssuerLinesConcat(a: seq<string>, b: seq<string>)
    ensures IssuerLines(a + b) == IssuerLines(a) + IssuerLines(b)
    decreases |a|
  {
    if |a| == 0 {
      assert a + b == b;
    } else {
      assert (a + b)[0] == a[0];
      assert (a + b)[1..] == a[1..] + b;
      IssuerLinesConcat(a[1..], b);
      var x, y, z := LineUrl(a[0]), IssuerLines(a[1..]), IssuerLines(b);
      assert x + (y + z) == (x + y) + z;
    }
  }

  /** Each URL on a line of its own behind the label. */
  function Labelled(urls: seq<string>): (lines: seq<string>)
    ensures |lines| == |urls|
  {
    seq(|urls|, i requires 0 <= i < |urls| => IssuerLabel + urls[i])
  }

  lemma {:induction false} IssuerLinesLabelled(urls: seq<string>)
    requires forall i :: 0 <= i < |urls| ==> !Occurs(urls[i], IssuerLabel)
    ensures IssuerLines(Labelled(urls)) == urls
    decreases |urls|
  {
    if |urls| > 0 {
      var lines := Labelled(urls);
      assert lines[0] == IssuerLabel + urls[0];
      IssuerUrlOfLabelled(urls[0]);
      assert lines[1..] == Labelled(urls[1..]);
      IssuerLinesLabelled(urls[1..]);
    }
  }

  /** Rendering the URLs one per line behind the label and extracting them again gives the URLs back. */
  lemma IssuerUrlsRoundTrip(urls: seq<string>)
    requires |urls| >= 1
    requires forall i :: 0 <= i < |urls| ==> '\n' !in urls[i] && !Occurs(urls[i], IssuerLabel)
    ensures IssuerUrls(Join(Labelled(urls), "\n")) == urls
  {
    var lines := Labelled(urls);
    assert '\n' !in IssuerLabel;
    forall i | 0 <= i < |lines| ensures '\n' !in lines[i] {
      assert lines[i] == IssuerLabel + urls[i];
    }
    assert "\n" == ['\n'];
    SplitJoin(lines, '\n');
    IssuerLinesLabelled(urls);
  }

  /** Without a labelled line, nothing is requested. */
  lemma {:induction false} IssuerLinesNone(lines: seq<string>)
    requires forall i :: 0 <= i < |lines| ==> !StartsWith(lines[i], IssuerLabel)
    ensures IssuerLines(lines) == []
    decreases |lines|
  {
    if |lines| > 0 {
      assert !StartsWith(lines[0], IssuerLabel);
      IssuerLinesNone(lines[1..]);
    }
  }

  /** Nothing is requested exactly when no line carries the issuer label. */
  lemma IssuerLinesEmpty(lines: seq<string>)
    ensures IssuerLines(lines) == [] <==> forall i :: 0 <= i < |lines| ==> !StartsWith(lines[i], IssuerLabel)
  {
    if exists i :: 0 <= i < |lines| && StartsWith(lines[i], IssuerLabel) {
      var i :| 0 <= i < |lines| && StartsWith(lines[i], IssuerLabel);
      IssuerLinesHit(lines, i);
    } else {
      IssuerLinesNone(lines);
    }
  }

  lemma {:induction false} IssuerLinesHit(lines: seq<string>, i: nat)
    requires i < |lines| && StartsWith(lines[i], IssuerLabel)
    ensures IssuerLines(lines) != []
    decreases i
  {
    assert IssuerLines(lines) == LineUrl(lines[0]) + IssuerLines(lines[1..]);
    if i > 0 && !StartsWith(lines[0], IssuerLabel) {
      assert lines[1..][i - 1] == lines[i];
      IssuerLinesHit(lines[1..], i - 1);
    }
  }

  /** Lines of any other kind, such as OCSP locations, add no URL wherever they stand. */
  lemma IssuerLinesSkipsOthers(a: seq<string>, line: string, b: seq<string>)
    requires !StartsWith(line, IssuerLabel)
    ensures IssuerLines(a + [line] + b) == IssuerLines(a + b)
  {
    IssuerLinesConcat(a + [line], b);
    IssuerLinesConcat(a, [line]);
    assert [line][1..] == [];
    assert IssuerLines([line]) == LineUrl(line) + IssuerLines([]);
    assert LineUrl(line) == [];
    var x := IssuerLines(a);
    assert x + [] == x;
    IssuerLinesConcat(a, b);
  }

  lemma IssuerLinesStep(parts: seq<string>, i: nat)
    requires i < |parts|
    ensures IssuerLines(parts[..i + 1]) ==
      IssuerLines(parts[..i]) + (if StartsWith(parts[i], IssuerLabel) then [IssuerUrl(parts[i])] else [])
  {
    assert parts[..i + 1] == parts[..i] + [parts[i]];
    IssuerLinesConcat(parts[..i], [parts[i]]);
    assert [parts[i]][1..] == [];
  }

  /** The URLs of the first lines are a prefix of the URLs of all lines. */
  lemma IssuerLinesPrefix(parts: seq<string>, i: nat)
    requires i <= |parts|
    ensures var p := IssuerLines(parts[..i]);
      |p| <= |IssuerLines(parts)| && p == IssuerLines(parts)[..|p|]
  {
    IssuerLinesConcat(parts[..i], parts[i..]);
    assert parts[..i] + parts[i..] == parts;
  }

  /** The content of the last successful fetch among `requested`: what the issuer file holds at the end. */
  function LastSaved(requested: seq<string>, fetch: string -> Option<string>): Option<string> {
    if |requested| == 0 then None
    else
      match fetch(requested[|requested| - 1])
      case Some(body) => Some(body)
      case None => LastSaved(requested[..|requested| - 1], fetch)
  }

  /** What a run leaves behind: the URLs requested, in order, and the final content of the issuer file. */
  predicate RunOutcome(urls: seq<string>, fetch: string -> Option<string>, requested: seq<string>, saved: Option<string>) {
    && |requested| <= |urls| && requested == urls[..|requested|]
    && (forall k :: 0 <= k < |requested| - 1 ==> fetch(requested[k]).Some?)
    && (|requested| < |urls| ==> |requested| >= 1 && fetch(requested[|requested| - 1]).None?)
    && saved == LastSaved(requested, fetch)
  }

  lemma AppendSaved(requested: seq<string>, url: string, fetch: string -> Option<string>)
    requires forall k :: 0 <= k < |requested| ==> fetch(requested[k]).Some?
    requires fetch(url).Some?
    ensures forall k :: 0 <= k < |requested + [url]| ==> fetch((requested + [url])[k]).Some?
    ensures LastSaved(requested + [url], fetch) == fetch(url)
  {
  }

  /** A failed request on line `i` ends the run with the outcome `RunOutcome` describes. */
  lemma StopOutcome(parts: seq<string>, i: nat, fetch: string -> Option<string>, saved: Option<string>)
    requires i < |parts| && StartsWith(parts[i], IssuerLabel)
    requires forall k :: 0 <= k < |IssuerLines(parts[..i])| ==> fetch(IssuerLines(parts[..i])[k]).Some?
    requires saved == LastSaved(IssuerLines(parts[..i]), fetch)
    requires fetch(IssuerUrl(parts[i])).None?
    ensures RunOutcome(IssuerLines(parts), fetch, IssuerLines(parts[..i]) + [IssuerUrl(parts[i])], saved)
  {
    var before := IssuerLines(parts[..i]);
    var after := before + [IssuerUrl(parts[i])];
    IssuerLinesStep(parts, i);
    IssuerLinesPrefix(parts, i + 1);
    assert after[..|after| - 1] == before;
    assert forall k :: 0 <= k < |after| - 1 ==> after[k] == before[k];
    assert LastSaved(after, fetch) == LastSaved(before, fetch);
  }

  /** The loop of `downloadRoot` over the lines of the extension text. */
  method FetchIssuers(parts: seq<string>, fetch: string -> Option<string>) returns (requested: seq<string>, saved: Option<string>)
    ensures RunOutcome(IssuerLines(parts), fetch, requested, saved)
  {
    requested := [];
    saved := None;
    var i := 0;
    while i < |parts|
      invariant 0 <= i <= |parts|
      invariant requested == IssuerLines(parts[..i])
      invariant forall k :: 0 <= k < |requested| ==> fetch(requested[k]).Some?
      invariant saved == LastSaved(requested, fetch)
    {
      IssuerLinesStep(parts, i);
      if StartsWith(parts[i], IssuerLabel) {
        var url := IssuerUrl(parts[i]);
        var response := fetch(url);
        if response.None? {
          StopOutcome(parts, i, fetch, saved);
          requested := requested + [url];
          return;
        }
        AppendSaved(requested, url, fetch);
        requested := requested + [url];
        saved := response;
      }
      i := i + 1;
    }
    assert parts[..i] == parts;
  }

  /**
    index.php:269-289. Every issuer line is requested in order; the first
    failed request ends the whole download; each successful response
    overwrites the issuer file, whose final content is returned as `saved`.
   */
  method DownloadRoot(aia: string, fetch: string -> Option<string>) returns (requested: seq<string>, saved: Option<string>)
    ensures var urls := IssuerUrls(aia);
      && |requested| <= |urls| && requested == urls[..|requested|]
      && (forall k :: 0 <= k < |requested| - 1 ==> fetch(requested[k]).Some?)
      && (|requested| < |urls| ==> |requested| >= 1 && fetch(requested[|requested| - 1]).None?)
      && saved == LastSaved(requested, fetch)
  {
    requested, saved := FetchIssuers(Split(aia, '\n'), fetch);
  }
}
