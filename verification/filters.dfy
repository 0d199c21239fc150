/**
  The filter cascade the harvester applies while walking a trusted list:
  countries and providers against optional allow-lists, services against
  the always-on type and status lists, and, optionally, against the
  "additional service information" URIs of ETSI TS 119 612 clause 5.5.9.4
  found among a service's extensions.
 */
module Filters {
  import opened Wrappers
  import opened PhpStrings
  import opened XmlTree

  /** The part of the configuration the filters read. Lists are compared with strict `in_array`, i.e. exact membership. */
  datatype Config = Config(
    filterCountries: bool, includeCountries: seq<string>,
    filterQtsps: bool, includeQtsp: seq<string>,
    includeTypes: seq<string>, includeStatuses: seq<string>,
    serviceFilter: bool, serviceInfo: seq<string>)

  // ----- country and provider filters -----

  /**
    The shared shape of the country test (index.php:67) and the provider test
    (index.php:103): a name is skipped exactly when its flag is on and the name
    is not in the allow-list.
   */
  predicate Allowed(flag: bool, allow: seq<string>, name: string) {
    !flag || name in allow
  }

  /** Reference definition: the names that pass `Allowed`, each as often as it is listed, in list order. */
  function KeptNames(flag: bool, allow: seq<string>, names: seq<string>): (r: seq<string>)
    ensures |r| <= |names|
  {
    if |names| == 0 then []
    else
      var last := names[|names| - 1];
      KeptNames(flag, allow, names[..|names| - 1]) + (if Allowed(flag, allow, last) then [last] else [])
  }

  lemma KeptNamesSnoc(flag: bool, allow: seq<string>, names: seq<string>, i: nat)
    requires i < |names|
    ensures KeptNames(flag, allow, names[..i + 1])
      == KeptNames(flag, allow, names[..i]) + (if Allowed(flag, allow, names[i]) then [names[i]] else [])
  {
    assert names[..i + 1][..i] == names[..i];
  }

  /** A name is kept iff it is listed and allowed. */
  lemma {:induction false} KeptNamesMembers(flag: bool, allow: seq<string>, names: seq<string>)
    ensures forall x :: x in KeptNames(flag, allow, names) <==> x in names && Allowed(flag, allow, x)
    decreases |names|
  {
    if |names| > 0 {
      var n := |names| - 1;
      KeptNamesMembers(flag, allow, names[..n]);
      assert names == names[..n] + [names[n]];
    }
  }

  /** With the filter off every name is kept, in order. */
  lemma {:induction false} KeptNamesOff(allow: seq<string>, names: seq<string>)
    ensures KeptNames(false, allow, names) == names
    decreases |names|
  {
    if |names| > 0 {
      var n := |names| - 1;
      KeptNamesOff(allow, names[..n]);
      assert names == names[..n] + [names[n]];
    }
  }

  /** With the filter on and no listed name allowed, nothing is kept. */
  lemma {:induction false} KeptNamesNone(allow: seq<string>, names: seq<string>)
    ensures (forall i :: 0 <= i < |names| ==> names[i] !in allow) ==> KeptNames(true, allow, names) == []
    decreases |names|
  {
    if |names| > 0 {
      KeptNamesNone(allow, names[..|names| - 1]);
    }
  }

  /** The names that pass `Allowed`, visited and collected in order. */
  method SelectAllowed(flag: bool, allow: seq<string>, names: seq<string>) returns (kept: seq<string>)
    ensures kept == KeptNames(flag, allow, names)
    ensures |kept| <= |names|
    ensures forall x :: x in kept <==> x in names && Allowed(flag, allow, x)
    ensures !flag ==> kept == names
    ensures flag && (forall i :: 0 <= i < |names| ==> names[i] !in allow) ==> kept == []
  {
    kept := [];
    for i := 0 to |names|
      invariant kept == KeptNames(flag, allow, names[..i])
    {
      KeptNamesSnoc(flag, allow, names, i);
      if flag && names[i] !in allow {
        continue;
      }
      kept := kept + [names[i]];
    }
    assert names[..|names|] == names;
    KeptNamesMembers(flag, allow, names);
    if !flag {
      KeptNamesOff(allow, names);
    }
    if flag {
      KeptNamesNone(allow, names);
    }
  }

  // ----- capability filter -----

  const InfoKey := "AdditionalServiceInformation"
  const UriKey := "URI"

  /** `isset($ext['AdditionalServiceInformation'])`: only an extension read as a table can carry the key. */
  predicate HasInfo(ext: Value) {
    ext.Table? && FindKey(ext.entries, InfoKey).Some?
  }

  /**
    `$ext['AdditionalServiceInformation'][0]['URI'][0]`, when that path ends in
    a string. Any other shape yields a non-string, which `in_array` with strict
    comparison can never find in a list of strings.
   */
  function InfoUri(items: seq<Value>): (r: Option<string>)
    ensures r.Some? ==> |items| > 0 && items[0].Table?
  {
    if |items| == 0 || !items[0].Table? then None
    else
      var uris := Get(items[0].entries, UriKey);
      if |uris| == 0 || !uris[0].Text? then None else Some(uris[0].text)
  }

  /** The info URIs collected at index.php:141-146: one per extension that carries the key, in extension order. */
  function InfoUris(exts: seq<Value>): (r: seq<Option<string>>)
    ensures |r| <= |exts|
  {
    if |exts| == 0 then []
    else
      var last := exts[|exts| - 1];
      InfoUris(exts[..|exts| - 1]) + (if HasInfo(last) then [InfoUri(Get(last.entries, InfoKey))] else [])
  }

  /** Every collected entry comes from an extension that carries additional service information, and nothing is collected exactly when no extension does. */
  lemma {:induction false} InfoUrisFrom(exts: seq<Value>)
    ensures InfoUris(exts) == [] <==> forall i :: 0 <= i < |exts| ==> !HasInfo(exts[i])
    ensures forall j :: 0 <= j < |InfoUris(exts)| ==>
      exists i :: 0 <= i < |exts| && HasInfo(exts[i]) && InfoUris(exts)[j] == InfoUri(Get(exts[i].entries, InfoKey))
  {
    if |exts| > 0 {
      var init := exts[..|exts| - 1];
      var last := exts[|exts| - 1];
      var front := InfoUris(init);
      var r := InfoUris(exts);
      InfoUrisFrom(init);
      assert r == front + (if HasInfo(last) then [InfoUri(Get(last.entries, InfoKey))] else []);
      assert forall i :: 0 <= i < |init| ==> init[i] == exts[i];
      forall j | 0 <= j < |r|
        ensures exists i :: 0 <= i < |exts| && HasInfo(exts[i]) && r[j] == InfoUri(Get(exts[i].entries, InfoKey))
      {
        if j < |front| {
          var i :| 0 <= i < |init| && HasInfo(init[i]) && front[j] == InfoUri(Get(init[i].entries, InfoKey));
          assert exts[i] == init[i];
        } else {
          assert HasInfo(exts[|exts| - 1]);
        }
      }
    }
  }

  /** At least one collected URI is a string in the allow-list. */
  predicate Matches(infos: seq<Option<string>>, allow: seq<string>) {
    exists j :: 0 <= j < |infos| && infos[j].Some? && infos[j].value in allow
  }

  /** The search at index.php:148-153: the flag is raised by any allowed URI and never lowered again. */
  method FoundExt(infos: seq<Option<string>>, allow: seq<string>) returns (found: bool)
    ensures found <==> Matches(infos, allow)
  {
    found := false;
    for i := 0 to |infos|
      invariant found <==> exists j :: 0 <= j < i && infos[j].Some? && infos[j].value in allow
    {
      if infos[i].Some? && infos[i].value in allow {
        found := true;
      }
    }
  }

  /** Collecting over a concatenation of extension lists is the concatenation of the collections. */
  lemma {:induction false} InfoUrisConcat(a: seq<Value>, b: seq<Value>)
    ensures InfoUris(a + b) == InfoUris(a) + InfoUris(b)
    decreases |b|
  {
    if |b| == 0 {
      assert a + b == a;
    } else {
      var n := |b| - 1;
      var ab := a + b;
      assert ab[..|ab| - 1] == a + b[..n];
      assert ab[|ab| - 1] == b[n];
      InfoUrisConcat(a, b[..n]);
    }
  }

  /** Extensions without the key contribute nothing. */
  lemma InfoUrisSkipsOthers(exts: seq<Value>, ext: Value)
    requires !HasInfo(ext)
    ensures InfoUris(exts + [ext]) == InfoUris(exts)
    ensures InfoUris([ext] + exts) == InfoUris(exts)
  {
    InfoUrisConcat(exts, [ext]);
    InfoUrisConcat([ext], exts);
    assert [ext][..0] == [];
  }

  /** The capability test is an OR over the extensions: a service matches iff one of its parts does. */
  lemma MatchesConcat(a: seq<Value>, b: seq<Value>, allow: seq<string>)
    ensures Matches(InfoUris(a + b), allow) <==> Matches(InfoUris(a), allow) || Matches(InfoUris(b), allow)
  {
    InfoUrisConcat(a, b);
    MatchesAppend(InfoUris(a), InfoUris(b), allow);
  }

  lemma MatchesAppend(x: seq<Option<string>>, y: seq<Option<string>>, allow: seq<string>)
    ensures Matches(x + y, allow) <==> Matches(x, allow) || Matches(y, allow)
  {
    var xy := x + y;
    if Matches(xy, allow) {
      var j :| 0 <= j < |xy| && xy[j].Some? && xy[j].value in allow;
      if j >= |x| {
        assert y[j - |x|] == xy[j];
      }
    }
    if Matches(y, allow) {
      var j :| 0 <= j < |y| && y[j].Some? && y[j].value in allow;
      assert xy[|x| + j] == y[j];
    }
    if Matches(x, allow) {
      var j :| 0 <= j < |x| && x[j].Some? && x[j].value in allow;
      assert xy[j] == x[j];
    }
  }

  // ----- service verdict -----

  datatype Verdict = Keep | SkipType | SkipStatus | SkipCapability

  /**
    The service tests at index.php:124-157, in source order: type, then status,
    then (only with `service_filter` on) the capability search.
   */
  function ServiceVerdict(cfg: Config, typeUri: string, status: string, exts: seq<Value>): (v: Verdict)
    ensures v == SkipType <==> typeUri !in cfg.includeTypes
    ensures v == SkipStatus <==> typeUri in cfg.includeTypes && status !in cfg.includeStatuses
    ensures v == SkipCapability ==> cfg.serviceFilter
    ensures v == Keep <==>
      typeUri in cfg.includeTypes && status in cfg.includeStatuses &&
      (!cfg.serviceFilter || Matches(InfoUris(exts), cfg.serviceInfo))
  {
    if typeUri !in cfg.includeTypes then SkipType
    else if status !in cfg.includeStatuses then SkipStatus
    else if cfg.serviceFilter && !Matches(InfoUris(exts), cfg.serviceInfo) then SkipCapability
    else Keep
  }

  /** `c2` lets through everything `c1` does: its lists are larger and its optional filters no stricter. */
  predicate Wider(c1: Config, c2: Config) {
    && (c2.filterCountries ==> c1.filterCountries && forall x :: x in c1.includeCountries ==> x in c2.includeCountries)
    && (c2.filterQtsps ==> c1.filterQtsps && forall x :: x in c1.includeQtsp ==> x in c2.includeQtsp)
    && (forall x :: x in c1.includeTypes ==> x in c2.includeTypes)
    && (forall x :: x in c1.includeStatuses ==> x in c2.includeStatuses)
    && (c2.serviceFilter ==> c1.serviceFilter && forall x :: x in c1.serviceInfo ==> x in c2.serviceInfo)
  }

  /** Widening the configuration never drops a service that was kept. */
  lemma VerdictMonotone(c1: Config, c2: Config, typeUri: string, status: string, exts: seq<Value>)
    requires Wider(c1, c2)
    requires ServiceVerdict(c1, typeUri, status, exts) == Keep
    ensures ServiceVerdict(c2, typeUri, status, exts) == Keep
  {
    if c2.serviceFilter {
      var infos := InfoUris(exts);
      var j :| 0 <= j < |infos| && infos[j].Some? && infos[j].value in c1.serviceInfo;
      assert infos[j].value in c2.serviceInfo;
    }
  }

  /** With `service_filter` off the extensions play no part in the verdict. */
  lemma VerdictIgnoresExtensionsWhenOff(cfg: Config, typeUri: string, status: string, a: seq<Value>, b: seq<Value>)
    requires !cfg.serviceFilter
    ensures ServiceVerdict(cfg, typeUri, status, a) == ServiceVerdict(cfg, typeUri, status, b)
  {
  }
}
