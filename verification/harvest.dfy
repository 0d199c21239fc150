/**
  The harvester's walk over countries, providers and services
  (index.php:58-253), starting from records already read out of each
  trusted list. A service yields a certificate record when it passes every
  filter, carries a certificate that OpenSSL can read, and has not expired.
  Records are numbered in the order they are appended, and that number names
  the `.cer` file. OpenSSL is a parameter from PEM text to its reading.
 */
module Harvest {
  import opened Wrappers
  import opened PhpStrings
  import opened Vocabulary
  import opened XmlTree
  import opened Filters
  import opened Certificates
  import opened Pem

  /** The fields a service contributes: names and URIs from `ServiceInformation`, the extensions, and the base64 certificate when present. */
  datatype Service = Service(name: string, typeUri: string, status: string, extensions: seq<Value>, certificate: Option<string>)
  datatype Provider = Provider(name: string, services: seq<Service>)
  /** `providers` is `None` when the trusted list has no `TrustServiceProviderList` (index.php:89-92). */
  datatype Country = Country(code: string, name: string, providers: Option<seq<Provider>>)

  /** What OpenSSL answers for one PEM text: the parsed certificate and the public-key size, each when readable. */
  datatype Reading = Reading(parsed: Option<X509>, keyBits: Option<int>)

  /** `translateState` is only reached for listed statuses, so they must all be known ones. */
  predicate KnownStatuses(cfg: Config) {
    forall s :: s in cfg.includeStatuses ==> IsKnownStatus(s)
  }

  predicate CountryKept(cfg: Config, c: Country) {
    Allowed(cfg.filterCountries, cfg.includeCountries, c.code)
  }

  predicate ProviderKept(cfg: Config, p: Provider) {
    Allowed(cfg.filterQtsps, cfg.includeQtsp, p.name)
  }

  /** The conditions under which a service ends up as a record. */
  predicate Recorded(cfg: Config, svc: Service, openssl: string -> Reading, now: int) {
    && ServiceVerdict(cfg, svc.typeUri, svc.status, svc.extensions) == Keep
    && svc.certificate.Some?
    && openssl(Armour(svc.certificate.value)).parsed.Some?
    && openssl(Armour(svc.certificate.value)).parsed.value.validTo > now
  }

  /** index.php:116-243 for one service. */
  function ServiceRoot(cfg: Config, countryName: string, svc: Service, openssl: string -> Reading, now: int): (r: Option<Root>)
    requires KnownStatuses(cfg)
    ensures r.Some? <==> Recorded(cfg, svc, openssl, now)
    ensures r.Some? ==>
      var x := openssl(Armour(svc.certificate.value)).parsed.value;
      && IsKnownStatus(svc.status)
      && r.value.group == TranslateType(svc.typeUri)
      && r.value.state == TranslateState(svc.status)
      && r.value.country == countryName
      && r.value.title == svc.name
      && r.value.description == svc.name
      && r.value.certificateContent == svc.certificate.value
      && r.value.commonName == CommonName(x.subject)
      && r.value.validFrom == x.validFrom
      && r.value.validUntil == x.validTo
      && r.value.crl == CrlField(x)
      && r.value.serialNumber == x.serialHex
      && var algos := KeyAlgorithms(Some(x), openssl(Armour(svc.certificate.value)).keyBits);
         && r.value.signatureAlgorithm == algos.signature
         && r.value.pubKeyAlgorithm == algos.pubKey
  {
    if ServiceVerdict(cfg, svc.typeUri, svc.status, svc.extensions) != Keep then None
    else
      var facts := ServiceFacts(TranslateType(svc.typeUri), TranslateState(svc.status), countryName, svc.name);
      match svc.certificate
      case None => None
      case Some(c) =>
        var reading := openssl(Armour(c));
        var algos := KeyAlgorithms(reading.parsed, reading.keyBits);
        match reading.parsed
        case None => None
        case Some(x) => MakeRoot(facts, c, x, algos, now)
  }

  function Opt(o: Option<Root>): seq<Root> {
    if o.Some? then [o.value] else []
  }

  /**
    The walk below is stated over any per-service step: given the country name
    and a service, the record the service yields, if any. The harvester's step
    is `Step`.
   */
  type RootOf = (string, Service) -> Option<Root>

  function Step(cfg: Config, openssl: string -> Reading, now: int): (f: RootOf)
    requires KnownStatuses(cfg)
    ensures forall n, svc :: f(n, svc) == ServiceRoot(cfg, n, svc, openssl, now)
  {
    (n, svc) => ServiceRoot(cfg, n, svc, openssl, now)
  }

  function ServiceRoots(rootOf: RootOf, countryName: string, svcs: seq<Service>): (r: seq<Root>)
    ensures |r| <= |svcs|
  {
    if |svcs| == 0 then []
    else ServiceRoots(rootOf, countryName, svcs[..|svcs| - 1]) + Opt(rootOf(countryName, svcs[|svcs| - 1]))
  }

  function ProviderRoots(cfg: Config, rootOf: RootOf, countryName: string, ps: seq<Provider>): seq<Root> {
    if |ps| == 0 then []
    else
      var p := ps[|ps| - 1];
      ProviderRoots(cfg, rootOf, countryName, ps[..|ps| - 1])
      + (if ProviderKept(cfg, p) then ServiceRoots(rootOf, countryName, p.services) else [])
  }

  function CountryRoots(cfg: Config, rootOf: RootOf, c: Country): seq<Root> {
    if CountryKept(cfg, c) && c.providers.Some? then ProviderRoots(cfg, rootOf, c.name, c.providers.value) else []
  }

  /** All records, in the order the walk appends them. */
  function HarvestRoots(cfg: Config, rootOf: RootOf, cs: seq<Country>): seq<Root> {
    if |cs| == 0 then []
    else HarvestRoots(cfg, rootOf, cs[..|cs| - 1]) + CountryRoots(cfg, rootOf, cs[|cs| - 1])
  }

  // ----- soundness: every record passed every filter -----

  /**
    What a record made for a service in country `countryName` shows of the
    filters: a listed type and status, an unexpired certificate, a one-line
    CRL field, and the country.
   */
  predicate ServiceAdmissible(cfg: Config, countryName: string, now: int, r: Root) {
    && r.validUntil > now
    && '\n' !in r.crl
    && (exists t :: t in cfg.includeTypes && r.group == TranslateType(t))
    && (exists s :: s in cfg.includeStatuses && IsKnownStatus(s) && r.state == TranslateState(s))
    && r.country == countryName
  }

  /** The same, for a record of the walk over `cs`: its country is one of the kept ones. */
  predicate Admissible(cfg: Config, cs: seq<Country>, now: int, r: Root) {
    exists i :: 0 <= i < |cs| && CountryKept(cfg, cs[i]) && ServiceAdmissible(cfg, cs[i].name, now, r)
  }

  /** A step is sound when every record it yields is admissible for the country it was given. */
  ghost predicate StepSound(cfg: Config, rootOf: RootOf, now: int) {
    forall n, svc :: rootOf(n, svc).Some? ==> ServiceAdmissible(cfg, n, now, rootOf(n, svc).value)
  }

  lemma ServiceRootAdmissible(cfg: Config, countryName: string, svc: Service, openssl: string -> Reading, now: int)
    requires KnownStatuses(cfg)
    requires ServiceRoot(cfg, countryName, svc, openssl, now).Some?
    ensures ServiceAdmissible(cfg, countryName, now, ServiceRoot(cfg, countryName, svc, openssl, now).value)
  {
    var r := ServiceRoot(cfg, countryName, svc, openssl, now).value;
    assert svc.typeUri in cfg.includeTypes && r.group == TranslateType(svc.typeUri);
    assert svc.status in cfg.includeStatuses && r.state == TranslateState(svc.status);
  }

  /** The harvester's step only yields admissible records. */
  lemma StepIsSound(cfg: Config, openssl: string -> Reading, now: int)
    requires KnownStatuses(cfg)
    ensures StepSound(cfg, Step(cfg, openssl, now), now)
  {
    var f := Step(cfg, openssl, now);
    forall n, svc | f(n, svc).Some? ensures ServiceAdmissible(cfg, n, now, f(n, svc).value) {
      ServiceRootAdmissible(cfg, n, svc, openssl, now);
    }
  }

  lemma {:induction false} ServiceRootsAdmissible(cfg: Config, rootOf: RootOf, countryName: string, svcs: seq<Service>, now: int)
    requires StepSound(cfg, rootOf, now)
    ensures forall r :: r in ServiceRoots(rootOf, countryName, svcs) ==> ServiceAdmissible(cfg, countryName, now, r)
    decreases |svcs|
  {
    if |svcs| > 0 {
      ServiceRootsAdmissible(cfg, rootOf, countryName, svcs[..|svcs| - 1], now);
      var o := rootOf(countryName, svcs[|svcs| - 1]);
      assert o.Some? ==> ServiceAdmissible(cfg, countryName, now, o.value);
    }
  }

  lemma {:induction false} ProviderRootsAdmissible(cfg: Config, rootOf: RootOf, countryName: string, ps: seq<Provider>, now: int)
    requires StepSound(cfg, rootOf, now)
    ensures forall r :: r in ProviderRoots(cfg, rootOf, countryName, ps) ==> ServiceAdmissible(cfg, countryName, now, r)
    decreases |ps|
  {
    if |ps| > 0 {
      ProviderRootsAdmissible(cfg, rootOf, countryName, ps[..|ps| - 1], now);
      ServiceRootsAdmissible(cfg, rootOf, countryName, ps[|ps| - 1].services, now);
    }
  }

  lemma {:induction false} WalkAdmissible(cfg: Config, rootOf: RootOf, cs: seq<Country>, now: int)
    requires StepSound(cfg, rootOf, now)
    ensures forall r :: r in HarvestRoots(cfg, rootOf, cs) ==> Admissible(cfg, cs, now, r)
    decreases |cs|
  {
    if |cs| > 0 {
      var init := cs[..|cs| - 1];
      var c := cs[|cs| - 1];
      WalkAdmissible(cfg, rootOf, init, now);
      forall r | r in HarvestRoots(cfg, rootOf, cs) ensures Admissible(cfg, cs, now, r) {
        if r in HarvestRoots(cfg, rootOf, init) {
          var i :| 0 <= i < |init| && CountryKept(cfg, init[i]) && ServiceAdmissible(cfg, init[i].name, now, r);
          assert cs[i] == init[i];
        } else {
          assert r in CountryRoots(cfg, rootOf, c);
          assert CountryKept(cfg, c) && c.providers.Some?;
          ProviderRootsAdmissible(cfg, rootOf, c.name, c.providers.value, now);
          assert cs[|cs| - 1] == c;
        }
      }
    }
  }

  /** Every record of the harvest passed every filter and the expiry gate. */
  lemma HarvestAdmissible(cfg: Config, cs: seq<Country>, openssl: string -> Reading, now: int)
    requires KnownStatuses(cfg)
    ensures forall r :: r in HarvestRoots(cfg, Step(cfg, openssl, now), cs) ==> Admissible(cfg, cs, now, r)
  {
    StepIsSound(cfg, openssl, now);
    WalkAdmissible(cfg, Step(cfg, openssl, now), cs, now);
  }

  // ----- completeness: every qualifying service is recorded -----

  lemma {:induction false} ServiceRootsComplete(rootOf: RootOf, countryName: string, svcs: seq<Service>, j: nat)
    requires j < |svcs| && rootOf(countryName, svcs[j]).Some?
    ensures rootOf(countryName, svcs[j]).value in ServiceRoots(rootOf, countryName, svcs)
    decreases |svcs|
  {
    if j < |svcs| - 1 {
      assert svcs[..|svcs| - 1][j] == svcs[j];
      ServiceRootsComplete(rootOf, countryName, svcs[..|svcs| - 1], j);
    }
  }

  lemma {:induction false} ProviderRootsComplete(cfg: Config, rootOf: RootOf, countryName: string, ps: seq<Provider>, k: nat, j: nat)
    requires k < |ps| && ProviderKept(cfg, ps[k])
    requires j < |ps[k].services| && rootOf(countryName, ps[k].services[j]).Some?
    ensures rootOf(countryName, ps[k].services[j]).value in ProviderRoots(cfg, rootOf, countryName, ps)
    decreases |ps|
  {
    if k < |ps| - 1 {
      assert ps[..|ps| - 1][k] == ps[k];
      ProviderRootsComplete(cfg, rootOf, countryName, ps[..|ps| - 1], k, j);
    } else {
      ServiceRootsComplete(rootOf, countryName, ps[k].services, j);
    }
  }

  lemma {:induction false} WalkComplete(cfg: Config, rootOf: RootOf, cs: seq<Country>, i: nat, k: nat, j: nat)
    requires i < |cs| && CountryKept(cfg, cs[i]) && cs[i].providers.Some?
    requires k < |cs[i].providers.value| && ProviderKept(cfg, cs[i].providers.value[k])
    requires j < |cs[i].providers.value[k].services| && rootOf(cs[i].name, cs[i].providers.value[k].services[j]).Some?
    ensures rootOf(cs[i].name, cs[i].providers.value[k].services[j]).value in HarvestRoots(cfg, rootOf, cs)
    decreases |cs|
  {
    if i < |cs| - 1 {
      assert cs[..|cs| - 1][i] == cs[i];
      WalkComplete(cfg, rootOf, cs[..|cs| - 1], i, k, j);
    } else {
      ProviderRootsComplete(cfg, rootOf, cs[i].name, cs[i].providers.value, k, j);
    }
  }

  /** A service of a kept provider in a kept country that passes every test is recorded. */
  lemma HarvestComplete(cfg: Config, cs: seq<Country>, i: nat, k: nat, j: nat, openssl: string -> Reading, now: int)
    requires KnownStatuses(cfg)
    requires i < |cs| && CountryKept(cfg, cs[i]) && cs[i].providers.Some?
    requires k < |cs[i].providers.value| && ProviderKept(cfg, cs[i].providers.value[k])
    requires j < |cs[i].providers.value[k].services| && Recorded(cfg, cs[i].providers.value[k].services[j], openssl, now)
    ensures ServiceRoot(cfg, cs[i].name, cs[i].providers.value[k].services[j], openssl, now).value
      in HarvestRoots(cfg, Step(cfg, openssl, now), cs)
  {
    WalkComplete(cfg, Step(cfg, openssl, now), cs, i, k, j);
  }

  // ----- exactness: the records are those of the qualifying services -----

  /** Service `j` of provider `k` of country `i` exists in `cs`. */
  predicate Position(cs: seq<Country>, i: int, k: int, j: int) {
    && 0 <= i < |cs| && cs[i].providers.Some?
    && 0 <= k < |cs[i].providers.value|
    && 0 <= j < |cs[i].providers.value[k].services|
  }

  function ServiceAt(cs: seq<Country>, i: int, k: int, j: int): Service
    requires Position(cs, i, k, j)
  {
    cs[i].providers.value[k].services[j]
  }

  /** `r` is what `rootOf` yields for service `j` of provider `k` of country `i`, both kept by their filters. */
  predicate From(cfg: Config, rootOf: RootOf, cs: seq<Country>, i: int, k: int, j: int, r: Root) {
    && Position(cs, i, k, j)
    && CountryKept(cfg, cs[i]) && ProviderKept(cfg, cs[i].providers.value[k])
    && rootOf(cs[i].name, ServiceAt(cs, i, k, j)) == Some(r)
  }

  lemma {:induction false} ServiceRootsOrigin(rootOf: RootOf, countryName: string, svcs: seq<Service>, r: Root)
    requires r in ServiceRoots(rootOf, countryName, svcs)
    ensures exists j :: 0 <= j < |svcs| && rootOf(countryName, svcs[j]) == Some(r)
    decreases |svcs|
  {
    var init := svcs[..|svcs| - 1];
    if r in ServiceRoots(rootOf, countryName, init) {
      ServiceRootsOrigin(rootOf, countryName, init, r);
      var j :| 0 <= j < |init| && rootOf(countryName, init[j]) == Some(r);
      assert svcs[j] == init[j];
    } else {
      assert rootOf(countryName, svcs[|svcs| - 1]) == Some(r);
    }
  }

  /** `r` is what `rootOf` yields for service `j` of provider `k` in `ps`, a kept provider. */
  predicate ProviderFrom(cfg: Config, rootOf: RootOf, countryName: string, ps: seq<Provider>, k: int, j: int, r: Root) {
    && 0 <= k < |ps| && ProviderKept(cfg, ps[k])
    && 0 <= j < |ps[k].services|
    && rootOf(countryName, ps[k].services[j]) == Some(r)
  }

  lemma ProviderRootsSplit(cfg: Config, rootOf: RootOf, countryName: string, ps: seq<Provider>, r: Root)
    requires |ps| > 0 && r in ProviderRoots(cfg, rootOf, countryName, ps)
    ensures || r in ProviderRoots(cfg, rootOf, countryName, ps[..|ps| - 1])
            || (ProviderKept(cfg, ps[|ps| - 1]) && r in ServiceRoots(rootOf, countryName, ps[|ps| - 1].services))
  {
  }

  lemma {:induction false} ProviderRootsOrigin(cfg: Config, rootOf: RootOf, countryName: string, ps: seq<Provider>, r: Root)
    requires r in ProviderRoots(cfg, rootOf, countryName, ps)
    ensures exists k, j :: ProviderFrom(cfg, rootOf, countryName, ps, k, j, r)
    decreases |ps|
  {
    var init := ps[..|ps| - 1];
    ProviderRootsSplit(cfg, rootOf, countryName, ps, r);
    if r in ProviderRoots(cfg, rootOf, countryName, init) {
      ProviderRootsOrigin(cfg, rootOf, countryName, init, r);
      var k, j :| ProviderFrom(cfg, rootOf, countryName, init, k, j, r);
      assert ps[k] == init[k];
      assert ProviderFrom(cfg, rootOf, countryName, ps, k, j, r);
    } else {
      var k := |ps| - 1;
      ServiceRootsOrigin(rootOf, countryName, ps[k].services, r);
      var j :| 0 <= j < |ps[k].services| && rootOf(countryName, ps[k].services[j]) == Some(r);
      assert ProviderFrom(cfg, rootOf, countryName, ps, k, j, r);
    }
  }

  lemma HarvestRootsSplit(cfg: Config, rootOf: RootOf, cs: seq<Country>, r: Root)
    requires |cs| > 0 && r in HarvestRoots(cfg, rootOf, cs)
    ensures || r in HarvestRoots(cfg, rootOf, cs[..|cs| - 1])
            || (&& CountryKept(cfg, cs[|cs| - 1]) && cs[|cs| - 1].providers.Some?
                && r in ProviderRoots(cfg, rootOf, cs[|cs| - 1].name, cs[|cs| - 1].providers.value))
  {
  }

  lemma FromPrefix(cfg: Config, rootOf: RootOf, cs: seq<Country>, n: nat, i: int, k: int, j: int, r: Root)
    requires n <= |cs| && From(cfg, rootOf, cs[..n], i, k, j, r)
    ensures From(cfg, rootOf, cs, i, k, j, r)
  {
    assert cs[i] == cs[..n][i];
  }

  /** Every record of the walk comes from a service of a kept provider in a kept country. */
  lemma {:induction false} WalkOrigin(cfg: Config, rootOf: RootOf, cs: seq<Country>, r: Root)
    requires r in HarvestRoots(cfg, rootOf, cs)
    ensures exists i, k, j :: From(cfg, rootOf, cs, i, k, j, r)
    decreases |cs|
  {
    var init := cs[..|cs| - 1];
    HarvestRootsSplit(cfg, rootOf, cs, r);
    if r in HarvestRoots(cfg, rootOf, init) {
      WalkOrigin(cfg, rootOf, init, r);
      var i, k, j :| From(cfg, rootOf, init, i, k, j, r);
      FromPrefix(cfg, rootOf, cs, |cs| - 1, i, k, j, r);
    } else {
      var i := |cs| - 1;
      assert CountryKept(cfg, cs[i]) && cs[i].providers.Some?;
      var ps := cs[i].providers.value;
      ProviderRootsOrigin(cfg, rootOf, cs[i].name, ps, r);
      var k, j :| ProviderFrom(cfg, rootOf, cs[i].name, ps, k, j, r);
      assert Position(cs, i, k, j);
      assert ServiceAt(cs, i, k, j) == ps[k].services[j];
      assert From(cfg, rootOf, cs, i, k, j, r);
    }
  }

  /** `r` is the record of service `j` of provider `k` of country `i`, which passed every filter and the expiry gate. */
  predicate RecordedAt(cfg: Config, cs: seq<Country>, openssl: string -> Reading, now: int, i: int, k: int, j: int, r: Root)
    requires KnownStatuses(cfg)
  {
    && Position(cs, i, k, j)
    && CountryKept(cfg, cs[i]) && ProviderKept(cfg, cs[i].providers.value[k])
    && Recorded(cfg, ServiceAt(cs, i, k, j), openssl, now)
    && ServiceRoot(cfg, cs[i].name, ServiceAt(cs, i, k, j), openssl, now) == Some(r)
  }

  /**
    The harvest holds exactly the records of the services that passed the
    country, provider, type, status and capability filters and the expiry gate.
   */
  lemma HarvestExactly(cfg: Config, cs: seq<Country>, openssl: string -> Reading, now: int, r: Root)
    requires KnownStatuses(cfg)
    ensures r in HarvestRoots(cfg, Step(cfg, openssl, now), cs) <==>
      exists i, k, j :: RecordedAt(cfg, cs, openssl, now, i, k, j, r)
  {
    var f := Step(cfg, openssl, now);
    if r in HarvestRoots(cfg, f, cs) {
      WalkOrigin(cfg, f, cs, r);
      var i, k, j :| From(cfg, f, cs, i, k, j, r);
      assert RecordedAt(cfg, cs, openssl, now, i, k, j, r);
    }
    if exists i, k, j :: RecordedAt(cfg, cs, openssl, now, i, k, j, r) {
      var i, k, j :| RecordedAt(cfg, cs, openssl, now, i, k, j, r);
      WalkComplete(cfg, f, cs, i, k, j);
    }
  }

  // ----- the walk with its file numbering -----

  /** `$rootCount` at index.php:229-231: the k-th record (from 1) is written to the file numbered k. */
  predicate Numbered(roots: seq<Root>, files: seq<string>) {
    |files| == |roots| && forall k :: 0 <= k < |roots| ==> files[k] == CerFileName(k + 1, roots[k].commonName)
  }

  /** Numbering keeps every `.cer` file apart. */
  lemma NumberedDistinct(roots: seq<Root>, files: seq<string>)
    requires Numbered(roots, files)
    ensures forall a, b :: 0 <= a < b < |files| ==> files[a] != files[b]
  {
    forall a, b | 0 <= a < b < |files| ensures files[a] != files[b] {
      CerFileNamesDistinct(a + 1, b + 1, roots[a].commonName, roots[b].commonName);
    }
  }

  lemma NumberedAppend(roots: seq<Root>, files: seq<string>, r: Root)
    requires Numbered(roots, files)
    ensures Numbered(roots + [r], files + [CerFileName(|roots| + 1, r.commonName)])
  {
  }

  lemma ServiceRootsStep(rootOf: RootOf, countryName: string, svcs: seq<Service>, i: nat)
    requires i < |svcs|
    ensures ServiceRoots(rootOf, countryName, svcs[..i + 1])
      == ServiceRoots(rootOf, countryName, svcs[..i]) + Opt(rootOf(countryName, svcs[i]))
  {
    assert svcs[..i + 1][..i] == svcs[..i];
  }

  lemma ProviderRootsStep(cfg: Config, rootOf: RootOf, countryName: string, ps: seq<Provider>, i: nat)
    requires i < |ps|
    ensures ProviderRoots(cfg, rootOf, countryName, ps[..i + 1])
      == ProviderRoots(cfg, rootOf, countryName, ps[..i])
         + (if ProviderKept(cfg, ps[i]) then ServiceRoots(rootOf, countryName, ps[i].services) else [])
  {
    assert ps[..i + 1][..i] == ps[..i];
  }

  lemma AppendAssoc(a: seq<Root>, b: seq<Root>, c: seq<Root>)
    ensures a + b + c == a + (b + c)
  {
  }

  /** Appending a record (index.php:228) and naming its file after the new count (index.php:229-231). */
  method Record(roots0: seq<Root>, files0: seq<string>, r: Option<Root>) returns (roots: seq<Root>, files: seq<string>)
    requires Numbered(roots0, files0)
    ensures roots == roots0 + Opt(r)
    ensures Numbered(roots, files)
  {
    roots, files := roots0, files0;
    if r.Some? {
      NumberedAppend(roots, files, r.value);
      roots := roots + [r.value];
      var rootCount := |roots|;
      files := files + [CerFileName(rootCount, r.value.commonName)];
    }
  }

  method CollectServices(rootOf: RootOf, countryName: string, svcs: seq<Service>,
                         roots0: seq<Root>, files0: seq<string>) returns (roots: seq<Root>, files: seq<string>)
    requires Numbered(roots0, files0)
    ensures roots == roots0 + ServiceRoots(rootOf, countryName, svcs)
    ensures Numbered(roots, files)
  {
    roots, files := roots0, files0;
    for i := 0 to |svcs|
      invariant roots == roots0 + ServiceRoots(rootOf, countryName, svcs[..i])
      invariant Numbered(roots, files)
    {
      ServiceRootsStep(rootOf, countryName, svcs, i);
      var before := ServiceRoots(rootOf, countryName, svcs[..i]);
      var r := rootOf(countryName, svcs[i]);
      roots, files := Record(roots, files, r);
      AppendAssoc(roots0, before, Opt(r));
    }
    assert svcs[..|svcs|] == svcs;
  }

  /** One provider of the loop at index.php:103-106: skipped when filtered out, otherwise its services are visited. */
  method VisitProvider(cfg: Config, rootOf: RootOf, countryName: string, p: Provider,
                       roots0: seq<Root>, files0: seq<string>) returns (roots: seq<Root>, files: seq<string>)
    requires Numbered(roots0, files0)
    ensures roots == roots0 + (if ProviderKept(cfg, p) then ServiceRoots(rootOf, countryName, p.services) else [])
    ensures Numbered(roots, files)
  {
    if !ProviderKept(cfg, p) {
      assert roots0 + [] == roots0;
      return roots0, files0;
    }
    roots, files := CollectServices(rootOf, countryName, p.services, roots0, files0);
  }

  method CollectProviders(cfg: Config, rootOf: RootOf, countryName: string, ps: seq<Provider>,
                          roots0: seq<Root>, files0: seq<string>) returns (roots: seq<Root>, files: seq<string>)
    requires Numbered(roots0, files0)
    ensures roots == roots0 + ProviderRoots(cfg, rootOf, countryName, ps)
    ensures Numbered(roots, files)
  {
    roots, files := roots0, files0;
    for i := 0 to |ps|
      invariant roots == roots0 + ProviderRoots(cfg, rootOf, countryName, ps[..i])
      invariant Numbered(roots, files)
    {
      ProviderRootsStep(cfg, rootOf, countryName, ps, i);
      var before := ProviderRoots(cfg, rootOf, countryName, ps[..i]);
      var added := if ProviderKept(cfg, ps[i]) then ServiceRoots(rootOf, countryName, ps[i].services) else [];
      roots, files := VisitProvider(cfg, rootOf, countryName, ps[i], roots, files);
      AppendAssoc(roots0, before, added);
    }
    assert ps[..|ps|] == ps;
  }

  method Walk(cfg: Config, rootOf: RootOf, cs: seq<Country>) returns (roots: seq<Root>, files: seq<string>)
    ensures roots == HarvestRoots(cfg, rootOf, cs)
    ensures Numbered(roots, files)
  {
    roots, files := [], [];
    for i := 0 to |cs|
      invariant roots == HarvestRoots(cfg, rootOf, cs[..i])
      invariant Numbered(roots, files)
    {
      assert cs[..i + 1][..i] == cs[..i];
      if !CountryKept(cfg, cs[i]) || cs[i].providers.None? {
        assert roots + [] == roots;
        continue;
      }
      roots, files := CollectProviders(cfg, rootOf, cs[i].name, cs[i].providers.value, roots, files);
    }
    assert cs[..|cs|] == cs;
  }

  /**
    index.php:237-241: once the record numbered `rootCount` is written,
    `downloadRoot` is called with the issuer file name and OpenSSL's rendering
    of the authority information access extension, when the certificate has it.
   */
  function IssuerJob(rootCount: nat, r: Root, openssl: string -> Reading): (job: Option<(string, string)>)
    ensures job.Some? <==> (var x := openssl(Armour(r.certificateContent)).parsed; x.Some? && x.value.aia.Some?)
    ensures job.Some? ==> job.value.0 == RootFileName(rootCount, r.commonName)
    ensures job.Some? ==> job.value.1 == openssl(Armour(r.certificateContent)).parsed.value.aia.value
  {
    match openssl(Armour(r.certificateContent)).parsed
    case Some(x) => if x.aia.Some? then Some((RootFileName(rootCount, r.commonName), x.aia.value)) else None
    case None => None
  }

  /** The download each record triggers, in record order. */
  function IssuerJobs(roots: seq<Root>, openssl: string -> Reading): (jobs: seq<Option<(string, string)>>)
    ensures |jobs| == |roots| && forall k :: 0 <= k < |roots| ==> jobs[k] == IssuerJob(k + 1, roots[k], openssl)
  {
    seq(|roots|, k requires 0 <= k < |roots| => IssuerJob(k + 1, roots[k], openssl))
  }

  /** No issuer file overwrites a `.cer` file, and no two records share an issuer file. */
  lemma IssuerFilesApart(roots: seq<Root>, files: seq<string>, jobs: seq<Option<(string, string)>>)
    requires Numbered(roots, files) && |jobs| == |roots|
    requires forall k :: 0 <= k < |jobs| && jobs[k].Some? ==> jobs[k].value.0 == RootFileName(k + 1, roots[k].commonName)
    ensures forall k, m :: 0 <= k < |jobs| && 0 <= m < |files| && jobs[k].Some? ==> jobs[k].value.0 != files[m]
    ensures forall a, b :: 0 <= a < b < |jobs| && jobs[a].Some? && jobs[b].Some? ==> jobs[a].value.0 != jobs[b].value.0
  {
    forall k, m | 0 <= k < |jobs| && 0 <= m < |files| && jobs[k].Some? ensures jobs[k].value.0 != files[m] {
      RootFileApart(k + 1, roots[k].commonName, m + 1, roots[m].commonName);
    }
    forall a, b | 0 <= a < b < |jobs| && jobs[a].Some? && jobs[b].Some? ensures jobs[a].value.0 != jobs[b].value.0 {
      RootFileNamesDistinct(a + 1, b + 1, roots[a].commonName, roots[b].commonName);
    }
  }

  /**
    The walk at index.php:58-253 on extracted records: the records in the
    order they are appended, the name of the `.cer` file each one gets, and
    the issuer download each one triggers, if any.
   */
  method Harvest(cfg: Config, cs: seq<Country>, openssl: string -> Reading, now: int)
    returns (roots: seq<Root>, files: seq<string>, jobs: seq<Option<(string, string)>>)
    requires KnownStatuses(cfg)
    ensures roots == HarvestRoots(cfg, Step(cfg, openssl, now), cs)
    ensures forall r :: r in roots <==> exists i, k, j :: RecordedAt(cfg, cs, openssl, now, i, k, j, r)
    ensures Numbered(roots, files)
    ensures forall r :: r in roots ==> Admissible(cfg, cs, now, r)
    ensures jobs == IssuerJobs(roots, openssl)
    ensures forall k, m :: 0 <= k < |jobs| && 0 <= m < |files| && jobs[k].Some? ==> jobs[k].value.0 != files[m]
    ensures forall a, b :: 0 <= a < b < |jobs| && jobs[a].Some? && jobs[b].Some? ==> jobs[a].value.0 != jobs[b].value.0
  {
    roots, files := Walk(cfg, Step(cfg, openssl, now), cs);
    HarvestAdmissible(cfg, cs, openssl, now);
    forall r | true
      ensures r in roots <==> exists i, k, j :: RecordedAt(cfg, cs, openssl, now, i, k, j, r)
    {
      HarvestExactly(cfg, cs, openssl, now, r);
    }
    jobs := IssuerJobs(roots, openssl);
    IssuerFilesApart(roots, files, jobs);
  }
}
