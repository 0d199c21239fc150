/**
  What the harvester derives from one service certificate once OpenSSL has
  read it: the algorithm labels with their "unknown" fallback, the common
  name with its fallback to the whole subject, the expiry gate, the record
  appended to the output, and the name of the `.cer` file.
  OpenSSL itself is not modelled: its answers arrive as an `X509` value.
 */
module Certificates {
  import opened Wrappers
  import opened PhpStrings
  import opened Vocabulary
  import opened SubjectText

  /** The fields of `openssl_x509_parse` the harvester reads; extensions as OpenSSL renders them, when present. */
  datatype X509 = X509(
    subject: Subject,
    validFrom: int, validTo: int,
    serialHex: string,
    signatureLN: Option<string>, signatureSN: Option<string>,
    crl: Option<string>, aia: Option<string>)

  const Unknown := "unknown"

  datatype Algorithms = Algorithms(pubKey: string, signature: string)

  /**
    index.php:176-187. `parsed` is what `openssl_x509_parse` returned and
    `keyBits` the key size when `openssl_pkey_get_public` succeeded. A failed
    parse reads as null fields, so it also ends in the "unknown" fallback.
   */
  function KeyAlgorithms(parsed: Option<X509>, keyBits: Option<int>): (r: Algorithms)
    ensures parsed.None? || keyBits.None? || parsed.value.signatureLN.None? || parsed.value.signatureSN.None?
      ==> r == Algorithms(Unknown, Unknown)
    ensures parsed.Some? && keyBits.Some? && parsed.value.signatureLN.Some? && parsed.value.signatureSN.Some? ==>
      var ln := parsed.value.signatureLN.value;
      && (EndsWith(ln, RsaSuffix) ==> r.pubKey == "RSA-" + IntToDecimal(keyBits.value))
      && (!EndsWith(ln, RsaSuffix) ==> r.pubKey == ln)
      && (Trim(parsed.value.signatureSN.value) == "RSA-SHA256" ==> r.signature == "SHA-256")
      && (Trim(parsed.value.signatureSN.value) == "RSA-SHA1" ==> r.signature == "SHA-1")
      && (Trim(parsed.value.signatureSN.value) != "RSA-SHA256" && Trim(parsed.value.signatureSN.value) != "RSA-SHA1"
          ==> r.signature == parsed.value.signatureSN.value)
  {
    if parsed.None? || keyBits.None? || parsed.value.signatureLN.None? || parsed.value.signatureSN.None? then
      Algorithms(Unknown, Unknown)
    else
      Algorithms(TranslateAlgorithm(parsed.value.signatureLN.value, keyBits.value),
                 TranslateSig(parsed.value.signatureSN.value))
  }

  /** With a readable key, the public-key label is the signature name itself or an "RSA-" label carrying the key size. */
  lemma PubKeyLabelKinds(cert: X509, bits: int)
    requires cert.signatureLN.Some? && cert.signatureSN.Some?
    ensures var p := KeyAlgorithms(Some(cert), Some(bits)).pubKey;
      p == cert.signatureLN.value || (p[..4] == "RSA-" && ParseInt(p[4..]) == Some(bits))
  {
    if EndsWith(cert.signatureLN.value, RsaSuffix) {
      RsaLabelCarriesBits(cert.signatureLN.value, bits);
    }
  }

  // ----- common name -----

  /** The first value stored under `key` in a subject. */
  function SubjectField(subject: Subject, key: string): (r: Option<SubjectValue>)
    ensures r.None? <==> forall i :: 0 <= i < |subject| ==> subject[i].0 != key
    ensures r.Some? ==> exists i :: 0 <= i < |subject| && subject[i] == (key, r.value) &&
                          forall m :: 0 <= m < i ==> subject[m].0 != key
  {
    if |subject| == 0 then None
    else if subject[0].0 == key then Some(subject[0].1)
    else
      var r := SubjectField(subject[1..], key);
      assert forall i :: 0 < i < |subject| ==> subject[i] == subject[1..][i - 1];
      if r.Some? then
        var i :| 0 <= i < |subject[1..]| && subject[1..][i] == (key, r.value) &&
          forall m :: 0 <= m < i ==> subject[1..][m].0 != key;
        assert subject[i + 1] == (key, r.value);
        r
      else r
  }

  /** index.php:199-202: the CN attribute when the subject has one, otherwise the whole subject joined. */
  function CommonName(subject: Subject): (r: SubjectValue)
    ensures (exists i :: 0 <= i < |subject| && subject[i].0 == "CN") ==>
      exists i :: 0 <= i < |subject| && subject[i] == ("CN", r)
    ensures (forall i :: 0 <= i < |subject| ==> subject[i].0 != "CN") ==> r == Single(JoinSubject(subject))
  {
    match SubjectField(subject, "CN")
    case Some(v) => v
    case None => Single(JoinSubject(subject))
  }

  lemma {:induction false} SubjectFieldFirst(before: Subject, key: string, v: SubjectValue, after: Subject)
    requires forall i :: 0 <= i < |before| ==> before[i].0 != key
    ensures SubjectField(before + [(key, v)] + after, key) == Some(v)
    decreases |before|
  {
    var s := before + [(key, v)] + after;
    if before == [] {
      assert s[0] == (key, v);
    } else {
      assert s[0].0 != key;
      assert s[1..] == before[1..] + [(key, v)] + after;
      SubjectFieldFirst(before[1..], key, v, after);
    }
  }

  /** Attributes around the first CN do not influence the common name. */
  lemma CommonNameIgnoresOthers(before: Subject, v: SubjectValue, after: Subject)
    requires forall i :: 0 <= i < |before| ==> before[i].0 != "CN"
    ensures CommonName(before + [("CN", v)] + after) == v
  {
    SubjectFieldFirst(before, "CN", v, after);
  }

  // ----- record -----

  /** Service-level facts the record copies: labels from the vocabularies, the country name and the service name. */
  datatype ServiceFacts = ServiceFacts(typeLabel: string, stateLabel: string, countryName: string, serviceName: string)

  /** The varying fields of the record built at index.php:205-227. */
  datatype Root = Root(
    group: string, country: string, title: string, commonName: SubjectValue,
    validFrom: int, validUntil: int,
    signatureAlgorithm: string, pubKeyAlgorithm: string,
    serialNumber: string, crl: string, certificateContent: string,
    description: string, state: string)

  /** The CRL column: the flattened distribution points, or empty when the extension is absent. */
  function CrlField(cert: X509): (r: string)
    ensures '\n' !in r
    ensures cert.crl.None? ==> r == ""
    ensures cert.crl.Some? ==> |r| <= |cert.crl.value|
  {
    if cert.crl.Some? then PatchCrl(cert.crl.value) else ""
  }

  /**
    When the extension names one URI per distribution point, the CRL column
    holds exactly those URIs, run together in order.
   */
  lemma CrlFieldUris(cert: X509, us: seq<string>)
    requires cert.crl == Some(CrlPoints(us))
    requires forall k :: 0 <= k < |us| ==> PlainUri(us[k])
    ensures CrlField(cert) == Concat(us)
  {
    PatchCrlPoints(us);
  }

  /**
    The expiry gate at index.php:204: a record exists only for a certificate
    whose end of validity lies strictly after `now`.
   */
  function MakeRoot(f: ServiceFacts, certificate: string, cert: X509, algos: Algorithms, now: int): (r: Option<Root>)
    ensures r.Some? <==> cert.validTo > now
    ensures r.Some? ==>
      && r.value.commonName == CommonName(cert.subject)
      && r.value.validFrom == cert.validFrom
      && r.value.validUntil == cert.validTo > now
      && r.value.crl == CrlField(cert)
      && r.value.serialNumber == cert.serialHex
      && r.value.signatureAlgorithm == algos.signature
      && r.value.pubKeyAlgorithm == algos.pubKey
      && r.value.certificateContent == certificate
      && r.value.title == r.value.description == f.serviceName
      && r.value.country == f.countryName
      && r.value.group == f.typeLabel && r.value.state == f.stateLabel
  {
    if cert.validTo > now then
      Some(Root(f.typeLabel, f.countryName, f.serviceName, CommonName(cert.subject),
                cert.validFrom, cert.validTo, algos.signature, algos.pubKey,
                cert.serialHex, CrlField(cert), certificate, f.serviceName, f.stateLabel))
    else None
  }

  /** A certificate that ends exactly now is already treated as expired. */
  lemma ExpiresAtNow(f: ServiceFacts, certificate: string, cert: X509, algos: Algorithms)
    ensures MakeRoot(f, certificate, cert, algos, cert.validTo).None?
    ensures MakeRoot(f, certificate, cert, algos, cert.validTo - 1).Some?
  {
  }

  // ----- file names -----

  /**
    `str_replace(['/'], '_', $subject)` as it ends up in a file name. An array
    subject comes back as an array, which PHP renders as "Array".
   */
  function Sanitise(cn: SubjectValue): (r: string)
    ensures '/' !in r
    ensures cn.Single? ==> |r| == |cn.s| && forall i :: 0 <= i < |r| && cn.s[i] != '/' ==> r[i] == cn.s[i]
    ensures cn.Single? ==> forall i :: 0 <= i < |r| && cn.s[i] == '/' ==> r[i] == '_'
    ensures cn.Multi? ==> r == "Array"
  {
    match cn
    case Single(s) => ReplaceChar(s, '/', '_')
    case Multi(_) => "Array"
  }

  /** `$rootCount . ' - ' . str_replace(['/'], '_', $subject) . $ending`, the shape of both file names. */
  function NumberedName(rootCount: nat, cn: SubjectValue, ending: string): (r: string)
    ensures '/' !in ending ==> '/' !in r
    ensures EndsWith(r, ending)
  {
    var r := IntToDecimal(rootCount) + " - " + Sanitise(cn) + ending;
    assert r[|r| - |ending|..] == ending;
    r
  }

  /** The `.cer` name at index.php:231, from the number of records so far and the common name. */
  function CerFileName(rootCount: nat, cn: SubjectValue): (r: string)
    ensures '/' !in r
    ensures EndsWith(r, ".cer")
  {
    NumberedName(rootCount, cn, ".cer")
  }

  /** The name given to the downloaded issuer certificate at index.php:240. */
  function RootFileName(rootCount: nat, cn: SubjectValue): (r: string)
    ensures '/' !in r
    ensures EndsWith(r, " ROOT.cer")
    ensures |r| == |CerFileName(rootCount, cn)| + 5
  {
    NumberedName(rootCount, cn, " ROOT.cer")
  }

  /** A subject without underscores can be read back from its sanitised form. */
  lemma SanitiseInvertible(s: string)
    requires '_' !in s
    ensures ReplaceChar(Sanitise(Single(s)), '_', '/') == s
  {
    ReplaceCharInvertible(s, '/', '_');
  }

  /** The record number can be read back from the start of a numbered name. */
  lemma NumberedNameCount(rootCount: nat, cn: SubjectValue, ending: string)
    ensures ' ' in NumberedName(rootCount, cn, ending)
    ensures var r := NumberedName(rootCount, cn, ending); ParseInt(r[..IndexOf(r, ' ')]) == Some(rootCount)
  {
    var d := IntToDecimal(rootCount);
    var rest := "- " + Sanitise(cn) + ending;
    var r := NumberedName(rootCount, cn, ending);
    assert d == NatToDecimal(rootCount);
    assert ' ' !in d by {
      forall i | 0 <= i < |d| ensures d[i] != ' ' {
        assert '0' <= d[i] <= '9';
      }
    }
    assert r == d + [' '] + rest;
    IndexOfAfter(d, ' ', rest);
    assert r[..|d|] == d;
    IntDecimalRoundTrip(rootCount);
  }

  /** The record number can be read back from the file name, so two records never share a `.cer` file. */
  lemma CerFileNameCount(rootCount: nat, cn: SubjectValue)
    ensures ' ' in CerFileName(rootCount, cn)
    ensures var r := CerFileName(rootCount, cn); ParseInt(r[..IndexOf(r, ' ')]) == Some(rootCount)
  {
    NumberedNameCount(rootCount, cn, ".cer");
  }

  lemma CerFileNamesDistinct(a: nat, b: nat, ca: SubjectValue, cb: SubjectValue)
    requires a != b
    ensures CerFileName(a, ca) != CerFileName(b, cb)
  {
    CerFileNameCount(a, ca);
    CerFileNameCount(b, cb);
  }

  /**
    The issuer file of a record never overwrites a `.cer` file: not that of
    another record, whose number differs, nor its own, which is shorter.
   */
  lemma RootFileApart(a: nat, ca: SubjectValue, b: nat, cb: SubjectValue)
    requires a != b || ca == cb
    ensures RootFileName(a, ca) != CerFileName(b, cb)
  {
    if a != b {
      NumberedNameCount(a, ca, " ROOT.cer");
      NumberedNameCount(b, cb, ".cer");
    }
  }

  /** Two records never share an issuer file. */
  lemma RootFileNamesDistinct(a: nat, b: nat, ca: SubjectValue, cb: SubjectValue)
    requires a != b
    ensures RootFileName(a, ca) != RootFileName(b, cb)
  {
    NumberedNameCount(a, ca, " ROOT.cer");
    NumberedNameCount(b, cb, " ROOT.cer");
  }
}
