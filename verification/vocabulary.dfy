/**
  The fixed vocabularies of ETSI TS 119 612: service-type identifiers
  (clause 5.5.1) and service-status identifiers (clause 5.5.4), each with the
  label the harvester prints, plus the two small rules that name the public-key
  and signature algorithms of a certificate.
 */
module Vocabulary {
  import opened Wrappers
  import opened PhpStrings

  /** An ordered lookup table, as written in a PHP array literal. */
  type Table = seq<(string, string)>

  predicate DistinctKeys(t: Table) {
    forall i, j :: 0 <= i < j < |t| ==> t[i].0 != t[j].0
  }

  predicate HasKey(t: Table, k: string) {
    exists i :: 0 <= i < |t| && t[i].0 == k
  }

  /** The value stored under `k`, if any. */
  function Lookup(t: Table, k: string): (r: Option<string>)
    ensures r.None? <==> !HasKey(t, k)
    ensures r.Some? ==> exists i :: 0 <= i < |t| && t[i] == (k, r.value)
  {
    if |t| == 0 then None
    else if t[0].0 == k then Some(t[0].1)
    else
      var r := Lookup(t[1..], k);
      assert forall i :: 0 < i < |t| ==> t[i] == t[1..][i - 1];
      assert HasKey(t[1..], k) ==> HasKey(t, k);
      r
  }

  /** With distinct keys, the entry at any index is what a lookup of its key finds. */
  lemma {:induction false} LookupAtIndex(t: Table, i: int)
    requires DistinctKeys(t)
    requires 0 <= i < |t|
    ensures Lookup(t, t[i].0) == Some(t[i].1)
    decreases |t|
  {
    if i > 0 {
      assert t[0].0 != t[i].0;
      LookupAtIndex(t[1..], i - 1);
    }
  }

  /** The URI prefixes the tables share, as the source spells them (one entry uses "TrstSvd"). */
  const SvcType := "http://uri.etsi.org/TrstSvc/Svctype/"
  const SvcTypeTls := "https://uri.etsi.org/TrstSvc/Svctype/"
  const SvdType := "http://uri.etsi.org/TrstSvd/Svctype/"
  const SvcStatus := "http://uri.etsi.org/TrstSvc/TrustedList/Svcstatus/"

  const TypeTable: Table := [
    (SvcType + "CA/QC", "qualified certificate issuing trust service"),
    (SvcType + "TSA/QTST", "qualified electronic time stamp generation service"),
    (SvcType + "TSA", "time-stamping generation service, not qualified"),
    (SvcType + "EDS/Q", "qualified electronic delivery service"),
    (SvcTypeTls + "CA/PKC/", "certificate generation service, not qualified"),
    (SvcType + "CA/PKC", "certificate generation service, not qualified"),
    (SvcType + "Certstatus/OCSP/QC", "qualified OCSP responder"),
    (SvcType + "QESValidation/Q", "qualified validation service for qualified electronic signatures and/or qualified electronic seals"),
    (SvcType + "Certstatus/OCSP", "certificate validity status service, not qualified"),
    (SvcType + "PSES/Q", "qualified preservation service for qualified electronic signatures and/or qualified electronic seals"),
    (SvcType + "NationalRootCA-QC", "national root signing CA"),
    (SvdType + "TLIssuer", "service issuing trusted lists"),
    (SvcType + "EDS/REM/Q", "qualified electronic registered mail delivery service"),
    (SvcType + "TSA/TSS-QC", "time-stamping service, not qualified"),
    (SvcType + "IdV", "identity verification service"),
    (SvcType + "TSA/TSS-AdESQCandQES", "time-stamping service, not qualified"),
    (SvcTypeTls + "ACA/", "attribute certificate generation service"),
    (SvcType + "ACA", "attribute certificate generation service"),
    (SvcType + "unspecified", "trust service of an unspecified type"),
    (SvcType + "RA", "registration service"),
    (SvcType + "SignaturePolicyAuthority", "service responsible for issuing, publishing or maintenance of signature policies"),
    (SvcTypeTls + "IdV/nothavingPKIid/", "Identity verification service that cannot be identified by a specific PKI-based public key.")
  ]

  const StatusTable: Table := [
    (SvcStatus + "withdrawn", "withdrawn"),
    (SvcStatus + "granted", "granted"),
    (SvcStatus + "deprecatedatnationallevel", "deprecated at national level"),
    (SvcStatus + "recognisedatnationallevel", "recognized at national level")
  ]

  /** `translateType`: the label of a known service type, otherwise the URI itself; never fails. */
  function TranslateType(uri: string): (r: string)
    ensures HasKey(TypeTable, uri) ==> exists i :: 0 <= i < |TypeTable| && TypeTable[i] == (uri, r)
    ensures !HasKey(TypeTable, uri) ==> r == uri
  {
    match Lookup(TypeTable, uri)
    case Some(name) => name
    case None => uri
  }

  predicate IsKnownStatus(uri: string) {
    HasKey(StatusTable, uri)
  }

  /**
    `translateState`: the label of one of the four status URIs. The source
    indexes its array without a guard, so an unknown URI is a caller error.
   */
  function TranslateState(uri: string): (r: string)
    requires IsKnownStatus(uri)
    ensures exists i :: 0 <= i < |StatusTable| && StatusTable[i] == (uri, r)
  {
    Lookup(StatusTable, uri).value
  }

  const RsaSuffix := "WithRSAEncryption"

  /**
    `translateAlgorithm`: an algorithm name ending in "WithRSAEncryption" is
    shown as "RSA-" and the key size; any other name is shown as it is.
   */
  function TranslateAlgorithm(algo: string, bits: int): (r: string)
    ensures EndsWith(algo, RsaSuffix) ==> r == "RSA-" + IntToDecimal(bits)
    ensures !EndsWith(algo, RsaSuffix) ==> r == algo
  {
    SubstrTailIsEndsWith(algo, RsaSuffix);
    if SubstrTail(algo, 17) == RsaSuffix then "RSA-" + IntToDecimal(bits) else algo
  }

  /** `translateSig`: two OpenSSL short names get a digest label; anything else is returned untouched. */
  function TranslateSig(algo: string): (r: string)
    ensures Trim(algo) == "RSA-SHA256" ==> r == "SHA-256"
    ensures Trim(algo) == "RSA-SHA1" ==> r == "SHA-1"
    ensures Trim(algo) != "RSA-SHA256" && Trim(algo) != "RSA-SHA1" ==> r == algo
  {
    if Trim(algo) == "RSA-SHA256" then "SHA-256"
    else if Trim(algo) == "RSA-SHA1" then "SHA-1"
    else algo
  }

  /** The lengths of the type URIs, which tell most of them apart. */
  lemma TypeTableLengthsA()
    ensures |TypeTable| == 22
    ensures |TypeTable[0].0| == 41
    ensures |TypeTable[1].0| == 44
    ensures |TypeTable[2].0| == 39
    ensures |TypeTable[3].0| == 41
    ensures |TypeTable[4].0| == 44
    ensures |TypeTable[5].0| == 42
  {
  }

  lemma TypeTableLengthsB()
    ensures |TypeTable| == 22
    ensures |TypeTable[6].0| == 54
    ensures |TypeTable[7].0| == 51
    ensures |TypeTable[8].0| == 51
    ensures |TypeTable[9].0| == 42
    ensures |TypeTable[10].0| == 53
  {
  }

  lemma TypeTableLengthsC()
    ensures |TypeTable| == 22
    ensures |TypeTable[11].0| == 44
    ensures |TypeTable[12].0| == 45
    ensures |TypeTable[13].0| == 46
    ensures |TypeTable[14].0| == 39
    ensures |TypeTable[15].0| == 56
    ensures |TypeTable[16].0| == 41
    ensures |TypeTable[17].0| == 39
    ensures |TypeTable[18].0| == 47
    ensures |TypeTable[19].0| == 38
    ensures |TypeTable[20].0| == 60
    ensures |TypeTable[21].0| == 56
  {
  }

  /** Keys from the first half of the table differ from every later key. */
  lemma TypeTableDistinctHead()
    ensures |TypeTable| == 22
    ensures forall i, j :: 0 <= i < 11 && i < j < 22 ==> TypeTable[i].0 != TypeTable[j].0
  {
    TypeTableLengthsA();
    TypeTableLengthsB();
    TypeTableLengthsC();
    assert TypeTable[0].0[36] != TypeTable[3].0[36];
    assert TypeTable[0].0[4] != TypeTable[16].0[4];
    assert TypeTable[3].0[4] != TypeTable[16].0[4];
    assert TypeTable[1].0[4] != TypeTable[4].0[4];
    assert TypeTable[1].0[26] != TypeTable[11].0[26];
    assert TypeTable[4].0[4] != TypeTable[11].0[4];
    assert TypeTable[2].0[36] != TypeTable[14].0[36];
    assert TypeTable[2].0[36] != TypeTable[17].0[36];
    assert TypeTable[5].0[36] != TypeTable[9].0[36];
    assert TypeTable[7].0[36] != TypeTable[8].0[36];
  }

  lemma TypeTableDistinctTail()
    ensures |TypeTable| == 22
    ensures forall i, j :: 11 <= i < j < 22 ==> TypeTable[i].0 != TypeTable[j].0
  {
    TypeTableLengthsA();
    TypeTableLengthsB();
    TypeTableLengthsC();
    assert TypeTable[14].0[36] != TypeTable[17].0[36];
    assert TypeTable[15].0[4] != TypeTable[21].0[4];
  }

  /** The 22 type URIs are distinct: most differ in length, the others in one character. */
  lemma TypeTableDistinct()
    ensures |TypeTable| == 22
    ensures DistinctKeys(TypeTable)
  {
    TypeTableDistinctHead();
    TypeTableDistinctTail();
  }

  /** Every type URI of the table finds its own label. */
  lemma TypeTableLabels(i: int)
    requires 0 <= i < |TypeTable|
    ensures TranslateType(TypeTable[i].0) == TypeTable[i].1
  {
    TypeTableDistinct();
    LookupAtIndex(TypeTable, i);
  }

  /** Each status URI finds its own label, and different statuses get different labels. */
  lemma TranslateStateInjective(a: string, b: string)
    requires IsKnownStatus(a) && IsKnownStatus(b)
    ensures TranslateState(a) == TranslateState(b) <==> a == b
  {
    var la, lb := TranslateState(a), TranslateState(b);
    var i :| 0 <= i < |StatusTable| && StatusTable[i] == (a, la);
    var j :| 0 <= j < |StatusTable| && StatusTable[j] == (b, lb);
    assert StatusTable[2].1[0] != StatusTable[3].1[0];
    assert StatusTable[2].0[50] != StatusTable[3].0[50];
    assert i != j ==> StatusTable[i].1 != StatusTable[j].1 && StatusTable[i].0 != StatusTable[j].0;
  }

  /** A padded short name is recognised as the short name itself. */
  lemma TranslateSigPadded(left: string, name: string, right: string)
    requires AllTrimChars(left) && AllTrimChars(right)
    requires name == "RSA-SHA256" || name == "RSA-SHA1"
    ensures TranslateSig(left + name + right) == (if name == "RSA-SHA256" then "SHA-256" else "SHA-1")
  {
    assert Trimmed(name) by {
      if name == "RSA-SHA256" {
        assert name[0] == 'R' && name[|name| - 1] == '6';
      } else {
        assert name[0] == 'R' && name[|name| - 1] == '1';
      }
    }
    TrimPadded(left, name, right);
  }

  /** Leading and trailing blanks around a known short name do not defeat the match. */
  lemma TranslateSigIgnoresPadding(left: string, right: string)
    requires AllTrimChars(left) && AllTrimChars(right)
    ensures TranslateSig(left + "RSA-SHA256" + right) == "SHA-256"
    ensures TranslateSig(left + "RSA-SHA1" + right) == "SHA-1"
  {
    TranslateSigPadded(left, "RSA-SHA256", right);
    TranslateSigPadded(left, "RSA-SHA1", right);
  }

  /** The key size can be read back from an RSA label. */
  lemma RsaLabelCarriesBits(algo: string, bits: int)
    requires EndsWith(algo, RsaSuffix)
    ensures TranslateAlgorithm(algo, bits)[..4] == "RSA-"
    ensures ParseInt(TranslateAlgorithm(algo, bits)[4..]) == Some(bits)
  {
    var r := TranslateAlgorithm(algo, bits);
    assert r[4..] == IntToDecimal(bits);
    IntDecimalRoundTrip(bits);
  }

  lemma AlgorithmExamples()
    ensures TranslateAlgorithm("sha256WithRSAEncryption", 2048) == "RSA-2048"
    ensures TranslateAlgorithm("ecdsa-with-SHA256", 256) == "ecdsa-with-SHA256"
  {
    assert EndsWith("sha256WithRSAEncryption", RsaSuffix);
    assert NatToDecimal(2048) == "2048";
    assert !EndsWith("ecdsa-with-SHA256", RsaSuffix);
  }
}
