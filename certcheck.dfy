/** The `/certcheck` command (src/commands/certcheck.js): everything it does
    with a `.p12` container after node-forge has decoded it. */
module CertCheck {
  import opened Wrappers
  import opened Text
  import opened Certificate

  /** A certificate bag; forge leaves `cert` null when it cannot read the
      certificate. */
  datatype CertBag = CertBag(cert: Option<Cert>)

  /** A shrouded-key bag; `hasKey` says whether its `key` is set. */
  datatype KeyBag = KeyBag(hasKey: bool)

  /** The bags of a decoded PKCS#12 container, in container order. */
  datatype Pkcs12 = Pkcs12(certBags: seq<CertBag>, keyBags: seq<KeyBag>)

  /** The object `analyzeCertificate` returns: the inspected fields, or
      `{ isValid: false, error }` when anything went wrong. Dates are kept as
      timestamps. */
  datatype CertInfo =
    | Inspected(
        isValid: bool,
        commonName: string,
        organization: string,
        email: string,
        serialNumber: string,
        validFrom: int,
        validUntil: int,
        daysRemaining: nat,
        hasPrivateKey: bool,
        issuerCommonName: string)
    | Failed(error: string)

  const NoCertificatesError: string := "No certificates found in P12 file"

  /** The TypeError Node raises when the first bag's certificate is null. */
  const NullLeafError: string := "Cannot read properties of null (reading 'subject')"

  /** `p12Attachment.name.endsWith('.p12')`, the only check on the upload. */
  predicate AcceptsUpload(name: string) {
    EndsWith(name, ".p12")
  }

  /** The subject scan: each of the three fields ends up holding the value of
      the last attribute of its name, or '' when there is none. */
  method ScanSubject(attrs: seq<Attribute>) returns (commonName: string, organization: string, email: string)
    ensures commonName == LastValue(attrs, "commonName")
    ensures organization == LastValue(attrs, "organizationName")
    ensures email == LastValue(attrs, "emailAddress")
  {
    commonName, organization, email := "", "", "";
    for i := 0 to |attrs|
      invariant commonName == LastValue(attrs[..i], "commonName")
      invariant organization == LastValue(attrs[..i], "organizationName")
      invariant email == LastValue(attrs[..i], "emailAddress")
    {
      assert attrs[..i + 1][..i] == attrs[..i];
      var attr := attrs[i];
      if attr.name == "commonName" {
        commonName := attr.value;
      } else if attr.name == "organizationName" {
        organization := attr.value;
      } else if attr.name == "emailAddress" {
        email := attr.value;
      }
    }
    assert attrs[..|attrs|] == attrs;
  }

  /** `analyzeCertificate` from the decoded container on: the leaf is the
      first certificate bag; every failure becomes a `Failed` value and
      nothing is thrown. */
  method AnalyzeCertificate(decoded: Result<Pkcs12, string>, now: int) returns (info: CertInfo)
    ensures decoded.Err? ==> info == Failed(decoded.error)
    ensures decoded.Ok? && decoded.value.certBags == [] ==> info == Failed(NoCertificatesError)
    ensures decoded.Ok? && decoded.value.certBags != [] && decoded.value.certBags[0].cert.None? ==>
      info == Failed(NullLeafError)
    ensures decoded.Ok? && decoded.value.certBags != [] && decoded.value.certBags[0].cert.Some? ==>
      var p12 := decoded.value;
      var leaf := p12.certBags[0].cert.value;
      && info.Inspected?
      && info.isValid == IsValidAt(leaf.notBefore, leaf.notAfter, now)
      && info.daysRemaining == ReportedDays(leaf.notAfter, now)
      && info.commonName == LastValue(leaf.subject.attributes, "commonName")
      && info.organization == LastValue(leaf.subject.attributes, "organizationName")
      && info.email == LastValue(leaf.subject.attributes, "emailAddress")
      && info.serialNumber == leaf.serialNumber
      && info.validFrom == leaf.notBefore && info.validUntil == leaf.notAfter
      && info.hasPrivateKey == (p12.keyBags != [] && p12.keyBags[0].hasKey)
      && info.issuerCommonName == CommonNameOf(leaf.issuer.attributes)
  {
    if decoded.Err? {
      return Failed(decoded.error);
    }
    var p12 := decoded.value;
    if |p12.certBags| == 0 {
      return Failed(NoCertificatesError);
    }
    var bag := p12.certBags[0];
    if bag.cert.None? {
      return Failed(NullLeafError);
    }
    var certificate := bag.cert.value;
    var hasPrivateKey := |p12.keyBags| > 0 && p12.keyBags[0].hasKey;
    var daysRemaining := (certificate.notAfter - now) / MsPerDay;
    var isValid := now >= certificate.notBefore && now <= certificate.notAfter;
    var commonName, organization, email := ScanSubject(certificate.subject.attributes);
    info := Inspected(
      isValid, commonName, organization, email, certificate.serialNumber,
      certificate.notBefore, certificate.notAfter,
      if daysRemaining > 0 then daysRemaining else 0,
      hasPrivateKey, CommonNameOf(certificate.issuer.attributes));
  }

  /** An expired certificate is invalid and reports 0 days, though the raw
      day count is negative; a not-yet-valid one is invalid whatever it
      reports; a valid one never reports more whole days than it has left,
      and reports 0 only in its last day. */
  lemma ValidityAndDays(notBefore: int, notAfter: int, now: int)
    ensures now > notAfter ==>
      !IsValidAt(notBefore, notAfter, now) && ReportedDays(notAfter, now) == 0
      && RawDaysRemaining(notAfter, now) < 0
    ensures now < notBefore ==> !IsValidAt(notBefore, notAfter, now)
    ensures IsValidAt(notBefore, notAfter, now) ==>
      ReportedDays(notAfter, now) * MsPerDay <= notAfter - now
      && (ReportedDays(notAfter, now) == 0 <==> notAfter - now < MsPerDay)
  {
  }

  /** A certificate that is not valid yet still reports the days to its
      expiry: validity and days remaining are independent. */
  lemma NotYetValidReportsDays(notBefore: int, notAfter: int, now: int)
    requires now < notBefore && notAfter - now >= MsPerDay
    ensures !IsValidAt(notBefore, notAfter, now)
    ensures ReportedDays(notAfter, now) > 0
    ensures ReportedDays(notAfter, now) == (notAfter - now) / MsPerDay
  {
  }

  /** Both ends of the window are inside it. */
  lemma WindowInclusive(notBefore: int, notAfter: int)
    requires notBefore <= notAfter
    ensures IsValidAt(notBefore, notAfter, notBefore) && IsValidAt(notBefore, notAfter, notAfter)
    ensures !IsValidAt(notBefore, notAfter, notBefore - 1) && !IsValidAt(notBefore, notAfter, notAfter + 1)
  {
  }

  /** The name check is a case-sensitive suffix test, whatever the name
      before the extension: `.P12` and `.p12.zip` are refused. */
  lemma UploadNameIsCaseSensitive(stem: string)
    ensures AcceptsUpload(stem + ".p12") && !AcceptsUpload(stem + ".P12")
    ensures !AcceptsUpload(stem + ".p12.zip")
  {
    EndsWithOther(stem, ".p12", ".P12");
    EndsWithOther(stem + ".p12", ".p12", ".zip");
    assert stem + ".p12.zip" == (stem + ".p12") + ".zip";
  }

  /** An upload is accepted exactly when its name is some stem followed by
      `.p12`. */
  lemma AcceptsUploadIff(name: string)
    ensures AcceptsUpload(name) <==> exists stem :: name == stem + ".p12"
  {
    EndsWithIff(name, ".p12");
  }
}
