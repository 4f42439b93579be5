/** A certificate as the bot sees it once node-forge has decoded it: subject
    and issuer distinguished names (ordered attribute lists), a serial number
    and a validity window. Timestamps are JavaScript `Date` values, that is
    integer milliseconds since the epoch. */
module Certificate {

  datatype Attribute = Attribute(name: string, value: string)

  /** A forge distinguished-name object; the attributes are its `attributes`
      array. */
  datatype DistinguishedName = DistinguishedName(attributes: seq<Attribute>)

  datatype Cert = Cert(
    subject: DistinguishedName,
    issuer: DistinguishedName,
    serialNumber: string,
    notBefore: int,
    notAfter: int)

  /** `1000 * 60 * 60 * 24` */
  const MsPerDay: int := 86_400_000

  /** `now >= validFrom && now <= validUntil`: both ends of the window are
      inclusive, as in section 4.1.2.5 of RFC 5280. */
  predicate IsValidAt(notBefore: int, notAfter: int, now: int) {
    now >= notBefore && now <= notAfter
  }

  /** `Math.floor((validUntil - now) / MsPerDay)`: whole days left, rounded
      down, negative once the certificate has expired. */
  function RawDaysRemaining(notAfter: int, now: int): (days: int)
    ensures days * MsPerDay <= notAfter - now < (days + 1) * MsPerDay
  {
    (notAfter - now) / MsPerDay
  }

  /** `daysRemaining > 0 ? daysRemaining : 0`: the whole days left, or 0 when
      less than one day is left or the certificate has expired. */
  function ReportedDays(notAfter: int, now: int): (days: nat)
    ensures notAfter - now < MsPerDay ==> days == 0
    ensures notAfter - now >= MsPerDay ==>
      0 < days && days * MsPerDay <= notAfter - now < (days + 1) * MsPerDay
  {
    var raw := RawDaysRemaining(notAfter, now);
    if raw > 0 then raw else 0
  }

  /** The value of the first `commonName` attribute, or 'Unknown'
      (`getIssuerCommonName` in certcheck.js, `getCommonName` in
      analyzeksign.js). */
  function CommonNameOf(attrs: seq<Attribute>): (cn: string)
    ensures (forall k | 0 <= k < |attrs| :: attrs[k].name != "commonName") ==> cn == "Unknown"
    ensures forall k | 0 <= k < |attrs| && attrs[k].name == "commonName"
      && (forall j | 0 <= j < k :: attrs[j].name != "commonName") :: cn == attrs[k].value
  {
    if attrs == [] then "Unknown"
    else if attrs[0].name == "commonName" then attrs[0].value
    else
      var cn := CommonNameOf(attrs[1..]);
      assert forall k | 1 <= k < |attrs| :: attrs[k] == attrs[1..][k - 1];
      cn
  }

  /** What a loop that overwrites a variable (initially '') on every
      attribute called `name` leaves behind: the last such value. */
  function LastValue(attrs: seq<Attribute>, name: string): (v: string)
    ensures (forall k | 0 <= k < |attrs| :: attrs[k].name != name) ==> v == ""
    ensures forall k | 0 <= k < |attrs| && attrs[k].name == name
      && (forall j | k < j < |attrs| :: attrs[j].name != name) :: v == attrs[k].value
  {
    if attrs == [] then ""
    else if attrs[|attrs| - 1].name == name then attrs[|attrs| - 1].value
    else
      var v := LastValue(attrs[..|attrs| - 1], name);
      assert forall k | 0 <= k < |attrs| - 1 :: attrs[k] == attrs[..|attrs| - 1][k];
      v
  }
}
