/**
 * The licence record of sadl/type.ts and the field order in which DriverLicenseService.decode
 * (sadl/service.ts) fills it from the plaintext.
 */
module Licence {
  import opened Outcomes
  import opened Bytes
  import opened Nibbles
  import opened FieldReads
  import opened NibbleTokens

  /** DriverLicenseImage: both dimensions are single bytes of the plaintext. */
  datatype DriverLicenseImage = DriverLicenseImage(width: byte, height: byte)

  /** IDriverLicense, with every date kept as the string it would be parsed from. */
  datatype DriverLicense = DriverLicense(
    surname: string,
    initials: string,
    identityNumber: string,
    dateOfBirth: NullableDate,
    gender: string,
    licenseCodes: seq<string>,
    licenseNumber: string,
    identityCountryOfIssue: string,
    licenseCountryOfIssue: string,
    vehicleRestrictions: seq<string>,
    identityNumberType: string,
    licenseCodeIssueDates: seq<NullableDate>,
    driverRestrictionCodes: string,
    professionalDrivingPermitExpiryDate: NullableDate,
    licenseIssueNumber: string,
    driverLicenseImage: DriverLicenseImage,
    licenseIssueDate: NullableDate,
    licenseExpiryDate: NullableDate)

  /** Slots in the licence-code and vehicle-restriction lists. */
  const ListSlots := 4
  /** Characters of the identity number, read one byte each. */
  const IdentityNumberLength := 13

  /** `byte.toLocaleString(undefined, {minimumIntegerDigits: 2, useGrouping: false})`. */
  function IdentityNumberType(b: byte): (s: string)
    ensures |s| >= 2 && AllDigits(s, 10) && ValueOf(s, 10) == b
  {
    var digits := Digits(b, 10);
    DigitsRoundTrip(b, 10);
    LeadingZerosKeepValue("0", digits, 10);
    assert |digits| < 2 ==> PadStart(digits, 2, '0') == "0" + digits;
    PadStart(digits, 2, '0')
  }

  lemma {:induction false} DecimalLength(n: nat)
    requires n < 1000
    ensures |Digits(n, 10)| == if n < 10 then 1 else if n < 100 then 2 else 3
    decreases n
  {
    if n >= 10 {
      DecimalLength(n / 10);
    }
  }

  /** The identity number type has two characters below 100 and three from 100 on. */
  lemma IdentityNumberTypeDecimal(b: byte)
    ensures var s := IdentityNumberType(b);
      2 <= |s| <= 3 && (|s| == 2 <==> b < 100)
  {
    DecimalLength(b);
  }

  /** Two readNibble results back to back, as decode joins them. */
  function TwoNibbles(q: seq<Nibble>): (r: (string, seq<Nibble>))
    ensures |r.0| <= 2
    ensures r.1 == q[Min(2, |q|)..]
  {
    var (a, q1) := PopText(q);
    var (b, q2) := PopText(q1);
    (a + b, q2)
  }

  /** The fields decode reads as strings and characters, before the nibble section. */
  datatype TextSection = TextSection(
    licenseCodes: seq<string>,
    surname: string,
    initials: string,
    identityCountryOfIssue: string,
    licenseCountryOfIssue: string,
    vehicleRestrictions: seq<string>,
    licenseNumber: string,
    identityNumber: string,
    identityNumberType: string)

  /**
   * From the field start: skip one byte, then read the licence codes (4 slots), surname,
   * initials and the two countries of issue.
   */
  function HeaderAt(plain: seq<byte>, at: nat): (r: Result<Read<(seq<string>, string, string, string, string)>>)
    ensures r.Err? ==> r.error == ReadOutOfBounds
    ensures r.Ok? ==> at + 1 < r.value.next <= |plain|
    ensures r.Ok? ==> var (codes, surname, initials, identityCountry, licenseCountry) := r.value.value;
      && |codes| <= ListSlots && (forall c :: c in codes ==> c != "" && HasNoDelimiter(c))
      && HasNoDelimiter(surname) && HasNoDelimiter(initials)
      && HasNoDelimiter(identityCountry) && HasNoDelimiter(licenseCountry)
  {
    var first :- ByteAt(plain, at);
    var codes :- StringListAt(plain, first.next, ListSlots);
    StringListShape(plain, first.next, ListSlots);
    var surname :- StringAt(plain, codes.next);
    var initials :- StringAt(plain, surname.next);
    var identityCountry :- StringAt(plain, initials.next);
    var licenseCountry :- StringAt(plain, identityCountry.next);
    Ok(Read((codes.value, surname.value, initials.value, identityCountry.value, licenseCountry.value), licenseCountry.next))
  }

  /**
   * After the header: the vehicle restrictions (4 slots), the licence number,
   * 13 identity characters and the identity type byte.
   */
  function DetailsAt(plain: seq<byte>, at: nat): (r: Result<Read<(seq<string>, string, string, string)>>)
    ensures r.Err? ==> r.error == ReadOutOfBounds
    ensures r.Ok? ==> at + IdentityNumberLength + 1 <= r.value.next <= |plain|
    ensures r.Ok? ==> var (restrictions, number, identity, identityType) := r.value.value;
      && |restrictions| <= ListSlots && (forall c :: c in restrictions ==> c != "" && HasNoDelimiter(c))
      && HasNoDelimiter(number) && |identity| == IdentityNumberLength
      && 2 <= |identityType| <= 3 && AllDigits(identityType, 10)
  {
    var restrictions :- StringListAt(plain, at, ListSlots);
    StringListShape(plain, at, ListSlots);
    var number :- StringAt(plain, restrictions.next);
    var identity :- CharsAt(plain, number.next, IdentityNumberLength);
    var identityType :- ByteAt(plain, identity.next);
    IdentityNumberTypeDecimal(identityType.value);
    Ok(Read((restrictions.value, number.value, identity.value, IdentityNumberType(identityType.value)), identityType.next))
  }

  /** The string fields: the header, then the details after it. */
  function TextSectionAt(plain: seq<byte>, at: nat): (r: Result<Read<TextSection>>)
    ensures r.Err? ==> r.error == ReadOutOfBounds
    ensures r.Ok? ==> at + 1 + IdentityNumberLength + 1 <= r.value.next <= |plain|
    ensures r.Ok? ==> var t := r.value.value;
      && |t.licenseCodes| <= ListSlots && |t.vehicleRestrictions| <= ListSlots
      && (forall c :: c in t.licenseCodes ==> c != "" && HasNoDelimiter(c))
      && (forall c :: c in t.vehicleRestrictions ==> c != "" && HasNoDelimiter(c))
      && HasNoDelimiter(t.surname) && HasNoDelimiter(t.initials)
      && HasNoDelimiter(t.identityCountryOfIssue) && HasNoDelimiter(t.licenseCountryOfIssue)
      && HasNoDelimiter(t.licenseNumber)
      && |t.identityNumber| == IdentityNumberLength
      && 2 <= |t.identityNumberType| <= 3 && AllDigits(t.identityNumberType, 10)
  {
    var header :- HeaderAt(plain, at);
    var details :- DetailsAt(plain, header.next);
    var (codes, surname, initials, identityCountry, licenseCountry) := header.value;
    var (restrictions, number, identity, identityType) := details.value;
    Ok(Read(TextSection(codes, surname, initials, identityCountry, licenseCountry, restrictions,
      number, identity, identityType), details.next))
  }

  /** The fields decode takes from the nibble queue. */
  datatype NibbleSection = NibbleSection(
    licenseCodeIssueDates: seq<NullableDate>,
    driverRestrictionCodes: string,
    professionalDrivingPermitExpiryDate: NullableDate,
    licenseIssueNumber: string,
    dateOfBirth: NullableDate,
    licenseIssueDate: NullableDate,
    licenseExpiryDate: NullableDate,
    gender: string)

  /**
   * The nibble queue taken apart in decode's order: four issue dates, two restriction-code
   * nibbles, the permit expiry date, two issue-number nibbles, birth, issue and expiry dates,
   * and two gender nibbles; the second component is the queue left after the gender.
   */
  function NibbleSectionOf(q: seq<Nibble>): (r: (NibbleSection, seq<Nibble>))
    ensures |r.0.licenseCodeIssueDates| == ListSlots
    ensures |r.0.driverRestrictionCodes| <= 2 && |r.0.licenseIssueNumber| <= 2 && |r.0.gender| <= 2
  {
    var issueDates := DateList(q, ListSlots);
    var restrictionCodes := TwoNibbles(issueDates.1);
    var permitExpiry := DateToken(restrictionCodes.1);
    var issueNumber := TwoNibbles(permitExpiry.1);
    var birth := DateToken(issueNumber.1);
    var issued := DateToken(birth.1);
    var expiry := DateToken(issued.1);
    var gender := TwoNibbles(expiry.1);
    (NibbleSection(issueDates.0, restrictionCodes.0, permitExpiry.0, issueNumber.0, birth.0, issued.0, expiry.0, gender.0),
      gender.1)
  }

  /** After the nibble terminator: skip three bytes, read the width, skip one, read the height. */
  function ImageAt(plain: seq<byte>, at: nat): (r: Result<DriverLicenseImage>)
    ensures r.Ok? <==> at + 6 <= |plain|
    ensures r.Ok? ==> r.value == DriverLicenseImage(plain[at + 3], plain[at + 5])
    ensures r.Err? ==> r.error == ReadOutOfBounds
  {
    var s1 :- ByteAt(plain, at);
    var s2 :- ByteAt(plain, s1.next);
    var s3 :- ByteAt(plain, s2.next);
    var width :- ByteAt(plain, s3.next);
    var s4 :- ByteAt(plain, width.next);
    var height :- ByteAt(plain, s4.next);
    Ok(DriverLicenseImage(width.value, height.value))
  }

  /** The licence object decode returns, filled from the sections in type.ts's field order. */
  function Assemble(t: TextSection, n: NibbleSection, image: DriverLicenseImage): (r: DriverLicense)
    ensures TextSection(r.licenseCodes, r.surname, r.initials, r.identityCountryOfIssue, r.licenseCountryOfIssue,
      r.vehicleRestrictions, r.licenseNumber, r.identityNumber, r.identityNumberType) == t
    ensures NibbleSection(r.licenseCodeIssueDates, r.driverRestrictionCodes, r.professionalDrivingPermitExpiryDate,
      r.licenseIssueNumber, r.dateOfBirth, r.licenseIssueDate, r.licenseExpiryDate, r.gender) == n
    ensures r.driverLicenseImage == image
  {
    DriverLicense(
      surname := t.surname,
      initials := t.initials,
      identityNumber := t.identityNumber,
      dateOfBirth := n.dateOfBirth,
      gender := n.gender,
      licenseCodes := t.licenseCodes,
      licenseNumber := t.licenseNumber,
      identityCountryOfIssue := t.identityCountryOfIssue,
      licenseCountryOfIssue := t.licenseCountryOfIssue,
      vehicleRestrictions := t.vehicleRestrictions,
      identityNumberType := t.identityNumberType,
      licenseCodeIssueDates := n.licenseCodeIssueDates,
      driverRestrictionCodes := n.driverRestrictionCodes,
      professionalDrivingPermitExpiryDate := n.professionalDrivingPermitExpiryDate,
      licenseIssueNumber := n.licenseIssueNumber,
      driverLicenseImage := image,
      licenseIssueDate := n.licenseIssueDate,
      licenseExpiryDate := n.licenseExpiryDate)
  }

  /**
   * What every decoded licence satisfies: at most four codes and restrictions, none empty and
   * no string holding a delimiter, 13 identity characters, a decimal identity type of two or
   * three digits, four issue dates, and at most two characters in each nibble pair.
   */
  predicate WellFormedLicence(l: DriverLicense) {
    && |l.licenseCodes| <= ListSlots && |l.vehicleRestrictions| <= ListSlots
    && (forall c :: c in l.licenseCodes ==> c != "" && HasNoDelimiter(c))
    && (forall c :: c in l.vehicleRestrictions ==> c != "" && HasNoDelimiter(c))
    && HasNoDelimiter(l.surname) && HasNoDelimiter(l.initials) && HasNoDelimiter(l.licenseNumber)
    && HasNoDelimiter(l.identityCountryOfIssue) && HasNoDelimiter(l.licenseCountryOfIssue)
    && |l.identityNumber| == IdentityNumberLength
    && 2 <= |l.identityNumberType| <= 3 && AllDigits(l.identityNumberType, 10)
    && |l.licenseCodeIssueDates| == ListSlots
    && |l.driverRestrictionCodes| <= 2 && |l.licenseIssueNumber| <= 2 && |l.gender| <= 2
  }

  /**
   * What follows the string fields: the nibble run up to its terminator, the fields taken from
   * it, and the image, whose six bytes come straight after the terminator.
   */
  function NibblesAndImageAt(plain: seq<byte>, at: nat): (r: Result<Read<(NibbleSection, DriverLicenseImage)>>)
    ensures r.Err? ==> r.error == ReadOutOfBounds
    ensures r.Ok? ==> at < r.value.next <= |plain|
    ensures r.Ok? ==> var n := r.value.value.0;
      && |n.licenseCodeIssueDates| == ListSlots
      && |n.driverRestrictionCodes| <= 2 && |n.licenseIssueNumber| <= 2 && |n.gender| <= 2
  {
    var nibbles :- NibbleRun(plain, at, DefaultNibbleTerminator);
    var n := NibbleSectionOf(nibbles.value).0;
    var image :- ImageAt(plain, nibbles.next);
    Ok(Read((n, image), nibbles.next + 6))
  }

  /** The three sections read one after another from the cursor, which ends after the image. */
  function LicenceAt(plain: seq<byte>, at: nat): (r: Result<Read<DriverLicense>>)
    ensures r.Err? ==> r.error == ReadOutOfBounds
    ensures r.Ok? ==> at < r.value.next <= |plain|
    ensures r.Ok? ==> WellFormedLicence(r.value.value)
  {
    var text :- TextSectionAt(plain, at);
    var rest :- NibblesAndImageAt(plain, text.next);
    Ok(Read(Assemble(text.value, rest.value.0, rest.value.1), rest.next))
  }

  /** decode after decryption: the sections read from the field start. */
  function LicenceFromPlaintext(plain: seq<byte>): (r: Result<DriverLicense>)
    ensures r.Err? ==> r.error == if |plain| != PlaintextSize then InvalidLicenceData else ReadOutOfBounds
    ensures r.Ok? ==> |plain| == PlaintextSize && WellFormedLicence(r.value)
  {
    var start :- FieldStart(plain);
    var licence :- LicenceAt(plain, start);
    Ok(licence.value)
  }
}
