/**
 * DriverLicenseService (sadl/service.ts): decrypt fills a 720-byte buffer block by block, and
 * decode runs a decoder over that buffer in a fixed field order.
 */
module Service {
  import opened Outcomes
  import opened Bytes
  import opened Nibbles
  import opened FieldReads
  import opened NibbleTokens
  import opened Decryption
  import opened Licence
  import opened Decoder

  /** decode(str): decryption, then the licence fields from the plaintext. */
  function DecodeSpec(bytes: seq<byte>, material: KeyMaterial, modPow: ModPow): (r: Result<DriverLicense>)
    ensures r.Err? ==> r.error in {InvalidLicenceVersion, WriteOutOfBounds, ReadOutOfBounds}
    ensures r.Err? && r.error == InvalidLicenceVersion <==> VersionTag(bytes) !in {material.version1, material.version2}
  {
    var plain :- DecryptSpec(bytes, material, modPow);
    LicenceFromPlaintext(plain)
  }

  /**
   * The plaintext decrypt hands to the decoder always has the required 720 bytes, so decode
   * fails only on the version tag, on a block write, or on a read past the end.
   */
  lemma DecodeErrors(bytes: seq<byte>, material: KeyMaterial, modPow: ModPow)
    ensures DecodeSpec(bytes, material, modPow).Err? ==>
      DecodeSpec(bytes, material, modPow).error in {InvalidLicenceVersion, WriteOutOfBounds, ReadOutOfBounds}
    ensures DecryptSpec(bytes, material, modPow).Ok? && DecodeSpec(bytes, material, modPow).Err? ==>
      DecodeSpec(bytes, material, modPow).error == ReadOutOfBounds
  {
    DecryptFails(bytes, material, modPow);
  }

  /** decrypt: select the keys by tag, then six blocks, each decrypted and written at i * end. */
  method Decrypt(bytes: seq<byte>, material: KeyMaterial, modPow: ModPow) returns (r: Result<seq<byte>>)
    ensures r == DecryptSpec(bytes, material, modPow)
  {
    var keys :- SelectVersionKeys(bytes, material);
    var decryptedBytes := new byte[PlaintextSize](_ => 0);
    var dataBytes := bytes[Min(HeaderLength, |bytes|)..];
    var firstBytes := true;
    assert decryptedBytes[..] == Zeros(PlaintextSize);
    ghost var spec := DecryptBlocks(decryptedBytes[..], dataBytes, 0, firstBytes, keys, modPow);
    assert spec == DecryptSpec(bytes, material, modPow);
    for i := 0 to BlockCount
      invariant DecryptBlocks(decryptedBytes[..], dataBytes, i, firstBytes, keys, modPow) == spec
    {
      ghost var current := decryptedBytes[..];
      DecryptBlocksNext(current, dataBytes, i, firstBytes, keys, modPow);
      var end := if firstBytes then 129 else 128;
      var blockData := dataBytes[..Min(end, |dataBytes|)];
      dataBytes := dataBytes[Min(end, |dataBytes|)..];
      var decryptedBlockData: seq<byte>;
      if |blockData| >= LargeBlock {
        decryptedBlockData := EncryptValue(blockData, keys.large, |blockData|, modPow);
      } else {
        decryptedBlockData := EncryptValue(blockData, keys.small, SmallKeySize, modPow);
      }
      assert decryptedBlockData == BlockOutput(blockData, keys, modPow);
      var written := Set(decryptedBytes, decryptedBlockData, i * end);
      if written.Err? {
        return Err(written.error);
      }
      firstBytes := false;
    }
    return Ok(decryptedBytes[..]);
  }

  /** decrypt's opening: the first four bytes compared with each version tag in turn. */
  method SelectVersionKeys(bytes: seq<byte>, material: KeyMaterial) returns (r: Result<KeySet>)
    ensures r == SelectKeys(bytes, material)
  {
    var versionBytes := bytes[..Min(4, |bytes|)];
    if versionBytes == material.version1 {
      return Ok(material.keys1);
    } else if versionBytes == material.version2 {
      return Ok(material.keys2);
    }
    return Err(InvalidLicenceVersion);
  }

  /** Uint8Array.prototype.set(source, offset): a RangeError, before any write, when the source does not fit. */
  method Set(buffer: array<byte>, source: seq<byte>, offset: nat) returns (r: Result<()>)
    modifies buffer
    ensures offset + |source| > buffer.Length ==> r == Err(WriteOutOfBounds) && buffer[..] == old(buffer[..])
    ensures offset + |source| <= buffer.Length ==> r.Ok? && buffer[..] == Write(old(buffer[..]), offset, source)
  {
    if offset + |source| > buffer.Length {
      return Err(WriteOutOfBounds);
    }
    forall k | 0 <= k < |source| {
      buffer[offset + k] := source[k];
    }
    WriteAt(buffer[..], old(buffer[..]), offset, source);
    return Ok(());
  }

  /** decode's first reads: one skipped byte, the licence codes, surname, initials and the two countries. */
  method ReadHeader(decoder: DriverLicenseDecoder) returns (r: Result<(seq<string>, string, string, string, string)>)
    modifies decoder`offset
    ensures Advanced(r, decoder.offset, HeaderAt(decoder.data, old(decoder.offset)), decoder.data, old(decoder.offset))
  {
    var _ :- decoder.ReadByte();
    var licenseCodes :- decoder.ReadData(Some(ListSlots));
    var surname :- decoder.ReadData(None);
    var initials :- decoder.ReadData(None);
    var identityCountryOfIssue :- decoder.ReadData(None);
    var licenseCountryOfIssue :- decoder.ReadData(None);
    return Ok((licenseCodes.list, surname.text, initials.text, identityCountryOfIssue.text, licenseCountryOfIssue.text));
  }

  /** The 13-step loop that appends one readCharacter result per step to identityNumber. */
  method ReadIdentityNumber(decoder: DriverLicenseDecoder) returns (r: Result<string>)
    modifies decoder`offset
    ensures Advanced(r, decoder.offset, CharsAt(decoder.data, old(decoder.offset), IdentityNumberLength), decoder.data, old(decoder.offset))
  {
    ghost var data, start := decoder.data, decoder.offset;
    var identityNumber := "";
    for i := 0 to IdentityNumberLength
      invariant decoder.offset == start + i && (i == 0 || decoder.offset <= |data|)
      invariant |identityNumber| == i
      invariant forall k :: 0 <= k < i ==> identityNumber[k] == data[start + k] as char
    {
      var c :- decoder.ReadCharacter();
      identityNumber := identityNumber + [c];
    }
    ghost var spec := CharsAt(data, start, IdentityNumberLength);
    assert spec.Ok?;
    assert identityNumber == spec.value.value;
    return Ok(identityNumber);
  }

  /** decode's reads after the header: the vehicle restrictions, the licence number, the identity number and its type. */
  method ReadDetails(decoder: DriverLicenseDecoder) returns (r: Result<(seq<string>, string, string, string)>)
    modifies decoder`offset
    ensures Advanced(r, decoder.offset, DetailsAt(decoder.data, old(decoder.offset)), decoder.data, old(decoder.offset))
  {
    var vehicleRestrictions :- decoder.ReadData(Some(ListSlots));
    var licenseNumber :- decoder.ReadData(None);
    var identityNumber :- ReadIdentityNumber(decoder);
    var identityType :- decoder.ReadByte();
    return Ok((vehicleRestrictions.list, licenseNumber.text, identityNumber, IdentityNumberType(identityType)));
  }

  /** decode's string fields: the header, then the details after it. */
  method ReadTextSection(decoder: DriverLicenseDecoder) returns (r: Result<TextSection>)
    modifies decoder`offset
    ensures Advanced(r, decoder.offset, TextSectionAt(decoder.data, old(decoder.offset)), decoder.data, old(decoder.offset))
  {
    var header :- ReadHeader(decoder);
    var details :- ReadDetails(decoder);
    var (licenseCodes, surname, initials, identityCountryOfIssue, licenseCountryOfIssue) := header;
    var (vehicleRestrictions, licenseNumber, identityNumber, identityNumberType) := details;
    return Ok(TextSection(licenseCodes, surname, initials, identityCountryOfIssue, licenseCountryOfIssue,
      vehicleRestrictions, licenseNumber, identityNumber, identityNumberType));
  }

  /** decode's nibble fields, taken from the queue in order; the queue keeps what is left after them. */
  method ReadNibbleSection(nibbleData: DriverLicenseDecoderNibbleQueue) returns (r: NibbleSection)
    modifies nibbleData`queue
    ensures r == NibbleSectionOf(old(nibbleData.queue)).0
    ensures nibbleData.queue == NibbleSectionOf(old(nibbleData.queue)).1
  {
    var licenseCodeIssueDates := nibbleData.ReadNibbleDate(Some(ListSlots));
    var rc1 := nibbleData.ReadNibble();
    var rc2 := nibbleData.ReadNibble();
    var professionalDrivingPermitExpiryDate := nibbleData.ReadNibbleDate(None);
    var in1 := nibbleData.ReadNibble();
    var in2 := nibbleData.ReadNibble();
    var dateOfBirth := nibbleData.ReadNibbleDate(None);
    var licenseIssueDate := nibbleData.ReadNibbleDate(None);
    var licenseExpiryDate := nibbleData.ReadNibbleDate(None);
    var g1 := nibbleData.ReadNibble();
    var g2 := nibbleData.ReadNibble();
    return NibbleSection(licenseCodeIssueDates.dates, rc1 + rc2, professionalDrivingPermitExpiryDate.date,
      in1 + in2, dateOfBirth.date, licenseIssueDate.date, licenseExpiryDate.date, g1 + g2);
  }

  /** decode's last reads: three skipped bytes, the width, one skipped byte and the height. */
  method ReadImage(decoder: DriverLicenseDecoder) returns (r: Result<DriverLicenseImage>)
    modifies decoder`offset
    ensures r == ImageAt(decoder.data, old(decoder.offset))
    ensures r.Ok? ==> decoder.offset == old(decoder.offset) + 6
    ensures r.Err? ==> decoder.offset == Overrun(decoder.data, old(decoder.offset))
  {
    var _ :- decoder.ReadByte();
    var _ :- decoder.ReadByte();
    var _ :- decoder.ReadByte();
    var width :- decoder.ReadByte();
    var _ :- decoder.ReadByte();
    var height :- decoder.ReadByte();
    return Ok(DriverLicenseImage(width, height));
  }

  /** decode: decrypt, then the licence fields read from the plaintext. */
  method Decode(bytes: seq<byte>, material: KeyMaterial, modPow: ModPow) returns (r: Result<DriverLicense>)
    ensures r == DecodeSpec(bytes, material, modPow)
  {
    var data :- Decrypt(bytes, material, modPow);
    r := ReadLicence(data);
  }

  /** decode after decryption: a decoder over the plaintext, then its sections in order. */
  method ReadLicence(data: seq<byte>) returns (r: Result<DriverLicense>)
    ensures r == LicenceFromPlaintext(data)
  {
    var decoder :- DriverLicenseDecoder.Create(data);
    r := ReadSections(decoder);
    assert r == LicenceFromPlaintext(data) by {
      match LicenceAt(data, FieldStart(data).value)
      case Ok(_) =>
      case Err(_) =>
    }
  }

  /** decode's reads from the field start: the string fields, the nibble queue, then the image. */
  method ReadSections(decoder: DriverLicenseDecoder) returns (r: Result<DriverLicense>)
    modifies decoder`offset
    ensures Advanced(r, decoder.offset, LicenceAt(decoder.data, old(decoder.offset)), decoder.data, old(decoder.offset))
  {
    var t :- ReadTextSection(decoder);
    var rest :- ReadNibblesAndImage(decoder);
    return Ok(Assemble(t, rest.0, rest.1));
  }

  /** decode's reads after the string fields: the nibble queue up to its terminator, then the image. */
  method ReadNibblesAndImage(decoder: DriverLicenseDecoder) returns (r: Result<(NibbleSection, DriverLicenseImage)>)
    modifies decoder`offset
    ensures Advanced(r, decoder.offset, NibblesAndImageAt(decoder.data, old(decoder.offset)), decoder.data, old(decoder.offset))
  {
    ghost var data, start := decoder.data, decoder.offset;
    var nibbleData :- decoder.ReadIntoNibble(DefaultNibbleTerminator);
    ghost var run := NibbleRun(data, start, DefaultNibbleTerminator).value;
    assert start < decoder.offset == run.next <= |data| && nibbleData.queue == run.value;
    assert Overrun(data, run.next) == Overrun(data, start);
    var n := ReadNibbleSection(nibbleData);
    assert n == NibbleSectionOf(run.value).0 && decoder.offset == run.next;
    var image :- ReadImage(decoder);
    assert image == ImageAt(data, run.next).value && decoder.offset == run.next + 6;
    return Ok((n, image));
  }
}
