/**
 * The two cursor classes of sadl/decoder.ts: DriverLicenseDecoder, which walks the plaintext one
 * byte at a time, and DriverLicenseDecoderNibbleQueue, which holds the nibble section.
 */
module Decoder {
  import opened Outcomes
  import opened Bytes
  import opened Nibbles
  import opened FieldReads
  import opened NibbleTokens

  /** What readData returns: one string, or a list of strings when a count is given. */
  datatype Data = Chars(text: string) | Strings(list: seq<string>)

  /** What readNibbleDate returns: one nullable date, or a list of them when a count is given. */
  datatype DateField = Single(date: NullableDate) | Many(dates: seq<NullableDate>)

  /**
   * The value `r` and the cursor `offset` after a read started at `from` agree with the pure read
   * `spec`; after a failure the cursor is where the failing byte read left it.
   */
  ghost predicate Advanced<T>(r: Result<T>, offset: nat, spec: Result<Read<T>>, data: seq<byte>, from: nat) {
    match spec
    case Ok(rd) => r == Ok(rd.value) && offset == rd.next
    case Err(e) => r == Err(e) && offset == Overrun(data, from)
  }

  /** The constructor's scan: 720 bytes are required, then the cursor stops one past the first 0x82. */
  method SkipToFieldStart(data: seq<byte>) returns (r: Result<nat>)
    ensures r == FieldStart(data)
  {
    if |data| != PlaintextSize {
      return Err(InvalidLicenceData);
    }
    var offset := 0;
    while true
      invariant 0 <= offset <= |data|
      invariant forall k :: 0 <= k < offset ==> data[k] != FieldStartMarker
      decreases |data| - offset
    {
      if offset >= |data| {
        return Err(ReadOutOfBounds);
      }
      if data[offset] == FieldStartMarker {
        break;
      }
      offset := offset + 1;
    }
    return Ok(offset + 1);
  }

  class DriverLicenseDecoder {
    /** The plaintext, read through a DataView and never written. */
    const data: seq<byte>
    /** The read cursor, advanced by every byte read. */
    var offset: nat

    constructor At(data: seq<byte>, offset: nat)
      ensures this.data == data && this.offset == offset
    {
      this.data := data;
      this.offset := offset;
    }

    /** `new DriverLicenseDecoder(data)`, whose exceptions become an Err. */
    static method Create(data: seq<byte>) returns (r: Result<DriverLicenseDecoder>)
      ensures FieldStart(data).Err? ==> r == Err(FieldStart(data).error)
      ensures FieldStart(data).Ok? ==>
        r.Ok? && fresh(r.value) && r.value.data == data && r.value.offset == FieldStart(data).value
    {
      var start :- SkipToFieldStart(data);
      var decoder := new DriverLicenseDecoder.At(data, start);
      return Ok(decoder);
    }

    /** readByte: the byte under the cursor; the cursor moves one byte on. */
    method ReadByte() returns (r: Result<byte>)
      modifies this`offset
      ensures Advanced(r, offset, ByteAt(data, old(offset)), data, old(offset))
    {
      var at := offset;
      offset := offset + 1;
      if at >= |data| {
        return Err(ReadOutOfBounds);
      }
      return Ok(data[at]);
    }

    /** readCharacter: the byte under the cursor as a character; the cursor moves one byte on. */
    method ReadCharacter() returns (r: Result<char>)
      modifies this`offset
      ensures Advanced(r, offset, CharacterAt(data, old(offset)), data, old(offset))
    {
      var b :- ReadByte();
      return Ok(b as char);
    }

    /** readData: readStringList when a count is given, readString otherwise. */
    method ReadData(asListOf: Option<int>) returns (r: Result<Data>)
      modifies this`offset
      ensures asListOf.Some? ==> r.Ok? ==> r.value.Strings?
      ensures asListOf.None? ==> r.Ok? ==> r.value.Chars?
      ensures asListOf.Some? ==> Advanced(if r.Ok? then Ok(r.value.list) else Err(r.error), offset,
        StringListAt(data, old(offset), asListOf.value), data, old(offset))
      ensures asListOf.None? ==> Advanced(if r.Ok? then Ok(r.value.text) else Err(r.error), offset,
        StringAt(data, old(offset)), data, old(offset))
    {
      if asListOf.Some? {
        var list :- ReadStringList(asListOf.value);
        return Ok(Strings(list));
      } else {
        var text :- ReadString();
        return Ok(Chars(text));
      }
    }

    /** readString: the characters up to the next 0xE0 or 0xE1; the delimiter is consumed, not kept. */
    method ReadString() returns (r: Result<string>)
      modifies this`offset
      ensures Advanced(r, offset, StringAt(data, old(offset)), data, old(offset))
    {
      var value := "";
      while true
        invariant old(offset) <= offset && (offset == old(offset) || offset <= |data|)
        invariant forall k :: old(offset) <= k < offset ==> !IsDelimiter(data[k])
        invariant offset <= |data| ==> value == Latin1(data[old(offset)..offset])
        decreases |data| - offset
      {
        var at := offset;
        offset := offset + 1;
        if at >= |data| {
          return Err(ReadOutOfBounds);
        }
        var currentByte := data[at];
        if IsDelimiter(currentByte) {
          break;
        }
        assert old(offset) <= at && offset == at + 1 && at < |data|;
        ghost var before := data[old(offset)..at];
        assert data[old(offset)..offset] == before + [currentByte];
        Latin1Snoc(before, currentByte);
        value := value + [currentByte as char];
      }
      return Ok(value);
    }

    /** The inner loop of readStringList: the bytes up to the next delimiter, and that delimiter. */
    method ReadSegment() returns (r: Result<Segment>)
      modifies this`offset
      ensures Advanced(r, offset, SegmentAt(data, old(offset)), data, old(offset))
    {
      var start := offset;
      while true
        invariant start <= offset && (offset == start || offset <= |data|)
        invariant forall k :: start <= k < offset ==> !IsDelimiter(data[k])
        decreases |data| - offset
      {
        var at := offset;
        offset := offset + 1;
        if at >= |data| {
          return Err(ReadOutOfBounds);
        }
        var currentByte := data[at];
        if IsDelimiter(currentByte) {
          return Ok(Segment(data[start..at], currentByte));
        }
      }
    }

    /**
     * readStringList(length): one delimited string per slot, empty ones dropped; the first 0xE1
     * in the call also uses up the next slot.
     */
    method ReadStringList(length: int) returns (r: Result<seq<string>>)
      modifies this`offset
      ensures Advanced(r, offset, StringListAt(data, old(offset), length), data, old(offset))
    {
      ghost var spec := StringListAt(data, offset, length);
      StringListLoopIsStringListAt(data, offset, length, 0);
      assert length - 0 == length;
      PrependNothing(StringListLoop(data, offset, length, 0, false));
      var valueList: seq<string> := [];
      var skippedCharacter := false;
      var i := 0;
      while i < length
        invariant old(offset) <= offset && (offset == old(offset) || offset <= |data|)
        invariant Prepend(valueList, StringListLoop(data, offset, length, i, skippedCharacter)) == spec
        decreases length - i
      {
        ghost var start, before, i0, skipped0 := offset, valueList, i, skippedCharacter;
        var read := ReadSegment();
        if read.Err? {
          PrependFails(valueList, data, start, length, i, skippedCharacter);
          return Err(read.error);
        }
        var segment := read.value;
        var value := Latin1(segment.content);
        var currentByte := segment.delimiter;
        ghost var skip := currentByte == SkipDelimiter && !skippedCharacter;
        if currentByte == SkipDelimiter && !skippedCharacter {
          i := i + 1;
          skippedCharacter := true;
        }
        if value != "" {
          valueList := valueList + [value];
        }
        i := i + 1;
        assert valueList == before + Text(segment);
        assert SegmentAt(data, start) == Ok(Read(segment, offset));
        PrependStep(before, data, start, length, i0, skipped0);
        assert i == (if skip then i0 + 2 else i0 + 1) && skippedCharacter == (skipped0 || skip);
      }
      assert StringListLoop(data, offset, length, i, skippedCharacter) == Ok(Read([], offset));
      assert valueList + [] == valueList;
      return Ok(valueList);
    }

    /** readIntoNibble(until): a nibble queue filled from the bytes up to `until`. */
    method ReadIntoNibble(until: int) returns (r: Result<DriverLicenseDecoderNibbleQueue>)
      modifies this`offset
      ensures match NibbleRun(data, old(offset), until)
        case Ok(run) => r.Ok? && fresh(r.value) && r.value.queue == run.value && offset == run.next
        case Err(e) => r == Err(e) && offset == Overrun(data, old(offset))
    {
      var queue := new DriverLicenseDecoderNibbleQueue.Empty();
      var filled := queue.ReadIntoNibble(this, until);
      if filled.Err? {
        return Err(filled.error);
      }
      return Ok(queue);
    }
  }

  class DriverLicenseDecoderNibbleQueue {
    /** The nibbles not yet read, front first. */
    var queue: seq<Nibble>

    constructor Empty()
      ensures queue == []
    {
      queue := [];
    }

    /**
     * The constructor's readIntoNibble: bytes are read until one equals `until`; every earlier
     * byte is pushed as its high and then its low nibble.
     */
    method ReadIntoNibble(decoder: DriverLicenseDecoder, until: int) returns (r: Result<()>)
      modifies this`queue, decoder`offset
      ensures match NibbleRun(decoder.data, old(decoder.offset), until)
        case Ok(run) => r.Ok? && queue == old(queue) + run.value && decoder.offset == run.next
        case Err(e) => r == Err(e) && decoder.offset == Overrun(decoder.data, old(decoder.offset))
    {
      ghost var data, from := decoder.data, decoder.offset;
      while true
        invariant from <= decoder.offset && (decoder.offset == from || decoder.offset <= |data|)
        invariant forall k :: from <= k < decoder.offset ==> data[k] != until
        invariant decoder.offset <= |data| ==> queue == old(queue) + NibblesOf(data[from..decoder.offset])
        decreases |data| - decoder.offset
      {
        ghost var at := decoder.offset;
        var read := decoder.ReadByte();
        if read.Err? {
          assert NibbleRun(data, from, until).Err?;
          return Err(read.error);
        }
        var currentByte := read.value;
        if currentByte == until {
          NibbleRunStops(data, from, until, at);
          break;
        }
        var nibbles := ByteToNibbles(currentByte);
        ghost var before := queue;
        queue := queue + [nibbles[0]];
        queue := queue + [nibbles[1]];
        assert queue == before + nibbles;
        assert data[from..decoder.offset] == data[from..at] + [currentByte];
        NibblesOfSnoc(data[from..at], currentByte);
        assert queue == old(queue) + (NibblesOf(data[from..at]) + nibbles);
      }
      return Ok(());
    }

    /** readNibble: the text of the front nibble, which is removed, or "" when the queue is empty. */
    method ReadNibble() returns (s: string)
      modifies this`queue
      ensures (s, queue) == PopText(old(queue))
    {
      if queue == [] {
        return "";
      }
      var front := queue[0];
      queue := queue[1..];
      return ToString(front);
    }

    /** readNibbleDate: a list of `asListOf` dates when a count is given, a single date otherwise. */
    method ReadNibbleDate(asListOf: Option<int>) returns (r: DateField)
      modifies this`queue
      ensures asListOf.Some? ==> r == Many(DateList(old(queue), asListOf.value).0) && queue == DateList(old(queue), asListOf.value).1
      ensures asListOf.None? ==> r == Single(DateToken(old(queue)).0) && queue == DateToken(old(queue)).1
    {
      if asListOf.Some? {
        var dates := ReadNibbleDateList(asListOf.value);
        return Many(dates);
      }
      var dateString := ReadNibbleDateString();
      return Single(DateOf(dateString));
    }

    /**
     * readNibbleDateString: "" when the queue is empty or the front nibble reads "a" (that nibble
     * is removed); otherwise eight nibbles are removed and joined as `mcdy-m1m2-d1d2`.
     */
    method ReadNibbleDateString() returns (s: string)
      modifies this`queue
      ensures (s, queue) == DateString(old(queue))
    {
      ghost var q := queue;
      if queue == [] {
        return "";
      }
      var m := queue[0];
      queue := queue[1..];
      if ToString(m) == "a" {
        return "";
      }
      PopTextAt(q, 1);
      var c := ReadNibble();
      PopTextAt(q, 2);
      var d := ReadNibble();
      PopTextAt(q, 3);
      var y := ReadNibble();
      PopTextAt(q, 4);
      var m1 := ReadNibble();
      PopTextAt(q, 5);
      var m2 := ReadNibble();
      PopTextAt(q, 6);
      var d1 := ReadNibble();
      PopTextAt(q, 7);
      var d2 := ReadNibble();
      s := ToString(m) + c + d + y + "-" + m1 + m2 + "-" + d1 + d2;
      assert ToString(m) == NibbleText(q, 0);
    }

    /** readNibbleDateList(count): `count` date tokens, each a date or null. */
    method ReadNibbleDateList(count: int) returns (dates: seq<NullableDate>)
      modifies this`queue
      ensures (dates, queue) == DateList(old(queue), count)
    {
      ghost var q := queue;
      dates := [];
      var i := 0;
      while i < count
        invariant 0 <= i <= Max(count, 0)
        invariant dates == seq(i, j requires 0 <= j < i => TokenAt(q, j))
        invariant queue == AfterTokens(q, i)
      {
        var dateString := ReadNibbleDateString();
        DateListStep(q, i, dateString, queue);
        TokensSnoc(dates, q, i);
        dates := dates + [DateOf(dateString)];
        i := i + 1;
      }
    }
  }
}
