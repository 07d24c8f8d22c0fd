/**
 * What each cursor read of DriverLicenseDecoder (sadl/decoder.ts) returns and where it leaves
 * the cursor, as pure functions of the plaintext and the cursor position.
 */
module FieldReads {
  import opened Outcomes
  import opened Bytes

  /** The only plaintext size the decoder accepts. */
  const PlaintextSize: nat := 720
  /** The decoder starts reading one byte past the first byte with this value. */
  const FieldStartMarker: byte := 0x82
  /** Ends a string field. */
  const PlainDelimiter: byte := 0xE0
  /** Ends a string field; inside a string list, its first occurrence also uses up one slot. */
  const SkipDelimiter: byte := 0xE1

  predicate IsDelimiter(b: byte) {
    b == PlainDelimiter || b == SkipDelimiter
  }

  /** A string holding neither delimiter as a character. */
  predicate HasNoDelimiter(s: string) {
    forall i :: 0 <= i < |s| ==> s[i] != PlainDelimiter as char && s[i] != SkipDelimiter as char
  }

  /** A value read at some cursor position, and the cursor position after it. */
  datatype Read<T> = Read(value: T, next: nat)

  /**
   * The cursor after a run of single-byte reads from `from` that failed: the failing read is the
   * one at max(from, |data|), and `getUint8(this._offset++)` has advanced the cursor before throwing.
   */
  function Overrun(data: seq<byte>, from: nat): nat {
    Max(from, |data|) + 1
  }

  /** The first index at or after `from` whose byte satisfies `hit`. */
  function Find(data: seq<byte>, from: nat, hit: byte -> bool): (r: Option<nat>)
    ensures r.Some? ==> from <= r.value < |data| && hit(data[r.value])
    ensures r.Some? ==> forall k :: from <= k < r.value ==> !hit(data[k])
    ensures r.None? ==> forall k :: from <= k < |data| ==> !hit(data[k])
    decreases |data| - from
  {
    if from >= |data| then None
    else if hit(data[from]) then Some(from)
    else Find(data, from + 1, hit)
  }

  /** Where the constructor leaves the cursor: it needs 720 bytes, then stops one past the first 0x82. */
  function FieldStart(data: seq<byte>): (r: Result<nat>)
    ensures r.Ok? <==> |data| == PlaintextSize && FieldStartMarker in data
    ensures r.Ok? ==> 1 <= r.value <= |data| && data[r.value - 1] == FieldStartMarker
    ensures r.Ok? ==> forall k :: 0 <= k < r.value - 1 ==> data[k] != FieldStartMarker
    ensures r.Err? ==> r.error == if |data| != PlaintextSize then InvalidLicenceData else ReadOutOfBounds
  {
    if |data| != PlaintextSize then Err(InvalidLicenceData)
    else match Find(data, 0, b => b == FieldStartMarker)
      case None => Err(ReadOutOfBounds)
      case Some(k) => Ok(k + 1)
  }

  /** One `getUint8(this._offset++)`. */
  function ByteAt(data: seq<byte>, at: nat): (r: Result<Read<byte>>)
    ensures r.Ok? <==> at < |data|
    ensures r.Ok? ==> r.value.value == data[at] && r.value.next == at + 1
    ensures r.Err? ==> r.error == ReadOutOfBounds
  {
    if at < |data| then Ok(Read(data[at], at + 1)) else Err(ReadOutOfBounds)
  }

  /** readCharacter: one byte read, as the character with that code. */
  function CharacterAt(data: seq<byte>, at: nat): (r: Result<Read<char>>)
    ensures r.Ok? <==> at < |data|
    ensures r.Ok? ==> r.value.value as int == data[at] && r.value.next == at + 1
    ensures r.Err? ==> r.error == ReadOutOfBounds
  {
    var b :- ByteAt(data, at);
    Ok(Read(b.value as char, b.next))
  }

  /** `count` consecutive readCharacter calls, concatenated. */
  function CharsAt(data: seq<byte>, at: nat, count: nat): (r: Result<Read<string>>)
    ensures r.Ok? <==> count == 0 || at + count <= |data|
    ensures r.Ok? ==> r.value.next == at + count && |r.value.value| == count
    ensures r.Ok? ==> forall i :: 0 <= i < count ==> r.value.value[i] == data[at + i] as char
    ensures r.Err? ==> r.error == ReadOutOfBounds
    decreases count
  {
    if count == 0 then Ok(Read("", at))
    else
      var c :- ByteAt(data, at);
      var rest :- CharsAt(data, c.next, count - 1);
      Ok(Read([c.value as char] + rest.value, rest.next))
  }

  /** The bytes before the next delimiter, and the delimiter that ended them. */
  datatype Segment = Segment(content: seq<byte>, delimiter: byte)

  /** The text a segment contributes to a string list: nothing when it is empty. */
  function Text(s: Segment): seq<string> {
    if s.content == [] then [] else [Latin1(s.content)]
  }

  /** One delimited segment starting at `at`; the delimiter is consumed. */
  function SegmentAt(data: seq<byte>, at: nat): (r: Result<Read<Segment>>)
    ensures r.Ok? ==> at < r.value.next <= |data| && r.value.value.content == data[at..r.value.next - 1]
    ensures r.Ok? ==> r.value.value.delimiter == data[r.value.next - 1] && IsDelimiter(r.value.value.delimiter)
    ensures r.Ok? ==> forall k :: at <= k < r.value.next - 1 ==> !IsDelimiter(data[k])
    ensures r.Err? <==> forall k :: at <= k < |data| ==> !IsDelimiter(data[k])
    ensures r.Err? ==> r.error == ReadOutOfBounds
  {
    match Find(data, at, IsDelimiter)
    case None => Err(ReadOutOfBounds)
    case Some(j) => Ok(Read(Segment(data[at..j], data[j]), j + 1))
  }

  /** readString: the characters up to the next 0xE0 or 0xE1, which is consumed and not kept. */
  function StringAt(data: seq<byte>, at: nat): (r: Result<Read<string>>)
    ensures r.Ok? ==> at < r.value.next <= |data| && IsDelimiter(data[r.value.next - 1])
    ensures r.Ok? ==> r.value.value == Latin1(data[at..r.value.next - 1])
    ensures r.Ok? ==> r.value.next == at + |r.value.value| + 1 && HasNoDelimiter(r.value.value)
    ensures r.Err? <==> forall k :: at <= k < |data| ==> !IsDelimiter(data[k])
    ensures r.Err? ==> r.error == ReadOutOfBounds
  {
    var s :- SegmentAt(data, at);
    Ok(Read(Latin1(s.value.content), s.next))
  }

  /** `count` consecutive delimited segments. */
  function Segments(data: seq<byte>, at: nat, count: nat): (r: Result<Read<seq<Segment>>>)
    ensures r.Ok? ==> |r.value.value| == count && at + count <= r.value.next
    ensures r.Ok? ==> forall s :: s in r.value.value ==> IsDelimiter(s.delimiter)
    ensures r.Ok? ==> forall s :: s in r.value.value ==> forall k :: 0 <= k < |s.content| ==> !IsDelimiter(s.content[k])
    ensures r.Ok? && count > 0 ==> r.value.next <= |data|
    ensures r.Err? ==> r.error == ReadOutOfBounds
    decreases count
  {
    if count == 0 then Ok(Read([], at))
    else
      var s :- SegmentAt(data, at);
      var rest :- Segments(data, s.next, count - 1);
      Ok(Read([s.value] + rest.value, rest.next))
  }

  /** The non-empty texts of the segments, in order. */
  function Texts(segs: seq<Segment>): seq<string> {
    if segs == [] then [] else Text(segs[0]) + Texts(segs[1..])
  }

  /** True when one of the segments was ended by 0xE1. */
  predicate SomeSkip(segs: seq<Segment>) {
    exists k :: 0 <= k < |segs| && segs[k].delimiter == SkipDelimiter
  }

  /** The non-empty texts of `count` consecutive segments. */
  function TextsAt(data: seq<byte>, at: nat, count: nat): Result<Read<seq<string>>> {
    var segs :- Segments(data, at, count);
    Ok(Read(Texts(segs.value), segs.next))
  }

  /**
   * readStringList(count), stated without its loop: it consumes `count` segments, or `count - 1`
   * when 0xE1 ends one of the first `count - 1`, and returns their non-empty texts.
   */
  function StringListAt(data: seq<byte>, at: nat, count: int): (r: Result<Read<seq<string>>>)
    ensures r.Ok? ==> at <= r.value.next && (count <= 0 ==> r.value.next == at) && (count > 0 ==> r.value.next <= |data|)
    ensures r.Err? ==> r.error == ReadOutOfBounds
  {
    if count <= 0 then Ok(Read([], at))
    else
      var head :- Segments(data, at, count - 1);
      TextsAt(data, at, if SomeSkip(head.value) then count - 1 else count)
  }

  /**
   * readStringList as its loop runs it: `i` is the loop counter and `skipped` the flag that lets
   * the first 0xE1 advance the counter by an extra step.
   */
  function StringListLoop(data: seq<byte>, at: nat, count: int, i: int, skipped: bool): (r: Result<Read<seq<string>>>)
    ensures r.Ok? ==> at <= r.value.next && |r.value.value| <= Max(count - i, 0)
    ensures r.Err? ==> r.error == ReadOutOfBounds
    decreases count - i
  {
    if i >= count then Ok(Read([], at))
    else
      var seg :- SegmentAt(data, at);
      var skip := seg.value.delimiter == SkipDelimiter && !skipped;
      var rest :- StringListLoop(data, seg.next, count, if skip then i + 2 else i + 1, skipped || skip);
      Ok(Read(Text(seg.value) + rest.value, rest.next))
  }

  /** A list read whose first strings `acc` are already collected. */
  function Prepend(acc: seq<string>, r: Result<Read<seq<string>>>): Result<Read<seq<string>>> {
    match r
    case Ok(rd) => Ok(Read(acc + rd.value, rd.next))
    case Err(e) => Err(e)
  }

  /** One turn of the list loop moves the next segment's text from the pending read to the collected strings. */
  lemma PrependStep(acc: seq<string>, data: seq<byte>, at: nat, count: int, i: int, skipped: bool)
    requires i < count && SegmentAt(data, at).Ok?
    ensures var seg := SegmentAt(data, at).value;
      var skip := seg.value.delimiter == SkipDelimiter && !skipped;
      Prepend(acc, StringListLoop(data, at, count, i, skipped))
        == Prepend(acc + Text(seg.value), StringListLoop(data, seg.next, count, if skip then i + 2 else i + 1, skipped || skip))
  {
    var seg := SegmentAt(data, at).value;
    var skip := seg.value.delimiter == SkipDelimiter && !skipped;
    match StringListLoop(data, seg.next, count, if skip then i + 2 else i + 1, skipped || skip) {
      case Ok(rest) => assert acc + (Text(seg.value) + rest.value) == (acc + Text(seg.value)) + rest.value;
      case Err(_) =>
    }
  }

  lemma PrependNothing(r: Result<Read<seq<string>>>)
    ensures Prepend([], r) == r
  {
    if r.Ok? {
      assert [] + r.value.value == r.value.value;
    }
  }

  /** A slot left to read with no delimiter ahead makes the whole list read fail. */
  lemma PrependFails(acc: seq<string>, data: seq<byte>, at: nat, count: int, i: int, skipped: bool)
    requires i < count && SegmentAt(data, at).Err?
    ensures Prepend(acc, StringListLoop(data, at, count, i, skipped)) == Err(ReadOutOfBounds)
  {
  }

  /** Once the flag is set, every delimiter is a plain one: the loop reads one segment per slot left. */
  lemma {:induction false} StringListLoopAfterSkip(data: seq<byte>, at: nat, count: int, i: int)
    ensures StringListLoop(data, at, count, i, true) == TextsAt(data, at, Max(count - i, 0))
    decreases count - i
  {
    if i < count {
      var n: nat := count - i - 1;
      assert Max(count - i, 0) == n + 1 && Max(count - (i + 1), 0) == n;
      match SegmentAt(data, at)
      case Err(_) =>
        assert Segments(data, at, n + 1).Err?;
      case Ok(seg) =>
        StringListLoopAfterSkip(data, seg.next, count, i + 1);
        TextsAtCons(data, at, seg, n);
        assert StringListLoop(data, at, count, i, true) == Prepend(Text(seg.value), StringListLoop(data, seg.next, count, i + 1, true));
    }
  }

  /** The loop of readStringList computes StringListAt. */
  lemma {:induction false} StringListLoopIsStringListAt(data: seq<byte>, at: nat, count: int, i: int)
    ensures StringListLoop(data, at, count, i, false) == StringListAt(data, at, count - i)
    decreases count - i, 1
  {
    if i < count {
      match SegmentAt(data, at)
      case Err(_) =>
        if count - i > 1 {
          assert Segments(data, at, count - i - 1).Err?;
        }
      case Ok(seg) =>
        if seg.value.delimiter == SkipDelimiter {
          FirstSegmentSkips(data, at, count, i, seg);
        } else {
          FirstSegmentPlain(data, at, count, i, seg);
        }
    }
  }

  /** The list's first segment ends with 0xE1: one slot is used up, and no later 0xE1 counts. */
  lemma {:induction false} FirstSegmentSkips(data: seq<byte>, at: nat, count: int, i: int, seg: Read<Segment>)
    requires i < count && SegmentAt(data, at) == Ok(seg) && seg.value.delimiter == SkipDelimiter
    ensures StringListLoop(data, at, count, i, false) == StringListAt(data, at, count - i)
  {
    var r := count - i;
    StringListLoopAfterSkip(data, seg.next, count, i + 2);
    if r > 1 {
      match Segments(data, seg.next, r - 2)
      case Err(_) =>
      case Ok(tail) =>
        var head := [seg.value] + tail.value;
        assert head[0].delimiter == SkipDelimiter;
        assert head[1..] == tail.value;
    }
  }

  /** The list's first segment ends with 0xE0: the rest of the list is read from the next slot on. */
  lemma {:induction false} FirstSegmentPlain(data: seq<byte>, at: nat, count: int, i: int, seg: Read<Segment>)
    requires i < count && SegmentAt(data, at) == Ok(seg) && seg.value.delimiter != SkipDelimiter
    ensures StringListLoop(data, at, count, i, false) == StringListAt(data, at, count - i)
    decreases count - i, 0
  {
    var r := count - i;
    PlainStep(data, at, count, i, seg);
    StringListLoopIsStringListAt(data, seg.next, count, i + 1);
    assert StringListLoop(data, seg.next, count, i + 1, false) == StringListAt(data, seg.next, r - 1);
    PlainHeadList(data, at, seg, r);
  }

  /** Before the flag is set, a segment ended by 0xE0 uses up one slot. */
  lemma PlainStep(data: seq<byte>, at: nat, count: int, i: int, seg: Read<Segment>)
    requires i < count && SegmentAt(data, at) == Ok(seg) && seg.value.delimiter != SkipDelimiter
    ensures StringListLoop(data, at, count, i, false) == Prepend(Text(seg.value), StringListLoop(data, seg.next, count, i + 1, false))
  {
  }

  /** A list of r slots whose first segment ends with 0xE0 is that segment's text, then a list of r - 1 slots. */
  lemma PlainHeadList(data: seq<byte>, at: nat, seg: Read<Segment>, r: int)
    requires r >= 1 && SegmentAt(data, at) == Ok(seg) && seg.value.delimiter != SkipDelimiter
    ensures Prepend(Text(seg.value), StringListAt(data, seg.next, r - 1)) == StringListAt(data, at, r)
  {
    if r > 1 {
      match Segments(data, seg.next, r - 2)
      case Err(_) =>
      case Ok(tail) =>
        SomeSkipCons(seg.value, tail.value);
        assert Segments(data, at, r - 1) == Ok(Read([seg.value] + tail.value, tail.next));
        TextsAtCons(data, at, seg, if SomeSkip(tail.value) then r - 2 else r - 1);
    } else {
      TextsAtCons(data, at, seg, 0);
    }
  }

  /** A segment ended by 0xE0 in front of a list does not change whether 0xE1 ends one of them. */
  lemma SomeSkipCons(s: Segment, tail: seq<Segment>)
    requires s.delimiter != SkipDelimiter
    ensures SomeSkip([s] + tail) <==> SomeSkip(tail)
  {
    var head := [s] + tail;
    if SomeSkip(head) {
      var k :| 0 <= k < |head| && head[k].delimiter == SkipDelimiter;
      assert tail[k - 1] == head[k];
    }
    if SomeSkip(tail) {
      var k :| 0 <= k < |tail| && tail[k].delimiter == SkipDelimiter;
      assert head[k + 1] == tail[k];
    }
  }

  /** Reading n + 1 texts is reading the first segment, then n more after it. */
  lemma TextsAtCons(data: seq<byte>, at: nat, seg: Read<Segment>, n: nat)
    requires SegmentAt(data, at) == Ok(seg)
    ensures TextsAt(data, at, n + 1) == Prepend(Text(seg.value), TextsAt(data, seg.next, n))
  {
    match Segments(data, seg.next, n)
    case Err(_) =>
    case Ok(segs) =>
      var all := [seg.value] + segs.value;
      assert Segments(data, at, n + 1) == Ok(Read(all, segs.next));
      assert all[1..] == segs.value;
  }

  /** The texts of segments are non-empty, free of delimiters, and at most one per segment. */
  lemma {:induction false} TextsShape(segs: seq<Segment>)
    requires forall s :: s in segs ==> forall k :: 0 <= k < |s.content| ==> !IsDelimiter(s.content[k])
    ensures |Texts(segs)| <= |segs|
    ensures forall t :: t in Texts(segs) ==> t != "" && HasNoDelimiter(t)
  {
    if segs != [] {
      TextsShape(segs[1..]);
    }
  }

  /** readStringList(count) returns at most `count` strings, none empty and none holding a delimiter. */
  lemma StringListShape(data: seq<byte>, at: nat, count: int)
    ensures StringListAt(data, at, count).Ok? ==>
      var r := StringListAt(data, at, count).value;
      |r.value| <= Max(count, 0) && forall t :: t in r.value ==> t != "" && HasNoDelimiter(t)
  {
    if count > 0 {
      match Segments(data, at, count - 1)
      case Err(_) =>
      case Ok(head) =>
        var consumed := if SomeSkip(head.value) then count - 1 else count;
        match Segments(data, at, consumed)
        case Err(_) =>
        case Ok(segs) =>
          TextsShape(segs.value);
    }
  }

  /**
   * When 0xE1 ends one of the first count - 1 segments, the list is compressed by one slot: only
   * those count - 1 segments are read, so at most count - 1 strings come back.
   */
  lemma StringListSkipCompresses(data: seq<byte>, at: nat, count: int)
    requires count > 0 && Segments(data, at, count - 1).Ok? && SomeSkip(Segments(data, at, count - 1).value.value)
    ensures StringListAt(data, at, count).Ok?
    ensures var r := StringListAt(data, at, count).value;
      |r.value| <= count - 1 && r.next == Segments(data, at, count - 1).value.next
  {
    TextsShape(Segments(data, at, count - 1).value.value);
  }
}
