/**
 * The nibble section of the plaintext (DriverLicenseDecoderNibbleQueue in sadl/decoder.ts):
 * how a run of bytes becomes a queue of nibbles, and what each queue read takes from the front.
 */
module NibbleTokens {
  import opened Outcomes
  import opened Bytes
  import opened Nibbles
  import opened FieldReads

  /** The byte that ends the nibble section when no other terminator is given. */
  const DefaultNibbleTerminator: int := 0x57
  /** A date token whose first nibble has this value (text "a") is absent. */
  const AbsentDateNibble: uint4 := 10

  /** A licence date: the string the source hands to `new Date`, or null. */
  type NullableDate = Option<string>

  /** byteToNibbles: the high nibble (`byte >> 4`), then the low nibble (`byte & 0x0f`). */
  function ByteToNibbles(b: byte): (r: seq<Nibble>)
    ensures r == HighLow(b)
    ensures 16 * r[0].value + r[1].value == b
  {
    var h, l := b / 16, Mask(b);
    assert h < 16 && h % 16 == h;
    assert l == b % 16 && l % 16 == l;
    [FromNumber(h), FromNumber(l)]
  }

  /** A byte's two hexadecimal digits as nibbles, most significant first. */
  function HighLow(b: byte): seq<Nibble> {
    [Nibble(b / 16), Nibble(b % 16)]
  }

  /** The nibbles readIntoNibble enqueues for a run of bytes, two per byte. */
  function NibblesOf(bs: seq<byte>): (r: seq<Nibble>)
    ensures |r| == 2 * |bs|
  {
    if bs == [] then [] else HighLow(bs[0]) + NibblesOf(bs[1..])
  }

  /** Reassembles bytes from high/low nibble pairs. */
  function BytesOf(ns: seq<Nibble>): seq<byte>
    requires |ns| % 2 == 0
  {
    if ns == [] then [] else [16 * ns[0].value + ns[1].value] + BytesOf(ns[2..])
  }

  /** Reading one more byte appends its two nibbles. */
  lemma {:induction false} NibblesOfSnoc(bs: seq<byte>, b: byte)
    ensures NibblesOf(bs + [b]) == NibblesOf(bs) + HighLow(b)
  {
    if bs == [] {
      assert [b][1..] == [];
    } else {
      assert (bs + [b])[1..] == bs[1..] + [b];
      NibblesOfSnoc(bs[1..], b);
    }
  }

  /** Splitting bytes into nibbles loses nothing: pairing the nibbles up gives the bytes back. */
  lemma {:induction false} NibblesRoundTrip(bs: seq<byte>)
    ensures BytesOf(NibblesOf(bs)) == bs
  {
    if bs != [] {
      var ns := NibblesOf(bs);
      assert ns[..2] == HighLow(bs[0]) && ns[2..] == NibblesOf(bs[1..]);
      NibblesRoundTrip(bs[1..]);
    }
  }

  /**
   * The queue readIntoNibble builds: every byte up to the first one equal to `until` is split into
   * nibbles; the terminator is consumed but not split.
   */
  function NibbleRun(data: seq<byte>, at: nat, until: int): (r: Result<Read<seq<Nibble>>>)
    ensures r.Ok? ==> at < r.value.next <= |data| && data[r.value.next - 1] == until
    ensures r.Ok? ==> forall k :: at <= k < r.value.next - 1 ==> data[k] != until
    ensures r.Ok? ==> |r.value.value| == 2 * (r.value.next - at) - 2
    ensures r.Err? <==> forall k :: at <= k < |data| ==> data[k] != until
    ensures r.Err? ==> r.error == ReadOutOfBounds
  {
    match Find(data, at, b => b == until)
    case None => Err(ReadOutOfBounds)
    case Some(j) => Ok(Read(NibblesOf(data[at..j]), j + 1))
  }

  /** The queue pairs back up into exactly the bytes read before the terminator. */
  lemma NibbleRunRoundTrip(data: seq<byte>, at: nat, until: int)
    ensures NibbleRun(data, at, until).Ok? ==>
      var run := NibbleRun(data, at, until).value;
      |run.value| % 2 == 0 && BytesOf(run.value) == data[at..run.next - 1]
  {
    if NibbleRun(data, at, until).Ok? {
      var run := NibbleRun(data, at, until).value;
      NibblesRoundTrip(data[at..run.next - 1]);
    }
  }

  /** The run stops at the first terminator and holds the nibbles of every byte before it. */
  lemma NibbleRunStops(data: seq<byte>, at: nat, until: int, stop: nat)
    requires at <= stop < |data| && data[stop] == until
    requires forall k :: at <= k < stop ==> data[k] != until
    ensures NibbleRun(data, at, until) == Ok(Read(NibblesOf(data[at..stop]), stop + 1))
  {
  }

  /** readNibble: the text of the front nibble, which is removed, or "" when the queue is empty. */
  function PopText(q: seq<Nibble>): (r: (string, seq<Nibble>))
    ensures |r.0| <= 1 && (r.0 == "" <==> q == [])
    ensures r.1 == q[Min(1, |q|)..]
  {
    if q == [] then ("", []) else (ToString(q[0]), q[1..])
  }

  /**
   * The text of the nibble at position i (the digit Nibble.toString writes), or "" when the queue
   * is shorter: what the i-th removal contributes to a date string.
   */
  function NibbleText(q: seq<Nibble>, i: nat): string {
    if i < |q| then ToString(q[i]) else ""
  }

  /** Removing the nibble at position k yields its text and leaves the queue from k + 1 on. */
  lemma PopTextAt(q: seq<Nibble>, k: nat)
    ensures PopText(q[Min(k, |q|)..]) == (NibbleText(q, k), q[Min(k + 1, |q|)..])
  {
    if k < |q| {
      assert q[k..][0] == q[k] && q[k..][1..] == q[k + 1..];
    }
  }

  /**
   * readNibbleDateString: the front nibble is removed; if there was none, or its text is "a", the
   * result is "". Otherwise seven more nibbles are removed and the string is
   * `m c d y - m1 m2 - d1 d2`, a missing nibble contributing "".
   */
  function DateString(q: seq<Nibble>): (r: (string, seq<Nibble>))
    ensures r.0 == "" <==> q == [] || q[0].value == AbsentDateNibble
    ensures r.0 != "" ==> |r.0| == 2 + Min(8, |q|)
    ensures r.1 == q[TokenLength(q)..]
  {
    if q == [] then ("", [])
    else
      ToStringInjective(q[0], Nibble(AbsentDateNibble));
      assert ToString(Nibble(AbsentDateNibble)) == "a";
      if ToString(q[0]) == "a" then ("", q[1..])
      else
        (NibbleText(q, 0) + NibbleText(q, 1) + NibbleText(q, 2) + NibbleText(q, 3) + "-"
          + NibbleText(q, 4) + NibbleText(q, 5) + "-" + NibbleText(q, 6) + NibbleText(q, 7),
         q[Min(8, |q|)..])
  }

  /** readNibbleDate's test `if (!dateString) return null`; a date is kept as its string. */
  function DateOf(s: string): (r: NullableDate)
    ensures r.Some? ==> r.value != ""
    ensures (if r.Some? then r.value else "") == s
  {
    if s == "" then None else Some(s)
  }

  /** One date token: the nullable date and the queue left behind. */
  function DateToken(q: seq<Nibble>): (r: (NullableDate, seq<Nibble>))
    ensures r.0.None? <==> q == [] || q[0].value == AbsentDateNibble
    ensures r.0.Some? ==> |r.0.value| == 2 + Min(8, |q|)
    ensures r.1 == q[TokenLength(q)..]
  {
    var (s, rest) := DateString(q);
    (DateOf(s), rest)
  }

  /** How many nibbles a date token takes from the front: one when it is absent, else up to eight. */
  function TokenLength(q: seq<Nibble>): nat {
    if q == [] then 0 else if q[0].value == AbsentDateNibble then 1 else Min(8, |q|)
  }

  /** The queue left after `j` date tokens. */
  function AfterTokens(q: seq<Nibble>, j: nat): (r: seq<Nibble>)
    ensures |r| <= |q|
  {
    if j == 0 then q else AfterTokens(q[TokenLength(q)..], j - 1)
  }

  /** The date token that starts after `j` earlier tokens. */
  function TokenAt(q: seq<Nibble>, j: nat): NullableDate {
    DateToken(AfterTokens(q, j)).0
  }

  /**
   * readNibbleDateList(count): one entry per token for `count` tokens read one after another
   * (none when count <= 0), and the queue they leave.
   */
  function DateList(q: seq<Nibble>, count: int): (r: (seq<NullableDate>, seq<Nibble>))
    ensures |r.0| == Max(count, 0)
    ensures |r.1| <= |q|
  {
    var n := Max(count, 0);
    (seq(n, j requires 0 <= j < n => TokenAt(q, j)), AfterTokens(q, n))
  }

  /** The first date of a list read is the date a single read at the same place returns. */
  lemma FirstListDateIsSingleDate(q: seq<Nibble>, count: int)
    requires count >= 1
    ensures DateList(q, count).0[0] == DateToken(q).0
  {
  }

  /** The first i tokens, then token i, are the first i + 1 tokens. */
  lemma TokensSnoc(dates: seq<NullableDate>, q: seq<Nibble>, i: nat)
    requires dates == seq(i, j requires 0 <= j < i => TokenAt(q, j))
    ensures dates + [TokenAt(q, i)] == seq(i + 1, j requires 0 <= j < i + 1 => TokenAt(q, j))
  {
    var token := (j: nat) => TokenAt(q, j);
    assert dates == seq(i, j requires 0 <= j < i => token(j));
    SnocFirst(dates, token, i);
    assert seq(i + 1, j requires 0 <= j < i + 1 => token(j)) == seq(i + 1, j requires 0 <= j < i + 1 => TokenAt(q, j));
  }

  /** The first i values of f, then f(i), are the first i + 1 values. */
  lemma SnocFirst<T>(s: seq<T>, f: nat -> T, i: nat)
    requires s == seq(i, j requires 0 <= j < i => f(j))
    ensures s + [f(i)] == seq(i + 1, j requires 0 <= j < i + 1 => f(j))
  {
    var longer := s + [f(i)];
    var all := seq(i + 1, j requires 0 <= j < i + 1 => f(j));
    forall k | 0 <= k < i + 1
      ensures longer[k] == all[k]
    {
      if k < i {
        assert longer[k] == s[k];
      }
    }
  }

  /** The date string read where i tokens stopped is token i, and the queue it leaves is where i + 1 tokens stop. */
  lemma DateListStep(q: seq<Nibble>, i: nat, s: string, rest: seq<Nibble>)
    requires (s, rest) == DateString(AfterTokens(q, i))
    ensures DateOf(s) == TokenAt(q, i) && rest == AfterTokens(q, i + 1)
  {
    AfterOneMoreToken(q, i);
  }

  /** Reading one more token from where `j` tokens left the queue leaves it where `j + 1` tokens do. */
  lemma {:induction false} AfterOneMoreToken(q: seq<Nibble>, j: nat)
    ensures AfterTokens(q, j + 1) == DateToken(AfterTokens(q, j)).1
    decreases j
  {
    if j > 0 {
      AfterOneMoreToken(q[TokenLength(q)..], j - 1);
    } else {
      DateTokenConsumption(q);
    }
  }

  /**
   * A date token is absent exactly when the queue is empty or its front nibble is 10 ("a"); an
   * absent token removes at most one nibble, a present one removes eight.
   */
  lemma DateTokenConsumption(q: seq<Nibble>)
    ensures DateToken(q).0.None? <==> q == [] || q[0].value == AbsentDateNibble
    ensures DateToken(q).0.None? ==> DateToken(q).1 == q[Min(1, |q|)..]
    ensures DateToken(q).0.Some? ==> DateToken(q).1 == q[Min(8, |q|)..]
    ensures DateToken(q).1 == q[TokenLength(q)..]
  {
    if q != [] {
      ToStringInjective(q[0], Nibble(AbsentDateNibble));
      assert ToString(Nibble(AbsentDateNibble)) == "a";
    }
  }

  /** A present date token read from at least eight nibbles is the ten characters `mcdy-m1m2-d1d2`. */
  lemma DateTokenText(q: seq<Nibble>)
    requires |q| >= 8 && q[0].value != AbsentDateNibble
    ensures DateToken(q).0 == Some([DigitChar(q[0].value), DigitChar(q[1].value), DigitChar(q[2].value),
      DigitChar(q[3].value), '-', DigitChar(q[4].value), DigitChar(q[5].value), '-',
      DigitChar(q[6].value), DigitChar(q[7].value)])
  {
    ToStringInjective(q[0], Nibble(AbsentDateNibble));
    assert ToString(Nibble(AbsentDateNibble)) == "a";
    assert DateToken(q).0 == Some(DateString(q).0);
    DateLayout(DigitChar(q[0].value), DigitChar(q[1].value), DigitChar(q[2].value), DigitChar(q[3].value),
      DigitChar(q[4].value), DigitChar(q[5].value), DigitChar(q[6].value), DigitChar(q[7].value));
  }

  /** Eight one-character texts joined with the two dashes of a date string. */
  lemma DateLayout(m: char, c: char, d: char, y: char, m1: char, m2: char, d1: char, d2: char)
    ensures [m] + [c] + [d] + [y] + "-" + [m1] + [m2] + "-" + [d1] + [d2] == [m, c, d, y, '-', m1, m2, '-', d1, d2]
  {
  }
}
