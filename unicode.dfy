/**
 * Conversions between UTF-16 code units, UTF-8 bytes and UTF-32 code points
 * (the encoding rules of RFC 3629 section 3 and RFC 2781 section 2.1).
 *
 * Each conversion is a method that works the way the library does (index
 * counters walking an input array and writing an output buffer) and is proved
 * equal to a specification function defined here; the lemmas at the end
 * relate the specification functions to each other (round trips, lengths,
 * counts).
 */
module Unicode {

  import opened Wrappers

  /** An unsigned 8-bit value (a .NET `byte`). */
  newtype byte = x: int | 0 <= x < 0x100

  /** A UTF-16 code unit (a .NET `char`). */
  newtype u16 = x: int | 0 <= x < 0x10000

  const UNI_SUR_HIGH_START: int := 0xD800
  const UNI_SUR_HIGH_END: int := 0xDBFF
  const UNI_SUR_LOW_START: int := 0xDC00
  const UNI_SUR_LOW_END: int := 0xDFFF
  const UNI_REPLACEMENT_CHAR: int := 0xFFFD
  const MIN_SUPPLEMENTARY_CODE_POINT: int := 0x10000
  const UNI_MAX_BMP: int := 0xFFFF
  const HALF_MASK: int := 0x3FF

  /** MIN_SUPPLEMENTARY_CODE_POINT - (UNI_SUR_HIGH_START << 10) - UNI_SUR_LOW_START */
  const SURROGATE_OFFSET: int := 0x10000 - 0xD800 * 1024 - 0xDC00

  /** LEAD_SURROGATE_MIN_VALUE - (SUPPLEMENTARY_MIN_VALUE >> LEAD_SURROGATE_SHIFT_) */
  const LEAD_SURROGATE_OFFSET: int := 0xD800 - 0x10000 / 1024
  const TRAIL_SURROGATE_MIN_VALUE: int := 0xDC00

  /** The marker stored in the lead-byte table for an illegal lead byte. */
  const INVALID_LEAD: int := -0x8000_0000

  datatype Error = ArgumentError | IndexOutOfRange

  datatype Result<T> = Ok(value: T) | Err(error: Error)

  predicate IsHigh(c: u16) { UNI_SUR_HIGH_START <= c as int <= UNI_SUR_HIGH_END }
  predicate IsLow(c: u16) { UNI_SUR_LOW_START <= c as int <= UNI_SUR_LOW_END }
  predicate IsSurrogate(c: u16) { UNI_SUR_HIGH_START <= c as int <= UNI_SUR_LOW_END }

  /** A Unicode scalar value: a code point that is not a surrogate. */
  predicate IsScalar(cp: int) {
    0 <= cp <= 0x10FFFF && !(UNI_SUR_HIGH_START <= cp <= UNI_SUR_LOW_END)
  }

  /** The code point of a high/low surrogate pair:
      `(high << 10) + low + SURROGATE_OFFSET`. */
  function Combine(high: u16, low: u16): (cp: int)
    requires IsHigh(high) && IsLow(low)
    ensures MIN_SUPPLEMENTARY_CODE_POINT <= cp <= 0x10FFFF
  {
    high as int * 1024 + low as int + SURROGATE_OFFSET
  }

  // ---------------------------------------------------------------------
  // UTF-16 validity
  // ---------------------------------------------------------------------

  /** Every high surrogate is immediately followed by a low surrogate, and
      every low surrogate immediately follows a high surrogate. */
  ghost predicate ValidUtf16(s: seq<u16>) {
    forall i {:trigger s[i]} :: 0 <= i < |s| ==>
      (IsHigh(s[i]) ==> i + 1 < |s| && IsLow(s[i + 1])) &&
      (IsLow(s[i]) ==> 0 < i && IsHigh(s[i - 1]))
  }

  // ---------------------------------------------------------------------
  // UTF-16 to UTF-8 (RFC 3629 section 3)
  // ---------------------------------------------------------------------

  /** The 3-byte form of a code unit below 0x10000. The `|` of the source is
      a `+` here: the or-ed bit fields never overlap. */
  function Three(code: int): seq<byte>
    requires 0 <= code < 0x10000
  {
    [(0xE0 + code / 4096) as byte, (0x80 + (code / 64) % 64) as byte, (0x80 + code % 64) as byte]
  }

  /** The 4-byte form of a supplementary code point. */
  function Four(cp: int): seq<byte>
    requires 0 <= cp <= 0x10FFFF
  {
    [(0xF0 + cp / 262144) as byte, (0x80 + (cp / 4096) % 64) as byte,
     (0x80 + (cp / 64) % 64) as byte, (0x80 + cp % 64) as byte]
  }

  const REPLACEMENT_BYTES: seq<byte> := [0xEF, 0xBF, 0xBD]

  /** What the encoder writes for the code units at the front of `s`, and how
      many code units it consumes (two for a surrogate pair, else one). */
  function EncodeFirst(s: seq<u16>): (r: (seq<byte>, nat))
    requires |s| > 0
    ensures r.1 == 1 || r.1 == 2
    ensures r.1 <= |s|
    ensures 1 <= |r.0| <= 3 * r.1
  {
    var code := s[0] as int;
    if code < 0x80 then ([code as byte], 1)
    else if code < 0x800 then ([(0xC0 + code / 64) as byte, (0x80 + code % 64) as byte], 1)
    else if code < UNI_SUR_HIGH_START || code > UNI_SUR_LOW_END then (Three(code), 1)
    else if code < UNI_SUR_LOW_START && |s| > 1 && IsLow(s[1]) then (Four(Combine(s[0], s[1])), 2)
    else (REPLACEMENT_BYTES, 1)
  }

  /** The UTF-8 encoding of `s`; unpaired surrogates become U+FFFD. */
  function EncodeUtf8(s: seq<u16>): seq<byte>
    decreases |s|
  {
    if |s| == 0 then []
    else
      var first := EncodeFirst(s);
      first.0 + EncodeUtf8(s[first.1..])
  }

  /** The encoding never needs more than three bytes per code unit and never
      fewer than one, which is why the four-per-unit buffer always suffices. */
  lemma {:induction false} EncodeUtf8Length(s: seq<u16>)
    ensures |s| <= |EncodeUtf8(s)| <= 3 * |s|
    decreases |s|
  {
    if |s| > 0 {
      EncodeUtf8Length(s[EncodeFirst(s).1..]);
    }
  }

  // ---------------------------------------------------------------------
  // UTF-16 to code points (RFC 2781 section 2.2), the meaning of a UTF-16 text
  // ---------------------------------------------------------------------

  /** The code points a UTF-16 text stands for: a surrogate pair is one
      supplementary code point and an unpaired surrogate is U+FFFD, which is
      how the encoder treats it. */
  function CodePointsOf(s: seq<u16>): seq<int>
    decreases |s|
  {
    if |s| == 0 then []
    else if IsHigh(s[0]) && |s| > 1 && IsLow(s[1]) then [Combine(s[0], s[1])] + CodePointsOf(s[2..])
    else if IsSurrogate(s[0]) then [UNI_REPLACEMENT_CHAR] + CodePointsOf(s[1..])
    else [s[0] as int] + CodePointsOf(s[1..])
  }

  // ---------------------------------------------------------------------
  // UTF-8 lead bytes
  // ---------------------------------------------------------------------

  /** The lead-byte table: sequence length for each lead byte, INVALID_LEAD
      for a continuation byte. It has 248 entries, so the bytes 0xF8-0xFF
      fall outside it. */
  function Utf8CodeLength(): (t: seq<int>)
    ensures |t| == 248
    ensures forall i :: 0 <= i < 0x80 ==> t[i] == 1
    ensures forall i :: 0x80 <= i < 0xC0 ==> t[i] == INVALID_LEAD
    ensures forall i :: 0xC0 <= i < 0xE0 ==> t[i] == 2
    ensures forall i :: 0xE0 <= i < 0xF0 ==> t[i] == 3
    ensures forall i :: 0xF0 <= i < 248 ==> t[i] == 4
  {
    seq(248, i => if i < 0x80 then 1 else if i < 0xC0 then INVALID_LEAD
                  else if i < 0xE0 then 2 else if i < 0xF0 then 3 else 4)
  }

  /** The sequence length the code-point counter derives from a lead byte,
      0 for a byte it rejects (0x80-0xBF and 0xF8-0xFF). */
  function LeadLength(v: byte): (n: nat)
    ensures n <= 4
    ensures v as int < 248 && n != 0 ==> Utf8CodeLength()[v as int] == n
    ensures v as int < 248 && n == 0 ==> Utf8CodeLength()[v as int] == INVALID_LEAD
  {
    if v < 0x80 then 1
    else if v >= 0xC0 && v < 0xE0 then 2
    else if v >= 0xC0 && v < 0xF0 then 3
    else if v >= 0xC0 && v < 0xF8 then 4
    else 0
  }

  // ---------------------------------------------------------------------
  // Counting code points in UTF-8
  // ---------------------------------------------------------------------

  /** The counter over `n` bytes (`b` holds them and maybe more): one per lead
      byte, skipping the lead's sequence length; a rejected lead byte, or a
      last sequence that runs past the `n` bytes, is an argument error. */
  function CountCodePoints(b: seq<byte>, n: int): Result<nat>
    requires n <= |b|
    decreases n
  {
    if n <= 0 then (if n < 0 then Err(ArgumentError) else Ok(0))
    else
      var k := LeadLength(b[0]);
      if k == 0 || k > n then Err(ArgumentError)
      else match CountCodePoints(b[k..], n - k)
        case Ok(c) => Ok(c + 1)
        case Err(e) => Err(e)
  }

  // ---------------------------------------------------------------------
  // UTF-8 to UTF-32
  // ---------------------------------------------------------------------

  /** Payload bits of a lead byte: 5, 4 or 3 of them for 2-, 3- and 4-byte
      sequences (`& 31`, `& 15`, `& 7`). */
  function LeadBits(lead: byte, k: nat): int
    requires 2 <= k <= 4
  {
    if k == 2 then lead as int % 32 else if k == 3 then lead as int % 16 else lead as int % 8
  }

  /** `v` followed by the low 6 bits of each of `cont`. */
  function Continue(v: int, cont: seq<byte>): int
    decreases |cont|
  {
    if |cont| == 0 then v else Continue(v * 64 + cont[0] as int % 64, cont[1..])
  }

  /** The decoder over the `n` bytes that start `b`: one code point per
      sequence. A lead byte outside the 248-entry table is an index error, a
      table entry marked invalid an argument error; a sequence may read past
      the `n` bytes into the rest of `b`, and one that runs off the end of `b`
      is an index error. */
  function DecodeUtf32(b: seq<byte>, n: int): Result<seq<int>>
    requires n <= |b|
    decreases n
  {
    if n <= 0 then Ok([])
    else if b[0] as int >= |Utf8CodeLength()| then Err(IndexOutOfRange)
    else
      var numBytes := Utf8CodeLength()[b[0] as int];
      if numBytes == 1 then
        match DecodeUtf32(b[1..], n - 1)
        case Ok(rest) => Ok([b[0] as int] + rest)
        case Err(e) => Err(e)
      else if numBytes < 2 || numBytes > 4 then Err(ArgumentError)
      else if numBytes > |b| then Err(IndexOutOfRange)
      else
        var v := Continue(LeadBits(b[0], numBytes), b[1..numBytes]);
        match DecodeUtf32(b[numBytes..], n - numBytes)
        case Ok(rest) => Ok([v] + rest)
        case Err(e) => Err(e)
  }

  // ---------------------------------------------------------------------
  // UTF-8 to UTF-16
  // ---------------------------------------------------------------------

  /** What the UTF-16 decoder produces for the sequence at the front of `b`,
      and how many bytes it consumes; None when the sequence runs off the
      end of `b`. A byte below 0xC0 is copied as it is (a continuation byte in
      lead position is not rejected outside debug builds); a 4-byte value
      below 0xFFFF is one code unit, any other is split into two. */
  function DecodeFirst16(b: seq<byte>): (r: Option<(seq<u16>, nat)>)
    requires |b| > 0
    ensures r.Some? ==> 1 <= r.value.1 <= |b| && 1 <= |r.value.0| <= 2
  {
    var lead := b[0] as int;
    if lead < 0xC0 then Some(([lead as u16], 1))
    else if lead < 0xE0 then
      if |b| < 2 then None else Some(([((lead % 32) * 64 + b[1] as int % 64) as u16], 2))
    else if lead < 0xF0 then
      if |b| < 3 then None
      else Some(([((lead % 16) * 4096 + (b[1] as int % 64) * 64 + b[2] as int % 64) as u16], 3))
    else
      if |b| < 4 then None
      else
        var ch := (lead % 8) * 262144 + (b[1] as int % 64) * 4096 + (b[2] as int % 64) * 64 + b[3] as int % 64;
        if ch < UNI_MAX_BMP then Some(([ch as u16], 4))
        else
          var chHalf := ch - 0x10000;
          Some(([(chHalf / 1024 + 0xD800) as u16, (chHalf % 1024 + 0xDC00) as u16], 4))
  }

  /** The UTF-16 decoder over the `n` bytes that start `b`; a sequence may read
      past them into the rest of `b`, and one that runs off the end of `b` is
      an index error. */
  function DecodeUtf16(b: seq<byte>, n: int): Result<seq<u16>>
    requires n <= |b|
    decreases n
  {
    if n <= 0 then Ok([])
    else match DecodeFirst16(b)
      case None => Err(IndexOutOfRange)
      case Some(first) =>
        match DecodeUtf16(b[first.1..], n - first.1)
        case Ok(rest) => Ok(first.0 + rest)
        case Err(e) => Err(e)
  }

  // ---------------------------------------------------------------------
  // Code points to UTF-16 (RFC 2781 section 2.1)
  // ---------------------------------------------------------------------

  /** The code units of one code point in [0, 0x10FFFF]. */
  function CodePointUnits(cp: int): (r: seq<u16>)
    requires 0 <= cp <= 0x10FFFF
    ensures cp < 0x10000 ==> r == [cp as u16]
    ensures cp >= 0x10000 ==> |r| == 2 && IsHigh(r[0]) && IsLow(r[1]) && Combine(r[0], r[1]) == cp
  {
    if cp < 0x10000 then [cp as u16]
    else [(LEAD_SURROGATE_OFFSET + cp / 1024) as u16, (TRAIL_SURROGATE_MIN_VALUE + cp % 1024) as u16]
  }

  /** The conversion of `count` code points of `a` starting at `offset`: a
      position outside `a` is an index error, a value outside [0, 0x10FFFF] an
      argument error, whichever comes first. */
  function CodePointsToUtf16(a: seq<int>, offset: int, count: nat): Result<seq<u16>>
    decreases count
  {
    if count == 0 then Ok([])
    else if offset < 0 || offset >= |a| then Err(IndexOutOfRange)
    else if a[offset] < 0 || a[offset] > 0x10FFFF then Err(ArgumentError)
    else match CodePointsToUtf16(a, offset + 1, count - 1)
      case Ok(rest) => Ok(CodePointUnits(a[offset]) + rest)
      case Err(e) => Err(e)
  }

  predicate InRange(cps: seq<int>) {
    forall i :: 0 <= i < |cps| ==> 0 <= cps[i] <= 0x10FFFF
  }

  /** The UTF-16 form of a sequence of code points. */
  function UnitsOf(cps: seq<int>): seq<u16>
    requires InRange(cps)
  {
    if |cps| == 0 then [] else CodePointUnits(cps[0]) + UnitsOf(cps[1..])
  }

  // ---------------------------------------------------------------------
  // How the specification functions fit together
  // ---------------------------------------------------------------------

  /** The code points of any text are in range. */
  lemma {:induction false} CodePointsInRange(s: seq<u16>)
    ensures InRange(CodePointsOf(s))
    decreases |s|
  {
    if |s| > 0 {
      if IsHigh(s[0]) && |s| > 1 && IsLow(s[1]) {
        CodePointsInRange(s[2..]);
      } else {
        CodePointsInRange(s[1..]);
      }
    }
  }

  /** RFC 2781 round trip: a well-formed UTF-16 text is the UTF-16 form of
      its own code points. */
  lemma {:induction false} UnitsOfCodePoints(s: seq<u16>)
    requires ValidUtf16(s)
    ensures InRange(CodePointsOf(s))
    ensures UnitsOf(CodePointsOf(s)) == s
    decreases |s|
  {
    CodePointsInRange(s);
    if |s| > 0 {
      if IsHigh(s[0]) {
        assert |s| > 1 && IsLow(s[1]);
        var t := s[2..];
        assert ValidUtf16(t) by {
          forall i | 0 <= i < |t|
            ensures (IsHigh(t[i]) ==> i + 1 < |t| && IsLow(t[i + 1])) &&
                    (IsLow(t[i]) ==> 0 < i && IsHigh(t[i - 1]))
          {
            ValidAt(s, i + 2);
            ValidAt(s, i + 1);
            assert t[i] == s[i + 2];
            if i + 1 < |t| { assert t[i + 1] == s[i + 3]; }
            if i > 0 { assert t[i - 1] == s[i + 1]; }
          }
        }
        UnitsOfCodePoints(t);
        var cp := Combine(s[0], s[1]);
        assert CodePointUnits(cp) == [s[0], s[1]] by {
          HalvesOfCombine(s[0], s[1]);
        }
        assert s == [s[0], s[1]] + t;
      } else {
        ValidAt(s, 0);
        var t := s[1..];
        assert ValidUtf16(t) by {
          forall i | 0 <= i < |t|
            ensures (IsHigh(t[i]) ==> i + 1 < |t| && IsLow(t[i + 1])) &&
                    (IsLow(t[i]) ==> 0 < i && IsHigh(t[i - 1]))
          {
            ValidAt(s, i + 1);
            ValidAt(s, i);
            assert t[i] == s[i + 1];
            if i + 1 < |t| { assert t[i + 1] == s[i + 2]; }
            if i > 0 { assert t[i - 1] == s[i]; }
          }
        }
        UnitsOfCodePoints(t);
        assert s == [s[0]] + t;
      }
    }
  }

  lemma ValidAt(s: seq<u16>, i: int)
    requires ValidUtf16(s) && 0 <= i < |s|
    ensures IsHigh(s[i]) ==> i + 1 < |s| && IsLow(s[i + 1])
    ensures IsLow(s[i]) ==> 0 < i && IsHigh(s[i - 1])
  {
  }

  /** Splitting a supplementary code point into halves undoes Combine. */
  lemma HalvesOfCombine(high: u16, low: u16)
    requires IsHigh(high) && IsLow(low)
    ensures CodePointUnits(Combine(high, low)) == [high, low]
  {
    var cp := Combine(high, low);
    var h := high as int - 0xD800;
    var l := low as int - 0xDC00;
    assert cp == h * 1024 + l + 0x10000;
    assert cp / 1024 == h + 64;
    assert cp % 1024 == l;
  }

  /** The code points of the UTF-16 form of scalar values are those values,
      and that form is well-formed UTF-16. */
  lemma {:induction false} CodePointsOfUnits(cps: seq<int>)
    requires forall i :: 0 <= i < |cps| ==> IsScalar(cps[i])
    ensures InRange(cps)
    ensures CodePointsOf(UnitsOf(cps)) == cps
    ensures ValidUtf16(UnitsOf(cps))
    decreases |cps|
  {
    if |cps| > 0 {
      var rest := cps[1..];
      CodePointsOfUnits(rest);
      var u := CodePointUnits(cps[0]);
      var t := UnitsOf(rest);
      assert UnitsOf(cps) == u + t;
      ValidAfter(u, t);
      if cps[0] < 0x10000 {
        assert (u + t)[1..] == t;
      } else {
        assert (u + t)[2..] == t;
      }
    }
  }

  /** Prefixing the units of one scalar value keeps a text well-formed. */
  lemma ValidAfter(u: seq<u16>, t: seq<u16>)
    requires ValidUtf16(t)
    requires (|u| == 1 && !IsSurrogate(u[0])) || (|u| == 2 && IsHigh(u[0]) && IsLow(u[1]))
    ensures ValidUtf16(u + t)
  {
    var w := u + t;
    forall i | 0 <= i < |w|
      ensures (IsHigh(w[i]) ==> i + 1 < |w| && IsLow(w[i + 1])) &&
              (IsLow(w[i]) ==> 0 < i && IsHigh(w[i - 1]))
    {
      if i >= |u| {
        ValidAt(t, i - |u|);
        assert w[i] == t[i - |u|];
        if i + 1 < |w| { assert w[i + 1] == t[i + 1 - |u|]; }
        if i - |u| > 0 { assert w[i - 1] == t[i - |u| - 1]; }
      } else if i + 1 < |w| && i + 1 >= |u| {
        assert w[i + 1] == t[0];
        ValidAt(t, 0);
      }
    }
  }

  /** The UTF-8 form of one code point in [0, 0x10FFFF] (RFC 3629 section 3). */
  function Utf8Of(cp: int): (r: seq<byte>)
    requires 0 <= cp <= 0x10FFFF
    ensures 1 <= |r| <= 4
  {
    if cp < 0x80 then [cp as byte]
    else if cp < 0x800 then [(0xC0 + cp / 64) as byte, (0x80 + cp % 64) as byte]
    else if cp < 0x10000 then Three(cp)
    else Four(cp)
  }

  function Utf8OfAll(cps: seq<int>): seq<byte>
    requires InRange(cps)
  {
    if |cps| == 0 then [] else Utf8Of(cps[0]) + Utf8OfAll(cps[1..])
  }

  /** The encoder writes the RFC 3629 form of the text's code points. */
  lemma {:induction false} EncodeIsUtf8OfCodePoints(s: seq<u16>)
    ensures InRange(CodePointsOf(s))
    ensures EncodeUtf8(s) == Utf8OfAll(CodePointsOf(s))
    decreases |s|
  {
    CodePointsInRange(s);
    if |s| > 0 {
      var k := EncodeFirst(s).1;
      EncodeIsUtf8OfCodePoints(s[k..]);
      EncodeFirstIsUtf8(s);
    }
  }

  /** The encoder's first step writes the first code point's RFC 3629 form
      and consumes its code units. */
  lemma EncodeFirstIsUtf8(s: seq<u16>)
    requires |s| > 0
    ensures InRange(CodePointsOf(s)) && |CodePointsOf(s)| > 0
    ensures CodePointsOf(s)[1..] == CodePointsOf(s[EncodeFirst(s).1..])
    ensures EncodeFirst(s).0 == Utf8Of(CodePointsOf(s)[0])
  {
    CodePointsInRange(s);
    var code := s[0] as int;
    if code < UNI_SUR_HIGH_START || code > UNI_SUR_LOW_END {
      EncodeFirstScalar(s);
    } else if code < UNI_SUR_LOW_START && |s| > 1 && IsLow(s[1]) {
      EncodeFirstPair(s);
    } else {
      EncodeFirstLone(s);
    }
    assert CodePointsOf(s)[1..] == CodePointsOf(s[EncodeFirst(s).1..]);
  }

  /** A code unit outside the surrogates is its own code point. */
  lemma EncodeFirstScalar(s: seq<u16>)
    requires |s| > 0 && (s[0] as int < UNI_SUR_HIGH_START || s[0] as int > UNI_SUR_LOW_END)
    ensures CodePointsOf(s) == [s[0] as int] + CodePointsOf(s[1..])
    ensures EncodeFirst(s) == (Utf8Of(s[0] as int), 1)
  {
  }

  /** A surrogate pair is one supplementary code point, written in four
      bytes. */
  lemma EncodeFirstPair(s: seq<u16>)
    requires |s| > 1 && IsHigh(s[0]) && IsLow(s[1])
    ensures CodePointsOf(s) == [Combine(s[0], s[1])] + CodePointsOf(s[2..])
    ensures EncodeFirst(s) == (Utf8Of(Combine(s[0], s[1])), 2)
  {
  }

  /** An unpaired surrogate is U+FFFD, written in three bytes. */
  lemma EncodeFirstLone(s: seq<u16>)
    requires |s| > 0 && IsSurrogate(s[0]) && !(IsHigh(s[0]) && |s| > 1 && IsLow(s[1]))
    ensures CodePointsOf(s) == [UNI_REPLACEMENT_CHAR] + CodePointsOf(s[1..])
    ensures EncodeFirst(s) == (Utf8Of(UNI_REPLACEMENT_CHAR), 1)
  {
    assert Utf8Of(UNI_REPLACEMENT_CHAR) == Three(0xFFFD) == REPLACEMENT_BYTES;
  }

  /** Decoding the 2-byte form gives the code point back. */
  lemma TwoBytes(cp: int)
    requires 0x80 <= cp < 0x800
    ensures var b := Utf8Of(cp);
      0xC0 <= b[0] < 0xE0 && (b[0] as int % 32) * 64 + b[1] as int % 64 == cp
  {
    var b := Utf8Of(cp);
    assert b[0] as int == 0xC0 + cp / 64;
    assert b[0] as int % 32 == cp / 64;
  }

  /** Decoding the 3-byte form gives the code point back. */
  lemma ThreeBytes(cp: int)
    requires 0 <= cp < 0x10000
    ensures var b := Three(cp);
      0xE0 <= b[0] < 0xF0 && (b[0] as int % 16) * 4096 + (b[1] as int % 64) * 64 + b[2] as int % 64 == cp
  {
    var b := Three(cp);
    var q := cp / 4096;
    var m := (cp / 64) % 64;
    assert b[0] as int % 16 == q;
    assert b[1] as int % 64 == m;
    assert b[2] as int % 64 == cp % 64;
    assert cp / 64 == q * 64 + m;
  }

  /** Decoding the 4-byte form gives the code point back. */
  lemma FourBytes(cp: int)
    requires 0x10000 <= cp <= 0x10FFFF
    ensures var b := Four(cp);
      0xF0 <= b[0] < 0xF8 &&
      (b[0] as int % 8) * 262144 + (b[1] as int % 64) * 4096 + (b[2] as int % 64) * 64 + b[3] as int % 64 == cp
  {
    var b := Four(cp);
    SixBitDigits(cp);
    var q := cp / 262144;
    var m1 := (cp / 4096) % 64;
    var m2 := (cp / 64) % 64;
    var m3 := cp % 64;
    assert b[0] as int == 0xF0 + q && b[0] as int % 8 == q;
    assert b[1] as int == 0x80 + m1 && b[1] as int % 64 == m1;
    assert b[2] as int == 0x80 + m2 && b[2] as int % 64 == m2;
    assert b[3] as int == 0x80 + m3 && b[3] as int % 64 == m3;
  }

  /** A number below 2^21 is its four base-64 digits. */
  lemma SixBitDigits(n: int)
    requires 0 <= n < 0x20_0000
    ensures n / 262144 < 8
    ensures n == (n / 262144) * 262144 + ((n / 4096) % 64) * 4096 + ((n / 64) % 64) * 64 + n % 64
  {
    var a := n / 64;
    var c := a / 64;
    var e := c / 64;
    assert n == 64 * a + n % 64;
    assert a == 64 * c + a % 64;
    assert c == 64 * e + c % 64;
    assert n == 4096 * c + 64 * (a % 64) + n % 64;
    assert n / 4096 == c;
    assert n == 262144 * e + 4096 * (c % 64) + 64 * (a % 64) + n % 64;
    assert n / 262144 == e;
  }

  /** The UTF-16 decoder reads one RFC 3629 sequence as the code point's
      UTF-16 form. */
  lemma DecodeFirst16OfUtf8(cp: int, rest: seq<byte>)
    requires 0 <= cp <= 0x10FFFF
    ensures DecodeFirst16(Utf8Of(cp) + rest) == Some((CodePointUnits(cp), |Utf8Of(cp)|))
  {
    var b := Utf8Of(cp) + rest;
    if cp < 0x80 {
    } else if cp < 0x800 {
      TwoBytes(cp);
      assert b[0] == Utf8Of(cp)[0] && b[1] == Utf8Of(cp)[1];
    } else if cp < 0x10000 {
      ThreeBytes(cp);
      assert b[..3] == Three(cp);
    } else {
      FourBytes(cp);
      assert b[..4] == Four(cp);
      assert (cp - 0x10000) / 1024 + 0xD800 == LEAD_SURROGATE_OFFSET + cp / 1024;
      assert (cp - 0x10000) % 1024 == cp % 1024;
    }
  }

  /** Decoding the UTF-8 form of code points to UTF-16 gives their UTF-16
      form, and never reads past the encoded bytes. */
  lemma {:induction false} DecodeUtf16OfUtf8(cps: seq<int>)
    requires InRange(cps)
    ensures DecodeUtf16(Utf8OfAll(cps), |Utf8OfAll(cps)|) == Ok(UnitsOf(cps))
    decreases |cps|
  {
    if |cps| > 0 {
      var rest := Utf8OfAll(cps[1..]);
      DecodeUtf16OfUtf8(cps[1..]);
      DecodeFirst16OfUtf8(cps[0], rest);
      assert (Utf8Of(cps[0]) + rest)[|Utf8Of(cps[0])|..] == rest;
    }
  }

  /** Decoding the encoder's output to UTF-16 yields the text with every
      unpaired surrogate replaced by U+FFFD; a well-formed text comes back
      unchanged. */
  lemma EncodeThenDecode16(s: seq<u16>)
    ensures InRange(CodePointsOf(s))
    ensures DecodeUtf16(EncodeUtf8(s), |EncodeUtf8(s)|) == Ok(UnitsOf(CodePointsOf(s)))
    ensures ValidUtf16(s) ==> DecodeUtf16(EncodeUtf8(s), |EncodeUtf8(s)|) == Ok(s)
  {
    EncodeIsUtf8OfCodePoints(s);
    DecodeUtf16OfUtf8(CodePointsOf(s));
    if ValidUtf16(s) {
      UnitsOfCodePoints(s);
    }
  }

  lemma ContinueTwo(v: int, c: seq<byte>)
    requires |c| == 2
    ensures Continue(v, c) == (v * 64 + c[0] as int % 64) * 64 + c[1] as int % 64
  {
    var w := v * 64 + c[0] as int % 64;
    assert c[1..][1..] == [];
    assert Continue(w, c[1..]) == w * 64 + c[1] as int % 64;
  }

  /** The UTF-32 decoder reads one RFC 3629 sequence as its code point. */
  lemma DecodeFirst32OfUtf8(cp: int, rest: seq<byte>)
    requires 0 <= cp <= 0x10FFFF
    ensures var b := Utf8Of(cp) + rest; var k := |Utf8Of(cp)|;
      b[0] as int < 248 && Utf8CodeLength()[b[0] as int] == k &&
      LeadLength(b[0]) == k &&
      (k == 1 ==> b[0] as int == cp) &&
      (k > 1 ==> Continue(LeadBits(b[0], k), b[1..k]) == cp)
  {
    var b := Utf8Of(cp) + rest;
    var k := |Utf8Of(cp)|;
    if cp < 0x80 {
    } else if cp < 0x800 {
      TwoBytes(cp);
      var c := b[1..2];
      assert c[1..] == [];
      assert Continue(LeadBits(b[0], 2), c) == LeadBits(b[0], 2) * 64 + c[0] as int % 64;
    } else if cp < 0x10000 {
      ThreeBytes(cp);
      ContinueTwo(LeadBits(b[0], 3), b[1..3]);
    } else {
      FourBytes(cp);
      var c := b[1..4];
      ContinueTwo(LeadBits(b[0], 4) * 64 + c[0] as int % 64, c[1..]);
    }
  }

  /** Decoding the UTF-8 form of code points to UTF-32 gives them back. */
  lemma {:induction false} DecodeUtf32OfUtf8(cps: seq<int>)
    requires InRange(cps)
    ensures DecodeUtf32(Utf8OfAll(cps), |Utf8OfAll(cps)|) == Ok(cps)
    decreases |cps|
  {
    if |cps| > 0 {
      var rest := Utf8OfAll(cps[1..]);
      var first := Utf8Of(cps[0]);
      var b := first + rest;
      DecodeUtf32OfUtf8(cps[1..]);
      DecodeFirst32OfUtf8(cps[0], rest);
      var k := |first|;
      assert Utf8OfAll(cps) == b && |b| == k + |rest|;
      assert b[k..] == rest;
      assert DecodeUtf32(b[k..], |b| - k) == Ok(cps[1..]);
      assert [cps[0]] + cps[1..] == cps;
      if k == 1 {
        assert DecodeUtf32(b, |b|) == Ok([b[0] as int] + cps[1..]);
      } else {
        assert DecodeUtf32(b, |b|) == Ok([Continue(LeadBits(b[0], k), b[1..k])] + cps[1..]);
      }
    }
  }

  /** Counting the code points of the UTF-8 form of code points gives their
      number. */
  lemma {:induction false} CountOfUtf8(cps: seq<int>)
    requires InRange(cps)
    ensures CountCodePoints(Utf8OfAll(cps), |Utf8OfAll(cps)|) == Ok(|cps|)
    decreases |cps|
  {
    if |cps| > 0 {
      var rest := Utf8OfAll(cps[1..]);
      var first := Utf8Of(cps[0]);
      var b := first + rest;
      CountOfUtf8(cps[1..]);
      DecodeFirst32OfUtf8(cps[0], rest);
      assert b[|first|..] == rest;
    }
  }

  /** Decoding the encoder's output to UTF-32 yields the text's code points
      (U+FFFD for each unpaired surrogate), and the counter agrees with it. */
  lemma EncodeThenDecode32(s: seq<u16>)
    ensures DecodeUtf32(EncodeUtf8(s), |EncodeUtf8(s)|) == Ok(CodePointsOf(s))
    ensures CountCodePoints(EncodeUtf8(s), |EncodeUtf8(s)|) == Ok(|CodePointsOf(s)|)
  {
    EncodeIsUtf8OfCodePoints(s);
    DecodeUtf32OfUtf8(CodePointsOf(s));
    CountOfUtf8(CodePointsOf(s));
  }

  /** The converter from code points succeeds exactly on in-range input
      inside the array, with the code points' UTF-16 form. */
  lemma {:induction false} CodePointsToUtf16Ok(a: seq<int>, offset: int, count: nat)
    requires 0 <= offset && offset + count <= |a|
    requires InRange(a[offset..offset + count])
    ensures CodePointsToUtf16(a, offset, count) == Ok(UnitsOf(a[offset..offset + count]))
    decreases count
  {
    if count > 0 {
      var cps := a[offset..offset + count];
      assert cps[0] == a[offset];
      assert cps[1..] == a[offset + 1..offset + count];
      CodePointsToUtf16Ok(a, offset + 1, count - 1);
    }
  }

  // ---------------------------------------------------------------------
  // Buffers
  // ---------------------------------------------------------------------

  /** A slice `bytes[offset..offset + length]` of a byte array. */
  class BytesRef {
    var bytes: array<byte>
    var offset: int
    var length: int

    constructor (bytes: array<byte>, offset: int, length: int)
      ensures this.bytes == bytes && this.offset == offset && this.length == length
    {
      this.bytes := bytes;
      this.offset := offset;
      this.length := length;
    }
  }

  /** A slice `ints[offset..offset + length]` of an int array. */
  class IntsRef {
    var ints: array<int>
    var offset: int
    var length: int

    constructor (ints: array<int>, offset: int, length: int)
      ensures this.ints == ints && this.offset == offset && this.length == length
    {
      this.ints := ints;
      this.offset := offset;
      this.length := length;
    }
  }

  /** A slice `chars[offset..offset + length]` of a UTF-16 code unit array. */
  class CharsRef {
    var chars: array<u16>
    var offset: int
    var length: int

    constructor (chars: array<u16>, offset: int, length: int)
      ensures this.chars == chars && this.offset == offset && this.length == length
    {
      this.chars := chars;
      this.offset := offset;
      this.length := length;
    }

    /** The code unit at `index` of the slice. */
    function CharAt(index: int): (c: u16)
      reads this, chars
      requires 0 <= offset + index < chars.Length
      ensures c == chars[offset + index]
    {
      chars[offset + index]
    }
  }

  // ---------------------------------------------------------------------
  // The converters
  // ---------------------------------------------------------------------

  /** Regrouping the output written so far with what remains to be written. */
  lemma Regroup<T>(written: seq<T>, before: seq<T>, piece: seq<T>, rest: seq<T>, here: seq<T>, total: seq<T>)
    requires written == before + piece && here == piece + rest && before + here == total
    ensures written + rest == total
  {
  }

  /** One step of the encoder loop over `s[i..stop]`: the bytes of the code
      unit at `i` (with its low surrogate when it starts a pair), followed by
      the encoding of the rest. */
  lemma EncodeStep(s: seq<u16>, i: int, stop: int, next: int, piece: seq<byte>)
    requires 0 <= i < stop <= |s|
    requires var code := s[i] as int;
      if code < 0x80 then next == i + 1 && piece == [code as byte]
      else if code < 0x800 then next == i + 1 && piece == [(0xC0 + code / 64) as byte, (0x80 + code % 64) as byte]
      else if code < 0xD800 || code > 0xDFFF then next == i + 1 && piece == Three(code)
      else if code < 0xDC00 && i < stop - 1 && IsLow(s[i + 1]) then
        next == i + 2 && piece == Four(code * 1024 + s[i + 1] as int + SURROGATE_OFFSET)
      else next == i + 1 && piece == REPLACEMENT_BYTES
    ensures EncodeUtf8(s[i..stop]) == piece + EncodeUtf8(s[next..stop])
  {
    var t := s[i..stop];
    assert t[0] == s[i];
    if |t| > 1 { assert t[1] == s[i + 1]; }
    assert EncodeFirst(t) == (piece, next - i);
    assert t[next - i..] == s[next..stop];
  }

  /** The body of the encoder loops: writes the UTF-8 bytes of the code unit
      at `i` of `s[..end]` (of the pair it starts, if any) at `out[upto..]`
      and returns the positions after them. */
  method EncodeCodeUnit(s: seq<u16>, i: int, end: int, out: array<byte>, upto: int)
      returns (next: int, written: int)
    requires 0 <= i < end <= |s|
    requires 0 <= upto && upto + 3 * (end - i) <= out.Length
    modifies out
    ensures i < next <= end && next <= i + 2
    ensures upto < written <= upto + 3 * (next - i)
    ensures out[..upto] == old(out[..upto])
    ensures EncodeUtf8(s[i..end]) == out[upto..written] + EncodeUtf8(s[next..end])
  {
    ghost var piece: seq<byte>;
    var code := s[i] as int;
    written := upto;
    next := i;
    if code < 0x80 {
      out[written] := code as byte;
      written := written + 1;
      piece := [code as byte];
    } else if code < 0x800 {
      out[written] := (0xC0 + code / 64) as byte;
      out[written + 1] := (0x80 + code % 64) as byte;
      written := written + 2;
      piece := [(0xC0 + code / 64) as byte, (0x80 + code % 64) as byte];
    } else if code < 0xD800 || code > 0xDFFF {
      out[written] := (0xE0 + code / 4096) as byte;
      out[written + 1] := (0x80 + (code / 64) % 64) as byte;
      out[written + 2] := (0x80 + code % 64) as byte;
      written := written + 3;
      piece := Three(code);
    } else if code < 0xDC00 && next < end - 1 && 0xDC00 <= s[next + 1] as int <= 0xDFFF {
      var utf32 := code * 1024 + s[next + 1] as int + SURROGATE_OFFSET;
      next := next + 1;
      out[written] := (0xF0 + utf32 / 262144) as byte;
      out[written + 1] := (0x80 + (utf32 / 4096) % 64) as byte;
      out[written + 2] := (0x80 + (utf32 / 64) % 64) as byte;
      out[written + 3] := (0x80 + utf32 % 64) as byte;
      written := written + 4;
      piece := Four(utf32);
    } else {
      out[written] := 0xEF;
      out[written + 1] := 0xBF;
      out[written + 2] := 0xBD;
      written := written + 3;
      piece := REPLACEMENT_BYTES;
    }
    next := next + 1;
    assert out[upto..written] == piece;
    EncodeStep(s, i, end, next, piece);
  }

  /** The encoder loop over `s[offset..end]`, writing from `out[0]` on. */
  method EncodeLoop(s: seq<u16>, offset: int, end: int, out: array<byte>) returns (upto: int)
    requires 0 <= offset <= |s| && end <= |s|
    requires 3 * (end - offset) <= out.Length
    modifies out
    ensures 0 <= upto <= out.Length
    ensures out[..upto] == EncodeUtf8(s[offset..if end < offset then offset else end])
  {
    ghost var stop := if end < offset then offset else end;
    upto := 0;
    var i := offset;
    ghost var total := EncodeUtf8(s[offset..stop]);
    while i < end
      invariant offset <= i <= stop
      invariant 0 <= upto <= 3 * (i - offset)
      invariant out[..upto] + EncodeUtf8(s[i..stop]) == total
      decreases stop - i
    {
      ghost var before := out[..upto];
      ghost var start := i;
      ghost var from := upto;
      i, upto := EncodeCodeUnit(s, i, end, out, upto);
      Regroup(out[..upto], before, out[from..upto], EncodeUtf8(s[i..stop]), EncodeUtf8(s[start..stop]), total);
    }
    assert s[i..stop] == [];
  }

  /**
   * The loop both encoders share: encodes `s[offset..offset + length]` as
   * UTF-8 into `result`, which afterwards holds the bytes at offset 0. The byte array is replaced by a
   * fresh one of four bytes per code unit when it is shorter than that.
   */
  method EncodeInto(s: seq<u16>, offset: int, length: int, result: BytesRef)
    requires 0 <= offset && offset + (if length < 0 then 0 else length) <= |s|
    modifies result, result.bytes
    ensures result.offset == 0
    ensures 0 <= result.length <= result.bytes.Length
    ensures result.bytes[..result.length] == EncodeUtf8(s[offset..offset + (if length < 0 then 0 else length)])
    ensures result.bytes.Length >= 4 * length
    ensures old(result.bytes.Length) >= 4 * length ==> result.bytes == old(result.bytes)
    ensures old(result.bytes.Length) < 4 * length ==> fresh(result.bytes) && result.bytes.Length == 4 * length
  {
    var end := offset + length;
    ghost var stop := if length < 0 then offset else end;
    var out := result.bytes;
    result.offset := 0;
    var maxLen := length * 4;
    if out.Length < maxLen {
      out := new byte[maxLen];
      result.bytes := out;
    }
    var upto := EncodeLoop(s, offset, end, out);
    result.length := upto;
  }

  /** Encodes `s[offset..offset + length]` as UTF-8 into `result`. */
  method Utf16ToUtf8(s: array<u16>, offset: int, length: int, result: BytesRef)
    requires 0 <= offset && offset + (if length < 0 then 0 else length) <= s.Length
    modifies result, result.bytes
    ensures result.offset == 0
    ensures 0 <= result.length <= result.bytes.Length
    ensures result.bytes[..result.length] == EncodeUtf8(s[offset..offset + (if length < 0 then 0 else length)])
    ensures result.bytes.Length >= 4 * length
    ensures old(result.bytes.Length) >= 4 * length ==> result.bytes == old(result.bytes)
    ensures old(result.bytes.Length) < 4 * length ==> fresh(result.bytes) && result.bytes.Length == 4 * length
  {
    EncodeInto(s[..], offset, length, result);
    assert s[..][offset..offset + (if length < 0 then 0 else length)] == s[offset..offset + (if length < 0 then 0 else length)];
  }

  /**
   * The same encoder over the code units `source.CharAt(offset)` ..
   * `source.CharAt(offset + length - 1)` of a character slice.
   */
  method Utf16ToUtf8FromChars(source: CharsRef, offset: int, length: int, result: BytesRef)
    requires 0 <= source.offset && 0 <= offset
    requires source.offset + offset + (if length < 0 then 0 else length) <= source.chars.Length
    modifies result, result.bytes
    ensures result.offset == 0
    ensures 0 <= result.length <= result.bytes.Length
    ensures result.bytes[..result.length] ==
      EncodeUtf8(source.chars[source.offset + offset..source.offset + offset + (if length < 0 then 0 else length)])
    ensures result.bytes.Length >= 4 * length
    ensures old(result.bytes.Length) >= 4 * length ==> result.bytes == old(result.bytes)
    ensures old(result.bytes.Length) < 4 * length ==> fresh(result.bytes) && result.bytes.Length == 4 * length
  {
    var start := source.offset + offset;
    var text := source.chars[start..start + (if length < 0 then 0 else length)];
    EncodeInto(text, 0, length, result);
    assert text[0..|text|] == text;
  }

  // ---------------------------------------------------------------------
  // Validation
  // ---------------------------------------------------------------------

  lemma ValidExtendOne(p: seq<u16>, c: u16)
    requires ValidUtf16(p) && !IsSurrogate(c)
    ensures ValidUtf16(p + [c])
  {
    ValidAfterPrefix(p, [c]);
  }

  lemma ValidExtendPair(p: seq<u16>, h: u16, l: u16)
    requires ValidUtf16(p) && IsHigh(h) && IsLow(l)
    ensures ValidUtf16(p + [h, l])
  {
    ValidAfterPrefix(p, [h, l]);
  }

  /** A well-formed text followed by one scalar value's units is well-formed. */
  lemma ValidAfterPrefix(p: seq<u16>, u: seq<u16>)
    requires ValidUtf16(p)
    requires (|u| == 1 && !IsSurrogate(u[0])) || (|u| == 2 && IsHigh(u[0]) && IsLow(u[1]))
    ensures ValidUtf16(p + u)
  {
    var w := p + u;
    forall i | 0 <= i < |w|
      ensures (IsHigh(w[i]) ==> i + 1 < |w| && IsLow(w[i + 1])) &&
              (IsLow(w[i]) ==> 0 < i && IsHigh(w[i - 1]))
    {
      if i < |p| {
        ValidAt(p, i);
        assert w[i] == p[i];
        if i + 1 < |p| { assert w[i + 1] == p[i + 1]; }
        if i > 0 { assert w[i - 1] == p[i - 1]; }
      } else if i > 0 && i - 1 < |p| {
        ValidAt(p, i - 1);
        assert w[i - 1] == p[i - 1];
      }
    }
  }

  /** A well-formed text does not end in a high surrogate. */
  lemma LastNotHigh(p: seq<u16>)
    requires ValidUtf16(p) && |p| > 0
    ensures !IsHigh(p[|p| - 1])
  {
    ValidAt(p, |p| - 1);
  }

  /** Whether `s[..size]` is well-formed UTF-16: no unpaired high or low
      surrogate. A size below zero checks nothing. */
  method ValidUtf16Prefix(s: array<u16>, size: int) returns (r: bool)
    requires size <= s.Length
    ensures r == ValidUtf16(s[..if size < 0 then 0 else size])
  {
    ghost var n := if size < 0 then 0 else size;
    var i := 0;
    while i < size
      invariant 0 <= i <= n
      invariant ValidUtf16(s[..i])
      decreases n - i
    {
      var ch := s[i];
      if ch as int >= UNI_SUR_HIGH_START && ch as int <= UNI_SUR_HIGH_END {
        if i < size - 1 {
          i := i + 1;
          var nextCH := s[i];
          if nextCH as int >= UNI_SUR_LOW_START && nextCH as int <= UNI_SUR_LOW_END {
            ValidExtendPair(s[..i - 1], ch, nextCH);
            assert s[..i + 1] == s[..i - 1] + [ch, nextCH];
          } else {
            ValidAt2Fails(s[..n], i - 1);
            return false;
          }
        } else {
          ValidAt2Fails(s[..n], i);
          return false;
        }
      } else if ch as int >= UNI_SUR_LOW_START && ch as int <= UNI_SUR_LOW_END {
        if i > 0 { LastNotHigh(s[..i]); }
        ValidAt2Fails(s[..n], i);
        return false;
      } else {
        ValidExtendOne(s[..i], ch);
        assert s[..i + 1] == s[..i] + [ch];
      }
      i := i + 1;
    }
    assert s[..i] == s[..n];
    return true;
  }

  /** A position whose surrogate is unpaired makes the text ill-formed. */
  lemma ValidAt2Fails(s: seq<u16>, i: int)
    requires 0 <= i < |s|
    requires (IsHigh(s[i]) && !(i + 1 < |s| && IsLow(s[i + 1]))) ||
             (IsLow(s[i]) && !(0 < i && IsHigh(s[i - 1])))
    ensures !ValidUtf16(s)
  {
    if ValidUtf16(s) { ValidAt(s, i); }
  }

  /** Whether the whole array is well-formed UTF-16. */
  method ValidUtf16String(s: array<u16>) returns (r: bool)
    ensures r == ValidUtf16(s[..])
  {
    r := ValidUtf16Prefix(s, s.Length);
    assert s[..s.Length] == s[..];
  }

  // ---------------------------------------------------------------------
  // Decoding
  // ---------------------------------------------------------------------

  /** `r` with `p` in front of its value. */
  function Prepend<T>(p: seq<T>, r: Result<seq<T>>): Result<seq<T>> {
    match r
    case Ok(v) => Ok(p + v)
    case Err(e) => Err(e)
  }

  /** The body of the UTF-16 decoder loop: decodes the sequence whose lead
      byte is `utf8[pos]`, writing its code units at `out[written..]`. False
      when a read runs off `utf8` or a write off `out`. */
  method DecodeSequence16(utf8: array<byte>, pos: int, out: array<u16>, written: int)
      returns (ok: bool, next: int, upto: int)
    requires 0 <= pos < utf8.Length && 0 <= written <= out.Length
    modifies out
    ensures out[..written] == old(out[..written])
    ensures ok ==> (pos < next <= utf8.Length && written <= upto <= out.Length &&
      DecodeFirst16(utf8[pos..]) == Some((out[written..upto], next - pos)))
    ensures !ok ==> (DecodeFirst16(utf8[pos..]).None? ||
      written + |DecodeFirst16(utf8[pos..]).value.0| > out.Length)
  {
    ghost var b := utf8[pos..];
    assert b[0] == utf8[pos];
    next := pos;
    upto := written;
    var lead := utf8[next] as int;
    next := next + 1;
    if lead < 0xC0 {
      assert DecodeFirst16(b) == Some(([lead as u16], 1));
      if upto >= out.Length { return false, next, upto; }
      out[upto] := lead as u16;
      upto := upto + 1;
      assert out[written..upto] == [lead as u16];
    } else if lead < 0xE0 {
      if next >= utf8.Length { return false, next, upto; }
      assert b[1] == utf8[next];
      var unit := ((lead % 32) * 64 + utf8[next] as int % 64) as u16;
      assert DecodeFirst16(b) == Some(([unit], 2));
      next := next + 1;
      if upto >= out.Length { return false, next, upto; }
      out[upto] := unit;
      upto := upto + 1;
      assert out[written..upto] == [unit];
    } else if lead < 0xF0 {
      if next + 1 >= utf8.Length { return false, next, upto; }
      assert b[1] == utf8[next] && b[2] == utf8[next + 1];
      var unit := ((lead % 16) * 4096 + (utf8[next] as int % 64) * 64 + utf8[next + 1] as int % 64) as u16;
      assert DecodeFirst16(b) == Some(([unit], 3));
      next := next + 2;
      if upto >= out.Length { return false, next, upto; }
      out[upto] := unit;
      upto := upto + 1;
      assert out[written..upto] == [unit];
    } else {
      if next + 2 >= utf8.Length { return false, next, upto; }
      assert b[1] == utf8[next] && b[2] == utf8[next + 1] && b[3] == utf8[next + 2];
      var ch := (lead % 8) * 262144 + (utf8[next] as int % 64) * 4096
        + (utf8[next + 1] as int % 64) * 64 + utf8[next + 2] as int % 64;
      next := next + 3;
      if ch < UNI_MAX_BMP {
        assert DecodeFirst16(b) == Some(([ch as u16], 4));
        if upto >= out.Length { return false, next, upto; }
        out[upto] := ch as u16;
        upto := upto + 1;
        assert out[written..upto] == [ch as u16];
      } else {
        var chHalf := ch - 0x10000;
        var high := (chHalf / 1024 + 0xD800) as u16;
        var low := (chHalf % 1024 + 0xDC00) as u16;
        assert DecodeFirst16(b) == Some(([high, low], 4));
        if upto >= out.Length { return false, next, upto; }
        out[upto] := high;
        upto := upto + 1;
        if upto >= out.Length { return false, next, upto; }
        out[upto] := low;
        upto := upto + 1;
        assert out[written..upto] == [high, low];
      }
    }
    return true, next, upto;
  }

  lemma PrependNothing<T>(p: seq<T>, r: Result<seq<T>>)
    requires p == []
    ensures Prepend(p, r) == r
  {
    if r.Ok? { assert p + r.value == r.value; }
  }

  lemma Decode16Fails(before: seq<u16>, rest: seq<byte>, n: int, capacity: int, spec: Result<seq<u16>>)
    requires 0 < n <= |rest|
    requires Prepend(before, DecodeUtf16(rest, n)) == spec
    requires DecodeFirst16(rest).None? || |before| + |DecodeFirst16(rest).value.0| > capacity
    ensures spec.Err? || |spec.value| > capacity
  {
  }

  lemma Decode16Advances(before: seq<u16>, units: seq<u16>, written: seq<u16>, rest: seq<byte>, after: seq<byte>,
                         k: int, n: int, m: int, spec: Result<seq<u16>>)
    requires 0 < n <= |rest|
    requires Prepend(before, DecodeUtf16(rest, n)) == spec
    requires DecodeFirst16(rest) == Some((units, k))
    requires written == before + units && after == rest[k..] && m == n - k
    ensures m <= |after|
    ensures Prepend(written, DecodeUtf16(after, m)) == spec
  {
    match DecodeUtf16(after, m)
    case Ok(v) => assert written + v == before + (units + v);
    case Err(e) =>
  }

  /** `Decode16Advances` read off whole arrays `o` (code units) and `u` (bytes). */
  lemma Decode16Lands(before: seq<u16>, o: seq<u16>, outOffset: int, upto: int, u: seq<byte>,
                      pos: int, next: int, limit: int, spec: Result<seq<u16>>)
    requires 0 <= outOffset <= upto <= |o| && 0 <= pos < next <= |u| && pos < limit <= |u|
    requires before == o[..outOffset]
    requires Prepend(before, DecodeUtf16(u[pos..], limit - pos)) == spec
    requires DecodeFirst16(u[pos..]) == Some((o[outOffset..upto], next - pos))
    ensures Prepend(o[..upto], DecodeUtf16(u[next..], limit - next)) == spec
  {
    SplitPrefix(o, outOffset, upto);
    DropOfDrop(u, pos, next);
    Decode16Advances(before, o[outOffset..upto], o[..upto], u[pos..], u[next..],
                     next - pos, limit - pos, limit - next, spec);
  }

  /** One turn of the UTF-16 decoder loop, with what it keeps of the loop's
      invariant. */
  method DecodeStep16(utf8: array<byte>, pos: int, limit: int, out: array<u16>, outOffset: int,
                      ghost spec: Result<seq<u16>>)
      returns (ok: bool, next: int, upto: int)
    requires 0 <= pos < limit <= utf8.Length && 0 <= outOffset <= out.Length
    requires Prepend(out[..outOffset], DecodeUtf16(utf8[pos..], limit - pos)) == spec
    modifies out
    ensures ok ==> (pos < next <= utf8.Length && 0 <= upto <= out.Length &&
      Prepend(out[..upto], DecodeUtf16(utf8[next..], limit - next)) == spec)
    ensures !ok ==> (spec.Err? || |spec.value| > out.Length)
  {
    ghost var before := out[..outOffset];
    ghost var rest := utf8[pos..];
    ok, next, upto := DecodeSequence16(utf8, pos, out, outOffset);
    if !ok {
      Decode16Fails(before, rest, limit - pos, out.Length, spec);
      return;
    }
    Decode16Lands(before, out[..], outOffset, upto, utf8[..], pos, next, limit, spec);
  }

  /** The UTF-16 decoder loop over the bytes from `utf8[offset]` up to
      `limit`, writing from `out[0]` on. */
  method DecodeLoop16(utf8: array<byte>, offset: int, limit: int, out: array<u16>)
      returns (ok: bool, outOffset: int)
    requires 0 <= offset <= utf8.Length && limit <= utf8.Length
    modifies out
    ensures var spec := DecodeUtf16(utf8[offset..], limit - offset);
      if ok then 0 <= outOffset <= out.Length && spec == Ok(out[..outOffset])
      else spec.Err? || |spec.value| > out.Length
  {
    outOffset := 0;
    var pos := offset;
    ghost var spec := DecodeUtf16(utf8[offset..], limit - offset);
    PrependNothing(out[..outOffset], spec);
    while pos < limit
      invariant offset <= pos <= utf8.Length
      invariant 0 <= outOffset <= out.Length
      invariant Prepend(out[..outOffset], DecodeUtf16(utf8[pos..], limit - pos)) == spec
      decreases limit - pos
    {
      ok, pos, outOffset := DecodeStep16(utf8, pos, limit, out, outOffset, spec);
      if !ok {
        return;
      }
    }
    assert out[..outOffset] + [] == out[..outOffset];
    ok := true;
  }

  /**
   * Decodes the UTF-8 bytes `utf8[offset..offset + length]` into `chars`,
   * which afterwards holds the code units at offset 0. The array is
   * replaced by a fresh one of `grownLength` code units when it holds fewer
   * than `length`. The last sequence may read past the given bytes; reading
   * past the array, or writing more code units than the array holds, is an
   * index error.
   */
  method Utf8ToUtf16(utf8: array<byte>, offset: int, length: int, chars: CharsRef, grownLength: int)
      returns (r: Result<()>)
    requires 0 <= offset && offset + (if length < 0 then 0 else length) <= utf8.Length
    requires grownLength >= length
    modifies chars, chars.chars
    ensures chars.offset == 0
    ensures old(chars.chars.Length) >= length ==> chars.chars == old(chars.chars)
    ensures old(chars.chars.Length) < length ==> fresh(chars.chars) && chars.chars.Length == grownLength
    ensures match DecodeUtf16(utf8[offset..], length)
      case Ok(units) =>
        if |units| <= chars.chars.Length then
          r == Ok(()) && chars.length == |units| && chars.chars[..|units|] == units
        else r == Err(IndexOutOfRange) && chars.length == old(chars.length)
      case Err(e) => r == Err(IndexOutOfRange) && chars.length == old(chars.length)
  {
    chars.offset := 0;
    if chars.chars.Length < length {
      chars.chars := new u16[grownLength];
    }
    var out := chars.chars;
    var ok, outOffset := DecodeLoop16(utf8, offset, offset + length, out);
    if !ok {
      return Err(IndexOutOfRange);
    }
    chars.length := outOffset;
    return Ok(());
  }

  /** Appending one continuation byte shifts in its low 6 bits. */
  lemma {:induction false} ContinueSnoc(v: int, c: seq<byte>, x: byte)
    ensures Continue(v, c + [x]) == Continue(v, c) * 64 + x as int % 64
    decreases |c|
  {
    if |c| == 0 {
      assert ([] + [x])[1..] == [];
    } else {
      assert (c + [x])[1..] == c[1..] + [x];
      ContinueSnoc(v * 64 + c[0] as int % 64, c[1..], x);
    }
  }

  /** What one turn of the UTF-32 decoder loop leaves of a decoding that has
      not failed yet. */
  lemma Decode32Advances(before: seq<int>, cp: int, rest: seq<byte>, k: int, n: int, spec: Result<seq<int>>)
    requires 0 < n <= |rest| && 1 <= k <= |rest|
    requires Prepend(before, DecodeUtf32(rest, n)) == spec
    requires rest[0] as int < 248
    requires k == Utf8CodeLength()[rest[0] as int] && 1 <= k <= 4
    requires k == 1 ==> cp == rest[0] as int
    requires k > 1 ==> cp == Continue(LeadBits(rest[0], k), rest[1..k])
    ensures Prepend(before + [cp], DecodeUtf32(rest[k..], n - k)) == spec
  {
    match DecodeUtf32(rest[k..], n - k)
    case Ok(v) => assert before + [cp] + v == before + ([cp] + v);
    case Err(e) =>
  }

  /** The continuation bytes of a `numBytes`-byte sequence starting at
      `bytes[pos]`, shifted into `v`; false when they run off the array. */
  method ReadContinuation(bytes: array<byte>, pos: int, numBytes: int, v0: int)
      returns (ok: bool, v: int, next: int)
    requires 0 <= pos < bytes.Length && 2 <= numBytes <= 4
    ensures ok <==> pos + numBytes <= bytes.Length
    ensures ok ==> next == pos + numBytes && v == Continue(v0, bytes[pos + 1..next])
  {
    v := v0;
    next := pos + 1;
    var last := next + numBytes - 1;
    while next < last
      invariant pos + 1 <= next <= last && next <= bytes.Length
      invariant v == Continue(v0, bytes[pos + 1..next])
      decreases last - next
    {
      if next >= bytes.Length {
        return false, v, next;
      }
      assert bytes[pos + 1..next + 1] == bytes[pos + 1..next] + [bytes[next]];
      ContinueSnoc(v0, bytes[pos + 1..next], bytes[next]);
      v := v * 64 + bytes[next] as int % 64;
      next := next + 1;
    }
    ok := true;
  }

  /** The ways the UTF-32 decoder fails on the sequence at the front of
      `rest`: a lead byte past the table, a lead the table rejects, or a
      sequence running off the end of `rest`. */
  lemma Decode32Fails(before: seq<int>, rest: seq<byte>, n: int, spec: Result<seq<int>>)
    requires 0 < n <= |rest|
    requires Prepend(before, DecodeUtf32(rest, n)) == spec
    ensures rest[0] as int >= 248 ==> spec == Err(IndexOutOfRange)
    ensures rest[0] as int < 248 ==>
      var k := Utf8CodeLength()[rest[0] as int];
      (k != 1 && (k < 2 || k > 4) ==> spec == Err(ArgumentError))
      && (2 <= k <= 4 && k > |rest| ==> spec == Err(IndexOutOfRange))
  {
  }

  /** The multi-byte branches of the UTF-32 decoder: the lead byte's
      payload bits followed by the continuation bytes'. */
  method ReadSequence32(bytes: array<byte>, pos: int, numBytes: int) returns (ok: bool, v: int, next: int)
    requires 0 <= pos < bytes.Length && 2 <= numBytes <= 4
    ensures ok <==> pos + numBytes <= bytes.Length
    ensures ok ==> next == pos + numBytes && v == Continue(LeadBits(bytes[pos], numBytes), bytes[pos + 1..next])
  {
    if numBytes == 2 {
      v := bytes[pos] as int % 32;
    } else if numBytes == 3 {
      v := bytes[pos] as int % 16;
    } else {
      v := bytes[pos] as int % 8;
    }
    ok, v, next := ReadContinuation(bytes, pos, numBytes, v);
  }

  lemma SplitPrefix<T>(s: seq<T>, i: int, j: int)
    requires 0 <= i <= j <= |s|
    ensures s[..j] == s[..i] + s[i..j]
  {
  }

  lemma DropOfDrop<T>(s: seq<T>, i: int, j: int)
    requires 0 <= i <= j <= |s|
    ensures s[i..][j - i..] == s[j..]
  {
  }

  lemma SliceOfSlice<T>(s: seq<T>, pos: int, next: int)
    requires 0 <= pos < next <= |s|
    ensures s[pos..][1..next - pos] == s[pos + 1..next]
  {
  }

  /** One turn of the UTF-32 decoder loop: decodes the sequence whose lead
      byte is `bytes[pos]` into `ints[count]`. */
  method DecodeStep32(bytes: array<byte>, pos: int, limit: int, offset: int, ints: array<int>, count: int,
                      ghost spec: Result<seq<int>>)
      returns (r: Result<()>, next: int, upto: int)
    requires 0 <= offset <= pos < limit <= bytes.Length
    requires 0 <= count <= pos - offset && limit - offset <= ints.Length
    requires Prepend(ints[..count], DecodeUtf32(bytes[pos..], limit - pos)) == spec
    modifies ints
    ensures r.Ok? ==> (pos < next <= bytes.Length && upto == count + 1 && upto <= next - offset &&
      upto <= limit - offset &&
      Prepend(ints[..upto], DecodeUtf32(bytes[next..], limit - next)) == spec)
    ensures r.Err? ==> spec == Err(r.error)
  {
    ghost var before := ints[..count];
    ghost var rest := bytes[pos..];
    assert rest[0] == bytes[pos] && |rest| == bytes.Length - pos;
    Decode32Fails(before, rest, limit - pos, spec);
    next := pos;
    upto := count;
    if bytes[next] as int >= |Utf8CodeLength()| {
      return Err(IndexOutOfRange), next, upto;
    }
    var numBytes := Utf8CodeLength()[bytes[next] as int];
    var v := 0;
    if numBytes == 1 {
      ints[upto] := bytes[next] as int;
      upto := upto + 1;
      next := next + 1;
      assert ints[..upto] == before + [rest[0] as int];
      assert rest[1..] == bytes[next..];
      Decode32Advances(before, rest[0] as int, rest, 1, limit - pos, spec);
      return Ok(()), next, upto;
    } else if numBytes < 2 || numBytes > 4 {
      return Err(ArgumentError), next, upto;
    }
    var ok;
    ok, v, next := ReadSequence32(bytes, pos, numBytes);
    if !ok {
      return Err(IndexOutOfRange), next, upto;
    }
    assert v == Continue(LeadBits(rest[0], numBytes), rest[1..numBytes]) by {
      SliceOfSlice(bytes[..], pos, next);
    }
    assert rest[numBytes..] == bytes[next..];
    Decode32Advances(before, v, rest, numBytes, limit - pos, spec);
    ints[upto] := v;
    upto := upto + 1;
    assert ints[..upto] == before + [v];
    return Ok(()), next, upto;
  }

  /**
   * Decodes the UTF-8 bytes of `utf8` into code points in `utf32`, which
   * afterwards holds them at offset 0. The int array is replaced by a fresh
   * one of `utf8.length` entries when it is shorter than that. A sequence may
   * read past `utf8`'s slice; on an error `utf32`'s offset and length are
   * left as they were.
   */
  method Utf8ToUtf32(utf8: BytesRef, utf32: IntsRef) returns (r: Result<()>)
    requires 0 <= utf8.offset && utf8.offset + (if utf8.length < 0 then 0 else utf8.length) <= utf8.bytes.Length
    modifies utf32, utf32.ints
    ensures old(utf32.ints.Length) < utf8.length ==> fresh(utf32.ints) && utf32.ints.Length == utf8.length
    ensures old(utf32.ints.Length) >= utf8.length ==> utf32.ints == old(utf32.ints)
    ensures match DecodeUtf32(utf8.bytes[utf8.offset..], utf8.length)
      case Ok(cps) => r == Ok(()) && utf32.offset == 0 && utf32.length == |cps| &&
        |cps| <= utf32.ints.Length && utf32.ints[..|cps|] == cps
      case Err(e) => r == Err(e) && utf32.offset == old(utf32.offset) && utf32.length == old(utf32.length)
  {
    if utf32.ints.Length < utf8.length {
      utf32.ints := new int[utf8.length];
    }
    var count := 0;
    var pos := utf8.offset;
    var ints := utf32.ints;
    var bytes := utf8.bytes;
    var limit := utf8.offset + utf8.length;
    ghost var spec := DecodeUtf32(bytes[pos..], limit - pos);
    PrependNothing(ints[..count], spec);
    while pos < limit
      invariant utf8.offset <= pos <= bytes.Length
      invariant 0 <= count <= pos - utf8.offset && (count == 0 || count <= limit - utf8.offset)
      invariant ints == utf32.ints && limit - utf8.offset <= ints.Length
      invariant utf32.offset == old(utf32.offset) && utf32.length == old(utf32.length)
      invariant Prepend(ints[..count], DecodeUtf32(bytes[pos..], limit - pos)) == spec
      decreases limit - pos
    {
      r, pos, count := DecodeStep32(bytes, pos, limit, utf8.offset, ints, count, spec);
      if r.Err? {
        return;
      }
    }
    assert ints[..count] + [] == ints[..count];
    utf32.offset := 0;
    utf32.length := count;
    r := Ok(());
  }

  /** `r` with `c` added to its count. */
  function AddCount(c: nat, r: Result<nat>): Result<nat> {
    match r
    case Ok(m) => Ok(c + m)
    case Err(e) => Err(e)
  }

  /** What one accepted lead byte leaves of the count. */
  lemma CountAdvances(rest: seq<byte>, n: int, k: nat, c: nat, spec: Result<nat>)
    requires 0 < n <= |rest| && k == LeadLength(rest[0]) && k != 0
    requires AddCount(c, CountCodePoints(rest, n)) == spec
    ensures k <= n ==> AddCount(c + 1, CountCodePoints(rest[k..], n - k)) == spec
    ensures k > n ==> spec == Err(ArgumentError)
  {
    if k <= n {
      match CountCodePoints(rest[k..], n - k)
      case Ok(m) => assert c + (m + 1) == c + 1 + m;
      case Err(_) =>
    }
  }

  /**
   * The number of code points in `utf8`, judged from the lead bytes alone:
   * a byte that cannot start a sequence, or a last sequence that runs past
   * the slice, is an argument error.
   */
  method CodePointCount(utf8: BytesRef) returns (r: Result<nat>)
    requires 0 <= utf8.offset && utf8.offset + (if utf8.length < 0 then 0 else utf8.length) <= utf8.bytes.Length
    ensures r == CountCodePoints(utf8.bytes[utf8.offset..], utf8.length)
  {
    var pos := utf8.offset;
    var limit := pos + utf8.length;
    var bytes := utf8.bytes;
    ghost var spec := CountCodePoints(bytes[pos..], limit - pos);
    var codePointCount := 0;
    while pos < limit
      invariant utf8.offset <= pos
      invariant pos <= limit ==> AddCount(codePointCount, CountCodePoints(bytes[pos..], limit - pos)) == spec
      invariant pos > limit ==> spec == Err(ArgumentError)
      decreases limit - pos
    {
      ghost var rest := bytes[pos..];
      assert rest[0] == bytes[pos];
      var v := bytes[pos];
      var k := 0;
      if v < 0x80 {
        k := 1;
      } else if v >= 0xC0 {
        if v < 0xE0 {
          k := 2;
        } else if v < 0xF0 {
          k := 3;
        } else if v < 0xF8 {
          k := 4;
        }
      }
      if k == 0 {
        return Err(ArgumentError);
      }
      CountAdvances(rest, limit - pos, k, codePointCount, spec);
      if k <= limit - pos {
        assert rest[k..] == bytes[pos + k..];
      }
      pos := pos + k;
      codePointCount := codePointCount + 1;
    }
    if pos > limit {
      return Err(ArgumentError);
    }
    return Ok(codePointCount);
  }

  /** The capacity the code-point converter regrows its buffer to: the
      expected number of code units for the whole input, extrapolated from
      the `w + 2` needed after `done` code points. */
  function Regrown(total: int, w: int, done: int): (n: int)
    requires 1 <= done <= total && 0 <= w
    ensures n >= w + 2
  {
    RegrownBound(total, w + 2, done);
    (total * (w + 2) + done - 1) / done
  }

  lemma RegrownBound(total: int, need: int, done: int)
    requires 1 <= done <= total && 0 <= need
    ensures (total * need + done - 1) / done >= need
  {
    assert total * need >= done * need;
    assert (total * need + done - 1) >= done * need;
    DivMonotone(done * need, total * need + done - 1, done);
    assert (done * need) / done == need;
  }

  lemma DivMonotone(a: int, b: int, d: int)
    requires 0 <= a <= b && d > 0
    ensures a / d <= b / d
  {
    if a / d > b / d {
      MulMonotone(b / d + 1, a / d, d);
    }
  }

  lemma MulMonotone(x: int, y: int, d: int)
    ensures 0 <= d && x <= y ==> x * d <= y * d
  {
    assert y * d - x * d == (y - x) * d;
  }

  /** What one converted code point leaves of the conversion. */
  lemma ToUtf16Advances(a: seq<int>, r: int, e: int, before: seq<u16>, spec: Result<seq<u16>>)
    requires 0 <= r < |a| && r < e && 0 <= a[r] <= 0x10FFFF
    requires Prepend(before, CodePointsToUtf16(a, r, e - r)) == spec
    ensures Prepend(before + CodePointUnits(a[r]), CodePointsToUtf16(a, r + 1, e - (r + 1))) == spec
  {
    match CodePointsToUtf16(a, r + 1, e - (r + 1))
    case Ok(v) => assert before + CodePointUnits(a[r]) + v == before + (CodePointUnits(a[r]) + v);
    case Err(_) =>
  }

  /**
   * Converts `count` code points of `codePoints` from `offset` on to UTF-16.
   * A negative count or a value outside [0, 0x10FFFF] is an argument error;
   * a position outside the array is an index error. The output buffer
   * starts with one unit per code point and is regrown when a write would
   * not fit.
   */
  method ToCharArray(codePoints: array<int>, offset: int, count: int) returns (r: Result<seq<u16>>)
    ensures count < 0 ==> r == Err(ArgumentError)
    ensures count >= 0 ==> r == CodePointsToUtf16(codePoints[..], offset, count)
  {
    if count < 0 {
      return Err(ArgumentError);
    }
    var chars := new u16[count];
    var w := 0;
    var rr := offset;
    var e := offset + count;
    ghost var a := codePoints[..];
    ghost var spec := CodePointsToUtf16(a, offset, count);
    PrependNothing(chars[..w], spec);
    while rr < e
      invariant offset <= rr <= e
      invariant rr == offset || 0 <= offset
      invariant fresh(chars) && 0 <= w <= chars.Length
      invariant Prepend(chars[..w], CodePointsToUtf16(a, rr, e - rr)) == spec
      decreases e - rr
    {
      if rr < 0 || rr >= codePoints.Length {
        return Err(IndexOutOfRange);
      }
      var cp := codePoints[rr];
      if cp < 0 || cp > 0x10FFFF {
        return Err(ArgumentError);
      }
      ghost var before := chars[..w];
      var need := if cp < 0x10000 then 1 else 2;
      while chars.Length < w + need
        invariant fresh(chars) && 0 <= w <= chars.Length && chars[..w] == before
        decreases if chars.Length < w + need then 1 else 0
      {
        var temp := new u16[Regrown(codePoints.Length, w, rr - offset + 1)];
        forall j | 0 <= j < w {
          temp[j] := chars[j];
        }
        assert temp[..w] == chars[..w];
        chars := temp;
      }
      if cp < 0x10000 {
        chars[w] := cp as u16;
        w := w + 1;
      } else {
        chars[w] := (LEAD_SURROGATE_OFFSET + cp / 1024) as u16;
        chars[w + 1] := (TRAIL_SURROGATE_MIN_VALUE + cp % 1024) as u16;
        w := w + 2;
      }
      assert chars[..w] == before + CodePointUnits(cp);
      ToUtf16Advances(a, rr, e, before, spec);
      rr := rr + 1;
    }
    assert chars[..w] + [] == chars[..w];
    return Ok(chars[..w]);
  }

  /** The text of `count` code points of `codePoints` from `offset` on. */
  method NewString(codePoints: array<int>, offset: int, count: int) returns (r: Result<seq<u16>>)
    ensures count < 0 ==> r == Err(ArgumentError)
    ensures count >= 0 ==> r == CodePointsToUtf16(codePoints[..], offset, count)
  {
    r := ToCharArray(codePoints, offset, count);
  }
}
