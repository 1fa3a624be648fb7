/** `ToId`: turning strings and integers into non-fungible local ids. A
    string is read by its first character: `<name>` is a string id, `#n#`
    an integer id, `[hex]` a bytes id and `{hex-with-dashes}` a RUID; any
    other string is a string id as it stands. */
module NfIds {
  import opened Outcomes
  import opened Ascii

  type Byte = x: int | 0 <= x < 256

  /** The four kinds of non-fungible local id. */
  datatype LocalId =
    | StringId(name: string)
    | IntegerId(value: nat)
    | BytesId(bytes: seq<Byte>)
    | RuidId(ruid: seq<Byte>)

  /** The ledger library's validating constructors `NonFungibleLocalId::string`
      and `NonFungibleLocalId::bytes`, whose rules are not part of this
      model: each says whether it accepts its argument. */
  datatype Validators = Validators(stringOk: string -> bool, bytesOk: seq<Byte> -> bool)

  /** `2^64`: one past the largest `u64`. */
  const U64Limit: nat := 0x1_0000_0000_0000_0000

  /** `NonFungibleLocalId::string(s).unwrap()`. */
  function StringCtor(v: Validators, s: string): (r: Outcome<LocalId>)
    ensures r.Ok? <==> v.stringOk(s)
    ensures r.Ok? ==> r.value == StringId(s)
    ensures r.Panic? ==> r.reason == InvalidLocalId
  {
    if v.stringOk(s) then Ok(StringId(s)) else Panic(InvalidLocalId)
  }

  /** `NonFungibleLocalId::bytes(bs).unwrap()`. */
  function BytesCtor(v: Validators, bs: seq<Byte>): (r: Outcome<LocalId>)
    ensures r.Ok? <==> v.bytesOk(bs)
    ensures r.Ok? ==> r.value == BytesId(bs)
    ensures r.Panic? ==> r.reason == InvalidLocalId
  {
    if v.bytesOk(bs) then Ok(BytesId(bs)) else Panic(InvalidLocalId)
  }

  // ---------------------------------------------------------------------
  // Integers

  /** `u64::to_id`. */
  function U64ToId(n: nat): LocalId
    requires n < U64Limit
  {
    IntegerId(n)
  }

  /** The integer types the conversion macro is instantiated for. */
  datatype IntType = U8 | U16 | U32 | U128 | I8 | I16 | I32 | I64 | I128

  function MinOf(t: IntType): int
  {
    match t
    case U8 => 0
    case U16 => 0
    case U32 => 0
    case U128 => 0
    case I8 => -0x80
    case I16 => -0x8000
    case I32 => -0x8000_0000
    case I64 => -0x8000_0000_0000_0000
    case I128 => -0x8000_0000_0000_0000_0000_0000_0000_0000
  }

  function MaxOf(t: IntType): int
  {
    match t
    case U8 => 0xff
    case U16 => 0xffff
    case U32 => 0xffff_ffff
    case U128 => 0xffff_ffff_ffff_ffff_ffff_ffff_ffff_ffff
    case I8 => 0x7f
    case I16 => 0x7fff
    case I32 => 0x7fff_ffff
    case I64 => 0x7fff_ffff_ffff_ffff
    case I128 => 0x7fff_ffff_ffff_ffff_ffff_ffff_ffff_ffff
  }

  /** `to_id` for a value `x` of integer type `t`: `u64::try_from(x)`
      unwrapped, then `u64::to_id`. */
  function IntegerToId(t: IntType, x: int): (r: Outcome<LocalId>)
    requires MinOf(t) <= x <= MaxOf(t)
    ensures r.Ok? ==> 0 <= x < U64Limit && r.value == U64ToId(x)
  {
    if 0 <= x < U64Limit then Ok(U64ToId(x)) else Panic(IntegerOutOfRange)
  }

  /** The conversion panics exactly on values outside the `u64` range:
      never for `u8`, `u16` and `u32`, on every negative value of a signed
      type, and on `u128`/`i128` values from `2^64` on. */
  lemma IntegerToIdPanics(t: IntType, x: int)
    requires MinOf(t) <= x <= MaxOf(t)
    ensures IntegerToId(t, x).Panic? <==> x < 0 || x >= U64Limit
    ensures IntegerToId(t, x).Panic? ==> IntegerToId(t, x).reason == IntegerOutOfRange
    ensures t in {U8, U16, U32} ==> IntegerToId(t, x) == Ok(IntegerId(x))
    ensures t in {I8, I16, I32, I64} ==> (IntegerToId(t, x).Ok? <==> x >= 0)
  {
  }

  /** `-1i32` and `2^64` as a `u128` both panic; `7u8` is integer id 7. */
  lemma IntegerExamples()
    ensures IntegerToId(I32, -1) == Panic(IntegerOutOfRange)
    ensures IntegerToId(U128, U64Limit) == Panic(IntegerOutOfRange)
    ensures IntegerToId(U8, 7) == Ok(IntegerId(7))
  {
  }

  // ---------------------------------------------------------------------
  // Decimal and hex digits

  predicate AllDecimal(d: string)
  {
    forall i | 0 <= i < |d| :: IsDecimalDigit(d[i])
  }

  /** The value of a string of decimal digits, most significant first. */
  function DigitsValue(d: string): nat
    requires AllDecimal(d)
  {
    if |d| == 0 then 0
    else DigitsValue(d[..|d| - 1]) * 10 + DecimalValue(d[|d| - 1])
  }

  /** `str::parse::<u64>`: an optional `+`, then at least one decimal digit,
      and a value below `2^64`. */
  function ParseU64(s: string): (r: Option<nat>)
    ensures r.Some? ==> r.value < U64Limit
  {
    var d := if |s| > 0 && s[0] == '+' then s[1..] else s;
    if |d| == 0 || !AllDecimal(d) then None
    else if DigitsValue(d) >= U64Limit then None
    else Some(DigitsValue(d))
  }

  /** The decimal representation of `n`, without leading zeros. */
  function ShowDecimal(n: nat): (d: string)
    ensures |d| > 0 && AllDecimal(d)
  {
    if n < 10 then [DecimalDigit(n)]
    else ShowDecimal(n / 10) + [DecimalDigit(n % 10)]
  }

  /** The digits of `n` are worth `n`. */
  lemma {:induction false} ShowDecimalValue(n: nat)
    ensures DigitsValue(ShowDecimal(n)) == n
    decreases n
  {
    var d := ShowDecimal(n);
    if n < 10 {
      assert d[..0] == [];
    } else {
      ShowDecimalValue(n / 10);
      assert d[..|d| - 1] == ShowDecimal(n / 10);
    }
  }

  /** Parsing inverts printing on every `u64`, with or without a `+`. */
  lemma ParseShowDecimal(n: nat)
    requires n < U64Limit
    ensures ParseU64(ShowDecimal(n)) == Some(n)
    ensures ParseU64("+" + ShowDecimal(n)) == Some(n)
  {
    ShowDecimalValue(n);
    var d := ShowDecimal(n);
    assert IsDecimalDigit(d[0]);
    assert ("+" + d)[1..] == d;
  }

  /** `u8::from_str_radix(pair, 16)` on a two-character slice: a `+`
      followed by one hex digit, or two hex digits. */
  function HexPair(p: string): (r: Option<Byte>)
    requires |p| == 2
    ensures IsHexDigit(p[0]) && IsHexDigit(p[1]) ==> r == Some(16 * HexValue(p[0]) + HexValue(p[1]))
    ensures p[0] == '+' ==> (r.Some? <==> IsHexDigit(p[1]))
    ensures p[0] != '+' && !(IsHexDigit(p[0]) && IsHexDigit(p[1])) ==> r.None?
  {
    if p[0] == '+' then (if IsHexDigit(p[1]) then Some(HexValue(p[1])) else None)
    else if IsHexDigit(p[0]) && IsHexDigit(p[1]) then Some(16 * HexValue(p[0]) + HexValue(p[1]))
    else None
  }

  /** Decoding `count` bytes from the front of `h`, two characters each: a
      slice past the end panics, and so does a pair that does not parse. */
  function TakePairs(h: string, count: nat): Outcome<seq<Byte>>
    decreases count
  {
    if count == 0 then Ok([])
    else if |h| < 2 then Panic(IndexOutOfBounds)
    else match HexPair(h[..2])
      case None => Panic(ParseIntError)
      case Some(b) =>
        match TakePairs(h[2..], count - 1)
        case Panic(e) => Panic(e)
        case Ok(rest) => Ok([b] + rest)
  }

  /** The lower-case hex encoding of a byte string, two digits per byte. */
  function ToHex(bs: seq<Byte>): (h: string)
    ensures |h| == 2 * |bs|
  {
    if |bs| == 0 then []
    else [HexDigit(bs[0] / 16), HexDigit(bs[0] % 16)] + ToHex(bs[1..])
  }

  /** Decoding the hex encoding of `bs`, whatever follows it, gives `bs`
      back. */
  lemma {:induction false} TakePairsOfHex(bs: seq<Byte>, tail: string)
    ensures TakePairs(ToHex(bs) + tail, |bs|) == Ok(bs)
    decreases |bs|
  {
    if |bs| > 0 {
      var h := ToHex(bs) + tail;
      var p := [HexDigit(bs[0] / 16), HexDigit(bs[0] % 16)];
      assert h == p + (ToHex(bs[1..]) + tail);
      assert h[..2] == p && h[2..] == ToHex(bs[1..]) + tail;
      TakePairsOfHex(bs[1..], tail);
      HexPairOfByte(bs[0]);
      assert [bs[0]] + bs[1..] == bs;
    }
  }

  /** The two hex digits of a byte read back as that byte. */
  lemma HexPairOfByte(x: Byte)
    ensures HexPair([HexDigit(x / 16), HexDigit(x % 16)]) == Some(x)
  {
    var p := [HexDigit(x / 16), HexDigit(x % 16)];
    assert IsHexDigit(p[0]) && IsHexDigit(p[1]);
    assert 16 * (x / 16) + x % 16 == x;
  }

  /** The hex encoding of `bs`, alone, decodes to `bs`. */
  lemma HexDecodes(bs: seq<Byte>)
    ensures TakePairs(ToHex(bs), |bs|) == Ok(bs)
  {
    TakePairsOfHex(bs, []);
    assert ToHex(bs) + [] == ToHex(bs);
  }

  /** On an even number of hex digits, byte `i` is the value of pair `i`. */
  lemma {:induction false} TakePairsOfDigits(h: string)
    requires |h| % 2 == 0
    requires forall i | 0 <= i < |h| :: IsHexDigit(h[i])
    ensures var r := TakePairs(h, |h| / 2);
            && r.Ok?
            && |r.value| == |h| / 2
            && forall i | 0 <= i < |h| / 2 :: r.value[i] == 16 * HexValue(h[2 * i]) + HexValue(h[2 * i + 1])
    decreases |h|
  {
    if |h| > 0 {
      TakePairsOfDigits(h[2..]);
      var rest := TakePairs(h[2..], |h| / 2 - 1).value;
      var b := HexPair(h[..2]).value;
      assert TakePairs(h, |h| / 2) == Ok([b] + rest);
      forall i | 0 <= i < |h| / 2
        ensures ([b] + rest)[i] == 16 * HexValue(h[2 * i]) + HexValue(h[2 * i + 1])
      {
        if i > 0 {
          assert h[2 * i] == h[2..][2 * (i - 1)];
          assert h[2 * i + 1] == h[2..][2 * (i - 1) + 1];
        }
      }
    }
  }

  /** An odd number of hex digits runs the last slice past the end. */
  lemma {:induction false} TakePairsOddDigits(h: string)
    requires |h| % 2 == 1
    requires forall i | 0 <= i < |h| :: IsHexDigit(h[i])
    ensures TakePairs(h, (|h| + 1) / 2) == Panic(IndexOutOfBounds)
    decreases |h|
  {
    if |h| > 1 {
      TakePairsOddDigits(h[2..]);
      assert (|h| + 1) / 2 - 1 == (|h[2..]| + 1) / 2;
    }
  }

  /** Decoding `count` pairs reads only the first `2 * count` characters. */
  lemma {:induction false} TakePairsPrefix(h: string, count: nat)
    requires 2 * count <= |h|
    ensures TakePairs(h, count) == TakePairs(h[..2 * count], count)
    decreases count
  {
    if count > 0 {
      var p := h[..2 * count];
      assert p[..2] == h[..2];
      assert p[2..] == h[2..][..2 * (count - 1)];
      TakePairsPrefix(h[2..], count - 1);
    }
  }

  /** Fewer than `2 * count` hex digits run a slice past the end. */
  lemma {:induction false} TakePairsShort(h: string, count: nat)
    requires |h| < 2 * count
    requires forall i | 0 <= i < |h| :: IsHexDigit(h[i])
    ensures TakePairs(h, count) == Panic(IndexOutOfBounds)
    decreases count
  {
    if |h| >= 2 {
      assert IsHexDigit(h[..2][0]) && IsHexDigit(h[..2][1]);
      TakePairsShort(h[2..], count - 1);
    }
  }

  /** `replace('-', "")`. */
  function RemoveDashes(s: string): (r: string)
    ensures forall i | 0 <= i < |r| :: r[i] != '-'
    ensures |r| <= |s|
  {
    if |s| == 0 then []
    else if s[|s| - 1] == '-' then RemoveDashes(s[..|s| - 1])
    else RemoveDashes(s[..|s| - 1]) + [s[|s| - 1]]
  }

  /** Dashes are deleted wherever they are. */
  lemma {:induction false} RemoveDashesAppend(a: string, b: string)
    ensures RemoveDashes(a + b) == RemoveDashes(a) + RemoveDashes(b)
    decreases |b|
  {
    if |b| == 0 {
      assert a + b == a;
    } else {
      var b' := b[..|b| - 1];
      assert (a + b)[..|a + b| - 1] == a + b';
      assert (a + b)[|a + b| - 1] == b[|b| - 1];
      RemoveDashesAppend(a, b');
    }
  }

  /** A string without dashes is left alone. */
  lemma {:induction false} RemoveDashesNone(s: string)
    requires forall i | 0 <= i < |s| :: s[i] != '-'
    ensures RemoveDashes(s) == s
    decreases |s|
  {
    if |s| > 0 {
      RemoveDashesNone(s[..|s| - 1]);
    }
  }

  // ---------------------------------------------------------------------
  // Strings

  predicate IsOpener(c: char)
  {
    c == '<' || c == '#' || c == '[' || c == '{'
  }

  function CloserOf(c: char): char
    requires IsOpener(c)
  {
    match c
    case '<' => '>'
    case '#' => '#'
    case '[' => ']'
    case '{' => '}'
  }

  /** The id a delimited body stands for, once the closing character has
      matched and the body is non-empty. */
  function DelimitedId(v: Validators, opener: char, body: string): Outcome<LocalId>
    requires IsOpener(opener)
  {
    match opener
    case '<' => StringCtor(v, body)
    case '#' =>
      (match ParseU64(body)
       case None => Panic(ParseIntError)
       case Some(n) => Ok(U64ToId(n)))
    case '[' =>
      (match TakePairs(body, (|body| + 1) / 2)
       case Panic(e) => Panic(e)
       case Ok(bs) => BytesCtor(v, bs))
    case '{' =>
      (match TakePairs(RemoveDashes(body), 32)
       case Panic(e) => Panic(e)
       case Ok(bs) => Ok(RuidId(bs)))
  }

  /** `String::to_id`: the opening character is removed and the last one
      popped (panicking if there is none); when it closes the opener and
      something is left in between, the body is read as the opener says.
      Otherwise the popped character is pushed back and what remains, the
      opener still removed, is a string id. */
  function StringToId(v: Validators, s: string): Outcome<LocalId>
  {
    if |s| == 0 || !IsOpener(s[0]) then StringCtor(v, s)
    else
      var rest := s[1..];
      if |rest| == 0 then Panic(UnwrapNone)
      else
        var body := rest[..|rest| - 1];
        if rest[|rest| - 1] == CloserOf(s[0]) && |body| > 0 then DelimitedId(v, s[0], body)
        else StringCtor(v, rest)
  }

  /** A string that does not start with `<`, `#`, `[` or `{` (the empty one
      included) is a string id with the same content. */
  lemma PlainIsString(v: Validators, s: string)
    requires |s| == 0 || (s[0] != '<' && s[0] != '#' && s[0] != '[' && s[0] != '{')
    ensures StringToId(v, s) == StringCtor(v, s)
  {
  }

  /** A string made of an opener, a non-empty body and the matching
      closer is read as the opener says. */
  lemma Delimited(v: Validators, d: char, body: string)
    requires IsOpener(d) && |body| > 0
    ensures StringToId(v, [d] + body + [CloserOf(d)]) == DelimitedId(v, d, body)
  {
    var s := [d] + body + [CloserOf(d)];
    assert s[0] == d;
    assert s[1..] == body + [CloserOf(d)];
  }

  /** A body between `<` and `>` is a string id of the body alone. */
  lemma AngleIsString(v: Validators, body: string)
    requires |body| > 0
    ensures StringToId(v, "<" + body + ">") == StringCtor(v, body)
  {
    Delimited(v, '<', body);
  }

  /** A non-empty body between `#` and `#` is the integer id `u64::to_id`
      gives for the parsed body, and panics when it does not parse. */
  lemma HashIsInteger(v: Validators, body: string)
    requires |body| > 0
    ensures ParseU64(body).None? ==> StringToId(v, "#" + body + "#") == Panic(ParseIntError)
    ensures ParseU64(body).Some? ==> StringToId(v, "#" + body + "#") == Ok(U64ToId(ParseU64(body).value))
  {
    Delimited(v, '#', body);
  }

  /** Printing a `u64` between `#`s and reading it back gives its integer
      id. */
  lemma IntegerRoundTrip(v: Validators, n: nat)
    requires n < U64Limit
    ensures StringToId(v, "#" + ShowDecimal(n) + "#") == Ok(IntegerId(n))
  {
    ParseShowDecimal(n);
    HashIsInteger(v, ShowDecimal(n));
  }

  /** A non-empty, even-length run of hex digits between `[` and `]` is the
      bytes id whose byte `i` is the value of hex pair `i`; an odd-length
      run panics on its last, half slice. */
  lemma BracketIsBytes(v: Validators, body: string)
    requires |body| > 0
    requires forall i | 0 <= i < |body| :: IsHexDigit(body[i])
    ensures |body| % 2 == 0 ==>
              exists bs: seq<Byte> ::
                && |bs| == |body| / 2
                && (forall i | 0 <= i < |bs| :: bs[i] == 16 * HexValue(body[2 * i]) + HexValue(body[2 * i + 1]))
                && StringToId(v, "[" + body + "]") == BytesCtor(v, bs)
    ensures |body| % 2 == 1 ==> StringToId(v, "[" + body + "]") == Panic(IndexOutOfBounds)
  {
    Delimited(v, '[', body);
    if |body| % 2 == 0 {
      TakePairsOfDigits(body);
      assert (|body| + 1) / 2 == |body| / 2;
      var bs := TakePairs(body, |body| / 2).value;
      assert StringToId(v, "[" + body + "]") == BytesCtor(v, bs);
    } else {
      TakePairsOddDigits(body);
    }
  }

  /** Encoding a non-empty byte string in hex between brackets and reading
      it back gives its bytes id. */
  lemma BytesRoundTrip(v: Validators, bs: seq<Byte>)
    requires |bs| > 0
    ensures StringToId(v, "[" + ToHex(bs) + "]") == BytesCtor(v, bs)
  {
    var h := ToHex(bs);
    BracketDelimited(v, h);
    HexDecodes(bs);
    assert (|h| + 1) / 2 == |bs|;
    BracketBody(v, h, bs);
  }

  /** A bracketed body that reads as the bytes `bs` is the bytes id of
      `bs`. */
  lemma BracketBody(v: Validators, body: string, bs: seq<Byte>)
    requires TakePairs(body, (|body| + 1) / 2) == Ok(bs)
    ensures DelimitedId(v, '[', body) == BytesCtor(v, bs)
  {
  }

  /** The body between `[` and `]`, as `Delimited` reads it. */
  lemma BracketDelimited(v: Validators, body: string)
    requires |body| > 0
    ensures StringToId(v, "[" + body + "]") == DelimitedId(v, '[', body)
  {
    Delimited(v, '[', body);
    assert "[" + body + "]" == ['['] + body + [CloserOf('[')];
  }

  /** `u8::from_str_radix` takes a leading `+`, so `[+f]` is the one-byte
      id 15. */
  lemma PlusSignInHexPair(v: Validators)
    ensures StringToId(v, "[+f]") == BytesCtor(v, [15])
  {
    Delimited(v, '[', "+f");
    assert "[+f]" == ['['] + "+f" + [CloserOf('[')];
    assert "+f"[..2] == "+f" && "+f"[2..] == [];
    assert IsHexDigit('f') && HexValue('f') == 15;
    assert HexPair("+f") == Some(15);
    var rest: seq<Byte> := [];
    assert TakePairs("+f"[2..], 0) == Ok(rest);
    assert TakePairs("+f", 1) == Ok([15] + rest);
    assert [15] + rest == [15];
  }

  /** Between braces, the dashes are deleted and the first 64 characters
      left are read as 32 hex pairs: when they are hex digits (in either
      case) the result is the RUID whose byte `i` is the value of pair `i`,
      whatever follows them; fewer than 64 hex digits run the last slice
      past the end and panic. */
  lemma BraceIsRuid(v: Validators, body: string)
    requires |body| > 0
    ensures var h := RemoveDashes(body);
            |h| >= 64 && (forall i | 0 <= i < 64 :: IsHexDigit(h[i])) ==>
              exists bs: seq<Byte> ::
                && |bs| == 32
                && (forall i | 0 <= i < 32 :: bs[i] == 16 * HexValue(h[2 * i]) + HexValue(h[2 * i + 1]))
                && StringToId(v, "{" + body + "}") == Ok(RuidId(bs))
    ensures var h := RemoveDashes(body);
            |h| < 64 && (forall i | 0 <= i < |h| :: IsHexDigit(h[i])) ==>
              StringToId(v, "{" + body + "}") == Panic(IndexOutOfBounds)
  {
    BraceDelimited(v, body);
    var h := RemoveDashes(body);
    if |h| >= 64 && (forall i | 0 <= i < 64 :: IsHexDigit(h[i])) {
      RuidPairs(h);
      var bs := TakePairs(h, 32).value;
      assert DelimitedId(v, '{', body) == Ok(RuidId(bs));
    } else if |h| < 64 && (forall i | 0 <= i < |h| :: IsHexDigit(h[i])) {
      TakePairsShort(h, 32);
    }
  }

  /** 64 leading hex digits, whatever follows, read as 32 bytes, byte `i`
      being the value of pair `i`. */
  lemma RuidPairs(h: string)
    requires |h| >= 64 && forall i | 0 <= i < 64 :: IsHexDigit(h[i])
    ensures var r := TakePairs(h, 32);
            && r.Ok? && |r.value| == 32
            && forall i | 0 <= i < 32 :: r.value[i] == 16 * HexValue(h[2 * i]) + HexValue(h[2 * i + 1])
  {
    var h64 := h[..64];
    TakePairsPrefix(h, 32);
    TakePairsOfDigits(h64);
    forall i | 0 <= i < 32
      ensures h64[2 * i] == h[2 * i] && h64[2 * i + 1] == h[2 * i + 1]
    {
    }
  }

  /** The body between `{` and `}`, as `Delimited` reads it. */
  lemma BraceDelimited(v: Validators, body: string)
    requires |body| > 0
    ensures StringToId(v, "{" + body + "}") == DelimitedId(v, '{', body)
  {
    Delimited(v, '{', body);
    assert "{" + body + "}" == ['{'] + body + [CloserOf('{')];
  }

  /** A body whose dash-free form starts with the hex encoding of 32 bytes
      is the RUID of those bytes. */
  lemma BraceOfEncoding(v: Validators, body: string, bs: seq<Byte>, tail: string)
    requires |bs| == 32 && RemoveDashes(body) == ToHex(bs) + tail
    ensures StringToId(v, "{" + body + "}") == Ok(RuidId(bs))
  {
    BraceDelimited(v, body);
    TakePairsOfHex(bs, tail);
  }

  /** The text form of a RUID: four groups of sixteen hex digits joined by
      dashes. */
  function RuidText(bs: seq<Byte>): string
    requires |bs| == 32
  {
    ToHex(bs[..8]) + "-" + (ToHex(bs[8..16]) + "-" + (ToHex(bs[16..24]) + "-" + ToHex(bs[24..])))
  }

  /** A dash after a hex group disappears. */
  lemma DashAfterHex(a: seq<Byte>, rest: string)
    ensures RemoveDashes(ToHex(a) + "-" + rest) == ToHex(a) + RemoveDashes(rest)
  {
    HexHasNoDash(a);
    RemoveDashesNone(ToHex(a));
    RemoveDashesAppend(ToHex(a) + "-", rest);
    RemoveDashesAppend(ToHex(a), "-");
    assert RemoveDashes("-") == RemoveDashes([]) == [];
    assert ToHex(a) + [] == ToHex(a);
  }

  /** The text form of a RUID reads back as that RUID. */
  lemma RuidRoundTrip(v: Validators, bs: seq<Byte>)
    requires |bs| == 32
    ensures StringToId(v, "{" + RuidText(bs) + "}") == Ok(RuidId(bs))
  {
    RuidTextUndashed(bs);
    assert ToHex(bs) + [] == ToHex(bs);
    BraceOfEncoding(v, RuidText(bs), bs, []);
  }

  /** Without its dashes, the text form of a RUID is its hex encoding. */
  lemma RuidTextUndashed(bs: seq<Byte>)
    requires |bs| == 32
    ensures RemoveDashes(RuidText(bs)) == ToHex(bs)
  {
    var g1, g2, g3, g4 := bs[..8], bs[8..16], bs[16..24], bs[24..];
    var r3 := ToHex(g3) + "-" + ToHex(g4);
    var r2 := ToHex(g2) + "-" + r3;
    assert RuidText(bs) == ToHex(g1) + "-" + r2;
    DashGroupTail(g3, g4);
    DashGroupStep(g2, r3, g3 + g4);
    DashGroupStep(g1, r2, g2 + (g3 + g4));
    GroupsRejoin(bs);
  }

  /** The last two groups, dash dropped, are the hex of their bytes. */
  lemma DashGroupTail(g: seq<Byte>, h: seq<Byte>)
    ensures RemoveDashes(ToHex(g) + "-" + ToHex(h)) == ToHex(g + h)
  {
    DashAfterHex(g, ToHex(h));
    HexHasNoDash(h);
    RemoveDashesNone(ToHex(h));
    ToHexAppend(g, h);
  }

  /** One more group in front of a dashed text whose undashed form is the
      hex of `rest`. */
  lemma DashGroupStep(g: seq<Byte>, text: string, rest: seq<Byte>)
    requires RemoveDashes(text) == ToHex(rest)
    ensures RemoveDashes(ToHex(g) + "-" + text) == ToHex(g + rest)
  {
    DashAfterHex(g, text);
    ToHexAppend(g, rest);
  }

  /** The four groups of a 32-byte RUID put back together. */
  lemma GroupsRejoin(bs: seq<Byte>)
    requires |bs| == 32
    ensures bs[..8] + (bs[8..16] + (bs[16..24] + bs[24..])) == bs
  {
  }

  /** Hex encodings contain no dash. */
  lemma {:induction false} HexHasNoDash(bs: seq<Byte>)
    ensures forall i | 0 <= i < |ToHex(bs)| :: ToHex(bs)[i] != '-'
    decreases |bs|
  {
    if |bs| > 0 {
      HexHasNoDash(bs[1..]);
    }
  }

  /** Hex encoding distributes over concatenation. */
  lemma {:induction false} ToHexAppend(a: seq<Byte>, b: seq<Byte>)
    ensures ToHex(a + b) == ToHex(a) + ToHex(b)
    decreases |a|
  {
    if |a| > 0 {
      assert (a + b)[0] == a[0] && (a + b)[1..] == a[1..] + b;
      ToHexAppend(a[1..], b);
    } else {
      assert a + b == b;
    }
  }

  /** When the last character does not close the opener, or nothing lies
      between them, only the opener is dropped and the rest is a string
      id. */
  lemma UnclosedIsString(v: Validators, d: char, rest: string)
    requires IsOpener(d) && |rest| > 0
    requires rest[|rest| - 1] != CloserOf(d) || |rest| == 1
    ensures StringToId(v, [d] + rest) == StringCtor(v, rest)
  {
    assert ([d] + rest)[1..] == rest;
  }

  /** `<>` is the string id `>` and `#ab` the string id `ab`. */
  lemma UnclosedExamples(v: Validators)
    ensures StringToId(v, "<>") == StringCtor(v, ">")
    ensures StringToId(v, "#ab") == StringCtor(v, "ab")
  {
    UnclosedIsString(v, '<', ">");
    UnclosedIsString(v, '#', "ab");
    assert "<>" == ['<'] + ">";
    assert "#ab" == ['#'] + "ab";
  }

  /** A lone opening character leaves nothing to pop. */
  lemma LoneOpenerPanics(v: Validators, d: char)
    requires IsOpener(d)
    ensures StringToId(v, [d]) == Panic(UnwrapNone)
  {
  }
}
