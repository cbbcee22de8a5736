/** The inspector's addresses: a block by hash, number or raw bytes; an extrinsic by block and index, or raw bytes. */
module Addresses {
  import opened Prelude
  import opened Decimals

  const HASH_BYTES: nat := 32
  const NUMBER_MAX: nat := 0xFFFF_FFFF
  const INDEX_MAX: nat := 0xFFFF_FFFF_FFFF_FFFF

  datatype BlockAddress = Hash(hash: Bytes) | Number(number: nat) | Raw(bytes: Bytes)
  datatype ExtrinsicAddress = Block(block: BlockAddress, index: nat) | RawExtrinsic(bytes: Bytes)

  datatype ParseError = NotHashNumberOrBytes | IndexMissing | InvalidIndex
  datatype Parsed<+T> = Ok(value: T) | Err(error: ParseError)

  // ----- Hexadecimal -----

  predicate IsHex(c: char) {
    '0' <= c <= '9' || 'a' <= c <= 'f' || 'A' <= c <= 'F'
  }

  function HexValue(c: char): (d: nat)
    requires IsHex(c)
    ensures d < 16
  {
    if c <= '9' then (c as int) - ('0' as int)
    else if c <= 'F' then (c as int) - ('A' as int) + 10
    else (c as int) - ('a' as int) + 10
  }

  function HexChar(d: nat): (c: char)
    requires d < 16
    ensures IsHex(c) && HexValue(c) == d
  {
    if d < 10 then (d + ('0' as int)) as char else (d - 10 + ('a' as int)) as char
  }

  predicate AllHex(s: string) {
    forall i :: 0 <= i < |s| ==> IsHex(s[i])
  }

  /** Two hexadecimal digits a byte, nothing else. */
  function HexDecode(s: string): Option<Bytes> {
    if s == "" then Some([])
    else if |s| == 1 || !IsHex(s[0]) || !IsHex(s[1]) then None
    else
      match HexDecode(s[2..])
      case None => None
      case Some(rest) => Some([(16 * HexValue(s[0]) + HexValue(s[1])) as Byte] + rest)
  }

  function HexEncode(b: Bytes): (s: string)
    ensures AllHex(s) && |s| == 2 * |b|
  {
    if b == [] then "" else [HexChar(b[0] as int / 16), HexChar(b[0] as int % 16)] + HexEncode(b[1..])
  }

  // ----- The three readings of a block address -----

  /** A block hash, without 0x in front. */
  function ParseHash(s: string): Option<Bytes> {
    match HexDecode(s)
    case None => None
    case Some(b) => if |b| == HASH_BYTES then Some(b) else None
  }

  /** An unsigned number: digits, possibly after a plus sign, that fit. */
  function ParseUnsigned(s: string, max: nat): Option<nat> {
    var digits := if s != "" && s[0] == '+' then s[1..] else s;
    if digits == "" || !AllDigits(digits) || FromDigits(digits) > max then None else Some(FromDigits(digits))
  }

  /** Raw bytes, with 0x in front. */
  function FromHex(s: string): Option<Bytes> {
    if "0x" <= s then HexDecode(s[2..]) else None
  }

  function ParseBlock(s: string): Parsed<BlockAddress> {
    match ParseHash(s)
    case Some(hash) => Ok(Hash(hash))
    case None =>
      match ParseUnsigned(s, NUMBER_MAX)
      case Some(number) => Ok(Number(number))
      case None =>
        match FromHex(s)
        case Some(bytes) => Ok(Raw(bytes))
        case None => Err(NotHashNumberOrBytes)
  }

  // ----- Extrinsic addresses -----

  predicate IsSeparator(c: char) {
    c == '.' || c == ':' || c == ' '
  }

  /** Where the first piece of s ends. */
  function Break(s: string): (n: nat)
    ensures n <= |s| && (n < |s| ==> IsSeparator(s[n]))
    ensures forall i :: 0 <= i < n ==> !IsSeparator(s[i])
  {
    if s == "" || IsSeparator(s[0]) then 0 else 1 + Break(s[1..])
  }

  /** The pieces between separators, as far as they are asked for: the first always exists, the second may not. */
  function SecondPiece(s: string): Option<string> {
    if Break(s) == |s| then None
    else
      var rest := s[Break(s) + 1..];
      Some(rest[..Break(rest)])
  }

  function ParseExtrinsic(s: string): Parsed<ExtrinsicAddress> {
    match FromHex(s)
    case Some(bytes) => Ok(RawExtrinsic(bytes))
    case None =>
      match ParseBlock(s[..Break(s)])
      case Err(e) => Err(e)
      case Ok(block) =>
        match SecondPiece(s)
        case None => Err(IndexMissing)
        case Some(piece) =>
          match ParseUnsigned(piece, INDEX_MAX)
          case None => Err(InvalidIndex)
          case Some(index) => Ok(Block(block, index))
  }

  // ----- Printing -----

  /** The addresses that exist: hashes of the right length, numbers that fit. */
  predicate IsBlock(a: BlockAddress) {
    (a.Hash? ==> |a.hash| == HASH_BYTES) && (a.Number? ==> a.number <= NUMBER_MAX)
  }

  predicate IsExtrinsic(a: ExtrinsicAddress) {
    a.Block? ==> IsBlock(a.block) && a.index <= INDEX_MAX
  }

  function PrintBlock(a: BlockAddress): string {
    match a
    case Hash(hash) => HexEncode(hash)
    case Number(number) => ToString(number)
    case Raw(bytes) => "0x" + HexEncode(bytes)
  }

  function PrintExtrinsic(a: ExtrinsicAddress, separator: char): string {
    match a
    case Block(block, index) => PrintBlock(block) + [separator] + ToString(index)
    case RawExtrinsic(bytes) => "0x" + HexEncode(bytes)
  }

  // ----- Round trips -----

  lemma {:induction false} HexRoundTrip(b: Bytes)
    ensures HexDecode(HexEncode(b)) == Some(b)
  {
    if b != [] {
      HexRoundTrip(b[1..]);
      var x, s := b[0] as int, HexEncode(b);
      assert s[2..] == HexEncode(b[1..]) && s[0] == HexChar(x / 16) && s[1] == HexChar(x % 16);
      assert 16 * (x / 16) + x % 16 == x;
      assert b == [b[0]] + b[1..];
    }
  }

  lemma {:induction false} DecodedLength(s: string)
    ensures HexDecode(s).Some? ==> |s| == 2 * |HexDecode(s).value| && AllHex(s)
    ensures |s| % 2 == 0 && AllHex(s) ==> HexDecode(s).Some?
  {
    if |s| >= 2 {
      DecodedLength(s[2..]);
      assert s == [s[0], s[1]] + s[2..];
      assert AllHex(s) ==> forall i :: 0 <= i < |s[2..]| ==> s[2..][i] == s[i + 2];
    }
  }

  lemma {:induction false} SameValuesSameBytes(s: string, t: string)
    requires |s| == |t| && AllHex(s) && AllHex(t)
    requires forall i :: 0 <= i < |s| ==> HexValue(s[i]) == HexValue(t[i])
    ensures HexDecode(s) == HexDecode(t)
  {
    if |s| >= 2 {
      SameValuesSameBytes(s[2..], t[2..]);
    }
  }

  // ----- What the parsers accept, told without them -----

  /** c is the hexadecimal digit d, in either case. */
  ghost predicate IsHexDigit(c: char, d: int) {
    0 <= d < 16 && (c == "0123456789abcdef"[d] || c == "0123456789ABCDEF"[d])
  }

  /** s is b in hexadecimal, two digits a byte. */
  ghost predicate Spells(s: string, b: Bytes) {
    |s| == 2 * |b| && forall i :: 0 <= i < |b| ==> SpellsByte(s[2 * i], s[2 * i + 1], b[i])
  }

  ghost predicate SpellsByte(high: char, low: char, b: Byte) {
    IsHexDigit(high, b as int / 16) && IsHexDigit(low, b as int % 16)
  }

  lemma HexDigits(c: char, d: int)
    ensures IsHexDigit(c, d) <==> IsHex(c) && HexValue(c) == d
    ensures 0 <= d < 16 ==> HexChar(d) == "0123456789abcdef"[d]
  {
  }

  lemma SpellsFirst(s: string, b: Bytes)
    requires |s| >= 2 && b != []
    ensures Spells(s, b) <==> SpellsByte(s[0], s[1], b[0]) && Spells(s[2..], b[1..])
  {
    var t, c := s[2..], b[1..];
    forall i | 0 <= i < |c| && |s| == 2 * |b|
      ensures t[2 * i] == s[2 * (i + 1)] && t[2 * i + 1] == s[2 * (i + 1) + 1] && c[i] == b[i + 1]
    {
    }
    if SpellsByte(s[0], s[1], b[0]) && Spells(t, c) {
      forall i | 0 <= i < |b|
        ensures SpellsByte(s[2 * i], s[2 * i + 1], b[i])
      {
        if i > 0 {
          assert SpellsByte(t[2 * (i - 1)], t[2 * (i - 1) + 1], c[i - 1]);
        }
      }
    }
  }

  /** Decoding succeeds exactly on the spellings of some bytes, and gives those. */
  lemma {:induction false} DecodesSpellings(s: string, b: Bytes)
    ensures HexDecode(s) == Some(b) <==> Spells(s, b)
  {
    if |s| >= 2 && b != [] {
      DecodesSpellings(s[2..], b[1..]);
      SpellsFirst(s, b);
      HexDigits(s[0], b[0] as int / 16);
      HexDigits(s[1], b[0] as int % 16);
      assert b == [b[0]] + b[1..];
    }
  }

  function LowerCase(s: string): string {
    seq(|s|, i requires 0 <= i < |s| => if 'A' <= s[i] <= 'Z' then (s[i] as int + 32) as char else s[i])
  }

  lemma LowerCaseSpells(s: string, b: Bytes)
    ensures Spells(s, b) <==> Spells(LowerCase(s), b)
  {
    var t := LowerCase(s);
    forall i, d | 0 <= i < |s| && 0 <= d < 16
      ensures IsHexDigit(s[i], d) <==> IsHexDigit(t[i], d)
    {
    }
  }

  /** Upper and lower case spell the same bytes. */
  lemma SpellingDoesNotMatter(s: string)
    ensures HexDecode(LowerCase(s)) == HexDecode(s)
  {
    var t := LowerCase(s);
    if HexDecode(s).Some? {
      DecodesSpellings(s, HexDecode(s).value);
      LowerCaseSpells(s, HexDecode(s).value);
      DecodesSpellings(t, HexDecode(s).value);
    }
    if HexDecode(t).Some? {
      DecodesSpellings(t, HexDecode(t).value);
      LowerCaseSpells(s, HexDecode(t).value);
      DecodesSpellings(s, HexDecode(t).value);
    }
  }

  /** s is the numeral of v, behind an optional plus sign and any number of zeros. */
  ghost predicate IsNumeral(s: string, v: nat) {
    exists n :: n >= 0 && (s == Zeros(n) + ToString(v) || s == "+" + (Zeros(n) + ToString(v)))
  }

  lemma ReadsNumerals(s: string, v: nat, max: nat)
    ensures ParseUnsigned(s, max) == Some(v) <==> v <= max && IsNumeral(s, v)
  {
    var digits := if s != "" && s[0] == '+' then s[1..] else s;
    if digits != "" && AllDigits(digits) {
      DigitsOfNumber(digits, v);
    }
    forall n: nat
      ensures AllDigits(Zeros(n) + ToString(v))
    {
      LeadingZeros(n, ToString(v));
    }
    if n :| n >= 0 && s == Zeros(n) + ToString(v) {
      assert IsDigit((Zeros(n) + ToString(v))[0]);
      assert digits == s;
    }
    if n :| n >= 0 && s == "+" + (Zeros(n) + ToString(v)) {
      assert digits == Zeros(n) + ToString(v);
    }
  }

  ghost predicate SpellsHash(s: string, b: Bytes) {
    |b| == 32 && Spells(s, b)
  }

  ghost predicate SpellsRaw(s: string, b: Bytes) {
    |s| >= 2 && s[..2] == "0x" && Spells(s[2..], b)
  }

  /** The reading of a block address: a hash wins over a number, and raw bytes have no rival. */
  ghost predicate ReadsAsBlock(s: string, a: BlockAddress) {
    match a
    case Hash(hash) => SpellsHash(s, hash)
    case Number(number) => number < 0x1_0000_0000 && IsNumeral(s, number) && forall b :: !SpellsHash(s, b)
    case Raw(bytes) => SpellsRaw(s, bytes)
  }

  lemma ReadsHashes(s: string, b: Bytes)
    ensures ParseHash(s) == Some(b) <==> SpellsHash(s, b)
  {
    DecodesSpellings(s, b);
  }

  lemma ReadsRaw(s: string, b: Bytes)
    ensures FromHex(s) == Some(b) <==> SpellsRaw(s, b)
  {
    if |s| >= 2 {
      assert "0x" <= s <==> s[..2] == "0x";
      DecodesSpellings(s[2..], b);
    }
  }

  /** The block parser accepts exactly the strings with a reading, and gives that reading. */
  lemma ParsesBlocks(s: string, a: BlockAddress)
    ensures ParseBlock(s) == Ok(a) <==> ReadsAsBlock(s, a)
  {
    forall b
      ensures ParseHash(s) == Some(b) <==> SpellsHash(s, b)
      ensures FromHex(s) == Some(b) <==> SpellsRaw(s, b)
    {
      ReadsHashes(s, b);
      ReadsRaw(s, b);
    }
    forall v: nat
      ensures ParseUnsigned(s, NUMBER_MAX) == Some(v) <==> v < 0x1_0000_0000 && IsNumeral(s, v)
    {
      ReadsNumerals(s, v, NUMBER_MAX);
    }
    if "0x" <= s {
      RawHasNoOtherReading(s);
    }
  }

  lemma NumberRoundTrip(v: nat, max: nat)
    requires v <= max
    ensures ParseUnsigned(ToString(v), max) == Some(v)
  {
    ReadsBack(v);
    assert IsDigit(ToString(v)[0]);
  }

  lemma BlockNumbersAreShort(v: nat)
    requires v <= NUMBER_MAX
    ensures |ToString(v)| <= 10
  {
    assert Pow10(10) == 10_000_000_000;
    FewDigits(v, 10);
  }

  /** Nothing in front of 0x reads as raw bytes, and what reads as raw bytes has no other reading. */
  lemma RawHasNoOtherReading(s: string)
    requires "0x" <= s
    ensures ParseHash(s) == None && forall max :: ParseUnsigned(s, max) == None
  {
    DecodedLength(s);
    assert s[1] == 'x' && s[0] == '0';
    assert !IsHex(s[1]) && !IsDigit(s[1]);
  }

  /** When a hash reading and a number reading compete, and the order of the attempts decides. */
  lemma HashAndNumberOverlap(s: string)
    ensures ParseHash(s).Some? && ParseUnsigned(s, NUMBER_MAX).Some?
       <==> |s| == 2 * HASH_BYTES && AllDigits(s) && FromDigits(s) <= NUMBER_MAX
  {
    DecodedLength(s);
    if ParseHash(s).Some? {
      assert IsHex(s[0]);
    }
    if |s| == 2 * HASH_BYTES && AllDigits(s) {
      assert forall i :: 0 <= i < |s| ==> IsDigit(s[i]) && IsHex(s[i]);
      assert IsDigit(s[0]);
    }
  }

  /** Every block address parses back from its printed form. */
  lemma BlockRoundTrip(a: BlockAddress)
    requires IsBlock(a)
    ensures ParseBlock(PrintBlock(a)) == Ok(a)
  {
    match a
    case Hash(hash) => HexRoundTrip(hash);
    case Number(number) =>
      BlockNumbersAreShort(number);
      DecodedLength(ToString(number));
      NumberRoundTrip(number, NUMBER_MAX);
    case Raw(bytes) =>
      HexRoundTrip(bytes);
      RawHasNoOtherReading(PrintBlock(a));
      assert PrintBlock(a)[2..] == HexEncode(bytes);
  }

  lemma PrintedWithoutSeparators(a: BlockAddress)
    ensures forall i :: 0 <= i < |PrintBlock(a)| ==> !IsSeparator(PrintBlock(a)[i])
  {
    match a
    case Hash(hash) => assert forall i :: 0 <= i < |HexEncode(hash)| ==> IsHex(HexEncode(hash)[i]);
    case Number(number) => assert forall i :: 0 <= i < |ToString(number)| ==> IsDigit(ToString(number)[i]);
    case Raw(bytes) =>
      forall i | 0 <= i < |PrintBlock(a)|
        ensures !IsSeparator(PrintBlock(a)[i])
      {
        assert i >= 2 ==> IsHex(HexEncode(bytes)[i - 2]);
      }
  }

  lemma BreakAt(left: string, separator: char, right: string)
    requires IsSeparator(separator) && forall i :: 0 <= i < |left| ==> !IsSeparator(left[i])
    ensures Break(left + [separator] + right) == |left|
  {
    var s := left + [separator] + right;
    assert s[|left|] == separator;
    assert forall i :: 0 <= i < |left| ==> s[i] == left[i];
  }

  lemma BreakAtEnd(s: string)
    requires forall i :: 0 <= i < |s| ==> !IsSeparator(s[i])
    ensures Break(s) == |s|
  {
  }

  /** An address with a separator in it never reads as raw bytes. */
  lemma SeparatedIsNotRaw(left: string, separator: char, right: string)
    requires IsSeparator(separator)
    ensures FromHex(left + [separator] + right) == None
  {
    var s := left + [separator] + right;
    assert s[|left|] == separator;
    if "0x" <= s {
      assert s[0] == '0' && s[1] == 'x';
      DecodedLength(s[2..]);
      assert s[2..][|left| - 2] == separator;
    }
  }

  /** The first two pieces of three; what follows a further separator is not looked at. */
  lemma TwoPieces(first: string, separator: char, second: string, rest: string)
    requires IsSeparator(separator) && (rest == "" || IsSeparator(rest[0]))
    requires forall i :: 0 <= i < |first| ==> !IsSeparator(first[i])
    requires forall i :: 0 <= i < |second| ==> !IsSeparator(second[i])
    ensures var s := first + [separator] + (second + rest);
            s[..Break(s)] == first && SecondPiece(s) == Some(second)
  {
    var right := second + rest;
    var s := first + [separator] + right;
    BreakAt(first, separator, right);
    assert s[..|first|] == first && s[|first| + 1..] == right;
    if rest == "" {
      assert right == second;
      BreakAtEnd(right);
    } else {
      assert right == second + [rest[0]] + rest[1..];
      BreakAt(second, rest[0], rest[1..]);
    }
    assert right[..|second|] == second;
  }

  /** An address of the form block, separator, index is read as that pair, whatever follows a further separator. */
  lemma PairRoundTrip(block: BlockAddress, index: nat, separator: char, rest: string)
    requires IsBlock(block) && index <= INDEX_MAX && IsSeparator(separator)
    requires rest == "" || IsSeparator(rest[0])
    ensures ParseExtrinsic(PrintBlock(block) + [separator] + (ToString(index) + rest)) == Ok(Block(block, index))
  {
    var left, digits := PrintBlock(block), ToString(index);
    SeparatedIsNotRaw(left, separator, digits + rest);
    PrintedWithoutSeparators(block);
    assert forall i :: 0 <= i < |digits| ==> IsDigit(digits[i]);
    TwoPieces(left, separator, digits, rest);
    BlockRoundTrip(block);
    NumberRoundTrip(index, INDEX_MAX);
    ParsedFromPieces(left + [separator] + (digits + rest), left, digits, block, index);
  }

  lemma ParsedFromPieces(s: string, first: string, second: string, block: BlockAddress, index: nat)
    requires FromHex(s) == None && s[..Break(s)] == first && SecondPiece(s) == Some(second)
    requires ParseBlock(first) == Ok(block) && ParseUnsigned(second, INDEX_MAX) == Some(index)
    ensures ParseExtrinsic(s) == Ok(Block(block, index))
  {
  }

  /** Every extrinsic address parses back from its printed form, with any of the three separators. */
  lemma ExtrinsicRoundTrip(a: ExtrinsicAddress, separator: char)
    requires IsExtrinsic(a) && IsSeparator(separator)
    ensures ParseExtrinsic(PrintExtrinsic(a, separator)) == Ok(a)
  {
    match a
    case Block(block, index) =>
      PairRoundTrip(block, index, separator, "");
      assert ToString(index) + "" == ToString(index);
    case RawExtrinsic(bytes) =>
      HexRoundTrip(bytes);
      assert PrintExtrinsic(a, separator)[2..] == HexEncode(bytes);
  }

  /** The three separators by themselves. */
  lemma ReadsBackWithEach(a: ExtrinsicAddress)
    requires IsExtrinsic(a)
    ensures ParseExtrinsic(PrintExtrinsic(a, '.')) == Ok(a)
    ensures ParseExtrinsic(PrintExtrinsic(a, ':')) == Ok(a)
    ensures ParseExtrinsic(PrintExtrinsic(a, ' ')) == Ok(a)
  {
    ExtrinsicRoundTrip(a, '.');
    ExtrinsicRoundTrip(a, ':');
    ExtrinsicRoundTrip(a, ' ');
  }

  /** A good block with an index that is no number, or too large a one, is refused for the index. */
  lemma BadIndexRefused(block: BlockAddress, separator: char, piece: string)
    requires IsBlock(block) && IsSeparator(separator) && ParseUnsigned(piece, INDEX_MAX) == None
    requires forall i :: 0 <= i < |piece| ==> !IsSeparator(piece[i])
    ensures ParseExtrinsic(PrintBlock(block) + [separator] + piece) == Err(InvalidIndex)
  {
    SeparatedIsNotRaw(PrintBlock(block), separator, piece);
    assert piece + "" == piece;
    PrintedWithoutSeparators(block);
    TwoPieces(PrintBlock(block), separator, piece, "");
    BlockRoundTrip(block);
  }

  /** A first piece that is no block address is refused as such, whether or not an index follows. */
  lemma BadBlockRefused(first: string, rest: string)
    requires ParseBlock(first).Err? && (rest == "" || IsSeparator(rest[0]))
    requires forall i :: 0 <= i < |first| ==> !IsSeparator(first[i])
    ensures ParseExtrinsic(first + rest) == Err(NotHashNumberOrBytes)
  {
    if rest == "" {
      assert first + rest == first;
      BreakAtEnd(first);
      assert first[..|first|] == first;
      if "0x" <= first {
        RawHasNoOtherReading(first);
      }
    } else {
      assert first + rest == first + [rest[0]] + rest[1..];
      SeparatedIsNotRaw(first, rest[0], rest[1..]);
      BreakAt(first, rest[0], rest[1..]);
      assert (first + rest)[..|first|] == first;
    }
  }

  /** A block address alone: raw bytes are read as an extrinsic, a hash or a number lacks the index. */
  lemma LoneBlock(a: BlockAddress)
    requires IsBlock(a)
    ensures ParseExtrinsic(PrintBlock(a)) == if a.Raw? then Ok(RawExtrinsic(a.bytes)) else Err(IndexMissing)
  {
    var s := PrintBlock(a);
    PrintedWithoutSeparators(a);
    BreakAtEnd(s);
    assert s[..|s|] == s;
    BlockRoundTrip(a);
    if a.Raw? {
      ExtrinsicRoundTrip(RawExtrinsic(a.bytes), ':');
    } else if "0x" <= s {
      RawHasNoOtherReading(s);
    }
  }

  /** Different addresses have different printed forms. */
  lemma PrintedFormsDiffer(a: ExtrinsicAddress, b: ExtrinsicAddress, separator: char)
    requires IsExtrinsic(a) && IsExtrinsic(b) && IsSeparator(separator)
    requires PrintExtrinsic(a, separator) == PrintExtrinsic(b, separator)
    ensures a == b
  {
    ExtrinsicRoundTrip(a, separator);
    ExtrinsicRoundTrip(b, separator);
  }

  lemma PrintedBlocksDiffer(a: BlockAddress, b: BlockAddress)
    requires IsBlock(a) && IsBlock(b) && PrintBlock(a) == PrintBlock(b)
    ensures a == b
  {
    BlockRoundTrip(a);
    BlockRoundTrip(b);
  }

  // ----- What the extrinsic parser accepts and refuses, told without it -----

  /** s[..i] is the first piece of s: no separator in it, and one behind it unless s ends there. */
  ghost predicate IsFirstPiece(s: string, i: int) {
    && 0 <= i <= |s| && (i == |s| || s[i] in ".: ")
    && forall k :: 0 <= k < i ==> s[k] !in ".: "
  }

  /** A separator stands at i and no other before j, where s ends or the next one stands. */
  ghost predicate IsSecondPiece(s: string, i: int, j: int) {
    && 0 <= i < |s| && IsFirstPiece(s, i) && i < j <= |s| && IsFirstPiece(s[i + 1..], j - i - 1)
  }

  ghost predicate ReadsAsExtrinsic(s: string, a: ExtrinsicAddress) {
    match a
    case RawExtrinsic(bytes) => SpellsRaw(s, bytes)
    case Block(block, index) =>
      index < 0x1_0000_0000_0000_0000 && exists i, j ::
        IsSecondPiece(s, i, j) && ReadsAsBlock(s[..i], block) && IsNumeral(s[i + 1..j], index)
  }

  lemma BreaksAtFirstPiece(s: string, i: int)
    ensures IsFirstPiece(s, i) <==> i == Break(s)
  {
    forall c: char
      ensures IsSeparator(c) <==> c in ".: "
    {
    }
  }

  lemma SecondPieceIs(s: string, i: int, j: int)
    requires IsSecondPiece(s, i, j)
    ensures i == Break(s) && SecondPiece(s) == Some(s[i + 1..j])
  {
    BreaksAtFirstPiece(s, i);
    BreaksAtFirstPiece(s[i + 1..], j - i - 1);
    assert s[i + 1..][..j - i - 1] == s[i + 1..j];
  }

  lemma SecondPieceExists(s: string)
    requires Break(s) < |s|
    ensures exists j :: IsSecondPiece(s, Break(s), j)
  {
    var i := Break(s);
    var n := Break(s[i + 1..]);
    BreaksAtFirstPiece(s, i);
    BreaksAtFirstPiece(s[i + 1..], n);
    assert IsSecondPiece(s, i, i + 1 + n);
  }

  lemma FindsSecondPiece(s: string)
    ensures forall i, j :: IsSecondPiece(s, i, j) ==> i == Break(s) && SecondPiece(s) == Some(s[i + 1..j])
    ensures SecondPiece(s).Some? ==> exists j :: IsSecondPiece(s, Break(s), j)
  {
    forall i, j | IsSecondPiece(s, i, j)
      ensures i == Break(s) && SecondPiece(s) == Some(s[i + 1..j])
    {
      SecondPieceIs(s, i, j);
    }
    if SecondPiece(s).Some? {
      SecondPieceExists(s);
    }
  }

  lemma PiecesAreNotRaw(s: string)
    requires Break(s) < |s|
    ensures FromHex(s) == None
  {
    var i := Break(s);
    if "0x" <= s {
      assert s[0] == '0' && s[1] == 'x';
      DecodedLength(s[2..]);
      assert s[2..][i - 2] == s[i];
    }
  }

  /** The extrinsic parser accepts exactly the strings with a reading, and gives that reading. */
  lemma ParsesExtrinsics(s: string, a: ExtrinsicAddress)
    ensures ParseExtrinsic(s) == Ok(a) <==> ReadsAsExtrinsic(s, a)
  {
    match a
    case RawExtrinsic(bytes) => ReadsRaw(s, bytes);
    case Block(block, index) =>
      FindsSecondPiece(s);
      ParsesBlocks(s[..Break(s)], block);
      if SecondPiece(s).Some? {
        PiecesAreNotRaw(s);
        ReadsNumerals(SecondPiece(s).value, index, INDEX_MAX);
      }
  }

  ghost predicate IsBlockText(s: string) {
    exists a :: ReadsAsBlock(s, a)
  }

  ghost predicate IsIndexText(s: string) {
    exists v: nat :: v < 0x1_0000_0000_0000_0000 && IsNumeral(s, v)
  }

  lemma ParsesBlockTexts(s: string)
    ensures ParseBlock(s).Ok? <==> IsBlockText(s)
  {
    forall a
      ensures ParseBlock(s) == Ok(a) <==> ReadsAsBlock(s, a)
    {
      ParsesBlocks(s, a);
    }
    assert ParseBlock(s).Ok? ==> ReadsAsBlock(s, ParseBlock(s).value);
  }

  lemma ReadsIndexTexts(s: string)
    ensures ParseUnsigned(s, INDEX_MAX).Some? <==> IsIndexText(s)
  {
    forall v: nat
      ensures ParseUnsigned(s, INDEX_MAX) == Some(v) <==> v < 0x1_0000_0000_0000_0000 && IsNumeral(s, v)
    {
      ReadsNumerals(s, v, INDEX_MAX);
    }
    assert ParseUnsigned(s, INDEX_MAX).Some? ==> IsNumeral(s, ParseUnsigned(s, INDEX_MAX).value);
  }

  /** Which error the parser gives for a string that is no raw bytes, by its pieces; together these are all strings. */
  lemma RefusesExtrinsics(s: string, i: nat)
    requires IsFirstPiece(s, i) && forall b :: !SpellsRaw(s, b)
    ensures ParseExtrinsic(s) == Err(NotHashNumberOrBytes) <==> !IsBlockText(s[..i])
    ensures ParseExtrinsic(s) == Err(IndexMissing) <==> IsBlockText(s[..i]) && i == |s|
    ensures ParseExtrinsic(s) == Err(InvalidIndex)
       <==> IsBlockText(s[..i]) && exists j :: IsSecondPiece(s, i, j) && !IsIndexText(s[i + 1..j])
  {
    BreaksAtFirstPiece(s, i);
    FindsSecondPiece(s);
    ParsesBlockTexts(s[..i]);
    if FromHex(s).Some? {
      ReadsRaw(s, FromHex(s).value);
    }
    if i < |s| {
      ReadsIndexTexts(SecondPiece(s).value);
    }
  }
}
