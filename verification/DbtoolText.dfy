/**
 The text forms of the database tool: commitments as `<height>:<block id in hex>`,
 ranges as one commitment or `<start>..=<end>`, proof ids as `asm:<range>` or
 `moho:<commitment>`. What is printed reads back; what is read prints back
 exactly when it was written in the printed form.
 */
module DbtoolText {
  import opened Wrappers
  import opened Identifiers

  datatype ParseError = MissingSeparator | InvalidHeight | InvalidHex | NotThirtyTwoBytes | EndBelowStart | UnknownKind

  datatype L1Range = L1Range(start: L1BlockCommitment, end: L1BlockCommitment)

  predicate ValidRange(r: L1Range) {
    r.start.height <= r.end.height
  }

  datatype ProofId = Asm(range: L1Range) | Moho(commitment: L1BlockCommitment)

  predicate ValidProofId(id: ProofId) {
    id.Asm? ==> ValidRange(id.range)
  }

  // ---- Splitting -----------------------------------------------------------------------------

  datatype Split = Split(before: string, after: string)

  /** Splits at the first occurrence of the separator. */
  function SplitOnce(s: string, sep: string): Option<Split>
    requires sep != []
  {
    if |s| < |sep| then None
    else if s[..|sep|] == sep then Some(Split([], s[|sep|..]))
    else match SplitOnce(s[1..], sep)
      case None => None
      case Some(split) => Some(Split([s[0]] + split.before, split.after))
  }

  lemma {:induction false} SplitsAt(a: string, sep: string, b: string)
    requires sep != [] && sep[0] !in a
    ensures SplitOnce(a + sep + b, sep) == Some(Split(a, b))
  {
    var s := a + sep + b;
    if a == [] {
      assert s[..|sep|] == sep && s[|sep|..] == b;
    } else {
      assert s[0] == a[0] && s[1..] == a[1..] + sep + b;
      assert s[..|sep|][0] == a[0];
      SplitsAt(a[1..], sep, b);
      assert a == [a[0]] + a[1..];
    }
  }

  lemma {:induction false} SplitParts(s: string, sep: string)
    requires sep != [] && SplitOnce(s, sep).Some?
    ensures var split := SplitOnce(s, sep).value; s == split.before + sep + split.after
  {
    if s[..|sep|] == sep {
      assert s == sep + s[|sep|..];
    } else {
      SplitParts(s[1..], sep);
      assert s == [s[0]] + s[1..];
    }
  }

  lemma {:induction false} NeverSplits(s: string, sep: string)
    requires sep != [] && sep[0] !in s
    ensures SplitOnce(s, sep) == None
  {
    if |s| >= |sep| {
      assert s[..|sep|][0] == s[0];
      NeverSplits(s[1..], sep);
    }
  }

  function StripPrefix(s: string, p: string): string {
    if p <= s then s[|p|..] else s
  }

  // ---- Decimal heights -------------------------------------------------------------------------

  predicate IsDigit(c: char) { '0' <= c <= '9' }

  predicate AllDigits(s: string) { forall i :: 0 <= i < |s| ==> IsDigit(s[i]) }

  function Digit(n: nat): (c: char)
    requires n < 10
    ensures IsDigit(c)
  {
    '0' + n as char
  }

  function DigitValue(c: char): (n: nat)
    requires IsDigit(c)
    ensures n < 10 && Digit(n) == c
  {
    c as int - '0' as int
  }

  function PrintDecimal(n: nat): (s: string)
    ensures s != [] && AllDigits(s)
  {
    if n < 10 then [Digit(n)] else PrintDecimal(n / 10) + [Digit(n % 10)]
  }

  function DecimalValue(s: string): nat
    requires AllDigits(s)
  {
    if s == [] then 0 else DecimalValue(s[..|s| - 1]) * 10 + DigitValue(s[|s| - 1])
  }

  /** An optional plus sign, then at least one digit; the value must fit. */
  function ParseU32(s: string): Option<U32> {
    var digits := StripPrefix(s, "+");
    if digits == [] || !AllDigits(digits) || DecimalValue(digits) > U32_MAX then None
    else Some(DecimalValue(digits))
  }

  /** How heights are printed: no sign and no leading zero. */
  predicate PlainDecimal(s: string) {
    s != [] && s[0] != '+' && (|s| == 1 || s[0] != '0')
  }

  lemma {:induction false} DecimalReadsBack(n: nat)
    ensures DecimalValue(PrintDecimal(n)) == n
    ensures PlainDecimal(PrintDecimal(n)) && (n > 0 ==> PrintDecimal(n)[0] != '0')
  {
    if n >= 10 {
      DecimalReadsBack(n / 10);
      var s := PrintDecimal(n);
      assert s[..|s| - 1] == PrintDecimal(n / 10);
    }
  }

  lemma {:induction false} DecimalPrintsBack(s: string)
    requires s != [] && AllDigits(s) && PlainDecimal(s)
    ensures PrintDecimal(DecimalValue(s)) == s
    ensures s[0] != '0' ==> DecimalValue(s) > 0
  {
    var n := |s| - 1;
    if n == 0 {
      assert s[..0] == [];
    } else {
      DecimalPrintsBack(s[..n]);
      var v, d := DecimalValue(s[..n]), DigitValue(s[n]);
      assert DecimalValue(s) == v * 10 + d && v > 0;
      assert (v * 10 + d) / 10 == v && (v * 10 + d) % 10 == d;
      assert s == s[..n] + [s[n]];
    }
  }

  lemma {:induction false} HeightReadsBack(n: U32)
    ensures ParseU32(PrintDecimal(n)) == Some(n)
  {
    DecimalReadsBack(n);
    assert !("+" <= PrintDecimal(n));
  }

  lemma {:induction false} HeightPrintsBackIff(s: string)
    requires ParseU32(s).Some?
    ensures PrintDecimal(ParseU32(s).value) == s <==> PlainDecimal(s)
  {
    if PlainDecimal(s) {
      assert !("+" <= s);
      DecimalPrintsBack(s);
    }
    DecimalReadsBack(ParseU32(s).value);
  }

  // ---- Hex -----------------------------------------------------------------------------------------

  function HexDigit(n: nat): char
    requires n < 16
  {
    if n < 10 then '0' + n as char else 'a' + (n - 10) as char
  }

  function HexValue(c: char): Option<nat> {
    if '0' <= c <= '9' then Some(c as int - '0' as int)
    else if 'a' <= c <= 'f' then Some(c as int - 'a' as int + 10)
    else if 'A' <= c <= 'F' then Some(c as int - 'A' as int + 10)
    else None
  }

  predicate IsLowerHex(c: char) { '0' <= c <= '9' || 'a' <= c <= 'f' }

  function HexByte(b: Byte): (s: string)
    ensures |s| == 2
  {
    [HexDigit(b / 16), HexDigit(b % 16)]
  }

  function PrintHex(bytes: seq<Byte>): (s: string)
    ensures |s| == 2 * |bytes|
  {
    if bytes == [] then [] else HexByte(bytes[0]) + PrintHex(bytes[1..])
  }

  function DecodeHex(s: string): Option<seq<Byte>> {
    if s == [] then Some([])
    else if |s| == 1 then None
    else match (HexValue(s[0]), HexValue(s[1]), DecodeHex(s[2..]))
      case (Some(hi), Some(lo), Some(rest)) => Some([hi * 16 + lo] + rest)
      case _ => None
  }

  predicate AllLowerHex(s: string) { forall i :: 0 <= i < |s| ==> IsLowerHex(s[i]) }

  lemma {:induction false} HexReadsBack(bytes: seq<Byte>)
    ensures DecodeHex(PrintHex(bytes)) == Some(bytes)
    ensures AllLowerHex(PrintHex(bytes))
  {
    if bytes != [] {
      HexReadsBack(bytes[1..]);
      var s := PrintHex(bytes);
      assert s[2..] == PrintHex(bytes[1..]);
      assert s[0] == HexDigit(bytes[0] / 16) && s[1] == HexDigit(bytes[0] % 16);
      assert bytes == [bytes[0]] + bytes[1..];
    }
  }

  /** The digits are the usual ones, in both bases. */
  lemma {:induction false} DigitsAre(n: nat)
    ensures n < 10 ==> Digit(n) == "0123456789"[n]
    ensures n < 16 ==> HexDigit(n) == "0123456789abcdef"[n]
  {
  }

  lemma {:induction false} HexPrintsBackIff(s: string)
    requires DecodeHex(s).Some?
    ensures PrintHex(DecodeHex(s).value) == s <==> AllLowerHex(s)
  {
    var bytes := DecodeHex(s).value;
    HexReadIff(s, bytes);
    HexReadsBack(bytes);
    assert AllLowerHex(s) ==> forall i :: 0 <= i < |s| ==> Lower(s[i]) == s[i];
  }

  function ParseHash32(s: string): Result<BlockId, ParseError> {
    match DecodeHex(StripPrefix(s, "0x"))
    case None => Err(InvalidHex)
    case Some(bytes) => if |bytes| == 32 then Ok(bytes) else Err(NotThirtyTwoBytes)
  }

  lemma {:induction false} HashReadsBack(id: BlockId)
    ensures ParseHash32(PrintHex(id)) == Ok(id)
    ensures AllLowerHex(PrintHex(id))
  {
    HexReadsBack(id);
    assert !("0x" <= PrintHex(id)) by {
      assert IsLowerHex(PrintHex(id)[1]);
    }
  }

  lemma {:induction false} HashPrintsBackIff(s: string)
    requires ParseHash32(s).Ok?
    ensures PrintHex(ParseHash32(s).value) == s <==> AllLowerHex(s)
  {
    if "0x" <= s {
      assert s[1] == 'x';
      HexReadsBack(ParseHash32(s).value);
    } else {
      HexPrintsBackIff(s);
    }
  }

  // ---- All spellings of a number and a hash --------------------------------------------------------------

  predicate AllZeros(s: string) { forall i :: 0 <= i < |s| ==> s[i] == '0' }

  lemma {:induction false} LeadingZeros(zeros: string, s: string)
    requires AllZeros(zeros) && AllDigits(s)
    ensures AllDigits(zeros + s) && DecimalValue(zeros + s) == DecimalValue(s)
    decreases |s|
  {
    if s == [] {
      assert zeros + s == zeros;
      ZeroValue(zeros);
    } else {
      var n := |s| - 1;
      LeadingZeros(zeros, s[..n]);
      assert (zeros + s)[..|zeros + s| - 1] == zeros + s[..n];
    }
  }

  lemma {:induction false} ZeroValue(zeros: string)
    requires AllZeros(zeros)
    ensures AllDigits(zeros) && DecimalValue(zeros) == 0
  {
    if zeros != [] {
      ZeroValue(zeros[..|zeros| - 1]);
    }
  }

  /** Digits are the printed form of their value after some zeros. */
  lemma {:induction false} DigitsAreZerosAndPlain(s: string) returns (zeros: string)
    requires s != [] && AllDigits(s)
    ensures AllZeros(zeros) && s == zeros + PrintDecimal(DecimalValue(s))
    decreases |s|
  {
    if PlainDecimal(s) {
      zeros := [];
      DecimalPrintsBack(s);
    } else {
      var rest := s[1..];
      var z := DigitsAreZerosAndPlain(rest);
      assert s == "0" + rest;
      LeadingZeros("0", rest);
      zeros := "0" + z;
      assert s == zeros + PrintDecimal(DecimalValue(rest)) by {
        ConcatAssoc("0", z, PrintDecimal(DecimalValue(rest)));
      }
    }
  }

  lemma {:induction false} ConcatAssoc(a: string, b: string, c: string)
    ensures (a + b) + c == a + (b + c)
  {
  }

  lemma {:induction false} StripOptional(p: string, prefix: string, rest: string)
    requires (prefix == [] || prefix == p) && !(p <= rest)
    ensures StripPrefix(prefix + rest, p) == rest
  {
    if prefix == [] {
      assert prefix + rest == rest;
    } else {
      assert (prefix + rest)[|p|..] == rest;
    }
  }

  /** A height is read from an optional plus sign, any zeros and its printed form, and from nothing else. */
  lemma {:induction false} HeightReadIff(s: string, n: U32)
    ensures ParseU32(s) == Some(n) <==>
      exists sign, zeros :: (sign == "" || sign == "+") && AllZeros(zeros) && s == sign + zeros + PrintDecimal(n)
  {
    if ParseU32(s) == Some(n) {
      var digits := StripPrefix(s, "+");
      var zeros := DigitsAreZerosAndPlain(digits);
      var sign := if "+" <= s then "+" else "";
      assert s == sign + zeros + PrintDecimal(n) by {
        assert s == sign + digits;
        ConcatAssoc(sign, zeros, PrintDecimal(n));
      }
    }
    forall sign, zeros |
      (sign == "" || sign == "+") && AllZeros(zeros) && s == sign + zeros + PrintDecimal(n)
      ensures ParseU32(s) == Some(n)
    {
      SpelledHeightIsRead(sign, zeros, n);
    }
  }

  lemma {:induction false} SpelledHeightIsRead(sign: string, zeros: string, n: U32)
    requires (sign == "" || sign == "+") && AllZeros(zeros)
    ensures ParseU32(sign + zeros + PrintDecimal(n)) == Some(n)
  {
    var rest := zeros + PrintDecimal(n);
    ConcatAssoc(sign, zeros, PrintDecimal(n));
    DecimalReadsBack(n);
    LeadingZeros(zeros, PrintDecimal(n));
    assert !("+" <= rest) by { assert IsDigit(rest[0]); }
    StripOptional("+", sign, rest);
  }

  /** The digit in lower case. */
  function Lower(c: char): char {
    if 'A' <= c <= 'F' then (c as int - 'A' as int + 'a' as int) as char else c
  }

  predicate SameInLower(s: string, t: string) {
    |s| == |t| && forall i :: 0 <= i < |s| ==> Lower(s[i]) == t[i]
  }

  lemma {:induction false} HexDigitCaseless(c: char, n: nat)
    requires n < 16
    ensures HexValue(c) == Some(n) <==> Lower(c) == HexDigit(n)
  {
  }

  /** Bytes are read from their printed form in any mixture of cases, and from nothing else. */
  lemma {:induction false} HexReadIff(s: string, bytes: seq<Byte>)
    ensures DecodeHex(s) == Some(bytes) <==> SameInLower(s, PrintHex(bytes))
  {
    if bytes != [] && |s| >= 2 {
      HexReadIff(s[2..], bytes[1..]);
      HexPairRead(s, bytes);
    }
  }

  lemma {:induction false} HexPairRead(s: string, bytes: seq<Byte>)
    requires |s| >= 2 && bytes != []
    requires DecodeHex(s[2..]) == Some(bytes[1..]) <==> SameInLower(s[2..], PrintHex(bytes[1..]))
    ensures DecodeHex(s) == Some(bytes) <==> SameInLower(s, PrintHex(bytes))
  {
    var hi, lo, rest := bytes[0] / 16, bytes[0] % 16, PrintHex(bytes[1..]);
    DecodePair(s, bytes, hi, lo);
    HexDigitCaseless(s[0], hi);
    HexDigitCaseless(s[1], lo);
    SameInLowerPair(s, [HexDigit(hi), HexDigit(lo)], rest);
  }

  lemma {:induction false} DecodePair(s: string, bytes: seq<Byte>, hi: nat, lo: nat)
    requires |s| >= 2 && bytes != [] && hi < 16 && lo < 16 && bytes[0] == hi * 16 + lo
    ensures DecodeHex(s) == Some(bytes) <==>
            HexValue(s[0]) == Some(hi) && HexValue(s[1]) == Some(lo) && DecodeHex(s[2..]) == Some(bytes[1..])
  {
    assert bytes == [bytes[0]] + bytes[1..];
    if DecodeHex(s).Some? {
      var h, l, rest := HexValue(s[0]).value, HexValue(s[1]).value, DecodeHex(s[2..]).value;
      assert DecodeHex(s).value == [h * 16 + l] + rest;
      assert ([h * 16 + l] + rest)[0] == h * 16 + l && ([h * 16 + l] + rest)[1..] == rest;
      SameDigits(h, l, hi, lo);
    }
  }

  lemma {:induction false} SameDigits(h: nat, l: nat, hi: nat, lo: nat)
    requires l < 16 && lo < 16
    ensures h * 16 + l == hi * 16 + lo <==> h == hi && l == lo
  {
  }

  lemma {:induction false} SameInLowerPair(s: string, pair: string, rest: string)
    requires |s| >= 2 && |pair| == 2
    ensures SameInLower(s, pair + rest) <==>
            Lower(s[0]) == pair[0] && Lower(s[1]) == pair[1] && SameInLower(s[2..], rest)
  {
    var t := pair + rest;
    assert t[2..] == rest;
    if |s| == |t| {
      assert forall i :: 2 <= i < |s| ==> s[i] == s[2..][i - 2] && t[i] == rest[i - 2];
      assert forall i :: 0 <= i < |rest| ==> s[2..][i] == s[i + 2] && rest[i] == t[i + 2];
    }
  }

  /** A hash is read from its printed form in any case, with or without the prefix, and from nothing else. */
  lemma {:induction false} HashReadIff(s: string, id: BlockId)
    ensures ParseHash32(s) == Ok(id) <==>
      exists prefix, hex :: (prefix == "" || prefix == "0x") && s == prefix + hex && SameInLower(hex, PrintHex(id))
  {
    var hex := StripPrefix(s, "0x");
    HexReadIff(hex, id);
    if ParseHash32(s) == Ok(id) {
      var prefix := if "0x" <= s then "0x" else "";
      assert s == prefix + hex;
    }
    forall prefix, digits |
      (prefix == "" || prefix == "0x") && s == prefix + digits && SameInLower(digits, PrintHex(id))
      ensures ParseHash32(s) == Ok(id)
    {
      HexReadsBack(id);
      assert IsLowerHex(PrintHex(id)[1]) && Lower(digits[1]) == PrintHex(id)[1];
      StripOptional("0x", prefix, digits);
    }
  }

  // ---- Commitments -----------------------------------------------------------------------------------

  function CommitmentText(c: L1BlockCommitment): string {
    PrintDecimal(c.height) + ":" + PrintHex(c.blkid)
  }

  function ParseCommitment(s: string): Result<L1BlockCommitment, ParseError> {
    match SplitOnce(s, ":")
    case None => Err(MissingSeparator)
    case Some(split) =>
      match ParseU32(split.before)
      case None => Err(InvalidHeight)
      case Some(height) =>
        match ParseHash32(split.after)
        case Err(e) => Err(e)
        case Ok(blkid) => Ok(L1BlockCommitment(height, blkid))
  }

  /** Written the way commitments are printed. */
  predicate PlainCommitment(s: string) {
    match SplitOnce(s, ":")
    case None => false
    case Some(split) => PlainDecimal(split.before) && AllLowerHex(split.after)
  }

  lemma {:induction false} TextSplits(c: L1BlockCommitment)
    ensures SplitOnce(CommitmentText(c), ":") == Some(Split(PrintDecimal(c.height), PrintHex(c.blkid)))
  {
    SplitsAt(PrintDecimal(c.height), ":", PrintHex(c.blkid));
  }

  lemma {:induction false} TextHasNoDot(c: L1BlockCommitment)
    ensures '.' !in CommitmentText(c)
  {
    HexReadsBack(c.blkid);
    assert '.' !in PrintDecimal(c.height);
    assert '.' !in PrintHex(c.blkid);
  }

  /** A printed commitment reads back as itself. */
  lemma {:induction false} CommitmentReadsBack(c: L1BlockCommitment)
    ensures ParseCommitment(CommitmentText(c)) == Ok(c)
    ensures PlainCommitment(CommitmentText(c))
  {
    TextSplits(c);
    HeightReadsBack(c.height);
    DecimalReadsBack(c.height);
    HashReadsBack(c.blkid);
  }

  /** A commitment that was read prints back as it was written exactly when it was written plainly. */
  lemma {:induction false} CommitmentPrintsBackIff(s: string)
    requires ParseCommitment(s).Ok?
    ensures CommitmentText(ParseCommitment(s).value) == s <==> PlainCommitment(s)
  {
    var split := SplitOnce(s, ":").value;
    var c := ParseCommitment(s).value;
    SplitParts(s, ":");
    TextSplits(c);
    HeightPrintsBackIff(split.before);
    HashPrintsBackIff(split.after);
  }

  /** All that reads as a commitment: its height and its hash, each in one of its spellings, around a colon. */
  ghost predicate Spells(s: string, c: L1BlockCommitment) {
    exists sign, zeros, prefix, hex ::
      && (sign == "" || sign == "+") && AllZeros(zeros) && (prefix == "" || prefix == "0x")
      && SameInLower(hex, PrintHex(c.blkid))
      && s == sign + zeros + PrintDecimal(c.height) + ":" + (prefix + hex)
  }

  /** A commitment is read from exactly these texts. */
  lemma {:induction false} CommitmentReadIff(s: string, c: L1BlockCommitment)
    ensures ParseCommitment(s) == Ok(c) <==> Spells(s, c)
  {
    if ParseCommitment(s) == Ok(c) {
      ReadIsSpelled(s, c);
    }
    if Spells(s, c) {
      var sign, zeros, prefix, hex :|
        && (sign == "" || sign == "+") && AllZeros(zeros) && (prefix == "" || prefix == "0x")
        && SameInLower(hex, PrintHex(c.blkid))
        && s == sign + zeros + PrintDecimal(c.height) + ":" + (prefix + hex);
      SpelledIsRead(sign, zeros, prefix, hex, c);
    }
  }

  lemma {:induction false} ReadIsSpelled(s: string, c: L1BlockCommitment)
    requires ParseCommitment(s) == Ok(c)
    ensures Spells(s, c)
  {
    var split := SplitOnce(s, ":").value;
    SplitParts(s, ":");
    HeightReadIff(split.before, c.height);
    HashReadIff(split.after, c.blkid);
    var sign, zeros :|
      (sign == "" || sign == "+") && AllZeros(zeros) && split.before == sign + zeros + PrintDecimal(c.height);
    var prefix, hex :|
      (prefix == "" || prefix == "0x") && split.after == prefix + hex && SameInLower(hex, PrintHex(c.blkid));
    assert s == sign + zeros + PrintDecimal(c.height) + ":" + (prefix + hex);
  }

  lemma {:induction false} SpelledIsRead(sign: string, zeros: string, prefix: string, hex: string, c: L1BlockCommitment)
    requires (sign == "" || sign == "+") && AllZeros(zeros) && (prefix == "" || prefix == "0x")
    requires SameInLower(hex, PrintHex(c.blkid))
    ensures ParseCommitment(sign + zeros + PrintDecimal(c.height) + ":" + (prefix + hex)) == Ok(c)
  {
    var before := sign + zeros + PrintDecimal(c.height);
    assert ':' !in before;
    SplitsAt(before, ":", prefix + hex);
    HeightReadIff(before, c.height);
    HashReadIff(prefix + hex, c.blkid);
  }

  /** Other spellings are read too: a plus sign in front changes the text but not the commitment. */
  lemma {:induction false} SignedHeightAccepted(c: L1BlockCommitment)
    ensures ParseCommitment("+" + CommitmentText(c)) == Ok(c)
    ensures CommitmentText(c) != "+" + CommitmentText(c)
  {
    var before, after := "+" + PrintDecimal(c.height), PrintHex(c.blkid);
    SplitsAt(before, ":", after);
    assert "+" + CommitmentText(c) == before + ":" + after;
    assert StripPrefix(before, "+") == PrintDecimal(c.height);
    DecimalReadsBack(c.height);
    HashReadsBack(c.blkid);
    assert |"+" + CommitmentText(c)| == 1 + |CommitmentText(c)|;
  }

  // ---- Ranges -------------------------------------------------------------------------------------------

  function RangeText(r: L1Range): string {
    if r.start == r.end then CommitmentText(r.start)
    else CommitmentText(r.start) + ".." + ("=" + CommitmentText(r.end))
  }

  function NewRange(start: L1BlockCommitment, end: L1BlockCommitment): Result<L1Range, ParseError> {
    if end.height < start.height then Err(EndBelowStart) else Ok(L1Range(start, end))
  }

  function ParseRange(s: string): Result<L1Range, ParseError> {
    match SplitOnce(s, "..")
    case Some(split) =>
      (match ParseCommitment(split.before)
       case Err(e) => Err(e)
       case Ok(start) =>
         match ParseCommitment(StripPrefix(split.after, "="))
         case Err(e) => Err(e)
         case Ok(end) => NewRange(start, end))
    case None =>
      match ParseCommitment(s)
      case Err(e) => Err(e)
      case Ok(block) => Ok(L1Range(block, block))
  }

  /** Written the way ranges are printed: one commitment, or two different ones around `..=`. */
  predicate PlainRange(s: string) {
    match SplitOnce(s, "..")
    case None => PlainCommitment(s)
    case Some(split) =>
      && "=" <= split.after
      && PlainCommitment(split.before) && PlainCommitment(split.after[1..])
      && split.before != split.after[1..]
  }

  lemma {:induction false} RangeTextSplits(r: L1Range)
    ensures SplitOnce(RangeText(r), "..") ==
      if r.start == r.end then None else Some(Split(CommitmentText(r.start), "=" + CommitmentText(r.end)))
  {
    TextHasNoDot(r.start);
    if r.start == r.end {
      NeverSplits(RangeText(r), "..");
    } else {
      var end := "=" + CommitmentText(r.end);
      SplitsAt(CommitmentText(r.start), "..", end);
    }
  }

  /** A printed range reads back as itself. */
  lemma {:induction false} RangeReadsBack(r: L1Range)
    requires ValidRange(r)
    ensures ParseRange(RangeText(r)) == Ok(r)
    ensures PlainRange(RangeText(r))
  {
    RangeTextSplits(r);
    CommitmentReadsBack(r.start);
    CommitmentReadsBack(r.end);
    var end := "=" + CommitmentText(r.end);
    assert end[1..] == CommitmentText(r.end);
    assert StripPrefix(end, "=") == CommitmentText(r.end);
  }

  /** Two texts around `..=` make up `s` exactly when they are the parts it splits into. */
  lemma {:induction false} PairTextIff(s: string, before: string, after: string, start: string, end: string)
    requires SplitOnce(s, "..") == Some(Split(before, after)) && '.' !in start
    ensures start + ".." + ("=" + end) == s <==> "=" <= after && start == before && end == after[1..]
  {
    SplitParts(s, "..");
    SplitsAt(start, "..", "=" + end);
    assert ("=" + end)[1..] == end;
    assert "=" <= after ==> after == "=" + after[1..];
  }

  lemma {:induction false} TextsDiffer(c: L1BlockCommitment, d: L1BlockCommitment)
    ensures CommitmentText(c) == CommitmentText(d) <==> c == d
  {
    CommitmentReadsBack(c);
    CommitmentReadsBack(d);
  }

  lemma {:induction false} PairPrintsBackIff(s: string, before: string, after: string, r: L1Range)
    requires SplitOnce(s, "..") == Some(Split(before, after))
    requires ParseCommitment(before) == Ok(r.start) && ParseCommitment(StripPrefix(after, "=")) == Ok(r.end)
    ensures RangeText(r) == s <==>
      "=" <= after && PlainCommitment(before) && PlainCommitment(after[1..]) && before != after[1..]
  {
    CommitmentPrintsBackIff(before);
    CommitmentPrintsBackIff(StripPrefix(after, "="));
    TextsDiffer(r.start, r.end);
    TextHasNoDot(r.start);
    var start, end := CommitmentText(r.start), CommitmentText(r.end);
    PairTextIff(s, before, after, start, end);
    RangeTextSplits(r);
    assert start == before <==> PlainCommitment(before);
    assert "=" <= after ==> (end == after[1..] <==> PlainCommitment(after[1..]));
    assert (start == end) == (r.start == r.end);
    PairDecides(RangeText(r) == s, start + ".." + ("=" + end) == s, start, end, before, after);
  }

  lemma {:induction false} PairDecides(prints: bool, asPair: bool, start: string, end: string, before: string,
      after: string)
    requires prints <==> start != end && asPair
    requires asPair <==> "=" <= after && start == before && end == after[1..]
    ensures prints <==> "=" <= after && start == before && end == after[1..] && before != after[1..]
  {
  }

  /** A range that was read prints back as it was written exactly when it was written plainly. */
  lemma {:induction false} RangePrintsBackIff(s: string)
    requires ParseRange(s).Ok?
    ensures ValidRange(ParseRange(s).value)
    ensures RangeText(ParseRange(s).value) == s <==> PlainRange(s)
  {
    var r := ParseRange(s).value;
    match SplitOnce(s, "..")
    case None => CommitmentPrintsBackIff(s);
    case Some(split) => PairPrintsBackIff(s, split.before, split.after, r);
  }

  lemma {:induction false} SpellingHasNoDot(s: string, c: L1BlockCommitment)
    requires Spells(s, c)
    ensures '.' !in s && s != [] && s[0] != '='
  {
    var sign, zeros, prefix, hex :|
      && (sign == "" || sign == "+") && AllZeros(zeros) && (prefix == "" || prefix == "0x")
      && SameInLower(hex, PrintHex(c.blkid))
      && s == sign + zeros + PrintDecimal(c.height) + ":" + (prefix + hex);
    HexReadsBack(c.blkid);
    assert '.' !in hex by {
      forall i | 0 <= i < |hex| ensures hex[i] != '.' {
        assert Lower(hex[i]) == PrintHex(c.blkid)[i] && IsLowerHex(PrintHex(c.blkid)[i]);
      }
    }
    assert '.' !in prefix + hex;
    var before := sign + zeros + PrintDecimal(c.height);
    assert forall i :: 0 <= i < |before| ==> before[i] == '+' || IsDigit(before[i]);
    assert s[0] == before[0];
  }

  /** Two spelled commitments around two dots and an optional equals sign. */
  ghost predicate SpellsPair(s: string, r: L1Range) {
    exists start, equals, end ::
      && (equals == "" || equals == "=") && Spells(start, r.start) && Spells(end, r.end)
      && s == start + ".." + (equals + end)
  }

  /** A range is read from a single commitment or from two in height order, and from nothing else. */
  lemma {:induction false} RangeReadIff(s: string, r: L1Range)
    ensures ParseRange(s) == Ok(r) <==>
      (r.start == r.end && Spells(s, r.start)) || (ValidRange(r) && SpellsPair(s, r))
  {
    if ParseRange(s) == Ok(r) {
      RangeIsSpelled(s, r);
    }
    if r.start == r.end && Spells(s, r.start) {
      SpellingHasNoDot(s, r.start);
      NeverSplits(s, "..");
      CommitmentReadIff(s, r.start);
    }
    if ValidRange(r) && SpellsPair(s, r) {
      var start, equals, end :|
        && (equals == "" || equals == "=") && Spells(start, r.start) && Spells(end, r.end)
        && s == start + ".." + (equals + end);
      SpelledPairIsRead(start, equals, end, r);
    }
  }

  lemma {:induction false} RangeIsSpelled(s: string, r: L1Range)
    requires ParseRange(s) == Ok(r)
    ensures (r.start == r.end && Spells(s, r.start)) || (ValidRange(r) && SpellsPair(s, r))
  {
    match SplitOnce(s, "..")
    case None => CommitmentReadIff(s, r.start);
    case Some(split) =>
      SplitParts(s, "..");
      var end := StripPrefix(split.after, "=");
      var equals := if "=" <= split.after then "=" else "";
      CommitmentReadIff(split.before, r.start);
      CommitmentReadIff(end, r.end);
      assert split.after == equals + end;
      assert s == split.before + ".." + (equals + end);
  }

  lemma {:induction false} SpelledPairIsRead(start: string, equals: string, end: string, r: L1Range)
    requires (equals == "" || equals == "=") && Spells(start, r.start) && Spells(end, r.end) && ValidRange(r)
    ensures ParseRange(start + ".." + (equals + end)) == Ok(r)
  {
    SpellingHasNoDot(start, r.start);
    SpellingHasNoDot(end, r.end);
    SplitsAt(start, "..", equals + end);
    StripOptional("=", equals, end);
    CommitmentReadIff(start, r.start);
    CommitmentReadIff(end, r.end);
  }

  // ---- Proof ids --------------------------------------------------------------------------------------------

  function ProofIdText(id: ProofId): string {
    match id
    case Asm(range) => "asm" + ":" + RangeText(range)
    case Moho(commitment) => "moho" + ":" + CommitmentText(commitment)
  }

  function ParseProofId(s: string): Result<ProofId, ParseError> {
    match SplitOnce(s, ":")
    case None => Err(MissingSeparator)
    case Some(split) =>
      if split.before == "asm" then
        match ParseRange(split.after)
        case Err(e) => Err(e)
        case Ok(range) => Ok(Asm(range))
      else if split.before == "moho" then
        match ParseCommitment(split.after)
        case Err(e) => Err(e)
        case Ok(commitment) => Ok(Moho(commitment))
      else Err(UnknownKind)
  }

  predicate PlainProofId(s: string) {
    match SplitOnce(s, ":")
    case None => false
    case Some(split) => if split.before == "asm" then PlainRange(split.after) else PlainCommitment(split.after)
  }

  /** A printed proof id reads back as itself. */
  lemma {:induction false} ProofIdReadsBack(id: ProofId)
    requires ValidProofId(id)
    ensures ParseProofId(ProofIdText(id)) == Ok(id)
  {
    match id
    case Asm(range) =>
      SplitsAt("asm", ":", RangeText(range));
      RangeReadsBack(range);
    case Moho(commitment) =>
      SplitsAt("moho", ":", CommitmentText(commitment));
      CommitmentReadsBack(commitment);
  }

  /** A proof id that was read prints back as it was written exactly when it was written plainly. */
  lemma {:induction false} ProofIdPrintsBackIff(s: string)
    requires ParseProofId(s).Ok?
    ensures ValidProofId(ParseProofId(s).value)
    ensures ProofIdText(ParseProofId(s).value) == s <==> PlainProofId(s)
  {
    var split := SplitOnce(s, ":").value;
    SplitParts(s, ":");
    if split.before == "asm" {
      RangePrintsBackIff(split.after);
      SameTail(split.before, RangeText(ParseRange(split.after).value), split.after);
    } else {
      CommitmentPrintsBackIff(split.after);
      SameTail(split.before, CommitmentText(ParseCommitment(split.after).value), split.after);
    }
  }

  lemma {:induction false} SameTail(kind: string, a: string, b: string)
    ensures kind + ":" + a == kind + ":" + b <==> a == b
  {
    var p := kind + ":";
    assert a == (p + a)[|p|..] && b == (p + b)[|p|..];
  }

  /** A proof id is read from its kind, a colon and a spelled range or commitment, and from nothing else. */
  lemma {:induction false} ProofIdReadIff(s: string, id: ProofId)
    ensures ParseProofId(s) == Ok(id) <==>
      match id
      case Asm(range) => exists text :: s == "asm" + ":" + text && ParseRange(text) == Ok(range)
      case Moho(commitment) => exists text :: s == "moho" + ":" + text && Spells(text, commitment)
  {
    if ParseProofId(s) == Ok(id) {
      var split := SplitOnce(s, ":").value;
      SplitParts(s, ":");
      if id.Moho? {
        CommitmentReadIff(split.after, id.commitment);
      }
    }
    forall text ensures SplitOnce("asm" + ":" + text, ":") == Some(Split("asm", text)) {
      SplitsAt("asm", ":", text);
    }
    forall text ensures SplitOnce("moho" + ":" + text, ":") == Some(Split("moho", text)) {
      SplitsAt("moho", ":", text);
    }
    if id.Moho? {
      forall text | Spells(text, id.commitment) ensures ParseCommitment(text) == Ok(id.commitment) {
        CommitmentReadIff(text, id.commitment);
      }
    }
  }
}
