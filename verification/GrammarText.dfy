/** The lexical level of the grammar compiler: a NUL-terminated text read through an
    index, and scanners over it, each proved against a function that says what it reads. */
module GrammarText {

  // A byte of a C string; the terminating zero is not part of the sequence.
  type TextByte = c: char | 0 < c as int < 256 witness ' '
  type Text = seq<TextByte>

  datatype ParseError =
    | ExpectingHex | ExpectingName | UnknownEscape | UnexpectedEnd
    | ExpectingItem | ExpectingClose | ExpectingDefinition | ExpectingNewline

  datatype Result<+T> = Ok(value: T) | Err(error: ParseError) {
    predicate IsFailure() { Err? }
    function PropagateFailure<U>(): Result<U>
      requires Err?
    {
      Err(error)
    }
    function Extract(): T
      requires Ok?
    {
      value
    }
  }

  /** The character that a pointer to index `i` sees. */
  function At(s: Text, i: nat): char {
    if i < |s| then s[i] else 0 as char
  }

  function ByteAt(s: Text, i: nat): (b: nat)
    ensures b < 256
    ensures b == 0 <==> i >= |s|
  {
    if i < |s| then s[i] as int else 0
  }

  predicate IsWordChar(c: char) {
    'a' <= c <= 'z' || 'A' <= c <= 'Z' || c == '-' || '0' <= c <= '9'
  }

  predicate IsWord(name: string) {
    name != "" && forall i :: 0 <= i < |name| ==> IsWordChar(name[i])
  }

  const SMALL_LETTERS: set<char> :=
    {'a', 'b', 'c', 'd', 'e', 'f', 'g', 'h', 'i', 'j', 'k', 'l', 'm', 'n', 'o', 'p', 'q', 'r', 's', 't', 'u', 'v', 'w',
     'x', 'y', 'z'}
  const CAPITALS: set<char> :=
    {'A', 'B', 'C', 'D', 'E', 'F', 'G', 'H', 'I', 'J', 'K', 'L', 'M', 'N', 'O', 'P', 'Q', 'R', 'S', 'T', 'U', 'V', 'W',
     'X', 'Y', 'Z'}
  const DIGITS: set<char> := {'0', '1', '2', '3', '4', '5', '6', '7', '8', '9'}

  /** A word is made of letters, digits and hyphens, and of nothing else. */
  lemma WordCharsListed(c: char)
    ensures IsWordChar(c) <==> c in SMALL_LETTERS || c in CAPITALS || c in DIGITS || c == '-'
  {
  }

  // ----- names -----

  function NameEnd(s: Text, p: nat): (e: nat)
    requires p <= |s|
    ensures p <= e <= |s|
    decreases |s| - p
  {
    if p < |s| && IsWordChar(s[p]) then NameEnd(s, p + 1) else p
  }

  /** The name is as long as it can be. */
  lemma {:induction false} NameIsWord(s: Text, p: nat)
    requires p <= |s|
    ensures forall i :: p <= i < NameEnd(s, p) ==> IsWordChar(s[i])
    ensures !IsWordChar(At(s, NameEnd(s, p)))
    decreases |s| - p
  {
    if p < |s| && IsWordChar(s[p]) { NameIsWord(s, p + 1); }
  }

  method ParseName(s: Text, src: nat) returns (r: Result<nat>)
    requires src <= |s|
    ensures r == if IsWordChar(At(s, src)) then Ok(NameEnd(s, src)) else Err(ExpectingName)
  {
    var pos := src;
    while IsWordChar(At(s, pos))
      invariant src <= pos <= |s|
      invariant NameEnd(s, src) == NameEnd(s, pos)
      invariant pos > src ==> IsWordChar(At(s, src))
      decreases |s| - pos
    {
      pos := pos + 1;
    }
    if pos == src { return Err(ExpectingName); }
    return Ok(pos);
  }

  // ----- white space and comments -----

  predicate IsLineEnd(c: char) { c == '\r' || c == '\n' }

  function CommentEnd(s: Text, p: nat): (e: nat)
    requires p <= |s|
    ensures p <= e <= |s|
    decreases |s| - p
  {
    if p < |s| && !IsLineEnd(s[p]) then CommentEnd(s, p + 1) else p
  }

  function SpaceEnd(s: Text, p: nat, newlineOk: bool): (e: nat)
    requires p <= |s|
    ensures p <= e <= |s|
    decreases |s| - p
  {
    if p == |s| then p
    else if s[p] == '#' then SpaceEnd(s, CommentEnd(s, p + 1), newlineOk)
    else if s[p] == ' ' || s[p] == '\t' || (newlineOk && IsLineEnd(s[p])) then SpaceEnd(s, p + 1, newlineOk)
    else p
  }

  method ParseSpace(s: Text, src: nat, newlineOk: bool) returns (pos: nat)
    requires src <= |s|
    ensures pos == SpaceEnd(s, src, newlineOk)
  {
    pos := src;
    while At(s, pos) == ' ' || At(s, pos) == '\t' || At(s, pos) == '#' || (newlineOk && IsLineEnd(At(s, pos)))
      invariant pos <= |s|
      invariant SpaceEnd(s, src, newlineOk) == SpaceEnd(s, pos, newlineOk)
      decreases |s| - pos
    {
      if At(s, pos) == '#' {
        ghost var hash := pos;
        while At(s, pos) != 0 as char && !IsLineEnd(At(s, pos))
          invariant hash <= pos <= |s|
          invariant pos == hash || CommentEnd(s, hash + 1) == CommentEnd(s, pos)
          invariant pos == hash ==> s[pos] == '#'
          decreases |s| - pos
        {
          pos := pos + 1;
        }
      } else {
        pos := pos + 1;
      }
    }
  }

  // ----- hexadecimal escapes -----

  predicate IsHexDigit(c: char) {
    'a' <= c <= 'f' || 'A' <= c <= 'F' || '0' <= c <= '9'
  }

  function HexDigit(c: char): (d: nat)
    requires IsHexDigit(c)
    ensures d < 16
  {
    if 'a' <= c <= 'f' then c as int - 'a' as int + 10
    else if 'A' <= c <= 'F' then c as int - 'A' as int + 10
    else c as int - '0' as int
  }

  predicate AllHex(s: Text, p: nat, n: nat)
    ensures AllHex(s, p, n) ==> p + n <= |s|
    decreases n, p
  {
    if n == 0 then p <= |s| else AllHex(s, p, n - 1) && p + n <= |s| && IsHexDigit(s[p + n - 1])
  }

  lemma {:induction false} HexAmong(s: Text, p: nat, n: nat, k: nat)
    requires AllHex(s, p, n) && k < n
    ensures p + k < |s| && IsHexDigit(s[p + k])
    decreases n
  {
    if k < n - 1 { HexAmong(s, p, n - 1, k); }
  }

  function HexValue(s: Text, p: nat, n: nat): nat
    requires AllHex(s, p, n)
    decreases n, p
  {
    if n == 0 then 0 else HexValue(s, p, n - 1) * 16 + HexDigit(s[p + n - 1])
  }

  function HexAt(s: Text, p: nat, n: nat): Result<(nat, nat)> {
    if AllHex(s, p, n) then Ok((HexValue(s, p, n), p + n)) else Err(ExpectingHex)
  }

  // A 32-bit accumulator cannot overflow, because no escape has more than eight digits.
  method ParseHex(s: Text, src: nat, size: nat) returns (r: Result<(nat, nat)>)
    requires src <= |s| && size <= 8
    ensures r == HexAt(s, src, size)
    ensures r.Ok? ==> r.value.0 < 0x1_0000_0000
  {
    var pos, value := src, 0;
    ghost var limit := 1;
    while pos < src + size && At(s, pos) != 0 as char
      invariant src <= pos <= src + size && pos <= |s|
      invariant AllHex(s, src, pos - src) && value == HexValue(s, src, pos - src)
      invariant value < limit == [1, 0x10, 0x100, 0x1000, 0x1_0000, 0x10_0000, 0x100_0000, 0x1000_0000,
                                  0x1_0000_0000][pos - src]
      decreases |s| - pos
    {
      var c := At(s, pos);
      if !IsHexDigit(c) { break; }
      value := value * 16 + HexDigit(c);
      limit := limit * 16;
      pos := pos + 1;
    }
    if pos != src + size {
      if AllHex(s, src, size) { HexAmong(s, src, size, pos - src); }
      return Err(ExpectingHex);
    }
    return Ok((value, pos));
  }

  const LOWER_DIGITS: Text := ['0', '1', '2', '3', '4', '5', '6', '7', '8', '9', 'a', 'b', 'c', 'd', 'e', 'f']
  const UPPER_DIGITS: Text := ['0', '1', '2', '3', '4', '5', '6', '7', '8', '9', 'A', 'B', 'C', 'D', 'E', 'F']

  /** The hexadecimal digits are those and no others. */
  lemma HexDigitsListed(c: char)
    ensures IsHexDigit(c) <==> c in LOWER_DIGITS || c in UPPER_DIGITS
  {
    if IsHexDigit(c) && 'A' <= c <= 'F' { assert c == UPPER_DIGITS[HexDigit(c)]; }
    if IsHexDigit(c) && !('A' <= c <= 'F') { assert c == LOWER_DIGITS[HexDigit(c)]; }
  }

  /** The `n` characters from `p` on are the hexadecimal digits of `v`, small or capital. */
  predicate HexSpells(s: Text, p: nat, n: nat, v: nat)
    decreases n, p
  {
    if n == 0 then v == 0 && p <= |s|
    else
      && HexSpells(s, p, n - 1, v / 16) && p + n <= |s|
      && (s[p + n - 1] == LOWER_DIGITS[v % 16] || s[p + n - 1] == UPPER_DIGITS[v % 16])
  }

  lemma DigitIs(c: char, d: nat)
    requires d < 16
    ensures IsHexDigit(c) && HexDigit(c) == d <==> c == LOWER_DIGITS[d] || c == UPPER_DIGITS[d]
  {
  }

  /** Reading digits undoes writing them, and succeeds on nothing else. */
  lemma {:induction false} HexRoundTrip(s: Text, p: nat, n: nat, v: nat)
    ensures HexSpells(s, p, n, v) <==> HexAt(s, p, n) == Ok((v, p + n))
    decreases n, p
  {
    if n > 0 {
      HexRoundTrip(s, p, n - 1, v / 16);
      if AllHex(s, p, n) {
        DigitIs(s[p + n - 1], v % 16);
        LastDigit(HexValue(s, p, n - 1), HexDigit(s[p + n - 1]), v);
      } else if p + n <= |s| {
        DigitIs(s[p + n - 1], v % 16);
      }
    }
  }

  lemma LastDigit(high: nat, d: nat, v: nat)
    requires d < 16
    ensures high * 16 + d == v <==> high == v / 16 && d == v % 16
  {
  }

  // ----- UTF-8 -----

  /** Bytes in the sequence that starts with `b`, by its four high bits. */
  function Utf8Length(b: nat): (n: nat)
    requires b < 256
    ensures 1 <= n <= 4
  {
    if b < 0xC0 then 1 else if b < 0xE0 then 2 else if b < 0xF0 then 3 else 4
  }

  function LeadBits(b: nat): (v: nat)
    requires b < 256
    ensures v < 128
  {
    match Utf8Length(b)
    case 1 => b % 128
    case 2 => b % 64
    case 3 => b % 32
    case _ => b % 16
  }

  function Continue(s: Text, p: nat, e: nat, value: nat): (nat, nat)
    requires p <= |s|
    decreases |s| - p
  {
    if p < e && p < |s| then Continue(s, p + 1, e, value * 64 + s[p] as int % 64) else (value, p)
  }

  function Utf8At(s: Text, p: nat): (nat, nat)
    requires p < |s|
  {
    Continue(s, p + 1, p + Utf8Length(s[p] as int), LeadBits(s[p] as int))
  }

  method DecodeUtf8(s: Text, src: nat) returns (value: nat, pos: nat)
    requires src < |s|
    ensures (value, pos) == Utf8At(s, src)
    ensures src < pos <= |s|
    ensures value < 0x1_0000_0000
  {
    var first := ByteAt(s, src);
    var len := Utf8Length(first);
    value := LeadBits(first);
    var end := src + len;
    pos := src + 1;
    ghost var limit := 128;
    while pos < end && At(s, pos) != 0 as char
      invariant src < pos <= |s| && pos <= end
      invariant Continue(s, src + 1, end, LeadBits(first)) == Continue(s, pos, end, value)
      invariant value < limit && limit == [128, 128 * 64, 128 * 4096, 128 * 262144][pos - src - 1]
    {
      value := value * 64 + ByteAt(s, pos) % 64;
      limit := limit * 64;
      pos := pos + 1;
    }
  }

  lemma {:induction false} ContinueEnds(s: Text, p: nat, e: nat, value: nat)
    requires p <= |s|
    ensures p <= Continue(s, p, e, value).1 <= |s|
    decreases |s| - p
  {
    if p < e && p < |s| { ContinueEnds(s, p + 1, e, value * 64 + s[p] as int % 64); }
  }

  predicate IsScalar(c: nat) { 0 < c < 0x11_0000 }

  function AsByte(b: nat): TextByte
    requires 0 < b < 256
  {
    b as char
  }

  /** The UTF-8 encoding of a code point. */
  function Utf8(c: nat): Text
    requires IsScalar(c)
  {
    if c < 0x80 then [AsByte(c)]
    else if c < 0x800 then [AsByte(0xC0 + c / 64), AsByte(0x80 + c % 64)]
    else if c < 0x1_0000 then [AsByte(0xE0 + c / 4096), AsByte(0x80 + c / 64 % 64), AsByte(0x80 + c % 64)]
    else [AsByte(0xF0 + c / 262144), AsByte(0x80 + c / 4096 % 64), AsByte(0x80 + c / 64 % 64), AsByte(0x80 + c % 64)]
  }

  lemma {:induction false} Utf8Lead(c: nat)
    requires IsScalar(c)
    ensures var b := Utf8(c)[0] as int;
      && Utf8Length(b) == |Utf8(c)|
      && LeadBits(b) == if c < 0x80 then c else if c < 0x800 then c / 64 else if c < 0x1_0000 then c / 4096
         else c / 262144
  {
  }

  lemma ContinueTo(s: Text, p: nat, n: nat, value: nat)
    requires p + n <= |s| && n <= 4
    ensures n == 1 ==> Continue(s, p + 1, p + n, value) == (value, p + 1)
    ensures n == 2 ==> Continue(s, p + 1, p + n, value) == (value * 64 + s[p + 1] as int % 64, p + 2)
    ensures n == 3 ==> Continue(s, p + 1, p + n, value)
                       == ((value * 64 + s[p + 1] as int % 64) * 64 + s[p + 2] as int % 64, p + 3)
    ensures n == 4 ==> Continue(s, p + 1, p + n, value)
                       == (((value * 64 + s[p + 1] as int % 64) * 64 + s[p + 2] as int % 64) * 64
                           + s[p + 3] as int % 64, p + 4)
  {
    if n > 1 {
      var v1 := value * 64 + s[p + 1] as int % 64;
      ContinueStep(s, p + 1, p + n, value);
      if n > 2 {
        var v2 := v1 * 64 + s[p + 2] as int % 64;
        ContinueStep(s, p + 2, p + n, v1);
        if n > 3 { ContinueStep(s, p + 3, p + n, v2); }
      }
    }
  }

  lemma ContinueStep(s: Text, p: nat, e: nat, value: nat)
    requires p < e <= |s|
    ensures Continue(s, p, e, value) == Continue(s, p + 1, e, value * 64 + s[p] as int % 64)
    ensures Continue(s, e, e, value) == (value, e)
  {
  }

  lemma {:induction false} Utf8Tail(c: nat)
    requires IsScalar(c)
    ensures var u := Utf8(c);
      && (|u| >= 2 ==> u[|u| - 1] as int % 64 == c % 64)
      && (|u| >= 3 ==> u[|u| - 2] as int % 64 == c / 64 % 64)
      && (|u| >= 4 ==> u[|u| - 3] as int % 64 == c / 4096 % 64)
  {
  }

  lemma SixBitGroups(c: nat)
    ensures c == c / 64 * 64 + c % 64
    ensures c / 64 == c / 4096 * 64 + c / 64 % 64
    ensures c / 4096 == c / 262144 * 64 + c / 4096 % 64
  {
  }

  /** Decoding undoes encoding, wherever it stands and whatever follows. */
  lemma {:induction false} Utf8RoundTrip(s: Text, p: nat, c: nat)
    requires IsScalar(c) && p + |Utf8(c)| <= |s| && s[p..p + |Utf8(c)|] == Utf8(c)
    ensures p < |s| && Utf8At(s, p) == (c, p + |Utf8(c)|)
  {
    var u := Utf8(c);
    var n := |u|;
    assert forall i :: 0 <= i < n ==> s[p + i] == s[p..p + n][i] == u[i];
    Utf8Lead(c);
    Utf8Tail(c);
    SixBitGroups(c);
    var lead := LeadBits(s[p] as int);
    ContinueTo(s, p, n, lead);
    assert n == 2 ==> lead * 64 + s[p + 1] as int % 64 == c;
    assert n == 3 ==> lead * 64 + s[p + 1] as int % 64 == c / 64;
    assert n == 4 ==> lead * 64 + s[p + 1] as int % 64 == c / 4096;
  }

  // ----- one character of a literal or a class -----

  function CharAt(s: Text, p: nat): (r: Result<(nat, nat)>)
    requires p <= |s|
    ensures r.Ok? ==> p < r.value.1 <= |s|
  {
    if p == |s| then Err(UnexpectedEnd)
    else if s[p] != '\\' then
      ContinueEnds(s, p + 1, p + Utf8Length(s[p] as int), LeadBits(s[p] as int));
      Ok(Utf8At(s, p))
    else match At(s, p + 1)
      case 'x' => HexAt(s, p + 2, 2)
      case 'u' => HexAt(s, p + 2, 4)
      case 'U' => HexAt(s, p + 2, 8)
      case 't' => Ok((9, p + 2))
      case 'r' => Ok((13, p + 2))
      case 'n' => Ok((10, p + 2))
      case '\\' => Ok((92, p + 2))
      case '"' => Ok((34, p + 2))
      case '[' => Ok((91, p + 2))
      case ']' => Ok((93, p + 2))
      case _ => Err(UnknownEscape)
  }

  method ParseChar(s: Text, src: nat) returns (r: Result<(nat, nat)>)
    requires src <= |s|
    ensures r == CharAt(s, src)
    ensures r.Ok? ==> r.value.0 < 0x1_0000_0000
  {
    if At(s, src) == '\\' {
      var c := At(s, src + 1);
      if c == 'x' {
        r := ParseHex(s, src + 2, 2);
      } else if c == 'u' {
        r := ParseHex(s, src + 2, 4);
      } else if c == 'U' {
        r := ParseHex(s, src + 2, 8);
      } else if c == 't' {
        r := Ok((9, src + 2));
      } else if c == 'r' {
        r := Ok((13, src + 2));
      } else if c == 'n' {
        r := Ok((10, src + 2));
      } else if c == '\\' || c == '"' || c == '[' || c == ']' {
        r := Ok((c as int, src + 2));
      } else {
        r := Err(UnknownEscape);
      }
    } else if At(s, src) != 0 as char {
      var value, pos := DecodeUtf8(s, src);
      r := Ok((value, pos));
    } else {
      r := Err(UnexpectedEnd);
    }
  }

  // ----- decimal numerals, as std::to_string writes them -----

  function Digit(d: nat): (c: char)
    requires d < 10
    ensures c as int == 48 + d
  {
    (48 + d) as char
  }

  function Decimal(n: nat): string {
    (if n < 10 then "" else Decimal(n / 10)) + [Digit(n % 10)]
  }

  function DecimalValue(s: string): int {
    if s == "" then 0 else DecimalValue(s[..|s| - 1]) * 10 + (s[|s| - 1] as int - 48)
  }

  lemma {:induction false} DecimalRoundTrip(n: nat)
    ensures DecimalValue(Decimal(n)) == n
    ensures '_' !in Decimal(n)
  {
    var d := Decimal(n);
    var front := if n < 10 then "" else Decimal(n / 10);
    assert d == front + [Digit(n % 10)];
    assert d[..|d| - 1] == front;
    if n >= 10 { DecimalRoundTrip(n / 10); }
  }
}
