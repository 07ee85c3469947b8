/** Lists of device offsets kept in a text file, one hexadecimal number a line. */
module OffsetList {
  import opened Bytes
  import opened IoFile

  const NEW_LINE: byte := 0x0A

  // ---------- numbers as text

  function Digit(d: nat): (r: byte)
    requires d < 16
    ensures DigitValue(r) == Some(d)
  {
    if d < 10 then 0x30 + d else 0x61 + d - 10
  }

  function DigitValue(c: byte): (r: Option<nat>)
    ensures r.Some? ==> r.value < 16
  {
    if 0x30 <= c <= 0x39 then Some(c - 0x30)
    else if 0x61 <= c <= 0x66 then Some(c - 0x61 + 10)
    else if 0x41 <= c <= 0x46 then Some(c - 0x41 + 10)
    else None
  }

  /** The sixteen digits, written in lower case and read in either. */
  lemma HexDigits(d: nat)
    requires d < 16
    ensures var lower: seq<byte> :=
        [0x30, 0x31, 0x32, 0x33, 0x34, 0x35, 0x36, 0x37, 0x38, 0x39, 0x61, 0x62, 0x63, 0x64, 0x65, 0x66];
      && Digit(d) == lower[d] && DigitValue(lower[d]) == Some(d)
      && (d >= 10 ==> DigitValue(lower[d] - 0x20) == Some(d))
  {
  }

  /** `StringConverter::toString`, the format `%x` */
  function ToString(value: nat): (r: seq<byte>)
    ensures r != [] && AllDigits(r)
  {
    if value < 16 then [Digit(value)] else ToString(value / 16) + [Digit(value % 16)]
  }

  const MIN_DIGITS := 15

  function Padded(value: nat): (r: seq<byte>) {
    var text := ToString(value);
    if |text| < MIN_DIGITS then seq(MIN_DIGITS - |text|, _ => 0x30) + text else text
  }

  /** `StringConverter::toHexString`, at least 15 digits; None when text and
      terminator do not fit the buffer. */
  function ToHexString(value: nat, bufferSize: nat): (r: Option<seq<byte>>) {
    if bufferSize == 0 then Some([])
    else if |Padded(value)| < bufferSize then Some(Padded(value))
    else None
  }

  predicate AllDigits(s: seq<byte>) {
    forall i :: 0 <= i < |s| ==> DigitValue(s[i]).Some?
  }

  // ---------- text as numbers: extraction of an unsigned 64-bit integer from a
  // stream in hexadecimal mode (ISO/IEC 14882, section [facet.num.get.virtuals])

  predicate IsSpace(c: byte) {
    c == 0x20 || 0x09 <= c <= 0x0D
  }

  function SkipSpaces(s: seq<byte>): (r: seq<byte>) {
    if s != [] && IsSpace(s[0]) then SkipSpaces(s[1..]) else s
  }

  function SkipPrefix(s: seq<byte>): (r: seq<byte>) {
    if |s| >= 2 && s[0] == 0x30 && (s[1] == 0x78 || s[1] == 0x58) then s[2..] else s
  }

  /** The number of leading hexadecimal digits. */
  function DigitCount(s: seq<byte>): (n: nat)
    ensures n <= |s| && AllDigits(s[..n]) && (n < |s| ==> DigitValue(s[n]).None?)
    ensures forall i :: 0 <= i < n ==> DigitValue(s[i]).Some?
  {
    if s != [] && DigitValue(s[0]).Some? then
      var n := DigitCount(s[1..]);
      assert forall i :: 0 < i < n + 1 ==> s[i] == s[1..][i - 1];
      n + 1
    else
      0
  }

  function Value(digits: seq<byte>): (v: nat)
    requires AllDigits(digits)
  {
    if digits == [] then 0
    else Value(digits[..|digits| - 1]) * 16 + DigitValue(digits[|digits| - 1]).value
  }

  /** Too large a number reads as the largest, with a minus sign the stream wraps
      it, and no number at all reads as 0. */
  function ParseLine(line: seq<byte>): (r: nat)
    ensures r < TWO_64
  {
    var s := SkipSpaces(line);
    var negative := s != [] && s[0] == 0x2D;
    var t := SkipPrefix(if s != [] && (s[0] == 0x2D || s[0] == 0x2B) then s[1..] else s);
    var v := Value(t[..DigitCount(t)]);
    if v >= TWO_64 then TWO_64 - 1 else if negative then U64(TWO_64 - v) else v
  }

  function FirstNewLine(text: seq<byte>): (n: nat)
    ensures n <= |text| && (n < |text| ==> text[n] == NEW_LINE)
    ensures forall i :: 0 <= i < n ==> text[i] != NEW_LINE
  {
    if text == [] || text[0] == NEW_LINE then 0 else 1 + FirstNewLine(text[1..])
  }

  /** The numbers of all terminated lines. */
  function ParseText(text: seq<byte>): (r: seq<nat>)
    decreases |text|
  {
    var n := FirstNewLine(text);
    if n == |text| then [] else [ParseLine(text[..n])] + ParseText(text[n + 1..])
  }

  function Line(value: nat): (r: seq<byte>) {
    ToString(value) + [NEW_LINE]
  }

  function TextOf(offsets: seq<nat>): (r: seq<byte>) {
    if offsets == [] then [] else Line(offsets[0]) + TextOf(offsets[1..])
  }

  predicate Offsets(offsets: seq<nat>) {
    forall i :: 0 <= i < |offsets| ==> offsets[i] < TWO_64
  }

  // ---------- numbers

  lemma {:induction false} ValueOfText(value: nat)
    ensures Value(ToString(value)) == value
  {
    if value >= 16 {
      var front := ToString(value / 16);
      ValueOfText(value / 16);
      assert ToString(value)[..|ToString(value)| - 1] == front;
    } else {
      assert Value([Digit(value)]) == Value([]) * 16 + value;
    }
  }

  lemma {:induction false} LeadingZeros(n: nat, digits: seq<byte>)
    requires AllDigits(digits)
    ensures AllDigits(seq(n, _ => 0x30) + digits) && Value(seq(n, _ => 0x30) + digits) == Value(digits)
    decreases n + |digits|
  {
    var zeros: seq<byte> := seq(n, _ => 0x30);
    var all := zeros + digits;
    if digits != [] {
      LeadingZeros(n, digits[..|digits| - 1]);
      assert all[..|all| - 1] == zeros + digits[..|digits| - 1];
    } else if n > 0 {
      LeadingZeros(n - 1, []);
      assert all[..|all| - 1] == seq(n - 1, _ => 0x30) + [];
    }
  }

  /** Digits followed by something that is neither a digit nor taken for the `x`
      of a prefix: only the digits count. */
  lemma DigitsParsed(digits: seq<byte>, tail: seq<byte>)
    requires digits != [] && AllDigits(digits)
    requires tail != [] ==> DigitValue(tail[0]).None? && tail[0] != 0x78 && tail[0] != 0x58
    ensures ParseLine(digits + tail) == if Value(digits) < TWO_64 then Value(digits) else TWO_64 - 1
  {
    var line := digits + tail;
    assert DigitValue(line[0]).Some?;
    assert SkipSpaces(line) == line;
    if |line| >= 2 {
      assert line[1] != 0x78 && line[1] != 0x58 by {
        if |digits| >= 2 {
          assert line[1] == digits[1] && DigitValue(digits[1]).Some?;
        } else {
          assert line[1] == tail[0];
        }
      }
    }
    assert SkipPrefix(line) == line;
    var n := DigitCount(line);
    assert forall i :: 0 <= i < |digits| ==> line[i] == digits[i];
    assert tail != [] ==> line[|digits|] == tail[0];
    assert line[..n] == digits;
  }

  /** A written number reads back, with or without zeros in front. */
  lemma NumberBack(value: nat, tail: seq<byte>)
    requires value < TWO_64
    requires tail != [] ==> DigitValue(tail[0]).None? && tail[0] != 0x78 && tail[0] != 0x58
    ensures ParseLine(ToString(value) + tail) == value
    ensures ParseLine(Padded(value) + tail) == value
  {
    var text := ToString(value);
    ValueOfText(value);
    DigitsParsed(text, tail);
    if |text| < MIN_DIGITS {
      LeadingZeros(MIN_DIGITS - |text|, text);
      DigitsParsed(Padded(value), tail);
    }
  }

  /** White space, a sign and a prefix in front of the digits: a minus sign
      wraps the number, unless it is too large anyway. */
  lemma SignedBack(spaces: seq<byte>, sign: seq<byte>, prefix: seq<byte>, digits: seq<byte>)
    requires forall c :: c in spaces ==> c == 0x20 || 0x09 <= c <= 0x0D
    requires sign == [] || sign == [0x2B] || sign == [0x2D]
    requires prefix == [] || prefix == [0x30, 0x78] || prefix == [0x30, 0x58]
    requires digits != [] && AllDigits(digits)
    ensures ParseLine(spaces + (sign + (prefix + digits))) ==
      var v := Value(digits);
      if v >= TWO_64 then TWO_64 - 1 else if sign == [0x2D] then U64(TWO_64 - v) else v
  {
    var number := prefix + digits;
    PrefixSkipped(prefix, digits);
    AllTaken(digits);
    SignTaken(sign, number);
    SpacesSkipped(spaces, sign + number);
    hide *;
    Parsed(spaces + (sign + number), sign + number, digits);
  }

  lemma SignTaken(sign: seq<byte>, number: seq<byte>)
    requires sign == [] || sign == [0x2B] || sign == [0x2D]
    requires number != [] && DigitValue(number[0]).Some?
    ensures var signed := sign + number;
      && signed != [] && !IsSpace(signed[0]) && (signed[0] == 0x2D <==> sign == [0x2D])
      && (if signed[0] == 0x2D || signed[0] == 0x2B then signed[1..] else signed) == number
  {
    if sign == [] {
      assert sign + number == number;
    } else {
      assert (sign + number)[0] == sign[0] && (sign + number)[1..] == number;
    }
  }

  lemma Parsed(line: seq<byte>, signed: seq<byte>, digits: seq<byte>)
    requires SkipSpaces(line) == signed != [] && AllDigits(digits) && DigitCount(digits) == |digits|
    requires SkipPrefix(if signed[0] == 0x2D || signed[0] == 0x2B then signed[1..] else signed) == digits
    ensures ParseLine(line) ==
      var v := Value(digits);
      if v >= TWO_64 then TWO_64 - 1 else if signed[0] == 0x2D then U64(TWO_64 - v) else v
  {
    hide SkipSpaces, SkipPrefix, DigitCount, Value;
    assert digits[..|digits|] == digits;
  }

  lemma PrefixSkipped(prefix: seq<byte>, digits: seq<byte>)
    requires prefix == [] || prefix == [0x30, 0x78] || prefix == [0x30, 0x58]
    requires digits != [] && AllDigits(digits)
    ensures var number := prefix + digits;
      SkipPrefix(number) == digits && DigitValue(number[0]).Some?
  {
    var number := prefix + digits;
    if prefix == [] {
      assert number == digits;
      assert |digits| > 1 ==> DigitValue(digits[1]).Some?;
    } else {
      assert number[0] == prefix[0] && number[1] == prefix[1] && number[2..] == digits;
    }
    assert DigitValue(digits[0]).Some?;
  }

  lemma AllTaken(digits: seq<byte>)
    requires AllDigits(digits)
    ensures DigitCount(digits) == |digits|
  {
  }

  lemma {:induction false} SpacesSkipped(spaces: seq<byte>, rest: seq<byte>)
    requires forall c :: c in spaces ==> IsSpace(c)
    requires rest != [] && !IsSpace(rest[0])
    ensures SkipSpaces(spaces + rest) == rest
  {
    if spaces == [] {
      assert spaces + rest == rest;
    } else {
      SpacesSkipped(spaces[1..], rest);
      assert (spaces + rest)[1..] == spaces[1..] + rest;
    }
  }

  /** A line reads back exactly when its number fits 64 bits. */
  lemma NumberBackIff(value: nat)
    ensures ParseLine(ToString(value)) == value <==> value < TWO_64
  {
    ValueOfText(value);
    DigitsParsed(ToString(value), []);
    assert ToString(value) + [] == ToString(value);
  }

  lemma {:induction false} TextLength(value: nat, digits: nat, bound: nat)
    requires digits > 0 && bound == Power(digits)
    ensures |ToString(value)| <= digits <==> value < bound
    decreases digits
  {
    if digits > 1 {
      if value >= 16 {
        TextLength(value / 16, digits - 1, Power(digits - 1));
      }
    } else {
      assert Power(1) == 16 * Power(0);
    }
  }

  function Power(digits: nat): (r: nat)
    ensures r > 0 && (digits > 0 ==> r >= 16)
  {
    if digits == 0 then 1 else 16 * Power(digits - 1)
  }

  /** The default buffer of 17 characters holds every 64-bit number, and no other. */
  lemma DefaultBufferFits(value: nat)
    ensures ToHexString(value, 17).Some? <==> value < TWO_64
    ensures value < TWO_64 ==> ParseLine(ToHexString(value, 17).value) == value
  {
    assert Power(16) == TWO_64 by {
      assert Power(4) == 0x1_0000;
      assert Power(8) == 0x1_0000_0000;
      assert Power(12) == 0x1_0000_0000_0000;
    }
    TextLength(value, 16, TWO_64);
    if value < TWO_64 {
      NumberBack(value, []);
      assert Padded(value) + [] == Padded(value);
    }
  }

  // ---------- lists

  lemma ParseFirstLine(line: seq<byte>, rest: seq<byte>)
    requires NEW_LINE !in line
    ensures ParseText(line + [NEW_LINE] + rest) == [ParseLine(line)] + ParseText(rest)
  {
    hide ParseLine;
    var text := line + [NEW_LINE] + rest;
    var n := FirstNewLine(text);
    assert text[|line|] == NEW_LINE;
    assert forall i :: 0 <= i < |line| ==> text[i] == line[i];
    assert text[..n] == line && text[n + 1..] == rest;
  }

  lemma NumberLineBack(value: nat, rest: seq<byte>)
    requires value < TWO_64
    ensures ParseText(Line(value) + rest) == [value] + ParseText(rest)
  {
    hide ParseLine, ParseText, ToString;
    var number := ToString(value);
    NoLineFeed(number);
    ParseFirstLine(number, rest);
    NumberBack(value, []);
    assert number + [] == number;
  }

  /** Every list of 64-bit offsets survives the text, and a line left
      unterminated behind it is dropped. */
  lemma {:induction false} ListBack(offsets: seq<nat>, tail: seq<byte>)
    requires Offsets(offsets) && NEW_LINE !in tail
    ensures ParseText(TextOf(offsets) + tail) == offsets
  {
    hide ParseText, Line;
    if offsets == [] {
      assert TextOf(offsets) + tail == tail;
      NoLine(tail);
    } else {
      var first, rest := Line(offsets[0]), TextOf(offsets[1..]);
      ListBack(offsets[1..], tail);
      NumberLineBack(offsets[0], rest + tail);
      assert first + rest + tail == first + (rest + tail);
    }
  }

  lemma NoLineFeed(digits: seq<byte>)
    requires AllDigits(digits)
    ensures NEW_LINE !in digits
  {
    assert DigitValue(NEW_LINE).None?;
  }

  /** Zero-padded lines, each ended with or without a carriage return, read as the same list. */
  lemma {:induction false} PaddedListBack(offsets: seq<nat>, ends: seq<seq<byte>>)
    requires Offsets(offsets) && |ends| == |offsets|
    requires forall i :: 0 <= i < |ends| ==> ends[i] == [] || ends[i] == [0x0D]
    ensures ParseText(PaddedText(offsets, ends)) == offsets
  {
    if offsets != [] {
      var number := Padded(offsets[0]) + ends[0];
      assert NEW_LINE !in number by {
        assert DigitValue(NEW_LINE).None?;
      }
      PaddedListBack(offsets[1..], ends[1..]);
      ParseFirstLine(number, PaddedText(offsets[1..], ends[1..]));
      NumberBack(offsets[0], ends[0]);
      assert [offsets[0]] + offsets[1..] == offsets;
    }
  }

  function PaddedText(offsets: seq<nat>, ends: seq<seq<byte>>): (r: seq<byte>)
    requires |ends| == |offsets|
  {
    if offsets == [] then [] else Padded(offsets[0]) + ends[0] + [NEW_LINE] + PaddedText(offsets[1..], ends[1..])
  }

  /** Cutting a text before a line feed loses numbers. */
  lemma {:induction false} LineLost(kept: seq<byte>, lost: seq<byte>)
    requires NEW_LINE in lost
    ensures |ParseText(kept)| < |ParseText(kept + lost)|
    decreases |kept|
  {
    hide ParseLine, ParseText;
    var n := FirstNewLine(kept);
    if n < |kept| {
      var line, rest := kept[..n], kept[n + 1..];
      LineLost(rest, lost);
      ParseFirstLine(line, rest);
      ParseFirstLine(line, rest + lost);
      assert kept == line + [NEW_LINE] + rest;
      assert kept + lost == line + [NEW_LINE] + (rest + lost);
    } else {
      NoLine(kept);
      var i :| 0 <= i < |lost| && lost[i] == NEW_LINE;
      assert (kept + lost)[|kept| + i] == NEW_LINE;
      SomeLine(kept + lost);
    }
  }

  lemma SomeLine(text: seq<byte>)
    requires NEW_LINE in text
    ensures ParseText(text) != []
  {
    assert FirstNewLine(text) < |text|;
  }

  lemma NoLine(text: seq<byte>)
    requires NEW_LINE !in text
    ensures ParseText(text) == []
  {
    assert FirstNewLine(text) == |text|;
  }

  // ---------- the program

  /** The text file part of `findExtentsWithDepth`: `offsets` are the places found. */
  method WriteOffsets(file: File, offsets: seq<nat>)
    requires file.Ready() && file.position == |file.media|
    modifies file`position, file`media, file`size
    ensures file.media == old(file.media) + TextOf(offsets) && file.position == |file.media|
  {
    for i := 0 to |offsets|
      invariant file.position == |file.media|
      invariant file.media + TextOf(offsets[i..]) == old(file.media) + TextOf(offsets)
    {
      var text := ToString(offsets[i]) + [NEW_LINE];
      assert text == Line(offsets[i]) && TextOf(offsets[i..]) == text + TextOf(offsets[i..][1..]);
      assert offsets[i..][1..] == offsets[i + 1..];
      OverwriteEnd(file.media, text);
      var ok := file.WriteData(text);
    }
  }

  /** What `readOffsetsFromFile` makes of a file; None stands for its exception. */
  function ReadResult(media: seq<byte>): (r: Option<seq<nat>>) {
    if media == [] then Some([])
    else match ReadAt(media, 0, U32(|media|))
      case None => None
      case Some(text) => Some(ParseText(text))
  }

  method ReadOffsetsFromFile(file: File) returns (r: Option<seq<nat>>)
    requires file.Ready()
    modifies file`position
    ensures r == ReadResult(file.media)
  {
    if |file.media| == 0 {
      return Some([]);
    }
    file.SetPosition(0);
    var read := file.ReadData(U32(|file.media|));
    if read.None? {
      return None;
    }
    var offsets := ReadLines(read.value);
    r := Some(offsets);
  }

  /** Its loop over the buffer. */
  method ReadLines(buff: seq<byte>) returns (offsets: seq<nat>)
    ensures offsets == ParseText(buff)
  {
    hide ParseText, ParseLine, FirstNewLine;
    var prev, cur := 0, 0;
    offsets := [];
    assert buff[0..] == buff;
    while cur < |buff|
      invariant 0 <= prev <= cur <= |buff|
      invariant forall i :: prev <= i < cur ==> buff[i] != NEW_LINE
      invariant offsets + ParseText(buff[prev..]) == ParseText(buff)
    {
      if buff[cur] == NEW_LINE {
        NextLine(buff, prev, cur, offsets);
        offsets := offsets + [ParseLine(buff[prev..cur])];
        prev := cur + 1;
      }
      cur := cur + 1;
    }
    NoLine(buff[prev..]);
    assert offsets + [] == offsets;
  }

  lemma NextLine(buff: seq<byte>, prev: nat, cur: nat, offsets: seq<nat>)
    requires prev <= cur < |buff| && buff[cur] == NEW_LINE
    requires forall i :: prev <= i < cur ==> buff[i] != NEW_LINE
    ensures offsets + [ParseLine(buff[prev..cur])] + ParseText(buff[cur + 1..]) == offsets + ParseText(buff[prev..])
  {
    hide ParseText, ParseLine;
    var line := buff[prev..cur];
    ParseFirstLine(line, buff[cur + 1..]);
    assert buff[prev..] == line + [NEW_LINE] + buff[cur + 1..];
  }

  /** The file of a list reads back as that list exactly when it is smaller than
      4 GiB: the buffer's size is a 32-bit number. */
  lemma FileBack(offsets: seq<nat>)
    requires Offsets(offsets)
    ensures ReadResult(TextOf(offsets)) == Some(offsets) <==> |TextOf(offsets)| < TWO_32
  {
    if offsets != [] {
      hide TextOf, ParseText, ReadResult;
      var text := TextOf(offsets);
      ListBack(offsets, []);
      assert text + [] == text;
      TextEndsWithNewLine(offsets);
      WholeFileRead(text);
    }
  }

  /** A file of full lines is read to its end exactly when it is smaller than 4 GiB. */
  lemma WholeFileRead(text: seq<byte>)
    requires text != [] && text[|text| - 1] == NEW_LINE
    ensures ReadResult(text) == Some(ParseText(text)) <==> |text| < TWO_32
  {
    hide ParseText;
    var size := U32(|text|);
    if |text| < TWO_32 {
      assert text[0..|text|] == text;
    } else {
      CutLosesLine(text, size);
    }
  }

  lemma CutLosesLine(text: seq<byte>, size: nat)
    requires size < |text| && text[|text| - 1] == NEW_LINE
    ensures |ParseText(text[0..size])| < |ParseText(text)|
  {
    hide ParseText;
    var kept, lost := text[0..size], text[size..];
    assert lost[|lost| - 1] == NEW_LINE;
    LineLost(kept, lost);
    assert text == kept + lost;
  }

  lemma {:induction false} TextEndsWithNewLine(offsets: seq<nat>)
    requires offsets != []
    ensures TextOf(offsets) != [] && TextOf(offsets)[|TextOf(offsets)| - 1] == NEW_LINE
  {
    if |offsets| > 1 {
      TextEndsWithNewLine(offsets[1..]);
    }
  }
}
