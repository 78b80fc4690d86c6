/**
  A course block in the weekly timetable: its background colour (a hash
  of the course's leading letter code, kept in the bright half of each
  RGB byte, or the site's main colour while the course is hovered) and
  its delete button. Both page generations share this logic.
*/
module CourseBlocks {
  import opened Outcomes
  import opened Courses
  import opened Seqs
  import opened JsStrings
  import opened Numerals
  import opened JsonText
  import AppSession

  /** `websiteColor.mainColor`, the highlight of a hovered block. */
  const MainColor: string := "#009e96"

  /** `brightnessMask` */
  const BrightnessMask: int := 0x808080

  predicate IsAsciiLetter(c: char) {
    'a' <= c <= 'z' || 'A' <= c <= 'Z'
  }

  /** The characters a regular expression's `.` does not match. */
  predicate IsLineTerminator(c: char) {
    c == '\n' || c == '\r' || c == '\U{2028}' || c == '\U{2029}'
  }

  predicate NoLineTerminator(s: string) {
    forall i :: 0 <= i < |s| ==> !IsLineTerminator(s[i])
  }

  /** The leading run of ASCII letters of `s`. */
  function LetterPrefix(s: string): (r: string)
    ensures |r| <= |s| && r == s[..|r|]
    ensures forall i :: 0 <= i < |r| ==> IsAsciiLetter(r[i])
    ensures |r| < |s| ==> !IsAsciiLetter(s[|r|])
  {
    if s == [] || !IsAsciiLetter(s[0]) then [] else [s[0]] + LetterPrefix(s[1..])
  }

  /** Text after a non-letter does not change the letter prefix. */
  lemma {:induction false} LetterPrefixAppend(a: string, b: string)
    requires |LetterPrefix(a)| < |a|
    ensures LetterPrefix(a + b) == LetterPrefix(a)
    decreases |a|
  {
    if IsAsciiLetter(a[0]) {
      assert (a + b)[1..] == a[1..] + b;
      LetterPrefixAppend(a[1..], b);
    }
  }

  // The global replace of `([a-zA-Z]*).*` by `$1`: on each line the
  // first match takes the leading letters and the rest of the line, and is
  // replaced by the letters; the empty match at a line terminator removes
  // nothing, so the terminators stay.
  function KeepLetterPrefixes(s: string): (r: string)
    decreases |s|
  {
    var e := FirstIndex(s, IsLineTerminator);
    if e == |s| then LetterPrefix(s)
    else LetterPrefix(s[..e]) + [s[e]] + KeepLetterPrefixes(s[e + 1..])
  }

  /** On a single line the replacement leaves exactly the leading letter code. */
  lemma SingleLineKeepsLetterPrefix(s: string)
    requires NoLineTerminator(s)
    ensures KeepLetterPrefixes(s) == LetterPrefix(s)
  {
    var e := FirstIndex(s, IsLineTerminator);
    if e < |s| {
      assert false;
    }
  }

  /** ECMAScript `ToInt32`: the 32-bit two's complement value congruent to `x`. */
  function ToInt32(x: int): (r: int)
    ensures -0x8000_0000 <= r < 0x8000_0000
    ensures (r - x) % 0x1_0000_0000 == 0
  {
    (x + 0x8000_0000) % 0x1_0000_0000 - 0x8000_0000
  }

  /** `hash << 5` */
  function ShiftLeft5(h: int): int {
    ToInt32(ToInt32(h) * 32)
  }

  /** One round of the loop: `hash = code.charCodeAt(i) + ((hash << 5) - hash)`; the subtraction is not truncated. */
  function HashStep(h: int, c: char): int {
    c as int + (ShiftLeft5(h) - h)
  }

  /** The hash after the loop has read all of `s`, starting from 0. */
  function Hash(s: string): int
    decreases |s|
  {
    if s == [] then 0 else HashStep(Hash(s[..|s| - 1]), s[|s| - 1])
  }

  /**
    `hash & 0x7F7F7F`: the low seven bits of each of the three low bytes
    of the hash's 32-bit two's complement form (the floor division and
    the non-negative remainder pick those bytes for negative hashes too).
  */
  function MaskLow7(h: int): (m: int)
    ensures 0 <= m <= 0x7F7F7F
  {
    h % 0x100 % 0x80 + h / 0x100 % 0x100 % 0x80 * 0x100 + h / 0x1_0000 % 0x100 % 0x80 * 0x1_0000
  }

  /** The red byte of `baseColor`. */
  function Red(h: int): (b: int)
    ensures 0x80 <= b <= 0xFF
  {
    h / 0x1_0000 % 0x100 % 0x80 + 0x80
  }

  /** The green byte of `baseColor`. */
  function Green(h: int): (b: int)
    ensures 0x80 <= b <= 0xFF
  {
    h / 0x100 % 0x100 % 0x80 + 0x80
  }

  /** The blue byte of `baseColor`. */
  function Blue(h: int): (b: int)
    ensures 0x80 <= b <= 0xFF
  {
    h % 0x100 % 0x80 + 0x80
  }

  /** `baseColor`: the three RGB bytes, each in `[0x80, 0xFF]`. */
  function BaseColor(h: int): (v: int)
    ensures 0x808080 <= v <= 0xFFFFFF
    ensures v == Red(h) * 0x1_0000 + Green(h) * 0x100 + Blue(h)
  {
    MaskLow7(h) + BrightnessMask
  }

  /** `n.toString(16)`: lower-case hexadecimal digits without leading zeros. */
  function ToHex(n: nat): (s: string)
    decreases n
  {
    if n < 16 then [HexChar(n)] else ToHex(n / 16) + [HexChar(n % 16)]
  }

  /** The digits `ToHex` writes are hex digits and read back as the number. */
  lemma {:induction false} ToHexReadsBack(n: nat)
    ensures |ToHex(n)| >= 1 && forall i :: 0 <= i < |ToHex(n)| ==> IsHexDigit(ToHex(n)[i])
    ensures HexValue(ToHex(n)) == n
    decreases n
  {
    var s := ToHex(n);
    if n < 16 {
      assert s[..0] == [];
    } else {
      ToHexReadsBack(n / 16);
      assert s[..|s| - 1] == ToHex(n / 16);
    }
  }

  /** `s.padEnd(n, c)` for a one-character pad. */
  function PadEnd(s: string, n: nat, c: char): (r: string)
    ensures |s| >= n ==> r == s
    ensures |s| < n ==> |r| == n && r[..|s|] == s
    ensures forall i :: |s| <= i < |r| ==> r[i] == c
    decreases n - |s|
  {
    if |s| >= n then s else PadEnd(s + [c], n, c)
  }

  /** Three bytes, the first at least 0x10, are written as six digits: two per byte, high digit first. */
  lemma SixHexDigits(n: nat, r: int, g: int, b: int)
    requires 0x10 <= r <= 0xFF && 0 <= g <= 0xFF && 0 <= b <= 0xFF
    requires n == r * 0x1_0000 + g * 0x100 + b
    ensures ToHex(n) ==
      [HexChar(r / 16), HexChar(r % 16), HexChar(g / 16), HexChar(g % 16), HexChar(b / 16), HexChar(b % 16)]
  {
    var m := r * 0x100 + g;
    FourHexDigits(m, r, g);
    AppendByte(n, m, b);
    Snoc2(ToHex(m), HexChar(b / 16), HexChar(b % 16));
  }

  /** Two bytes, the first at least 0x10, are written as four digits. */
  lemma FourHexDigits(m: nat, r: int, g: int)
    requires 0x10 <= r <= 0xFF && 0 <= g <= 0xFF && m == r * 0x100 + g
    ensures ToHex(m) == [HexChar(r / 16), HexChar(r % 16), HexChar(g / 16), HexChar(g % 16)]
  {
    TwoHexDigits(r);
    AppendByte(m, r, g);
    Snoc2(ToHex(r), HexChar(g / 16), HexChar(g % 16));
  }

  lemma Snoc2(s: string, a: char, b: char)
    ensures s + [a, b] == s + [a] + [b]
  {
  }

  /** A byte of at least 0x10 is written as two digits. */
  lemma TwoHexDigits(x: nat)
    requires 0x10 <= x <= 0xFF
    ensures ToHex(x) == [HexChar(x / 16), HexChar(x % 16)]
  {
    ToHexAppend(x, x / 16, x % 16);
    assert ToHex(x / 16) == [HexChar(x / 16)];
  }

  /** Appending a byte appends its two digits. */
  lemma AppendByte(n: nat, q: nat, y: nat)
    requires n == q * 0x100 + y && q >= 1 && y <= 0xFF
    ensures ToHex(n) == ToHex(q) + [HexChar(y / 16), HexChar(y % 16)]
  {
    var m := q * 16 + y / 16;
    ToHexAppend(n, m, y % 16);
    ToHexAppend(m, q, y / 16);
  }

  /** One more digit at the end. */
  lemma ToHexAppend(n: nat, q: nat, d: nat)
    requires n == q * 16 + d && d < 16 && q >= 1
    ensures ToHex(n) == ToHex(q) + [HexChar(d)]
  {
    DivMod(n, 16, q, d);
  }

  /** Division by a positive constant is determined by quotient and remainder. */
  lemma DivMod(x: int, d: int, q: int, r: int)
    requires d > 0 && x == q * d + r && 0 <= r < d
    ensures x / d == q && x % d == r
  {
    var q0, r0 := x / d, x % d;
    assert (q - q0) * d == r0 - r;
    MulSign(q - q0, d);
  }

  lemma MulSign(a: int, d: int)
    requires d > 0
    ensures a >= 1 ==> a * d >= d
    ensures a <= -1 ==> a * d <= -d
  {
    if a >= 1 {
      assert a * d == (a - 1) * d + d;
    } else if a <= -1 {
      assert a * d == (a + 1) * d - d;
    }
  }

  /**
    `'#' + baseColor.toString(16).padEnd(6, '0')` for the hash `h`: `#`
    and two hex digits per RGB byte that read back as `baseColor`; the
    high digit of each byte is at least 8.
  */
  function ColorOf(h: int): (color: string)
    ensures |color| == 7 && color[0] == '#'
    ensures forall i :: 1 <= i < 7 ==> IsHexDigit(color[i])
    ensures HexValue(color[1..]) == BaseColor(h)
    ensures HexDigitValue(color[1]) * 16 + HexDigitValue(color[2]) == Red(h)
    ensures HexDigitValue(color[3]) * 16 + HexDigitValue(color[4]) == Green(h)
    ensures HexDigitValue(color[5]) * 16 + HexDigitValue(color[6]) == Blue(h)
    ensures HexDigitValue(color[1]) >= 8 && HexDigitValue(color[3]) >= 8 && HexDigitValue(color[5]) >= 8
  {
    var v := BaseColor(h);
    SixHexDigits(v, Red(h), Green(h), Blue(h));
    ToHexReadsBack(v);
    var color := "#" + PadEnd(ToHex(v), 6, '0');
    assert color[1..] == ToHex(v);
    color
  }

  /** With a zero hash the colour is the grey `#808080`. */
  lemma ZeroHashIsGrey()
    ensures ColorOf(0) == "#808080"
  {
    var h := 0;
    assert Red(h) == 0x80 && Green(h) == 0x80 && Blue(h) == 0x80;
    var color := ColorOf(h);
    GreyByte(color[1], color[2]);
    GreyByte(color[3], color[4]);
    GreyByte(color[5], color[6]);
    assert color == "#808080";
  }

  /** The only two hex digits, the first at least 8, that read as 0x80 are `80`. */
  lemma GreyByte(high: char, low: char)
    requires IsHexDigit(high) && IsHexDigit(low)
    requires HexDigitValue(high) * 16 + HexDigitValue(low) == 0x80
    ensures high == '8' && low == '0'
  {
  }

  /** `getHashColor(courseUniqueCode)` */
  function HashColor(code: string): (color: string) {
    ColorOf(Hash(KeepLetterPrefixes(code)))
  }

  /** Codes on one line with the same leading letters get the same colour. */
  lemma SameLetterPrefixSameColor(a: string, b: string)
    requires NoLineTerminator(a) && NoLineTerminator(b)
    requires LetterPrefix(a) == LetterPrefix(b)
    ensures HashColor(a) == HashColor(b)
  {
    SingleLineKeepsLetterPrefix(a);
    SingleLineKeepsLetterPrefix(b);
  }

  /** A code with no leading letter hashes to 0 and gets the grey `#808080`. */
  lemma NoLetterPrefixIsGrey(code: string)
    requires NoLineTerminator(code) && LetterPrefix(code) == []
    ensures HashColor(code) == "#808080"
  {
    SingleLineKeepsLetterPrefix(code);
    assert Hash([]) == 0;
    ZeroHashIsGrey();
  }

  /** The loop of `getHashColor`. */
  method GetHashColor(courseUniqueCode: string) returns (color: string)
    ensures color == HashColor(courseUniqueCode)
  {
    var code := KeepLetterPrefixes(courseUniqueCode);
    var hash := 0;
    for i := 0 to |code|
      invariant hash == Hash(code[..i])
    {
      assert code[..i + 1][..i] == code[..i];
      hash := code[i] as int + (ShiftLeft5(hash) - hash);
    }
    assert code[..|code|] == code;
    var baseColor := MaskLow7(hash) + BrightnessMask;
    assert baseColor == BaseColor(hash);
    color := "#" + PadEnd(ToHex(baseColor), 6, '0');
    assert color == ColorOf(hash);
  }

  /** `isHover`: the hovered course id is this course's number. */
  predicate IsHover(course: Course, hoveredCourseId: Option<string>) {
    hoveredCourseId == Some(course.number)
  }

  /** The block's background: the main colour while hovered, the hash of number and name otherwise. */
  function BackgroundColor(course: Course, hoveredCourseId: Option<string>): string {
    if IsHover(course, hoveredCourseId) then MainColor else HashColor(course.number + course.name)
  }

  /** The main colour's red byte is below 0x80, so a block shows it exactly while hovered. */
  lemma MainColorOnlyOnHover(course: Course, hoveredCourseId: Option<string>)
    ensures BackgroundColor(course, hoveredCourseId) == MainColor <==> IsHover(course, hoveredCourseId)
    ensures !IsHover(course, hoveredCourseId) ==> BackgroundColor(course, hoveredCourseId) == HashColor(course.number + course.name)
  {
    assert HexDigitValue(MainColor[1]) == 0;
  }

  /**
    Two courses on one line whose numbers share their leading letters
    (and then go on with some other character) get the same colour when
    not hovered, whatever their names.
  */
  lemma SameDepartmentCodeSameColor(c1: Course, c2: Course)
    requires NoLineTerminator(c1.number + c1.name) && NoLineTerminator(c2.number + c2.name)
    requires |LetterPrefix(c1.number)| < |c1.number| && |LetterPrefix(c2.number)| < |c2.number|
    requires LetterPrefix(c1.number) == LetterPrefix(c2.number)
    ensures BackgroundColor(c1, None) == BackgroundColor(c2, None)
  {
    LetterPrefixAppend(c1.number, c1.name);
    LetterPrefixAppend(c2.number, c2.name);
    SameLetterPrefixSameColor(c1.number + c1.name, c2.number + c2.name);
  }

  /** `handleDeleteCourse`: `handleCourseSelect(course, false)` on the page's session. */
  method HandleDeleteCourse(session: AppSession.Session, course: Course)
    requires session.Valid()
    modifies session
    ensures session.Valid()
    ensures session.selectedCourses == Delete(old(session.selectedCourses), course)
    ensures course !in session.selectedCourses
    ensures forall c :: c in session.selectedCourses <==> c in old(session.selectedCourses) && c != course
    ensures session.courses == old(session.courses) && session.searchTimeSlot == old(session.searchTimeSlot)
  {
    session.HandleCourseSelect(course, false);
  }
}
