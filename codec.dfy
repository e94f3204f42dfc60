/**
 The string codecs of the element registry: the number-to-decimal conversion the
 host performs implicitly, the letter cipher for grid-area names, the narrow
 byte-to-character text decode, and the two builders for CSS grid templates.

 Each builder that the host writes as an accumulator loop appears twice: as a
 specification function, and as a method with the loop, proved to compute it.
 */
module Codec {
  import opened Wrappers

  /** One byte of the engine's shared memory (a `Uint8Array` element). */
  type byte = b: int | 0 <= b < 0x100

  /** One element of a `Uint32Array` view of the engine's memory. */
  type uint32 = x: int | 0 <= x < 0x1_0000_0000

  // ---------------------------------------------------------------------------
  // Decimal numerals (JavaScript's number-to-string conversion on naturals)
  // ---------------------------------------------------------------------------

  predicate IsDigit(c: char) {
    '0' <= c <= '9'
  }

  predicate AllDigits(s: string) {
    forall i | 0 <= i < |s| :: IsDigit(s[i])
  }

  /** A numeral as the host prints it: non-empty, digits only, no leading zero. */
  predicate IsCanonicalDecimal(s: string) {
    |s| > 0 && AllDigits(s) && (s[0] == '0' ==> |s| == 1)
  }

  function DigitChar(d: nat): (c: char)
    requires d < 10
    ensures IsDigit(c)
  {
    ('0' as int + d) as char
  }

  function DigitValue(c: char): (d: nat)
    requires IsDigit(c)
    ensures d < 10 && DigitChar(d) == c
  {
    c as int - '0' as int
  }

  /** `n.toString()` (and `s += n`) for a natural number `n`. */
  function Decimal(n: nat): (s: string)
    ensures IsCanonicalDecimal(s)
    ensures s[0] == '0' <==> n == 0
  {
    if n < 10 then [DigitChar(n)] else Decimal(n / 10) + [DigitChar(n % 10)]
  }

  /** The value of a string of digits, most significant first. */
  function DecimalValue(s: string): nat
    requires AllDigits(s)
  {
    if s == [] then 0 else DecimalValue(s[..|s| - 1]) * 10 + DigitValue(s[|s| - 1])
  }

  /** Reads back a numeral in the host's canonical form; anything else is rejected. */
  function ParseDecimal(s: string): Option<nat> {
    if IsCanonicalDecimal(s) then Some(DecimalValue(s)) else None
  }

  lemma {:induction false} DecimalValueOfDecimal(n: nat)
    ensures DecimalValue(Decimal(n)) == n
  {
    if n >= 10 {
      var s := Decimal(n);
      assert s[..|s| - 1] == Decimal(n / 10);
      DecimalValueOfDecimal(n / 10);
    }
  }

  /** Printing then reading a numeral gives the number back. */
  lemma DecimalRoundTrip(n: nat)
    ensures ParseDecimal(Decimal(n)) == Some(n)
  {
    DecimalValueOfDecimal(n);
  }

  lemma {:induction false} DecimalValueAtLeastLead(s: string)
    requires |s| > 0 && AllDigits(s)
    ensures DecimalValue(s) >= DigitValue(s[0])
  {
    if |s| > 1 {
      DecimalValueAtLeastLead(s[..|s| - 1]);
    }
  }

  lemma {:induction false} DecimalOfDecimalValue(s: string)
    requires IsCanonicalDecimal(s)
    ensures Decimal(DecimalValue(s)) == s
  {
    if |s| > 1 {
      var p := s[..|s| - 1];
      assert IsCanonicalDecimal(p);
      DecimalOfDecimalValue(p);
      DecimalValueAtLeastLead(p);
      var n := DecimalValue(s);
      assert n / 10 == DecimalValue(p) && n % 10 == DigitValue(s[|s| - 1]);
      assert s == p + [s[|s| - 1]];
    }
  }

  /** Reading a numeral succeeds exactly on the strings the host prints. */
  lemma ParseDecimalSound(s: string, n: nat)
    requires ParseDecimal(s) == Some(n)
    ensures Decimal(n) == s
  {
    DecimalOfDecimalValue(s);
  }

  lemma DecimalInjective(m: nat, n: nat)
    requires Decimal(m) == Decimal(n)
    ensures m == n
  {
    DecimalRoundTrip(m);
    DecimalRoundTrip(n);
  }

  // ---------------------------------------------------------------------------
  // Grid-area names (encodeArea)
  // ---------------------------------------------------------------------------

  /** The host's digit-to-letter table. */
  const CIPHER: map<char, char> :=
    map['0' := 'a', '1' := 'b', '2' := 'c', '3' := 'd', '4' := 'e',
        '5' := 'f', '6' := 'g', '7' := 'h', '8' := 'i', '9' := 'j']

  predicate IsAreaLetter(c: char) {
    'a' <= c <= 'j'
  }

  /** The table covers exactly the digits, and sends digit d to the d-th letter from 'a'. */
  lemma CipherIsLetterOffset(c: char)
    ensures c in CIPHER <==> IsDigit(c)
    ensures c in CIPHER ==> IsAreaLetter(CIPHER[c]) && CIPHER[c] as int - 'a' as int == c as int - '0' as int
  {
    if IsDigit(c) {
      var d := c as int - '0' as int;
      assert c == DigitChar(d);
      assert d == 0 || d == 1 || d == 2 || d == 3 || d == 4 || d == 5 || d == 6 || d == 7 || d == 8 || d == 9;
    }
  }

  /** `CIPHER[c]` for a digit `c`. */
  function Cipher(c: char): (l: char)
    requires IsDigit(c)
    ensures IsAreaLetter(l) && l as int - 'a' as int == c as int - '0' as int
  {
    CipherIsLetterOffset(c);
    CIPHER[c]
  }

  /** Replaces every digit of `s` by its letter. */
  function CipherAll(s: string): (r: string)
    requires AllDigits(s)
    ensures |r| == |s|
    ensures forall i | 0 <= i < |s| :: IsAreaLetter(r[i]) && r[i] as int - 'a' as int == s[i] as int - '0' as int
  {
    if s == [] then [] else CipherAll(s[..|s| - 1]) + [Cipher(s[|s| - 1])]
  }

  /** The grid-area name of an area id: one letter per decimal digit. */
  function AreaName(n: nat): (r: string)
    ensures |r| == |Decimal(n)| && |r| > 0
  {
    CipherAll(Decimal(n))
  }

  /** Each letter of a name is 'a' plus the value of the digit in the same place of the numeral. */
  lemma AreaNameSpelling(n: nat)
    ensures forall i | 0 <= i < |AreaName(n)| :: IsAreaLetter(AreaName(n)[i])
    ensures forall i | 0 <= i < |AreaName(n)| :: AreaName(n)[i] as int - 'a' as int == DigitValue(Decimal(n)[i])
  {
  }

  function Uncipher(l: char): (c: char)
    requires IsAreaLetter(l)
    ensures IsDigit(c) && c as int - '0' as int == l as int - 'a' as int
  {
    DigitChar(l as int - 'a' as int)
  }

  /** Translates area letters back to digits (the inverse table). */
  function UncipherAll(s: string): (r: string)
    requires forall i | 0 <= i < |s| :: IsAreaLetter(s[i])
    ensures |r| == |s| && AllDigits(r)
    ensures forall i | 0 <= i < |s| :: r[i] as int - '0' as int == s[i] as int - 'a' as int
  {
    if s == [] then []
    else [Uncipher(s[0])] + UncipherAll(s[1..])
  }

  /** Reads a grid-area name back to its area id; rejects anything `AreaName` never yields. */
  function DecodeArea(s: string): Option<nat> {
    if forall i | 0 <= i < |s| :: IsAreaLetter(s[i]) then ParseDecimal(UncipherAll(s)) else None
  }

  lemma AreaNameRoundTrip(n: nat)
    ensures DecodeArea(AreaName(n)) == Some(n)
  {
    var d := Decimal(n);
    var name := CipherAll(d);
    assert AreaName(n) == name;
    var u := UncipherAll(name);
    assert |u| == |d|;
    forall i | 0 <= i < |d|
      ensures u[i] == d[i]
    {
      assert u[i] as int == d[i] as int;
    }
    assert u == d;
    DecimalRoundTrip(n);
  }

  lemma DecodeAreaSound(s: string, n: nat)
    requires DecodeArea(s) == Some(n)
    ensures AreaName(n) == s
  {
    var u := UncipherAll(s);
    ParseDecimalSound(u, n);
    assert CipherAll(u) == s;
  }

  /** Distinct area ids get distinct names. */
  lemma AreaNameInjective(m: nat, n: nat)
    requires AreaName(m) == AreaName(n)
    ensures m == n
  {
    AreaNameRoundTrip(m);
    AreaNameRoundTrip(n);
  }

  /** A name is a bare token: no digit, no space, no quote can occur in it. */
  lemma AreaNameIsToken(n: nat)
    ensures forall i | 0 <= i < |AreaName(n)| :: !IsDigit(AreaName(n)[i])
    ensures ' ' !in AreaName(n) && '"' !in AreaName(n)
  {
  }

  /** A one-digit id is named by that digit's letter alone. */
  lemma SingleDigitName(d: nat)
    requires d < 10
    ensures AreaName(d) == [Cipher(DigitChar(d))]
  {
    assert Decimal(d) == [DigitChar(d)];
    assert [DigitChar(d)][..0] == [];
  }

  lemma AreaNameExamples()
    ensures AreaName(0) == "a"
    ensures AreaName(9) == "j"
    ensures AreaName(19) == "bj"
  {
    assert AreaName(19) == "bj" by {
      assert Decimal(19) == Decimal(1) + [DigitChar(9)] == "19";
      assert CipherAll("19") == CipherAll("1") + [Cipher('9')] == "bj" by {
        assert "19"[..1] == "1" && "1"[..0] == "";
      }
    }
    assert AreaName(0) == "a" by { SingleDigitName(0); }
    assert AreaName(9) == "j" by { SingleDigitName(9); }
  }

  /** encodeArea: walks the numeral of `areaInt`, appending each digit's letter. */
  method EncodeArea(areaInt: nat) returns (str: string)
    ensures str == AreaName(areaInt)
  {
    str := "";
    var rawStr := Decimal(areaInt);
    var k := 0;
    while k < |rawStr|
      invariant 0 <= k <= |rawStr|
      invariant str == CipherAll(rawStr[..k])
    {
      assert rawStr[..k + 1] == rawStr[..k] + [rawStr[k]];
      str := str + [Cipher(rawStr[k])];
      k := k + 1;
    }
    assert rawStr[..k] == rawStr;
  }

  // ---------------------------------------------------------------------------
  // Narrow text decode (element_setTextS)
  // ---------------------------------------------------------------------------

  /** `String.fromCharCode(b)` for one byte. */
  function FromCharCode(b: byte): char {
    b as char
  }

  /** One character per byte, code unit equal to the byte; no multi-byte decoding. */
  function NarrowText(bytes: seq<byte>): (s: string)
    ensures |s| == |bytes|
    ensures forall i | 0 <= i < |bytes| :: s[i] as int == bytes[i]
  {
    if bytes == [] then ""
    else NarrowText(bytes[..|bytes| - 1]) + [FromCharCode(bytes[|bytes| - 1])]
  }

  /** The bytes of a string all of whose code units are below 256. */
  function NarrowBytes(s: string): Option<seq<byte>> {
    if forall i | 0 <= i < |s| :: s[i] as int < 0x100
    then Some(seq(|s|, i requires 0 <= i < |s| => s[i] as int))
    else None
  }

  lemma NarrowTextRoundTrip(bytes: seq<byte>)
    ensures NarrowBytes(NarrowText(bytes)) == Some(bytes)
  {
    var s := NarrowText(bytes);
    assert seq(|s|, i requires 0 <= i < |s| => s[i] as int) == bytes;
  }

  lemma NarrowBytesSound(s: string, bytes: seq<byte>)
    requires NarrowBytes(s) == Some(bytes)
    ensures NarrowText(bytes) == s
  {
  }

  /** [72, 105] is the text "Hi". */
  lemma NarrowTextExample()
    ensures NarrowText([72, 105]) == "Hi"
  {
  }

  /** The UTF-8 encoding of U+00E9 becomes two characters, not one: no UTF-8 decoding. */
  lemma NarrowTextIsNotUtf8()
    ensures NarrowText([0xC3, 0xA9]) == ['Ã', '©']
    ensures NarrowText([0xC3, 0xA9]) != ['é']
  {
  }

  /** element_setTextS's loop over the byte view. */
  method DecodeText(bytes: seq<byte>) returns (s: string)
    ensures s == NarrowText(bytes)
  {
    s := "";
    var k := 0;
    while k < |bytes|
      invariant 0 <= k <= |bytes|
      invariant s == NarrowText(bytes[..k])
    {
      assert bytes[..k + 1][..k] == bytes[..k];
      s := s + [FromCharCode(bytes[k])];
      k := k + 1;
    }
    assert bytes[..k] == bytes;
  }

  // ---------------------------------------------------------------------------
  // grid-template-areas (element_setGridTemplateAreasS)
  // ---------------------------------------------------------------------------

  /** The names of one row, each followed by a space. */
  function AreaRow(row: seq<nat>): string {
    if row == [] then ""
    else AreaRow(row[..|row| - 1]) + AreaName(row[|row| - 1]) + " "
  }

  function Quoted(s: string): string {
    "\"" + s + "\""
  }

  lemma RowInBounds(j: nat, width: nat, height: nat)
    requires j < height
    ensures 0 <= j * width && j * width + width <= width * height
  {
    MulMonotone(0, j, width);
    calc {
      j * width + width;
      (j + 1) * width;
    <= { MulMonotone(j + 1, height, width); }
      height * width;
    }
  }

  lemma {:induction false} MulMonotone(a: nat, b: nat, c: nat)
    requires a <= b
    ensures a * c <= b * c
  {
    if a < b {
      MulMonotone(a, b - 1, c);
      assert (b - 1) * c + c == b * c;
    }
  }

  /** Row `j` of the grid: the `width` ids starting at `j * width`. */
  function Row(areas: seq<nat>, width: nat, height: nat, j: nat): (row: seq<nat>)
    requires |areas| == width * height && j < height
    ensures |row| == width
  {
    RowInBounds(j, width, height);
    areas[j * width .. j * width + width]
  }

  /** The `width * height` area ids cut into `height` rows of `width`, row-major. */
  function Rows(areas: seq<nat>, width: nat, height: nat): seq<seq<nat>>
    requires |areas| == width * height
  {
    seq(height, j requires 0 <= j < height => Row(areas, width, height, j))
  }

  /** Cell (j, i) of the rows is area id j * width + i. */
  lemma RowsAreRowMajor(areas: seq<nat>, width: nat, height: nat, j: nat, i: nat)
    requires |areas| == width * height
    requires j < height && i < width
    ensures j * width + i < |areas|
    ensures Rows(areas, width, height)[j][i] == areas[j * width + i]
  {
    RowInBounds(j, width, height);
  }

  /** Every area id sits in some cell of the rows, so the rows determine the ids. */
  lemma RowsDetermineAreas(a: seq<nat>, b: seq<nat>, width: nat, height: nat)
    requires |a| == width * height && |b| == width * height
    requires Rows(a, width, height) == Rows(b, width, height)
    ensures a == b
  {
    forall k | 0 <= k < |a|
      ensures a[k] == b[k]
    {
      var j: nat, i: nat := k / width, k % width;
      assert k == j * width + i;
      if j >= height {
        MulMonotone(height, j, width);
        assert false;
      }
      RowsAreRowMajor(a, width, height, j, i);
      RowsAreRowMajor(b, width, height, j, i);
    }
  }

  /** The first `j` rows, each as `"`, its names, and a closing `"`, in row order. */
  function TemplatePrefix(areas: seq<nat>, width: nat, j: nat): string
    requires j * width <= |areas|
  {
    if j == 0 then ""
    else
      MulMonotone(j - 1, j, width);
      TemplatePrefix(areas, width, j - 1) + Quoted(AreaRow(areas[(j - 1) * width .. j * width]))
  }

  /** The grid-template-areas string of a `width` by `height` grid, row-major. */
  function TemplateAreas(areas: seq<nat>, width: nat, height: nat): string
    requires |areas| == width * height
  {
    TemplatePrefix(areas, width, height)
  }

  /** A row of two ids is their two names, each followed by a space. */
  lemma AreaRowPair(x: nat, y: nat)
    ensures AreaRow([x, y]) == AreaName(x) + " " + AreaName(y) + " "
  {
    assert [x, y][..1] == [x] && [x][..0] == [];
    var nx, ny := AreaName(x), AreaName(y);
    assert AreaRow([x]) == "" + nx + " ";
    assert AreaRow([x, y]) == AreaRow([x]) + ny + " ";
    assert "" + nx + " " == nx + " ";
  }

  /** A template of two rows of two is both rows, each between quotes, in row order. */
  lemma TemplateOfTwoByTwo(w: nat, x: nat, y: nat, z: nat)
    ensures TemplateAreas([w, x, y, z], 2, 2) == Quoted(AreaRow([w, x])) + Quoted(AreaRow([y, z]))
  {
    var areas := [w, x, y, z];
    assert areas[0 .. 2] == [w, x] && areas[2 .. 4] == [y, z];
    assert TemplatePrefix(areas, 2, 1) == Quoted(AreaRow([w, x]));
  }

  /** A 2 by 2 grid of one-digit ids: two quoted rows of two letters, each letter followed by a space. */
  lemma TemplateOfDigits(w: nat, x: nat, y: nat, z: nat)
    requires w < 10 && x < 10 && y < 10 && z < 10
    ensures TemplateAreas([w, x, y, z], 2, 2)
         == ['"', Cipher(DigitChar(w)), ' ', Cipher(DigitChar(x)), ' ', '"',
             '"', Cipher(DigitChar(y)), ' ', Cipher(DigitChar(z)), ' ', '"']
  {
    var lw, lx, ly, lz := Cipher(DigitChar(w)), Cipher(DigitChar(x)), Cipher(DigitChar(y)), Cipher(DigitChar(z));
    TemplateOfTwoByTwo(w, x, y, z);
    assert AreaRow([w, x]) == [lw] + " " + [lx] + " " by {
      AreaRowPair(w, x);
      SingleDigitName(w);
      SingleDigitName(x);
    }
    assert AreaRow([y, z]) == [ly] + " " + [lz] + " " by {
      AreaRowPair(y, z);
      SingleDigitName(y);
      SingleDigitName(z);
    }
    SpellTwoByTwo(lw, lx, ly, lz);
  }

  lemma SpellTwoByTwo(a: char, b: char, c: char, d: char)
    ensures Quoted([a] + " " + [b] + " ") + Quoted([c] + " " + [d] + " ")
         == ['"', a, ' ', b, ' ', '"', '"', c, ' ', d, ' ', '"']
  {
  }

  /** A 2 by 2 grid of [0, 1, 2, 3] is `"a b ""c d "`. */
  lemma TemplateAreasExample()
    ensures TemplateAreas([0, 1, 2, 3], 2, 2) == "\"a b \"\"c d \""
  {
    TemplateOfDigits(0, 1, 2, 3);
    assert DigitChar(0) == '0' && DigitChar(1) == '1' && DigitChar(2) == '2' && DigitChar(3) == '3';
    assert Cipher('0') == 'a' && Cipher('1') == 'b' && Cipher('2') == 'c' && Cipher('3') == 'd';
  }

  lemma TemplatePrefixStep(areas: seq<nat>, width: nat, j: nat, row: seq<nat>)
    requires j * width + width <= |areas| && row == areas[j * width .. j * width + width]
    ensures TemplatePrefix(areas, width, j + 1) == TemplatePrefix(areas, width, j) + Quoted(AreaRow(row))
  {
    assert (j + 1) * width == j * width + width;
  }

  lemma AppendQuoted(done: string, row: string)
    ensures done + "\"" + row + "\"" == done + Quoted(row)
  {
  }

  lemma AppendToken(prefix: string, acc: string, name: string)
    ensures prefix + acc + name + " " == prefix + (acc + name + " ")
  {
  }

  /** The inner `i` loop of element_setGridTemplateAreasS: appends row `j`'s names to `templateStr`. */
  method AppendAreaRow(templateStr: string, areaInts: seq<nat>, width: nat, j: nat) returns (s: string)
    requires j * width + width <= |areaInts|
    ensures s == templateStr + AreaRow(areaInts[j * width .. j * width + width])
  {
    ghost var row := areaInts[j * width .. j * width + width];
    s := templateStr;
    assert row[..0] == [] && s == templateStr + AreaRow(row[..0]);
    var i := 0;
    while i < width
      invariant 0 <= i <= width
      invariant s == templateStr + AreaRow(row[..i])
    {
      assert row[..i + 1][..i] == row[..i];
      assert areaInts[j * width + i] == row[i];
      var name := EncodeArea(areaInts[j * width + i]);
      assert AreaRow(row[..i + 1]) == AreaRow(row[..i]) + name + " ";
      AppendToken(templateStr, AreaRow(row[..i]), name);
      s := s + name;
      s := s + " ";
      i := i + 1;
    }
    assert row[..i] == row;
  }

  /** The outer `j` loop of element_setGridTemplateAreasS: one quoted row per iteration. */
  method BuildTemplateAreas(areaInts: seq<nat>, width: nat, height: nat) returns (templateStr: string)
    requires |areaInts| == width * height
    ensures templateStr == TemplateAreas(areaInts, width, height)
  {
    templateStr := "";
    var j := 0;
    while j < height
      invariant 0 <= j <= height
      invariant templateStr == TemplatePrefix(areaInts, width, j)
    {
      RowInBounds(j, width, height);
      ghost var done := templateStr;
      templateStr := templateStr + "\"";
      templateStr := AppendAreaRow(templateStr, areaInts, width, j);
      ghost var row := areaInts[j * width .. j * width + width];
      AppendQuoted(done, AreaRow(row));
      templateStr := templateStr + "\"";
      TemplatePrefixStep(areaInts, width, j, row);
      j := j + 1;
    }
  }

  // ---------------------------------------------------------------------------
  // fr track lists (element_setGridTemplateRowsS / element_setGridTemplateColumnsS)
  // ---------------------------------------------------------------------------

  /** Each weight's numeral followed by "fr ", in input order. */
  function FrTracks(nums: seq<nat>): string {
    if nums == [] then ""
    else FrTracks(nums[..|nums| - 1]) + Decimal(nums[|nums| - 1]) + "fr "
  }

  lemma FrTracksExamples()
    ensures FrTracks([1, 2, 3]) == "1fr 2fr 3fr "
    ensures FrTracks([]) == ""
  {
    assert Decimal(1) == "1" && Decimal(2) == "2" && Decimal(3) == "3";
    assert [1, 2, 3][..2] == [1, 2];
    assert [1, 2][..1] == [1];
  }

  /** The loop shared by the row and column track builders. */
  method BuildFrTracks(numbers: seq<nat>) returns (s: string)
    ensures s == FrTracks(numbers)
  {
    s := "";
    var k := 0;
    while k < |numbers|
      invariant 0 <= k <= |numbers|
      invariant s == FrTracks(numbers[..k])
    {
      assert numbers[..k + 1][..k] == numbers[..k];
      s := s + Decimal(numbers[k]);
      s := s + "fr ";
      k := k + 1;
    }
    assert numbers[..k] == numbers;
  }
}
