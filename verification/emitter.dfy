/**
 * The C emitter of ttf2c: choosing integer widths, writing array elements
 * and array declarations, the ASCII-art proof of every glyph, the running
 * bitmap offsets and the byte-size accounting. The emitter returns the
 * texts and sizes it computes instead of writing them to a file.
 */
module Emitter {
  import opened Wrappers
  import opened Bits
  import opened Grids
  import Numerals
  import Args

  // ---------------------------------------------------------------------------
  // var_size
  // ---------------------------------------------------------------------------

  /** Python's int.bit_length for a non-negative value. */
  function BitLength(v: nat): (n: nat)
    ensures v < Pow2(n)
    ensures n > 0 ==> Pow2(n - 1) <= v
    ensures n == 0 <==> v == 0
  {
    if v == 0 then 0 else 1 + BitLength(v / 2)
  }

  /** v < 2^k exactly when v needs fewer than k + 1 bits. */
  lemma BitLengthBound(v: nat, k: nat)
    ensures v < Pow2(k) <==> BitLength(v) <= k
  {
    var n := BitLength(v);
    if n <= k {
      Pow2Monotone(n, k);
    } else {
      Pow2Monotone(k, n - 1);
    }
  }

  /**
   * var_size: the first of 8, 16, 32 and 64 that is strictly greater than
   * the bit length of v, or nothing when v needs 64 bits or more.
   */
  function VarSize(v: nat): (r: Option<nat>)
    ensures r.Some? ==> r.value == 8 || r.value == 16 || r.value == 32 || r.value == 64
    ensures r.Some? ==> BitLength(v) < r.value
    ensures r.Some? && r.value > 8 ==> r.value / 2 <= BitLength(v)
    ensures r.None? <==> 64 <= BitLength(v)
  {
    var n := BitLength(v);
    if n < 8 then Some(8)
    else if n < 16 then Some(16)
    else if n < 32 then Some(32)
    else if n < 64 then Some(64)
    else None
  }

  /** The chosen width holds v with its top bit clear, and half of it would not. */
  lemma VarSizeBounds(v: nat)
    requires VarSize(v).Some?
    ensures v < Pow2(VarSize(v).value - 1)
    ensures VarSize(v).value > 8 ==> Pow2(VarSize(v).value / 2 - 1) <= v
  {
    var w := VarSize(v).value;
    BitLengthBound(v, w - 1);
    if w > 8 {
      Pow2Monotone(w / 2 - 1, BitLength(v) - 1);
    }
  }

  /** 255 fits eight bits, yet var_size gives 16 because its bit length is not below 8. */
  lemma VarSizeExamples()
    ensures VarSize(0) == Some(8) && VarSize(127) == Some(8) && VarSize(128) == Some(16)
    ensures VarSize(255) == Some(16) && VarSize(65) == Some(8)
  {
    assert Pow2(6) == 64 && Pow2(7) == 128 && Pow2(8) == 256;
    BitLengthOf(65, 7);
    BitLengthOf(127, 7);
    BitLengthOf(128, 8);
    BitLengthOf(255, 8);
  }

  /** The bit length is the n with 2^(n-1) <= v < 2^n. */
  lemma BitLengthOf(v: nat, n: nat)
    requires n > 0 && Pow2(n - 1) <= v < Pow2(n)
    ensures BitLength(v) == n
  {
    BitLengthBound(v, n);
    BitLengthBound(v, n - 1);
  }

  /** The C type name of a width, "uintNone_t" when there is none. */
  function TypeName(bits: Option<nat>): (s: string)
    ensures |s| >= 7 && s[..4] == "uint" && s[|s| - 2..] == "_t"
    ensures bits.Some? ==> Args.StrToInt(s[4..|s| - 2]) == bits
    ensures bits.None? ==> s[4..|s| - 2] == "None"
  {
    var w := if bits.Some? then Numerals.DecimalText(bits.value) else "None";
    var s := "uint" + w + "_t";
    assert s[4..|s| - 2] == w;
    if bits.Some? then Args.StrToIntReadsDecimal(bits.value); s else s
  }

  lemma TypeNames()
    ensures TypeName(Some(8)) == "uint8_t" && TypeName(Some(16)) == "uint16_t"
    ensures TypeName(None) == "uintNone_t"
  {
    assert Numerals.DecimalText(16) == "16" && Numerals.DecimalText(8) == "8";
  }

  // ---------------------------------------------------------------------------
  // array_element and array_wrap
  // ---------------------------------------------------------------------------

  /**
   * The shape of a `{e:#04x}` field: "0x", then lower-case hex digits,
   * at least four characters in all, and a zero after "0x" only as padding
   * up to that width.
   */
  predicate HexShaped(u: string)
  {
    && |u| >= 4 && u[..2] == "0x"
    && (forall k :: 2 <= k < |u| ==> '0' <= u[k] <= '9' || 'a' <= u[k] <= 'f')
    && (|u| > 4 ==> u[2] != '0')
  }

  /** The format {e:#04x}: "0x" and lower-case hex digits, zero-padded to four characters. */
  function HexLiteral(e: nat): (s: string)
    ensures HexShaped(s)
    ensures (|s| == 4) == (e < 256)
  {
    var digits := Numerals.Text(e, 16);
    assert e >= 16 ==> digits == Numerals.Text(e / 16, 16) + [Numerals.DigitChar(e % 16)];
    Numerals.TextCanonical(e, 16);
    var s := "0x" + (if |digits| < 2 then "0" + digits else digits);
    assert forall k :: 2 <= k < |s| ==> s[k] == (if |digits| < 2 then "0" + digits else digits)[k - 2];
    s
  }

  /** The only text of the `{e:#04x}` shape that reads back as e is the literal written for e. */
  lemma HexLiteralUnique(e: nat, u: string)
    requires HexShaped(u) && Args.StrToInt(u) == Some(e)
    ensures u == HexLiteral(e)
  {
    var d := u[2..];
    assert forall k :: 0 <= k < |d| ==> d[k] == u[k + 2];
    assert Numerals.AllDigits(d, 16);
    assert e == Numerals.NumeralValue(d, 16);
    if d[0] == '0' && |u| == 4 {
      var c := d[1];
      assert d == ['0'] + [c];
      Numerals.LeadingZero([c], 16);
      assert [c][..0] == [];
      Numerals.DigitCharOfValue(c, 16);
      assert e == Numerals.DigitValue(c) && e < 16;
      assert Numerals.Text(e, 16) == [c];
      assert u == "0x" + d;
    } else {
      assert Numerals.Canonical(d, 16);
      Numerals.CanonicalIsText(d, 16);
      assert u == "0x" + d;
    }
  }

  /** A hex literal reads back, as a range token would, as the number it was written for. */
  lemma HexLiteralReadsBack(e: nat)
    ensures Args.StrToInt(HexLiteral(e)) == Some(e)
    ensures forall u :: HexShaped(u) && Args.StrToInt(u) == Some(e) ==> u == HexLiteral(e)
  {
    forall u | HexShaped(u) && Args.StrToInt(u) == Some(e)
      ensures u == HexLiteral(e)
    {
      HexLiteralUnique(e, u);
    }
    var digits := Numerals.Text(e, 16);
    Args.StrToIntReadsHex(e);
    if |digits| < 2 {
      var s := HexLiteral(e);
      Numerals.TextRoundTrip(e, 16);
      Numerals.LeadingZero(digits, 16);
      assert s[..2] == "0x" && s[2..] == "0" + digits;
      assert Numerals.AllDigits("0" + digits, 16) by {
        assert forall i :: 1 <= i < |digits| + 1 ==> ("0" + digits)[i] == digits[i - 1];
      }
    }
  }

  /** array_element: four spaces, a hex literal of the element and the comment. */
  function ArrayElement(element: nat, comment: string): string
  {
    "    " + HexLiteral(element) + comment
  }

  /** An element line ends with its comment, and the literal before the comment reads back as the element. */
  lemma ArrayElementReadsBack(element: nat, comment: string)
    ensures var s := ArrayElement(element, comment);
      |s| >= 8 + |comment| && s[..4] == "    " && s[|s| - |comment|..] == comment &&
      Args.StrToInt(s[4..|s| - |comment|]) == Some(element)
  {
    var s := ArrayElement(element, comment);
    assert s[4..|s| - |comment|] == HexLiteral(element);
    HexLiteralReadsBack(element);
  }

  const ArrayTail: string := "};\n\n"

  function ArrayHead(dataType: string, pointer: string): string
  {
    "static const " + dataType + " " + pointer + "[] = {\n"
  }

  /** array_wrap: the declaration of a constant array around its elements. */
  function ArrayWrap(dataType: string, pointer: string, content: string): (s: string)
    ensures |s| == |ArrayHead(dataType, pointer)| + |content| + 4
    ensures s[..|ArrayHead(dataType, pointer)|] == ArrayHead(dataType, pointer)
    ensures s[|ArrayHead(dataType, pointer)|..|s| - 4] == content
    ensures s[|s| - 4..] == ArrayTail
  {
    var s := ArrayHead(dataType, pointer) + content + ArrayTail;
    assert s[..|ArrayHead(dataType, pointer)|] == ArrayHead(dataType, pointer);
    assert s[|ArrayHead(dataType, pointer)|..|s| - 4] == content;
    s
  }

  // ---------------------------------------------------------------------------
  // Comments and the ASCII-art proof
  // ---------------------------------------------------------------------------

  /** The concatenation of parts, in order. */
  function Concat(parts: seq<string>): string
  {
    if |parts| == 0 then "" else Concat(parts[..|parts| - 1]) + parts[|parts| - 1]
  }

  /**
   * The short label of glyph i: its index and its character. The character
   * text (chr of the code point) is supplied by the caller.
   */
  function CommentShort(i: nat, glyphChar: string): string
  {
    Numerals.DecimalText(i) + ", " + [Quote] + glyphChar + [Quote] + " "
  }

  /** The label starts with the glyph index, which reads back, then holds the character between quotes. */
  lemma CommentShortReadsBack(i: nat, glyphChar: string)
    ensures var s := CommentShort(i, glyphChar); var d := |Numerals.DecimalText(i)|;
      |s| == d + |glyphChar| + 5 && Args.StrToInt(s[..d]) == Some(i) &&
      s[d..d + 3] == ", '" && s[d + 3..d + 3 + |glyphChar|] == glyphChar && s[|s| - 2..] == "' "
  {
    var d := Numerals.DecimalText(i);
    var tail := ", " + [Quote] + glyphChar + [Quote] + " ";
    var s := CommentShort(i, glyphChar);
    assert s == d + tail;
    assert s[..|d|] == d;
    assert s[|d|..] == tail;
    assert tail[..3] == ", '" && tail[3..3 + |glyphChar|] == glyphChar && tail[|tail| - 2..] == "' ";
    Args.StrToIntReadsDecimal(i);
  }

  function Comment(i: nat, glyphChar: string): string
  {
    ", //" + CommentShort(i, glyphChar) + " \n"
  }

  const Quote: char := '\''

  const SetPixel: char := '\U{2580}'
  const UnsetPixel: char := '.'

  /** One row of the ASCII-art proof: "//", a character per pixel, a newline. */
  function ArtLine(row: seq<bool>): (s: string)
    ensures |s| == |row| + 3 && s[..2] == "//" && s[|s| - 1] == '\n'
  {
    "//" + seq(|row|, c requires 0 <= c < |row| => if row[c] then SetPixel else UnsetPixel) + "\n"
  }

  /** The pixels an art line shows, or None for text that is not an art line. */
  function ReadArtLine(s: string): Option<seq<bool>>
  {
    if |s| >= 3 && s[..2] == "//" && s[|s| - 1] == '\n' &&
       forall c :: 2 <= c < |s| - 1 ==> s[c] == SetPixel || s[c] == UnsetPixel
    then Some(seq(|s| - 3, c requires 0 <= c < |s| - 3 => s[2 + c] == SetPixel))
    else None
  }

  /**
   * The art line shows every pixel, set ones as the block character and
   * unset ones as '.': reading it gives the row back, and the line is the
   * only text that reads as that row.
   */
  lemma ArtLineRoundTrip(row: seq<bool>)
    ensures ReadArtLine(ArtLine(row)) == Some(row)
    ensures forall s :: ReadArtLine(s) == Some(row) ==> s == ArtLine(row)
  {
    var line := ArtLine(row);
    forall c | 0 <= c < |row|
      ensures line[2 + c] == if row[c] then SetPixel else UnsetPixel
    {
    }
    assert ReadArtLine(line).Some?;
    assert ReadArtLine(line).value == row by {
      forall c | 0 <= c < |row|
        ensures ReadArtLine(line).value[c] == row[c]
      {
        assert line[2 + c] == if row[c] then SetPixel else UnsetPixel;
      }
    }
    forall s | ReadArtLine(s) == Some(row)
      ensures s == line
    {
      forall k | 0 <= k < |s|
        ensures s[k] == line[k]
      {
        if 2 <= k < |s| - 1 {
          assert ReadArtLine(s).value[k - 2] == row[k - 2];
        } else if k < 2 {
          assert s[..2][k] == line[..2][k];
        }
      }
    }
  }

  function ArtLines(bitmap: Grid<bool>): string
  {
    Concat(seq(|bitmap.cells|, r requires 0 <= r < |bitmap.cells| => ArtLine(bitmap.cells[r])))
  }

  /** One row of packed bytes: four spaces, then "0x.., " per byte, then a newline. */
  function PackedLine(row: seq<Byte>): string
  {
    "    " + Concat(seq(|row|, k requires 0 <= k < |row| => HexLiteral(row[k]) + ", ")) + "\n"
  }

  function PackedLines(packed: Grid<Byte>): string
  {
    Concat(seq(|packed.cells|, r requires 0 <= r < |packed.cells| => PackedLine(packed.cells[r])))
  }

  /** The part of the bitmap array for one glyph: a header comment, the art, the bytes, a blank line. */
  function GlyphBlock(i: nat, glyphChar: string, bitmap: Grid<bool>, packed: Grid<Byte>): string
  {
    "//Char " + CommentShort(i, glyphChar) + "size:" + Numerals.DecimalText(packed.width) + "x"
      + Numerals.DecimalText(packed.height) + "\n" + ArtLines(bitmap) + PackedLines(packed) + "\n"
  }

  // ---------------------------------------------------------------------------
  // Reference definitions of the arrays
  // ---------------------------------------------------------------------------

  /** The largest of the first n code points, or 0 for none. */
  function MaxCode(cs: seq<nat>, n: nat): nat
    requires n <= |cs|
  {
    if n == 0 then 0 else Max(cs[n - 1], MaxCode(cs, n - 1))
  }

  /** MaxCode bounds every code point it covers and is one of them, or 0 for none. */
  lemma {:induction false} MaxCodeIsMaximum(cs: seq<nat>, n: nat)
    requires n <= |cs|
    ensures forall i :: 0 <= i < n ==> cs[i] <= MaxCode(cs, n)
    ensures MaxCode(cs, n) == 0 || exists i :: 0 <= i < n && MaxCode(cs, n) == cs[i]
  {
    if n > 0 {
      MaxCodeIsMaximum(cs, n - 1);
    }
  }

  /** The offset of glyph i in the bitmap array: the bytes of all glyphs before it. */
  function Offset(ps: seq<Grid<Byte>>, i: nat): nat
    requires i <= |ps|
  {
    if i == 0 then 0 else Offset(ps, i - 1) + Size(ps[i - 1])
  }

  /** Offsets never decrease along the array. */
  lemma {:induction false} OffsetMonotone(ps: seq<Grid<Byte>>, i: nat, j: nat)
    requires i <= j <= |ps|
    ensures Offset(ps, i) <= Offset(ps, j)
    decreases j - i
  {
    if i < j {
      OffsetMonotone(ps, i, j - 1);
    }
  }

  /** The bytes of glyph i lie inside the bitmap array of the first n glyphs. */
  lemma {:induction false} GlyphInsideBitmapArray(ps: seq<Grid<Byte>>, n: nat, i: nat)
    requires i < n <= |ps|
    ensures Offset(ps, i) + Size(ps[i]) <= Offset(ps, n)
    decreases n
  {
    if i + 1 < n {
      GlyphInsideBitmapArray(ps, n - 1, i);
    }
  }

  /** The charmap elements of the first n glyphs. */
  function CharmapLines(cs: seq<nat>, glyphChars: seq<string>, n: nat): string
    requires n <= |cs| == |glyphChars|
  {
    if n == 0 then ""
    else CharmapLines(cs, glyphChars, n - 1) + ArrayElement(cs[n - 1], Comment(n - 1, glyphChars[n - 1]))
  }

  /** The offset elements of the first n glyphs. */
  function OffsetLines(ps: seq<Grid<Byte>>, glyphChars: seq<string>, n: nat): string
    requires n <= |glyphChars| <= |ps|
  {
    if n == 0 then ""
    else OffsetLines(ps, glyphChars, n - 1) + ArrayElement(Offset(ps, n - 1), Comment(n - 1, glyphChars[n - 1]))
  }

  /** The width elements of the first n glyphs. */
  function WidthLines(bitmaps: seq<Grid<bool>>, glyphChars: seq<string>, n: nat): string
    requires n <= |glyphChars| <= |bitmaps|
  {
    if n == 0 then ""
    else WidthLines(bitmaps, glyphChars, n - 1) + ArrayElement(bitmaps[n - 1].width, Comment(n - 1, glyphChars[n - 1]))
  }

  /** The bitmap blocks of the first n glyphs. */
  function BitmapLines(bitmaps: seq<Grid<bool>>, ps: seq<Grid<Byte>>, glyphChars: seq<string>, n: nat): string
    requires n <= |glyphChars| <= |bitmaps| && |glyphChars| <= |ps|
  {
    if n == 0 then ""
    else BitmapLines(bitmaps, ps, glyphChars, n - 1) + GlyphBlock(n - 1, glyphChars[n - 1], bitmaps[n - 1], ps[n - 1])
  }

  /** The charmap array: the code points, in the width var_size chose for the largest. */
  function CharmapText(fontName: string, bits: nat, cs: seq<nat>, glyphChars: seq<string>): string
    requires |glyphChars| == |cs|
  {
    ArrayWrap(TypeName(Some(bits)), fontName + "_charmap", CharmapLines(cs, glyphChars, |cs|))
  }

  /** The offset array: where each glyph starts in the bitmap array. */
  function OffsetText(fontName: string, total: nat, ps: seq<Grid<Byte>>, glyphChars: seq<string>): string
    requires |glyphChars| <= |ps|
  {
    ArrayWrap(TypeName(VarSize(total)), fontName + "_offset", OffsetLines(ps, glyphChars, |glyphChars|))
  }

  /** The width array: the column count of each glyph. */
  function WidthText(fontName: string, bitmaps: seq<Grid<bool>>, glyphChars: seq<string>): string
    requires |glyphChars| <= |bitmaps|
  {
    ArrayWrap("uint8_t", fontName + "_width", WidthLines(bitmaps, glyphChars, |glyphChars|))
  }

  /** The bitmap array: every glyph's packed bytes with its ASCII-art proof. */
  function BitmapText(fontName: string, bitmaps: seq<Grid<bool>>, ps: seq<Grid<Byte>>, glyphChars: seq<string>): string
    requires |glyphChars| <= |bitmaps| && |glyphChars| <= |ps|
  {
    ArrayWrap("uint8_t", fontName + "_bitmap", BitmapLines(bitmaps, ps, glyphChars, |glyphChars|))
  }

  /** Bytes of an array of count elements of the given bit width. */
  function ArrayBytes(bits: nat, count: nat): nat
  {
    bits / 8 * count
  }

  /** Everything the template of the C file is filled from. */
  datatype CArrays = CArrays(
    charmapType: string, offsetType: string, glyphIndexType: string,
    charmapText: string, offsetText: string, widthText: string, bitmapText: string,
    charmapPointer: string, offsetPointer: string, widthPointer: string, bitmapPointer: string,
    glyphNum: nat, charmapBytes: nat, widthBytes: nat, offsetBytes: nat, bitmapArraySize: nat)

  /** chr() raises ValueError: the code point is past the last Unicode character, U+10FFFF. */
  datatype EmitError = NotACharacter(code: nat)

  /** A code point chr() accepts. */
  predicate IsCharacter(c: nat)
  {
    c <= 0x10FFFF
  }

  /** The index of the first of the first n code points that chr() rejects, if any. */
  function FirstNonCharacter(cs: seq<nat>, n: nat): (r: Option<nat>)
    requires n <= |cs|
    ensures r.Some? ==> r.value < n && !IsCharacter(cs[r.value]) &&
                        forall j :: 0 <= j < r.value ==> IsCharacter(cs[j])
    ensures r.None? ==> forall j :: 0 <= j < n ==> IsCharacter(cs[j])
  {
    if n == 0 then None
    else
      match FirstNonCharacter(cs, n - 1)
      case Some(i) => Some(i)
      case None => if IsCharacter(cs[n - 1]) then None else Some(n - 1)
  }

  /** Once a code point is rejected, longer prefixes report the same one. */
  lemma {:induction false} FirstNonCharacterStays(cs: seq<nat>, i: nat, n: nat)
    requires i <= n <= |cs| && FirstNonCharacter(cs, i).Some?
    ensures FirstNonCharacter(cs, n) == FirstNonCharacter(cs, i)
    decreases n
  {
    if i < n {
      FirstNonCharacterStays(cs, i, n - 1);
    }
  }

  /**
   * When every code point is a character, the largest one has at most 21
   * bits, so var_size always finds a charmap width, and it is at most 32:
   * the case where var_size finds none cannot arise.
   */
  lemma CharmapWidthExists(cs: seq<nat>)
    requires forall j :: 0 <= j < |cs| ==> IsCharacter(cs[j])
    ensures VarSize(MaxCode(cs, |cs|)).Some?
    ensures VarSize(MaxCode(cs, |cs|)).value <= 32
  {
    var m := MaxCode(cs, |cs|);
    MaxCodeIsMaximum(cs, |cs|);
    assert m <= 0x10FFFF;
    assert Pow2(21) == 0x200000 by {
      assert Pow2(8) == 256;
      assert Pow2(16) == 65536;
    }
    BitLengthBound(m, 21);
  }

  /** Reference definition of what generate_c_file computes before filling its template. */
  function Arrays(fontName: string, mono: bool, charSet: seq<nat>, glyphChars: seq<string>,
                  packs: seq<Grid<Byte>>, bitmaps: seq<Grid<bool>>): (r: Result<CArrays, EmitError>)
    requires |glyphChars| == |charSet| && |charSet| <= |packs| && |charSet| <= |bitmaps|
    ensures r.Err? <==> exists i :: 0 <= i < |charSet| && !IsCharacter(charSet[i])
    ensures r.Ok? ==> VarSize(MaxCode(charSet, |charSet|)).Some?
  {
    match FirstNonCharacter(charSet, |charSet|)
    case Some(i) => Err(NotACharacter(charSet[i]))
    case None =>
      CharmapWidthExists(charSet);
      Ok(Assemble(fontName, mono, charSet, glyphChars, packs, bitmaps, VarSize(MaxCode(charSet, |charSet|)).value))
  }

  /** The arrays, types, pointers and byte counts once the charmap width is known. */
  function Assemble(fontName: string, mono: bool, charSet: seq<nat>, glyphChars: seq<string>,
                    packs: seq<Grid<Byte>>, bitmaps: seq<Grid<bool>>, charmapBits: nat): CArrays
    requires |glyphChars| == |charSet| && |charSet| <= |packs| && |charSet| <= |bitmaps|
  {
    var n := |charSet|;
    var total := Offset(packs, n);
    var charmapBytes := ArrayBytes(charmapBits, |packs|);
    CArrays(
      charmapType := TypeName(Some(charmapBits)),
      offsetType := if mono then "uint8_t" else TypeName(VarSize(total)),
      glyphIndexType := TypeName(VarSize(BitLength(n))),
      charmapText := CharmapText(fontName, charmapBits, charSet, glyphChars),
      offsetText := if mono then "" else OffsetText(fontName, total, packs, glyphChars),
      widthText := if mono then "" else WidthText(fontName, bitmaps, glyphChars),
      bitmapText := BitmapText(fontName, bitmaps, packs, glyphChars),
      charmapPointer := fontName + "_charmap",
      offsetPointer := if mono then "(void*)0" else fontName + "_offset",
      widthPointer := if mono then "(void*)0" else fontName + "_width",
      bitmapPointer := fontName + "_bitmap",
      glyphNum := n,
      charmapBytes := charmapBytes,
      widthBytes := if mono then 0 else |packs|,
      offsetBytes := if mono then 0 else charmapBytes,
      bitmapArraySize := total)
  }

  /** The "Overal size" line: the sum of the four array sizes. */
  function OverallSize(a: CArrays): nat
  {
    a.charmapBytes + a.widthBytes + a.offsetBytes + a.bitmapArraySize
  }

  // ---------------------------------------------------------------------------
  // generate_c_file, up to the text template
  // ---------------------------------------------------------------------------

  /** One more glyph extends every running value by that glyph's contribution. */
  lemma LinesStep(charSet: seq<nat>, glyphChars: seq<string>, bitmapsPack: seq<Grid<Byte>>,
                  bitmaps: seq<Grid<bool>>, i: nat)
    requires |glyphChars| == |charSet| && |charSet| <= |bitmapsPack| && |charSet| <= |bitmaps|
    requires i < |charSet| && FirstNonCharacter(charSet, i) == None && IsCharacter(charSet[i])
    ensures MaxCode(charSet, i + 1) == Max(charSet[i], MaxCode(charSet, i))
    ensures Offset(bitmapsPack, i + 1) == Offset(bitmapsPack, i) + Size(bitmapsPack[i])
    ensures CharmapLines(charSet, glyphChars, i + 1) ==
            CharmapLines(charSet, glyphChars, i) + ArrayElement(charSet[i], Comment(i, glyphChars[i]))
    ensures OffsetLines(bitmapsPack, glyphChars, i + 1) ==
            OffsetLines(bitmapsPack, glyphChars, i) + ArrayElement(Offset(bitmapsPack, i), Comment(i, glyphChars[i]))
    ensures WidthLines(bitmaps, glyphChars, i + 1) ==
            WidthLines(bitmaps, glyphChars, i) + ArrayElement(bitmaps[i].width, Comment(i, glyphChars[i]))
    ensures BitmapLines(bitmaps, bitmapsPack, glyphChars, i + 1) ==
            BitmapLines(bitmaps, bitmapsPack, glyphChars, i) + GlyphBlock(i, glyphChars[i], bitmaps[i], bitmapsPack[i])
    ensures FirstNonCharacter(charSet, i + 1) == None
  {
  }

  /**
   * The loop of generate_c_file over the glyphs: the largest code point,
   * the running offset, the bitmap size and the element lines of the four
   * arrays. glyphChars[i] is the character text of charSet[i].
   */
  method ArrayBodies(mono: bool, charSet: seq<nat>, glyphChars: seq<string>,
                     bitmapsPack: seq<Grid<Byte>>, bitmaps: seq<Grid<bool>>)
    returns (badIndex: Option<nat>, maxGlyphValue: nat, offset: nat, bitmapArraySize: nat,
             charmapString: string, offsetString: string, widthString: string, bitmapString: string)
    requires |glyphChars| == |charSet| && |charSet| <= |bitmapsPack| && |charSet| <= |bitmaps|
    ensures badIndex == FirstNonCharacter(charSet, |charSet|)
    ensures badIndex.None? ==> maxGlyphValue == MaxCode(charSet, |charSet|)
    ensures badIndex.None? ==> bitmapArraySize == Offset(bitmapsPack, |charSet|)
    ensures badIndex.None? ==> offset == if mono then 0 else bitmapArraySize
    ensures badIndex.None? ==> charmapString == CharmapLines(charSet, glyphChars, |charSet|)
    ensures badIndex.None? ==> offsetString == if mono then "" else OffsetLines(bitmapsPack, glyphChars, |charSet|)
    ensures badIndex.None? ==> widthString == if mono then "" else WidthLines(bitmaps, glyphChars, |charSet|)
    ensures badIndex.None? ==> bitmapString == BitmapLines(bitmaps, bitmapsPack, glyphChars, |charSet|)
  {
    badIndex := None;
    maxGlyphValue := 0;
    offset := 0;
    bitmapArraySize := 0;
    charmapString := "";
    bitmapString := "";
    offsetString := "";
    widthString := "";
    for i := 0 to |charSet|
      invariant maxGlyphValue == MaxCode(charSet, i)
      invariant bitmapArraySize == Offset(bitmapsPack, i)
      invariant offset == if mono then 0 else bitmapArraySize
      invariant charmapString == CharmapLines(charSet, glyphChars, i)
      invariant offsetString == if mono then "" else OffsetLines(bitmapsPack, glyphChars, i)
      invariant widthString == if mono then "" else WidthLines(bitmaps, glyphChars, i)
      invariant bitmapString == BitmapLines(bitmaps, bitmapsPack, glyphChars, i)
      invariant FirstNonCharacter(charSet, i) == None && badIndex == None
    {
      if !IsCharacter(charSet[i]) {
        badIndex := Some(i);
        FirstNonCharacterStays(charSet, i + 1, |charSet|);
        return;
      }
      LinesStep(charSet, glyphChars, bitmapsPack, bitmaps, i);
      var comment := Comment(i, glyphChars[i]);
      var glyphId := charSet[i];
      maxGlyphValue := Max(glyphId, maxGlyphValue);
      charmapString := charmapString + ArrayElement(glyphId, comment);
      if !mono {
        offsetString := offsetString + ArrayElement(offset, comment);
        widthString := widthString + ArrayElement(bitmaps[i].width, comment);
        offset := offset + Size(bitmapsPack[i]);
      }
      bitmapArraySize := bitmapArraySize + Size(bitmapsPack[i]);
      bitmapString := bitmapString + GlyphBlock(i, glyphChars[i], bitmaps[i], bitmapsPack[i]);
    }
  }

  /**
   * generate_c_file up to its text template: the glyph loop, then the
   * integer widths, the array declarations, the byte counts, and the
   * changes mono mode makes.
   */
  method GenerateArrays(fontName: string, mono: bool, charSet: seq<nat>, glyphChars: seq<string>,
                        bitmapsPack: seq<Grid<Byte>>, bitmaps: seq<Grid<bool>>)
    returns (r: Result<CArrays, EmitError>)
    requires |glyphChars| == |charSet| && |charSet| <= |bitmapsPack| && |charSet| <= |bitmaps|
    ensures r == Arrays(fontName, mono, charSet, glyphChars, bitmapsPack, bitmaps)
  {
    var badIndex, maxGlyphValue, offset, bitmapArraySize, charmapString, offsetString, widthString, bitmapString :=
      ArrayBodies(mono, charSet, glyphChars, bitmapsPack, bitmaps);
    if badIndex.Some? {
      return Err(NotACharacter(charSet[badIndex.value]));
    }

    var glyphNum := |charSet|;
    var glyphIndexBits := VarSize(BitLength(glyphNum));
    var charmapBits := VarSize(maxGlyphValue);
    CharmapWidthExists(charSet);
    var charmapBytes := ArrayBytes(charmapBits.value, |bitmapsPack|);
    var offsetBits := VarSize(offset);
    var offsetBytes := ArrayBytes(charmapBits.value, |bitmapsPack|);
    var widthBytes := |bitmapsPack|;

    var glyphiT := TypeName(glyphIndexBits);
    var charmapT := TypeName(charmapBits);
    var offsT := TypeName(offsetBits);

    var charmapP := fontName + "_charmap";
    var offsetP := fontName + "_offset";
    var widthP := fontName + "_width";
    var bitmapP := fontName + "_bitmap";

    charmapString := ArrayWrap(charmapT, charmapP, charmapString);
    bitmapString := ArrayWrap("uint8_t", bitmapP, bitmapString);
    offsetString := ArrayWrap(offsT, offsetP, offsetString);
    widthString := ArrayWrap("uint8_t", widthP, widthString);

    if mono {
      offsetBytes := 0;
      widthBytes := 0;
      offsT := "uint8_t";
      offsetString := "";
      widthString := "";
      offsetP := "(void*)0";
      widthP := "(void*)0";
    }
    r := Ok(CArrays(charmapT, offsT, glyphiT, charmapString, offsetString, widthString, bitmapString,
                    charmapP, offsetP, widthP, bitmapP,
                    glyphNum, charmapBytes, widthBytes, offsetBytes, bitmapArraySize));
  }

  // ---------------------------------------------------------------------------
  // Properties of the emitted arrays
  // ---------------------------------------------------------------------------

  /** A larger value never has a shorter bit length. */
  lemma BitLengthMonotone(a: nat, b: nat)
    requires a <= b
    ensures BitLength(a) <= BitLength(b)
  {
    BitLengthBound(a, BitLength(b));
  }

  /**
   * Emission fails exactly when some code point is past U+10FFFF, and the
   * error names the first such code point, the one chr() meets first.
   */
  lemma EmitFailsOnHugeCodePoint(fontName: string, mono: bool, charSet: seq<nat>, glyphChars: seq<string>,
                                 packs: seq<Grid<Byte>>, bitmaps: seq<Grid<bool>>, i: nat)
    requires |glyphChars| == |charSet| && |charSet| <= |packs| && |charSet| <= |bitmaps|
    requires i < |charSet| && !IsCharacter(charSet[i]) && forall j :: 0 <= j < i ==> IsCharacter(charSet[j])
    ensures Arrays(fontName, mono, charSet, glyphChars, packs, bitmaps) == Err(NotACharacter(charSet[i]))
  {
    var f := FirstNonCharacter(charSet, |charSet|);
    assert f.Some?;
    assert f.value == i;
  }

  /** The charmap type is wide enough for every code point, with its top bit to spare. */
  lemma CharmapTypeHoldsCodePoints(fontName: string, mono: bool, charSet: seq<nat>, glyphChars: seq<string>,
                                   packs: seq<Grid<Byte>>, bitmaps: seq<Grid<bool>>, i: nat)
    requires |glyphChars| == |charSet| && |charSet| <= |packs| && |charSet| <= |bitmaps| && i < |charSet|
    requires Arrays(fontName, mono, charSet, glyphChars, packs, bitmaps).Ok?
    ensures VarSize(MaxCode(charSet, |charSet|)).Some?
    ensures VarSize(MaxCode(charSet, |charSet|)).value <= 32
    ensures charSet[i] < Pow2(VarSize(MaxCode(charSet, |charSet|)).value - 1)
  {
    assert FirstNonCharacter(charSet, |charSet|).None?;
    CharmapWidthExists(charSet);
    MaxCodeIsMaximum(charSet, |charSet|);
    VarSizeBounds(MaxCode(charSet, |charSet|));
  }

  lemma {:induction false} CharmapLinesGrow(cs: seq<nat>, glyphChars: seq<string>, i: nat, n: nat)
    requires i <= n <= |cs| == |glyphChars|
    ensures CharmapLines(cs, glyphChars, i) <= CharmapLines(cs, glyphChars, n)
    decreases n
  {
    if i < n {
      CharmapLinesGrow(cs, glyphChars, i, n - 1);
    }
  }

  lemma {:induction false} OffsetLinesGrow(ps: seq<Grid<Byte>>, glyphChars: seq<string>, i: nat, n: nat)
    requires i <= n <= |glyphChars| <= |ps|
    ensures OffsetLines(ps, glyphChars, i) <= OffsetLines(ps, glyphChars, n)
    decreases n
  {
    if i < n {
      OffsetLinesGrow(ps, glyphChars, i, n - 1);
    }
  }

  lemma {:induction false} WidthLinesGrow(bitmaps: seq<Grid<bool>>, glyphChars: seq<string>, i: nat, n: nat)
    requires i <= n <= |glyphChars| <= |bitmaps|
    ensures WidthLines(bitmaps, glyphChars, i) <= WidthLines(bitmaps, glyphChars, n)
    decreases n
  {
    if i < n {
      WidthLinesGrow(bitmaps, glyphChars, i, n - 1);
    }
  }

  /** text holds e starting at position start. */
  predicate Occurs(e: string, text: string, start: nat)
  {
    start + |e| <= |text| && text[start..start + |e|] == e
  }

  /** An element appended to a prefix of a text sits in the text right after that prefix. */
  lemma ElementInside(before: string, e: string, upTo: string, all: string)
    requires upTo == before + e && upTo <= all
    ensures Occurs(e, all, |before|)
  {
    assert all[..|upTo|] == upTo;
    assert all[|before|..|before| + |e|] == upTo[|before|..];
  }

  /**
   * Element i of the charmap array starts right after the elements of the
   * glyphs before it, and the literal in it reads back as code point i.
   */
  lemma CharmapArrayHoldsCodePoints(cs: seq<nat>, glyphChars: seq<string>, i: nat)
    requires |glyphChars| == |cs| && i < |cs|
    ensures Occurs(ArrayElement(cs[i], Comment(i, glyphChars[i])), CharmapLines(cs, glyphChars, |cs|),
                   |CharmapLines(cs, glyphChars, i)|)
    ensures var e := ArrayElement(cs[i], Comment(i, glyphChars[i]));
      Args.StrToInt(e[4..|e| - |Comment(i, glyphChars[i])|]) == Some(cs[i])
  {
    var e := ArrayElement(cs[i], Comment(i, glyphChars[i]));
    var before, upTo, all := CharmapLines(cs, glyphChars, i), CharmapLines(cs, glyphChars, i + 1), CharmapLines(cs, glyphChars, |cs|);
    assert upTo == before + e;
    CharmapLinesGrow(cs, glyphChars, i + 1, |cs|);
    ElementInside(before, e, upTo, all);
    ArrayElementReadsBack(cs[i], Comment(i, glyphChars[i]));
  }

  /** Element i of the offset array reads back as the bytes of the glyphs before glyph i. */
  lemma OffsetArrayHoldsOffsets(ps: seq<Grid<Byte>>, glyphChars: seq<string>, i: nat)
    requires |glyphChars| <= |ps| && i < |glyphChars|
    ensures Occurs(ArrayElement(Offset(ps, i), Comment(i, glyphChars[i])), OffsetLines(ps, glyphChars, |glyphChars|),
                   |OffsetLines(ps, glyphChars, i)|)
    ensures var e := ArrayElement(Offset(ps, i), Comment(i, glyphChars[i]));
      Args.StrToInt(e[4..|e| - |Comment(i, glyphChars[i])|]) == Some(Offset(ps, i))
  {
    var e := ArrayElement(Offset(ps, i), Comment(i, glyphChars[i]));
    var before, upTo, all := OffsetLines(ps, glyphChars, i), OffsetLines(ps, glyphChars, i + 1),
      OffsetLines(ps, glyphChars, |glyphChars|);
    assert upTo == before + e;
    OffsetLinesGrow(ps, glyphChars, i + 1, |glyphChars|);
    ElementInside(before, e, upTo, all);
    ArrayElementReadsBack(Offset(ps, i), Comment(i, glyphChars[i]));
  }

  /**
   * Glyph i's bytes, starting at its offset, lie inside the bitmap array,
   * and the offset type chosen from the array size holds every offset.
   */
  lemma OffsetTypeHoldsOffsets(ps: seq<Grid<Byte>>, n: nat, i: nat)
    requires i < n <= |ps|
    ensures Offset(ps, i) + Size(ps[i]) <= Offset(ps, n)
    ensures VarSize(Offset(ps, n)).Some? ==> Offset(ps, i) < Pow2(VarSize(Offset(ps, n)).value - 1)
  {
    GlyphInsideBitmapArray(ps, n, i);
    if VarSize(Offset(ps, n)).Some? {
      VarSizeBounds(Offset(ps, n));
    }
  }

  /** Element i of the width array reads back as the column count of glyph i's canvas. */
  lemma WidthArrayHoldsWidths(bitmaps: seq<Grid<bool>>, glyphChars: seq<string>, i: nat)
    requires |glyphChars| <= |bitmaps| && i < |glyphChars|
    ensures Occurs(ArrayElement(bitmaps[i].width, Comment(i, glyphChars[i])), WidthLines(bitmaps, glyphChars, |glyphChars|),
                   |WidthLines(bitmaps, glyphChars, i)|)
    ensures var e := ArrayElement(bitmaps[i].width, Comment(i, glyphChars[i]));
      Args.StrToInt(e[4..|e| - |Comment(i, glyphChars[i])|]) == Some(bitmaps[i].width)
  {
    var e := ArrayElement(bitmaps[i].width, Comment(i, glyphChars[i]));
    var before, upTo, all := WidthLines(bitmaps, glyphChars, i), WidthLines(bitmaps, glyphChars, i + 1),
      WidthLines(bitmaps, glyphChars, |glyphChars|);
    assert upTo == before + e;
    WidthLinesGrow(bitmaps, glyphChars, i + 1, |glyphChars|);
    ElementInside(before, e, upTo, all);
    ArrayElementReadsBack(bitmaps[i].width, Comment(i, glyphChars[i]));
  }

  /**
   * Byte accounting: charmap and offset bytes both use the charmap width
   * (not the offset width), the width array has a byte per packed glyph,
   * and mono mode reports no offset or width bytes.
   */
  lemma SizeAccounting(fontName: string, mono: bool, charSet: seq<nat>, glyphChars: seq<string>,
                       packs: seq<Grid<Byte>>, bitmaps: seq<Grid<bool>>)
    requires |glyphChars| == |charSet| && |charSet| <= |packs| && |charSet| <= |bitmaps|
    requires Arrays(fontName, mono, charSet, glyphChars, packs, bitmaps).Ok?
    ensures var a := Arrays(fontName, mono, charSet, glyphChars, packs, bitmaps).value;
      var charmapBytes := ArrayBytes(VarSize(MaxCode(charSet, |charSet|)).value, |packs|);
      a.charmapBytes == charmapBytes &&
      a.offsetBytes == (if mono then 0 else charmapBytes) &&
      a.widthBytes == (if mono then 0 else |packs|) &&
      a.bitmapArraySize == Offset(packs, |charSet|) &&
      OverallSize(a) == (if mono then charmapBytes else 2 * charmapBytes + |packs|) + Offset(packs, |charSet|)
  {
    assert FirstNonCharacter(charSet, |charSet|).None?;
    CharmapWidthExists(charSet);
    var bits := VarSize(MaxCode(charSet, |charSet|)).value;
    assert Arrays(fontName, mono, charSet, glyphChars, packs, bitmaps) ==
           Ok(Assemble(fontName, mono, charSet, glyphChars, packs, bitmaps, bits));
  }

  /** Mono mode drops the offset and width arrays: empty texts, null pointers, an 8-bit offset type. */
  lemma MonoDropsOffsetAndWidth(fontName: string, charSet: seq<nat>, glyphChars: seq<string>,
                                packs: seq<Grid<Byte>>, bitmaps: seq<Grid<bool>>)
    requires |glyphChars| == |charSet| && |charSet| <= |packs| && |charSet| <= |bitmaps|
    requires Arrays(fontName, true, charSet, glyphChars, packs, bitmaps).Ok?
    ensures var a := Arrays(fontName, true, charSet, glyphChars, packs, bitmaps).value;
      a.offsetText == "" && a.widthText == "" && a.offsetPointer == "(void*)0" &&
      a.widthPointer == "(void*)0" && a.offsetType == "uint8_t" &&
      a.offsetBytes == 0 && a.widthBytes == 0
  {
  }

  /**
   * The glyph-index type is chosen from the bit length of the glyph count,
   * so it is uint8_t for any count below 2^127, 300 glyphs included.
   */
  lemma GlyphIndexTypeIsByte(n: nat)
    requires n < Pow2(127)
    ensures VarSize(BitLength(n)) == Some(8)
  {
    BitLengthBound(n, 127);
    assert Pow2(7) == 128;
    BitLengthBound(BitLength(n), 7);
  }

  /**
   * One glyph 'A' of 128 packed bytes: the offset type is 16 bits wide,
   * yet the offset array is counted at the 8-bit charmap width, one byte.
   */
  lemma OffsetBytesUseCharmapWidth(fontName: string, charSet: seq<nat>, glyphChars: seq<string>,
                                   packs: seq<Grid<Byte>>, bitmaps: seq<Grid<bool>>)
    requires charSet == [65] && |glyphChars| == 1 && |packs| == 1 && Size(packs[0]) == 128 && |bitmaps| >= 1
    ensures var a := Arrays(fontName, false, charSet, glyphChars, packs, bitmaps);
      a.Ok? && a.value.offsetType == "uint16_t" && a.value.charmapType == "uint8_t" && a.value.offsetBytes == 1
  {
    assert FirstNonCharacter(charSet, 1) == None;
    assert MaxCode(charSet, 1) == 65;
    assert Offset(packs, 1) == 128;
    VarSizeExamples();
    TypeNames();
  }
}
