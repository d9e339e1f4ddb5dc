/**
 * The large-digit clock: 5 x 5 ASCII glyphs doubled in both directions and
 * laid side by side, two spaces apart, into the lines of the display.
 */
module Clock {

  // ---------------------------------------------------------------------------
  // The single-size glyphs
  // ---------------------------------------------------------------------------

  /** The glyphs of the digits 0 to 9, each 5 lines of 5 characters. */
  const OriginalDigits: seq<seq<string>> := [
    [" AAA ", "A   A", "A   A", "A   A", " AAA "],
    ["  A  ", " AA  ", "  A  ", "  A  ", " AAA "],
    [" AAA ", "    A", " AAA ", "A    ", " AAA "],
    [" AAA ", "    A", "  AA ", "    A", " AAA "],
    ["A   A", "A   A", " AAA ", "    A", "    A"],
    [" AAA ", "A    ", " AAA ", "    A", " AAA "],
    [" AAA ", "A    ", " AAA ", "A   A", " AAA "],
    ["AAAAA", "    A", "   A ", "  A  ", " A   "],
    [" AAA ", "A   A", " AAA ", "A   A", " AAA "],
    [" AAA ", "A   A", " AAA ", "    A", " AAA "]
  ]

  const OriginalDot: seq<string> := ["     ", "  .  ", "     ", "  .  ", "     "]

  const OriginalDash: seq<string> := ["     ", " --- ", "     ", " --- ", "     "]

  /** The fallback glyph for any other character: 5 lines of 5 spaces. */
  const OriginalBlank: seq<string> := ["     ", "     ", "     ", "     ", "     "]

  /** `art` has `h` lines of `w` characters each. */
  predicate IsBox(art: seq<string>, h: nat, w: nat) {
    |art| == h && forall k :: 0 <= k < |art| ==> |art[k]| == w
  }

  lemma OriginalsAreFiveByFive()
    ensures forall d :: 0 <= d < 10 ==> IsBox(OriginalDigits[d], 5, 5)
    ensures IsBox(OriginalDot, 5, 5) && IsBox(OriginalDash, 5, 5) && IsBox(OriginalBlank, 5, 5)
  {
    assert IsBox(OriginalDigits[0], 5, 5);
    assert IsBox(OriginalDigits[1], 5, 5);
    assert IsBox(OriginalDigits[2], 5, 5);
    assert IsBox(OriginalDigits[3], 5, 5);
    assert IsBox(OriginalDigits[4], 5, 5);
    assert IsBox(OriginalDigits[5], 5, 5);
    assert IsBox(OriginalDigits[6], 5, 5);
    assert IsBox(OriginalDigits[7], 5, 5);
    assert IsBox(OriginalDigits[8], 5, 5);
    assert IsBox(OriginalDigits[9], 5, 5);
  }

  // ---------------------------------------------------------------------------
  // Doubling a glyph
  // ---------------------------------------------------------------------------

  /** Every character of `line` written twice. */
  function ScaleLine(line: string): (r: string)
    ensures |r| == 2 * |line|
    ensures forall j :: 0 <= j < |r| ==> r[j] == line[j / 2]
  {
    if line == [] then []
    else
      var p := line[..|line| - 1];
      var c := line[|line| - 1];
      var prefix := ScaleLine(p);
      assert forall j :: 0 <= j < |prefix| ==> prefix[j] == p[j / 2] == line[j / 2];
      prefix + [c, c]
  }

  /** Every line scaled and written twice: lines 2k and 2k+1 both scale line k. */
  function Scale(art: seq<string>): (r: seq<string>)
    ensures |r| == 2 * |art|
    ensures forall k :: 0 <= k < |r| ==> r[k] == ScaleLine(art[k / 2])
  {
    if art == [] then []
    else
      var p := art[..|art| - 1];
      var line := ScaleLine(art[|art| - 1]);
      var prefix := Scale(p);
      assert forall k :: 0 <= k < |prefix| ==> prefix[k] == ScaleLine(p[k / 2]) == ScaleLine(art[k / 2]);
      prefix + [line, line]
  }

  /** Doubling an h x w glyph gives a 2h x 2w glyph. */
  lemma ScaleBox(art: seq<string>, h: nat, w: nat)
    requires IsBox(art, h, w)
    ensures IsBox(Scale(art), 2 * h, 2 * w)
  {
    var r := Scale(art);
    forall k | 0 <= k < |r| ensures |r[k]| == 2 * w {
      assert r[k] == ScaleLine(art[k / 2]);
    }
  }

  /** `scale_char_art`: the doubled glyph, built line by line and character by character. */
  method ScaleCharArt(originalArt: seq<string>) returns (scaledArt: seq<string>)
    ensures scaledArt == Scale(originalArt)
  {
    scaledArt := [];
    for k := 0 to |originalArt|
      invariant scaledArt == Scale(originalArt[..k])
    {
      var line := originalArt[k];
      var scaledLine := "";
      for j := 0 to |line|
        invariant scaledLine == ScaleLine(line[..j])
      {
        assert line[..j + 1][..j] == line[..j];
        scaledLine := scaledLine + [line[j], line[j]];
      }
      assert line[..|line|] == line;
      assert originalArt[..k + 1][..k] == originalArt[..k];
      scaledArt := scaledArt + [scaledLine];
      scaledArt := scaledArt + [scaledLine];
    }
    assert originalArt[..|originalArt|] == originalArt;
  }

  // ---------------------------------------------------------------------------
  // The double-size glyph of a character
  // ---------------------------------------------------------------------------

  /** The number of lines of every doubled glyph. */
  const ScaledCharHeight: nat := |Scale(OriginalDigits[0])|

  predicate IsAsciiDigit(c: char) {
    '0' <= c <= '9'
  }

  /** A digit's doubled glyph, the doubled dot or dash, or the doubled blank for anything else. */
  function LargeChar(c: char): (art: seq<string>)
    ensures IsAsciiDigit(c) ==> art == Scale(OriginalDigits[c as int - '0' as int])
    ensures c == '.' ==> art == Scale(OriginalDot)
    ensures c == '-' ==> art == Scale(OriginalDash)
    ensures !IsAsciiDigit(c) && c != '.' && c != '-' ==> art == Scale(OriginalBlank)
  {
    if IsAsciiDigit(c) then Scale(OriginalDigits[c as int - '0' as int])
    else if c == '.' then Scale(OriginalDot)
    else if c == '-' then Scale(OriginalDash)
    else Scale(OriginalBlank)
  }

  /** Every doubled glyph has `ScaledCharHeight` = 10 lines of 10 characters. */
  lemma LargeCharIsTenByTen(c: char)
    ensures ScaledCharHeight == 10
    ensures IsBox(LargeChar(c), ScaledCharHeight, 10)
  {
    OriginalsAreFiveByFive();
    ScaleBox(OriginalDigits[0], 5, 5);
    if IsAsciiDigit(c) {
      ScaleBox(OriginalDigits[c as int - '0' as int], 5, 5);
    } else if c == '.' {
      ScaleBox(OriginalDot, 5, 5);
    } else if c == '-' {
      ScaleBox(OriginalDash, 5, 5);
    } else {
      ScaleBox(OriginalBlank, 5, 5);
    }
  }

  // ---------------------------------------------------------------------------
  // The display
  // ---------------------------------------------------------------------------

  /** What character `c` adds to display line `i`: line `i` of its glyph and two spaces. */
  function Cell(c: char, i: nat): (s: string)
    requires i < 10
    ensures |s| == 12
  {
    LargeCharIsTenByTen(c);
    LargeChar(c)[i] + "  "
  }

  /** Line `i` of the display: the cells of the characters, in order. */
  function DisplayLine(time: string, i: nat): string
    requires i < 10
  {
    if time == [] then "" else DisplayLine(time[..|time| - 1], i) + Cell(time[|time| - 1], i)
  }

  lemma {:induction false} DisplayLineLength(time: string, i: nat)
    requires i < 10
    ensures |DisplayLine(time, i)| == 12 * |time|
  {
    if time != [] {
      DisplayLineLength(time[..|time| - 1], i);
    }
  }

  lemma SliceOfConcat(a: string, b: string, lo: nat, hi: nat)
    requires lo <= hi
    ensures hi <= |a| ==> (a + b)[lo..hi] == a[lo..hi]
    ensures lo == |a| && hi == |a| + |b| ==> (a + b)[lo..hi] == b
  {
  }

  /** The character `time[n]` fills columns 12n to 12n + 11 of display line `i`. */
  lemma {:induction false} DisplayLineColumns(time: string, i: nat, n: nat)
    requires i < 10 && n < |time|
    ensures |DisplayLine(time, i)| == 12 * |time|
    ensures DisplayLine(time, i)[12 * n .. 12 * n + 12] == Cell(time[n], i)
  {
    DisplayLineLength(time, i);
    var p := time[..|time| - 1];
    DisplayLineLength(p, i);
    var prefix := DisplayLine(p, i);
    var cell := Cell(time[|time| - 1], i);
    assert DisplayLine(time, i) == prefix + cell;
    SliceOfConcat(prefix, cell, 12 * n, 12 * n + 12);
    if n < |time| - 1 {
      DisplayLineColumns(p, i, n);
      assert p[n] == time[n];
    }
  }

  /** Appending one more character extends every display line by that character's cell. */
  lemma DisplayLineStep(time: string, n: nat, i: nat)
    requires n < |time| && i < 10
    ensures DisplayLine(time[..n + 1], i) == DisplayLine(time[..n], i) + Cell(time[n], i)
  {
    assert time[..n + 1][..n] == time[..n];
  }

  /**
   * `display_large_time` without the printing: the 10 display lines, each the
   * glyph lines of the characters in order, two spaces after each.
   */
  method DisplayLargeTime(time: string) returns (displayLines: seq<string>)
    ensures |displayLines| == ScaledCharHeight == 10
    ensures forall i :: 0 <= i < 10 ==> displayLines[i] == DisplayLine(time, i)
    ensures forall i :: 0 <= i < 10 ==> |displayLines[i]| == 12 * |time|
  {
    LargeCharIsTenByTen(' ');
    displayLines := seq(ScaledCharHeight, _ => "");
    for n := 0 to |time|
      invariant |displayLines| == 10
      invariant forall i :: 0 <= i < 10 ==> displayLines[i] == DisplayLine(time[..n], i)
    {
      var c := time[n];
      var largeCharArt := LargeChar(c);
      LargeCharIsTenByTen(c);
      ghost var before := displayLines;
      for i := 0 to ScaledCharHeight
        invariant |displayLines| == 10
        invariant forall i' :: 0 <= i' < i ==> displayLines[i'] == before[i'] + Cell(c, i')
        invariant forall i' :: i <= i' < 10 ==> displayLines[i'] == before[i']
      {
        displayLines := displayLines[i := displayLines[i] + largeCharArt[i] + "  "];
      }
      forall i | 0 <= i < 10 ensures displayLines[i] == DisplayLine(time[..n + 1], i) {
        DisplayLineStep(time, n, i);
      }
    }
    assert time[..|time|] == time;
    forall i | 0 <= i < 10 ensures |displayLines[i]| == 12 * |time| {
      DisplayLineLength(time, i);
    }
  }
}
