/** The text of a plain PPM ("P3") image as `write_color` and `main` emit
    it: the header `P3\n<width> <height>\n255\n`, with the numbers written
    by `std::to_string`, then one line `<r> <g> <b>\n` per pixel. A reader
    of the same grammar recovers every number. */
module PpmText {
  import opened Options

  predicate IsDigit(c: char) {
    '0' <= c <= '9'
  }

  function DigitChar(d: int): (c: char)
    requires 0 <= d < 10
    ensures IsDigit(c)
  {
    "0123456789"[d]
  }

  function DigitValue(c: char): (d: nat)
    requires IsDigit(c)
    ensures d < 10 && DigitChar(d) == c
  {
    (c - '0') as nat
  }

  /** The decimal digits of `n`, most significant first, with no leading
      zero. */
  function Digits(n: nat): (s: string)
    ensures 1 <= |s| && (forall k :: 0 <= k < |s| ==> IsDigit(s[k]))
    ensures s[0] == '0' ==> n == 0
  {
    if n < 10 then [DigitChar(n)] else Digits(n / 10) + [DigitChar(n % 10)]
  }

  /** `std::to_string` of an `int`: a minus sign before the digits of a
      negative value. */
  function IntToString(n: int): (s: string)
    ensures 1 <= |s|
    ensures n < 0 <==> s[0] == '-'
  {
    if n < 0 then "-" + Digits(-n) else Digits(n)
  }

  /** The number a string of digits denotes. */
  function ValueOf(s: string): nat
    requires forall k :: 0 <= k < |s| ==> IsDigit(s[k])
  {
    if s == [] then 0 else ValueOf(s[..|s| - 1]) * 10 + DigitValue(s[|s| - 1])
  }

  /** Reading back the digits gives the number. */
  lemma {:induction false} ValueOfDigits(n: nat)
    ensures ValueOf(Digits(n)) == n
  {
    var s := Digits(n);
    if n >= 10 {
      ValueOfDigits(n / 10);
      assert s[..|s| - 1] == Digits(n / 10);
    }
  }

  /** The length of the run of digits `s` starts with. */
  function DigitRun(s: string): (k: nat)
    ensures k <= |s|
    ensures forall i :: 0 <= i < k ==> IsDigit(s[i])
    ensures k < |s| ==> !IsDigit(s[k])
  {
    if s != [] && IsDigit(s[0]) then 1 + DigitRun(s[1..]) else 0
  }

  /** A digit string followed by a non-digit is a whole run. */
  lemma {:induction false} DigitRunOfDigits(d: string, rest: string)
    requires forall k :: 0 <= k < |d| ==> IsDigit(d[k])
    requires rest == [] || !IsDigit(rest[0])
    ensures DigitRun(d + rest) == |d|
  {
    if d != [] {
      assert (d + rest)[1..] == d[1..] + rest;
      DigitRunOfDigits(d[1..], rest);
    }
  }

  /** Reads an unsigned number: at least one digit; returns the value and
      the text after it. */
  function ReadNat(s: string): (res: Option<(int, string)>)
    ensures res.Some? ==> |res.value.1| < |s|
  {
    var k := DigitRun(s);
    if k == 0 then None else Some((ValueOf(s[..k]) as int, s[k..]))
  }

  /** Reads a number as `operator>>` would: an optional minus sign and at
      least one digit; returns the value and the text after it. */
  function ReadInt(s: string): (res: Option<(int, string)>)
    ensures res.Some? ==> |res.value.1| < |s|
  {
    if s != [] && s[0] == '-' then
      match ReadNat(s[1..])
      case None => None
      case Some((v, rest)) => Some((-v, rest))
    else ReadNat(s)
  }

  /** What `std::to_string` writes, `ReadInt` reads back, when the next
      character is not a digit. */
  lemma ReadIntToString(n: int, rest: string)
    requires rest == [] || !IsDigit(rest[0])
    ensures ReadInt(IntToString(n) + rest) == Some((n, rest))
  {
    if n < 0 {
      ReadNegativeToString(n, rest);
    } else {
      ReadDigitsOf(n, rest);
    }
  }

  lemma ReadNegativeToString(n: int, rest: string)
    requires n < 0 && (rest == [] || !IsDigit(rest[0]))
    ensures ReadInt(IntToString(n) + rest) == Some((n, rest))
  {
    ReadDigitsOf(-n, rest);
    ReadNegative(Digits(-n), rest, -n);
  }

  /** The digits of `m` followed by a non-digit read as `m`. */
  lemma ReadDigitsOf(m: nat, rest: string)
    requires rest == [] || !IsDigit(rest[0])
    ensures ReadInt(Digits(m) + rest) == Some((m, rest))
  {
    ValueOfDigits(m);
    ReadDigits(Digits(m), rest);
  }

  /** A run of digits ending before a non-digit reads as its value. */
  lemma ReadDigits(d: string, rest: string)
    requires d != [] && forall k :: 0 <= k < |d| ==> IsDigit(d[k])
    requires rest == [] || !IsDigit(rest[0])
    ensures ReadInt(d + rest) == Some((ValueOf(d) as int, rest))
  {
    DigitRunOfDigits(d, rest);
    assert (d + rest)[..|d|] == d;
    assert (d + rest)[|d|..] == rest;
  }

  /** A minus sign before a number that does not itself start with one
      reads as the negated number. */
  lemma ReadNegative(d: string, rest: string, v: int)
    requires d != [] && d[0] != '-'
    requires ReadInt(d + rest) == Some((v, rest))
    ensures ReadInt("-" + d + rest) == Some((-v, rest))
  {
    assert ("-" + d + rest)[0] == '-';
    assert ("-" + d + rest)[1..] == d + rest;
  }

  /** The header `P3\n<width> <height>\n255\n`. */
  function Header(width: int, height: int): string {
    "P3\n" + IntToString(width) + " " + IntToString(height) + "\n255\n"
  }

  /** Reads a header: the magic number, the two dimensions and the
      maximum value 255; returns the dimensions and the text after it. */
  function ReadHeader(s: string): (res: Option<(int, int, string)>) {
    if |s| < 3 || s[..3] != "P3\n" then None
    else match ReadInt(s[3..])
      case None => None
      case Some((w, r1)) =>
        if r1 == [] || r1[0] != ' ' then None
        else match ReadInt(r1[1..])
          case None => None
          case Some((h, r2)) =>
            if |r2| < 5 || r2[..5] != "\n255\n" then None
            else Some((w, h, r2[5..]))
  }

  /** The header reads back as the dimensions it was written with, and
      whatever follows it is left untouched. */
  lemma HeaderRoundTrip(width: int, height: int, body: string)
    ensures ReadHeader(Header(width, height) + body) == Some((width, height, body))
  {
    var s := Header(width, height) + body;
    var ws, hs := IntToString(width), IntToString(height);
    var tail := "\n255\n" + body;
    var r1 := " " + (hs + tail);
    assert s == "P3\n" + (ws + r1);
    assert s[..3] == "P3\n" && s[3..] == ws + r1;
    ReadIntToString(width, r1);
    assert r1[1..] == hs + tail;
    ReadIntToString(height, tail);
    assert tail[..5] == "\n255\n" && tail[5..] == body;
  }

  /** The three integers written for one pixel. */
  datatype Rgb = Rgb(r: int, g: int, b: int)

  /** One pixel's line `<r> <g> <b>\n`. */
  function PixelLine(r: int, g: int, b: int): string {
    IntToString(r) + " " + IntToString(g) + " " + IntToString(b) + "\n"
  }

  /** Reads one pixel line; returns the three values and the text after
      it. */
  function ReadPixelLine(s: string): (res: Option<(int, int, int, string)>) {
    match ReadInt(s)
    case None => None
    case Some((r, s1)) =>
      if s1 == [] || s1[0] != ' ' then None
      else match ReadInt(s1[1..])
        case None => None
        case Some((g, s2)) =>
          if s2 == [] || s2[0] != ' ' then None
          else match ReadInt(s2[1..])
            case None => None
            case Some((b, s3)) =>
              if s3 == [] || s3[0] != '\n' then None
              else Some((r, g, b, s3[1..]))
  }

  /** A pixel line reads back as the three values written. */
  lemma PixelLineRoundTrip(r: int, g: int, b: int, rest: string)
    ensures ReadPixelLine(PixelLine(r, g, b) + rest) == Some((r, g, b, rest))
  {
    var rs, gs, bs := IntToString(r), IntToString(g), IntToString(b);
    var s3 := "\n" + rest;
    var s2 := " " + (bs + s3);
    var s1 := " " + (gs + s2);
    assert PixelLine(r, g, b) + rest == rs + s1;
    ReadIntToString(r, s1);
    assert s1[1..] == gs + s2;
    ReadIntToString(g, s2);
    assert s2[1..] == bs + s3;
    ReadIntToString(b, s3);
    assert s3[1..] == rest;
  }

  /** The pixel lines of an image, in buffer order. */
  function Lines(pixels: seq<Rgb>): string {
    if pixels == [] then ""
    else PixelLine(pixels[0].r, pixels[0].g, pixels[0].b) + Lines(pixels[1..])
  }

  /** Appending a pixel appends its line. */
  lemma {:induction false} LinesSnoc(pixels: seq<Rgb>, p: Rgb)
    ensures Lines(pixels + [p]) == Lines(pixels) + PixelLine(p.r, p.g, p.b)
  {
    if pixels != [] {
      assert (pixels + [p])[1..] == pixels[1..] + [p];
      LinesSnoc(pixels[1..], p);
    }
  }

  /** Reads `n` pixel lines; returns them and the text after them. */
  function ReadLines(s: string, n: nat): Option<(seq<Rgb>, string)>
    decreases n
  {
    if n == 0 then Some(([], s))
    else match ReadPixelLine(s)
      case None => None
      case Some((r, g, b, rest)) =>
        match ReadLines(rest, n - 1)
        case None => None
        case Some((pixels, after)) => Some(([Rgb(r, g, b)] + pixels, after))
  }

  lemma ReadLinesStep(s: string, n: nat, p: Rgb, rest: string, pixels: seq<Rgb>, after: string)
    requires 0 < n
    requires ReadPixelLine(s) == Some((p.r, p.g, p.b, rest))
    requires ReadLines(rest, n - 1) == Some((pixels, after))
    ensures ReadLines(s, n) == Some(([p] + pixels, after))
  {
  }

  /** The pixel lines read back as the pixels written. */
  lemma {:induction false} LinesRoundTrip(pixels: seq<Rgb>, rest: string)
    ensures ReadLines(Lines(pixels) + rest, |pixels|) == Some((pixels, rest))
  {
    if pixels == [] {
      assert Lines(pixels) + rest == rest;
    } else {
      LinesRoundTrip(pixels[1..], rest);
      LinesRoundTripStep(pixels, rest);
    }
  }

  lemma LinesRoundTripStep(pixels: seq<Rgb>, rest: string)
    requires pixels != []
    requires ReadLines(Lines(pixels[1..]) + rest, |pixels| - 1) == Some((pixels[1..], rest))
    ensures ReadLines(Lines(pixels) + rest, |pixels|) == Some((pixels, rest))
  {
    var p := pixels[0];
    var tail := Lines(pixels[1..]) + rest;
    LinesUnfold(pixels, rest);
    PixelLineRoundTrip(p.r, p.g, p.b, tail);
    ReadLinesStep(PixelLine(p.r, p.g, p.b) + tail, |pixels|, p, tail, pixels[1..], rest);
  }

  lemma LinesUnfold(pixels: seq<Rgb>, rest: string)
    requires pixels != []
    ensures Lines(pixels) + rest == PixelLine(pixels[0].r, pixels[0].g, pixels[0].b) + (Lines(pixels[1..]) + rest)
    ensures [pixels[0]] + pixels[1..] == pixels
  {
  }

  /** A whole plain PPM file: header, then `width * height` pixel lines
      (none when that product is negative). */
  function ReadImage(s: string): Option<(int, int, seq<Rgb>)> {
    match ReadHeader(s)
    case None => None
    case Some((w, h, body)) =>
      var n := if w * h < 0 then 0 else w * h;
      match ReadLines(body, n)
      case None => None
      case Some((pixels, after)) => if after == [] then Some((w, h, pixels)) else None
  }

  /** A header followed by exactly `width * height` pixel lines reads back
      as the dimensions and the pixels. */
  lemma ImageRoundTrip(width: int, height: int, pixels: seq<Rgb>)
    requires |pixels| == (if width * height < 0 then 0 else width * height)
    ensures ReadImage(Header(width, height) + Lines(pixels)) == Some((width, height, pixels))
  {
    HeaderRoundTrip(width, height, Lines(pixels));
    LinesRoundTrip(pixels, "");
    assert Lines(pixels) + "" == Lines(pixels);
  }
}
