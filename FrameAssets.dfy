/** The frame sequence's static assets: how many frames there are and the URL
    each one is fetched from, `/images/ezgif-frame-NNN.jpg` with NNN the
    1-based frame number left-padded with '0' to three characters. */
module FrameAssets {
  import opened Wrappers

  const TotalFrames: nat := 40
  const FrameDirectory: string := "/images"
  const FramePrefix: string := "ezgif-frame-"
  const FrameExtension: string := ".jpg"
  /** Width the frame number is padded to. */
  const NumberWidth: nat := 3

  /** Everything in a frame URL before the padded frame number. */
  const PathHead: string := FrameDirectory + "/" + FramePrefix

  /** A decoded image: the URL it was loaded from and its natural size. */
  datatype Frame = Frame(src: string, width: nat, height: nat)

  predicate IsDigit(c: char) {
    '0' <= c <= '9'
  }

  predicate AllDigits(s: string) {
    forall k :: 0 <= k < |s| ==> IsDigit(s[k])
  }

  function DigitValue(c: char): (d: nat)
    requires IsDigit(c)
    ensures d < 10
  {
    c as int - '0' as int
  }

  function DigitChar(d: nat): (c: char)
    requires d < 10
    ensures IsDigit(c) && DigitValue(c) == d
  {
    ('0' as int + d) as char
  }

  /** The number a string of decimal digits denotes, most significant first. */
  function DigitsValue(s: string): (v: nat)
    requires AllDigits(s)
  {
    if s == [] then 0 else DigitsValue(s[..|s| - 1]) * 10 + DigitValue(s[|s| - 1])
  }

  /** `n.toString()` for a non-negative integer: its shortest decimal form. */
  function DecimalString(n: nat): (s: string)
    ensures AllDigits(s) && DigitsValue(s) == n
    ensures 1 <= |s|
    ensures n < 10 ==> |s| == 1
    ensures n < 100 ==> |s| <= 2
    ensures n < 1000 ==> |s| <= 3
  {
    if n < 10 then [DigitChar(n)]
    else
      var s := DecimalString(n / 10) + [DigitChar(n % 10)];
      assert s[..|s| - 1] == DecimalString(n / 10);
      s
  }

  /** `s.padStart(width, pad)` with a one-character pad string. */
  function PadStart(s: string, width: nat, pad: char): (r: string)
    ensures |r| == if |s| < width then width else |s|
    ensures r[|r| - |s|..] == s
    ensures forall k :: 0 <= k < |r| - |s| ==> r[k] == pad
  {
    if |s| < width then seq(width - |s|, _ => pad) + s else s
  }

  /** The padded frame number of the frame at zero-based position `i`; it is exactly
      three characters long for each of the 40 frames. */
  function FrameNumber(i: nat): (r: string)
    ensures i < TotalFrames ==> |r| == NumberWidth
  {
    PadStart(DecimalString(i + 1), NumberWidth, '0')
  }

  /** The URL the frame at zero-based position `i` is loaded from: the path head, the
      padded frame number and the extension (see FramePathLayout); all 40 have one length. */
  function FramePath(i: nat): (r: string)
    ensures i < TotalFrames ==> |r| == |PathHead| + NumberWidth + |FrameExtension|
  {
    PathHead + FrameNumber(i) + FrameExtension
  }

  /** Recovers the zero-based position from a frame URL, the inverse of FramePath. */
  function ParseFramePath(path: string): (r: Option<nat>)
    ensures r.Some? ==> r.value < TotalFrames
  {
    var lo := |PathHead|;
    var hi := |PathHead| + NumberWidth;
    if |path| == hi + |FrameExtension| && path[..lo] == PathHead && path[hi..] == FrameExtension
       && AllDigits(path[lo..hi])
    then
      var v := DigitsValue(path[lo..hi]);
      if 1 <= v <= TotalFrames then Some(v - 1) else None
    else None
  }

  /** Leading zeros do not change the value of a digit string. */
  lemma {:induction false} LeadingZeros(z: string, s: string)
    requires forall k :: 0 <= k < |z| ==> z[k] == '0'
    requires AllDigits(s)
    ensures AllDigits(z + s) && DigitsValue(z + s) == DigitsValue(s)
  {
    var t := z + s;
    if s == [] {
      assert t == z;
      if z != [] {
        assert t[..|t| - 1] == z[..|z| - 1];
        LeadingZeros(z[..|z| - 1], []);
        assert z[..|z| - 1] + [] == z[..|z| - 1];
      }
    } else {
      assert t[..|t| - 1] == z + s[..|s| - 1];
      LeadingZeros(z, s[..|s| - 1]);
    }
  }

  /** Every frame number is a digit string denoting the 1-based frame number. */
  lemma FrameNumberValue(i: nat)
    ensures AllDigits(FrameNumber(i)) && DigitsValue(FrameNumber(i)) == i + 1
  {
    var d := DecimalString(i + 1);
    var r := FrameNumber(i);
    assert r == r[..|r| - |d|] + d;
    LeadingZeros(r[..|r| - |d|], d);
  }

  /** The URL of frame position `i` splits into the head, the padded number and the extension. */
  lemma FramePathLayout(i: nat)
    requires i < TotalFrames
    ensures FramePath(i)[..|PathHead|] == PathHead
    ensures FramePath(i)[|PathHead|..|PathHead| + NumberWidth] == FrameNumber(i)
    ensures FramePath(i)[|PathHead| + NumberWidth..] == FrameExtension
  {
  }

  /** The value of a three-digit string, digit by digit. */
  lemma ThreeDigitsValue(a: string)
    requires |a| == 3 && AllDigits(a)
    ensures DigitsValue(a) == (DigitValue(a[0]) * 10 + DigitValue(a[1])) * 10 + DigitValue(a[2])
  {
    assert a[..2][..1] == a[..1];
    assert a[..1][..0] == [];
    assert DigitsValue(a[..1]) == DigitValue(a[0]);
    assert DigitsValue(a[..2]) == DigitValue(a[0]) * 10 + DigitValue(a[1]);
  }

  /** Two digit strings of length three with the same value are the same string. */
  lemma ThreeDigitsUnique(a: string, b: string)
    requires |a| == 3 && |b| == 3 && AllDigits(a) && AllDigits(b)
    requires DigitsValue(a) == DigitsValue(b)
    ensures a == b
  {
    ThreeDigitsValue(a);
    ThreeDigitsValue(b);
    assert a[2] == b[2];
    assert a[1] == b[1];
  }

  /** Parsing a frame URL gives back its position. */
  lemma ParseFramePathRoundTrip(i: nat)
    requires i < TotalFrames
    ensures ParseFramePath(FramePath(i)) == Some(i)
  {
    FrameNumberValue(i);
  }

  /** Only the 40 frame URLs parse, and each parses to its own position. */
  lemma ParseFramePathSound(path: string)
    requires ParseFramePath(path).Some?
    ensures FramePath(ParseFramePath(path).value) == path
  {
    var i := ParseFramePath(path).value;
    var lo, hi := |PathHead|, |PathHead| + NumberWidth;
    FrameNumberValue(i);
    ThreeDigitsUnique(path[lo..hi], FrameNumber(i));
    assert path == path[..lo] + path[lo..hi] + path[hi..];
  }

  /** No two frames share a URL. */
  lemma FramePathsDistinct(i: nat, j: nat)
    requires i < TotalFrames && j < TotalFrames && i != j
    ensures FramePath(i) != FramePath(j)
  {
    ParseFramePathRoundTrip(i);
    ParseFramePathRoundTrip(j);
  }

  /** The padded number of the first frame. */
  lemma FirstFrameNumber()
    ensures FrameNumber(0) == "001"
  {
    assert DecimalString(1) == "1";
    assert seq(2, _ => '0') == "00";
  }

  /** The padded number of the last frame. */
  lemma LastFrameNumber()
    ensures FrameNumber(TotalFrames - 1) == "040"
  {
    assert DecimalString(40) == "40" by {
      assert DigitChar(4) == '4' && DigitChar(0) == '0';
      assert DecimalString(40) == DecimalString(4) + [DigitChar(0)];
    }
    assert PadStart("40", 3, '0') == seq(1, _ => '0') + "40";
    assert seq(1, _ => '0') == "0";
  }

  /** The URL of the first frame. */
  lemma FirstFramePath()
    ensures FramePath(0) == "/images/ezgif-frame-001.jpg"
  {
    assert PathHead == "/images/ezgif-frame-";
    FirstFrameNumber();
  }

  /** The URL of the last frame. */
  lemma LastFramePath()
    ensures FramePath(TotalFrames - 1) == "/images/ezgif-frame-040.jpg"
  {
    assert PathHead == "/images/ezgif-frame-";
    LastFrameNumber();
  }
}
