/**
 The resource locator of each frame: frame `i` (zero-based) is fetched from
 `/Frames/frame_NNN.jpg`, where NNN is the decimal text of `i + 1` left-padded
 with '0' to three characters (`Number.prototype.toString` followed by
 `String.prototype.padStart(3, "0")`).
 */
module FrameLocator {
  import opened Wrappers

  /** Number of frames in the sequence. */
  const FrameCount: nat := 209

  const Prefix: string := "/Frames/frame_"
  const Suffix: string := ".jpg"


  predicate IsDigit(c: char) {
    '0' <= c <= '9'
  }

  predicate AllDigits(s: string) {
    forall k :: 0 <= k < |s| ==> IsDigit(s[k])
  }

  function DigitChar(d: nat): (c: char)
    requires d < 10
    ensures IsDigit(c)
  {
    ('0' as int + d) as char
  }

  function DigitValue(c: char): (d: nat)
    requires IsDigit(c)
    ensures d < 10
    ensures DigitChar(d) == c
  {
    (c as int - '0' as int)
  }

  /** Decimal text of `n` with no leading zeros, as `n.toString()` gives it. */
  function ToDecimal(n: nat): (s: string)
    ensures 1 <= |s|
    ensures AllDigits(s)
    ensures s[0] == '0' ==> n == 0
    ensures n < 10 <==> |s| == 1
    ensures n < 100 ==> |s| <= 2
    ensures n < 1000 ==> |s| <= 3
    decreases n
  {
    if n < 10 then [DigitChar(n)] else ToDecimal(n / 10) + [DigitChar(n % 10)]
  }

  /** The value of a string of decimal digits; leading zeros are allowed. */
  function ParseDecimal(s: string): nat
    requires AllDigits(s)
  {
    if |s| == 0 then 0 else 10 * ParseDecimal(s[..|s| - 1]) + DigitValue(s[|s| - 1])
  }

  /** `count` copies of `c`. */
  function Repeat(c: char, count: nat): (r: string)
    ensures |r| == count
    ensures forall k :: 0 <= k < count ==> r[k] == c
  {
    if count == 0 then [] else [c] + Repeat(c, count - 1)
  }

  /**
   `s.padStart(width, fill)` for a one-character fill string: a string already
   at least `width` long is returned unchanged, otherwise `fill` is prepended
   until it is exactly `width` long.
   */
  function PadStart(s: string, width: nat, fill: char): (r: string)
    ensures |r| == if |s| >= width then |s| else width
    ensures r[|r| - |s|..] == s
    ensures forall k :: 0 <= k < |r| - |s| ==> r[k] == fill
  {
    if |s| >= width then s else Repeat(fill, width - |s|) + s
  }

  /** `currentFrame(index)`: the locator of the image for frame `index`. */
  function CurrentFrame(index: nat): (path: string)
    ensures |path| >= |Prefix| + 3 + |Suffix|
    ensures path[..|Prefix|] == Prefix
    ensures path[|path| - |Suffix|..] == Suffix
    ensures index + 1 < 1000 ==> |path| == |Prefix| + 3 + |Suffix|
  {
    Prefix + PadStart(ToDecimal(index + 1), 3, '0') + Suffix
  }

  /**
   Reads a frame index back from a locator: `None` for anything that is not
   `Prefix`, a non-empty run of digits naming a positive number, and `Suffix`.
   */
  function FrameIndexOf(path: string): (r: Option<nat>)
    ensures r.Some? ==> |path| > |Prefix| + |Suffix|
    ensures r.Some? ==> path[..|Prefix|] == Prefix && path[|path| - |Suffix|..] == Suffix
  {
    if |path| <= |Prefix| + |Suffix| then None
    else if path[..|Prefix|] != Prefix || path[|path| - |Suffix|..] != Suffix then None
    else
      var digits := path[|Prefix|..|path| - |Suffix|];
      if !AllDigits(digits) then None
      else
        var n := ParseDecimal(digits);
        if n == 0 then None else Some(n - 1)
  }

  /** Three-character zero-padded decimal, written digit by digit. */
  function ThreeDigits(n: nat): (s: string)
    requires n < 1000
    ensures |s| == 3
  {
    [DigitChar(n / 100), DigitChar(n / 10 % 10), DigitChar(n % 10)]
  }

  // ---------------------------------------------------------------------------
  // Parsing facts

  lemma {:induction false} ParseAppendDigit(s: string, c: char)
    requires AllDigits(s) && IsDigit(c)
    ensures AllDigits(s + [c])
    ensures ParseDecimal(s + [c]) == 10 * ParseDecimal(s) + DigitValue(c)
  {
    assert (s + [c])[..|s + [c]| - 1] == s;
  }

  /** Parsing the decimal text of `n` gives `n` back. */
  lemma {:induction false} ParseToDecimal(n: nat)
    ensures ParseDecimal(ToDecimal(n)) == n
    decreases n
  {
    if n < 10 {
      assert ToDecimal(n)[..0] == [];
    } else {
      ParseToDecimal(n / 10);
      ParseAppendDigit(ToDecimal(n / 10), DigitChar(n % 10));
      assert n == 10 * (n / 10) + n % 10;
    }
  }

  lemma {:induction false} ParseZeros(count: nat)
    ensures AllDigits(Repeat('0', count))
    ensures ParseDecimal(Repeat('0', count)) == 0
  {
    if count > 0 {
      var z := Repeat('0', count);
      assert z[..count - 1] == Repeat('0', count - 1);
      ParseZeros(count - 1);
    }
  }

  /** Leading zeros do not change the value of a digit string. */
  lemma {:induction false} ParseLeadingZeros(count: nat, s: string)
    requires AllDigits(s)
    ensures AllDigits(Repeat('0', count) + s)
    ensures ParseDecimal(Repeat('0', count) + s) == ParseDecimal(s)
    decreases |s|
  {
    var z := Repeat('0', count);
    ParseZeros(count);
    if |s| == 0 {
      assert z + s == z;
    } else {
      var init := s[..|s| - 1];
      var last := s[|s| - 1];
      assert s == init + [last];
      assert z + s == (z + init) + [last];
      ParseLeadingZeros(count, init);
      ParseAppendDigit(z + init, last);
      ParseAppendDigit(init, last);
    }
  }

  /** Parsing the zero-padded decimal text of `n` gives `n` back. */
  lemma PadStartParse(n: nat, width: nat)
    ensures AllDigits(PadStart(ToDecimal(n), width, '0'))
    ensures ParseDecimal(PadStart(ToDecimal(n), width, '0')) == n
  {
    var d := ToDecimal(n);
    ParseToDecimal(n);
    if |d| < width {
      ParseLeadingZeros(width - |d|, d);
    }
  }

  // ---------------------------------------------------------------------------
  // Properties of the locator

  /** The first frame is `frame_001.jpg`. */
  lemma FirstFrame()
    ensures CurrentFrame(0) == "/Frames/frame_001.jpg"
  {
    assert ToDecimal(1) == "1";
    assert PadStart("1", 3, '0') == "001" by {
      assert Repeat('0', 2) == "00";
    }
  }

  /** The last frame of the sequence is `frame_209.jpg`. */
  lemma LastFrame()
    ensures CurrentFrame(FrameCount - 1) == "/Frames/frame_209.jpg"
  {
    assert ToDecimal(209) == "209" by {
      assert ToDecimal(20) == "20" by {
        assert ToDecimal(2) == "2";
      }
    }
  }

  lemma OneDigit(n: nat)
    requires 1 <= n < 10
    ensures PadStart(ToDecimal(n), 3, '0') == ThreeDigits(n)
  {
    assert n / 100 == 0 && n / 10 % 10 == 0 && n % 10 == n;
    assert Repeat('0', 2) == "00";
  }

  lemma TwoDigits(n: nat)
    requires 10 <= n < 100
    ensures PadStart(ToDecimal(n), 3, '0') == ThreeDigits(n)
  {
    var hi, lo := n / 10, n % 10;
    assert n / 100 == 0 && n / 10 % 10 == hi && 1 <= hi < 10;
    assert ToDecimal(n) == ToDecimal(hi) + [DigitChar(lo)];
    assert ToDecimal(hi) == [DigitChar(hi)];
    assert Repeat('0', 1) == "0";
  }

  lemma ThreeDigitsCase(n: nat)
    requires 100 <= n < 1000
    ensures PadStart(ToDecimal(n), 3, '0') == ThreeDigits(n)
  {
    var m := n / 10;
    assert 10 <= m < 100;
    assert m / 10 == n / 100 && m % 10 == n / 10 % 10;
    assert ToDecimal(n) == ToDecimal(m) + [DigitChar(n % 10)];
    assert ToDecimal(m) == ToDecimal(m / 10) + [DigitChar(m % 10)];
    assert ToDecimal(m / 10) == [DigitChar(m / 10)];
  }

  /** For every number below 1000, padding its decimal text gives the digit-by-digit form. */
  lemma PaddedIsThreeDigits(n: nat)
    requires 1 <= n < 1000
    ensures PadStart(ToDecimal(n), 3, '0') == ThreeDigits(n)
  {
    if n < 10 {
      OneDigit(n);
    } else if n < 100 {
      TwoDigits(n);
    } else {
      ThreeDigitsCase(n);
    }
  }

  /**
   Every frame of the sequence is located at `Prefix`, the three zero-padded
   digits of its one-based number, and `Suffix`.
   */
  lemma CurrentFrameShape(index: nat)
    requires index < FrameCount
    ensures CurrentFrame(index) == Prefix + ThreeDigits(index + 1) + Suffix
  {
    PaddedIsThreeDigits(index + 1);
  }

  /** The frame index can be read back from its locator, for every index. */
  lemma CurrentFrameRoundTrip(index: nat)
    ensures FrameIndexOf(CurrentFrame(index)) == Some(index)
  {
    var padded := PadStart(ToDecimal(index + 1), 3, '0');
    var path := CurrentFrame(index);
    PadStartParse(index + 1, 3);
    assert path == Prefix + padded + Suffix;
    assert path[..|Prefix|] == Prefix;
    assert path[|path| - |Suffix|..] == Suffix;
    assert path[|Prefix|..|path| - |Suffix|] == padded;
  }

  /** Distinct frames have distinct locators. */
  lemma CurrentFrameInjective(i: nat, j: nat)
    requires i != j
    ensures CurrentFrame(i) != CurrentFrame(j)
  {
    CurrentFrameRoundTrip(i);
    CurrentFrameRoundTrip(j);
  }
}
