/** web/src/lib/color-utils.ts: conversion between `#rrggbb` strings and RGB
    triples, with the string functions of JavaScript they rely on. */
module ColorUtils {
  import opened Types

  /** The three numbers `hexToRgb` returns; `None` stands for NaN, which
      `parseInt` yields when a slice holds no hex digit. */
  datatype Channels = Channels(r: Option<int>, g: Option<int>, b: Option<int>)

  // ---------------------------------------------------------------------------
  // Hex digits

  predicate IsHexDigit(c: char)
  {
    '0' <= c <= '9' || 'a' <= c <= 'f' || 'A' <= c <= 'F'
  }

  predicate IsLowerHexDigit(c: char)
  {
    '0' <= c <= '9' || 'a' <= c <= 'f'
  }

  function HexValue(c: char): (v: nat)
    requires IsHexDigit(c)
    ensures v < 16
  {
    if '0' <= c <= '9' then c as int - '0' as int
    else if 'a' <= c <= 'f' then c as int - 'a' as int + 10
    else c as int - 'A' as int + 10
  }

  /** The digit `Number.prototype.toString(16)` prints for `v`: lowercase. */
  function HexDigit(v: nat): (c: char)
    requires v < 16
    ensures IsLowerHexDigit(c) && IsHexDigit(c) && HexValue(c) == v
  {
    if v < 10 then ('0' as int + v) as char else ('a' as int + v - 10) as char
  }

  /** Lowercases a hex digit. */
  function LowerHex(c: char): (d: char)
    requires IsHexDigit(c)
    ensures IsLowerHexDigit(d) && HexValue(d) == HexValue(c)
  {
    HexDigit(HexValue(c))
  }

  function LowerHexString(s: string): (t: string)
    requires forall i :: 0 <= i < |s| ==> IsHexDigit(s[i])
    ensures |t| == |s| && forall i :: 0 <= i < |s| ==> t[i] == LowerHex(s[i])
  {
    seq(|s|, i requires 0 <= i < |s| => LowerHex(s[i]))
  }

  /** A seven-character `#rrggbb` string (digits in either case). */
  predicate IsHexColor(s: string)
  {
    |s| == 7 && s[0] == '#' && forall i :: 1 <= i < 7 ==> IsHexDigit(s[i])
  }

  // ---------------------------------------------------------------------------
  // The JavaScript string functions involved

  /** The position of the first `c` in `s`. */
  function FirstIndex(s: string, c: char): (k: nat)
    requires c in s
    ensures k < |s| && s[k] == c && c !in s[..k]
  {
    if s[0] == c then 0
    else
      var k := FirstIndex(s[1..], c) + 1;
      assert s[..k] == [s[0]] + s[1..][..k - 1];
      k
  }

  /** `s.replace(c, '')` with a one-character string pattern: only the first
      occurrence is removed, wherever it is. */
  function RemoveFirst(s: string, c: char): (r: string)
    ensures c !in s ==> r == s
    ensures c in s ==> |r| == |s| - 1
  {
    if |s| == 0 then s
    else if s[0] == c then s[1..]
    else [s[0]] + RemoveFirst(s[1..], c)
  }

  /** `RemoveFirst` cuts `s` at the first `c`, keeping both sides in order. */
  lemma {:induction false} RemoveFirstCuts(s: string, c: char)
    requires c in s
    ensures RemoveFirst(s, c) == s[..FirstIndex(s, c)] + s[FirstIndex(s, c) + 1..]
  {
    if s[0] != c {
      var t := s[1..];
      var j := FirstIndex(t, c);
      RemoveFirstCuts(t, c);
      assert RemoveFirst(s, c) == [s[0]] + (t[..j] + t[j + 1..]);
      assert s[..j + 1] == [s[0]] + t[..j];
      assert s[j + 2..] == t[j + 1..];
    }
  }

  /** `r` is `s` with the character at `k` cut out, and that character is
      the first `c` in `s`. */
  predicate CutAtFirst(s: string, c: char, k: int, r: string)
  {
    0 <= k < |s| && s[k] == c && c !in s[..k] && r == s[..k] + s[k + 1..]
  }

  /** The character `RemoveFirst` drops is the first `c`, and the rest of `s`
      is kept in order around it. */
  lemma {:induction false} RemoveFirstDropsFirst(s: string, c: char)
    requires c in s
    ensures exists k :: CutAtFirst(s, c, k, RemoveFirst(s, c))
  {
    var k := FirstIndex(s, c);
    var r := RemoveFirst(s, c);
    RemoveFirstCuts(s, c);
    assert r == s[..k] + s[k + 1..];
    assert CutAtFirst(s, c, k, r);
  }

  /** `s.substring(start, end)` for `start <= end`: both ends are clamped to
      the length of `s`. */
  function Substring(s: string, start: nat, end: nat): (r: string)
    requires start <= end
    ensures |r| == Min(end, |s|) - Min(start, |s|)
  {
    s[Min(start, |s|)..Min(end, |s|)]
  }

  /** The white space `parseInt` skips: the ECMAScript WhiteSpace and
      LineTerminator characters. */
  predicate IsJsSpace(c: char)
  {
    c == '\t' || c == '\n' || c == '\U{000B}' || c == '\U{000C}' || c == '\r' || c == ' '
    || c == '\U{00A0}' || c == '\U{1680}' || '\U{2000}' <= c <= '\U{200A}'
    || c == '\U{2028}' || c == '\U{2029}' || c == '\U{202F}' || c == '\U{205F}'
    || c == '\U{3000}' || c == '\U{FEFF}'
  }

  /** `parseInt` first drops the leading white space, and only that. */
  function TrimStart(s: string): (r: string)
    ensures |r| <= |s| && (|r| > 0 ==> !IsJsSpace(r[0]))
    ensures |s| > 0 && !IsJsSpace(s[0]) ==> r == s
  {
    if |s| > 0 && IsJsSpace(s[0]) then TrimStart(s[1..]) else s
  }

  /** Number of white-space characters at the start of `s`. */
  function LeadingSpaces(s: string): (k: nat)
    ensures k <= |s|
  {
    if |s| > 0 && IsJsSpace(s[0]) then LeadingSpaces(s[1..]) + 1 else 0
  }

  /** `TrimStart` drops exactly the leading white space. */
  lemma {:induction false} TrimStartSkips(s: string)
    ensures TrimStart(s) == s[LeadingSpaces(s)..]
  {
    if |s| > 0 && IsJsSpace(s[0]) {
      TrimStartSkips(s[1..]);
      assert s[1..][LeadingSpaces(s[1..])..] == s[LeadingSpaces(s)..];
    }
  }

  /** The leading characters `LeadingSpaces` counts are all white space. */
  lemma {:induction false} LeadingSpacesAreSpaces(s: string, i: int)
    requires 0 <= i < LeadingSpaces(s)
    ensures IsJsSpace(s[i])
  {
    if i > 0 {
      LeadingSpacesAreSpaces(s[1..], i - 1);
    }
  }

  /** What `TrimStart` drops is a prefix made of white space only. */
  lemma {:induction false} TrimStartDropsSpaces(s: string)
    ensures exists k :: 0 <= k <= |s| && TrimStart(s) == s[k..] && forall i :: 0 <= i < k ==> IsJsSpace(s[i])
  {
    var k := LeadingSpaces(s);
    TrimStartSkips(s);
    forall i | 0 <= i < k
      ensures IsJsSpace(s[i])
    {
      LeadingSpacesAreSpaces(s, i);
    }
  }

  /** Length of the longest prefix of `s` made of hex digits. */
  function HexRun(s: string): (n: nat)
    ensures n <= |s| && forall i :: 0 <= i < n ==> IsHexDigit(s[i])
    ensures n < |s| ==> !IsHexDigit(s[n])
  {
    if |s| > 0 && IsHexDigit(s[0]) then 1 + HexRun(s[1..]) else 0
  }

  /** Value of a string of hex digits, most significant first. */
  function HexDigitsValue(s: string): (v: nat)
    requires forall i :: 0 <= i < |s| ==> IsHexDigit(s[i])
  {
    if |s| == 0 then 0 else 16 * HexDigitsValue(s[..|s| - 1]) + HexValue(s[|s| - 1])
  }

  /** `16` to the power `n`: one more than the largest value of `n` hex digits. */
  function Pow16(n: nat): (p: nat)
    ensures p >= 1
  {
    if n == 0 then 1 else 16 * Pow16(n - 1)
  }

  lemma {:induction false} Pow16Monotone(m: nat, n: nat)
    requires m <= n
    ensures Pow16(m) <= Pow16(n)
    decreases n
  {
    if m < n {
      Pow16Monotone(m, n - 1);
    }
  }

  /** `parseInt(s, 16)`: skips leading white space, takes one sign, drops a
      `0x`/`0X` prefix, then reads the longest run of hex digits; no digit
      gives NaN (`None`). */
  function ParseIntHex(s: string): Option<int>
  {
    var t := TrimStart(s);
    var negative := |t| > 0 && t[0] == '-';
    var u := if |t| > 0 && (t[0] == '-' || t[0] == '+') then t[1..] else t;
    var v := if |u| >= 2 && u[0] == '0' && (u[1] == 'x' || u[1] == 'X') then u[2..] else u;
    var n := HexRun(v);
    if n == 0 then None
    else Some(if negative then 0 - HexDigitsValue(v[..n]) else HexDigitsValue(v[..n]))
  }

  /** `c.toString(16)` for an integer `c`: lowercase digits, no leading
      zeros, a minus sign for negative numbers. */
  function HexString(c: int): (s: string)
    ensures |s| > 0
  {
    if c < 0 then "-" + HexDigits(-c) else HexDigits(c)
  }

  function HexDigits(n: nat): (s: string)
    ensures |s| > 0
  {
    if n < 16 then [HexDigit(n)] else HexDigits(n / 16) + [HexDigit(n % 16)]
  }

  /** `s.padStart(2, '0')`. */
  function PadStart2(s: string): string
  {
    if |s| >= 2 then s else seq(2 - |s|, _ => '0') + s
  }

  // ---------------------------------------------------------------------------
  // The two helpers

  /** `hexToRgb(hex)`: drops the first `#`, then parses characters 0-1, 2-3 and
      4-5 of what is left as hex numbers. */
  function HexToRgb(hex: string): Channels
  {
    var h := RemoveFirst(hex, '#');
    Channels(ParseIntHex(Substring(h, 0, 2)), ParseIntHex(Substring(h, 2, 4)), ParseIntHex(Substring(h, 4, 6)))
  }

  /** One channel of `rgbToHex`. */
  function ChannelHex(c: int): string
  {
    PadStart2(HexString(c))
  }

  /** `rgbToHex(rgb)`: `#` followed by each channel in hex, zero-padded to two
      digits. */
  function RgbToHex(rgb: Rgb): string
  {
    "#" + ChannelHex(rgb.r) + ChannelHex(rgb.g) + ChannelHex(rgb.b)
  }

  // ---------------------------------------------------------------------------
  // Properties

  predicate InByteRange(c: Rgb)
  {
    0 <= c.r < 256 && 0 <= c.g < 256 && 0 <= c.b < 256
  }

  /** `n` hex digits are worth less than `16^n`. */
  lemma {:induction false} HexDigitsValueBound(s: string)
    requires forall i :: 0 <= i < |s| ==> IsHexDigit(s[i])
    ensures HexDigitsValue(s) < Pow16(|s|)
  {
    if |s| > 0 {
      HexDigitsValueBound(s[..|s| - 1]);
    }
  }

  /** `parseInt(s, 16)` reads at most `|s|` digits, so its magnitude is below
      `16^|s|`; the empty string is NaN. */
  lemma ParseIntHexRange(s: string)
    ensures ParseIntHex(s).Some? ==> -(Pow16(|s|) as int) < ParseIntHex(s).value < Pow16(|s|)
    ensures |s| == 0 ==> ParseIntHex(s).None?
  {
    var t := TrimStart(s);
    var u := if |t| > 0 && (t[0] == '-' || t[0] == '+') then t[1..] else t;
    var v := if |u| >= 2 && u[0] == '0' && (u[1] == 'x' || u[1] == 'X') then u[2..] else u;
    RunValueBound(v, |s|);
  }

  /** The digits read from `v` are worth less than `16^m` for any `m >= |v|`. */
  lemma RunValueBound(v: string, m: nat)
    requires |v| <= m
    ensures HexDigitsValue(v[..HexRun(v)]) < Pow16(m)
  {
    HexDigitsValueBound(v[..HexRun(v)]);
    Pow16Monotone(HexRun(v), m);
  }

  /** `parseInt(s, 16)` is negative only when `s` holds a minus sign. */
  lemma ParseIntHexSign(s: string)
    ensures ParseIntHex(s).Some? && ParseIntHex(s).value < 0 ==> '-' in s
  {
    TrimStartHead(s);
  }

  /** The first character left by `TrimStart` is a character of `s`. */
  lemma {:induction false} TrimStartHead(s: string)
    ensures |TrimStart(s)| > 0 ==> TrimStart(s)[0] in s
  {
    if |s| > 0 && IsJsSpace(s[0]) {
      TrimStartHead(s[1..]);
      if |TrimStart(s)| > 0 {
        assert TrimStart(s)[0] in s[1..];
      }
    }
  }

  /** Each channel of `hexToRgb` comes from at most two characters, so it is
      NaN or lies strictly between -256 and 256; a string too short to reach
      a channel's characters leaves that channel NaN. */
  lemma HexToRgbRange(hex: string)
    ensures var p := HexToRgb(hex);
      && (p.r.Some? ==> -256 < p.r.value < 256)
      && (p.g.Some? ==> -256 < p.g.value < 256)
      && (p.b.Some? ==> -256 < p.b.value < 256)
      && (|hex| <= 4 ==> p.b.None?)
      && (|hex| <= 2 ==> p.g.None?)
      && (|hex| == 0 ==> p.r.None?)
  {
    var h := RemoveFirst(hex, '#');
    assert Pow16(2) == 256 by {
      assert Pow16(1) == 16;
    }
    var x, y, z := Substring(h, 0, 2), Substring(h, 2, 4), Substring(h, 4, 6);
    ParseIntHexRange(x);
    ParseIntHexRange(y);
    ParseIntHexRange(z);
    Pow16Monotone(|x|, 2);
    Pow16Monotone(|y|, 2);
    Pow16Monotone(|z|, 2);
  }

  /** `toString(16)` of a number from 16 on has at least two digits, and
      from 256 on at least three. */
  lemma {:induction false} HexDigitsLength(n: nat)
    ensures n >= 16 ==> |HexDigits(n)| >= 2
    ensures n >= 256 ==> |HexDigits(n)| >= 3
  {
    if n >= 16 {
      HexDigitsLength(n / 16);
    }
  }

  /** `rgbToHex` always starts with `#` and gives at least two characters per
      channel; a channel above 255 makes it longer than `#rrggbb`, and a
      negative channel prints with a minus sign. */
  lemma RgbToHexShape(rgb: Rgb)
    ensures var s := RgbToHex(rgb);
      && |s| >= 7 && s[0] == '#'
      && (rgb.r >= 256 || rgb.g >= 256 || rgb.b >= 256 ==> |s| > 7)
      && (rgb.r < 0 ==> s[1] == '-')
  {
    ChannelHexShape(rgb.r);
    ChannelHexShape(rgb.g);
    ChannelHexShape(rgb.b);
  }

  lemma ChannelHexShape(c: int)
    ensures |ChannelHex(c)| >= 2
    ensures c >= 256 ==> |ChannelHex(c)| >= 3
    ensures c < 0 ==> ChannelHex(c)[0] == '-'
  {
    HexDigitsLength(if c < 0 then -c else c);
  }

  /** Two hex digits read as a number. */
  function PairValue(hi: char, lo: char): (v: nat)
    requires IsHexDigit(hi) && IsHexDigit(lo)
    ensures v < 256
  {
    16 * HexValue(hi) + HexValue(lo)
  }

  /** A channel in 0..255 prints as exactly two lowercase digits: the high
      and the low four bits. */
  lemma ChannelHexDigits(c: int)
    requires 0 <= c < 256
    ensures ChannelHex(c) == [HexDigit(c / 16), HexDigit(c % 16)]
  {
    if c < 16 {
      assert HexString(c) == [HexDigit(c)];
      assert HexDigit(0) == '0';
    } else {
      assert HexDigits(c / 16) == [HexDigit(c / 16)];
    }
  }

  /** The digits of a channel read back as the channel. */
  lemma DigitsValue(c: int)
    requires 0 <= c < 256
    ensures PairValue(HexDigit(c / 16), HexDigit(c % 16)) == c
  {
  }

  /** For channels in 0..255, `rgbToHex` gives `#` then, for each channel,
      the lowercase digits of its high and low four bits. */
  lemma RgbToHexDigits(c: Rgb)
    requires InByteRange(c)
    ensures RgbToHex(c) == ['#', HexDigit(c.r / 16), HexDigit(c.r % 16), HexDigit(c.g / 16),
                            HexDigit(c.g % 16), HexDigit(c.b / 16), HexDigit(c.b % 16)]
  {
    var a, b, d := ChannelHex(c.r), ChannelHex(c.g), ChannelHex(c.b);
    ChannelHexDigits(c.r);
    ChannelHexDigits(c.g);
    ChannelHexDigits(c.b);
    assert RgbToHex(c) == ['#'] + a + b + d;
  }

  /** A channel in 0..255 prints as two lowercase digits that read back as
      the channel. */
  lemma ChannelFormat(v: int)
    requires 0 <= v < 256
    ensures var h := ChannelHex(v);
      && |h| == 2 && IsLowerHexDigit(h[0]) && IsLowerHexDigit(h[1])
      && IsHexDigit(h[0]) && IsHexDigit(h[1]) && PairValue(h[0], h[1]) == v
  {
    ChannelHexDigits(v);
    DigitsValue(v);
  }

  /** For channels in 0..255, `rgbToHex` gives `#` and six lowercase hex
      digits, two per channel, that read back as the channels. */
  lemma RgbToHexFormat(c: Rgb)
    requires InByteRange(c)
    ensures var s := RgbToHex(c);
      && |s| == 7 && s[0] == '#'
      && (forall i :: 1 <= i < 7 ==> IsLowerHexDigit(s[i]))
      && IsHexColor(s)
      && PairValue(s[1], s[2]) == c.r && PairValue(s[3], s[4]) == c.g && PairValue(s[5], s[6]) == c.b
  {
    var a, b, d := ChannelHex(c.r), ChannelHex(c.g), ChannelHex(c.b);
    ChannelFormat(c.r);
    ChannelFormat(c.g);
    ChannelFormat(c.b);
    var s := RgbToHex(c);
    assert s == ['#', a[0], a[1], b[0], b[1], d[0], d[1]];
  }

  /** `parseInt` of two hex digits is their value. */
  lemma ParsePair(s: string)
    requires |s| == 2 && IsHexDigit(s[0]) && IsHexDigit(s[1])
    ensures ParseIntHex(s) == Some(PairValue(s[0], s[1]))
  {
    assert TrimStart(s) == s;
    assert HexRun(s[1..][1..]) == 0;
    assert HexRun(s) == 2;
    assert s[..2] == s && s[..1] == [s[0]];
    assert HexDigitsValue([s[0]]) == HexValue(s[0]) by {
      assert [s[0]][..0] == [];
    }
    assert HexDigitsValue(s) == 16 * HexDigitsValue(s[..1]) + HexValue(s[1]);
  }

  /** What is left of `#rrggbb` after `replace`, and of `rrggbb`. */
  lemma HashRemoved(s: string)
    requires |s| == 6 && forall i :: 0 <= i < 6 ==> IsHexDigit(s[i])
    ensures RemoveFirst("#" + s, '#') == s
    ensures RemoveFirst(s, '#') == s
  {
    assert '#' !in s by {
      forall i | 0 <= i < 6 ensures s[i] != '#' { }
    }
  }

  /** `hexToRgb` of six hex digits: three channels, each the value of its two
      digits and so in 0..255. */
  lemma HexToRgbDigits(s: string)
    requires |s| == 6 && forall i :: 0 <= i < 6 ==> IsHexDigit(s[i])
    ensures HexToRgb(s) == HexToRgb("#" + s)
    ensures HexToRgb(s) ==
      Channels(Some(PairValue(s[0], s[1])), Some(PairValue(s[2], s[3])), Some(PairValue(s[4], s[5])))
  {
    HashRemoved(s);
    assert Substring(s, 0, 2) == s[0..2];
    assert Substring(s, 2, 4) == s[2..4];
    assert Substring(s, 4, 6) == s[4..6];
    ParsePair(s[0..2]);
    ParsePair(s[2..4]);
    ParsePair(s[4..6]);
  }

  /** For `#rrggbb`, `hexToRgb` returns the three two-digit values, each in
      0..255; the `#` is optional. */
  lemma HexToRgbColor(s: string)
    requires IsHexColor(s)
    ensures HexToRgb(s) == HexToRgb(s[1..])
    ensures HexToRgb(s) ==
      Channels(Some(PairValue(s[1], s[2])), Some(PairValue(s[3], s[4])), Some(PairValue(s[5], s[6])))
  {
    assert s == "#" + s[1..];
    HexToRgbDigits(s[1..]);
  }

  /** Round trip: a colour with channels in 0..255 survives `rgbToHex`
      followed by `hexToRgb`. */
  lemma HexRoundTrip(c: Rgb)
    requires InByteRange(c)
    ensures HexToRgb(RgbToHex(c)) == Channels(Some(c.r), Some(c.g), Some(c.b))
  {
    RgbToHexFormat(c);
    HexToRgbColor(RgbToHex(c));
  }

  /** Two hex digits read as a channel print back as the same two digits,
      lowercased. */
  lemma PairPrint(hi: char, lo: char)
    requires IsHexDigit(hi) && IsHexDigit(lo)
    ensures ChannelHex(PairValue(hi, lo)) == [LowerHex(hi), LowerHex(lo)]
  {
    var v := PairValue(hi, lo);
    assert v / 16 == HexValue(hi) && v % 16 == HexValue(lo);
    ChannelHexDigits(v);
  }

  /** The lowercased digits of `#rrggbb`, one by one. */
  lemma LowerSix(s: string)
    requires IsHexColor(s)
    ensures LowerHexString(s[1..]) ==
      [LowerHex(s[1]), LowerHex(s[2])] + [LowerHex(s[3]), LowerHex(s[4])] + [LowerHex(s[5]), LowerHex(s[6])]
  {
  }

  /** The six digits of `#rrggbb`, read as channels, print back lowercased. */
  lemma PairsPrint(s: string)
    requires IsHexColor(s)
    ensures RgbToHex(Rgb(PairValue(s[1], s[2]), PairValue(s[3], s[4]), PairValue(s[5], s[6])))
         == "#" + LowerHexString(s[1..])
  {
    PairPrint(s[1], s[2]);
    PairPrint(s[3], s[4]);
    PairPrint(s[5], s[6]);
    LowerSix(s);
  }

  /** Reverse round trip: `rgbToHex(hexToRgb(s))` gives `s` back with its
      digits lowercased. */
  lemma ColorRoundTrip(s: string)
    requires IsHexColor(s)
    ensures var p := HexToRgb(s);
      && p.r.Some? && p.g.Some? && p.b.Some?
      && RgbToHex(Rgb(p.r.value, p.g.value, p.b.value)) == "#" + LowerHexString(s[1..])
  {
    HexToRgbColor(s);
    PairsPrint(s);
  }
}
