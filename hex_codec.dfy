/**
 * The colour-ID codec: an item index is written in base 16 and left-padded
 * (`padHex`), painted as the CSS colour `'#' + id`, and read back from one
 * pixel's red, green and blue bytes through `padHex(_, 2)` and `parseInt(_, 16)`.
 */
module HexCodec {
  import opened Basics

  type byte = x: int | 0 <= x < 256

  predicate IsHexDigit(c: char) {
    ('0' <= c <= '9') || ('a' <= c <= 'f') || ('A' <= c <= 'F')
  }

  /** The digit's value; `parseInt` and the CSS colour parser accept both letter cases. */
  function DigitValue(c: char): (v: nat)
    requires IsHexDigit(c)
    ensures v < 16
  {
    if '0' <= c <= '9' then c as int - '0' as int
    else if 'a' <= c <= 'f' then c as int - 'a' as int + 10
    else c as int - 'A' as int + 10
  }

  predicate AllHex(s: string) {
    forall i :: 0 <= i < |s| ==> IsHexDigit(s[i])
  }

  /** The lower-case digit `Number.prototype.toString(16)` writes for `d`. */
  function HexChar(d: nat): (c: char)
    requires d < 16
    ensures IsHexDigit(c) && DigitValue(c) == d
  {
    if d < 10 then ('0' as int + d) as char else ('a' as int + d - 10) as char
  }

  /** The number a string of hexadecimal digits denotes, most significant digit first. */
  function HexValue(s: string): nat
    requires AllHex(s)
    decreases |s|
  {
    if s == [] then 0 else HexValue(s[..|s| - 1]) * 16 + DigitValue(s[|s| - 1])
  }

  lemma {:induction false} HexValueBound(s: string)
    requires AllHex(s)
    ensures HexValue(s) < Pow(16, |s|)
    decreases |s|
  {
    if s != [] {
      var p := s[..|s| - 1];
      HexValueBound(p);
      assert HexValue(s) == HexValue(p) * 16 + DigitValue(s[|s| - 1]);
      assert HexValue(p) * 16 <= (Pow(16, |p|) - 1) * 16;
    }
  }

  lemma {:induction false} HexValueAppend(a: string, b: string)
    requires AllHex(a) && AllHex(b)
    ensures AllHex(a + b)
    ensures HexValue(a + b) == HexValue(a) * Pow(16, |b|) + HexValue(b)
    decreases |b|
  {
    if b == [] {
      assert a + b == a;
    } else {
      var b', d := b[..|b| - 1], b[|b| - 1];
      var ab := a + b;
      assert ab[..|ab| - 1] == a + b' && ab[|ab| - 1] == d;
      HexValueAppend(a, b');
      assert AllHex(ab);
      var va, vb, p := HexValue(a), HexValue(b'), Pow(16, |b'|);
      assert HexValue(ab) == HexValue(a + b') * 16 + DigitValue(d);
      assert Pow(16, |b|) == 16 * p;
      assert HexValue(b) == vb * 16 + DigitValue(d);
      ShiftDigit(va, p, vb);
    }
  }

  lemma ShiftDigit(va: int, p: int, vb: int)
    ensures (va * p + vb) * 16 == va * (16 * p) + vb * 16
  {
  }

  /** `num.toString(16)` for a non-negative integer: lower-case digits, no leading zero. */
  function ToHex(n: nat): (s: string)
    ensures |s| >= 1 && AllHex(s)
  {
    if n < 16 then [HexChar(n)] else ToHex(n / 16) + [HexChar(n % 16)]
  }

  /** Reading `toString(16)` back in base 16 gives the number again. */
  lemma {:induction false} ToHexRoundTrip(n: nat)
    ensures HexValue(ToHex(n)) == n
  {
    if n >= 16 {
      var s := ToHex(n);
      assert s[..|s| - 1] == ToHex(n / 16);
      ToHexRoundTrip(n / 16);
    }
  }

  /** `toString(16)` fits in `k` digits exactly when `n < 16^k`. */
  lemma {:induction false} ToHexWidth(n: nat, k: nat)
    requires k >= 1
    ensures |ToHex(n)| <= k <==> n < Pow(16, k)
  {
    if n >= 16 {
      if k == 1 {
        assert Pow(16, 1) == 16;
      } else {
        ToHexWidth(n / 16, k - 1);
      }
    } else {
      assert Pow(16, k) == 16 * Pow(16, k - 1);
    }
  }

  function Zeros(k: nat): (s: string)
    ensures |s| == k && AllHex(s)
  {
    seq(k, _ => '0')
  }

  lemma {:induction false} ZerosValue(k: nat)
    ensures HexValue(Zeros(k)) == 0
  {
    if k > 0 {
      assert Zeros(k)[..k - 1] == Zeros(k - 1);
      ZerosValue(k - 1);
    }
  }

  /** The string `padHex(num, size)` returns: `toString(16)` with as many '0' prepended as it falls short of `size`. */
  function Padded(num: nat, size: int): string {
    var h := ToHex(num);
    Zeros(if size > |h| then size - |h| else 0) + h
  }

  /**
   * `padHex(num, size)` writes `num` in base 16 and prepends '0' while the
   * string is shorter than `size`.
   */
  method PadHex(num: nat, size: int) returns (s: string)
    ensures s == Padded(num, size)
  {
    s := ToHex(num);
    ghost var h := s;
    while |s| < size
      invariant |h| <= |s| && (|s| <= size || s == h)
      invariant s == Zeros(|s| - |h|) + h
      decreases size - |s|
    {
      assert "0" + Zeros(|s| - |h|) == Zeros(|s| + 1 - |h|);
      s := "0" + s;
    }
  }

  /** Length of the longest prefix of `s` made of hexadecimal digits. */
  function HexPrefixLength(s: string): (k: nat)
    ensures k <= |s| && AllHex(s[..k])
    ensures k < |s| ==> !IsHexDigit(s[k])
  {
    if s == [] || !IsHexDigit(s[0]) then 0
    else
      var k := 1 + HexPrefixLength(s[1..]);
      assert s[..k] == [s[0]] + s[1..][..k - 1];
      k
  }

  /** `parseInt(s, 16)`: the value of the leading run of hex digits, or `None` (NaN) when there is none. */
  function ParseInt16(s: string): (r: Option<nat>)
    ensures r.None? <==> (s == [] || !IsHexDigit(s[0]))
  {
    var k := HexPrefixLength(s);
    if k == 0 then None else Some(HexValue(s[..k]))
  }

  lemma {:induction false} ParseAllHex(s: string)
    requires AllHex(s) && s != []
    ensures ParseInt16(s) == Some(HexValue(s))
  {
    PrefixOfAllHex(s);
    assert s[..|s|] == s;
  }

  lemma PrefixOfAllHex(s: string)
    requires AllHex(s)
    ensures HexPrefixLength(s) == |s|
  {
  }

  /**
   * padHex never truncates: the result ends with all of `toString(16)`, is
   * `size` characters long or that string's length if longer, consists of
   * hex digits only, and `parseInt(_, 16)` reads `num` back from it.
   */
  lemma PaddedForm(num: nat, size: int)
    ensures var p := Padded(num, size);
      && AllHex(p)
      && |p| == (if size > |ToHex(num)| then size else |ToHex(num)|)
      && p[|p| - |ToHex(num)|..] == ToHex(num)
      && HexValue(p) == num
      && ParseInt16(p) == Some(num)
  {
    var h := ToHex(num);
    var z := Zeros(if size > |h| then size - |h| else 0);
    PaddedValue(z, h, num);
    ParseAllHex(z + h);
  }

  lemma PaddedValue(z: string, h: string, num: nat)
    requires z == Zeros(|z|) && h == ToHex(num)
    ensures AllHex(z + h) && (z + h)[|z + h| - |h|..] == h && HexValue(z + h) == num
  {
    assert (z + h)[|z + h| - |h|..] == h;
    HexValueAppend(z, h);
    ZerosValue(|z|);
    ToHexRoundTrip(num);
  }

  /** For a positive width, `padHex(num, size)` is exactly `size` digits long iff `num < 16^size`. */
  lemma PaddedWidth(num: nat, size: nat)
    requires size >= 1
    ensures |Padded(num, size)| == size <==> num < Pow(16, size)
  {
    PaddedForm(num, size);
    ToHexWidth(num, size);
  }

  /** Distinct numbers give distinct padded strings, at every width. */
  lemma PaddedInjective(i: nat, j: nat, size: int)
    requires Padded(i, size) == Padded(j, size)
    ensures i == j
  {
    PaddedForm(i, size);
    PaddedForm(j, size);
  }

  datatype Rgb = Rgb(r: byte, g: byte, b: byte)
  datatype Rgba = Rgba(r: byte, g: byte, b: byte, a: byte)

  /** What `clearRect` leaves and `getImageData` reads outside the canvas. */
  const TransparentBlack := Rgba(0, 0, 0, 0)

  /** A flat fill with an opaque colour (antialiasing aside). */
  function Opaque(c: Rgb): Rgba {
    Rgba(c.r, c.g, c.b, 255)
  }

  /** The number whose six base-16 digits are the channels' two-digit forms. */
  function RgbIndex(r: byte, g: byte, b: byte): nat {
    r * 65536 + g * 256 + b
  }

  function ChannelOf(s: string): byte
    requires |s| == 2 && AllHex(s)
  {
    HexValueBound(s);
    assert Pow(16, 2) == 256;
    HexValue(s)
  }

  /**
   * The canvas's reading of a `fillStyle` string as a `#rrggbb` colour; `None`
   * when it is not one, in which case the assignment is ignored and the
   * previous fill colour stays.
   */
  function ParseHexColour(s: string): (c: Option<Rgb>)
    ensures c.Some? <==> |s| == 7 && s[0] == '#' && AllHex(s[1..])
    ensures c.Some? ==> RgbIndex(c.value.r, c.value.g, c.value.b) == HexValue(s[1..])
  {
    if |s| == 7 && s[0] == '#' && AllHex(s[1..]) then
      var d := s[1..];
      ChannelsSpell(d);
      Some(Rgb(ChannelOf(d[..2]), ChannelOf(d[2..4]), ChannelOf(d[4..])))
    else None
  }

  /** Six hex digits denote the number whose three bytes are their two-digit pairs. */
  lemma ChannelsSpell(d: string)
    requires |d| == 6 && AllHex(d)
    ensures AllHex(d[..2]) && AllHex(d[2..4]) && AllHex(d[4..])
    ensures HexValue(d) == RgbIndex(ChannelOf(d[..2]), ChannelOf(d[2..4]), ChannelOf(d[4..]))
  {
    assert AllHex(d[..2]) && AllHex(d[2..4]) && AllHex(d[4..]);
    assert d == d[..2] + d[2..4] + d[4..];
    HexValueAppend(d[..2], d[2..4]);
    HexValueAppend(d[..2] + d[2..4], d[4..]);
    assert Pow(16, 2) == 256;
  }

  /** onClickCanvas's decode: `parseInt(padHex(r,2) + padHex(g,2) + padHex(b,2), 16)`; alpha is ignored. */
  function DecodeAsWritten(px: Rgba): Option<nat> {
    ParseInt16(Padded(px.r, 2) + Padded(px.g, 2) + Padded(px.b, 2))
  }

  /**
   * The decode is never NaN: every pixel, painted or cleared, yields the
   * number its three bytes spell, so `isNaN(index)` is always false.
   */
  lemma DecodeNeverNaN(px: Rgba)
    ensures DecodeAsWritten(px) == Some(RgbIndex(px.r, px.g, px.b))
  {
    var pr, pg, pb := Padded(px.r, 2), Padded(px.g, 2), Padded(px.b, 2);
    ChannelForm(px.r);
    ChannelForm(px.g);
    ChannelForm(px.b);
    HexValueAppend(pr, pg);
    HexValueAppend(pr + pg, pb);
    assert Pow(16, 2) == 256;
    ParseAllHex(pr + pg + pb);
  }

  /** Decoding with the background told apart: a pixel no shape has painted (alpha 0) is no match. */
  function Pick(px: Rgba): (index: Option<nat>)
    ensures px.a == 0 ==> index.None?
    ensures px.a != 0 ==> index == Some(RgbIndex(px.r, px.g, px.b))
  {
    if px.a == 0 then None else DecodeNeverNaN(px); DecodeAsWritten(px)
  }

  lemma ChannelForm(c: byte)
    ensures |Padded(c, 2)| == 2 && AllHex(Padded(c, 2)) && HexValue(Padded(c, 2)) == c
  {
    PaddedForm(c, 2);
    PaddedWidth(c, 2);
  }

  /** A cleared pixel, (0, 0, 0) with alpha 0, decodes to index 0, the same as item 0's hit colour. */
  lemma ClearedDecodesToZero()
    ensures DecodeAsWritten(TransparentBlack) == Some(0)
    ensures Pick(TransparentBlack) == None
  {
    DecodeNeverNaN(TransparentBlack);
  }

  /**
   * The colour-ID round trip: `'#' + padHex(i, 6)` is a valid colour exactly
   * when `i < 16^6`; painting it gives bytes that decode back to `i`.
   */
  lemma EncodePaintDecode(i: nat)
    ensures ParseHexColour("#" + Padded(i, 6)).Some? <==> i < Pow(16, 6)
    ensures i < Pow(16, 6) ==>
      var c := ParseHexColour("#" + Padded(i, 6)).value;
      && RgbIndex(c.r, c.g, c.b) == i
      && DecodeAsWritten(Opaque(c)) == Some(i)
      && Pick(Opaque(c)) == Some(i)
  {
    var s := Padded(i, 6);
    var t := "#" + s;
    PaddedForm(i, 6);
    PaddedWidth(i, 6);
    assert t[1..] == s;
    if i < Pow(16, 6) {
      DecodeNeverNaN(Opaque(ParseHexColour(t).value));
    }
  }
}
