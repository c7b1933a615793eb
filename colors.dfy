/**
 * The two colour helpers of the sketchpad: `getSeededColor` (scripts.js, with an
 * identical copy in analyze.js), which turns a node id into a fill colour through
 * three steps of a linear congruential generator, and `darkenHexColor`
 * (network.js), which scales the channels of a `#rrggbb` colour.
 */
module Colors {

  datatype Result<T> = Success(value: T) | Failure(error: string)

  /** A colour as three channel values; the opacity `getSeededColor` appends is not modelled. */
  datatype Rgb = Rgb(r: int, g: int, b: int)

  predicate InByteRange(c: Rgb)
  {
    0 <= c.r < 256 && 0 <= c.g < 256 && 0 <= c.b < 256
  }

  // ---------------------------------------------------------------------------
  // getSeededColor

  /** m = 2^31, a and c of the generator in `seededRandom`. */
  const Modulus: int := 0x8000_0000
  const Multiplier: int := 1664525
  const Increment: int := 1013904223

  /** JavaScript's `%`: the remainder has the sign of the dividend. */
  function JsRem(x: int, m: int): (r: int)
    requires m > 0
    ensures x >= 0 ==> 0 <= r < m
    ensures x < 0 ==> -m < r <= 0
  {
    if x >= 0 then x % m else -((-x) % m)
  }

  /** One call of `seededRandom`: `seed = (a * seed + c) % m`, as written. */
  function Next(seed: int): int
  {
    JsRem(Multiplier * seed + Increment, Modulus)
  }

  /**
   * `Math.floor(seed / m * 256)` for the seed just produced.  The quotient by a power
   * of two and the product by 256 are exact in a double, so this is the floor of
   * seed * 256 / m, which Dafny's division by a positive divisor computes.
   */
  function Channel(seed: int): int
  {
    seed * 256 / Modulus
  }

  /**
   * `getSeededColor`: the closure `seededRandom` reassigns the captured `seed` on each
   * of its three calls, and each result gives one channel, red first.
   */
  method GetSeededColor(seed0: int) returns (color: Rgb)
    ensures color == Rgb(Channel(Next(seed0)), Channel(Next(Next(seed0))), Channel(Next(Next(Next(seed0)))))
    ensures seed0 >= 0 ==> InByteRange(color)
  {
    if seed0 >= 0 {
      SeededColorRange(seed0);
    }
    var seed := seed0;
    seed := Next(seed);
    var r := Channel(seed);
    seed := Next(seed);
    var g := Channel(seed);
    seed := Next(seed);
    var b := Channel(seed);
    color := Rgb(r, g, b);
  }

  /** A seed in [0, m) gives a channel in 0..255. */
  lemma ChannelRange(seed: int)
    requires 0 <= seed < Modulus
    ensures 0 <= Channel(seed) < 256
  {
    assert seed * 256 < Modulus * 256;
    assert Modulus * 256 / Modulus == 256;
  }

  /** From a non-negative seed the generator stays in [0, m). */
  lemma NextRange(seed: int)
    requires seed >= 0
    ensures 0 <= Next(seed) < Modulus
  {
  }

  /**
   * For a non-negative seed (every id the sketchpad assigns itself) each channel is
   * in 0..255.
   */
  lemma SeededColorRange(seed: int)
    requires seed >= 0
    ensures InByteRange(Rgb(Channel(Next(seed)), Channel(Next(Next(seed))), Channel(Next(Next(Next(seed))))))
  {
    NextRange(seed);
    NextRange(Next(seed));
    NextRange(Next(Next(seed)));
    ChannelRange(Next(seed));
    ChannelRange(Next(Next(seed)));
    ChannelRange(Next(Next(Next(seed))));
  }

  /**
   * As written, a negative id such as -1000 (the node a user labels "-1000") makes
   * `a * seed + c` negative, the truncating `%` keeps it negative, and the red
   * channel comes out as -78.
   */
  lemma NegativeSeedChannel()
    ensures Next(-1000) == -650620777
    ensures Channel(Next(-1000)) == -78
  {
    assert Multiplier * -1000 + Increment == -650620777;
  }

  /** The generator step with a floored modulus, which keeps every seed in [0, m). */
  function FlooredNext(seed: int): (next: int)
    ensures 0 <= next < Modulus
  {
    (Multiplier * seed + Increment) % Modulus
  }

  /** With the floored step, every seed, negative ones included, gives channels in 0..255. */
  lemma FlooredColorRange(seed: int)
    ensures InByteRange(Rgb(Channel(FlooredNext(seed)), Channel(FlooredNext(FlooredNext(seed))),
                            Channel(FlooredNext(FlooredNext(FlooredNext(seed))))))
  {
    ChannelRange(FlooredNext(seed));
    ChannelRange(FlooredNext(FlooredNext(seed)));
    ChannelRange(FlooredNext(FlooredNext(FlooredNext(seed))));
  }

  /** Where `a * seed + c` is not negative the floored step is the step as written. */
  lemma FlooredAgrees(seed: int)
    requires Multiplier * seed + Increment >= 0
    ensures FlooredNext(seed) == Next(seed)
  {
  }

  // ---------------------------------------------------------------------------
  // darkenHexColor

  predicate IsHexDigit(ch: char)
  {
    '0' <= ch <= '9' || 'a' <= ch <= 'f' || 'A' <= ch <= 'F'
  }

  predicate IsLowerHexDigit(ch: char)
  {
    '0' <= ch <= '9' || 'a' <= ch <= 'f'
  }

  /** The pattern `/^#([0-9a-fA-F]{6})$/`. */
  predicate IsHexColor(s: string)
  {
    |s| == 7 && s[0] == '#' && forall i :: 1 <= i < 7 ==> IsHexDigit(s[i])
  }

  /** What `toString(16).padStart(2, "0")` of three bytes after a `#` looks like. */
  predicate IsLowerHexColor(s: string)
  {
    |s| == 7 && s[0] == '#' && forall i :: 1 <= i < 7 ==> IsLowerHexDigit(s[i])
  }

  /** The value of one digit as `parseInt(…, 16)` reads it, either case. */
  function HexValue(ch: char): (v: int)
    requires IsHexDigit(ch)
    ensures 0 <= v < 16
  {
    if '0' <= ch <= '9' then ch as int - '0' as int
    else if 'a' <= ch <= 'f' then ch as int - 'a' as int + 10
    else ch as int - 'A' as int + 10
  }

  /** The digit `toString(16)` writes for v: lower case. */
  function HexDigit(v: int): (ch: char)
    requires 0 <= v < 16
    ensures IsLowerHexDigit(ch) && HexValue(ch) == v
  {
    if v < 10 then ('0' as int + v) as char else ('a' as int + v - 10) as char
  }

  /** `toString(16).padStart(2, "0")` of a byte. */
  function ToHex2(v: int): (s: string)
    requires 0 <= v < 256
    ensures |s| == 2 && IsLowerHexDigit(s[0]) && IsLowerHexDigit(s[1])
    ensures 16 * HexValue(s[0]) + HexValue(s[1]) == v
  {
    [HexDigit(v / 16), HexDigit(v % 16)]
  }

  /** `parseInt(match[1].slice(k, k + 2), 16)`: the byte at digits k+1 and k+2 of the colour. */
  function ByteAt(s: string, k: int): int
    requires IsHexColor(s) && k in {0, 2, 4}
  {
    16 * HexValue(s[k + 1]) + HexValue(s[k + 2])
  }

  /** The three channels of a `#rrggbb` colour. */
  function ParseHexColor(s: string): (c: Rgb)
    requires IsHexColor(s)
    ensures InByteRange(c)
  {
    Rgb(ByteAt(s, 0), ByteAt(s, 2), ByteAt(s, 4))
  }

  /** `"#" + r.toString(16).padStart(2, "0") + …` */
  function FormatHexColor(c: Rgb): (s: string)
    requires InByteRange(c)
    ensures IsLowerHexColor(s)
  {
    "#" + ToHex2(c.r) + ToHex2(c.g) + ToHex2(c.b)
  }

  /** Reading back a formatted colour gives its channels. */
  lemma ParseFormat(c: Rgb)
    requires InByteRange(c)
    ensures IsHexColor(FormatHexColor(c)) && ParseHexColor(FormatHexColor(c)) == c
  {
    var s := FormatHexColor(c);
    assert s[1..3] == ToHex2(c.r) && s[3..5] == ToHex2(c.g) && s[5..7] == ToHex2(c.b);
  }

  /**
   * `Math.round(v * factor)` for the factor num / den: JavaScript rounds halves up,
   * which is the floor of v * num / den + 1/2.
   */
  function Round(v: int, num: int, den: int): int
    requires den > 0
  {
    (2 * v * num + den) / (2 * den)
  }

  /** `Math.max(0, Math.min(255, x))` */
  function Clamp(x: int): (y: int)
    ensures 0 <= y < 256
    ensures 0 <= x < 256 ==> y == x
  {
    if x < 0 then 0 else if x > 255 then 255 else x
  }

  /** One channel after darkening. */
  function Darken(v: int, num: int, den: int): int
    requires den > 0
  {
    Clamp(Round(v, num, den))
  }

  /**
   * `darkenHexColor(hex, factor)` with the factor num / den: a failure (the thrown
   * error) unless `hex` matches the pattern; otherwise each channel scaled, rounded,
   * clamped and written back as two lower-case digits.
   */
  function DarkenHexColor(hex: string, num: int, den: int): (r: Result<string>)
    requires den > 0
    ensures r.Success? <==> IsHexColor(hex)
    ensures r.Success? ==> IsLowerHexColor(r.value)
  {
    if !IsHexColor(hex) then Failure("Invalid hex color format. Use '#rrggbb'.")
    else
      var c := ParseHexColor(hex);
      Success(FormatHexColor(Rgb(Darken(c.r, num, den), Darken(c.g, num, den), Darken(c.b, num, den))))
  }

  /** The output read back: each channel is the clamped, rounded product of the input channel. */
  lemma DarkenChannels(hex: string, num: int, den: int)
    requires den > 0 && IsHexColor(hex)
    ensures var c := ParseHexColor(hex);
      var out := DarkenHexColor(hex, num, den).value;
      && IsHexColor(out)
      && ParseHexColor(out) == Rgb(Darken(c.r, num, den), Darken(c.g, num, den), Darken(c.b, num, den))
  {
    var c := ParseHexColor(hex);
    ParseFormat(Rgb(Darken(c.r, num, den), Darken(c.g, num, den), Darken(c.b, num, den)));
  }

  /** A quotient by a positive divisor is below v + 1 when the dividend is below (v + 1) times it. */
  lemma QuotientBelow(a: int, b: int, v: int)
    requires b > 0 && 0 <= a && v >= 0 && a < (v + 1) * b
    ensures 0 <= a / b <= v
  {
    var q := a / b;
    assert (q - (v + 1)) * b < 0 by {
      assert q * b <= a;
      assert (q - (v + 1)) * b == q * b - (v + 1) * b;
    }
  }

  /** A factor in [0, 1] never brightens a channel. */
  lemma DarkenNoBrighter(v: int, num: int, den: int)
    requires 0 <= v < 256 && den > 0 && 0 <= num <= den
    ensures 0 <= Darken(v, num, den) <= v
  {
    assert 0 <= v * num <= v * den by {
      assert v * (den - num) >= 0;
    }
    QuotientBelow(2 * v * num + den, 2 * den, v);
  }

  /** With factor 1 a channel comes back unchanged. */
  lemma DarkenByOne(v: int)
    requires 0 <= v < 256
    ensures Darken(v, 1, 1) == v
  {
    assert (2 * v * 1 + 1) / 2 == v;
  }

  function ToLower(ch: char): char
  {
    if 'A' <= ch <= 'Z' then (ch as int - 'A' as int + 'a' as int) as char else ch
  }

  /** A byte read from two digits is written back as those digits in lower case. */
  lemma ToHex2Digits(hex: string, k: int)
    requires IsHexColor(hex) && k in {0, 2, 4}
    ensures ToHex2(ByteAt(hex, k)) == [ToLower(hex[k + 1]), ToLower(hex[k + 2])]
  {
    ByteDigits(HexValue(hex[k + 1]), HexValue(hex[k + 2]));
    DigitRoundTrip(hex[k + 1]);
    DigitRoundTrip(hex[k + 2]);
  }

  lemma ByteDigits(hi: int, lo: int)
    requires 0 <= hi < 16 && 0 <= lo < 16
    ensures (16 * hi + lo) / 16 == hi && (16 * hi + lo) % 16 == lo
  {
  }

  /** Reading a colour and writing it back puts its digits in lower case. */
  lemma RewriteLowercases(hex: string)
    requires IsHexColor(hex)
    ensures var out := FormatHexColor(ParseHexColor(hex));
      forall i :: 1 <= i < 7 ==> out[i] == ToLower(hex[i])
  {
    var c := ParseHexColor(hex);
    var out := FormatHexColor(c);
    var red, green, blue := ToHex2(ByteAt(hex, 0)), ToHex2(ByteAt(hex, 2)), ToHex2(ByteAt(hex, 4));
    assert out == "#" + red + green + blue;
    ToHex2Digits(hex, 0);
    ToHex2Digits(hex, 2);
    ToHex2Digits(hex, 4);
    forall i | 1 <= i < 7 ensures out[i] == ToLower(hex[i]) {
      if i < 3 {
        assert out[i] == red[i - 1];
      } else if i < 5 {
        assert out[i] == green[i - 3];
      } else {
        assert out[i] == blue[i - 5];
      }
    }
  }

  /** With factor 1 every channel is kept. */
  lemma DarkenByOneKeeps(hex: string)
    requires IsHexColor(hex)
    ensures DarkenHexColor(hex, 1, 1) == Success(FormatHexColor(ParseHexColor(hex)))
  {
    var c := ParseHexColor(hex);
    DarkenByOne(c.r);
    DarkenByOne(c.g);
    DarkenByOne(c.b);
  }

  /** With factor 1 the output is the input in lower case. */
  lemma DarkenByOneLowercases(hex: string)
    requires IsHexColor(hex)
    ensures var out := DarkenHexColor(hex, 1, 1);
      && out.Success? && |out.value| == 7 && out.value[0] == '#'
      && forall i :: 1 <= i < 7 ==> out.value[i] == ToLower(hex[i])
  {
    DarkenByOneKeeps(hex);
    RewriteLowercases(hex);
  }

  /** Writing back a digit's value gives the digit in lower case. */
  lemma DigitRoundTrip(ch: char)
    requires IsHexDigit(ch)
    ensures HexDigit(HexValue(ch)) == ToLower(ch)
  {
  }
}
