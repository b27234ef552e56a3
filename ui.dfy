/** The pure helpers of the renderer (mirro-rs/src/app/ui.rs): the
    case-insensitive country filter and the rows it yields, the hex colour
    parser with the configuration fallbacks built on it, and the minimum
    terminal size check. */
module Render {
  import opened Common
  import opened Catalog

  // ---------------------------------------------------------------------
  // The case-insensitive country filter

  /** `char::to_lowercase`, restricted to ASCII. */
  function AsciiLower(c: char): char {
    if 'A' <= c <= 'Z' then (c as int + 32) as char else c
  }

  /** `str::to_lowercase`, restricted to ASCII. */
  function Lower(s: string): string {
    seq(|s|, i requires 0 <= i < |s| => AsciiLower(s[i]))
  }

  /** `needle` occurs in `hay` starting at position `i`. */
  predicate OccursAt(needle: string, hay: string, i: int) {
    0 <= i <= |hay| - |needle| && hay[i..i + |needle|] == needle
  }

  /** `needle` occurs in `hay` as a contiguous block. */
  ghost predicate IsSubstring(needle: string, hay: string) {
    exists i :: OccursAt(needle, hay, i)
  }

  /** `str::contains`: tries every start position from the left. */
  function Contains(hay: string, needle: string): bool
    decreases |hay|
  {
    if |needle| <= |hay| && hay[..|needle|] == needle then true
    else if hay == [] then false
    else Contains(hay[1..], needle)
  }

  /** The row predicate of the available-mirrors table (and of the selection
      in the key handler): the lowercased name contains the lowercased filter. */
  predicate MatchesFilter(c: Url, filter: string) {
    Contains(Lower(c.country), Lower(filter))
  }

  /** The countries that pass the filter, in catalog order. */
  function FilteredCountries(countries: seq<Url>, filter: string): (r: seq<Url>)
    ensures |r| <= |countries|
    ensures forall c :: c in r <==> c in countries && MatchesFilter(c, filter)
  {
    if countries == [] then []
    else
      (if MatchesFilter(countries[0], filter) then [countries[0]] else [])
        + FilteredCountries(countries[1..], filter)
  }

  /** One row of the available-mirrors table: the displayed name and the
      number of mirrors of the country. */
  datatype Row = Row(name: string, mirrorCount: nat)

  /** An empty country name is shown as "misc". */
  function DisplayName(country: string): (n: string)
    ensures n != ""
    ensures country != "" ==> n == country
  {
    if country == "" then "misc" else country
  }

  function CountryRow(c: Url): Row {
    Row(DisplayName(c.country), |c.mirrors|)
  }

  /** The `filter_map` that builds the rows in one pass. */
  function AvailableRows(countries: seq<Url>, filter: string): (rows: seq<Row>)
    ensures |rows| == |FilteredCountries(countries, filter)|
    ensures forall i :: 0 <= i < |rows| ==> rows[i] == CountryRow(FilteredCountries(countries, filter)[i])
  {
    if countries == [] then []
    else
      var keep := MatchesFilter(countries[0], filter);
      assert FilteredCountries(countries, filter) ==
             (if keep then [countries[0]] else []) + FilteredCountries(countries[1..], filter);
      (if keep then [CountryRow(countries[0])] else []) + AvailableRows(countries[1..], filter)
  }

  /** `contains` searches for a contiguous occurrence. */
  lemma {:induction false} ContainsIsSubstring(hay: string, needle: string)
    ensures Contains(hay, needle) <==> IsSubstring(needle, hay)
    decreases |hay|
  {
    var n := |needle|;
    if n <= |hay| && hay[..n] == needle {
      assert OccursAt(needle, hay, 0);
    } else if hay != [] {
      ContainsIsSubstring(hay[1..], needle);
      if IsSubstring(needle, hay[1..]) {
        var i :| OccursAt(needle, hay[1..], i);
        OccursInTail(needle, hay, i);
      }
      if IsSubstring(needle, hay) {
        var i :| OccursAt(needle, hay, i);
        assert i != 0 by {
          assert hay[..n] == hay[0..0 + n];
        }
        OccursInTail(needle, hay, i - 1);
      }
    }
  }

  /** An occurrence in the tail of `hay` is one position further in `hay`. */
  lemma OccursInTail(needle: string, hay: string, i: int)
    requires hay != [] && 0 <= i
    ensures OccursAt(needle, hay[1..], i) <==> OccursAt(needle, hay, i + 1)
  {
    var n := |needle|;
    if 0 <= i <= |hay| - 1 - n {
      assert hay[1..][i..i + n] == hay[i + 1..i + 1 + n];
    }
  }

  /** The filtered list is the catalog with the non-matching countries
      dropped: filtering a concatenation filters each part in place. */
  lemma {:induction false} FilterDistributes(a: seq<Url>, b: seq<Url>, filter: string)
    ensures FilteredCountries(a + b, filter) == FilteredCountries(a, filter) + FilteredCountries(b, filter)
    decreases |a|
  {
    if a != [] {
      assert (a + b)[1..] == a[1..] + b;
      FilterDistributes(a[1..], b, filter);
    } else {
      assert a + b == b;
    }
  }

  /** The empty filter keeps every country, so the rows are the whole
      catalog in order. */
  lemma {:induction false} EmptyFilterKeepsAll(countries: seq<Url>)
    ensures FilteredCountries(countries, "") == countries
    ensures |AvailableRows(countries, "")| == |countries|
    decreases |countries|
  {
    if countries != [] {
      assert Lower("") == "";
      assert Lower(countries[0].country)[..0] == "";
      assert MatchesFilter(countries[0], "");
      EmptyFilterKeepsAll(countries[1..]);
    }
  }

  /** The country with the empty name is listed, as "misc", exactly when the
      filter is empty. */
  lemma UnnamedShownIffFilterEmpty(c: Url, filter: string)
    requires c.country == ""
    ensures MatchesFilter(c, filter) <==> filter == ""
    ensures CountryRow(c).name == "misc"
  {
    ContainsIsSubstring(Lower(c.country), Lower(filter));
    assert Lower("") == "";
    if filter == "" {
      assert OccursAt(Lower(filter), Lower(c.country), 0);
    }
  }

  lemma LowerAppend(s: string, ch: char)
    ensures Lower(s + [ch]) == Lower(s) + [AsciiLower(ch)]
  {
  }

  /** Typing one more character into the filter can only hide rows: every
      country shown afterwards was shown before. */
  lemma FilterNarrowsOnPush(c: Url, filter: string, ch: char)
    ensures MatchesFilter(c, filter + [ch]) ==> MatchesFilter(c, filter)
  {
    var hay, n := Lower(c.country), Lower(filter);
    LowerAppend(filter, ch);
    ContainsIsSubstring(hay, n);
    ContainsIsSubstring(hay, n + [AsciiLower(ch)]);
    if IsSubstring(n + [AsciiLower(ch)], hay) {
      var i :| OccursAt(n + [AsciiLower(ch)], hay, i);
      assert hay[i..i + |n|] == hay[i..i + |n| + 1][..|n|];
      assert OccursAt(n, hay, i);
    }
  }

  lemma LowerIdempotent(s: string)
    ensures Lower(Lower(s)) == Lower(s)
  {
  }

  /** The filter ignores the case of what is typed. */
  lemma {:induction false} FilterIgnoresCase(countries: seq<Url>, filter: string)
    ensures FilteredCountries(countries, filter) == FilteredCountries(countries, Lower(filter))
    decreases |countries|
  {
    LowerIdempotent(filter);
    if countries != [] {
      FilterIgnoresCase(countries[1..], filter);
    }
  }

  // ---------------------------------------------------------------------
  // Hex colours

  predicate IsHexDigit(c: char) {
    '0' <= c <= '9' || 'a' <= c <= 'f' || 'A' <= c <= 'F'
  }

  function HexDigitValue(c: char): (v: nat)
    requires IsHexDigit(c)
    ensures v < 16
  {
    if '0' <= c <= '9' then c as int - '0' as int
    else if 'a' <= c <= 'f' then c as int - 'a' as int + 10
    else c as int - 'A' as int + 10
  }

  /** The value of a string of hex digits, or None when a character is not one. */
  function DigitsValue(digits: string): (v: Option<nat>)
    ensures v.Some? <==> forall i :: 0 <= i < |digits| ==> IsHexDigit(digits[i])
  {
    if digits == [] then Some(0)
    else
      match DigitsValue(digits[..|digits| - 1])
      case None => None
      case Some(high) =>
        var last := digits[|digits| - 1];
        if IsHexDigit(last) then Some(high * 16 + HexDigitValue(last)) else None
  }

  /** `u8::from_str_radix(src, 16)`: an empty string, a lone sign, a
      non-digit or a value above 255 is an error; one leading `+` is
      accepted. */
  function FromStrRadix16(src: string): Option<u8> {
    if src == [] then None
    else if (src[0] == '+' || src[0] == '-') && |src| == 1 then None
    else
      var digits := if src[0] == '+' then src[1..] else src;
      match DigitsValue(digits)
      case None => None
      case Some(v) => if v < U8_LIMIT then Some(v) else None
  }

  /** A two-character slice that `from_str_radix` accepts. */
  predicate PairOk(a: char, b: char) {
    IsHexDigit(b) && (IsHexDigit(a) || a == '+')
  }

  function PairValue(a: char, b: char): u8
    requires PairOk(a, b)
  {
    if a == '+' then HexDigitValue(b) else ByteValue(a, b)
  }

  /** The byte spelled by two hex digits, high digit first. */
  function ByteValue(hi: char, lo: char): u8
    requires IsHexDigit(hi) && IsHexDigit(lo)
  {
    16 * HexDigitValue(hi) + HexDigitValue(lo)
  }

  lemma ParsePair(a: char, b: char)
    ensures FromStrRadix16([a, b]).Some? <==> PairOk(a, b)
    ensures PairOk(a, b) ==> FromStrRadix16([a, b]) == Some(PairValue(a, b))
  {
    assert [a, b][..1] == [a];
    assert [a, b][1..] == [b];
    assert [b][..0] == [] && [a][..0] == [];
    assert DigitsValue([b]) == if IsHexDigit(b) then Some(HexDigitValue(b)) else None;
    assert DigitsValue([a]) == if IsHexDigit(a) then Some(HexDigitValue(a)) else None;
  }

  /** `rgb_from_hex`: a value of six characters is three hex bytes; any
      other length yields white. */
  function RgbFromHex(val: string): Option<(u8, u8, u8)> {
    if |val| == 6 then
      match FromStrRadix16(val[0..2])
      case None => None
      case Some(red) =>
        match FromStrRadix16(val[2..4])
        case None => None
        case Some(green) =>
          match FromStrRadix16(val[4..6])
          case None => None
          case Some(blue) => Some((red, green, blue))
    else Some((255, 255, 255))
  }

  /** A value whose length is not six is read as white, not as an error. */
  lemma RgbFromHexWrongLength(val: string)
    requires |val| != 6
    ensures RgbFromHex(val) == Some((255, 255, 255))
  {
  }

  /** A six-character value parses exactly when each of its three pairs
      does, and then yields the three pair values. */
  lemma RgbFromHexSix(val: string)
    requires |val| == 6
    ensures RgbFromHex(val).Some? <==> PairOk(val[0], val[1]) && PairOk(val[2], val[3]) && PairOk(val[4], val[5])
    ensures RgbFromHex(val).Some? ==>
              RgbFromHex(val) == Some((PairValue(val[0], val[1]), PairValue(val[2], val[3]), PairValue(val[4], val[5])))
  {
    assert val[0..2] == [val[0], val[1]];
    assert val[2..4] == [val[2], val[3]];
    assert val[4..6] == [val[4], val[5]];
    ParsePair(val[0], val[1]);
    ParsePair(val[2], val[3]);
    ParsePair(val[4], val[5]);
  }

  /** Six hex digits give the bytes of positions 0-2, 2-4 and 4-6. */
  lemma RgbFromHexDigits(val: string)
    requires |val| == 6
    requires forall i :: 0 <= i < 6 ==> IsHexDigit(val[i])
    ensures RgbFromHex(val) == Some((ByteValue(val[0], val[1]),
                                     ByteValue(val[2], val[3]),
                                     ByteValue(val[4], val[5])))
  {
    RgbFromHexSix(val);
  }

  /** The lowercase hex digit of a value below 16. */
  function HexDigit(d: nat): (c: char)
    requires d < 16
    ensures IsHexDigit(c) && HexDigitValue(c) == d
    ensures 'A' <= c <= 'Z' ==> false
  {
    if d < 10 then ('0' as int + d) as char else ('a' as int + d - 10) as char
  }

  function HexByte(b: u8): string {
    [HexDigit(b / 16), HexDigit(b % 16)]
  }

  /** The six-digit lowercase spelling of a colour. */
  function HexColour(red: u8, green: u8, blue: u8): (s: string)
    ensures |s| == 6
  {
    HexByte(red) + HexByte(green) + HexByte(blue)
  }

  /** Spelling a colour in hex and parsing it gives the colour back. */
  lemma HexRoundTrip(red: u8, green: u8, blue: u8)
    ensures RgbFromHex(HexColour(red, green, blue)) == Some((red, green, blue))
  {
    var s := HexColour(red, green, blue);
    assert s[0] == HexDigit(red / 16) && s[1] == HexDigit(red % 16);
    assert s[2] == HexDigit(green / 16) && s[3] == HexDigit(green % 16);
    assert s[4] == HexDigit(blue / 16) && s[5] == HexDigit(blue % 16);
    RgbFromHexDigits(s);
  }

  predicate IsLowerHexDigit(c: char) {
    '0' <= c <= '9' || 'a' <= c <= 'f'
  }

  /** Parsing six lowercase hex digits and spelling the colour again gives
      the same text. */
  lemma HexRoundTripBack(val: string)
    requires |val| == 6
    requires forall i :: 0 <= i < 6 ==> IsLowerHexDigit(val[i])
    ensures RgbFromHex(val).Some?
    ensures HexColour(RgbFromHex(val).value.0, RgbFromHex(val).value.1, RgbFromHex(val).value.2) == val
  {
    assert IsLowerHexDigit(val[0]) && IsLowerHexDigit(val[1]) && IsLowerHexDigit(val[2]);
    assert IsLowerHexDigit(val[3]) && IsLowerHexDigit(val[4]) && IsLowerHexDigit(val[5]);
    SpellBack(val);
  }

  /** The same round trip, with the six digits named one by one. */
  lemma SpellBack(val: string)
    requires |val| == 6
    requires IsLowerHexDigit(val[0]) && IsLowerHexDigit(val[1]) && IsLowerHexDigit(val[2])
    requires IsLowerHexDigit(val[3]) && IsLowerHexDigit(val[4]) && IsLowerHexDigit(val[5])
    ensures RgbFromHex(val).Some?
    ensures HexColour(RgbFromHex(val).value.0, RgbFromHex(val).value.1, RgbFromHex(val).value.2) == val
  {
    var red: u8 := ByteValue(val[0], val[1]);
    var green: u8 := ByteValue(val[2], val[3]);
    var blue: u8 := ByteValue(val[4], val[5]);
    assert RgbFromHex(val) == Some((red, green, blue)) by {
      RgbFromHexDigits(val);
    }
    SpellSix(val);
  }

  lemma SpellSix(val: string)
    requires |val| == 6
    requires IsLowerHexDigit(val[0]) && IsLowerHexDigit(val[1]) && IsLowerHexDigit(val[2])
    requires IsLowerHexDigit(val[3]) && IsLowerHexDigit(val[4]) && IsLowerHexDigit(val[5])
    ensures HexColour(ByteValue(val[0], val[1]),
                      ByteValue(val[2], val[3]),
                      ByteValue(val[4], val[5])) == val
  {
    SpellDigits(val[0], val[1], val[2], val[3], val[4], val[5]);
    SixChars(val);
  }

  /** Spelling the three byte values of six lowercase digits gives the
      digits back. */
  lemma SpellDigits(d0: char, d1: char, d2: char, d3: char, d4: char, d5: char)
    requires IsLowerHexDigit(d0) && IsLowerHexDigit(d1) && IsLowerHexDigit(d2)
    requires IsLowerHexDigit(d3) && IsLowerHexDigit(d4) && IsLowerHexDigit(d5)
    ensures HexColour(ByteValue(d0, d1),
                      ByteValue(d2, d3),
                      ByteValue(d4, d5)) == [d0, d1, d2, d3, d4, d5]
  {
    DigitBack(d0, d1);
    DigitBack(d2, d3);
    DigitBack(d4, d5);
  }

  lemma SixChars(val: string)
    requires |val| == 6
    ensures val == [val[0], val[1], val[2], val[3], val[4], val[5]]
  {
  }

  lemma DigitBack(hi: char, lo: char)
    requires IsLowerHexDigit(hi) && IsLowerHexDigit(lo)
    ensures HexByte(ByteValue(hi, lo)) == [hi, lo]
  {
    var v := ByteValue(hi, lo);
    assert v / 16 == HexDigitValue(hi) && v % 16 == HexDigitValue(lo);
  }

  // ---------------------------------------------------------------------
  // Configured colours and their fallbacks

  datatype Color = Rgb(red: u8, green: u8, blue: u8) | White | Blue

  /** The colour sections of the configuration file. */
  datatype AvailableMirrors = AvailableMirrors(
    heading: Option<string>, border: Option<string>,
    highlightFg: Option<string>, highlightBg: Option<string>, reverse: Option<bool>)

  datatype Countries = Countries(
    heading: Option<string>, border: Option<string>,
    highlightFg: Option<string>, highlightBg: Option<string>, reverse: Option<bool>)

  datatype Mirrors = Mirrors(heading: Option<string>, border: Option<string>, reverse: Option<bool>)

  datatype Info = Info(
    os: Option<string>, app: Option<string>, countries: Option<string>,
    mirrors: Option<string>, lastChecked: Option<string>, now: Option<string>)

  datatype Colours = Colours(
    actionKey: Option<string>,
    availableMirrors: Option<AvailableMirrors>,
    countries: Option<Countries>,
    mirrors: Option<Mirrors>,
    info: Option<Info>)

  /** The shape shared by every helper: the parsed colour when the value is
      set and parses, the fallback otherwise. */
  function ColourOr(value: Option<string>, fallback: Color): Color {
    match value
    case Some(col) =>
      (match RgbFromHex(col)
       case Some((red, green, blue)) => Rgb(red, green, blue)
       case None => fallback)
    case None => fallback
  }

  function ActionKeyColour(colours: Option<Colours>): Color {
    match colours
    case Some(val) => ColourOr(val.actionKey, White)
    case None => White
  }

  function HeadingColour(colours: AvailableMirrors): Color { ColourOr(colours.heading, Blue) }
  function BorderColourMirrors(colours: AvailableMirrors): Color { ColourOr(colours.border, Blue) }
  function BorderColourCountries(colours: Countries): Color { ColourOr(colours.border, Blue) }
  function HeadingColourCountries(colours: Countries): Color { ColourOr(colours.heading, Blue) }
  function OsHeader(colours: Info): Color { ColourOr(colours.os, Blue) }
  function CountriesHeader(colours: Info): Color { ColourOr(colours.countries, Blue) }
  function MirrorsHeader(colours: Info): Color { ColourOr(colours.mirrors, Blue) }
  function LastCheckedHeader(colours: Info): Color { ColourOr(colours.lastChecked, Blue) }
  function NowHeader(colours: Info): Color { ColourOr(colours.now, Blue) }
  function AppName(colours: Info): Color { ColourOr(colours.app, Blue) }

  /** A configured value that parses gives its colour; a missing one, or one
      that does not parse, gives the fallback, and only then. */
  lemma ColourOrFallsBack(value: Option<string>, fallback: Color)
    requires !fallback.Rgb?
    ensures ColourOr(value, fallback) == fallback <==> value.None? || RgbFromHex(value.value).None?
    ensures value.Some? && RgbFromHex(value.value).Some? ==>
              var (r, g, b) := RgbFromHex(value.value).value;
              ColourOr(value, fallback) == Rgb(r, g, b)
  {
  }

  /** The action-key colour falls back to white, every other helper to blue. */
  lemma ColourHelpersFallBack(c: Option<Colours>, am: AvailableMirrors, cs: Countries, info: Info)
    ensures ActionKeyColour(c) == White <==> c.None? || c.value.actionKey.None? || RgbFromHex(c.value.actionKey.value).None?
    ensures HeadingColour(am) == Blue <==> am.heading.None? || RgbFromHex(am.heading.value).None?
    ensures BorderColourMirrors(am) == Blue <==> am.border.None? || RgbFromHex(am.border.value).None?
    ensures BorderColourCountries(cs) == Blue <==> cs.border.None? || RgbFromHex(cs.border.value).None?
    ensures HeadingColourCountries(cs) == Blue <==> cs.heading.None? || RgbFromHex(cs.heading.value).None?
    ensures OsHeader(info) == Blue <==> info.os.None? || RgbFromHex(info.os.value).None?
    ensures CountriesHeader(info) == Blue <==> info.countries.None? || RgbFromHex(info.countries.value).None?
    ensures MirrorsHeader(info) == Blue <==> info.mirrors.None? || RgbFromHex(info.mirrors.value).None?
    ensures LastCheckedHeader(info) == Blue <==> info.lastChecked.None? || RgbFromHex(info.lastChecked.value).None?
    ensures NowHeader(info) == Blue <==> info.now.None? || RgbFromHex(info.now.value).None?
    ensures AppName(info) == Blue <==> info.app.None? || RgbFromHex(info.app.value).None?
  {
    if c.Some? {
      ColourOrFallsBack(c.value.actionKey, White);
    }
    ColourOrFallsBack(am.heading, Blue);
    ColourOrFallsBack(am.border, Blue);
    ColourOrFallsBack(cs.border, Blue);
    ColourOrFallsBack(cs.heading, Blue);
    ColourOrFallsBack(info.os, Blue);
    ColourOrFallsBack(info.countries, Blue);
    ColourOrFallsBack(info.mirrors, Blue);
    ColourOrFallsBack(info.lastChecked, Blue);
    ColourOrFallsBack(info.now, Blue);
    ColourOrFallsBack(info.app, Blue);
  }

  /** A configured value of the wrong length is not a fallback case: it
      paints white, even where the helper would fall back to blue. */
  lemma WrongLengthPaintsWhite(value: string, fallback: Color)
    requires |value| != 6
    ensures ColourOr(Some(value), fallback) == Rgb(255, 255, 255)
  {
  }

  // ---------------------------------------------------------------------
  // Terminal size

  const MIN_WIDTH: u16 := 52
  const MIN_HEIGHT: u16 := 28

  /** A `tui::layout::Rect`. */
  datatype Rect = Rect(x: u16, y: u16, width: u16, height: u16)

  /** The panic `check_size` raises, and the dimension it reports. */
  datatype SizeError = TooNarrow(width: u16) | TooShort(height: u16)

  /** `check_size`: the width is checked first. */
  function CheckSize(size: Rect): (r: Option<SizeError>)
    ensures r.None? <==> size.width >= MIN_WIDTH && size.height >= MIN_HEIGHT
    ensures size.width < MIN_WIDTH ==> r == Some(TooNarrow(size.width))
    ensures size.width >= MIN_WIDTH && size.height < MIN_HEIGHT ==> r == Some(TooShort(size.height))
  {
    if size.width < MIN_WIDTH then Some(TooNarrow(size.width))
    else if size.height < MIN_HEIGHT then Some(TooShort(size.height))
    else None
  }
}
