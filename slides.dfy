/**
  Resolution of the hero's slide list from the attributes of the hero element
  (js/hero-rotator.js, lines 11-34).

  The browser's `JSON.parse` and `parseInt` are not modelled: their results are
  taken as inputs (`SlidesAttr`, `ParsedCount`).
 */
module Slides {
  import opened Wrappers

  /** The `data-slides` attribute after `JSON.parse`. `Missing` covers an absent
      attribute and an empty one (both falsy, so the parse is skipped);
      `Malformed` is a string on which `JSON.parse` threw (the error is logged
      and the list stays empty). */
  datatype SlidesAttr = Missing | Malformed | Parsed(list: seq<string>)

  /** What `parseInt(..., 10)` returned for a present, non-empty `data-slide-count`. */
  datatype ParsedCount = Num(n: int) | NotANumber

  /** The attributes of the hero element that configure its slides.
      `None` is an absent attribute; `Some("")` an empty one. */
  datatype HeroAttributes = HeroAttributes(
    slides: SlidesAttr,
    slidePrefix: Option<string>,
    slideCount: Option<ParsedCount>,
    slideExt: Option<string>)

  const DefaultPrefix: string := "hero"
  const DefaultCount: int := 1
  const DefaultExt: string := "avif"

  /** A page that sets none of the attributes. */
  const NoAttributes: HeroAttributes := HeroAttributes(Missing, None, None, None)

  // ---------------------------------------------------------------------------
  // Decimal rendering of the slide number, as a template literal `${i}` does it
  // ---------------------------------------------------------------------------

  predicate IsDigit(c: char) { '0' <= c <= '9' }

  function DigitChar(d: nat): (c: char)
    requires d < 10
    ensures IsDigit(c) && c as int - '0' as int == d
  {
    (d + '0' as int) as char
  }

  /** The canonical decimal spelling of `n`: only digits, never empty, and no
      leading zero unless `n` is zero itself. */
  function DecimalString(n: nat): (s: string)
    ensures |s| >= 1
    ensures forall k :: 0 <= k < |s| ==> IsDigit(s[k])
    ensures s[0] == '0' ==> n == 0
  {
    if n < 10 then [DigitChar(n)] else DecimalString(n / 10) + [DigitChar(n % 10)]
  }

  function DigitValue(c: char): (d: nat)
    requires IsDigit(c)
    ensures d < 10 && DigitChar(d) == c
  {
    c as int - '0' as int
  }

  /** Reads a string of digits back as a number (the partner of DecimalString). */
  function DecimalValue(s: string): nat
    requires forall k :: 0 <= k < |s| ==> IsDigit(s[k])
  {
    if s == [] then 0 else DecimalValue(s[..|s| - 1]) * 10 + DigitValue(s[|s| - 1])
  }

  lemma {:induction false} DecimalRoundTrip(n: nat)
    ensures DecimalValue(DecimalString(n)) == n
  {
    var s := DecimalString(n);
    if n >= 10 {
      DecimalRoundTrip(n / 10);
      assert s[..|s| - 1] == DecimalString(n / 10);
    } else {
      assert s[..|s| - 1] == [];
    }
  }

  lemma DecimalStringInjective(m: nat, n: nat)
    requires DecimalString(m) == DecimalString(n)
    ensures m == n
  {
    DecimalRoundTrip(m);
    DecimalRoundTrip(n);
  }

  // ---------------------------------------------------------------------------
  // The synthesised list `prefix + i + "." + ext` for i = 1..count
  // ---------------------------------------------------------------------------

  /** The name of slide number `i` (1-based). */
  function SlideName(prefix: string, i: nat, ext: string): string
  {
    prefix + DecimalString(i) + "." + ext
  }

  /** The names of slides 1..count, in order; empty when count <= 0. */
  function Synthesized(prefix: string, count: int, ext: string): seq<string>
    decreases count
  {
    if count <= 0 then [] else Synthesized(prefix, count - 1, ext) + [SlideName(prefix, count, ext)]
  }

  lemma {:induction false} SynthesizedShape(prefix: string, count: int, ext: string)
    ensures |Synthesized(prefix, count, ext)| == if count > 0 then count else 0
    ensures forall k :: 0 <= k < |Synthesized(prefix, count, ext)| ==>
              Synthesized(prefix, count, ext)[k] == SlideName(prefix, k + 1, ext)
    decreases count
  {
    if count > 0 {
      SynthesizedShape(prefix, count - 1, ext);
    }
  }

  /** Two different slide numbers never produce the same name. */
  lemma SlideNameInjective(prefix: string, i: nat, j: nat, ext: string)
    requires SlideName(prefix, i, ext) == SlideName(prefix, j, ext)
    ensures i == j
  {
    var a, b := SlideName(prefix, i, ext), SlideName(prefix, j, ext);
    var di, dj := DecimalString(i), DecimalString(j);
    assert |di| == |dj|;
    assert di == a[|prefix|..|prefix| + |di|];
    assert dj == b[|prefix|..|prefix| + |dj|];
    DecimalStringInjective(i, j);
  }

  lemma SynthesizedDistinct(prefix: string, count: int, ext: string)
    ensures forall k, l :: 0 <= k < l < |Synthesized(prefix, count, ext)| ==>
              Synthesized(prefix, count, ext)[k] != Synthesized(prefix, count, ext)[l]
  {
    SynthesizedShape(prefix, count, ext);
    forall k, l | 0 <= k < l < |Synthesized(prefix, count, ext)|
      ensures Synthesized(prefix, count, ext)[k] != Synthesized(prefix, count, ext)[l]
    {
      if SlideName(prefix, k + 1, ext) == SlideName(prefix, l + 1, ext) {
        SlideNameInjective(prefix, k + 1, l + 1, ext);
      }
    }
  }

  // ---------------------------------------------------------------------------
  // Attribute defaults and the resolved list
  // ---------------------------------------------------------------------------

  /** `attr || fallback`: an absent or empty attribute gives the fallback. */
  function OrDefault(attr: Option<string>, fallback: string): (r: string)
    ensures attr == Some(r) || r == fallback
    ensures fallback != "" ==> r != ""
  {
    if attr.Some? && attr.value != "" then attr.value else fallback
  }

  /** `data-slide-prefix || "hero"`: never empty. */
  function PrefixOf(attrs: HeroAttributes): (r: string)
    ensures r != ""
    ensures r == DefaultPrefix || attrs.slidePrefix == Some(r)
  {
    OrDefault(attrs.slidePrefix, DefaultPrefix)
  }

  /** `data-slide-ext || "avif"`: never empty. */
  function ExtOf(attrs: HeroAttributes): (r: string)
    ensures r != ""
    ensures r == DefaultExt || attrs.slideExt == Some(r)
  {
    OrDefault(attrs.slideExt, DefaultExt)
  }

  /** The bound of the `i <= count` loop. An absent or empty attribute is read as
      `parseInt("1")`. `i <= NaN` is false for every `i`, exactly as `i <= 0` is for
      every `i >= 1`, so NaN acts as 0. */
  function CountOf(attrs: HeroAttributes): (r: int)
    ensures attrs.slideCount.None? ==> r == DefaultCount
    ensures attrs.slideCount == Some(NotANumber) ==> r < 1
  {
    match attrs.slideCount
    case None => DefaultCount
    case Some(Num(n)) => n
    case Some(NotANumber) => 0
  }

  /** The explicit list, when it parsed and is non-empty; otherwise nothing. */
  function ExplicitList(attrs: HeroAttributes): Option<seq<string>>
  {
    if attrs.slides.Parsed? && |attrs.slides.list| > 0 then Some(attrs.slides.list) else None
  }

  /** The slide list the component ends up with. */
  function ResolveSlides(attrs: HeroAttributes): (r: seq<string>)
    ensures attrs.slides.Parsed? && attrs.slides.list != [] ==> r == attrs.slides.list
    ensures !(attrs.slides.Parsed? && attrs.slides.list != []) ==>
              |r| == if CountOf(attrs) > 0 then CountOf(attrs) else 0
  {
    SynthesizedShape(PrefixOf(attrs), CountOf(attrs), ExtOf(attrs));
    match ExplicitList(attrs)
    case Some(list) => list
    case None => Synthesized(PrefixOf(attrs), CountOf(attrs), ExtOf(attrs))
  }

  /** A non-empty parsed list is used verbatim; otherwise (absent, malformed or
      empty list) the list has max(count, 0) entries, entry k being slide k+1. */
  lemma ResolveSlidesSpec(attrs: HeroAttributes)
    ensures attrs.slides.Parsed? && attrs.slides.list != [] ==> ResolveSlides(attrs) == attrs.slides.list
    ensures !(attrs.slides.Parsed? && attrs.slides.list != []) ==>
              |ResolveSlides(attrs)| == (if CountOf(attrs) > 0 then CountOf(attrs) else 0) &&
              forall k :: 0 <= k < |ResolveSlides(attrs)| ==>
                ResolveSlides(attrs)[k] == SlideName(PrefixOf(attrs), k + 1, ExtOf(attrs))
  {
    SynthesizedShape(PrefixOf(attrs), CountOf(attrs), ExtOf(attrs));
  }

  /** The list is empty, and the component inert, exactly when no non-empty list
      parsed and the count is not positive. */
  lemma ResolveSlidesEmpty(attrs: HeroAttributes)
    ensures ResolveSlides(attrs) == [] <==>
              !(attrs.slides.Parsed? && attrs.slides.list != []) && CountOf(attrs) <= 0
  {
    SynthesizedShape(PrefixOf(attrs), CountOf(attrs), ExtOf(attrs));
  }

  /** With no attributes at all the single slide is "hero1.avif". */
  lemma DefaultSlides()
    ensures ResolveSlides(NoAttributes) == ["hero1.avif"]
  {
    assert DecimalString(1) == "1";
    assert SlideName("hero", 1, "avif") == "hero1.avif";
    assert Synthesized("hero", 0, "avif") == [];
    assert Synthesized("hero", 1, "avif") == ["hero1.avif"];
    assert ExplicitList(NoAttributes) == None;
  }

  /** A malformed `data-slides` falls back to the prefix/count/extension path. */
  lemma MalformedFallsBack()
    ensures ResolveSlides(HeroAttributes(Malformed, Some("banner"), Some(Num(2)), Some("png")))
            == ["banner1.png", "banner2.png"]
  {
    assert DecimalString(1) == "1";
    assert DecimalString(2) == "2";
    assert SlideName("banner", 1, "png") == "banner1.png";
    assert SlideName("banner", 2, "png") == "banner2.png";
    assert Synthesized("banner", 0, "png") == [];
    assert Synthesized("banner", 1, "png") == ["banner1.png"];
    assert Synthesized("banner", 2, "png") == ["banner1.png", "banner2.png"];
  }

  /** Builds the slide list as the source does: take the parsed list, and when it
      is empty push one name per slide number 1..count. */
  method BuildImageList(attrs: HeroAttributes) returns (images: seq<string>)
    ensures images == ResolveSlides(attrs)
  {
    images := [];
    if attrs.slides.Parsed? {
      images := attrs.slides.list;
    }
    if |images| == 0 {
      var prefix := OrDefault(attrs.slidePrefix, DefaultPrefix);
      var count := CountOf(attrs);
      var ext := OrDefault(attrs.slideExt, DefaultExt);
      var i := 1;
      while i <= count
        invariant 1 <= i <= if count >= 1 then count + 1 else 1
        invariant images == Synthesized(prefix, i - 1, ext)
      {
        images := images + [SlideName(prefix, i, ext)];
        i := i + 1;
      }
      assert count < 1 ==> Synthesized(prefix, count, ext) == [];
    }
  }
}
