/**
 * The colour `case` of app.rb's `resolve`: the rule's colour text is
 * stripped and matched exactly, case-sensitively, against seven names;
 * anything else is white. The saturation 0.4 is kept as a symbolic tag.
 */
module Colors {

  datatype Hue = Red | Orange | Blue | Yellow | Green | Purple

  /** The single saturation the source uses for named colours (0.4). */
  datatype Saturation = Sat04

  datatype Color = Named(hue: Hue, saturation: Saturation) | White

  /** The characters Ruby's `String#strip` removes: NUL, tab, LF, VT, FF, CR and space. */
  predicate IsSpace(ch: char)
  {
    ch == '\U{0}' || ch == '\t' || ch == '\n' || ch == '\U{B}' || ch == '\U{C}' || ch == '\r' || ch == ' '
  }

  predicate AllSpace(s: string)
  {
    forall k :: 0 <= k < |s| ==> IsSpace(s[k])
  }

  /** Drops the leading whitespace. */
  function TrimStart(s: string): string
  {
    if |s| > 0 && IsSpace(s[0]) then TrimStart(s[1..]) else s
  }

  /** Drops the trailing whitespace. */
  function TrimEnd(s: string): string
  {
    if |s| > 0 && IsSpace(s[|s| - 1]) then TrimEnd(s[..|s| - 1]) else s
  }

  /** Ruby's `strip`. */
  function Strip(s: string): string
  {
    TrimEnd(TrimStart(s))
  }

  /** `TrimStart` leaves the suffix of `s` after its leading whitespace, which starts with no whitespace. */
  lemma {:induction false} TrimStartSpec(s: string)
    ensures var r := TrimStart(s);
      && |r| <= |s| && r == s[|s| - |r|..]
      && AllSpace(s[..|s| - |r|])
      && (r == [] || !IsSpace(r[0]))
  {
    if |s| > 0 && IsSpace(s[0]) {
      TrimStartSpec(s[1..]);
      var r := TrimStart(s);
      assert s[..|s| - |r|] == [s[0]] + s[1..][..|s| - 1 - |r|];
    }
  }

  /** `TrimEnd` leaves the prefix of `s` before its trailing whitespace, which ends with no whitespace. */
  lemma {:induction false} TrimEndSpec(s: string)
    ensures var r := TrimEnd(s);
      && |r| <= |s| && r == s[..|r|]
      && AllSpace(s[|r|..])
      && (r == [] || !IsSpace(r[|r| - 1]))
  {
    if |s| > 0 && IsSpace(s[|s| - 1]) {
      var t := s[..|s| - 1];
      TrimEndSpec(t);
      var r := TrimEnd(s);
      assert s[|r|..] == t[|r|..] + [s[|s| - 1]];
    }
  }

  /** `strip` leaves no whitespace at either end and never lengthens the text. */
  lemma StripSpec(s: string)
    ensures var r := Strip(s);
      (r == [] || (!IsSpace(r[0]) && !IsSpace(r[|r| - 1]))) && |r| <= |s|
  {
    var t := TrimStart(s);
    TrimStartSpec(s);
    TrimEndSpec(t);
    var r := TrimEnd(t);
    if r != [] {
      assert r[0] == t[0];
    }
  }

  /** The name the colour `case` matches for each hue. */
  function HueName(h: Hue): string
  {
    match h
    case Red => "Red"
    case Orange => "Orange"
    case Blue => "Blue"
    case Yellow => "Yellow"
    case Green => "Green"
    case Purple => "Purple"
  }

  /** The `case` on the stripped colour text. */
  function ColorNamed(name: string): Color
  {
    if name == "Red" then Named(Red, Sat04)
    else if name == "Orange" then Named(Orange, Sat04)
    else if name == "Blue" then Named(Blue, Sat04)
    else if name == "Yellow" then Named(Yellow, Sat04)
    else if name == "Green" then Named(Green, Sat04)
    else if name == "White" then White
    else if name == "Purple" then Named(Purple, Sat04)
    else White
  }

  /** The colour a rule's colour text selects. */
  function ColorOf(text: string): Color
  {
    ColorNamed(Strip(text))
  }

  /** Each hue's name selects that hue; no other name does. */
  lemma ColorNamedHue(name: string, h: Hue)
    ensures ColorNamed(name) == Named(h, Sat04) <==> name == HueName(h)
  {
    match h
    case Red =>
    case Orange =>
    case Blue =>
    case Yellow =>
    case Green =>
    case Purple =>
  }

  /**
   * A stripped hue name selects that hue at saturation 0.4; every other
   * text, "White" included, selects white.
   */
  lemma ColorOfSpec(text: string, h: Hue)
    ensures ColorOf(text) == Named(h, Sat04) <==> Strip(text) == HueName(h)
    ensures ColorOf(text) == White <==> forall g :: Strip(text) != HueName(g)
  {
    var name := Strip(text);
    ColorNamedHue(name, h);
    if ColorNamed(name) == White {
      forall g ensures name != HueName(g) {
        ColorNamedHue(name, g);
      }
    } else {
      var g := ColorNamed(name).hue;
      ColorNamedHue(name, g);
    }
  }

  lemma {:induction false} TrimStartPadded(p: string, w: string)
    requires AllSpace(p)
    requires w == [] || !IsSpace(w[0])
    ensures TrimStart(p + w) == w
  {
    if p != [] {
      assert (p + w)[1..] == p[1..] + w;
      TrimStartPadded(p[1..], w);
    }
  }

  lemma {:induction false} TrimEndPadded(w: string, q: string)
    requires AllSpace(q)
    requires w == [] || !IsSpace(w[|w| - 1])
    ensures TrimEnd(w + q) == w
  {
    if q != [] {
      assert (w + q)[..|w + q| - 1] == w + q[..|q| - 1];
      TrimEndPadded(w, q[..|q| - 1]);
    } else {
      assert w + q == w;
    }
  }

  /** Whitespace around a word is removed, and only that. */
  lemma StripPadded(p: string, w: string, q: string)
    requires AllSpace(p) && AllSpace(q)
    requires w != [] && !IsSpace(w[0]) && !IsSpace(w[|w| - 1])
    ensures Strip(p + w + q) == w
  {
    assert p + w + q == p + (w + q);
    TrimStartPadded(p, w + q);
    TrimEndPadded(w, q);
  }

  /** Each hue's name, with any surrounding whitespace, selects that hue at saturation 0.4. */
  lemma ColorOfPaddedName(p: string, h: Hue, q: string)
    requires AllSpace(p) && AllSpace(q)
    ensures ColorOf(p + HueName(h) + q) == Named(h, Sat04)
  {
    StripPadded(p, HueName(h), q);
    ColorNamedHue(HueName(h), h);
  }

  /** Text that is not exactly one of the six names, once stripped, gives plain white. */
  lemma ColorOfUnknownName(w: string)
    requires w != [] && !IsSpace(w[0]) && !IsSpace(w[|w| - 1])
    requires forall h :: w != HueName(h)
    ensures ColorOf(w) == White
  {
    StripPadded("", w, "");
    assert "" + w + "" == w;
    ColorOfSpec(w, Red);
  }

  /** "White" and the empty text give plain white; the match is case-sensitive. */
  lemma ColorOfOtherTexts()
    ensures ColorOf("White") == White
    ensures ColorOf("") == White
    ensures ColorOf("red") == White
    ensures ColorOf("PURPLE") == White
  {
    ColorOfUnknownName("White");
    ColorOfUnknownName("red");
    ColorOfUnknownName("PURPLE");
  }
}
