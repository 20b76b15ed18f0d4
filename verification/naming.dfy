/**
 File names of saved figures, `f"page{page_num}_fig{group_num}_hash{h[:8]}.png"`,
 with Python's decimal rendering of non-negative integers, and the parser
 that recovers the three fields from a name.
 */
module Naming {
  import opened Options

  predicate IsDigit(c: char) { '0' <= c <= '9' }

  predicate AllDigits(s: string) { forall i :: 0 <= i < |s| ==> IsDigit(s[i]) }

  function DigitChar(d: nat): (c: char)
    requires d < 10
    ensures IsDigit(c)
  {
    ['0', '1', '2', '3', '4', '5', '6', '7', '8', '9'][d]
  }

  function DigitValue(c: char): (d: nat)
    requires IsDigit(c)
    ensures d < 10
  {
    (c as int - '0' as int) as nat
  }

  lemma DigitRoundTrip(d: nat)
    requires d < 10
    ensures DigitValue(DigitChar(d)) == d
  {
  }

  /** `str(n)` for `n >= 0`: decimal digits, most significant first, with no
      leading zero except for `0` itself. */
  function Decimal(n: nat): (s: string)
    ensures |s| > 0 && AllDigits(s)
    ensures |s| > 1 ==> s[0] != '0'
  {
    if n < 10 then [DigitChar(n)]
    else
      var s := Decimal(n / 10) + [DigitChar(n % 10)];
      assert s[0] == Decimal(n / 10)[0];
      s
  }

  /** `int(s)` for a string of decimal digits (the empty string reads as 0
      here; `int` would raise). */
  function ParseDecimal(s: string): nat
    requires AllDigits(s)
  {
    if |s| == 0 then 0
    else ParseDecimal(s[..|s| - 1]) * 10 + DigitValue(s[|s| - 1])
  }

  /** Reading back the decimal rendering gives the number. */
  lemma {:induction false} DecimalRoundTrip(n: nat)
    ensures ParseDecimal(Decimal(n)) == n
  {
    var s := Decimal(n);
    if n < 10 {
      DigitRoundTrip(n);
      assert s[..0] == [];
    } else {
      DecimalRoundTrip(n / 10);
      DigitRoundTrip(n % 10);
      assert s[..|s| - 1] == Decimal(n / 10);
    }
  }

  /** Distinct numbers have distinct renderings. */
  lemma DecimalInjective(m: nat, n: nat)
    ensures Decimal(m) == Decimal(n) ==> m == n
  {
    DecimalRoundTrip(m);
    DecimalRoundTrip(n);
  }

  /** `h[:8]`. */
  function Prefix8(h: string): (p: string)
    ensures |p| == if |h| < 8 then |h| else 8
    ensures p <= h
  {
    if |h| < 8 then h else h[..8]
  }

  /** `f"page{page_num}_fig{group_num}_hash{h[:8]}.png"`. */
  function FigureName(page: nat, fig: nat, hash: string): string
  {
    "page" + Decimal(page) + "_fig" + Decimal(fig) + "_hash" + Prefix8(hash) + ".png"
  }

  /** The fields of a figure file name. */
  datatype NameParts = NameParts(page: nat, fig: nat, hash: string)

  /** The longest prefix of decimal digits, and what follows it. */
  function SplitDigits(s: string): (p: (string, string))
    ensures AllDigits(p.0) && p.0 + p.1 == s
    ensures |p.1| > 0 ==> !IsDigit(p.1[0])
  {
    if |s| > 0 && IsDigit(s[0]) then
      var (d, rest) := SplitDigits(s[1..]);
      assert [s[0]] + d + rest == s;
      ([s[0]] + d, rest)
    else ([], s)
  }

  /** Splitting digits followed by a non-digit separates them exactly. */
  lemma {:induction false} SplitDigitsOf(d: string, rest: string)
    requires AllDigits(d)
    requires |rest| > 0 ==> !IsDigit(rest[0])
    ensures SplitDigits(d + rest) == (d, rest)
  {
    if |d| > 0 {
      SplitDigitsOf(d[1..], rest);
      assert (d + rest)[1..] == d[1..] + rest;
      assert [d[0]] + d[1..] == d;
    } else {
      assert d + rest == rest;
    }
  }

  /** `s` starts with `p`; the remainder after it. */
  function DropPrefix(p: string, s: string): Option<string>
  {
    if p <= s then Some(s[|p|..]) else None
  }

  /** Recover page number, figure number and hash prefix from a name;
      `None` when the name does not have the figure-name shape. */
  function ParseFigureName(name: string): Option<NameParts>
  {
    match DropPrefix("page", name)
    case None => None
    case Some(a) =>
      var (pg, b) := SplitDigits(a);
      match DropPrefix("_fig", b)
      case None => None
      case Some(c) =>
        var (fg, e) := SplitDigits(c);
        match DropPrefix("_hash", e)
        case None => None
        case Some(h) =>
          if |pg| > 0 && |fg| > 0 && |h| >= 4 && h[|h| - 4..] == ".png" then
            Some(NameParts(ParseDecimal(pg), ParseDecimal(fg), h[..|h| - 4]))
          else None
  }

  lemma DropPrefixOf(p: string, rest: string)
    ensures DropPrefix(p, p + rest) == Some(rest)
  {
    assert p <= p + rest;
    assert (p + rest)[|p|..] == rest;
  }

  /** What follows the page number, `_fig{n}_hash{h}.png`, and what follows
      the figure number. */
  function AfterPage(df: string, h: string): string { "_fig" + AfterFig(df, h) }
  function AfterFig(df: string, h: string): string { df + ("_hash" + (h + ".png")) }

  lemma FigureNameShape(page: nat, fig: nat, hash: string)
    ensures FigureName(page, fig, hash) == "page" + (Decimal(page) + AfterPage(Decimal(fig), Prefix8(hash)))
  {
  }

  /** Parsing what follows `page`: the figure number and the hash. */
  lemma ParseAfterPage(df: string, h: string)
    requires |df| > 0 && AllDigits(df)
    ensures DropPrefix("_fig", AfterPage(df, h)) == Some(AfterFig(df, h))
    ensures SplitDigits(AfterFig(df, h)) == (df, "_hash" + (h + ".png"))
    ensures DropPrefix("_hash", "_hash" + (h + ".png")) == Some(h + ".png")
  {
    DropPrefixOf("_fig", AfterFig(df, h));
    var tail := "_hash" + (h + ".png");
    assert tail[0] == '_';
    SplitDigitsOf(df, tail);
    DropPrefixOf("_hash", h + ".png");
  }

  /** Every figure name parses back to its page number, figure number and
      the first eight characters of the hash. */
  lemma FigureNameRoundTrip(page: nat, fig: nat, hash: string)
    ensures ParseFigureName(FigureName(page, fig, hash)) == Some(NameParts(page, fig, Prefix8(hash)))
  {
    var dp, df, h := Decimal(page), Decimal(fig), Prefix8(hash);
    var tail1 := AfterPage(df, h);
    FigureNameShape(page, fig, hash);
    DropPrefixOf("page", dp + tail1);
    assert tail1[0] == '_';
    SplitDigitsOf(dp, tail1);
    ParseAfterPage(df, h);
    var hp := h + ".png";
    assert hp[|hp| - 4..] == ".png" && hp[..|hp| - 4] == h;
    DecimalRoundTrip(page);
    DecimalRoundTrip(fig);
  }

  /** Names determine their fields: two figures get the same name only when
      page, figure number and hash prefix all agree. */
  lemma FigureNameInjective(p1: nat, f1: nat, h1: string, p2: nat, f2: nat, h2: string)
    ensures FigureName(p1, f1, h1) == FigureName(p2, f2, h2) <==>
      p1 == p2 && f1 == f2 && Prefix8(h1) == Prefix8(h2)
  {
    FigureNameRoundTrip(p1, f1, h1);
    FigureNameRoundTrip(p2, f2, h2);
  }

  lemma DecimalExamples()
    ensures Decimal(3) == "3" && Decimal(12) == "12"
  {
    assert Decimal(1) == "1";
  }

  lemma FigureNameExample()
    ensures FigureName(3, 12, "0123456789abcdef0123456789abcdef") == "page3_fig12_hash01234567.png"
  {
    DecimalExamples();
    var h := "0123456789abcdef0123456789abcdef";
    assert Prefix8(h) == h[..8] == "01234567";
  }
}
