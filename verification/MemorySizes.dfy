/** Memory sizes as text: what is accepted, what it is worth, and how a budget is written for a JVM. */
module MemorySizes {
  import opened Wrappers

  datatype SizeError = Unparsable | LoneB

  predicate IsSpace(c: char) {
    c == ' ' || 9 <= c as int <= 13 || 28 <= c as int <= 31
  }

  predicate IsDigit(c: char) {
    '0' <= c <= '9'
  }

  function Upper(c: char): char {
    if 'a' <= c <= 'z' then (c as int - 32) as char else c
  }

  function UpperAll(s: string): (r: string)
    ensures |r| == |s|
  {
    if s == "" then "" else [Upper(s[0])] + UpperAll(s[1..])
  }

  predicate Every(s: string, p: char -> bool) {
    forall i :: 0 <= i < |s| ==> p(s[i])
  }

  /** The longest prefix of characters that satisfy `p`. */
  function Taken(s: string, p: char -> bool): string {
    if s != "" && p(s[0]) then [s[0]] + Taken(s[1..], p) else ""
  }

  /** What follows that prefix. */
  function Left(s: string, p: char -> bool): string {
    if s != "" && p(s[0]) then Left(s[1..], p) else s
  }

  lemma {:induction false} SplitsInTwo(s: string, p: char -> bool)
    ensures s == Taken(s, p) + Left(s, p)
    ensures Every(Taken(s, p), p)
    ensures Left(s, p) != "" ==> !p(Left(s, p)[0])
  {
    if s != "" && p(s[0]) { SplitsInTwo(s[1..], p); }
  }

  /** The longest prefix of a concatenation whose second part cannot extend it. */
  lemma {:induction false} Splits(a: string, b: string, p: char -> bool)
    requires Every(a, p) && (b != "" ==> !p(b[0]))
    ensures Taken(a + b, p) == a && Left(a + b, p) == b
  {
    if a == "" {
      assert a + b == b;
    } else {
      assert (a + b)[1..] == a[1..] + b;
      Splits(a[1..], b, p);
    }
  }

  // ----- the accepted spellings

  datatype Spelling = Spelling(
    lead: string, whole: string, fraction: Option<string>, gap: string, suffix: string, trail: string)

  const SUFFIXES := {"", "B", "K", "M", "G", "T", "KB", "MB", "GB", "TB"}

  function Written(w: Spelling): string {
    w.lead + FromWhole(w)
  }

  function FromWhole(w: Spelling): string {
    w.whole + FromFraction(w)
  }

  function FromFraction(w: Spelling): string {
    Fraction(w.fraction) + FromGap(w)
  }

  function FromGap(w: Spelling): string {
    w.gap + (w.suffix + w.trail)
  }

  function Fraction(f: Option<string>): string {
    match f
    case None => ""
    case Some(digits) => "." + digits
  }

  /** The pattern of a size: digits, perhaps a fraction, perhaps a unit, with blanks around and between. */
  predicate Matches(w: Spelling) {
    && Every(w.lead, IsSpace) && Every(w.gap, IsSpace) && Every(w.trail, IsSpace)
    && w.whole != "" && Every(w.whole, IsDigit)
    && (w.fraction.Some? ==> w.fraction.value != "" && Every(w.fraction.value, IsDigit))
    && UpperAll(w.suffix) in SUFFIXES
    && (w.suffix == "" ==> w.trail == "")
  }

  predicate IsMark(c: char) {
    !IsSpace(c)
  }

  function ReadSuffix(lead: string, whole: string, fraction: Option<string>, s: string): Option<Spelling> {
    var t := Left(s, IsSpace);
    var w := Spelling(lead, whole, fraction, Taken(s, IsSpace), Taken(t, IsMark), Left(t, IsMark));
    if UpperAll(w.suffix) in SUFFIXES && Left(w.trail, IsSpace) == "" then Some(w) else None
  }

  function ReadFraction(lead: string, whole: string, s: string): Option<Spelling> {
    if s != "" && s[0] == '.' && Taken(s[1..], IsDigit) != "" then
      ReadSuffix(lead, whole, Some(Taken(s[1..], IsDigit)), Left(s[1..], IsDigit))
    else
      ReadSuffix(lead, whole, None, s)
  }

  function ReadWhole(lead: string, s: string): Option<Spelling> {
    var whole := Taken(s, IsDigit);
    if whole == "" then None else ReadFraction(lead, whole, Left(s, IsDigit))
  }

  /** The pieces of a text that matches the pattern. */
  function Read(s: string): Option<Spelling> {
    ReadWhole(Taken(s, IsSpace), Left(s, IsSpace))
  }

  lemma {:induction false} UnitHasNoBlank(s: string)
    requires UpperAll(s) in SUFFIXES
    ensures Every(s, IsMark) && (s != "" ==> !IsDigit(s[0]) && s[0] != '.')
  {
    forall i | 0 <= i < |s| ensures UpperAll(s)[i] == Upper(s[i]) { UpperAt(s, i); }
    forall c | IsSpace(c) || IsDigit(c) || c == '.' ensures Upper(c) == c {}
    assert forall u, i :: u in SUFFIXES && 0 <= i < |u| ==> u[i] in "KMGTB";
    assert s != "" ==> UpperAll(s)[0] in "KMGTB";
  }

  lemma {:induction false} UpperAt(s: string, i: nat)
    requires i < |s|
    ensures UpperAll(s)[i] == Upper(s[i])
  {
    if i > 0 { UpperAt(s[1..], i - 1); }
  }

  lemma ReadSuffixInverts(w: Spelling)
    requires Matches(w)
    ensures ReadSuffix(w.lead, w.whole, w.fraction, FromGap(w)) == Some(w)
  {
    UnitHasNoBlank(w.suffix);
    Splits(w.gap, w.suffix + w.trail, IsSpace);
    Splits(w.suffix, w.trail, IsMark);
    Splits(w.trail, "", IsSpace);
    assert w.trail + "" == w.trail;
  }

  lemma GapStart(w: Spelling)
    requires Matches(w)
    ensures FromGap(w) != "" ==> !IsDigit(FromGap(w)[0]) && FromGap(w)[0] != '.'
  {
    UnitHasNoBlank(w.suffix);
    assert FromGap(w) != "" && w.gap == "" ==> w.suffix != "";
  }

  lemma AfterDot(digits: string, rest: string)
    ensures (("." + digits) + rest)[1..] == digits + rest
  {
  }

  lemma ReadFractionInverts(w: Spelling)
    requires Matches(w)
    ensures ReadFraction(w.lead, w.whole, FromFraction(w)) == Some(w)
    ensures FromFraction(w) != "" ==> !IsDigit(FromFraction(w)[0])
  {
    var rest := FromGap(w);
    GapStart(w);
    ReadSuffixInverts(w);
    if w.fraction.None? {
      assert FromFraction(w) == rest;
    } else {
      AfterDot(w.fraction.value, rest);
      Splits(w.fraction.value, rest, IsDigit);
    }
  }

  lemma DigitIsNoSpace(c: char)
    requires IsDigit(c)
    ensures !IsSpace(c)
  {
  }

  /** Reading inverts writing. */
  lemma ReadInverts(w: Spelling)
    requires Matches(w)
    ensures Read(Written(w)) == Some(w)
  {
    ReadFractionInverts(w);
    Splits(w.whole, FromFraction(w), IsDigit);
    assert FromWhole(w)[0] == w.whole[0];
    DigitIsNoSpace(w.whole[0]);
    Splits(w.lead, FromWhole(w), IsSpace);
  }

  lemma ReadSuffixIsMatch(lead: string, whole: string, fraction: Option<string>, s: string)
    requires Every(lead, IsSpace) && whole != "" && Every(whole, IsDigit)
    requires fraction.Some? ==> fraction.value != "" && Every(fraction.value, IsDigit)
    requires ReadSuffix(lead, whole, fraction, s).Some?
    ensures var w := ReadSuffix(lead, whole, fraction, s).value;
            Matches(w) && FromGap(w) == s && w.lead == lead && w.whole == whole && w.fraction == fraction
  {
    var w := ReadSuffix(lead, whole, fraction, s).value;
    SplitsInTwo(s, IsSpace);
    SplitsInTwo(Left(s, IsSpace), IsMark);
    SplitsInTwo(w.trail, IsSpace);
    assert w.trail == Taken(w.trail, IsSpace);
  }

  lemma ReadFractionIsMatch(lead: string, whole: string, s: string)
    requires Every(lead, IsSpace) && whole != "" && Every(whole, IsDigit)
    requires ReadFraction(lead, whole, s).Some?
    ensures var w := ReadFraction(lead, whole, s).value;
            Matches(w) && FromFraction(w) == s && w.lead == lead && w.whole == whole
  {
    if s != "" && s[0] == '.' && Taken(s[1..], IsDigit) != "" {
      var digits, rest := Taken(s[1..], IsDigit), Left(s[1..], IsDigit);
      SplitsInTwo(s[1..], IsDigit);
      ReadSuffixIsMatch(lead, whole, Some(digits), rest);
      Joined(s, digits, rest);
    } else {
      ReadSuffixIsMatch(lead, whole, None, s);
      assert s == "" + s;
    }
  }

  lemma Joined(s: string, digits: string, rest: string)
    requires s != "" && s[0] == '.' && s[1..] == digits + rest
    ensures s == ("." + digits) + rest
  {
    assert s == "." + s[1..];
  }

  /** Only texts that match are read, and the pieces read make up the text. */
  lemma ReadIsMatch(s: string)
    requires Read(s).Some?
    ensures Matches(Read(s).value) && Written(Read(s).value) == s
  {
    var lead, t := Taken(s, IsSpace), Left(s, IsSpace);
    SplitsInTwo(s, IsSpace);
    SplitsInTwo(t, IsDigit);
    ReadFractionIsMatch(lead, Taken(t, IsDigit), Left(t, IsDigit));
  }

  // ----- what a size is worth

  function Digits(s: string): nat
    requires Every(s, IsDigit)
  {
    if s == "" then 0 else 10 * Digits(s[..|s| - 1]) + (s[|s| - 1] as int - '0' as int)
  }

  function Power10(n: nat): (r: int)
    ensures r > 0
  {
    if n == 0 then 1 else 10 * Power10(n - 1)
  }

  datatype Unit = Kilo | Mega | Giga | Tera

  /** The unit a suffix stands for; none stands for gigabytes. */
  function UnitOf(suffix: string): Unit {
    var u := UpperAll(suffix);
    if u in {"K", "KB"} then Kilo else if u in {"M", "MB"} then Mega else if u in {"T", "TB"} then Tera else Giga
  }

  /** So many of a unit, in gigabytes. */
  function Gigabytes(amount: real, unit: Unit): real {
    match unit
    case Kilo => amount / 1048576.0
    case Mega => amount / 1024.0
    case Giga => amount
    case Tera => amount * 1024.0
  }

  function Amount(w: Spelling): real
    requires Matches(w)
  {
    Digits(w.whole) as real
    + match w.fraction
      case None => 0.0
      case Some(f) => Digits(f) as real / Power10(|f|) as real
  }

  /** Gigabytes of a text size. */
  function ParseText(s: string): Result<real, SizeError> {
    match Read(s)
    case None => Err(Unparsable)
    case Some(w) =>
      ReadIsMatch(s);
      if UpperAll(w.suffix) == "B" then Err(LoneB) else Ok(Gigabytes(Amount(w), UnitOf(w.suffix)))
  }

  /** A text has a size exactly when it matches the pattern with a unit other than a lone B. */
  lemma SizedIffMatched(s: string)
    ensures ParseText(s).Ok? <==> exists w :: Matches(w) && Written(w) == s && UpperAll(w.suffix) != "B"
    ensures ParseText(s) == Err(LoneB) <==> exists w :: Matches(w) && Written(w) == s && UpperAll(w.suffix) == "B"
  {
    if Read(s).Some? { ReadIsMatch(s); }
    forall w | Matches(w) && Written(w) == s ensures Read(s) == Some(w) { ReadInverts(w); }
  }

  // ----- how a size is written

  function Larger(a: int, b: int): int { if a >= b then a else b }

  function Decimal(n: nat): (s: string)
    ensures s != "" && Every(s, IsDigit)
  {
    var digit := [('0' as int + n % 10) as char];
    if n < 10 then digit else Decimal(n / 10) + digit
  }

  lemma {:induction false} DecimalInverts(n: nat)
    ensures Digits(Decimal(n)) == n
  {
    var s := Decimal(n);
    if n >= 10 {
      DecimalInverts(n / 10);
      assert s[..|s| - 1] == Decimal(n / 10);
    }
  }

  /** Whole gigabytes, rounded down, at least one. */
  function WholeGigabytes(gb: real): (n: nat)
    ensures n == Larger(1, gb.Floor)
  {
    Larger(1, gb.Floor)
  }

  function Format(gb: real): string {
    Decimal(WholeGigabytes(gb)) + "G"
  }

  /** A whole number of some unit, written without blanks. */
  function Counted(n: nat, suffix: string): Spelling {
    Spelling("", Decimal(n), None, "", suffix, "")
  }

  lemma CountedIsWritten(n: nat, suffix: string)
    requires UpperAll(suffix) in SUFFIXES
    ensures Matches(Counted(n, suffix)) && Written(Counted(n, suffix)) == Decimal(n) + suffix
  {
    var w := Counted(n, suffix);
    assert FromGap(w) == suffix;
    assert FromFraction(w) == suffix;
  }

  lemma CountedAmount(n: nat, suffix: string)
    requires Matches(Counted(n, suffix))
    ensures Amount(Counted(n, suffix)) == n as real
  {
    DecimalInverts(n);
  }

  /** A number followed by a unit is that many of the unit, whatever the case of its letters. */
  lemma CountedParses(n: nat, suffix: string)
    requires UpperAll(suffix) in SUFFIXES && UpperAll(suffix) != "B"
    ensures ParseText(Decimal(n) + suffix) == Ok(Gigabytes(n as real, UnitOf(suffix)))
  {
    CountedIsWritten(n, suffix);
    CountedAmount(n, suffix);
    ReadInverts(Counted(n, suffix));
  }

  /** Each unit is 1024 of the one before, and a number without a unit counts gigabytes. */
  lemma UnitsAreBinary(amount: real)
    ensures Gigabytes(1024.0 * amount, Kilo) == Gigabytes(amount, Mega)
    ensures Gigabytes(1024.0 * amount, Mega) == Gigabytes(amount, Giga) == amount
    ensures Gigabytes(1024.0 * amount, Giga) == Gigabytes(amount, Tera)
    ensures UnitOf("") == UnitOf("G") == UnitOf("g") == UnitOf("GB") == Giga
  {
    assert UpperAll("") == "" && UpperAll("G") == "G" && UpperAll("g") == "G" && UpperAll("GB") == "GB";
  }

  // ----- values spelled out

  /** Blanks are the space, tabulators, line feed, form feed, carriage return and the four separators of ASCII. */
  lemma BlankCharacters(c: char)
    ensures IsSpace(c) <==> c == ' ' || c == '\t' || c == '\n' || c == '\r' || c as int in {11, 12, 28, 29, 30, 31}
  {
  }

  /** Letters are raised one by one; all else stays. */
  lemma UpperLetters(c: char, i: nat)
    requires i < 26
    ensures Upper("abcdefghijklmnopqrstuvwxyz"[i]) == "ABCDEFGHIJKLMNOPQRSTUVWXYZ"[i]
    ensures c !in "abcdefghijklmnopqrstuvwxyz" ==> Upper(c) == c
  {
    var small := "abcdefghijklmnopqrstuvwxyz";
    assert forall k :: 0 <= k < 26 ==> small[k] as int == 'a' as int + k;
    if 'a' <= c <= 'z' { assert small[c as int - 'a' as int] == c; }
  }

  /** The suffixes of each unit, in either case of their letters. */
  predicate MeansKilobytes(u: string) { u in {"K", "k", "KB", "kB", "Kb", "kb"} }
  predicate MeansMegabytes(u: string) { u in {"M", "m", "MB", "mB", "Mb", "mb"} }
  predicate MeansGigabytes(u: string) { u in {"", "G", "g", "GB", "gB", "Gb", "gb"} }
  predicate MeansTerabytes(u: string) { u in {"T", "t", "TB", "tB", "Tb", "tb"} }

  /** So many of the unit, in gigabytes. */
  predicate IsWorth(gb: real, amount: real, u: string) {
    && (MeansKilobytes(u) ==> gb == amount / 1048576.0)
    && (MeansMegabytes(u) ==> gb == amount / 1024.0)
    && (MeansGigabytes(u) ==> gb == amount)
    && (MeansTerabytes(u) ==> gb == amount * 1024.0)
  }

  lemma UpperOfShort(u: string)
    ensures |u| == 0 ==> UpperAll(u) == ""
    ensures |u| == 1 ==> UpperAll(u) == [Upper(u[0])]
    ensures |u| == 2 ==> UpperAll(u) == [Upper(u[0]), Upper(u[1])]
  {
  }

  lemma UnitIsMeant(u: string, amount: real)
    requires MeansKilobytes(u) || MeansMegabytes(u) || MeansGigabytes(u) || MeansTerabytes(u)
    ensures UpperAll(u) in SUFFIXES && UpperAll(u) != "B"
    ensures IsWorth(Gigabytes(amount, UnitOf(u)), amount, u)
  {
    UpperOfShort(u);
  }

  /** No other suffix is accepted but a lone B, which is rejected for itself. */
  lemma AcceptedUnits(u: string)
    ensures UpperAll(u) in SUFFIXES && UpperAll(u) != "B" <==>
            MeansKilobytes(u) || MeansMegabytes(u) || MeansGigabytes(u) || MeansTerabytes(u)
    ensures UpperAll(u) == "B" <==> u == "B" || u == "b"
  {
    UpperOfShort(u);
    if |u| == 1 { assert u == [u[0]]; }
    if |u| == 2 { assert u == [u[0], u[1]]; }
  }

  /** A number and a unit: "512M" is half a gigabyte. */
  lemma CountedSize(n: nat, u: string)
    requires MeansKilobytes(u) || MeansMegabytes(u) || MeansGigabytes(u) || MeansTerabytes(u)
    ensures ParseText(Decimal(n) + u).Ok? && IsWorth(ParseText(Decimal(n) + u).value, n as real, u)
  {
    UnitIsMeant(u, n as real);
    CountedParses(n, u);
  }

  /** Numbers are written in base ten. */
  lemma DecimalNotation(n: nat, d: nat)
    requires d < 10
    ensures Decimal(d) == ["0123456789"[d]]
    ensures n > 0 ==> Decimal(10 * n + d) == Decimal(n) + ["0123456789"[d]]
  {
    assert (10 * n + d) % 10 == d && (10 * n + d) / 10 == n;
  }

  /** A text without blanks: digits, and behind a point the fraction if there is one. */
  function Fractional(whole: string, fraction: string, u: string): Spelling {
    Spelling("", whole, if fraction == "" then None else Some(fraction), "", u, "")
  }

  function Dotted(fraction: string): string {
    if fraction == "" then "" else "." + fraction
  }

  lemma FractionalIsRead(whole: string, fraction: string, u: string)
    requires whole != "" && Every(whole, IsDigit) && Every(fraction, IsDigit)
    requires UpperAll(u) in SUFFIXES && UpperAll(u) != "B"
    ensures var w := Fractional(whole, fraction, u);
            Matches(w) && ParseText(whole + Dotted(fraction) + u) == Ok(Gigabytes(Amount(w), UnitOf(u)))
  {
    var w := Fractional(whole, fraction, u);
    assert Matches(w);
    assert FromGap(w) == u;
    assert Fraction(w.fraction) == Dotted(fraction);
    assert FromFraction(w) == Dotted(fraction) + u;
    assert Written(w) == whole + (Dotted(fraction) + u);
    assert whole + Dotted(fraction) + u == whole + (Dotted(fraction) + u);
    ReadInverts(w);
  }

  lemma DigitsAppend(s: string, c: char)
    requires Every(s, IsDigit) && IsDigit(c)
    ensures Every(s + [c], IsDigit) && Digits(s + [c]) == 10 * Digits(s) + (c as int - '0' as int)
  {
    assert (s + [c])[..|s|] == s;
  }

  lemma Regroup(c: char, s: string)
    requires s != ""
    ensures [c] + s == ([c] + s[..|s| - 1]) + [s[|s| - 1]] && s == s[..|s| - 1] + [s[|s| - 1]]
  {
  }

  lemma {:induction false} DigitsPrepend(c: char, s: string, power: int)
    requires Every(s, IsDigit) && IsDigit(c) && power == Power10(|s|)
    ensures Every([c] + s, IsDigit) && Digits([c] + s) == (c as int - '0' as int) * power + Digits(s)
    decreases |s|
  {
    if s == "" {
      assert [c] + s == "" + [c];
      DigitsAppend("", c);
    } else {
      var front, last, less := s[..|s| - 1], s[|s| - 1], Power10(|s| - 1);
      DigitsPrepend(c, front, less);
      Regroup(c, s);
      DigitsAppend([c] + front, last);
      DigitsAppend(front, last);
      OneMorePlace(c as int - '0' as int, less, Digits(front), last as int - '0' as int);
    }
  }

  lemma OneMorePlace(d: int, power: int, f: int, last: int)
    ensures 10 * (d * power + f) + last == d * (10 * power) + (10 * f + last)
  {
  }

  /** Moving the point behind the next digit multiplies a size by ten: "1.5G" is a tenth of "15G". */
  lemma PointMoves(whole: string, c: char, fraction: string, u: string)
    requires whole != "" && Every(whole, IsDigit) && IsDigit(c) && Every(fraction, IsDigit)
    requires MeansKilobytes(u) || MeansMegabytes(u) || MeansGigabytes(u) || MeansTerabytes(u)
    ensures var small, large := ParseText(whole + "." + ([c] + fraction) + u), ParseText((whole + [c]) + Dotted(fraction) + u);
            small.Ok? && large.Ok? && large.value == 10.0 * small.value
  {
    UnitIsMeant(u, 0.0);
    FractionalIsRead(whole, [c] + fraction, u);
    FractionalIsRead(whole + [c], fraction, u);
    assert whole + "." + ([c] + fraction) + u == whole + Dotted([c] + fraction) + u by {
      assert whole + "." + ([c] + fraction) == whole + ("." + ([c] + fraction));
    }
    TenfoldAmount(whole, c, fraction, u);
    TenfoldGigabytes(Amount(Fractional(whole, [c] + fraction, u)), UnitOf(u));
  }

  lemma TenfoldGigabytes(amount: real, unit: Unit)
    ensures Gigabytes(10.0 * amount, unit) == 10.0 * Gigabytes(amount, unit)
  {
  }

  lemma TenfoldAmount(whole: string, c: char, fraction: string, u: string)
    requires whole != "" && Every(whole, IsDigit) && IsDigit(c) && Every(fraction, IsDigit) && UpperAll(u) in SUFFIXES
    ensures Matches(Fractional(whole + [c], fraction, u)) && Matches(Fractional(whole, [c] + fraction, u))
    ensures Amount(Fractional(whole + [c], fraction, u)) == 10.0 * Amount(Fractional(whole, [c] + fraction, u))
  {
    DigitsAppend(whole, c);
    DigitsPrepend(c, fraction, Power10(|fraction|));
    var a, d, f, p := Digits(whole), c as int - '0' as int, Digits(fraction), Power10(|fraction|);
    ShiftedFraction(a, d, f, p);
    assert Power10(|[c] + fraction|) == 10 * p;
    if fraction == "" { assert f == 0 && p == 1; }
  }

  lemma ShiftedFraction(a: int, d: int, f: int, p: int)
    requires p > 0
    ensures (10 * a + d) as real + f as real / p as real == 10.0 * (a as real + (d * p + f) as real / (10 * p) as real)
  {
    var x, y := f as real / p as real, (d * p + f) as real / (10 * p) as real;
    assert (d * p + f) as real == d as real * p as real + f as real;
    assert (10 * p) as real == 10.0 * p as real;
    assert x * p as real == f as real;
    assert y * (10.0 * p as real) == d as real * p as real + x * p as real;
    Cancel(10.0 * y, d as real + x, p as real);
  }

  lemma Cancel(x: real, y: real, factor: real)
    requires factor > 0.0 && x * factor == y * factor
    ensures x == y
  {
    assert (x - y) * factor == 0.0;
  }

  lemma FifteenWritten()
    ensures Decimal(15) == "15"
  {
    DecimalNotation(0, 1);
    DecimalNotation(1, 5);
    assert Decimal(10 * 1 + 5) == "1" + "5";
  }

  /** "1.5G" is one and a half. */
  lemma OneAndAHalf()
    ensures ParseText("1.5G") == Ok(1.5)
  {
    FifteenWritten();
    CountedSize(15, "G");
    PointMoves("1", '5', "", "G");
    SamePoint();
  }

  lemma SamePoint()
    ensures "1" + "." + (['5'] + "") + "G" == "1.5G" && ("1" + ['5']) + Dotted("") + "G" == "15" + "G"
  {
  }

  /** Blanks around and between the pieces change nothing. */
  lemma BlanksDoNotMatter(w: Spelling)
    requires Matches(w)
    ensures var bare := w.(lead := "", gap := "", trail := "");
            Matches(bare) && ParseText(Written(w)) == ParseText(Written(bare))
  {
    ReadInverts(w);
    ReadInverts(w.(lead := "", gap := "", trail := ""));
  }

  /** A written size reads back as whole gigabytes, never more than asked for unless less than one was. */
  lemma FormatParses(gb: real)
    ensures ParseText(Format(gb)) == Ok(WholeGigabytes(gb) as real)
    ensures WholeGigabytes(gb) as real <= if gb >= 1.0 then gb else 1.0
  {
    assert UpperAll("G") == "G";
    CountedParses(WholeGigabytes(gb), "G");
    UnitsAreBinary(WholeGigabytes(gb) as real);
  }
}
