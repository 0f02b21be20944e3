/** `parse_other_tags` and `_overpass_regex_literal`: two escaping layers and the readers that undo them. */
module Escapes {
  import opened Wrappers

  // ----- HSTORE text

  const QUOTE := '"'
  const BACKSLASH := '\\'
  const ARROW := "\"=>\""

  /** One unit of the body pattern: a plain character, or a backslash with any character but a line feed. */
  predicate StartsUnit(s: string, n: nat) {
    || (n == 1 && |s| >= 1 && s[0] != QUOTE && s[0] != BACKSLASH)
    || (n == 2 && |s| >= 2 && s[0] == BACKSLASH && s[1] != '\n')
  }

  /** The text matches `(?:[^"\\]|\\.)*`. */
  ghost predicate IsBody(t: string) {
    t == "" || exists n: nat :: StartsUnit(t, n) && IsBody(t[n..])
  }

  /** Match the body pattern up to the quote that ends it: the body and what follows, quote included. */
  function ScanBody(s: string): (r: Option<(string, string)>)
    ensures r.Some? ==> s == r.value.0 + r.value.1 && r.value.1 != "" && r.value.1[0] == QUOTE
  {
    if s == "" then None
    else if s[0] == QUOTE then Some(("", s))
    else if s[0] == BACKSLASH then
      if |s| > 1 && s[1] != '\n' then
        match ScanBody(s[2..])
        case None => None
        case Some((body, rest)) => Some((s[..2] + body, rest))
      else None
    else
      match ScanBody(s[1..])
      case None => None
      case Some((body, rest)) => Some(([s[0]] + body, rest))
  }

  /** The regular expression has no choice: a body followed by a quote is the one `ScanBody` finds. */
  lemma {:induction false} BodyIsDeterministic(s: string, body: string, rest: string)
    requires s == body + rest && IsBody(body) && rest != "" && rest[0] == QUOTE
    ensures ScanBody(s) == Some((body, rest))
    decreases |body|
  {
    if body == "" {
      assert s == rest;
    } else {
      var n: nat :| StartsUnit(body, n) && IsBody(body[n..]);
      assert body == body[..n] + body[n..];
      assert s[..n] == body[..n] && s[n..] == body[n..] + rest;
      assert n == 1 ==> body[..n] == [s[0]];
      BodyIsDeterministic(s[n..], body[n..], rest);
    }
  }

  lemma {:induction false} ScannedIsBody(s: string)
    requires ScanBody(s).Some?
    ensures IsBody(ScanBody(s).value.0)
    decreases |s|
  {
    if s[0] != QUOTE {
      var n := if s[0] == BACKSLASH then 2 else 1;
      ScannedIsBody(s[n..]);
      var body := ScanBody(s).value.0;
      assert body[n..] == ScanBody(s[n..]).value.0;
      assert StartsUnit(body, n);
    }
  }

  /** One `"key"=>"value"` at the start of `s`, still escaped, and the text behind it. */
  function ScanPair(s: string): (r: Option<(string, string, string)>)
    ensures r.Some? ==> |r.value.2| < |s|
  {
    if s == "" || s[0] != QUOTE then None
    else match ScanBody(s[1..])
      case None => None
      case Some((key, rest)) =>
        if !(ARROW <= rest) then None
        else match ScanBody(rest[|ARROW|..])
          case None => None
          case Some((value, more)) => Some((key, value, more[1..]))
  }

  /** `findall`: leftmost matches, one behind the other. */
  function FindAll(s: string): seq<(string, string)>
    decreases |s|
  {
    if s == "" then []
    else match ScanPair(s)
      case Some((key, value, rest)) => [(key, value)] + FindAll(rest)
      case None => FindAll(s[1..])
  }

  /** Drop the backslash of every escape. */
  function Unescape(t: string): string {
    if t == "" then ""
    else if t[0] == BACKSLASH && |t| > 1 && t[1] != '\n' then [t[1]] + Unescape(t[2..])
    else [t[0]] + Unescape(t[1..])
  }

  /** A dictionary display: a later pair overrides an earlier one with the same key. */
  function ToMap(pairs: seq<(string, string)>): map<string, string> {
    if pairs == [] then map[]
    else ToMap(pairs[..|pairs| - 1])[pairs[|pairs| - 1].0 := pairs[|pairs| - 1].1]
  }

  function UnescapePairs(pairs: seq<(string, string)>): seq<(string, string)> {
    seq(|pairs|, i requires 0 <= i < |pairs| => (Unescape(pairs[i].0), Unescape(pairs[i].1)))
  }

  function ParseOtherTags(text: Option<string>): map<string, string> {
    if text.None? || text.value == "" then map[] else ToMap(UnescapePairs(FindAll(text.value)))
  }

  // ----- the printer and the round trip

  function Escape(t: string): string {
    if t == "" then ""
    else (if t[0] == QUOTE || t[0] == BACKSLASH then [BACKSLASH, t[0]] else [t[0]]) + Escape(t[1..])
  }

  function PrintPair(p: (string, string)): string {
    [QUOTE] + Escape(p.0) + ARROW + Escape(p.1) + [QUOTE]
  }

  function Print(pairs: seq<(string, string)>): string {
    if pairs == [] then ""
    else if |pairs| == 1 then PrintPair(pairs[0])
    else PrintPair(pairs[0]) + "," + Print(pairs[1..])
  }

  lemma {:induction false} EscapedIsBody(t: string)
    ensures IsBody(Escape(t))
  {
    if t != "" {
      var n := if t[0] == QUOTE || t[0] == BACKSLASH then 2 else 1;
      EscapedIsBody(t[1..]);
      assert Escape(t)[n..] == Escape(t[1..]);
      assert StartsUnit(Escape(t), n);
    }
  }

  lemma {:induction false} UnescapeInverts(t: string)
    ensures Unescape(Escape(t)) == t
  {
    if t != "" {
      UnescapeInverts(t[1..]);
      var e := Escape(t);
      if t[0] == QUOTE || t[0] == BACKSLASH {
        assert e[2..] == Escape(t[1..]);
      } else {
        assert e[1..] == Escape(t[1..]);
      }
      assert t == [t[0]] + t[1..];
    }
  }

  /** The printed pair cut where the scanner cuts it. */
  lemma CutPrinted(key: string, value: string, rest: string)
    ensures var s := [QUOTE] + key + ARROW + value + [QUOTE] + rest;
            var tail := ARROW + (value + ([QUOTE] + rest));
            && s != "" && s[0] == QUOTE && s[1..] == key + tail
            && ARROW <= tail && tail[|ARROW|..] == value + ([QUOTE] + rest)
            && ([QUOTE] + rest)[1..] == rest
  {
  }

  lemma ScanCutPair(s: string, key: string, value: string, tail: string, end: string)
    requires s != "" && s[0] == QUOTE && s[1..] == key + tail && IsBody(key)
    requires ARROW <= tail && tail[|ARROW|..] == value + end && IsBody(value)
    requires end != "" && end[0] == QUOTE
    ensures ScanPair(s) == Some((key, value, end[1..]))
  {
    assert tail[0] == ARROW[0];
    BodyIsDeterministic(s[1..], key, tail);
    BodyIsDeterministic(tail[|ARROW|..], value, end);
  }

  lemma ScanPrintedPair(p: (string, string), rest: string)
    ensures ScanPair(PrintPair(p) + rest) == Some((Escape(p.0), Escape(p.1), rest))
  {
    var key, value := Escape(p.0), Escape(p.1);
    EscapedIsBody(p.0);
    EscapedIsBody(p.1);
    CutPrinted(key, value, rest);
    ScanCutPair(PrintPair(p) + rest, key, value, ARROW + (value + ([QUOTE] + rest)), [QUOTE] + rest);
  }

  function EscapePairs(pairs: seq<(string, string)>): seq<(string, string)> {
    seq(|pairs|, i requires 0 <= i < |pairs| => (Escape(pairs[i].0), Escape(pairs[i].1)))
  }

  lemma FindAllStep(s: string, key: string, value: string, rest: string)
    requires s != "" && ScanPair(s) == Some((key, value, rest))
    ensures FindAll(s) == [(key, value)] + FindAll(rest)
  {
  }

  lemma CommaIsSkipped(t: string)
    ensures FindAll("," + t) == FindAll(t)
  {
    assert ("," + t)[1..] == t;
  }

  lemma FindAllFirst(p: (string, string), rest: string, text: string)
    requires text == PrintPair(p) + rest
    ensures FindAll(text) == [(Escape(p.0), Escape(p.1))] + FindAll(rest)
  {
    ScanPrintedPair(p, rest);
    FindAllStep(text, Escape(p.0), Escape(p.1), rest);
  }

  lemma FindAllRest(pairs: seq<(string, string)>, rest: string)
    requires pairs != [] && rest == if |pairs| == 1 then "" else "," + Print(pairs[1..])
    ensures FindAll(rest) == FindAll(Print(pairs[1..]))
  {
    if |pairs| > 1 { CommaIsSkipped(Print(pairs[1..])); }
  }

  lemma {:induction false} FindAllPrinted(pairs: seq<(string, string)>, text: string)
    requires text == Print(pairs)
    ensures FindAll(text) == EscapePairs(pairs)
    decreases |pairs|
  {
    if pairs != [] {
      var p, more := pairs[0], pairs[1..];
      var rest := if |pairs| == 1 then "" else "," + Print(more);
      PrintSplits(pairs, rest);
      FindAllFirst(p, rest, text);
      FindAllPrinted(more, Print(more));
      FindAllRest(pairs, rest);
      EscapePairsStep(pairs);
    }
  }

  lemma EscapePairsStep(pairs: seq<(string, string)>)
    requires pairs != []
    ensures EscapePairs(pairs) == [(Escape(pairs[0].0), Escape(pairs[0].1))] + EscapePairs(pairs[1..])
  {
  }

  lemma PrintSplits(pairs: seq<(string, string)>, rest: string)
    requires pairs != [] && rest == if |pairs| == 1 then "" else "," + Print(pairs[1..])
    ensures Print(pairs) == PrintPair(pairs[0]) + rest
  {
    if |pairs| > 1 {
      Associate(PrintPair(pairs[0]), ",", Print(pairs[1..]));
    } else {
      assert rest == "" && PrintPair(pairs[0]) + rest == PrintPair(pairs[0]);
    }
  }

  /** Main result: parsing printed tags gives back the mapping, whatever characters keys and values contain. */
  lemma ParseInvertsPrint(pairs: seq<(string, string)>)
    ensures ParseOtherTags(Some(Print(pairs))) == ToMap(pairs)
  {
    FindAllPrinted(pairs, Print(pairs));
    forall i | 0 <= i < |pairs| ensures UnescapePairs(EscapePairs(pairs))[i] == pairs[i] {
      UnescapeInverts(pairs[i].0);
      UnescapeInverts(pairs[i].1);
    }
    assert UnescapePairs(EscapePairs(pairs)) == pairs;
  }

  /** Of several pairs with one key the last one counts. */
  lemma {:induction false} LastPairCounts(pairs: seq<(string, string)>, i: nat)
    requires i < |pairs| && forall j :: i < j < |pairs| ==> pairs[j].0 != pairs[i].0
    ensures pairs[i].0 in ToMap(pairs) && ToMap(pairs)[pairs[i].0] == pairs[i].1
    decreases |pairs|
  {
    if i < |pairs| - 1 {
      var most := pairs[..|pairs| - 1];
      assert most[i] == pairs[i] && forall j :: i < j < |most| ==> most[j] == pairs[j];
      LastPairCounts(most, i);
    }
  }

  /** A key that no pair has is not in the mapping. */
  lemma {:induction false} OtherKeysAreAbsent(pairs: seq<(string, string)>, key: string)
    requires forall j :: 0 <= j < |pairs| ==> pairs[j].0 != key
    ensures key !in ToMap(pairs)
  {
    if pairs != [] { OtherKeysAreAbsent(pairs[..|pairs| - 1], key); }
  }

  /** The format: quoted key and value, a quote in a value behind a backslash. */
  lemma TagsExample()
    ensures ParseOtherTags(Some("\"a\"=>\"b\\\"c\"")) == map["a" := "b\"c"]
    ensures ParseOtherTags(None) == map[] && ParseOtherTags(Some("")) == map[]
  {
    var pairs := [("a", "b\"c")];
    ParseInvertsPrint(pairs);
    assert pairs[..0] == [];
    assert ToMap(pairs) == map["a" := "b\"c"];
    ExampleIsPrinted();
  }

  lemma ExampleIsPrinted()
    ensures Print([("a", "b\"c")]) == "\"a\"=>\"b\\\"c\""
  {
    var c := Escape("c");
    assert c == "c";
    assert "\"c"[1..] == "c";
    assert Escape("\"c") == "\\\"" + c;
    assert "b\"c"[1..] == "\"c";
    assert Escape("b\"c") == "b" + Escape("\"c");
    assert Escape("a") == "a";
  }

  // ----- Overpass regex literals

  /** The characters with a meaning in a regular expression. */
  predicate IsSpecial(c: char) {
    c in "\\.^$|?*+()[]{}"
  }

  function RegexEscape(name: string): string {
    if name == "" then ""
    else (if IsSpecial(name[0]) then [BACKSLASH, name[0]] else [name[0]]) + RegexEscape(name[1..])
  }

  /** `t.replace(c, replacement)` for a single character. */
  function ReplaceChar(t: string, c: char, replacement: string): string {
    if t == "" then "" else (if t[0] == c then replacement else [t[0]]) + ReplaceChar(t[1..], c, replacement)
  }

  function OverpassRegexLiteral(name: string): string {
    ReplaceChar(ReplaceChar(RegexEscape(name), BACKSLASH, [BACKSLASH, BACKSLASH]), QUOTE, [BACKSLASH, QUOTE])
  }

  /** Read the inside of a QL string up to the first unescaped quote: its value and the text behind the quote. */
  function ReadQlString(s: string): Option<(string, string)> {
    if s == "" then None
    else if s[0] == QUOTE then Some(("", s[1..]))
    else if s[0] == BACKSLASH then
      if |s| == 1 then None
      else match ReadQlString(s[2..])
        case None => None
        case Some((value, rest)) => Some(([s[1]] + value, rest))
    else match ReadQlString(s[1..])
      case None => None
      case Some((value, rest)) => Some(([s[0]] + value, rest))
  }

  /** The characters that are operators of a POSIX extended regular expression when they stand unescaped. */
  predicate IsOperator(c: char) {
    || c == '.' || c == '^' || c == '$' || c == '|' || c == '?' || c == '*' || c == '+'
    || c == '(' || c == ')' || c == '[' || c == ']' || c == '{' || c == '}'
  }

  /** The one string a regular expression without operators matches; `None` if an operator is left unescaped. */
  function LiteralOf(regex: string): Option<string> {
    if regex == "" then Some("")
    else if regex[0] == BACKSLASH then
      if |regex| == 1 then None
      else match LiteralOf(regex[2..]) case None => None case Some(t) => Some([regex[1]] + t)
    else if IsOperator(regex[0]) then None
    else match LiteralOf(regex[1..]) case None => None case Some(t) => Some([regex[0]] + t)
  }

  /** Escaped are exactly the operators and the backslash itself. */
  lemma EscapedCharacters(name: string)
    requires name != ""
    ensures RegexEscape(name)
         == (if name[0] == '\\' || IsOperator(name[0]) then ['\\', name[0]] else [name[0]]) + RegexEscape(name[1..])
  {
  }

  lemma {:induction false} RegexLayerUndone(name: string)
    ensures LiteralOf(RegexEscape(name)) == Some(name)
  {
    if name != "" {
      RegexLayerUndone(name[1..]);
      var r := RegexEscape(name);
      if IsSpecial(name[0]) {
        assert r[2..] == RegexEscape(name[1..]);
      } else {
        assert r[1..] == RegexEscape(name[1..]);
      }
      assert name == [name[0]] + name[1..];
    }
  }

  function QlEscape(t: string): string {
    ReplaceChar(ReplaceChar(t, BACKSLASH, [BACKSLASH, BACKSLASH]), QUOTE, [BACKSLASH, QUOTE])
  }

  lemma Associate(a: string, b: string, c: string)
    ensures (a + b) + c == a + (b + c)
  {
  }

  lemma {:induction false} ReplaceAppends(a: string, b: string, c: char, replacement: string)
    ensures ReplaceChar(a + b, c, replacement) == ReplaceChar(a, c, replacement) + ReplaceChar(b, c, replacement)
  {
    if a == "" {
      assert a + b == b;
    } else {
      ReplaceAppends(a[1..], b, c, replacement);
      assert (a + b)[0] == a[0] && (a + b)[1..] == a[1..] + b;
      var first := if a[0] == c then replacement else [a[0]];
      Associate(first, ReplaceChar(a[1..], c, replacement), ReplaceChar(b, c, replacement));
    }
  }

  /** The two replacements in this order escape each character on its own. */
  lemma QlEscapeStep(t: string)
    requires t != ""
    ensures QlEscape(t) == (if t[0] == BACKSLASH || t[0] == QUOTE then [BACKSLASH, t[0]] else [t[0]]) + QlEscape(t[1..])
  {
    var first := if t[0] == BACKSLASH then [BACKSLASH, BACKSLASH] else [t[0]];
    var rest := ReplaceChar(t[1..], BACKSLASH, [BACKSLASH, BACKSLASH]);
    ReplaceAppends(first, rest, QUOTE, [BACKSLASH, QUOTE]);
    if t[0] == BACKSLASH {
      assert first[1..] == [BACKSLASH];
    }
  }

  lemma {:induction false} QlLayerUndone(t: string, rest: string)
    ensures ReadQlString(QlEscape(t) + [QUOTE] + rest) == Some((t, rest))
  {
    var s := QlEscape(t) + [QUOTE] + rest;
    if t == "" {
      assert s[1..] == rest;
    } else {
      QlEscapeStep(t);
      QlLayerUndone(t[1..], rest);
      var n := if t[0] == BACKSLASH || t[0] == QUOTE then 2 else 1;
      assert s[n..] == QlEscape(t[1..]) + [QUOTE] + rest;
      assert t == [t[0]] + t[1..];
    }
  }

  /** Main result: the literal ends at its own closing quote, and undoing both layers gives the name. */
  lemma LiteralDenotesName(name: string, rest: string)
    ensures var read := ReadQlString(OverpassRegexLiteral(name) + [QUOTE] + rest);
            read.Some? && read.value.1 == rest && LiteralOf(read.value.0) == Some(name)
  {
    QlLayerUndone(RegexEscape(name), rest);
    RegexLayerUndone(name);
  }

  /** The operators of the regular expression come out behind two backslashes, a quote behind one. */
  lemma LiteralExample()
    ensures OverpassRegexLiteral("A(\"") == "A\\\\(\\\""
  {
    var regex := RegexEscape("A(\"");
    EscapedCharacters("A(\"");
    EscapedCharacters("(\"");
    EscapedCharacters("\"");
    assert "A(\""[1..] == "(\"" && "(\""[1..] == "\"" && "\""[1..] == "";
    assert regex == "A\\(\"";
    QlEscapeStep(regex);
    QlEscapeStep("\\(\"");
    QlEscapeStep("(\"");
    QlEscapeStep("\"");
    assert regex[1..] == "\\(\"" && "\\(\""[1..] == "(\"";
  }
}
