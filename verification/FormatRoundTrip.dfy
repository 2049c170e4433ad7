/**
 Parsing inverts printing, exactly when no r specifier is followed by an h or x.
 */
module FormatRoundTrip {
  import opened Prelude
  import opened Numerals
  import opened FormatRegex
  import opened FormatStrings

  // What each part of the pattern takes from a printed specifier.

  lemma {:induction false} DigitRunOf(x: string, t: string)
    requires AllDecimal(x) && (t == "" || !IsDecimalDigit(t[0]))
    ensures DigitRun(x + t) == |x|
  {
    if x == "" {
      assert x + t == t;
    } else {
      assert (x + t)[1..] == x[1..] + t;
      DigitRunOf(x[1..], t);
    }
  }

  lemma {:induction false} ModifierRunOf(x: string, t: string)
    requires (forall i :: 0 <= i < |x| ==> IsModifier(x[i])) && (t == "" || !IsModifier(t[0]))
    ensures ModifierRun(x + t) == |x|
  {
    if x == "" {
      assert x + t == t;
    } else {
      assert (x + t)[1..] == x[1..] + t;
      ModifierRunOf(x[1..], t);
    }
  }

  // t cannot begin with something that part k or an earlier one takes.
  predicate Beyond(k: nat, t: string) {
    t != "" && Rank(t[0]) > k
  }

  lemma FlagTakes(k: nat, isSet: bool, t: string)
    requires 1 <= k <= 5 && Beyond(k, t)
    ensures var x := if isSet then [PATTERN[k].c] else "";
            Ends(PATTERN[k], x + t) != [] && Ends(PATTERN[k], x + t)[0] == |x|
  {
    if !isSet {
      assert "" + t == t;
    }
  }

  lemma WidthTakes(x: string, t: string)
    requires AllDecimal(x) && Beyond(6, t)
    ensures Ends(Width, x + t) != [] && Ends(Width, x + t)[0] == |x|
  {
    DigitRunOf(x, t);
    if x == "" {
      assert x + t == t;
    } else {
      assert (x + t)[0] == x[0];
    }
  }

  lemma PrecisionTakes(x: string, t: string)
    requires AllDecimal(x) && x != "" && Beyond(7, t)
    ensures Ends(Precision, ("." + x) + t) != [] && Ends(Precision, ("." + x) + t)[0] == |x| + 1
  {
    DigitRunOf(x, t);
    var s := ("." + x) + t;
    assert s[1..] == x + t;
    assert s[1] == x[0];
  }

  lemma NoPrecisionTakes(t: string)
    requires Beyond(7, t)
    ensures Ends(Precision, "" + t) != [] && Ends(Precision, "" + t)[0] == 0
  {
    assert "" + t == t;
  }

  // The text after an r specifier does not extend it.
  predicate Separate(specifier: string, u: string) {
    specifier == "r" ==> u == "" || (u[0] != 'h' && u[0] != 'x')
  }

  // What each part may be.
  predicate InGrammar(k: nat, x: string) {
    if k == 0 then x == "%"
    else if k == 1 then x == "" || x == "-"
    else if k == 2 then x == "" || x == "+"
    else if k == 3 then x == "" || x == " "
    else if k == 4 then x == "" || x == "#"
    else if k == 5 then x == "" || x == "0"
    else if k == 6 then x == "*" || AllDecimal(x)
    else if k == 7 then x == "" || x == ".*" || (|x| > 1 && x[0] == '.' && AllDecimal(x[1..]))
    else if k == 8 then AllLengths(x)
    else IsSpecifierText(x)
  }

  // The parts of a specifier.  The first zero before the width is the flag.
  predicate IsSpecText(parts: seq<string>) {
    && |parts| == 10 && (forall k :: 0 <= k < 10 ==> InGrammar(k, parts[k]))
    && (parts[6] != "" && parts[6][0] == '0' ==> parts[5] == "0")
  }

  lemma SpecifierTakes(x: string, u: string)
    requires InGrammar(9, x) && Separate(x, u)
    ensures Ends(Specifier, x + u) != [] && Ends(Specifier, x + u)[0] == |x|
    ensures Beyond(8, x + u)
  {
    var s := x + u;
    assert s[0] == x[0];
    if |x| == 2 {
      assert s[1] == x[1];
    } else if u != "" {
      assert s[1] == u[0];
    }
  }

  lemma PercentTakes(t: string)
    ensures Ends(Percent, "%" + t) != [] && Ends(Percent, "%" + t)[0] == 1
  {
  }

  lemma ModifiersTake(x: string, t: string)
    requires AllLengths(x) && Beyond(8, t)
    ensures Ends(Modifiers, x + t) != [] && Ends(Modifiers, x + t)[0] == |x|
  {
    assert forall i :: 0 <= i < |x| ==> IsLength(x[i]);
    ModifierRunOf(x, t);
  }

  // A zero flag takes a zero, whatever follows it.
  predicate Takes(k: nat, x: string, t: string) {
    Beyond(k, t) || (k == 5 && x == "0")
  }

  lemma PartTakes(k: nat, x: string, t: string)
    requires k <= 8 && InGrammar(k, x) && Takes(k, x, t)
    ensures Ends(PATTERN[k], x + t) != [] && Ends(PATTERN[k], x + t)[0] == |x|
  {
    hide Ends, Rank;
    if k == 0 {
      PercentTakes(t);
    } else if k == 5 && x == "0" {
      ZeroTakes(t);
    } else if k <= 5 {
      FlagTakes(k, x != "", t);
    } else if k == 6 {
      if x == "*" {
        StarTakes(t);
      } else {
        WidthTakes(x, t);
      }
    } else if k == 7 {
      if x == ".*" {
        DotStarTakes(t);
      } else if x != "" {
        assert x == "." + x[1..];
        PrecisionTakes(x[1..], t);
      } else {
        NoPrecisionTakes(t);
      }
    } else {
      ModifiersTake(x, t);
    }
  }

  lemma ZeroTakes(t: string)
    ensures Ends(PATTERN[5], "0" + t) != [] && Ends(PATTERN[5], "0" + t)[0] == 1
  {
  }

  lemma StarTakes(t: string)
    ensures Ends(Width, "*" + t) != [] && Ends(Width, "*" + t)[0] == 1
  {
  }

  lemma DotStarTakes(t: string)
    ensures Ends(Precision, ".*" + t) != [] && Ends(Precision, ".*" + t)[0] == 2
  {
    assert (".*" + t)[0] == '.' && (".*" + t)[1] == '*';
  }

  lemma PartRank(k: nat, x: string, t: string)
    requires 1 <= k <= 8 && InGrammar(k, x) && Takes(k, x, t)
    requires k == 6 && x != "" ==> x[0] != '0'
    ensures Beyond(k - 1, x + t)
  {
    if x == "" {
      assert x + t == t;
    } else {
      assert (x + t)[0] == x[0];
      assert k == 8 ==> IsLength(x[0]);
      assert k == 6 && x != "*" ==> IsDecimalDigit(x[0]);
    }
  }

  lemma GreedyTakes(k: nat, x: string, t: string)
    requires k < 10 && Ends(PATTERN[k], x + t) != [] && Ends(PATTERN[k], x + t)[0] == |x|
    requires Greedy(From(k + 1), t).Some?
    ensures Greedy(From(k), x + t) == Some([x] + Greedy(From(k + 1), t).value)
  {
    assert (x + t)[..|x|] == x && (x + t)[|x|..] == t;
  }

  // The greedy scan of a specifier finds its parts.
  lemma {:induction false} GreedyOfText(parts: seq<string>, k: nat, u: string)
    requires IsSpecText(parts) && k <= 9 && Separate(parts[9], u)
    ensures Greedy(From(k), Concat(parts[k..]) + u) == Some(parts[k..])
    ensures k == 0 || Beyond(k - 1, Concat(parts[k..]) + u) || (k == 6 && parts[5] == "0")
    decreases 9 - k
  {
    hide Ends, Greedy, InGrammar, Rank;
    var t := Concat(parts[k + 1..]) + u;
    assert parts[k..] == [parts[k]] + parts[k + 1..];
    assert Concat(parts[k..]) + u == parts[k] + t;
    assert InGrammar(k, parts[k]);
    if k == 9 {
      assert parts[10..] == [];
      assert t == u;
      SpecifierTakes(parts[9], u);
      NothingLeft(u);
      GreedyTakes(9, parts[9], t);
    } else {
      GreedyOfText(parts, k + 1, u);
      PartTakes(k, parts[k], t);
      GreedyTakes(k, parts[k], t);
      if k > 0 && !(k == 6 && parts[5] == "0") {
        PartRank(k, parts[k], t);
      }
    }
  }

  lemma {:induction false} LengthOfConcat(parts: seq<string>)
    ensures TotalLength(parts) == |Concat(parts)|
  {
    if parts != [] {
      LengthOfConcat(parts[1..]);
    }
  }

  // Conversely, the scan finds nothing but specifiers.

  predicate AreParts(k: nat, ps: seq<string>)
    requires k <= 10
    decreases 10 - k
  {
    if k == 10 then ps == []
    else
      && ps != [] && InGrammar(k, ps[0]) && AreParts(k + 1, ps[1..])
      && (k == 5 && |ps| > 1 && ps[1] != "" && ps[1][0] == '0' ==> ps[0] == "0")
  }

  lemma TakenInGrammar(k: nat, s: string)
    requires k <= 9 && Ends(PATTERN[k], s) != []
    ensures var e := Ends(PATTERN[k], s)[0]; InGrammar(k, s[..e]) && (k == 9 ==> Separate(s[..e], s[e..]))
    ensures k == 5 && s != "" && s[0] == '0' ==> Ends(PATTERN[k], s)[0] == 1
  {
    var e := Ends(PATTERN[k], s)[0];
    if k == 8 {
      assert forall i :: 0 <= i < e ==> IsModifier(s[i]) && IsLength(s[i]);
    } else if k == 7 && e > 1 && s[1] != '*' {
      assert s[..e][1..] == s[1..][..e - 1];
    } else if k == 9 && e == 1 {
      assert s[..1] == [s[0]];
    }
  }

  lemma {:induction false} GreedyIsText(k: nat, s: string)
    requires k <= 10 && Greedy(From(k), s).Some?
    ensures var ps := Greedy(From(k), s).value;
      && AreParts(k, ps) && Concat(ps) <= s && (k <= 9 ==> ps != [] && Separate(ps[|ps| - 1], s[|Concat(ps)|..]))
    decreases 10 - k
  {
    hide Ends, InGrammar, Separate;
    if k == 10 {
      NothingLeft(s);
    } else {
      var e := Ends(PATTERN[k], s)[0];
      TakenInGrammar(k, s);
      GreedyIsText(k + 1, s[e..]);
      var x, rest := s[..e], Greedy(From(k + 1), s[e..]).value;
      assert ([x] + rest)[1..] == rest;
      assert Concat([x] + rest) == x + Concat(rest);
      assert s[e..][|Concat(rest)|..] == s[|x + Concat(rest)|..];
      if k == 5 {
        FirstOf(rest, s[e..]);
      } else if k == 9 {
        NothingLeft(s[e..]);
      }
    }
  }

  lemma FirstOf(ps: seq<string>, s: string)
    requires Concat(ps) <= s
    ensures ps != [] && ps[0] != "" ==> s != "" && s[0] == ps[0][0]
  {
    if ps != [] && ps[0] != "" {
      assert Concat(ps)[0] == ps[0][0];
    }
  }

  lemma {:induction false} PartsAt(k: nat, ps: seq<string>, j: nat)
    requires k + j < 10 && AreParts(k, ps)
    ensures j < |ps| && InGrammar(k + j, ps[j])
    ensures k + j == 5 ==> j + 1 < |ps| && (ps[j + 1] != "" && ps[j + 1][0] == '0' ==> ps[j] == "0")
    decreases j
  {
    hide InGrammar;
    if j > 0 {
      PartsAt(k + 1, ps[1..], j - 1);
    }
  }

  lemma PartsAreText(ps: seq<string>)
    requires |ps| == 10 && AreParts(0, ps)
    ensures IsSpecText(ps)
  {
    hide InGrammar, AreParts;
    forall k | 0 <= k < 10 ensures InGrammar(k, ps[k]) {
      PartsAt(0, ps, k);
    }
    PartsAt(0, ps, 5);
  }

  // Main result: the expression matches exactly the specifiers of the grammar, an r with the h or x
  // that follows it.
  lemma MatchIffText(s: string, parts: seq<string>)
    ensures Match(PATTERN, s) == Some(parts)
            <==> IsSpecText(parts) && Concat(parts) <= s && Separate(parts[9], s[|Concat(parts)|..])
  {
    hide Greedy, Match, Concat, IsSpecText, Separate;
    PatternMatch(s);
    assert From(0) == PATTERN;
    if Match(PATTERN, s) == Some(parts) {
      GreedyIsText(0, s);
      PartsAreText(parts);
    }
    if IsSpecText(parts) && Concat(parts) <= s {
      TextHasParts(parts);
      var rest := s[|Concat(parts)|..];
      assert s == Concat(parts) + rest;
      if Separate(parts[9], rest) {
        assert parts[0..] == parts;
        GreedyOfText(parts, 0, rest);
      }
    }
  }

  lemma TextHasParts(parts: seq<string>)
    requires IsSpecText(parts)
    ensures |parts| == 10
  {
  }

  // What a number in a specifier says: nothing or a star is the default, and a number has to fit
  // into 31 bits.
  function Written(digits: string, default: int): Option<int> {
    if digits == "" || digits == "*" then Some(default)
    else if NumeralValue(digits, 10) > 2147483647 then None
    else Some(NumeralValue(digits, 10))
  }

  // What the parts of a specifier say.
  function SpecWritten(parts: seq<string>): Option<Spec>
    requires |parts| == 10
  {
    var width, precision := Written(parts[6], 0), Written(if parts[7] == "" then "" else parts[7][1..], -1);
    if width == None || precision == None then None
    else Some(Spec(parts[1] == "-", parts[2] == "+", parts[3] == " ", parts[4] == "#", parts[5] == "0",
                   width.value, precision.value, parts[8], parts[9]))
  }

  // The constructor reads what is written, and fails exactly on too large numbers.
  lemma SpecOfText(parts: seq<string>)
    requires IsSpecText(parts)
    ensures SpecOf(parts) == match SpecWritten(parts) case None => Err(OutOfRange) case Some(spec) => Ok(spec)
  {
    hide NumeralValue;
    assert InGrammar(1, parts[1]) && InGrammar(2, parts[2]) && InGrammar(3, parts[3]);
    assert InGrammar(4, parts[4]) && InGrammar(5, parts[5]);
  }

  // Parsing, one piece at a time.

  // Main result: a specifier of the grammar is read as it is written.
  lemma ParseText(parts: seq<string>, u: string, fragment: string)
    requires IsSpecText(parts) && Separate(parts[9], u)
    ensures ParseFrom(Concat(parts) + u, fragment) ==
            match SpecWritten(parts)
            case None => Err(OutOfRange)
            case Some(spec) =>
              if parts[9] == "%" then ParseFrom(u, fragment + "%") else Prepend(fragment, spec, ParseFrom(u, ""))
  {
    hide Greedy, Ends, Match, SpecOf, Concat, TotalLength, ParseFrom, IsSpecText;
    var s := Concat(parts) + u;
    assert parts[0..] == parts && From(0) == PATTERN;
    GreedyOfText(parts, 0, u);
    PatternMatch(s);
    LengthOfConcat(parts);
    assert s[TotalLength(parts)..] == u;
    assert Find(s) == Some(Found("", parts, u));
    SpecOfText(parts);
    ParseStep(s, fragment);
    assert fragment + "" == fragment;
  }

  lemma PrintedText(spec: Spec)
    requires Expressible(spec)
    ensures IsSpecText(SpecParts(spec)) && SpecWritten(SpecParts(spec)) == Some(spec)
  {
    PrintedNumbers(spec);
    hide Numeral, InGrammar, Expressible;
    forall k | 0 <= k < 10 ensures InGrammar(k, SpecParts(spec)[k]) {
      PrintedPart(spec, k);
    }
  }

  lemma PrintedPart(spec: Spec, k: nat)
    requires Expressible(spec) && k < 10
    ensures InGrammar(k, SpecParts(spec)[k])
  {
    if spec.precision >= 0 {
      assert ("." + Numeral(spec.precision, 10))[1..] == Numeral(spec.precision, 10);
    }
  }

  lemma PrintedNumbers(spec: Spec)
    requires Expressible(spec)
    ensures SpecWritten(SpecParts(spec)) == Some(spec)
  {
    hide NumeralValue, AllLengths, IsSpecifierText;
    NumeralIsWritten(spec.width, 0);
    if spec.precision >= 0 {
      NumeralIsWritten(spec.precision, -1);
      assert ("." + Numeral(spec.precision, 10))[1..] == Numeral(spec.precision, 10);
    }
  }

  lemma NumeralIsWritten(n: nat, default: int)
    requires n <= 2147483647
    ensures Written(Numeral(n, 10), default) == Some(n)
  {
    NumeralDenotes(n, 10);
    assert IsDecimalDigit(Numeral(n, 10)[0]);
  }

  lemma ParseSpec(spec: Spec, u: string, fragment: string)
    requires Expressible(spec) && Separate(spec.specifier, u)
    ensures ParseFrom(Concat(SpecParts(spec)) + u, fragment) ==
            if spec.specifier == "%" then ParseFrom(u, fragment + "%")
            else Prepend(fragment, spec, ParseFrom(u, ""))
  {
    hide ParseFrom, Concat, Expressible, IsSpecText, SpecWritten;
    PrintedText(spec);
    ParseText(SpecParts(spec), u, fragment);
  }

  lemma FindPlain(c: char, s: string)
    requires c != '%'
    ensures Find([c] + s) ==
            match Find(s) case None => None case Some(f) => Some(Found([c] + f.before, f.parts, f.after))
  {
    hide Greedy, Match;
    NoPercentNoMatch(c, s);
    PatternMatch([c] + s);
    FindSkips(c, s);
  }

  lemma FindSkips(c: char, s: string)
    requires Match(PATTERN, [c] + s).None?
    ensures Find([c] + s) ==
            match Find(s) case None => None case Some(f) => Some(Found([c] + f.before, f.parts, f.after))
  {
    hide Match;
    assert ([c] + s)[1..] == s;
  }

  // A character that no specifier begins with is text, and so is a percent sign in front of anything
  // else than a specifier.
  lemma ParseTextual(c: char, s: string, fragment: string)
    requires Match(PATTERN, [c] + s).None?
    ensures ParseFrom([c] + s, fragment) == ParseFrom(s, fragment + [c])
  {
    hide Find, SpecOf, ParseFrom, Prepend, Match;
    FindSkips(c, s);
    ParseStep([c] + s, fragment);
    ParseStep(s, fragment + [c]);
    assert fragment + ([c] + s) == fragment + [c] + s;
    if Find(s).Some? {
      assert fragment + ([c] + Find(s).value.before) == fragment + [c] + Find(s).value.before;
    }
  }

  lemma ParsePlain(c: char, s: string, fragment: string)
    requires c != '%'
    ensures ParseFrom([c] + s, fragment) == ParseFrom(s, fragment + [c])
  {
    hide ParseFrom, Match, Greedy;
    NoPercentNoMatch(c, s);
    PatternMatch([c] + s);
    ParseTextual(c, s, fragment);
  }

  lemma NoPercentNoMatch(c: char, s: string)
    requires c != '%'
    ensures Greedy(PATTERN, [c] + s).None?
  {
    assert PATTERN[0] == Percent;
  }

  const PERCENT: Spec := Spec(false, false, false, false, false, 0, -1, "", "%")

  lemma ParsePercent(s: string, fragment: string)
    ensures ParseFrom("%%" + s, fragment) == ParseFrom(s, fragment + "%")
  {
    hide ParseFrom;
    var parts := SpecParts(PERCENT);
    assert parts == ["%", "", "", "", "", "", "", "", "", "%"];
    TwoPercents(parts);
    ParseSpec(PERCENT, s, fragment);
  }

  lemma TwoPercents(parts: seq<string>)
    requires parts == ["%", "", "", "", "", "", "", "", "", "%"]
    ensures Concat(parts) == "%%"
  {
    OnlyLast(parts[1..]);
  }

  lemma {:induction false} OnlyLast(parts: seq<string>)
    requires parts != [] && forall i :: 0 <= i < |parts| - 1 ==> parts[i] == ""
    ensures Concat(parts) == parts[|parts| - 1]
  {
    if |parts| > 1 {
      OnlyLast(parts[1..]);
    }
  }

  lemma {:induction false} ParseEscaped(f: string, t: string, fragment: string)
    ensures ParseFrom(Escape(f) + t, fragment) == ParseFrom(t, fragment + f)
  {
    hide ParseFrom;
    if f == "" {
      assert Escape(f) + t == t && fragment + f == fragment;
    } else {
      var c, rest := f[0], f[1..];
      assert fragment + f == fragment + [c] + rest;
      if c == '%' {
        assert Escape(f) + t == "%%" + (Escape(rest) + t);
        ParsePercent(Escape(rest) + t, fragment);
      } else {
        assert Escape(f) + t == [c] + (Escape(rest) + t);
        ParsePlain(c, Escape(rest) + t, fragment);
      }
      ParseEscaped(rest, t, fragment + [c]);
    }
  }

  lemma ParseEnd(fragment: string)
    ensures ParseFrom("", fragment) == Ok(Parsed([fragment], []))
  {
    hide Match;
    PatternMatch("");
    assert Find("").None?;
    assert fragment + "" == fragment;
  }

  // One character after a percent sign: an escaped percent sign, a conversion, or text.
  lemma OneLetter(c: char)
    ensures ParseFrom("%" + [c], "") ==
            if c == '%' then Ok(Parsed(["%"], []))
            else if c == 'r' || IsConversion(c) then
              Ok(Parsed(["", ""], [Spec(false, false, false, false, false, 0, -1, "", [c])]))
            else Ok(Parsed(["%" + [c]], []))
  {
    hide ParseFrom, IsConversion;
    if c == '%' {
      ParsePercent("", "");
      ParseEnd("%");
      assert "%" + [c] == "%%" + "" && "" + "%" == "%";
    } else if c == 'r' || IsConversion(c) {
      LetterIsRead(c, Spec(false, false, false, false, false, 0, -1, "", [c]));
    } else {
      LetterIsText(c);
    }
  }

  lemma LetterIsRead(c: char, spec: Spec)
    requires c == 'r' || IsConversion(c)
    requires spec == Spec(false, false, false, false, false, 0, -1, "", [c])
    ensures ParseFrom("%" + [c], "") == Ok(Parsed(["", ""], [spec]))
  {
    hide ParseFrom, IsConversion, Concat;
    PlainLetter(spec);
    ParseSpec(spec, "", "");
    ParseEnd("");
    assert [""] + [""] == ["", ""] && [spec] + [] == [spec];
  }

  lemma LetterIsText(c: char)
    requires c != '%' && c != 'r' && !IsConversion(c)
    ensures ParseFrom("%" + [c], "") == Ok(Parsed(["%" + [c]], []))
  {
    hide ParseFrom, Match, IsConversion, Greedy;
    var s := "%" + [c];
    if Match(PATTERN, s).Some? {
      LetterMatched(c);
    }
    PatternMatch(s);
    FindPlain(c, "");
    assert s[1..] == [c] + "";
    PatternMatch("");
    assert Find("").None?;
    ParseStep(s, "");
    assert "" + s == s;
  }

  lemma PlainLetter(spec: Spec)
    requires |spec.specifier| == 1 && (spec.specifier[0] == 'r' || IsConversion(spec.specifier[0]))
    requires spec == Spec(false, false, false, false, false, 0, -1, "", spec.specifier)
    ensures Expressible(spec) && spec.specifier != "%" && Concat(SpecParts(spec)) + "" == "%" + spec.specifier
  {
    var parts := SpecParts(spec);
    OnlyLast(parts[1..]);
    assert spec.specifier[0] == 'r' ==> spec.specifier == "r";
  }

  lemma LetterMatched(c: char)
    requires Match(PATTERN, "%" + [c]).Some?
    ensures c == '%' || c == 'r' || IsConversion(c)
  {
    hide Match, IsConversion, Concat, IsSpecText;
    var s := "%" + [c];
    var parts := Match(PATTERN, s).value;
    MatchIffText(s, parts);
    TextEnds(parts);
    LastLetter(parts);
    assert Concat(parts) == s;
    assert parts[9] == [c] && IsSpecifierText([c]);
  }

  // A specifier begins with a percent sign, and ends with its last part.
  lemma TextEnds(parts: seq<string>)
    requires IsSpecText(parts)
    ensures |parts| == 10 && parts[0] == "%" && IsSpecifierText(parts[9]) && |parts[9]| >= 1
  {
    assert InGrammar(0, parts[0]) && InGrammar(9, parts[9]);
  }

  lemma LastLetter(parts: seq<string>)
    requires |parts| == 10 && parts[0] == "%"
    ensures |Concat(parts)| > |parts[9]| && Concat(parts)[|Concat(parts)| - |parts[9]|..] == parts[9]
  {
    ConcatLast(parts, "");
    assert parts[..9] != [] && parts[..9][0] == "%";
    assert Concat(parts[..9]) == "%" + Concat(parts[..9][1..]);
    hide Concat;
    assert parts[9] + "" == parts[9] && Concat(parts) + "" == Concat(parts);
  }

  // The first character after a specifier.
  lemma PrintedStart(fragments: seq<string>, specs: seq<Spec>, spec: Spec)
    requires |fragments| == |specs| + 1
    ensures Separate(spec.specifier, Print(fragments, specs)) <==> !Swallows(spec, fragments[0])
  {
    if fragments[0] != "" {
      assert Print(fragments, specs)[0] == Escape(fragments[0])[0];
    } else if specs != [] {
      SpecStart(specs[0], Print(fragments[1..], specs[1..]));
      assert Print(fragments, specs) == Concat(SpecParts(specs[0])) + Print(fragments[1..], specs[1..]);
    }
  }

  lemma SpecStart(spec: Spec, u: string)
    ensures Concat(SpecParts(spec)) + u != "" && (Concat(SpecParts(spec)) + u)[0] == '%'
  {
    assert SpecParts(spec)[0] == "%";
  }

  // What parsing returns for printed text: the first specifier, if it does not swallow.
  lemma ParsePrinted(fragments: seq<string>, specs: seq<Spec>)
    requires |fragments| == |specs| + 1 && AllCanonical(specs)
    ensures specs == [] ==> ParseFrom(Print(fragments, specs), "") == Ok(Parsed(fragments, []))
    ensures specs != [] && !Swallows(specs[0], fragments[1]) ==>
              ParseFrom(Print(fragments, specs), "") ==
              Prepend(fragments[0], specs[0], ParseFrom(Print(fragments[1..], specs[1..]), ""))
  {
    hide ParseFrom, Concat, Escape;
    assert "" + fragments[0] == fragments[0];
    if specs == [] {
      ParseEscaped(fragments[0], "", "");
      ParseEnd(fragments[0]);
      assert fragments == [fragments[0]];
    } else {
      var u := Print(fragments[1..], specs[1..]);
      ParseEscaped(fragments[0], Concat(SpecParts(specs[0])) + u, "");
      if !Swallows(specs[0], fragments[1]) {
        PrintedStart(fragments[1..], specs[1..], specs[0]);
        ParseSpec(specs[0], u, fragments[0]);
      }
    }
  }

  // A swallowing specifier comes back as another one.
  lemma ParseSwallowed(fragments: seq<string>, specs: seq<Spec>)
    requires |fragments| == |specs| + 1 && AllCanonical(specs)
    requires specs != [] && Swallows(specs[0], fragments[1])
    ensures ParseFrom(Print(fragments, specs), "") != Ok(Parsed(fragments, specs))
  {
    hide ParseFrom, Concat, Escape, SpecParts, Canonical, Print, Prepend;
    var u := Print(fragments[1..], specs[1..]);
    PrintCons(fragments, specs);
    assert "" + fragments[0] == fragments[0];
    ParseEscaped(fragments[0], Concat(SpecParts(specs[0])) + u, "");
    PrintedStart(fragments[1..], specs[1..], specs[0]);
    var longer := SwallowedText(specs[0], u);
    CanonicalIsKept(longer);
    ParseSpec(longer, u[1..], fragments[0]);
    PrependDiffers(fragments, specs, longer, ParseFrom(u[1..], ""));
  }

  lemma CanonicalIsKept(spec: Spec)
    requires Canonical(spec)
    ensures Expressible(spec) && spec.specifier != "%"
    ensures spec.specifier != "r" ==> forall u :: Separate(spec.specifier, u)
  {
  }

  lemma PrintCons(fragments: seq<string>, specs: seq<Spec>)
    requires |fragments| == |specs| + 1 && specs != []
    ensures Print(fragments, specs) ==
            Escape(fragments[0]) + (Concat(SpecParts(specs[0])) + Print(fragments[1..], specs[1..]))
  {
  }

  lemma PrependDiffers(fragments: seq<string>, specs: seq<Spec>, spec: Spec, rest: Result<Parsed, ParseError>)
    requires specs != [] && spec != specs[0] && fragments != []
    ensures Prepend(fragments[0], spec, rest) != Ok(Parsed(fragments, specs))
  {
    if rest.Ok? {
      assert ([spec] + rest.value.specs)[0] == spec;
    }
  }

  lemma SwallowedText(spec: Spec, u: string) returns (longer: Spec)
    requires Canonical(spec) && !Separate(spec.specifier, u)
    ensures Canonical(longer) && longer.specifier != "r" == spec.specifier
    ensures Concat(SpecParts(longer)) + u[1..] == Concat(SpecParts(spec)) + u
  {
    hide Concat;
    longer := spec.(specifier := "r" + [u[0]]);
    ConcatLast(SpecParts(spec), u);
    ConcatLast(SpecParts(longer), u[1..]);
    assert SpecParts(longer)[..9] == SpecParts(spec)[..9];
    assert "r" + u == ("r" + [u[0]]) + u[1..];
  }

  lemma {:induction false} ConcatLast(parts: seq<string>, u: string)
    requires parts != []
    ensures Concat(parts) + u == Concat(parts[..|parts| - 1]) + (parts[|parts| - 1] + u)
  {
    if |parts| > 1 {
      ConcatLast(parts[1..], u);
      var init := parts[..|parts| - 1];
      assert parts[1..][..|parts| - 2] == init[1..];
      assert Concat(parts) + u == parts[0] + (Concat(parts[1..]) + u);
      assert Concat(init) + (parts[|parts| - 1] + u) == init[0] + (Concat(init[1..]) + (parts[|parts| - 1] + u));
    } else {
      assert Concat(parts[1..]) == "" && Concat(parts[..0]) == "";
    }
  }

  // Main result: printing and parsing is the identity exactly on unambiguous lists.
  lemma {:induction false} ParseInvertsPrint(fragments: seq<string>, specs: seq<Spec>)
    requires |fragments| == |specs| + 1 && AllCanonical(specs)
    ensures ParseFrom(Print(fragments, specs), "") == Ok(Parsed(fragments, specs))
            <==> Unambiguous(fragments, specs)
    decreases |specs|
  {
    hide ParseFrom, Print, Canonical, Swallows;
    if specs == [] {
      ParsePrinted(fragments, specs);
    } else if Swallows(specs[0], fragments[1]) {
      ParseSwallowed(fragments, specs);
    } else {
      ParsePrinted(fragments, specs);
      ParseInvertsPrint(fragments[1..], specs[1..]);
      assert fragments == [fragments[0]] + fragments[1..] && specs == [specs[0]] + specs[1..];
      UnambiguousTail(fragments, specs);
    }
  }

  lemma UnambiguousTail(fragments: seq<string>, specs: seq<Spec>)
    requires |fragments| == |specs| + 1 && specs != []
    ensures Unambiguous(fragments, specs) <==>
            !Swallows(specs[0], fragments[1]) && Unambiguous(fragments[1..], specs[1..])
  {
    hide Swallows;
    if !Swallows(specs[0], fragments[1]) && Unambiguous(fragments[1..], specs[1..]) {
      forall i | 0 <= i < |specs| ensures !Swallows(specs[i], fragments[i + 1]) {
        if i > 0 {
          assert !Swallows(specs[1..][i - 1], fragments[1..][i]);
        }
      }
    } else if Unambiguous(fragments, specs) {
      forall i | 0 <= i < |specs[1..]| ensures !Swallows(specs[1..][i], fragments[1..][i + 1]) {
        assert specs[i + 1] == specs[1..][i] && fragments[i + 2] == fragments[1..][i + 1];
      }
    }
  }
}
