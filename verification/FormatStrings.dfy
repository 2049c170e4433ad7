/**
 Parsing of format strings into fragments and specifiers (`FormatString::parse` and the
 `FormatSpec` constructor in src/format_string.cpp), and the printer that parsing inverts.
 */
module FormatStrings {
  import opened Prelude
  import opened Numerals
  import opened FormatRegex

  datatype Spec = Spec(leftAlign: bool, showSign: bool, spacePrefix: bool, alternateForm: bool,
                       leadZeros: bool, width: int, precision: int, modifier: string, specifier: string)

  // The exception of `std::stoi` for a number beyond the range of int.
  datatype ParseError = OutOfRange

  const INT_MAX: int := 0x7FFF_FFFF

  datatype Parsed = Parsed(fragments: seq<string>, specs: seq<Spec>)

  // `std::stoi` on what a numeric group captured; absent and `*` leave the default.
  function Number(group: string, default: int): Result<int, ParseError> {
    if group == "" || group == "*" then Ok(default)
    else if NumeralValue(group, 10) > INT_MAX then Err(OutOfRange)
    else Ok(NumeralValue(group, 10))
  }

  // The FormatSpec constructor.  Part 7 includes the dot, which is outside the group.
  function SpecOf(parts: seq<string>): Result<Spec, ParseError>
    requires |parts| == 10
  {
    match Number(parts[6], 0)
    case Err(e) => Err(e)
    case Ok(width) =>
      match Number(if parts[7] == "" then "" else parts[7][1..], -1)
      case Err(e) => Err(e)
      case Ok(precision) =>
        Ok(Spec(parts[1] != "", parts[2] != "", parts[3] != "", parts[4] != "", parts[5] != "",
                width, precision, parts[8], parts[9]))
  }

  function TotalLength(parts: seq<string>): nat {
    if parts == [] then 0 else |parts[0]| + TotalLength(parts[1..])
  }

  lemma {:induction false} MatchLength(p: seq<Atom>, s: string)
    requires Greedy(p, s).Some?
    ensures |Greedy(p, s).value| == |p| && TotalLength(Greedy(p, s).value) <= |s|
  {
    if p != [] {
      var ns := Ends(p[0], s);
      MatchLength(p[1..], s[ns[0]..]);
      var rest := Greedy(p[1..], s[ns[0]..]).value;
      assert ([s[..ns[0]]] + rest)[1..] == rest;
    }
  }

  lemma PatternMatch(s: string)
    ensures Match(PATTERN, s) == Greedy(PATTERN, s)
    ensures Match(PATTERN, s).Some? ==>
              |Match(PATTERN, s).value| == 10 && 0 < TotalLength(Match(PATTERN, s).value) <= |s|
  {
    hide Match, Greedy;
    assert From(0) == PATTERN;
    MatchIsGreedy(0, s);
    if Greedy(PATTERN, s).Some? {
      MatchLength(PATTERN, s);
      PercentFirst(s);
    }
  }

  lemma PercentFirst(s: string)
    requires Greedy(PATTERN, s).Some? && |Greedy(PATTERN, s).value| == 10
    ensures s != "" && s[0] == '%' && Greedy(PATTERN, s).value[0] == "%"
    ensures TotalLength(Greedy(PATTERN, s).value) > 0
  {
    assert PATTERN[0] == Percent;
  }

  // The next match of the iterator: the text skipped, what the parts matched, the text after.
  datatype Found = Found(before: string, parts: seq<string>, after: string)

  function Find(s: string): (f: Option<Found>)
    ensures f.Some? ==>
              var l := |f.value.before|;
              |f.value.parts| == 10 && l + TotalLength(f.value.parts) <= |s| && 0 < TotalLength(f.value.parts)
              && f.value.before == s[..l] && f.value.after == s[l + TotalLength(f.value.parts)..]
  {
    PatternMatch(s);
    match Match(PATTERN, s)
    case Some(parts) => Some(Found("", parts, s[TotalLength(parts)..]))
    case None =>
      if s == "" then None
      else
        match Find(s[1..])
        case None => None
        case Some(f) => Some(Found([s[0]] + f.before, f.parts, f.after))
  }

  // Parsing the rest of a format string, with the text of the current fragment so far.
  function ParseFrom(s: string, fragment: string): (r: Result<Parsed, ParseError>)
    ensures r.Ok? ==> |r.value.fragments| == |r.value.specs| + 1
    decreases |s|
  {
    match Find(s)
    case None => Ok(Parsed([fragment + s], []))
    case Some(f) =>
      match SpecOf(f.parts)
      case Err(e) => Err(e)
      case Ok(spec) =>
        if spec.specifier == "%" then ParseFrom(f.after, fragment + f.before + "%")
        else Prepend(fragment + f.before, spec, ParseFrom(f.after, ""))
  }

  function Prepend(fragment: string, spec: Spec, rest: Result<Parsed, ParseError>): Result<Parsed, ParseError> {
    match rest
    case Err(e) => Err(e)
    case Ok(p) => Ok(Parsed([fragment] + p.fragments, [spec] + p.specs))
  }

  class FormatString {
    const fmt: string
    var fragments: seq<string>
    var specs: seq<Spec>

    constructor (fmt: string)
      ensures this.fmt == fmt && fragments == [] && specs == []
    {
      this.fmt := fmt;
      fragments, specs := [], [];
    }

    // `error` is the exception; the format string is then left half parsed.
    method Parse() returns (error: Option<ParseError>)
      modifies this
      ensures match ParseFrom(fmt, "")
              case Ok(parsed) => error == None && fragments == parsed.fragments && specs == parsed.specs
              case Err(e) => error == Some(e)
    {
      hide Find, SpecOf, ParseFrom;
      fragments, specs := [], [];
      var lastMatchEnd, lastFragment := 0, "";
      assert fmt[0..] == fmt;
      var it := Find(fmt);
      ExtendsByNothing(ParseFrom(fmt, ""));
      while it.Some?
        invariant 0 <= lastMatchEnd <= |fmt| && it == Find(fmt[lastMatchEnd..])
        invariant |fragments| == |specs|
        invariant Extends(ParseFrom(fmt, ""), fragments, specs, ParseFrom(fmt[lastMatchEnd..], lastFragment))
        decreases |fmt| - lastMatchEnd
      {
        var position := lastMatchEnd + |it.value.before|;
        ghost var rest, soFar, fs, sps := fmt[lastMatchEnd..], lastFragment, fragments, specs;
        assert fmt[lastMatchEnd..position] == it.value.before;
        lastFragment := lastFragment + fmt[lastMatchEnd..position];
        lastMatchEnd := position + TotalLength(it.value.parts);
        assert fmt[lastMatchEnd..] == it.value.after;
        match SpecOf(it.value.parts) {
          case Err(e) =>
            ParseStep(rest, soFar);
            return Some(e);
          case Ok(spec) =>
            ParseStep(rest, soFar);
            if spec.specifier == "%" {
              lastFragment := lastFragment + "%";
            } else {
              fragments := fragments + [lastFragment];
              lastFragment := "";
              specs := specs + [spec];
              ExtendsByOne(ParseFrom(fmt, ""), fs, sps, fragments[|fs|], spec, ParseFrom(fmt[lastMatchEnd..], ""));
            }
        }
        it := Find(fmt[lastMatchEnd..]);
      }
      ParseStep(fmt[lastMatchEnd..], lastFragment);
      fragments := fragments + [lastFragment + fmt[lastMatchEnd..]];
      assert specs + [] == specs;
      error := None;
    }
  }

  // whole is what the loop has collected followed by what is left to parse.
  predicate Extends(whole: Result<Parsed, ParseError>, fragments: seq<string>, specs: seq<Spec>,
                    rest: Result<Parsed, ParseError>)
  {
    match rest
    case Err(e) => whole == Err(e)
    case Ok(p) => whole == Ok(Parsed(fragments + p.fragments, specs + p.specs))
  }

  lemma ExtendsByNothing(r: Result<Parsed, ParseError>)
    ensures Extends(r, [], [], r)
  {
    if r.Ok? {
      assert [] + r.value.fragments == r.value.fragments && [] + r.value.specs == r.value.specs;
    }
  }

  lemma ExtendsByOne(whole: Result<Parsed, ParseError>, fragments: seq<string>, specs: seq<Spec>,
                     fragment: string, spec: Spec, rest: Result<Parsed, ParseError>)
    requires Extends(whole, fragments, specs, Prepend(fragment, spec, rest))
    ensures Extends(whole, fragments + [fragment], specs + [spec], rest)
  {
    if rest.Ok? {
      assert fragments + ([fragment] + rest.value.fragments) == fragments + [fragment] + rest.value.fragments;
      assert specs + ([spec] + rest.value.specs) == specs + [spec] + rest.value.specs;
    }
  }

  // One unfolding of ParseFrom.
  lemma ParseStep(s: string, fragment: string)
    ensures ParseFrom(s, fragment) ==
            match Find(s)
            case None => Ok(Parsed([fragment + s], []))
            case Some(f) =>
              match SpecOf(f.parts)
              case Err(e) => Err(e)
              case Ok(spec) =>
                if spec.specifier == "%" then ParseFrom(f.after, fragment + f.before + "%")
                else Prepend(fragment + f.before, spec, ParseFrom(f.after, ""))
  {
    hide Find, SpecOf;
  }

  // The canonical printer.

  function Escape(fragment: string): string {
    if fragment == "" then ""
    else (if fragment[0] == '%' then "%%" else [fragment[0]]) + Escape(fragment[1..])
  }

  function SpecParts(spec: Spec): (parts: seq<string>)
    ensures |parts| == 10
  {
    ["%",
     if spec.leftAlign then "-" else "",
     if spec.showSign then "+" else "",
     if spec.spacePrefix then " " else "",
     if spec.alternateForm then "#" else "",
     if spec.leadZeros then "0" else "",
     if spec.width > 0 then Numeral(spec.width, 10) else "",
     if spec.precision >= 0 then "." + Numeral(spec.precision, 10) else "",
     spec.modifier,
     spec.specifier]
  }

  function Concat(parts: seq<string>): string {
    if parts == [] then "" else parts[0] + Concat(parts[1..])
  }

  function Print(fragments: seq<string>, specs: seq<Spec>): string
    requires |fragments| == |specs| + 1
  {
    Escape(fragments[0])
    + if specs == [] then "" else Concat(SpecParts(specs[0])) + Print(fragments[1..], specs[1..])
  }

  // The letters of the grammar.
  predicate IsLength(c: char) {
    c in {'h', 'l', 'L', 'j', 'z', 't'}
  }

  predicate IsConversion(c: char) {
    c in {'d', 'i', 'o', 'u', 'x', 'X', 'e', 'E', 'f', 'F', 'g', 'G', 'a', 'A', 'c', 's', 'p', 'n'}
  }

  predicate AllLengths(s: string) {
    forall i :: 0 <= i < |s| ==> IsLength(s[i])
  }

  predicate IsSpecifierText(s: string) {
    s == "r" || s == "rh" || s == "rx" || s == "%" || (|s| == 1 && IsConversion(s[0]))
  }

  // Specifiers as the grammar can express them; a percent sign is not kept by the parser.
  predicate Canonical(spec: Spec) {
    Expressible(spec) && spec.specifier != "%"
  }

  predicate Expressible(spec: Spec) {
    && 0 <= spec.width <= 2147483647
    && -1 <= spec.precision <= 2147483647
    && AllLengths(spec.modifier) && IsSpecifierText(spec.specifier)
  }

  predicate AllCanonical(specs: seq<Spec>) {
    forall i :: 0 <= i < |specs| ==> Canonical(specs[i])
  }

  // An r specifier takes a following h or x with it.
  predicate Swallows(spec: Spec, next: string) {
    spec.specifier == "r" && next != "" && (next[0] == 'h' || next[0] == 'x')
  }

  predicate Unambiguous(fragments: seq<string>, specs: seq<Spec>)
    requires |fragments| == |specs| + 1
  {
    forall i :: 0 <= i < |specs| ==> !Swallows(specs[i], fragments[i + 1])
  }
}
