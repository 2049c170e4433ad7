/**
 The regular expression of format specifiers (src/format_string.cpp:25-26) under the ordered
 backtracking semantics of ECMAScript, and the greedy scan that finds the same match.
 */
module FormatRegex {
  import opened Prelude
  import opened Numerals

  // The parts of the expression: a percent sign, five optional flags, an optional width, an optional
  // precision, any length modifiers, and the conversion.
  datatype Atom = Percent | Flag(c: char) | Width | Precision | Modifiers | Specifier

  const PATTERN: seq<Atom> :=
    [Percent, Flag('-'), Flag('+'), Flag(' '), Flag('#'), Flag('0'), Width, Precision, Modifiers, Specifier]

  predicate IsModifier(c: char) {
    c == 'h' || c == 'l' || c == 'L' || c == 'j' || c == 'z' || c == 't'
  }

  predicate IsSpecifier(c: char) {
    c == 'd' || c == 'i' || c == 'o' || c == 'u' || c == 'x' || c == 'X' || c == 'e' || c == 'E'
    || c == 'f' || c == 'F' || c == 'g' || c == 'G' || c == 'a' || c == 'A' || c == 'c' || c == 's'
    || c == 'p' || c == 'n' || c == '%'
  }

  function DigitRun(s: string): (n: nat)
    ensures n <= |s|
    ensures forall i :: 0 <= i < n ==> IsDecimalDigit(s[i])
    ensures n < |s| ==> !IsDecimalDigit(s[n])
  {
    if s == "" || !IsDecimalDigit(s[0]) then 0 else 1 + DigitRun(s[1..])
  }

  function ModifierRun(s: string): (n: nat)
    ensures n <= |s|
    ensures forall i :: 0 <= i < n ==> IsModifier(s[i])
    ensures n < |s| ==> !IsModifier(s[n])
  {
    if s == "" || !IsModifier(s[0]) then 0 else 1 + ModifierRun(s[1..])
  }

  // hi, hi - 1, ..., lo.
  function Descending(hi: nat, lo: nat): (ns: seq<nat>)
    requires lo <= hi
    ensures |ns| == hi - lo + 1
    ensures forall i :: 0 <= i < |ns| ==> ns[i] == hi - i
    decreases hi - lo
  {
    if hi == lo then [hi] else [hi] + Descending(hi - 1, lo)
  }

  // Lengths of the prefixes of s that one part can match, in the order they are tried.
  function Ends(a: Atom, s: string): (ns: seq<nat>)
    ensures forall i :: 0 <= i < |ns| ==> ns[i] <= |s|
  {
    match a
    case Percent => if s != "" && s[0] == '%' then [1] else []
    case Flag(c) => if s != "" && s[0] == c then [1, 0] else [0]
    case Width => if s != "" && s[0] == '*' then [1, 0] else Descending(DigitRun(s), 0)
    case Precision =>
      if s == "" || s[0] != '.' then [0]
      else if |s| > 1 && s[1] == '*' then [2, 0]
      else if DigitRun(s[1..]) == 0 then [0]
      else Descending(1 + DigitRun(s[1..]), 2) + [0]
    case Modifiers => Descending(ModifierRun(s), 0)
    case Specifier =>
      if s == "" then []
      else if IsSpecifier(s[0]) then [1]
      else if s[0] != 'r' then []
      else if |s| > 1 && (s[1] == 'h' || s[1] == 'x') then [2, 1]
      else [1]
  }

  // Backtracking: the first alternative of each part after which the rest matches.  The result
  // lists what each part matched.
  function Match(p: seq<Atom>, s: string): Option<seq<string>>
    decreases |p|, 0
  {
    if p == [] then Some([]) else TryEnds(Ends(p[0], s), p, s)
  }

  function TryEnds(ns: seq<nat>, p: seq<Atom>, s: string): Option<seq<string>>
    requires p != [] && forall i :: 0 <= i < |ns| ==> ns[i] <= |s|
    decreases |p| - 1, 1, |ns|
  {
    if ns == [] then None
    else
      match Match(p[1..], s[ns[0]..])
      case Some(rest) => Some([s[..ns[0]]] + rest)
      case None => TryEnds(ns[1..], p, s)
  }

  // The scan without backtracking: each part takes its first alternative.
  function Greedy(p: seq<Atom>, s: string): Option<seq<string>> {
    if p == [] then Some([])
    else
      var ns := Ends(p[0], s);
      if ns == [] then None
      else
        match Greedy(p[1..], s[ns[0]..])
        case Some(rest) => Some([s[..ns[0]]] + rest)
        case None => None
  }

  // Position in the pattern of the part that a character belongs to; a zero is a flag first.
  function Rank(c: char): nat {
    if c == '-' then 1 else if c == '+' then 2 else if c == ' ' then 3 else if c == '#' then 4
    else if c == '0' then 5 else if IsDecimalDigit(c) || c == '*' then 6 else if c == '.' then 7
    else if IsModifier(c) then 8 else if IsSpecifier(c) || c == 'r' then 9 else 10
  }

  // The part of the pattern from index k on.
  function From(k: nat): (p: seq<Atom>)
    requires k <= 10
    ensures |p| == 10 - k
    ensures k < 10 ==> p[0] == PATTERN[k] && p[1..] == PATTERN[k + 1..]
  {
    PATTERN[k..]
  }

  // Alternatives that cannot lead to a match do not matter.
  lemma {:induction false} OnlyFirst(ns: seq<nat>, p: seq<Atom>, s: string)
    requires p != [] && ns != [] && forall i :: 0 <= i < |ns| ==> ns[i] <= |s|
    requires forall i :: 1 <= i < |ns| ==> Match(p[1..], s[ns[i]..]).None?
    ensures TryEnds(ns, p, s) ==
            match Match(p[1..], s[ns[0]..]) case Some(rest) => Some([s[..ns[0]]] + rest) case None => None
  {
    hide Match;
    AllFail(ns[1..], p, s);
  }

  lemma {:induction false} AllFail(ns: seq<nat>, p: seq<Atom>, s: string)
    requires p != [] && forall i :: 0 <= i < |ns| ==> ns[i] <= |s|
    requires forall i :: 0 <= i < |ns| ==> Match(p[1..], s[ns[i]..]).None?
    ensures TryEnds(ns, p, s).None?
  {
    hide Match;
    if ns != [] {
      AllFail(ns[1..], p, s);
    }
  }

  // A character of an earlier part stops the rest of the pattern, except that a zero may begin
  // the width.
  lemma {:induction false} Stuck(k: nat, s: string)
    requires 1 <= k <= 9
    requires s == "" || (Rank(s[0]) < k && !(k == 6 && s[0] == '0'))
    ensures Match(From(k), s).None?
    decreases 9 - k
  {
    hide Match, TryEnds, Ends;
    if k == 9 {
      NoSpecifier(s);
    } else {
      NothingToTake(k, s);
      Stuck(k + 1, s);
      assert s[0..] == s;
      MatchUnfolds(From(k), s);
      OnlyFirst([0], From(k), s);
    }
  }

  lemma NoSpecifier(s: string)
    requires s == "" || Rank(s[0]) < 9
    ensures Match(From(9), s).None?
  {
    assert Ends(Specifier, s) == [];
  }

  lemma NothingToTake(k: nat, s: string)
    requires 1 <= k <= 8
    requires s == "" || (Rank(s[0]) < k && !(k == 6 && s[0] == '0'))
    ensures Ends(PATTERN[k], s) == [0]
  {
  }

  // The later alternatives of every part but the zero flag fail.
  lemma LaterEndsFail(k: nat, s: string, i: nat)
    requires 0 <= k <= 9 && k != 5 && 1 <= i < |Ends(PATTERN[k], s)|
    requires k < 9
    ensures Match(From(k + 1), s[Ends(PATTERN[k], s)[i]..]).None?
  {
    var e := Ends(PATTERN[k], s)[i];
    Stuck(k + 1, s[e..]);
  }

  lemma FirstFails(p: seq<Atom>, s: string)
    requires p != [] && Ends(p[0], s) != [] && Match(p, s).None?
    ensures Match(p[1..], s[Ends(p[0], s)[0]..]).None?
  {
    hide Ends;
  }

  lemma MatchUnfolds(p: seq<Atom>, s: string)
    requires p != []
    ensures Match(p, s) == TryEnds(Ends(p[0], s), p, s)
  {
  }

  // Giving a zero back to the width does not help.
  lemma ZeroAsWidth(s: string)
    requires s != "" && s[0] == '0' && Match(From(6), s[1..]).None?
    ensures Match(From(6), s).None?
  {
    hide Match, TryEnds, Rank;
    var ns := Ends(Width, s);
    forall i | 0 <= i < |ns| ensures Match(From(7), s[ns[i]..]).None? {
      if i > 0 {
        LaterEndsFail(6, s, i);
      } else if |s| > 1 && s[1] == '*' {
        StarStops(s[1..]);
      } else {
        FirstFails(From(6), s[1..]);
        assert s[1..][ns[0] - 1..] == s[ns[0]..];
      }
    }
    AllFail(ns, From(6), s);
    MatchUnfolds(From(6), s);
  }

  lemma StarStops(s: string)
    requires s != "" && s[0] == '*'
    ensures Match(From(7), s).None?
  {
    hide Match;
    Stuck(7, s);
  }

  // The zero flag: its alternatives have the same match or none.
  lemma ZeroFlag(s: string)
    requires s != "" && s[0] == '0'
    ensures Ends(Flag('0'), s) == [1, 0]
    ensures TryEnds([1, 0], From(5), s) ==
            match Match(From(6), s[1..]) case Some(rest) => Some([s[..1]] + rest) case None => None
  {
    hide Match;
    if Match(From(6), s[1..]).None? {
      ZeroAsWidth(s);
      assert s[0..] == s;
      OnlyFirst([1, 0], From(5), s);
    }
  }

  // Backtracking into a part never changes the outcome.
  lemma PartIsGreedy(k: nat, s: string)
    requires k <= 9 && Ends(PATTERN[k], s) != []
    ensures var e := Ends(PATTERN[k], s)[0];
            TryEnds(Ends(PATTERN[k], s), From(k), s) ==
            match Match(From(k + 1), s[e..]) case Some(rest) => Some([s[..e]] + rest) case None => None
  {
    hide Match, Rank, Descending;
    var ns := Ends(PATTERN[k], s);
    if k == 9 {
      LastPart(ns, s);
      assert Match(From(10), s[ns[0]..]) == Some([]) by {
        NothingLeft(s[ns[0]..]);
      }
      assert [s[..ns[0]]] + [] == [s[..ns[0]]];
    } else if k == 5 && s != "" && s[0] == '0' {
      ZeroFlag(s);
    } else {
      forall i | 1 <= i < |ns| ensures Match(From(k + 1), s[ns[i]..]).None? {
        LaterEndsFail(k, s, i);
      }
      OnlyFirst(ns, From(k), s);
    }
  }

  lemma NothingLeft(s: string)
    ensures Match(From(10), s) == Some([]) == Greedy(From(10), s)
  {
  }

  // Main result: backtracking finds exactly the greedy match, at every string.
  lemma {:induction false} MatchIsGreedy(k: nat, s: string)
    requires k <= 10
    ensures Match(From(k), s) == Greedy(From(k), s)
    decreases 10 - k
  {
    hide Ends, TryEnds;
    if k == 10 {
      NothingLeft(s);
    } else if Ends(PATTERN[k], s) != [] {
      PartIsGreedy(k, s);
      MatchIsGreedy(k + 1, s[Ends(PATTERN[k], s)[0]..]);
    } else {
      NoEnds(k, s);
    }
  }

  lemma NoEnds(k: nat, s: string)
    requires k <= 9 && Ends(PATTERN[k], s) == []
    ensures Match(From(k), s).None?
  {
  }

  lemma LastPart(ns: seq<nat>, s: string)
    requires ns != [] && forall i :: 0 <= i < |ns| ==> ns[i] <= |s|
    ensures TryEnds(ns, From(9), s) == Some([s[..ns[0]]])
  {
    assert From(10) == [];
    assert Match(From(10), s[ns[0]..]) == Some([]);
    assert [s[..ns[0]]] + [] == [s[..ns[0]]];
  }
}
