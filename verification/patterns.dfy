/** The three regular expressions of matchers.go, written out as parsers
    over the fixed phrases they recognise. Each is compiled with Go's `(?i)`
    flag, so letters match in either case, and each is searched for
    anywhere in the description (Go's `MatchString` and
    `FindStringSubmatch` look for the leftmost match). */
module Patterns {
  import opened Optional

  /** The representative of a character's case-folding orbit under `(?i)`
      for the orbits that contain an ASCII letter: each ASCII letter with its
      other case, and additionally the Kelvin sign with `k` and the long s
      with `s`. Every other character is its own orbit. */
  function Fold(c: char): char
  {
    if 'A' <= c <= 'Z' then (c as int + 32) as char
    else if c == '\U{212A}' then 'k'
    else if c == '\U{017F}' then 's'
    else c
  }

  function FoldAll(s: string): string
  {
    seq(|s|, i requires 0 <= i < |s| => Fold(s[i]))
  }

  /** The literal part `p` of a pattern matches `s` at position `i`. */
  predicate LiteralAt(s: string, i: nat, p: string)
  {
    i + |p| <= |s| && FoldAll(s[i..i + |p|]) == FoldAll(p)
  }

  /** The character classes the patterns use. */
  datatype CharClass =
    | NumeralChars  // `[\d.]`
    | AddressChars  // `[\d./]`
    | Digits        // `\d`
    | Letters       // `[a-zA-Z]`, which `(?i)` widens by the Kelvin sign and the long s

  predicate InClass(c: char, cls: CharClass)
  {
    match cls
    case NumeralChars => '0' <= c <= '9' || c == '.'
    case AddressChars => '0' <= c <= '9' || c == '.' || c == '/'
    case Digits => '0' <= c <= '9'
    case Letters => 'a' <= c <= 'z' || 'A' <= c <= 'Z' || c == '\U{212A}' || c == '\U{017F}'
  }

  /** How far a greedy `cls+` or `cls*` reaches from position `i`: the
      longest run of characters of the class. */
  function RunLength(s: string, i: nat, cls: CharClass): (n: nat)
    requires i <= |s|
    ensures i + n <= |s|
    decreases |s| - i
  {
    if i == |s| || !InClass(s[i], cls) then 0 else 1 + RunLength(s, i + 1, cls)
  }

  /** The run is all of the class and cannot be extended. */
  lemma {:induction false} RunLengthMaximal(s: string, i: nat, cls: CharClass)
    requires i <= |s|
    ensures forall k :: i <= k < i + RunLength(s, i, cls) ==> InClass(s[k], cls)
    ensures i + RunLength(s, i, cls) == |s| || !InClass(s[i + RunLength(s, i, cls)], cls)
    decreases |s| - i
  {
    if i < |s| && InClass(s[i], cls) {
      RunLengthMaximal(s, i + 1, cls);
    }
  }

  // ---- `(?i)Source ip/subnet (?:deleted|added). Ip/subnet - ([\d./]+)`

  const SubnetHead := "Source ip/subnet "
  const SubnetMiddle := " Ip/subnet - "

  /** What follows the verb: any one character but a newline (the `.`),
      the middle phrase, and a first address character. */
  predicate SubnetTailAt(s: string, k: nat)
  {
    && k < |s| && s[k] != '\n'
    && LiteralAt(s, k + 1, SubnetMiddle)
    && k + 1 + |SubnetMiddle| < |s| && InClass(s[k + 1 + |SubnetMiddle|], AddressChars)
  }

  predicate SubnetAt(s: string, i: nat)
  {
    && LiteralAt(s, i, SubnetHead)
    && var j := i + |SubnetHead|;
       || (LiteralAt(s, j, "deleted") && SubnetTailAt(s, j + 7))
       || (LiteralAt(s, j, "added") && SubnetTailAt(s, j + 5))
  }

  /** `subnetRegex.MatchString`. */
  predicate SubnetMatches(s: string)
  {
    exists i :: 0 <= i <= |s| && SubnetAt(s, i)
  }

  // ---- `(?i)Memory Limit changed from ([\d.]+) ([a-zA-Z]+) to ([\d.]+) ([a-zA-Z]+)`

  const SizeHead := "Memory Limit changed from "

  datatype SizeCapture = SizeCapture(fromNum: string, fromUnit: string, toNum: string, toUnit: string)

  /** `([\d.]+) ([a-zA-Z]+)` at `a`: a magnitude, one space and a unit, and
      the position after the unit. Each group is followed by a character
      outside its class (or by the end), so the greedy groups are exactly
      the maximal runs. */
  function QuantityAt(s: string, a: nat): (r: Option<(string, string, nat)>)
    requires a <= |s|
    ensures r.Some? ==> r.value.2 <= |s|
  {
    var b := a + RunLength(s, a, NumeralChars);
    if b == a || b == |s| || s[b] != ' ' then None
    else
      var d := b + 1 + RunLength(s, b + 1, Letters);
      if d == b + 1 then None else Some((s[a..b], s[b + 1..d], d))
  }

  /** The match of the size pattern that starts at `i`, if there is one. */
  function SizeAt(s: string, i: nat): Option<SizeCapture>
    requires i <= |s|
  {
    if !LiteralAt(s, i, SizeHead) then None
    else
      match QuantityAt(s, i + |SizeHead|)
      case None => None
      case Some((fromNum, fromUnit, d)) =>
        if !LiteralAt(s, d, " to ") then None
        else
          match QuantityAt(s, d + 4)
          case None => None
          case Some((toNum, toUnit, _)) => Some(SizeCapture(fromNum, fromUnit, toNum, toUnit))
  }

  /** The leftmost match of the size pattern starting at `i` or later. */
  function FindSizeFrom(s: string, i: nat): (r: Option<SizeCapture>)
    requires i <= |s|
    ensures r.Some? ==>
              exists j :: i <= j <= |s| && SizeAt(s, j) == r && forall k :: i <= k < j ==> SizeAt(s, k).None?
    ensures r.None? ==> forall j :: i <= j <= |s| ==> SizeAt(s, j).None?
    decreases |s| - i
  {
    if SizeAt(s, i).Some? then SizeAt(s, i)
    else if i == |s| then None
    else FindSizeFrom(s, i + 1)
  }

  /** `sizeRegex.MatchString`. */
  predicate SizeMatches(s: string)
  {
    exists i :: 0 <= i <= |s| && SizeAt(s, i).Some?
  }

  /** `sizeRegex.FindStringSubmatch`, groups 1 to 4. */
  function FindSize(s: string): Option<SizeCapture>
  {
    FindSizeFrom(s, 0)
  }

  // ---- `(?i)Database Throughput was changed from (\d+) ops/sec to (\d+) ops/sec`

  const ThroughputHead := "Database Throughput was changed from "
  const ThroughputMiddle := " ops/sec to "
  const ThroughputTail := " ops/sec"

  datatype ThroughputCapture = ThroughputCapture(fromOps: string, toOps: string)

  function ThroughputAt(s: string, i: nat): Option<ThroughputCapture>
    requires i <= |s|
  {
    if !LiteralAt(s, i, ThroughputHead) then None
    else
      var a := i + |ThroughputHead|;
      var b := a + RunLength(s, a, Digits);
      if b == a || !LiteralAt(s, b, ThroughputMiddle) then None
      else
        var c := b + |ThroughputMiddle|;
        var d := c + RunLength(s, c, Digits);
        if d == c || !LiteralAt(s, d, ThroughputTail) then None
        else Some(ThroughputCapture(s[a..b], s[c..d]))
  }

  /** The leftmost match of the throughput pattern starting at `i` or later. */
  function FindThroughputFrom(s: string, i: nat): (r: Option<ThroughputCapture>)
    requires i <= |s|
    ensures r.Some? ==>
              exists j :: i <= j <= |s| && ThroughputAt(s, j) == r && forall k :: i <= k < j ==> ThroughputAt(s, k).None?
    ensures r.None? ==> forall j :: i <= j <= |s| ==> ThroughputAt(s, j).None?
    decreases |s| - i
  {
    var here := ThroughputAt(s, i);
    if here.Some? then here
    else if i == |s| then None
    else
      var r := FindThroughputFrom(s, i + 1);
      assert forall k :: i <= k < i + 1 ==> ThroughputAt(s, k) == here;
      r
  }

  /** `throuphputRegex.MatchString`. */
  predicate ThroughputMatches(s: string)
  {
    exists i :: 0 <= i <= |s| && ThroughputAt(s, i).Some?
  }

  /** `throuphputRegex.FindStringSubmatch`, groups 1 and 2. */
  function FindThroughput(s: string): Option<ThroughputCapture>
  {
    FindThroughputFrom(s, 0)
  }

  // ---- The phrases each pattern is written for, and what the parsers make of them

  /** The description the control plane writes for a subnet change. */
  function SubnetText(verb: string, address: string): string
  {
    SubnetHead + verb + "." + SubnetMiddle + address
  }

  function SizeText(fromNum: string, fromUnit: string, toNum: string, toUnit: string): string
  {
    SizeHead + fromNum + " " + fromUnit + " to " + toNum + " " + toUnit
  }

  function ThroughputText(fromOps: string, toOps: string): string
  {
    ThroughputHead + fromOps + ThroughputMiddle + toOps + ThroughputTail
  }

  predicate AllInClass(s: string, cls: CharClass)
  {
    forall k :: 0 <= k < |s| ==> InClass(s[k], cls)
  }

  /** A maximal run is determined by where it stops. */
  lemma {:induction false} RunLengthIs(s: string, i: nat, n: nat, cls: CharClass)
    requires i + n <= |s|
    requires forall k :: i <= k < i + n ==> InClass(s[k], cls)
    requires i + n == |s| || !InClass(s[i + n], cls)
    ensures RunLength(s, i, cls) == n
    decreases n
  {
    if n > 0 {
      RunLengthIs(s, i + 1, n - 1, cls);
    }
  }

  /** A piece of text matches itself as a literal. */
  lemma LiteralItself(s: string, i: nat, p: string)
    requires i + |p| <= |s| && s[i..i + |p|] == p
    ensures LiteralAt(s, i, p)
  {
  }

  /** A subnet description with either verb and any address is recognised. */
  lemma SubnetTextMatches(verb: string, address: string)
    requires verb == "added" || verb == "deleted"
    requires |address| > 0 && InClass(address[0], AddressChars)
    ensures SubnetMatches(SubnetText(verb, address))
  {
    var s := SubnetText(verb, address);
    var j := |SubnetHead|;
    var k := j + |verb|;
    assert s == SubnetHead + verb + "." + SubnetMiddle + address;
    assert s[0..j] == SubnetHead;
    LiteralItself(s, 0, SubnetHead);
    assert s[j..k] == verb;
    LiteralItself(s, j, verb);
    assert s[k] == '.';
    assert s[k + 1..k + 1 + |SubnetMiddle|] == SubnetMiddle;
    LiteralItself(s, k + 1, SubnetMiddle);
    assert s[k + 1 + |SubnetMiddle|] == address[0];
    assert SubnetTailAt(s, k);
    assert SubnetAt(s, 0);
  }

  /** Where the pieces of a size description sit. */
  lemma SizeTextLayout(fromNum: string, fromUnit: string, toNum: string, toUnit: string)
    ensures var s := SizeText(fromNum, fromUnit, toNum, toUnit);
            var a := |SizeHead|;
            var b := a + |fromNum|;
            var d := b + 1 + |fromUnit|;
            var f := d + 4 + |toNum|;
            && |s| == f + 1 + |toUnit|
            && s[0..a] == SizeHead && s[a..b] == fromNum && s[b] == ' '
            && s[b + 1..d] == fromUnit && s[d..d + 4] == " to "
            && s[d + 4..f] == toNum && s[f] == ' ' && s[f + 1..] == toUnit
  {
    var s := SizeText(fromNum, fromUnit, toNum, toUnit);
    var s1 := SizeHead + fromNum;
    var s2 := s1 + " " + fromUnit;
    var s3 := s2 + " to " + toNum;
    assert s == s3 + " " + toUnit;
    assert s[..|s3|] == s3;
    assert s3[..|s2|] == s2;
    assert s2[..|s1|] == s1;
  }

  /** A magnitude and unit written out with one space between them, and
      not followed by a letter, are read back by `QuantityAt`. */
  lemma QuantityFound(s: string, a: nat, num: string, unit: string)
    requires |num| > 0 && AllInClass(num, NumeralChars)
    requires |unit| > 0 && AllInClass(unit, Letters)
    requires a + |num| + 1 + |unit| <= |s|
    requires s[a..a + |num|] == num && s[a + |num|] == ' ' && s[a + |num| + 1..a + |num| + 1 + |unit|] == unit
    requires a + |num| + 1 + |unit| == |s| || !InClass(s[a + |num| + 1 + |unit|], Letters)
    ensures QuantityAt(s, a) == Some((num, unit, a + |num| + 1 + |unit|))
  {
    var b := a + |num|;
    assert forall k :: a <= k < b ==> s[k] == num[k - a];
    RunLengthIs(s, a, |num|, NumeralChars);
    assert forall k :: b + 1 <= k < b + 1 + |unit| ==> s[k] == unit[k - b - 1];
    RunLengthIs(s, b + 1, |unit|, Letters);
  }

  /** The size parser reads back the four groups of a size description:
      the round trip from groups to text and back. */
  lemma SizeTextFound(fromNum: string, fromUnit: string, toNum: string, toUnit: string)
    requires |fromNum| > 0 && AllInClass(fromNum, NumeralChars)
    requires |fromUnit| > 0 && AllInClass(fromUnit, Letters)
    requires |toNum| > 0 && AllInClass(toNum, NumeralChars)
    requires |toUnit| > 0 && AllInClass(toUnit, Letters)
    ensures FindSize(SizeText(fromNum, fromUnit, toNum, toUnit)) == Some(SizeCapture(fromNum, fromUnit, toNum, toUnit))
  {
    SizeTextAtStart(fromNum, fromUnit, toNum, toUnit);
  }

  lemma SizeTextAtStart(fromNum: string, fromUnit: string, toNum: string, toUnit: string)
    requires |fromNum| > 0 && AllInClass(fromNum, NumeralChars)
    requires |fromUnit| > 0 && AllInClass(fromUnit, Letters)
    requires |toNum| > 0 && AllInClass(toNum, NumeralChars)
    requires |toUnit| > 0 && AllInClass(toUnit, Letters)
    ensures SizeAt(SizeText(fromNum, fromUnit, toNum, toUnit), 0) == Some(SizeCapture(fromNum, fromUnit, toNum, toUnit))
  {
    var s := SizeText(fromNum, fromUnit, toNum, toUnit);
    var d := |SizeHead| + |fromNum| + 1 + |fromUnit|;
    SizeTextFirst(fromNum, fromUnit, toNum, toUnit);
    SizeTextSecond(fromNum, fromUnit, toNum, toUnit);
    SizeAtParts(s, fromNum, fromUnit, d, toNum, toUnit);
  }

  /** The size pattern matches at the start when its parts follow each other. */
  lemma SizeAtParts(s: string, fromNum: string, fromUnit: string, d: nat, toNum: string, toUnit: string)
    requires |SizeHead| <= |s| && LiteralAt(s, 0, SizeHead)
    requires QuantityAt(s, |SizeHead|) == Some((fromNum, fromUnit, d))
    requires d + 4 <= |s| && LiteralAt(s, d, " to ")
    requires QuantityAt(s, d + 4) == Some((toNum, toUnit, |s|))
    ensures SizeAt(s, 0) == Some(SizeCapture(fromNum, fromUnit, toNum, toUnit))
  {
  }

  /** The head and the first quantity of a size description. */
  lemma SizeTextFirst(fromNum: string, fromUnit: string, toNum: string, toUnit: string)
    requires |fromNum| > 0 && AllInClass(fromNum, NumeralChars)
    requires |fromUnit| > 0 && AllInClass(fromUnit, Letters)
    ensures var s := SizeText(fromNum, fromUnit, toNum, toUnit);
      && LiteralAt(s, 0, SizeHead)
      && QuantityAt(s, |SizeHead|) == Some((fromNum, fromUnit, |SizeHead| + |fromNum| + 1 + |fromUnit|))
  {
    var s := SizeText(fromNum, fromUnit, toNum, toUnit);
    SizeTextLayout(fromNum, fromUnit, toNum, toUnit);
    var a := |SizeHead|;
    var d := a + |fromNum| + 1 + |fromUnit|;
    LiteralItself(s, 0, SizeHead);
    assert s[a..a + |fromNum|] == fromNum;
    assert s[a + |fromNum| + 1..d] == fromUnit;
    assert s[d] == ' ';
    QuantityFound(s, a, fromNum, fromUnit);
  }

  /** The separator and the second quantity of a size description. */
  lemma SizeTextSecond(fromNum: string, fromUnit: string, toNum: string, toUnit: string)
    requires |toNum| > 0 && AllInClass(toNum, NumeralChars)
    requires |toUnit| > 0 && AllInClass(toUnit, Letters)
    ensures var s := SizeText(fromNum, fromUnit, toNum, toUnit);
      var d := |SizeHead| + |fromNum| + 1 + |fromUnit|;
      && d + 4 <= |s|
      && LiteralAt(s, d, " to ")
      && QuantityAt(s, d + 4) == Some((toNum, toUnit, |s|))
  {
    var s := SizeText(fromNum, fromUnit, toNum, toUnit);
    SizeTextLayout(fromNum, fromUnit, toNum, toUnit);
    var d := |SizeHead| + |fromNum| + 1 + |fromUnit|;
    LiteralItself(s, d, " to ");
    assert s[d + 4..d + 4 + |toNum|] == toNum;
    assert s[d + 4 + |toNum| + 1..] == toUnit;
    QuantityFound(s, d + 4, toNum, toUnit);
  }

  /** The throughput parser reads back both groups of a throughput description. */
  lemma ThroughputTextFound(fromOps: string, toOps: string)
    requires |fromOps| > 0 && AllInClass(fromOps, Digits)
    requires |toOps| > 0 && AllInClass(toOps, Digits)
    ensures FindThroughput(ThroughputText(fromOps, toOps)) == Some(ThroughputCapture(fromOps, toOps))
  {
    var s := ThroughputText(fromOps, toOps);
    var a := |ThroughputHead|;
    var b := a + |fromOps|;
    var c := b + |ThroughputMiddle|;
    var d := c + |toOps|;
    assert |s| == d + |ThroughputTail|;
    assert s[0..a] == ThroughputHead;
    LiteralItself(s, 0, ThroughputHead);
    assert s[a..b] == fromOps;
    assert s[b..c] == ThroughputMiddle;
    assert s[b] == ' ';
    RunLengthIs(s, a, |fromOps|, Digits);
    LiteralItself(s, b, ThroughputMiddle);
    assert s[c..d] == toOps;
    assert s[d..d + |ThroughputTail|] == ThroughputTail;
    assert s[d] == ' ';
    RunLengthIs(s, c, |toOps|, Digits);
    LiteralItself(s, d, ThroughputTail);
    assert ThroughputAt(s, 0) == Some(ThroughputCapture(fromOps, toOps));
  }

  /** No character of `s` is in the folding orbit of `x`. */
  predicate FoldFree(s: string, x: char)
  {
    forall j :: 0 <= j < |s| ==> Fold(s[j]) != x
  }

  /** A lower-case letter is absent in every case form. */
  lemma LetterFoldFree(s: string, x: char)
    requires 'a' <= x <= 'z'
    requires x !in s && (x as int - 32) as char !in s
    requires x == 'k' ==> '\U{212A}' !in s
    requires x == 's' ==> '\U{017F}' !in s
    ensures FoldFree(s, x)
  {
    forall j | 0 <= j < |s|
      ensures Fold(s[j]) != x
    {
      assert s[j] in s;
    }
  }

  /** A character that is no letter folds only to itself. */
  lemma SymbolFoldFree(s: string, x: char)
    requires !('a' <= x <= 'z') && !('A' <= x <= 'Z') && x != '\U{212A}' && x != '\U{017F}'
    requires x !in s
    ensures FoldFree(s, x)
  {
    forall j | 0 <= j < |s|
      ensures Fold(s[j]) != x
    {
      assert s[j] in s;
    }
  }

  /** A literal needs every one of its characters, up to case, in the text. */
  lemma LiteralNeedsChar(s: string, p: string, k: nat)
    requires k < |p| && FoldFree(s, Fold(p[k]))
    ensures forall i :: !LiteralAt(s, i, p)
  {
    forall i: nat
      ensures !LiteralAt(s, i, p)
    {
      if i + |p| <= |s| {
        assert FoldAll(s[i..i + |p|])[k] == Fold(s[i + k]);
        assert FoldAll(s[i..i + |p|])[k] != FoldAll(p)[k];
      }
    }
  }

  lemma SubnetNeedsChar(s: string, k: nat)
    requires k < |SubnetHead| && FoldFree(s, Fold(SubnetHead[k]))
    ensures !SubnetMatches(s)
  {
    LiteralNeedsChar(s, SubnetHead, k);
  }

  lemma SizeNeedsChar(s: string, k: nat)
    requires k < |SizeHead| && FoldFree(s, Fold(SizeHead[k]))
    ensures !SizeMatches(s) && FindSize(s).None?
  {
    LiteralNeedsChar(s, SizeHead, k);
  }

  lemma ThroughputNeedsChar(s: string, k: nat)
    requires k < |ThroughputHead| && FoldFree(s, Fold(ThroughputHead[k]))
    ensures !ThroughputMatches(s) && FindThroughput(s).None?
  {
    LiteralNeedsChar(s, ThroughputHead, k);
  }

  /** The pattern matches somewhere exactly when the leftmost search finds
      a match. */
  lemma SizeFound(s: string)
    ensures SizeMatches(s) <==> FindSize(s).Some?
  {
  }

  lemma ThroughputFound(s: string)
    ensures ThroughputMatches(s) <==> FindThroughput(s).Some?
  {
  }
}
