/** The affix steps of the numberbox parser: what the patterns of the prefix and the suffix take away. */
module Affixes {
  import opened Wrappers
  import opened Texts
  import opened Patterns
  import opened NumberBoxes

  // ----- characters -----

  lemma TrimChars(s: string)
    ensures forall c :: c in Trim(s) ==> c in s
  {
    hide Trim;
    var l, r := TrimParts(s);
    assert forall c :: c in Trim(s) ==> c in l + Trim(s) + r;
  }

  predicate NoDigits(s: string) {
    forall c :: c in s ==> !IsDigit(c)
  }

  /** No digit but zeros. */
  predicate OnlyZeros(s: string) {
    forall c :: c in s && IsDigit(c) ==> c == '0'
  }

  lemma TrimLeftChars(s: string)
    ensures forall c :: c in TrimLeft(s) ==> c in s
  {
    hide TrimLeft;
    var l := LeftParts(s);
    assert forall c :: c in TrimLeft(s) ==> c in l + TrimLeft(s);
  }

  lemma PlainDigits(s: string, o: Options)
    requires Plain(s, o)
    ensures NoDigits(s) && '-' !in s && o.decimal !in s && '.' !in s
  {
  }

  lemma {:induction false} RemovedPlain(s: string, x: Pattern, o: Options)
    requires Plain(s, o)
    ensures Plain(Removed(s, x), o)
  {
    hide AffixChar;
    SubstitutedChars(s, x, "");
    var t := Removed(s, x);
    assert forall i :: 0 <= i < |t| ==> t[i] in t && t[i] in s;
  }

  // ----- patterns of affixes -----

  /** The pattern of an affix. */
  function AffixPattern(affix: string): Pattern
    requires Affix(affix) && affix != ""
  {
    Compile(Trim(affix)).value
  }

  /** What such a pattern has in common: it tells no digit from another, and its text is free of digits, signs
      and separators. */
  predicate Fits(x: Pattern, o: Options) {
    && (x.Pattern? ==> forall c :: IsDigit(c) ==> (Hits(x.head, c) <==> Hits(x.head, '0')))
    && Plain(x.rest, o)
  }

  lemma AffixFits(affix: string, o: Options)
    requires Affix(affix) && affix != "" && Plain(affix, o)
    ensures Fits(AffixPattern(affix), o)
    ensures AffixPattern(affix).atEnd ==> 1 + |AffixPattern(affix).rest| <= |affix|
    ensures !Blank(affix)
  {
    hide Trim, Compile, Hits, IsSpace;
    var t := Trim(affix);
    TrimChars(affix);
    TrimPlain(affix, o);
    PlainDigits(t, o);
    CompiledParts(t);
    var rest := AffixPattern(affix).rest;
    assert forall i :: 0 <= i < |rest| ==> rest[i] in t;
    assert forall c :: c in t ==> AffixChar(c, o);
    var l, r := TrimParts(affix);
    assert |t| <= |affix|;
    var i := Visible(affix);
  }

  lemma CompiledParts(t: string)
    requires t != "" && NoDigits(t) && Compile(t).Some?
    ensures var x := Compile(t).value;
            && (x.Pattern? ==> forall c :: IsDigit(c) ==> (Hits(x.head, c) <==> Hits(x.head, '0')))
            && (forall c :: c in x.rest ==> c in t) && (x.atEnd ==> 1 + |x.rest| <= |t|)
  {
    assert t[0] in t;
    var atEnd := |t| > 1 && t[|t| - 1] == '$';
    var rest := if atEnd then t[1..|t| - 1] else t[1..];
    assert forall c :: c in rest ==> c in t;
    EscapedParts(t[0], rest, atEnd);
  }

  lemma EscapedParts(c: char, rest: string, atEnd: bool)
    requires !IsDigit(c) && Escaped(c, rest, atEnd).Some?
    ensures var x := Escaped(c, rest, atEnd).value;
            && (x.Pattern? ==> forall d :: IsDigit(d) ==> (Hits(x.head, d) <==> Hits(x.head, '0')))
            && (forall d :: d in x.rest ==> d == c || d in rest)
            && |x.rest| <= |rest| + 1 && x.atEnd == atEnd
  {
    if c == 'c' && rest != "" && IsLetter(rest[0]) {
      assert (rest[0] as int % 32) < 32;
      assert forall d :: d in rest[1..] ==> d in rest;
    }
  }

  // ----- one step -----

  /** What stands in front of a number, and behind it. */
  datatype Around = Around(front: string, back: string)

  function FrontLeft(x: Pattern, s: string): string {
    if x.atEnd then s else Removed(s, x)
  }

  /** Behind a digit, which is a character of a word. */
  function BackLeft(x: Pattern, s: string): string {
    if x.Edge? then AtEdges(true, s, x, "") else Removed(s, x)
  }

  /** What is left around a number by a step that does not touch the number. */
  function After(x: Pattern, s: Around): Around {
    Around(TrimLeft(FrontLeft(x, s.front)), TrimRight(BackLeft(x, s.back)))
  }

  /** A one-character pattern that hits a digit, the sign or the decimal separator. */
  predicate HitsNumber(x: Pattern, o: Options) {
    && x.Pattern? && x.rest == "" && !x.atEnd
    && (Hits(x.head, '0') || Hits(x.head, '-') || (o.precision > 0 && Hits(x.head, o.decimal)))
  }

  /** A longer pattern hits the last digit of a number before `back`. */
  predicate EatsIn(x: Pattern, back: string) {
    && x.Pattern? && (x.rest != "" || x.atEnd) && Hits(x.head, '0')
    && if x.atEnd then back == x.rest else x.rest <= back
  }

  predicate Damages(x: Pattern, back: string, o: Options) {
    HitsNumber(x, o) || EatsIn(x, back)
  }

  /** A number as it is shown, or without its group separators. */
  predicate IsBody(b: string, n: int, o: Options) {
    b == Body(n, o) || b == BareBody(n, o)
  }

  /** Any other one-character pattern takes at most the group separators out of a number. */
  lemma RemovedBody(n: int, o: Options, x: Pattern)
    requires Readable(o) && Separators(o) && x.Pattern? && x.rest == "" && !x.atEnd && !HitsNumber(x, o)
    requires forall c :: IsDigit(c) ==> (Hits(x.head, c) <==> Hits(x.head, '0'))
    ensures Removed(Body(n, o), x) == Body(n, o) || Removed(Body(n, o), x) == BareBody(n, o)
  {
    hide Hits, Dec, Pad, Whole, Decimals, Grouped, Substituted;
    var g, f := GroupedInt(n, o), Fraction(n, o.decimal, o);
    RemovedConcat(Sign(n) + g, f, x);
    RemovedConcat(Sign(n), g, x);
    RemovedNone(Sign(n), x);
    RemovedNone(f, x);
    if o.group.Some? && Hits(x.head, o.group.value) {
      RemovedGroups(Int(n, o), o.group.value, x);
    } else {
      if o.group.Some? {
        GroupedChars(Int(n, o), o.group.value);
      }
      RemovedNone(g, x);
    }
  }

  lemma {:induction false} RemovedGroups(d: string, sep: char, x: Pattern)
    requires AllDigits(d) && sep != '$' && x.Pattern? && x.rest == "" && !x.atEnd && Hits(x.head, sep)
    requires forall c :: IsDigit(c) ==> !Hits(x.head, c)
    ensures Removed(Grouped(d, sep), x) == d
  {
    hide Hits, Substituted, Grouped, Joined;
    if |d| <= 3 {
      GroupShort(d, sep);
      RemovedNone(d, x);
    } else {
      var head, last := d[..|d| - 3], d[|d| - 3..];
      var front, j := Grouped(head, sep), Joined(sep, last);
      GroupedLast(d, sep);
      RemovedGroups(head, sep, x);
      RemovedConcat(front, j, x);
      RemovedJoined(sep, last, x);
      assert head + last == d;
    }
  }

  lemma RemovedJoined(sep: char, last: string, x: Pattern)
    requires sep != '$' && x.Pattern? && x.rest == "" && !x.atEnd && Hits(x.head, sep)
    requires forall i :: 0 <= i < |last| ==> !Hits(x.head, last[i])
    ensures Removed(Joined(sep, last), x) == last
  {
    hide Hits, Substituted;
    RemovedConcat([sep], last, x);
    RemovedNone(last, x);
    RemovedSingle(sep, x);
    assert "" + last == last;
  }

  lemma RemovedSingle(c: char, x: Pattern)
    requires x.Pattern? && x.rest == "" && !x.atEnd && Hits(x.head, c)
    ensures Removed([c], x) == ""
  {
    MatchesOne([c], x);
    SubstitutedStep([c], x, "");
  }

  lemma RemovedBare(n: int, o: Options, x: Pattern)
    requires Readable(o) && Separators(o) && x.Pattern? && x.rest == "" && !x.atEnd && !HitsNumber(x, o)
    requires forall c :: IsDigit(c) ==> (Hits(x.head, c) <==> Hits(x.head, '0'))
    ensures Removed(BareBody(n, o), x) == BareBody(n, o)
  {
    hide Hits, Dec, Pad, Whole, Decimals, Substituted;
    RemovedNone(BareBody(n, o), x);
  }

  /** Where a number starts and ends, and what is not in it. */
  lemma BodyFacts(n: int, b: string, x: Pattern, o: Options)
    requires Readable(o) && Separators(o) && IsBody(b, n, o) && Fits(x, o)
    ensures Solid(b) && IsDigit(b[|b| - 1]) && Avoids(b, x.rest)
  {
    hide Body, Solid, Sign, Int, Fraction, Hits, IsSpace;
    BodyChars(n, o);
    BareSolid(n, o);
    BareChars(n, o);
    assert forall i :: 0 <= i < |b| ==> !AffixChar(b[i], o);
    assert forall c :: c in x.rest ==> AffixChar(c, o);
  }

  lemma BareChars(n: int, o: Options)
    requires Readable(o) && Separators(o)
    ensures var b := BareBody(n, o); b != "" && IsDigit(b[|b| - 1]) && forall i :: 0 <= i < |b| ==> !AffixChar(b[i], o)
  {
    hide Dec, Pad, Whole, Decimals;
    var b, f := BareBody(n, o), Fraction(n, o.decimal, o);
    assert b[|b| - 1] == if f == "" then Int(n, o)[|Int(n, o)| - 1] else f[|f| - 1];
  }

  /** A pattern that does not damage the number takes away what it takes of the text in front and behind. */
  lemma RemovedAround(n: int, b: string, s: Around, x: Pattern, o: Options) returns (d: string)
    requires Readable(o) && Separators(o) && IsBody(b, n, o) && Fits(x, o) && !Damages(x, s.back, o)
    ensures Removed(s.front + b + s.back, x) == FrontLeft(x, s.front) + d + BackLeft(x, s.back) && IsBody(d, n, o)
  {
    hide Body, BareBody, Hits, Substituted, AtEdges, Readable, Separators, Solid;
    BodyFacts(n, b, x, o);
    SolidSome(b);
    var text := s.front + b + s.back;
    assert text == s.front + (b + s.back);
    d := b;
    if x.Edge? {
      EdgesAround(b, s, x);
    } else if x.rest == "" && !x.atEnd {
      RemovedConcat(s.front + b, s.back, x);
      RemovedConcat(s.front, b, x);
      RemovedBody(n, o, x);
      RemovedBare(n, o, x);
      d := Removed(b, x);
    } else {
      PatternAround(b, s, x);
    }
  }

  lemma EdgesAround(b: string, s: Around, x: Pattern)
    requires x.Edge? && b != "" && IsDigit(b[|b| - 1]) && Avoids(b, x.rest)
    ensures Removed(s.front + b + s.back, x) == FrontLeft(x, s.front) + b + BackLeft(x, s.back)
  {
    hide AtEdges;
    var text, word := s.front + b + s.back, WordAfter(false, s.front);
    assert text == s.front + (b + s.back);
    if x.rest == "" {
      EdgesOnly(false, text, x);
      EdgesOnly(false, s.front, x);
      EdgesOnly(true, s.back, x);
    } else if x.atEnd {
      EdgesAtEnd(false, s.front + b, s.back, x);
    } else {
      EdgesSplit(false, s.front, b + s.back, x);
      EdgesAvoid(word, b, s.back, x);
      Assoc(AtEdges(false, s.front, x, ""), b, AtEdges(true, s.back, x, ""));
    }
  }

  lemma PatternAround(b: string, s: Around, x: Pattern)
    requires x.Pattern? && (x.rest != "" || x.atEnd) && b != "" && IsDigit(b[|b| - 1]) && Avoids(b, x.rest)
    requires Hits(x.head, b[|b| - 1]) ==> if x.atEnd then s.back != x.rest else !(x.rest <= s.back)
    ensures Removed(s.front + b + s.back, x) == FrontLeft(x, s.front) + b + BackLeft(x, s.back)
  {
    hide Substituted, Hits;
    var text := s.front + b + s.back;
    assert text == s.front + (b + s.back);
    if x.atEnd {
      assert (s.front + b)[|s.front + b| - 1] == b[|b| - 1];
      RemovedToEnd(s.front + b, s.back, x);
    } else {
      RemovedSplit(s.front, b + s.back, x);
      RemovedAfter(b, s.back, x);
      Assoc(Removed(s.front, x), b, Removed(s.back, x));
    }
  }

  /** The step, with the trimming after it. */
  lemma StepAround(n: int, b: string, s: Around, x: Pattern, o: Options) returns (d: string)
    requires Readable(o) && Separators(o) && IsBody(b, n, o) && Fits(x, o) && !Damages(x, s.back, o)
    requires Plain(s.front, o) && Plain(s.back, o)
    ensures Trim(Removed(s.front + b + s.back, x)) == After(x, s).front + d + After(x, s).back && IsBody(d, n, o)
    ensures Plain(After(x, s).front, o) && Plain(After(x, s).back, o)
  {
    hide Body, BareBody, Substituted, AtEdges, Readable, Separators, TrimLeft, TrimRight, FrontLeft, BackLeft, Plain;
    hide Damages, Fits, Solid;
    d := RemovedAround(n, b, s, x, o);
    BodyFacts(n, d, x, o);
    TrimAround(FrontLeft(x, s.front), d, BackLeft(x, s.back));
    LeftPlain(x, s, o);
  }

  lemma TrimAround(f: string, b: string, j: string)
    requires Solid(b)
    ensures Trim(f + b + j) == TrimLeft(f) + b + TrimRight(j)
  {
    hide TrimLeft, TrimRight, IsSpace;
    var w := LeftParts(f);
    var v := TrimLeft(f);
    assert f + b + j == w + (v + b + j);
    TrimLeftBlank(w, v + b + j);
    assert v + b + j == (v + b) + j;
    TrimRightKeeps(v + b, j);
  }

  lemma LeftPlain(x: Pattern, s: Around, o: Options)
    requires Plain(s.front, o) && Plain(s.back, o)
    ensures Plain(After(x, s).front, o) && Plain(After(x, s).back, o)
  {
    hide TrimLeft, TrimRight, AffixChar, Substituted, AtEdges;
    var f, j := FrontLeft(x, s.front), BackLeft(x, s.back);
    RemovedPlain(s.front, x, o);
    RemovedPlain(s.back, x, o);
    if x.Edge? {
      EdgesChars(true, s.back, x, "");
      assert forall i :: 0 <= i < |j| ==> j[i] in j && j[i] in s.back;
    }
    var l := LeftParts(f);
    var r := RightParts(j);
    assert forall i :: 0 <= i < |TrimLeft(f)| ==> TrimLeft(f)[i] == f[|l| + i];
    assert forall i :: 0 <= i < |TrimRight(j)| ==> TrimRight(j)[i] == j[i];
  }

  // ----- both steps -----

  /** Separators that read back, and affixes free of digits, signs and separators. */
  predicate Apart(o: Options) {
    Readable(o) && Separators(o) && Plain(o.prefix, o) && Plain(o.suffix, o)
  }

  /** What stands around the number after the step for the prefix, and after both. */
  function FirstLeft(o: Options): Around
    requires Affix(o.prefix)
  {
    if o.prefix == "" then Around("", o.suffix) else After(AffixPattern(o.prefix), Around(o.prefix, o.suffix))
  }

  function LastLeft(o: Options): Around
    requires Affix(o.prefix) && Affix(o.suffix)
  {
    if o.suffix == "" then FirstLeft(o) else After(AffixPattern(o.suffix), FirstLeft(o))
  }

  /** Neither pattern takes away any part of the number. */
  predicate Spared(o: Options)
    requires Affix(o.prefix) && Affix(o.suffix)
  {
    && (o.prefix != "" ==> !Damages(AffixPattern(o.prefix), o.suffix, o))
    && (o.suffix != "" ==> !Damages(AffixPattern(o.suffix), FirstLeft(o).back, o))
  }

  /** And in the end nothing stands in front of it. */
  predicate AffixesWork(o: Options)
    requires Affix(o.prefix) && Affix(o.suffix)
  {
    Spared(o) && LastLeft(o).front == ""
  }

  function Text(n: int, o: Options): string {
    o.prefix + Body(n, o) + o.suffix
  }

  /** What the two affix steps leave of a shown value. */
  function Left(n: int, o: Options): string
    requires Readable(o)
  {
    Without(Without(Text(n, o), o.prefix), o.suffix)
  }

  lemma AfterFirst(n: int, o: Options) returns (b: string)
    requires Apart(o) && (o.prefix != "" ==> !Damages(AffixPattern(o.prefix), o.suffix, o))
    ensures var s := FirstLeft(o);
            && Without(Text(n, o), o.prefix) == s.front + b + s.back && IsBody(b, n, o)
            && Plain(s.front, o) && Plain(s.back, o)
  {
    hide Body, BareBody, Substituted, Trim, Damages, Fits, Compile, Plain, Separators, After, Separator;
    b := Body(n, o);
    if o.prefix == "" {
      assert Text(n, o) == "" + b + o.suffix;
      NothingPlain(o);
    } else {
      AffixFits(o.prefix, o);
      b := StepAround(n, b, Around(o.prefix, o.suffix), AffixPattern(o.prefix), o);
    }
  }

  lemma NothingPlain(o: Options)
    ensures Plain("", o) && TrimRight("") == ""
  {
  }

  /** If the number is spared, it is left with what is left around it. */
  lemma AfterLast(n: int, o: Options) returns (b: string)
    requires Apart(o) && Spared(o)
    ensures var s := LastLeft(o);
            && Left(n, o) == s.front + b + s.back && IsBody(b, n, o)
            && Plain(s.front, o) && Plain(s.back, o)
  {
    hide Body, BareBody, Substituted, Trim, Damages, Fits, Compile, Plain, Separators, After, Separator, Text;
    b := AfterFirst(n, o);
    if o.suffix != "" {
      AffixFits(o.suffix, o);
      b := StepAround(n, b, FirstLeft(o), AffixPattern(o.suffix), o);
    }
  }
}
