/** Which separators let a number that the numberbox shows read back. */
module SeparatorRules {
  import opened Wrappers
  import opened Texts
  import opened Patterns
  import opened NumberBoxes
  import opened Affixes
  import opened ReadBacks

  // ----- 1234 with separators for which it fails -----

  /** Whole numbers with a group separator and nothing else. */
  function Bare(sep: char, decimal: char): Options {
    Options("", "", Some(sep), decimal, 0, None, None)
  }

  lemma Some1234()
    ensures Dec(1234) == "1234" && Dec(12) == "12" && Dec(1) == "1"
    ensures Canonical(1234, 0) == "1234" && Canonical(-1234, 0) == "-1234" && Canonical(12, 0) == "12"
  {
    assert Dec(1) == "1";
    assert Dec(12) == "12";
    assert Dec(123) == "123";
    assert Dec(1234) == "1234";
    WholeZero(1234);
    WholeZero(12);
  }

  /** What is shown for 1234. */
  lemma Shown1234(sep: char, decimal: char)
    requires !IsDigit(sep)
    ensures Formatted("1234", Bare(sep, decimal)) == if sep == '$' then "1$2" else "1" + [sep] + "234"
    ensures Formatted("-1234", Bare(sep, decimal)) == "-" + Formatted("1234", Bare(sep, decimal))
  {
    hide Formatted;
    Some1234();
    var o := Bare(sep, decimal);
    FormattedBody(1234, o);
    FormattedBody(-1234, o);
    WholeZero(1234);
    GroupedLast("1234", sep);
    assert "1234"[..1] == "1" && "1234"[1..] == "234";
    GroupShort("1", sep);
    assert GroupedInt(1234, o) == GroupedInt(-1234, o) == Grouped("1234", sep);
  }

  /** With a point as separator the grouped text already reads as another number. */
  lemma PointFails(decimal: char)
    requires Separator(decimal)
    ensures Parsed(Formatted("1234", Bare('.', decimal)), Bare('.', decimal)) == "1"
  {
    hide Formatted, Stripped, ToFixed, Signed, Dec, Val, Trim, TrimLeft;
    var w, f := "1", "234";
    Shown1234('.', decimal);
    assert "1" + ['.'] + "234" == "1.234";
    PointReads(w, f, "1.234");
    assert w + f == "1234";
    Some1234();
    ValDec(1234);
    OneAndABit();
  }

  lemma PointReads(w: string, f: string, text: string)
    requires AllDigits(w) && AllDigits(f) && w != "" && f != "" && text == w + ("." + f)
    ensures AllDigits(w + f)
    ensures Signed(text) == Some((Decimal(Val(w + f), |f|), |text|)) && Trim(text) == text && TrimLeft(text) == text
  {
    hide Val, Unsigned, TrimLeft, TrimRight;
    assert text[0] == w[0] && text[|text| - 1] == f[|f| - 1];
    assert IsDigit(text[0]) && IsDigit(text[|text| - 1]);
    TrimLeftBlank("", text);
    assert "" + text == text;
    assert TrimLeft(text) == text;
    TrimRightKeeps(text, "");
    TrimNothing();
    assert text + "" == text;
    assert Trim(text) == text;
    UnsignedPoint(w, f, "");
    assert f + "" == f;
    assert text[0] != '-' && text[0] != '+';
    assert Signed(text) == Unsigned(text);
    assert Unsigned(text) == Some((Decimal(Val(w + f), |f|), |text|));
    assert Signed(text) == Some((Decimal(Val(w + f), |f|), |text|));
    assert Trim(text) == text;
  }

  lemma OneAndABit()
    ensures ToFixed(Decimal(1234, 3), 0) == "1"
  {
    hide Dec;
    Some1234();
    assert Pow10(3) == 1000;
    WholeZero(1);
  }

  /** With a minus sign as separator a negative number loses its sign. */
  lemma MinusFails(decimal: char)
    requires Separator(decimal) && !IsSpecial(decimal) && decimal != '-'
    ensures Parsed(Formatted("-1234", Bare('-', decimal)), Bare('-', decimal)) == "1234"
  {
    hide Formatted, Parsed, Canonical, RemoveAll;
    var text, o := "-1-234", Bare('-', decimal);
    Some1234();
    Shown1234('-', decimal);
    assert text == "-" + ("1" + ['-'] + "234");
    RemoveLast("", "1-234", '-');
    RemoveLast("1", "234", '-');
    RemoveNone("234", '-');
    assert text == "" + ['-'] + "1-234" && "1-234" == "1" + ['-'] + "234";
    assert "" + ("1" + "234") == "1234";
    ReadsAfterGroups(text, 2, 1234, o);
  }

  /** With a dollar sign as separator the last digits are lost. */
  lemma DollarFails(decimal: char)
    requires Separator(decimal) && !IsSpecial(decimal) && decimal != '$'
    ensures Parsed(Formatted("1234", Bare('$', decimal)), Bare('$', decimal)) == "12"
  {
    hide Formatted, Parsed, Canonical, RemoveAll;
    var text, o := "1$2", Bare('$', decimal);
    Some1234();
    Shown1234('$', decimal);
    RemoveLast("1", "2", '$');
    RemoveNone("2", '$');
    assert text == "1" + ['$'] + "2" && "1" + "2" == "12";
    ReadsAfterGroups(text, 1, 12, o);
  }

  /** A text that is a whole number once the separators are out, with a separator at `i`. */
  lemma ReadsAfterGroups(text: string, i: nat, n: nat, o: Options)
    requires o.group.Some? && o == Bare(o.group.value, o.decimal) && Readable(o) && Solid(text)
    requires !IsSpecial(o.decimal) && !IsSpecial(o.group.value)
    requires 1 <= i < |text| && text[i] == o.group.value && !NumberChar(text[i])
    requires RemoveAll(text, [o.group.value]) == Canonical(n, 0)
    ensures Parsed(text, o) == Canonical(n, 0)
  {
    hide RemoveAll, Trim, Parsed, RemoveSpace, ReplaceChar, Finished, Stripped, ReadsAsNumber, Canonical, ParseFloat;
    LiteralFinish(text, o);
    SpecialText(text, i, o);
    var v := Canonical(n, 0);
    WholeDigits(n, v);
    TrimVisible(v);
    ReplaceNone(v, o.decimal, '.');
    SpaceNone(v);
    ParseCanonical(n, 0, "");
    assert v + "" == v;
    ReadsAs(text, n, o);
  }

  lemma WholeDigits(n: nat, v: string)
    requires v == Canonical(n, 0)
    ensures AllDigits(v) && Solid(v)
  {
  }

  lemma OneSpecial(c: char)
    requires !IsDigit(c)
    ensures Escaped(c, "", false) == Some(PatternOf(c))
  {
    LiteralChar(c);
    assert [c][1..] == "";
  }

  predicate Catches(x: Pattern, c: char) {
    x.Pattern? && Hits(x.head, c)
  }

  /** What the pattern of a separator catches. */
  lemma PatternFacts(c: char)
    requires !IsDigit(c)
    ensures var x := PatternOf(c);
            && !x.atEnd && (x.rest != "" ==> c == 'c') && (x.Edge? <==> c == 'b' || c == 'B')
            && (x.Edge? ==> x == Edge(c == 'B', "", false))
            && (forall d :: IsDigit(d) ==> (Catches(x, d) <==> c == 'd' || c == 'S' || c == 'w'))
            && (Catches(x, '-') <==> c == '-' || c == 'D' || c == 'S' || c == 'W')
            && (forall d :: IsSpecial(d) && Catches(x, d) ==> c == 'D' || c == 'S' || c == 'w')
            && (!IsSpecial(c) ==> x == Literally([c]) && Catches(x, c))
  {
    hide PatternOf;
    OneSpecial(c);
    assert [c][1..] == "";
    assert Unwrapped("", 0) == Some("");
  }

  /** Such a text does not read as a number as it stands. */
  lemma SpecialText(text: string, i: nat, o: Options)
    requires o.prefix == o.suffix == "" && Readable(o) && Solid(text) && 1 <= i < |text| && !NumberChar(text[i])
    ensures !ReadsAsNumber(text) && Stripped(text, o) == Finished(text, o)
  {
    hide Trim, Signed, Finished;
    TrimVisible(text);
    if ReadsAsNumber(text) {
      SignedChars(text);
    }
  }

  /** The step for the group separators takes out what their pattern hits. */
  lemma GroupsMiss(s: string, o: Options)
    requires Readable(o) && o.group.Some? && o.group.value != 'c' && PatternOf(o.group.value).Pattern?
    ensures forall c :: c in Finished(s, o) ==> c == '.' || (c in s && !Catches(PatternOf(o.group.value), c))
  {
    hide Trim, RemoveSpace, Substituted, PatternOf, Hits;
    PatternFacts(o.group.value);
    var x := PatternOf(o.group.value);
    RemovedMisses(s, x);
    TrimChars(Removed(s, x));
    var b := Trim(Removed(s, x));
    var d := Substituted(b, PatternOf(o.decimal), ".");
    SubstitutedChars(b, PatternOf(o.decimal), ".");
    TrimChars(d);
    SpaceChars(Trim(d));
  }

  /** And that for the decimal separator turns it into points. */
  lemma DecimalsMiss(s: string, o: Options)
    requires Readable(o) && o.decimal != 'c' && PatternOf(o.decimal).Pattern?
    ensures forall c :: c in Finished(s, o) ==> c == '.' || (c in s && !Catches(PatternOf(o.decimal), c))
  {
    hide Trim, RemoveSpace, Substituted, PatternOf, Hits;
    PatternFacts(o.decimal);
    var b := s;
    if o.group.Some? {
      var x := PatternOf(o.group.value);
      SubstitutedChars(s, x, "");
      TrimChars(Removed(s, x));
      b := Trim(Removed(s, x));
    }
    var d := Substituted(b, PatternOf(o.decimal), ".");
    SubstitutedMisses(b, PatternOf(o.decimal), ".");
    TrimChars(d);
    SpaceChars(Trim(d));
  }

  // ----- boxes without affixes and limits -----

  predicate PlainBox(o: Options) {
    Readable(o) && o.prefix == "" && o.suffix == "" && o.min.None? && o.max.None?
  }

  lemma ShownPlainly(n: int, o: Options)
    requires PlainBox(o)
    ensures Formatted(Canonical(n, o.precision), o) == Body(n, o)
  {
    hide Formatted, Canonical, Body;
    FormattedBody(n, o);
    assert "" + Body(n, o) + "" == Body(n, o);
  }

  /** A text with a character that no number has is read after the steps. */
  lemma ReadAfterSteps(n: int, i: nat, o: Options)
    requires PlainBox(o) && Solid(Body(n, o)) && 1 <= i < |Body(n, o)| && !NumberChar(Body(n, o)[i])
    ensures Parsed(Formatted(Canonical(n, o.precision), o), o)
            == match ParseFloat(Finished(Body(n, o), o))
               case None => ""
               case Some(x) => ToFixed(x, o.precision)
  {
    hide Formatted, Canonical, Body, Parsed, Finished, ParseFloat, ToFixed, Stripped, ReadsAsNumber, Solid;
    ShownPlainly(n, o);
    SpecialText(Body(n, o), i, o);
    ParsedPlainly(Body(n, o), o);
  }

  /** After the steps a number has no sign any more: then a negative value does not read back. */
  lemma SignGone(n: int, i: nat, o: Options)
    requires PlainBox(o) && Solid(Body(n, o)) && 1 <= i < |Body(n, o)| && !NumberChar(Body(n, o)[i])
    requires n < 0 && '-' !in Finished(Body(n, o), o)
    ensures !ReadsBack(n, o)
  {
    hide Formatted, Body, Parsed, Finished, ParseFloat, ToFixed, Solid, Fixed;
    ReadAfterSteps(n, i, o);
    NoMinusRead(Finished(Body(n, o), o));
    FixedSign(Abs(n), o.precision);
    if ParseFloat(Finished(Body(n, o), o)).Some? {
      FixedStart(ParseFloat(Finished(Body(n, o), o)).value, o.precision);
    }
  }

  /** Or no digit. */
  lemma DigitsGone(n: int, i: nat, o: Options)
    requires PlainBox(o) && Solid(Body(n, o)) && 1 <= i < |Body(n, o)| && !NumberChar(Body(n, o)[i])
    requires NoDigits(Finished(Body(n, o), o))
    ensures !ReadsBack(n, o)
  {
    hide Formatted, Canonical, Body, Parsed, Finished, ParseFloat, ToFixed, Solid;
    ReadAfterSteps(n, i, o);
    NoDigitsRead(Finished(Body(n, o), o));
    CanonicalDiffer(n, n + 1, o.precision);
  }

  /** Or it reads as another value. */
  lemma OtherValue(n: int, m: int, x: Decimal, i: nat, o: Options)
    requires PlainBox(o) && Solid(Body(n, o)) && 1 <= i < |Body(n, o)| && !NumberChar(Body(n, o)[i])
    requires ParseFloat(Finished(Body(n, o), o)) == Some(x) && ToFixed(x, o.precision) == Canonical(m, o.precision)
    requires m != n
    ensures !ReadsBack(n, o)
  {
    hide Formatted, Canonical, Body, Parsed, Finished, ParseFloat, ToFixed, Solid;
    ReadAfterSteps(n, i, o);
    CanonicalDiffer(n, m, o.precision);
  }

  // ----- a round number -----

  /** `k` with nothing behind the decimal separator but zeros. */
  lemma RoundParts(k: nat, p: nat)
    ensures Whole(k * Pow10(p), p) == k && Decimals(k * Pow10(p), p) == 0
  {
    hide Pow10;
    RoundDivision(k, Pow10(p));
  }

  lemma RoundDivision(k: nat, d: nat)
    requires d > 0
    ensures (k * d) / d == k && (k * d) % d == 0
  {
    NotNegative(k * d, d);
    OneQuotient(k, (k * d) / d, (k * d) % d, d);
  }

  lemma OneQuotient(k: int, q: int, r: int, d: int)
    requires k * d == q * d + r && 0 <= r < d
    ensures q == k && r == 0
  {
    assert (k - q) * d == r;
    assert k - q >= 1 ==> (k - q) * d >= d;
    assert k - q <= -1 ==> (k - q) * d <= -d;
  }

  function Zeros(o: Options): string {
    if o.precision == 0 then "" else [o.decimal] + Pad(0, o.precision)
  }

  lemma RoundBody(k: nat, o: Options)
    ensures var n := k * Pow10(o.precision);
            && Body(n, o) == (if o.group.Some? then Grouped(Dec(k), o.group.value) else Dec(k)) + Zeros(o)
            && (n > 0 ==> Body(-n, o) == "-" + Body(n, o))
            && BareBody(n, o) == Dec(k) + Zeros(o)
  {
    hide Dec, Pad, Whole, Decimals, Pow10, Grouped;
    RoundParts(k, o.precision);
    var n := k * Pow10(o.precision);
    var g := GroupedInt(n, o);
    assert Abs(-n) == n && "" + g == g && "" + Int(n, o) == Int(n, o);
    assert ("-" + g) + Zeros(o) == "-" + (g + Zeros(o));
  }

  /** What is shown for 1234. */
  lemma Body1234(o: Options)
    requires o.group.Some?
    ensures var g, n := o.group.value, 1234 * Pow10(o.precision);
            && n > 0 && Body(n, o) == (if g == '$' then "1$2" else "1" + [g] + "234") + Zeros(o)
            && Body(-n, o) == "-" + Body(n, o) && BareBody(n, o) == "1234" + Zeros(o)
  {
    hide Body, BareBody, Pow10, Dec, Zeros, Grouped;
    Some1234();
    RoundBody(1234, o);
    Grouped1234(o.group.value);
    assert 1234 * Pow10(o.precision) > 0;
  }

  lemma Grouped1234(g: char)
    ensures Grouped("1234", g) == if g == '$' then "1$2" else "1" + [g] + "234"
  {
    GroupedLast("1234", g);
    assert "1234"[..1] == "1" && "1234"[1..] == "234";
    GroupShort("1", g);
  }

  lemma BodyEnds(n: int, o: Options)
    requires !IsDigit(o.decimal) || o.precision == 0
    requires o.group.Some? ==> o.group.value != '$'
    ensures Solid(Body(n, o))
  {
    hide Dec, Pad, Whole, Decimals, Grouped;
    if o.group.Some? {
      GroupedChars(Int(n, o), o.group.value);
    }
    var g, f := GroupedInt(n, o), Fraction(n, o.decimal, o);
    assert g != "" && IsDigit(g[0]) && IsDigit(g[|g| - 1]);
    var b := Body(n, o);
    assert b[0] == '-' || b[0] == g[0];
    assert b[|b| - 1] == if f == "" then g[|g| - 1] else f[|f| - 1];
  }

  // ----- the group separator -----

  /** A minus sign as group separator takes the sign along. */
  lemma MinusGroup(o: Options)
    requires PlainBox(o) && o.group == Some('-')
    ensures !ReadsBack(-1234 * Pow10(o.precision), o)
  {
    hide Body, Finished, ReadsBack, Pow10, Solid, PatternOf, BareBody;
    var n := 1234 * Pow10(o.precision);
    Body1234(o);
    BodyEnds(-n, o);
    PatternFacts('-');
    GroupsMiss(Body(-n, o), o);
    assert Body(-n, o)[2] == '-';
    SignGone(-n, 2, o);
  }

  /** A dollar sign as group separator costs two digits. */
  lemma DollarGroup(o: Options)
    requires PlainBox(o) && o.group == Some('$') && o.decimal != '-' && !IsSpecial(o.decimal) && o.decimal != '$'
    ensures !ReadsBack(1234 * Pow10(o.precision), o)
  {
    hide Body, Finished, ReadsBack, Pow10, Solid, BareBody, Canonical, ParseFloat, ToFixed, RemoveAll, Trim;
    hide ReplaceChar, RemoveSpace, Zeros, Dec;
    var p, n, m := o.precision, 1234 * Pow10(o.precision), 12 * Pow10(o.precision);
    var o' := o.(group := None);
    Body1234(o);
    RoundBody(12, o');
    Some1234();
    var text := "1$2" + Zeros(o);
    DollarEnds(text, o);
    RemoveLast("1", "2" + Zeros(o), '$');
    assert text == "1" + ['$'] + ("2" + Zeros(o));
    RemoveNone("2" + Zeros(o), '$');
    assert "1" + ("2" + Zeros(o)) == "12" + Zeros(o);
    assert Zeros(o') == Zeros(o) && BareBody(m, o') == "12" + Zeros(o) by { SameZeros(o); }
    LiteralFinish(text, o);
    assert BareBody(m, o') == Sign(m) + Int(m, o') + Fraction(m, o'.decimal, o') by { BareIs(m, o'); }
    BareSolid(m, o');
    TrimVisible(BareBody(m, o'));
    NothingPlain(o');
    var k := Pointed(m, "", o');
    assert BareBody(m, o') + "" == BareBody(m, o');
    assert Finished(text, o) == Canonical(m, p) + k;
    ParseCanonical(m, p, k);
    FixedAgain(m, p);
    assert m != n by { assert Pow10(p) > 0; }
    OtherValue(n, m, Decimal(m, p), 1, o);
  }

  lemma DollarWhole(o: Options)
    requires PlainBox(o) && o.group == Some('$') && o.precision == 0
    requires var x := PatternOf(o.decimal); x.Pattern? && !Catches(x, '0') && !Catches(x, '-')
    ensures !ReadsBack(1234 * Pow10(0), o)
  {
    hide Body, Finished, ReadsBack, BareBody, Canonical, ParseFloat, ToFixed, RemoveAll, Trim, PatternOf, Hits, Dec;
    hide Substituted, RemoveSpace;
    var text, v := "1$2", "12";
    Body1234(o);
    assert Pow10(0) == 1 && Zeros(o) == "" && text + "" == text;
    PatternFacts('$');
    PatternFacts(o.decimal);
    LiteralRemoves(text, ['$']);
    RemoveLast("1", "2", '$');
    RemoveNone("2", '$');
    assert text == "1" + ['$'] + "2" && "1" + "2" == v;
    TrimVisible(v);
    var y := PatternOf(o.decimal);
    assert !Catches(y, '1') && !Catches(y, '2') && forall c :: c in v ==> c == '1' || c == '2';
    SubstitutedNone(v, y, ".");
    SpaceNone(v);
    FinishedSteps(text, o);
    Some1234();
    ParseCanonical(12, 0, "");
    assert v + "" == v;
    FixedAgain(12, 0);
    OtherValue(1234, 12, Decimal(12, 0), 1, o);
  }

  lemma FinishedSteps(a: string, o: Options)
    requires Readable(o) && o.group.Some?
    ensures Finished(a, o)
            == RemoveSpace(Trim(Substituted(Trim(Removed(a, PatternOf(o.group.value))), PatternOf(o.decimal), ".")))
  {
  }

  lemma SameZeros(o: Options)
    ensures Zeros(o.(group := None)) == Zeros(o)
  {
  }

  lemma BareIs(n: int, o: Options)
    ensures BareBody(n, o) == Sign(n) + Int(n, o) + Fraction(n, o.decimal, o)
  {
  }

  lemma DollarEnds(text: string, o: Options)
    requires text == "1$2" + Zeros(o) && o.decimal != '$'
    ensures Solid(text) && text[1] == '$' && forall i :: 0 <= i < |"2" + Zeros(o)| ==> ("2" + Zeros(o))[i] != '$'
  {
    hide Pad;
    var f := Zeros(o);
    assert text[|text| - 1] == if f == "" then '2' else f[|f| - 1];
  }

  /** The pattern of the decimal separator hits no digit, not the minus sign and not the group separator. */
  predicate Aloof(o: Options)
    requires Readable(o)
  {
    var x := PatternOf(o.decimal);
    && x.Pattern? && !Catches(x, '0') && !Catches(x, '-')
    && (o.group.Some? ==> !Catches(x, o.group.value))
  }

  /** A letter with a meaning as group separator: its pattern takes away digits, or the sign, or lets the
      separator stand. */
  lemma SpecialFails(o: Options)
    requires PlainBox(o) && o.group.Some? && IsSpecial(o.group.value) && Aloof(o)
    ensures var n := 1234 * Pow10(o.precision); !ReadsBack(n, o) || !ReadsBack(-n, o)
  {
    hide Body, Finished, ReadsBack, Pow10, Solid, PatternOf, BareBody, ParseFloat, ToFixed, Canonical, Aloof;
    var n, sep := 1234 * Pow10(o.precision), o.group.value;
    Body1234(o);
    BodyEnds(n, o);
    BodyEnds(-n, o);
    OneSpecial(sep);
    var text := Body(n, o);
    assert text[1] == sep && Body(-n, o)[2] == sep;
    if sep == 'd' || sep == 'w' || sep == 'S' {
      GroupsMiss(text, o);
      DigitsGone(n, 1, o);
    } else if sep == 'D' {
      GroupsMiss(Body(-n, o), o);
      SignGone(-n, 2, o);
    } else {
      SpecialStands(o);
    }
  }

  lemma SpecialStands(o: Options)
    requires PlainBox(o) && o.group.Some? && IsSpecial(o.group.value) && Aloof(o)
    requires var sep := o.group.value; sep != 'd' && sep != 'w' && sep != 'S' && sep != 'D'
    ensures !ReadsBack(1234 * Pow10(o.precision), o)
  {
    hide Body, Finished, ReadsBack, Pow10, Solid, PatternOf, BareBody, ParseFloat, ToFixed, Canonical, Aloof;
    hide Zeros, Hits;
    var n, sep, rest := 1234 * Pow10(o.precision), o.group.value, "234" + Zeros(o);
    Body1234(o);
    BodyEnds(n, o);
    var text := Body(n, o);
    assert text == "1" + ([sep] + rest) && text[1] == sep;
    SpecialMisses(o);
    var more := StaysInFront('1', sep, rest, o);
    UnsignedSpecial('1', [sep] + more);
    OneMore(o.precision);
    OneValue();
    OtherValue(n, Pow10(o.precision), Decimal(1, 0), 1, o);
  }

  lemma SpecialMisses(o: Options)
    requires Readable(o) && o.group.Some? && IsSpecial(o.group.value) && Aloof(o)
    requires var sep := o.group.value; sep != 'd' && sep != 'w' && sep != 'S' && sep != 'D'
    ensures var x, y, sep := PatternOf(o.group.value), PatternOf(o.decimal), o.group.value;
            !Catches(x, '1') && !Catches(x, sep) && y.Pattern? && !Catches(y, '1') && !Catches(y, sep)
  {
    hide PatternOf, Hits;
    PatternFacts(o.group.value);
    PatternFacts(o.decimal);
  }

  lemma OneMore(p: nat)
    ensures ToFixed(Decimal(1, 0), p) == Canonical(Pow10(p), p) && Pow10(p) != 1234 * Pow10(p)
  {
    hide Fixed;
    assert Times(1, Pow10(p)) == Pow10(p);
  }

  /** Two characters that neither pattern catches stay in front. */
  lemma StaysInFront(c: char, d: char, rest: string, o: Options) returns (more: string)
    requires Readable(o) && !IsSpace(c) && !IsSpace(d)
    requires o.group.Some? ==> var x := PatternOf(o.group.value); !Catches(x, c) && !Catches(x, d)
    requires var y := PatternOf(o.decimal); y.Pattern? && !Catches(y, c) && !Catches(y, d)
    ensures Finished([c] + ([d] + rest), o) == [c] + ([d] + more)
  {
    hide Trim, RemoveSpace, Substituted, PatternOf, Hits, IsSpace;
    var y := PatternOf(o.decimal);
    var b := rest;
    if o.group.Some? {
      b := GroupsStay(c, d, rest, o.group.value);
    }
    StartKept(c, d, b, y, ".");
    var e := TrimTwo(c, d, Substituted(b, y, "."));
    SpaceTwo(c, d, e);
    more := RemoveSpace(e);
  }

  lemma GroupsStay(c: char, d: char, rest: string, sep: char) returns (more: string)
    requires !IsDigit(sep) && !IsSpace(c) && !IsSpace(d)
    requires var x := PatternOf(sep); !Catches(x, c) && !Catches(x, d)
    ensures Trim(Removed([c] + ([d] + rest), PatternOf(sep))) == [c] + ([d] + more)
  {
    hide Trim, Substituted, AtEdges, PatternOf, Hits, IsSpace;
    var x := PatternOf(sep);
    PatternFacts(sep);
    if x.Edge? {
      WithoutEdges([c] + ([d] + rest), x);
      more := TrimTwo(c, d, rest);
    } else {
      StartKept(c, d, rest, x, "");
      more := TrimTwo(c, d, Removed(rest, x));
    }
  }

  lemma WithoutEdges(s: string, x: Pattern)
    requires x.Edge? && x.rest == ""
    ensures Removed(s, x) == s
  {
    EdgesOnly(false, s, x);
  }

  /** Two characters that a pattern cannot start with stay in front. */
  lemma StartKept(c: char, d: char, rest: string, x: Pattern, to: string)
    requires x.Pattern? && !Hits(x.head, c) && !Hits(x.head, d)
    ensures Substituted([c] + ([d] + rest), x, to) == [c] + ([d] + Substituted(rest, x, to))
  {
    hide Hits, Substituted;
    var s, t := [c] + ([d] + rest), [d] + rest;
    assert s[1..] == t && t[1..] == rest;
    SubstitutedStep(s, x, to);
    SubstitutedStep(t, x, to);
  }

  lemma TrimTwo(c: char, d: char, rest: string) returns (more: string)
    requires !IsSpace(c) && !IsSpace(d)
    ensures Trim([c] + ([d] + rest)) == [c] + ([d] + more)
  {
    hide IsSpace;
    var s := [c, d];
    assert [c] + ([d] + rest) == s + rest;
    TrimLeftBlank("", s + rest);
    assert "" + (s + rest) == s + rest;
    TrimRightKeeps(s, rest);
    more := TrimRight(rest);
    assert s + more == [c] + ([d] + more);
  }

  lemma SpaceTwo(c: char, d: char, rest: string)
    requires !IsSpace(c) && !IsSpace(d)
    ensures RemoveSpace([c] + ([d] + rest)) == [c] + ([d] + RemoveSpace(rest))
  {
    hide IsSpace, RemoveSpace;
    var s := [c, d];
    assert [c] + ([d] + rest) == s + rest;
    SpaceConcat(s, rest);
    SpaceNone(s);
    assert s + RemoveSpace(rest) == [c] + ([d] + RemoveSpace(rest));
  }

  lemma UnsignedSpecial(c: char, rest: string)
    requires IsDigit(c) && rest != "" && !IsDigit(rest[0]) && rest[0] != '.'
    ensures ParseFloat([c] + rest) == Some(Decimal(Val([c]), 0))
  {
    hide Val, Unsigned;
    UnsignedWhole([c], rest);
    var s := [c] + rest;
    assert s[0] == c;
    assert TrimLeft(s) == s && Signed(s) == Unsigned(s);
  }

  lemma OneValue()
    ensures Val("1") == 1
  {
    assert "1"[..0] == "";
  }

  // ----- the decimal separator, where there are decimals -----

  lemma OneRead(p: nat, k: string, o: Options)
    requires p > 0 && Plain(k, o)
    ensures var s := "0" + Pad(1, p) + k;
            ParseFloat(s) == Some(Decimal(1, 0)) && ToFixed(Decimal(1, 0), p) == Canonical(Pow10(p), p)
  {
    hide Pad, Val, ParseFloat, Fixed;
    var d := "0" + Pad(1, p);
    PowLarge(p);
    ValPad(1, p);
    ValConcat("0", Pad(1, p));
    assert Val("0") == 0 by { ZeroValue(); }
    DigitsRead(d, k, o);
    assert Times(1, Pow10(p)) == Pow10(p);
  }

  lemma DigitsRead(d: string, k: string, o: Options)
    requires AllDigits(d) && d != "" && Plain(k, o)
    ensures ParseFloat(d + k) == Some(Decimal(Val(d), 0))
  {
    hide Val, Unsigned;
    UnsignedWhole(d, k);
    var s := d + k;
    assert s[0] == d[0];
    assert TrimLeft(s) == s && Signed(s) == Unsigned(s);
  }

  lemma ZeroValue()
    ensures Val("0") == 0
  {
    assert "0"[..0] == "";
  }

  lemma OneText(o: Options)
    requires o.precision > 0 && !IsDigit(o.decimal)
    ensures Body(1, o) == "0" + ([o.decimal] + Pad(1, o.precision)) && Solid(Body(1, o))
    ensures Body(-1, o) == "-" + Body(1, o) && Solid(Body(-1, o)) && Body(-1, o)[2] == o.decimal
  {
    hide Dec, Pad, Whole, Decimals;
    OneShown(o);
    if o.group.Some? {
      GroupShort("0", o.group.value);
    }
    var f := [o.decimal] + Pad(1, o.precision);
    assert "" + "0" + f == "0" + f && "-" + "0" + f == "-" + ("0" + f);
  }

  /** A minus sign or a letter with a meaning as decimal separator: its pattern takes away the digits, or the
      sign, or lets the separator stand. */
  lemma DecimalFails(o: Options)
    requires PlainBox(o) && o.precision > 0 && (o.decimal == '-' || IsSpecial(o.decimal))
    requires o.decimal != 'b' && o.decimal != 'B'
    ensures !ReadsBack(1, o) || !ReadsBack(-1, o)
  {
    hide Body, Finished, ReadsBack, Solid, PatternOf, ParseFloat, ToFixed, Canonical, Hits, Pad;
    var c := o.decimal;
    OneText(o);
    PatternFacts(c);
    if o.group.Some? {
      PatternFacts(o.group.value);
    }
    if c == 'd' || c == 'w' || c == 'S' {
      DecimalsMiss(Body(1, o), o);
      DigitsGone(1, 1, o);
    } else if c == '-' || c == 'D' || c == 'W' {
      DecimalsMiss(Body(-1, o), o);
      SignGone(-1, 2, o);
    } else if o.group.Some? && Catches(PatternOf(o.group.value), '0') {
      GroupsMiss(Body(1, o), o);
      DigitsGone(1, 1, o);
    } else if o.group.Some? && Catches(PatternOf(o.group.value), '-') {
      GroupsMiss(Body(-1, o), o);
      SignGone(-1, 2, o);
    } else {
      var more := StaysInFront('0', c, Pad(1, o.precision), o);
      UnsignedSpecial('0', [c] + more);
      ZeroValue();
      FixedZero(Decimal(0, 0), o.precision);
      OtherValue(1, 0, Decimal(0, 0), 1, o);
    }
  }

  /** One character for both separators: the decimals become part of the whole number. */
  lemma SameFails(o: Options)
    requires PlainBox(o) && o.precision > 0 && o.group == Some(o.decimal) && o.decimal != '-' && !IsSpecial(o.decimal)
    ensures exists n :: !ReadsBack(n, o)
  {
    hide Body, Finished, ReadsBack, Solid, ParseFloat, ToFixed, Canonical, Pad, RemoveAll, Pow10;
    if o.decimal == '.' {
      PointTwice(o);
      assert !ReadsBack(1234 * Pow10(o.precision), o);
    } else {
      var p, f := o.precision, Pad(1, o.precision);
      OneText(o);
      RemoveLast("0", f, o.decimal);
      RemoveNone(f, o.decimal);
      assert "0" + [o.decimal] + f == "0" + ([o.decimal] + f);
      DigitsFinish(Body(1, o), "0" + f, o);
      OneRead(p, "", o);
      assert "0" + f + "" == "0" + f;
      PowLarge(p);
      OtherValue(1, Pow10(p), Decimal(1, 0), 1, o);
      assert !ReadsBack(1, o);
    }
  }

  /** A text of digits, once the group separators are out, is what the steps leave. */
  lemma DigitsFinish(text: string, d: string, o: Options)
    requires Readable(o) && o.group.Some? && !IsSpecial(o.group.value) && !IsSpecial(o.decimal)
    requires AllDigits(d) && d != "" && RemoveAll(text, [o.group.value]) == d
    ensures Finished(text, o) == d
  {
    hide Trim, RemoveAll, RemoveSpace, ReplaceChar, Finished;
    LiteralFinish(text, o);
    TrimVisible(d);
    ReplaceNone(d, o.decimal, '.');
    SpaceNone(d);
  }

  /** With a point for both, 1234 is shown as "1.234.00", which is no number, and read as 123400. */
  lemma PointTwice(o: Options)
    requires PlainBox(o) && o.precision > 0 && o.group == Some('.') && o.decimal == '.'
    ensures !ReadsBack(1234 * Pow10(o.precision), o)
  {
    hide Body, Finished, ParseFloat, ToFixed, Canonical, Pad, RemoveAll, Pow10, Parsed, Formatted, ReadsAsNumber, Val;
    hide Stripped;
    var p := o.precision;
    var n, f := 1234 * Pow10(p), Pad(0, p);
    var text := "1" + ("." + ("234" + ("." + f)));
    Body1234(o);
    assert Body(n, o) == text by { PointText(o); }
    PointsRead(f);
    RemoveLast("1", "234" + ("." + f), '.');
    RemoveLast("234", f, '.');
    RemoveNone(f, '.');
    PointsOut(f);
    DigitsFinish(text, "1234" + f, o);
    ShownPlainly(n, o);
    assert Stripped(text, o) == Finished(text, o) by { NoAffixSteps(text, o); }
    ParsedPlainly(text, o);
    DigitsRead("1234" + f, "", o);
    assert "1234" + f + "" == "1234" + f;
    ShiftedValue(p);
    CanonicalDiffer(n, n * Pow10(p), p);
  }

  lemma NoAffixSteps(text: string, o: Options)
    requires Readable(o) && o.prefix == o.suffix == ""
    ensures Stripped(text, o) == Finished(text, o)
  {
    hide Finished;
  }

  lemma PointText(o: Options)
    requires o.precision > 0 && o.decimal == '.'
    ensures "1" + ['.'] + "234" + Zeros(o) == "1" + ("." + ("234" + ("." + Pad(0, o.precision))))
  {
    hide Pad;
  }

  lemma PointsOut(f: string)
    ensures "1" + ['.'] + ("234" + ("." + f)) == "1" + ("." + ("234" + ("." + f)))
    ensures "234" + ['.'] + f == "234" + ("." + f) && "1" + ("234" + f) == "1234" + f
  {
  }

  lemma PointsRead(f: string)
    requires AllDigits(f) && f != ""
    ensures !ReadsAsNumber("1" + ("." + ("234" + ("." + f))))
  {
    hide Trim, Unsigned;
    var text := "1" + ("." + ("234" + ("." + f)));
    UnsignedPoint("1", "234", "." + f);
    assert text[0] == '1' && text[|text| - 1] == f[|f| - 1];
    TrimVisible(text);
  }

  lemma ShiftedValue(p: nat)
    requires p > 0
    ensures var n := 1234 * Pow10(p);
            && Val("1234" + Pad(0, p)) == n
            && ToFixed(Decimal(n, 0), p) == Canonical(n * Pow10(p), p) && n != n * Pow10(p)
  {
    hide Val, Pad, Fixed, Pow10;
    var n := 1234 * Pow10(p);
    ValConcat("1234", Pad(0, p));
    ValPad(0, p);
    Some1234();
    ValDec(1234);
    assert Times(n, Pow10(p)) == n * Pow10(p);
    PowLarge(p);
    Larger(n, Pow10(p));
  }

  lemma Larger(n: int, d: int)
    requires n > 0 && d >= 10
    ensures n * d > n
  {
  }

  // ----- the edges of words as decimal separator -----

  lemma {:induction false} ValBound(d: string)
    requires AllDigits(d)
    ensures Val(d) < Pow10(|d|)
  {
    if d != "" {
      ValBound(d[..|d| - 1]);
    }
  }

  /** A point in front or after one digit makes a number below ten. */
  lemma SmallRead(s: string)
    requires |s| >= 2 && (s[0] == '.' || (IsDigit(s[0]) && s[1] == '.'))
    ensures ParseFloat(s).Some? ==> var x := ParseFloat(s).value; 0 <= x.m < 10 * Pow10(x.k)
  {
    hide Val, Run, Pow10;
    assert TrimLeft(s) == s && Signed(s) == Unsigned(s);
    var i := Run(s);
    assert i == if s[0] == '.' then 0 else 1 by { RunOfOne(s); }
    var t := s[i + 1..];
    var f := Run(t);
    var d := s[..i] + t[..f];
    ValConcat(s[..i], t[..f]);
    ValBound(d);
    TenTimes(f);
  }

  lemma RunOfOne(s: string)
    requires |s| >= 2 && (s[0] == '.' || (IsDigit(s[0]) && s[1] == '.'))
    ensures Run(s) == if s[0] == '.' then 0 else 1
  {
    assert s[1..][0] == s[1];
  }

  lemma TenTimes(k: nat)
    ensures Pow10(k + 1) == 10 * Pow10(k) > 0
  {
  }

  /** It is never shown as 1234. */
  lemma SmallFixed(x: Decimal, p: nat)
    requires 0 <= x.m < 10 * Pow10(x.k)
    ensures ToFixed(x, p) != Canonical(1234 * Pow10(p), p)
  {
    hide Pow10, Fixed, Canonical, Nearest, Times;
    var j := if x.k <= p then Times(x.m, Pow10(p - x.k)) else Nearest(x.m, Pow10(x.k - p));
    if x.k <= p {
      PowSum(x.k, p - x.k);
      TimesBound(x.m, Pow10(x.k), Pow10(p - x.k));
    } else {
      PowSum(p, x.k - p);
      NearestBound(x.m, Pow10(p), Pow10(x.k - p));
    }
    assert ToFixed(x, p) == Canonical(j, p) by { FixedAs(x, p); }
    CanonicalDiffer(j, 1234 * Pow10(p), p);
  }

  lemma FixedAs(x: Decimal, p: nat)
    requires x.m >= 0
    ensures ToFixed(x, p)
            == Canonical(if x.k <= p then Times(x.m, Pow10(p - x.k)) else Nearest(x.m, Pow10(x.k - p)), p)
  {
    hide Fixed, Pow10, Times, Nearest;
  }

  lemma TimesBound(m: nat, a: nat, b: nat)
    requires m < 10 * a && b > 0
    ensures Times(m, b) <= 10 * (a * b)
  {
    assert (10 * a - m) * b >= 0;
  }

  lemma NearestBound(m: nat, a: nat, b: nat)
    requires b > 0 && m < 10 * (a * b)
    ensures Nearest(m, b) <= 10 * a
  {
    var q := Nearest(m, b);
    NotNegative(2 * m + b, 2 * b);
    assert q * (2 * b) <= 2 * m + b;
    assert (q - 10 * a) * (2 * b) < 2 * b;
    assert q - 10 * a >= 1 ==> (q - 10 * a) * (2 * b) >= 2 * b;
  }

  lemma Solid1234(o: Options)
    requires !IsDigit(o.decimal)
    ensures var n := 1234 * Pow10(o.precision); Solid(Body(n, o)) && Solid(Body(-n, o))
    ensures var n := 1234 * Pow10(o.precision); var b := Body(n, o);
            |b| >= 2 && b[0] == '1' && (o.group.Some? ==> b[1] == o.group.value) && (o.group.None? ==> b[1] == '2')
  {
    hide Body, Pow10, Pad, BareBody;
    Shown1234s(o);
    var n := 1234 * Pow10(o.precision);
    var b, f := Body(n, o), Zeros(o);
    assert b[|b| - 1] == if f == "" then b[|b| - |f| - 1] else f[|f| - 1];
    assert f == "" ==> IsDigit(b[|b| - 1]);
  }

  /** What is shown for 1234, with and without group separators. */
  lemma Shown1234s(o: Options)
    ensures var n := 1234 * Pow10(o.precision);
            && Body(n, o) == (if o.group.None? then "1234"
                              else if o.group.value == '$' then "1$2" else "1" + [o.group.value] + "234") + Zeros(o)
            && n > 0 && Body(-n, o) == "-" + Body(n, o)
  {
    hide Body, BareBody, Pow10, Dec, Zeros, Grouped;
    if o.group.Some? {
      Body1234(o);
    } else {
      Some1234();
      RoundBody(1234, o);
      assert 1234 * Pow10(o.precision) > 0;
    }
  }

  /** After the step for the group separators two characters of a word are in front. */
  lemma FrontAfterGroups(o: Options) returns (e: char, more: string)
    requires PlainBox(o) && o.group.Some?
    requires var x := PatternOf(o.group.value); !Catches(x, '1') && !Catches(x, '2')
    ensures Trim(Removed(Body(1234 * Pow10(o.precision), o), PatternOf(o.group.value))) == "1" + ([e] + more)
    ensures IsWordChar(e) && !IsSpace(e)
  {
    hide Body, BareBody, Pow10, Pad, Zeros, PatternOf, Hits, Trim, Substituted, IsSpace;
    var sep := o.group.value;
    var x := PatternOf(sep);
    Body1234(o);
    PatternFacts(sep);
    assert !IsSpace('1') && !IsSpace('2') && (IsSpecial(sep) ==> IsWordChar(sep) && !IsSpace(sep)) by { Letters(sep); }
    if Catches(x, sep) {
      var rest := if sep == '$' then Zeros(o) else "34" + Zeros(o);
      GroupsGo(sep, rest, x);
      assert Body(1234 * Pow10(o.precision), o) == "1" + ([sep] + ("2" + rest));
      e := '2';
      more := TrimTwo('1', '2', Removed(rest, x));
    } else {
      assert Body(1234 * Pow10(o.precision), o) == "1" + ([sep] + ("234" + Zeros(o)));
      e := sep;
      more := GroupsStay('1', sep, "234" + Zeros(o), sep);
    }
  }

  lemma Letters(c: char)
    ensures !IsSpace('1') && !IsSpace('2') && (IsSpecial(c) ==> IsWordChar(c) && !IsSpace(c))
  {
  }

  lemma GroupsGo(sep: char, rest: string, x: Pattern)
    requires x.Pattern? && x.rest == "" && !x.atEnd && Hits(x.head, sep) && !Hits(x.head, '1') && !Hits(x.head, '2')
    ensures Removed("1" + ([sep] + ("2" + rest)), x) == "1" + ("2" + Removed(rest, x))
  {
    hide Hits, Substituted;
    RemovedConcat("1", [sep] + ("2" + rest), x);
    RemovedConcat([sep], "2" + rest, x);
    RemovedConcat("2", rest, x);
    RemovedNone("1", x);
    RemovedNone("2", x);
    RemovedSingle(sep, x);
    assert "" + ("2" + Removed(rest, x)) == "2" + Removed(rest, x);
  }

  /** A point at the edge in front of two characters of a word, or between them. */
  lemma EdgeInFront(c: char, e: char, more: string, inside: bool) returns (r: string)
    requires IsWordChar(c) && IsWordChar(e) && !IsSpace(c) && !IsSpace(e)
    ensures var x := Edge(inside, "", false);
            RemoveSpace(Trim(Substituted([c] + ([e] + more), x, ".")))
            == if inside then [c] + ("." + r) else "." + ([c] + r)
  {
    hide Trim, RemoveSpace, AtEdges, IsWordChar, IsSpace;
    var x := Edge(inside, "", false);
    var s, t := [c] + ([e] + more), [e] + more;
    assert s[1..] == t && t[1..] == more;
    EdgeStep(false, s, x, ".");
    EdgeStep(true, t, x, ".");
    var d := AtEdges(IsWordChar(e), more, x, ".");
    assert !IsSpace('.') by { PointVisible(); }
    if inside {
      assert Substituted(s, x, ".") == [c] + ("." + ([e] + d)) by { EdgeJoin(c, e, d); }
      var u := TrimTwo(c, '.', [e] + d);
      SpaceTwo(c, '.', u);
      r := RemoveSpace(u);
    } else {
      assert Substituted(s, x, ".") == "." + ([c] + ([e] + d)) by { EdgeJoin(c, e, d); }
      var u := TrimTwo('.', c, [e] + d);
      SpaceTwo('.', c, u);
      r := RemoveSpace(u);
    }
  }

  lemma PointVisible()
    ensures !IsSpace('.')
  {
  }

  lemma EdgeJoin(c: char, e: char, d: string)
    ensures "" + ([c] + ("." + ([e] + d))) == [c] + ("." + ([e] + d))
    ensures "." + ([c] + ("" + ([e] + d))) == "." + ([c] + ([e] + d))
  {
  }

  /** "b" and "B" put points around words or inside them, and 1234 reads as a number below ten. */
  lemma EdgeDecimalFails(o: Options)
    requires PlainBox(o) && (o.decimal == 'b' || o.decimal == 'B')
    requires if o.precision > 0 then true else o.group.Some? && o.group.value != '.'
    ensures var n := 1234 * Pow10(o.precision); !ReadsBack(n, o) || !ReadsBack(-n, o)
  {
    hide Body, BareBody, Pow10, PatternOf, Hits, Finished, ReadsBack, Solid, Zeros, Canonical, ToFixed, ParseFloat;
    var n := 1234 * Pow10(o.precision);
    Solid1234(o);
    Shown1234s(o);
    var i := OddPlace(o);
    if o.group.Some? {
      PatternFacts(o.group.value);
    }
    if o.group.Some? && Catches(PatternOf(o.group.value), '0') {
      GroupsMiss(Body(n, o), o);
      DigitsGone(n, i, o);
    } else if o.group.Some? && Catches(PatternOf(o.group.value), '-') {
      GroupsMiss(Body(-n, o), o);
      SignGone(-n, i + 1, o);
    } else {
      EdgeFinish(o);
      SmallRead(Finished(Body(n, o), o));
      SmallFails(i, o);
    }
  }

  lemma OddPlace(o: Options) returns (i: nat)
    requires PlainBox(o) && !NumberChar(o.decimal)
    requires if o.precision > 0 then true else o.group.Some? && o.group.value != '.'
    ensures var b := Body(1234 * Pow10(o.precision), o); 1 <= i < |b| && !NumberChar(b[i])
  {
    hide Body, Pow10, Pad;
    Shown1234s(o);
    var b := Body(1234 * Pow10(o.precision), o);
    i := if o.precision > 0 then |b| - |Zeros(o)| else 1;
    assert o.precision > 0 ==> b[i] == Zeros(o)[0] == o.decimal;
  }

  lemma EdgeFinish(o: Options)
    requires PlainBox(o) && (o.decimal == 'b' || o.decimal == 'B')
    requires o.group.Some? ==> var x := PatternOf(o.group.value); !Catches(x, '1') && !Catches(x, '2')
    ensures var s := Finished(Body(1234 * Pow10(o.precision), o), o);
            |s| >= 2 && (s[0] == '.' || (IsDigit(s[0]) && s[1] == '.'))
  {
    hide Body, BareBody, Pow10, PatternOf, Hits, Zeros, Trim, RemoveSpace, Substituted, IsSpace, IsWordChar;
    PatternFacts(o.decimal);
    var e, more := '2', "34" + Zeros(o);
    assert IsWordChar('1') && !IsSpace('1') && IsWordChar('2') && !IsSpace('2') by { Words(); }
    if o.group.Some? {
      e, more := FrontAfterGroups(o);
    } else {
      Shown1234s(o);
      assert Body(1234 * Pow10(o.precision), o) == "1" + ([e] + more);
    }
    var r := EdgeInFront('1', e, more, o.decimal == 'B');
  }

  lemma Words()
    ensures IsWordChar('1') && !IsSpace('1') && IsWordChar('2') && !IsSpace('2')
  {
  }

  lemma SmallFails(i: nat, o: Options)
    requires PlainBox(o)
    requires var b := Body(1234 * Pow10(o.precision), o);
             && Solid(b) && 1 <= i < |b| && !NumberChar(b[i])
             && (ParseFloat(Finished(b, o)).Some? ==>
                   var x := ParseFloat(Finished(b, o)).value; 0 <= x.m < 10 * Pow10(x.k))
    ensures !ReadsBack(1234 * Pow10(o.precision), o)
  {
    hide Body, Pow10, Finished, Parsed, Formatted, Solid, Canonical, ToFixed, ParseFloat;
    var n := 1234 * Pow10(o.precision);
    ReadAfterSteps(n, i, o);
    CanonicalDiffer(n, n + 1, o.precision);
    if ParseFloat(Finished(Body(n, o), o)).Some? {
      SmallFixed(ParseFloat(Finished(Body(n, o), o)).value, o.precision);
    }
  }

  // ----- the decimal separator, where there are no decimals -----

  /** Without decimals and group separators the value is shown, and read as it is. */
  lemma ShownAsIs(n: int, o: Options)
    requires PlainBox(o) && o.precision == 0 && o.group.None?
    ensures ReadsBack(n, o)
  {
    hide Dec, Whole, Parsed, Formatted, ReadsAsNumber, Canonical, Less, ParseFloat, Stripped;
    ShownPlainly(n, o);
    assert Body(n, o) == Canonical(n, 0) by { PlainBody(n, o); }
    CanonicalReads(n, 0);
    ParseCanonical(n, 0, "");
    assert Canonical(n, 0) + "" == Canonical(n, 0);
    ReadsAs(Canonical(n, 0), n, o);
  }

  lemma PlainBody(n: int, o: Options)
    requires o.precision == 0 && o.group.None?
    ensures Body(n, o) == Canonical(n, 0)
  {
    hide Dec, Whole;
  }

  /** A decimal separator that is not shown can still hit the digits or the sign. */
  lemma HiddenDecimalFails(o: Options)
    requires PlainBox(o) && o.precision == 0 && o.group.Some? && o.group.value != '.'
    requires var x := PatternOf(o.decimal); Catches(x, '0') || Catches(x, '-')
    ensures !ReadsBack(1234, o) || !ReadsBack(-1234, o)
  {
    hide Body, Finished, ReadsBack, PatternOf, BareBody, Hits, Pow10;
    assert Pow10(0) == 1 by { NoTens(); }
    Body1234(o);
    PatternFacts(o.decimal);
    var text := Body(1234, o);
    assert Solid(text) && Solid("-" + text) && text[1] == o.group.value;
    assert ("-" + text)[2] == o.group.value;
    if Catches(PatternOf(o.decimal), '0') {
      DecimalsMiss(text, o);
      DigitsGone(1234, 1, o);
    } else {
      DecimalsMiss("-" + text, o);
      SignGone(-1234, 2, o);
    }
  }

  lemma NoTens()
    ensures Pow10(0) == 1
  {
  }

  /** And otherwise it changes nothing. */
  lemma HiddenDecimal(n: int, o: Options)
    requires PlainBox(o) && o.precision == 0 && o.group.Some? && GroupWorks(o)
    requires var x := PatternOf(o.decimal); x.Pattern? && !Catches(x, '0') && !Catches(x, '-')
    ensures ReadsBack(n, o)
  {
    hide Finished, Body, Parsed, Formatted, Canonical, ReadsAsNumber, ParseFloat, Less, PatternOf, Hits;
    var o' := o.(decimal := '.');
    ShownPlainly(n, o);
    ShownPlainly(n, o');
    assert Body(n, o) == Body(n, o') by { HiddenBody(n, o); }
    RoundTrip(n, o');
    HiddenFinish(n, o);
    NoAffixSteps(Body(n, o), o);
    NoAffixSteps(Body(n, o), o');
    assert Parsed(Body(n, o), o) == Parsed(Body(n, o), o') by { SameParse(Body(n, o), o); }
  }

  lemma HiddenBody(n: int, o: Options)
    requires o.precision == 0
    ensures Body(n, o) == Body(n, o.(decimal := '.'))
  {
    hide Dec, Whole, Grouped;
  }

  lemma SameParse(text: string, o: Options)
    requires Readable(o)
    requires var o' := o.(decimal := '.'); Stripped(text, o) == Stripped(text, o')
    ensures Parsed(text, o) == Parsed(text, o.(decimal := '.'))
  {
    hide Stripped, ReadsAsNumber, ParseFloat, ToFixed, Less;
  }

  lemma HiddenFinish(n: int, o: Options)
    requires PlainBox(o) && o.precision == 0 && o.group.Some? && GroupWorks(o)
    requires var x := PatternOf(o.decimal); x.Pattern? && !Catches(x, '0') && !Catches(x, '-')
    ensures Finished(Body(n, o), o) == Finished(Body(n, o), o.(decimal := '.'))
  {
    hide Trim, RemoveSpace, Substituted, PatternOf, Hits, Body;
    var sep := o.group.value;
    var x := PatternOf(sep);
    var b := Trim(Removed(Body(n, o), x));
    PatternFacts(sep);
    PatternFacts(o.decimal);
    PatternFacts('.');
    WholeChars(n, o);
    RemovedMisses(Body(n, o), x);
    TrimChars(Removed(Body(n, o), x));
    assert forall c :: c in b ==> IsDigit(c) || c == '-';
    SubstitutedNone(b, PatternOf(o.decimal), ".");
    SubstitutedNone(b, PatternOf('.'), ".");
  }

  lemma WholeChars(n: int, o: Options)
    requires o.precision == 0 && o.group.Some? && o.group.value != '$'
    ensures forall c :: c in Body(n, o) ==> IsDigit(c) || c == '-' || c == o.group.value
  {
    hide Dec, Whole, Grouped;
    GroupedChars(Int(n, o), o.group.value);
  }

  // ----- the separators that work -----

  /** No minus sign, no dollar sign, no letter that a backslash turns into something else, and, without
      decimals, no point. */
  predicate GroupWorks(o: Options) {
    o.group.Some? ==>
      && o.group.value != '-' && o.group.value != '$' && !IsSpecial(o.group.value)
      && (o.group.value == '.' ==> o.precision > 0)
  }

  /** Where decimals are shown: no minus sign, no such letter and not the group separator.  Otherwise the
      separator is looked for all the same, and harms grouped numbers if it stands for digits, the sign or the
      edges of words. */
  predicate DecimalWorks(o: Options) {
    if o.precision > 0 then o.decimal != '-' && !IsSpecial(o.decimal) && o.group != Some(o.decimal)
    else o.group.Some? ==>
           && o.decimal != '-' && o.decimal != 'b' && o.decimal != 'B' && o.decimal != 'd'
           && o.decimal != 'D' && o.decimal != 'S' && o.decimal != 'w' && o.decimal != 'W'
  }

  /** These separators, and no others, let every value read back. */
  lemma SeparatorsThatWork(o: Options)
    requires PlainBox(o)
    ensures (forall n :: ReadsBack(n, o)) <==> GroupWorks(o) && DecimalWorks(o)
  {
    hide ReadsBack, Pow10, PatternOf, Hits, Aloof;
    PatternFacts(o.decimal);
    if o.group.None? && o.precision == 0 {
      forall n ensures ReadsBack(n, o) {
        ShownAsIs(n, o);
      }
    } else if !DecimalWorks(o) {
      BadDecimal(o);
    } else if o.group.None? || (GroupWorks(o) && o.precision > 0) {
      forall n ensures ReadsBack(n, o) {
        Again(n, o);
      }
    } else if GroupWorks(o) {
      forall n ensures ReadsBack(n, o) {
        HiddenDecimal(n, o);
      }
    } else {
      BadGroup(o);
    }
  }

  lemma BadDecimal(o: Options)
    requires PlainBox(o) && !DecimalWorks(o)
    ensures exists n :: !ReadsBack(n, o)
  {
    hide ReadsBack, Pow10, PatternOf, Hits;
    PatternFacts(o.decimal);
    if o.precision == 0 && o.group.value == '.' {
      PointGroup(o);
      assert !ReadsBack(1234, o);
    } else if o.decimal == 'b' || o.decimal == 'B' {
      EdgeDecimalFails(o);
      var n := 1234 * Pow10(o.precision);
      assert !ReadsBack(n, o) || !ReadsBack(-n, o);
    } else if o.precision > 0 {
      if o.decimal == '-' || IsSpecial(o.decimal) {
        DecimalFails(o);
        assert !ReadsBack(1, o) || !ReadsBack(-1, o);
      } else {
        SameFails(o);
      }
    } else {
      HiddenDecimalFails(o);
      assert !ReadsBack(1234, o) || !ReadsBack(-1234, o);
    }
  }

  lemma BadGroup(o: Options)
    requires PlainBox(o) && DecimalWorks(o) && !GroupWorks(o)
    ensures exists n :: !ReadsBack(n, o)
  {
    hide ReadsBack, Pow10, PatternOf, Hits;
    var n := 1234 * Pow10(o.precision);
    PatternFacts(o.decimal);
    if o.group.value == '-' {
      MinusGroup(o);
      assert !ReadsBack(-1234 * Pow10(o.precision), o);
    } else if o.group.value == '$' {
      if o.precision > 0 {
        DollarGroup(o);
      } else {
        DollarWhole(o);
      }
      assert !ReadsBack(n, o);
    } else if o.group.value == '.' {
      PointGroup(o);
      assert !ReadsBack(1234, o);
    } else {
      assert Aloof(o) by { WorksAloof(o); }
      SpecialFails(o);
      assert !ReadsBack(n, o) || !ReadsBack(-n, o);
    }
  }

  lemma WorksAloof(o: Options)
    requires PlainBox(o) && DecimalWorks(o) && o.group.Some? && IsSpecial(o.group.value)
    ensures Aloof(o)
  {
    hide PatternOf, Hits;
    PatternFacts(o.decimal);
  }

  lemma PointGroup(o: Options)
    requires PlainBox(o) && o.group == Some('.') && o.precision == 0
    ensures !ReadsBack(1234, o)
  {
    hide Parsed, Formatted, Canonical;
    PointFails(o.decimal);
    Some1234();
    assert o == Bare('.', o.decimal);
  }
}
