/** The parser of the numberbox, and which affixes let a number that is shown read back. */
module ReadBacks {
  import opened Wrappers
  import opened Texts
  import opened Patterns
  import opened NumberBoxes
  import opened Affixes

  /** What is shown for a value, read again, gives the value. */
  predicate ReadsBack(n: int, o: Options)
    requires Readable(o)
  {
    Parsed(Formatted(Canonical(n, o.precision), o), o) == Canonical(n, o.precision)
  }

  /** Settings under which a shown number reads back, with affixes free of digits, signs and separators. */
  predicate Faithful(o: Options) {
    Apart(o) && AffixesWork(o)
  }

  // ----- the round trip -----

  /** After all the steps: the value, and perhaps characters of an affix. */
  lemma StrippedBody(n: int, o: Options) returns (junk: string)
    requires Faithful(o)
    ensures Stripped(o.prefix + Body(n, o) + o.suffix, o) == Canonical(n, o.precision) + junk
    ensures Plain(junk, o)
  {
    hide Body, BareBody, Canonical, Plain, Without, Finished, LastLeft, Spared, FirstLeft, Separators;
    var b := AfterLast(n, o);
    var back := LastLeft(o).back;
    assert "" + b + back == b + back;
    junk := FinishedBody(n, b, back, o);
  }

  /** A shown text that reads as a number has no affixes. */
  lemma NoAffixes(b: string, o: Options)
    requires Apart(o) && ReadsAsNumber(o.prefix + b + o.suffix)
    ensures o.prefix == "" && o.suffix == ""
  {
    hide ReadsAsNumber, Plain, Separators, Separator, Compile;
    if o.prefix != "" {
      AffixReads("", o.prefix, b + o.suffix, o);
      Around3(o.prefix, b, o.suffix);
    } else if o.suffix != "" {
      AffixReads(o.prefix + b, o.suffix, "", o);
      Around3(o.prefix, b, o.suffix);
    }
  }

  lemma Around3(a: string, b: string, c: string)
    ensures a + b + c == "" + a + (b + c) == (a + b) + c + ""
  {
  }

  /** Reading what the formatter shows for a value in range gives that value, and for any other one the limit
      that it is beyond. */
  lemma RoundTrip(n: int, o: Options)
    requires Faithful(o)
    ensures var val := Parsed(Formatted(Canonical(n, o.precision), o), o);
            && (InRange(n, o) ==> val == Canonical(n, o.precision))
            && (BelowMin(n, o) ==> val == ToFixed(o.min.value, o.precision))
            && (!BelowMin(n, o) && AboveMax(n, o) ==> val == ToFixed(o.max.value, o.precision))
  {
    hide ParseFloat, ReadsAsNumber, Stripped, Canonical, Formatted, Body, Parsed, InRange, BelowMin, AboveMax, ToFixed;
    var v := Canonical(n, o.precision);
    var text := Formatted(v, o);
    FormattedBody(n, o);
    if ReadsAsNumber(text) {
      NoAffixes(Body(n, o), o);
      assert text == Body(n, o);
      ReadsItself(n, o);
      ParseCanonical(n, o.precision, "");
      assert v + "" == v;
    } else {
      var junk := StrippedBody(n, o);
      ParseCanonical(n, o.precision, junk);
    }
    ReadsAs(text, n, o);
  }

  /** A limit with the precision of the box is the result for every value that is beyond it. */
  lemma Clamped(n: int, a: int, o: Options)
    requires Faithful(o)
    ensures var val, p := Parsed(Formatted(Canonical(n, o.precision), o), o), o.precision;
            && (o.min == Some(Decimal(a, p)) && n < a ==> val == Canonical(a, p))
            && (o.max == Some(Decimal(a, p)) && n > a && !BelowMin(n, o) ==> val == Canonical(a, p))
  {
    hide Canonical, Formatted, Parsed, ToFixed, Faithful, Less;
    RoundTrip(n, o);
    FixedAgain(a, o.precision);
    LessIsLess(Decimal(n, o.precision), Decimal(a, o.precision));
    LessIsLess(Decimal(a, o.precision), Decimal(n, o.precision));
  }

  lemma ShownRead(s: string, o: Options)
    requires Readable(o)
    ensures forall n :: Faithful(o) && InRange(n, o) && s == Formatted(Canonical(n, o.precision), o) ==>
              Parsed(s, o) == Canonical(n, o.precision)
    ensures forall n, a :: Faithful(o) && s == Formatted(Canonical(n, o.precision), o) ==>
              && (o.min == Some(Decimal(a, o.precision)) && n < a ==> Parsed(s, o) == Canonical(a, o.precision))
              && (o.max == Some(Decimal(a, o.precision)) && n > a && !BelowMin(n, o) ==>
                    Parsed(s, o) == Canonical(a, o.precision))
  {
    hide *;
    forall n | Faithful(o) && InRange(n, o) && s == Formatted(Canonical(n, o.precision), o)
      ensures Parsed(s, o) == Canonical(n, o.precision)
    {
      RoundTrip(n, o);
    }
    forall n, a | Faithful(o) && s == Formatted(Canonical(n, o.precision), o)
      ensures o.min == Some(Decimal(a, o.precision)) && n < a ==> Parsed(s, o) == Canonical(a, o.precision)
      ensures o.max == Some(Decimal(a, o.precision)) && n > a && !BelowMin(n, o) ==>
                Parsed(s, o) == Canonical(a, o.precision)
    {
      Clamped(n, a, o);
    }
  }

  method Parser(s: string, o: Options) returns (val: string)
    requires Readable(o)
    ensures val == Parsed(s, o)
    ensures forall n :: Faithful(o) && InRange(n, o) && s == Formatted(Canonical(n, o.precision), o) ==>
              val == Canonical(n, o.precision)
    ensures forall n, a :: Faithful(o) && s == Formatted(Canonical(n, o.precision), o) ==>
              && (o.min == Some(Decimal(a, o.precision)) && n < a ==> val == Canonical(a, o.precision))
              && (o.max == Some(Decimal(a, o.precision)) && n > a && !BelowMin(n, o) ==>
                    val == Canonical(a, o.precision))
  {
    hide Faithful, Formatted, Canonical, InRange, BelowMin, Less, ToFixed, ParseFloat, ReadsAsNumber, Substituted;
    hide Trim, RemoveSpace, PatternOf;
    ShownRead(s, o);
    var t := s;
    if !ReadsAsNumber(t) {
      if o.prefix != "" {
        t := Trim(Removed(t, Compile(Trim(o.prefix)).value));
      }
      if o.suffix != "" {
        t := Trim(Removed(t, Compile(Trim(o.suffix)).value));
      }
      if o.group.Some? {
        t := Trim(Removed(t, PatternOf(o.group.value)));
      }
      t := Trim(Substituted(t, PatternOf(o.decimal), "."));
      t := RemoveSpace(t);
    }
    var x := ParseFloat(t);
    if x.None? {
      return "";
    }
    val := ToFixed(x.value, o.precision);
    var n := ParseFloat(val);
    if o.min.Some? && n.Some? && Less(n.value, o.min.value) {
      val := ToFixed(o.min.value, o.precision);
    } else if o.max.Some? && n.Some? && Less(o.max.value, n.value) {
      val := ToFixed(o.max.value, o.precision);
    }
  }

  lemma CanonicalReads(n: int, p: nat)
    ensures ReadsAsNumber(Canonical(n, p))
  {
    hide Trim, Unsigned, Fixed;
    var v, u := Canonical(n, p), Fixed(false, Abs(n), p);
    FixedSign(Abs(n), p);
    UnsignedFixed(Abs(n), p, "");
    assert u + "" == u;
    CanonicalSolid(n, p);
    TrimVisible(v);
    assert n < 0 ==> v[1..] == u;
  }

  lemma CanonicalSolid(n: int, p: nat)
    ensures Solid(Canonical(n, p))
  {
    hide Dec, Pad, Whole, Decimals;
    BareSolid(n, Options("", "", None, '.', p, None, None));
  }

  // ----- characters after the steps -----

  lemma {:induction false} SpaceChars(s: string)
    ensures forall c :: c in RemoveSpace(s) ==> c in s
  {
    if s != "" {
      SpaceChars(s[1..]);
    }
  }

  /** The last steps bring in no character but the point. */
  lemma FinishedChars(a: string, o: Options)
    requires Readable(o)
    ensures forall c :: c in Finished(a, o) ==> c in a || c == '.'
  {
    hide Trim, RemoveSpace, Substituted;
    var b := a;
    if o.group.Some? {
      var x := PatternOf(o.group.value);
      SubstitutedChars(a, x, "");
      TrimChars(Removed(a, x));
      b := Trim(Removed(a, x));
    }
    var d := Substituted(b, PatternOf(o.decimal), ".");
    SubstitutedChars(b, PatternOf(o.decimal), ".");
    TrimChars(d);
    SpaceChars(Trim(d));
  }

  /** No point comes in where there is no decimal separator. */
  lemma FinishedPoint(a: string, o: Options)
    requires Readable(o) && Separators(o) && o.decimal !in a
    ensures forall c :: c in Finished(a, o) ==> c in a
  {
    hide Trim, RemoveSpace, Substituted, PatternOf, Hits;
    var b := a;
    if o.group.Some? {
      var x := PatternOf(o.group.value);
      SubstitutedChars(a, x, "");
      TrimChars(Removed(a, x));
      b := Trim(Removed(a, x));
    }
    DecimalPattern(o);
    SubstitutedNone(b, PatternOf(o.decimal), ".");
    TrimChars(b);
    SpaceChars(Trim(b));
  }

  lemma DecimalPattern(o: Options)
    requires Readable(o) && Separators(o)
    ensures var x := PatternOf(o.decimal); x.Pattern? && forall c :: Hits(x.head, c) ==> c == o.decimal
  {
    LiteralChar(o.decimal);
  }

  // ----- what such texts read as -----

  lemma {:induction false} ValZeros(s: string)
    requires AllDigits(s) && OnlyZeros(s)
    ensures Val(s) == 0
  {
    if s != "" {
      var front := s[..|s| - 1];
      assert forall c :: c in front ==> c in s;
      assert s[|s| - 1] in s;
      ValZeros(front);
    }
  }

  lemma UnsignedZeros(s: string)
    requires OnlyZeros(s)
    ensures Unsigned(s).Some? ==> Unsigned(s).value.0.m == 0
  {
    hide Val;
    var i := Run(s);
    if i < |s| && s[i] == '.' {
      var t := s[i + 1..];
      var f := Run(t);
      assert forall c :: c in t[..f] ==> c in t && c in s;
      var d := s[..i] + t[..f];
      assert forall c :: c in d ==> c in s;
      ValConcat(s[..i], t[..f]);
      ValZeros(d);
    } else {
      ValZeros(s[..i]);
    }
  }

  /** A text without digits other than zero reads as nothing, or as zero. */
  lemma ZerosRead(s: string)
    requires OnlyZeros(s)
    ensures ParseFloat(s).Some? ==> ParseFloat(s).value.m == 0
  {
    hide TrimLeft, Unsigned;
    var t := TrimLeft(s);
    TrimLeftChars(s);
    UnsignedZeros(t);
    if t != "" {
      assert forall c :: c in t[1..] ==> c in t;
      UnsignedZeros(t[1..]);
    }
  }

  lemma NoDigitsRead(s: string)
    requires NoDigits(s)
    ensures ParseFloat(s) == None
  {
    hide TrimLeft, Val;
    var t := TrimLeft(s);
    TrimLeftChars(s);
    NoDigitsUnsigned(t);
    if t != "" {
      assert forall c :: c in t[1..] ==> c in t;
      NoDigitsUnsigned(t[1..]);
    }
  }

  lemma NoDigitsUnsigned(s: string)
    requires NoDigits(s)
    ensures Unsigned(s) == None
  {
    hide Val;
    NoRun(s);
    if s != "" {
      assert forall c :: c in s[1..] ==> c in s;
      NoRun(s[1..]);
    }
  }

  lemma NoRun(s: string)
    requires NoDigits(s)
    ensures Run(s) == 0
  {
    assert s != "" ==> s[0] in s;
  }

  /** A text without a minus sign does not read as a negative number. */
  lemma NoMinusRead(s: string)
    requires '-' !in s
    ensures ParseFloat(s).Some? ==> ParseFloat(s).value.m >= 0
  {
    hide TrimLeft, Val;
    TrimLeftChars(s);
    var t := TrimLeft(s);
    assert t != "" ==> t[0] in t;
  }

  /** A text without a point reads as a whole number. */
  lemma NoPointRead(s: string)
    requires '.' !in s
    ensures ParseFloat(s).Some? ==> ParseFloat(s).value.k == 0
  {
    hide TrimLeft, Val;
    TrimLeftChars(s);
    var t := TrimLeft(s);
    assert t != "" ==> forall c :: c in t[1..] ==> c in t;
  }

  /** A text that starts with none of the characters of a number reads as nothing. */
  lemma BadStartRead(s: string)
    requires s != "" && !IsSpace(s[0]) && !IsDigit(s[0]) && s[0] != '.' && s[0] != '-' && s[0] != '+'
    ensures ParseFloat(s) == None
  {
    hide Val;
    assert TrimLeft(s) == s;
    assert Run(s) == 0;
  }

  // ----- from what is read to the result -----

  /** Without limits the result is the number read, to the precision of the box. */
  lemma ParsedPlainly(text: string, o: Options)
    requires Readable(o) && o.min.None? && o.max.None? && !ReadsAsNumber(text)
    ensures Parsed(text, o) == match ParseFloat(Stripped(text, o))
                               case None => ""
                               case Some(x) => ToFixed(x, o.precision)
  {
    hide ParseFloat, ReadsAsNumber, Stripped, ToFixed;
  }

  lemma FixedZero(x: Decimal, p: nat)
    requires x.m == 0
    ensures ToFixed(x, p) == Canonical(0, p)
  {
    hide Fixed, Pow10;
    if x.k <= p {
      assert Times(0, Pow10(p - x.k)) == 0;
    } else {
      HalfRounds(Pow10(x.k - p));
    }
  }

  lemma HalfRounds(b: nat)
    requires b > 0
    ensures Nearest(0, b) == 0
  {
  }

  /** With decimals a whole number is not one in the last place. */
  lemma WholeIsNotOne(x: Decimal, p: nat)
    requires x.k == 0 && p > 0
    ensures ToFixed(x, p) != Canonical(1, p)
  {
    hide Fixed, Pow10, Canonical;
    var n := x.m * Pow10(p);
    PowLarge(p);
    Multiple(x.m, Pow10(p));
    assert ToFixed(x, p) == Canonical(n, p) by { WholeFixed(x, p); }
    CanonicalDiffer(1, n, p);
  }

  lemma WholeFixed(x: Decimal, p: nat)
    requires x.k == 0
    ensures ToFixed(x, p) == Canonical(x.m * Pow10(p), p)
  {
    hide Fixed, Pow10;
    Magnitude(x.m, Pow10(p));
  }

  lemma Magnitude(m: int, d: nat)
    requires d > 0
    ensures Times(Abs(m), d) == Abs(m * d) && (m * d < 0 <==> m < 0)
  {
  }

  lemma Multiple(m: int, d: nat)
    requires d >= 10
    ensures m * d != 1
  {
    assert m <= 0 ==> m * d <= 0;
    assert m >= 1 ==> m * d >= d;
  }

  lemma FixedStart(x: Decimal, p: nat)
    ensures ToFixed(x, p) != "" && (ToFixed(x, p)[0] == '-' <==> x.m < 0)
  {
    hide Fixed, Times, Nearest, Pow10;
    var n := if x.k <= p then Times(Abs(x.m), Pow10(p - x.k)) else Nearest(Abs(x.m), Pow10(x.k - p));
    FixedSign(n, p);
  }

  /** Different values are shown differently. */
  lemma CanonicalDiffer(a: int, b: int, p: nat)
    requires a != b
    ensures Canonical(a, p) != Canonical(b, p) && Canonical(a, p) != ""
  {
    hide Canonical, ParseFloat;
    ParseCanonical(a, p, "");
    ParseCanonical(b, p, "");
    assert Canonical(a, p) + "" == Canonical(a, p) && Canonical(b, p) + "" == Canonical(b, p);
    NothingRead();
  }

  lemma NothingRead()
    ensures ParseFloat("") == None
  {
  }

  // ----- when reading back fails -----

  /** Such settings without limits. */
  predicate Open(o: Options) {
    Apart(o) && o.min.None? && o.max.None?
  }

  /** With an affix, reading means reading what the steps leave. */
  lemma ReadsLeft(n: int, o: Options)
    requires Open(o) && (o.prefix != "" || o.suffix != "")
    ensures var v := Canonical(n, o.precision);
            Parsed(Formatted(v, o), o) == match ParseFloat(Finished(Left(n, o), o))
                                          case None => ""
                                          case Some(x) => ToFixed(x, o.precision)
  {
    hide ParseFloat, ReadsAsNumber, Canonical, Formatted, Body, Parsed, ToFixed, Finished, Without, Trim, Separators;
    FormattedBody(n, o);
    if ReadsAsNumber(Text(n, o)) {
      NoAffixes(Body(n, o), o);
      assert false;
    }
    ParsedPlainly(Text(n, o), o);
  }

  /** What is left starts with a character of an affix: then nothing is read. */
  lemma StartFails(n: int, o: Options)
    requires Open(o) && (o.prefix != "" || o.suffix != "")
    requires var a := Left(n, o); a != "" && !IsSpace(a[0]) && AffixChar(a[0], o)
    ensures Parsed(Formatted(Canonical(n, o.precision), o), o) == ""
  {
    hide ParseFloat, Canonical, Formatted, Parsed, ToFixed, Finished, Left, Plain;
    ReadsLeft(n, o);
    FinishedStart(Left(n, o), o);
    BadStartRead(Finished(Left(n, o), o));
  }

  lemma TrimStart(s: string)
    requires s != "" && !IsSpace(s[0])
    ensures Trim(s) != "" && Trim(s)[0] == s[0]
  {
    hide TrimRight;
    assert TrimLeft(s) == s;
    var r := RightParts(s);
    assert TrimRight(s) == "" ==> s == r;
    assert TrimRight(s) != "" ==> s[0] == TrimRight(s)[0];
  }

  lemma FinishedStart(a: string, o: Options)
    requires Readable(o) && Separators(o) && a != "" && !IsSpace(a[0]) && AffixChar(a[0], o)
    ensures Finished(a, o) != "" && Finished(a, o)[0] == a[0]
  {
    hide Trim, RemoveSpace, RemoveAll, ReplaceChar, Finished, IsSpace;
    LiteralFinish(a, o);
    var b := a;
    if o.group.Some? {
      RemoveStep(a, [o.group.value]);
      assert !([o.group.value] <= a);
      TrimStart(RemoveAll(a, [o.group.value]));
      b := Trim(RemoveAll(a, [o.group.value]));
    }
    ReplaceStart(b, o.decimal, '.');
    TrimStart(ReplaceChar(b, o.decimal, '.'));
    SpaceStart(Trim(ReplaceChar(b, o.decimal, '.')));
  }

  lemma ReplaceStart(s: string, c: char, d: char)
    requires s != "" && s[0] != c
    ensures ReplaceChar(s, c, d) != "" && ReplaceChar(s, c, d)[0] == s[0]
  {
  }

  lemma SpaceStart(s: string)
    requires s != "" && !IsSpace(s[0])
    ensures RemoveSpace(s) != "" && RemoveSpace(s)[0] == s[0]
  {
  }

  /** What is left of 1 and of -1 in the last place has lost the digit, the sign or the decimal separator. */
  predicate Marred(t: string, u: string, o: Options) {
    OnlyZeros(t) || '-' !in u || (o.precision > 0 && o.decimal !in t && '.' !in t)
  }

  lemma MarredFails(o: Options)
    requires Open(o) && (o.prefix != "" || o.suffix != "") && Marred(Left(1, o), Left(-1, o), o)
    ensures !ReadsBack(1, o) || !ReadsBack(-1, o)
  {
    hide Left, ReadsBack, OnlyZeros, Plain;
    if OnlyZeros(Left(1, o)) {
      ZerosFail(o);
    } else if '-' !in Left(-1, o) {
      MinusLost(o);
    } else {
      PointLost(o);
    }
  }

  /** No digits but zeros are left of the value 1. */
  lemma ZerosFail(o: Options)
    requires Open(o) && (o.prefix != "" || o.suffix != "") && OnlyZeros(Left(1, o))
    ensures !ReadsBack(1, o)
  {
    hide ParseFloat, Canonical, Formatted, Parsed, ToFixed, Finished, Left, Plain;
    ReadsLeft(1, o);
    var s := Finished(Left(1, o), o);
    FinishedChars(Left(1, o), o);
    ZerosRead(s);
    if ParseFloat(s).Some? {
      FixedZero(ParseFloat(s).value, o.precision);
    }
    CanonicalDiffer(1, 0, o.precision);
  }

  /** No digit at all is left: then nothing is read. */
  lemma NoDigitsFail(n: int, o: Options)
    requires Open(o) && (o.prefix != "" || o.suffix != "") && NoDigits(Left(n, o))
    ensures Parsed(Formatted(Canonical(n, o.precision), o), o) == ""
  {
    hide ParseFloat, Canonical, Formatted, Parsed, ToFixed, Finished, Left, Plain;
    ReadsLeft(n, o);
    FinishedChars(Left(n, o), o);
    NoDigitsRead(Finished(Left(n, o), o));
  }

  /** The sign is lost. */
  lemma MinusLost(o: Options)
    requires Open(o) && (o.prefix != "" || o.suffix != "") && '-' !in Left(-1, o)
    ensures !ReadsBack(-1, o)
  {
    hide ParseFloat, Formatted, Parsed, ToFixed, Finished, Left, Plain, Fixed;
    ReadsLeft(-1, o);
    var s := Finished(Left(-1, o), o);
    FinishedChars(Left(-1, o), o);
    NoMinusRead(s);
    FixedSign(1, o.precision);
    if ParseFloat(s).Some? {
      FixedStart(ParseFloat(s).value, o.precision);
    }
  }

  lemma PointLost(o: Options)
    requires Open(o) && (o.prefix != "" || o.suffix != "")
    requires o.precision > 0 && o.decimal !in Left(1, o) && '.' !in Left(1, o)
    ensures !ReadsBack(1, o)
  {
    hide ParseFloat, Canonical, Formatted, Parsed, ToFixed, Finished, Left, Plain, Separators;
    ReadsLeft(1, o);
    var s := Finished(Left(1, o), o);
    FinishedPoint(Left(1, o), o);
    NoPointRead(s);
    CanonicalDiffer(1, 0, o.precision);
    if ParseFloat(s).Some? {
      WholeIsNotOne(ParseFloat(s).value, o.precision);
    }
  }

  lemma MarredLess(t: string, u: string, t': string, u': string, o: Options)
    requires Marred(t, u, o) && (forall c :: c in t' ==> c in t) && (forall c :: c in u' ==> c in u)
    ensures Marred(t', u', o)
  {
  }

  lemma WithoutChars(s: string, affix: string)
    requires Affix(affix)
    ensures forall c :: c in Without(s, affix) ==> c in s
  {
    hide Trim, Substituted, Compile;
    if affix != "" {
      var x := AffixPattern(affix);
      SubstitutedChars(s, x, "");
      TrimChars(Removed(s, x));
    }
  }

  // ----- the value one -----

  lemma {:induction false} PadZeros(k: nat)
    ensures OnlyZeros(Pad(0, k))
  {
    if k > 0 {
      PadZeros(k - 1);
    }
  }

  lemma PowLarge(p: nat)
    requires p > 0
    ensures Pow10(p) >= 10
  {
  }

  /** One in the last place: all other digits are zeros. */
  lemma OneShown(o: Options)
    ensures var p := o.precision;
            if p == 0 then Int(1, o) == "1"
            else Int(1, o) == "0" && Decimals(1, p) == 1 && Pad(1, p) == Pad(0, p - 1) + "1" && Pow10(p) >= 10
  {
    var p := o.precision;
    if p == 0 {
      WholeZero(1);
    } else {
      PowLarge(p);
      SmallParts(p);
    }
  }

  lemma SmallParts(p: nat)
    requires Pow10(p) >= 10
    ensures Whole(1, p) == 0 && Decimals(1, p) == 1
  {
    hide Pow10;
    SmallDivision(Pow10(p));
  }

  lemma SmallDivision(d: nat)
    requires d >= 10
    ensures 1 / d == 0 && 1 % d == 1
  {
  }

  lemma OneBody(o: Options)
    ensures Body(1, o) == Int(1, o) + Fraction(1, o.decimal, o)
    ensures var b := Body(1, o); OnlyZeros(b[..|b| - 1]) || IsDigit(o.decimal)
  {
    hide Dec, Pad, Whole, Decimals;
    OneShown(o);
    if o.group.Some? {
      GroupShort(Int(1, o), o.group.value);
    }
    var b, p := Body(1, o), o.precision;
    assert "" + Int(1, o) == Int(1, o);
    if p > 0 {
      PadZeros(p - 1);
      assert b[..|b| - 1] == "0" + [o.decimal] + Pad(0, p - 1);
    }
  }

  /** One has no group separators. */
  lemma OneBare(n: int, o: Options)
    requires (n == 1 || n == -1) && Readable(o)
    ensures Body(n, o) == BareBody(n, o) == Sign(n) + BareBody(1, o)
    ensures forall c :: c in BareBody(n, o) ==> IsDigit(c) || c == '-' || (c == o.decimal && o.precision > 0)
  {
    hide Dec, Pad, Whole, Decimals;
    OneShown(o);
    if o.group.Some? {
      GroupShort(Int(1, o), o.group.value);
    }
    var i, f := Int(1, o), Fraction(1, o.decimal, o);
    assert Int(n, o) == i && Fraction(n, o.decimal, o) == f;
    assert "" + i == i && "-" + i + f == "-" + (i + f);
  }

  /** A pattern that damages the number mars these two. */
  lemma DamageMars(s: Around, x: Pattern, o: Options)
    requires Apart(o) && Fits(x, o) && Damages(x, s.back, o) && Plain(s.front, o) && Plain(s.back, o)
    ensures Marred(Removed(s.front + Body(1, o) + s.back, x), Removed(s.front + Body(-1, o) + s.back, x), o)
  {
    hide Hits, Substituted, Body, BareBody, EatsIn, Fits;
    var t, u := s.front + Body(1, o) + s.back, s.front + Body(-1, o) + s.back;
    if HitsNumber(x, o) {
      RemovedMisses(t, x);
      RemovedMisses(u, x);
      assert Fits(x, o) ==> forall c :: IsDigit(c) ==> (Hits(x.head, c) <==> Hits(x.head, '0')) by { SameDigits(x, o); }
      PlainDigits(s.front, o);
      PlainDigits(s.back, o);
      OneBare(1, o);
      assert '.' in t && o.precision > 0 ==> o.decimal == '.';
    } else {
      EatenZeros(s, x, o);
    }
  }

  lemma SameDigits(x: Pattern, o: Options)
    requires Fits(x, o) && x.Pattern?
    ensures forall c :: IsDigit(c) ==> (Hits(x.head, c) <==> Hits(x.head, '0'))
  {
  }

  lemma EatenZeros(s: Around, x: Pattern, o: Options)
    requires Apart(o) && Fits(x, o) && EatsIn(x, s.back) && Plain(s.front, o) && Plain(s.back, o)
    ensures OnlyZeros(Removed(s.front + Body(1, o) + s.back, x))
  {
    hide Hits, Substituted, Body, Solid, OnlyZeros, Plain;
    var b := Body(1, o);
    BodyFacts(1, b, x, o);
    SolidSome(b);
    OneBody(o);
    SameDigits(x, o);
    var r := Removed(s.front + b + s.back, x);
    if x.atEnd {
      EndEaten(s, b, x);
      ZerosWithout(s.front, b[..|b| - 1], "", o) by { NothingPlain(o); }
    } else {
      assert s.front + b + s.back == s.front + (b + s.back);
      RemovedSplit(s.front, b + s.back, x);
      RemovedAcross(b, s.back, x);
      var tail := s.back[|x.rest|..];
      RemovedPlain(s.front, x, o);
      assert Plain(tail, o) by { TailPlain(s.back, |x.rest|, o); }
      RemovedPlain(tail, x, o);
      ZerosWithout(Removed(s.front, x), b[..|b| - 1], Removed(tail, x), o);
      Assoc(Removed(s.front, x), b[..|b| - 1], Removed(tail, x));
    }
  }

  lemma TailPlain(s: string, n: nat, o: Options)
    requires Plain(s, o) && n <= |s|
    ensures Plain(s[n..], o)
  {
  }

  lemma ZerosWithout(f: string, z: string, j: string, o: Options)
    requires Plain(f, o) && OnlyZeros(z) && Plain(j, o)
    ensures OnlyZeros(f + z + j)
  {
    PlainDigits(f, o);
    PlainDigits(j, o);
  }

  /** A pattern that reaches to the end takes the last digit with the text behind it. */
  lemma EndEaten(s: Around, b: string, x: Pattern)
    requires x.Pattern? && x.atEnd && b != "" && Hits(x.head, b[|b| - 1]) && s.back == x.rest
    ensures Removed(s.front + b + s.back, x) == s.front + b[..|b| - 1] + ""
  {
    hide Hits;
    var text, n := s.front + b + s.back, 1 + |x.rest|;
    RemovedAtEnd(text, x);
    assert text[|text| - n..] == [b[|b| - 1]] + s.back;
    assert text[..|text| - n] == s.front + b[..|b| - 1] + "";
  }

  // ----- the result -----

  /** If a pattern takes away some of the number, what is left in the end is marred. */
  lemma NotSparedFails(o: Options)
    requires Open(o) && !Spared(o)
    ensures !ReadsBack(1, o) || !ReadsBack(-1, o)
  {
    hide ReadsBack, Left, Damages, Marred, Substituted, Trim, After, Compile, Body, Plain, Separators, Separator, Fits;
    var s := FirstLeft(o);
    if o.prefix != "" && Damages(AffixPattern(o.prefix), o.suffix, o) {
      FirstMars(o);
    } else {
      LastMars(o);
    }
    MarredFails(o);
  }

  lemma FirstMars(o: Options)
    requires Apart(o) && o.prefix != "" && Damages(AffixPattern(o.prefix), o.suffix, o)
    ensures Marred(Left(1, o), Left(-1, o), o)
  {
    hide Damages, Marred, Substituted, Trim, Compile, Body, Plain, Separators, Separator, Fits;
    var x := AffixPattern(o.prefix);
    AffixFits(o.prefix, o);
    DamageMars(Around(o.prefix, o.suffix), x, o);
    var t, u := Removed(Text(1, o), x), Removed(Text(-1, o), x);
    TrimChars(t);
    TrimChars(u);
    MarredLess(t, u, Trim(t), Trim(u), o);
    WithoutChars(Trim(t), o.suffix);
    WithoutChars(Trim(u), o.suffix);
    MarredLess(Trim(t), Trim(u), Left(1, o), Left(-1, o), o);
  }

  lemma LastMars(o: Options)
    requires Apart(o) && (o.prefix != "" ==> !Damages(AffixPattern(o.prefix), o.suffix, o))
    requires o.suffix != "" && Damages(AffixPattern(o.suffix), FirstLeft(o).back, o)
    ensures Marred(Left(1, o), Left(-1, o), o)
  {
    hide Damages, Marred, Substituted, Trim, Compile, Body, BareBody, Plain, Separators, Separator, Fits;
    hide FirstLeft, Text;
    var x, s := AffixPattern(o.suffix), FirstLeft(o);
    AffixFits(o.suffix, o);
    var b := AfterFirst(1, o);
    var c := AfterFirst(-1, o);
    OneBare(1, o);
    OneBare(-1, o);
    DamageMars(s, x, o);
    var t, u := Removed(s.front + b + s.back, x), Removed(s.front + c + s.back, x);
    TrimChars(t);
    TrimChars(u);
    MarredLess(t, u, Trim(t), Trim(u), o);
  }

  /** If something stands in front of it, nothing is read. */
  lemma FrontFails(n: int, o: Options)
    requires Open(o) && Spared(o) && LastLeft(o).front != ""
    ensures Parsed(Formatted(Canonical(n, o.precision), o), o) == ""
  {
    hide Left, Spared, Parsed, Formatted, Canonical, Body, BareBody, Separators;
    var b := AfterLast(n, o);
    var front := LastLeft(o).front;
    FrontVisible(o);
    assert Left(n, o)[0] == front[0];
    StartFails(n, o);
  }

  lemma FrontVisible(o: Options)
    requires Apart(o)
    ensures var front := LastLeft(o).front; front != "" ==> !IsSpace(front[0]) && (o.prefix != "" || o.suffix != "")
  {
    hide TrimLeft, FrontLeft, IsSpace, Substituted;
    if o.prefix != "" {
      var l := LeftParts(FrontLeft(AffixPattern(o.prefix), o.prefix));
    }
    if o.suffix != "" {
      var l := LeftParts(FrontLeft(AffixPattern(o.suffix), FirstLeft(o).front));
    }
  }

  /** Affixes free of digits, signs and separators let every value read back iff the two steps spare the
      number and leave nothing in front of it. */
  lemma AffixesReadBack(o: Options)
    requires Open(o)
    ensures (forall n :: ReadsBack(n, o)) <==> AffixesWork(o)
  {
    hide ReadsBack, Spared, Separators, Plain, Parsed, Formatted, LastLeft, InRange;
    if AffixesWork(o) {
      forall n ensures ReadsBack(n, o) {
        assert InRange(n, o) by { NoLimits(n, o); }
        Again(n, o);
      }
    } else if !Spared(o) {
      NotSparedFails(o);
      assert !ReadsBack(1, o) || !ReadsBack(-1, o);
    } else {
      FrontFails(1, o);
      EmptyFails(o);
    }
  }

  lemma NoLimits(n: int, o: Options)
    requires o.min.None? && o.max.None?
    ensures InRange(n, o)
  {
  }

  lemma Again(n: int, o: Options)
    requires Faithful(o) && InRange(n, o)
    ensures ReadsBack(n, o)
  {
    RoundTrip(n, o);
  }

  lemma EmptyFails(o: Options)
    requires Readable(o) && Parsed(Formatted(Canonical(1, o.precision), o), o) == ""
    ensures !ReadsBack(1, o)
  {
    hide Canonical, Parsed, Formatted;
    CanonicalDiffer(1, 0, o.precision);
  }

  // ----- one affix -----

  /** A prefix reads back for all values iff its own pattern takes it away, white space aside, and nothing of
      a number. */
  predicate PrefixWorks(o: Options)
    requires Affix(o.prefix) && o.prefix != ""
  {
    var x := AffixPattern(o.prefix);
    !x.atEnd && Blank(Removed(o.prefix, x)) && !HitsNumber(x, o)
  }

  lemma PrefixReadsBack(o: Options)
    requires Open(o) && o.prefix != "" && o.suffix == ""
    ensures (forall n :: ReadsBack(n, o)) <==> PrefixWorks(o)
  {
    hide ReadsBack, AffixPattern, Substituted, HitsNumber, Separators, Plain, Separator, TrimLeft;
    var x := AffixPattern(o.prefix);
    AffixesReadBack(o);
    AffixFits(o.prefix, o);
    TrimmedAway(FrontLeft(x, o.prefix));
    if x.atEnd {
      assert FrontLeft(x, o.prefix) == o.prefix;
    } else {
      assert x.rest <= "" <==> x.rest == "";
    }
  }

  lemma TrimmedAway(s: string)
    ensures TrimLeft(s) == "" <==> Blank(s)
  {
    hide TrimLeft, IsSpace;
    var l := LeftParts(s);
    if TrimLeft(s) == "" {
      assert s == l;
    } else {
      assert s[|l|] == TrimLeft(s)[0];
    }
  }

  /** A suffix reads back for all values iff its pattern takes nothing of a number: it need not go. */
  predicate SuffixWorks(o: Options)
    requires Affix(o.suffix) && o.suffix != ""
  {
    var x := AffixPattern(o.suffix);
    !HitsNumber(x, o) && !EatsIn(x, o.suffix)
  }

  lemma SuffixReadsBack(o: Options)
    requires Open(o) && o.prefix == "" && o.suffix != ""
    ensures (forall n :: ReadsBack(n, o)) <==> SuffixWorks(o)
  {
    hide ReadsBack, AffixPattern, Substituted, HitsNumber, EatsIn, Separators, Plain, Separator;
    AffixesReadBack(o);
    AffixFits(o.suffix, o);
    NothingInFront(AffixPattern(o.suffix), o);
  }

  lemma NothingInFront(x: Pattern, o: Options)
    ensures TrimLeft(FrontLeft(x, "")) == ""
  {
  }

  // ----- affixes that are taken literally -----

  /** An affix that the parser takes literally. */
  predicate Literal(affix: string) {
    affix == "" || (Trim(affix) != "" && IsLiteral(Trim(affix)))
  }

  /** They work, alone or both. */
  lemma LiteralsWork(o: Options)
    requires Apart(o) && Literal(o.prefix) && Literal(o.suffix)
    ensures AffixesWork(o)
  {
    hide Trim, TrimLeft, Substituted, Separators, Separator, Plain, Compile, RemoveAll;
    if o.prefix != "" {
      LiteralSpares(o.prefix, o.suffix, o);
      LiteralGoes(o.prefix);
    }
    if o.suffix != "" {
      LiteralSpares(o.suffix, FirstLeft(o).back, o);
      NothingInFront(AffixPattern(o.suffix), o);
    }
  }

  lemma LiteralSpares(affix: string, back: string, o: Options)
    requires Affix(affix) && affix != "" && Literal(affix) && Plain(affix, o)
    ensures !Damages(AffixPattern(affix), back, o) && !AffixPattern(affix).atEnd
  {
    hide Trim, Compile;
    TrimPlain(affix, o);
    assert AffixChar(Trim(affix)[0], o);
  }

  lemma LiteralGoes(affix: string)
    requires Affix(affix) && affix != "" && Literal(affix)
    ensures TrimLeft(FrontLeft(AffixPattern(affix), affix)) == ""
  {
    hide Trim, TrimLeft, RemoveAll, Substituted, Compile;
    LiteralRemoves(affix, Trim(affix));
    RemoveItself(affix);
    TrimmedAway(Removed(affix, AffixPattern(affix)));
  }

  // ----- affixes of one character, and some others -----

  lemma TrimVisible(s: string)
    requires Solid(s)
    ensures Trim(s) == s
  {
    TrimLeftBlank("", s);
    TrimRightKeeps(s, "");
    assert "" + s == s && s + "" == s;
    TrimNothing();
  }

  lemma OnePattern(c: char)
    requires !IsSpace(c) && !IsDigit(c)
    ensures Affix([c]) && AffixPattern([c]) == PatternOf(c) && Escaped(c, "", false) == Some(PatternOf(c))
  {
    TrimVisible([c]);
    LiteralChar(c);
    assert [c][1..] == "";
  }

  /** A prefix of one visible character reads back iff that is no letter with a meaning. */
  lemma OneCharPrefix(c: char, o: Options)
    requires Open(o) && o.prefix == [c] && o.suffix == "" && !IsSpace(c)
    ensures (forall n :: ReadsBack(n, o)) <==> !IsSpecial(c)
  {
    hide ReadsBack, Trim, Substituted, Separators, AffixPattern, PatternOf;
    PrefixReadsBack(o);
    assert o.prefix[0] == c && AffixChar(c, o);
    OnePattern(c);
    OneRemoved(c, PatternOf(c));
    assert !IsSpecial(c) ==> PatternOf(c) == Pattern(One(c), "", false);
  }

  lemma OneRemoved(c: char, x: Pattern)
    requires !IsSpace(c) && !x.atEnd && (x.Edge? ==> x.rest == "")
    ensures Blank(Removed([c], x)) <==> x.Pattern? && x.rest == "" && Hits(x.head, c)
  {
    hide Hits, IsSpace, AtEdges;
    if x.Edge? {
      EdgesOnly(false, [c], x);
      assert [c][0] == c;
    } else {
      SubstitutedStep([c], x, "");
      SubstitutedNothing(x, "");
      assert [c][1..] == "" && [c][1..1] == "";
      assert ([c] + "")[0] == c;
    }
  }

  /** The control characters and spaces that a special letter stands for. */
  predicate StandsFor(c: char, d: char) {
    || (c == 's' && IsSpace(d)) || (c == 't' && d == '\t') || (c == 'n' && d == '\n') || (c == 'r' && d == '\r')
    || (c == 'v' && d == '\U{000B}') || (c == 'f' && d == '\U{000C}')
  }

  /** A suffix of one visible character reads back unless it is a letter that stands for digits or for what
      is no space or no letter, or, with decimals, for the decimal separator. */
  lemma OneCharSuffix(c: char, o: Options)
    requires Open(o) && o.prefix == "" && o.suffix == [c] && !IsSpace(c)
    ensures (forall n :: ReadsBack(n, o))
            <==> && c != 'd' && c != 'D' && c != 'S' && c != 'w' && c != 'W'
                 && !(o.precision > 0 && StandsFor(c, o.decimal))
  {
    hide ReadsBack, Trim, Substituted, AffixPattern, PatternOf;
    SuffixReadsBack(o);
    assert o.suffix[0] == c && AffixChar(c, o);
    OnePattern(c);
  }

  /** With the prefix "R$" no value reads back: the dollar sign stands for the end of the text. */
  lemma RealPrefixFails(n: int)
    ensures var o := Options("R$", "", Some(','), '.', 2, None, None);
            Open(o) && Parsed(Formatted(Canonical(n, 2), o), o) == ""
  {
    hide Parsed, Formatted, Canonical, Trim, Substituted;
    var t := "R$";
    TrimVisible(t);
    assert t[1..|t| - 1] == "" && t[0] == 'R' && t[1] == '$';
    var o := Options(t, "", Some(','), '.', 2, None, None);
    assert Compile(t) == Escaped('R', "", true);
    var x := Pattern(One('R'), "", true);
    assert AffixPattern(t) == x;
    assert !Damages(x, "", o) && FirstLeft(o).front == TrimLeft(t) == t by { RealLeft(o); }
    FrontFails(n, o);
  }

  lemma RealLeft(o: Options)
    ensures TrimLeft("R$") == "R$" && !Damages(Pattern(One('R'), "", true), "", o)
  {
  }

  /** With the suffix "d" no value reads back: the pattern takes all digits. */
  lemma DaySuffixFails(n: int)
    ensures var o := Options("", "d", Some(','), '.', 0, None, None);
            Open(o) && Parsed(Formatted(Canonical(n, 0), o), o) == ""
  {
    hide Parsed, Formatted, Canonical, Trim, Substituted, Body;
    var t := "d";
    OnePattern('d');
    assert t == ['d'];
    var o := Options("", t, Some(','), '.', 0, None, None);
    var x, text := AffixPattern(t), Text(n, o);
    RemovedMisses(text, x);
    TrimChars(Removed(text, x));
    NoDigitsFail(n, o);
  }

  /** Units and currency codes are fine. */
  lemma UnitsWork(n: int)
    ensures var o := Options("EUR ", " kg", Some(','), '.', 2, None, None);
            Faithful(o) && ReadsBack(n, o)
  {
    hide Trim, ReadsBack, Literal, AffixesWork, Affix;
    var o := Options("EUR ", " kg", Some(','), '.', 2, None, None);
    TrimUnits();
    LiteralText("EUR ", "UR");
    LiteralText(" kg", "g");
    LiteralsWork(o);
    Again(n, o);
  }

  lemma LiteralText(affix: string, rest: string)
    requires Trim(affix) != "" && Trim(affix)[1..] == rest && NoMeta(rest) && '(' !in rest && ')' !in rest
    requires var c := Trim(affix)[0]; !IsDigit(c) && !IsSpecial(c) && c != 'x' && c != 'u'
    ensures Literal(affix) && Affix(affix)
  {
    hide Trim;
    UnwrappedPlain(rest);
    var t := Trim(affix);
    assert |t| > 1 ==> t[|t| - 1] == rest[|rest| - 1];
  }

  lemma TrimUnits()
    ensures Trim("EUR ") == "EUR" && Trim(" kg") == "kg"
  {
    hide Trim;
    TrimBlank("EUR");
    TrimBlank("kg");
    assert "EUR" + " " == "EUR " && " " + "kg" == " kg";
  }

  lemma TrimBlank(s: string)
    requires Solid(s)
    ensures Trim(s + " ") == s && Trim(" " + s) == s
  {
    hide TrimLeft, TrimRight;
    TrimLeftBlank("", s + " ");
    assert "" + (s + " ") == s + " " && s + "" == s;
    TrimRightKeeps(s, " ");
    assert TrimRight(" ") == "" by { OneBlank(); }
    TrimLeftBlank(" ", s);
    TrimRightKeeps(s, "");
    TrimNothing();
  }

  lemma OneBlank()
    ensures TrimRight(" ") == ""
  {
    assert " "[..0] == "";
  }

  // ----- some pairs -----

  function Pair(prefix: string, suffix: string): Options {
    Options(prefix, suffix, Some(','), '.', 2, None, None)
  }

  /** Two letters of which the second is a plain one. */
  lemma TwoLetters(c: char, d: char)
    requires !IsSpace(c) && !IsSpace(d) && !IsDigit(c) && NoMeta([d]) && d != '(' && d != ')'
    ensures Trim([c, d]) == [c, d] && Unwrapped([d], 0) == Some([d])
    ensures Compile([c, d]) == Escaped(c, [d], false)
  {
    hide IsSpace;
    TrimVisible([c, d]);
    UnwrappedPlain([d]);
    assert [c, d][1..] == [d];
  }

  lemma LetterPatterns()
    ensures Affix("") && Affix("wt") && AffixPattern("wt") == Pattern(WordChars, "t", false)
    ensures Affix("st") && AffixPattern("st") == Pattern(Spaces, "t", false)
    ensures Affix("t") && AffixPattern("t") == Pattern(One('\t'), "", false)
  {
    hide Trim;
    TwoLetters('w', 't');
    TwoLetters('s', 't');
    OnePattern('t');
    assert "wt" == ['w', 't'] && "st" == ['s', 't'] && "t" == ['t'];
  }

  lemma LetterSteps()
    ensures var w, s := Pattern(WordChars, "t", false), Pattern(Spaces, "t", false);
            && Removed("wt", w) == "" && Removed("st", w) == "" && Removed("st", s) == "st" && Removed("wt", s) == "wt"
    ensures TrimLeft("") == "" && TrimLeft("st") == "st" && TrimRight("wt") == "wt"
  {
    hide Substituted;
    var w, s := Pattern(WordChars, "t", false), Pattern(Spaces, "t", false);
    SubstitutedNothing(w, "");
    SubstitutedStep("wt", w, "");
    SubstitutedStep("st", w, "");
    assert "wt"[2..] == "" && "st"[2..] == "" && "wt"[1..2] == "t" && "st"[1..2] == "t";
    assert forall i :: 0 <= i < 2 ==> !Hits(Spaces, "st"[i]) && !Hits(Spaces, "wt"[i]);
    RemovedNone("st", s);
    RemovedNone("wt", s);
  }

  /** One affix can spoil what the other alone lets read back, and mend what the other spoils. */
  lemma PairsDiffer()
    ensures Open(Pair("wt", "")) && forall n :: ReadsBack(n, Pair("wt", ""))
    ensures Open(Pair("", "t")) && forall n :: ReadsBack(n, Pair("", "t"))
    ensures Open(Pair("wt", "t")) && exists n :: !ReadsBack(n, Pair("wt", "t"))
    ensures Open(Pair("st", "")) && exists n :: !ReadsBack(n, Pair("st", ""))
    ensures Open(Pair("st", "wt")) && forall n :: ReadsBack(n, Pair("st", "wt"))
  {
    hide ReadsBack, AffixPattern, Substituted, TrimLeft, TrimRight, Trim, Affix;
    LetterPatterns();
    LetterSteps();
    NothingInFront(AffixPattern("t"), Pair("", "t"));
    AffixesReadBack(Pair("wt", ""));
    AffixesReadBack(Pair("", "t"));
    AffixesReadBack(Pair("wt", "t"));
    AffixesReadBack(Pair("st", ""));
    AffixesReadBack(Pair("st", "wt"));
    assert "t" <= "t" && "wt"[0] != 't' && !("t" <= "wt") && !("t" <= "");
  }

  /** Suffixes need not go: "bar", where a word would have to start before "ar", and "kg(net)", whose
      parentheses do not match themselves, stay, and all values read back. */
  lemma StayingSuffixes()
    ensures Open(Pair("", "bar")) && forall n :: ReadsBack(n, Pair("", "bar"))
    ensures Open(Pair("", "kg(net)")) && forall n :: ReadsBack(n, Pair("", "kg(net)"))
  {
    hide ReadsBack, AffixPattern, Trim, Affix;
    StayingPatterns();
    SuffixReadsBack(Pair("", "bar"));
    SuffixReadsBack(Pair("", "kg(net)"));
  }

  lemma StayingPatterns()
    ensures Affix("") && Affix("bar") && AffixPattern("bar") == Edge(false, "ar", false)
    ensures Affix("kg(net)") && AffixPattern("kg(net)") == Pattern(One('k'), "gnet", false)
  {
    hide Trim, Unwrapped;
    var a, b := "bar", "kg(net)";
    TrimVisible(a);
    TrimVisible(b);
    assert a[1..] == "ar" && b[1..] == "g(net)";
    UnwrappedPlain("ar");
    NetUnwrapped();
  }

  lemma NetUnwrapped()
    ensures Unwrapped("g(net)", 0) == Some("gnet")
  {
    assert ")"[1..] == "" && "net" + ")" == "net)" && "net" + "" == "net";
    UnwrappedTo("net", ")", 1, "");
    assert "(net)"[1..] == "net)" && "g" + "(net)" == "g(net)" && "g" + "net" == "gnet";
    UnwrappedTo("g", "(net)", 0, "net");
  }
}
