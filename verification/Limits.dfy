/** The limits of the numberbox: when what is read lies within them. */
module Limits {
  import opened Wrappers
  import opened Texts
  import opened NumberBoxes
  import opened ReadBacks

  /** The text is a number that is neither below the minimum nor above the maximum. */
  predicate Within(val: string, o: Options) {
    var x := ParseFloat(val);
    && x.Some?
    && (o.min.Some? ==> !Less(x.value, o.min.value))
    && (o.max.Some? ==> !Less(o.max.value, x.value))
  }

  lemma FixedRead(negative: bool, j: nat, p: nat)
    ensures ParseFloat(Fixed(negative, j, p)) == Some(Decimal(if negative then 0 - j else j, p))
    ensures Fixed(negative, j, p) != ""
  {
    hide Unsigned, Fixed, Pow10;
    var u := Fixed(false, j, p);
    FixedSign(j, p);
    UnsignedFixed(j, p, "");
    assert u + "" == u;
    var v := Fixed(negative, j, p);
    assert v != "" && !IsSpace(v[0]);
    assert TrimLeft(v) == v;
    assert negative ==> v[1..] == u;
  }

  lemma ResultRead(x: Decimal, p: nat)
    ensures ParseFloat(ToFixed(x, p)).Some? && ToFixed(x, p) != ""
  {
    hide ParseFloat, Fixed, ToFixed;
    var j := FixedIsNearest(x, p);
    FixedRead(x.m < 0, j, p);
  }

  /** A value of the box, as it is, reads as itself or as the limit that it is beyond. */
  lemma ValueRead(n: int, o: Options)
    requires Readable(o)
    ensures var val := Parsed(Canonical(n, o.precision), o);
            && (BelowMin(n, o) ==> val == ToFixed(o.min.value, o.precision))
            && (!BelowMin(n, o) && AboveMax(n, o) ==> val == ToFixed(o.max.value, o.precision))
  {
    hide Parsed, Canonical, ParseFloat, ReadsAsNumber, Stripped, ToFixed, Less;
    CanonicalReads(n, o.precision);
    ParseCanonical(n, o.precision, "");
    assert Canonical(n, o.precision) + "" == Canonical(n, o.precision);
    ReadsAs(Canonical(n, o.precision), n, o);
  }

  /** There are values below any number, and above any two. */
  lemma FarBelow(x: Decimal, p: nat) returns (n: int)
    ensures Less(Decimal(n, p), x)
  {
    n := -(Abs(x.m) * Pow10(p)) - 1;
    Bigger(Abs(x.m), Pow10(p), Pow10(x.k));
    TimesAtLeast(x.m, Pow10(p));
  }

  lemma FarAbove(x: Decimal, y: Decimal, p: nat) returns (n: int)
    ensures Less(x, Decimal(n, p)) && !Less(Decimal(n, p), y)
  {
    var m := Abs(x.m) + Abs(y.m);
    n := m * Pow10(p) + 1;
    Bigger(m, Pow10(p), Pow10(x.k));
    Bigger(m, Pow10(p), Pow10(y.k));
    TimesAtMost(x.m, m, Pow10(p));
    TimesAtMost(y.m, m, Pow10(p));
  }

  lemma Bigger(m: nat, d: nat, e: nat)
    requires e > 0
    ensures (m * d + 1) * e > m * d
    ensures (-(m * d) - 1) * e < -(m * d)
  {
    assert (m * d) * (e - 1) >= 0;
    assert (m * d + 1) * e == m * d + (m * d) * (e - 1) + e;
    assert (-(m * d) - 1) * e == -((m * d + 1) * e);
  }

  lemma TimesAtLeast(m: int, d: nat)
    ensures -(Abs(m) * d) <= m * d
  {
    assert (m + Abs(m)) * d >= 0;
  }

  lemma TimesAtMost(m: int, b: nat, d: nat)
    requires Abs(m) <= b
    ensures m * d <= b * d
  {
    assert (b - m) * d >= 0;
  }

  /** Whatever is typed, the result is empty or within the limits, iff the limits themselves are, written with
      the decimals of the box. */
  lemma LimitsHold(o: Options)
    requires Readable(o)
    ensures (forall s :: Parsed(s, o) == "" || Within(Parsed(s, o), o))
            <==> && (o.min.Some? ==> Within(ToFixed(o.min.value, o.precision), o))
                 && (o.max.Some? ==> Within(ToFixed(o.max.value, o.precision), o))
  {
    hide Within, Parsed, ToFixed, Canonical, Less;
    var p := o.precision;
    if forall s :: Parsed(s, o) == "" || Within(Parsed(s, o), o) {
      if o.min.Some? {
        var n := FarBelow(o.min.value, p);
        ValueRead(n, o);
        ResultRead(o.min.value, p);
      }
      if o.max.Some? {
        var n := FarAbove(o.max.value, if o.min.Some? then o.min.value else o.max.value, p);
        ValueRead(n, o);
        ResultRead(o.max.value, p);
      }
    } else {
      var s :| Parsed(s, o) != "" && !Within(Parsed(s, o), o);
      ResultWithin(s, o);
    }
  }

  lemma ResultWithin(s: string, o: Options)
    requires Readable(o) && Parsed(s, o) != ""
    ensures || Within(Parsed(s, o), o)
            || (o.min.Some? && Parsed(s, o) == ToFixed(o.min.value, o.precision))
            || (o.max.Some? && Parsed(s, o) == ToFixed(o.max.value, o.precision))
  {
    hide ParseFloat, ToFixed, ReadsAsNumber, Stripped, Less;
    var x := ParseFloat(if ReadsAsNumber(s) then s else Stripped(s, o));
    if x.Some? {
      ResultRead(x.value, o.precision);
    }
  }

  /** Limits with no more decimals than the box are met iff the minimum is not above the maximum. */
  lemma ExactLimits(o: Options)
    requires Readable(o)
    requires (o.min.Some? ==> o.min.value.k <= o.precision) && (o.max.Some? ==> o.max.value.k <= o.precision)
    ensures (forall s :: Parsed(s, o) == "" || Within(Parsed(s, o), o))
            <==> (o.min.Some? && o.max.Some? ==> !Less(o.max.value, o.min.value))
  {
    hide Within, Parsed, ToFixed, Less;
    LimitsHold(o);
    if o.min.Some? {
      ExactWithin(o.min.value, o);
      LessOnce(o.min.value);
    }
    if o.max.Some? {
      ExactWithin(o.max.value, o);
      LessOnce(o.max.value);
    }
  }

  lemma LessOnce(x: Decimal)
    ensures !Less(x, x)
  {
  }

  lemma ExactWithin(x: Decimal, o: Options)
    requires x.k <= o.precision
    ensures Within(ToFixed(x, o.precision), o)
            <==> && (o.min.Some? ==> !Less(x, o.min.value))
                 && (o.max.Some? ==> !Less(o.max.value, x))
  {
    hide ParseFloat, ToFixed, Less, Fixed;
    var p := o.precision;
    var j := FixedIsNearest(x, p);
    FixedRead(x.m < 0, j, p);
    Signs(x.m, Pow10(p - x.k));
    assert ParseFloat(ToFixed(x, p)) == Some(Decimal(x.m * Pow10(p - x.k), p));
    if o.min.Some? {
      SameNumber(x, o.min.value, p);
    }
    if o.max.Some? {
      SameNumber(x, o.max.value, p);
    }
  }

  lemma Signs(m: int, d: nat)
    ensures (if m < 0 then -(Abs(m) * d) else Abs(m) * d) == m * d
  {
  }

  /** Writing a number with more decimals does not change it. */
  lemma SameNumber(x: Decimal, y: Decimal, p: nat)
    requires x.k <= p
    ensures var z := Decimal(x.m * Pow10(p - x.k), p);
            (Less(z, y) <==> Less(x, y)) && (Less(y, z) <==> Less(y, x))
  {
    hide Pow10;
    var c, d, e := Pow10(p - x.k), Pow10(x.k), Pow10(y.k);
    PowSum(p - x.k, x.k);
    assert Pow10(p) == c * d;
    Multiplied(x.m * e, y.m * d, c);
    assert (x.m * c) * e == (x.m * e) * c && y.m * (c * d) == (y.m * d) * c;
  }

  lemma Multiplied(a: int, b: int, c: nat)
    requires c > 0
    ensures a * c < b * c <==> a < b
    ensures b * c < a * c <==> b < a
  {
    assert (b - a) * c == b * c - a * c;
    assert b > a ==> (b - a) * c > 0;
    assert b <= a ==> (b - a) * c <= 0;
    assert b < a ==> (b - a) * c < 0;
    assert b >= a ==> (b - a) * c >= 0;
  }

  /** A limit with more decimals is rounded: in a box without decimals and a minimum of 0.4, a zero is read as
      a zero. */
  lemma RoundedLimit()
    ensures var o := Options("", "", None, '.', 0, Some(Decimal(4, 1)), None);
            Readable(o) && Parsed("0", o) == "0" && !Within("0", o)
  {
    hide Parsed, ToFixed, ParseFloat, Less;
    var o := Options("", "", None, '.', 0, Some(Decimal(4, 1)), None);
    ZeroText();
    LessZero();
    ValueRead(0, o);
    ParseCanonical(0, 0, "");
    assert "0" + "" == "0";
  }

  lemma ZeroText()
    ensures Canonical(0, 0) == "0" && ToFixed(Decimal(4, 1), 0) == "0"
  {
    hide Dec;
    WholeZero(0);
    assert Dec(0) == "0" by { ZeroDigit(); }
    assert Nearest(4, Pow10(1)) == 0;
  }

  lemma ZeroDigit()
    ensures Dec(0) == "0"
  {
  }

  lemma LessZero()
    ensures Less(Decimal(0, 0), Decimal(4, 1))
  {
  }
}
