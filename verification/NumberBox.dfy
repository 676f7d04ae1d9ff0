/** The numberbox: showing a fixed-point value with grouped digits, and reading it back. */
module NumberBoxes {
  import opened Texts
  import opened Patterns
  import opened Wrappers

  /** The number `m / 10^k`. */
  datatype Decimal = Decimal(m: int, k: nat)

  datatype Options = Options(prefix: string, suffix: string, group: Option<char>, decimal: char, precision: nat,
                             min: Option<Decimal>, max: Option<Decimal>)

  // ----- digits -----

  function Digit(d: int): (c: char)
    requires 0 <= d < 10
    ensures IsDigit(c)
  {
    '0' + d as char
  }

  function Pow10(k: nat): (p: nat)
    ensures p > 0
  {
    if k == 0 then 1 else 10 * Pow10(k - 1)
  }

  /** The value of a string of digits. */
  function Val(s: string): (n: nat)
    requires AllDigits(s)
  {
    if s == "" then 0 else 10 * Val(s[..|s| - 1]) + (s[|s| - 1] - '0') as int
  }

  /** A number in decimal. */
  function Dec(n: nat): (s: string)
    ensures AllDigits(s) && s != ""
  {
    if n < 10 then [Digit(n)] else Dec(n / 10) + [Digit(n % 10)]
  }

  /** The last `k` digits of a number. */
  function Pad(n: nat, k: nat): (s: string)
    ensures AllDigits(s) && |s| == k
  {
    if k == 0 then "" else Pad(n / 10, k - 1) + [Digit(n % 10)]
  }

  lemma {:induction false} ValDec(n: nat)
    ensures Val(Dec(n)) == n
  {
    if n >= 10 {
      ValDec(n / 10);
    }
  }

  lemma {:induction false} ValPad(n: nat, k: nat)
    requires n < Pow10(k)
    ensures Val(Pad(n, k)) == n
  {
    if k > 0 {
      ValPad(n / 10, k - 1);
    }
  }

  lemma {:induction false} ValConcat(a: string, b: string)
    requires AllDigits(a) && AllDigits(b)
    ensures AllDigits(a + b) && Val(a + b) == Val(a) * Pow10(|b|) + Val(b)
  {
    assert Pow10(|b|) == if b == "" then 1 else 10 * Pow10(|b| - 1);
    if b == "" {
      assert a + b == a;
    } else {
      var n := |b| - 1;
      assert (a + b)[..|a + b| - 1] == a + b[..n];
      ValConcat(a, b[..n]);
      Tens(Val(a), Pow10(n), Val(b[..n]));
    }
  }

  lemma Tens(x: int, p: int, y: int)
    ensures 10 * (x * p + y) == x * (10 * p) + 10 * y
  {
  }

  lemma {:induction false} PowSum(a: nat, b: nat)
    ensures Pow10(a + b) == Pow10(a) * Pow10(b)
  {
    if a > 0 {
      PowSum(a - 1, b);
      Tens(Pow10(a - 1), Pow10(b), 0);
      TenFirst(Pow10(a - 1), Pow10(b));
    }
  }

  lemma TenFirst(x: int, y: int)
    ensures 10 * (x * y) == (10 * x) * y
  {
  }

  // ----- toFixed and parseFloat, in exact arithmetic -----

  /** The whole part of `n / 10^p`, and its decimals as a number. */
  function Whole(n: nat, p: nat): (q: nat)
  {
    NotNegative(n, Pow10(p));
    n / Pow10(p)
  }

  function Decimals(n: nat, p: nat): (r: nat)
    ensures r < Pow10(p) && n == Whole(n, p) * Pow10(p) + r
  {
    NotNegative(n, Pow10(p));
    n % Pow10(p)
  }

  lemma NotNegative(a: int, b: int)
    requires a >= 0 && b > 0
    ensures a / b >= 0 && 0 <= a % b < b && a == (a / b) * b + a % b
  {
  }

  /** `n / 10^p` with `p` decimals. */
  function Fixed(negative: bool, n: nat, p: nat): string {
    (if negative then "-" else "") + Dec(Whole(n, p)) + if p == 0 then "" else "." + Pad(Decimals(n, p), p)
  }

  /** The value of the box for the number `n / 10^p`. */
  function Canonical(n: int, p: nat): string {
    Fixed(n < 0, Abs(n), p)
  }

  function Abs(n: int): nat {
    if n < 0 then -n else n
  }

  /** Rounds the magnitude to `p` decimals, ties upwards. */
  function ToFixed(x: Decimal, p: nat): string {
    Fixed(x.m < 0, if x.k <= p then Times(Abs(x.m), Pow10(p - x.k)) else Nearest(Abs(x.m), Pow10(x.k - p)), p)
  }

  function Times(a: nat, b: nat): nat {
    a * b
  }

  /** The integer nearest to `a / b`, the larger one of two. */
  function Nearest(a: nat, b: nat): nat
    requires b > 0
  {
    NotNegative(2 * a + b, 2 * b);
    (2 * a + b) / (2 * b)
  }

  /** How many digits a text starts with. */
  function Run(s: string): (k: nat)
    ensures k <= |s| && AllDigits(s[..k]) && (k < |s| ==> !IsDigit(s[k]))
  {
    if s == "" || !IsDigit(s[0]) then 0 else 1 + Run(s[1..])
  }

  /** The number at the start of an unsigned text, and how much of the text it takes. */
  function Unsigned(s: string): (r: Option<(Decimal, nat)>)
    ensures r.Some? ==> 0 < r.value.1 <= |s|
  {
    var i := Run(s);
    if i < |s| && s[i] == '.' then
      var f := Run(s[i + 1..]);
      if i + f == 0 then None
      else
        ValConcat(s[..i], s[i + 1..][..f]);
        Some((Decimal(Val(s[..i] + s[i + 1..][..f]), f), i + 1 + f))
    else if i == 0 then None
    else Some((Decimal(Val(s[..i]), 0), i))
  }

  /** The number at the start of a text without leading white space. */
  function Signed(s: string): (r: Option<(Decimal, nat)>)
    ensures r.Some? ==> 0 < r.value.1 <= |s|
  {
    if s != "" && (s[0] == '-' || s[0] == '+') then
      match Unsigned(s[1..])
      case None => None
      case Some((x, n)) => Some((Decimal(if s[0] == '-' then -x.m else x.m, x.k), n + 1))
    else Unsigned(s)
  }

  function ParseFloat(s: string): Option<Decimal> {
    match Signed(TrimLeft(s))
    case None => None
    case Some((x, _)) => Some(x)
  }

  /** The whole text, white space aside, is a number: then `parseFloat(s) == s`. */
  predicate ReadsAsNumber(s: string) {
    var t := Trim(s);
    var r := Signed(t);
    r.Some? && r.value.1 == |t|
  }

  predicate Less(a: Decimal, b: Decimal) {
    a.m * Pow10(b.k) < b.m * Pow10(a.k)
  }

  // ----- strings -----

  /** The index of the point, or the length. */
  function Point(s: string): (i: nat)
    ensures i <= |s| && (i < |s| ==> s[i] == '.') && forall k :: 0 <= k < i ==> s[k] != '.'
  {
    if s == "" || s[0] == '.' then 0 else 1 + Point(s[1..])
  }

  // ----- grouping -----

  /** What `"$1" + separator + "$2"` makes of the last three digits: a dollar sign spoils the pattern, since
      two of them stand for one. */
  function Joined(sep: char, last: string): string {
    if sep == '$' then "$2" else [sep] + last
  }

  /** Digits in groups of three from the right. */
  function Grouped(d: string, sep: char): string {
    if |d| <= 3 then d else Grouped(d[..|d| - 3], sep) + Joined(sep, d[|d| - 3..])
  }

  /** Every run of digits of a text, grouped. */
  function GroupAll(s: string, sep: char): string
    decreases |s|
  {
    if s == "" then ""
    else if !IsDigit(s[0]) then [s[0]] + GroupAll(s[1..], sep)
    else
      var k := Run(s);
      assert k > 0;
      Grouped(s[..k], sep) + GroupAll(s[k..], sep)
  }

  /** A run of at least four digits from index `a` on, `k` long. */
  predicate IsLongRun(s: string, a: nat, k: nat) {
    && k >= 4 && a + k <= |s| && AllDigits(s[a..a + k])
    && (a > 0 ==> !IsDigit(s[a - 1])) && (a + k < |s| ==> !IsDigit(s[a + k]))
  }

  lemma ShiftRun(s: string, j: nat, a: nat, k: nat)
    requires 0 < j <= |s| && !IsDigit(s[j - 1]) && IsLongRun(s[j..], a, k)
    ensures IsLongRun(s, j + a, k)
  {
    assert s[j..][a..a + k] == s[j + a..j + a + k];
  }

  /** Where `(\d+)(\d{3})` matches: the first run of at least four digits. */
  function LongRun(s: string): (r: Option<(nat, nat)>)
    ensures r.Some? ==> IsLongRun(s, r.value.0, r.value.1)
    decreases |s|
  {
    if s == "" then None
    else
      var k := Run(s);
      if k >= 4 then Some((0, k))
      else if k == |s| then None
      else
        var r := LongRun(s[k + 1..]);
        if r.None? then None
        else
          ShiftRun(s, k + 1, r.value.0, r.value.1);
          Some((k + 1 + r.value.0, r.value.1))
  }

  lemma {:induction false} RunAt(a: string, b: string)
    requires AllDigits(a) && (b != "" ==> !IsDigit(b[0]))
    ensures Run(a + b) == |a|
  {
    if a == "" {
      assert a + b == b;
    } else {
      assert (a + b)[1..] == a[1..] + b;
      RunAt(a[1..], b);
    }
  }

  /** Texts that do not meet in a digit are grouped apart. */
  lemma {:induction false} GroupConcat(a: string, b: string, sep: char)
    requires a == "" || b == "" || !IsDigit(a[|a| - 1]) || !IsDigit(b[0])
    ensures GroupAll(a + b, sep) == GroupAll(a, sep) + GroupAll(b, sep)
    decreases |a|
  {
    hide GroupAll, Grouped, Run;
    GroupEmpty(sep);
    if a == "" {
      assert a + b == b;
    } else if b == "" {
      assert a + b == a;
    } else if !IsDigit(a[0]) {
      assert (a + b)[1..] == a[1..] + b;
      GroupConcat(a[1..], b, sep);
      GroupNonDigit(a, sep);
      GroupNonDigit(a + b, sep);
    } else {
      var k := Run(a);
      var head, rest := a[..k], a[k..];
      assert a == head + rest && a + b == head + (rest + b);
      assert k > 0 by { RunStarts(a); }
      RunAt(head, rest + b);
      RunAt(head, rest);
      GroupFront(head, rest + b, sep);
      GroupFront(head, rest, sep);
      GroupConcat(rest, b, sep);
    }
  }

  lemma RunStarts(a: string)
    requires a != "" && IsDigit(a[0])
    ensures Run(a) > 0
  {
  }

  lemma GroupEmpty(sep: char)
    ensures GroupAll("", sep) == ""
  {
  }

  lemma GroupFront(d: string, s: string, sep: char)
    requires d != "" && Run(d + s) == |d|
    ensures GroupAll(d + s, sep) == Grouped(d, sep) + GroupAll(s, sep)
  {
    assert (d + s)[..|d|] == d && (d + s)[|d|..] == s;
  }

  lemma GroupRun(d: string, sep: char)
    requires AllDigits(d)
    ensures GroupAll(d, sep) == Grouped(d, sep)
  {
    if d != "" {
      RunAt(d, "");
      assert d + "" == d && d[..|d|] == d && d[|d|..] == "";
    }
  }

  lemma {:induction false} GroupNone(s: string, sep: char)
    requires LongRun(s) == None
    ensures GroupAll(s, sep) == s
    decreases |s|
  {
    hide GroupAll, Grouped, Run, LongRun, IsDigit;
    if s == "" {
      GroupEmpty(sep);
    } else {
      NoLongRun(s);
      var k := Run(s);
      var head, tail := s[..k], s[k..];
      assert s == head + tail;
      GroupRun(head, sep);
      GroupShort(head, sep);
      GroupConcat(head, tail, sep);
      if k == |s| {
        assert tail == "";
        GroupEmpty(sep);
      } else {
        assert tail[1..] == s[k + 1..];
        GroupNone(s[k + 1..], sep);
        GroupNonDigit(tail, sep);
        assert [tail[0]] + tail[1..] == tail;
      }
    }
  }

  lemma NoLongRun(s: string)
    requires s != "" && LongRun(s) == None
    ensures Run(s) <= 3 && (Run(s) < |s| ==> !IsDigit(s[Run(s)]) && LongRun(s[Run(s) + 1..]) == None)
  {
    hide Run;
  }

  lemma GroupShort(d: string, sep: char)
    requires |d| <= 3
    ensures Grouped(d, sep) == d
  {
  }

  lemma GroupNonDigit(s: string, sep: char)
    requires s != "" && !IsDigit(s[0])
    ensures GroupAll(s, sep) == [s[0]] + GroupAll(s[1..], sep)
  {
  }

  function Replaced(s: string, a: nat, k: nat, sep: char): string
    requires k >= 4 && a + k <= |s|
  {
    s[..a + k - 3] + Joined(sep, s[a + k - 3..a + k]) + s[a + k..]
  }

  lemma JoinedAlone(sep: char, last: string)
    requires !IsDigit(sep) && AllDigits(last) && |last| == 3
    ensures Joined(sep, last) != "" && !IsDigit(Joined(sep, last)[0])
    ensures GroupAll(Joined(sep, last), sep) == Joined(sep, last)
  {
    var j := Joined(sep, last);
    GroupRun(j[1..], sep);
  }

  /** One turn of the loop leaves the grouping that is aimed at unchanged. */
  lemma ReplacedGroups(s: string, a: nat, k: nat, sep: char)
    requires !IsDigit(sep) && LongRun(s) == Some((a, k))
    ensures GroupAll(Replaced(s, a, k, sep), sep) == GroupAll(s, sep)
  {
    hide GroupAll, Grouped, LongRun, Joined, Replaced;
    var x, run, y := s[..a], s[a..a + k], s[a + k..];
    var head, last := run[..k - 3], run[k - 3..];
    var j := Joined(sep, last);
    JoinedAlone(sep, last);
    ReplacedParts(s, a, k, sep);
    GroupConcat(x, run + y, sep);
    GroupConcat(run, y, sep);
    GroupConcat(x, head + (j + y), sep);
    GroupConcat(head, j + y, sep);
    GroupConcat(j, y, sep);
    GroupRun(run, sep);
    GroupRun(head, sep);
    GroupedLast(run, sep);
    Assoc(Grouped(head, sep), j, GroupAll(y, sep));
  }

  lemma ReplacedParts(s: string, a: nat, k: nat, sep: char)
    requires k >= 4 && a + k <= |s|
    ensures var x, run, y := s[..a], s[a..a + k], s[a + k..];
            && s == x + (run + y)
            && Replaced(s, a, k, sep) == x + (run[..k - 3] + (Joined(sep, run[k - 3..]) + y))
  {
    hide Joined;
    assert s[a + k - 3..a + k] == s[a..a + k][k - 3..];
  }

  lemma Assoc(a: string, b: string, c: string)
    ensures (a + b) + c == a + (b + c)
  {
  }

  lemma GroupedLast(d: string, sep: char)
    requires |d| > 3
    ensures Grouped(d, sep) == Grouped(d[..|d| - 3], sep) + Joined(sep, d[|d| - 3..])
  {
  }

  lemma {:induction false} GroupedLength(d: string, sep: char)
    ensures if sep == '$' then |Grouped(d, sep)| <= |d| else |Grouped(d, sep)| >= |d|
  {
    if |d| > 3 {
      GroupedLength(d[..|d| - 3], sep);
    }
  }

  lemma {:induction false} GroupAllLength(s: string, sep: char)
    ensures if sep == '$' then |GroupAll(s, sep)| <= |s| else |GroupAll(s, sep)| >= |s|
    decreases |s|
  {
    if s != "" {
      if !IsDigit(s[0]) {
        GroupAllLength(s[1..], sep);
      } else {
        var k := Run(s);
        assert k > 0;
        GroupedLength(s[..k], sep);
        GroupAllLength(s[k..], sep);
      }
    }
  }

  /** The grouping loop of the formatter. */
  method GroupDigits(text: string, sep: char) returns (s: string)
    requires !IsDigit(sep)
    ensures s == GroupAll(text, sep)
  {
    s := text;
    GroupAllLength(s, sep);
    while LongRun(s) != None
      invariant GroupAll(s, sep) == GroupAll(text, sep)
      invariant if sep == '$' then |GroupAll(s, sep)| <= |s| else |GroupAll(s, sep)| >= |s|
      decreases if sep == '$' then |s| - |GroupAll(text, sep)| else |GroupAll(text, sep)| - |s|
    {
      var (a, k) := LongRun(s).value;
      ReplacedGroups(s, a, k, sep);
      s := Replaced(s, a, k, sep);
      GroupAllLength(s, sep);
    }
    GroupNone(s, sep);
  }

  // ----- formatter and parser -----

  function Shown(whole: string, decimals: string, o: Options): string {
    o.prefix + (whole + if decimals != "" then [o.decimal] + decimals else "") + o.suffix
  }

  /** A value before and after its point. */
  function Split(v: string): (string, string) {
    var i := Point(v);
    (v[..i], if i < |v| then v[i + 1..] else "")
  }

  function Formatted(v: string, o: Options): string {
    if v == "" then ""
    else
      var (s1, s2) := Split(v);
      Shown(if o.group.Some? then GroupAll(s1, o.group.value) else s1, s2, o)
  }

  lemma Regroup(a: string, b: string, c: string, d: string, e: string)
    ensures a + b + c + d + e == a + (b + (c + d)) + e
  {
  }

  method Formatter(v: string, o: Options) returns (text: string)
    requires o.group.Some? ==> !IsDigit(o.group.value)
    ensures text == Formatted(v, o)
    ensures v == "" ==> text == ""
  {
    if v == "" {
      return v;
    }
    var s1, s2 := v, "";
    var i := Point(v);
    if i < |v| {
      s1, s2 := v[..i], v[i + 1..];
    }
    if o.group.Some? {
      s1 := GroupDigits(s1, o.group.value);
    }
    assert v[..|v|] == v && s1 + "" == s1;
    Regroup(o.prefix, s1, [o.decimal], s2, o.suffix);
    assert v != "";
    if s2 != "" {
      return o.prefix + s1 + [o.decimal] + s2 + o.suffix;
    } else {
      return o.prefix + s1 + o.suffix;
    }
  }

  /** An affix whose regular expression is one of those modelled. White space alone makes none. */
  predicate Affix(affix: string) {
    affix == "" || (Trim(affix) != "" && Compile(Trim(affix)).Some?)
  }

  /** A separator: no digit, and not the letter of an exponent. */
  predicate Separator(c: char) {
    !IsDigit(c) && c != 'e' && c != 'E'
  }

  /** Options that the parser works with. It throws for more than twenty decimals. */
  predicate Readable(o: Options) {
    && Affix(o.prefix) && Affix(o.suffix)
    && (o.group.Some? ==> Separator(o.group.value)) && Separator(o.decimal)
    && o.precision <= 20
  }

  lemma PlainReadable(o: Options)
    requires o.prefix == o.suffix == ""
    ensures Readable(o) <==> && o.precision < 21
                             && o.decimal !in "0123456789eE" && (o.group.Some? ==> o.group.value !in "0123456789eE")
  {
    SeparatorChars(o.decimal);
    if o.group.Some? {
      SeparatorChars(o.group.value);
    }
  }

  lemma SeparatorChars(c: char)
    ensures Separator(c) <==> c !in "0123456789eE"
  {
    var s := "0123456789eE";
    assert s[10] == 'e' && s[11] == 'E' && forall i :: 0 <= i < 10 ==> IsDigit(s[i]);
    if IsDigit(c) {
      assert s[(c - '0') as int] == c;
    }
  }

  /** Takes out an affix, white space aside. */
  function Without(s: string, affix: string): string
    requires Affix(affix)
  {
    if affix == "" then s else Trim(Removed(s, Compile(Trim(affix)).value))
  }

  /** The pattern of one escaped character. */
  function PatternOf(c: char): Pattern
    requires !IsDigit(c)
  {
    LiteralChar(c);
    Compile([c]).value
  }

  /** The steps after the affixes: the separators, and white space. */
  function Finished(a: string, o: Options): string
    requires Readable(o)
  {
    var b := if o.group.Some? then Trim(Removed(a, PatternOf(o.group.value))) else a;
    RemoveSpace(Trim(Substituted(b, PatternOf(o.decimal), ".")))
  }

  function Stripped(s: string, o: Options): string
    requires Readable(o)
  {
    Finished(Without(Without(s, o.prefix), o.suffix), o)
  }

  function Parsed(s: string, o: Options): string
    requires Readable(o)
  {
    var x := ParseFloat(if ReadsAsNumber(s) then s else Stripped(s, o));
    if x.None? then ""
    else
      var val := ToFixed(x.value, o.precision);
      var n := ParseFloat(val);
      if o.min.Some? && n.Some? && Less(n.value, o.min.value) then ToFixed(o.min.value, o.precision)
      else if o.max.Some? && n.Some? && Less(o.max.value, n.value) then ToFixed(o.max.value, o.precision)
      else val
  }

  // ----- reading a number back -----

  /** What may follow a number without becoming part of it. */
  predicate Harmless(junk: string) {
    junk == "" || (!IsDigit(junk[0]) && junk[0] != '.')
  }

  lemma UnsignedWhole(w: string, junk: string)
    requires AllDigits(w) && w != "" && Harmless(junk)
    ensures Unsigned(w + junk) == Some((Decimal(Val(w), 0), |w|))
  {
    hide Val, Run;
    RunAt(w, junk);
    assert (w + junk)[..|w|] == w;
  }

  lemma UnsignedPoint(w: string, f: string, junk: string)
    requires AllDigits(w) && AllDigits(f) && w != "" && (junk == "" || !IsDigit(junk[0]))
    ensures AllDigits(w + f)
    ensures Unsigned(w + ("." + (f + junk))) == Some((Decimal(Val(w + f), |f|), |w| + 1 + |f|))
  {
    hide Val, Run;
    PointParts(w, f, junk);
    RunAt(w, "." + (f + junk));
    RunAt(f, junk);
  }

  lemma PointParts(w: string, f: string, junk: string)
    ensures var t := w + ("." + (f + junk));
            && |t| > |w| && t[..|w|] == w && t[|w|] == '.'
            && t[|w| + 1..] == f + junk && (f + junk)[..|f|] == f
  {
    var t := w + ("." + (f + junk));
    assert t[|w| + 1..] == ("." + (f + junk))[1..];
  }

  lemma UnsignedFixed(n: nat, p: nat, junk: string)
    requires Harmless(junk)
    ensures var v := Fixed(false, n, p); Unsigned(v + junk) == Some((Decimal(n, p), |v|))
  {
    hide Dec, Pad, Val, Whole, Unsigned;
    var w, f := Dec(Whole(n, p)), Pad(Decimals(n, p), p);
    ValDec(Whole(n, p));
    if p == 0 {
      UnsignedWhole(w, junk);
      assert Fixed(false, n, p) == w;
      assert Whole(n, 0) == n by { WholeZero(n); }
    } else {
      UnsignedPoint(w, f, junk);
      PointJunk(w, f, junk);
      ValPad(Decimals(n, p), p);
      ValConcat(w, f);
    }
  }

  lemma PointJunk(w: string, f: string, junk: string)
    ensures "" + w + ("." + f) + junk == w + ("." + (f + junk))
  {
  }

  lemma WholeZero(n: nat)
    ensures Whole(n, 0) == n
  {
  }

  lemma ParseCanonical(n: int, p: nat, junk: string)
    requires Harmless(junk)
    ensures ParseFloat(Canonical(n, p) + junk) == Some(Decimal(n, p))
  {
    hide Fixed, Unsigned, Pow10;
    FixedSign(Abs(n), p);
    UnsignedFixed(Abs(n), p, junk);
    var u := Fixed(false, Abs(n), p);
    var s := Canonical(n, p) + junk;
    if n < 0 {
      assert s == "-" + (u + junk);
    }
  }

  /** A fixed-point text starts with a digit, or with a minus sign before one. */
  lemma FixedSign(n: nat, p: nat)
    ensures Fixed(true, n, p) == "-" + Fixed(false, n, p)
    ensures Fixed(false, n, p) != "" && IsDigit(Fixed(false, n, p)[0])
  {
    hide Dec, Pad, Whole, Decimals;
  }

  // ----- what stripping leaves -----

  predicate AffixChar(c: char, o: Options) {
    !IsDigit(c) && c != '.' && c != '-' && c != '+' && c != o.decimal && o.group != Some(c)
  }

  /** A text free of digits, signs and separators. */
  predicate Plain(s: string, o: Options) {
    forall i :: 0 <= i < |s| ==> AffixChar(s[i], o)
  }

  lemma TrimKeeps(w: string, b: string, j: string, o: Options)
    requires Blank(w) && Solid(b) && Plain(j, o)
    ensures Trim(w + b + j) == b + TrimRight(j) && Plain(TrimRight(j), o)
  {
    assert w + b + j == w + (b + j);
    TrimLeftBlank(w, b + j);
    TrimRightKeeps(b, j);
    var r := RightParts(j);
    assert forall i :: 0 <= i < |TrimRight(j)| ==> TrimRight(j)[i] == j[i];
  }

  lemma {:induction false} RemovePlain(s: string, pat: string, o: Options)
    requires pat != "" && Plain(s, o)
    ensures Plain(RemoveAll(s, pat), o)
    decreases |s|
  {
    if s != "" {
      if pat <= s {
        RemovePlain(s[|pat|..], pat, o);
      } else {
        RemovePlain(s[1..], pat, o);
      }
    }
  }

  // ----- the round trip -----

  /** Separators under which a shown number reads back: taken literally by the parser, no minus sign, the group
      one no dollar sign, not the decimal one, and a point only where decimals follow. */
  predicate Separators(o: Options) {
    && o.decimal != '-' && !IsSpecial(o.decimal)
    && (o.group.Some? ==>
          && o.group.value != '-' && o.group.value != '$' && o.group.value != o.decimal
          && (o.group.value == '.' ==> o.precision > 0)
          && !IsSpecial(o.group.value))
  }

  /** With such separators the last steps take out and replace single characters. */
  lemma LiteralFinish(a: string, o: Options)
    requires Readable(o) && !IsSpecial(o.decimal) && (o.group.Some? ==> !IsSpecial(o.group.value))
    ensures Finished(a, o) == RemoveSpace(Trim(ReplaceChar(
              if o.group.Some? then Trim(RemoveAll(a, [o.group.value])) else a, o.decimal, '.')))
  {
    hide Trim, RemoveSpace, RemoveAll, ReplaceChar, Substituted;
    LiteralChar(o.decimal);
    if o.group.Some? {
      LiteralChar(o.group.value);
      LiteralRemoves(a, [o.group.value]);
      LiteralReplaces(Trim(RemoveAll(a, [o.group.value])), o.decimal, '.');
    } else {
      LiteralReplaces(a, o.decimal, '.');
    }
  }

  function Sign(n: int): string {
    if n < 0 then "-" else ""
  }

  function Int(n: int, o: Options): string {
    Dec(Whole(Abs(n), o.precision))
  }

  function Fraction(n: int, point: char, o: Options): string {
    if o.precision == 0 then "" else [point] + Pad(Decimals(Abs(n), o.precision), o.precision)
  }

  function GroupedInt(n: int, o: Options): string {
    if o.group.Some? then Grouped(Int(n, o), o.group.value) else Int(n, o)
  }

  /** What is shown between the affixes. */
  function Body(n: int, o: Options): string {
    Sign(n) + GroupedInt(n, o) + Fraction(n, o.decimal, o)
  }

  /** The formatter puts the sign, the grouped digits and the decimals between the affixes. */
  lemma FormattedBody(n: int, o: Options)
    ensures Formatted(Canonical(n, o.precision), o) == o.prefix + Body(n, o) + o.suffix
  {
    hide Dec, Pad, Whole, Decimals, GroupAll, Grouped, Formatted;
    var s1, f := Sign(n) + Int(n, o), Fraction(n, '.', o);
    assert Canonical(n, o.precision) == s1 + f;
    FormattedParts(s1, f, o);
    if o.group.Some? {
      GroupSigned(n, Int(n, o), o.group.value);
    }
    var dec := if f == "" then "" else [o.decimal] + f[1..];
    assert dec == Fraction(n, o.decimal, o);
  }

  lemma FormattedParts(s1: string, f: string, o: Options)
    requires s1 != "" && (forall i :: 0 <= i < |s1| ==> s1[i] != '.')
    requires f == "" || (|f| > 1 && f[0] == '.')
    ensures Formatted(s1 + f, o)
            == Shown(if o.group.Some? then GroupAll(s1, o.group.value) else s1, if f == "" then "" else f[1..], o)
  {
    hide GroupAll, Split, Shown;
    SplitAtPoint(s1, f);
  }

  lemma SplitAtPoint(s1: string, f: string)
    requires s1 != "" && (forall i :: 0 <= i < |s1| ==> s1[i] != '.')
    requires f == "" || (|f| > 1 && f[0] == '.')
    ensures s1 + f != "" && Split(s1 + f) == (s1, if f == "" then "" else f[1..])
  {
    hide Point;
    PointAt(s1, f);
    assert (s1 + f)[..|s1|] == s1;
    if f != "" {
      assert (s1 + f)[|s1| + 1..] == f[1..];
    }
  }

  lemma GroupSigned(n: int, d: string, sep: char)
    requires AllDigits(d)
    ensures GroupAll(Sign(n) + d, sep) == Sign(n) + Grouped(d, sep)
  {
    GroupRun(d, sep);
    if n < 0 {
      GroupNonDigit(Sign(n) + d, sep);
      assert (Sign(n) + d)[1..] == d;
    } else {
      assert Sign(n) + d == d;
    }
  }

  lemma {:induction false} PointAt(a: string, b: string)
    requires (forall i :: 0 <= i < |a| ==> a[i] != '.') && (b != "" ==> b[0] == '.')
    ensures Point(a + b) == |a|
  {
    if a == "" {
      assert a + b == b;
    } else {
      assert (a + b)[1..] == a[1..] + b;
      PointAt(a[1..], b);
    }
  }

  // ----- the parts of the body -----

  /** Grouped digits are digits and separators, and end in a digit. */
  lemma {:induction false} GroupedChars(d: string, sep: char)
    requires AllDigits(d) && sep != '$' && d != ""
    ensures forall i :: 0 <= i < |Grouped(d, sep)| ==> IsDigit(Grouped(d, sep)[i]) || Grouped(d, sep)[i] == sep
    ensures Grouped(d, sep) != "" && IsDigit(Grouped(d, sep)[0]) && IsDigit(Grouped(d, sep)[|Grouped(d, sep)| - 1])
  {
    if |d| > 3 {
      GroupedChars(d[..|d| - 3], sep);
    }
  }

  lemma BodyChars(n: int, o: Options)
    requires Readable(o) && Separators(o)
    ensures Solid(Body(n, o)) && IsDigit(Body(n, o)[|Body(n, o)| - 1])
    ensures forall i :: 0 <= i < |Body(n, o)| ==> !AffixChar(Body(n, o)[i], o)
  {
    hide Dec, Pad, Whole, Decimals, Grouped;
    if o.group.Some? {
      GroupedChars(Int(n, o), o.group.value);
    }
    var g, f := GroupedInt(n, o), Fraction(n, o.decimal, o);
    assert g != "" && IsDigit(g[0]) && IsDigit(g[|g| - 1]);
    var b := Body(n, o);
    assert b[0] == '-' || b[0] == g[0];
    assert b[|b| - 1] == if f == "" then g[|g| - 1] else f[|f| - 1];
  }

  /** Taking the separators out of grouped digits gives the digits. */
  lemma {:induction false} Ungrouped(d: string, sep: char)
    requires AllDigits(d) && !IsDigit(sep) && sep != '$'
    ensures RemoveAll(Grouped(d, sep), [sep]) == d
  {
    if |d| <= 3 {
      RemoveFront(d, "", [sep]);
      assert d + "" == d;
    } else {
      var head, last := d[..|d| - 3], d[|d| - 3..];
      Ungrouped(head, sep);
      RemoveChar(Grouped(head, sep), [sep] + last, sep);
      assert ([sep] + last)[1..] == last;
      RemoveFront(last, "", [sep]);
      assert last + "" == last;
    }
  }

  lemma UngroupedBody(n: int, o: Options)
    requires Readable(o) && Separators(o) && o.group.Some?
    ensures RemoveAll(Body(n, o), [o.group.value]) == Sign(n) + Int(n, o) + Fraction(n, o.decimal, o)
  {
    hide Dec, Pad, Whole, Decimals, Grouped, RemoveAll;
    var sep, f := o.group.value, Fraction(n, o.decimal, o);
    Ungrouped(Int(n, o), sep);
    RemoveChar(Sign(n) + GroupedInt(n, o), f, sep);
    RemoveChar(Sign(n), GroupedInt(n, o), sep);
    RemoveNone(Sign(n), sep);
    RemoveNone(f, sep);
  }

  /** With the decimal separator turned into a point the value itself is back. */
  lemma PointedBody(n: int, o: Options)
    requires Readable(o) && Separators(o)
    ensures ReplaceChar(Sign(n) + Int(n, o) + Fraction(n, o.decimal, o), o.decimal, '.') == Canonical(n, o.precision)
  {
    hide Dec, Pad, Whole, Decimals, ReplaceChar;
    var a, f := Sign(n) + Int(n, o), Fraction(n, o.decimal, o);
    ReplaceConcat(a, f, o.decimal, '.');
    ReplaceNone(a, o.decimal, '.');
    if f != "" {
      assert f == [o.decimal] + f[1..];
      ReplaceConcat([o.decimal], f[1..], o.decimal, '.');
      ReplaceNone(f[1..], o.decimal, '.');
      ReplaceOne(o.decimal, '.');
    } else {
      ReplaceNone(f, o.decimal, '.');
    }
  }

  lemma {:induction false} SpacePlain(s: string, o: Options)
    requires Plain(s, o)
    ensures Plain(RemoveSpace(s), o)
  {
    if s != "" {
      SpacePlain(s[1..], o);
    }
  }

  // ----- what is left after each step -----

  lemma TrimPlain(s: string, o: Options)
    requires Plain(s, o)
    ensures Plain(Trim(s), o)
  {
    hide Trim;
    var l, r := TrimParts(s);
    assert forall i :: 0 <= i < |Trim(s)| ==> Trim(s)[i] == s[|l| + i];
  }

  /** The number without its group separators. */
  function BareBody(n: int, o: Options): string {
    Sign(n) + Int(n, o) + Fraction(n, o.decimal, o)
  }

  lemma BareSolid(n: int, o: Options)
    ensures Solid(Sign(n) + Int(n, o) + Fraction(n, o.decimal, o))
    ensures Solid(Canonical(n, o.precision))
    ensures forall i :: 0 <= i < |Canonical(n, o.precision)| ==> !IsSpace(Canonical(n, o.precision)[i])
  {
    hide Dec, Pad, Whole, Decimals;
    var b, f := Sign(n) + Int(n, o), Fraction(n, o.decimal, o);
    assert IsDigit(b[|b| - 1]) && (b + f)[0] == b[0];
    assert (b + f)[|b + f| - 1] == if f == "" then b[|b| - 1] else f[|f| - 1];
    var c := Canonical(n, o.precision);
    assert c == b + Fraction(n, '.', o);
  }

  lemma WithoutGroups(n: int, j: string, o: Options) returns (k: string)
    requires Readable(o) && Separators(o) && o.group.Some? && Plain(j, o)
    ensures Trim(RemoveAll(Body(n, o) + j, [o.group.value])) == Sign(n) + Int(n, o) + Fraction(n, o.decimal, o) + k
    ensures Plain(k, o)
  {
    hide Trim, RemoveAll, Body, Solid, Int, Fraction, Sign;
    var sep := o.group.value;
    var bare, rest := Sign(n) + Int(n, o) + Fraction(n, o.decimal, o), RemoveAll(j, [sep]);
    BareSolid(n, o);
    RemoveChar(Body(n, o), j, sep);
    UngroupedBody(n, o);
    RemovePlain(j, [sep], o);
    assert "" + bare + rest == bare + rest;
    TrimKeeps("", bare, rest, o);
    k := TrimRight(rest);
  }

  lemma Pointed(n: int, j: string, o: Options) returns (k: string)
    requires Readable(o) && Separators(o) && Plain(j, o)
    ensures RemoveSpace(Trim(ReplaceChar(Sign(n) + Int(n, o) + Fraction(n, o.decimal, o) + j, o.decimal, '.')))
            == Canonical(n, o.precision) + k
    ensures Plain(k, o)
  {
    hide Trim, ReplaceChar, RemoveSpace, Solid, Int, Fraction, Sign, Canonical;
    var bare, c := Sign(n) + Int(n, o) + Fraction(n, o.decimal, o), Canonical(n, o.precision);
    ReplaceConcat(bare, j, o.decimal, '.');
    ReplaceNone(j, o.decimal, '.');
    PointedBody(n, o);
    BareSolid(n, o);
    assert "" + c + j == c + j;
    TrimKeeps("", c, j, o);
    SpaceConcat(c, TrimRight(j));
    SpaceNone(c);
    SpacePlain(TrimRight(j), o);
    k := RemoveSpace(TrimRight(j));
  }

  lemma BodyBare(n: int, o: Options)
    requires o.group.None?
    ensures Body(n, o) == BareBody(n, o)
  {
  }

  /** From the number, with or without its group separators, and rests of an affix the steps get the value. */
  lemma FinishedBody(n: int, b: string, j: string, o: Options) returns (k: string)
    requires Readable(o) && Separators(o) && Plain(j, o) && (b == Body(n, o) || b == BareBody(n, o))
    ensures Finished(b + j, o) == Canonical(n, o.precision) + k && Plain(k, o)
  {
    hide Trim, RemoveAll, ReplaceChar, RemoveSpace, Body, Canonical, Plain, Finished, Int, Fraction, Sign, Solid;
    LiteralFinish(b + j, o);
    var bare := BareBody(n, o);
    assert bare == Sign(n) + Int(n, o) + Fraction(n, o.decimal, o);
    var i := j;
    if o.group.Some? {
      if b == Body(n, o) {
        i := WithoutGroups(n, j, o);
      } else {
        i := WithoutMore(n, j, o);
      }
    } else {
      assert Body(n, o) == bare by { BodyBare(n, o); }
    }
    k := Pointed(n, i, o);
  }

  /** Where the group separators are out already, taking them out changes nothing. */
  lemma WithoutMore(n: int, j: string, o: Options) returns (k: string)
    requires Readable(o) && Separators(o) && o.group.Some? && Plain(j, o)
    ensures Trim(RemoveAll(BareBody(n, o) + j, [o.group.value])) == BareBody(n, o) + k && Plain(k, o)
  {
    hide Trim, RemoveAll, Solid;
    var sep := o.group.value;
    var bare, rest := BareBody(n, o), RemoveAll(j, [sep]);
    BareSolid(n, o);
    RemoveChar(bare, j, sep);
    assert RemoveAll(bare, [sep]) == bare by { BareNoGroup(n, o); RemoveNone(bare, sep); }
    RemovePlain(j, [sep], o);
    assert "" + bare + rest == bare + rest;
    TrimKeeps("", bare, rest, o);
    k := TrimRight(rest);
  }

  lemma BareNoGroup(n: int, o: Options)
    requires Readable(o) && Separators(o) && o.group.Some?
    ensures forall i :: 0 <= i < |BareBody(n, o)| ==> BareBody(n, o)[i] != o.group.value
  {
    hide Dec, Pad, Whole, Decimals;
  }

  // ----- texts that read as a number as they are -----

  predicate NumberChar(c: char) {
    IsDigit(c) || c == '.'
  }

  /** What parseFloat takes consists of digits and points, but for a sign in front. */
  lemma UnsignedChars(s: string)
    ensures Unsigned(s).Some? ==> forall i :: 0 <= i < Unsigned(s).value.1 ==> NumberChar(s[i])
  {
    hide Val, Run;
    var i := Run(s);
    RunDigits(s);
    if i < |s| && s[i] == '.' {
      RunDigits(s[i + 1..]);
      assert forall k :: i < k < |s| ==> s[k] == s[i + 1..][k - i - 1];
    }
  }

  lemma RunDigits(s: string)
    ensures forall k :: 0 <= k < Run(s) ==> IsDigit(s[k])
  {
    hide Run;
    assert forall k :: 0 <= k < Run(s) ==> s[k] == s[..Run(s)][k];
  }

  lemma SignedChars(s: string)
    requires Signed(s).Some? && Signed(s).value.1 == |s|
    ensures s != "" && (s[0] == '-' || s[0] == '+' || NumberChar(s[0]))
    ensures forall i :: 1 <= i < |s| ==> NumberChar(s[i])
  {
    hide Unsigned;
    UnsignedChars(s);
    if s != "" && (s[0] == '-' || s[0] == '+') {
      UnsignedChars(s[1..]);
      assert forall i :: 1 <= i < |s| ==> s[i] == s[1..][i - 1];
    }
  }

  lemma ReadChars(text: string)
    requires ReadsAsNumber(text)
    ensures forall i :: 0 <= i < |text| ==> IsSpace(text[i]) || NumberChar(text[i]) || text[i] == '-' || text[i] == '+'
  {
    hide Trim, Signed;
    var t := Trim(text);
    SignedChars(t);
    var l, r := TrimParts(text);
    forall i | 0 <= i < |text|
      ensures IsSpace(text[i]) || NumberChar(text[i]) || text[i] == '-' || text[i] == '+'
    {
      assert text[i] == if i < |l| then l[i] else if i < |l| + |t| then t[i - |l|] else r[i - |l| - |t|];
    }
  }

  lemma AffixReads(a: string, affix: string, c: string, o: Options)
    requires affix != "" && Trim(affix) != "" && Plain(affix, o)
    ensures !ReadsAsNumber(a + affix + c)
  {
    hide Trim, ReadsAsNumber;
    var text := a + affix + c;
    var i := Visible(affix);
    assert text[|a| + i] == affix[i] && AffixChar(affix[i], o);
    if ReadsAsNumber(text) {
      ReadChars(text);
    }
  }

  /** A shown number that reads as a number is the value itself. */
  lemma ReadsItself(n: int, o: Options)
    requires Readable(o) && Separators(o) && ReadsAsNumber(Body(n, o))
    ensures Body(n, o) == Canonical(n, o.precision)
  {
    hide Trim, Signed, Body, Canonical, Solid;
    var b := Body(n, o);
    BodyChars(n, o);
    TrimKeeps("", b, "", o);
    assert "" + b + "" == b && b + TrimRight("") == b;
    SignedChars(b);
    NumbersOnly(n, o);
  }

  lemma NumbersOnly(n: int, o: Options)
    requires Readable(o) && Separators(o) && forall i :: 1 <= i < |Body(n, o)| ==> NumberChar(Body(n, o)[i])
    ensures Body(n, o) == Canonical(n, o.precision)
  {
    hide Dec, Pad, Whole, Decimals, Grouped, Plain;
    var b, k, g, f := Body(n, o), |Sign(n)|, GroupedInt(n, o), Fraction(n, o.decimal, o);
    assert forall i :: 0 <= i < |g| ==> b[k + i] == g[i];
    if o.group.Some? {
      GroupedChars(Int(n, o), o.group.value);
      ShortOnly(Int(n, o), o.group.value);
    }
    assert f != "" ==> b[k + |g|] == f[0];
    assert g == Int(n, o);
    assert Canonical(n, o.precision) == Sign(n) + Int(n, o) + Fraction(n, '.', o);
  }

  /** Grouped digits without a separator after the first character are not grouped at all. */
  lemma ShortOnly(d: string, sep: char)
    requires AllDigits(d) && d != "" && !IsDigit(sep) && sep != '$'
    ensures (forall i :: 1 <= i < |Grouped(d, sep)| ==> Grouped(d, sep)[i] != sep) ==> Grouped(d, sep) == d
  {
    if |d| > 3 {
      var head := Grouped(d[..|d| - 3], sep);
      GroupedChars(d[..|d| - 3], sep);
      assert Grouped(d, sep)[|head|] == sep;
    }
  }

  // ----- limits -----

  predicate InRange(n: int, o: Options) {
    && (o.min.Some? ==> !Less(Decimal(n, o.precision), o.min.value))
    && (o.max.Some? ==> !Less(o.max.value, Decimal(n, o.precision)))
  }

  lemma FixedAgain(n: int, p: nat)
    ensures ToFixed(Decimal(n, p), p) == Canonical(n, p)
  {
    hide Fixed;
    assert Times(Abs(n), Pow10(0)) == Abs(n);
  }

  /** A text whose number is a value of the box reads as that value, or as the limit that it is beyond. */
  lemma ReadsAs(text: string, n: int, o: Options)
    requires Readable(o)
    requires ParseFloat(if ReadsAsNumber(text) then text else Stripped(text, o)) == Some(Decimal(n, o.precision))
    ensures InRange(n, o) ==> Parsed(text, o) == Canonical(n, o.precision)
    ensures BelowMin(n, o) ==> Parsed(text, o) == ToFixed(o.min.value, o.precision)
    ensures !BelowMin(n, o) && AboveMax(n, o) ==> Parsed(text, o) == ToFixed(o.max.value, o.precision)
  {
    hide ParseFloat, ReadsAsNumber, Stripped, ToFixed, Canonical, Less, Readable;
    FixedAgain(n, o.precision);
    ParseCanonical(n, o.precision, "");
    assert Canonical(n, o.precision) + "" == Canonical(n, o.precision);
  }

  predicate BelowMin(n: int, o: Options) {
    o.min.Some? && Less(Decimal(n, o.precision), o.min.value)
  }

  predicate AboveMax(n: int, o: Options) {
    o.max.Some? && Less(o.max.value, Decimal(n, o.precision))
  }

  // ----- what these numbers are -----

  /** `Less` compares the numbers. */
  lemma LessIsLess(a: Decimal, b: Decimal)
    ensures Less(a, b) <==> a.m as real / Pow10(a.k) as real < b.m as real / Pow10(b.k) as real
    ensures a.k == b.k ==> (Less(a, b) <==> a.m < b.m)
  {
    Quotients(a.m, Pow10(a.k), b.m, Pow10(b.k));
    Scaled(a.m, b.m, Pow10(a.k));
  }

  lemma Quotients(a: int, x: nat, b: int, y: nat)
    requires x > 0 && y > 0
    ensures a * y < b * x <==> a as real / x as real < b as real / y as real
  {
    var p, q, u, v := a as real, b as real, x as real, y as real;
    assert p == (p / u) * u && q == (q / v) * v;
    var d := q / v - p / u;
    assert q * u - p * v == (d * v) * u;
    assert d > 0.0 ==> (d * v) * u > 0.0;
    assert d <= 0.0 ==> (d * v) * u <= 0.0;
    assert (a * y) as real == p * v && (b * x) as real == q * u;
  }

  lemma Scaled(a: int, b: int, d: nat)
    requires d > 0
    ensures a * d < b * d <==> a < b
  {
  }

  /** toFixed takes the nearest number with so many decimals, of two the one with the larger magnitude. */
  lemma FixedIsNearest(x: Decimal, p: nat) returns (j: nat)
    ensures ToFixed(x, p) == Fixed(x.m < 0, j, p)
    ensures x.k <= p ==> j == Abs(x.m) * Pow10(p - x.k)
    ensures x.k > p ==> var d := Pow10(x.k - p); 2 * Abs(x.m) - d < 2 * j * d <= 2 * Abs(x.m) + d
  {
    hide Fixed, Pow10;
    if x.k <= p {
      j := Times(Abs(x.m), Pow10(p - x.k));
    } else {
      var d := Pow10(x.k - p);
      j := Nearest(Abs(x.m), d);
      NotNegative(2 * Abs(x.m) + d, 2 * d);
      assert j * (2 * d) == 2 * j * d;
    }
  }
}
