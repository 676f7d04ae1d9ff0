/** The regular expressions that the numberbox builds: a backslash in front of a text, matched everywhere. */
module Patterns {
  import opened Texts
  import opened Wrappers

  /** What the escaped first character matches: itself, or a class of characters. */
  datatype Class = One(c: char) | Digits | NonDigits | Spaces | NonSpaces | WordChars | NonWordChars

  /** A pattern: one character of a class, or the edge of a word or no such edge, then a literal text, and
      perhaps the end of the input. */
  datatype Pattern = Pattern(head: Class, rest: string, atEnd: bool) | Edge(inside: bool, rest: string, atEnd: bool)

  predicate IsLetter(c: char) {
    'a' <= c <= 'z' || 'A' <= c <= 'Z'
  }

  predicate IsWordChar(c: char) {
    IsLetter(c) || IsDigit(c) || c == '_'
  }

  predicate Hits(k: Class, c: char) {
    match k
    case One(d) => c == d
    case Digits => IsDigit(c)
    case NonDigits => !IsDigit(c)
    case Spaces => IsSpace(c)
    case NonSpaces => !IsSpace(c)
    case WordChars => IsWordChar(c)
    case NonWordChars => !IsWordChar(c)
  }

  // ----- reading a pattern -----

  /** Characters with a meaning of their own after the first, wherever they stand. */
  predicate IsMeta(c: char) {
    || c == '\\' || c == '^' || c == '$' || c == '.' || c == '*' || c == '+' || c == '?'
    || c == '[' || c == '|'
  }

  /** None of those, and no count in braces. */
  predicate NoMeta(s: string) {
    forall i :: 0 <= i < |s| ==> !IsMeta(s[i]) && (s[i] == '{' && i + 1 < |s| ==> !IsDigit(s[i + 1]))
  }

  /** A text without its parentheses, of which `open` are open: they group and match nothing themselves.
      Where they do not balance there is no pattern. */
  function Unwrapped(s: string, open: nat): (r: Option<string>)
    ensures r.Some? ==> |r.value| <= |s| && forall c :: c in r.value ==> c in s
  {
    if s == "" then if open == 0 then Some("") else None
    else if s[0] == '(' then Unwrapped(s[1..], open + 1)
    else if s[0] == ')' then if open == 0 then None else Unwrapped(s[1..], open - 1)
    else
      match Unwrapped(s[1..], open)
      case None => None
      case Some(t) => Some([s[0]] + t)
  }

  lemma {:induction false} UnwrappedTo(a: string, s: string, open: nat, r: string)
    requires '(' !in a && ')' !in a && Unwrapped(s, open) == Some(r)
    ensures Unwrapped(a + s, open) == Some(a + r)
  {
    if a == "" {
      assert a + s == s && a + r == r;
    } else {
      assert (a + s)[1..] == a[1..] + s;
      UnwrappedTo(a[1..], s, open, r);
      assert [a[0]] + (a[1..] + r) == a + r;
    }
  }

  lemma UnwrappedPlain(s: string)
    requires '(' !in s && ')' !in s
    ensures Unwrapped(s, 0) == Some(s)
  {
    UnwrappedTo(s, "", 0, "");
    assert s + "" == s;
  }

  predicate IsHex(c: char) {
    IsDigit(c) || 'a' <= c <= 'f' || 'A' <= c <= 'F'
  }

  predicate AllHex(s: string) {
    forall i :: 0 <= i < |s| ==> IsHex(s[i])
  }

  /** Letters that a backslash turns into something else. */
  predicate IsSpecial(c: char) {
    || c == 'b' || c == 'B' || c == 'c' || c == 'd' || c == 'D' || c == 'f' || c == 'n' || c == 'r'
    || c == 's' || c == 'S' || c == 't' || c == 'v' || c == 'w' || c == 'W'
  }

  /** The pattern of a backslash, `c` and `rest`.  Not modelled are references and octal numbers, hexadecimal
      escapes, and further operators. */
  function Escaped(c: char, rest: string, atEnd: bool): Option<Pattern> {
    var control := c == 'c' && rest != "" && IsLetter(rest[0]);
    var flat := Unwrapped(if control then rest[1..] else rest, 0);
    if IsDigit(c) || !NoMeta(rest) || flat.None? then None
    else
      var t := flat.value;
      match c
      case 'd' => Some(Pattern(Digits, t, atEnd))
      case 'D' => Some(Pattern(NonDigits, t, atEnd))
      case 's' => Some(Pattern(Spaces, t, atEnd))
      case 'S' => Some(Pattern(NonSpaces, t, atEnd))
      case 'w' => Some(Pattern(WordChars, t, atEnd))
      case 'W' => Some(Pattern(NonWordChars, t, atEnd))
      case 't' => Some(Pattern(One('\t'), t, atEnd))
      case 'n' => Some(Pattern(One('\n'), t, atEnd))
      case 'v' => Some(Pattern(One('\U{000B}'), t, atEnd))
      case 'f' => Some(Pattern(One('\U{000C}'), t, atEnd))
      case 'r' => Some(Pattern(One('\r'), t, atEnd))
      case 'b' => Some(Edge(false, t, atEnd))
      case 'B' => Some(Edge(true, t, atEnd))
      case 'c' =>
        if control then Some(Pattern(One((rest[0] as int % 32) as char), t, atEnd))
        else Some(Pattern(One('\\'), "c" + t, atEnd))
      case 'x' => if |rest| >= 2 && AllHex(rest[..2]) then None else Some(Pattern(One('x'), t, atEnd))
      case 'u' => if |rest| >= 4 && AllHex(rest[..4]) then None else Some(Pattern(One('u'), t, atEnd))
      case _ => Some(Pattern(One(c), t, atEnd))
  }

  /** The pattern of a backslash and a text: a dollar sign at its end stands for the end of the input. */
  function Compile(t: string): Option<Pattern>
    requires t != ""
  {
    if |t| > 1 && t[|t| - 1] == '$' then Escaped(t[0], t[1..|t| - 1], true) else Escaped(t[0], t[1..], false)
  }

  /** The pattern that matches just the text. */
  function Literally(t: string): Pattern
    requires t != ""
  {
    Pattern(One(t[0]), t[1..], false)
  }

  predicate IsLiteral(t: string)
    requires t != ""
  {
    Compile(t) == Some(Literally(t))
  }

  /** A single character is taken literally iff it is neither a digit nor a letter with a meaning. */
  lemma LiteralChar(c: char)
    ensures IsLiteral([c]) <==> !IsDigit(c) && !IsSpecial(c)
    ensures !IsDigit(c) ==> Compile([c]).Some?
  {
    assert [c][1..] == "";
    assert Unwrapped("", 0) == Some("");
    assert Compile([c]) == Escaped(c, "", false);
  }

  /** What the escapes stand for (sections 15.10.2.10 to 15.10.2.12 of ECMA-262 5.1). */
  lemma Escapes(c: char, d: char)
    requires IsSpecial(c) && c != 'b' && c != 'B' && c != 'c'
    ensures Compile([c]).Some? && Compile([c]).value.Pattern?
    ensures Compile([c]).value.rest == "" && !Compile([c]).value.atEnd
    ensures Hits(Compile([c]).value.head, d)
            <==> match c
                 case 'd' => '0' <= d <= '9'
                 case 'D' => !('0' <= d <= '9')
                 case 's' => IsSpace(d)
                 case 'S' => !IsSpace(d)
                 case 'w' => 'a' <= d <= 'z' || 'A' <= d <= 'Z' || '0' <= d <= '9' || d == '_'
                 case 'W' => !('a' <= d <= 'z' || 'A' <= d <= 'Z' || '0' <= d <= '9' || d == '_')
                 case 't' => d as int == 9
                 case 'n' => d as int == 10
                 case 'v' => d as int == 11
                 case 'f' => d as int == 12
                 case _ => c == 'r' && d as int == 13
  {
    hide IsSpace, Unwrapped;
    OneEscape(c);
  }

  lemma OneEscape(c: char)
    ensures Compile([c]) == Escaped(c, "", false) && Unwrapped("", 0) == Some("")
  {
    assert [c][1..] == "";
  }

  /** The edges of words, and a control character. */
  lemma OtherEscapes()
    ensures Compile("b") == Some(Edge(false, "", false)) && Compile("B") == Some(Edge(true, "", false))
    ensures Compile("cA") == Some(Pattern(One('\U{0001}'), "", false))
  {
    OneEscape('b');
    OneEscape('B');
    assert "b" == ['b'] && "B" == ['B'];
    assert "cA"[1..] == "A" && "A"[1..] == "";
  }

  /** Hexadecimal digits by their code points. */
  lemma HexDigits(c: char)
    ensures IsHex(c) <==> c as int in {48, 49, 50, 51, 52, 53, 54, 55, 56, 57, 65, 66, 67, 68, 69, 70,
                                       97, 98, 99, 100, 101, 102}
  {
  }

  /** Texts that make no pattern of the model: a digit in front, a character with a meaning behind the first
      one, or parentheses that do not match. */
  lemma NotCompiled(t: string, i: nat)
    requires 0 < i < |t|
    ensures t[i] in ['\\', '^', '.', '*', '+', '?', '[', '|'] ==> Compile(t).None?
    ensures t[i] == '$' && i < |t| - 1 ==> Compile(t).None?
    ensures t[i] == '{' && i + 1 < |t| && IsDigit(t[i + 1]) ==> Compile(t).None?
    ensures IsDigit(t[0]) ==> Compile(t).None?
  {
    var atEnd := t[|t| - 1] == '$';
    var rest := if atEnd then t[1..|t| - 1] else t[1..];
    assert i - 1 < |rest| ==> rest[i - 1] == t[i];
    assert i < |rest| ==> rest[i] == t[i + 1];
  }

  /** Nor do hexadecimal escapes, two digits after an x or four after a u; otherwise these are letters. */
  lemma HexEscapes(rest: string, atEnd: bool)
    requires NoMeta(rest) && Unwrapped(rest, 0).Some?
    ensures Escaped('x', rest, atEnd).None? <==> |rest| >= 2 && IsHex(rest[0]) && IsHex(rest[1])
    ensures Escaped('u', rest, atEnd).None?
            <==> |rest| >= 4 && IsHex(rest[0]) && IsHex(rest[1]) && IsHex(rest[2]) && IsHex(rest[3])
  {
    hide IsHex, Unwrapped, NoMeta, AllHex;
    if |rest| >= 2 {
      FirstHex(rest, 2);
    }
    if |rest| >= 4 {
      FirstHex(rest, 4);
    }
  }

  lemma FirstHex(s: string, n: nat)
    requires n <= |s|
    ensures AllHex(s[..n]) <==> forall k :: 0 <= k < n ==> IsHex(s[k])
  {
    assert forall k :: 0 <= k < n ==> s[..n][k] == s[k];
  }

  // ----- matching -----

  predicate Matches(x: Pattern, s: string)
    requires x.Pattern?
  {
    && |s| >= 1 + |x.rest| && Hits(x.head, s[0]) && s[1..1 + |x.rest|] == x.rest
    && (x.atEnd ==> |s| == 1 + |x.rest|)
  }

  /** Whether a word starts or ends in front of `s`, or just not, with the text of the pattern to follow;
      `word` says whether a character of a word stands before. */
  predicate EdgeHere(word: bool, s: string, x: Pattern)
    requires x.Edge?
  {
    && x.rest <= s && (x.atEnd ==> s == x.rest)
    && (x.inside <==> (word <==> s != "" && IsWordChar(s[0])))
  }

  /** Replaces what follows such edges; where nothing is to follow, it inserts. */
  function AtEdges(word: bool, s: string, x: Pattern, to: string): string
    requires x.Edge?
    decreases |s|
  {
    var n := |x.rest|;
    if EdgeHere(word, s, x) then
      if n > 0 then to + AtEdges(IsWordChar(s[n - 1]), s[n..], x, to)
      else to + if s == "" then "" else [s[0]] + AtEdges(IsWordChar(s[0]), s[1..], x, to)
    else if s == "" then "" else [s[0]] + AtEdges(IsWordChar(s[0]), s[1..], x, to)
  }

  /** Replaces every match, from left to right. */
  function Substituted(s: string, x: Pattern, to: string): string
    decreases |s|
  {
    if x.Edge? then AtEdges(false, s, x, to)
    else if s == "" then ""
    else if Matches(x, s) then to + Substituted(s[1 + |x.rest|..], x, to)
    else [s[0]] + Substituted(s[1..], x, to)
  }

  function Removed(s: string, x: Pattern): string {
    Substituted(s, x, "")
  }

  /** One step of the replacement. */
  lemma SubstitutedStep(s: string, x: Pattern, to: string)
    requires x.Pattern? && s != ""
    ensures Substituted(s, x, to) == if Matches(x, s) then to + Substituted(s[1 + |x.rest|..], x, to)
                                     else [s[0]] + Substituted(s[1..], x, to)
  {
  }

  lemma SubstitutedNothing(x: Pattern, to: string)
    requires x.Pattern?
    ensures Substituted("", x, to) == ""
  {
  }

  /** A literal pattern takes out the text itself. */
  lemma {:induction false} LiteralRemoves(s: string, t: string)
    requires t != ""
    ensures Removed(s, Literally(t)) == RemoveAll(s, t)
    decreases |s|
  {
    var x := Literally(t);
    if s != "" {
      assert Matches(x, s) <==> t <= s by { MatchesLiteral(s, t); }
      if t <= s {
        LiteralRemoves(s[|t|..], t);
        assert "" + RemoveAll(s[|t|..], t) == RemoveAll(s[|t|..], t);
      } else {
        LiteralRemoves(s[1..], t);
      }
    }
  }

  lemma MatchesLiteral(s: string, t: string)
    requires t != ""
    ensures Matches(Literally(t), s) <==> t <= s
  {
    if t <= s {
      assert s[..|t|] == t;
      assert s[1..|t|] == t[1..];
    }
    if Matches(Literally(t), s) {
      assert t == [s[0]] + s[1..|t|];
    }
  }

  lemma {:induction false} LiteralReplaces(s: string, c: char, d: char)
    ensures Substituted(s, Literally([c]), [d]) == ReplaceChar(s, c, d)
  {
    if s != "" {
      assert [c][1..] == "";
      LiteralReplaces(s[1..], c, d);
      assert s[1..1] == "";
    }
  }

  /** The result has characters of the text and of the replacement only. */
  lemma {:induction false} SubstitutedChars(s: string, x: Pattern, to: string)
    ensures forall c :: c in Substituted(s, x, to) ==> c in s || c in to
    decreases |s|
  {
    if x.Edge? {
      EdgesChars(false, s, x, to);
    } else if s != "" {
      SubstitutedStep(s, x, to);
      SubstitutedChars(s[1..], x, to);
      if Matches(x, s) {
        SubstitutedChars(s[1 + |x.rest|..], x, to);
      }
    }
  }

  /** A pattern of one character takes out just what it hits. */
  lemma {:induction false} RemovedMisses(s: string, x: Pattern)
    requires x.Pattern? && x.rest == "" && !x.atEnd
    ensures forall c :: c in Removed(s, x) <==> c in s && !Hits(x.head, c)
  {
    if s != "" {
      SubstitutedStep(s, x, "");
      RemovedMisses(s[1..], x);
      assert s[1..1] == "";
      assert s == [s[0]] + s[1..];
    }
  }

  lemma MatchesOne(s: string, x: Pattern)
    requires x.Pattern? && x.rest == "" && !x.atEnd && s != ""
    ensures Matches(x, s) <==> Hits(x.head, s[0])
  {
    assert s[1..1] == "";
  }

  lemma {:induction false} RemovedConcat(a: string, b: string, x: Pattern)
    requires x.Pattern? && x.rest == "" && !x.atEnd
    ensures Removed(a + b, x) == Removed(a, x) + Removed(b, x)
  {
    hide Substituted, Matches, Hits;
    SubstitutedNothing(x, "");
    if a == "" {
      assert a + b == b;
    } else {
      var s := a + b;
      assert s[1..] == a[1..] + b && s[0] == a[0];
      SubstitutedStep(a, x, "");
      SubstitutedStep(s, x, "");
      MatchesOne(a, x);
      MatchesOne(s, x);
      RemovedConcat(a[1..], b, x);
    }
  }

  /** Where nothing can be the first character of a match, nothing is taken out. */
  lemma {:induction false} RemovedNone(s: string, x: Pattern)
    requires x.Pattern? && forall i :: 0 <= i < |s| ==> !Hits(x.head, s[i])
    ensures Removed(s, x) == s
  {
    hide Hits;
    if s != "" {
      SubstitutedStep(s, x, "");
      RemovedNone(s[1..], x);
    }
  }

  /** In front of a text that starts with none of its text, a longer pattern takes out what it takes out of
      each part on its own. */
  lemma {:induction false} RemovedSplit(a: string, r: string, x: Pattern)
    requires x.Pattern? && x.rest != "" && !x.atEnd && r != "" && r[0] !in x.rest
    ensures Removed(a + r, x) == Removed(a, x) + Removed(r, x)
    decreases |a|
  {
    hide Substituted, Matches;
    SubstitutedNothing(x, "");
    if a == "" {
      assert a + r == r;
    } else {
      var s, n := a + r, 1 + |x.rest|;
      SubstitutedStep(s, x, "");
      SubstitutedStep(a, x, "");
      MatchWithin(a, r, x);
      if Matches(x, a) {
        LongEnough(a, x);
        assert s[n..] == a[n..] + r;
        RemovedSplit(a[n..], r, x);
      } else {
        assert s[1..] == a[1..] + r && s[0] == a[0];
        RemovedSplit(a[1..], r, x);
      }
    }
  }

  lemma MatchWithin(a: string, r: string, x: Pattern)
    requires x.Pattern? && a != "" && x.rest != "" && !x.atEnd && r != "" && r[0] !in x.rest
    ensures Matches(x, a + r) <==> Matches(x, a)
  {
    var s, n := a + r, 1 + |x.rest|;
    if n <= |a| {
      assert s[1..n] == a[1..n];
    } else if n <= |s| {
      assert s[1..n][|a| - 1] == s[|a|] == r[0];
    }
  }

  lemma LongEnough(s: string, x: Pattern)
    requires x.Pattern? && Matches(x, s)
    ensures |s| >= 1 + |x.rest|
  {
  }

  /** A pattern that reaches to the end has one match at most: the last characters. */
  lemma {:induction false} RemovedAtEnd(s: string, x: Pattern)
    requires x.Pattern? && x.atEnd
    ensures var n := 1 + |x.rest|;
            Removed(s, x) == if |s| >= n && Matches(x, s[|s| - n..]) then s[..|s| - n] else s
    decreases |s|
  {
    hide Substituted, Matches;
    var n := 1 + |x.rest|;
    SubstitutedNothing(x, "");
    if s != "" {
      SubstitutedStep(s, x, "");
      EndOnly(s, x);
      if |s| == n {
        assert s[|s| - n..] == s && s[n..] == "" && s[..0] == "";
      }
      if !Matches(x, s) {
        RemovedAtEnd(s[1..], x);
        if |s| > n {
          SkipFirst(s, n);
        }
        assert [s[0]] + s[1..] == s;
      }
    }
  }

  lemma SkipFirst(s: string, n: nat)
    requires n < |s|
    ensures s[1..][|s| - 1 - n..] == s[|s| - n..]
    ensures [s[0]] + s[1..][..|s| - 1 - n] == s[..|s| - n]
  {
  }

  lemma EndOnly(s: string, x: Pattern)
    requires x.Pattern? && x.atEnd
    ensures Matches(x, s) ==> |s| == 1 + |x.rest|
  {
  }

  /** A text whose head cannot be matched across its end stays in front of another. */
  lemma {:induction false} RemovedAfter(b: string, c: string, x: Pattern)
    requires x.Pattern? && x.rest != "" && !x.atEnd && Avoids(b, x.rest)
    requires b == "" || !(Hits(x.head, b[|b| - 1]) && x.rest <= c)
    ensures Removed(b + c, x) == b + Removed(c, x)
  {
    hide Substituted, Hits;
    if b == "" {
      assert b + c == c;
    } else {
      var s := b + c;
      SubstitutedStep(s, x, "");
      assert s[1..] == b[1..] + c && s[0] == b[0];
      NoMatchAcross(b, c, x);
      RemovedAfter(b[1..], c, x);
      FirstBack(b, Removed(c, x));
    }
  }

  lemma FirstBack(b: string, r: string)
    requires b != ""
    ensures [b[0]] + (b[1..] + r) == b + r
  {
  }

  lemma NoMatchAcross(b: string, c: string, x: Pattern)
    requires x.Pattern? && b != "" && x.rest != "" && !x.atEnd && Avoids(b, x.rest)
    requires !(Hits(x.head, b[|b| - 1]) && x.rest <= c)
    ensures !Matches(x, b + c)
  {
    var s, n := b + c, 1 + |x.rest|;
    if |s| >= n {
      if |b| > 1 {
        assert s[1..n][0] == s[1] == b[1];
        assert b[1] !in x.rest;
      } else {
        assert s[1..n] == c[..|x.rest|];
      }
    }
  }

  /** Otherwise its last character goes, with the text of the pattern that follows. */
  lemma {:induction false} RemovedAcross(b: string, c: string, x: Pattern)
    requires x.Pattern? && x.rest != "" && !x.atEnd && Avoids(b, x.rest)
    requires b != "" && Hits(x.head, b[|b| - 1]) && x.rest <= c
    ensures Removed(b + c, x) == b[..|b| - 1] + Removed(c[|x.rest|..], x)
  {
    hide Substituted, Hits;
    var s, n := b + c, 1 + |x.rest|;
    SubstitutedStep(s, x, "");
    assert s[1..] == b[1..] + c && s[0] == b[0];
    if |b| == 1 {
      assert s[1..n] == c[..|x.rest|] == x.rest;
      assert s[n..] == c[|x.rest|..] && b[..0] == "";
    } else {
      assert |s| >= n ==> s[1..n][0] == b[1];
      assert b[1] !in x.rest && !Matches(x, s);
      RemovedAcross(b[1..], c, x);
      assert [b[0]] + b[1..][..|b| - 2] == b[..|b| - 1];
      assert [b[0]] + (b[1..][..|b| - 2] + Removed(c[|x.rest|..], x)) == b[..|b| - 1] + Removed(c[|x.rest|..], x);
    }
  }

  /** What comes before the last characters does not matter to a pattern that reaches to the end, unless the
      last of it is hit. */
  lemma {:induction false} RemovedToEnd(a: string, c: string, x: Pattern)
    requires x.Pattern? && x.atEnd && a != "" && a[|a| - 1] !in x.rest
    requires !(Hits(x.head, a[|a| - 1]) && c == x.rest)
    ensures Removed(a + c, x) == a + Removed(c, x)
    decreases |a|
  {
    hide Substituted, Hits;
    var s := a + c;
    SubstitutedStep(s, x, "");
    assert s[1..] == a[1..] + c && s[0] == a[0];
    NoMatchBefore(a, c, x);
    if |a| == 1 {
      assert a[1..] + c == c;
    } else {
      RemovedToEnd(a[1..], c, x);
      FirstBack(a, Removed(c, x));
    }
  }

  lemma NoMatchBefore(a: string, c: string, x: Pattern)
    requires x.Pattern? && x.atEnd && a != "" && a[|a| - 1] !in x.rest
    requires !(Hits(x.head, a[|a| - 1]) && c == x.rest)
    ensures !Matches(x, a + c)
  {
    var s, n := a + c, 1 + |x.rest|;
    if |s| == n {
      assert s[1..n] == a[1..] + c;
      if |a| > 1 {
        assert s[1..n][|a| - 2] == a[|a| - 1];
      }
    }
  }

  lemma {:induction false} SubstitutedMisses(s: string, x: Pattern, to: string)
    requires x.Pattern? && x.rest == "" && !x.atEnd
    ensures forall c :: c in Substituted(s, x, to) ==> c in to || (c in s && !Hits(x.head, c))
  {
    hide Hits, Substituted, Matches;
    if s == "" {
      SubstitutedNothing(x, to);
    } else {
      SubstitutedStep(s, x, to);
      SubstitutedMisses(s[1..], x, to);
      MatchesOne(s, x);
      assert s[0] in s && forall c :: c in s[1..] ==> c in s;
    }
  }

  lemma {:induction false} SubstitutedNone(s: string, x: Pattern, to: string)
    requires x.Pattern? && forall c :: c in s ==> !Hits(x.head, c)
    ensures Substituted(s, x, to) == s
  {
    hide Hits;
    if s != "" {
      SubstitutedStep(s, x, to);
      assert s[0] in s && forall c :: c in s[1..] ==> c in s;
      SubstitutedNone(s[1..], x, to);
    }
  }

  // ----- edges of words -----

  lemma {:induction false} EdgesChars(word: bool, s: string, x: Pattern, to: string)
    requires x.Edge?
    ensures forall c :: c in AtEdges(word, s, x, to) ==> c in s || c in to
    decreases |s|
  {
    hide EdgeHere;
    EdgeStep(word, s, x, to);
    if s != "" {
      EdgesChars(IsWordChar(s[0]), s[1..], x, to);
      var n := |x.rest|;
      if EdgeHere(word, s, x) && n > 0 {
        EdgeRest(word, s, x);
        EdgesChars(IsWordChar(s[n - 1]), s[n..], x, to);
      }
    }
  }

  lemma EdgeRest(word: bool, s: string, x: Pattern)
    requires x.Edge? && EdgeHere(word, s, x)
    ensures x.rest <= s
  {
  }

  /** One step of the replacement. */
  lemma EdgeStep(word: bool, s: string, x: Pattern, to: string)
    requires x.Edge?
    ensures EdgeHere(word, s, x) ==> x.rest <= s
    ensures var n := |x.rest|;
            AtEdges(word, s, x, to)
            == if EdgeHere(word, s, x) && n > 0 then to + AtEdges(IsWordChar(s[n - 1]), s[n..], x, to)
               else (if EdgeHere(word, s, x) then to else "")
                    + if s == "" then "" else [s[0]] + AtEdges(IsWordChar(s[0]), s[1..], x, to)
  {
  }

  /** Taking out nothing at the edges changes nothing. */
  lemma {:induction false} EdgesOnly(word: bool, s: string, x: Pattern)
    requires x.Edge? && x.rest == ""
    ensures AtEdges(word, s, x, "") == s
    decreases |s|
  {
    hide EdgeHere, AtEdges;
    EdgeStep(word, s, x, "");
    if s != "" {
      EdgesOnly(IsWordChar(s[0]), s[1..], x);
    }
  }

  /** Whether the last character is one of a word. */
  predicate WordAfter(word: bool, s: string) {
    if s == "" then word else IsWordChar(s[|s| - 1])
  }

  lemma WordSkip(word: bool, s: string, n: nat)
    requires 0 < n <= |s|
    ensures WordAfter(IsWordChar(s[n - 1]), s[n..]) == WordAfter(word, s)
  {
  }

  /** A text that another starts with has nothing of the pattern's text is handled on its own. */
  lemma {:induction false} EdgesSplit(word: bool, a: string, r: string, x: Pattern)
    requires x.Edge? && x.rest != "" && !x.atEnd && r != "" && r[0] !in x.rest
    ensures AtEdges(word, a + r, x, "") == AtEdges(word, a, x, "") + AtEdges(WordAfter(word, a), r, x, "")
    decreases |a|
  {
    hide EdgeHere, AtEdges, WordAfter, IsWordChar;
    EdgeStep(word, a, x, "");
    if a == "" {
      assert a + r == r && WordAfter(word, a) == word by { NoWord(word); }
      NoEdge(word, "", x);
    } else {
      var s, n := a + r, |x.rest|;
      var last := AtEdges(WordAfter(word, a), r, x, "");
      EdgeStep(word, s, x, "");
      SameEdge(word, a, r, x);
      if EdgeHere(word, a, x) {
        SkipJoined(a, r, n);
        WordSkip(word, a, n);
        EdgesSplit(IsWordChar(a[n - 1]), a[n..], r, x);
        FirstJoined("", AtEdges(IsWordChar(a[n - 1]), a[n..], x, ""), last);
      } else {
        SkipJoined(a, r, 1);
        WordSkip(word, a, 1);
        EdgesSplit(IsWordChar(a[0]), a[1..], r, x);
        FirstJoined([a[0]], AtEdges(IsWordChar(a[0]), a[1..], x, ""), last);
      }
    }
  }

  lemma SkipJoined(a: string, r: string, n: nat)
    requires 0 < n <= |a|
    ensures (a + r)[n..] == a[n..] + r && (a + r)[n - 1] == a[n - 1]
  {
  }

  lemma NoWord(word: bool)
    ensures WordAfter(word, "") == word
  {
  }

  lemma FirstJoined(a: string, b: string, c: string)
    ensures a + (b + c) == (a + b) + c && "" + (a + b) == a + b
  {
  }

  lemma NoEdge(word: bool, s: string, x: Pattern)
    requires x.Edge? && !(x.rest <= s)
    ensures !EdgeHere(word, s, x)
  {
  }

  lemma SameEdge(word: bool, a: string, r: string, x: Pattern)
    requires x.Edge? && a != "" && r != "" && !x.atEnd && r[0] !in x.rest
    ensures EdgeHere(word, a + r, x) <==> EdgeHere(word, a, x)
  {
    PrefixWithin(a, r, x.rest);
  }

  /** A text that has nothing of the pattern's text stays. */
  lemma {:induction false} EdgesAvoid(word: bool, b: string, c: string, x: Pattern)
    requires x.Edge? && x.rest != "" && Avoids(b, x.rest)
    ensures AtEdges(word, b + c, x, "") == b + AtEdges(WordAfter(word, b), c, x, "")
    decreases |b|
  {
    hide EdgeHere, AtEdges, WordAfter, IsWordChar;
    if b == "" {
      assert b + c == c;
      NoWord(word);
    } else {
      EdgeStep(word, b + c, x, "");
      SkipJoined(b, c, 1);
      NoEdge(word, b + c, x);
      WordSkip(word, b, 1);
      EdgesAvoid(IsWordChar(b[0]), b[1..], c, x);
      FirstBack(b, AtEdges(WordAfter(word, b), c, x, ""));
    }
  }

  /** A pattern that reaches to the end leaves alone what comes before such a text. */
  lemma {:induction false} EdgesAtEnd(word: bool, a: string, c: string, x: Pattern)
    requires x.Edge? && x.atEnd && x.rest != "" && (a != "" ==> a[|a| - 1] !in x.rest)
    ensures AtEdges(word, a + c, x, "") == a + AtEdges(WordAfter(word, a), c, x, "")
    decreases |a|
  {
    hide EdgeHere, AtEdges, WordAfter, IsWordChar;
    if a == "" {
      assert a + c == c;
      NoWord(word);
    } else {
      EdgeStep(word, a + c, x, "");
      SkipJoined(a, c, 1);
      NotToEnd(word, a, c, x);
      WordSkip(word, a, 1);
      assert |a| > 1 ==> a[1..][|a| - 2] == a[|a| - 1];
      EdgesAtEnd(IsWordChar(a[0]), a[1..], c, x);
      FirstBack(a, AtEdges(WordAfter(word, a), c, x, ""));
    }
  }

  lemma NotToEnd(word: bool, a: string, c: string, x: Pattern)
    requires x.Edge? && x.atEnd && a != "" && a[|a| - 1] !in x.rest
    ensures !EdgeHere(word, a + c, x)
  {
    assert (a + c)[|a| - 1] == a[|a| - 1];
  }
}
