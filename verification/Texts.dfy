/** Strings as the numberbox handles them: trimming, and taking out or replacing what is found. */
module Texts {

  predicate IsDigit(c: char) {
    '0' <= c <= '9'
  }

  predicate AllDigits(s: string) {
    forall i :: 0 <= i < |s| ==> IsDigit(s[i])
  }

  /** White space and line ends, as trimming, `\s` and parseFloat know them. */
  predicate IsSpace(c: char) {
    || '\U{0009}' <= c <= '\U{000D}' || c == ' ' || c == '\U{00A0}' || c == '\U{1680}'
    || '\U{2000}' <= c <= '\U{200A}' || c == '\U{2028}' || c == '\U{2029}' || c == '\U{202F}'
    || c == '\U{205F}' || c == '\U{3000}' || c == '\U{FEFF}'
  }

  /** In code points: WhiteSpace and LineTerminator of ECMA-262 5.1, sections 7.2 and 7.3, with the space
      separators of Unicode, and the ten digits. */
  lemma CodePoints(c: char)
    ensures IsSpace(c) <==> c as int in {9, 10, 11, 12, 13, 32, 160, 5760, 8192, 8193, 8194, 8195, 8196, 8197, 8198,
                                         8199, 8200, 8201, 8202, 8232, 8233, 8239, 8287, 12288, 65279}
    ensures IsDigit(c) <==> 48 <= c as int < 58
  {
  }

  function TrimLeft(s: string): string {
    if s != "" && IsSpace(s[0]) then TrimLeft(s[1..]) else s
  }

  function TrimRight(s: string): string {
    if s != "" && IsSpace(s[|s| - 1]) then TrimRight(s[..|s| - 1]) else s
  }

  function Trim(s: string): string {
    TrimRight(TrimLeft(s))
  }

  /** Takes out every occurrence of a pattern, from left to right. */
  function RemoveAll(s: string, pat: string): string
    requires pat != ""
  {
    if s == "" then ""
    else if pat <= s then RemoveAll(s[|pat|..], pat)
    else [s[0]] + RemoveAll(s[1..], pat)
  }

  function ReplaceChar(s: string, c: char, d: char): string {
    if s == "" then "" else [if s[0] == c then d else s[0]] + ReplaceChar(s[1..], c, d)
  }

  function RemoveSpace(s: string): string {
    if s == "" then "" else (if IsSpace(s[0]) then "" else [s[0]]) + RemoveSpace(s[1..])
  }

  predicate Blank(s: string) {
    forall i :: 0 <= i < |s| ==> IsSpace(s[i])
  }

  /** A text that starts and ends visibly. */
  predicate Solid(b: string) {
    b != "" && !IsSpace(b[0]) && !IsSpace(b[|b| - 1])
  }

  lemma {:induction false} LeftParts(s: string) returns (l: string)
    ensures s == l + TrimLeft(s) && Blank(l)
    ensures TrimLeft(s) != "" ==> !IsSpace(TrimLeft(s)[0])
  {
    if s != "" && IsSpace(s[0]) {
      var m := LeftParts(s[1..]);
      l := [s[0]] + m;
    } else {
      l := "";
    }
  }

  lemma {:induction false} RightParts(s: string) returns (r: string)
    ensures s == TrimRight(s) + r && Blank(r)
    ensures TrimRight(s) != "" ==> !IsSpace(TrimRight(s)[|TrimRight(s)| - 1])
  {
    if s != "" && IsSpace(s[|s| - 1]) {
      var m := RightParts(s[..|s| - 1]);
      r := m + [s[|s| - 1]];
    } else {
      r := "";
    }
  }

  lemma TrimParts(s: string) returns (l: string, r: string)
    ensures s == l + Trim(s) + r && Blank(l) && Blank(r)
    ensures Trim(s) != "" ==> !IsSpace(Trim(s)[0]) && !IsSpace(Trim(s)[|Trim(s)| - 1])
  {
    hide TrimLeft, TrimRight;
    l := LeftParts(s);
    r := RightParts(TrimLeft(s));
    if Trim(s) != "" {
      assert TrimLeft(s)[0] == Trim(s)[0];
    }
  }

  lemma {:induction false} TrimLeftBlank(w: string, s: string)
    requires Blank(w) && s != "" && !IsSpace(s[0])
    ensures TrimLeft(w + s) == s
  {
    if w == "" {
      assert w + s == s;
    } else {
      assert (w + s)[1..] == w[1..] + s;
      TrimLeftBlank(w[1..], s);
    }
  }

  lemma {:induction false} TrimRightKeeps(b: string, j: string)
    requires b != "" && !IsSpace(b[|b| - 1])
    ensures TrimRight(b + j) == b + TrimRight(j)
  {
    if j == "" {
      assert b + j == b;
    } else {
      var n := |j| - 1;
      assert (b + j)[..|b + j| - 1] == b + j[..n];
      TrimRightKeeps(b, j[..n]);
    }
  }

  lemma TrimNothing()
    ensures TrimRight("") == ""
  {
  }

  predicate Avoids(s: string, pat: string) {
    forall i :: 0 <= i < |s| ==> s[i] !in pat
  }

  lemma {:induction false} RemoveFront(b: string, c: string, pat: string)
    requires pat != "" && Avoids(b, pat)
    ensures RemoveAll(b + c, pat) == b + RemoveAll(c, pat)
  {
    if b == "" {
      assert b + c == c;
    } else {
      assert (b + c)[1..] == b[1..] + c;
      assert pat[0] != (b + c)[0];
      RemoveFront(b[1..], c, pat);
    }
  }

  lemma PrefixWithin(a: string, x: string, pat: string)
    requires x != "" && x[0] !in pat
    ensures pat <= a + x <==> pat <= a
  {
    assert (a + x)[|a|] == x[0];
    assert pat <= a ==> pat <= a + x;
  }

  lemma RemoveStep(s: string, pat: string)
    requires pat != "" && s != ""
    ensures RemoveAll(s, pat) == if pat <= s then RemoveAll(s[|pat|..], pat) else [s[0]] + RemoveAll(s[1..], pat)
  {
  }

  lemma {:induction false} RemoveBlank(s: string, pat: string)
    requires pat != "" && !IsSpace(pat[0]) && Blank(s)
    ensures RemoveAll(s, pat) == s
  {
    if s != "" {
      RemoveBlank(s[1..], pat);
    }
  }

  /** Taking the trimmed affix out of the affix leaves the white space around it. */
  lemma RemoveItself(affix: string)
    requires Trim(affix) != ""
    ensures Blank(RemoveAll(affix, Trim(affix)))
  {
    hide Trim;
    var pat := Trim(affix);
    var l, r := TrimParts(affix);
    assert affix == l + (pat + r);
    RemoveSpaced(l, pat + r, pat);
    assert (pat + r)[|pat|..] == r;
    assert pat <= pat + r;
    RemoveBlank(r, pat);
  }

  lemma {:induction false} RemoveSpaced(l: string, s: string, pat: string)
    requires pat != "" && !IsSpace(pat[0]) && Blank(l)
    ensures RemoveAll(l + s, pat) == l + RemoveAll(s, pat)
  {
    hide RemoveAll, IsSpace;
    if l == "" {
      assert l + s == s;
    } else {
      var t := l + s;
      assert t[1..] == l[1..] + s && t[0] == l[0];
      RemoveStep(t, pat);
      assert IsSpace(l[0]);
      assert !(pat <= t);
      RemoveSpaced(l[1..], s, pat);
      assert [l[0]] + (l[1..] + RemoveAll(s, pat)) == l + RemoveAll(s, pat);
    }
  }

  /** A one-character pattern is taken out of each part of a text on its own. */
  lemma {:induction false} RemoveChar(a: string, b: string, c: char)
    ensures RemoveAll(a + b, [c]) == RemoveAll(a, [c]) + RemoveAll(b, [c])
  {
    if a == "" {
      assert a + b == b;
    } else {
      assert (a + b)[1..] == a[1..] + b;
      assert [c] <= a + b <==> (a + b)[0] == c;
      assert [c] <= a <==> a[0] == c;
      RemoveChar(a[1..], b, c);
    }
  }

  lemma RemoveNone(s: string, c: char)
    requires forall i :: 0 <= i < |s| ==> s[i] != c
    ensures RemoveAll(s, [c]) == s
  {
    RemoveFront(s, "", [c]);
    assert s + "" == s;
  }

  lemma RemoveLast(a: string, b: string, c: char)
    requires forall i :: 0 <= i < |a| ==> a[i] != c
    ensures RemoveAll(a + [c] + b, [c]) == a + RemoveAll(b, [c])
  {
    assert a + [c] + b == a + ([c] + b);
    RemoveFront(a, [c] + b, [c]);
    assert ([c] + b)[1..] == b;
  }

  lemma {:induction false} ReplaceConcat(a: string, b: string, c: char, d: char)
    ensures ReplaceChar(a + b, c, d) == ReplaceChar(a, c, d) + ReplaceChar(b, c, d)
  {
    if a == "" {
      assert a + b == b;
    } else {
      assert (a + b)[1..] == a[1..] + b;
      ReplaceConcat(a[1..], b, c, d);
    }
  }

  lemma {:induction false} ReplaceNone(s: string, c: char, d: char)
    requires forall i :: 0 <= i < |s| ==> s[i] != c
    ensures ReplaceChar(s, c, d) == s
  {
    if s != "" {
      ReplaceNone(s[1..], c, d);
    }
  }

  lemma ReplaceOne(c: char, d: char)
    ensures ReplaceChar([c], c, d) == [d]
  {
  }

  lemma {:induction false} SpaceConcat(a: string, b: string)
    ensures RemoveSpace(a + b) == RemoveSpace(a) + RemoveSpace(b)
  {
    if a == "" {
      assert a + b == b;
    } else {
      assert (a + b)[1..] == a[1..] + b;
      SpaceConcat(a[1..], b);
    }
  }

  lemma {:induction false} SpaceNone(s: string)
    requires forall i :: 0 <= i < |s| ==> !IsSpace(s[i])
    ensures RemoveSpace(s) == s
  {
    if s != "" {
      SpaceNone(s[1..]);
    }
  }

  /** An affix has a visible character. */
  lemma Visible(affix: string) returns (i: nat)
    requires Trim(affix) != ""
    ensures i < |affix| && !IsSpace(affix[i])
  {
    hide Trim;
    var l, r := TrimParts(affix);
    i := |l|;
    assert affix[i] == Trim(affix)[0];
  }

  lemma SolidSome(b: string)
    requires Solid(b)
    ensures b != ""
  {
  }
}
