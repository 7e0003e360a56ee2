/** String helpers with the meaning Python gives them: `str.strip()`, character
    removal, ASCII upper-casing and `sep.join(parts)`. */
module Text {

  /** Python's `str.isspace()` for one character. The byte-order mark U+FEFF
      is NOT whitespace, which is why header normalisation strips and removes
      it in two separate steps. */
  predicate IsSpace(c: char) {
    || c == ' '
    || ('\t' <= c <= '\r')
    || ('\U{1C}' <= c <= '\U{1F}')
    || c == '\U{85}' || c == '\U{A0}' || c == '\U{1680}'
    || ('\U{2000}' <= c <= '\U{200A}')
    || c == '\U{2028}' || c == '\U{2029}' || c == '\U{202F}'
    || c == '\U{205F}' || c == '\U{3000}'
  }

  /** Every character of `s` is one that `cut` removes. The strip helpers
      below are stated for any such character class, so that their proofs
      never open the definition of `IsSpace`. */
  predicate Each(cut: char -> bool, s: string) {
    forall i :: 0 <= i < |s| ==> cut(s[i])
  }

  predicate AllSpace(s: string) {
    Each(IsSpace, s)
  }

  lemma EachCons(cut: char -> bool, c: char, t: string)
    requires cut(c) && Each(cut, t)
    ensures Each(cut, [c] + t)
  {
    forall i | 0 <= i < |[c] + t| ensures cut(([c] + t)[i]) {
      if i > 0 { assert ([c] + t)[i] == t[i - 1]; }
    }
  }

  lemma EachSnoc(cut: char -> bool, t: string, c: char)
    requires Each(cut, t) && cut(c)
    ensures Each(cut, t + [c])
  {
    forall i | 0 <= i < |t + [c]| ensures cut((t + [c])[i]) {
      if i < |t| { assert (t + [c])[i] == t[i]; }
    }
  }

  lemma EachAppend(cut: char -> bool, a: string, b: string)
    requires Each(cut, a) && Each(cut, b)
    ensures Each(cut, a + b)
  {
    forall i | 0 <= i < |a + b| ensures cut((a + b)[i]) {
      if i < |a| {
        assert (a + b)[i] == a[i];
      } else {
        assert (a + b)[i] == b[i - |a|];
      }
    }
  }

  /** Neither end of `s` is a character `cut` removes. */
  predicate Bare(cut: char -> bool, s: string) {
    s == [] || (!cut(s[0]) && !cut(s[|s| - 1]))
  }

  /** Neither end of `s` is whitespace. */
  predicate Trimmed(s: string) {
    Bare(IsSpace, s)
  }

  /** `s.lstrip()` for the class `cut`: the longest suffix of `s` that does not
      start with a `cut` character, everything cut off being such characters. */
  function LStrip(cut: char -> bool, s: string): (r: string)
    ensures |r| <= |s| && r == s[|s| - |r|..]
    ensures Each(cut, s[..|s| - |r|])
    ensures r == [] || !cut(r[0])
  {
    if |s| > 0 && cut(s[0]) then
      var r := LStrip(cut, s[1..]);
      LStripStep(cut, s, r);
      r
    else s
  }

  /** Cutting one more leading character keeps what `LStrip` promises. */
  lemma LStripStep(cut: char -> bool, s: string, r: string)
    requires |s| > 0 && cut(s[0])
    requires |r| <= |s| - 1 && r == s[1..][|s| - 1 - |r|..]
    requires Each(cut, s[1..][..|s| - 1 - |r|])
    ensures r == s[|s| - |r|..]
    ensures Each(cut, s[..|s| - |r|])
  {
    assert s[..|s| - |r|] == [s[0]] + s[1..][..|s| - 1 - |r|];
    EachCons(cut, s[0], s[1..][..|s| - 1 - |r|]);
  }

  /** `s.rstrip()` for the class `cut`: the longest prefix of `s` that does
      not end with a `cut` character, everything cut off being such characters. */
  function RStrip(cut: char -> bool, s: string): (r: string)
    ensures |r| <= |s| && r == s[..|r|]
    ensures Each(cut, s[|r|..])
    ensures r == [] || !cut(r[|r| - 1])
  {
    if |s| > 0 && cut(s[|s| - 1]) then
      var r := RStrip(cut, s[..|s| - 1]);
      assert s[..|s| - 1][..|r|] == s[..|r|];
      assert s[|r|..] == s[..|s| - 1][|r|..] + [s[|s| - 1]];
      EachSnoc(cut, s[..|s| - 1][|r|..], s[|s| - 1]);
      r
    else s
  }

  /** `r` occurs in `s` at offset `i` and everything around it is cut. */
  predicate Framed(cut: char -> bool, s: string, r: string, i: nat) {
    && i + |r| <= |s|
    && s[i..i + |r|] == r
    && Each(cut, s[..i])
    && Each(cut, s[i + |r|..])
  }

  /** `s.strip()` for the class `cut`: `s` with its `cut` margins removed. */
  function StripBy(cut: char -> bool, s: string): (r: string)
    ensures Bare(cut, r)
    ensures Framed(cut, s, r, |s| - |LStrip(cut, s)|)
  {
    var l := LStrip(cut, s);
    var r := RStrip(cut, l);
    StripFrame(cut, s, l, r);
    r
  }

  /** `s.strip()`: `s` with its whitespace margins removed. */
  function Strip(s: string): (r: string)
    ensures Trimmed(r)
    ensures Framed(IsSpace, s, r, |s| - |LStrip(IsSpace, s)|)
  {
    StripBy(IsSpace, s)
  }

  /** A prefix free of cut characters at its end, of a suffix free of them at
      its start, sits in `s` framed by what was cut from both ends. */
  lemma StripFrame(cut: char -> bool, s: string, l: string, r: string)
    requires |l| <= |s| && l == s[|s| - |l|..] && Each(cut, s[..|s| - |l|])
    requires l == [] || !cut(l[0])
    requires |r| <= |l| && r == l[..|r|] && Each(cut, l[|r|..])
    requires r == [] || !cut(r[|r| - 1])
    ensures Bare(cut, r)
    ensures Framed(cut, s, r, |s| - |l|)
  {
    var i := |s| - |l|;
    assert s[i..i + |r|] == r;
    assert s[i + |r|..] == l[|r|..];
    assert r != [] ==> r[0] == l[0];
  }

  lemma {:induction false} LStripPast(cut: char -> bool, w: string, t: string)
    requires Each(cut, w)
    requires t == [] || !cut(t[0])
    ensures LStrip(cut, w + t) == t
    decreases |w|
  {
    if w == [] {
      assert w + t == t;
    } else {
      assert (w + t)[1..] == w[1..] + t;
      LStripPast(cut, w[1..], t);
    }
  }

  lemma {:induction false} RStripPast(cut: char -> bool, t: string, w: string)
    requires Each(cut, w)
    requires t == [] || !cut(t[|t| - 1])
    ensures RStrip(cut, t + w) == t
    decreases |w|
  {
    if w == [] {
      assert t + w == t;
    } else {
      assert (t + w)[..|t + w| - 1] == t + w[..|w| - 1];
      RStripPast(cut, t, w[..|w| - 1]);
    }
  }

  /** Whatever cut characters surround a bare text, stripping returns exactly
      that text: `StripBy` is determined by this property. */
  lemma StripBySurrounded(cut: char -> bool, w1: string, t: string, w2: string)
    requires Each(cut, w1) && Each(cut, w2) && Bare(cut, t)
    ensures StripBy(cut, w1 + t + w2) == t
  {
    if t == [] {
      assert w1 + t + w2 == w1 + w2;
      EachAppend(cut, w1, w2);
      LStripPast(cut, w1 + w2, []);
      assert w1 + w2 + [] == w1 + w2;
    } else {
      assert w1 + t + w2 == w1 + (t + w2);
      LStripPast(cut, w1, t + w2);
      RStripPast(cut, t, w2);
    }
  }

  lemma Regroup<T>(a: seq<T>, b: seq<T>, c: seq<T>, d: seq<T>, e: seq<T>)
    ensures a + (b + c + d) + e == (a + b) + c + (d + e)
  {
  }

  /** `s` is its stripped form with the cut margins on either side. */
  lemma StripByParts(cut: char -> bool, s: string)
    ensures var i := |s| - |LStrip(cut, s)|;
      && i + |StripBy(cut, s)| <= |s|
      && s == s[..i] + StripBy(cut, s) + s[i + |StripBy(cut, s)|..]
      && Each(cut, s[..i]) && Each(cut, s[i + |StripBy(cut, s)|..])
  {
    var i := |s| - |LStrip(cut, s)|;
    var t := StripBy(cut, s);
    assert Framed(cut, s, t, i);
    ThreeSlices(s, i, i + |t|);
  }

  lemma ThreeSlices<T>(s: seq<T>, i: nat, j: nat)
    requires i <= j <= |s|
    ensures s == s[..i] + s[i..j] + s[j..]
  {
  }

  /** Cut characters added outside the cut margins of a bare text are
      removed along with them. */
  lemma StripByAround(cut: char -> bool, w1: string, pre: string, t: string, post: string, w2: string)
    requires Each(cut, w1) && Each(cut, pre) && Each(cut, post) && Each(cut, w2) && Bare(cut, t)
    ensures StripBy(cut, w1 + (pre + t + post) + w2) == t
  {
    EachAppend(cut, w1, pre);
    EachAppend(cut, post, w2);
    Regroup(w1, pre, t, post, w2);
    StripBySurrounded(cut, w1 + pre, t, post + w2);
  }

  /** Extra cut characters around a text do not change what it strips to. */
  lemma StripByAbsorbs(cut: char -> bool, w1: string, s: string, w2: string)
    requires Each(cut, w1) && Each(cut, w2)
    ensures StripBy(cut, w1 + s + w2) == StripBy(cut, s)
  {
    var i := |s| - |LStrip(cut, s)|;
    var t := StripBy(cut, s);
    StripByParts(cut, s);
    StripByAround(cut, w1, s[..i], t, s[i + |t|..], w2);
  }

  /** Whatever whitespace surrounds a trimmed text, `strip()` returns exactly
      that text. */
  lemma StripSurrounded(w1: string, t: string, w2: string)
    requires AllSpace(w1) && AllSpace(w2) && Trimmed(t)
    ensures Strip(w1 + t + w2) == t
  {
    StripBySurrounded(IsSpace, w1, t, w2);
  }

  /** Extra whitespace around a text does not change its `strip()`. */
  lemma StripAbsorbs(w1: string, s: string, w2: string)
    requires AllSpace(w1) && AllSpace(w2)
    ensures Strip(w1 + s + w2) == Strip(s)
  {
    StripByAbsorbs(IsSpace, w1, s, w2);
  }

  lemma StripByAllCut(cut: char -> bool, s: string)
    requires Each(cut, s)
    ensures StripBy(cut, s) == []
  {
    StripBySurrounded(cut, s, [], []);
    assert s + [] + [] == s;
  }

  lemma StripByBare(cut: char -> bool, t: string)
    requires Bare(cut, t)
    ensures StripBy(cut, t) == t
  {
    StripBySurrounded(cut, [], t, []);
    assert [] + t + [] == t;
  }

  /** A text made of whitespace only strips to nothing. */
  lemma StripAllSpace(s: string)
    requires AllSpace(s)
    ensures Strip(s) == []
  {
    StripByAllCut(IsSpace, s);
  }

  /** A trimmed text is its own `strip()`. */
  lemma StripTrimmed(t: string)
    requires Trimmed(t)
    ensures Strip(t) == t
  {
    StripByBare(IsSpace, t);
  }

  /** `s` with every character in `drop` removed, the rest kept in order
      (a chain of `str.replace(ch, "")`). */
  function Without(s: string, drop: set<char>): (r: string)
    ensures |r| <= |s|
  {
    if s == [] then [] else
    var rest := Without(s[1..], drop);
    if s[0] in drop then rest else [s[0]] + rest
  }

  /** Exactly the characters of `s` outside `drop` remain. */
  lemma {:induction false} WithoutMembers(s: string, drop: set<char>)
    ensures forall c :: c in Without(s, drop) <==> c in s && c !in drop
  {
    if s != [] {
      WithoutMembers(s[1..], drop);
      assert forall c :: c in s <==> c == s[0] || c in s[1..];
    }
  }

  /** Removing characters a text does not contain changes nothing. */
  lemma {:induction false} WithoutAbsent(s: string, drop: set<char>)
    requires forall i :: 0 <= i < |s| ==> s[i] !in drop
    ensures Without(s, drop) == s
  {
    if s != [] {
      WithoutAbsent(s[1..], drop);
      assert [s[0]] + s[1..] == s;
    }
  }

  /** Removal distributes over concatenation. */
  lemma {:induction false} WithoutAppend(a: string, b: string, drop: set<char>)
    ensures Without(a + b, drop) == Without(a, drop) + Without(b, drop)
  {
    if a == [] {
      assert a + b == b;
    } else {
      assert (a + b)[1..] == a[1..] + b;
      WithoutAppend(a[1..], b, drop);
    }
  }

  function UpperChar(c: char): char {
    if 'a' <= c <= 'z' then (c as int - 32) as char else c
  }

  /** `s.upper()` restricted to ASCII letters; other characters are kept. */
  function AsciiUpper(s: string): (r: string)
    ensures |r| == |s|
  {
    if s == [] then [] else [UpperChar(s[0])] + AsciiUpper(s[1..])
  }

  /** `sep.join(parts)`. */
  function Join(parts: seq<string>, sep: string): string {
    if |parts| == 0 then ""
    else if |parts| == 1 then parts[0]
    else parts[0] + sep + Join(parts[1..], sep)
  }
}
