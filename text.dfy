/** Character and string helpers shared by the whole pipeline: whitespace
    normalisation, case mapping, literal substring search, code-point order
    and joining. */
module Text {

  /** Python's `str.isspace`, which is also what `\s` and `str.strip()` use on
      `str` values. */
  predicate IsSpace(c: char) {
    c == ' ' || ('\t' <= c <= '\r') || ('\U{1c}' <= c <= '\U{1f}')
    || c == '\U{85}' || c == '\U{a0}' || c == '\U{1680}'
    || ('\U{2000}' <= c <= '\U{200a}') || c == '\U{2028}' || c == '\U{2029}'
    || c == '\U{202f}' || c == '\U{205f}' || c == '\U{3000}'
  }

  /** The non-whitespace characters of s, in order. */
  function NonSpace(s: string): string {
    if s == [] then [] else (if IsSpace(s[0]) then [] else [s[0]]) + NonSpace(s[1..])
  }

  lemma {:induction false} NonSpaceAppend(a: string, b: string)
    ensures NonSpace(a + b) == NonSpace(a) + NonSpace(b)
  {
    if a != [] {
      assert (a + b)[0] == a[0] && (a + b)[1..] == a[1..] + b;
      NonSpaceAppend(a[1..], b);
    } else {
      assert a + b == b;
    }
  }

  lemma NonSpaceCons(c: char, r: string)
    ensures NonSpace([c] + r) == (if IsSpace(c) then [] else [c]) + NonSpace(r)
  {
    assert ([c] + r)[1..] == r;
  }

  /** s without its leading whitespace (`str.lstrip()`). */
  function TrimStart(s: string): (r: string)
    ensures |r| <= |s| && r == s[|s| - |r|..]
    ensures r == [] || !IsSpace(r[0])
    ensures forall i :: 0 <= i < |s| - |r| ==> IsSpace(s[i])
    ensures NonSpace(r) == NonSpace(s)
  {
    if s != [] && IsSpace(s[0]) then
      var r := TrimStart(s[1..]);
      TrimStartStep(s, r);
      r
    else s
  }

  /** Dropping one more leading space keeps the facts `TrimStart` states. */
  lemma TrimStartStep(s: string, r: string)
    requires s != [] && IsSpace(s[0])
    requires |r| <= |s| - 1 && r == s[1..][|s| - 1 - |r|..]
    requires forall i :: 0 <= i < |s| - 1 - |r| ==> IsSpace(s[1..][i])
    requires NonSpace(r) == NonSpace(s[1..])
    ensures r == s[|s| - |r|..]
    ensures forall i :: 0 <= i < |s| - |r| ==> IsSpace(s[i])
    ensures NonSpace(r) == NonSpace(s)
  {
    forall i | 0 <= i < |s| - |r| ensures IsSpace(s[i]) {
      if i > 0 { assert s[i] == s[1..][i - 1]; }
    }
  }

  /** s without its trailing whitespace (`str.rstrip()`). */
  function TrimEnd(s: string): (r: string)
    ensures |r| <= |s| && r == s[..|r|]
    ensures r == [] || !IsSpace(r[|r| - 1])
    ensures forall i :: |r| <= i < |s| ==> IsSpace(s[i])
    ensures NonSpace(r) == NonSpace(s)
  {
    if s != [] && IsSpace(s[|s| - 1]) then
      var front := s[..|s| - 1];
      NonSpaceAppend(front, [s[|s| - 1]]);
      assert front + [s[|s| - 1]] == s;
      TrimEnd(front)
    else s
  }

  /** `str.strip()`. */
  function Strip(s: string): (r: string)
    ensures r == [] || (!IsSpace(r[0]) && !IsSpace(r[|r| - 1]))
    ensures NonSpace(r) == NonSpace(s)
  {
    var t := TrimStart(s);
    var r := TrimEnd(t);
    assert r != [] ==> r[0] == t[0];
    r
  }

  /** Every whitespace character is a plain space and no two whitespace
      characters are adjacent. */
  predicate IsCollapsed(s: string) {
    forall i :: 0 <= i < |s| && IsSpace(s[i]) ==> s[i] == ' ' && (i + 1 < |s| ==> !IsSpace(s[i + 1]))
  }

  /** The shape of every normalised text: collapsed, no leading and no
      trailing whitespace. */
  predicate IsNormal(s: string) {
    IsCollapsed(s) && (s == [] || (!IsSpace(s[0]) && !IsSpace(s[|s| - 1])))
  }

  /** `re.sub(r"\s+", " ", s)`: each maximal run of whitespace becomes one
      space. */
  function Collapse(s: string): (r: string)
    ensures r == [] <==> s == []
    ensures s != [] ==> (IsSpace(r[0]) <==> IsSpace(s[0]))
    decreases |s|
  {
    if s == [] then []
    else if IsSpace(s[0]) then [' '] + Collapse(TrimStart(s[1..]))
    else [s[0]] + Collapse(s[1..])
  }

  /** After collapsing, every whitespace character is a lone space. */
  lemma {:induction false} CollapseIsCollapsed(s: string)
    ensures IsCollapsed(Collapse(s))
    decreases |s|
  {
    if s != [] {
      if IsSpace(s[0]) {
        var t := TrimStart(s[1..]);
        CollapseIsCollapsed(t);
        CollapsedCons(' ', Collapse(t));
      } else {
        CollapseIsCollapsed(s[1..]);
        CollapsedCons(s[0], Collapse(s[1..]));
      }
    }
  }

  /** Collapsing keeps every non-whitespace character, in order. */
  lemma {:induction false} CollapseKeepsNonSpace(s: string)
    ensures NonSpace(Collapse(s)) == NonSpace(s)
    decreases |s|
  {
    if s != [] {
      assert s == [s[0]] + s[1..];
      NonSpaceCons(s[0], s[1..]);
      if IsSpace(s[0]) {
        CollapseKeepsNonSpace(TrimStart(s[1..]));
        NonSpaceCons(' ', Collapse(TrimStart(s[1..])));
      } else {
        CollapseKeepsNonSpace(s[1..]);
        NonSpaceCons(s[0], Collapse(s[1..]));
      }
    }
  }

  /** Collapsing ends in whitespace exactly when its input does. */
  lemma {:induction false} CollapseKeepsLast(s: string)
    ensures TrailingSpace(Collapse(s)) == TrailingSpace(s)
    decreases |s|
  {
    if s != [] {
      var c := Collapse(s);
      if IsSpace(s[0]) {
        var t := TrimStart(s[1..]);
        SpaceStep(s);
        if t == [] {
          LastOfSpaces(s);
        } else {
          CollapseKeepsLast(t);
          SuffixLast(s[1..], t);
          SuffixLast(s, s[1..]);
          SuffixLast(c, Collapse(t));
        }
      } else {
        WordStep(s);
        if |s| > 1 {
          CollapseKeepsLast(s[1..]);
          SuffixLast(s, s[1..]);
          SuffixLast(c, Collapse(s[1..]));
        }
      }
    }
  }

  lemma CollapsedCons(c: char, r: string)
    requires IsCollapsed(r)
    requires IsSpace(c) ==> c == ' ' && (r == [] || !IsSpace(r[0]))
    ensures IsCollapsed([c] + r)
  {
    var s := [c] + r;
    forall i | 0 <= i < |s| && IsSpace(s[i])
      ensures s[i] == ' ' && (i + 1 < |s| ==> !IsSpace(s[i + 1]))
    {
      if i > 0 { assert s[i] == r[i - 1]; }
      if i + 1 < |s| { assert s[i + 1] == r[i]; }
    }
  }

  /** `normalize_text` on a string: strip, then collapse whitespace runs. */
  function NormalizeText(s: string): (r: string)
    ensures IsNormal(r)
    ensures NonSpace(r) == NonSpace(s)
    ensures r == [] <==> NonSpace(s) == []
  {
    var t := Strip(s);
    assert t != [] ==> NonSpace(t) != [] by {
      if t != [] { assert NonSpace(t) == [t[0]] + NonSpace(t[1..]); }
    }
    CollapseKeepsNonSpace(t);
    CollapseIsCollapsed(t);
    CollapseKeepsLast(t);
    Collapse(t)
  }

  lemma CollapsedTail(s: string)
    requires s != [] && IsCollapsed(s)
    ensures IsCollapsed(s[1..])
  {
    var t := s[1..];
    forall i | 0 <= i < |t| && IsSpace(t[i])
      ensures t[i] == ' ' && (i + 1 < |t| ==> !IsSpace(t[i + 1]))
    {
      assert t[i] == s[i + 1];
      if i + 1 < |t| { assert t[i + 1] == s[i + 2]; }
    }
  }

  lemma {:induction false} CollapseFixesCollapsed(s: string)
    requires IsCollapsed(s)
    ensures Collapse(s) == s
    decreases |s|
  {
    if s != [] {
      var t := s[1..];
      CollapsedTail(s);
      CollapseFixesCollapsed(t);
      if IsSpace(s[0]) {
        assert t != [] ==> !IsSpace(t[0]) by { if t != [] { assert t[0] == s[1]; } }
        assert TrimStart(t) == t;
        assert Collapse(s) == [' '] + t;
      } else {
        assert Collapse(s) == [s[0]] + t;
      }
      assert s == [s[0]] + t;
    }
  }

  /** Normalising is idempotent: a normal string is its own normal form. */
  lemma NormalizeFixesNormal(s: string)
    requires IsNormal(s)
    ensures NormalizeText(s) == s
  {
    assert TrimStart(s) == s;
    assert TrimEnd(s) == s;
    CollapseFixesCollapsed(s);
  }

  lemma NormalizeIdempotent(s: string)
    ensures NormalizeText(NormalizeText(s)) == NormalizeText(s)
  {
    NormalizeFixesNormal(NormalizeText(s));
  }

  /** `str.strip()` cuts s down to a slice with only whitespace around it. */
  lemma StripSlice(s: string)
    ensures exists a, b ::
      (0 <= a <= b <= |s| && Strip(s) == s[a..b]
       && (forall i :: 0 <= i < a ==> IsSpace(s[i]))
       && (forall i :: b <= i < |s| ==> IsSpace(s[i])))
  {
    var a, b := StripBounds(s);
  }

  /** Where `str.strip()` cuts: after the leading and before the trailing
      whitespace. */
  lemma StripBounds(s: string) returns (a: int, b: int)
    ensures 0 <= a <= b <= |s| && Strip(s) == s[a..b]
    ensures forall i :: 0 <= i < a ==> IsSpace(s[i])
    ensures forall i :: b <= i < |s| ==> IsSpace(s[i])
  {
    var t := TrimStart(s);
    var r := TrimEnd(t);
    a := |s| - |t|;
    b := a + |r|;
    SliceOfSuffix(s, a, |r|);
    forall i | b <= i < |s| ensures IsSpace(s[i]) {
      assert s[i] == t[i - a];
    }
  }

  lemma SliceOfSuffix(s: string, a: int, n: int)
    requires 0 <= a <= |s| && 0 <= n <= |s| - a
    ensures s[a..][..n] == s[a..a + n]
  {
  }

  /** The longest prefix of s without whitespace. */
  function FirstWord(s: string): (w: string)
    ensures |w| <= |s| && w == s[..|w|]
    ensures |w| < |s| ==> IsSpace(s[|w|])
    ensures s != [] && !IsSpace(s[0]) ==> w != []
  {
    if s == [] || IsSpace(s[0]) then [] else [s[0]] + FirstWord(s[1..])
  }

  lemma {:induction false} FirstWordNoSpace(s: string)
    ensures forall i :: 0 <= i < |FirstWord(s)| ==> !IsSpace(FirstWord(s)[i])
  {
    if s != [] && !IsSpace(s[0]) {
      FirstWordNoSpace(s[1..]);
      assert forall i :: 0 < i < |FirstWord(s)| ==> FirstWord(s)[i] == FirstWord(s[1..])[i - 1];
    }
  }

  /** `s.split()`: the maximal runs of non-whitespace characters, in order. */
  function Words(s: string): seq<string>
    decreases |s|
  {
    if s == [] then []
    else if IsSpace(s[0]) then Words(s[1..])
    else var w := FirstWord(s); [w] + Words(s[|w|..])
  }

  lemma JoinCons(sep: string, p: string, ps: seq<string>)
    ensures Join(sep, [p] + ps) == if ps == [] then p else p + sep + Join(sep, ps)
  {
    assert ([p] + ps)[1..] == ps;
  }

  lemma {:induction false} NonSpaceOfWord(w: string)
    requires forall i :: 0 <= i < |w| ==> !IsSpace(w[i])
    ensures NonSpace(w) == w
  {
    if w != [] {
      assert forall i :: 0 <= i < |w| - 1 ==> w[1..][i] == w[i + 1];
      NonSpaceOfWord(w[1..]);
    }
  }

  /** Every word is a non-empty run of non-whitespace characters. */
  lemma {:induction false} WordsAreRuns(s: string)
    ensures forall k :: 0 <= k < |Words(s)| ==>
      (Words(s)[k] != [] && forall i :: 0 <= i < |Words(s)[k]| ==> !IsSpace(Words(s)[k][i]))
    decreases |s|
  {
    if s != [] {
      if IsSpace(s[0]) {
        WordsAreRuns(s[1..]);
      } else {
        var rest := s[|FirstWord(s)|..];
        WordsAreRuns(rest);
        FirstWordNoSpace(s);
        WordsHead(s);
      }
    }
  }

  /** The words together hold every non-whitespace character of s, in
      order. */
  lemma {:induction false} WordsKeepNonSpace(s: string)
    ensures Join("", Words(s)) == NonSpace(s)
    decreases |s|
  {
    if s != [] {
      if IsSpace(s[0]) {
        WordsKeepNonSpace(s[1..]);
        NonSpaceCons(s[0], s[1..]);
        assert s == [s[0]] + s[1..];
      } else {
        var w := FirstWord(s);
        var rest := s[|w|..];
        WordsKeepNonSpace(rest);
        WordsHead(s);
        FirstWordNoSpace(s);
        NonSpaceOfWord(w);
        assert s == w + rest;
        NonSpaceAppend(w, rest);
        JoinGlue(Words(s), w, Words(rest), NonSpace(s), NonSpace(rest));
      }
    }
  }

  lemma JoinGlue(ws: seq<string>, w: string, wr: seq<string>, n: string, nr: string)
    requires ws == [w] + wr && Join("", wr) == nr && n == w + nr
    ensures Join("", ws) == n
  {
    JoinCons("", w, wr);
    if wr == [] {
      assert w + [] == w;
    }
  }

  lemma {:induction false} WordsTrimStart(s: string)
    ensures Words(TrimStart(s)) == Words(s)
  {
    if s != [] && IsSpace(s[0]) { WordsTrimStart(s[1..]); }
  }

  lemma {:induction false} FirstWordSnocSpace(s: string, c: char)
    requires IsSpace(c)
    ensures FirstWord(s + [c]) == FirstWord(s)
  {
    if s != [] {
      assert (s + [c])[0] == s[0] && (s + [c])[1..] == s[1..] + [c];
      FirstWordSnocSpace(s[1..], c);
    } else {
      assert s + [c] == [c];
    }
  }

  lemma {:induction false} WordsSnocSpace(s: string, c: char)
    requires IsSpace(c)
    ensures Words(s + [c]) == Words(s)
    decreases |s|
  {
    var x := s + [c];
    if s == [] {
      assert x == [c] && x[1..] == [];
    } else {
      assert x[0] == s[0];
      if IsSpace(s[0]) {
        assert x[1..] == s[1..] + [c];
        WordsSnocSpace(s[1..], c);
      } else {
        FirstWordSnocSpace(s, c);
        var w := FirstWord(s);
        assert x[|w|..] == s[|w|..] + [c];
        WordsSnocSpace(s[|w|..], c);
      }
    }
  }

  lemma {:induction false} WordsTrimEnd(s: string)
    ensures Words(TrimEnd(s)) == Words(s)
    decreases |s|
  {
    if s != [] && IsSpace(s[|s| - 1]) {
      var front := s[..|s| - 1];
      assert front + [s[|s| - 1]] == s;
      WordsSnocSpace(front, s[|s| - 1]);
      WordsTrimEnd(front);
    }
  }

  /** Collapsing copies a leading word unchanged. */
  lemma {:induction false} CollapseWord(s: string)
    ensures Collapse(s) == FirstWord(s) + Collapse(s[|FirstWord(s)|..])
    decreases |s|
  {
    if s != [] && !IsSpace(s[0]) {
      CollapseWord(s[1..]);
      WordStep(s);
      var a := FirstWord(s[1..]);
      ConsAssoc(s[0], a, Collapse(s[1..][|a|..]));
    }
  }

  /** One more character of a leading word. */
  lemma WordStep(s: string)
    requires s != [] && !IsSpace(s[0])
    ensures FirstWord(s) == [s[0]] + FirstWord(s[1..])
    ensures s[|FirstWord(s)|..] == s[1..][|FirstWord(s[1..])|..]
    ensures Collapse(s) == [s[0]] + Collapse(s[1..])
  {
  }

  lemma ConsAssoc(c: char, a: string, x: string)
    ensures [c] + (a + x) == ([c] + a) + x
  {
  }

  /** A whitespace run at the front collapses to one space and separates no
      words. */
  lemma SpaceStep(s: string)
    requires s != [] && IsSpace(s[0])
    ensures Collapse(s) == " " + Collapse(TrimStart(s[1..]))
    ensures Words(s) == Words(TrimStart(s[1..]))
  {
    WordsTrimStart(s[1..]);
  }

  /** One space when s ends in whitespace, nothing otherwise. */
  function TrailingSpace(s: string): string {
    if s != [] && IsSpace(s[|s| - 1]) then " " else ""
  }

  /** On a string that starts with a word, collapsing gives the words joined
      by single spaces, and one more space when the string ends in
      whitespace. */
  lemma {:induction false} CollapseFromWord(t: string)
    requires t != [] && !IsSpace(t[0])
    ensures Words(t) != []
    ensures Collapse(t) == Join(" ", Words(t)) + TrailingSpace(t)
    decreases |t|
  {
    var w := FirstWord(t);
    var rest := t[|w|..];
    CollapseWord(t);
    WordsHead(t);
    if rest == [] {
      WholeWord(t);
    } else {
      var u := TrimStart(rest[1..]);
      SpaceStep(rest);
      if u == [] {
        LastOfSpaces(rest);
        SuffixLast(t, rest);
      } else {
        CollapseFromWord(u);
        RestLast(t);
        Glue(Collapse(t), w, Collapse(rest), Collapse(u), Words(t), Words(u), TrailingSpace(t));
      }
    }
  }

  /** Words of a string that starts with a word: that word, then the rest. */
  lemma WordsHead(t: string)
    requires t != [] && !IsSpace(t[0])
    ensures Words(t) == [FirstWord(t)] + Words(t[|FirstWord(t)|..])
  {
  }

  /** A string that is one word is that word with nothing after it. */
  lemma WholeWord(t: string)
    requires t != [] && !IsSpace(t[0]) && |FirstWord(t)| == |t|
    ensures FirstWord(t) == t && t[|t|..] == []
    ensures TrailingSpace(t) == ""
  {
    FirstWordNoSpace(t);
    assert t[|t| - 1] == FirstWord(t)[|t| - 1];
  }

  lemma SuffixLast(s: string, r: string)
    requires r != [] && |r| <= |s| && r == s[|s| - |r|..]
    ensures TrailingSpace(r) == TrailingSpace(s)
  {
    assert r[|r| - 1] == s[|s| - 1];
  }

  /** What is left after a leading word and the whitespace run behind it ends
      where the whole string does. */
  lemma RestLast(t: string)
    requires t != [] && !IsSpace(t[0])
    requires t[|FirstWord(t)|..] != [] && TrimStart(t[|FirstWord(t)|..][1..]) != []
    ensures TrailingSpace(TrimStart(t[|FirstWord(t)|..][1..])) == TrailingSpace(t)
  {
    var rest := t[|FirstWord(t)|..];
    var u := TrimStart(rest[1..]);
    DropLast(t, |FirstWord(t)|);
    DropLast(rest, 1);
    SuffixLast(rest[1..], u);
  }

  lemma DropLast(s: string, k: int)
    requires 0 <= k < |s|
    ensures TrailingSpace(s[k..]) == TrailingSpace(s)
  {
    assert s[k..][|s| - k - 1] == s[|s| - 1];
  }

  lemma Glue(ct: string, w: string, crest: string, cu: string, wt: seq<string>, wu: seq<string>, tail: string)
    requires ct == w + crest && crest == " " + cu && cu == Join(" ", wu) + tail
    requires wt == [w] + wu && wu != []
    ensures ct == Join(" ", wt) + tail
  {
    JoinCons(" ", w, wu);
  }

  /** A string that starts with whitespace and has nothing left after its
      leading whitespace ends in whitespace. */
  lemma LastOfSpaces(s: string)
    requires s != [] && IsSpace(s[0]) && TrimStart(s[1..]) == []
    ensures IsSpace(s[|s| - 1])
  {
    if |s| > 1 { assert s[|s| - 1] == s[1..][|s| - 2]; }
  }

  /** `re.sub(r"\s+", " ", s)` in full: a space for leading whitespace, the
      words joined by single spaces, and a space for trailing whitespace
      after the last word. */
  lemma CollapseWords(s: string)
    ensures s == [] ==> Collapse(s) == []
    ensures s != [] && !IsSpace(s[0]) ==> Collapse(s) == Join(" ", Words(s)) + TrailingSpace(s)
    ensures s != [] && IsSpace(s[0]) ==>
      Collapse(s) == " " + Join(" ", Words(s)) + (if Words(s) != [] then TrailingSpace(s) else "")
  {
    if s != [] {
      if IsSpace(s[0]) {
        CollapseFromSpace(s);
      } else {
        CollapseFromWord(s);
      }
    }
  }

  /** Leading whitespace collapses to one space in front of the rest. */
  lemma CollapseFromSpace(s: string)
    requires s != [] && IsSpace(s[0])
    ensures Collapse(s) == " " + Join(" ", Words(s)) + (if Words(s) != [] then TrailingSpace(s) else "")
  {
    var u := TrimStart(s[1..]);
    SpaceStep(s);
    if u == [] {
      assert Words(s) == [] && Collapse(u) == [];
      Assoc3(" ", [], []);
    } else {
      CollapseFromWord(u);
      SuffixLast(s, s[1..]);
      SuffixLast(s[1..], u);
      Assoc3(" ", Join(" ", Words(u)), TrailingSpace(s));
    }
  }

  lemma Assoc3(a: string, b: string, c: string)
    ensures a + (b + c) == a + b + c
  {
  }

  /** `normalize_text` is `" ".join(s.split())`. */
  lemma NormalizeWords(s: string)
    ensures NormalizeText(s) == Join(" ", Words(s))
  {
    var t := TrimStart(s);
    WordsTrimStart(s);
    WordsTrimEnd(t);
    CollapseWords(Strip(s));
  }

  /** `str.lower()` on one character, for ASCII and Latin-1 letters. */
  function LowerChar(c: char): char {
    if 'A' <= c <= 'Z' || ('\U{c0}' <= c <= '\U{de}' && c != '\U{d7}') then (c as int + 32) as char else c
  }

  /** `str.upper()` on one character, for ASCII and Latin-1 letters that have
      a one-character upper case in Latin-1. */
  function UpperChar(c: char): char {
    if 'a' <= c <= 'z' || ('\U{e0}' <= c <= '\U{fe}' && c != '\U{f7}') then (c as int - 32) as char else c
  }

  function Lower(s: string): (r: string)
    ensures |r| == |s| && forall i :: 0 <= i < |s| ==> r[i] == LowerChar(s[i])
  {
    seq(|s|, i requires 0 <= i < |s| => LowerChar(s[i]))
  }

  function Upper(s: string): (r: string)
    ensures |r| == |s| && forall i :: 0 <= i < |s| ==> r[i] == UpperChar(s[i])
  {
    seq(|s|, i requires 0 <= i < |s| => UpperChar(s[i]))
  }

  /** Literal substring search: `t in s`, and also what `str.contains` does
      with a `re.escape`d pattern. */
  predicate Contains(s: string, t: string) {
    exists i :: 0 <= i <= |s| && t <= s[i..]
  }

  /** Python's `<` on `str`: code-point lexicographic order, a proper prefix
      being smaller. */
  predicate StrLess(a: string, b: string) {
    if a == [] then b != []
    else if b == [] then false
    else if a[0] != b[0] then a[0] < b[0]
    else StrLess(a[1..], b[1..])
  }

  lemma {:induction false} StrLessIrreflexive(a: string)
    ensures !StrLess(a, a)
  {
    if a != [] { StrLessIrreflexive(a[1..]); }
  }

  lemma {:induction false} StrLessTotal(a: string, b: string)
    ensures a == b || StrLess(a, b) || StrLess(b, a)
  {
    if a != [] && b != [] && a[0] == b[0] {
      StrLessTotal(a[1..], b[1..]);
      if a[1..] == b[1..] { assert a == [a[0]] + a[1..] && b == [b[0]] + b[1..]; }
    }
  }

  lemma {:induction false} StrLessAsymmetric(a: string, b: string)
    ensures !(StrLess(a, b) && StrLess(b, a))
  {
    if a != [] && b != [] && a[0] == b[0] { StrLessAsymmetric(a[1..], b[1..]); }
  }

  lemma {:induction false} StrLessTransitive(a: string, b: string, c: string)
    requires StrLess(a, b) && StrLess(b, c)
    ensures StrLess(a, c)
  {
    if a != [] && b != [] && c != [] && a[0] == b[0] && b[0] == c[0] {
      StrLessTransitive(a[1..], b[1..], c[1..]);
    }
  }

  /** `sep.join(parts)`. */
  function Join(sep: string, parts: seq<string>): (r: string)
    ensures parts == [] ==> r == []
    ensures |parts| == 1 ==> r == parts[0]
  {
    if parts == [] then []
    else if |parts| == 1 then parts[0]
    else parts[0] + sep + Join(sep, parts[1..])
  }
}
