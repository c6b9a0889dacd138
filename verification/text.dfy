/**
 The two string operations the application applies to user input: Python's
 `str.strip()` with no argument (remove leading and trailing whitespace) and
 `str.lower()`, and the written-recall judge built from them.
 */
module Text {

  /** The characters Python's `str.strip()` treats as whitespace: tab, line
      feed, vertical tab, form feed, carriage return, the four information
      separators, space, next line, no-break space, Ogham space mark, the
      typographic spaces U+2000..U+200A, the line and paragraph separators,
      narrow no-break space, medium mathematical space and ideographic space. */
  const Whitespace: seq<char> := [
    '\t', '\n', '\U{B}', '\U{C}', '\r', '\U{1C}', '\U{1D}', '\U{1E}', '\U{1F}', ' ',
    '\U{85}', '\U{A0}', '\U{1680}',
    '\U{2000}', '\U{2001}', '\U{2002}', '\U{2003}', '\U{2004}', '\U{2005}',
    '\U{2006}', '\U{2007}', '\U{2008}', '\U{2009}', '\U{200A}',
    '\U{2028}', '\U{2029}', '\U{202F}', '\U{205F}', '\U{3000}'
  ]

  /** `c` occurs in `Whitespace` at or after position `i`. Written
      recursively so that the solver looks the character up only when a proof
      asks it to. */
  predicate ListedFrom(c: char, i: nat)
    decreases |Whitespace| - i
  {
    i < |Whitespace| && (Whitespace[i] == c || ListedFrom(c, i + 1))
  }

  predicate IsSpace(c: char) {
    ListedFrom(c, 0)
  }

  /** Letters never count as whitespace: every whitespace character lies at or
      below the space, is one of U+0085 and U+00A0, or is at least U+1680. */
  lemma SpaceGaps(c: char)
    ensures IsSpace(c) ==> c <= ' ' || c == '\U{85}' || c == '\U{A0}' || '\U{1680}' <= c
  {
    ListedGaps(c, 0);
  }

  lemma {:induction false} ListedGaps(c: char, i: nat)
    ensures ListedFrom(c, i) ==> c <= ' ' || c == '\U{85}' || c == '\U{A0}' || '\U{1680}' <= c
    decreases |Whitespace| - i
  {
    if i < |Whitespace| {
      ListedGaps(c, i + 1);
    }
  }

  predicate AllSpace(s: string) {
    forall k :: 0 <= k < |s| ==> IsSpace(s[k])
  }

  /** `s.strip()`: `s` without its leading and trailing whitespace. Python
      removes the leading run and the trailing run; removing them one character
      at a time from either end gives the same string. */
  function Trim(s: string): (r: string)
    ensures |r| <= |s|
    decreases |s|
  {
    if s == [] then []
    else if IsSpace(s[0]) then Trim(s[1..])
    else if IsSpace(s[|s| - 1]) then Trim(s[..|s| - 1])
    else s
  }

  /** Neither end of `s` is whitespace. */
  predicate Stripped(s: string) {
    s == [] || (!IsSpace(s[0]) && !IsSpace(s[|s| - 1]))
  }

  /** A stripped string with whitespace around it strips back to itself: the
      shape of `pre + m + post` determines its stripped form. */
  lemma {:induction false} TrimUnique(pre: string, m: string, post: string)
    requires AllSpace(pre) && AllSpace(post) && Stripped(m)
    ensures Trim(pre + m + post) == m
    decreases |pre| + |post|
  {
    var s := pre + m + post;
    if pre != [] {
      assert s[0] == pre[0];
      assert s[1..] == pre[1..] + m + post;
      TrimUnique(pre[1..], m, post);
    } else if post != [] {
      assert s == m + post;
      if m == [] {
        assert s == post && s[0] == post[0];
        assert s[1..] == [] + [] + post[1..];
        TrimUnique([], [], post[1..]);
      } else {
        assert s[0] == m[0];
        assert s[|s| - 1] == post[|post| - 1];
        assert s[..|s| - 1] == [] + m + post[..|post| - 1];
        TrimUnique([], m, post[..|post| - 1]);
      }
    } else {
      assert s == m;
    }
  }

  /** The stripped form has no whitespace at either end. */
  lemma {:induction false} TrimStripped(s: string)
    ensures Stripped(Trim(s))
    decreases |s|
  {
    if s != [] {
      if IsSpace(s[0]) {
        TrimStripped(s[1..]);
      } else if IsSpace(s[|s| - 1]) {
        TrimStripped(s[..|s| - 1]);
      }
    }
  }

  /** `s` is its stripped form with the removed whitespace around it. */
  lemma {:induction false} TrimSplit(s: string) returns (pre: string, post: string)
    ensures s == pre + Trim(s) + post
    ensures AllSpace(pre) && AllSpace(post)
    decreases |s|
  {
    if s == [] {
      pre, post := [], [];
    } else if IsSpace(s[0]) {
      assert Trim(s) == Trim(s[1..]);
      var p, q := TrimSplit(s[1..]);
      pre, post := [s[0]] + p, q;
      PadFront(s, p, Trim(s), q);
    } else if IsSpace(s[|s| - 1]) {
      assert Trim(s) == Trim(s[..|s| - 1]);
      var p, q := TrimSplit(s[..|s| - 1]);
      pre, post := p, q + [s[|s| - 1]];
      PadBack(s, p, Trim(s), q);
    } else {
      pre, post := [], [];
      assert s == [] + s + [];
    }
  }

  /** A whitespace character in front of a padded string joins the front
      padding. */
  lemma PadFront(s: string, p: string, m: string, q: string)
    requires s != [] && IsSpace(s[0]) && s[1..] == p + m + q && AllSpace(p)
    ensures s == ([s[0]] + p) + m + q && AllSpace([s[0]] + p)
  {
    assert s == [s[0]] + s[1..];
  }

  /** A whitespace character behind a padded string joins the back padding. */
  lemma PadBack(s: string, p: string, m: string, q: string)
    requires s != [] && IsSpace(s[|s| - 1]) && s[..|s| - 1] == p + m + q && AllSpace(q)
    ensures s == p + m + (q + [s[|s| - 1]]) && AllSpace(q + [s[|s| - 1]])
  {
    assert s == s[..|s| - 1] + [s[|s| - 1]];
  }

  /** A string strips to nothing exactly when it is all whitespace. */
  lemma TrimEmpty(s: string)
    ensures Trim(s) == [] <==> AllSpace(s)
  {
    var pre, post := TrimSplit(s);
    if Trim(s) == [] {
      assert s == pre + post;
    } else {
      TrimStripped(s);
      assert s[|pre|] == Trim(s)[0];
    }
  }

  /** Stripping is idempotent: a stored, already-stripped term strips to itself. */
  lemma TrimIdempotent(s: string)
    ensures Trim(Trim(s)) == Trim(s)
  {
    TrimStripped(s);
    TrimUnique([], Trim(s), []);
    assert [] + Trim(s) + [] == Trim(s);
  }

  /** Whitespace around a string does not survive stripping. */
  lemma TrimIgnoresPadding(pre: string, s: string, post: string)
    requires AllSpace(pre) && AllSpace(post)
    ensures Trim(pre + s + post) == Trim(s)
  {
    var p, q := TrimSplit(s);
    TrimStripped(s);
    assert pre + s + post == (pre + p) + Trim(s) + (q + post);
    TrimUnique(pre + p, Trim(s), q + post);
  }

  /** Python's lower-casing of one character. Covers ASCII, Latin-1 and the
      Turkish capitals; capital dotted I lowers to "i" followed by a combining
      dot above, exactly as Python does. */
  function LowerChar(c: char): (r: seq<char>)
    ensures |r| >= 1
    ensures IsSpace(c) <==> (|r| == 1 && IsSpace(r[0]))
    ensures forall k :: 0 <= k < |r| ==> !IsSpace(r[k]) || r[k] == c
  {
    SpaceGaps(c);
    if 'A' <= c <= 'Z' || ('\U{C0}' <= c <= '\U{DE}' && c != '\U{D7}') then
      var l := (c as int + 32) as char;
      SpaceGaps(l);
      [l]
    else if c == '\U{11E}' then SpaceGaps('\U{11F}'); ['\U{11F}']        // capital G with breve
    else if c == '\U{15E}' then SpaceGaps('\U{15F}'); ['\U{15F}']        // capital S with cedilla
    else if c == '\U{130}' then                                          // capital I with dot above
      SpaceGaps('i'); SpaceGaps('\U{307}'); ['i', '\U{307}']
    else [c]
  }

  /** `s.lower()`. */
  function Lower(s: string): (r: string)
    ensures |r| >= |s|
    ensures r == [] <==> s == []
  {
    if s == [] then [] else LowerChar(s[0]) + Lower(s[1..])
  }

  lemma {:induction false} LowerAppend(a: string, b: string)
    ensures Lower(a + b) == Lower(a) + Lower(b)
  {
    if a != [] {
      assert (a + b)[1..] == a[1..] + b;
      LowerAppend(a[1..], b);
    } else {
      assert a + b == b;
    }
  }

  lemma LowerCharIdempotent(c: char)
    ensures Lower(LowerChar(c)) == LowerChar(c)
  {
    var r := LowerChar(c);
    if |r| == 1 {
      assert Lower(r) == LowerChar(r[0]) + Lower([]);
    } else {
      assert r == ['i', '\U{307}'];
      assert Lower(r) == LowerChar('i') + Lower(['\U{307}']);
    }
  }

  /** Lower-casing is idempotent. */
  lemma {:induction false} LowerIdempotent(s: string)
    ensures Lower(Lower(s)) == Lower(s)
  {
    if s != [] {
      LowerAppend(LowerChar(s[0]), Lower(s[1..]));
      LowerCharIdempotent(s[0]);
      LowerIdempotent(s[1..]);
    }
  }

  lemma {:induction false} LowerAllSpace(s: string)
    requires AllSpace(s)
    ensures Lower(s) == s
  {
    if s != [] {
      LowerAllSpace(s[1..]);
    }
  }

  /** Lower-casing neither creates nor removes whitespace at the ends of a
      string, so it commutes with stripping. */
  lemma LowerTrimCommute(s: string)
    ensures Lower(Trim(s)) == Trim(Lower(s))
  {
    var r := Trim(s);
    var pre, post := TrimSplit(s);
    LowerPadded(pre, r, post);
    TrimStripped(s);
    LowerKeepsStripped(r);
    TrimUnique(pre, Lower(r), post);
  }

  lemma LowerPadded(pre: string, r: string, post: string)
    requires AllSpace(pre) && AllSpace(post)
    ensures Lower(pre + r + post) == pre + Lower(r) + post
  {
    LowerAppend(pre + r, post);
    LowerAppend(pre, r);
    LowerAllSpace(pre);
    LowerAllSpace(post);
  }

  /** Lower-casing a stripped string leaves it stripped. */
  lemma LowerKeepsStripped(r: string)
    requires Stripped(r)
    ensures Stripped(Lower(r))
  {
    if r != [] {
      LowerFirst(r);
      LowerLast(r);
    }
  }

  lemma LowerFirst(r: string)
    requires r != [] && !IsSpace(r[0])
    ensures !IsSpace(Lower(r)[0])
  {
    assert Lower(r)[0] == LowerChar(r[0])[0];
  }

  lemma LowerLast(r: string)
    requires r != [] && !IsSpace(r[|r| - 1])
    ensures !IsSpace(Lower(r)[|Lower(r)| - 1])
  {
    var init := r[..|r| - 1];
    assert r == init + [r[|r| - 1]];
    LowerAppend(init, [r[|r| - 1]]);
    assert Lower([r[|r| - 1]]) == LowerChar(r[|r| - 1]) + Lower([]);
  }

  /** Written-recall judging: the typed answer is stripped and lower-cased, the
      stored term is only lower-cased. */
  function Judge(answer: string, expected: string): (ok: bool)
    ensures ok ==> Stripped(Lower(expected))
    ensures ok ==> (expected == [] <==> AllSpace(answer))
  {
    TrimStripped(answer);
    LowerKeepsStripped(Trim(answer));
    TrimEmpty(answer);
    Lower(Trim(answer)) == Lower(expected)
  }

  /** Answers that lower-case alike are judged alike. */
  lemma JudgeIgnoresCase(a: string, b: string, expected: string)
    requires Lower(a) == Lower(b)
    ensures Judge(a, expected) <==> Judge(b, expected)
  {
    LowerTrimCommute(a);
    LowerTrimCommute(b);
  }

  /** Whitespace typed around an answer never changes the verdict. */
  lemma JudgeIgnoresPadding(pre: string, a: string, post: string, expected: string)
    requires AllSpace(pre) && AllSpace(post)
    ensures Judge(pre + a + post, expected) <==> Judge(a, expected)
  {
    TrimIgnoresPadding(pre, a, post);
  }

  /** Typing the stored term back is correct whenever the term carries no
      surrounding whitespace (every term the editor stores is stripped). */
  lemma JudgeAcceptsStoredTerm(expected: string)
    requires Trim(expected) == expected
    ensures Judge(expected, expected)
  {
  }

  /** A stored term that begins with whitespace can never be answered
      correctly, since the answer is stripped and the term is not. */
  lemma JudgeRejectsPaddedTerm(answer: string, expected: string)
    requires expected != [] && IsSpace(expected[0])
    ensures !Judge(answer, expected)
  {
    var t := Trim(answer);
    TrimStripped(answer);
    var first := LowerChar(expected[0]);
    assert first == [expected[0]];
    assert Lower(expected) == first + Lower(expected[1..]);
    assert IsSpace(Lower(expected)[0]);
    if t != [] {
      LowerFirst(t);
    }
  }

  /** The judge with the stored term stripped as well, so that typing a term
      back is accepted whatever whitespace it was stored with. */
  predicate JudgeTrimmed(answer: string, expected: string) {
    Lower(Trim(answer)) == Lower(Trim(expected))
  }

  /** With both sides stripped, typing the stored term is accepted with or
      without its padding, and the verdict agrees with `Judge` on every term
      that carries no surrounding whitespace. */
  lemma JudgeTrimmedAcceptsStoredTerm(expected: string, answer: string)
    ensures JudgeTrimmed(Trim(expected), expected)
    ensures Trim(expected) == expected ==> (JudgeTrimmed(answer, expected) <==> Judge(answer, expected))
  {
    TrimIdempotent(expected);
  }
}
