/**
  The server reads each received buffer as a C string (everything before the
  first NUL byte) and splits it the way `stream >> token` does on a
  `std::stringstream` in the classic "C" locale: leading white space is
  skipped, and each token is a maximal run of non-white-space characters.
  Every byte of the buffer is modelled as one `char`.
 */
module Tokenizer {
  import opened Wrappers

  /** The string terminator. */
  const NUL: char := '\0'

  /** `isspace` in the "C" locale: space, tab, newline, vertical tab, form feed, carriage return. */
  predicate IsSpace(c: char) {
    c == ' ' || c == '\t' || c == '\n' || c == '\U{000B}' || c == '\U{000C}' || c == '\r'
  }

  /** A string made of white space only (possibly empty). */
  predicate IsBlank(g: string) {
    forall i :: 0 <= i < |g| ==> IsSpace(g[i])
  }

  /** What `>>` can produce: a non-empty string without white space. */
  predicate IsToken(t: string) {
    |t| > 0 && forall i :: 0 <= i < |t| ==> !IsSpace(t[i])
  }

  predicate AllTokens(ts: seq<string>) {
    forall i :: 0 <= i < |ts| ==> IsToken(ts[i])
  }

  /**
    The C string stored in `buf`: the characters before the first NUL.
    `None` when `buf` holds no NUL at all, so that reading it as a C string
    runs past its end.
   */
  function CString(buf: seq<char>): (r: Option<string>)
    ensures r.Some? <==> NUL in buf
    ensures r.Some? ==> NUL !in r.value && r.value + [NUL] <= buf
  {
    if buf == [] then None
    else if buf[0] == NUL then Some([])
    else
      match CString(buf[1..])
      case None => None
      case Some(t) => Some([buf[0]] + t)
  }

  /** Whatever follows the first NUL never reaches the C string. */
  lemma {:induction false} CStringOfTerminated(p: string, rest: seq<char>)
    requires NUL !in p
    ensures CString(p + [NUL] + rest) == Some(p)
  {
    var buf := p + [NUL] + rest;
    if p == [] {
      assert buf[0] == NUL;
    } else {
      assert buf[0] == p[0] && p[0] != NUL;
      assert buf[1..] == p[1..] + [NUL] + rest;
      CStringOfTerminated(p[1..], rest);
      assert [p[0]] + p[1..] == p;
    }
  }

  /** The longest prefix of `s` that contains no white space. */
  function Word(s: string): (w: string)
    ensures w <= s
    ensures forall i :: 0 <= i < |w| ==> !IsSpace(w[i])
    ensures |w| == |s| || IsSpace(s[|w|])
  {
    if s == [] || IsSpace(s[0]) then [] else [s[0]] + Word(s[1..])
  }

  /** A prefix of `s` that is free of white space and stops at white space or at the end is `Word(s)`. */
  lemma {:induction false} WordUnique(s: string, p: string)
    requires p <= s
    requires forall i :: 0 <= i < |p| ==> !IsSpace(p[i])
    requires |p| == |s| || IsSpace(s[|p|])
    ensures Word(s) == p
  {
    if p != [] {
      WordUnique(s[1..], p[1..]);
    }
  }

  /** The tokens `while (stream >> token)` extracts from `s`, left to right. */
  function Tokenize(s: string): (ts: seq<string>)
    decreases |s|
    ensures AllTokens(ts)
  {
    if s == [] then []
    else if IsSpace(s[0]) then Tokenize(s[1..])
    else
      var w := Word(s);
      [w] + Tokenize(s[|w|..])
  }

  /** The extraction loop of the server: skip blanks, then read one maximal run, until the text is used up. */
  method ReadTokens(s: string) returns (tokens: seq<string>)
    ensures tokens == Tokenize(s)
  {
    tokens := [];
    var i := 0;
    while i < |s|
      invariant 0 <= i <= |s|
      invariant tokens + Tokenize(s[i..]) == Tokenize(s)
    {
      if IsSpace(s[i]) {
        SkipBlank(s, i);
        i := i + 1;
      } else {
        var j := i;
        while j < |s| && !IsSpace(s[j])
          invariant i <= j <= |s|
          invariant forall k :: i <= k < j ==> !IsSpace(s[k])
        {
          j := j + 1;
        }
        ReadWord(s, i, j);
        tokens := tokens + [s[i..j]];
        i := j;
      }
    }
    assert s[i..] == [];
  }

  /** A blank at position `i` is skipped without producing a token. */
  lemma SkipBlank(s: string, i: nat)
    requires i < |s| && IsSpace(s[i])
    ensures Tokenize(s[i..]) == Tokenize(s[i + 1..])
  {
    assert s[i..][1..] == s[i + 1..];
  }

  /** A maximal blank-free run `s[i..j]` is the next token, and reading resumes at `j`. */
  lemma ReadWord(s: string, i: nat, j: nat)
    requires i < j <= |s|
    requires forall k :: i <= k < j ==> !IsSpace(s[k])
    requires j == |s| || IsSpace(s[j])
    ensures Tokenize(s[i..]) == [s[i..j]] + Tokenize(s[j..])
  {
    WordUnique(s[i..], s[i..j]);
    assert s[i..][j - i..] == s[j..];
  }

  /** Blanks in front of a text never change its tokens. */
  lemma {:induction false} TokenizeAfterBlank(g: string, s: string)
    requires IsBlank(g)
    ensures Tokenize(g + s) == Tokenize(s)
  {
    if g == [] {
      assert g + s == s;
    } else {
      assert (g + s)[0] == g[0] && IsSpace(g[0]);
      assert (g + s)[1..] == g[1..] + s;
      TokenizeAfterBlank(g[1..], s);
    }
  }

  /** A token followed by white space (or by nothing) is read as exactly that token. */
  lemma TokenizeAfterToken(t: string, s: string)
    requires IsToken(t)
    requires s == [] || IsSpace(s[0])
    ensures Tokenize(t + s) == [t] + Tokenize(s)
  {
    WordUnique(t + s, t);
    assert (t + s)[|t|..] == s;
  }

  /**
    `gaps` can separate `n` tokens: `n + 1` blank strings, where every gap
    that sits between two tokens is non-empty.
   */
  predicate Separates(gaps: seq<string>, n: nat) {
    && |gaps| == n + 1
    && (forall i :: 0 <= i < |gaps| ==> IsBlank(gaps[i]))
    && (forall i :: 0 < i < n ==> |gaps[i]| > 0)
  }

  /** The text `gaps[0] + ts[0] + gaps[1] + ts[1] + ... + gaps[n]`. */
  function Weave(gaps: seq<string>, ts: seq<string>): string
    requires |gaps| == |ts| + 1
    decreases |ts|
  {
    if ts == [] then gaps[0] else gaps[0] + ts[0] + Weave(gaps[1..], ts[1..])
  }

  /** Tokenizing a woven text gives back exactly the woven tokens. */
  lemma {:induction false} TokenizeWeave(gaps: seq<string>, ts: seq<string>)
    requires AllTokens(ts)
    requires Separates(gaps, |ts|)
    ensures Tokenize(Weave(gaps, ts)) == ts
  {
    if ts == [] {
      TokenizeAfterBlank(gaps[0], []);
      assert gaps[0] + [] == gaps[0];
    } else {
      var rest := Weave(gaps[1..], ts[1..]);
      assert Weave(gaps, ts) == gaps[0] + (ts[0] + rest);
      TokenizeAfterBlank(gaps[0], ts[0] + rest);
      if ts[1..] != [] {
        assert rest == gaps[1] + ts[1] + Weave(gaps[2..], ts[2..]);
        assert rest[0] == gaps[1][0];
      } else {
        assert rest == gaps[1];
      }
      TokenizeAfterToken(ts[0], rest);
      TokenizeWeave(gaps[1..], ts[1..]);
    }
  }

  /**
    The runs of white space around the tokens of `s`: one before each token
    and one after the last.
   */
  function Gaps(s: string): (gs: seq<string>)
    decreases |s|
    ensures |gs| == |Tokenize(s)| + 1
  {
    if s == [] then [[]]
    else if IsSpace(s[0]) then
      var g := Gaps(s[1..]);
      [[s[0]] + g[0]] + g[1..]
    else
      [[]] + Gaps(s[|Word(s)|..])
  }

  /** The gaps are blank, and every gap between two tokens, and a leading one before a blank, is non-empty. */
  lemma {:induction false} GapsSeparate(s: string)
    decreases |s|
    ensures Separates(Gaps(s), |Tokenize(s)|)
    ensures s != [] && IsSpace(s[0]) ==> Gaps(s)[0] != []
  {
    if s == [] {
    } else if IsSpace(s[0]) {
      GapsSeparate(s[1..]);
      var g := Gaps(s[1..]);
      assert Gaps(s) == [[s[0]] + g[0]] + g[1..];
      assert Tokenize(s) == Tokenize(s[1..]);
      forall i | 0 < i < |g|
        ensures Gaps(s)[i] == g[i]
      {
      }
    } else {
      var w := Word(s);
      GapsSeparate(s[|w|..]);
      var g := Gaps(s[|w|..]);
      assert Gaps(s) == [[]] + g;
      assert Tokenize(s) == [w] + Tokenize(s[|w|..]);
    }
  }

  /**
    Every text is its own tokens woven with its gaps: tokenizing drops the
    blanks between and around the tokens and nothing else.
   */
  lemma {:induction false} GapsRebuild(s: string)
    decreases |s|
    ensures Weave(Gaps(s), Tokenize(s)) == s
  {
    if s == [] {
    } else if IsSpace(s[0]) {
      var g := Gaps(s[1..]);
      GapsRebuild(s[1..]);
      assert Gaps(s) == [[s[0]] + g[0]] + g[1..];
      assert Tokenize(s) == Tokenize(s[1..]);
      WeaveWidenFirst(s[0], g, Tokenize(s[1..]));
      assert [s[0]] + s[1..] == s;
    } else {
      var w := Word(s);
      var g := Gaps(s[|w|..]);
      GapsRebuild(s[|w|..]);
      assert Gaps(s) == [[]] + g;
      assert Tokenize(s) == [w] + Tokenize(s[|w|..]);
      WeaveToken(g, w, Tokenize(s[|w|..]));
      assert w + s[|w|..] == s;
    }
  }

  /**
    A token behind an empty first gap is the first thing in the woven text.
    (Not by induction; automatic induction on `gaps` only slows the proof.)
   */
  lemma {:induction false} WeaveToken(gaps: seq<string>, t: string, ts: seq<string>)
    requires |gaps| == |ts| + 1
    ensures Weave([[]] + gaps, [t] + ts) == t + Weave(gaps, ts)
  {
    var g := [[]] + gaps;
    var u := [t] + ts;
    assert g[0] == [] && u[0] == t && g[1..] == gaps && u[1..] == ts;
    calc {
      Weave(g, u);
      g[0] + u[0] + Weave(g[1..], u[1..]);
      [] + t + Weave(gaps, ts);
      t + Weave(gaps, ts);
    }
  }

  /** Widening the first gap by one character puts that character in front of the woven text. */
  lemma WeaveWidenFirst(c: char, gaps: seq<string>, ts: seq<string>)
    requires |gaps| == |ts| + 1
    ensures Weave([[c] + gaps[0]] + gaps[1..], ts) == [c] + Weave(gaps, ts)
  {
    var wider := [[c] + gaps[0]] + gaps[1..];
    assert wider[0] == [c] + gaps[0];
    if ts != [] {
      assert wider[1..] == gaps[1..];
      calc {
        Weave(wider, ts);
        wider[0] + ts[0] + Weave(gaps[1..], ts[1..]);
        [c] + (gaps[0] + ts[0] + Weave(gaps[1..], ts[1..]));
      }
    }
  }

  /** Only the text in front of the first NUL is tokenized; whatever follows it is ignored. */
  lemma TokensStopAtNul(text: string, rest: seq<char>)
    requires NUL !in text
    ensures CString(text + [NUL] + rest).Some? && Tokenize(CString(text + [NUL] + rest).value) == Tokenize(text)
  {
    CStringOfTerminated(text, rest);
  }
}
