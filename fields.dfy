/** Small field normalisers of the handbook-page processor: the page URL,
    the subject code and name split out of the title, and the trailing
    `</br>` removed from the time commitment. */
module PageFields {
  import opened Text

  /** `Processor.PREFIX`. */
  const Prefix: string := "https://handbook.unimelb.edu.au/view/2015/"

  /** `PREFIX + filename[:-5]`; Python's slice gives the empty string when
      the filename is shorter than five characters. */
  function PageUrl(filename: string): (url: string)
    ensures StartsWith(url, Prefix)
    ensures |url| == |Prefix| + (if |filename| >= 5 then |filename| - 5 else 0)
    ensures StartsWith(filename, url[|Prefix|..])
  {
    Prefix + (if |filename| >= 5 then filename[..|filename| - 5] else "")
  }

  /** A page saved as `<stem>.html` gets the URL `PREFIX + stem`. */
  lemma UrlOfSavedPage(stem: string)
    ensures PageUrl(stem + ".html") == Prefix + stem
  {
    assert (stem + ".html")[..|stem|] == stem;
  }

  /** Whitespace for `unicode.split()` in Python 2.7 (the title is a
      BeautifulSoup string, hence unicode). */
  predicate IsSpace(c: char) {
    || c == ' ' || '\t' <= c <= '\r' || '\U{1C}' <= c <= '\U{1F}'
    || c == '\U{85}' || c == '\U{A0}' || c == '\U{1680}' || c == '\U{180E}'
    || '\U{2000}' <= c <= '\U{200A}' || c == '\U{2028}' || c == '\U{2029}'
    || c == '\U{202F}' || c == '\U{205F}' || c == '\U{3000}'
  }

  /** A token of `split()`: non-empty and without whitespace. */
  predicate IsWord(w: string) {
    w != [] && forall k :: 0 <= k < |w| ==> !IsSpace(w[k])
  }

  /** Length of the run of non-whitespace characters at the start of `s`. */
  function WordLen(s: string): (n: nat)
    ensures n <= |s|
    ensures forall k :: 0 <= k < n ==> !IsSpace(s[k])
    ensures n < |s| ==> IsSpace(s[n])
    decreases |s|
  {
    if s == [] || IsSpace(s[0]) then 0 else 1 + WordLen(s[1..])
  }

  /** `s.split()`: the maximal runs of non-whitespace characters, in order. */
  function Words(s: string): (ws: seq<string>)
    ensures forall k :: 0 <= k < |ws| ==> IsWord(ws[k])
    decreases |s|
  {
    if s == [] then []
    else if IsSpace(s[0]) then Words(s[1..])
    else
      var n := WordLen(s);
      [s[..n]] + Words(s[n..])
  }

  /** The characters of `s` that are not whitespace. */
  function NonSpace(s: string): string {
    if s == [] then [] else (if IsSpace(s[0]) then [] else [s[0]]) + NonSpace(s[1..])
  }

  lemma {:induction false} NonSpaceAppend(a: string, b: string)
    ensures NonSpace(a + b) == NonSpace(a) + NonSpace(b)
    decreases |a|
  {
    if a == [] {
      assert a + b == b;
    } else {
      assert (a + b)[1..] == a[1..] + b;
      NonSpaceAppend(a[1..], b);
    }
  }

  lemma {:induction false} NonSpaceOfWord(w: string)
    requires forall k :: 0 <= k < |w| ==> !IsSpace(w[k])
    ensures NonSpace(w) == w
    decreases |w|
  {
    if w != [] {
      NonSpaceOfWord(w[1..]);
    }
  }

  /** The words together hold every non-whitespace character of `s`, in order:
      `split()` loses whitespace and nothing else. */
  lemma {:induction false} WordsKeepAllText(s: string)
    ensures Concat(Words(s)) == NonSpace(s)
    decreases |s|
  {
    if s != [] {
      if IsSpace(s[0]) {
        WordsKeepAllText(s[1..]);
      } else {
        var n := WordLen(s);
        WordsKeepAllText(s[n..]);
        NonSpaceOfWord(s[..n]);
        NonSpaceAppend(s[..n], s[n..]);
        assert s == s[..n] + s[n..];
        assert Words(s) == [s[..n]] + Words(s[n..]);
      }
    }
  }

  /** Leading whitespace does not change the words. */
  lemma {:induction false} WordsSkipSpace(s: string, t: string)
    requires forall k :: 0 <= k < |s| ==> IsSpace(s[k])
    ensures Words(s + t) == Words(t)
    decreases |s|
  {
    if s == [] {
      assert s + t == t;
    } else {
      assert (s + t)[1..] == s[1..] + t;
      WordsSkipSpace(s[1..], t);
    }
  }

  /** A word followed by whitespace or the end is split off whole. */
  lemma WordsOfWord(w: string, t: string)
    requires IsWord(w)
    requires t == [] || IsSpace(t[0])
    ensures Words(w + t) == [w] + Words(t)
  {
    var s := w + t;
    WordLenOfWord(w, t);
    assert s[..|w|] == w && s[|w|..] == t;
  }

  lemma {:induction false} WordLenOfWord(w: string, t: string)
    requires forall k :: 0 <= k < |w| ==> !IsSpace(w[k])
    requires t == [] || IsSpace(t[0])
    ensures WordLen(w + t) == |w|
    decreases |w|
  {
    if w == [] {
      assert w + t == t;
    } else {
      assert (w + t)[1..] == w[1..] + t;
      WordLenOfWord(w[1..], t);
    }
  }

  /** Splitting words joined by single spaces gives the same words back. */
  lemma {:induction false} WordsOfJoin(ws: seq<string>)
    requires forall k :: 0 <= k < |ws| ==> IsWord(ws[k])
    ensures Words(Join(ws, " ")) == ws
    decreases |ws|
  {
    if ws == [] {
    } else if |ws| == 1 {
      WordsOfWord(ws[0], []);
      assert ws[0] + [] == ws[0];
    } else {
      var rest := Join(ws[1..], " ");
      WordsOfJoin(ws[1..]);
      assert Join(ws, " ") == ws[0] + (" " + rest);
      WordsOfWord(ws[0], " " + rest);
      WordsSkipSpace(" ", rest);
      assert [ws[0]] + ws[1..] == ws;
    }
  }

  /** Whitespace in `s` is only single spaces strictly between other
      characters: no leading, trailing or doubled spaces, no tabs or newlines. */
  predicate SingleSpaced(s: string) {
    forall k :: 0 <= k < |s| && IsSpace(s[k]) ==>
      s[k] == ' ' && 0 < k < |s| - 1 && !IsSpace(s[k - 1]) && !IsSpace(s[k + 1])
  }

  /** `w` sits at index `p` of `s` as a maximal run of non-whitespace: the
      start or whitespace before it, whitespace or the end after it. */
  predicate TokenAt(s: string, w: string, p: int) {
    && 0 <= p && p + |w| <= |s| && s[p..p + |w|] == w
    && (p == 0 || IsSpace(s[p - 1]))
    && (p + |w| == |s| || IsSpace(s[p + |w|]))
  }

  /** A token of a suffix is a token of the whole text, unless it starts the
      suffix right after a non-whitespace character. */
  lemma TokenAtShift(s: string, d: nat, w: string, p: int)
    requires d <= |s| && TokenAt(s[d..], w, p)
    requires d == 0 || IsSpace(s[d - 1]) || p > 0
    ensures TokenAt(s, w, p + d)
  {
    assert s[d..][p..p + |w|] == s[p + d..p + d + |w|];
    if p > 0 {
      assert s[d..][p - 1] == s[p + d - 1];
    }
    if p + |w| < |s| - d {
      assert s[d..][p + |w|] == s[p + d + |w|];
    }
  }

  /** Positions shifted by `d`. */
  function Shifted(pos: seq<nat>, d: nat): (r: seq<nat>)
    ensures |r| == |pos| && forall k :: 0 <= k < |pos| ==> r[k] == pos[k] + d
  {
    seq(|pos|, k requires 0 <= k < |pos| => pos[k] + d)
  }

  /** Each `ws[k]` is a token of `s` at `pos[k]`. */
  predicate TokensAt(s: string, ws: seq<string>, pos: seq<nat>) {
    |pos| == |ws| && forall k :: 0 <= k < |pos| ==> TokenAt(s, ws[k], pos[k])
  }

  /** Each token ends strictly before the next begins. */
  predicate Separated(ws: seq<string>, pos: seq<nat>)
    requires |pos| == |ws|
  {
    forall k :: 0 <= k < |pos| - 1 ==> pos[k] + |ws[k]| < pos[k + 1]
  }

  /** Index `i` lies inside one of the tokens. */
  ghost predicate InToken(i: int, ws: seq<string>, pos: seq<nat>)
    requires |pos| == |ws|
  {
    exists k :: 0 <= k < |pos| && pos[k] <= i < pos[k] + |ws[k]|
  }

  /** `ws` are the maximal runs of non-whitespace of `s`, in order: `pos`
      lists where each sits, neighbours are separated by whitespace, and
      every non-whitespace character of `s` lies in one of them. */
  ghost predicate Tokenized(s: string, ws: seq<string>, pos: seq<nat>) {
    && TokensAt(s, ws, pos)
    && Separated(ws, pos)
    && forall i :: 0 <= i < |s| && !IsSpace(s[i]) ==> InToken(i, ws, pos)
  }

  /** The tokens of a suffix are tokens of the whole text, unless one starts
      the suffix right after a non-whitespace character. */
  lemma TokensShift(s: string, d: nat, ws: seq<string>, prev: seq<nat>)
    requires d <= |s|
    requires d == 0 || IsSpace(s[d - 1]) || forall k :: 0 <= k < |prev| ==> prev[k] > 0
    requires TokensAt(s[d..], ws, prev)
    ensures TokensAt(s, ws, Shifted(prev, d))
  {
    var pos := Shifted(prev, d);
    forall k | 0 <= k < |pos| ensures TokenAt(s, ws[k], pos[k]) {
      TokenAtShift(s, d, ws[k], prev[k]);
    }
  }

  lemma SeparatedShift(ws: seq<string>, prev: seq<nat>, d: nat)
    requires |prev| == |ws| && Separated(ws, prev)
    ensures Separated(ws, Shifted(prev, d))
  {
  }

  /** Characters of the suffix `s[d..]` inside its tokens are inside the
      shifted tokens of `s`. */
  lemma CoversShift(s: string, d: nat, ws: seq<string>, prev: seq<nat>)
    requires d <= |s| && |prev| == |ws|
    requires forall i :: 0 <= i < |s| - d && !IsSpace(s[d..][i]) ==> InToken(i, ws, prev)
    ensures forall i :: d <= i < |s| && !IsSpace(s[i]) ==> InToken(i, ws, Shifted(prev, d))
  {
    var pos := Shifted(prev, d);
    forall i | d <= i < |s| && !IsSpace(s[i]) ensures InToken(i, ws, pos) {
      assert s[d..][i - d] == s[i];
      var k :| 0 <= k < |prev| && prev[k] <= i - d < prev[k] + |ws[k]|;
      assert pos[k] <= i < pos[k] + |ws[k]|;
    }
  }

  /** Leading whitespace shifts every token by one. */
  lemma TokenizedSkipSpace(s: string, ws: seq<string>, prev: seq<nat>)
    requires s != [] && IsSpace(s[0]) && Tokenized(s[1..], ws, prev)
    ensures Tokenized(s, ws, Shifted(prev, 1))
  {
    TokensShift(s, 1, ws, prev);
    SeparatedShift(ws, prev, 1);
    CoversShift(s, 1, ws, prev);
  }

  /** A word in front of tokens that start later stays inside itself. */
  lemma TokenizedCons(s: string, w: string, ws: seq<string>, pos: seq<nat>)
    requires TokenAt(s, w, 0) && TokensAt(s, ws, pos) && Separated(ws, pos)
    requires pos != [] ==> |w| < pos[0]
    requires forall i :: |w| <= i < |s| && !IsSpace(s[i]) ==> InToken(i, ws, pos)
    ensures Tokenized(s, [w] + ws, [0] + pos)
  {
    var all, at := [w] + ws, [0] + pos;
    assert forall k :: 1 <= k < |at| ==> all[k] == ws[k - 1] && at[k] == pos[k - 1];
    forall i | 0 <= i < |s| && !IsSpace(s[i]) ensures InToken(i, all, at) {
      if i < |w| {
        assert at[0] <= i < at[0] + |all[0]|;
      } else {
        var k :| 0 <= k < |pos| && pos[k] <= i < pos[k] + |ws[k]|;
        assert at[k + 1] <= i < at[k + 1] + |all[k + 1]|;
      }
    }
  }

  /** A leading word followed by the tokens of the rest: the word is the
      first token, at index 0, and the others shift by its length. */
  lemma TokenizedWord(s: string, n: nat, ws: seq<string>, prev: seq<nat>)
    requires 1 <= n <= |s| && forall k :: 0 <= k < n ==> !IsSpace(s[k])
    requires n == |s| || IsSpace(s[n])
    requires forall k :: 0 <= k < |ws| ==> IsWord(ws[k])
    requires Tokenized(s[n..], ws, prev)
    ensures Tokenized(s, [s[..n]] + ws, [0] + Shifted(prev, n))
  {
    var pos := Shifted(prev, n);
    assert TokenAt(s, s[..n], 0) by {
      assert s[0..n] == s[..n];
    }
    forall k | 0 <= k < |prev| ensures prev[k] > 0 {
      assert s[n..][prev[k]] == ws[k][0];
    }
    TokensShift(s, n, ws, prev);
    SeparatedShift(ws, prev, n);
    CoversShift(s, n, ws, prev);
    TokenizedCons(s, s[..n], ws, pos);
  }

  /** `split()` returns the maximal runs of non-whitespace, in order. */
  lemma {:induction false} WordsAt(s: string) returns (pos: seq<nat>)
    ensures Tokenized(s, Words(s), pos)
    decreases |s|
  {
    if s == [] {
      pos := [];
    } else if IsSpace(s[0]) {
      var prev := WordsAt(s[1..]);
      TokenizedSkipSpace(s, Words(s[1..]), prev);
      pos := Shifted(prev, 1);
    } else {
      var n := WordLen(s);
      var prev := WordsAt(s[n..]);
      TokenizedWord(s, n, Words(s[n..]), prev);
      pos := [0] + Shifted(prev, n);
    }
  }

  /** Words joined by single spaces are single-spaced. */
  lemma {:induction false} JoinIsSingleSpaced(ws: seq<string>)
    requires forall k :: 0 <= k < |ws| ==> IsWord(ws[k])
    ensures SingleSpaced(Join(ws, " "))
    ensures ws != [] ==> Join(ws, " ") != [] && !IsSpace(Join(ws, " ")[0])
    decreases |ws|
  {
    if |ws| >= 2 {
      var w := ws[0];
      var rest := Join(ws[1..], " ");
      JoinIsSingleSpaced(ws[1..]);
      var s := Join(ws, " ");
      assert s == w + " " + rest;
      assert forall k :: 0 <= k < |w| ==> s[k] == w[k];
      forall k | 0 <= k < |s| && IsSpace(s[k])
        ensures s[k] == ' ' && 0 < k < |s| - 1 && !IsSpace(s[k - 1]) && !IsSpace(s[k + 1])
      {
        if k > |w| {
          assert s[k] == rest[k - |w| - 1];
          if k > |w| + 1 {
            assert s[k - 1] == rest[k - |w| - 2];
          }
        }
      }
    }
  }

  /** `title.split()[0]`, the subject code; `None` where the title holds no
      word and the source's indexing raises IndexError. */
  function TitleCode(title: string): (code: Option<string>)
    ensures code.None? <==> Words(title) == []
    ensures code.Some? ==> IsWord(code.value)
  {
    var ws := Words(title);
    if ws == [] then None else Some(ws[0])
  }

  /** `code` sits at index `i` of `title` as its first token: whitespace
      before it, whitespace or the end after it. */
  predicate FirstTokenAt(title: string, code: string, i: int) {
    && 0 <= i && i + |code| <= |title|
    && (forall k :: 0 <= k < i ==> IsSpace(title[k]))
    && title[i..i + |code|] == code
    && (i + |code| == |title| || IsSpace(title[i + |code|]))
  }

  /** The code is the first whitespace-delimited token of the title. */
  lemma {:induction false} TitleCodeIsFirstToken(title: string)
    requires TitleCode(title).Some?
    ensures exists i :: FirstTokenAt(title, TitleCode(title).value, i)
    decreases |title|
  {
    var code := TitleCode(title).value;
    if IsSpace(title[0]) {
      assert TitleCode(title[1..]) == TitleCode(title);
      TitleCodeIsFirstToken(title[1..]);
      var i :| FirstTokenAt(title[1..], code, i);
      assert title[1..][i..i + |code|] == title[i + 1..i + 1 + |code|];
      assert FirstTokenAt(title, code, i + 1);
    } else {
      assert title[0..|code|] == code;
      assert FirstTokenAt(title, code, 0);
    }
  }

  /** `" ".join(title.split()[1:])`, the subject name. */
  function TitleName(title: string): string {
    var ws := Words(title);
    Join(if ws == [] then [] else ws[1..], " ")
  }

  /** The name is single-spaced and splits back into the title's words after
      the code. */
  lemma TitleNameWords(title: string)
    ensures SingleSpaced(TitleName(title))
    ensures Words(TitleName(title)) == (if Words(title) == [] then [] else Words(title)[1..])
  {
    var ws := Words(title);
    var rest := if ws == [] then [] else ws[1..];
    assert forall k :: 0 <= k < |rest| ==> IsWord(rest[k]);
    JoinIsSingleSpaced(rest);
    WordsOfJoin(rest);
  }

  /** The value the time commitment takes when `[-5:] == "</br>"` selects the
      strip: the text without that suffix. */
  function WithoutClosingBr(s: string): (r: string)
    ensures StartsWith(s, r)
    ensures EndsWith(s, "</br>") ==> r + "</br>" == s
    ensures !EndsWith(s, "</br>") ==> r == s
  {
    if |s| >= 5 && s[|s| - 5..] == "</br>" then s[..|s| - 5] else s
  }

  /** Appending `</br>` and stripping it is the identity. */
  lemma StripAppendedBr(t: string)
    ensures WithoutClosingBr(t + "</br>") == t
  {
    assert (t + "</br>")[|t|..] == "</br>";
  }
}
