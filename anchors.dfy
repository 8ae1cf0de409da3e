/** Anchor-tag rewriting: `anchor_regex.sub(r"<\1p>", s)` with
    `anchor_regex = <(/?)a[^>]*>`. Every leftmost non-overlapping match
    becomes `<p>`, or `</p>` when the matched tag was a closing one; every
    other character is copied. */
module Anchors {
  import opened Text

  /** `t` is, in full, a match of `<(/?)a[^>]*>`. The optional slash is taken
      whenever present: giving it back cannot help, since `a` must follow. */
  predicate IsAnchorTag(t: string) {
    && |t| >= 3 && t[0] == '<' && t[|t| - 1] == '>'
    && var j := if t[1] == '/' then 2 else 1;
       j < |t| - 1 && t[j] == 'a' && forall k :: j < k < |t| - 1 ==> t[k] != '>'
  }

  /** No substring of `t` matches the anchor pattern. */
  ghost predicate AnchorFree(t: string) {
    forall i, n :: 0 <= i <= n <= |t| ==> !IsAnchorTag(t[i..n])
  }

  /** The replacement `<\1p>` for a matched tag `t`. */
  function Replacement(t: string): string
    requires |t| >= 2
  {
    if t[1] == '/' then "</p>" else "<p>"
  }

  /** Index of the first `>` of `s` at or after `from`. */
  function FirstGt(s: string, from: nat): (r: Option<nat>)
    ensures r.Some? ==> from <= r.value < |s| && s[r.value] == '>'
    ensures r.Some? ==> forall k :: from <= k < r.value ==> s[k] != '>'
    ensures r.None? ==> forall k :: from <= k < |s| ==> s[k] != '>'
    decreases |s| - from
  {
    if from >= |s| then None
    else if s[from] == '>' then Some(from)
    else FirstGt(s, from + 1)
  }

  /** Length of the match of the anchor pattern at the start of `s`, if any.
      The greedy `[^>]*` stops at the first `>`, so a match is unique. */
  function MatchLen(s: string): (r: Option<nat>)
    ensures r.Some? ==> 3 <= r.value <= |s| && IsAnchorTag(s[..r.value])
    ensures r.Some? ==> forall n :: 0 <= n <= |s| && IsAnchorTag(s[..n]) ==> n == r.value
    ensures r.None? ==> forall n :: 0 <= n <= |s| ==> !IsAnchorTag(s[..n])
  {
    if |s| < 2 || s[0] != '<' then None
    else
      var j := if s[1] == '/' then 2 else 1;
      if j < |s| && s[j] == 'a' then
        match FirstGt(s, j + 1)
        case Some(k) => Some(k + 1)
        case None => None
      else None
  }

  /** `anchor_regex.sub(r"<\1p>", s)`. */
  function Rewrite(s: string): string
    decreases |s|
  {
    if s == [] then []
    else match MatchLen(s)
      case Some(n) => Replacement(s[..n]) + Rewrite(s[n..])
      case None => [s[0]] + Rewrite(s[1..])
  }

  /** No match of the anchor pattern starts at any index of `t`. */
  ghost predicate NoMatchFrom(t: string) {
    forall i :: 0 <= i < |t| ==> MatchLen(t[i..]).None?
  }

  lemma NoMatchFromIsAnchorFree(t: string)
    requires NoMatchFrom(t)
    ensures AnchorFree(t)
  {
    forall i, n | 0 <= i <= n <= |t| ensures !IsAnchorTag(t[i..n]) {
      if i < |t| {
        assert t[i..][..n - i] == t[i..n];
      }
    }
  }

  /** The rewrite keeps the first character: a replacement starts with `<`
      exactly as the tag it replaces does. */
  lemma FirstCharKept(s: string)
    requires s != []
    ensures Rewrite(s) != [] && Rewrite(s)[0] == s[0]
  {
  }

  /** A text without `>` holds no match, so the rewrite returns it as it is. */
  lemma {:induction false} NoGtUnchanged(s: string)
    requires forall k :: 0 <= k < |s| ==> s[k] != '>'
    ensures Rewrite(s) == s
    decreases |s|
  {
    if s != [] {
      NoGtUnchanged(s[1..]);
    }
  }

  /** Where no match starts at the front of `s`, none starts at the front of
      its rewrite either. */
  lemma NoMatchAtFront(s: string)
    requires s != [] && MatchLen(s).None?
    ensures MatchLen(Rewrite(s)).None?
  {
    var out := Rewrite(s);
    assert out == [s[0]] + Rewrite(s[1..]);
    if s[0] == '<' && |s| >= 2 {
      FirstCharKept(s[1..]);
      assert out[1] == s[1];
      if s[1] == 'a' {
        NoGtUnchanged(s[1..]);
        assert out == s;
      } else if s[1] == '/' && |s| >= 3 {
        assert Rewrite(s[1..]) == ['/'] + Rewrite(s[2..]);
        FirstCharKept(s[2..]);
        assert out[2] == s[2];
        if s[2] == 'a' {
          NoGtUnchanged(s[2..]);
          assert Rewrite(s[1..]) == s[1..];
          assert out == s;
        }
      } else if s[1] == '/' {
        assert Rewrite(s[1..]) == ['/'] + Rewrite(s[2..]);
        assert out == "</";
      }
    }
  }

  /** Every index of the rewrite is free of a match. */
  lemma {:induction false} RewriteNoMatch(s: string)
    ensures NoMatchFrom(Rewrite(s))
    decreases |s|
  {
    if s != [] {
      var out := Rewrite(s);
      match MatchLen(s)
      case Some(n) =>
        var tag := Replacement(s[..n]);
        RewriteNoMatch(s[n..]);
        assert out == tag + Rewrite(s[n..]);
        forall i | 0 <= i < |out| ensures MatchLen(out[i..]).None? {
          if i >= |tag| {
            assert out[i..] == Rewrite(s[n..])[i - |tag|..];
          } else if i > 0 {
            assert out[i..][0] == tag[i] != '<';
          } else {
            assert out[..|tag|] == tag;
          }
        }
      case None =>
        RewriteNoMatch(s[1..]);
        assert out == [s[0]] + Rewrite(s[1..]);
        forall i | 0 <= i < |out| ensures MatchLen(out[i..]).None? {
          if i >= 1 {
            assert out[i..] == Rewrite(s[1..])[i - 1..];
          } else {
            NoMatchAtFront(s);
          }
        }
    }
  }

  /** After the rewrite no substring matches `<(/?)a[^>]*>`. */
  lemma RewriteIsAnchorFree(s: string)
    ensures AnchorFree(Rewrite(s))
  {
    RewriteNoMatch(s);
    NoMatchFromIsAnchorFree(Rewrite(s));
  }

  /** A text with no match is returned unchanged. */
  lemma {:induction false} RewriteFreeUnchanged(s: string)
    requires AnchorFree(s)
    ensures Rewrite(s) == s
    decreases |s|
  {
    if s != [] {
      forall n | 0 <= n <= |s| ensures !IsAnchorTag(s[..n]) {
        assert s[..n] == s[0..n];
      }
      assert MatchLen(s).None?;
      assert AnchorFree(s[1..]) by {
        forall i, n | 0 <= i <= n <= |s| - 1 ensures !IsAnchorTag(s[1..][i..n]) {
          assert s[1..][i..n] == s[i + 1..n + 1];
        }
      }
      RewriteFreeUnchanged(s[1..]);
    }
  }

  /** Rewriting twice is rewriting once. */
  lemma RewriteIdempotent(s: string)
    ensures Rewrite(Rewrite(s)) == Rewrite(s)
  {
    RewriteIsAnchorFree(s);
    RewriteFreeUnchanged(Rewrite(s));
  }

  /** A whole anchor tag at the front becomes `<p>` or `</p>`. */
  lemma ReplacesLeadingTag(t: string, rest: string)
    requires IsAnchorTag(t)
    ensures Rewrite(t + rest) == Replacement(t) + Rewrite(rest)
  {
    var s := t + rest;
    assert s[..|t|] == t;
    assert (t + rest)[|t|..] == rest;
  }

  /** Text without `<` is copied as it is. */
  lemma {:induction false} CopiesPlainText(u: string, rest: string)
    requires forall k :: 0 <= k < |u| ==> u[k] != '<'
    ensures Rewrite(u + rest) == u + Rewrite(rest)
    decreases |u|
  {
    if u != [] {
      var s := u + rest;
      assert s[0] == u[0] && s[1..] == u[1..] + rest;
      assert MatchLen(s).None?;
      assert Rewrite(s) == [u[0]] + Rewrite(u[1..] + rest);
      CopiesPlainText(u[1..], rest);
      assert [u[0]] + (u[1..] + Rewrite(rest)) == u + Rewrite(rest);
    } else {
      assert u + rest == rest;
    }
  }

  /** A character at which no match starts, `<` included, is copied, and the
      scan goes on from the next character. */
  lemma CopiesUnmatched(s: string)
    requires s != [] && forall n :: 0 <= n <= |s| ==> !IsAnchorTag(s[..n])
    ensures Rewrite(s) == [s[0]] + Rewrite(s[1..])
  {
  }

  /** One step of the scan: the rewrite of `s` is either its first character
      or a replacement made of `<`, `/`, `p` and `>`, followed by the
      rewrite of what is left. */
  lemma RewriteStep(s: string) returns (p: string, d: nat)
    requires s != []
    ensures 1 <= d <= |s| && Rewrite(s) == p + Rewrite(s[d..])
    ensures (d == 1 && p == [s[0]]) || forall j :: 0 <= j < |p| ==> p[j] in "</p>"
  {
    match MatchLen(s)
    case Some(n) =>
      p, d := Replacement(s[..n]), n;
    case None =>
      p, d := [s[0]], 1;
  }

  /** A character other than `<` starts no match and is copied. */
  lemma CopiesNonLt(s: string)
    requires s != [] && s[0] != '<'
    ensures Rewrite(s) == [s[0]] + Rewrite(s[1..])
  {
  }

  /** Where the rewrite starts with `k` characters other than `<`, those are
      the first `k` characters of the input, copied. */
  lemma {:induction false} PlainPrefixCopied(s: string, k: nat)
    requires k <= |Rewrite(s)|
    requires forall j :: 0 <= j < k ==> Rewrite(s)[j] != '<'
    ensures k <= |s| && Rewrite(s) == s[..k] + Rewrite(s[k..])
    decreases k
  {
    if k == 0 {
      assert s[..0] == [] && s[0..] == s;
    } else {
      FirstCharKept(s);
      CopiesNonLt(s);
      NoLtInTail(Rewrite(s), s[0], Rewrite(s[1..]), k);
      PlainPrefixCopied(s[1..], k - 1);
      ConsPrefix(s, k, Rewrite(s[k..]));
    }
  }

  /** A `<`-free prefix of `[c] + tail`, less its first character, is a
      `<`-free prefix of `tail`. */
  lemma NoLtInTail(out: string, c: char, tail: string, k: nat)
    requires 1 <= k <= |out| && out == [c] + tail
    requires forall j :: 0 <= j < k ==> out[j] != '<'
    ensures forall j :: 0 <= j < k - 1 ==> tail[j] != '<'
  {
    forall j | 0 <= j < k - 1 ensures tail[j] != '<' {
      assert tail[j] == out[j + 1];
    }
  }

  /** Sequence bookkeeping for `PlainPrefixCopied`'s step. */
  lemma ConsPrefix(s: string, k: nat, x: string)
    requires 1 <= k <= |s|
    ensures s[1..][k - 1..] == s[k..]
    ensures [s[0]] + (s[1..][..k - 1] + x) == s[..k] + x
  {
    assert s[1..][..k - 1] == s[1..k];
    assert [s[0]] + s[1..k] == s[..k];
  }

  /** The items of the corequisite cell, each rewritten on its own. */
  function RewriteItems(contents: seq<string>): (r: seq<string>)
    ensures |r| == |contents|
    ensures forall k :: 0 <= k < |r| ==> AnchorFree(r[k])
  {
    assert forall k :: 0 <= k < |contents| ==> AnchorFree(Rewrite(contents[k])) by {
      forall k | 0 <= k < |contents| {
        RewriteIsAnchorFree(contents[k]);
      }
    }
    seq(|contents|, k requires 0 <= k < |contents| => Rewrite(contents[k]))
  }

  /** The fallback for the corequisite field, `''.join(map(lambda c:
      anchor_regex.sub(r"<\1p>", str(c)), contents))`: each item is rewritten
      on its own and the results are concatenated. */
  function RewriteEach(contents: seq<string>): string {
    Concat(RewriteItems(contents))
  }

  /** Items that hold no match come out joined and otherwise unchanged. */
  lemma RewriteEachOfFreeItems(contents: seq<string>)
    requires forall k :: 0 <= k < |contents| ==> AnchorFree(contents[k])
    ensures RewriteEach(contents) == Concat(contents)
  {
    forall k | 0 <= k < |contents| ensures RewriteItems(contents)[k] == contents[k] {
      RewriteFreeUnchanged(contents[k]);
    }
    assert RewriteItems(contents) == contents;
  }

  /** The per-item rewrite of a cell split in two is the per-item rewrite of
      each part, joined: no item's result depends on its neighbours. */
  lemma RewriteEachAppend(xs: seq<string>, ys: seq<string>)
    ensures RewriteEach(xs + ys) == RewriteEach(xs) + RewriteEach(ys)
  {
    assert RewriteItems(xs + ys) == RewriteItems(xs) + RewriteItems(ys);
    ConcatAppend(RewriteItems(xs), RewriteItems(ys));
  }

  /** A cell of one item is rewritten as that item alone. */
  lemma RewriteEachSingle(item: string)
    ensures RewriteEach([item]) == Rewrite(item)
  {
    assert RewriteItems([item]) == [Rewrite(item)];
    assert Concat([Rewrite(item)]) == Rewrite(item) + Concat([]);
  }

  /** Rewriting item by item is not rewriting the joined text: a tag split
      across two items is left in place. */
  lemma SplitTagSurvives()
    ensures RewriteEach(["<a", ">"]) == "<a>"
    ensures Rewrite("<a>") == "<p>"
  {
    assert MatchLen("<a").None?;
    assert MatchLen("a").None?;
    assert MatchLen(">").None?;
    assert Rewrite(">") == ">";
    assert Rewrite("<a") == "<a";
    assert RewriteItems(["<a", ">"]) == ["<a", ">"];
    assert Concat(["<a", ">"]) == "<a" + (">" + Concat([]));
    ReplacesLeadingTag("<a>", "");
    assert "<a>" + "" == "<a>";
  }
}
