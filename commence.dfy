/** The commencement-date field: the page fragment is split on `<br>`, the
    pieces naming a study period are kept with their line-break tags
    removed, and the kept pieces are joined again with `<br>`. */
module Commencement {
  import opened Text

  /** `re.split("<br>", s)`: the pieces between the leftmost non-overlapping
      occurrences of `<br>`. */
  function SplitOnBr(s: string): (r: seq<string>)
    ensures |r| >= 1 && StartsWith(s, r[0])
    decreases |s|
  {
    if |s| < 4 then [s]
    else if s[..4] == "<br>" then [[]] + SplitOnBr(s[4..])
    else
      var rest := SplitOnBr(s[1..]);
      [[s[0]] + rest[0]] + rest[1..]
  }

  /** Joining the pieces with `<br>` gives back the text that was split. */
  lemma {:induction false} SplitJoinRoundTrip(s: string)
    ensures Join(SplitOnBr(s), "<br>") == s
    decreases |s|
  {
    if |s| < 4 {
    } else if s[..4] == "<br>" {
      var rest := SplitOnBr(s[4..]);
      SplitJoinRoundTrip(s[4..]);
      assert SplitOnBr(s) == [[]] + rest;
      assert Join([[]] + rest, "<br>") == [] + "<br>" + Join(rest, "<br>");
      assert s == s[..4] + s[4..];
    } else {
      var rest := SplitOnBr(s[1..]);
      SplitJoinRoundTrip(s[1..]);
      assert SplitOnBr(s) == [[s[0]] + rest[0]] + rest[1..];
      JoinConsFirst(s[0], rest, "<br>");
      assert s == [s[0]] + s[1..];
    }
  }

  /** No piece contains `<br>`. */
  lemma {:induction false} SplitPiecesHaveNoBr(s: string)
    ensures forall k, i :: 0 <= k < |SplitOnBr(s)| ==> !OccursAt("<br>", SplitOnBr(s)[k], i)
    decreases |s|
  {
    var r := SplitOnBr(s);
    if |s| < 4 {
    } else if s[..4] == "<br>" {
      SplitPiecesHaveNoBr(s[4..]);
      forall k, i | 0 <= k < |r| ensures !OccursAt("<br>", r[k], i) {
        if k > 0 {
          assert r[k] == SplitOnBr(s[4..])[k - 1];
        }
      }
    } else {
      var rest := SplitOnBr(s[1..]);
      SplitPiecesHaveNoBr(s[1..]);
      forall k, i | 0 <= k < |r| ensures !OccursAt("<br>", r[k], i) {
        if k > 0 {
          assert r[k] == rest[k];
        } else if i == 0 {
          if 4 <= |r[0]| {
            assert r[0][..4] == s[..4] by {
              assert r[0][1..] == rest[0];
              assert rest[0] == s[1..][..|rest[0]|];
            }
            assert r[0][0..4] == r[0][..4];
          }
        } else if i > 0 && i + 4 <= |r[0]| {
          assert r[0][i..i + 4] == rest[0][i - 1..i + 3];
          assert !OccursAt("<br>", rest[0], i - 1);
        }
      }
    }
  }

  /** The alternatives of `semester_regex`. */
  const Markers: seq<string> := ["Summer Term", "Semester", " - Taught on campus.", " - Taught online/distance."]

  predicate MarkerAtFront(s: string) {
    exists k :: 0 <= k < |Markers| && StartsWith(s, Markers[k])
  }

  /** `semester_regex.search(s)` succeeds: some alternative matches at some position. */
  function Search(s: string): bool
    decreases |s|
  {
    if s == [] then false else MarkerAtFront(s) || Search(s[1..])
  }

  /** `s` contains one of the four study-period markers. */
  ghost predicate HasMarker(s: string) {
    exists k :: 0 <= k < |Markers| && Occurs(Markers[k], s)
  }

  /** A marker occurring after the first character occurs in the whole text. */
  lemma MarkerInTail(s: string, k: int, i: int)
    requires s != [] && 0 <= k < |Markers| && OccursAt(Markers[k], s[1..], i)
    ensures OccursAt(Markers[k], s, i + 1)
  {
    assert s[1..][i..i + |Markers[k]|] == s[i + 1..i + 1 + |Markers[k]|];
  }

  /** A marker occurring in the text occurs at its front or in its tail. */
  lemma MarkerAtFrontOrTail(s: string, k: int, i: int)
    requires 0 <= k < |Markers| && OccursAt(Markers[k], s, i)
    ensures s != []
    ensures i == 0 ==> StartsWith(s, Markers[k])
    ensures i > 0 ==> OccursAt(Markers[k], s[1..], i - 1)
  {
    assert |Markers[k]| > 0;
    if i > 0 {
      assert s[1..][i - 1..i - 1 + |Markers[k]|] == s[i..i + |Markers[k]|];
    }
  }

  /** The search succeeds exactly when one of the markers occurs in `s`. */
  lemma {:induction false} SearchFindsMarker(s: string)
    ensures Search(s) <==> HasMarker(s)
    decreases |s|
  {
    if HasMarker(s) {
      var k :| 0 <= k < |Markers| && Occurs(Markers[k], s);
      var i :| OccursAt(Markers[k], s, i);
      MarkerAtFrontOrTail(s, k, i);
      if i > 0 {
        SearchFindsMarker(s[1..]);
      }
    }
    if Search(s) {
      if MarkerAtFront(s) {
        var k :| 0 <= k < |Markers| && StartsWith(s, Markers[k]);
        assert OccursAt(Markers[k], s, 0);
      } else {
        SearchFindsMarker(s[1..]);
        var k :| 0 <= k < |Markers| && Occurs(Markers[k], s[1..]);
        var i :| OccursAt(Markers[k], s[1..], i);
        MarkerInTail(s, k, i);
      }
    }
  }

  /** `t` is, in full, a match of `</?br/?>`. */
  predicate IsBrTag(t: string) {
    t == "<br>" || t == "</br>" || t == "<br/>" || t == "</br/>"
  }

  /** Length of the match of `</?br/?>` at the start of `s`, if any. No tag
      is a prefix of another, so the match is unique. */
  function BrLen(s: string): (r: Option<nat>)
    ensures r.Some? ==> 4 <= r.value <= |s| && IsBrTag(s[..r.value])
    ensures r.Some? ==> forall n :: 0 <= n <= |s| && IsBrTag(s[..n]) ==> n == r.value
    ensures r.None? ==> forall n :: 0 <= n <= |s| ==> !IsBrTag(s[..n])
  {
    if |s| < 4 || s[0] != '<' then None
    else
      var j := if s[1] == '/' then 2 else 1;
      if j + 2 <= |s| && s[j] == 'b' && s[j + 1] == 'r' then
        var k := if j + 2 < |s| && s[j + 2] == '/' then j + 3 else j + 2;
        if k < |s| && s[k] == '>' then Some(k + 1) else None
      else None
  }

  /** `re.sub(r"</?br/?>", r"", s)`: every leftmost non-overlapping line-break
      tag is deleted; the scan does not look again at the joined text. */
  function StripBr(s: string): (r: string)
    ensures |r| <= |s|
    decreases |s|
  {
    if s == [] then []
    else match BrLen(s)
      case Some(n) => StripBr(s[n..])
      case None => [s[0]] + StripBr(s[1..])
  }

  /** A line-break tag at the front is deleted. */
  lemma StripBrDropsLeadingTag(t: string, rest: string)
    requires IsBrTag(t)
    ensures StripBr(t + rest) == StripBr(rest)
  {
    var s := t + rest;
    assert s[..|t|] == t;
    assert s[|t|..] == rest;
  }

  /** A character at which no line-break tag starts, `<` included, is kept,
      and the scan goes on from the next character. */
  lemma StripBrKeepsUnmatched(s: string)
    requires s != [] && forall n :: 0 <= n <= |s| ==> !IsBrTag(s[..n])
    ensures StripBr(s) == [s[0]] + StripBr(s[1..])
  {
  }

  /** A character other than `<` starts no line-break tag and is kept. */
  lemma StripBrKeepsNonLt(s: string)
    requires s != [] && s[0] != '<'
    ensures StripBr(s) == [s[0]] + StripBr(s[1..])
  {
    assert BrLen(s).None?;
  }

  /** Text without `<` is copied as it is. */
  lemma {:induction false} StripBrCopiesPlainText(u: string, rest: string)
    requires forall k :: 0 <= k < |u| ==> u[k] != '<'
    ensures StripBr(u + rest) == u + StripBr(rest)
    decreases |u|
  {
    if u != [] {
      var s := u + rest;
      assert s[0] == u[0] && s[1..] == u[1..] + rest;
      StripBrKeepsNonLt(s);
      StripBrCopiesPlainText(u[1..], rest);
      assert [u[0]] + (u[1..] + StripBr(rest)) == u + StripBr(rest);
    } else {
      assert u + rest == rest;
    }
  }

  /** The items `__join_commence_dates` keeps, in input order: those naming
      a study period, each with its line-break tags removed. */
  function Kept(items: seq<string>): seq<string> {
    if items == [] then []
    else
      var last := items[|items| - 1];
      Kept(items[..|items| - 1]) + (if Search(last) then [StripBr(last)] else [])
  }

  /** `__join_commence_dates`: each kept item followed by `<br>` is appended to
      an accumulator, and the last four characters are dropped at the end. */
  method JoinCommenceDates(items: seq<string>) returns (commenceDates: string)
    ensures commenceDates == Join(Kept(items), "<br>")
  {
    commenceDates := "";
    for i := 0 to |items|
      invariant Kept(items[..i]) == [] ==> commenceDates == ""
      invariant Kept(items[..i]) != [] ==> commenceDates == Join(Kept(items[..i]), "<br>") + "<br>"
    {
      assert items[..i + 1][..i] == items[..i];
      if Search(items[i]) {
        var kept := Kept(items[..i]);
        assert Kept(items[..i + 1]) == kept + [StripBr(items[i])];
        if kept != [] {
          JoinSnoc(kept, StripBr(items[i]), "<br>");
        } else {
          assert kept + [StripBr(items[i])] == [StripBr(items[i])];
        }
        commenceDates := commenceDates + StripBr(items[i]) + "<br>";
      } else {
        assert Kept(items[..i + 1]) == Kept(items[..i]);
      }
    }
    assert items[..|items|] == items;
    commenceDates := if |commenceDates| >= 4 then commenceDates[..|commenceDates| - 4] else "";
  }

  /** With no item naming a study period the joined dates are empty. */
  lemma {:induction false} NoMarkerNoDates(items: seq<string>)
    requires forall k :: 0 <= k < |items| ==> !HasMarker(items[k])
    ensures Join(Kept(items), "<br>") == ""
    ensures Kept(items) == []
    decreases |items|
  {
    if items != [] {
      NoMarkerNoDates(items[..|items| - 1]);
      SearchFindsMarker(items[|items| - 1]);
    }
  }

  /** One step of `Kept`: the last item is kept, stripped, exactly when the
      search finds it. */
  lemma KeptSnoc(items: seq<string>)
    requires items != []
    ensures Search(items[|items| - 1]) ==>
      Kept(items) == Kept(items[..|items| - 1]) + [StripBr(items[|items| - 1])]
    ensures !Search(items[|items| - 1]) ==> Kept(items) == Kept(items[..|items| - 1])
  {
  }

  /** Kept is exactly the items the search accepts, in input order, stripped
      of their line-break tags: `idx` lists the positions they came from. */
  lemma {:induction false} KeptSelectsSearched(items: seq<string>) returns (idx: seq<nat>)
    ensures |idx| == |Kept(items)|
    ensures forall j :: 0 <= j < |idx| ==> idx[j] < |items| && Search(items[idx[j]])
    ensures forall j :: 0 <= j < |idx| ==> Kept(items)[j] == StripBr(items[idx[j]])
    ensures forall j, j' :: 0 <= j < j' < |idx| ==> idx[j] < idx[j']
    ensures forall k :: 0 <= k < |items| && Search(items[k]) ==> k in idx
    decreases |items|
  {
    if items == [] {
      idx := [];
    } else {
      var n := |items| - 1;
      var front := items[..n];
      var prev := KeptSelectsSearched(front);
      var kf := Kept(front);
      KeptSnoc(items);
      if Search(items[n]) {
        idx := prev + [n];
      } else {
        idx := prev;
      }
      forall j | 0 <= j < |prev|
        ensures idx[j] == prev[j] && idx[j] < n && items[idx[j]] == front[prev[j]]
        ensures Kept(items)[j] == kf[j]
      {
      }
      forall k | 0 <= k < n && Search(items[k]) ensures k in idx {
        assert front[k] == items[k];
      }
    }
  }

  /** Kept is exactly the items naming a study period, in input order,
      stripped of their line-break tags: `idx` lists the positions they came
      from, and every such item appears. */
  lemma KeptSelectsMarked(items: seq<string>) returns (idx: seq<nat>)
    ensures |idx| == |Kept(items)|
    ensures forall j :: 0 <= j < |idx| ==> idx[j] < |items| && HasMarker(items[idx[j]])
    ensures forall j :: 0 <= j < |idx| ==> Kept(items)[j] == StripBr(items[idx[j]])
    ensures forall j, j' :: 0 <= j < j' < |idx| ==> idx[j] < idx[j']
    ensures forall k :: 0 <= k < |items| && HasMarker(items[k]) ==> k in idx
  {
    idx := KeptSelectsSearched(items);
    forall k | 0 <= k < |items| ensures Search(items[k]) <==> HasMarker(items[k]) {
      SearchFindsMarker(items[k]);
    }
  }
}
