/** Subject-code extraction: `set(code_regex.findall(text))` with
    `code_regex = [A-Z]{4}\d{5}`, written as an explicit left-to-right scanner.
    The texts scanned are Python 2 byte strings, so `\d` is `0`-`9`. */
module SubjectCodes {
  import opened Text

  predicate IsUpper(c: char) { 'A' <= c <= 'Z' }

  predicate IsDigit(c: char) { '0' <= c <= '9' }

  /** `s` is, in full, a match of `[A-Z]{4}\d{5}`. */
  predicate IsCode(s: string) {
    && |s| == 9
    && (forall k :: 0 <= k < 4 ==> IsUpper(s[k]))
    && (forall k :: 4 <= k < 9 ==> IsDigit(s[k]))
  }

  /** A code-shaped run of nine characters starts at index `i` of `s`. */
  predicate CodeAt(s: string, i: int) {
    0 <= i && i + 9 <= |s| && IsCode(s[i..i + 9])
  }

  /** Two code-shaped runs never overlap: the letters of a later run would
      have to sit on the digits of the earlier one. */
  lemma CodesDoNotOverlap(s: string, i: int, j: int)
    requires CodeAt(s, i) && i < j < i + 9
    ensures !CodeAt(s, j)
  {
    if j + 9 <= |s| {
      if j <= i + 5 {
        assert s[j + 3] == s[i..i + 9][j + 3 - i];
        assert s[j..j + 9][3] == s[j + 3];
      } else {
        assert s[j] == s[i..i + 9][j - i];
        assert s[j..j + 9][0] == s[j];
      }
    }
  }

  /** `code_regex.findall(s)`: at each position, a match is emitted and the
      scan resumes after it; otherwise the scan moves on by one character. */
  function FindAll(s: string): (r: seq<string>)
    ensures forall k :: 0 <= k < |r| ==> IsCode(r[k])
    decreases |s|
  {
    if |s| < 9 then []
    else if IsCode(s[..9]) then [s[..9]] + FindAll(s[9..])
    else FindAll(s[1..])
  }

  /** `set(code_regex.findall(s))`, the value of `prereq_code` and `nonallowed_code`. */
  function CodeSet(s: string): set<string> {
    set c | c in FindAll(s)
  }

  /** Everything the scanner reports is a code-shaped run of `s`. */
  lemma {:induction false} FindAllSound(s: string, c: string)
    requires c in FindAll(s)
    ensures exists i :: CodeAt(s, i) && s[i..i + 9] == c
    decreases |s|
  {
    if IsCode(s[..9]) {
      if c == s[..9] {
        assert CodeAt(s, 0) && s[0..9] == c;
      } else {
        FindAllSound(s[9..], c);
        var i :| CodeAt(s[9..], i) && s[9..][i..i + 9] == c;
        assert s[9..][i..i + 9] == s[i + 9..i + 18];
        assert CodeAt(s, i + 9);
      }
    } else {
      FindAllSound(s[1..], c);
      var i :| CodeAt(s[1..], i) && s[1..][i..i + 9] == c;
      assert s[1..][i..i + 9] == s[i + 1..i + 10];
      assert CodeAt(s, i + 1);
    }
  }

  /** The scanner misses no code-shaped run of `s`, because runs cannot overlap. */
  lemma {:induction false} FindAllComplete(s: string, i: int)
    requires CodeAt(s, i)
    ensures s[i..i + 9] in FindAll(s)
    decreases |s|
  {
    if IsCode(s[..9]) {
      if i == 0 {
        assert s[..9] == s[0..9];
      } else if i < 9 {
        assert s[0..9] == s[..9];
        CodesDoNotOverlap(s, 0, i);
        assert false;
      } else {
        assert s[9..][i - 9..i] == s[i..i + 9];
        FindAllComplete(s[9..], i - 9);
      }
    } else {
      assert i != 0 by { assert s[..9] == s[0..9]; }
      assert s[1..][i - 1..i + 8] == s[i..i + 9];
      FindAllComplete(s[1..], i - 1);
    }
  }

  /** The code set is exactly the set of nine-character runs of `s` of the
      form four upper-case letters then five digits. */
  lemma CodeSetExact(s: string, c: string)
    ensures c in CodeSet(s) <==> exists i :: CodeAt(s, i) && s[i..i + 9] == c
  {
    if c in CodeSet(s) {
      FindAllSound(s, c);
    }
    if exists i :: CodeAt(s, i) && s[i..i + 9] == c {
      var i :| CodeAt(s, i) && s[i..i + 9] == c;
      FindAllComplete(s, i);
    }
  }

  /** Every code returned is nine characters, four letters A-Z then five
      digits, and occurs contiguously in `s`. */
  lemma CodeSetMembers(s: string, c: string)
    requires c in CodeSet(s)
    ensures |c| == 9 && IsCode(c) && Occurs(c, s)
  {
    CodeSetExact(s, c);
    var i :| CodeAt(s, i) && s[i..i + 9] == c;
    assert OccursAt(c, s, i);
  }

  /** A text with no code-shaped run yields the empty set. */
  lemma CodeSetEmpty(s: string)
    requires forall i :: !CodeAt(s, i)
    ensures CodeSet(s) == {}
  {
    if c :| c in CodeSet(s) {
      CodeSetExact(s, c);
    }
  }
}
