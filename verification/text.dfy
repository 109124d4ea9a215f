/** The string operations the block parser relies on: Python's `str.strip()`,
    `str.rstrip(chars)` and `re.split` with a pattern that matches one literal
    separator. */
module Text {

  /** Python's `str.isspace()` for one code point: exactly the characters that
      `str.strip()` with no argument removes. */
  predicate IsSpace(c: char) {
    || ('\t' <= c <= '\r')
    || ('\U{1C}' <= c <= '\U{1F}')
    || c == ' '
    || c == '\U{85}'
    || c == '\U{A0}'
    || c == '\U{1680}'
    || ('\U{2000}' <= c <= '\U{200A}')
    || c == '\U{2028}'
    || c == '\U{2029}'
    || c == '\U{202F}'
    || c == '\U{205F}'
    || c == '\U{3000}'
  }

  /** The characters `str.rstrip(']')` removes. */
  predicate IsCloseBracket(c: char) {
    c == ']'
  }

  /** The end of the run of `drop` characters of `s` that starts at `i`. */
  function SkipFrom(s: string, drop: char -> bool, i: nat): (n: nat)
    requires i <= |s|
    ensures i <= n <= |s|
    ensures forall j :: i <= j < n ==> drop(s[j])
    ensures n < |s| ==> !drop(s[n])
    decreases |s| - i
  {
    if i < |s| && drop(s[i]) then SkipFrom(s, drop, i + 1) else i
  }

  /** The start of the run of `drop` characters of `s` that ends at `n`. */
  function SkipBack(s: string, drop: char -> bool, n: nat): (m: nat)
    requires n <= |s|
    ensures m <= n
    ensures forall j :: m <= j < n ==> drop(s[j])
    ensures 0 < m ==> !drop(s[m - 1])
  {
    if 0 < n && drop(s[n - 1]) then SkipBack(s, drop, n - 1) else n
  }

  /** `s` without its longest prefix of `drop` characters (`str.lstrip`). */
  function TrimStart(s: string, drop: char -> bool): (r: string)
    ensures |r| <= |s|
    ensures forall i :: 0 <= i < |r| ==> r[i] == s[|s| - |r| + i]
    ensures forall i :: 0 <= i < |s| - |r| ==> drop(s[i])
    ensures r != [] ==> !drop(r[0])
  {
    s[SkipFrom(s, drop, 0)..]
  }

  /** `s` without its longest suffix of `drop` characters (`str.rstrip`). */
  function TrimEnd(s: string, drop: char -> bool): (r: string)
    ensures |r| <= |s|
    ensures forall i :: 0 <= i < |r| ==> r[i] == s[i]
    ensures forall i :: |r| <= i < |s| ==> drop(s[i])
    ensures r != [] ==> !drop(r[|r| - 1])
  {
    s[..SkipBack(s, drop, |s|)]
  }

  /** Python's `str.strip()`: leading and trailing whitespace removed. */
  function Strip(s: string): (r: string)
    ensures SkipFrom(s, IsSpace, 0) + |r| <= |s|
    ensures forall i :: 0 <= i < |r| ==> r[i] == s[SkipFrom(s, IsSpace, 0) + i]
    ensures forall i :: 0 <= i < SkipFrom(s, IsSpace, 0) ==> IsSpace(s[i])
    ensures forall i :: SkipFrom(s, IsSpace, 0) + |r| <= i < |s| ==> IsSpace(s[i])
    ensures r != [] ==> !IsSpace(r[0]) && !IsSpace(r[|r| - 1])
    ensures r == [] <==> forall i :: 0 <= i < |s| ==> IsSpace(s[i])
  {
    var t := TrimStart(s, IsSpace);
    var r := TrimEnd(t, IsSpace);
    assert r != [] ==> r[0] == t[0];
    assert r == [] ==> t == [];
    r
  }

  /** `sep` occurs in `s` starting at position `i`. */
  predicate OccursAt(s: string, sep: string, i: nat) {
    i + |sep| <= |s| && s[i..i + |sep|] == sep
  }

  /** The number of positions of `s` at which `sep` starts, overlapping or not. */
  function Count(s: string, sep: string): nat
    requires |sep| > 0
    decreases |s|
  {
    if |s| < |sep| then 0
    else (if OccursAt(s, sep, 0) then 1 else 0) + Count(s[1..], sep)
  }

  /** Some proper suffix of `sep` is also a prefix of it, so two occurrences
      of `sep` can overlap. */
  predicate SelfOverlapping(sep: string) {
    exists k :: 0 < k < |sep| && sep[k..] == sep[..|sep| - k]
  }

  /** `re.split` with a pattern that matches exactly the literal `sep`: the
      pieces of `s` between the non-overlapping occurrences of `sep` found
      scanning left to right. */
  function Split(s: string, sep: string): (parts: seq<string>)
    requires |sep| > 0
    ensures |parts| >= 1
    decreases |s|
  {
    if |s| < |sep| then [s]
    else if OccursAt(s, sep, 0) then [""] + Split(s[|sep|..], sep)
    else
      var rest := Split(s[1..], sep);
      [[s[0]] + rest[0]] + rest[1..]
  }

  /** The inverse of `Split`: the pieces glued back together with `sep`. */
  function Join(parts: seq<string>, sep: string): string
    requires |parts| >= 1
  {
    if |parts| == 1 then parts[0] else parts[0] + sep + Join(parts[1..], sep)
  }

  /** Splitting loses nothing: the separators dropped are put back by `Join`. */
  lemma {:induction false} SplitJoin(s: string, sep: string)
    requires |sep| > 0
    ensures Join(Split(s, sep), sep) == s
    decreases |s|
  {
    if |s| < |sep| {
    } else if OccursAt(s, sep, 0) {
      SplitJoin(s[|sep|..], sep);
      JoinEmptyFirst(Split(s[|sep|..], sep), sep);
      assert s == sep + s[|sep|..];
    } else {
      var rest := Split(s[1..], sep);
      SplitJoin(s[1..], sep);
      JoinExtendsFirst(s[0], rest, sep);
      assert s == [s[0]] + s[1..];
    }
  }

  /** An empty first piece contributes only the separator after it. */
  lemma JoinEmptyFirst(parts: seq<string>, sep: string)
    requires |parts| >= 1
    ensures Join([""] + parts, sep) == sep + Join(parts, sep)
  {
    assert ([""] + parts)[1..] == parts;
  }

  /** Prepending a character to the first piece prepends it to the joined
      string. */
  lemma JoinExtendsFirst(c: char, parts: seq<string>, sep: string)
    requires |parts| >= 1
    ensures Join([[c] + parts[0]] + parts[1..], sep) == [c] + Join(parts, sep)
  {
    var ext := [[c] + parts[0]] + parts[1..];
    if |parts| > 1 {
      assert ext[1..] == parts[1..];
    }
  }

  /** When `s` starts with a separator that cannot overlap itself, no
      occurrence starts strictly inside that separator. */
  lemma {:induction false} CountSkipsSeparator(s: string, sep: string, k: nat)
    requires |sep| > 0 && !SelfOverlapping(sep)
    requires OccursAt(s, sep, 0) && 1 <= k <= |sep|
    ensures Count(s[k..], sep) == Count(s[|sep|..], sep)
    decreases |sep| - k
  {
    if k < |sep| {
      var t := s[k..];
      if |t| >= |sep| {
        assert sep[k..] != sep[..|sep| - k];
        assert t[..|sep| - k] == sep[k..];
        assert t[..|sep|][..|sep| - k] == t[..|sep| - k];
        assert t[1..] == s[k + 1..];
      }
      CountSkipsSeparator(s, sep, k + 1);
    }
  }

  /** For a separator that cannot overlap itself, `re.split` returns one more
      piece than there are occurrences of the separator. */
  lemma {:induction false} SplitCount(s: string, sep: string)
    requires |sep| > 0 && !SelfOverlapping(sep)
    ensures |Split(s, sep)| == Count(s, sep) + 1
    decreases |s|
  {
    if |s| < |sep| {
    } else if OccursAt(s, sep, 0) {
      SplitCount(s[|sep|..], sep);
      CountSkipsSeparator(s, sep, 1);
    } else {
      SplitCount(s[1..], sep);
    }
  }

  /** Two different occurrences of `sep` are both counted. */
  lemma {:induction false} CountTwoOccurrences(s: string, sep: string, i: nat, j: nat)
    requires |sep| > 0 && i < j && OccursAt(s, sep, i) && OccursAt(s, sep, j)
    ensures Count(s, sep) >= 2
    decreases i
  {
    assert s[1..][j - 1..j - 1 + |sep|] == s[j..j + |sep|];
    if i == 0 {
      CountOneOccurrence(s[1..], sep, j - 1);
    } else {
      assert s[1..][i - 1..i - 1 + |sep|] == s[i..i + |sep|];
      CountTwoOccurrences(s[1..], sep, i - 1, j - 1);
    }
  }

  /** An occurrence of `sep` is counted. */
  lemma {:induction false} CountOneOccurrence(s: string, sep: string, i: nat)
    requires |sep| > 0 && OccursAt(s, sep, i)
    ensures Count(s, sep) >= 1
    decreases i
  {
    if i > 0 {
      assert s[1..][i - 1..i - 1 + |sep|] == s[i..i + |sep|];
      CountOneOccurrence(s[1..], sep, i - 1);
    }
  }
}
