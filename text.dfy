/** The Python string primitives the SQL console relies on, over `seq<char>`:
    `str.strip`, `str.lower`/`str.upper`, `startswith`/`endswith`, the `in`
    substring test, `split('\n')`, `sep.join(...)`, `ljust` and `"-" * n`. */
module Text {

  /** Characters Python's `str.isspace()` accepts, so the ones `strip()` removes. */
  predicate IsSpace(c: char) {
    c == ' ' || ('\t' <= c <= '\r') || ('\U{1C}' <= c <= '\U{1F}')
    || c == '\U{85}' || c == '\U{A0}' || c == '\U{1680}'
    || ('\U{2000}' <= c <= '\U{200A}') || c == '\U{2028}' || c == '\U{2029}'
    || c == '\U{202F}' || c == '\U{205F}' || c == '\U{3000}'
  }

  predicate AllSpace(s: string) {
    forall k :: 0 <= k < |s| ==> IsSpace(s[k])
  }

  /** `s.lstrip()`. */
  function TrimLeft(s: string): string
    decreases |s|
  {
    if s != [] && IsSpace(s[0]) then TrimLeft(s[1..]) else s
  }

  /** `s.rstrip()`. */
  function TrimRight(s: string): string
    decreases |s|
  {
    if s != [] && IsSpace(s[|s| - 1]) then TrimRight(s[..|s| - 1]) else s
  }

  /** `s.strip()`: no longer than `s`, and neither starting nor ending with
      whitespace. */
  function Strip(s: string): (r: string)
    ensures |r| <= |s|
    ensures r == [] || (!IsSpace(r[0]) && !IsSpace(r[|r| - 1]))
  {
    TrimBothEnds(s);
    TrimRight(TrimLeft(s))
  }

  /** `TrimLeft(s)` is the suffix of `s` after its leading whitespace. */
  lemma {:induction false} TrimLeftShape(s: string) returns (i: nat)
    ensures i <= |s| && TrimLeft(s) == s[i..] && AllSpace(s[..i])
    ensures i == |s| || !IsSpace(s[i])
    decreases |s|
  {
    if s != [] && IsSpace(s[0]) {
      var i' := TrimLeftShape(s[1..]);
      i := i' + 1;
      assert s[1..][i'..] == s[i..];
      forall k | 0 <= k < i ensures IsSpace(s[..i][k]) {
        if k > 0 { assert s[..i][k] == s[1..][..i'][k - 1]; }
      }
    } else {
      i := 0;
    }
  }

  /** Trimming both sides leaves no whitespace at either end. */
  lemma TrimBothEnds(s: string)
    ensures |TrimRight(TrimLeft(s))| <= |s|
    ensures var r := TrimRight(TrimLeft(s));
      r == [] || (!IsSpace(r[0]) && !IsSpace(r[|r| - 1]))
  {
    var i := TrimLeftShape(s);
    var j := TrimRightShape(s[i..]);
    var r := TrimRight(TrimLeft(s));
    if r != [] {
      assert r[0] == s[i..][0];
    }
  }

  /** `TrimRight(s)` is the prefix of `s` before its trailing whitespace. */
  lemma {:induction false} TrimRightShape(s: string) returns (j: nat)
    ensures j <= |s| && TrimRight(s) == s[..j] && AllSpace(s[j..])
    ensures j == 0 || !IsSpace(s[j - 1])
    decreases |s|
  {
    if s != [] && IsSpace(s[|s| - 1]) {
      var s' := s[..|s| - 1];
      j := TrimRightShape(s');
      assert s'[..j] == s[..j];
      forall k | 0 <= k < |s| - j ensures IsSpace(s[j..][k]) {
        if k < |s| - 1 - j { assert s[j..][k] == s'[j..][k]; }
      }
    } else {
      j := |s|;
    }
  }

  /** `Strip(s)` is the middle of `s` between a whitespace prefix and a
      whitespace suffix, and it neither starts nor ends with whitespace. */
  lemma StripSpan(s: string) returns (i: nat, j: nat)
    ensures i <= j <= |s| && Strip(s) == s[i..j]
    ensures AllSpace(s[..i]) && AllSpace(s[j..])
    ensures forall k :: 0 <= k < i || j <= k < |s| ==> IsSpace(s[k])
    ensures i == j || (!IsSpace(s[i]) && !IsSpace(s[j - 1]))
  {
    i := TrimLeftShape(s);
    var l := s[i..];
    var m := TrimRightShape(l);
    j := i + m;
    assert l[..m] == s[i..j];
    assert l[m..] == s[j..];
    if m > 0 {
      assert l[m - 1] == s[j - 1];
    }
    forall k | 0 <= k < i || j <= k < |s| ensures IsSpace(s[k]) {
      if k < i { assert s[k] == s[..i][k]; } else { assert s[k] == s[j..][k - j]; }
    }
  }

  lemma {:induction false} TrimLeftAt(s: string, i: nat)
    requires i <= |s| && AllSpace(s[..i])
    requires i == |s| || !IsSpace(s[i])
    ensures TrimLeft(s) == s[i..]
    decreases i
  {
    if i > 0 {
      assert s[0] == s[..i][0];
      assert s[1..][..i - 1] == s[..i][1..];
      TrimLeftAt(s[1..], i - 1);
    }
  }

  lemma {:induction false} TrimRightAt(s: string, j: nat)
    requires j <= |s| && AllSpace(s[j..])
    requires j == 0 || !IsSpace(s[j - 1])
    ensures TrimRight(s) == s[..j]
    decreases |s| - j
  {
    if j < |s| {
      assert s[|s| - 1] == s[j..][|s| - 1 - j];
      assert s[..|s| - 1][j..] == s[j..][..|s| - 1 - j];
      TrimRightAt(s[..|s| - 1], j);
    }
  }

  /** Any split of `s` into whitespace, a part with non-space ends, and
      whitespace determines `Strip(s)`: that part is the stripped text. */
  lemma StripUnique(s: string, i: nat, j: nat)
    requires i <= j <= |s|
    requires AllSpace(s[..i]) && AllSpace(s[j..])
    requires i == j || (!IsSpace(s[i]) && !IsSpace(s[j - 1]))
    ensures Strip(s) == s[i..j]
  {
    if i == j {
      forall k | 0 <= k < |s| ensures IsSpace(s[..|s|][k]) {
        if k < i { assert s[k] == s[..i][k]; } else { assert s[k] == s[j..][k - j]; }
      }
      TrimLeftAt(s, |s|);
    } else {
      TrimLeftAt(s, i);
      assert s[i..][j - i..] == s[j..];
      TrimRightAt(s[i..], j - i);
    }
  }

  /** Stripping twice is stripping once. */
  lemma StripIdempotent(s: string)
    ensures Strip(Strip(s)) == Strip(s)
  {
    var i, j := StripSpan(s);
    var r := Strip(s);
    assert r[..0] == [] && r[|r|..] == [];
    if i < j {
      assert r[0] == s[i] && r[|r| - 1] == s[j - 1];
    }
    StripUnique(r, 0, |r|);
  }

  lemma AllSpaceConcat(a: string, b: string)
    requires AllSpace(a) && AllSpace(b)
    ensures AllSpace(a + b)
  {
    forall k | 0 <= k < |a + b| ensures IsSpace((a + b)[k]) {
      if k >= |a| { assert (a + b)[k] == b[k - |a|]; }
    }
  }

  /** Whitespace around a text does not change what it strips to. */
  lemma StripPadded(ws1: string, s: string, ws2: string)
    requires AllSpace(ws1) && AllSpace(ws2)
    ensures Strip(ws1 + s + ws2) == Strip(s)
  {
    var i, j := StripSpan(s);
    var t := ws1 + s + ws2;
    var i', j' := |ws1| + i, |ws1| + j;
    assert t[..i'] == ws1 + s[..i];
    AllSpaceConcat(ws1, s[..i]);
    assert t[j'..] == s[j..] + ws2;
    AllSpaceConcat(s[j..], ws2);
    assert t[i'..j'] == s[i..j];
    if i < j {
      assert t[i'] == s[i] && t[j' - 1] == s[j - 1];
    }
    StripUnique(t, i', j');
  }

  /** ASCII case mapping. */
  function LowerChar(c: char): char {
    if 'A' <= c <= 'Z' then (c as int + 32) as char else c
  }

  function UpperChar(c: char): char {
    if 'a' <= c <= 'z' then (c as int - 32) as char else c
  }

  /** `s.lower()`, character by character: the same length, each capital
      letter replaced by its small letter, no capital letter left. */
  function Lower(s: string): (r: string)
    ensures |r| == |s|
    ensures forall k :: 0 <= k < |s| ==>
      r[k] == s[k] || ('A' <= s[k] <= 'Z' && r[k] as int == s[k] as int + 32)
    ensures forall k :: 0 <= k < |s| ==> !('A' <= r[k] <= 'Z')
  {
    seq(|s|, k requires 0 <= k < |s| => LowerChar(s[k]))
  }

  /** `s.upper()`, character by character: the same length, each small
      letter replaced by its capital letter, no small letter left. */
  function Upper(s: string): (r: string)
    ensures |r| == |s|
    ensures forall k :: 0 <= k < |s| ==>
      r[k] == s[k] || ('a' <= s[k] <= 'z' && r[k] as int == s[k] as int - 32)
    ensures forall k :: 0 <= k < |s| ==> !('a' <= r[k] <= 'z')
  {
    seq(|s|, k requires 0 <= k < |s| => UpperChar(s[k]))
  }

  predicate StartsWith(s: string, prefix: string) {
    |prefix| <= |s| && s[..|prefix|] == prefix
  }

  predicate EndsWith(s: string, suffix: string) {
    |suffix| <= |s| && s[|s| - |suffix|..] == suffix
  }

  /** A text that starts with `p` starts with every prefix of `p`. */
  lemma StartsWithPrefix(s: string, p: string, q: string)
    ensures StartsWith(s, p) && StartsWith(p, q) ==> StartsWith(s, q)
  {
    if StartsWith(s, p) && StartsWith(p, q) {
      assert s[..|q|] == s[..|p|][..|q|];
    }
  }

  /** `pat` occurs in `s` starting at position `k`. */
  predicate OccursAt(s: string, pat: string, k: nat) {
    k + |pat| <= |s| && s[k..k + |pat|] == pat
  }

  /** An occurrence in `s[1..]` is one in `s`, one position further on. */
  lemma OccursShift(s: string, pat: string)
    ensures StartsWith(s, pat) <==> OccursAt(s, pat, 0)
    ensures s != [] ==> forall k: nat :: OccursAt(s[1..], pat, k) <==> OccursAt(s, pat, k + 1)
    ensures s != [] ==> forall k: nat :: 1 <= k ==> (OccursAt(s, pat, k) <==> OccursAt(s[1..], pat, k - 1))
  {
    if s != [] {
      forall k: nat
        ensures OccursAt(s[1..], pat, k) <==> OccursAt(s, pat, k + 1)
      {
        if k + 1 + |pat| <= |s| {
          assert s[1..][k..k + |pat|] == s[k + 1..k + 1 + |pat|];
        }
      }
    }
  }

  /** Python's `pat in s`: `pat` occurs somewhere in `s`, at some position. */
  predicate Contains(s: string, pat: string): (found: bool)
    ensures found <==> exists k: nat :: OccursAt(s, pat, k)
    decreases |s|
  {
    OccursShift(s, pat);
    StartsWith(s, pat) || (s != [] && Contains(s[1..], pat))
  }

  /** A text without the first letter of a pattern cannot contain it. */
  lemma {:induction false} MissingFirstLetter(s: string, pat: string)
    requires pat != [] && pat[0] !in s
    ensures !Contains(s, pat)
    decreases |s|
  {
    if s != [] {
      assert s[0] in s;
      assert forall c :: c in s[1..] ==> c in s;
      MissingFirstLetter(s[1..], pat);
    }
  }

  /** What a suffix contains, the whole text contains. */
  lemma {:induction false} ContainsInSuffix(s: string, k: nat, pat: string)
    requires k <= |s| && Contains(s[k..], pat)
    ensures Contains(s, pat)
    decreases k
  {
    if k > 0 {
      assert s[1..][k - 1..] == s[k..];
      ContainsInSuffix(s[1..], k - 1, pat);
    }
  }

  /** What a prefix contains, the whole text contains. */
  lemma {:induction false} ContainsInPrefix(s: string, k: nat, pat: string)
    requires k <= |s| && Contains(s[..k], pat)
    ensures Contains(s, pat)
    decreases k
  {
    if StartsWith(s[..k], pat) {
      assert s[..k][..|pat|] == s[..|pat|];
    } else {
      assert s[..k][1..] == s[1..][..k - 1];
      ContainsInPrefix(s[1..], k - 1, pat);
    }
  }

  /** What a slice contains, the whole text contains. */
  lemma ContainsInSlice(s: string, i: nat, j: nat, pat: string)
    requires i <= j <= |s| && Contains(s[i..j], pat)
    ensures Contains(s, pat)
  {
    assert s[i..j] == s[i..][..j - i];
    ContainsInPrefix(s[i..], j - i, pat);
    ContainsInSuffix(s, i, pat);
  }

  /** A pattern without the character `c` cannot straddle a `c`. */
  lemma {:induction false} ContainsAround(a: string, c: char, b: string, pat: string)
    requires pat != [] && c !in pat
    requires Contains(a + [c] + b, pat)
    ensures Contains(a, pat) || Contains(b, pat)
    decreases |a|
  {
    var t := a + [c] + b;
    if a == [] {
      assert pat[0] in pat;
      assert t[1..] == b;
    } else {
      if |pat| <= |a| {
        assert t[..|pat|] == a[..|pat|];
      } else if |pat| <= |t| {
        assert pat[|a|] in pat;
        assert t[..|pat|][|a|] == c;
      }
      assert t[1..] == a[1..] + [c] + b;
      if Contains(t[1..], pat) {
        ContainsAround(a[1..], c, b, pat);
      }
    }
  }

  /** `sep.join(parts)`. */
  function Join(parts: seq<string>, sep: string): (r: string)
    decreases |parts|
  {
    if |parts| == 0 then []
    else if |parts| == 1 then parts[0]
    else parts[0] + sep + Join(parts[1..], sep)
  }

  /** Joining `parts + [last]` puts one more separator and `last` at the end. */
  lemma {:induction false} JoinSnoc(parts: seq<string>, last: string, sep: string)
    requires |parts| > 0
    ensures Join(parts + [last], sep) == Join(parts, sep) + sep + last
    decreases |parts|
  {
    if |parts| > 1 {
      assert (parts + [last])[1..] == parts[1..] + [last];
      JoinSnoc(parts[1..], last, sep);
    }
  }

  /** A text with no occurrence of `pat` in any part has none in the parts
      joined by a character `pat` does not contain. */
  lemma JoinAvoids(parts: seq<string>, c: char, pat: string)
    requires pat != [] && c !in pat
    requires forall k :: 0 <= k < |parts| ==> !Contains(parts[k], pat)
    ensures !Contains(Join(parts, [c]), pat)
  {
    if Contains(Join(parts, [c]), pat) {
      ContainsInJoin(parts, c, pat);
    }
  }

  /** A pattern found in lines joined by a character it does not contain was
      already in one of the lines. */
  lemma {:induction false} ContainsInJoin(parts: seq<string>, c: char, pat: string)
    requires pat != [] && c !in pat
    requires Contains(Join(parts, [c]), pat)
    ensures exists k :: 0 <= k < |parts| && Contains(parts[k], pat)
    decreases |parts|
  {
    if |parts| > 1 {
      ContainsAround(parts[0], c, Join(parts[1..], [c]), pat);
      if !Contains(parts[0], pat) {
        ContainsInJoin(parts[1..], c, pat);
        var k :| 0 <= k < |parts[1..]| && Contains(parts[1..][k], pat);
        assert parts[k + 1] == parts[1..][k];
      }
    }
  }

  /** The total length of some texts. */
  function TotalLength(parts: seq<string>): nat
    decreases |parts|
  {
    if parts == [] then 0 else |parts[0]| + TotalLength(parts[1..])
  }

  /** Joining adds one separator between each pair of neighbouring parts. */
  lemma {:induction false} JoinLength(parts: seq<string>, sep: string)
    requires |parts| > 0
    ensures |Join(parts, sep)| == TotalLength(parts) + |sep| * (|parts| - 1)
    decreases |parts|
  {
    if |parts| > 1 {
      JoinLength(parts[1..], sep);
    }
  }

  /** `s.split(sep)`: the maximal runs of non-`sep` characters, always at least one. */
  function Split(s: string, sep: char): (r: seq<string>)
    ensures |r| >= 1
    ensures forall k :: 0 <= k < |r| ==> sep !in r[k]
    decreases |s|
  {
    if s == [] then [[]]
    else
      var rest := Split(s[1..], sep);
      if s[0] == sep then [[]] + rest
      else [[s[0]] + rest[0]] + rest[1..]
  }

  /** Joining the pieces with the separator gives back the text. */
  lemma {:induction false} JoinSplit(s: string, sep: char)
    ensures Join(Split(s, sep), [sep]) == s
    decreases |s|
  {
    if s != [] {
      var rest := Split(s[1..], sep);
      JoinSplit(s[1..], sep);
      if s[0] == sep {
        assert Split(s, sep) == [[]] + rest;
        assert ([[]] + rest)[1..] == rest;
      } else if |rest| > 1 {
        assert Split(s, sep) == [[s[0]] + rest[0]] + rest[1..];
        assert ([[s[0]] + rest[0]] + rest[1..])[1..] == rest[1..];
        assert [s[0]] + s[1..] == s;
      } else {
        assert [s[0]] + s[1..] == s;
      }
    }
  }

  lemma {:induction false} SplitWithoutSeparator(s: string, sep: char)
    requires sep !in s
    ensures Split(s, sep) == [s]
    decreases |s|
  {
    if s != [] {
      assert forall c :: c in s[1..] ==> c in s;
      SplitWithoutSeparator(s[1..], sep);
      assert [s[0]] + s[1..] == s;
    }
  }

  lemma {:induction false} SplitAtSeparator(a: string, sep: char, b: string)
    requires sep !in a
    ensures Split(a + [sep] + b, sep) == [a] + Split(b, sep)
    decreases |a|
  {
    var t := a + [sep] + b;
    if a == [] {
      assert t[1..] == b;
    } else {
      assert t[1..] == a[1..] + [sep] + b;
      assert forall c :: c in a[1..] ==> c in a;
      SplitAtSeparator(a[1..], sep, b);
      assert [a[0]] + a[1..] == a;
    }
  }

  /** Splitting lines joined with a separator none of them contains gives
      back the lines. */
  lemma {:induction false} SplitJoin(parts: seq<string>, sep: char)
    requires |parts| >= 1
    requires forall k :: 0 <= k < |parts| ==> sep !in parts[k]
    ensures Split(Join(parts, [sep]), sep) == parts
    decreases |parts|
  {
    if |parts| == 1 {
      SplitWithoutSeparator(parts[0], sep);
    } else {
      SplitJoin(parts[1..], sep);
      SplitAtSeparator(parts[0], sep, Join(parts[1..], [sep]));
    }
  }

  /** `c * n`: `n` copies of `c`. */
  function Repeat(c: char, n: nat): (r: string)
    ensures |r| == n && forall k :: 0 <= k < n ==> r[k] == c
  {
    seq(n, _ => c)
  }

  /** `s.ljust(width)`: exactly as wide as asked (or as long as `s`, when
      that is longer), starting with `s` and continuing with spaces only. */
  function LJust(s: string, width: nat): (r: string)
    ensures |r| == if |s| >= width then |s| else width
    ensures r[..|s|] == s
    ensures forall k :: |s| <= k < |r| ==> r[k] == ' '
  {
    if |s| >= width then s else s + Repeat(' ', width - |s|)
  }
}
