/** The string normaliser of movie_prediction/utils.py (`sanitize_string_column`),
    applied to one string: an alphanumeric filter, a whitespace collapse, a
    strip and an uppercase, each guarded by its own flag and always run in
    that order. Characters are ASCII; whitespace is what Python's `\s` and
    `str.strip()` treat as whitespace among the ASCII characters. */
module Normalize {

  /** Python's `\s` (and `str.isspace`) on ASCII: space, tab, line feed,
      vertical tab, form feed, carriage return and the four separators 0x1C-0x1F. */
  predicate IsSpace(c: char) {
    c == ' ' || (9 <= c as int <= 13) || (28 <= c as int <= 31)
  }

  /** The class `[0-9A-Za-z]`. */
  predicate IsAlnum(c: char) {
    ('0' <= c <= '9') || ('A' <= c <= 'Z') || ('a' <= c <= 'z')
  }

  /** Survives the filter `[^0-9A-Za-z\s]` -> ''. */
  predicate Kept(c: char) {
    IsAlnum(c) || IsSpace(c)
  }

  predicate IsLower(c: char) {
    'a' <= c <= 'z'
  }

  function UpperChar(c: char): (u: char)
    ensures !IsLower(u)
    ensures IsLower(c) ==> 'A' <= u <= 'Z' && u as int + 32 == c as int
    ensures !IsLower(c) ==> u == c
  {
    if IsLower(c) then (c as int - 32) as char else c
  }

  // Shapes of strings, used to state what each step establishes.

  /** Every character survives the alphanumeric filter. */
  ghost predicate AllKept(s: string) {
    forall i :: 0 <= i < |s| ==> Kept(s[i])
  }

  /** Every whitespace character is a plain space and no two are adjacent. */
  ghost predicate Collapsed(s: string) {
    && (forall i :: 0 <= i < |s| && IsSpace(s[i]) ==> s[i] == ' ')
    && (forall i, j :: 0 <= i && j == i + 1 && j < |s| ==> !(IsSpace(s[i]) && IsSpace(s[j])))
  }

  /** No whitespace at either end. */
  ghost predicate Trimmed(s: string) {
    s == [] || (!IsSpace(s[0]) && !IsSpace(s[|s| - 1]))
  }

  ghost predicate NoLower(s: string) {
    forall i :: 0 <= i < |s| ==> !IsLower(s[i])
  }

  /** The non-whitespace characters of `s`, in order. */
  function NonSpaces(s: string): string {
    if s == [] then [] else (if IsSpace(s[0]) then [] else [s[0]]) + NonSpaces(s[1..])
  }

  // ---------------------------------------------------------------------
  // Step 1: `str.replace(r'[^0-9A-Za-z\s]', '')` deletes every other character.

  function FilterAlnum(s: string): (r: string)
    ensures |r| <= |s|
    ensures AllKept(r)
    ensures forall c :: Kept(c) ==> multiset(r)[c] == multiset(s)[c]
    ensures forall c :: !Kept(c) ==> c !in r
  {
    if s == [] then []
    else
      var rest := FilterAlnum(s[1..]);
      assert s == [s[0]] + s[1..];
      if Kept(s[0]) then [s[0]] + rest else rest
  }

  /** Filtering works character by character: the output for a concatenation
      is the concatenation of the outputs, so the kept characters keep their order. */
  lemma {:induction false} FilterAlnumAppend(a: string, b: string)
    ensures FilterAlnum(a + b) == FilterAlnum(a) + FilterAlnum(b)
  {
    if a == [] {
      assert a + b == b;
    } else {
      assert (a + b)[1..] == a[1..] + b;
      FilterAlnumAppend(a[1..], b);
    }
  }

  /** A string whose characters all survive the filter is left unchanged. */
  lemma {:induction false} FilterAlnumFixes(s: string)
    requires AllKept(s)
    ensures FilterAlnum(s) == s
  {
    if s != [] {
      assert AllKept(s[1..]);
      FilterAlnumFixes(s[1..]);
      assert s == [s[0]] + s[1..];
    }
  }

  // ---------------------------------------------------------------------
  // Step 2: `str.replace(r'\s+', ' ')` turns every whitespace run into one space.

  /** Drops the leading run of whitespace. */
  function DropSpaces(s: string): (r: string)
    ensures |r| <= |s| && r == s[|s| - |r|..]
    ensures forall i :: 0 <= i < |s| - |r| ==> IsSpace(s[i])
    ensures r == [] || !IsSpace(r[0])
  {
    if s != [] && IsSpace(s[0]) then DropSpaces(s[1..]) else s
  }

  function CollapseSpaces(s: string): (r: string)
    ensures Collapsed(r)
    ensures |r| <= |s| && (r == [] <==> s == [])
    ensures (r != [] && IsSpace(r[0])) <==> (s != [] && IsSpace(s[0]))
    ensures AllKept(s) ==> AllKept(r)
    decreases |s|
  {
    if s == [] then []
    else if IsSpace(s[0]) then
      var t := DropSpaces(s[1..]);
      var rest := CollapseSpaces(t);
      SliceKeepsShape(s, |s| - |t|, |s|);
      ConsShape(' ', rest);
      [' '] + rest
    else
      var rest := CollapseSpaces(s[1..]);
      SliceKeepsShape(s, 1, |s|);
      ConsShape(s[0], rest);
      [s[0]] + rest
  }

  /** Putting a character in front keeps the shapes, as long as it is kept
      by the filter, or is a plain space not followed by whitespace. */
  lemma ConsShape(x: char, c: string)
    ensures AllKept(c) && Kept(x) ==> AllKept([x] + c)
    ensures Collapsed(c) && (IsSpace(x) ==> x == ' ' && (c == [] || !IsSpace(c[0]))) ==> Collapsed([x] + c)
  {
    var r := [x] + c;
    assert forall k :: 1 <= k < |r| ==> r[k] == c[k - 1];
  }

  /** The collapse copies a leading non-whitespace character. */
  lemma CollapseHead(s: string)
    requires s != [] && !IsSpace(s[0])
    ensures CollapseSpaces(s) == [s[0]] + CollapseSpaces(s[1..])
  {
  }

  /** The collapse keeps every non-whitespace character, in order. */
  lemma {:induction false} CollapseKeepsNonSpaces(s: string)
    ensures NonSpaces(CollapseSpaces(s)) == NonSpaces(s)
    decreases |s|
  {
    if s != [] {
      if IsSpace(s[0]) {
        var t := DropSpaces(s[1..]);
        DropSpacesKeepsNonSpaces(s[1..]);
        CollapseKeepsNonSpaces(t);
        assert NonSpaces([' '] + CollapseSpaces(t)) == NonSpaces(CollapseSpaces(t));
      } else {
        CollapseKeepsNonSpaces(s[1..]);
        var c := CollapseSpaces(s[1..]);
        assert ([s[0]] + c)[1..] == c;
      }
    }
  }

  lemma {:induction false} DropSpacesKeepsNonSpaces(s: string)
    ensures NonSpaces(DropSpaces(s)) == NonSpaces(s)
  {
    if s != [] && IsSpace(s[0]) {
      DropSpacesKeepsNonSpaces(s[1..]);
    }
  }

  /** A string that is already collapsed is left unchanged. */
  lemma {:induction false} CollapseSpacesFixes(s: string)
    requires Collapsed(s)
    ensures CollapseSpaces(s) == s
    decreases |s|
  {
    if s != [] {
      assert Collapsed(s[1..]);
      if IsSpace(s[0]) {
        assert s[1..] == [] || !IsSpace(s[1]);
        assert DropSpaces(s[1..]) == s[1..];
        CollapseSpacesFixes(s[1..]);
        assert s == [' '] + s[1..];
      } else {
        CollapseSpacesFixes(s[1..]);
        assert s == [s[0]] + s[1..];
      }
    }
  }

  /** The leading run of non-whitespace characters. */
  function TakeWord(s: string): (w: string)
    ensures |w| <= |s| && w == s[..|w|]
    ensures forall i :: 0 <= i < |w| ==> !IsSpace(w[i])
    ensures |w| == |s| || IsSpace(s[|w|])
  {
    if s == [] || IsSpace(s[0]) then [] else [s[0]] + TakeWord(s[1..])
  }

  /** The words of `s`: its maximal runs of non-whitespace characters, in order. */
  function Words(s: string): seq<string>
    decreases |s|
  {
    if s == [] then []
    else if IsSpace(s[0]) then Words(DropSpaces(s[1..]))
    else
      var w := TakeWord(s);
      [w] + Words(s[|w|..])
  }

  /** A word followed by nothing or by whitespace is taken whole. */
  lemma {:induction false} TakeWordAppend(w: string, x: string)
    requires forall i :: 0 <= i < |w| ==> !IsSpace(w[i])
    requires x == [] || IsSpace(x[0])
    ensures TakeWord(w + x) == w
  {
    if w == [] {
      assert w + x == x;
    } else {
      assert (w + x)[1..] == w[1..] + x;
      TakeWordAppend(w[1..], x);
    }
  }

  /** The collapse copies a word and carries on after it. */
  lemma {:induction false} CollapseWord(w: string, x: string)
    requires forall i :: 0 <= i < |w| ==> !IsSpace(w[i])
    ensures CollapseSpaces(w + x) == w + CollapseSpaces(x)
  {
    if w == [] {
      assert w + x == x;
    } else {
      var y := w + x;
      assert y[0] == w[0] && y[1..] == w[1..] + x;
      CollapseHead(y);
      CollapseWord(w[1..], x);
      ConsAppend(w, CollapseSpaces(x));
    }
  }

  lemma ConsAppend(w: string, c: string)
    requires w != []
    ensures [w[0]] + (w[1..] + c) == w + c
  {
    assert w == [w[0]] + w[1..];
  }


  /** The collapse keeps the words, in order: every whitespace run between
      two words becomes one space, so no two words are glued together. */
  lemma {:induction false} CollapseKeepsWords(s: string)
    ensures Words(CollapseSpaces(s)) == Words(s)
    decreases |s|
  {
    if s != [] {
      if IsSpace(s[0]) {
        var t := DropSpaces(s[1..]);
        var c := CollapseSpaces(t);
        CollapseKeepsWords(t);
        assert CollapseSpaces(s) == [' '] + c;
        assert ([' '] + c)[1..] == c;
        assert DropSpaces(c) == c;
      } else {
        var w := TakeWord(s);
        var u := s[|w|..];
        assert s == w + u;
        CollapseWord(w, u);
        CollapseKeepsWords(u);
        var c := CollapseSpaces(u);
        TakeWordAppend(w, c);
        assert (w + c)[|w|..] == c;
      }
    }
  }

  /** Ends with a whitespace character. */
  predicate EndsInSpace(s: string) {
    s != [] && IsSpace(s[|s| - 1])
  }

  lemma ConsEnds(x: char, c: string)
    ensures EndsInSpace([x] + c) <==> if c == [] then IsSpace(x) else EndsInSpace(c)
  {
    if c != [] {
      assert ([x] + c)[|c|] == c[|c| - 1];
    }
  }

  /** A non-empty string ends like its tail, or is its first character. */
  lemma TailEnds(s: string)
    requires s != []
    ensures EndsInSpace(s) <==> if |s| == 1 then IsSpace(s[0]) else EndsInSpace(s[1..])
  {
    if |s| > 1 {
      assert s[1..][|s| - 2] == s[|s| - 1];
    }
  }

  /** Dropping leading whitespace leaves the end alone, unless it drops everything. */
  lemma {:induction false} DropSpacesEnds(s: string)
    ensures DropSpaces(s) == [] ==> s == [] || EndsInSpace(s)
    ensures DropSpaces(s) != [] ==> (EndsInSpace(DropSpaces(s)) <==> EndsInSpace(s))
  {
    if s != [] && IsSpace(s[0]) {
      DropSpacesEnds(s[1..]);
      TailEnds(s);
    }
  }

  /** The collapse ends with whitespace exactly when its input does. */
  lemma {:induction false} CollapseSpacesLast(s: string)
    ensures EndsInSpace(CollapseSpaces(s)) <==> EndsInSpace(s)
    decreases |s|
  {
    if s != [] {
      TailEnds(s);
      if IsSpace(s[0]) {
        var t := DropSpaces(s[1..]);
        var c := CollapseSpaces(t);
        CollapseSpacesLast(t);
        DropSpacesEnds(s[1..]);
        ConsEnds(' ', c);
      } else {
        var c := CollapseSpaces(s[1..]);
        CollapseSpacesLast(s[1..]);
        ConsEnds(s[0], c);
      }
    }
  }

  // ---------------------------------------------------------------------
  // Step 3: `str.strip()` removes whitespace at both ends.

  /** A slice of a string keeps the shapes the string has. */
  lemma SliceKeepsShape(s: string, i: nat, j: nat)
    requires i <= j <= |s|
    ensures AllKept(s) ==> AllKept(s[i..j])
    ensures Collapsed(s) ==> Collapsed(s[i..j])
  {
    var t := s[i..j];
    assert forall k :: 0 <= k < |t| ==> t[k] == s[i + k];
  }

  /** `str.rstrip()`: drops the trailing run of whitespace. */
  function StripRight(s: string): (r: string)
    ensures |r| <= |s| && r == s[..|r|]
    ensures forall i :: |r| <= i < |s| ==> IsSpace(s[i])
    ensures r == [] || !IsSpace(r[|r| - 1])
  {
    s[..KeptLength(s, |s|)]
  }

  /** The length of `s[..n]` without its trailing whitespace. */
  function KeptLength(s: string, n: nat): (m: nat)
    requires n <= |s|
    ensures m <= n
    ensures forall i :: m <= i < n ==> IsSpace(s[i])
    ensures m == 0 || !IsSpace(s[m - 1])
  {
    if n > 0 && IsSpace(s[n - 1]) then KeptLength(s, n - 1) else n
  }

  /** A prefix `r` of a suffix `l` of `s`, followed in `l` by whitespace only,
      is a slice of `s` followed in `s` by whitespace only. */
  lemma SuffixPrefix(s: string, l: string, r: string)
    requires |l| <= |s| && l == s[|s| - |l|..]
    requires |r| <= |l| && r == l[..|r|]
    requires forall k :: |r| <= k < |l| ==> IsSpace(l[k])
    ensures r == s[|s| - |l|..|s| - |l| + |r|]
    ensures forall k :: |s| - |l| + |r| <= k < |s| ==> IsSpace(s[k])
  {
    var i := |s| - |l|;
    forall k | i + |r| <= k < |s| ensures IsSpace(s[k]) {
      assert s[k] == l[k - i];
    }
  }

  /** `str.strip()`: the left strip, then the right strip. No whitespace is
      left at either end, and what is kept is a slice of the input, so the
      shapes of the earlier steps survive. */
  function Strip(s: string): (r: string)
    ensures Trimmed(r)
    ensures AllKept(s) ==> AllKept(r)
    ensures Collapsed(s) ==> Collapsed(r)
  {
    var l := DropSpaces(s);
    var r := StripRight(l);
    StripShape(s, l, r);
    r
  }

  /** A prefix of a suffix of `s` with no whitespace at its ends is trimmed
      and, being a slice of `s`, has the shapes `s` has. */
  lemma StripShape(s: string, l: string, r: string)
    requires |l| <= |s| && l == s[|s| - |l|..] && (l == [] || !IsSpace(l[0]))
    requires |r| <= |l| && r == l[..|r|] && (r == [] || !IsSpace(r[|r| - 1]))
    ensures Trimmed(r)
    ensures AllKept(s) ==> AllKept(r)
    ensures Collapsed(s) ==> Collapsed(r)
  {
    var i := |s| - |l|;
    if r != [] {
      assert r[0] == l[0];
    }
    assert r == s[i..i + |r|];
    SliceKeepsShape(s, i, i + |r|);
  }

  /** The strip keeps a slice `s[i..j]` of its input and removes only
      whitespace on either side of it. */
  lemma StripSlice(s: string) returns (i: nat, j: nat)
    ensures i <= j <= |s| && Strip(s) == s[i..j]
    ensures forall k :: 0 <= k < i ==> IsSpace(s[k])
    ensures forall k :: j <= k < |s| ==> IsSpace(s[k])
  {
    var l := DropSpaces(s);
    var r := StripRight(l);
    SuffixPrefix(s, l, r);
    i := |s| - |l|;
    j := i + |r|;
  }

  /** A string with no whitespace at its ends is left unchanged by the strip. */
  lemma StripFixes(s: string)
    requires Trimmed(s)
    ensures Strip(s) == s
  {
    assert DropSpaces(s) == s;
    assert StripRight(s) == s;
  }

  // ---------------------------------------------------------------------
  // Step 4: `str.upper()` (ASCII letters only).

  function Upper(s: string): (r: string)
    ensures |r| == |s| && NoLower(r)
    ensures forall i :: 0 <= i < |s| ==> r[i] == UpperChar(s[i])
    ensures AllKept(s) ==> AllKept(r)
    ensures Collapsed(s) ==> Collapsed(r)
    ensures Trimmed(s) ==> Trimmed(r)
  {
    seq(|s|, i requires 0 <= i < |s| => UpperChar(s[i]))
  }

  /** A string with no lower-case letter is left unchanged by the uppercase. */
  lemma UpperFixes(s: string)
    requires NoLower(s)
    ensures Upper(s) == s
  {
  }

  // ---------------------------------------------------------------------
  // The whole normaliser.

  datatype Flags = Flags(upper: bool, alphanumericOnly: bool, strip: bool, whitespace: bool)

  /** `sanitize_string_column` on one string: the steps run in this fixed
      order, each only when its flag is set. */
  function Sanitize(s: string, f: Flags): (r: string)
    ensures !f.upper && !f.alphanumericOnly && !f.strip && !f.whitespace ==> r == s
    ensures f.alphanumericOnly ==> AllKept(r)
    ensures f.whitespace ==> Collapsed(r)
    ensures f.strip ==> Trimmed(r)
    ensures f.upper ==> NoLower(r)
  {
    var s1 := if f.alphanumericOnly then FilterAlnum(s) else s;
    var s2 := if f.whitespace then CollapseSpaces(s1) else s1;
    var s3 := if f.strip then Strip(s2) else s2;
    if f.upper then Upper(s3) else s3
  }

  /** With the collapse and the strip on, the result has no whitespace at
      either end, no two adjacent whitespace characters, and its only
      whitespace character is the plain space. */
  lemma SanitizeSpacing(s: string, f: Flags)
    requires f.whitespace && f.strip
    ensures var r := Sanitize(s, f);
      && (r == [] || (r[0] != ' ' && r[|r| - 1] != ' '))
      && (forall i :: 0 <= i < |r| ==> IsSpace(r[i]) ==> r[i] == ' ')
      && (forall i :: 0 <= i < |r| - 1 ==> !(r[i] == ' ' && r[i + 1] == ' '))
  {
    var r := Sanitize(s, f);
    assert Collapsed(r) && Trimmed(r);
  }

  /** Sanitizing is idempotent, whatever the flags: a second pass with the
      same flags changes nothing. */
  lemma SanitizeIdempotent(s: string, f: Flags)
    ensures Sanitize(Sanitize(s, f), f) == Sanitize(s, f)
  {
    var r := Sanitize(s, f);
    var s1 := if f.alphanumericOnly then FilterAlnum(r) else r;
    if f.alphanumericOnly { FilterAlnumFixes(r); }
    assert s1 == r;
    var s2 := if f.whitespace then CollapseSpaces(s1) else s1;
    if f.whitespace { CollapseSpacesFixes(r); }
    assert s2 == r;
    var s3 := if f.strip then Strip(s2) else s2;
    if f.strip { StripFixes(r); }
    assert s3 == r;
    if f.upper { UpperFixes(r); }
  }
}
