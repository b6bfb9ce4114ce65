/** The name-variant extractor of movie_prediction/utils.py (`extract_names`):
    strip honorifics with `str.lstrip`, then split on single spaces into the
    first name, the last name, first+last and the full name. */
module Names {
  import opened Wrappers

  predicate StartsWith(s: string, p: string) {
    |p| <= |s| && s[..|p|] == p
  }

  /** `s.lstrip(chars)`: drops the leading run of characters that belong to
      the set, whatever their order. */
  function LStrip(s: string, chars: set<char>): (r: string)
    ensures |r| <= |s| && r == s[|s| - |r|..]
    ensures forall i :: 0 <= i < |s| - |r| ==> s[i] in chars
    ensures r == [] || r[0] !in chars
  {
    if s != [] && s[0] in chars then
      var r := LStrip(s[1..], chars);
      SuffixTrans(r, s[1..], s);
      r
    else s
  }

  function CharsOf(p: string): set<char> {
    set c | c in p
  }

  /** One `if text.startswith(p): text = text.lstrip(p)` of the source. */
  function StripHonorific(t: string, p: string): (r: string)
    ensures !StartsWith(t, p) ==> r == t
    ensures StartsWith(t, p) ==>
              && |r| <= |t| - |p| && r == t[|t| - |r|..]
              && (forall i :: 0 <= i < |t| - |r| ==> t[i] in p)
              && (r == [] || r[0] !in p)
  {
    if StartsWith(t, p) then
      var r := LStrip(t, CharsOf(p));
      assert forall i :: 0 <= i < |p| ==> t[i] in CharsOf(p) by {
        forall i | 0 <= i < |p| ensures t[i] in CharsOf(p) {
          assert t[i] == p[i];
        }
      }
      r
    else t
  }

  /** The honorifics, in the order the source tests them. */
  const Honorifics: seq<string> := ["LT ", "MR ", "MS ", "MRS ", "MISS "]

  /** The text starts with none of the honorifics. */
  predicate NoHonorific(text: string) {
    forall k :: 0 <= k < |Honorifics| ==> !StartsWith(text, Honorifics[k])
  }

  /** `r` is what is left of `s` after dropping a prefix. */
  predicate IsSuffix(r: string, s: string) {
    |r| <= |s| && r == s[|s| - |r|..]
  }

  lemma SuffixTrans(a: string, b: string, c: string)
    requires IsSuffix(a, b) && IsSuffix(b, c)
    ensures IsSuffix(a, c)
  {
    assert c[|c| - |b|..][|b| - |a|..] == c[|c| - |a|..];
  }

  /** The five checks of the source, run one after the other on the text
      each previous check left. */
  function StripHonorifics(text: string): (r: string)
    ensures IsSuffix(r, text)
  {
    var t1 := StripHonorific(text, "LT ");
    var t2 := StripHonorific(t1, "MR ");
    var t3 := StripHonorific(t2, "MS ");
    var t4 := StripHonorific(t3, "MRS ");
    var t5 := StripHonorific(t4, "MISS ");
    SuffixTrans(t2, t1, text);
    SuffixTrans(t3, t2, text);
    SuffixTrans(t4, t3, text);
    SuffixTrans(t5, t4, text);
    t5
  }

  /** The checks of a list of prefixes, one after the other. */
  function StripEach(t: string, ps: seq<string>): (r: string)
    ensures IsSuffix(r, t)
  {
    if ps == [] then t
    else
      var r := StripEach(StripHonorific(t, ps[0]), ps[1..]);
      SuffixTrans(r, StripHonorific(t, ps[0]), t);
      r
  }

  /** One check of the list, from position k on. */
  lemma StripEachAt(t: string, ps: seq<string>, k: nat)
    requires k < |ps|
    ensures StripEach(t, ps[k..]) == StripEach(StripHonorific(t, ps[k]), ps[k + 1..])
  {
    assert ps[k..][1..] == ps[k + 1..];
  }

  /** The five checks are those of `Honorifics`, in its order. */
  lemma StripHonorificsInOrder(text: string)
    ensures StripHonorifics(text) == StripEach(text, Honorifics)
  {
    var h := Honorifics;
    assert h[0] == "LT " && h[1] == "MR " && h[2] == "MS " && h[3] == "MRS " && h[4] == "MISS ";
    assert h[0..] == h && h[5..] == [];
    var t1 := StripHonorific(text, h[0]);
    var t2 := StripHonorific(t1, h[1]);
    var t3 := StripHonorific(t2, h[2]);
    var t4 := StripHonorific(t3, h[3]);
    var t5 := StripHonorific(t4, h[4]);
    StripEachAt(text, h, 0);
    StripEachAt(t1, h, 1);
    StripEachAt(t2, h, 2);
    StripEachAt(t3, h, 3);
    StripEachAt(t4, h, 4);
    assert StripEach(t5, h[5..]) == t5;
  }

  /** Text that starts with none of the honorifics passes unchanged. */
  lemma NoHonorificUnchanged(text: string)
    requires NoHonorific(text)
    ensures StripHonorifics(text) == text
  {
    assert !StartsWith(text, Honorifics[0]);
    assert !StartsWith(text, Honorifics[1]);
    assert !StartsWith(text, Honorifics[2]);
    assert !StartsWith(text, Honorifics[3]);
    assert !StartsWith(text, Honorifics[4]);
  }

  // ---------------------------------------------------------------------
  // `text.count(' ')`, `text.split(' ')` and `' '.join(...)`.

  /** `s.count(' ')`. */
  function CountSpaces(s: string): (n: nat)
    ensures n <= |s|
  {
    if s == [] then 0 else (if s[0] == ' ' then 1 else 0) + CountSpaces(s[1..])
  }

  /** No space is counted exactly when the text holds none. */
  lemma {:induction false} CountSpacesZero(s: string)
    ensures CountSpaces(s) == 0 <==> ' ' !in s
  {
    if s != [] {
      CountSpacesZero(s[1..]);
      assert s == [s[0]] + s[1..];
    }
  }

  lemma {:induction false} CountSpacesAppend(a: string, b: string)
    ensures CountSpaces(a + b) == CountSpaces(a) + CountSpaces(b)
  {
    if a == [] {
      assert a + b == b;
    } else {
      assert (a + b)[1..] == a[1..] + b;
      CountSpacesAppend(a[1..], b);
    }
  }

  /** `' '.join(tokens)`: joining space-free tokens puts exactly one space
      between each two of them. */
  function JoinSpaces(tokens: seq<string>): (s: string)
    requires |tokens| >= 1
    ensures (forall i :: 0 <= i < |tokens| ==> ' ' !in tokens[i]) ==> CountSpaces(s) == |tokens| - 1
  {
    if |tokens| == 1 then
      CountSpacesZero(tokens[0]);
      tokens[0]
    else
      var rest := JoinSpaces(tokens[1..]);
      CountSpacesAppend(tokens[0] + " ", rest);
      CountSpacesAppend(tokens[0], " ");
      CountSpacesZero(tokens[0]);
      assert (forall i :: 0 <= i < |tokens| ==> ' ' !in tokens[i]) ==>
               forall i :: 0 <= i < |tokens[1..]| ==> ' ' !in tokens[1..][i];
      tokens[0] + " " + rest
  }

  /** `s.split(' ')`: every single space separates two tokens, so adjacent
      spaces give an empty token and there is always one more token than spaces. */
  function SplitSpaces(s: string): (tokens: seq<string>)
    ensures |tokens| == CountSpaces(s) + 1
    ensures forall i :: 0 <= i < |tokens| ==> ' ' !in tokens[i]
    ensures JoinSpaces(tokens) == s
  {
    if s == [] then [[]]
    else
      var rest := SplitSpaces(s[1..]);
      assert s == [s[0]] + s[1..];
      if s[0] == ' ' then
        assert JoinSpaces([[]] + rest) == [] + " " + JoinSpaces(rest);
        [[]] + rest
      else
        var tokens := [[s[0]] + rest[0]] + rest[1..];
        assert |rest| > 1 ==> JoinSpaces(rest) == rest[0] + " " + JoinSpaces(rest[1..]);
        assert |rest| > 1 ==> tokens[1..] == rest[1..];
        tokens
  }

  /** One step of the join. */
  lemma JoinCons(tokens: seq<string>)
    requires |tokens| >= 2
    ensures JoinSpaces(tokens) == tokens[0] + (" " + JoinSpaces(tokens[1..]))
  {
    Assoc(tokens[0], " ", JoinSpaces(tokens[1..]));
  }

  /** One step of the split: a space opens a new token, any other character
      joins the first token of the rest. */
  lemma SplitCons(s: string)
    requires s != []
    ensures s[0] == ' ' ==> SplitSpaces(s) == [[]] + SplitSpaces(s[1..])
    ensures s[0] != ' ' ==> SplitSpaces(s) == [[s[0]] + SplitSpaces(s[1..])[0]] + SplitSpaces(s[1..])[1..]
  {
  }

  lemma Assoc(a: string, b: string, c: string)
    ensures a + b + c == a + (b + c)
  {
  }

  /** Splitting undoes joining tokens that hold no space. */
  lemma {:induction false} SplitJoin(tokens: seq<string>)
    requires |tokens| >= 1
    requires forall i :: 0 <= i < |tokens| ==> ' ' !in tokens[i]
    ensures SplitSpaces(JoinSpaces(tokens)) == tokens
  {
    if |tokens| == 1 {
      SingleToken(tokens[0]);
    } else {
      var tail := JoinSpaces(tokens[1..]);
      SplitJoin(tokens[1..]);
      JoinCons(tokens);
      SplitCons(" " + tail);
      assert (" " + tail)[0] == ' ' && (" " + tail)[1..] == tail;
      SplitToken(tokens[0], " " + tail);
      GlueEmpty(tokens, SplitSpaces(" " + tail));
    }
  }

  /** Text without a space splits into itself. */
  lemma SingleToken(w: string)
    requires ' ' !in w
    ensures SplitSpaces(w) == [w]
  {
    SplitToken(w, []);
    assert w + [] == w;
  }

  lemma GlueEmpty(tokens: seq<string>, a: seq<string>)
    requires |tokens| >= 1 && a == [[]] + tokens[1..]
    ensures [tokens[0] + a[0]] + a[1..] == tokens
  {
    assert tokens[0] + a[0] == tokens[0];
    assert a[1..] == tokens[1..];
  }

  /** A leading space-free token is glued onto the first token of the rest. */
  lemma {:induction false} SplitToken(w: string, rest: string)
    requires ' ' !in w
    ensures var a := SplitSpaces(rest); var b := SplitSpaces(w + rest);
      b == [w + a[0]] + a[1..]
  {
    var a := SplitSpaces(rest);
    if w == [] {
      assert w + rest == rest;
      assert w + a[0] == a[0];
      assert a == [a[0]] + a[1..];
    } else {
      var y := w + rest;
      assert y[0] == w[0] && y[1..] == w[1..] + rest;
      SplitToken(w[1..], rest);
      SplitCons(y);
      GlueHead(w, a[0], a[1..]);
    }
  }

  lemma GlueHead(w: string, a0: string, tail: seq<string>)
    requires w != []
    ensures [[w[0]] + (w[1..] + a0)] + tail == [w + a0] + tail
  {
    assert [w[0]] + (w[1..] + a0) == w + a0 by {
      assert w == [w[0]] + w[1..];
    }
  }

  /** The first three tokens, joined, are a prefix of the whole string; more
      than three tokens continue with a space. */
  lemma JoinFirstThree(tokens: seq<string>)
    requires |tokens| >= 3
    ensures var three := tokens[0] + " " + tokens[1] + " " + tokens[2];
      && StartsWith(JoinSpaces(tokens), three)
      && (|tokens| == 3 ==> JoinSpaces(tokens) == three)
      && (|tokens| > 3 ==> |three| < |JoinSpaces(tokens)| && JoinSpaces(tokens)[|three|] == ' ')
  {
    var t1 := tokens[1..];
    var t2 := tokens[2..];
    assert t1[0] == tokens[1] && t1[1..] == t2 && t2[0] == tokens[2];
    JoinCons(tokens);
    JoinCons(t1);
    var d: string := if |tokens| == 3 then [] else " " + JoinSpaces(t2[1..]);
    if |tokens| == 3 {
      assert JoinSpaces(t2) == tokens[2] + d;
    } else {
      JoinCons(t2);
    }
    ThreeParts(tokens[0], tokens[1], tokens[2], d, JoinSpaces(tokens));
  }

  /** `a b c` followed by `d` starts with `a b c`, and continues with `d`. */
  lemma ThreeParts(a: string, b: string, c: string, d: string, j: string)
    requires j == a + (" " + (b + (" " + (c + d))))
    ensures var three := a + " " + b + " " + c;
      && StartsWith(j, three)
      && (d == [] ==> j == three)
      && (d != [] ==> |three| < |j| && j[|three|] == d[0])
  {
    var three := a + " " + b + " " + c;
    assert j == three + d;
    assert (three + d)[..|three|] == three;
  }

  // ---------------------------------------------------------------------
  // The extractor.

  /** `(first, last, first_last, full)`; `first` and `full` are always strings,
      `last` and `first_last` may be `None`. */
  datatype NameVariants = NameVariants(first: string, last: Option<string>, firstLast: Option<string>, full: string)

  function ExtractNames(text: string): (v: NameVariants)
    ensures ' ' !in v.first && (v.last.Some? ==> ' ' !in v.last.value)
    ensures v.last.Some? <==> v.firstLast.Some?
    ensures v.last.Some? <==> CountSpaces(StripHonorifics(text)) >= 1
  {
    var t := StripHonorifics(text);
    var n := CountSpaces(t);
    if n == 0 then
      assert SplitSpaces(t) == [t];
      NameVariants(t, None, None, t)
    else
      var ws := SplitSpaces(t);
      if n == 1 then NameVariants(ws[0], Some(ws[1]), Some(t), t)
      else NameVariants(ws[0], Some(ws[2]), Some(ws[0] + " " + ws[2]), ws[0] + " " + ws[1] + " " + ws[2])
  }

  /** No space after stripping: the whole text is both the first and the full
      name, and there is no last name. */
  lemma ExtractNamesOneToken(text: string)
    requires CountSpaces(StripHonorifics(text)) == 0
    ensures var v := ExtractNames(text); var t := StripHonorifics(text);
      v.first == t && v.full == t && v.last == None && v.firstLast == None
  {
  }

  /** One space: first and last rejoin to the text, which is also first+last
      and the full name. */
  lemma ExtractNamesTwoTokens(text: string)
    requires CountSpaces(StripHonorifics(text)) == 1
    ensures var v := ExtractNames(text); var t := StripHonorifics(text);
      && v.last.Some? && v.first + " " + v.last.value == t
      && v.firstLast == Some(t) && v.full == t
  {
    var ws := SplitSpaces(StripHonorifics(text));
    assert JoinSpaces(ws[1..]) == ws[1];
  }

  /** More than one space: first+last skips the middle token, and the full
      name is the text up to its third space (the whole text when there are
      exactly two spaces), rebuilt from the first three tokens. */
  lemma ExtractNamesManyTokens(text: string)
    requires CountSpaces(StripHonorifics(text)) > 1
    ensures var v := ExtractNames(text); var t := StripHonorifics(text);
      && v.last.Some? && v.firstLast == Some(v.first + " " + v.last.value)
      && (exists middle :: ' ' !in middle && v.full == v.first + " " + middle + " " + v.last.value)
      && StartsWith(t, v.full)
      && (CountSpaces(t) == 2 ==> v.full == t)
      && (CountSpaces(t) > 2 ==> |v.full| < |t| && t[|v.full|] == ' ')
  {
    var t := StripHonorifics(text);
    var ws := SplitSpaces(t);
    JoinFirstThree(ws);
    var v := ExtractNames(text);
    assert v.full == v.first + " " + ws[1] + " " + v.last.value;
  }

  /** The variants in terms of the space-separated tokens of the stripped
      text: one token is first and full name; two give first and last; three
      or more give first, third, first+third and the first three rejoined. */
  lemma ExtractNamesFromTokens(text: string, ws: seq<string>)
    requires |ws| >= 1 && forall i :: 0 <= i < |ws| ==> ' ' !in ws[i]
    requires StripHonorifics(text) == JoinSpaces(ws)
    ensures ExtractNames(text) ==
      if |ws| == 1 then NameVariants(ws[0], None, None, ws[0])
      else if |ws| == 2 then NameVariants(ws[0], Some(ws[1]), Some(ws[0] + " " + ws[1]), ws[0] + " " + ws[1])
      else NameVariants(ws[0], Some(ws[2]), Some(ws[0] + " " + ws[2]), ws[0] + " " + ws[1] + " " + ws[2])
  {
    SplitJoin(ws);
    if |ws| == 2 {
      assert JoinSpaces(ws) == ws[0] + " " + ws[1] by { assert JoinSpaces(ws[1..]) == ws[1]; }
    }
  }

  // ---------------------------------------------------------------------
  // Worked cases.

  /** A text whose first letter is neither L nor M, or that starts with MA,
      has no honorific. */
  lemma NoHonorificByFirstLetters(text: string)
    requires text != []
    requires (text[0] != 'L' && text[0] != 'M') || (|text| > 1 && text[..2] == "MA")
    ensures NoHonorific(text)
  {
    forall k | 0 <= k < |Honorifics| ensures !StartsWith(text, Honorifics[k]) {
      var p := Honorifics[k];
      assert p[0] == 'L' || (p[0] == 'M' && p[1] != 'A');
    }
  }

  /** `lstrip` removes a leading run of set characters up to the first
      character outside the set. */
  lemma {:induction false} LStripSkips(p: string, rest: string, chars: set<char>)
    requires forall i :: 0 <= i < |p| ==> p[i] in chars
    requires rest == [] || rest[0] !in chars
    ensures LStrip(p + rest, chars) == rest
  {
    if p == [] {
      assert p + rest == rest;
    } else {
      assert (p + rest)[1..] == p[1..] + rest;
      LStripSkips(p[1..], rest, chars);
    }
  }

  lemma CharsOfMr()
    ensures CharsOf("MR ") == {'M', 'R', ' '}
  {
    assert forall c :: c in "MR " <==> c == 'M' || c == 'R' || c == ' ';
  }

  /** The "MR " check removes the whole leading run of M, R and space. */
  lemma StripMrRun(lead: string, rest: string)
    requires |lead| >= 3 && lead[..3] == "MR "
    requires forall i :: 0 <= i < |lead| ==> lead[i] in {'M', 'R', ' '}
    requires rest == [] || rest[0] !in {'M', 'R', ' '}
    ensures StripHonorific(lead + rest, "MR ") == rest
  {
    assert (lead + rest)[..3] == lead[..3];
    CharsOfMr();
    LStripSkips(lead, rest, {'M', 'R', ' '});
  }

  /** The checks after "MR " all look for a leading M. */
  lemma LaterChecksNeedM(t: string)
    requires t == [] || t[0] != 'M'
    ensures StripHonorific(StripHonorific(StripHonorific(t, "MS "), "MRS "), "MISS ") == t
  {
    if t != [] {
      assert !StartsWith(t, "MS ") by { assert "MS "[0] == 'M'; }
      assert !StartsWith(t, "MRS ") by { assert "MRS "[0] == 'M'; }
      assert !StartsWith(t, "MISS ") by { assert "MISS "[0] == 'M'; }
    }
  }

  /** After "MR ", `lstrip` goes on removing every M, R and space up to the
      first other character ("MR MARK" becomes "ARK", while with an empty run
      "MR JOHN SMITH" becomes "JOHN SMITH"); the later checks leave the
      remainder alone. */
  lemma MrStripsRun(run: string, rest: string)
    requires forall i :: 0 <= i < |run| ==> run[i] in {'M', 'R', ' '}
    requires rest == [] || rest[0] !in {'M', 'R', ' '}
    ensures StripHonorifics("MR " + run + rest) == rest
  {
    var lead := "MR " + run;
    var text := lead + rest;
    assert "MR " + run + rest == text;
    assert text[0] == 'M';
    assert !StartsWith(text, "LT ") by { assert "LT "[0] == 'L'; }
    assert forall i :: 0 <= i < |lead| ==> lead[i] in {'M', 'R', ' '} by {
      forall i | 0 <= i < |lead| ensures lead[i] in {'M', 'R', ' '} {
        if i >= 3 { assert lead[i] == run[i - 3]; }
      }
    }
    assert lead[..3] == "MR ";
    StripMrRun(lead, rest);
    LaterChecksNeedM(rest);
  }

  /** A one-word name after "MR " loses its leading M's and R's as well
      ("MR MARK" yields the single name "ARK"). */
  lemma MrEatsLeadingLetters(run: string, name: string)
    requires forall i :: 0 <= i < |run| ==> run[i] in {'M', 'R'}
    requires name != [] && name[0] !in {'M', 'R', ' '} && ' ' !in name
    ensures ExtractNames("MR " + run + name) == NameVariants(name, None, None, name)
  {
    MrStripsRun(run, name);
    ExtractNamesFromTokens("MR " + run + name, [name]);
  }

  lemma FourParts(a: string, b: string, c: string, d: string)
    ensures a + (" " + (b + (" " + (c + (" " + d))))) == a + " " + b + " " + c + " " + d
  {
  }

  /** Tokens after the third are dropped from the full name ("A B C D"
      gives the full name "A B C"), while first+last takes the third token
      as the last name. */
  lemma FullKeepsThreeTokens(a: string, b: string, c: string, d: string)
    requires ' ' !in a && ' ' !in b && ' ' !in c && ' ' !in d
    requires NoHonorific(a + " " + b + " " + c + " " + d)
    ensures ExtractNames(a + " " + b + " " + c + " " + d)
         == NameVariants(a, Some(c), Some(a + " " + c), a + " " + b + " " + c)
  {
    var ws := [a, b, c, d];
    var text := a + " " + b + " " + c + " " + d;
    assert JoinSpaces(ws) == text by {
      assert ws[1..] == [b, c, d] && ws[1..][1..] == [c, d] && [c, d][1..] == [d];
      JoinCons(ws);
      JoinCons([b, c, d]);
      JoinCons([c, d]);
      FourParts(a, b, c, d);
    }
    NoHonorificUnchanged(text);
    ExtractNamesFromTokens(text, ws);
  }
}
