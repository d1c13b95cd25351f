/** What the file-name derivation guarantees: which characters a cleaned name is
    made of, where its hyphens can be, which letters it keeps, when it falls back
    to the default, that only the first line matters, and that cleaning twice is
    not the same as cleaning once. */
module FileNameLemmas {
  import opened FileNames

  // ---------------------------------------------------------------- Filter

  lemma {:induction false} FilterAppend(a: string, b: string, p: char -> bool)
    ensures Filter(a + b, p) == Filter(a, p) + Filter(b, p)
  {
    if a == [] {
      assert a + b == b;
    } else {
      assert (a + b)[0] == a[0] && (a + b)[1..] == a[1..] + b;
      FilterAppend(a[1..], b, p);
    }
  }

  /** Filtering keeps everything exactly when every character passes. */
  lemma {:induction false} FilterAll(s: string, p: char -> bool)
    requires forall i :: 0 <= i < |s| ==> p(s[i])
    ensures Filter(s, p) == s
  {
    if s != [] {
      FilterAll(s[1..], p);
    }
  }

  /** Filtering leaves nothing exactly when no character passes. */
  lemma {:induction false} FilterEmptyIff(s: string, p: char -> bool)
    ensures Filter(s, p) == [] <==> forall i :: 0 <= i < |s| ==> !p(s[i])
  {
    if s != [] {
      FilterEmptyIff(s[1..], p);
      assert forall i :: 1 <= i < |s| ==> s[i] == s[1..][i - 1];
    }
  }

  /** Whatever holds of every character of `s` holds of every character kept. */
  lemma {:induction false} FilterPreserves(s: string, p: char -> bool, q: char -> bool)
    requires forall i :: 0 <= i < |s| ==> q(s[i])
    ensures forall i :: 0 <= i < |Filter(s, p)| ==> q(Filter(s, p)[i])
  {
    if s != [] {
      FilterPreserves(s[1..], p, q);
    }
  }

  /** Two tests that agree on every character of `s` filter it alike. */
  lemma {:induction false} FilterAgree(s: string, p: char -> bool, q: char -> bool)
    requires forall i :: 0 <= i < |s| ==> p(s[i]) == q(s[i])
    ensures Filter(s, p) == Filter(s, q)
  {
    if s != [] {
      FilterAgree(s[1..], p, q);
    }
  }

  /** The first replace works character by character: it distributes over concatenation ... */
  lemma StripSymbolsAppend(a: string, b: string)
    ensures StripSymbols(a + b) == StripSymbols(a) + StripSymbols(b)
  {
    FilterAppend(a, b, Kept);
  }

  /** ... and keeps a character, in place, exactly when it is a word character or whitespace. */
  lemma StripSymbolsChar(c: char)
    ensures StripSymbols([c]) == if IsWordChar(c) || IsSpace(c) then [c] else []
  {
    assert [c][1..] == [];
  }

  /** Dropping whitespace after stripping symbols leaves the word characters. */
  lemma {:induction false} StripThenDropSpaces(s: string)
    ensures Filter(Filter(s, Kept), NotSpace) == Filter(s, IsWordChar)
  {
    if s != [] {
      var head := if Kept(s[0]) then [s[0]] else [];
      FilterAppend(head, Filter(s[1..], Kept), NotSpace);
      StripThenDropSpaces(s[1..]);
    }
  }

  // ---------------------------------------------------------------- trimming

  /** Whitespace around `b` does not change its non-whitespace characters. */
  lemma SpacesAround(a: string, b: string, c: string)
    requires forall i :: 0 <= i < |a| ==> IsSpace(a[i])
    requires forall i :: 0 <= i < |c| ==> IsSpace(c[i])
    ensures Filter(a + b + c, NotSpace) == Filter(b, NotSpace)
  {
    FilterAppend(a + b, c, NotSpace);
    FilterAppend(a, b, NotSpace);
    FilterEmptyIff(a, NotSpace);
    FilterEmptyIff(c, NotSpace);
  }

  /** Leading whitespace in front of a string that does not start with whitespace is what TrimStart removes. */
  lemma {:induction false} TrimStartSpaces(a: string, y: string)
    requires forall i :: 0 <= i < |a| ==> IsSpace(a[i])
    requires y == [] || !IsSpace(y[0])
    ensures TrimStart(a + y) == y
  {
    if a == [] {
      assert a + y == y;
    } else {
      assert (a + y)[1..] == a[1..] + y;
      TrimStartSpaces(a[1..], y);
    }
  }

  /** Trailing whitespace behind a string that does not end with whitespace is what TrimEnd removes. */
  lemma {:induction false} TrimEndSpaces(y: string, c: string)
    requires forall i :: 0 <= i < |c| ==> IsSpace(c[i])
    requires y == [] || !IsSpace(y[|y| - 1])
    ensures TrimEnd(y + c) == y
  {
    if c == [] {
      assert y + c == y;
    } else {
      assert (y + c)[..|y + c| - 1] == y + c[..|c| - 1];
      TrimEndSpaces(y, c[..|c| - 1]);
    }
  }

  /** `.trim()` is determined by its result: whatever is framed by whitespace and
      neither starts nor ends with whitespace is the trim. */
  lemma TrimUnique(a: string, r: string, c: string)
    requires forall i :: 0 <= i < |a| ==> IsSpace(a[i])
    requires forall i :: 0 <= i < |c| ==> IsSpace(c[i])
    requires r == [] || (!IsSpace(r[0]) && !IsSpace(r[|r| - 1]))
    ensures Trim(a + r + c) == r
  {
    if r == [] {
      assert a + r + c == (a + c) + [];
      TrimStartSpaces(a + c, []);
    } else {
      assert a + r + c == a + (r + c);
      TrimStartSpaces(a, r + c);
      TrimEndSpaces(r, c);
    }
  }

  lemma TrimStartSplit(x: string) returns (a: string)
    ensures x == a + TrimStart(x)
    ensures forall i :: 0 <= i < |a| ==> IsSpace(a[i])
  {
    a := x[..|x| - |TrimStart(x)|];
  }

  lemma TrimEndSplit(x: string) returns (c: string)
    ensures x == TrimEnd(x) + c
    ensures forall i :: 0 <= i < |c| ==> IsSpace(c[i])
  {
    c := x[|TrimEnd(x)|..];
  }

  /** Every string is its trim framed by the whitespace that trimming removed. */
  lemma TrimSplit(x: string) returns (a: string, c: string)
    ensures x == a + Trim(x) + c
    ensures forall i :: 0 <= i < |a| ==> IsSpace(a[i])
    ensures forall i :: 0 <= i < |c| ==> IsSpace(c[i])
  {
    a := TrimStartSplit(x);
    c := TrimEndSplit(TrimStart(x));
    Concat3(x, a, TrimStart(x), Trim(x), c);
  }

  lemma Concat3(x: string, a: string, t: string, r: string, c: string)
    requires x == a + t && t == r + c
    ensures x == a + r + c
  {
  }

  /** Trimming only removes whitespace, so the non-whitespace characters stay. */
  lemma TrimKeepsNonSpace(s: string)
    ensures Filter(Trim(s), NotSpace) == Filter(s, NotSpace)
  {
    var a, c := TrimSplit(s);
    SpacesAround(a, Trim(s), c);
  }

  lemma AllSpaceAppend(a: string, b: string)
    requires forall i :: 0 <= i < |a| ==> IsSpace(a[i])
    requires forall i :: 0 <= i < |b| ==> IsSpace(b[i])
    ensures forall i :: 0 <= i < |a + b| ==> IsSpace((a + b)[i])
  {
  }

  lemma Regroup(a: string, a': string, r: string, c': string, c: string)
    ensures a + (a' + r + c') + c == (a + a') + r + (c' + c)
  {
  }

  /** A string that neither starts nor ends with whitespace is its own trim. */
  lemma TrimNonSpaceEnds(s: string)
    requires s != [] && !IsSpace(s[0]) && !IsSpace(s[|s| - 1])
    ensures Trim(s) == s
  {
    TrimUnique([], s, []);
    assert [] + s + [] == s;
  }

  /** Whitespace around a string does not change its trim. */
  lemma TrimSpacesAround(a: string, x: string, c: string)
    requires forall i :: 0 <= i < |a| ==> IsSpace(a[i])
    requires forall i :: 0 <= i < |c| ==> IsSpace(c[i])
    ensures Trim(a + x + c) == Trim(x)
  {
    var a', c' := TrimSplit(x);
    var r := Trim(x);
    Regroup(a, a', r, c', c);
    AllSpaceAppend(a, a');
    AllSpaceAppend(c', c);
    TrimUnique(a + a', r, c' + c);
  }

  /** A string without whitespace is its own trim. */
  lemma TrimNoSpace(s: string)
    requires forall i :: 0 <= i < |s| ==> !IsSpace(s[i])
    ensures Trim(s) == s
  {
    assert TrimStart(s) == s;
  }

  lemma TrimKept(s: string)
    requires forall i :: 0 <= i < |s| ==> Kept(s[i])
    ensures forall i :: 0 <= i < |Trim(s)| ==> Kept(Trim(s)[i])
  {
    var a, c := TrimSplit(s);
    var r := Trim(s);
    forall i | 0 <= i < |r| ensures Kept(r[i]) {
      assert r[i] == s[|a| + i];
    }
  }

  /** The output of the first replace holds no hyphen, and trimming adds none. */
  lemma TrimNoHyphen(s: string)
    requires forall i :: 0 <= i < |s| ==> Kept(s[i])
    ensures forall i :: 0 <= i < |Trim(s)| ==> Trim(s)[i] != '-'
  {
    TrimKept(s);
  }

  // ---------------------------------------------------------------- hyphenation

  /** Hyphenation gives nothing exactly when it is given nothing, and starts
      with a hyphen exactly when its input starts with whitespace. */
  lemma HyphenateStart(s: string)
    requires forall i :: 0 <= i < |s| ==> s[i] != '-'
    ensures HyphenateSpaces(s) == [] <==> s == []
    ensures s != [] ==> (HyphenateSpaces(s)[0] == '-' <==> IsSpace(s[0]))
  {
  }

  /** Hyphenation ends with a hyphen exactly when its input ends with whitespace. */
  lemma {:induction false} HyphenateEnd(s: string)
    requires forall i :: 0 <= i < |s| ==> s[i] != '-'
    requires s != []
    ensures HyphenateSpaces(s) != []
    ensures HyphenateSpaces(s)[|HyphenateSpaces(s)| - 1] == '-' <==> IsSpace(s[|s| - 1])
    decreases |s|
  {
    var h := HyphenateSpaces(s);
    if IsSpace(s[0]) {
      var t := TrimStart(s);
      if t != [] {
        assert forall i :: 0 <= i < |t| ==> t[i] == s[|s| - |t| + i];
        HyphenateEnd(t);
        assert h[|h| - 1] == HyphenateSpaces(t)[|HyphenateSpaces(t)| - 1];
      }
    } else if |s| > 1 {
      HyphenateEnd(s[1..]);
      assert h[|h| - 1] == HyphenateSpaces(s[1..])[|HyphenateSpaces(s[1..])| - 1];
    }
  }

  /** On the output of the first replace, hyphenation yields word characters and hyphens only. */
  lemma {:induction false} HyphenateAlphabet(s: string)
    requires forall i :: 0 <= i < |s| ==> Kept(s[i])
    ensures forall i :: 0 <= i < |HyphenateSpaces(s)| ==>
      IsWordChar(HyphenateSpaces(s)[i]) || HyphenateSpaces(s)[i] == '-'
    decreases |s|
  {
    if s == [] {
    } else if IsSpace(s[0]) {
      var t := TrimStart(s);
      assert forall i :: 0 <= i < |t| ==> t[i] == s[|s| - |t| + i];
      HyphenateAlphabet(t);
    } else {
      HyphenateAlphabet(s[1..]);
    }
  }

  /** Hyphenation leaves no whitespace. */
  lemma {:induction false} HyphenateRemovesSpace(s: string)
    ensures forall i :: 0 <= i < |HyphenateSpaces(s)| ==> !IsSpace(HyphenateSpaces(s)[i])
    decreases |s|
  {
    if s == [] {
    } else if IsSpace(s[0]) {
      HyphenateRemovesSpace(TrimStart(s));
    } else {
      HyphenateRemovesSpace(s[1..]);
    }
  }

  /** Hyphenation never puts two hyphens in a row, given no hyphen to start with. */
  lemma {:induction false} HyphenateNoDoubles(s: string)
    requires forall i :: 0 <= i < |s| ==> s[i] != '-'
    ensures var h := HyphenateSpaces(s);
      forall i, j :: 0 <= i && j == i + 1 < |h| && h[i] == '-' ==> h[j] != '-'
    decreases |s|
  {
    if s == [] {
    } else if IsSpace(s[0]) {
      var t := TrimStart(s);
      assert forall i :: 0 <= i < |t| ==> t[i] == s[|s| - |t| + i];
      HyphenateNoDoubles(t);
      HyphenateStart(t);
      var h := HyphenateSpaces(t);
      assert HyphenateSpaces(s) == ['-'] + h;
    } else {
      HyphenateNoDoubles(s[1..]);
      assert HyphenateSpaces(s) == [s[0]] + HyphenateSpaces(s[1..]);
    }
  }

  /** Dropping the hyphens of a hyphenated string gives back its non-whitespace characters. */
  lemma {:induction false} HyphenateLetters(s: string)
    requires forall i :: 0 <= i < |s| ==> s[i] != '-'
    ensures Filter(HyphenateSpaces(s), NotHyphen) == Filter(s, NotSpace)
    decreases |s|
  {
    if s != [] {
      var h := HyphenateSpaces(s);
      if IsSpace(s[0]) {
        var t := TrimStart(s);
        var k := |s| - |t|;
        assert s == s[..k] + t;
        FilterAppend(s[..k], t, NotSpace);
        FilterEmptyIff(s[..k], NotSpace);
        HyphenateLetters(t);
        assert h == ['-'] + HyphenateSpaces(t);
        FilterAppend(['-'], HyphenateSpaces(t), NotHyphen);
      } else {
        HyphenateLetters(s[1..]);
        assert h == [s[0]] + HyphenateSpaces(s[1..]);
        FilterAppend([s[0]], HyphenateSpaces(s[1..]), NotHyphen);
      }
    }
  }

  /** A prefix without whitespace passes through hyphenation unchanged. */
  lemma {:induction false} HyphenatePrefix(a: string, b: string)
    requires forall i :: 0 <= i < |a| ==> !IsSpace(a[i])
    ensures HyphenateSpaces(a + b) == a + HyphenateSpaces(b)
  {
    if a != [] {
      assert (a + b)[1..] == a[1..] + b;
      HyphenatePrefix(a[1..], b);
    } else {
      assert a + b == b;
    }
  }

  /** A whitespace run after a whitespace-free prefix, ended by a non-whitespace
      character or the end of the string, becomes exactly one hyphen. */
  lemma HyphenateRun(a: string, w: string, b: string)
    requires forall i :: 0 <= i < |a| ==> !IsSpace(a[i])
    requires w != [] && forall i :: 0 <= i < |w| ==> IsSpace(w[i])
    requires b == [] || !IsSpace(b[0])
    ensures HyphenateSpaces(a + w + b) == a + "-" + HyphenateSpaces(b)
  {
    Reassociate(a, w, b);
    HyphenatePrefix(a, w + b);
    HyphenateSpaceRun(w, b);
    Splice(HyphenateSpaces(a + w + b), a, HyphenateSpaces(w + b), HyphenateSpaces(b));
  }

  lemma HyphenateSpaceRun(w: string, b: string)
    requires w != [] && forall i :: 0 <= i < |w| ==> IsSpace(w[i])
    requires b == [] || !IsSpace(b[0])
    ensures HyphenateSpaces(w + b) == "-" + HyphenateSpaces(b)
  {
    TrimStartSpaces(w, b);
    assert (w + b)[0] == w[0];
  }

  lemma Reassociate(a: string, w: string, b: string)
    ensures a + w + b == a + (w + b)
  {
  }

  lemma Splice(h: string, a: string, hw: string, hb: string)
    requires h == a + hw && hw == "-" + hb
    ensures h == a + "-" + hb
  {
  }

  /** A string without whitespace is left alone by hyphenation. */
  lemma {:induction false} HyphenateNoSpace(s: string)
    requires forall i :: 0 <= i < |s| ==> !IsSpace(s[i])
    ensures HyphenateSpaces(s) == s
  {
    if s != [] {
      HyphenateNoSpace(s[1..]);
    }
  }

  // ---------------------------------------------------------------- lower-casing

  lemma ToLowerAppend(a: string, b: string)
    ensures ToLower(a + b) == ToLower(a) + ToLower(b)
  {
  }

  lemma {:induction false} ToLowerFilterHyphens(s: string)
    ensures Filter(ToLower(s), NotHyphen) == ToLower(Filter(s, NotHyphen))
  {
    if s != [] {
      ToLowerFilterHyphens(s[1..]);
      LowerThenFilter(s);
      FilterThenLower(s);
    }
  }

  /** Lower-casing and then dropping hyphens, split at the first character. */
  lemma LowerThenFilter(s: string)
    requires s != []
    ensures Filter(ToLower(s), NotHyphen)
      == (if NotHyphen(s[0]) then [LowerChar(s[0])] else []) + Filter(ToLower(s[1..]), NotHyphen)
  {
    assert s == [s[0]] + s[1..];
    ToLowerAppend([s[0]], s[1..]);
    FilterAppend(ToLower([s[0]]), ToLower(s[1..]), NotHyphen);
  }

  /** Dropping hyphens and then lower-casing, split at the first character. */
  lemma FilterThenLower(s: string)
    requires s != []
    ensures ToLower(Filter(s, NotHyphen))
      == (if NotHyphen(s[0]) then [LowerChar(s[0])] else []) + ToLower(Filter(s[1..], NotHyphen))
  {
    var head := if NotHyphen(s[0]) then [s[0]] else [];
    var rest := Filter(s[1..], NotHyphen);
    assert Filter(s, NotHyphen) == head + rest;
    ToLowerAppend(head, rest);
    assert ToLower(head) == if NotHyphen(s[0]) then [LowerChar(s[0])] else [];
  }

  // ---------------------------------------------------------------- the cleaned name

  /** A cleaned name is made of lower-case ASCII letters, digits, `_` and `-`. */
  lemma CleanNameAlphabet(line: string)
    ensures forall i :: 0 <= i < |CleanName(line)| ==> IsNameChar(CleanName(line)[i])
  {
    var t := Trim(StripSymbols(line));
    TrimKept(StripSymbols(line));
    HyphenateAlphabet(t);
  }

  /** Hyphenating the trimmed output of the first replace gives a well-hyphenated
      string whenever it gives anything. */
  lemma HyphenateTrimmed(s: string)
    requires forall i :: 0 <= i < |s| ==> Kept(s[i])
    ensures var h := HyphenateSpaces(Trim(s)); h != [] ==> WellHyphenated(h)
  {
    TrimNoHyphen(s);
    HyphenateWellShaped(Trim(s));
  }

  lemma HyphenateWellShaped(t: string)
    requires forall i :: 0 <= i < |t| ==> t[i] != '-'
    requires t != [] ==> !IsSpace(t[0]) && !IsSpace(t[|t| - 1])
    ensures var h := HyphenateSpaces(t); h != [] ==> WellHyphenated(h)
  {
    HyphenateNoDoubles(t);
    if t != [] {
      HyphenateStart(t);
      HyphenateEnd(t);
    }
  }

  lemma ToLowerWellHyphenated(h: string)
    requires WellHyphenated(h)
    ensures WellHyphenated(ToLower(h))
  {
  }

  /** A non-empty cleaned name neither starts nor ends with a hyphen and never has two in a row. */
  lemma CleanNameHyphens(line: string)
    ensures CleanName(line) != [] ==> WellHyphenated(CleanName(line))
  {
    var h := HyphenateSpaces(Trim(StripSymbols(line)));
    HyphenateTrimmed(StripSymbols(line));
    if h != [] {
      ToLowerWellHyphenated(h);
    }
  }

  /** Hyphenating the trimmed output of the first replace keeps its non-whitespace
      characters, in order, between the hyphens. */
  lemma HyphenateTrimmedLetters(s: string)
    requires forall i :: 0 <= i < |s| ==> Kept(s[i])
    ensures Filter(HyphenateSpaces(Trim(s)), NotHyphen) == Filter(s, NotSpace)
  {
    TrimNoHyphen(s);
    HyphenateLetters(Trim(s));
    TrimKeepsNonSpace(s);
  }

  /** The non-hyphen characters of a cleaned name are exactly the word characters
      of the line, lower-cased and in their original order. */
  lemma CleanNameLetters(line: string)
    ensures Filter(CleanName(line), NotHyphen) == ToLower(Filter(line, IsWordChar))
  {
    var s := StripSymbols(line);
    var h := HyphenateSpaces(Trim(s));
    HyphenateTrimmedLetters(s);
    StripThenDropSpaces(line);
    ToLowerFilterHyphens(h);
  }

  /** The cleaned name is empty exactly when the line has no word character. */
  lemma CleanNameEmpty(line: string)
    ensures CleanName(line) == [] <==> !HasWordChar(line)
  {
    var r := CleanName(line);
    CleanNameLetters(line);
    FilterEmptyIff(line, IsWordChar);
    FilterEmptyIff(r, NotHyphen);
    if r != [] && Filter(r, NotHyphen) == [] {
      assert !NotHyphen(r[0]);
      CleanNameHyphens(line);
    }
  }

  lemma NameChar(c: char)
    requires IsNameChar(c)
    ensures !IsSpace(c) && Kept(c) == NotHyphen(c) && LowerChar(c) == c
  {
  }

  /** Cleaning a cleaned name again deletes its hyphens and changes nothing else:
      the cleaning is not idempotent. */
  lemma CleanNameTwice(line: string)
    ensures CleanName(CleanName(line)) == Filter(CleanName(line), NotHyphen)
  {
    var r := CleanName(line);
    CleanNameAlphabet(line);
    forall i | 0 <= i < |r| ensures Kept(r[i]) == NotHyphen(r[i]) {
      NameChar(r[i]);
    }
    FilterAgree(r, Kept, NotHyphen);
    var t := Filter(r, NotHyphen);
    FilterPreserves(r, NotHyphen, IsNameChar);
    forall i | 0 <= i < |t| ensures !IsSpace(t[i]) && LowerChar(t[i]) == t[i] {
      NameChar(t[i]);
    }
    TrimNoSpace(t);
    HyphenateNoSpace(t);
    assert ToLower(t) == t;
  }

  /** Symbols and whitespace that the first replace reduces to whitespace. */
  lemma StripNoWords(s: string)
    requires forall i :: 0 <= i < |s| ==> !IsWordChar(s[i])
    ensures forall i :: 0 <= i < |StripSymbols(s)| ==> IsSpace(StripSymbols(s)[i])
  {
    FilterPreserves(s, Kept, NotWordChar);
  }

  lemma StripFramed(pre: string, line: string, post: string)
    requires forall i :: 0 <= i < |pre| ==> !IsWordChar(pre[i])
    requires forall i :: 0 <= i < |post| ==> !IsWordChar(post[i])
    ensures StripSymbols(pre + line + post) == StripSymbols(pre) + StripSymbols(line) + StripSymbols(post)
  {
    FilterAppend(pre + line, post, Kept);
    FilterAppend(pre, line, Kept);
  }

  /** Text without word characters around a line (punctuation, decoration,
      whitespace) does not change its cleaned name. */
  lemma CleanNameFramed(pre: string, line: string, post: string)
    requires forall i :: 0 <= i < |pre| ==> !IsWordChar(pre[i])
    requires forall i :: 0 <= i < |post| ==> !IsWordChar(post[i])
    ensures CleanName(pre + line + post) == CleanName(line)
  {
    StripFramed(pre, line, post);
    StripNoWords(pre);
    StripNoWords(post);
    TrimSpacesAround(StripSymbols(pre), StripSymbols(line), StripSymbols(post));
  }

  lemma StripTrimWords(a: string, b: string)
    requires a != [] && forall i :: 0 <= i < |a| ==> IsWordChar(a[i])
    requires b != [] && forall i :: 0 <= i < |b| ==> IsWordChar(b[i])
    ensures Trim(StripSymbols(a + " " + b)) == a + " " + b
  {
    var s := a + " " + b;
    assert StripSymbols(s) == s by {
      FilterAll(s, Kept);
    }
    assert s[0] == a[0] && s[|s| - 1] == b[|b| - 1];
    TrimNonSpaceEnds(s);
  }

  lemma WordsHaveNoSpace(a: string)
    requires forall i :: 0 <= i < |a| ==> IsWordChar(a[i])
    ensures forall i :: 0 <= i < |a| ==> !IsSpace(a[i])
  {
  }

  lemma HyphenateSpaceWord(b: string)
    requires b != [] && forall i :: 0 <= i < |b| ==> !IsSpace(b[i])
    ensures HyphenateSpaces(" " + b) == "-" + b
  {
    var s := " " + b;
    assert s[1..] == b;
    assert TrimStart(s) == b;
    HyphenateNoSpace(b);
  }

  lemma HyphenateWords(a: string, b: string)
    requires forall i :: 0 <= i < |a| ==> IsWordChar(a[i])
    requires b != [] && forall i :: 0 <= i < |b| ==> IsWordChar(b[i])
    ensures HyphenateSpaces(a + " " + b) == a + "-" + b
  {
    WordsHaveNoSpace(a);
    WordsHaveNoSpace(b);
    HyphenateSpaceWord(b);
    HyphenatePrefix(a, " " + b);
    HyphenateRegroup(a, b);
  }

  lemma HyphenateRegroup(a: string, b: string)
    requires HyphenateSpaces(a + (" " + b)) == a + HyphenateSpaces(" " + b)
    requires HyphenateSpaces(" " + b) == "-" + b
    ensures HyphenateSpaces(a + " " + b) == a + "-" + b
  {
    assert a + " " + b == a + (" " + b);
  }

  lemma ToLowerJoin(a: string, b: string)
    ensures ToLower(a + "-" + b) == ToLower(a) + "-" + ToLower(b)
  {
  }

  /** Two words separated by one space clean to the two words, lower-cased, joined by a hyphen. */
  lemma CleanNameTwoWords(a: string, b: string)
    requires a != [] && forall i :: 0 <= i < |a| ==> IsWordChar(a[i])
    requires b != [] && forall i :: 0 <= i < |b| ==> IsWordChar(b[i])
    ensures CleanName(a + " " + b) == ToLower(a) + "-" + ToLower(b)
  {
    StripTrimWords(a, b);
    HyphenateWords(a, b);
    ToLowerJoin(a, b);
  }

  /** Cleaning two words twice runs them together: the hyphen of the first pass
      is itself stripped by the second. */
  lemma CleanNameTwiceTwoWords(a: string, b: string)
    requires a != [] && forall i :: 0 <= i < |a| ==> IsWordChar(a[i])
    requires b != [] && forall i :: 0 <= i < |b| ==> IsWordChar(b[i])
    ensures CleanName(CleanName(a + " " + b)) == ToLower(a) + ToLower(b)
  {
    CleanNameTwoWords(a, b);
    CleanNameTwice(a + " " + b);
    ToLowerWordNoHyphen(a);
    ToLowerWordNoHyphen(b);
    FilterDropsJoin(ToLower(a), ToLower(b));
  }

  lemma ToLowerWordNoHyphen(a: string)
    requires forall i :: 0 <= i < |a| ==> IsWordChar(a[i])
    ensures forall i :: 0 <= i < |ToLower(a)| ==> NotHyphen(ToLower(a)[i])
  {
  }

  lemma FilterDropsJoin(a: string, b: string)
    requires forall i :: 0 <= i < |a| ==> NotHyphen(a[i])
    requires forall i :: 0 <= i < |b| ==> NotHyphen(b[i])
    ensures Filter(a + "-" + b, NotHyphen) == a + b
  {
    FilterAppend(a, "-", NotHyphen);
    FilterAll(a, NotHyphen);
    assert Filter("-", NotHyphen) == [];
    assert Filter(a + "-", NotHyphen) == a;
    FilterAppend(a + "-", b, NotHyphen);
    FilterAll(b, NotHyphen);
  }

  // The concrete examples below keep every literal in a small lemma of its own:
  // the cleaning functions applied to known strings are otherwise unfolded at length.

  /** Lower-casing the example words; the literals are pinned by `requires` so
      that the verifier unfolds `ToLower` on them here and nowhere else. */
  lemma ToLowerWord(w: string, lw: string)
    requires || (w == "My" && lw == "my") || (w == "Flow" && lw == "flow")
             || (w == "graph" && lw == "graph") || (w == "TD" && lw == "td")
    ensures ToLower(w) == lw
  {
  }

  /** Concatenations of the example literals, kept apart for the same reason. */
  lemma JoinThree(a: string, b: string, c: string, abc: string)
    requires || (a == "my" && b == "-" && c == "flow" && abc == "my-flow")
             || (a == "graph" && b == "-" && c == "td" && abc == "graph-td")
             || (a == "my-flow" && b == "." && c == "png" && abc == "my-flow.png")
             || (a == "graph-td" && b == "." && c == "svg" && abc == "graph-td.svg")
    ensures a + b + c == abc
  {
  }

  lemma CleanNameOfWords(a: string, b: string, la: string, lb: string, name: string)
    requires || (a == "My" && b == "Flow" && la == "my" && lb == "flow" && name == "my-flow")
             || (a == "graph" && b == "TD" && la == "graph" && lb == "td" && name == "graph-td")
    ensures CleanName(a + " " + b) == name
  {
    CleanNameTwoWords(a, b);
    ToLowerWord(a, la);
    ToLowerWord(b, lb);
    JoinThree(ToLower(a), "-", ToLower(b), name);
  }

  /** A second pass of the cleaning can change a cleaned name: `graph TD`
      cleans to `graph-td` (FileNameExampleFlowchart), and cleaning it once more
      gives `graphtd`. */
  lemma CleanNameExampleTwice(g: string, t: string)
    requires g == "graph" && t == "TD"
    ensures CleanName(CleanName(g + " " + t)) == "graphtd"
  {
    ToLowerWord(g, "graph");
    ToLowerWord(t, "td");
    CleanNameTwiceOfWords(g, t, "graph", "td");
    JoinTwo("graph", "td", "graphtd");
  }

  /** One more concatenation of example literals, kept apart for the same reason. */
  lemma JoinTwo(a: string, b: string, ab: string)
    requires a == "graph" && b == "td" && ab == "graphtd"
    ensures a + b == ab
  {
  }

  lemma CleanNameTwiceOfWords(a: string, b: string, la: string, lb: string)
    requires a != [] && forall i :: 0 <= i < |a| ==> IsWordChar(a[i])
    requires b != [] && forall i :: 0 <= i < |b| ==> IsWordChar(b[i])
    requires ToLower(a) == la && ToLower(b) == lb
    ensures CleanName(CleanName(a + " " + b)) == la + lb
  {
    CleanNameTwiceTwoWords(a, b);
  }

  // ---------------------------------------------------------------- the file name

  lemma {:induction false} FirstLineAppend(line: string, rest: string)
    requires '\n' !in line
    ensures FirstLine(line + "\n" + rest) == line
  {
    if line != [] {
      assert (line + "\n" + rest)[1..] == line[1..] + "\n" + rest;
      FirstLineAppend(line[1..], rest);
    }
  }

  /** Only the text before the first line feed decides the file name. */
  lemma FileNameFirstLineOnly(line: string, rest: string, ext: string)
    requires '\n' !in line
    ensures FileName(line + "\n" + rest, ext) == FileName(line, ext)
  {
    FirstLineAppend(line, rest);
    assert FirstLine(line) == line;
  }

  /** The file name is a base, a dot and the extension. The base is
      `mermaid-diagram` when the first line has no word character, and otherwise
      the cleaned first line, which is then well formed. */
  lemma FileNameShape(code: string, ext: string)
    ensures var line := FirstLine(code);
      FileName(code, ext) == (if HasWordChar(line) then CleanName(line) else DefaultBase) + "." + ext
    ensures var line := FirstLine(code);
      HasWordChar(line) ==>
        && WellHyphenated(CleanName(line))
        && forall i :: 0 <= i < |CleanName(line)| ==> IsNameChar(CleanName(line)[i])
  {
    var line := FirstLine(code);
    CleanNameEmpty(line);
    CleanNameHyphens(line);
    CleanNameAlphabet(line);
  }

  /** A one-line title with a word character names the file after its cleaned form. */
  lemma FileNameOfTitle(title: string, ext: string)
    requires '\n' !in title && HasWordChar(title)
    ensures FileName(title, ext) == CleanName(title) + "." + ext
  {
    assert FirstLine(title) == title;
    CleanNameEmpty(title);
  }

  /** A title on the first line names the file, whatever follows it. */
  lemma FileNameOfFirstLine(title: string, rest: string, ext: string)
    requires '\n' !in title && HasWordChar(title)
    ensures FileName(title + "\n" + rest, ext) == CleanName(title) + "." + ext
  {
    FileNameFirstLineOnly(title, rest, ext);
    FileNameOfTitle(title, ext);
  }

  /** Decoration on a one-line source (symbols and whitespace, no word character)
      does not reach the file name. */
  lemma FileNameFramed(pre: string, title: string, post: string, ext: string)
    requires forall i :: 0 <= i < |pre| ==> !IsWordChar(pre[i]) && pre[i] != '\n'
    requires forall i :: 0 <= i < |post| ==> !IsWordChar(post[i]) && post[i] != '\n'
    requires '\n' !in title && HasWordChar(title)
    ensures FileName(pre + title + post, ext) == CleanName(title) + "." + ext
  {
    var code := pre + title + post;
    var k :| 0 <= k < |title| && IsWordChar(title[k]);
    assert IsWordChar(code[|pre| + k]);
    assert '\n' !in code by {
      forall i | 0 <= i < |code| ensures code[i] != '\n' {
        if i < |pre| { assert code[i] == pre[i]; }
        else if i < |pre| + |title| { assert code[i] == title[i - |pre|]; }
        else { assert code[i] == post[i - |pre| - |title|]; }
      }
    }
    FileNameOfTitle(code, ext);
    CleanNameFramed(pre, title, post);
  }

  /** The decoration of the `my-flow.png` example has no word character and no
      line feed; a lemma of its own keeps these literals out of the example. */
  lemma Decoration(s: string)
    requires s == "  ## " || s == "! ##  "
    ensures forall i :: 0 <= i < |s| ==> !IsWordChar(s[i]) && s[i] != '\n'
  {
  }

  /** A flowchart whose first line is `graph TD` is saved as `graph-td.svg`. */
  lemma FileNameExampleFlowchart(g: string, t: string, rest: string, ext: string)
    requires g == "graph" && t == "TD" && ext == "svg"
    ensures FileName(g + " " + t + "\n" + rest, ext) == "graph-td.svg"
  {
    var title := g + " " + t;
    assert title + "\n" + rest == g + " " + t + "\n" + rest;
    assert '\n' !in title;
    assert IsWordChar(title[0]);
    FileNameOfFirstLine(title, rest, ext);
    CleanNameOfWords(g, t, "graph", "td", "graph-td");
    JoinThree(CleanName(title), ".", ext, "graph-td.svg");
  }

  /** `  ## My Flow! ##  ` is saved as `my-flow.png`. */
  lemma FileNameExampleDecorated(pre: string, m: string, f: string, post: string, ext: string)
    requires pre == "  ## " && m == "My" && f == "Flow" && post == "! ##  " && ext == "png"
    ensures FileName(pre + m + " " + f + post, ext) == "my-flow.png"
  {
    var title := m + " " + f;
    assert pre + title + post == pre + m + " " + f + post;
    Decoration(pre);
    Decoration(post);
    assert '\n' !in title;
    assert IsWordChar(title[0]);
    FileNameFramed(pre, title, post, ext);
    CleanNameOfWords(m, f, "my", "flow", "my-flow");
    JoinThree(CleanName(title), ".", ext, "my-flow.png");
  }

  /** An empty source gets the default name. */
  lemma FileNameExampleEmpty(code: string)
    requires code == ""
    ensures FileName(code, "jpeg") == "mermaid-diagram.jpeg"
  {
  }
}
