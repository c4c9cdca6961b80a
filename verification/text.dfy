/** ASCII string helpers standing in for JavaScript's `trim`, `toLowerCase`,
    `includes` and `replace(/\s+/g, " ")`. Whitespace and case folding are restricted
    to ASCII. */
module Text {

  /** JavaScript's `\s` and `trim` restricted to ASCII: tab, line feed, vertical tab,
      form feed, carriage return and space. */
  predicate IsSpace(c: char)
  {
    c == ' ' || ('\t' <= c <= '\r')
  }

  predicate AllSpace(s: string)
  {
    forall i :: 0 <= i < |s| ==> IsSpace(s[i])
  }

  /** The UTF-16 code units a character takes: two for one above U+FFFF (a surrogate
      pair), one otherwise. */
  function CodeUnits(c: char): nat
  {
    if c as int > 0xFFFF then 2 else 1
  }

  /** JavaScript's `length`: the number of UTF-16 code units of the string. */
  function Utf16Length(s: string): (n: nat)
    ensures |s| <= n <= 2 * |s|
    ensures n == 0 <==> s == []
  {
    if s == [] then 0 else CodeUnits(s[0]) + Utf16Length(s[1..])
  }

  /** No whitespace at either end. */
  predicate IsTrimmed(s: string)
  {
    s == [] || (!IsSpace(s[0]) && !IsSpace(s[|s| - 1]))
  }

  /** Every whitespace character is a plain space and is not followed by another
      whitespace character. */
  predicate SingleSpaced(s: string)
  {
    forall i :: 0 <= i < |s| && IsSpace(s[i]) ==> s[i] == ' ' && (i + 1 < |s| ==> !IsSpace(s[i + 1]))
  }

  /** Drops the leading whitespace run. */
  function TrimStart(s: string): (r: string)
    ensures |r| <= |s|
    ensures s != [] && IsSpace(s[0]) ==> |r| < |s|
    ensures AllSpace(s[..|s| - |r|])
    ensures r != [] ==> !IsSpace(r[0])
  {
    if s != [] && IsSpace(s[0]) then TrimStart(s[1..]) else s
  }

  /** What `TrimStart` keeps is a suffix of its input. */
  lemma {:induction false} TrimStartIsSuffix(s: string)
    ensures TrimStart(s) == s[|s| - |TrimStart(s)|..]
    decreases |s|
  {
    if s != [] && IsSpace(s[0]) {
      TrimStartIsSuffix(s[1..]);
      assert s[1..][|s[1..]| - |TrimStart(s[1..])|..] == s[|s| - |TrimStart(s)|..];
    }
  }

  /** Drops the trailing whitespace run. */
  function TrimEnd(s: string): (r: string)
    ensures |r| <= |s| && r == s[..|r|]
    ensures AllSpace(s[|r|..])
    ensures r != [] ==> !IsSpace(r[|r| - 1])
  {
    if s != [] && IsSpace(s[|s| - 1]) then TrimEnd(s[..|s| - 1]) else s
  }

  /** JavaScript's `String.prototype.trim`. */
  function Trim(s: string): (r: string)
    ensures IsTrimmed(r)
    ensures |r| <= |s|
  {
    TrimEnd(TrimStart(s))
  }

  /** Trimming removes a whitespace prefix and a whitespace suffix, nothing else. */
  lemma TrimIsInfix(s: string)
    ensures var r := Trim(s);
      exists i :: 0 <= i <= |s| - |r| && r == s[i..i + |r|] && AllSpace(s[..i]) && AllSpace(s[i + |r|..])
  {
    var t := TrimStart(s);
    var r := TrimEnd(t);
    var i := |s| - |t|;
    assert r == Trim(s);
    TrimStartIsSuffix(s);
    assert t == s[i..] && AllSpace(s[..i]);
    assert r == t[..|r|] && AllSpace(t[|r|..]);
    assert r == s[i..i + |r|];
    assert s[i + |r|..] == t[|r|..];
    assert 0 <= i <= |s| - |r| && r == s[i..i + |r|] && AllSpace(s[..i]) && AllSpace(s[i + |r|..]);
  }

  function LowerChar(c: char): char
  {
    if 'A' <= c <= 'Z' then (c as int - 'A' as int + 'a' as int) as char else c
  }

  /** JavaScript's `toLowerCase` restricted to ASCII letters. */
  function Lower(s: string): (r: string)
    ensures |r| == |s|
    ensures forall i :: 0 <= i < |s| ==> r[i] == LowerChar(s[i])
  {
    seq(|s|, i requires 0 <= i < |s| => LowerChar(s[i]))
  }

  /** `s.startsWith(p)`. */
  predicate StartsWith(s: string, p: string)
  {
    |p| <= |s| && s[..|p|] == p
  }

  /** `hay.includes(needle)`: some position of `hay` starts a copy of `needle`. */
  predicate Contains(hay: string, needle: string)
  {
    exists i | 0 <= i <= |hay| :: StartsWith(hay[i..], needle)
  }

  /** `s.replace(/\s+/g, " ")`: every maximal whitespace run becomes one space. */
  function Collapse(s: string): (r: string)
    ensures r == [] <==> s == []
    ensures s != [] ==> r[0] == if IsSpace(s[0]) then ' ' else s[0]
    decreases |s|
  {
    if s == [] then []
    else if IsSpace(s[0]) then
      var rest := TrimStart(s);
      " " + Collapse(rest)
    else [s[0]] + Collapse(s[1..])
  }

  /** The non-whitespace characters of `s`, in order. */
  function Words(s: string): string
  {
    if s == [] then [] else (if IsSpace(s[0]) then [] else [s[0]]) + Words(s[1..])
  }

  /** A string with no whitespace at either end is its own trim. */
  lemma TrimOfTrimmed(s: string)
    requires IsTrimmed(s)
    ensures Trim(s) == s
  {
  }

  lemma TrimIdempotent(s: string)
    ensures Trim(Trim(s)) == Trim(s)
  {
    TrimOfTrimmed(Trim(s));
  }

  lemma {:induction false} TrimStartSkipsSpace(a: string, x: string)
    requires AllSpace(a)
    ensures TrimStart(a + x) == TrimStart(x)
    decreases |a|
  {
    if a != [] {
      assert (a + x)[0] == a[0];
      assert (a + x)[1..] == a[1..] + x;
      assert AllSpace(a[1..]) by {
        forall i | 0 <= i < |a[1..]| ensures IsSpace(a[1..][i]) {
          assert a[1..][i] == a[i + 1];
        }
      }
      TrimStartSkipsSpace(a[1..], x);
    } else {
      assert a + x == x;
    }
  }

  lemma {:induction false} TrimEndSkipsSpace(x: string, b: string)
    requires AllSpace(b)
    ensures TrimEnd(x + b) == TrimEnd(x)
    decreases |b|
  {
    if b != [] {
      assert (x + b)[|x + b| - 1] == b[|b| - 1];
      assert (x + b)[..|x + b| - 1] == x + b[..|b| - 1];
      TrimEndSkipsSpace(x, b[..|b| - 1]);
    } else {
      assert x + b == x;
    }
  }

  lemma {:induction false} TrimStartAppend(x: string, b: string)
    requires TrimStart(x) != []
    ensures TrimStart(x + b) == TrimStart(x) + b
    decreases |x|
  {
    assert (x + b)[0] == x[0];
    if IsSpace(x[0]) {
      assert (x + b)[1..] == x[1..] + b;
      TrimStartAppend(x[1..], b);
    }
  }

  /** Whitespace around a string does not change its trim. */
  lemma TrimIgnoresPadding(a: string, s: string, b: string)
    requires AllSpace(a) && AllSpace(b)
    ensures Trim(a + s + b) == Trim(s)
  {
    assert a + s + b == a + (s + b);
    TrimStartSkipsSpace(a, s + b);
    if TrimStart(s) != [] {
      TrimStartAppend(s, b);
      TrimEndSkipsSpace(TrimStart(s), b);
    } else {
      assert AllSpace(s);
      TrimStartSkipsSpace(s, b);
      TrimStartSkipsSpace(b, []);
      assert b + [] == b;
    }
  }

  lemma {:induction false} LowerTrimStart(s: string)
    ensures Lower(TrimStart(s)) == TrimStart(Lower(s))
    decreases |s|
  {
    if s != [] {
      assert IsSpace(Lower(s)[0]) == IsSpace(s[0]);
      if IsSpace(s[0]) {
        assert Lower(s)[1..] == Lower(s[1..]);
        LowerTrimStart(s[1..]);
      }
    }
  }

  lemma {:induction false} LowerTrimEnd(s: string)
    ensures Lower(TrimEnd(s)) == TrimEnd(Lower(s))
    decreases |s|
  {
    if s != [] {
      assert IsSpace(Lower(s)[|s| - 1]) == IsSpace(s[|s| - 1]);
      if IsSpace(s[|s| - 1]) {
        assert Lower(s)[..|s| - 1] == Lower(s[..|s| - 1]);
        LowerTrimEnd(s[..|s| - 1]);
      }
    }
  }

  /** Case folding and trimming commute: folding never creates or removes whitespace. */
  lemma LowerTrimCommute(s: string)
    ensures Lower(Trim(s)) == Trim(Lower(s))
  {
    LowerTrimStart(s);
    LowerTrimEnd(TrimStart(s));
  }

  lemma LowerIdempotent(s: string)
    ensures Lower(Lower(s)) == Lower(s)
  {
  }

  /** The output of `Collapse` never holds two whitespace characters in a row, and
      each of its whitespace characters is a plain space. */
  lemma {:induction false} CollapseSingleSpaced(s: string)
    ensures SingleSpaced(Collapse(s))
    decreases |s|
  {
    if s != [] {
      if IsSpace(s[0]) {
        var rest := TrimStart(s);
        CollapseSingleSpaced(rest);
        var r := Collapse(rest);
        assert Collapse(s) == " " + r;
        assert rest != [] ==> r[0] == rest[0] && !IsSpace(r[0]);
      } else {
        CollapseSingleSpaced(s[1..]);
        assert Collapse(s) == [s[0]] + Collapse(s[1..]);
      }
    }
  }

  /** A string that does not end in whitespace does not end in whitespace after
      `Collapse`. */
  lemma {:induction false} CollapseKeepsLast(s: string)
    requires s != [] && !IsSpace(s[|s| - 1])
    ensures Collapse(s) != [] && !IsSpace(Collapse(s)[|Collapse(s)| - 1])
    decreases |s|
  {
    if IsSpace(s[0]) {
      var rest := TrimStart(s);
      TrimStartIsSuffix(s);
      assert rest == s[|s| - |rest|..];
      assert rest != [];
      CollapseKeepsLast(rest);
    } else if |s| > 1 {
      CollapseKeepsLast(s[1..]);
    }
  }

  /** `Collapse` leaves a single-spaced string unchanged. */
  lemma {:induction false} CollapseFixpoint(s: string)
    requires SingleSpaced(s)
    ensures Collapse(s) == s
    decreases |s|
  {
    if s != [] {
      SingleSpacedTail(s);
      CollapseFixpoint(s[1..]);
      if IsSpace(s[0]) {
        assert s[0] == ' ' && (s[1..] == [] || !IsSpace(s[1..][0]));
        assert TrimStart(s) == s[1..];
        assert Collapse(s) == " " + s[1..];
      } else {
        assert Collapse(s) == [s[0]] + s[1..];
      }
      assert s == [s[0]] + s[1..];
    }
  }

  /** Single spacing survives dropping the first character. */
  lemma SingleSpacedTail(s: string)
    requires s != [] && SingleSpaced(s)
    ensures SingleSpaced(s[1..])
  {
    forall i | 0 <= i < |s[1..]| && IsSpace(s[1..][i])
      ensures s[1..][i] == ' ' && (i + 1 < |s[1..]| ==> !IsSpace(s[1..][i + 1]))
    {
      assert s[1..][i] == s[i + 1];
    }
  }


  /** A whitespace run followed by a part that does not start with whitespace
      collapses to one space before that part. */
  lemma CollapseAfterRun(w: string, y: string)
    requires w != [] && AllSpace(w)
    requires y == [] || !IsSpace(y[0])
    ensures Collapse(w + y) == " " + Collapse(y)
  {
    assert (w + y)[0] == w[0];
    TrimStartSkipsSpace(w, y);
  }

  /** Leading whitespace collapses to one space whatever follows the first word. */
  lemma CollapseLeadingRun(x: string, b: string)
    requires x != [] && IsSpace(x[0]) && TrimStart(x) != []
    ensures Collapse(x + b) == " " + Collapse(TrimStart(x) + b)
  {
    assert (x + b)[0] == x[0];
    TrimStartAppend(x, b);
  }

  /** A leading non-whitespace character is kept whatever follows. */
  lemma CollapseLeadingWord(x: string, b: string)
    requires x != [] && !IsSpace(x[0])
    ensures Collapse(x + b) == [x[0]] + Collapse(x[1..] + b)
  {
    assert (x + b)[0] == x[0] && (x + b)[1..] == x[1..] + b;
  }

  lemma ConcatAssoc(a: string, b: string, c: string)
    ensures a + (b + c) == a + b + c
  {
  }

  /** One step of `CollapseAppend` past a leading whitespace run. */
  lemma CollapseAppendSpaceStep(x: string, b: string)
    requires x != [] && IsSpace(x[0]) && TrimStart(x) != []
    requires Collapse(TrimStart(x) + b) == Collapse(TrimStart(x)) + Collapse(b)
    ensures Collapse(x + b) == Collapse(x) + Collapse(b)
  {
    var rest := TrimStart(x);
    CollapseLeadingRun(x, b);
    CollapseLeadingRun(x, []);
    assert x + [] == x && rest + [] == rest;
    ConcatAssoc(" ", Collapse(rest), Collapse(b));
  }

  /** One step of `CollapseAppend` past a leading non-whitespace character. */
  lemma CollapseAppendWordStep(x: string, b: string)
    requires x != [] && !IsSpace(x[0])
    requires Collapse(x[1..] + b) == Collapse(x[1..]) + Collapse(b)
    ensures Collapse(x + b) == Collapse(x) + Collapse(b)
  {
    CollapseLeadingWord(x, b);
    CollapseLeadingWord(x, []);
    assert x + [] == x && x[1..] + [] == x[1..];
    ConcatAssoc([x[0]], Collapse(x[1..]), Collapse(b));
  }

  /** A part that does not end in whitespace collapses on its own: whatever follows
      it is collapsed separately. */
  lemma {:induction false} CollapseAppend(x: string, b: string)
    requires x == [] || !IsSpace(x[|x| - 1])
    ensures Collapse(x + b) == Collapse(x) + Collapse(b)
    decreases |x|
  {
    if x == [] {
      assert x + b == b;
    } else if IsSpace(x[0]) {
      var rest := TrimStart(x);
      TrimStartIsSuffix(x);
      assert rest == x[|x| - |rest|..] && rest != [];
      CollapseAppend(rest, b);
      CollapseAppendSpaceStep(x, b);
    } else {
      CollapseAppend(x[1..], b);
      CollapseAppendWordStep(x, b);
    }
  }

  /** `Collapse` puts one space where a whitespace run stood between two parts that do
      not touch it with whitespace of their own. */
  lemma CollapseRun(x: string, w: string, y: string)
    requires x == [] || !IsSpace(x[|x| - 1])
    requires w != [] && AllSpace(w)
    requires y == [] || !IsSpace(y[0])
    ensures Collapse(x + w + y) == Collapse(x) + " " + Collapse(y)
  {
    ConcatAssoc(x, w, y);
    CollapseAppend(x, w + y);
    CollapseAfterRun(w, y);
    ConcatAssoc(Collapse(x), " ", Collapse(y));
  }

  lemma {:induction false} WordsAppend(a: string, b: string)
    ensures Words(a + b) == Words(a) + Words(b)
    decreases |a|
  {
    if a != [] {
      assert (a + b)[0] == a[0];
      assert (a + b)[1..] == a[1..] + b;
      WordsAppend(a[1..], b);
    } else {
      assert a + b == b;
    }
  }

  lemma {:induction false} WordsOfSpace(a: string)
    requires AllSpace(a)
    ensures Words(a) == []
    decreases |a|
  {
    if a != [] {
      WordsOfSpace(a[1..]);
    }
  }

  /** `Collapse` changes whitespace only: the other characters survive in order. */
  lemma {:induction false} CollapseKeepsWords(s: string)
    ensures Words(Collapse(s)) == Words(s)
    decreases |s|
  {
    if s != [] {
      if IsSpace(s[0]) {
        var rest := TrimStart(s);
        var k := |s| - |rest|;
        TrimStartIsSuffix(s);
        assert s == s[..k] + rest;
        WordsAppend(s[..k], rest);
        WordsOfSpace(s[..k]);
        CollapseKeepsWords(rest);
        WordsAppend(" ", Collapse(rest));
      } else {
        CollapseKeepsWords(s[1..]);
        WordsAppend([s[0]], Collapse(s[1..]));
      }
    }
  }

  lemma {:induction false} TrimStartKeepsWords(s: string)
    ensures Words(TrimStart(s)) == Words(s)
    decreases |s|
  {
    if s != [] && IsSpace(s[0]) {
      TrimStartKeepsWords(s[1..]);
    }
  }

  lemma {:induction false} TrimEndKeepsWords(s: string)
    ensures Words(TrimEnd(s)) == Words(s)
    decreases |s|
  {
    if s != [] && IsSpace(s[|s| - 1]) {
      var init := s[..|s| - 1];
      assert s == init + [s[|s| - 1]];
      WordsAppend(init, [s[|s| - 1]]);
      TrimEndKeepsWords(init);
    }
  }

  /** Trimming removes whitespace only. */
  lemma TrimKeepsWords(s: string)
    ensures Words(Trim(s)) == Words(s)
  {
    TrimStartKeepsWords(s);
    TrimEndKeepsWords(TrimStart(s));
  }

  /** A string with no character above U+FFFF has as many code units as characters. */
  lemma {:induction false} Utf16LengthOfBmp(s: string)
    requires forall i :: 0 <= i < |s| ==> s[i] as int <= 0xFFFF
    ensures Utf16Length(s) == |s|
  {
    if s != [] {
      Utf16LengthOfBmp(s[1..]);
    }
  }

  /** A string of characters above U+FFFF only has two code units per character. */
  lemma {:induction false} Utf16LengthOfAstral(s: string)
    requires forall i :: 0 <= i < |s| ==> s[i] as int > 0xFFFF
    ensures Utf16Length(s) == 2 * |s|
  {
    if s != [] {
      Utf16LengthOfAstral(s[1..]);
    }
  }

  /** Code units add up over concatenation. */
  lemma {:induction false} Utf16LengthAppend(a: string, b: string)
    ensures Utf16Length(a + b) == Utf16Length(a) + Utf16Length(b)
  {
    if a != [] {
      assert (a + b)[1..] == a[1..] + b;
      Utf16LengthAppend(a[1..], b);
    } else {
      assert a + b == b;
    }
  }
}
