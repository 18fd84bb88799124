/**
 * ASCII text primitives with the meaning of the Python string operations the
 * scanners are built from: `lower()`, `strip()`, `lstrip()`, `in`,
 * `startswith`, `endswith`, `split('\n')`, `split()`, `isdigit()` and `int()`.
 * Case folding, white space and digits are those of ASCII.
 */
module Text {

  datatype Option<T> = None | Some(value: T)

  /** `c.isspace()` for ASCII: space, \t \n \v \f \r and the separators 0x1C-0x1F. */
  predicate IsSpace(c: char) {
    c == ' ' || ('\t' <= c <= '\r') || ('\U{1C}' <= c <= '\U{1F}')
  }

  predicate IsDigit(c: char) {
    '0' <= c <= '9'
  }

  function LowerChar(c: char): (d: char)
    ensures 'A' <= c <= 'Z' ==> d as int == c as int + 32
    ensures !('A' <= c <= 'Z') ==> d == c
  {
    if 'A' <= c <= 'Z' then (c as int + 32) as char else c
  }

  /** `s.lower()` */
  function Lower(s: string): (r: string)
    ensures |r| == |s|
  {
    seq(|s|, i requires 0 <= i < |s| => LowerChar(s[i]))
  }

  /** `s.startswith(p)` */
  predicate StartsWith(s: string, p: string) {
    |p| <= |s| && s[..|p|] == p
  }

  /** `s.endswith(p)` */
  predicate EndsWith(s: string, p: string) {
    |p| <= |s| && s[|s| - |p|..] == p
  }

  /** `p in s`: p occurs in s as a contiguous piece (the empty string occurs everywhere). */
  predicate Contains(s: string, p: string)
    decreases |s|
  {
    StartsWith(s, p) || (|s| > 0 && Contains(s[1..], p))
  }

  /** `any(k in s for k in keys)` */
  predicate ContainsAny(s: string, keys: seq<string>) {
    exists k <- keys :: Contains(s, k)
  }

  /** `s.lstrip()`: the white space at the front is removed, and nothing else. */
  function LStrip(s: string): (r: string)
    ensures |r| <= |s| && r == s[|s| - |r|..]
    ensures r == [] || !IsSpace(r[0])
    decreases |s|
  {
    if |s| > 0 && IsSpace(s[0]) then LStrip(s[1..]) else s
  }

  /** `s.rstrip()`: the white space at the end is removed, and nothing else. */
  function RStrip(s: string): (r: string)
    ensures |r| <= |s| && r == s[..|r|]
    ensures r == [] || !IsSpace(r[|r| - 1])
    decreases |s|
  {
    if |s| > 0 && IsSpace(s[|s| - 1]) then RStrip(s[..|s| - 1]) else s
  }

  /** `s.strip()` */
  function Strip(s: string): string {
    RStrip(LStrip(s))
  }

  /** `s[:n]` */
  function Take<T>(s: seq<T>, n: nat): (r: seq<T>)
    ensures |r| == (if |s| <= n then |s| else n)
    ensures r == s[..|r|]
  {
    if |s| <= n then s else s[..n]
  }

  /** `s.split('\n')`: the pieces between newlines; "" gives [""], a final newline gives a final "". */
  function SplitLines(s: string): (lines: seq<string>)
    ensures |lines| >= 1
    ensures forall l <- lines :: '\n' !in l
    decreases |s|
  {
    if |s| == 0 then [""]
    else
      var rest := SplitLines(s[1..]);
      if s[0] == '\n' then [""] + rest
      else [[s[0]] + rest[0]] + rest[1..]
  }

  /** `'\n'.join(lines)` */
  function JoinLines(lines: seq<string>): string
    requires |lines| >= 1
  {
    if |lines| == 1 then lines[0] else lines[0] + "\n" + JoinLines(lines[1..])
  }

  /** The run of non-white-space characters at the start of `s`. */
  function TakeWord(s: string): (w: string)
    ensures |w| <= |s| && w == s[..|w|]
    ensures |s| > 0 && !IsSpace(s[0]) ==> |w| >= 1
    decreases |s|
  {
    if |s| == 0 || IsSpace(s[0]) then "" else [s[0]] + TakeWord(s[1..])
  }

  /** The characters `lstrip` removes are exactly a run of white space. */
  lemma {:induction false} LStripRemovesSpace(s: string)
    ensures forall k :: 0 <= k < |s| - |LStrip(s)| ==> IsSpace(s[k])
    decreases |s|
  {
    if |s| > 0 && IsSpace(s[0]) {
      LStripRemovesSpace(s[1..]);
    }
  }

  lemma LStripKeeps(s: string)
    requires s == [] || !IsSpace(s[0])
    ensures LStrip(s) == s
  {
  }

  lemma RStripKeeps(s: string)
    requires s == [] || !IsSpace(s[|s| - 1])
    ensures RStrip(s) == s
  {
  }

  /** Stripping twice strips nothing more. */
  lemma StripIdempotent(s: string)
    ensures Strip(Strip(s)) == Strip(s)
  {
    var t := LStrip(s);
    var r := RStrip(t);
    if r != [] {
      assert r[0] == t[0];
    }
    LStripKeeps(r);
    RStripKeeps(r);
  }


  /** A word followed by white space (or nothing) is what `TakeWord` takes. */
  lemma {:induction false} TakeWordOf(w: string, t: string)
    requires forall c <- w :: !IsSpace(c)
    requires t == [] || IsSpace(t[0])
    ensures TakeWord(w + t) == w
    decreases |w|
  {
    if |w| > 0 {
      assert w[0] in w;
      assert forall c <- w[1..] :: c in w;
      assert (w + t)[1..] == w[1..] + t;
      TakeWordOf(w[1..], t);
      assert w == [w[0]] + w[1..];
    } else {
      assert w + t == t;
    }
  }

  /** `s.split()`: the maximal runs of non-white-space characters, in order. */
  function Words(s: string): (ws: seq<string>)
    ensures forall w <- ws :: |w| > 0
    decreases |s|
  {
    if |s| == 0 then []
    else if IsSpace(s[0]) then Words(s[1..])
    else
      var w := TakeWord(s);
      [w] + Words(s[|w|..])
  }


  predicate AllDigits(s: string) {
    forall i :: 0 <= i < |s| ==> IsDigit(s[i])
  }

  /** `s.isdigit()` for ASCII digits: non-empty and digits only. */
  predicate IsDigits(s: string) {
    |s| > 0 && AllDigits(s)
  }

  /** `any(c.isdigit() for c in s)` */
  predicate HasDigit(s: string) {
    exists c <- s :: IsDigit(c)
  }

  /** `int(s)` for a string of decimal digits. */
  function DigitsValue(s: string): nat
    requires AllDigits(s)
    decreases |s|
  {
    if |s| == 0 then 0
    else 10 * DigitsValue(s[..|s| - 1]) + (s[|s| - 1] as int - '0' as int)
  }

  // ---------------------------------------------------------------------
  // Lemmas

  /** Splitting on newlines and joining with newlines gives back the text. */
  lemma {:induction false} JoinSplit(s: string)
    ensures JoinLines(SplitLines(s)) == s
    decreases |s|
  {
    if |s| > 0 {
      var rest := SplitLines(s[1..]);
      JoinSplit(s[1..]);
      if s[0] == '\n' {
        assert SplitLines(s) == [""] + rest;
        assert ([""] + rest)[1..] == rest;
        assert s == "" + "\n" + s[1..];
      } else {
        assert SplitLines(s) == [[s[0]] + rest[0]] + rest[1..];
        if |rest| == 1 {
          assert s == [s[0]] + rest[0];
        } else {
          assert ([[s[0]] + rest[0]] + rest[1..])[1..] == rest[1..];
          assert JoinLines(rest) == rest[0] + "\n" + JoinLines(rest[1..]);
          assert s == [s[0]] + s[1..];
        }
      }
    }
  }

  lemma {:induction false} SplitNoNewline(w: string, t: string)
    requires '\n' !in w
    ensures SplitLines(w + t) == [w + SplitLines(t)[0]] + SplitLines(t)[1..]
    decreases |w|
  {
    if |w| > 0 {
      SplitNoNewline(w[1..], t);
      assert (w + t)[1..] == w[1..] + t;
      assert (w + t)[0] == w[0];
      assert [w[0]] + (w[1..] + SplitLines(t)[0]) == w + SplitLines(t)[0];
    } else {
      assert w + t == t;
      assert w + SplitLines(t)[0] == SplitLines(t)[0];
      assert SplitLines(t) == [SplitLines(t)[0]] + SplitLines(t)[1..];
    }
  }

  lemma SplitAfterNewline(t: string)
    ensures SplitLines("\n" + t) == [""] + SplitLines(t)
  {
    assert ("\n" + t)[1..] == t;
  }

  /** Joining newline-free lines and splitting again gives back the lines. */
  lemma {:induction false} SplitJoin(lines: seq<string>)
    requires |lines| >= 1
    requires forall l <- lines :: '\n' !in l
    ensures SplitLines(JoinLines(lines)) == lines
    decreases |lines|
  {
    if |lines| == 1 {
      SplitNoNewline(lines[0], "");
      assert lines[0] + "" == lines[0];
    } else {
      var head, t := lines[0], JoinLines(lines[1..]);
      SplitJoin(lines[1..]);
      SplitAfterNewline(t);
      SplitNoNewline(head, "\n" + t);
      assert head + "\n" + t == head + ("\n" + t);
      assert ([""] + lines[1..])[1..] == lines[1..];
      assert head + "" == head;
      assert [head] + lines[1..] == lines;
    }
  }


  lemma {:induction false} FirstLineIsPrefix(s: string)
    ensures StartsWith(s, SplitLines(s)[0])
    decreases |s|
  {
    if |s| > 0 && s[0] != '\n' {
      FirstLineIsPrefix(s[1..]);
    }
  }

  lemma {:induction false} PrefixOfFirstLine(s: string, p: string)
    requires StartsWith(s, p) && '\n' !in p
    ensures StartsWith(SplitLines(s)[0], p)
    decreases |s|
  {
    if |p| > 0 {
      assert s[0] == p[0];
      assert StartsWith(s[1..], p[1..]);
      PrefixOfFirstLine(s[1..], p[1..]);
      assert p == [p[0]] + p[1..];
    }
  }

  lemma {:induction false} StartsWithContains(s: string, t: string, p: string)
    requires StartsWith(s, t) && Contains(t, p)
    ensures Contains(s, p)
    decreases |t|
  {
    if StartsWith(t, p) {
      assert s[..|p|] == t[..|t|][..|p|];
    } else {
      assert StartsWith(s[1..], t[1..]);
      StartsWithContains(s[1..], t[1..], p);
    }
  }

  /** A piece that starts at position i of s occurs in s. */
  lemma {:induction false} ContainsAt(s: string, i: nat, p: string)
    requires i <= |s| && StartsWith(s[i..], p)
    ensures Contains(s, p)
    decreases i
  {
    if i > 0 {
      assert s[1..][i - 1..] == s[i..];
      ContainsAt(s[1..], i - 1, p);
    }
  }

  /** Occurrence is transitive: a piece of a piece of s is a piece of s. */
  lemma {:induction false} ContainsTransitive(s: string, t: string, p: string)
    requires Contains(s, t) && Contains(t, p)
    ensures Contains(s, p)
    decreases |s|
  {
    if StartsWith(s, t) {
      StartsWithContains(s, t, p);
    } else {
      ContainsTransitive(s[1..], t, p);
    }
  }

  /** A newline-free piece of a text lies within one of its lines. */
  lemma {:induction false} ContainsSomeLine(s: string, p: string)
    requires Contains(s, p) && '\n' !in p
    ensures exists i :: 0 <= i < |SplitLines(s)| && Contains(SplitLines(s)[i], p)
    decreases |s|
  {
    var lines := SplitLines(s);
    if StartsWith(s, p) {
      PrefixOfFirstLine(s, p);
      assert Contains(lines[0], p);
    } else {
      ContainsSomeLine(s[1..], p);
      var rest := SplitLines(s[1..]);
      var i :| 0 <= i < |rest| && Contains(rest[i], p);
      if s[0] == '\n' {
        assert lines[i + 1] == rest[i];
      } else if i == 0 {
        assert ([s[0]] + rest[0])[1..] == rest[0];
        assert Contains(lines[0], p);
      } else {
        assert lines[i] == rest[i];
      }
    }
  }

  /** Whatever occurs in a line of a text occurs in the text. */
  lemma {:induction false} LineContainsInText(s: string, i: nat, p: string)
    requires i < |SplitLines(s)| && Contains(SplitLines(s)[i], p)
    ensures Contains(s, p)
    decreases |s|
  {
    var lines := SplitLines(s);
    if i == 0 {
      FirstLineIsPrefix(s);
      StartsWithContains(s, lines[0], p);
    } else {
      var rest := SplitLines(s[1..]);
      if s[0] == '\n' {
        assert lines[i] == rest[i - 1];
        LineContainsInText(s[1..], i - 1, p);
      } else {
        assert lines[i] == rest[i];
        LineContainsInText(s[1..], i, p);
      }
    }
  }

  /** Text without capital letters is its own lower-case form. */
  lemma NoCapitalsLower(s: string)
    requires forall c <- s :: !('A' <= c <= 'Z')
    ensures Lower(s) == s
  {
    forall i | 0 <= i < |s| ensures Lower(s)[i] == s[i] {
      assert s[i] in s;
    }
  }

  lemma LowerCons(s: string)
    requires |s| > 0
    ensures Lower(s) == [LowerChar(s[0])] + Lower(s[1..])
  {
  }

  /** Some piece of `s` is `w` in some mix of upper and lower case. */
  ghost predicate HasAnyCase(s: string, w: string) {
    exists t :: Lower(t) == w && Contains(s, t)
  }

  /** Searching the lower-cased text finds exactly the pieces that lower-case to what is searched for. */
  lemma HasAnyCaseIff(s: string, w: string)
    ensures HasAnyCase(s, w) <==> Contains(Lower(s), w)
  {
    if HasAnyCase(s, w) {
      var t :| Lower(t) == w && Contains(s, t);
      LowerContains(s, t);
    }
    if Contains(Lower(s), w) {
      LowerPiece(s, w);
    }
  }

  /** A piece of the lower-cased text is the lower-cased form of a piece of the text. */
  lemma {:induction false} LowerPiece(s: string, w: string)
    requires Contains(Lower(s), w)
    ensures exists t :: Lower(t) == w && Contains(s, t)
    decreases |s|
  {
    if StartsWith(Lower(s), w) {
      var t := s[..|w|];
      assert Lower(t) == w by {
        forall i | 0 <= i < |w| ensures Lower(t)[i] == w[i] {
          assert Lower(s)[..|w|][i] == w[i];
        }
      }
      assert StartsWith(s, t);
    } else {
      assert Lower(s)[1..] == Lower(s[1..]);
      LowerPiece(s[1..], w);
      var t :| Lower(t) == w && Contains(s[1..], t);
      assert Contains(s, t);
    }
  }

  /** An occurrence survives lower-casing both sides: matching on lower-cased text ignores case. */
  lemma {:induction false} LowerContains(s: string, p: string)
    requires Contains(s, p)
    ensures Contains(Lower(s), Lower(p))
    decreases |s|
  {
    if StartsWith(s, p) {
      assert Lower(s)[..|p|] == Lower(p) by {
        forall i | 0 <= i < |p| ensures Lower(s)[..|p|][i] == Lower(p)[i] {
          assert s[i] == p[i];
        }
      }
    } else {
      LowerContains(s[1..], p);
      assert Lower(s)[1..] == Lower(s[1..]);
    }
  }

  /** Lower-casing does not move newlines, so it commutes with splitting into lines. */
  lemma {:induction false} SplitLower(s: string)
    ensures |SplitLines(Lower(s))| == |SplitLines(s)|
    ensures forall i :: 0 <= i < |SplitLines(s)| ==> SplitLines(Lower(s))[i] == Lower(SplitLines(s)[i])
    decreases |s|
  {
    if |s| > 0 {
      var rest := SplitLines(s[1..]);
      var lowRest := SplitLines(Lower(s[1..]));
      SplitLower(s[1..]);
      LowerCons(s);
      var low := Lower(s);
      assert low[0] == LowerChar(s[0]) && low[1..] == Lower(s[1..]);
      if s[0] == '\n' {
        SplitNewlineHead(s, low, rest, lowRest);
      } else {
        SplitCharHead(s, low, rest, lowRest);
      }
    }
  }

  /** The step of `SplitLower` for a string that starts with a line break. */
  lemma SplitNewlineHead(s: string, low: string, rest: seq<string>, lowRest: seq<string>)
    requires |s| > 0 && s[0] == '\n' && low == Lower(s)
    requires rest == SplitLines(s[1..]) && lowRest == SplitLines(low[1..])
    requires |lowRest| == |rest| && forall i :: 0 <= i < |rest| ==> lowRest[i] == Lower(rest[i])
    ensures |SplitLines(low)| == |SplitLines(s)|
    ensures forall i :: 0 <= i < |SplitLines(s)| ==> SplitLines(low)[i] == Lower(SplitLines(s)[i])
  {
    assert low[0] == '\n';
    assert SplitLines(s) == [""] + rest;
    assert SplitLines(low) == [""] + lowRest;
  }

  /** The step of `SplitLower` for a string that starts with any other character. */
  lemma SplitCharHead(s: string, low: string, rest: seq<string>, lowRest: seq<string>)
    requires |s| > 0 && s[0] != '\n' && low == Lower(s)
    requires rest == SplitLines(s[1..]) && lowRest == SplitLines(low[1..])
    requires |lowRest| == |rest| && forall i :: 0 <= i < |rest| ==> lowRest[i] == Lower(rest[i])
    ensures |SplitLines(low)| == |SplitLines(s)|
    ensures forall i :: 0 <= i < |SplitLines(s)| ==> SplitLines(low)[i] == Lower(SplitLines(s)[i])
  {
    var first := [s[0]] + rest[0];
    assert low[0] == LowerChar(s[0]) != '\n';
    assert SplitLines(s) == [first] + rest[1..];
    assert SplitLines(low) == [[low[0]] + lowRest[0]] + lowRest[1..];
    LowerCons(first);
    assert first[1..] == rest[0];
  }

  lemma NewlineFreeLower(p: string)
    requires '\n' !in p
    ensures '\n' !in Lower(p)
  {
    forall i | 0 <= i < |p| ensures Lower(p)[i] != '\n' {
      assert p[i] in p;
    }
  }

  /** A string of digits has value 0 exactly when every digit is '0'. */
  lemma {:induction false} ValueZeroIff(s: string)
    requires AllDigits(s)
    ensures DigitsValue(s) == 0 <==> forall i :: 0 <= i < |s| ==> s[i] == '0'
    decreases |s|
  {
    if |s| > 0 {
      ValueZeroIff(s[..|s| - 1]);
    }
  }

  lemma InSuffix(s: string, a: nat, c: char)
    requires a <= |s| && c in s[a..]
    ensures c in s
  {
    var k :| 0 <= k < |s[a..]| && s[a..][k] == c;
    assert s[a + k] == c;
  }

  /** Every character of a word of `s` is a character of `s`. */
  lemma {:induction false} WordCharsInText(s: string, w: string, c: char)
    requires w in Words(s) && c in w
    ensures c in s
    decreases |s|
  {
    if IsSpace(s[0]) {
      WordCharsInText(s[1..], w, c);
      InSuffix(s, 1, c);
    } else {
      var v := TakeWord(s);
      if w == v {
        var k :| 0 <= k < |v| && v[k] == c;
        assert s[k] == c;
      } else {
        assert w in Words(s[|v|..]);
        WordCharsInText(s[|v|..], w, c);
        InSuffix(s, |v|, c);
      }
    }
  }


}
