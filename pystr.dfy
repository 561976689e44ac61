/** The pieces of Python 2's `str` and `os.path` that the loader relies on:
    `str.strip`, `str.split`, `'%i' % n`, `str.startswith` and
    `os.path.basename`. Characters stand for the bytes of a Python 2 `str`. */
module PyStr {

  /** The characters `str.split()` and `str.strip()` treat as whitespace:
      space, tab, newline, carriage return, vertical tab and form feed. */
  const Whitespace: set<char> := {' ', '\t', '\n', '\r', '\U{B}', '\U{C}'}

  /** Every character of `s` is in `cs`. */
  predicate AllIn(s: string, cs: set<char>) {
    forall j :: 0 <= j < |s| ==> s[j] in cs
  }

  /** `s` is not empty and neither its first nor its last character is in `cs`. */
  predicate Trimmed(s: string, cs: set<char>) {
    s != [] && s[0] !in cs && s[|s| - 1] !in cs
  }

  /** Length of the longest prefix of `s` made of characters in `cs`. */
  function LeadLen(s: string, cs: set<char>): (k: nat)
    ensures k <= |s|
    ensures forall j :: 0 <= j < k ==> s[j] in cs
    ensures k < |s| ==> s[k] !in cs
  {
    if s == [] || s[0] !in cs then 0 else 1 + LeadLen(s[1..], cs)
  }

  /** Length of the longest suffix of `s` made of characters in `cs`. */
  function TrailLen(s: string, cs: set<char>): (k: nat)
    ensures k <= |s|
    ensures forall j :: |s| - k <= j < |s| ==> s[j] in cs
    ensures k < |s| ==> s[|s| - 1 - k] !in cs
  {
    if s == [] || s[|s| - 1] !in cs then 0 else 1 + TrailLen(s[..|s| - 1], cs)
  }

  /** `s.strip(cs)`: drop every leading and every trailing character in `cs`. */
  function Strip(s: string, cs: set<char>): (r: string)
    ensures |r| <= |s|
  {
    var a := LeadLen(s, cs);
    if a == |s| then [] else s[a..|s| - TrailLen(s, cs)]
  }

  /** What `strip` leaves: nothing exactly when every character is in `cs`;
      otherwise a piece of `s` that neither starts nor ends with a character
      in `cs`, everything around it being in `cs`. */
  lemma StripSpec(s: string, cs: set<char>)
    ensures Strip(s, cs) == [] <==> AllIn(s, cs)
    ensures Strip(s, cs) != [] ==> Trimmed(Strip(s, cs), cs)
    ensures var r := Strip(s, cs); var a := LeadLen(s, cs);
      a + |r| <= |s| && r == s[a..a + |r|] &&
      forall j :: 0 <= j < |s| && !(a <= j < a + |r|) ==> s[j] in cs
  {
    StripEmpty(s, cs);
    if LeadLen(s, cs) < |s| {
      StripEnds(s, cs);
    }
    StripAround(s, cs);
  }

  lemma StripEmpty(s: string, cs: set<char>)
    ensures Strip(s, cs) == [] <==> AllIn(s, cs)
  {
    var a := LeadLen(s, cs);
    if a < |s| {
      StripMiddle(s, cs);
      assert !AllIn(s, cs) by { assert s[a] !in cs; }
    } else {
      forall j | 0 <= j < |s|
        ensures s[j] in cs
      {
      }
    }
  }

  lemma StripEnds(s: string, cs: set<char>)
    requires LeadLen(s, cs) < |s|
    ensures Trimmed(Strip(s, cs), cs)
  {
    var a := LeadLen(s, cs);
    var t := TrailLen(s, cs);
    StripMiddle(s, cs);
    SliceTrimmed(s, a, |s| - t, cs);
  }

  lemma SliceTrimmed(s: string, a: nat, e: nat, cs: set<char>)
    requires a < e <= |s| && s[a] !in cs && s[e - 1] !in cs
    ensures Trimmed(s[a..e], cs)
  {
    var r := s[a..e];
    assert r[0] == s[a];
    assert r[|r| - 1] == s[e - 1];
  }

  lemma StripAround(s: string, cs: set<char>)
    ensures var r := Strip(s, cs); var a := LeadLen(s, cs);
      a + |r| <= |s| && r == s[a..a + |r|] &&
      forall j :: 0 <= j < |s| && !(a <= j < a + |r|) ==> s[j] in cs
  {
    var a := LeadLen(s, cs);
    var r := Strip(s, cs);
    if a < |s| {
      var t := TrailLen(s, cs);
      StripMiddle(s, cs);
      forall j | 0 <= j < |s| && !(a <= j < a + |r|)
        ensures s[j] in cs
      {
        if j >= a {
          assert |s| - t <= j;
        }
      }
    } else {
      assert r == [];
    }
  }

  /** When something is left, `strip` keeps the characters between the two runs. */
  lemma StripMiddle(s: string, cs: set<char>)
    requires LeadLen(s, cs) < |s|
    ensures LeadLen(s, cs) < |s| - TrailLen(s, cs)
    ensures Strip(s, cs) == s[LeadLen(s, cs)..|s| - TrailLen(s, cs)]
  {
    var a := LeadLen(s, cs);
    assert s[a] !in cs;
  }

  /** Stripping twice strips no more than stripping once. */
  lemma StripIdempotent(s: string, cs: set<char>)
    ensures Strip(Strip(s, cs), cs) == Strip(s, cs)
  {
    var r := Strip(s, cs);
    StripSpec(s, cs);
    if r != [] {
      assert LeadLen(r, cs) == 0;
      assert TrailLen(r, cs) == 0;
    }
  }

  /** A string whose two ends are outside `cs` is left as it is. */
  lemma StripKeepsTrimmed(s: string, cs: set<char>)
    requires s != [] ==> s[0] !in cs && s[|s| - 1] !in cs
    ensures Strip(s, cs) == s
  {
    if s != [] {
      assert LeadLen(s, cs) == 0;
      assert TrailLen(s, cs) == 0;
    }
  }

  // ---------------------------------------------------------------------
  // str.split(d) for a one-character delimiter, and its inverse d.join

  /** `s.split(d)`: the pieces between occurrences of `d`, empty pieces kept. */
  function SplitOn(s: string, d: char): (r: seq<string>)
    ensures |r| >= 1
    ensures forall k :: 0 <= k < |r| ==> d !in r[k]
  {
    if s == [] then [[]]
    else
      var rest := SplitOn(s[1..], d);
      if s[0] == d then [[]] + rest else [[s[0]] + rest[0]] + rest[1..]
  }

  /** `d.join(fs)` for a non-empty list of pieces. */
  function Join(fs: seq<string>, d: char): (r: string)
    requires |fs| >= 1
  {
    if |fs| == 1 then fs[0] else fs[0] + [d] + Join(fs[1..], d)
  }

  /** Joining the pieces of a split gives back the original line. */
  lemma {:induction false} JoinSplitOn(s: string, d: char)
    ensures Join(SplitOn(s, d), d) == s
  {
    if s != [] {
      var rest := SplitOn(s[1..], d);
      JoinSplitOn(s[1..], d);
      if s[0] == d {
        assert SplitOn(s, d) == [[]] + rest;
        assert ([[]] + rest)[1..] == rest;
      } else if |rest| == 1 {
        assert SplitOn(s, d) == [[s[0]] + rest[0]];
      } else {
        var r := SplitOn(s, d);
        assert r == [[s[0]] + rest[0]] + rest[1..];
        assert r[1..] == rest[1..];
        assert Join(rest, d) == rest[0] + [d] + Join(rest[1..], d);
        assert s == [s[0]] + s[1..];
      }
    }
  }

  /** A last character outside `cs` survives stripping. */
  lemma StripEndKept(s: string, cs: set<char>)
    requires s != [] && s[|s| - 1] !in cs
    ensures var r := Strip(s, cs); r != [] && r[|r| - 1] == s[|s| - 1]
  {
    StripSpec(s, cs);
    var a := LeadLen(s, cs);
    var r := Strip(s, cs);
    assert a <= |s| - 1 < a + |r|;
    assert r[|r| - 1] == s[a + |r| - 1];
  }

  /** When `s` ends with a character other than `d`, so does its last piece. */
  lemma {:induction false} SplitOnLast(s: string, d: char)
    requires s != [] && s[|s| - 1] != d
    ensures var r := SplitOn(s, d); var last := r[|r| - 1];
      last != [] && last[|last| - 1] == s[|s| - 1]
  {
    var rest := SplitOn(s[1..], d);
    if |s| == 1 {
      assert s[1..] == [];
      assert SplitOn(s, d) == [[s[0]] + rest[0]] + rest[1..];
    } else {
      SplitOnLast(s[1..], d);
      assert s[1..][|s| - 2] == s[|s| - 1];
    }
  }

  /** Splitting `w + t` where `w` holds no delimiter glues `w` onto the first piece of `t`. */
  lemma {:induction false} SplitOnPrefix(w: string, t: string, d: char)
    requires d !in w
    ensures SplitOn(w + t, d) == [w + SplitOn(t, d)[0]] + SplitOn(t, d)[1..]
  {
    if w != [] {
      SplitOnPrefix(w[1..], t, d);
      assert (w + t)[1..] == w[1..] + t;
      assert (w + t)[0] == w[0];
      assert [w[0]] + (w[1..] + SplitOn(t, d)[0]) == w + SplitOn(t, d)[0];
    } else {
      assert w + t == t;
      assert w + SplitOn(t, d)[0] == SplitOn(t, d)[0];
      assert SplitOn(t, d) == [SplitOn(t, d)[0]] + SplitOn(t, d)[1..];
    }
  }

  /** Splitting a join of delimiter-free pieces gives back the pieces. */
  lemma {:induction false} SplitOnJoin(fs: seq<string>, d: char)
    requires |fs| >= 1
    requires forall k :: 0 <= k < |fs| ==> d !in fs[k]
    ensures SplitOn(Join(fs, d), d) == fs
  {
    if |fs| == 1 {
      SplitOnPrefix(fs[0], [], d);
      assert fs[0] + [] == fs[0];
    } else {
      var t := Join(fs[1..], d);
      SplitOnJoin(fs[1..], d);
      SplitOnPrefix(fs[0], [d] + t, d);
      assert fs[0] + [d] + t == fs[0] + ([d] + t);
      assert ([d] + t)[1..] == t;
      assert SplitOn([d] + t, d) == [[]] + SplitOn(t, d);
      assert fs[0] + [] == fs[0];
      assert fs == [fs[0]] + fs[1..];
    }
  }

  // ---------------------------------------------------------------------
  // str.split() with no argument: runs of non-whitespace

  /** `s` holds no whitespace character. */
  predicate NoSpace(s: string) {
    forall j :: 0 <= j < |s| ==> s[j] !in Whitespace
  }

  /** `s.split()`: the maximal runs of non-whitespace characters, in order. */
  function SplitWs(s: string): (r: seq<string>)
    ensures forall k :: 0 <= k < |r| ==> r[k] != [] && NoSpace(r[k])
    ensures s != [] && s[0] !in Whitespace ==> |r| >= 1 && r[0][0] == s[0]
  {
    if s == [] then []
    else
      var rest := SplitWs(s[1..]);
      if s[0] in Whitespace then rest
      else if |s| > 1 && s[1] !in Whitespace then [[s[0]] + rest[0]] + rest[1..]
      else [[s[0]]] + rest
  }

  /** The characters of `s` that are not whitespace, in order. */
  function Visible(s: string): (r: string)
    ensures NoSpace(r)
  {
    if s == [] then [] else (if s[0] in Whitespace then [] else [s[0]]) + Visible(s[1..])
  }

  /** Concatenation of all pieces. */
  function Concat(fs: seq<string>): string {
    if fs == [] then [] else fs[0] + Concat(fs[1..])
  }

  /** `s.split()` loses only whitespace: its pieces, put together, are the visible characters. */
  lemma {:induction false} SplitWsKeepsText(s: string)
    ensures Concat(SplitWs(s)) == Visible(s)
  {
    if s != [] {
      var rest := SplitWs(s[1..]);
      SplitWsKeepsText(s[1..]);
      if s[0] !in Whitespace {
        if |s| > 1 && s[1] !in Whitespace {
          var r := [[s[0]] + rest[0]] + rest[1..];
          assert r[1..] == rest[1..];
          assert Concat(rest) == rest[0] + Concat(rest[1..]);
          assert Concat(r) == [s[0]] + rest[0] + Concat(rest[1..]);
        } else {
          assert ([[s[0]]] + rest)[1..] == rest;
        }
      }
    }
  }

  /** Leading whitespace is dropped. */
  lemma SplitWsSkip(c: char, t: string)
    requires c in Whitespace
    ensures SplitWs([c] + t) == SplitWs(t)
  {
    assert ([c] + t)[1..] == t;
  }

  /** A whitespace-free word followed by a space and more text splits off as one piece. */
  lemma {:induction false} SplitWsWord(w: string, t: string)
    requires w != [] && NoSpace(w)
    requires t == [] || t[0] in Whitespace
    ensures SplitWs(w + t) == [w] + SplitWs(t)
  {
    var s := w + t;
    assert s[1..] == w[1..] + t;
    if |w| == 1 {
      assert s[1..] == t;
      assert w == [s[0]];
      assert SplitWs(s) == [[s[0]]] + SplitWs(t);
    } else {
      SplitWsWord(w[1..], t);
      assert s[1] == w[1];
      assert [s[0]] + w[1..] == w;
    }
  }

  /** Splitting a space-joined list of words gives back the words. */
  lemma {:induction false} SplitWsJoin(fs: seq<string>)
    requires |fs| >= 1
    requires forall k :: 0 <= k < |fs| ==> fs[k] != [] && NoSpace(fs[k])
    ensures SplitWs(Join(fs, ' ')) == fs
  {
    if |fs| == 1 {
      SplitWsWord(fs[0], []);
      assert fs[0] + [] == fs[0];
    } else {
      var t := Join(fs[1..], ' ');
      SplitWsJoin(fs[1..]);
      SplitWsWord(fs[0], [' '] + t);
      assert fs[0] + [' '] + t == fs[0] + ([' '] + t);
      assert ([' '] + t)[1..] == t;
    }
  }

  // ---------------------------------------------------------------------
  // '%i' % n for a natural number

  function DigitChar(d: nat): (c: char)
    requires d < 10
  {
    ['0', '1', '2', '3', '4', '5', '6', '7', '8', '9'][d]
  }

  function DigitValue(c: char): nat {
    if '0' <= c <= '9' then (c as int - '0' as int) as nat else 0
  }

  /** `'%i' % n`: the decimal digits of `n`, with no leading zero. */
  function Decimal(n: nat): (r: string)
    ensures |r| >= 1
    ensures forall j :: 0 <= j < |r| ==> '0' <= r[j] <= '9'
    ensures |r| > 1 ==> r[0] != '0'
  {
    if n < 10 then [DigitChar(n)] else Decimal(n / 10) + [DigitChar(n % 10)]
  }

  lemma DigitRoundTrip(d: nat)
    requires d < 10
    ensures DigitValue(DigitChar(d)) == d
  {
  }

  /** The number a string of decimal digits denotes (`int(s)`). */
  function ParseDecimal(s: string): nat {
    if s == [] then 0 else ParseDecimal(s[..|s| - 1]) * 10 + DigitValue(s[|s| - 1])
  }

  /** Reading back what `Decimal` wrote gives the number. */
  lemma {:induction false} ParseDecimalInverse(n: nat)
    ensures ParseDecimal(Decimal(n)) == n
  {
    if n < 10 {
      assert Decimal(n)[..0] == [];
      DigitRoundTrip(n);
    } else {
      var s := Decimal(n);
      assert s[..|s| - 1] == Decimal(n / 10);
      ParseDecimalInverse(n / 10);
      DigitRoundTrip(n % 10);
      assert n == n / 10 * 10 + n % 10;
    }
  }

  /** Different numbers have different decimal forms. */
  lemma DecimalInjective(m: nat, n: nat)
    requires Decimal(m) == Decimal(n)
    ensures m == n
  {
    ParseDecimalInverse(m);
    ParseDecimalInverse(n);
  }

  // ---------------------------------------------------------------------

  /** `s.startswith(p)`. */
  predicate StartsWith(s: string, p: string) {
    |p| <= |s| && s[..|p|] == p
  }

  /** `s.startswith(p)` holds exactly when `s` is `p` followed by something. */
  lemma StartsWithSpec(p: string, t: string, s: string)
    ensures StartsWith(p + t, p)
    ensures StartsWith(s, p) ==> s == p + s[|p|..]
  {
    assert (p + t)[..|p|] == p;
  }

  /** `os.path.basename(p)` on POSIX: the part after the last `/`. */
  function Basename(p: string): (r: string)
    ensures |r| <= |p| && r == p[|p| - |r|..]
    ensures '/' !in r
    ensures |r| < |p| ==> p[|p| - |r| - 1] == '/'
  {
    if p == [] || p[|p| - 1] == '/' then [] else Basename(p[..|p| - 1]) + [p[|p| - 1]]
  }
}
