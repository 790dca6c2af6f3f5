/**
 * The parts of Python's `str` that the table code relies on:
 * `strip()` / `strip(chars)`, `split(sep)` for a one-character separator,
 * and the substring test `pat in s`.  Strings are sequences of code points.
 */
module PyStr {

  /** The characters `str.isspace()` accepts; `str.strip()` without an argument removes exactly these. */
  predicate IsSpace(c: char)
  {
    || '\t' <= c <= '\r'                      // tab, line feed, vertical tab, form feed, carriage return
    || '\U{001C}' <= c <= '\U{001F}'          // file, group, record and unit separators
    || c == ' ' || c == '\U{0085}' || c == '\U{00A0}' || c == '\U{1680}'
    || '\U{2000}' <= c <= '\U{200A}'          // en quad .. hair space
    || c == '\U{2028}' || c == '\U{2029}' || c == '\U{202F}' || c == '\U{205F}' || c == '\U{3000}'
  }

  /** The same characters as a set, for `Strip`. */
  const Whitespace: set<char> := set c: char | '\t' <= c <= '\U{3000}' && IsSpace(c)

  // ---------------------------------------------------------------------------
  // strip

  /** `s.lstrip(cs)`: drop the longest prefix made of characters of `cs`. */
  function LStrip(s: string, cs: set<char>): (r: string)
    ensures |r| <= |s|
  {
    if s != [] && s[0] in cs then LStrip(s[1..], cs) else s
  }

  /** `s.rstrip(cs)`: drop the longest suffix made of characters of `cs`. */
  function RStrip(s: string, cs: set<char>): (r: string)
    ensures |r| <= |s|
  {
    if s != [] && s[|s| - 1] in cs then RStrip(s[..|s| - 1], cs) else s
  }

  /** `s.strip(cs)`: both ends at once. */
  function Strip(s: string, cs: set<char>): (r: string)
    ensures |r| <= |s|
  {
    RStrip(LStrip(s, cs), cs)
  }

  /** `lstrip` removes a prefix of characters of `cs` and stops at the first character outside `cs`. */
  lemma {:induction false} LStripSpec(s: string, cs: set<char>)
    ensures LStrip(s, cs) == s[|s| - |LStrip(s, cs)|..]
    ensures forall k :: 0 <= k < |s| - |LStrip(s, cs)| ==> s[k] in cs
    ensures LStrip(s, cs) != [] ==> LStrip(s, cs)[0] !in cs
  {
    if s != [] && s[0] in cs {
      LStripSpec(s[1..], cs);
    }
  }

  /** `rstrip` removes a suffix of characters of `cs` and stops at the last character outside `cs`. */
  lemma {:induction false} RStripSpec(s: string, cs: set<char>)
    ensures RStrip(s, cs) == s[..|RStrip(s, cs)|]
    ensures forall k :: |RStrip(s, cs)| <= k < |s| ==> s[k] in cs
    ensures RStrip(s, cs) != [] ==> RStrip(s, cs)[|RStrip(s, cs)| - 1] !in cs
  {
    if s != [] && s[|s| - 1] in cs {
      RStripSpec(s[..|s| - 1], cs);
    }
  }

  /**
   * Where the stripped string sits inside `s`: everything before `lo`
   * and everything after `lo + |Strip(s, cs)|` is a character of `cs`,
   * and the stripped string neither starts nor ends with one.
   */
  lemma StripIsInfix(s: string, cs: set<char>) returns (lo: nat)
    ensures lo + |Strip(s, cs)| <= |s|
    ensures Strip(s, cs) == s[lo..lo + |Strip(s, cs)|]
    ensures forall k :: 0 <= k < lo ==> s[k] in cs
    ensures forall k :: lo + |Strip(s, cs)| <= k < |s| ==> s[k] in cs
    ensures Strip(s, cs) != [] ==> Strip(s, cs)[0] !in cs && Strip(s, cs)[|Strip(s, cs)| - 1] !in cs
  {
    var l := LStrip(s, cs);
    var r := RStrip(l, cs);
    LStripSpec(s, cs);
    RStripSpec(l, cs);
    lo := |s| - |l|;
    forall k | lo + |r| <= k < |s| ensures s[k] in cs {
      assert s[k] == l[k - lo];
    }
    if r != [] {
      assert r[0] == l[0];
    }
  }

  /** Only a string made entirely of characters of `cs` strips to nothing. */
  lemma StripEmptyIff(s: string, cs: set<char>)
    ensures Strip(s, cs) == [] <==> forall k :: 0 <= k < |s| ==> s[k] in cs
  {
    var lo := StripIsInfix(s, cs);
    if Strip(s, cs) != [] {
      assert s[lo] !in cs;
    }
  }

  /**
   * The stripped string is determined by the characterisation above: any
   * infix of `s` whose surroundings are made of `cs` and whose ends are not
   * in `cs` is `Strip(s, cs)`.
   */
  lemma StripUnique(s: string, cs: set<char>, lo: nat, hi: nat)
    requires lo <= hi <= |s|
    requires forall k :: 0 <= k < lo ==> s[k] in cs
    requires forall k :: hi <= k < |s| ==> s[k] in cs
    requires lo < hi ==> s[lo] !in cs && s[hi - 1] !in cs
    requires lo == hi ==> forall k :: 0 <= k < |s| ==> s[k] in cs
    ensures Strip(s, cs) == s[lo..hi]
  {
    var t := Strip(s, cs);
    var lo' := StripIsInfix(s, cs);
    StripEmptyIff(s, cs);
    if lo == hi {
      assert t == [];
    } else {
      // both infixes start at the first character outside cs and end at the last
      assert t != [] by { assert s[lo] !in cs; }
      var hi' := lo' + |t|;
      assert s[lo'] == t[0] && s[hi' - 1] == t[|t| - 1];
      assert lo == lo';
      assert hi == hi';
    }
  }

  /** Stripping twice is stripping once. */
  lemma StripIdempotent(s: string, cs: set<char>)
    ensures Strip(Strip(s, cs), cs) == Strip(s, cs)
  {
    var t := Strip(s, cs);
    var _ := StripIsInfix(s, cs);
    if t != [] {
      StripUnique(t, cs, 0, |t|);
    }
  }

  // ---------------------------------------------------------------------------
  // split and join

  /** `s.split(sep)` for a one-character separator: never empty, `"".split(sep) == [""]`. */
  function Split(s: string, sep: char): (parts: seq<string>)
    ensures |parts| >= 1
  {
    if s == [] then [""]
    else if s[0] == sep then [""] + Split(s[1..], sep)
    else
      var rest := Split(s[1..], sep);
      [[s[0]] + rest[0]] + rest[1..]
  }

  /** The pieces hold no separator, and there is one more piece than separators. */
  lemma {:induction false} SplitSpec(s: string, sep: char)
    ensures forall i :: 0 <= i < |Split(s, sep)| ==> sep !in Split(s, sep)[i]
    ensures |Split(s, sep)| == Count(s, sep) + 1
  {
    if s != [] {
      SplitSpec(s[1..], sep);
    }
  }

  /** How often `c` occurs in `s` (Python's `s.count(c)`). */
  function Count(s: string, c: char): nat
  {
    if s == [] then 0 else (if s[0] == c then 1 else 0) + Count(s[1..], c)
  }

  /** `sep.join(parts)`: the inverse of `Split`. */
  function Join(parts: seq<string>, sep: char): string
  {
    if parts == [] then ""
    else if |parts| == 1 then parts[0]
    else parts[0] + [sep] + Join(parts[1..], sep)
  }

  /** Joining the pieces of a split gives back the original string. */
  lemma {:induction false} JoinSplit(s: string, sep: char)
    ensures Join(Split(s, sep), sep) == s
  {
    if s == [] {
    } else if s[0] == sep {
      JoinSplit(s[1..], sep);
      var rest := Split(s[1..], sep);
      assert Split(s, sep) == [""] + rest;
      assert Join([""] + rest, sep) == "" + [sep] + Join(rest, sep) by {
        assert ([""] + rest)[1..] == rest;
      }
    } else {
      JoinSplit(s[1..], sep);
      var rest := Split(s[1..], sep);
      var parts := Split(s, sep);
      assert parts == [[s[0]] + rest[0]] + rest[1..];
      if |rest| == 1 {
        assert Join(parts, sep) == [s[0]] + rest[0];
      } else {
        assert parts[1..] == rest[1..];
        assert Join(rest, sep) == rest[0] + [sep] + Join(rest[1..], sep);
        assert Join(parts, sep) == [s[0]] + rest[0] + [sep] + Join(rest[1..], sep);
      }
    }
  }

  /** Splitting a join of separator-free pieces gives back the pieces. */
  lemma {:induction false} SplitJoin(parts: seq<string>, sep: char)
    requires |parts| >= 1
    requires forall i :: 0 <= i < |parts| ==> sep !in parts[i]
    ensures Split(Join(parts, sep), sep) == parts
  {
    if |parts| == 1 {
      SplitPiece(parts[0], [], sep);
      assert parts[0] + [] == parts[0];
    } else {
      SplitJoin(parts[1..], sep);
      var rest := Join(parts[1..], sep);
      SplitPiece(parts[0], [sep] + rest, sep);
      assert parts[0] + [sep] + rest == parts[0] + ([sep] + rest);
      assert ([sep] + rest)[1..] == rest;
      assert Split([sep] + rest, sep) == [""] + Split(rest, sep);
      assert parts[0] + "" == parts[0];
      assert [parts[0]] + parts[1..] == parts;
    }
  }

  /** A separator-free prefix glues onto the first piece of what follows it. */
  lemma {:induction false} SplitPiece(p: string, t: string, sep: char)
    requires sep !in p
    ensures Split(p + t, sep) == [p + Split(t, sep)[0]] + Split(t, sep)[1..]
  {
    if p == [] {
      assert p + t == t;
      assert p + Split(t, sep)[0] == Split(t, sep)[0];
      assert [Split(t, sep)[0]] + Split(t, sep)[1..] == Split(t, sep);
    } else {
      SplitPiece(p[1..], t, sep);
      assert (p + t)[1..] == p[1..] + t;
      assert [p[0]] + (p[1..] + Split(t, sep)[0]) == p + Split(t, sep)[0];
    }
  }

  // ---------------------------------------------------------------------------
  // substring test

  /** Python's `pat in s` for strings. */
  predicate Contains(s: string, pat: string)
  {
    exists i :: 0 <= i <= |s| - |pat| && OccursAt(s, pat, i)
  }

  /** `pat` is found in `s` starting at position `i`. */
  predicate OccursAt(s: string, pat: string, i: nat)
    requires i + |pat| <= |s|
  {
    s[i..i + |pat|] == pat
  }
}
